/** The operation log's retry queue: records reach the file in order, each once, whatever fails. */
module OperationLog {

  /** An append-only daily log file behind a port that may refuse any attempt and then writes nothing. */
  class Appender<R> {
    var written: seq<R>
    var attempts: nat
    /** Whether the attempt of this number goes through. */
    const accepts: nat -> bool

    constructor (outcome: nat -> bool)
      ensures written == [] && attempts == 0 && accepts == outcome
    {
      written, attempts, accepts := [], 0, outcome;
    }

    method Append(record: R) returns (ok: bool)
      modifies this
      ensures ok == accepts(old(attempts)) && attempts == old(attempts) + 1
      ensures written == if ok then old(written) + [record] else old(written)
    {
      ok := accepts(attempts);
      attempts := attempts + 1;
      if ok {
        written := written + [record];
      }
    }
  }

  /** The first `n` attempts from `start` go through, and the next one does not, unless `n` are all there are. */
  ghost predicate GoThrough(accepts: nat -> bool, start: nat, n: nat, all: nat) {
    n <= all && (forall i :: start <= i < start + n ==> accepts(i)) && (n < all ==> !accepts(start + n))
  }

  class OperationLog<R> {
    const appender: Appender<R>
    var pending: seq<R>

    constructor (port: Appender<R>)
      ensures appender == port && pending == []
    {
      appender := port;
      pending := [];
    }

    /**
     * Appends queued records from the front until one is refused. What was written is exactly what
     * left the queue; a refusal leaves the refused record at the front with everything behind it.
     */
    method FlushPending() returns (ok: bool)
      modifies this, appender
      ensures appender.written + pending == old(appender.written) + old(pending)
      ensures old(appender.written) <= appender.written && |pending| <= |old(pending)|
      ensures pending == old(pending)[|old(pending)| - |pending|..]
      ensures ok <==> pending == []
      ensures Log(appender.written, pending)
              == Drain(Log(old(appender.written), old(pending)), |old(pending)| - |pending|)
      ensures GoThrough(appender.accepts, old(appender.attempts), |old(pending)| - |pending|, |old(pending)|)
    {
      ghost var before := Log(appender.written, pending);
      while pending != []
        invariant |pending| <= |old(pending)| && pending == old(pending)[|old(pending)| - |pending|..]
        invariant appender.written == old(appender.written) + old(pending)[..|old(pending)| - |pending|]
        invariant appender.attempts == old(appender.attempts) + |old(pending)| - |pending|
        invariant forall i :: old(appender.attempts) <= i < appender.attempts ==> appender.accepts(i)
        decreases |pending|
      {
        var accepted := appender.Append(pending[0]);
        if !accepted {
          DrainIs(before, |before.pending| - |pending|);
          return false;
        }
        pending := pending[1..];
      }
      DrainIs(before, |before.pending|);
      ok := true;
    }

    method Flush() returns (ok: bool)
      modifies this, appender
      ensures appender.written + pending == old(appender.written) + old(pending) && |pending| <= |old(pending)|
      ensures old(appender.written) <= appender.written && (ok <==> pending == [])
      ensures GoThrough(appender.accepts, old(appender.attempts), |old(pending)| - |pending|, |old(pending)|)
    {
      ok := FlushPending();
    }

    /** Queues one record behind everything still waiting, then flushes. */
    method AppendRecord(record: R) returns (ok: bool)
      modifies this, appender
      ensures appender.written + pending == old(appender.written) + old(pending) + [record]
      ensures old(appender.written) <= appender.written && (ok <==> pending == []) && |pending| <= |old(pending)| + 1
      ensures GoThrough(appender.accepts, old(appender.attempts), |old(pending)| + 1 - |pending|, |old(pending)| + 1)
    {
      pending := pending + [record];
      ok := FlushPending();
    }
  }

  // ---------- whole runs ----------

  datatype Log<R> = Log(written: seq<R>, pending: seq<R>)

  /** A call, with the number of appends the port accepts during it before it refuses one. */
  datatype Call<R> = Append(record: R, accepts: nat) | Flush(accepts: nat)

  function Drain<R>(log: Log<R>, accepts: nat): Log<R>
    decreases |log.pending|
  {
    if log.pending == [] || accepts == 0 then log
    else Drain(Log(log.written + [log.pending[0]], log.pending[1..]), accepts - 1)
  }

  function Apply<R>(log: Log<R>, call: Call<R>): Log<R> {
    match call
    case Append(record, accepts) => Drain(log.(pending := log.pending + [record]), accepts)
    case Flush(accepts) => Drain(log, accepts)
  }

  function RunCalls<R>(log: Log<R>, calls: seq<Call<R>>): Log<R>
    decreases |calls|
  {
    if calls == [] then log else RunCalls(Apply(log, calls[0]), calls[1..])
  }

  function Submitted<R>(calls: seq<Call<R>>): seq<R> {
    if calls == [] then []
    else (match calls[0] case Append(record, _) => [record] case Flush(_) => []) + Submitted(calls[1..])
  }

  lemma {:induction false} DrainIs<R>(log: Log<R>, accepts: nat)
    requires accepts <= |log.pending|
    ensures Drain(log, accepts) == Log(log.written + log.pending[..accepts], log.pending[accepts..])
    decreases accepts
  {
    if accepts > 0 {
      DrainIs(Log(log.written + [log.pending[0]], log.pending[1..]), accepts - 1);
      assert log.pending[..accepts] == [log.pending[0]] + log.pending[1..][..accepts - 1];
    } else {
      assert log.written + log.pending[..0] == log.written;
    }
  }

  lemma {:induction false} DrainConserves<R>(log: Log<R>, accepts: nat)
    ensures var after := Drain(log, accepts);
            && after.written + after.pending == log.written + log.pending
            && |after.written| == |log.written| + if accepts < |log.pending| then accepts else |log.pending|
    decreases |log.pending|
  {
    if log.pending != [] && accepts > 0 {
      var next := Log(log.written + [log.pending[0]], log.pending[1..]);
      assert next.written + next.pending == log.written + log.pending;
      DrainConserves(next, accepts - 1);
    }
  }

  /** Written records followed by queued records are the submitted records, in order, each once. */
  lemma {:induction false} RunConserves<R>(log: Log<R>, calls: seq<Call<R>>)
    ensures var end := RunCalls(log, calls);
            end.written + end.pending == log.written + log.pending + Submitted(calls)
    decreases |calls|
  {
    if calls == [] {
      assert log.written + log.pending + Submitted(calls) == log.written + log.pending;
    } else {
      var before := match calls[0]
        case Append(record, _) => log.(pending := log.pending + [record])
        case Flush(_) => log;
      DrainConserves(before, calls[0].accepts);
      RunConserves(Apply(log, calls[0]), calls[1..]);
    }
  }

  /** Nothing already written is ever rewritten, and one unhindered flush empties the queue. */
  lemma {:induction false} RunOnlyAppends<R>(log: Log<R>, calls: seq<Call<R>>, accepts: nat)
    ensures log.written <= RunCalls(log, calls).written
    ensures var end := RunCalls(log, calls);
            accepts >= |end.pending| ==>
              Apply(end, Flush(accepts)) == Log(log.written + log.pending + Submitted(calls), [])
    decreases |calls|
  {
    var end := RunCalls(log, calls);
    RunConserves(log, calls);
    DrainConserves(end, accepts);
    if calls != [] {
      var before := match calls[0]
        case Append(record, _) => log.(pending := log.pending + [record])
        case Flush(_) => log;
      DrainConserves(before, calls[0].accepts);
      DrainExtends(before, calls[0].accepts);
      RunOnlyAppends(Apply(log, calls[0]), calls[1..], accepts);
    }
    if accepts >= |end.pending| {
      var flushed := Drain(end, accepts);
      assert |flushed.written + flushed.pending| == |end.written + end.pending|;
      assert flushed.pending == [];
      assert flushed.written + flushed.pending == flushed.written;
    }
  }

  lemma {:induction false} DrainExtends<R>(log: Log<R>, accepts: nat)
    ensures log.written <= Drain(log, accepts).written
    decreases |log.pending|
  {
    if log.pending != [] && accepts > 0 {
      DrainExtends(Log(log.written + [log.pending[0]], log.pending[1..]), accepts - 1);
    }
  }
}
