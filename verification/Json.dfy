/** JSON values with insertion-ordered objects, as serde_json keeps them with `preserve_order`. */
module Json {
  import opened Text

  datatype Number = Integer(i: int) | Float(r: real)

  datatype Field = Field(key: string, value: Value)

  datatype Value =
    | Null
    | Bool(b: bool)
    | Num(n: Number)
    | Str(s: string)
    | Arr(items: seq<Value>)
    | Obj(fields: seq<Field>)

  type Object = seq<Field>

  predicate HasKey(o: Object, key: string) {
    exists i :: 0 <= i < |o| && o[i].key == key
  }

  /** The object's keys in order. */
  function Keys(o: Object): (ks: seq<string>)
    ensures |ks| == |o| && forall i :: 0 <= i < |o| ==> ks[i] == o[i].key
  {
    seq(|o|, i requires 0 <= i < |o| => o[i].key)
  }

  /** No key occurs twice: the invariant of `serde_json::Map`. */
  predicate Unique(o: Object) {
    forall i, j :: 0 <= i < j < |o| ==> o[i].key != o[j].key
  }

  function Get(o: Object, key: string): (r: Option<Value>)
    ensures r.Some? <==> HasKey(o, key)
    ensures r.Some? ==> Field(key, r.value) in o
  {
    if o == [] then None
    else if o[0].key == key then Some(o[0].value)
    else
      var r := Get(o[1..], key);
      assert HasKey(o, key) <==> HasKey(o[1..], key) by {
        if HasKey(o, key) { var i :| 0 <= i < |o| && o[i].key == key; assert o[1..][i - 1].key == key; }
        if HasKey(o[1..], key) { var i :| 0 <= i < |o[1..]| && o[1..][i].key == key; assert o[i + 1].key == key; }
      }
      r
  }

  lemma GetAt(o: Object, i: nat)
    requires Unique(o) && i < |o|
    ensures Get(o, o[i].key) == Some(o[i].value)
  {
    var r := Get(o, o[i].key);
    assert HasKey(o, o[i].key);
    var j :| 0 <= j < |o| && o[j] == Field(o[i].key, r.value);
  }

  /** Sets a key: in place when present, appended otherwise. */
  function Insert(o: Object, key: string, value: Value): (r: Object)
    ensures HasKey(r, key)
  {
    if o == [] then
      var r := [Field(key, value)];
      assert r[0].key == key;
      r
    else if o[0].key == key then
      var r := [Field(key, value)] + o[1..];
      assert r[0].key == key;
      r
    else
      var rest := Insert(o[1..], key, value);
      var r := [o[0]] + rest;
      assert HasKey(r, key) by { var i :| 0 <= i < |rest| && rest[i].key == key; assert r[i + 1].key == key; }
      r
  }

  /** `shift_remove`: later fields keep their relative order. */
  function Remove(o: Object, key: string): Object {
    if o == [] then [] else if o[0].key == key then o[1..] else [o[0]] + Remove(o[1..], key)
  }

  lemma KeysCons(f: Field, rest: Object)
    ensures Keys([f] + rest) == [f.key] + Keys(rest)
  {
  }

  lemma {:induction false} InsertKeys(o: Object, key: string, value: Value)
    ensures Keys(Insert(o, key, value)) == if HasKey(o, key) then Keys(o) else Keys(o) + [key]
    decreases |o|
  {
    if o == [] {
    } else if o[0].key == key {
      assert HasKey(o, key);
    } else {
      InsertKeys(o[1..], key, value);
      HasKeyTail(o, key);
      KeysCons(o[0], o[1..]);
      KeysCons(o[0], Insert(o[1..], key, value));
      assert o == [o[0]] + o[1..];
    }
  }

  lemma HasKeyTail(o: Object, key: string)
    requires o != [] && o[0].key != key
    ensures HasKey(o, key) <==> HasKey(o[1..], key)
  {
    if HasKey(o, key) { var i :| 0 <= i < |o| && o[i].key == key; assert o[1..][i - 1].key == key; }
    if HasKey(o[1..], key) { var i :| 0 <= i < |o[1..]| && o[1..][i].key == key; assert o[i + 1].key == key; }
  }

  lemma {:induction false} InsertGet(o: Object, key: string, value: Value, other: string)
    ensures Get(Insert(o, key, value), other) == if other == key then Some(value) else Get(o, other)
    decreases |o|
  {
    if o == [] {
      assert Get([Field(key, value)][1..], other) == None;
    } else if o[0].key != key {
      InsertGet(o[1..], key, value, other);
    }
  }

  lemma {:induction false} RemoveGet(o: Object, key: string, other: string)
    requires Unique(o)
    ensures Get(Remove(o, key), other) == if other == key then None else Get(o, other)
    decreases |o|
  {
    if o == [] {
    } else if o[0].key == key {
      if other == key { assert !HasKey(o[1..], key); }
    } else {
      RemoveGet(o[1..], key, other);
    }
  }

  lemma {:induction false} RemoveKeys(o: Object, key: string)
    requires Unique(o)
    ensures Keys(Remove(o, key)) == Without(Keys(o), key)
    decreases |o|
  {
    if o == [] {
    } else {
      KeysCons(o[0], o[1..]);
      assert o == [o[0]] + o[1..];
      if o[0].key == key {
        assert key !in Keys(o[1..]);
        WithoutAbsent(Keys(o[1..]), key);
      } else {
        RemoveKeys(o[1..], key);
        KeysCons(o[0], Remove(o[1..], key));
      }
    }
  }

  /** The sequence without the occurrences of `key`. */
  function Without(ks: seq<string>, key: string): seq<string> {
    if ks == [] then [] else (if ks[0] == key then [] else [ks[0]]) + Without(ks[1..], key)
  }

  lemma WithoutAbsent(ks: seq<string>, key: string)
    requires key !in ks
    ensures Without(ks, key) == ks
  {
  }

  lemma InsertUnique(o: Object, key: string, value: Value)
    requires Unique(o)
    ensures Unique(Insert(o, key, value))
  {
    InsertKeys(o, key, value);
    var r := Insert(o, key, value);
    forall i, j | 0 <= i < j < |r| ensures r[i].key != r[j].key {
      assert r[i].key == Keys(r)[i] && r[j].key == Keys(r)[j];
    }
  }

  lemma {:induction false} RemoveUnique(o: Object, key: string)
    requires Unique(o)
    ensures Unique(Remove(o, key))
    ensures forall f :: f in Remove(o, key) ==> f in o
    decreases |o|
  {
    if o != [] && o[0].key != key {
      RemoveUnique(o[1..], key);
      var rest := Remove(o[1..], key);
      forall j | 0 <= j < |rest| ensures rest[j].key != o[0].key { assert rest[j] in o[1..]; }
    }
  }

  function AsStr(v: Option<Value>): Option<string> {
    if v.Some? && v.value.Str? then Some(v.value.s) else None
  }
}
