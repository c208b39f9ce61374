/** `index.md` from unordered entries: validation, display order, and what does not depend on input order. */
module IndexOrder {
  import opened Text
  import opened IndexBlock
  import opened IndexReconcile

  /** Unicode lower-casing is a parameter of the sort key. */
  type Lower = string -> string

  function KindRank(kind: EntryKind): nat {
    if kind.Directory? then 0 else 1
  }

  /** Directories first, then case-insensitively by name, then by name. */
  predicate Precedes(a: Entry, b: Entry, lower: Lower) {
    var ka, kb := KindRank(a.kind), KindRank(b.kind);
    ka < kb || (ka == kb &&
      ((lower(a.name) != lower(b.name) && LexLe(lower(a.name), lower(b.name)))
       || (lower(a.name) == lower(b.name) && LexLe(a.name, b.name))))
  }

  lemma PrecedesTotal(a: Entry, b: Entry, lower: Lower)
    ensures Precedes(a, b, lower) || Precedes(b, a, lower)
    ensures Precedes(a, b, lower) && Precedes(b, a, lower) ==> a.name == b.name
  {
    LexTotal(lower(a.name), lower(b.name));
    LexTotal(a.name, b.name);
    if LexLe(lower(a.name), lower(b.name)) && LexLe(lower(b.name), lower(a.name)) {
      LexAntisymmetric(lower(a.name), lower(b.name));
    }
    if LexLe(a.name, b.name) && LexLe(b.name, a.name) {
      LexAntisymmetric(a.name, b.name);
    }
  }

  lemma PrecedesTransitive(a: Entry, b: Entry, c: Entry, lower: Lower)
    requires Precedes(a, b, lower) && Precedes(b, c, lower)
    ensures Precedes(a, c, lower)
  {
    var la, lb, lc := lower(a.name), lower(b.name), lower(c.name);
    if LexLe(la, lb) && LexLe(lb, lc) {
      LexTransitive(la, lb, lc);
      if la == lc { LexAntisymmetric(la, lb); }
    }
    if LexLe(a.name, b.name) && LexLe(b.name, c.name) {
      LexTransitive(a.name, b.name, c.name);
    }
  }

  ghost predicate Ordered(entries: seq<Entry>, lower: Lower) {
    forall i, j :: 0 <= i < j < |entries| ==> Precedes(entries[i], entries[j], lower)
  }

  function InsertEntry(e: Entry, entries: seq<Entry>, lower: Lower): seq<Entry> {
    if entries == [] then [e]
    else if Precedes(e, entries[0], lower) then [e] + entries
    else [entries[0]] + InsertEntry(e, entries[1..], lower)
  }

  function SortEntries(entries: seq<Entry>, lower: Lower): seq<Entry> {
    if entries == [] then [] else InsertEntry(entries[0], SortEntries(entries[1..], lower), lower)
  }

  lemma {:induction false} InsertKeepsOrder(e: Entry, entries: seq<Entry>, lower: Lower)
    requires Ordered(entries, lower)
    ensures Ordered(InsertEntry(e, entries, lower), lower)
    ensures multiset(InsertEntry(e, entries, lower)) == multiset(entries) + multiset{e}
    decreases |entries|
  {
    hide Precedes;
    if entries != [] {
      assert entries == [entries[0]] + entries[1..];
      if Precedes(e, entries[0], lower) {
        forall j | 0 <= j < |entries| ensures Precedes(e, entries[j], lower) {
          if j > 0 { PrecedesTransitive(e, entries[0], entries[j], lower); }
        }
        ConsKeepsOrder(e, entries, lower);
      } else {
        PrecedesTotal(e, entries[0], lower);
        var rest := InsertEntry(e, entries[1..], lower);
        InsertKeepsOrder(e, entries[1..], lower);
        forall j | 0 <= j < |rest| ensures Precedes(entries[0], rest[j], lower) {
          assert rest[j] in multiset(rest);
          assert rest[j] == e || rest[j] in entries[1..];
        }
        ConsKeepsOrder(entries[0], rest, lower);
      }
    }
  }

  lemma ConsKeepsOrder(e: Entry, rest: seq<Entry>, lower: Lower)
    requires Ordered(rest, lower) && forall j :: 0 <= j < |rest| ==> Precedes(e, rest[j], lower)
    ensures Ordered([e] + rest, lower) && multiset([e] + rest) == multiset(rest) + multiset{e}
  {
    hide Precedes;
  }

  /** Sorting orders the entries and keeps each exactly as often. */
  lemma {:induction false} SortOrders(entries: seq<Entry>, lower: Lower)
    ensures Ordered(SortEntries(entries, lower), lower)
    ensures multiset(SortEntries(entries, lower)) == multiset(entries)
    decreases |entries|
  {
    hide Ordered, Precedes, InsertEntry;
    if entries == [] {
      NothingOrdered(lower);
    } else {
      SortOrders(entries[1..], lower);
      InsertKeepsOrder(entries[0], SortEntries(entries[1..], lower), lower);
      assert entries == [entries[0]] + entries[1..];
    }
  }

  lemma NothingOrdered(lower: Lower)
    ensures Ordered([], lower)
  {
  }

  lemma DistinctIsMultisetProperty(a: seq<Entry>, b: seq<Entry>)
    requires multiset(a) == multiset(b) && DistinctNames(a)
    ensures DistinctNames(b)
  {
    forall i, j | 0 <= i < j < |b| ensures b[i].name != b[j].name {
      assert b[i] in multiset(b) && b[j] in multiset(b);
      var x :| 0 <= x < |a| && a[x] == b[i];
      var y :| 0 <= y < |a| && a[y] == b[j];
      if x == y {
        assert b == b[..j] + [b[j]] + b[j + 1..];
        assert b[..j][i] == b[j];
        assert multiset(b)[b[j]] >= 2;
        DistinctCount(a, x);
      }
    }
  }

  lemma DistinctCount(a: seq<Entry>, x: nat)
    requires DistinctNames(a) && x < |a|
    ensures multiset(a)[a[x]] == 1
  {
    assert a == a[..x] + [a[x]] + a[x + 1..];
    assert a[x] !in a[..x] && a[x] !in a[x + 1..];
  }

  /** There is only one order: two ordered arrangements of the same distinct entries are equal. */
  lemma {:induction false} OrderIsUnique(a: seq<Entry>, b: seq<Entry>, lower: Lower)
    requires multiset(a) == multiset(b) && DistinctNames(a) && Ordered(a, lower) && Ordered(b, lower)
    ensures a == b
    decreases |a|
  {
    hide Ordered, DistinctNames;
    assert |multiset(a)| == |a| && |multiset(b)| == |b|;
    if a != [] {
      HeadsAgree(a, b, lower);
      TailOrdered(a, lower);
      TailOrdered(b, lower);
      OrderIsUnique(a[1..], b[1..], lower);
      assert a == [a[0]] + a[1..] && b == [b[0]] + b[1..];
    }
  }

  lemma TailOrdered(a: seq<Entry>, lower: Lower)
    requires a != [] && Ordered(a, lower)
    ensures Ordered(a[1..], lower) && (DistinctNames(a) ==> DistinctNames(a[1..]))
    ensures multiset(a[1..]) == multiset(a) - multiset{a[0]}
  {
    hide Precedes;
    assert a == [a[0]] + a[1..];
  }

  lemma HeadsAgree(a: seq<Entry>, b: seq<Entry>, lower: Lower)
    requires a != [] && b != []
    requires multiset(a) == multiset(b) && DistinctNames(a) && Ordered(a, lower) && Ordered(b, lower)
    ensures a[0] == b[0]
  {
    hide Precedes;
    assert a[0] in multiset(b) && b[0] in multiset(a);
    var i :| 0 <= i < |b| && b[i] == a[0];
    var j :| 0 <= j < |a| && a[j] == b[0];
    PrecedesTotal(a[0], b[0], lower);
  }

  /** `IndexDocument::try_from`: validate, order, reconcile. */
  function IndexDocument(
      source: Option<string>, directory: string, entries: seq<Entry>, upper: Upper, lower: Lower): Outcome
  {
    match Validate(entries, 0, {})
    case Some(error) => Rejected(error)
    case None => Reconcile(source, directory, upper, SortEntries(entries, lower))
  }

  /** An entry name the file system may hand over. */
  predicate ValidName(name: string) {
    name != [] && '\r' !in name && '\n' !in name
  }

  /** Validation accepts exactly non-empty, one-line, pairwise distinct names. */
  lemma {:induction false} ValidateDecides(entries: seq<Entry>, index: nat, seen: set<string>)
    requires index <= |entries|
    ensures Validate(entries, index, seen) == None <==>
              (forall i :: index <= i < |entries| ==> ValidName(entries[i].name) && entries[i].name !in seen)
              && (forall i, j :: index <= i < j < |entries| ==> entries[i].name != entries[j].name)
    decreases |entries| - index
  {
    if index < |entries| {
      ValidateDecides(entries, index + 1, seen + {entries[index].name});
    }
  }

  /** The document depends on which entries there are, not on the order in which they were listed. */
  lemma OrderIrrelevant(
      source: Option<string>, directory: string, a: seq<Entry>, b: seq<Entry>, upper: Upper, lower: Lower)
    requires multiset(a) == multiset(b)
    requires Validate(a, 0, {}) == None
    ensures IndexDocument(source, directory, a, upper, lower) == IndexDocument(source, directory, b, upper, lower)
  {
    ValidateDecides(a, 0, {});
    ValidateDecides(b, 0, {});
    DistinctIsMultisetProperty(a, b);
    forall i | 0 <= i < |b| ensures ValidName(b[i].name) {
      assert b[i] in multiset(b);
      assert b[i] in a;
    }
    SortOrders(a, lower);
    SortOrders(b, lower);
    DistinctIsMultisetProperty(a, SortEntries(a, lower));
    OrderIsUnique(SortEntries(a, lower), SortEntries(b, lower), lower);
  }

  /**
   * Writing a document and reconciling it again with the same entries, in any order, changes nothing
   * exactly when no name and no newly derived summary holds a marker and the rows read back alike.
   */
  lemma DocumentIdempotentIff(
      source: Option<string>, directory: string, a: seq<Entry>, b: seq<Entry>, upper: Upper, lower: Lower)
    requires multiset(a) == multiset(b)
    requires forall c :: c != '-' ==> '-' !in upper(c)
    ensures var r, sorted := IndexDocument(source, directory, a, upper, lower), SortEntries(a, lower);
            r.Document? ==>
              (IndexDocument(Some(r.text), directory, b, upper, lower) == r <==>
               MarkerFree(sorted, Kept(source)) && RowsReadAlike(sorted, Kept(source)))
  {
    hide Reconcile, MarkerFree, RowsReadAlike, Kept;
    if Validate(a, 0, {}) == None {
      ValidateDecides(a, 0, {});
      var sorted := SortEntries(a, lower);
      SortOrders(a, lower);
      forall i | 0 <= i < |sorted| ensures OneLineName(sorted[i].name) {
        assert sorted[i] in multiset(sorted);
        assert sorted[i] in a;
      }
      IdempotentIff(source, directory, upper, sorted);
      var r := IndexDocument(source, directory, a, upper, lower);
      if r.Document? {
        OrderIrrelevant(Some(r.text), directory, a, b, upper, lower);
      }
    }
  }
}
