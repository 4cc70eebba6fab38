/** The stream table: how the gate orders it, and how the build numbers it. */
module StreamTable {
  import opened Types
  import opened Plan
  import Sorting

  datatype Stream = Stream(source: nat, length: nat)

  // -------------------------------------------------------------- the gate's order

  /** Pairs compare by source, then by length. */
  predicate NoLater(a: Stream, b: Stream) {
    a.source < b.source || (a.source == b.source && a.length <= b.length)
  }

  /** The table sorted, as the gate reads it. */
  function Sorted(table: seq<Stream>): (r: seq<Stream>)
    ensures |r| == |table| && forall x :: x in r <==> x in table
  {
    Sorting.SortedBy(NoLater, table)
  }

  ghost predicate InOrder(streams: seq<Stream>) {
    forall i, j :: 0 <= i < j < |streams| ==> NoLater(streams[i], streams[j])
  }

  lemma {:induction false} SortedIsInOrder(table: seq<Stream>)
    ensures InOrder(Sorted(table)) && multiset(Sorted(table)) == multiset(table)
  {
    Sorting.SortSorts(NoLater, table);
  }

  ghost predicate DistinctSources(table: seq<Stream>) {
    forall i, j :: 0 <= i < j < |table| ==> table[i].source != table[j].source
  }

  /** The stream at `j` repeats the source of an earlier one. */
  ghost predicate Repeats(table: seq<Stream>, j: nat) {
    exists i: nat :: i < j < |table| && table[i].source == table[j].source
  }

  /** `at` lists, in ascending order, exactly the positions below `n` that repeat a source. */
  ghost predicate RepeatsBelow(table: seq<Stream>, n: nat, at: seq<nat>) {
    && (forall i, j :: 0 <= i < j < |at| ==> at[i] < at[j])
    && (forall j: nat :: j in at <==> j < n && Repeats(table, j))
  }

  /** The repeats are the sources found at those positions, one for each, in the table's order. */
  ghost predicate FoundAt(table: seq<Stream>, at: seq<nat>, repeated: seq<nat>) {
    |repeated| == |at| && forall i :: 0 <= i < |at| ==> at[i] < |table| && repeated[i] == table[at[i]].source
  }

  function SourceSet(table: seq<Stream>): (r: set<nat>)
    ensures forall s :: s in r <==> exists i :: 0 <= i < |table| && table[i].source == s
  {
    set x | x in table :: x.source
  }

  /**
   * The source of every stream that repeats an earlier one, in the table's order
   * and as often as it repeats; so the count is what is left of the table after
   * each source has been counted once.
   */
  method Duplicates(table: seq<Stream>) returns (repeated: seq<nat>, ghost at: seq<nat>)
    ensures RepeatsBelow(table, |table|, at) && FoundAt(table, at, repeated)
    ensures |repeated| + |SourceSet(table)| == |table|
    ensures repeated == [] <==> DistinctSources(table)
  {
    var seen: set<nat> := {};
    repeated, at := [], [];
    for n := 0 to |table|
      invariant Scanned(table, n, seen, repeated, at)
    {
      var s := table[n].source;
      ScansNext(table, n, seen, repeated, at);
      if s in seen {
        repeated, at := repeated + [s], at + [n];
      }
      seen := seen + {s};
    }
    assert table[..|table|] == table;
    NoRepeatIsDistinct(table, at);
  }

  /** What the scan holds after `n` streams. */
  ghost predicate Scanned(table: seq<Stream>, n: nat, seen: set<nat>, repeated: seq<nat>, at: seq<nat>)
    requires n <= |table|
  {
    && seen == SourceSet(table[..n]) && |repeated| + |seen| == n
    && RepeatsBelow(table, n, at) && FoundAt(table, at, repeated)
  }

  lemma {:induction false} ScansNext(table: seq<Stream>, n: nat, seen: set<nat>, repeated: seq<nat>, at: seq<nat>)
    requires n < |table| && Scanned(table, n, seen, repeated, at)
    ensures var s := table[n].source;
            if s in seen then Scanned(table, n + 1, seen + {s}, repeated + [s], at + [n])
            else Scanned(table, n + 1, seen + {s}, repeated, at)
  {
    SeenSoFar(table, n);
    SeenGrows(seen, table[n].source);
    RepeatsNext(table, n, at);
  }

  lemma {:induction false} SeenSoFar(table: seq<Stream>, n: nat)
    requires n < |table|
    ensures table[n].source in SourceSet(table[..n]) <==> Repeats(table, n)
    ensures SourceSet(table[..n + 1]) == SourceSet(table[..n]) + {table[n].source}
  {
    assert table[..n + 1] == table[..n] + [table[n]];
  }

  lemma {:induction false} SeenGrows(seen: set<nat>, s: nat)
    ensures |seen + {s}| == if s in seen then |seen| else |seen| + 1
  {
    if s in seen {
      assert seen + {s} == seen;
    }
  }

  lemma {:induction false} RepeatsNext(table: seq<Stream>, n: nat, at: seq<nat>)
    requires n < |table| && RepeatsBelow(table, n, at)
    ensures RepeatsBelow(table, n + 1, if Repeats(table, n) then at + [n] else at)
  {
    forall i | 0 <= i < |at|
      ensures at[i] < n
    {
      assert at[i] in at;
    }
  }

  lemma {:induction false} NoRepeatIsDistinct(table: seq<Stream>, at: seq<nat>)
    requires RepeatsBelow(table, |table|, at)
    ensures at == [] <==> DistinctSources(table)
  {
    if at != [] {
      assert at[0] in at;
    }
    forall i: nat, j: nat | i < j < |table| && table[i].source == table[j].source
      ensures j in at
    {
      assert Repeats(table, j);
    }
  }

  // ------------------------------------------------------------ the build's order

  /** The dictionary a table becomes; a repeated source keeps its last length. */
  function DictOf(table: seq<Stream>): map<nat, nat> {
    if table == [] then map[]
    else DictOf(table[..|table| - 1])[table[|table| - 1].source := table[|table| - 1].length]
  }

  /** The entries are the dictionary's items in order of source, numbered from zero. */
  ghost predicate Lists(mapping: map<nat, nat>, entries: seq<Entry>) {
    && (forall i, j :: 0 <= i < j < |entries| ==> entries[i].source < entries[j].source)
    && (forall i :: 0 <= i < |entries| ==>
          entries[i].source in mapping && entries[i] == Entry(i, entries[i].source, Some(mapping[entries[i].source])))
    && (forall s :: s in mapping ==> exists i :: 0 <= i < |entries| && entries[i].source == s)
  }

  function Numbered(streams: seq<Stream>): (r: seq<Entry>)
    ensures |r| == |streams|
  {
    seq(|streams|, i requires 0 <= i < |streams| => Entry(i, streams[i].source, Some(streams[i].length)))
  }

  /** The items in whatever order the dictionary gives them, sorted and numbered. */
  method EntriesFromMap(mapping: map<nat, nat>) returns (entries: seq<Entry>)
    ensures Lists(mapping, entries)
  {
    var rest := mapping.Keys;
    var items: seq<Stream> := [];
    while rest != {}
      invariant rest <= mapping.Keys
      invariant forall x :: x in items <==> x.source in mapping.Keys - rest && x.length == mapping[x.source]
      invariant DistinctSources(items)
      decreases |rest|
    {
      var s :| s in rest;
      forall i | 0 <= i < |items|
        ensures items[i].source != s
      {
        assert items[i] in items;
      }
      rest := rest - {s};
      items := items + [Stream(s, mapping[s])];
    }
    entries := Numbered(Sorted(items));
    ItemsAreListed(mapping, items);
  }

  lemma {:induction false} ItemsAreListed(mapping: map<nat, nat>, items: seq<Stream>)
    requires DistinctSources(items)
    requires forall x :: x in items <==> x.source in mapping && x.length == mapping[x.source]
    ensures Lists(mapping, Numbered(Sorted(items)))
  {
    var sorted := Sorted(items);
    SortedIsStrict(items);
    forall i | 0 <= i < |sorted|
      ensures sorted[i].source in mapping && sorted[i].length == mapping[sorted[i].source]
    {
      assert sorted[i] in sorted;
    }
    forall s | s in mapping
      ensures exists i :: 0 <= i < |sorted| && Numbered(sorted)[i].source == s
    {
      assert Stream(s, mapping[s]) in sorted;
      var i :| 0 <= i < |sorted| && sorted[i] == Stream(s, mapping[s]);
      assert Numbered(sorted)[i].source == s;
    }
  }

  // --------------------------------------------------------------- the two agree

  lemma {:induction false} SortedIsStrict(table: seq<Stream>)
    requires DistinctSources(table)
    ensures forall i, j :: 0 <= i < j < |table| ==> Sorted(table)[i].source < Sorted(table)[j].source
  {
    SortedIsInOrder(table);
    SortedIsDistinct(table);
    forall i, j | 0 <= i < j < |table|
      ensures Sorted(table)[i].source < Sorted(table)[j].source
    {
      assert NoLater(Sorted(table)[i], Sorted(table)[j]);
    }
  }

  /** A repeated source after sorting would have been there twice before. */
  lemma {:induction false} SortedIsDistinct(table: seq<Stream>)
    requires DistinctSources(table)
    ensures DistinctSources(Sorted(table))
  {
    var r := Sorted(table);
    Sorting.SortKeepsDistinct(NoLater, table);
    forall i, j | 0 <= i < j < |r|
      ensures r[i].source != r[j].source
    {
      assert r[i] in table && r[j] in table;
    }
  }

  lemma {:induction false} DictHoldsTable(table: seq<Stream>)
    requires DistinctSources(table)
    ensures forall x: Stream :: x in table <==> x.source in DictOf(table) && DictOf(table)[x.source] == x.length
  {
    if table != [] {
      var n := |table| - 1;
      DictHoldsTable(table[..n]);
      assert table == table[..n] + [table[n]];
      assert forall x :: x in table[..n] ==> x.source != table[n].source;
    }
  }

  ghost predicate AgreeBelow(a: seq<Entry>, b: seq<Entry>, n: nat) {
    n <= |a| && n <= |b| && forall j :: 0 <= j < n ==> a[j] == b[j]
  }

  lemma {:induction false} NextAgrees(mapping: map<nat, nat>, a: seq<Entry>, b: seq<Entry>, m: nat)
    requires Lists(mapping, a) && Lists(mapping, b) && m < |a| && AgreeBelow(a, b, m)
    ensures m < |b| && a[m] == b[m]
  {
    var i := PlaceOf(mapping, b, a[m].source);
    assert i >= m;
    var k := PlaceOf(mapping, a, b[m].source);
    assert k >= m;
    assert b[m].source <= b[i].source && a[m].source <= a[k].source;
  }

  /** If agreement always goes one further, it goes all the way. */
  lemma {:induction false} AgreesThroughout(a: seq<Entry>, b: seq<Entry>, n: nat)
    requires n <= |a|
    requires forall m: nat :: m < |a| && AgreeBelow(a, b, m) ==> m < |b| && a[m] == b[m]
    ensures AgreeBelow(a, b, n)
    decreases n
  {
    if n != 0 {
      AgreesThroughout(a, b, n - 1);
    }
  }

  /** A dictionary has one listing. */
  lemma {:induction false} ListingIsUnique(mapping: map<nat, nat>, a: seq<Entry>, b: seq<Entry>)
    requires Lists(mapping, a) && Lists(mapping, b)
    ensures AgreeBelow(a, b, |a|)
  {
    forall m: nat | m < |a| && AgreeBelow(a, b, m)
      ensures m < |b| && a[m] == b[m]
    {
      NextAgrees(mapping, a, b, m);
    }
    AgreesThroughout(a, b, |a|);
  }

  lemma {:induction false} PlaceOf(mapping: map<nat, nat>, entries: seq<Entry>, source: nat) returns (i: nat)
    requires Lists(mapping, entries) && source in mapping
    ensures i < |entries| && entries[i].source == source
    ensures forall j :: 0 <= j < |entries| && entries[j].source <= source ==> j <= i
  {
    i :| i < |entries| && entries[i].source == source;
  }

  /**
   * With no repeated source, the gate's sorted table and the build's numbered
   * entries are the same streams in the same order.
   */
  lemma {:induction false} OrdersAgree(table: seq<Stream>, entries: seq<Entry>)
    requires DistinctSources(table) && Lists(DictOf(table), entries)
    ensures entries == Numbered(Sorted(table))
  {
    DictHoldsTable(table);
    ItemsAreListed(DictOf(table), table);
    var expected := Numbered(Sorted(table));
    ListingIsUnique(DictOf(table), entries, expected);
    ListingIsUnique(DictOf(table), expected, entries);
  }
}
