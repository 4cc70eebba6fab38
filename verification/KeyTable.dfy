/**
 * The stream index: an open-addressed table of 65,536 slots in which a reader
 * sees only the bank byte of each slot. This file is the meaning of the table;
 * the loops that fill it are in KeyTableLoops.
 */
module KeyTable {
  import opened Types
  import opened Circular
  import Sorting

  datatype Key = Key(bank: int, addr: Slot)

  /** The table under construction and the slot each key has been given. */
  datatype State = State(table: map<Slot, int>, placed: seq<Slot>)

  datatype PlacementError =
    | TooManyKeys
    | Ambiguous
    | SlotUsedTwice
    | ScansElsewhere
    | BankZeroDestination
    | NotAByte

  const MAX_REPAIRS := 64

  // ---------------------------------------------------------------- probes

  ghost function Holding(table: map<Slot, int>, bank: int): set<Slot> {
    set s | s in table && table[s] == bank
  }

  ghost function Free(table: map<Slot, int>): set<Slot> {
    set s: Slot | 0 <= s < SLOTS && s !in table
  }

  /** The slot a reader of the bank bytes stops at. */
  ghost function Scan(table: map<Slot, int>, bank: int, addr: Slot): Option<Slot> {
    Nearest(Holding(table, bank), addr)
  }

  ghost function FirstFree(table: map<Slot, int>, start: Slot): Option<Slot> {
    Nearest(Free(table), start)
  }

  /** A table with fewer keys than slots has room. */
  lemma {:induction false} RoomRemains(table: map<Slot, int>)
    requires |table| < SLOTS
    ensures Free(table) != {}
  {
    if Free(table) == {} {
      assert forall t: Slot :: t < SLOTS ==> t in Free(table) || t in table.Keys;
      PigeonHole(table.Keys, SLOTS);
    }
  }

  // ------------------------------------------------------ processing order

  predicate Indices(order: seq<nat>, n: nat) {
    forall p :: 0 <= p < |order| ==> order[p] < n
  }

  /** Index `i` is no later than `j` by address alone. */
  function ByAddress(keys: seq<Key>): (nat, nat) -> bool {
    (i: nat, j: nat) => AddressOr0(keys, i) <= AddressOr0(keys, j)
  }

  function AddressOr0(keys: seq<Key>, i: nat): int {
    if i < |keys| then keys[i].addr else 0
  }

  function Upto(n: nat): (r: seq<nat>)
    ensures |r| == n && forall i :: 0 <= i < n ==> r[i] == i
    ensures forall x: nat :: x < n ==> x in r
  {
    if n == 0 then [] else Upto(n - 1) + [n - 1]
  }

  /** The indices sorted by address. */
  function Order(keys: seq<Key>): (r: seq<nat>)
    ensures |r| == |keys| && Indices(r, |keys|) && forall x: nat :: x < |keys| ==> x in r
  {
    var r := Sorting.SortedBy(ByAddress(keys), Upto(|keys|));
    assert forall p :: 0 <= p < |r| ==> r[p] in Upto(|keys|);
    r
  }

  /** Address first, then position in the list: a strict order on indices. */
  ghost predicate Before(keys: seq<Key>, i: nat, j: nat)
    requires i < |keys| && j < |keys|
  {
    keys[i].addr < keys[j].addr || (keys[i].addr == keys[j].addr && i < j)
  }

  ghost predicate SortedByAddress(keys: seq<Key>, order: seq<nat>)
    requires Indices(order, |keys|)
  {
    forall p, q :: 0 <= p < q < |order| ==> Before(keys, order[p], order[q])
  }

  /** The processing order is the stable sort of the indices by address. */
  lemma {:induction false} OrderIsStableSort(keys: seq<Key>)
    ensures SortedByAddress(keys, Order(keys))
  {
    Sorting.SortIsStable(ByAddress(keys), (i: nat, j: nat) => i < j, Upto(|keys|));
  }

  // ------------------------------------------------------------- greedy pass

  /** Each key in turn takes the first free slot at or after its own address. */
  ghost function Greedy(keys: seq<Key>, order: seq<nat>, p: nat): (st: State)
    requires p <= |order| <= SLOTS
    requires Indices(order, |keys|)
    ensures |st.placed| == |keys| && |st.table| <= p
  {
    if p == 0 then State(map[], seq(|keys|, _ => 0))
    else
      var st := Greedy(keys, order, p - 1);
      var i := order[p - 1];
      RoomRemains(st.table);
      Taken(st, i, FirstFree(st.table, keys[i].addr).value, keys[i].bank)
  }

  function Taken(st: State, i: nat, slot: Slot, bank: int): (r: State)
    requires i < |st.placed|
    ensures |r.table| <= |st.table| + 1
  {
    var table := st.table[slot := bank];
    assert table.Keys == st.table.Keys + {slot};
    assert |table| == |table.Keys| && |st.table| == |st.table.Keys|;
    State(table, st.placed[i := slot])
  }

  /** No slot from the key's address up to its own slot is empty. */
  ghost predicate FullArc(st: State, addr: Slot, slot: Slot) {
    forall t: Slot :: Distance(addr, t) <= Distance(addr, slot) ==> t in st.table
  }

  /** The first `p` keys of the order own one slot each, and nobody else owns one. */
  ghost predicate Owners(keys: seq<Key>, order: seq<nat>, p: nat, st: State)
    requires p <= |order| && |st.placed| == |keys|
    requires Indices(order, |keys|)
  {
    && EveryKeyOwns(keys, order, p, st)
    && (forall q, r :: 0 <= q < r < p ==> st.placed[order[q]] != st.placed[order[r]])
    && EverySlotOwned(keys, order, p, st)
  }

  ghost predicate Owns(keys: seq<Key>, st: State, i: nat)
    requires i < |keys| == |st.placed|
  {
    st.placed[i] in st.table && st.table[st.placed[i]] == keys[i].bank
  }

  ghost predicate Arcs(keys: seq<Key>, order: seq<nat>, p: nat, st: State)
    requires p <= |order| && |st.placed| == |keys|
    requires Indices(order, |keys|)
  {
    forall q :: 0 <= q < p ==> FullArc(st, keys[order[q]].addr, st.placed[order[q]])
  }

  ghost predicate EveryKeyOwns(keys: seq<Key>, order: seq<nat>, p: nat, st: State)
    requires p <= |order| && |st.placed| == |keys| && Indices(order, |keys|)
  {
    forall q :: 0 <= q < p ==> Owns(keys, st, order[q])
  }

  ghost predicate EverySlotOwned(keys: seq<Key>, order: seq<nat>, p: nat, st: State)
    requires p <= |order| && |st.placed| == |keys| && Indices(order, |keys|)
  {
    forall s :: s in st.table ==> exists q :: 0 <= q < p && st.placed[order[q]] == s
  }

  lemma {:induction false} TakenKeepsKeys(keys: seq<Key>, order: seq<nat>, p: nat, was: State, slot: Slot)
    requires p < |order| && |was.placed| == |keys| && Indices(order, |keys|)
    requires forall q :: 0 <= q < p ==> order[q] != order[p]
    requires EveryKeyOwns(keys, order, p, was) && slot !in was.table
    ensures EveryKeyOwns(keys, order, p + 1, Taken(was, order[p], slot, keys[order[p]].bank))
    ensures forall q :: 0 <= q < p ==> was.placed[order[q]] != slot
  {
    var st := Taken(was, order[p], slot, keys[order[p]].bank);
    forall q | 0 <= q < p
      ensures Owns(keys, st, order[q]) && was.placed[order[q]] != slot
    {
      assert Owns(keys, was, order[q]);
    }
  }

  lemma {:induction false} TakenKeepsSlots(keys: seq<Key>, order: seq<nat>, p: nat, was: State, slot: Slot)
    requires p < |order| && |was.placed| == |keys| && Indices(order, |keys|)
    requires forall q :: 0 <= q < p ==> order[q] != order[p]
    requires EverySlotOwned(keys, order, p, was)
    ensures EverySlotOwned(keys, order, p + 1, Taken(was, order[p], slot, keys[order[p]].bank))
  {
    var st := Taken(was, order[p], slot, keys[order[p]].bank);
    forall s | s in st.table
      ensures exists q :: 0 <= q < p + 1 && st.placed[order[q]] == s
    {
      if s == slot {
        assert st.placed[order[p]] == s;
      } else {
        var q :| 0 <= q < p && was.placed[order[q]] == s;
        assert st.placed[order[q]] == s;
      }
    }
  }

  lemma {:induction false} TakenKeepsArcs(keys: seq<Key>, order: seq<nat>, p: nat, was: State, slot: Slot)
    requires p < |order| && |was.placed| == |keys|
    requires Indices(order, |keys|)
    requires forall q, r :: 0 <= q < r < |order| ==> order[q] != order[r]
    requires Arcs(keys, order, p, was)
    requires IsFirst(Free(was.table), keys[order[p]].addr, slot)
    ensures Arcs(keys, order, p + 1, Taken(was, order[p], slot, keys[order[p]].bank))
  {
    var a := keys[order[p]].addr;
    var st := Taken(was, order[p], slot, keys[order[p]].bank);
    forall t: Slot | Distance(a, t) <= Distance(a, slot)
      ensures t in st.table
    {
      if t !in was.table {
        assert t in Free(was.table);
      }
    }
    forall q | 0 <= q < p
      ensures FullArc(st, keys[order[q]].addr, st.placed[order[q]])
    {
      assert order[q] != order[p] && FullArc(was, keys[order[q]].addr, was.placed[order[q]]);
    }
  }

  lemma {:induction false} TakenSettles(keys: seq<Key>, order: seq<nat>, p: nat, was: State, slot: Slot)
    requires p < |order| && |was.placed| == |keys| && Indices(order, |keys|)
    requires forall q, r :: 0 <= q < r < |order| ==> order[q] != order[r]
    requires Owners(keys, order, p, was) && Arcs(keys, order, p, was)
    requires IsFirst(Free(was.table), keys[order[p]].addr, slot)
    ensures Owners(keys, order, p + 1, Taken(was, order[p], slot, keys[order[p]].bank))
    ensures Arcs(keys, order, p + 1, Taken(was, order[p], slot, keys[order[p]].bank))
  {
    var st := Taken(was, order[p], slot, keys[order[p]].bank);
    TakenKeepsKeys(keys, order, p, was, slot);
    TakenKeepsSlots(keys, order, p, was, slot);
    TakenKeepsArcs(keys, order, p, was, slot);
    forall q, r | 0 <= q < r < p + 1
      ensures st.placed[order[q]] != st.placed[order[r]]
    {
      assert order[q] != order[p];
      if r != p {
        assert order[r] != order[p];
      }
    }
  }

  lemma {:induction false} GreedySettles(keys: seq<Key>, order: seq<nat>, p: nat)
    requires p <= |order| <= SLOTS && Indices(order, |keys|)
    requires forall q, r :: 0 <= q < r < |order| ==> order[q] != order[r]
    ensures Owners(keys, order, p, Greedy(keys, order, p))
    ensures Arcs(keys, order, p, Greedy(keys, order, p))
  {
    if p != 0 {
      GreedySettles(keys, order, p - 1);
      var was := Greedy(keys, order, p - 1);
      RoomRemains(was.table);
      TakenSettles(keys, order, p - 1, was, FirstFree(was.table, keys[order[p - 1]].addr).value);
    }
  }

  // -------------------------------------------------------- whole placements

  /** Table and placement are the same bijection, each slot carrying its key's bank. */
  ghost predicate Bijection(keys: seq<Key>, st: State) {
    && |st.placed| == |keys|
    && (forall i: nat :: i < |keys| ==> Owns(keys, st, i))
    && (forall i, j :: 0 <= i < j < |keys| ==> st.placed[i] != st.placed[j])
    && (forall s :: s in st.table ==> exists i :: 0 <= i < |keys| && st.placed[i] == s)
  }

  ghost predicate FullArcs(keys: seq<Key>, st: State)
    requires |st.placed| == |keys|
  {
    forall i :: 0 <= i < |keys| ==> FullArc(st, keys[i].addr, st.placed[i])
  }

  ghost predicate ScansHome(keys: seq<Key>, st: State, i: nat)
    requires i < |keys| == |st.placed|
  {
    Scan(st.table, keys[i].bank, keys[i].addr) == Some(st.placed[i])
  }

  ghost predicate Unambiguous(keys: seq<Key>, st: State)
    requires |keys| == |st.placed|
  {
    forall i: nat :: i < |keys| ==> ScansHome(keys, st, i)
  }

  ghost function GreedyState(keys: seq<Key>): (st: State)
    requires |keys| <= SLOTS
    ensures |st.placed| == |keys|
  {
    Greedy(keys, Order(keys), |keys|)
  }

  lemma {:induction false} SettledIsBijection(keys: seq<Key>, order: seq<nat>, st: State)
    requires |order| == |keys| == |st.placed| && Indices(order, |keys|)
    requires forall i: nat :: i < |keys| ==> i in order
    requires Owners(keys, order, |keys|, st) && Arcs(keys, order, |keys|, st)
    ensures Bijection(keys, st) && FullArcs(keys, st)
  {
    forall i: nat | i < |keys|
      ensures Owns(keys, st, i) && FullArc(st, keys[i].addr, st.placed[i])
    {
      var q := Turn(order, i);
    }
    forall i: nat, j: nat | i < j < |keys|
      ensures st.placed[i] != st.placed[j]
    {
      var q := Turn(order, i);
      var r := Turn(order, j);
      assert q < r || r < q;
    }
    forall s | s in st.table
      ensures exists i :: 0 <= i < |keys| && st.placed[i] == s
    {
      var q :| 0 <= q < |keys| && st.placed[order[q]] == s;
      assert st.placed[order[q]] == s;
    }
  }

  /** After the greedy pass every key owns one slot and no probe crossed a gap. */
  lemma {:induction false} GreedyIsBijection(keys: seq<Key>)
    requires |keys| <= SLOTS
    ensures Bijection(keys, GreedyState(keys))
    ensures FullArcs(keys, GreedyState(keys))
  {
    var order := Order(keys);
    OrderIsStableSort(keys);
    forall q, r | 0 <= q < r < |order|
      ensures order[q] != order[r]
    {
      assert Before(keys, order[q], order[r]);
    }
    GreedySettles(keys, order, |keys|);
    SettledIsBijection(keys, order, GreedyState(keys));
  }

  lemma {:induction false} Turn(order: seq<nat>, i: nat) returns (q: nat)
    requires i in order
    ensures q < |order| && order[q] == i
  {
    q :| q < |order| && order[q] == i;
  }

  // ----------------------------------------------------------------- repair

  /** A placed key always scans to something: at worst to itself. */
  lemma {:induction false} ScanFinds(keys: seq<Key>, st: State, i: nat)
    requires Bijection(keys, st) && i < |keys|
    ensures Scan(st.table, keys[i].bank, keys[i].addr).Some?
    ensures IsFirst(Holding(st.table, keys[i].bank), keys[i].addr,
                    Scan(st.table, keys[i].bank, keys[i].addr).value)
  {
    var hits := Holding(st.table, keys[i].bank);
    assert Owns(keys, st, i);
    assert st.placed[i] in hits;
  }

  /** One repair: drop the key's slot and probe again from just past its blocker. */
  ghost function Repaired(keys: seq<Key>, st: State, i: nat): State
    requires Bijection(keys, st) && i < |keys|
  {
    ScanFinds(keys, st, i);
    var found := Scan(st.table, keys[i].bank, keys[i].addr).value;
    var without := st.table - {st.placed[i]};
    assert Owns(keys, st, i) && st.placed[i] in Free(without);
    Taken(State(without, st.placed), i, FirstFree(without, Next(found)).value, keys[i].bank)
  }

  /**
   * Repairing a key that scans to a blocker puts it back where it was: every
   * slot between blocker and key is occupied, so the re-probe meets the slot
   * just vacated before any other.
   */
  lemma {:induction false} RepairIsNoOp(keys: seq<Key>, st: State, i: nat)
    requires Bijection(keys, st) && FullArcs(keys, st)
    requires i < |keys| && !ScansHome(keys, st, i)
    ensures Repaired(keys, st, i) == st
  {
    var a, s := keys[i].addr, st.placed[i];
    assert Owns(keys, st, i) && FullArc(st, a, s);
    ScanFinds(keys, st, i);
    var f := Scan(st.table, keys[i].bank, a).value;
    assert Distance(a, f) < Distance(a, s) by {
      assert s in Holding(st.table, keys[i].bank);
    }
    var without := st.table - {s};
    ProbePastBlocker(st, a, f, s);
    NearestIs(Free(without), Next(f), s);
    PutBack(st, i, keys[i].bank);
  }

  lemma {:induction false} PutBack(st: State, i: nat, bank: int)
    requires i < |st.placed| && st.placed[i] in st.table && st.table[st.placed[i]] == bank
    ensures Taken(State(st.table - {st.placed[i]}, st.placed), i, st.placed[i], bank) == st
  {
    assert (st.table - {st.placed[i]})[st.placed[i] := bank] == st.table;
  }

  lemma {:induction false} ProbePastBlocker(st: State, a: Slot, f: Slot, s: Slot)
    requires FullArc(st, a, s) && Distance(a, f) < Distance(a, s)
    ensures IsFirst(Free(st.table - {s}), Next(f), s)
  {
    forall t | t in Free(st.table - {s})
      ensures Distance(Next(f), s) <= Distance(Next(f), t)
    {
      if Distance(Next(f), t) < Distance(Next(f), s) {
        BetweenOnCircle(a, f, t, s);
      }
    }
  }

  lemma {:induction false} BetweenOnCircle(a: Slot, f: Slot, t: Slot, s: Slot)
    requires Distance(a, f) < Distance(a, s) && Distance(Next(f), t) < Distance(Next(f), s)
    ensures Distance(a, t) < Distance(a, s)
  {
  }

  // -------------------------------------------------- meaning of the result

  /** What the allocator answers: the greedy placement, or a refusal. */
  ghost function Placement(keys: seq<Key>): (r: Result<seq<Slot>, PlacementError>) {
    if |keys| > SLOTS then Err(TooManyKeys)
    else
      var st := GreedyState(keys);
      if Unambiguous(keys, st) then Ok(st.placed) else Err(Ambiguous)
  }

  /**
   * Every slot sits between its own address and the next address of the same
   * bank, going round the circle.
   */
  ghost predicate WithinOwnInterval(keys: seq<Key>, placed: seq<Slot>)
    requires |placed| == |keys|
  {
    forall i, j :: 0 <= i < |keys| && 0 <= j < |keys| && i != j && keys[i].bank == keys[j].bank ==>
      Distance(keys[i].addr, placed[i]) < Distance(keys[i].addr, keys[j].addr)
  }

  lemma {:induction false} IntervalsScanHome(keys: seq<Key>, st: State, i: nat)
    requires Bijection(keys, st) && WithinOwnInterval(keys, st.placed) && i < |keys|
    ensures ScansHome(keys, st, i)
  {
    var a, s := keys[i].addr, st.placed[i];
    var hits := Holding(st.table, keys[i].bank);
    assert Owns(keys, st, i);
    forall t | t in hits
      ensures Distance(a, s) <= Distance(a, t)
    {
      var j :| 0 <= j < |keys| && st.placed[j] == t;
      assert Owns(keys, st, j);
      if j != i {
        assert Distance(a, s) < Distance(a, keys[j].addr);
        assert Distance(keys[j].addr, t) < Distance(keys[j].addr, a);
      }
    }
    NearestIs(hits, a, s);
  }

  lemma {:induction false} ScansHomeGivesIntervals(keys: seq<Key>, st: State, i: nat, j: nat)
    requires Bijection(keys, st) && i < |keys| && j < |keys| && i != j
    requires keys[i].bank == keys[j].bank
    requires ScansHome(keys, st, i) && ScansHome(keys, st, j)
    ensures Distance(keys[i].addr, st.placed[i]) < Distance(keys[i].addr, keys[j].addr)
  {
    ScanFinds(keys, st, i);
    ScanFinds(keys, st, j);
    var hits := Holding(st.table, keys[i].bank);
    assert Owns(keys, st, i) && Owns(keys, st, j);
    assert st.placed[i] in hits && st.placed[j] in hits;
    assert st.placed[i] != st.placed[j];
  }

  /** Scans are unambiguous exactly when every slot stays in its own interval. */
  lemma {:induction false} UnambiguousIffIntervals(keys: seq<Key>, st: State)
    requires Bijection(keys, st)
    ensures Unambiguous(keys, st) <==> WithinOwnInterval(keys, st.placed)
  {
    if Unambiguous(keys, st) {
      forall i, j | 0 <= i < |keys| && 0 <= j < |keys| && i != j && keys[i].bank == keys[j].bank
        ensures Distance(keys[i].addr, st.placed[i]) < Distance(keys[i].addr, keys[j].addr)
      {
        ScansHomeGivesIntervals(keys, st, i, j);
      }
    }
    if WithinOwnInterval(keys, st.placed) {
      forall i | 0 <= i < |keys|
        ensures ScansHome(keys, st, i)
      {
        IntervalsScanHome(keys, st, i);
      }
    }
  }

  /** The allocator succeeds exactly when the greedy slots respect the intervals. */
  lemma {:induction false} PlacementIffIntervals(keys: seq<Key>)
    ensures Placement(keys).Ok? <==>
              |keys| <= SLOTS && WithinOwnInterval(keys, GreedyState(keys).placed)
  {
    if |keys| <= SLOTS {
      GreedyIsBijection(keys);
      UnambiguousIffIntervals(keys, GreedyState(keys));
    }
  }

  /** Two equal keys can never both be found, so such a list is always refused. */
  lemma {:induction false} EqualKeysAreRefused(keys: seq<Key>, i: nat, j: nat)
    requires i < j < |keys| && keys[i] == keys[j]
    ensures Placement(keys).Err?
  {
    PlacementIffIntervals(keys);
    assert Distance(keys[i].addr, keys[j].addr) == 0;
  }
}
