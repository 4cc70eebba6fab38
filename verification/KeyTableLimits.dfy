/**
 * Which key lists the greedy pass can serve, read off the keys alone, and one
 * list it refuses although a placement exists.
 */
module KeyTableLimits {
  import opened Types
  import opened Circular
  import Sorting
  import opened KeyTable

  ghost predicate Turns(keys: seq<Key>, order: seq<nat>) {
    && |order| <= SLOTS && Indices(order, |keys|) && SortedByAddress(keys, order)
    && (forall q, r :: 0 <= q < r < |order| ==> order[q] != order[r])
  }

  function AddrAt(keys: seq<Key>, order: seq<nat>, p: nat): Slot
    requires Indices(order, |keys|) && p < |order|
  {
    keys[order[p]].addr
  }

  /** Where the key at position `p` comes to rest if the table never ran out upwards. */
  function Landing(keys: seq<Key>, order: seq<nat>, p: nat): nat
    requires Indices(order, |keys|) && p < |order|
  {
    var a := AddrAt(keys, order, p);
    if p == 0 then a
    else
      var next := Landing(keys, order, p - 1) + 1;
      if a < next then next else a
  }

  lemma {:induction false} LandingRises(keys: seq<Key>, order: seq<nat>, p: nat)
    requires Indices(order, |keys|) && 0 < p < |order|
    ensures Landing(keys, order, p - 1) < Landing(keys, order, p)
  {
  }

  /** A resting place is the furthest push of any run of keys that ends at it. */
  lemma {:induction false} LandingIsFurthestPush(keys: seq<Key>, order: seq<nat>, p: nat) returns (pusher: nat)
    requires Indices(order, |keys|) && p < |order|
    ensures forall q: nat :: q <= p ==> AddrAt(keys, order, q) + (p - q) <= Landing(keys, order, p)
    ensures pusher <= p && AddrAt(keys, order, pusher) + (p - pusher) == Landing(keys, order, p)
  {
    pusher := p;
    if p != 0 {
      var before := LandingIsFurthestPush(keys, order, p - 1);
      if AddrAt(keys, order, p) < Landing(keys, order, p - 1) + 1 {
        pusher := before;
      }
    }
  }

  /** From every key on, the remaining keys fit below the top of the table. */
  ghost predicate RoomAtTop(keys: seq<Key>, order: seq<nat>)
    requires Indices(order, |keys|)
  {
    forall q: nat :: q < |order| ==> AddrAt(keys, order, q) + (|order| - q) <= SLOTS
  }

  lemma {:induction false} LandsInside(keys: seq<Key>, order: seq<nat>, p: nat)
    requires Indices(order, |keys|) && RoomAtTop(keys, order) && p < |order|
    ensures Landing(keys, order, p) < SLOTS
  {
    var q := LandingIsFurthestPush(keys, order, p);
  }

  /** The first `p` keys rest at their landings and nothing lies beyond the last. */
  ghost predicate Landed(keys: seq<Key>, order: seq<nat>, p: nat, st: State)
    requires Indices(order, |keys|) && p <= |order| && |st.placed| == |keys|
  {
    && (forall q :: 0 <= q < p ==> st.placed[order[q]] == Landing(keys, order, q))
    && (forall s :: s in st.table ==> p != 0 && s <= Landing(keys, order, p - 1))
  }

  lemma {:induction false} LandingIsFirstFree(keys: seq<Key>, order: seq<nat>, p: nat, st: State)
    requires Turns(keys, order) && p < |order| && |st.placed| == |keys| && Landing(keys, order, p) < SLOTS
    requires Landed(keys, order, p, st) && Arcs(keys, order, p, st)
    ensures IsFirst(Free(st.table), AddrAt(keys, order, p), Landing(keys, order, p))
  {
    var a, slot := AddrAt(keys, order, p), Landing(keys, order, p);
    if p != 0 {
      assert Before(keys, order[p - 1], order[p]);
      assert FullArc(st, AddrAt(keys, order, p - 1), st.placed[order[p - 1]]);
    }
    forall t | t in Free(st.table)
      ensures Distance(a, slot) <= Distance(a, t)
    {
      if p != 0 && a <= t < slot {
        assert false;
      }
    }
  }

  lemma {:induction false} TakenLands(keys: seq<Key>, order: seq<nat>, p: nat, was: State)
    requires Turns(keys, order) && p < |order| && |was.placed| == |keys| && Landed(keys, order, p, was)
    requires Landing(keys, order, p) < SLOTS
    ensures Landed(keys, order, p + 1, Taken(was, order[p], Landing(keys, order, p), keys[order[p]].bank))
  {
    var st := Taken(was, order[p], Landing(keys, order, p), keys[order[p]].bank);
    forall q | 0 <= q < p
      ensures st.placed[order[q]] == Landing(keys, order, q)
    {
      assert order[q] != order[p];
    }
  }

  /** The greedy step takes the key at position `p` from landed to landed. */
  lemma {:induction false} GreedyLandsNext(keys: seq<Key>, order: seq<nat>, p: nat)
    requires Turns(keys, order) && p < |order| && Landing(keys, order, p) < SLOTS
    requires Landed(keys, order, p, Greedy(keys, order, p))
    ensures Landed(keys, order, p + 1, Greedy(keys, order, p + 1))
  {
    var was := Greedy(keys, order, p);
    GreedySettles(keys, order, p);
    RoomRemains(was.table);
    LandingIsFirstFree(keys, order, p, was);
    NearestIs(Free(was.table), AddrAt(keys, order, p), Landing(keys, order, p));
    TakenLands(keys, order, p, was);
  }

  /** As long as landings stay inside the table, they are where the probing loop puts the keys. */
  lemma {:induction false} GreedyLands(keys: seq<Key>, order: seq<nat>, p: nat)
    requires Turns(keys, order) && p <= |order| && (p == 0 || Landing(keys, order, p - 1) < SLOTS)
    ensures Landed(keys, order, p, Greedy(keys, order, p))
  {
    if p != 0 {
      if p > 1 {
        LandingRises(keys, order, p - 1);
      }
      GreedyLands(keys, order, p - 1);
      GreedyLandsNext(keys, order, p - 1);
    }
  }

  /**
   * The keys at positions `q` to `p` are too many for the addresses from the
   * first of them up to `j`, a later address of the last one's own bank.
   */
  ghost predicate Crowded(keys: seq<Key>, order: seq<nat>, q: nat, p: nat, j: nat)
    requires Indices(order, |keys|)
  {
    && q <= p < |order| && j < |keys| && j != order[p]
    && keys[j].bank == keys[order[p]].bank && keys[j].addr >= keys[order[p]].addr
    && keys[j].addr - AddrAt(keys, order, q) < p - q + 1
  }

  ghost predicate NowhereCrowded(keys: seq<Key>, order: seq<nat>)
    requires Indices(order, |keys|)
  {
    forall q: nat, p: nat, j: nat :: !Crowded(keys, order, q, p, j)
  }

  lemma {:induction false} SortedTurns(keys: seq<Key>)
    requires |keys| <= SLOTS
    ensures Turns(keys, Order(keys))
  {
    var order := Order(keys);
    OrderIsStableSort(keys);
    forall q, r | 0 <= q < r < |order|
      ensures order[q] != order[r]
    {
      assert Before(keys, order[q], order[r]);
    }
  }

  lemma {:induction false} CrowdedBreaks(keys: seq<Key>, order: seq<nat>, st: State, q: nat, p: nat, j: nat)
    requires Turns(keys, order) && RoomAtTop(keys, order) && |st.placed| == |keys| == |order|
    requires Landed(keys, order, |order|, st) && Crowded(keys, order, q, p, j)
    ensures !WithinOwnInterval(keys, st.placed)
  {
    var pusher := LandingIsFurthestPush(keys, order, p);
    LandsInside(keys, order, p);
    var i := order[p];
    assert st.placed[i] == Landing(keys, order, p);
    assert Distance(keys[i].addr, st.placed[i]) >= Distance(keys[i].addr, keys[j].addr);
  }

  lemma {:induction false} UncrowdedStays(keys: seq<Key>, order: seq<nat>, st: State, p: nat, j: nat)
    requires Turns(keys, order) && RoomAtTop(keys, order) && |st.placed| == |keys| == |order|
    requires Landed(keys, order, |order|, st) && NowhereCrowded(keys, order)
    requires p < |order| && j < |keys| && j != order[p] && keys[j].bank == keys[order[p]].bank
    ensures Distance(keys[order[p]].addr, st.placed[order[p]]) < Distance(keys[order[p]].addr, keys[j].addr)
  {
    var pusher := LandingIsFurthestPush(keys, order, p);
    LandsInside(keys, order, p);
    assert !Crowded(keys, order, pusher, p, j);
    assert !Crowded(keys, order, p, p, j);
    assert st.placed[order[p]] == Landing(keys, order, p);
  }

  /**
   * When no probe can pass the top of the table, the allocator accepts a list
   * exactly when no run of keys is too crowded for the room before the next
   * address of its last key's bank.
   */
  lemma {:induction false} PlacementIffNotCrowded(keys: seq<Key>)
    requires |keys| <= SLOTS && RoomAtTop(keys, Order(keys))
    ensures Placement(keys).Ok? <==> NowhereCrowded(keys, Order(keys))
  {
    var order, st := Order(keys), GreedyState(keys);
    SortedTurns(keys);
    if keys != [] {
      LandsInside(keys, order, |keys| - 1);
    }
    GreedyLands(keys, order, |keys|);
    PlacementIffIntervals(keys);
    if NowhereCrowded(keys, order) {
      forall i: nat, j: nat | i < |keys| && j < |keys| && i != j && keys[i].bank == keys[j].bank
        ensures Distance(keys[i].addr, st.placed[i]) < Distance(keys[i].addr, keys[j].addr)
      {
        var p := Turn(order, i);
        UncrowdedStays(keys, order, st, p, j);
      }
    } else {
      var q: nat, p: nat, j: nat :| Crowded(keys, order, q, p, j);
      CrowdedBreaks(keys, order, st, q, p, j);
    }
  }

  // ------------------------------------------------------------ not complete

  const CROWD := [Key(0xC0, 0x10), Key(0xC1, 0x10), Key(0xC1, 0x11)]

  lemma {:induction false} CrowdOrder()
    ensures Order(CROWD) == [0, 1, 2]
  {
    assert Upto(3) == [0, 1, 2];
    Sorting.SortOfSorted(ByAddress(CROWD), Upto(3));
  }

  const PLACEMENT := State(map[0x12 := 0xC0, 0x10 := 0xC1, 0x11 := 0xC1], [0x12, 0x10, 0x11])

  lemma {:induction false} CrowdFits()
    ensures Bijection(CROWD, PLACEMENT) && WithinOwnInterval(CROWD, PLACEMENT.placed)
  {
    var placed := PLACEMENT.placed;
    assert placed[0] == 0x12 && placed[1] == 0x10 && placed[2] == 0x11;
    forall s | s in PLACEMENT.table
      ensures exists i :: 0 <= i < |CROWD| && placed[i] == s
    {
    }
  }

  /** The allocator is not complete: it refuses a list that a placement serves. */
  lemma {:induction false} RefusedThoughPlaceable()
    ensures Placement(CROWD).Err?
    ensures Bijection(CROWD, PLACEMENT) && Unambiguous(CROWD, PLACEMENT)
  {
    CrowdIsRefused();
    CrowdFits();
    UnambiguousIffIntervals(CROWD, PLACEMENT);
  }

  lemma {:induction false} CrowdIsRefused()
    ensures Placement(CROWD).Err?
  {
    CrowdOrder();
    CrowdedIsRefused(CROWD, [0, 1, 2], 0, 1, 2);
  }

  lemma {:induction false} CrowdedIsRefused(keys: seq<Key>, order: seq<nat>, q: nat, p: nat, j: nat)
    requires |keys| <= SLOTS && order == Order(keys)
    requires RoomAtTop(keys, order) && Crowded(keys, order, q, p, j)
    ensures Placement(keys).Err?
  {
    PlacementIffNotCrowded(keys);
  }
}
