/**
 * The allocator's answer for every key list, read off the keys: keys pushed past
 * the top of the table fill its lowest holes in turn.
 */
module KeyTableWrap {
  import opened Types
  import opened Circular
  import opened KeyTable
  import opened KeyTableLimits

  /** How many of the first `n` keys land below `a`. */
  function Earlier(keys: seq<Key>, order: seq<nat>, n: nat, a: nat): nat
    requires Indices(order, |keys|) && n <= |order|
  {
    if n == 0 then 0
    else Earlier(keys, order, n - 1, a) + (if Landing(keys, order, n - 1) < a then 1 else 0)
  }

  /**
   * The key at position `p` finds its slot before the address of `j`: by landing
   * short of it, or, pushed past the top, by finding enough holes below it.
   */
  ghost predicate Stays(keys: seq<Key>, order: seq<nat>, p: nat, j: nat)
    requires Indices(order, |keys|) && p < |order| && j < |keys|
  {
    var a, other, landing := AddrAt(keys, order, p), keys[j].addr, Landing(keys, order, p);
    if landing < SLOTS then other < a || landing < other
    else other < a && Earlier(keys, order, p, other) + (landing - SLOTS) < other
  }

  ghost predicate EveryKeyStays(keys: seq<Key>, order: seq<nat>)
    requires Indices(order, |keys|)
  {
    forall p: nat, j: nat :: p < |order| && j < |keys| && j != order[p] && keys[j].bank == keys[order[p]].bank ==>
      Stays(keys, order, p, j)
  }

  // ------------------------------------------------------------ past the top

  ghost predicate TakenFrom(table: map<Slot, int>, a: Slot) {
    forall t: Slot :: a <= t ==> t in table
  }

  ghost predicate TakenUpTo(table: map<Slot, int>, s: Slot) {
    forall t: Slot :: t <= s ==> t in table
  }

  /** With nothing free from its address up, a probe finds the lowest hole. */
  lemma {:induction false} ProbeFindsLowestHole(table: map<Slot, int>, a: Slot, s: Slot)
    requires TakenFrom(table, a) && IsFirst(Free(table), a, s)
    ensures s < a && s !in table && forall t: Slot :: t < s ==> t in table
  {
    assert s in Free(table);
    assert forall t: Slot :: t !in table ==> t in Free(table);
  }

  /** The slot the greedy pass gives the key at position `p`. */
  ghost function SlotAt(keys: seq<Key>, order: seq<nat>, p: nat): Slot
    requires Turns(keys, order) && p < |order|
  {
    Greedy(keys, order, p + 1).placed[order[p]]
  }

  lemma {:induction false} SlotIsFirstFree(keys: seq<Key>, order: seq<nat>, p: nat)
    requires Turns(keys, order) && p < |order|
    ensures var was, slot := Greedy(keys, order, p), SlotAt(keys, order, p);
            && IsFirst(Free(was.table), AddrAt(keys, order, p), slot)
            && Greedy(keys, order, p + 1).table == was.table[slot := keys[order[p]].bank]
  {
    RoomRemains(Greedy(keys, order, p).table);
  }

  /** Later keys do not move earlier ones. */
  lemma {:induction false} SlotStays(keys: seq<Key>, order: seq<nat>, p: nat, n: nat)
    requires Turns(keys, order) && p < n <= |order|
    ensures Greedy(keys, order, n).placed[order[p]] == SlotAt(keys, order, p)
  {
    if p < n - 1 {
      SlotStays(keys, order, p, n - 1);
      assert order[p] != order[n - 1];
    }
  }

  /** Before a key pushed past the top, no slot from its address up is free. */
  lemma {:induction false} TopIsTaken(keys: seq<Key>, order: seq<nat>, p: nat)
    requires Turns(keys, order) && p < |order| && Landing(keys, order, p) >= SLOTS
    ensures p > 0 && TakenFrom(Greedy(keys, order, p).table, AddrAt(keys, order, p))
  {
    LandingRises(keys, order, p);
    assert Before(keys, order[p - 1], order[p]);
    if Landing(keys, order, p - 1) < SLOTS {
      GreedyLands(keys, order, p);
      GreedySettles(keys, order, p);
      assert FullArc(Greedy(keys, order, p), AddrAt(keys, order, p - 1), SLOTS - 1);
    } else {
      TopIsTaken(keys, order, p - 1);
      SlotIsFirstFree(keys, order, p - 1);
    }
  }

  /** It takes the lowest hole, above the hole the key before it took. */
  lemma {:induction false} TakesLowestHole(keys: seq<Key>, order: seq<nat>, p: nat)
    requires Turns(keys, order) && p < |order| && Landing(keys, order, p) >= SLOTS
    ensures SlotAt(keys, order, p) < AddrAt(keys, order, p)
    ensures TakenUpTo(Greedy(keys, order, p + 1).table, SlotAt(keys, order, p))
    ensures SlotAt(keys, order, p) !in Greedy(keys, order, p).table
    ensures p > 0
    ensures Landing(keys, order, p - 1) >= SLOTS ==> SlotAt(keys, order, p - 1) < SlotAt(keys, order, p)
  {
    TopIsTaken(keys, order, p);
    SlotIsFirstFree(keys, order, p);
    ProbeFindsLowestHole(Greedy(keys, order, p).table, AddrAt(keys, order, p), SlotAt(keys, order, p));
    if Landing(keys, order, p - 1) >= SLOTS {
      TakesLowestHole(keys, order, p - 1);
    }
  }

  // ---------------------------------------------------------------- counting

  ghost function Below(table: map<Slot, int>, a: Slot): set<Slot> {
    set t | t in table && t < a
  }

  lemma {:induction false} BelowIsSmall(s: set<Slot>, n: nat)
    requires n <= SLOTS && forall t :: t in s ==> t < n
    ensures |s| <= n
    decreases n
  {
    if n == 0 {
      assert s == {};
    } else if n - 1 in s {
      BelowIsSmall(s - {n - 1}, n - 1);
    } else {
      BelowIsSmall(s, n - 1);
    }
  }

  lemma {:induction false} BelowGrows(table: map<Slot, int>, slot: Slot, bank: int, a: Slot)
    requires slot !in table
    ensures |Below(table[slot := bank], a)| == |Below(table, a)| + if slot < a then 1 else 0
  {
    var after := Below(table[slot := bank], a);
    if slot < a {
      assert after == Below(table, a) + {slot};
    } else {
      assert after == Below(table, a);
    }
  }

  lemma {:induction false} BelowIsFull(table: map<Slot, int>, a: Slot, s: Slot)
    requires TakenUpTo(table, s) && a <= s
    ensures |Below(table, a)| == a
  {
    BelowIsSmall(Below(table, a), a);
    PigeonHole(Below(table, a), a);
  }

  /** How many slots below `a` are taken once the key at position `p` is placed. */
  lemma {:induction false} TakenBelow(keys: seq<Key>, order: seq<nat>, p: nat, a: Slot)
    requires Turns(keys, order) && p < |order|
    ensures var taken, landing := |Below(Greedy(keys, order, p + 1).table, a)|, Landing(keys, order, p);
            && (landing < SLOTS ==> taken == Earlier(keys, order, p + 1, a))
            && (landing >= SLOTS && SlotAt(keys, order, p) < a ==>
                  taken == Earlier(keys, order, p, a) + (landing - SLOTS) + 1)
            && (landing >= SLOTS && SlotAt(keys, order, p) >= a ==>
                  taken <= Earlier(keys, order, p, a) + (landing - SLOTS))
    decreases p
  {
    SlotIsFirstFree(keys, order, p);
    BelowGrows(Greedy(keys, order, p).table, SlotAt(keys, order, p), keys[order[p]].bank, a);
    if Landing(keys, order, p) < SLOTS {
      SlotIsLanding(keys, order, p);
    } else {
      TakesLowestHole(keys, order, p);
    }
    if p != 0 {
      LandingRises(keys, order, p);
      TakenBelow(keys, order, p - 1, a);
    } else {
      assert Below(Greedy(keys, order, p).table, a) == {};
    }
  }

  lemma {:induction false} SlotIsLanding(keys: seq<Key>, order: seq<nat>, p: nat)
    requires Turns(keys, order) && p < |order| && Landing(keys, order, p) < SLOTS
    ensures SlotAt(keys, order, p) == Landing(keys, order, p)
  {
    GreedyLands(keys, order, p + 1);
  }

  /** A key pushed past the top stops below `a` exactly when the holes below `a` suffice. */
  lemma {:induction false} HolesSuffice(keys: seq<Key>, order: seq<nat>, p: nat, a: Slot)
    requires Turns(keys, order) && p < |order| && Landing(keys, order, p) >= SLOTS
    ensures SlotAt(keys, order, p) < a <==> Earlier(keys, order, p, a) + (Landing(keys, order, p) - SLOTS) < a
  {
    var table := Greedy(keys, order, p + 1).table;
    TakenBelow(keys, order, p, a);
    TakesLowestHole(keys, order, p);
    if SlotAt(keys, order, p) < a {
      BelowIsSmall(Below(table, a), a);
    } else {
      BelowIsFull(table, a, SlotAt(keys, order, p));
    }
  }

  lemma {:induction false} StaysIffInside(keys: seq<Key>, order: seq<nat>, p: nat, j: nat)
    requires Turns(keys, order) && p < |order| && j < |keys|
    ensures Stays(keys, order, p, j) <==>
              Distance(AddrAt(keys, order, p), SlotAt(keys, order, p)) < Distance(AddrAt(keys, order, p), keys[j].addr)
  {
    if Landing(keys, order, p) < SLOTS {
      var pusher := LandingIsFurthestPush(keys, order, p);
      SlotIsLanding(keys, order, p);
    } else {
      HolesSuffice(keys, order, p, keys[j].addr);
      TakesLowestHole(keys, order, p);
    }
  }

  /**
   * For every key list, wrapping or not: the allocator accepts it exactly when
   * there are no more keys than slots and every key stays before the next address
   * of its bank, where landings and holes are counted from the keys alone.
   */
  lemma {:induction false} PlacementIffEveryKeyStays(keys: seq<Key>)
    ensures Placement(keys).Ok? <==> |keys| <= SLOTS && EveryKeyStays(keys, Order(keys))
  {
    PlacementIffIntervals(keys);
    if |keys| <= SLOTS {
      var order, placed := Order(keys), GreedyState(keys).placed;
      SortedTurns(keys);
      forall p: nat, j: nat | p < |order| && j < |keys|
        ensures Stays(keys, order, p, j) <==>
                  Distance(keys[order[p]].addr, placed[order[p]]) < Distance(keys[order[p]].addr, keys[j].addr)
      {
        StaysIffInside(keys, order, p, j);
        SlotStays(keys, order, p, |keys|);
      }
      AllStayIffIntervals(keys, order, placed);
    }
  }

  /** Every key has a turn, so a statement about turns is one about keys. */
  lemma {:induction false} AllStayIffIntervals(keys: seq<Key>, order: seq<nat>, placed: seq<Slot>)
    requires Turns(keys, order) && |order| == |keys| == |placed| && forall i: nat :: i < |keys| ==> i in order
    requires forall p: nat, j: nat :: p < |order| && j < |keys| ==>
               (Stays(keys, order, p, j) <==>
                Distance(keys[order[p]].addr, placed[order[p]]) < Distance(keys[order[p]].addr, keys[j].addr))
    ensures EveryKeyStays(keys, order) <==> WithinOwnInterval(keys, placed)
  {
    if EveryKeyStays(keys, order) {
      forall i: nat, j: nat | i < |keys| && j < |keys| && i != j && keys[i].bank == keys[j].bank
        ensures Distance(keys[i].addr, placed[i]) < Distance(keys[i].addr, keys[j].addr)
      {
        var p := Turn(order, i);
        assert Stays(keys, order, p, j);
      }
    }
  }
}
