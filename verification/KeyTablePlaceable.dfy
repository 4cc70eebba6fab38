/** Which key lists have any unambiguous placement at all, whatever the allocator makes of them. */
module KeyTablePlaceable {
  import opened Types
  import opened Circular
  import opened KeyTable
  import Marriage

  /** The slots a key may take: from its address up to the next same-bank address. */
  ghost function Room(keys: seq<Key>, i: nat): set<Slot>
    requires i < |keys|
  {
    set s: Slot | 0 <= s < SLOTS && MayTake(keys, i, s)
  }

  ghost predicate MayTake(keys: seq<Key>, i: nat, s: Slot)
    requires i < |keys|
  {
    forall j: nat :: j < |keys| && j != i && keys[j].bank == keys[i].bank ==>
      Distance(keys[i].addr, s) < Distance(keys[i].addr, keys[j].addr)
  }

  ghost function Rooms(keys: seq<Key>): (r: seq<set<Slot>>)
    ensures |r| == |keys| && forall i :: 0 <= i < |keys| ==> r[i] == Room(keys, i)
  {
    seq(|keys|, i requires 0 <= i < |keys| => Room(keys, i))
  }

  /** `length` consecutive slots from `start`, round the circle. */
  ghost function Arc(start: Slot, length: nat): set<Slot> {
    set s: Slot | 0 <= s < SLOTS && Distance(start, s) < length
  }

  /** The keys that may only take slots of the arc. */
  ghost function Confined(keys: seq<Key>, start: Slot, length: nat): set<nat> {
    set i: nat | i < |keys| && Room(keys, i) <= Arc(start, length)
  }

  /** The whole circle confines everybody. */
  ghost function Everyone(keys: seq<Key>): (r: set<nat>)
    ensures forall i: nat :: i in r <==> i < |keys|
  {
    Confined(keys, 0, SLOTS)
  }

  ghost predicate NoArcOverfull(keys: seq<Key>) {
    forall start: Slot, length: nat :: length <= SLOTS ==> |Confined(keys, start, length)| <= length
  }

  /** Some one-to-one placement lets every scan stop at home. */
  ghost predicate Placeable(keys: seq<Key>) {
    exists st: State :: Bijection(keys, st) && Unambiguous(keys, st)
  }

  // ------------------------------------------------------------ arcs on the circle

  lemma {:induction false} ArcGrows(start: Slot, length: nat) returns (last: Slot)
    requires 0 < length <= SLOTS
    ensures last !in Arc(start, length - 1) && Arc(start, length) == Arc(start, length - 1) + {last}
  {
    last := if start + length - 1 < SLOTS then start + length - 1 else start + length - 1 - SLOTS;
    forall s: Slot
      ensures s in Arc(start, length) <==> s in Arc(start, length - 1) + {last}
    {
      assert Distance(start, s) == length - 1 <==> s == last;
    }
  }

  lemma {:induction false} ArcSize(start: Slot, length: nat)
    requires length <= SLOTS
    ensures |Arc(start, length)| == length
    decreases length
  {
    if length == 0 {
      assert Arc(start, length) == {};
    } else {
      var last := ArcGrows(start, length);
      ArcSize(start, length - 1);
    }
  }

  /** A room is a stretch from the key's address: with a slot it has all before it. */
  lemma {:induction false} RoomIsStretch(keys: seq<Key>, i: nat, s: Slot, t: Slot)
    requires i < |keys| && s in Room(keys, i) && Distance(keys[i].addr, t) <= Distance(keys[i].addr, s)
    ensures t in Room(keys, i)
  {
    assert MayTake(keys, i, s);
  }

  /** A room that misses `z` is unbroken in the order that starts at `z`. */
  lemma {:induction false} RoomIsUnbroken(keys: seq<Key>, i: nat, z: Slot, s: Slot, w: Slot, t: Slot)
    requires i < |keys| && s in Room(keys, i) && t in Room(keys, i) && z !in Room(keys, i)
    requires Distance(z, s) <= Distance(z, w) <= Distance(z, t)
    ensures w in Room(keys, i)
  {
    var a := keys[i].addr;
    if Distance(a, z) <= Distance(a, s) {
      RoomIsStretch(keys, i, s, z);
    }
    if Distance(a, z) <= Distance(a, t) {
      RoomIsStretch(keys, i, t, z);
    }
    Unwound(a, z, s, w, t);
    RoomIsStretch(keys, i, t, w);
  }

  lemma {:induction false} Unwound(a: Slot, z: Slot, s: Slot, w: Slot, t: Slot)
    requires Distance(a, s) < Distance(a, z) && Distance(a, t) < Distance(a, z)
    requires Distance(z, s) <= Distance(z, w) <= Distance(z, t)
    ensures Distance(a, w) <= Distance(a, t)
  {
  }

  // ---------------------------------------------------------- every group has enough

  ghost function RoomsOf(keys: seq<Key>, group: set<nat>): set<Slot> {
    Marriage.Reach(Rooms(keys), group)
  }

  /** The first maximal stretch of slots a group reaches, met from a slot it does not. */
  lemma {:induction false} FirstStretch(reach: set<Slot>, z: Slot) returns (u: Slot, length: nat)
    requires reach != {} && z !in reach
    ensures IsFirst(reach, z, u) && 0 < length <= Distance(u, z)
    ensures Arc(u, length) <= reach
    ensures forall s: Slot :: s in reach && s !in Arc(u, length) ==> Distance(z, u) + length < Distance(z, s)
    ensures exists v: Slot :: v !in reach && Distance(u, v) == length
  {
    u := FirstOf(reach, z);
    var gaps := set s: Slot | 0 <= s < SLOTS && s !in reach;
    assert z in gaps;
    var v := FirstOf(gaps, u);
    length := Distance(u, v);
    assert length <= Distance(u, z);
    assert v != u;
    assert forall s: Slot :: s !in reach ==> s in gaps;
    forall s: Slot | s in reach && s !in Arc(u, length)
      ensures Distance(z, u) + length < Distance(z, s)
    {
      assert s != v;
      PastTheGap(z, u, v, s);
    }
  }

  lemma {:induction false} PastTheGap(z: Slot, u: Slot, v: Slot, s: Slot)
    requires Distance(z, u) <= Distance(z, s) && Distance(u, v) <= Distance(u, z) && s != v && z != u
    requires Distance(u, s) >= Distance(u, v)
    ensures Distance(z, u) + Distance(u, v) < Distance(z, s)
  {
  }

  /** A room the group uses lies whole in the first stretch, or misses it altogether. */
  lemma {:induction false} InsideOrPast(keys: seq<Key>, i: nat, reach: set<Slot>, z: Slot, u: Slot, v: Slot)
    requires i < |keys| && Room(keys, i) <= reach && z !in reach && v !in reach
    requires IsFirst(reach, z, u) && Distance(u, v) <= Distance(u, z)
    ensures Room(keys, i) <= Arc(u, Distance(u, v)) || Room(keys, i) !! Arc(u, Distance(u, v))
  {
    var length := Distance(u, v);
    if s, t :| s in Room(keys, i) && t in Room(keys, i) && s in Arc(u, length) && t !in Arc(u, length) {
      Straddles(z, u, v, s, t);
      RoomIsUnbroken(keys, i, z, s, v, t);
    }
  }

  lemma {:induction false} Straddles(z: Slot, u: Slot, v: Slot, s: Slot, t: Slot)
    requires Distance(z, u) <= Distance(z, s) && Distance(z, u) <= Distance(z, t) && z != t && z != u && z != s
    requires Distance(u, v) <= Distance(u, z) && Distance(u, s) < Distance(u, v) <= Distance(u, t)
    ensures Distance(z, s) <= Distance(z, v) <= Distance(z, t)
  {
  }

  /** No group of keys outnumbers the slots it reaches. */
  lemma {:induction false} EveryGroupHasEnough(keys: seq<Key>, group: set<nat>)
    requires NoArcOverfull(keys) && forall i :: i in group ==> i < |keys|
    ensures |group| <= |RoomsOf(keys, group)|
    decreases |group|, 1
  {
    var reach := RoomsOf(keys, group);
    if z: Slot :| z !in reach {
      if group != {} {
        NobodyIsHomeless(keys, group);
        OneStretchLess(keys, group, z);
      }
    } else {
      WholeCircle(keys, group);
    }
  }

  lemma {:induction false} WholeCircle(keys: seq<Key>, group: set<nat>)
    requires NoArcOverfull(keys) && forall i :: i in group ==> i < |keys|
    requires forall z: Slot :: z in RoomsOf(keys, group)
    ensures |group| <= |RoomsOf(keys, group)|
  {
    var all := Confined(keys, 0, SLOTS);
    assert group <= all;
    SubsetSize(group, all);
    PigeonHole(RoomsOf(keys, group), SLOTS);
  }

  lemma {:induction false} NobodyIsHomeless(keys: seq<Key>, group: set<nat>)
    requires NoArcOverfull(keys) && group != {} && forall i :: i in group ==> i < |keys|
    ensures forall i :: i in group ==> Room(keys, i) != {}
    ensures RoomsOf(keys, group) != {}
  {
    assert |Confined(keys, 0, 0)| <= 0;
    assert Confined(keys, 0, 0) == {};
    forall i | i in group
      ensures Room(keys, i) != {}
    {
      assert i !in Confined(keys, 0, 0);
    }
    var i :| i in group;
    var s :| s in Room(keys, i);
    assert s in Rooms(keys)[i];
    assert s in RoomsOf(keys, group);
  }

  /** Splits a group at a stretch: those inside it, and those whose rooms miss it. */
  lemma {:induction false} SplitAtStretch(keys: seq<Key>, group: set<nat>, z: Slot)
    returns (u: Slot, length: nat, past: set<nat>)
    requires forall i :: i in group ==> i < |keys|
    requires z !in RoomsOf(keys, group) && RoomsOf(keys, group) != {}
    ensures length <= SLOTS && Arc(u, length) <= RoomsOf(keys, group)
    ensures past < group && group - past <= Confined(keys, u, length)
    ensures RoomsOf(keys, past) !! Arc(u, length)
  {
    var reach := RoomsOf(keys, group);
    var v: Slot;
    u, length := FirstStretch(reach, z);
    v :| v !in reach && Distance(u, v) == length;
    past := set i | i in group && !(Room(keys, i) <= Arc(u, length));
    forall i | i in group
      ensures i in past ==> Room(keys, i) !! Arc(u, length)
    {
      assert Rooms(keys)[i] <= reach;
      InsideOrPast(keys, i, reach, z, u, v);
    }
    SomeoneIsInside(keys, group, u, length, group - past);
  }

  /** The counts of the two parts add up. */
  lemma {:induction false} PartsAddUp(group: set<nat>, past: set<nat>, confined: set<nat>,
                                      reach: set<Slot>, arc: set<Slot>, taken: set<Slot>)
    requires past <= group && group - past <= confined && |confined| <= |arc| && |past| <= |taken|
    requires arc <= reach && taken <= reach && taken !! arc
    ensures |group| <= |reach|
  {
    SubsetSize(group - past, confined);
    Marriage.UnionSize(group - past, past);
    assert group == (group - past) + past;
    Marriage.UnionSize(arc, taken);
    SubsetSize(arc + taken, reach);
  }

  lemma {:induction false} OneStretchLess(keys: seq<Key>, group: set<nat>, z: Slot)
    requires NoArcOverfull(keys) && forall i :: i in group ==> i < |keys|
    requires z !in RoomsOf(keys, group) && RoomsOf(keys, group) != {}
    ensures |group| <= |RoomsOf(keys, group)|
    decreases |group|, 0
  {
    var u, length, past := SplitAtStretch(keys, group, z);
    Marriage.SmallerSet(past, group);
    EveryGroupHasEnough(keys, past);
    ArcSize(u, length);
    assert RoomsOf(keys, past) <= RoomsOf(keys, group);
    PartsAddUp(group, past, Confined(keys, u, length), RoomsOf(keys, group), Arc(u, length), RoomsOf(keys, past));
  }

  /** The stretch's first slot is reached by a key that then lies inside it. */
  lemma {:induction false} SomeoneIsInside(keys: seq<Key>, group: set<nat>, u: Slot, length: nat, inside: set<nat>)
    requires length > 0 && forall i :: i in group ==> i < |keys|
    requires u in RoomsOf(keys, group)
    requires forall i :: i in group && i !in inside ==> Room(keys, i) !! Arc(u, length)
    ensures exists i :: i in group && i in inside
  {
    var i :| i in group && i < |keys| && u in Rooms(keys)[i];
    assert u in Arc(u, length);
  }

  // --------------------------------------------------------------- the theorem

  /** A placement that respects the rooms is one every scan can follow. */
  lemma {:induction false} RepresentativesPlace(keys: seq<Key>, m: map<nat, Slot>) returns (st: State)
    requires Marriage.Represents(Rooms(keys), Everyone(keys), {}, m)
    ensures Bijection(keys, st) && Unambiguous(keys, st)
  {
    var placed: seq<Slot> := seq(|keys|, i requires 0 <= i < |keys| => m[i]);
    var table := map s: Slot | s in m.Values :: keys[OwnerOf(m, s)].bank;
    st := State(table, placed);
    forall i: nat | i < |keys|
      ensures Owns(keys, st, i)
    {
      assert m[i] in m.Values;
      assert OwnerOf(m, m[i]) == i;
    }
    forall s | s in table
      ensures exists i :: 0 <= i < |keys| && placed[i] == s
    {
      assert placed[OwnerOf(m, s)] == s;
    }
    forall i, j | 0 <= i < |keys| && 0 <= j < |keys| && i != j && keys[i].bank == keys[j].bank
      ensures Distance(keys[i].addr, placed[i]) < Distance(keys[i].addr, keys[j].addr)
    {
      assert m[i] in Rooms(keys)[i] && MayTake(keys, i, m[i]);
    }
    UnambiguousIffIntervals(keys, st);
  }

  ghost function OwnerOf(m: map<nat, Slot>, s: Slot): (i: nat)
    requires s in m.Values
    ensures i in m && m[i] == s
  {
    var i :| i in m && m[i] == s;
    i
  }

  lemma {:induction false} PlacedFits(keys: seq<Key>, st: State, start: Slot, length: nat)
    requires Bijection(keys, st) && Unambiguous(keys, st) && length <= SLOTS
    ensures |Confined(keys, start, length)| <= length
  {
    UnambiguousIffIntervals(keys, st);
    var group := Confined(keys, start, length);
    var m := map i | i in group :: st.placed[i];
    forall i | i in group
      ensures m[i] in Arc(start, length)
    {
      assert MayTake(keys, i, st.placed[i]);
      assert st.placed[i] in Room(keys, i);
    }
    ArcSize(start, length);
    Marriage.RepresentativesFit(group, m, Arc(start, length));
  }

  /**
   * A list can be served at all exactly when no arc of the table is over-full: at
   * most as many keys are confined to it as it has slots.
   */
  lemma {:induction false} PlaceableIffNoArcOverfull(keys: seq<Key>)
    ensures Placeable(keys) <==> NoArcOverfull(keys)
  {
    if st: State :| Bijection(keys, st) && Unambiguous(keys, st) {
      forall start: Slot, length: nat | length <= SLOTS
        ensures |Confined(keys, start, length)| <= length
      {
        PlacedFits(keys, st, start, length);
      }
    }
    if NoArcOverfull(keys) {
      var all := Everyone(keys);
      forall group | group <= all
        ensures |group| <= |Marriage.Reach(Rooms(keys), group) - {}|
      {
        EveryGroupHasEnough(keys, group);
        assert Marriage.Reach(Rooms(keys), group) - {} == RoomsOf(keys, group);
      }
      var m := Marriage.Marry(Rooms(keys), all, {});
      var st := RepresentativesPlace(keys, m);
    }
  }

  /** Whatever the allocator accepts is placeable; the converse fails. */
  lemma {:induction false} AcceptedIsPlaceable(keys: seq<Key>)
    requires Placement(keys).Ok?
    ensures Placeable(keys) && NoArcOverfull(keys)
  {
    GreedyIsBijection(keys);
    PlaceableIffNoArcOverfull(keys);
  }
}
