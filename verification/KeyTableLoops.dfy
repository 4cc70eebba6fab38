/** The loops of the key table, each proved against its meaning in KeyTable. */
module KeyTableLoops {
  import opened Types
  import opened Circular
  import opened KeyTable

  /** Walks forward, wrapping, until a slot is free; fails only on a full table. */
  method FirstFreeSlot(taken: map<Slot, int>, start: Slot) returns (r: Option<Slot>)
    ensures r == FirstFree(taken, start)
  {
    var slot := start;
    for walked := 0 to SLOTS
      invariant walked < SLOTS ==> Distance(start, slot) == walked
      invariant forall t: Slot :: Distance(start, t) < walked ==> t in taken
    {
      if slot !in taken {
        NearestIs(Free(taken), start, slot);
        return Some(slot);
      }
      OnlyOneAtDistance(start, slot);
      slot := Next(slot);
    }
    assert forall t: Slot :: Distance(start, t) < SLOTS;
    return None;
  }

  lemma {:induction false} OnlyOneAtDistance(start: Slot, slot: Slot)
    ensures forall t: Slot :: Distance(start, t) <= Distance(start, slot) ==>
              Distance(start, t) < Distance(start, slot) || t == slot
  {
  }

  /** Walks forward, wrapping, until a slot carries the bank. */
  method ScanTable(table: map<Slot, int>, bank: int, addr: Slot) returns (r: Option<Slot>)
    ensures r == Scan(table, bank, addr)
  {
    var slot := addr;
    for walked := 0 to SLOTS
      invariant walked < SLOTS ==> Distance(addr, slot) == walked
      invariant forall t: Slot :: Distance(addr, t) < walked ==> t !in Holding(table, bank)
    {
      if slot in table && table[slot] == bank {
        NearestIs(Holding(table, bank), addr, slot);
        return Some(slot);
      }
      OnlyOneAtDistance(addr, slot);
      slot := Next(slot);
    }
    assert forall t: Slot :: Distance(addr, t) < SLOTS;
    return None;
  }

  /** The indices whose scan does not stop at their own slot, in list order. */
  method BrokenKeys(keys: seq<Key>, st: State) returns (broken: seq<nat>)
    requires Bijection(keys, st)
    ensures forall i: nat :: i in broken <==> i < |keys| && !ScansHome(keys, st, i)
    ensures forall p, q :: 0 <= p < q < |broken| ==> broken[p] < broken[q]
    ensures broken == [] <==> Unambiguous(keys, st)
  {
    broken := [];
    for i := 0 to |keys|
      invariant forall x: nat :: x in broken <==> x < i && !ScansHome(keys, st, x)
      invariant forall p, q :: 0 <= p < q < |broken| ==> broken[p] < broken[q]
      invariant broken == [] <==> forall x: nat :: x < i ==> ScansHome(keys, st, x)
    {
      var found := ScanTable(st.table, keys[i].bank, keys[i].addr);
      if found != Some(st.placed[i]) {
        assert !ScansHome(keys, st, i);
        assert forall p :: 0 <= p < |broken| ==> broken[p] in broken;
        broken := broken + [i];
      }
    }
  }

  /** One turn of the repair loop's body. */
  method RepairKey(keys: seq<Key>, st: State, i: nat) returns (r: State)
    requires Bijection(keys, st) && i < |keys|
    ensures r == Repaired(keys, st, i)
  {
    var bank := keys[i].bank;
    var found := ScanTable(st.table, bank, keys[i].addr);
    ScanFinds(keys, st, i);
    var table := st.table - {st.placed[i]};
    var slot := FirstFreeSlot(table, Next(found.value));
    assert Owns(keys, st, i) && st.placed[i] in Free(table);
    r := State(table[slot.value := bank], st.placed[i := slot.value]);
  }

  method GreedyPass(keys: seq<Key>) returns (st: State)
    requires |keys| <= SLOTS
    ensures st == GreedyState(keys)
  {
    var order := Order(keys);
    st := State(map[], seq(|keys|, _ => 0));
    for p := 0 to |order|
      invariant st == Greedy(keys, order, p)
    {
      var i := order[p];
      RoomRemains(st.table);
      var slot := FirstFreeSlot(st.table, keys[i].addr);
      st := State(st.table[slot.value := keys[i].bank], st.placed[i := slot.value]);
    }
  }

  /**
   * Greedy placement followed by up to 64 rounds of repair. The answer is fixed
   * by the greedy pass alone: every repair puts its key back, so a first round
   * that finds a broken key is followed by 63 rounds that find the same ones.
   */
  method Allocate(keys: seq<Key>) returns (r: Result<seq<Slot>, PlacementError>)
    ensures r == Placement(keys)
  {
    if |keys| > SLOTS {
      return Err(TooManyKeys);
    }
    var st := GreedyPass(keys);
    GreedyIsBijection(keys);
    for attempt := 0 to MAX_REPAIRS
      invariant st == GreedyState(keys)
      invariant attempt > 0 ==> !Unambiguous(keys, GreedyState(keys))
    {
      var broken := BrokenKeys(keys, st);
      if broken == [] {
        return Ok(st.placed);
      }
      for b := 0 to |broken|
        invariant st == GreedyState(keys)
      {
        var i := broken[b];
        assert i in broken;
        RepairIsNoOp(keys, st, i);
        st := RepairKey(keys, st, i);
      }
    }
    return Err(Ambiguous);
  }

  /** Slot by slot, who was put there; None when a slot would be used twice. */
  method Tabulate(keys: seq<Key>, placed: seq<Slot>) returns (r: Option<map<Slot, int>>)
    requires |keys| == |placed|
    ensures r.Some? <==> forall i, j :: 0 <= i < j < |keys| ==> placed[i] != placed[j]
    ensures r.Some? ==> Bijection(keys, State(r.value, placed))
  {
    var table: map<Slot, int> := map[];
    for i := 0 to |keys|
      invariant forall p, q :: 0 <= p < q < i ==> placed[p] != placed[q]
      invariant forall p: nat :: p < i ==> Owns(keys, State(table, placed), p)
      invariant forall s :: s in table ==> exists p :: 0 <= p < i && placed[p] == s
    {
      if placed[i] in table {
        return None;
      }
      forall p: nat | p < i
        ensures placed[p] != placed[i]
      {
        assert Owns(keys, State(table, placed), p);
      }
      ghost var was := table;
      table := table[placed[i] := keys[i].bank];
      forall p: nat | p < i + 1
        ensures Owns(keys, State(table, placed), p)
      {
        assert p < i ==> Owns(keys, State(was, placed), p);
      }
      forall s | s in table
        ensures exists p :: 0 <= p < i + 1 && placed[p] == s
      {
        if s != placed[i] {
          var p :| 0 <= p < i && placed[p] == s;
        }
      }
    }
    return Some(table);
  }

  /** Accepts a placement exactly when it is one-to-one and respects the intervals. */
  method Verify(keys: seq<Key>, placed: seq<Slot>) returns (r: Option<PlacementError>)
    requires |keys| == |placed|
    ensures r == Some(SlotUsedTwice) <==>
              exists i, j :: 0 <= i < j < |keys| && placed[i] == placed[j]
    ensures r.None? <==> (forall i, j :: 0 <= i < j < |keys| ==> placed[i] != placed[j]) &&
                         WithinOwnInterval(keys, placed)
    ensures r.None? || r == Some(SlotUsedTwice) || r == Some(ScansElsewhere)
  {
    var table := Tabulate(keys, placed);
    if table.None? {
      return Some(SlotUsedTwice);
    }
    ghost var st := State(table.value, placed);
    UnambiguousIffIntervals(keys, st);
    for i := 0 to |keys|
      invariant forall x: nat :: x < i ==> ScansHome(keys, st, x)
    {
      var found := ScanTable(table.value, keys[i].bank, keys[i].addr);
      if found != Some(placed[i]) {
        assert !ScansHome(keys, st, i);
        return Some(ScansElsewhere);
      }
    }
    return None;
  }
}
