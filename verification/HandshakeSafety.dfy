/** Every step of either process, in any order, keeps the handshake invariant. */
module HandshakeSafety {
  import opened Types
  import opened Spc700
  import opened Handshake

  // -------------------------------------------------------------- the console

  /** The state after the console's next atomic step. */
  function ConsoleMoved(t: Transfer, s: State): (r: State)
    requires s.bus.Valid()
    ensures r.bus.Valid()
  {
    var (console, bus) := ConsoleStep(t, s.console, s.bus);
    s.(console := console, bus := bus)
  }

  lemma {:induction false} NoticeLinks(t: Transfer, s: State)
    requires s.bus.Valid() && t.seed != 0 && Linked(t, s) && s.console.phase == 0
    ensures Linked(t, ConsoleMoved(t, s))
    ensures Ready(s) ==> ConsoleMoved(t, s) == s
  {
    var k := s.console.handshakes;
    if k >= 1 {
      NextByte(k);
    }
    NextByte(k + 1);
  }

  lemma {:induction false} OfferLinks(t: Transfer, s: State)
    requires s.bus.Valid() && Linked(t, s) && s.console.phase != 0
    ensures Linked(t, ConsoleMoved(t, s))
  {
  }

  lemma {:induction false} ConsoleKeeps(t: Transfer, s: State)
    requires s.bus.Valid() && Pointed(t) && t.seed != 0 && Inv(t, s) && !Stopped(t, s)
    ensures Inv(t, Step(t, s, ConsoleMoves))
  {
    var r := ConsoleMoved(t, s);
    assert r == Step(t, s, ConsoleMoves);
    assert r.bus.memory == s.bus.memory && r.cpu == s.cpu && r.bus.acknowledged == s.bus.acknowledged;
    if s.console.phase == 0 {
      NoticeLinks(t, s);
    } else {
      OfferLinks(t, s);
    }
    assert Registers(t, r);
    assert Pointers(t, r);
  }

  // ------------------------------------------------------- memory arithmetic

  /** Where `[pointer]+y` points when the page byte has kept up with the index. */
  lemma {:induction false} IndirectIsCell(where: nat, index: nat)
    requires where < 0x10000
    ensures (where % 0x100 + (where / 0x100 + index / 0x100) % 0x100 * 0x100 + index % 0x100) % 0x10000
         == Cell(where, index)
  {
    var page := where / 0x100 + index / 0x100;
    assert page == page / 0x100 * 0x100 + page % 0x100;
    assert where + index == page * 0x100 + where % 0x100 + index % 0x100;
    var small := where % 0x100 + page % 0x100 * 0x100 + index % 0x100;
    assert where + index == small + page / 0x100 * 0x10000;
    WrapOff(small, page / 0x100);
  }

  lemma {:induction false} WrapOff(small: nat, laps: nat)
    ensures (small + laps * 0x10000) % 0x10000 == small % 0x10000
  {
    if laps != 0 {
      WrapOff(small, laps - 1);
    }
  }

  lemma {:induction false} CellsDiffer(where: nat, i: nat, j: nat)
    requires i < j < 0x10000
    ensures Cell(where, i) != Cell(where, j)
  {
  }

  /** Writing one stream's next byte extends that stream. */
  lemma {:induction false} StoreExtends(memory: seq<byte>, t: Transfer, where: nat, lane: nat, i: nat)
    requires |memory| == 0x10000 && i < 0x10000 && StreamHolds(memory, t, where, lane, i)
    ensures StreamHolds(memory[Cell(where, i) := t.Sent(TRIPLE * i + lane)], t, where, lane, i + 1)
  {
    forall j: nat | j < i
      ensures Cell(where, j) != Cell(where, i)
    {
      CellsDiffer(where, j, i);
    }
  }

  /** Writing a cell none of a stream's bytes use keeps the stream. */
  lemma {:induction false} StoreMisses(memory: seq<byte>, t: Transfer, where: nat, lane: nat, count: int,
                                       a: nat, v: byte)
    requires |memory| == 0x10000 && a < 0x10000 && StreamHolds(memory, t, where, lane, count)
    requires forall i: nat :: i < count ==> Cell(where, i) != a
    ensures StreamHolds(memory[a := v], t, where, lane, count)
  {
  }

  lemma {:induction false} StoreKeepsOthers(memory: seq<byte>, t: Transfer, a: nat, v: byte)
    requires |memory| == 0x10000 == |t.memory| && a < 0x10000 && OthersKept(t, memory)
    requires Target(t, a) || a == 0x15 || a == 0xC9 || a == 0xCB
    ensures OthersKept(t, memory[a := v])
  {
  }

  /** A step that moves no memory and changes no count keeps what is stored. */
  lemma {:induction false} StoredSame(t: Transfer, s: State, r: State)
    requires s.bus.Valid() && r.bus.Valid() && |t.memory| == 0x10000 && Stored(t, s)
    requires r.bus.memory == s.bus.memory
    requires StoredFirst(r) == StoredFirst(s) && StoredSecond(r) == StoredSecond(s) && StoredThird(r) == StoredThird(s)
    ensures Stored(t, r)
  {
  }

  // ------------------------------------------------------- waiting and taking

  lemma {:induction false} WaitKeeps(t: Transfer, s: State)
    requires s.bus.Valid() && Pointed(t) && Inv(t, s) && !Stopped(t, s) && Waiting(s.cpu.pc)
    ensures Inv(t, Executed(s, Program(s.cpu.pc)))
  {
    var r := Executed(s, Program(s.cpu.pc));
    assert r.bus == s.bus && r.console == s.console;
    StoredSame(t, s, r);
    if s.cpu.pc == 0x0EDC {
      CompareTells(t, s);
    }
    WaitLinked(t, s);
  }

  lemma {:induction false} WaitLinked(t: Transfer, s: State)
    requires s.bus.Valid() && Linked(t, s) && Registers(t, s) && !Stopped(t, s) && Waiting(s.cpu.pc)
    requires s.cpu.pc == 0x0EDC ==>
               && (s.cpu.y == s.bus.latches[0] <==> Ready(s)) && (Ready(s) ==> s.bus.acknowledged < t.Triples())
               && (!Ready(s) ==> (s.cpu.y as int - s.bus.latches[0]) % 0x100 == 1 && s.bus.acknowledged >= 1)
    ensures Linked(t, Executed(s, Program(s.cpu.pc))) && Registers(t, Executed(s, Program(s.cpu.pc)))
  {
  }

  /**
   * The comparison: equal exactly when a fresh triple is ready; otherwise the
   * index is one ahead of the counter, so the result is not negative.
   */
  lemma {:induction false} CompareTells(t: Transfer, s: State)
    requires s.bus.Valid() && |t.memory| == 0x10000 && Inv(t, s) && !Stopped(t, s) && s.cpu.pc == 0x0EDC
    ensures s.cpu.y == s.bus.latches[0] <==> Ready(s)
    ensures Ready(s) ==> s.bus.acknowledged < t.Triples()
    ensures !Ready(s) ==> (s.cpu.y as int - s.bus.latches[0]) % 0x100 == 1 && s.bus.acknowledged >= 1
  {
    var taken := s.bus.acknowledged;
    if taken >= 1 {
      NextByte(taken);
    }
  }

  lemma {:induction false} NextByte(i: nat)
    requires i >= 1
    ensures (i % 0x100 - (i - 1) % 0x100) % 0x100 == 1
  {
  }

  lemma {:induction false} LoadKeeps(t: Transfer, s: State)
    requires s.bus.Valid() && Pointed(t) && Inv(t, s) && !Stopped(t, s)
    requires s.cpu.pc == 0x0EE4 || s.cpu.pc == 0x0EE8 || s.cpu.pc == 0x0EEA
    ensures Inv(t, Executed(s, Program(s.cpu.pc)))
  {
    var r := Executed(s, Program(s.cpu.pc));
    assert r.bus == s.bus && r.console == s.console;
    StoredSame(t, s, r);
  }

  lemma {:induction false} AcknowledgeKeeps(t: Transfer, s: State)
    requires s.bus.Valid() && Pointed(t) && Inv(t, s) && !Stopped(t, s) && s.cpu.pc == 0x0EEC
    ensures Inv(t, Executed(s, Program(s.cpu.pc)))
    ensures Executed(s, Program(s.cpu.pc)).bus.acknowledged == s.bus.acknowledged + 1
  {
    var r := Executed(s, Program(s.cpu.pc));
    assert r.bus.memory == s.bus.memory && r.console == s.console && r.bus.acknowledge == s.cpu.y;
  }

  // ------------------------------------------------------------------ stores

  lemma {:induction false} PointerMisses(memory: seq<byte>, cell: nat, where: nat, index: nat, a: nat, v: byte)
    requires cell == FIRST_POINTER || cell == SECOND_POINTER || cell == THIRD_POINTER
    requires |memory| == 0x10000 && a < 0x10000 && !Reserved(a) && PointsTo(memory, cell, where, index)
    ensures PointsTo(memory[a := v], cell, where, index)
  {
  }

  /** A store off the reserved cells leaves all three pointers alone. */
  lemma {:induction false} PointersMiss(t: Transfer, s: State, r: State, a: nat, v: byte)
    requires s.bus.Valid() && a < 0x10000 && !Reserved(a) && Pointers(t, s)
    requires r.bus == s.bus.(memory := s.bus.memory[a := v])
    requires (s.cpu.pc == 0x0EE6 && r.cpu.pc == 0x0EE8) || (s.cpu.pc == 0x0EEE && r.cpu.pc == 0x0EF0) ||
             (s.cpu.pc == 0x0EF1 && r.cpu.pc == 0x0EF3)
    ensures Pointers(t, r)
  {
    var i := if s.cpu.pc == 0x0EE6 then s.bus.acknowledged else s.bus.acknowledged - 1;
    PointerMisses(s.bus.memory, FIRST_POINTER, t.first, i, a, v);
    PointerMisses(s.bus.memory, SECOND_POINTER, t.second, i, a, v);
    PointerMisses(s.bus.memory, THIRD_POINTER, t.third, i, a, v);
  }

  /** What one of the three indirect stores does: its own stream's next cell, and the next pc. */
  function StoreMoved(s: State, a: nat): (r: State)
    requires s.bus.Valid() && a < 0x10000
    ensures r.bus.Valid()
  {
    s.(cpu := s.cpu.(pc := s.cpu.pc + 2), bus := s.bus.(memory := s.bus.memory[a := s.cpu.a]), started := true)
  }

  lemma {:induction false} StoreMoves(s: State, dp: byte, where: nat, index: nat)
    requires s.bus.Valid() && where < 0x10000
    requires dp == FIRST_POINTER || dp == SECOND_POINTER || dp == THIRD_POINTER
    requires PointsTo(s.bus.memory, dp, where, index) && s.cpu.y == index % 0x100
    requires !Reserved(Cell(where, index))
    ensures Executed(s, MovIndirectYA(dp)) == StoreMoved(s, Cell(where, index))
  {
    IndirectIsCell(where, index);
    assert s.bus.Read(dp) == s.bus.memory[dp] && s.bus.Read(dp + 1) == s.bus.memory[dp + 1];
    assert Indirect(s.bus, dp, s.cpu.y) == Cell(where, index);
  }

  /** The stream, lane and index the store at `pc` is for. */
  datatype Lane = Lane(where: nat, lane: nat, index: nat)

  function LaneAt(t: Transfer, s: State): Lane
    requires s.cpu.pc != 0x0EE6 ==> s.bus.acknowledged >= 1
  {
    if s.cpu.pc == 0x0EE6 then Lane(t.first, 0, s.bus.acknowledged)
    else if s.cpu.pc == 0x0EEE then Lane(t.third, 2, s.bus.acknowledged - 1)
    else Lane(t.second, 1, s.bus.acknowledged - 1)
  }

  predicate AtStore(pc: nat) {
    pc == 0x0EE6 || pc == 0x0EEE || pc == 0x0EF1
  }

  function WhereTo(t: Transfer, lane: nat): nat {
    if lane == 0 then t.first else if lane == 1 then t.second else t.third
  }

  /** Another lane's next cell is none of this lane's cells. */
  lemma {:induction false} LanesApart(t: Transfer, lane: nat, count: int, other: nat, i: nat)
    requires DestinationsClear(t) && lane < 3 && other < 3 && lane != other
    requires count <= t.Triples() && i < t.Triples()
    ensures forall j: nat :: j < count ==> Cell(WhereTo(t, lane), j) != Cell(WhereTo(t, other), i)
  {
  }

  /** Storing lane `l` at index `i` leaves another lane as it was. */
  lemma {:induction false} OtherLaneKept(memory: seq<byte>, t: Transfer, lane: nat, count: int, other: nat,
                                         i: nat, v: byte)
    requires |memory| == 0x10000 && DestinationsClear(t) && lane < 3 && other < 3 && lane != other
    requires count <= t.Triples() && i < t.Triples() && StreamHolds(memory, t, WhereTo(t, lane), lane, count)
    ensures StreamHolds(memory[Cell(WhereTo(t, other), i) := v], t, WhereTo(t, lane), lane, count)
  {
    LanesApart(t, lane, count, other, i);
    StoreMisses(memory, t, WhereTo(t, lane), lane, count, Cell(WhereTo(t, other), i), v);
  }

  lemma {:induction false} LaneIsTarget(t: Transfer, lane: nat, i: nat)
    requires lane < 3 && i < t.Triples()
    ensures Target(t, Cell(WhereTo(t, lane), i))
  {
  }

  /** One more byte of one lane, the others and everything else untouched. */
  lemma {:induction false} LaneStored(t: Transfer, m: seq<byte>, first: nat, second: nat, third: nat, lane: nat, i: nat)
    requires |m| == 0x10000 == |t.memory| && DestinationsClear(t) && lane < 3
    requires Lanes(t, m, first, second, third) && i < t.Triples()
    requires first <= t.Triples() && second <= t.Triples() && third <= t.Triples()
    requires i == if lane == 0 then first else if lane == 1 then second else third
    ensures Lanes(t, m[Cell(WhereTo(t, lane), i) := t.Sent(TRIPLE * i + lane)],
                  if lane == 0 then i + 1 else first, if lane == 1 then i + 1 else second,
                  if lane == 2 then i + 1 else third)
  {
    var v := t.Sent(TRIPLE * i + lane);
    LaneIsTarget(t, lane, i);
    StoreKeepsOthers(m, t, Cell(WhereTo(t, lane), i), v);
    StoreExtends(m, t, WhereTo(t, lane), lane, i);
    if lane != 0 {
      OtherLaneKept(m, t, 0, first, lane, i, v);
    }
    if lane != 1 {
      OtherLaneKept(m, t, 1, second, lane, i, v);
    }
    if lane != 2 {
      OtherLaneKept(m, t, 2, third, lane, i, v);
    }
  }

  /** A store at index `i` of lane `lane` carries the counts of `s` to those of `r`. */
  lemma {:induction false} StoreCounts(t: Transfer, s: State, r: State, lane: nat, i: nat)
    requires s.bus.Valid() && r.bus.Valid() && |t.memory| == 0x10000 && DestinationsClear(t) && Stored(t, s)
    requires lane < 3 && i < t.Triples() && s.bus.acknowledged <= t.Triples()
    requires r.bus.memory == s.bus.memory[Cell(WhereTo(t, lane), i) := t.Sent(TRIPLE * i + lane)]
    requires 0 <= StoredFirst(s) <= t.Triples() && 0 <= StoredSecond(s) && 0 <= StoredThird(s)
    requires i == if lane == 0 then StoredFirst(s) else if lane == 1 then StoredSecond(s) else StoredThird(s)
    requires StoredFirst(r) == if lane == 0 then i + 1 else StoredFirst(s)
    requires StoredSecond(r) == if lane == 1 then i + 1 else StoredSecond(s)
    requires StoredThird(r) == if lane == 2 then i + 1 else StoredThird(s)
    ensures Stored(t, r)
  {
    LaneStored(t, s.bus.memory, StoredFirst(s), StoredSecond(s), StoredThird(s), lane, i);
  }

  lemma {:induction false} StoreStored(t: Transfer, s: State)
    requires s.bus.Valid() && |t.memory| == 0x10000 && DestinationsClear(t) && Stored(t, s) && AtStore(s.cpu.pc)
    requires s.cpu.pc == 0x0EE6 || 1 <= s.bus.acknowledged
    requires LaneAt(t, s).index < t.Triples() && s.bus.acknowledged <= t.Triples()
    requires s.cpu.a == t.Sent(TRIPLE * LaneAt(t, s).index + LaneAt(t, s).lane)
    ensures Stored(t, StoreMoved(s, Cell(LaneAt(t, s).where, LaneAt(t, s).index)))
  {
    var l := LaneAt(t, s);
    StoreCounts(t, s, StoreMoved(s, Cell(l.where, l.index)), l.lane, l.index);
  }

  lemma {:induction false} StoreLinked(t: Transfer, s: State, a: nat)
    requires s.bus.Valid() && AtStore(s.cpu.pc) && Linked(t, s) && Registers(t, s) && a < 0x10000
    ensures Linked(t, StoreMoved(s, a)) && Registers(t, StoreMoved(s, a))
  {
  }

  lemma {:induction false} StoreMovesItsLane(t: Transfer, s: State)
    requires s.bus.Valid() && Pointed(t) && DestinationsClear(t) && AtStore(s.cpu.pc)
    requires Linked(t, s) && Registers(t, s) && Pointers(t, s)
    ensures LaneAt(t, s).index < t.Triples()
    ensures !Reserved(Cell(LaneAt(t, s).where, LaneAt(t, s).index))
    ensures Executed(s, Program(s.cpu.pc)) == StoreMoved(s, Cell(LaneAt(t, s).where, LaneAt(t, s).index))
  {
    var l := LaneAt(t, s);
    if s.cpu.pc == 0x0EE6 {
      StoreMoves(s, 0x14, l.where, l.index);
    } else if s.cpu.pc == 0x0EEE {
      StoreMoves(s, 0xCA, l.where, l.index);
    } else {
      StoreMoves(s, 0xC8, l.where, l.index);
    }
  }

  /** The accumulator holds the byte the lane at `pc` is waiting for. */
  lemma {:induction false} StoreHolds(t: Transfer, s: State)
    requires s.bus.Valid() && AtStore(s.cpu.pc) && Linked(t, s) && Registers(t, s)
    ensures s.cpu.pc == 0x0EE6 || 1 <= s.bus.acknowledged
    ensures LaneAt(t, s).index < t.Triples() && s.bus.acknowledged <= t.Triples()
    ensures s.cpu.a == t.Sent(TRIPLE * LaneAt(t, s).index + LaneAt(t, s).lane)
  {
  }

  lemma {:induction false} StorePointers(t: Transfer, s: State, a: nat)
    requires s.bus.Valid() && AtStore(s.cpu.pc) && Pointers(t, s) && a < 0x10000 && !Reserved(a)
    ensures Pointers(t, StoreMoved(s, a))
  {
    PointersMiss(t, s, StoreMoved(s, a), a, s.cpu.a);
  }

  lemma {:induction false} StoreKeeps(t: Transfer, s: State)
    requires s.bus.Valid() && Pointed(t) && DestinationsClear(t)
    requires Inv(t, s) && !Stopped(t, s) && AtStore(s.cpu.pc)
    ensures Inv(t, Executed(s, Program(s.cpu.pc)))
  {
    StoreMovesItsLane(t, s);
    var a := Cell(LaneAt(t, s).where, LaneAt(t, s).index);
    StoreHolds(t, s);
    StoreStored(t, s);
    StoreLinked(t, s, a);
    StorePointers(t, s, a);
  }

  // -------------------------------------------------------- index and carry

  lemma {:induction false} IndexKeeps(t: Transfer, s: State)
    requires s.bus.Valid() && Pointed(t) && Inv(t, s) && !Stopped(t, s)
    requires s.cpu.pc == 0x0EF0 || s.cpu.pc == 0x0EF3
    ensures Inv(t, Executed(s, Program(s.cpu.pc)))
  {
    var r := Executed(s, Program(s.cpu.pc));
    assert r.bus == s.bus && r.console == s.console;
    StoredSame(t, s, r);
    IndexLinked(t, s);
  }

  lemma {:induction false} IndexLinked(t: Transfer, s: State)
    requires s.bus.Valid() && Linked(t, s) && Registers(t, s) && (s.cpu.pc == 0x0EF0 || s.cpu.pc == 0x0EF3)
    ensures Linked(t, Executed(s, Program(s.cpu.pc))) && Registers(t, Executed(s, Program(s.cpu.pc)))
  {
    NextIndex(s.bus.acknowledged);
  }

  lemma {:induction false} NextIndex(i: nat)
    requires i >= 1
    ensures ((i - 1) % 0x100 + 1) % 0x100 == i % 0x100
    ensures i % 0x100 != 0 ==> (i - 1) / 0x100 == i / 0x100
    ensures i % 0x100 == 0 ==> (i - 1) / 0x100 + 1 == i / 0x100
  {
  }

  lemma {:induction false} SamePage(memory: seq<byte>, cell: nat, where: nat, i: nat)
    requires cell < 0xFF && |memory| == 0x10000 && i % 0x100 != 0
    requires PointsTo(memory, cell, where, i) || (i >= 1 && PointsTo(memory, cell, where, i - 1))
    ensures PointsTo(memory, cell, where, i)
  {
    NextIndex(i);
  }

  lemma {:induction false} BranchKeeps(t: Transfer, s: State)
    requires s.bus.Valid() && Pointed(t) && Inv(t, s) && !Stopped(t, s)
    requires s.cpu.pc == 0x0EF4 || s.cpu.pc == 0x0EFC
    ensures Inv(t, Executed(s, Program(s.cpu.pc)))
  {
    var r := Executed(s, Program(s.cpu.pc));
    assert r.bus == s.bus && r.console == s.console;
    StoredSame(t, s, r);
    if s.cpu.y != 0 {
      SamePage(s.bus.memory, FIRST_POINTER, t.first, s.bus.acknowledged);
      SamePage(s.bus.memory, SECOND_POINTER, t.second, s.bus.acknowledged);
      SamePage(s.bus.memory, THIRD_POINTER, t.third, s.bus.acknowledged);
    }
  }

  /** Incrementing a page byte carries that pointer to the current index. */
  lemma {:induction false} CarryPointer(memory: seq<byte>, cell: nat, where: nat, taken: nat)
    requires |memory| == 0x10000 && cell < 0xFF && taken >= 1 && taken % 0x100 == 0
    requires PointsTo(memory, cell, where, taken - 1)
    ensures PointsTo(memory[cell + 1 := (memory[cell + 1] as int + 1) % 0x100], cell, where, taken)
  {
    NextIndex(taken);
  }

  function CarryMoved(s: State, cell: nat): (r: State)
    requires s.bus.Valid() && cell < 0xF0
    ensures r.bus.Valid()
  {
    var v: byte := (s.bus.memory[cell + 1] as int + 1) % 0x100;
    s.(cpu := Flagged(s.cpu.(pc := s.cpu.pc + 2), v),
       bus := s.bus.(memory := s.bus.memory[cell + 1 := v]), started := true)
  }

  lemma {:induction false} CarryMoves(s: State, cell: nat)
    requires s.bus.Valid() && cell < 0xF0
    ensures Executed(s, IncDp(cell + 1)) == CarryMoved(s, cell)
  {
  }

  lemma {:induction false} PageMisses(memory: seq<byte>, cell: nat, where: nat, index: nat, a: nat, v: byte)
    requires cell == FIRST_POINTER || cell == SECOND_POINTER || cell == THIRD_POINTER
    requires a == 0x15 || a == 0xC9 || a == 0xCB
    requires a != cell + 1 && |memory| == 0x10000 && PointsTo(memory, cell, where, index)
    ensures PointsTo(memory[a := v], cell, where, index)
  {
  }

  lemma {:induction false} CarryStored(t: Transfer, s: State, cell: nat)
    requires s.bus.Valid() && |t.memory| == 0x10000 && DestinationsClear(t) && Stored(t, s)
    requires s.bus.acknowledged <= t.Triples()
    requires (s.cpu.pc == 0x0EF6 && cell == FIRST_POINTER) || (s.cpu.pc == 0x0EF8 && cell == SECOND_POINTER) ||
             (s.cpu.pc == 0x0EFA && cell == THIRD_POINTER)
    ensures Stored(t, CarryMoved(s, cell))
  {
    var m := s.bus.memory;
    var v: byte := (m[cell + 1] as int + 1) % 0x100;
    StoreMisses(m, t, t.first, 0, StoredFirst(s), cell + 1, v);
    StoreMisses(m, t, t.second, 1, StoredSecond(s), cell + 1, v);
    StoreMisses(m, t, t.third, 2, StoredThird(s), cell + 1, v);
    StoreKeepsOthers(m, t, cell + 1, v);
  }

  lemma {:induction false} CarryPointers(t: Transfer, s: State, cell: nat)
    requires s.bus.Valid() && Pointers(t, s) && s.bus.acknowledged % 0x100 == 0
    requires (s.cpu.pc == 0x0EF6 && cell == FIRST_POINTER) || (s.cpu.pc == 0x0EF8 && cell == SECOND_POINTER) ||
             (s.cpu.pc == 0x0EFA && cell == THIRD_POINTER)
    ensures Pointers(t, CarryMoved(s, cell))
  {
    var taken, m := s.bus.acknowledged, s.bus.memory;
    var v: byte := (m[cell + 1] as int + 1) % 0x100;
    if cell == FIRST_POINTER {
      CarryPointer(m, FIRST_POINTER, t.first, taken);
      PageMisses(m, SECOND_POINTER, t.second, taken - 1, 0x15, v);
      PageMisses(m, THIRD_POINTER, t.third, taken - 1, 0x15, v);
    } else if cell == SECOND_POINTER {
      PageMisses(m, FIRST_POINTER, t.first, taken, 0xC9, v);
      CarryPointer(m, SECOND_POINTER, t.second, taken);
      PageMisses(m, THIRD_POINTER, t.third, taken - 1, 0xC9, v);
    } else {
      PageMisses(m, FIRST_POINTER, t.first, taken, 0xCB, v);
      PageMisses(m, SECOND_POINTER, t.second, taken, 0xCB, v);
      CarryPointer(m, THIRD_POINTER, t.third, taken);
    }
  }

  lemma {:induction false} CarryKeeps(t: Transfer, s: State, cell: nat)
    requires s.bus.Valid() && Pointed(t) && DestinationsClear(t) && Inv(t, s) && !Stopped(t, s)
    requires (s.cpu.pc == 0x0EF6 && cell == FIRST_POINTER) || (s.cpu.pc == 0x0EF8 && cell == SECOND_POINTER) ||
             (s.cpu.pc == 0x0EFA && cell == THIRD_POINTER)
    ensures Inv(t, Executed(s, Program(s.cpu.pc)))
  {
    CarryMoves(s, cell);
    CarryStored(t, s, cell);
    CarryPointers(t, s, cell);
    var r := CarryMoved(s, cell);
    assert Linked(t, r) && Registers(t, r);
  }

  // ------------------------------------------------------------- every step

  lemma {:induction false} DriverKeeps(t: Transfer, s: State)
    requires s.bus.Valid() && Pointed(t) && DestinationsClear(t) && Inv(t, s) && !Stopped(t, s)
    ensures Inv(t, Executed(s, Program(s.cpu.pc)))
  {
    var pc := s.cpu.pc;
    if Waiting(pc) {
      WaitKeeps(t, s);
    } else if AtStore(pc) {
      StoreKeeps(t, s);
    } else if pc == 0x0EEC {
      AcknowledgeKeeps(t, s);
    } else if Taking(pc) {
      LoadKeeps(t, s);
    } else if Storing(pc) {
      IndexKeeps(t, s);
    } else if pc == 0x0EF4 || pc == 0x0EFC {
      BranchKeeps(t, s);
    } else {
      CarryKeeps(t, s, if pc == 0x0EF6 then FIRST_POINTER else if pc == 0x0EF8 then SECOND_POINTER else THIRD_POINTER);
    }
  }

  /** The driver's step is the listing's instruction, as long as it is on the loop. */
  lemma {:induction false} DriverRunsTheListing(t: Transfer, s: State)
    requires s.bus.Valid() && !Stopped(t, s)
    requires Waiting(s.cpu.pc) || Taking(s.cpu.pc) || Storing(s.cpu.pc) || Carrying(s.cpu.pc)
    ensures Step(t, s, DriverMoves) == Executed(s, Program(s.cpu.pc))
  {
    WaitListing();
    TakeListing();
    StoreListing();
    CarryListing();
  }

  lemma {:induction false} StepKeeps(t: Transfer, s: State, m: Move)
    requires s.bus.Valid() && Pointed(t) && DestinationsClear(t) && t.seed != 0 && Inv(t, s)
    ensures Inv(t, Step(t, s, m))
  {
    if !Stopped(t, s) {
      if m.DriverMoves? {
        DriverRunsTheListing(t, s);
        DriverKeeps(t, s);
      } else {
        ConsoleKeeps(t, s);
      }
    }
  }
}
