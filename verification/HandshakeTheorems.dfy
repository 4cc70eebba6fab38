/** What the handshake guarantees over whole runs from a prepared start. */
module HandshakeTheorems {
  import opened Types
  import opened Spc700
  import opened Handshake
  import opened HandshakeSafety

  /** An upload whose pointers are set and whose destinations are disjoint. */
  ghost predicate WellPlaced(t: Transfer) {
    Pointed(t) && DestinationsClear(t)
  }

  lemma {:induction false} BeginningHolds(t: Transfer, cpu: Cpu)
    requires WellPlaced(t)
    ensures Inv(t, Beginning(t, cpu, 0))
  {
  }

  lemma {:induction false} RunKeeps(t: Transfer, s: State, moves: seq<Move>)
    requires WellPlaced(t) && t.seed != 0 && s.bus.Valid() && Inv(t, s)
    ensures Inv(t, Run(t, s, moves))
    decreases |moves|
  {
    if moves != [] {
      StepKeeps(t, s, moves[0]);
      RunKeeps(t, Step(t, s, moves[0]), moves[1..]);
    }
  }

  // ------------------------------------------------------------------ safety

  /** The payload's byte `i`, or the zero it is padded with, stands at that cell. */
  ghost predicate Stands(t: Transfer, memory: seq<byte>, cell: nat, i: nat)
    requires |memory| == 0x10000 && cell < 0x10000
  {
    if i < |t.payload| then memory[cell] == t.payload[i] else memory[cell] == 0
  }

  /** Triple `i` stands whole in the three streams. */
  ghost predicate TripleStored(t: Transfer, memory: seq<byte>, i: nat)
    requires |memory| == 0x10000
  {
    && Stands(t, memory, Cell(t.first, i), 3 * i)
    && Stands(t, memory, Cell(t.second, i), 3 * i + 1)
    && Stands(t, memory, Cell(t.third, i), 3 * i + 2)
  }

  /**
   * At every moment of every interleaving, from the first step on: no more
   * triples are acknowledged than there are, acknowledgements lead what the
   * console has noticed by at most one, every acknowledged triple but the newest
   * is in place whole, and nothing else in memory has changed.
   */
  lemma {:induction false} NothingTornOrLost(t: Transfer, cpu: Cpu, moves: seq<Move>)
    requires WellPlaced(t) && t.seed != 0
    ensures var s := Run(t, Beginning(t, cpu, 0), moves);
            && s.console.handshakes <= s.bus.acknowledged <= s.console.handshakes + 1
            && s.bus.acknowledged <= t.Triples()
            && OthersKept(t, s.bus.memory)
            && (forall i: nat :: i < s.bus.acknowledged - 1 ==> TripleStored(t, s.bus.memory, i))
  {
    BeginningHolds(t, cpu);
    RunKeeps(t, Beginning(t, cpu, 0), moves);
    TriplesStand(t, Run(t, Beginning(t, cpu, 0), moves));
  }

  lemma {:induction false} TriplesStand(t: Transfer, s: State)
    requires s.bus.Valid() && |t.memory| == 0x10000 && Stored(t, s)
    ensures forall i: nat :: i < s.bus.acknowledged - 1 ==> TripleStored(t, s.bus.memory, i)
  {
  }

  /** The exit branch is never reached, under any interleaving. */
  lemma {:induction false} NeverLeaves(t: Transfer, cpu: Cpu, moves: seq<Move>)
    requires WellPlaced(t) && t.seed != 0
    ensures Run(t, Beginning(t, cpu, 0), moves).cpu.pc != 0x0EE2
    ensures Run(t, Beginning(t, cpu, 0), moves).cpu.pc != BLOCK_HEADER
  {
    BeginningHolds(t, cpu);
    RunKeeps(t, Beginning(t, cpu, 0), moves);
  }

  /** The three streams as the sender meant them, and the price in handshakes. */
  ghost predicate Delivered(t: Transfer, s: State)
    requires s.bus.Valid() && |t.memory| == 0x10000
  {
    && s.bus.acknowledged == t.Triples()
    && (|t.payload| > 0 ==> s.console.handshakes == t.Triples())
    && StreamHolds(s.bus.memory, t, t.first, 0, t.Triples())
    && StreamHolds(s.bus.memory, t, t.second, 1, t.Triples())
    && StreamHolds(s.bus.memory, t, t.third, 2, t.Triples())
    && OthersKept(t, s.bus.memory)
  }

  /**
   * Whenever the harness stops, the payload has been delivered whole: every
   * third byte from offset 0, 1 and 2, zero padded, one triple a handshake.
   */
  lemma {:induction false} StoppedMeansDelivered(t: Transfer, cpu: Cpu, moves: seq<Move>)
    requires WellPlaced(t) && t.seed != 0
    requires Stopped(t, Run(t, Beginning(t, cpu, 0), moves))
    ensures Delivered(t, Run(t, Beginning(t, cpu, 0), moves))
  {
    BeginningHolds(t, cpu);
    RunKeeps(t, Beginning(t, cpu, 0), moves);
    AtStop(t, Run(t, Beginning(t, cpu, 0), moves));
  }

  lemma {:induction false} AtStop(t: Transfer, s: State)
    requires s.bus.Valid() && |t.memory| == 0x10000 && Inv(t, s) && Stopped(t, s)
    ensures Delivered(t, s)
  {
  }

  // ---------------------------------------------------------------- progress

  /** Instructions left on the way round the loop; waiting counts only while a triple is ready. */
  function DriverRank(s: State): nat {
    var pc := s.cpu.pc;
    if pc == 0x0EDC then (if Ready(s) then 6 else 9)
    else if pc == 0x0EDE then (if !Ready(s) then 9 else if s.cpu.z then 5 else 8)
    else if pc == 0x0EE0 then (if Ready(s) then 7 else 9)
    else if pc == 0x0EE4 then 4 else if pc == 0x0EE6 then 3 else if pc == 0x0EE8 then 2
    else if pc == 0x0EEA then 1 else if pc == 0x0EEC then 0
    else if pc == 0x0EEE then 18 else if pc == 0x0EF0 then 17 else if pc == 0x0EF1 then 16
    else if pc == 0x0EF3 then 15 else if pc == 0x0EF4 then 14 else if pc == 0x0EF6 then 13
    else if pc == 0x0EF8 then 12 else if pc == 0x0EFA then 11 else 10
  }

  /** Console steps owed: notice, three data latches, the counter. */
  function ConsoleRank(s: State): nat {
    if s.console.phase == 0 then (if s.bus.acknowledged > s.console.handshakes then 5 else 0)
    else if s.console.phase <= 4 then 5 - s.console.phase else 0
  }

  /** Work left: 40 for each triple not yet taken, plus both processes' own. */
  function Work(t: Transfer, s: State): int {
    40 * (t.Triples() - s.bus.acknowledged) + DriverRank(s) + ConsoleRank(s)
  }

  /** The mover's next step will do something rather than poll in vain. */
  predicate Productive(s: State, m: Move) {
    match m
    case DriverMoves => Ready(s) || !Waiting(s.cpu.pc)
    case ConsoleMoves => s.console.phase != 0 || s.bus.acknowledged > s.console.handshakes
  }

  lemma {:induction false} SomeoneIsProductive(t: Transfer, s: State)
    requires s.bus.Valid() && Linked(t, s)
    ensures Productive(s, DriverMoves) || Productive(s, ConsoleMoves)
  {
  }

  lemma {:induction false} ConsoleWorks(t: Transfer, s: State)
    requires WellPlaced(t) && t.seed != 0 && s.bus.Valid() && Inv(t, s) && !Stopped(t, s)
    ensures Work(t, ConsoleMoved(t, s)) <= Work(t, s)
    ensures Productive(s, ConsoleMoves) ==> Work(t, ConsoleMoved(t, s)) < Work(t, s)
    ensures !Productive(s, ConsoleMoves) ==> ConsoleMoved(t, s) == s
    ensures Productive(s, DriverMoves) ==> Productive(ConsoleMoved(t, s), DriverMoves)
  {
    var k := s.console.handshakes;
    NextByte(k + 1);
    if k >= 1 {
      NextByte(k);
    }
  }

  lemma {:induction false} WaitWorks(t: Transfer, s: State)
    requires s.bus.Valid() && |t.memory| == 0x10000 && Inv(t, s) && !Stopped(t, s) && Waiting(s.cpu.pc)
    ensures var r := Executed(s, Program(s.cpu.pc));
            && Work(t, r) <= Work(t, s)
            && (Productive(s, DriverMoves) ==> Work(t, r) < Work(t, s))
            && (Productive(s, ConsoleMoves) ==> Productive(r, ConsoleMoves))
  {
    if s.cpu.pc == 0x0EDC {
      CompareTells(t, s);
    }
  }

  /** A store or a carry changes memory and the pc only, and the pc goes down the ranks. */
  lemma {:induction false} MemoryStepWorks(t: Transfer, s: State, r: State)
    requires s.bus.Valid() && r.bus.Valid() && r.console == s.console && r.cpu.pc == s.cpu.pc + 2
    requires r.bus.acknowledged == s.bus.acknowledged
    requires AtStore(s.cpu.pc) || s.cpu.pc == 0x0EF6 || s.cpu.pc == 0x0EF8 || s.cpu.pc == 0x0EFA
    ensures Work(t, r) < Work(t, s) && (Productive(s, ConsoleMoves) ==> Productive(r, ConsoleMoves))
  {
  }

  lemma {:induction false} StoreWorks(t: Transfer, s: State)
    requires WellPlaced(t) && s.bus.Valid() && Linked(t, s) && Registers(t, s) && Pointers(t, s) && AtStore(s.cpu.pc)
    ensures var r := Executed(s, Program(s.cpu.pc));
            Work(t, r) < Work(t, s) && (Productive(s, ConsoleMoves) ==> Productive(r, ConsoleMoves))
  {
    StoreMovesItsLane(t, s);
    MemoryStepWorks(t, s, Executed(s, Program(s.cpu.pc)));
  }

  lemma {:induction false} CarryWorks(t: Transfer, s: State)
    requires s.bus.Valid() && (s.cpu.pc == 0x0EF6 || s.cpu.pc == 0x0EF8 || s.cpu.pc == 0x0EFA)
    ensures var r := Executed(s, Program(s.cpu.pc));
            Work(t, r) < Work(t, s) && (Productive(s, ConsoleMoves) ==> Productive(r, ConsoleMoves))
  {
    CarryMoves(s, if s.cpu.pc == 0x0EF6 then FIRST_POINTER
                  else if s.cpu.pc == 0x0EF8 then SECOND_POINTER else THIRD_POINTER);
    MemoryStepWorks(t, s, Executed(s, Program(s.cpu.pc)));
  }

  lemma {:induction false} DriverWorks(t: Transfer, s: State)
    requires WellPlaced(t) && s.bus.Valid() && Inv(t, s) && !Stopped(t, s)
    ensures var r := Executed(s, Program(s.cpu.pc));
            && Work(t, r) <= Work(t, s)
            && (Productive(s, DriverMoves) ==> Work(t, r) < Work(t, s))
            && (Productive(s, ConsoleMoves) ==> Productive(r, ConsoleMoves))
  {
    var pc := s.cpu.pc;
    if Waiting(pc) {
      WaitWorks(t, s);
    } else if AtStore(pc) {
      StoreWorks(t, s);
    } else if pc == 0x0EF6 || pc == 0x0EF8 || pc == 0x0EFA {
      CarryWorks(t, s);
    }
  }

  lemma {:induction false} StepWorks(t: Transfer, s: State, m: Move)
    requires WellPlaced(t) && t.seed != 0 && s.bus.Valid() && Inv(t, s) && !Stopped(t, s)
    ensures Work(t, Step(t, s, m)) <= Work(t, s)
    ensures Productive(s, m) ==> Work(t, Step(t, s, m)) < Work(t, s)
    ensures forall other :: other != m && Productive(s, other) ==> Productive(Step(t, s, m), other)
  {
    if m.DriverMoves? {
      DriverRunsTheListing(t, s);
      DriverWorks(t, s);
    } else {
      ConsoleWorks(t, s);
    }
  }

  lemma {:induction false} WorkNeverGrows(t: Transfer, s: State, moves: seq<Move>)
    requires WellPlaced(t) && t.seed != 0 && s.bus.Valid() && Inv(t, s)
    ensures Work(t, Run(t, s, moves)) <= Work(t, s)
    decreases |moves|
  {
    if moves != [] && !Stopped(t, s) {
      StepWorks(t, s, moves[0]);
      StepKeeps(t, s, moves[0]);
      WorkNeverGrows(t, Step(t, s, moves[0]), moves[1..]);
    } else {
      StoppedStays(t, s, moves);
    }
  }

  lemma {:induction false} StoppedStays(t: Transfer, s: State, moves: seq<Move>)
    requires s.bus.Valid() && (moves == [] || Stopped(t, s))
    ensures Run(t, s, moves) == s
    decreases |moves|
  {
    if moves != [] {
      StoppedStays(t, s, moves[1..]);
    }
  }

  /** A stretch in which a productive mover gets its turn makes progress. */
  lemma {:induction false} TurnMakesProgress(t: Transfer, s: State, moves: seq<Move>, m: Move)
    requires WellPlaced(t) && t.seed != 0 && s.bus.Valid() && Inv(t, s)
    requires Productive(s, m) && m in moves
    ensures Stopped(t, Run(t, s, moves)) || Work(t, Run(t, s, moves)) < Work(t, s)
    decreases |moves|
  {
    if Stopped(t, s) {
      StoppedStays(t, s, moves);
    } else {
      StepWorks(t, s, moves[0]);
      StepKeeps(t, s, moves[0]);
      if moves[0] == m {
        WorkNeverGrows(t, Step(t, s, moves[0]), moves[1..]);
      } else {
        TurnMakesProgress(t, Step(t, s, moves[0]), moves[1..], m);
      }
    }
  }

  /** A round gives each process at least one step. */
  ghost predicate IsRound(moves: seq<Move>) {
    DriverMoves in moves && ConsoleMoves in moves
  }

  function RunRounds(t: Transfer, s: State, rounds: seq<seq<Move>>): (r: State)
    requires s.bus.Valid()
    ensures r.bus.Valid()
    decreases |rounds|
  {
    if rounds == [] then s else RunRounds(t, Run(t, s, rounds[0]), rounds[1..])
  }

  lemma {:induction false} RoundsFinish(t: Transfer, s: State, rounds: seq<seq<Move>>)
    requires WellPlaced(t) && t.seed != 0 && s.bus.Valid() && Inv(t, s)
    requires forall i :: 0 <= i < |rounds| ==> IsRound(rounds[i])
    requires Work(t, s) < |rounds| || Stopped(t, s)
    ensures Stopped(t, RunRounds(t, s, rounds)) && Inv(t, RunRounds(t, s, rounds))
    decreases |rounds|
  {
    if rounds == [] {
      WorkIsPositive(t, s);
    } else {
      var next := Run(t, s, rounds[0]);
      RunKeeps(t, s, rounds[0]);
      if Stopped(t, s) {
        StoppedStays(t, s, rounds[0]);
      } else {
        SomeoneIsProductive(t, s);
        var m := if Productive(s, DriverMoves) then DriverMoves else ConsoleMoves;
        TurnMakesProgress(t, s, rounds[0], m);
      }
      RoundsFinish(t, next, rounds[1..]);
    }
  }

  lemma {:induction false} WorkIsPositive(t: Transfer, s: State)
    requires s.bus.Valid() && Linked(t, s)
    ensures Work(t, s) >= 0
  {
  }

  /**
   * Every fair schedule completes: after 40 rounds a triple and seven more,
   * whatever happens inside the rounds, the harness has stopped with everything
   * delivered.
   */
  lemma {:induction false} FairRunsDeliver(t: Transfer, cpu: Cpu, rounds: seq<seq<Move>>)
    requires WellPlaced(t) && t.seed != 0
    requires forall i :: 0 <= i < |rounds| ==> IsRound(rounds[i])
    requires |rounds| >= 40 * t.Triples() + 7
    ensures Stopped(t, RunRounds(t, Beginning(t, cpu, 0), rounds))
    ensures Delivered(t, RunRounds(t, Beginning(t, cpu, 0), rounds))
  {
    BeginningHolds(t, cpu);
    RoundsFinish(t, Beginning(t, cpu, 0), rounds);
    AtStop(t, RunRounds(t, Beginning(t, cpu, 0), rounds));
  }

  // -------------------------------------------------------------- runs in pieces

  lemma {:induction false} FourSteps(t: Transfer, s: State, m: Move)
    requires s.bus.Valid()
    ensures Run(t, s, [m, m, m, m]) == Step(t, Step(t, Step(t, Step(t, s, m), m), m), m)
  {
    RunOne(t, s, m, [m, m, m]);
    RunOne(t, Step(t, s, m), m, [m, m]);
    RunOne(t, Step(t, Step(t, s, m), m), m, [m]);
    RunOne(t, Step(t, Step(t, Step(t, s, m), m), m), m, []);
  }

  lemma {:induction false} RunOne(t: Transfer, s: State, m: Move, rest: seq<Move>)
    requires s.bus.Valid()
    ensures Run(t, s, [m] + rest) == Run(t, Step(t, s, m), rest)
  {
    assert ([m] + rest)[1..] == rest;
  }

  function Alternating(n: nat): seq<Move> {
    if n == 0 then [] else [DriverMoves, ConsoleMoves] + Alternating(n - 1)
  }

  function Turns(n: nat): (r: seq<seq<Move>>)
    ensures |r| == n && forall i :: 0 <= i < n ==> r[i] == [DriverMoves, ConsoleMoves]
  {
    seq(n, _ => [DriverMoves, ConsoleMoves])
  }

  lemma {:induction false} RunSplits(t: Transfer, s: State, a: seq<Move>, b: seq<Move>)
    requires s.bus.Valid()
    ensures Run(t, s, a + b) == Run(t, Run(t, s, a), b)
    decreases |a|
  {
    if a == [] {
      assert a + b == b;
    } else {
      assert (a + b)[1..] == a[1..] + b;
      RunSplits(t, Step(t, s, a[0]), a[1..], b);
    }
  }

  lemma {:induction false} AlternatingIsRounds(t: Transfer, s: State, n: nat)
    requires s.bus.Valid()
    ensures RunRounds(t, s, Turns(n)) == Run(t, s, Alternating(n))
    decreases n
  {
    if n != 0 {
      assert Turns(n)[1..] == Turns(n - 1);
      RunSplits(t, s, [DriverMoves, ConsoleMoves], Alternating(n - 1));
      AlternatingIsRounds(t, Run(t, s, [DriverMoves, ConsoleMoves]), n - 1);
    }
  }
}
