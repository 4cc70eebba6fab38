/**
 * What other starting conditions lead to, and exactly when an upload completes.
 * A counter above 128 shuts the driver in its wait; one from 1 to 128 sends it
 * through the block header, which takes the triple for a header of its own.
 */
module HandshakeStarts {
  import opened Types
  import opened Spc700
  import opened Handshake
  import opened HandshakeSafety
  import opened HandshakeTheorems

  // ------------------------------------------------------------ wrong counters

  /** Both latch sets and the console are as the first offer left them. */
  predicate Unanswered(t: Transfer, s: State, counter: byte) {
    && s.bus.latches == [counter, t.Sent(0), t.Sent(1), t.Sent(2)]
    && s.bus.acknowledge == t.seed && s.bus.acknowledged == 0
    && s.console == Console(0, counter, 0, t.seed, 0)
  }

  /** Waiting, or about to leave: on any counter but zero the driver takes nothing. */
  ghost predicate Shut(t: Transfer, s: State, counter: byte)
    requires s.bus.Valid()
  {
    && Unanswered(t, s, counter) && s.bus.memory == t.memory
    && s.cpu.y == 0
    && (s.cpu.pc == 0x0EDC || s.cpu.pc == 0x0EDE || s.cpu.pc == 0x0EE0 || s.cpu.pc == 0x0EE2)
    && (s.cpu.pc == 0x0EDE ==> !s.cpu.z)
    && (s.cpu.pc == 0x0EDE || s.cpu.pc == 0x0EE0 ==> (s.cpu.n <==> counter <= 0x80))
    && (s.cpu.pc == 0x0EE2 ==> counter <= 0x80)
    && (s.started && s.cpu.pc == FAST_LOOP ==> counter > 0x80)
    && (!s.started ==> s.cpu.pc == FAST_LOOP)
  }

  /** Memory once the header has stored its destination, from ports 2 and 3. */
  function Redirected(t: Transfer): (m: seq<byte>)
    requires |t.memory| == 0x10000
    ensures |m| == 0x10000
  {
    t.memory[FIRST_POINTER := t.Sent(1)][FIRST_POINTER + 1 := t.Sent(2)]
  }

  /** And once it has stashed the kind byte, from port 1. */
  function Parsed(t: Transfer): (m: seq<byte>)
    requires |t.memory| == 0x10000
    ensures |m| == 0x10000
  {
    Redirected(t)[KIND := t.Sent(0)]
  }

  predicate InHeader(pc: nat) {
    pc == 0x0EFF || pc == 0x0F01 || pc == 0x0F03 || pc == 0x0F05 || pc == 0x0F07 || pc == 0x0F09 || pc == 0x0F0B
  }

  /** In the header, up to its acknowledgement; the console has seen nothing. */
  ghost predicate Parsing(t: Transfer, s: State, counter: byte)
    requires s.bus.Valid() && |t.memory| == 0x10000
  {
    var pc := s.cpu.pc;
    && s.started && InHeader(pc) && Unanswered(t, s, counter)
    && s.bus.memory == (if pc <= 0x0F03 then t.memory else if pc <= 0x0F09 then Redirected(t) else Parsed(t))
    && (pc == 0x0F01 || pc == 0x0F03 ==> s.cpu.a == t.Sent(1))
    && (pc == 0x0F03 ==> s.cpu.y == t.Sent(2))
    && (pc == 0x0F07 || pc == 0x0F09 || pc == 0x0F0B ==> s.cpu.y == counter)
    && (pc == 0x0F09 || pc == 0x0F0B ==> s.cpu.a == t.Sent(0))
  }

  /** The header's one acknowledgement, which the console may notice and answer. */
  predicate Answered(t: Transfer, s: State, counter: byte)
    requires s.bus.Valid()
  {
    var c := s.console;
    && s.bus.acknowledge == counter && s.bus.acknowledged == 1
    && c.handshakes <= 1 && c.at == TRIPLE * c.handshakes && c.counter as int == counter as int + c.handshakes
    && c.seen == (if c.handshakes == 0 then t.seed else counter)
    && c.phase <= 4 && (c.handshakes == 0 ==> c.phase == 0)
    && counter as int <= s.bus.latches[0] as int <= counter as int + 1
  }

  /** Past the acknowledgement: waiting for a counter of zero, or handed to stock code. */
  ghost predicate Spinning(t: Transfer, s: State, counter: byte)
    requires s.bus.Valid() && |t.memory| == 0x10000
  {
    var pc := s.cpu.pc;
    && s.started && Answered(t, s, counter) && s.bus.memory == Parsed(t)
    && (pc == 0x0F0D || pc == 0x0F0F || pc == 0x0F11 || pc == BLOCK_START || pc == 0x0EBF || pc == DRIVER_READY)
    && (pc == 0x0F0D ==> s.cpu.a == t.Sent(0))
    && (pc == 0x0F0F ==> (s.cpu.z <==> t.Sent(0) == 0))
    && (pc == 0x0F11 || pc == BLOCK_START || pc == 0x0EBF ==> t.Sent(0) != 0)
    && (pc == 0x0EBF ==> !s.cpu.z)
    && (pc == DRIVER_READY ==> t.Sent(0) == 0)
  }

  /** All that can come of a counter other than zero. */
  ghost predicate Astray(t: Transfer, s: State, counter: byte)
    requires s.bus.Valid() && |t.memory| == 0x10000
  {
    Shut(t, s, counter) || (counter <= 0x80 && (Parsing(t, s, counter) || Spinning(t, s, counter)))
  }

  lemma {:induction false} ShutStep(t: Transfer, s: State, counter: byte)
    requires s.bus.Valid() && |t.memory| == 0x10000 && counter != 0 && Shut(t, s, counter) && !Stopped(t, s)
    ensures Astray(t, Step(t, s, DriverMoves), counter) && Step(t, s, DriverMoves).started
    ensures s.cpu.pc == 0x0EE2 ==> Parsing(t, Step(t, s, DriverMoves), counter)
  {
    WaitListing();
    if s.cpu.pc == 0x0EDC {
      assert (0 - counter as int) % 0x100 == 0x100 - counter;
    }
  }

  /** The listing the header's bytes disassemble to, up to its acknowledgement. */
  function HeaderProgram(pc: nat): Instr {
    match pc
    case 0x0EFF => MovADp(0xF6)
    case 0x0F01 => MovYDp(0xF7)
    case 0x0F03 => MovwDpYA(0x14)
    case 0x0F05 => MovYDp(0xF4)
    case 0x0F07 => MovADp(0xF5)
    case 0x0F09 => MovDpA(0xE6)
    case _ => MovDpY(0xF4)
  }

  lemma {:induction false} DriverRunsTheHeader(t: Transfer, s: State)
    requires s.bus.Valid() && InHeader(s.cpu.pc)
    ensures Step(t, s, DriverMoves) == Executed(s, HeaderProgram(s.cpu.pc))
  {
    HeaderListing();
  }

  lemma {:induction false} HeaderLoads(t: Transfer, s: State, counter: byte)
    requires s.bus.Valid() && |t.memory| == 0x10000 && Parsing(t, s, counter)
    requires s.cpu.pc == 0x0EFF || s.cpu.pc == 0x0F01 || s.cpu.pc == 0x0F05 || s.cpu.pc == 0x0F07
    ensures var r := Executed(s, HeaderProgram(s.cpu.pc));
            r.cpu.pc == s.cpu.pc + 2 && Parsing(t, r, counter)
  {
  }

  lemma {:induction false} HeaderStores(t: Transfer, s: State, counter: byte)
    requires s.bus.Valid() && |t.memory| == 0x10000 && Parsing(t, s, counter)
    requires s.cpu.pc == 0x0F03 || s.cpu.pc == 0x0F09
    ensures var r := Executed(s, HeaderProgram(s.cpu.pc));
            r.cpu.pc == s.cpu.pc + 2 && Parsing(t, r, counter)
  {
  }

  lemma {:induction false} HeaderAcknowledges(t: Transfer, s: State, counter: byte)
    requires s.bus.Valid() && |t.memory| == 0x10000 && Parsing(t, s, counter) && s.cpu.pc == 0x0F0B
    ensures var r := Executed(s, HeaderProgram(s.cpu.pc));
            r.cpu.pc == s.cpu.pc + 2 && Spinning(t, r, counter)
  {
  }

  lemma {:induction false} ParsingStep(t: Transfer, s: State, counter: byte)
    requires s.bus.Valid() && |t.memory| == 0x10000 && Parsing(t, s, counter)
    ensures var r := Step(t, s, DriverMoves);
            && r.cpu.pc == s.cpu.pc + 2 && r.console == s.console
            && if s.cpu.pc == 0x0F0B then Spinning(t, r, counter) else Parsing(t, r, counter)
  {
    DriverRunsTheHeader(t, s);
    if s.cpu.pc == 0x0F0B {
      HeaderAcknowledges(t, s, counter);
    } else if s.cpu.pc == 0x0F03 || s.cpu.pc == 0x0F09 {
      HeaderStores(t, s, counter);
    } else {
      HeaderLoads(t, s, counter);
    }
  }

  lemma {:induction false} SpinningStep(t: Transfer, s: State, counter: byte)
    requires s.bus.Valid() && |t.memory| == 0x10000 && 1 <= counter <= 0x80 && Spinning(t, s, counter)
    ensures Spinning(t, Step(t, s, DriverMoves), counter)
    ensures s.cpu.pc == 0x0F0D ==> Step(t, s, DriverMoves).cpu.pc == 0x0F0F
    ensures s.cpu.pc == 0x0F0F && t.Sent(0) == 0 ==> Step(t, s, DriverMoves).cpu.pc == DRIVER_READY
  {
    StartListing();
  }

  lemma {:induction false} ConsoleStaysAstray(t: Transfer, s: State, counter: byte)
    requires s.bus.Valid() && |t.memory| == 0x10000 && counter != 0 && Astray(t, s, counter)
    ensures Astray(t, Step(t, s, ConsoleMoves), counter)
    ensures Unanswered(t, s, counter) ==> Step(t, s, ConsoleMoves) == s
  {
  }

  lemma {:induction false} StepStaysAstray(t: Transfer, s: State, counter: byte, m: Move)
    requires s.bus.Valid() && |t.memory| == 0x10000 && counter != 0 && Astray(t, s, counter)
    ensures Astray(t, Step(t, s, m), counter)
  {
    if m.ConsoleMoves? {
      ConsoleStaysAstray(t, s, counter);
    } else if Shut(t, s, counter) {
      if !Stopped(t, s) {
        ShutStep(t, s, counter);
      }
    } else if Parsing(t, s, counter) {
      ParsingStep(t, s, counter);
    } else {
      SpinningStep(t, s, counter);
    }
  }

  lemma {:induction false} RunStaysAstray(t: Transfer, s: State, counter: byte, moves: seq<Move>)
    requires s.bus.Valid() && |t.memory| == 0x10000 && counter != 0 && Astray(t, s, counter)
    ensures Astray(t, Run(t, s, moves), counter)
    decreases |moves|
  {
    if moves != [] {
      StepStaysAstray(t, s, counter, moves[0]);
      RunStaysAstray(t, Step(t, s, moves[0]), counter, moves[1..]);
    }
  }

  /** Memory off the three cells the header writes is as it was. */
  ghost predicate OnlyHeaderCells(t: Transfer, memory: seq<byte>)
    requires |memory| == 0x10000 == |t.memory|
  {
    forall a: nat :: a < 0x10000 && a != FIRST_POINTER && a != FIRST_POINTER + 1 && a != KIND ==>
      memory[a] == t.memory[a]
  }

  /** The starts that lead to stock code: the header is read and its kind byte is zero. */
  predicate HandsOver(t: Transfer, counter: byte) {
    1 <= counter <= 0x80 && t.Sent(0) == 0
  }

  /** No stream byte, at most the header's one handshake, and no end if there is anything to wait for. */
  ghost predicate Undelivered(t: Transfer, s: State, counter: byte)
    requires s.bus.Valid() && |t.memory| == 0x10000
  {
    && OnlyHeaderCells(t, s.bus.memory) && s.console.handshakes <= s.bus.acknowledged <= 1
    && (counter > 0x80 ==> s.bus.memory == t.memory && s.bus.acknowledged == 0 && s.cpu.pc != 0x0EE2)
    && (t.payload != [] || counter <= 0x80 ==> !Stopped(t, s))
  }

  /**
   * A counter other than zero, at every moment of every interleaving until stock
   * code has control, which happens only for counters up to 128 and a first byte
   * of zero: nothing of the payload is delivered. Above 128 nothing happens at all;
   * below, the header writes its three cells and acknowledges once.
   */
  lemma {:induction false} WrongCounterDeliversNothing(t: Transfer, cpu: Cpu, counter: byte, moves: seq<Move>)
    requires |t.memory| == 0x10000 && counter != 0
    ensures var s := Run(t, Beginning(t, cpu, counter), moves);
            && (s.cpu.pc == DRIVER_READY ==> HandsOver(t, counter))
            && (s.cpu.pc != DRIVER_READY ==> Undelivered(t, s, counter))
  {
    RunStaysAstray(t, Beginning(t, cpu, counter), counter, moves);
    AstrayDeliversNothing(t, Run(t, Beginning(t, cpu, counter), moves), counter);
  }

  lemma {:induction false} AstrayDeliversNothing(t: Transfer, s: State, counter: byte)
    requires s.bus.Valid() && |t.memory| == 0x10000 && counter != 0 && Astray(t, s, counter)
    ensures s.cpu.pc == DRIVER_READY ==> HandsOver(t, counter)
    ensures Undelivered(t, s, counter)
  {
  }

  /** The driver runs that many instructions while the console does nothing. */
  function Alone(n: nat): (r: seq<Move>)
    ensures |r| == n && forall i :: 0 <= i < n ==> r[i] == DriverMoves
  {
    seq(n, _ => DriverMoves)
  }

  lemma {:induction false} AloneOne(t: Transfer, s: State, n: nat)
    requires s.bus.Valid() && n > 0
    ensures Run(t, s, Alone(n)) == Run(t, Step(t, s, DriverMoves), Alone(n - 1))
  {
    assert Alone(n) == [DriverMoves] + Alone(n - 1);
    RunOne(t, s, DriverMoves, Alone(n - 1));
  }

  lemma {:induction false} AloneMore(t: Transfer, s: State, n: nat, m: nat)
    requires s.bus.Valid()
    ensures Run(t, s, Alone(n + m)) == Run(t, Run(t, s, Alone(n)), Alone(m))
  {
    assert Alone(n + m) == Alone(n) + Alone(m);
    RunSplits(t, s, Alone(n), Alone(m));
  }

  /** From 1 to 128 the driver leaves its loop, four instructions in. */
  lemma {:induction false} LowWrongCounterLeaves(t: Transfer, cpu: Cpu, counter: byte)
    requires |t.memory| == 0x10000 && 1 <= counter <= 0x80
    ensures var s := Run(t, Beginning(t, cpu, counter), Alone(4));
            s.cpu.pc == BLOCK_HEADER && Parsing(t, s, counter)
  {
    WaitListing();
    var s0 := Beginning(t, cpu, counter);
    var s1 := Step(t, s0, DriverMoves);
    assert (0 - counter as int) % 0x100 == 0x100 - counter;
    assert s1.cpu.pc == 0x0EDE && s1.cpu.n && !s1.cpu.z;
    var s2 := Step(t, s1, DriverMoves);
    assert s2.cpu.pc == 0x0EE0;
    var s3 := Step(t, s2, DriverMoves);
    assert s3.cpu.pc == 0x0EE2;
    assert Alone(4) == [DriverMoves, DriverMoves, DriverMoves, DriverMoves];
    FourSteps(t, s0, DriverMoves);
  }

  /** From anywhere in the header the driver reads on to its acknowledgement. */
  lemma {:induction false} ReadsOn(t: Transfer, s: State, counter: byte) returns (n: nat)
    requires s.bus.Valid() && |t.memory| == 0x10000 && Parsing(t, s, counter)
    ensures var r := Run(t, s, Alone(n));
            2 * n == 0x0F0D - s.cpu.pc && r.cpu.pc == 0x0F0D && Spinning(t, r, counter) && r.console == s.console
    decreases 0x0F0D - s.cpu.pc
  {
    var next := Step(t, s, DriverMoves);
    ParsingStep(t, s, counter);
    if s.cpu.pc == 0x0F0B {
      n := 1;
      AloneOne(t, s, 1);
    } else {
      n := ReadsOn(t, next, counter);
      n := n + 1;
      AloneOne(t, s, n);
    }
  }

  /**
   * And eleven instructions in, it has taken the first triple for a block header:
   * destination, kind byte and one acknowledgement, all of them the payload's.
   */
  lemma {:induction false} LowWrongCounterIsParsed(t: Transfer, cpu: Cpu, counter: byte)
    requires |t.memory| == 0x10000 && 1 <= counter <= 0x80
    ensures var s := Run(t, Beginning(t, cpu, counter), Alone(11));
            && s.cpu.pc == 0x0F0D && Spinning(t, s, counter) && HeaderTaken(t, s, counter)
  {
    var s0 := Beginning(t, cpu, counter);
    LowWrongCounterLeaves(t, cpu, counter);
    var s4 := Run(t, s0, Alone(4));
    var n := ReadsOn(t, s4, counter);
    assert n == 7;
    AloneMore(t, s0, 4, n);
    HeaderIsTaken(t, Run(t, s4, Alone(n)), counter);
  }

  /** The header's three stores and its acknowledgement, which the console's next poll counts. */
  ghost predicate HeaderTaken(t: Transfer, s: State, counter: byte)
    requires s.bus.Valid() && |t.memory| == 0x10000
  {
    && s.bus.memory == Parsed(t) && s.bus.acknowledge == counter && s.bus.acknowledged == 1
    && Step(t, s, ConsoleMoves).console.handshakes == if counter == t.seed then 0 else 1
  }

  lemma {:induction false} HeaderIsTaken(t: Transfer, s: State, counter: byte)
    requires s.bus.Valid() && |t.memory| == 0x10000 && Spinning(t, s, counter)
    requires s.console == Console(0, counter, 0, t.seed, 0)
    ensures HeaderTaken(t, s, counter)
  {
  }

  /** The interleaving brings a fresh start to stock code. */
  ghost predicate ReachesStock(t: Transfer, cpu: Cpu, counter: byte, moves: seq<Move>)
    requires |t.memory| == 0x10000
  {
    Run(t, Beginning(t, cpu, counter), moves).cpu.pc == DRIVER_READY
  }

  lemma {:induction false} KindZeroReachesStock(t: Transfer, cpu: Cpu, counter: byte)
    requires |t.memory| == 0x10000 && HandsOver(t, counter)
    ensures ReachesStock(t, cpu, counter, Alone(13))
  {
    var s0 := Beginning(t, cpu, counter);
    LowWrongCounterIsParsed(t, cpu, counter);
    var s := Run(t, s0, Alone(11));
    AloneMore(t, s0, 11, 2);
    SpinningStep(t, s, counter);
    SpinningStep(t, Step(t, s, DriverMoves), counter);
    AloneOne(t, s, 2);
    AloneOne(t, Step(t, s, DriverMoves), 1);
  }

  /** Exactly which starts can lead out of the patched code. */
  lemma {:induction false} StockIffKindZero(t: Transfer, cpu: Cpu, counter: byte)
    requires WellPlaced(t)
    ensures (exists moves :: ReachesStock(t, cpu, counter, moves)) <==> HandsOver(t, counter)
  {
    if HandsOver(t, counter) {
      KindZeroReachesStock(t, cpu, counter);
    } else {
      forall moves
        ensures !ReachesStock(t, cpu, counter, moves)
      {
        if counter != 0 {
          WrongCounterDeliversNothing(t, cpu, counter, moves);
        } else if t.seed != 0 {
          BeginningHolds(t, cpu);
          RunKeeps(t, Beginning(t, cpu, 0), moves);
        } else {
          BeginningHolds(t, cpu);
          UnseededRunsNotice(t, Beginning(t, cpu, 0), moves);
        }
      }
    }
  }

  // --------------------------------------------------------------- unseeded latch

  /** With the latch already reading zero the first acknowledgement looks like silence. */
  lemma {:induction false} UnseededStepsNotice(t: Transfer, s: State, m: Move)
    requires WellPlaced(t) && t.seed == 0 && s.bus.Valid() && Inv(t, s)
    requires s.console.handshakes == 0 && s.console.phase == 0
    ensures Inv(t, Step(t, s, m))
    ensures Step(t, s, m).console.handshakes == 0 && Step(t, s, m).console.phase == 0
  {
    if !Stopped(t, s) && m.DriverMoves? {
      DriverRunsTheListing(t, s);
      DriverKeeps(t, s);
    }
  }

  lemma {:induction false} UnseededRunsNotice(t: Transfer, s: State, moves: seq<Move>)
    requires WellPlaced(t) && t.seed == 0 && s.bus.Valid() && Inv(t, s)
    requires s.console.handshakes == 0 && s.console.phase == 0
    ensures Inv(t, Run(t, s, moves)) && Run(t, s, moves).console.handshakes == 0
    decreases |moves|
  {
    if moves != [] {
      UnseededStepsNotice(t, s, moves[0]);
      UnseededRunsNotice(t, Step(t, s, moves[0]), moves[1..]);
    }
  }

  /** An unseeded latch: at most one triple is ever taken, none is ever noticed. */
  lemma {:induction false} UnseededNeverCompletes(t: Transfer, cpu: Cpu, moves: seq<Move>)
    requires WellPlaced(t) && t.seed == 0
    ensures var s := Run(t, Beginning(t, cpu, 0), moves);
            && s.console.handshakes == 0 && s.bus.acknowledged <= 1
            && (t.payload != [] ==> !Stopped(t, s))
  {
    BeginningHolds(t, cpu);
    UnseededRunsNotice(t, Beginning(t, cpu, 0), moves);
  }

  // ------------------------------------------------------------ empty payloads

  /** With nothing to send, the driver on its own gets round the loop once. */
  lemma {:induction false} DriverAloneStops(t: Transfer, s: State) returns (moves: seq<Move>)
    requires WellPlaced(t) && t.payload == [] && s.bus.Valid() && Inv(t, s)
    requires Stopped(t, s) || Productive(s, DriverMoves)
    ensures Stopped(t, Run(t, s, moves))
    decreases Work(t, s)
  {
    WorkIsPositive(t, s);
    if Stopped(t, s) {
      moves := [];
    } else {
      DriverRunsTheListing(t, s);
      DriverKeeps(t, s);
      DriverWorks(t, s);
      DriverStaysBusy(t, s);
      var next := Step(t, s, DriverMoves);
      WorkIsPositive(t, next);
      var rest := DriverAloneStops(t, next);
      RunOne(t, s, DriverMoves, rest);
      moves := [DriverMoves] + rest;
    }
  }

  lemma {:induction false} DriverStaysBusy(t: Transfer, s: State)
    requires s.bus.Valid() && t.payload == [] && Registers(t, s) && Productive(s, DriverMoves)
    ensures var r := Executed(s, Program(s.cpu.pc));
            Stopped(t, r) || Productive(r, DriverMoves)
  {
  }

  /** Above 128 the comparison is positive, so the driver comes straight back to the wait. */
  lemma {:induction false} HighWrongCounterComesBack(t: Transfer, cpu: Cpu, counter: byte)
    requires |t.memory| == 0x10000 && counter > 0x80 && t.payload == []
    ensures Stopped(t, Run(t, Beginning(t, cpu, counter), [DriverMoves, DriverMoves, DriverMoves]))
  {
    WaitListing();
    var s0, m := Beginning(t, cpu, counter), DriverMoves;
    var s1 := Step(t, s0, m);
    assert (0 - counter as int) % 0x100 == 0x100 - counter;
    assert s1.cpu.pc == 0x0EDE && !s1.cpu.n && !s1.cpu.z;
    var s2 := Step(t, s1, m);
    assert s2.cpu.pc == 0x0EE0 && !s2.cpu.n;
    RunOne(t, s0, m, [m, m]);
    RunOne(t, s1, m, [m]);
    RunOne(t, s2, m, []);
  }

  /** An empty payload is spent at once, so all that matters is whether the wait comes round again. */
  lemma {:induction false} EmptyPayloadStops(t: Transfer, cpu: Cpu, counter: byte) returns (moves: seq<Move>)
    requires WellPlaced(t) && t.payload == [] && (counter == 0 || counter > 0x80)
    ensures Stopped(t, Run(t, Beginning(t, cpu, counter), moves))
  {
    if counter == 0 {
      BeginningHolds(t, cpu);
      moves := DriverAloneStops(t, Beginning(t, cpu, 0));
    } else {
      HighWrongCounterComesBack(t, cpu, counter);
      moves := [DriverMoves, DriverMoves, DriverMoves];
    }
  }

  /** The starting conditions under which some run of the harness stops, unless it leaves for stock code. */
  predicate CanStop(t: Transfer, counter: byte) {
    if t.payload == [] then counter == 0 || counter > 0x80 else counter == 0 && t.seed != 0
  }

  /** The interleaving brings a fresh start to the stop rule. */
  ghost predicate StopsAfter(t: Transfer, cpu: Cpu, counter: byte, moves: seq<Move>)
    requires |t.memory| == 0x10000
  {
    Stopped(t, Run(t, Beginning(t, cpu, counter), moves))
  }

  /**
   * Exactly when an upload can complete, for every start that stays in the patched
   * code. With something to send, the console must offer counter zero and the
   * driver's latch must have been seeded with something else; an empty upload
   * stops for counter zero and for those above 128.
   */
  lemma {:induction false} CompletesIffPrepared(t: Transfer, cpu: Cpu, counter: byte)
    requires WellPlaced(t) && !HandsOver(t, counter)
    ensures (exists moves :: StopsAfter(t, cpu, counter, moves)) <==> CanStop(t, counter)
  {
    if CanStop(t, counter) {
      var moves := StoppingRun(t, cpu, counter);
      assert StopsAfter(t, cpu, counter, moves);
    } else {
      forall moves
        ensures !StopsAfter(t, cpu, counter, moves)
      {
        if counter != 0 {
          WrongCounterDeliversNothing(t, cpu, counter, moves);
        } else {
          UnseededNeverCompletes(t, cpu, moves);
        }
      }
    }
  }

  lemma {:induction false} StoppingRun(t: Transfer, cpu: Cpu, counter: byte) returns (moves: seq<Move>)
    requires WellPlaced(t) && CanStop(t, counter)
    ensures Stopped(t, Run(t, Beginning(t, cpu, counter), moves))
  {
    if t.payload == [] {
      moves := EmptyPayloadStops(t, cpu, counter);
    } else {
      var n := 40 * t.Triples() + 7;
      FairRunsDeliver(t, cpu, Turns(n));
      AlternatingIsRounds(t, Beginning(t, cpu, 0), n);
      moves := Alternating(n);
    }
  }
}
