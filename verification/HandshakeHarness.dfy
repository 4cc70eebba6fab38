/** The objects that drive an upload: the console at the chip's ports, and the stand-in ports. */
module HandshakeHarness {
  import opened Types
  import opened Spc700
  import opened Handshake
  import opened HandshakeSafety
  import opened HandshakeTheorems
  import opened HandshakeStarts

  /** What the driver finds at its four ports once a triple has been offered. */
  function Offered(payload: seq<byte>, at: nat, counter: byte): (r: seq<byte>)
    ensures |r| == 4
  {
    [counter, SentByte(payload, at), SentByte(payload, at + 1), SentByte(payload, at + 2)]
  }

  /** The audio unit as the console meets it: four latches to write, one to read. */
  class Chip {
    var cpu: Cpu
    var bus: Bus

    constructor (cpu: Cpu, bus: Bus)
      ensures this.cpu == cpu && this.bus == bus
    {
      this.cpu, this.bus := cpu, bus;
    }

    method Write(slot: nat, value: byte)
      requires bus.Valid() && slot < 4
      modifies this`bus
      ensures bus == old(bus).(latches := old(bus).latches[slot := value])
    {
      bus := bus.(latches := bus.latches[slot := value]);
    }

    /** The driver runs one instruction. */
    method Step()
      requires bus.Valid() && InstrAt(cpu.pc).Some?
      modifies this
      ensures (cpu, bus) == Execute(InstrAt(old(cpu.pc)).value, old(cpu), old(bus))
    {
      var (c, b) := Execute(InstrAt(cpu.pc).value, cpu, bus);
      cpu, bus := c, b;
    }
  }

  class Console {
    const chip: Chip
    const payload: seq<byte>
    var at: nat
    var counter: byte
    var handshakes: nat
    var seen: byte

    constructor (chip: Chip, payload: seq<byte>, counter: byte)
      ensures this.chip == chip && this.payload == payload
      ensures at == 0 && this.counter == counter && handshakes == 0 && seen == chip.bus.acknowledge
    {
      this.chip, this.payload, this.counter := chip, payload, counter;
      at, handshakes, seen := 0, 0, chip.bus.acknowledge;
    }

    predicate Spent()
      reads this
    {
      at >= |payload|
    }

    /** This object's part of the two-process state, between polls. */
    function Abstract(): Handshake.Console
      reads this
    {
      Handshake.Console(at, counter, handshakes, seen, 0)
    }

    /** Puts the next triple in the data latches, then the counter. */
    method Offer()
      requires chip.bus.Valid()
      modifies chip`bus
      ensures chip.bus == old(chip.bus).(latches := Offered(payload, at, counter))
    {
      for slot := 1 to TRIPLE + 1
        invariant chip.bus.Valid()
        invariant chip.bus == old(chip.bus).(latches := chip.bus.latches)
        invariant forall j :: 1 <= j < slot ==> chip.bus.latches[j] == SentByte(payload, at + j - 1)
      {
        chip.Write(slot, SentByte(payload, at + slot - 1));
      }
      chip.Write(0, counter);
      assert chip.bus.latches == Offered(payload, at, counter);
    }

    /** Notices a changed acknowledgement exactly once, and answers it with the next triple. */
    method Watch() returns (noticed: bool)
      requires chip.bus.Valid()
      modifies this, chip`bus
      ensures noticed <==> old(chip.bus.acknowledge) != old(seen)
      ensures !noticed ==> Abstract() == old(Abstract()) && chip.bus == old(chip.bus)
      ensures noticed ==>
                && Abstract() == Handshake.Console(old(at) + 3, (old(counter) as int + 1) % 0x100, old(handshakes) + 1,
                                                   old(chip.bus.acknowledge), 0)
                && chip.bus == old(chip.bus).(latches := Offered(payload, at, counter))
    {
      var now := chip.bus.acknowledge;
      if now == seen {
        return false;
      }
      seen := now;
      handshakes := handshakes + 1;
      at := at + TRIPLE;
      counter := (counter as int + 1) % 0x100;
      Offer();
      return true;
    }
  }

  // ------------------------------------------------------------------- turns

  /** The state after a poll and, if it noticed anything, its four writes. */
  function Polled(t: Transfer, s: State): (r: State)
    requires s.bus.Valid()
    ensures r.bus.Valid()
  {
    if s.bus.acknowledge == s.console.seen then s
    else
      var c := s.console;
      var counter: byte := (c.counter as int + 1) % 0x100;
      s.(console := Handshake.Console(c.at + TRIPLE, counter, c.handshakes + 1, s.bus.acknowledge, 0),
         bus := s.bus.(latches := Offered(t.payload, c.at + TRIPLE, counter)))
  }

  /** One turn of the harness loop: an instruction, then a poll. */
  function AfterTurn(t: Transfer, s: State): (r: State)
    requires s.bus.Valid() && InstrAt(s.cpu.pc).Some?
    ensures r.bus.Valid()
  {
    Polled(t, Executed(s, InstrAt(s.cpu.pc).value))
  }

  /** A poll and its four writes, with no driver instruction between them, are five console steps. */
  lemma {:induction false} WatchIsFiveSteps(t: Transfer, s: State)
    requires s.bus.Valid() && s.console.phase == 0 && s.bus.acknowledge != s.console.seen
    requires s.cpu.pc != FAST_LOOP
    ensures Run(t, s, [ConsoleMoves, ConsoleMoves, ConsoleMoves, ConsoleMoves, ConsoleMoves]) == Polled(t, s)
  {
    var m := ConsoleMoves;
    var s1 := Step(t, s, m);
    var s2 := Step(t, s1, m);
    var s3 := Step(t, s2, m);
    var s4 := Step(t, s3, m);
    RunOne(t, s, m, [m, m, m, m]);
    FourSteps(t, s1, m);
    assert s4.bus.latches[1..] == Offered(t.payload, s.console.at + 3, s1.console.counter)[1..];
  }

  ghost predicate Mirrors(s: State, console: Console)
    reads console, console.chip
  {
    s.cpu == console.chip.cpu && s.bus == console.chip.bus && s.console == console.Abstract()
  }

  method Poll(t: Transfer, console: Console, ghost s: State) returns (ghost r: State)
    requires s.bus.Valid() && s.console.phase == 0
    requires Mirrors(s, console) && console.payload == t.payload
    modifies console, console.chip`bus
    ensures r == Polled(t, s) && Mirrors(r, console)
  {
    var noticed := console.Watch();
    r := Polled(t, s);
  }

  method Turn(t: Transfer, console: Console, ghost s: State) returns (ghost r: State)
    requires s.bus.Valid() && s.console.phase == 0 && InstrAt(s.cpu.pc).Some?
    requires Mirrors(s, console) && console.payload == t.payload
    modifies console, console.chip
    ensures r == AfterTurn(t, s) && Mirrors(r, console)
  {
    ghost var d := Executed(s, InstrAt(s.cpu.pc).value);
    console.chip.Step();
    r := Poll(t, console, d);
  }

  // ------------------------------------------------------------ prepared turns

  /** Between polls of a prepared run: everything acknowledged has been noticed. */
  ghost predicate Settled(t: Transfer, s: State)
    requires s.bus.Valid() && |t.memory| == 0x10000
  {
    Inv(t, s) && s.bus.acknowledged == s.console.handshakes
  }

  /** The driver's half of a turn. */
  lemma {:induction false} DriverTurn(t: Transfer, s: State)
    requires WellPlaced(t) && t.seed != 0 && s.bus.Valid() && s.console.phase == 0 && Settled(t, s) && !Stopped(t, s)
    ensures InstrAt(s.cpu.pc) == Some(Program(s.cpu.pc))
    ensures var r := Executed(s, Program(s.cpu.pc));
            && r.console == s.console && r.started && Inv(t, r) && Work(t, r) < Work(t, s)
            && (r.cpu.pc == FAST_LOOP ==> r.bus.acknowledged == r.console.handshakes)
  {
    DriverRunsTheListing(t, s);
    StepKeeps(t, s, DriverMoves);
    StepWorks(t, s, DriverMoves);
    OnTheLoop(t, s);
    BackAtTheTop(t, s);
  }

  lemma {:induction false} BackAtTheTop(t: Transfer, s: State)
    requires s.bus.Valid() && Registers(t, s) && Linked(t, s) && s.bus.acknowledged == s.console.handshakes
    ensures var r := Executed(s, Program(s.cpu.pc));
            r.console == s.console && (r.cpu.pc == FAST_LOOP ==> r.bus.acknowledged == r.console.handshakes)
  {
  }

  lemma {:induction false} OnTheLoop(t: Transfer, s: State)
    requires s.bus.Valid() && Registers(t, s)
    ensures InstrAt(s.cpu.pc) == Some(Program(s.cpu.pc))
  {
    WaitListing();
    TakeListing();
    StoreListing();
    CarryListing();
  }

  /** The console's half: after it, everything acknowledged has been noticed. */
  lemma {:induction false} PollSettles(t: Transfer, s: State)
    requires WellPlaced(t) && t.seed != 0 && s.bus.Valid() && Inv(t, s) && s.console.phase == 0
    requires s.cpu.pc == FAST_LOOP ==> s.bus.acknowledged == s.console.handshakes
    ensures var r := Polled(t, s);
            Settled(t, r) && r.console.phase == 0 && Work(t, r) <= Work(t, s)
  {
    if s.bus.acknowledge == s.console.seen {
      NothingToNotice(t, s);
    } else {
      var moves := [ConsoleMoves, ConsoleMoves, ConsoleMoves, ConsoleMoves, ConsoleMoves];
      SomethingToNotice(t, s);
      RunKeeps(t, s, moves);
      WorkNeverGrows(t, s, moves);
      WatchIsFiveSteps(t, s);
      NoticedOne(t, s);
    }
  }

  lemma {:induction false} NothingToNotice(t: Transfer, s: State)
    requires s.bus.Valid() && t.seed != 0 && Linked(t, s)
    requires s.console.phase == 0 && s.bus.acknowledge == s.console.seen
    ensures s.bus.acknowledged == s.console.handshakes
  {
    var k := s.console.handshakes;
    NextByte(k + 1);
    if k >= 1 {
      NextByte(k);
    }
  }

  lemma {:induction false} SomethingToNotice(t: Transfer, s: State)
    requires s.bus.Valid() && Linked(t, s)
    requires s.console.phase == 0 && s.bus.acknowledge != s.console.seen
    ensures s.bus.acknowledged == s.console.handshakes + 1
  {
  }

  lemma {:induction false} NoticedOne(t: Transfer, s: State)
    requires s.bus.Valid() && s.bus.acknowledged == s.console.handshakes + 1 && s.bus.acknowledge != s.console.seen
    ensures Polled(t, s).bus.acknowledged == Polled(t, s).console.handshakes && Polled(t, s).console.phase == 0
  {
  }

  lemma {:induction false} PreparedTurn(t: Transfer, s: State)
    requires WellPlaced(t) && t.seed != 0 && s.bus.Valid() && s.console.phase == 0 && Settled(t, s) && !Stopped(t, s)
    ensures InstrAt(s.cpu.pc).Some?
    ensures var r := AfterTurn(t, s);
            r.started && r.console.phase == 0 && Settled(t, r) && Work(t, r) < Work(t, s)
    ensures Work(t, s) > 0
  {
    var d := Executed(s, Program(s.cpu.pc));
    DriverTurn(t, s);
    PollSettles(t, d);
    WorkIsPositive(t, d);
  }

  // ---------------------------------------------------------- unprepared turns

  /** Between polls of an unseeded run: nothing has been noticed, and with nothing to send the driver never waits. */
  ghost predicate Unnoticed(t: Transfer, s: State)
    requires s.bus.Valid() && |t.memory| == 0x10000
  {
    Inv(t, s) && s.console.handshakes == 0 && (t.payload == [] && !Stopped(t, s) ==> Productive(s, DriverMoves))
  }

  lemma {:induction false} UnseededTurn(t: Transfer, s: State)
    requires WellPlaced(t) && t.seed == 0 && s.bus.Valid() && s.console.phase == 0 && Unnoticed(t, s) && !Stopped(t, s)
    ensures InstrAt(s.cpu.pc).Some?
    ensures var r := AfterTurn(t, s);
            && r.started && r.console.phase == 0 && Unnoticed(t, r)
            && (t.payload == [] ==> Work(t, r) < Work(t, s)) && (t.payload != [] ==> !Stopped(t, r))
    ensures t.payload == [] ==> Work(t, s) > 0
  {
    var d := Executed(s, Program(s.cpu.pc));
    OnTheLoop(t, s);
    DriverRunsTheListing(t, s);
    UnseededStepsNotice(t, s, DriverMoves);
    SilentLatch(t, d);
    if t.payload == [] {
      DriverStaysBusy(t, s);
      DriverWorks(t, s);
      WorkIsPositive(t, d);
    }
  }

  /** The only acknowledgement there can be looks like the latch's first value. */
  lemma {:induction false} SilentLatch(t: Transfer, s: State)
    requires s.bus.Valid() && t.seed == 0 && Linked(t, s) && s.console.handshakes == 0 && s.console.phase == 0
    ensures Polled(t, s) == s
  {
  }

  /** On a counter other than zero a turn goes further astray. */
  lemma {:induction false} AstrayTurn(t: Transfer, s: State, counter: byte)
    requires |t.memory| == 0x10000 && counter != 0 && !HandsOver(t, counter)
    requires s.bus.Valid() && s.console.phase == 0 && Astray(t, s, counter) && !Stopped(t, s)
    ensures InstrAt(s.cpu.pc).Some?
    ensures var r := AfterTurn(t, s);
            && r.started && r.console.phase == 0 && Astray(t, r, counter)
            && (counter > 0x80 && !Stopped(t, r) && t.payload == [] ==> WaitLeft(r) < WaitLeft(s))
  {
    AstrayRuns(t, s, counter);
    var d := Executed(s, InstrAt(s.cpu.pc).value);
    assert d == Step(t, s, DriverMoves);
    StepStaysAstray(t, s, counter, DriverMoves);
    if d.bus.acknowledge != d.console.seen {
      HeardFromHeader(t, d, counter);
      WatchIsFiveSteps(t, d);
      RunStaysAstray(t, d, counter, [ConsoleMoves, ConsoleMoves, ConsoleMoves, ConsoleMoves, ConsoleMoves]);
    }
    if counter > 0x80 {
      ShutTurn(t, s, counter);
    }
  }

  /** Every instruction it can come to is in the patch. */
  lemma {:induction false} AstrayRuns(t: Transfer, s: State, counter: byte)
    requires s.bus.Valid() && |t.memory| == 0x10000 && counter != 0 && !HandsOver(t, counter) && Astray(t, s, counter)
    ensures InstrAt(s.cpu.pc).Some?
  {
    WaitListing();
    HeaderListing();
    StartListing();
  }

  lemma {:induction false} HeardFromHeader(t: Transfer, s: State, counter: byte)
    requires s.bus.Valid() && |t.memory| == 0x10000 && Astray(t, s, counter) && s.bus.acknowledge != s.console.seen
    ensures s.cpu.pc != FAST_LOOP
  {
  }

  /** Instructions left of a shut driver's first time round its wait. */
  function WaitLeft(s: State): nat {
    if s.cpu.pc == 0x0EDC then 3 else if s.cpu.pc == 0x0EDE then 2 else 1
  }

  lemma {:induction false} ShutTurn(t: Transfer, s: State, counter: byte)
    requires |t.memory| == 0x10000 && counter > 0x80
    requires s.bus.Valid() && s.console.phase == 0 && Shut(t, s, counter) && !Stopped(t, s)
    requires InstrAt(s.cpu.pc).Some?
    ensures var r := AfterTurn(t, s);
            !Stopped(t, r) && t.payload == [] ==> WaitLeft(r) < WaitLeft(s)
  {
    WaitListing();
  }

  // ------------------------------------------------------------ the whole run

  /** What a completed run reports. */
  datatype Upload = Upload(memory: seq<byte>, handshakes: nat, cycles: nat)

  /** The second bound under the stop rule: the run spent its ceiling. */
  datatype RunLimit = RunLimit(cycles: nat, pc: nat)

  /** Every instruction costs something. */
  type Cycles = c: int | c >= 1 witness 1

  /** Turns a run that can stop may take at most, by the work it starts with. */
  function MostTurns(t: Transfer): nat {
    40 * t.Triples() + 6
  }

  /** No instruction costs more than `most`. */
  ghost predicate Bounded(cost: (Cpu, Bus) -> Cycles, most: nat) {
    forall c, b :: cost(c, b) <= most
  }

  /** The turns so far have cost what a bounded clock allows. */
  ghost predicate Paid(cost: (Cpu, Bus) -> Cycles, most: nat, cycles: nat, steps: nat) {
    Bounded(cost, most) ==> cycles <= most * steps
  }

  lemma {:induction false} PaidNext(cost: (Cpu, Bus) -> Cycles, most: nat, cycles: nat, steps: nat,
                                    c: Cpu, b: Bus, all: nat)
    requires Paid(cost, most, cycles, steps)
    ensures Paid(cost, most, cycles + cost(c, b), steps + 1)
    ensures Bounded(cost, most) && steps < all ==> cycles + cost(c, b) <= most * all
  {
    if Bounded(cost, most) && steps < all {
      MulGrows(most, steps + 1, all);
    }
  }

  lemma {:induction false} MulGrows(most: nat, a: nat, b: nat)
    requires a <= b
    ensures most * a <= most * b
  {
  }

  /** What holds between turns, whatever the start. */
  ghost predicate OnCourse(t: Transfer, s: State, counter: byte)
    requires |t.memory| == 0x10000
  {
    && s.bus.Valid() && s.console.phase == 0
    && if counter != 0 then Astray(t, s, counter) else if t.seed != 0 then Settled(t, s) else Unnoticed(t, s)
  }

  /** Bounds the turns still to come of a run that can stop. */
  function TurnsLeft(t: Transfer, s: State, counter: byte): int {
    if counter == 0 then Work(t, s) else WaitLeft(s)
  }

  lemma {:induction false} CourseBegins(t: Transfer, cpu: Cpu, counter: byte)
    requires WellPlaced(t)
    ensures var s := Beginning(t, cpu, counter);
            OnCourse(t, s, counter) && !Stopped(t, s) && TurnsLeft(t, s, counter) <= MostTurns(t)
  {
    if counter == 0 {
      BeginningHolds(t, cpu);
    }
  }

  lemma {:induction false} TurnStaysOnCourse(t: Transfer, s: State, counter: byte)
    requires WellPlaced(t) && !HandsOver(t, counter) && OnCourse(t, s, counter) && !Stopped(t, s)
    ensures InstrAt(s.cpu.pc).Some?
    ensures var r := AfterTurn(t, s);
            && r.started && OnCourse(t, r, counter)
            && if CanStop(t, counter) then !Stopped(t, r) ==> TurnsLeft(t, r, counter) < TurnsLeft(t, s, counter)
               else !Stopped(t, r)
    ensures CanStop(t, counter) ==> TurnsLeft(t, s, counter) > 0
  {
    if counter != 0 {
      AstrayTurn(t, s, counter);
      AstrayDeliversNothing(t, AfterTurn(t, s), counter);
    } else if t.seed != 0 {
      PreparedTurn(t, s);
    } else {
      UnseededTurn(t, s);
    }
  }

  /** A prepared run delivers; an empty one may also stop having been noticed by nobody. */
  ghost predicate Reported(t: Transfer, counter: byte, u: Upload)
    requires |t.memory| == 0x10000
  {
    && |u.memory| == 0x10000
    && if counter != 0 then u.handshakes == 0 && u.memory == t.memory
       else
         && u.handshakes == (if t.seed == 0 then 0 else t.Triples())
         && StreamHolds(u.memory, t, t.first, 0, t.Triples())
         && StreamHolds(u.memory, t, t.second, 1, t.Triples())
         && StreamHolds(u.memory, t, t.third, 2, t.Triples())
         && OthersKept(t, u.memory)
  }

  lemma {:induction false} ReportHolds(t: Transfer, s: State, counter: byte, cycles: nat)
    requires WellPlaced(t) && OnCourse(t, s, counter) && Stopped(t, s)
    ensures Reported(t, counter, Upload(s.bus.memory, s.console.handshakes, cycles))
  {
    if counter == 0 {
      AtStop(t, s);
    } else {
      AstrayDeliversNothing(t, s, counter);
    }
  }

  /**
   * The driver on the whole unit, polled after every instruction, until the
   * payload is spent and the loop is back at its entry, or the cycles spent pass
   * the ceiling. Only the starts that can stop ever complete: a prepared run
   * leaves the three streams in place, one handshake a triple, and an unprepared
   * one with anything to send ends at the ceiling. A run that can stop does so
   * whenever the ceiling covers the turns it may take, whatever each instruction
   * costs up to `most`.
   */
  method OnHardware(t: Transfer, cpu: Cpu, counter: byte, cost: (Cpu, Bus) -> Cycles, ceiling: nat, ghost most: nat)
    returns (r: Result<Upload, RunLimit>)
    requires WellPlaced(t) && !HandsOver(t, counter)
    ensures r.Ok? ==> CanStop(t, counter) && Reported(t, counter, r.value)
    ensures r.Err? ==> r.error.cycles > ceiling
    ensures CanStop(t, counter) && Bounded(cost, most) && most * MostTurns(t) <= ceiling ==> r.Ok?
  {
    var chip := new Chip(cpu.(pc := FAST_LOOP, y := 0), Bus(t.memory, [0, 0, 0, 0], t.seed, 0));
    var console := new Console(chip, t.payload, counter);
    console.Offer();
    ghost var s := Beginning(t, cpu, counter);
    ghost var steps: nat := 0;
    var cycles: nat := 0;
    CourseBegins(t, cpu, counter);
    while true
      invariant console.payload == t.payload && fresh(console) && fresh(console.chip)
      invariant Mirrors(s, console) && OnCourse(t, s, counter) && !Stopped(t, s) && cycles <= ceiling
      invariant Paid(cost, most, cycles, steps)
      invariant CanStop(t, counter) ==> steps + TurnsLeft(t, s, counter) <= MostTurns(t)
      decreases ceiling - cycles
    {
      var spent := cost(console.chip.cpu, console.chip.bus);
      TurnStaysOnCourse(t, s, counter);
      PaidNext(cost, most, cycles, steps, s.cpu, s.bus, MostTurns(t));
      s := Turn(t, console, s);
      steps, cycles := steps + 1, cycles + spent;
      if console.Spent() && console.chip.cpu.pc == FAST_LOOP {
        ReportHolds(t, s, counter, cycles);
        return Ok(Upload(console.chip.bus.memory, console.handshakes, cycles));
      }
      if cycles > ceiling {
        return Err(RunLimit(cycles, console.chip.cpu.pc));
      }
    }
  }

  // ---------------------------------------------------------------- stand-in

  /** The stand-in: ports in ordinary memory, answering an acknowledgement at once. */
  class Ports {
    const payload: seq<byte>
    var memory: seq<byte>
    var at: nat
    var counter: byte
    var handshakes: nat
    var echoed: seq<byte>

    predicate Valid()
      reads this
    {
      |memory| == 0x10000 && |echoed| == 4
    }

    /** The four port cells hold the offered triple and the counter. */
    predicate Offering()
      requires Valid()
      reads this
    {
      memory[PORT_BASE..PORT_BASE + 4] == Offered(payload, at, counter)
    }

    constructor (payload: seq<byte>, memory: seq<byte>)
      requires |memory| == 0x10000
      ensures Valid() && Offering() && this.payload == payload
      ensures at == 0 && counter == 0 && handshakes == 0 && echoed == [0, 0, 0, 0]
      ensures forall a :: 0 <= a < 0x10000 && !(PORT_BASE <= a < PORT_BASE + 4) ==> this.memory[a] == memory[a]
    {
      this.payload, this.memory := payload, memory;
      at, counter, handshakes, echoed := 0, 0, 0, [0, 0, 0, 0];
      new;
      Offer();
    }

    method Offer()
      requires Valid()
      modifies this`memory
      ensures Valid() && Offering()
      ensures forall a :: 0 <= a < 0x10000 && !(PORT_BASE <= a < PORT_BASE + 4) ==> memory[a] == old(memory[a])
    {
      for slot := 1 to TRIPLE + 1
        invariant Valid()
        invariant forall a :: PORT_BASE < a < PORT_BASE + slot ==>
                    memory[a] == SentByte(payload, at + (a - PORT_BASE) - 1)
        invariant forall a :: 0 <= a < 0x10000 && !(PORT_BASE <= a < PORT_BASE + 4) ==> memory[a] == old(memory[a])
      {
        memory := memory[PORT_BASE + slot := SentByte(payload, at + slot - 1)];
      }
      memory := memory[PORT_BASE := counter];
    }

    /**
     * The driver's write. Port 0 advances payload and counter and refills the
     * ports; another port is only remembered; anything else is memory.
     */
    method Write8(address: nat, value: byte)
      requires Valid() && Offering() && address < 0x10000
      modifies this
      ensures Valid() && Offering()
      ensures address == PORT_BASE ==>
                && at == old(at) + 3 && counter == (old(counter) as int + 1) % 0x100
                && handshakes == old(handshakes) + 1
                && echoed == old(echoed)[0 := value]
      ensures address != PORT_BASE ==> at == old(at) && counter == old(counter) && handshakes == old(handshakes)
      ensures address != PORT_BASE ==>
                echoed == if PORT_BASE < address < PORT_BASE + 4 then old(echoed)[address - PORT_BASE := value]
                          else old(echoed)
      ensures forall a :: 0 <= a < 0x10000 && !(PORT_BASE <= a < PORT_BASE + 4) ==>
                memory[a] == if a == address then value else old(memory[a])
    {
      if address == PORT_BASE {
        echoed := echoed[0 := value];
        handshakes := handshakes + 1;
        at := at + TRIPLE;
        counter := (counter as int + 1) % 0x100;
        Offer();
      } else if PORT_BASE < address < PORT_BASE + 4 {
        echoed := echoed[address - PORT_BASE := value];
      } else {
        memory := memory[address := value];
      }
    }
  }
}
