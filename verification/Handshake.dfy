/**
 * The upload handshake: console and driver as two processes over one-byte
 * latches. The console's atomic steps are single polls and single latch writes,
 * the driver's are single instructions, and they interleave in any order.
 */
module Handshake {
  import opened Types
  import opened Spc700

  const TRIPLE := 3

  const FIRST_POINTER := 0x14
  const SECOND_POINTER := 0xC8
  const THIRD_POINTER := 0xCA
  /** Where the block header stashes its kind byte. */
  const KIND := 0xE6

  /** The payload past its end reads as zero. */
  function SentByte(payload: seq<byte>, i: nat): byte {
    if i < |payload| then payload[i] else 0
  }

  /** One upload: what is sent, where its three streams go, and what the driver starts from. */
  datatype Transfer = Transfer(
    payload: seq<byte>, first: nat, second: nat, third: nat, seed: byte, memory: seq<byte>)
  {
    function Sent(i: nat): byte {
      SentByte(payload, i)
    }

    /** How many triples the driver takes; an empty payload still costs one. */
    function Triples(): (h: nat)
      ensures h >= 1
      ensures |payload| > 0 ==> 3 * h >= |payload| > 3 * (h - 1)
    {
      if |payload| == 0 then 1 else (|payload| + 2) / 3
    }
  }

  /** The console: how far it has got, what it last saw, and which write comes next. */
  datatype Console = Console(at: nat, counter: byte, handshakes: nat, seen: byte, phase: nat)

  datatype State = State(cpu: Cpu, bus: Bus, console: Console, started: bool)

  datatype Move = DriverMoves | ConsoleMoves

  // ------------------------------------------------------------------- steps

  predicate Spent(t: Transfer, c: Console) {
    c.at >= |t.payload|
  }

  /** The harness stops when the payload is spent and the loop has come back round. */
  predicate Stopped(t: Transfer, s: State) {
    s.started && Spent(t, s.console) && s.cpu.pc == FAST_LOOP
  }

  /**
   * Phase 0 polls the driver's latch; a change is noticed and answered by four
   * writes, data first and the counter last.
   */
  function ConsoleStep(t: Transfer, c: Console, bus: Bus): (Console, Bus)
    requires |bus.latches| == 4
  {
    if c.phase == 0 then
      if bus.acknowledge == c.seen then (c, bus)
      else (Console(c.at + TRIPLE, (c.counter as int + 1) % 0x100, c.handshakes + 1, bus.acknowledge, 1), bus)
    else if c.phase <= TRIPLE then
      (c.(phase := c.phase + 1), bus.(latches := bus.latches[c.phase := t.Sent(c.at + c.phase - 1)]))
    else (c.(phase := 0), bus.(latches := bus.latches[0 := c.counter]))
  }

  function DriverStep(s: State): State
    requires s.bus.Valid()
  {
    match InstrAt(s.cpu.pc)
    case None => s
    case Some(i) => Executed(s, i)
  }

  /** The listing the loop's bytes disassemble to. */
  function Program(pc: nat): Instr {
    match pc
    case 0x0EDC => CmpYDp(0xF4)
    case 0x0EDE => Beq(0x0EE4)
    case 0x0EE0 => Bpl(0x0EDC)
    case 0x0EE4 => MovADp(0xF5)
    case 0x0EE6 => MovIndirectYA(0x14)
    case 0x0EE8 => MovXDp(0xF6)
    case 0x0EEA => MovADp(0xF7)
    case 0x0EEC => MovDpY(0xF4)
    case 0x0EEE => MovIndirectYA(0xCA)
    case 0x0EF0 => MovAX
    case 0x0EF1 => MovIndirectYA(0xC8)
    case 0x0EF3 => IncY
    case 0x0EF4 => Bne(0x0EDC)
    case 0x0EF6 => IncDp(0x15)
    case 0x0EF8 => IncDp(0xC9)
    case 0x0EFA => IncDp(0xCB)
    case 0x0EFC => Bra(0x0EDC)
    case _ => Bra(BLOCK_HEADER)
  }

  function Executed(s: State, i: Instr): (r: State)
    requires s.bus.Valid()
    ensures r.bus.Valid()
  {
    var (cpu, bus) := Execute(i, s.cpu, s.bus);
    s.(cpu := cpu, bus := bus, started := true)
  }

  function Step(t: Transfer, s: State, m: Move): (r: State)
    requires s.bus.Valid()
    ensures r.bus.Valid()
  {
    if Stopped(t, s) then s
    else
      match m
      case DriverMoves => DriverStep(s)
      case ConsoleMoves =>
        var (console, bus) := ConsoleStep(t, s.console, s.bus);
        s.(console := console, bus := bus)
  }

  function Run(t: Transfer, s: State, moves: seq<Move>): (r: State)
    requires s.bus.Valid()
    ensures r.bus.Valid()
    decreases |moves|
  {
    if moves == [] then s else Run(t, Step(t, s, moves[0]), moves[1..])
  }

  // -------------------------------------------------------------- beginning

  /** The pointers are set and every register but the index may hold anything. */
  ghost predicate Pointed(t: Transfer) {
    && |t.memory| == 0x10000
    && t.first < 0x10000 && t.second < 0x10000 && t.third < 0x10000
    && PointsTo(t.memory, FIRST_POINTER, t.first, 0)
    && PointsTo(t.memory, SECOND_POINTER, t.second, 0)
    && PointsTo(t.memory, THIRD_POINTER, t.third, 0)
  }

  /** The pointer at `cell` holds `where` advanced by as many pages as `index` has crossed. */
  ghost predicate PointsTo(memory: seq<byte>, cell: nat, where: nat, index: nat)
    requires cell < 0xFF && |memory| == 0x10000
  {
    memory[cell] == where % 0x100 && memory[cell + 1] == (where / 0x100 + index / 0x100) % 0x100
  }

  function Beginning(t: Transfer, cpu: Cpu, counter: byte): State {
    State(cpu.(pc := FAST_LOOP, y := 0),
          Bus(t.memory, [counter, t.Sent(0), t.Sent(1), t.Sent(2)], t.seed, 0),
          Console(0, counter, 0, t.seed, 0), false)
  }

  /** Where stream byte `i` lands: sixteen-bit addresses wrap. */
  function Cell(where: nat, i: nat): (c: nat)
    ensures c < 0x10000 && (c - where - i) % 0x10000 == 0
  {
    (where + i) % 0x10000
  }

  /** Cells the loop itself lives by: its pointers, the hardware page, its own code. */
  predicate Reserved(a: nat) {
    a == 0x14 || a == 0x15 || 0xC8 <= a <= 0xCB || 0xF0 <= a <= 0xFF || 0x0EDC <= a < 0x0EFE
  }

  /** The three destinations are disjoint from one another and from reserved cells. */
  ghost predicate DestinationsClear(t: Transfer) {
    && t.Triples() <= 0x10000
    && (forall i: nat :: i < t.Triples() ==>
          !Reserved(Cell(t.first, i)) && !Reserved(Cell(t.second, i)) && !Reserved(Cell(t.third, i)))
    && (forall i: nat, j: nat :: i < t.Triples() && j < t.Triples() ==>
          Cell(t.first, i) != Cell(t.second, j) && Cell(t.first, i) != Cell(t.third, j) &&
          Cell(t.second, i) != Cell(t.third, j))
  }

  // --------------------------------------------------------------- invariant

  /** The latches and both counts agree about which triple is in flight. */
  ghost predicate Linked(t: Transfer, s: State)
    requires s.bus.Valid()
  {
    var k, taken, c := s.console.handshakes, s.bus.acknowledged, s.console;
    && k <= taken <= k + 1 && taken <= t.Triples()
    && c.at == TRIPLE * k && c.counter == k % 0x100 && c.phase <= 4
    && c.seen == (if k == 0 then t.seed else (k - 1) % 0x100)
    && s.bus.acknowledge == (if taken == 0 then t.seed else (taken - 1) % 0x100)
    && (c.phase != 0 ==> k >= 1 && taken == k)
    && s.bus.latches[0] == (if c.phase == 0 then k % 0x100 else (k - 1) % 0x100)
    && (c.phase == 0 || c.phase > 1 ==> s.bus.latches[1] == t.Sent(TRIPLE * k))
    && (c.phase == 0 || c.phase > 2 ==> s.bus.latches[2] == t.Sent(TRIPLE * k + 1))
    && (c.phase == 0 || c.phase > 3 ==> s.bus.latches[3] == t.Sent(TRIPLE * k + 2))
    && (!s.started ==> taken == 0 && s.cpu.pc == FAST_LOOP)
    && (s.started && s.cpu.pc == FAST_LOOP ==> taken >= 1)
  }

  /** A whole triple the driver has not taken is in the latches, and stays there. */
  predicate Ready(s: State) {
    s.console.phase == 0 && s.bus.acknowledged == s.console.handshakes
  }

  predicate Taking(pc: nat) {
    pc == 0x0EE4 || pc == 0x0EE6 || pc == 0x0EE8 || pc == 0x0EEA || pc == 0x0EEC
  }

  predicate Storing(pc: nat) {
    pc == 0x0EEE || pc == 0x0EF0 || pc == 0x0EF1 || pc == 0x0EF3
  }

  predicate Carrying(pc: nat) {
    pc == 0x0EF4 || pc == 0x0EF6 || pc == 0x0EF8 || pc == 0x0EFA || pc == 0x0EFC
  }

  predicate Waiting(pc: nat) {
    pc == 0x0EDC || pc == 0x0EDE || pc == 0x0EE0
  }

  /** Register contents at each instruction; the exit branch is not among them. */
  ghost predicate Registers(t: Transfer, s: State) {
    var taken, cpu := s.bus.acknowledged, s.cpu;
    && (Waiting(cpu.pc) || Taking(cpu.pc) || Storing(cpu.pc) || Carrying(cpu.pc))
    && (Storing(cpu.pc) || Carrying(cpu.pc) ==> taken >= 1)
    && cpu.y == (if Storing(cpu.pc) then (taken - 1) % 0x100 else taken % 0x100)
    && (Taking(cpu.pc) || (cpu.pc == 0x0EDE && cpu.z) ==> Ready(s) && taken < t.Triples())
    && ((cpu.pc == 0x0EDE && !cpu.z) || cpu.pc == 0x0EE0 ==> !cpu.n && taken >= 1)
    && (cpu.pc == 0x0EE6 ==> cpu.a == t.Sent(TRIPLE * taken))
    && (cpu.pc == 0x0EEA || cpu.pc == 0x0EEC ==> cpu.x == t.Sent(TRIPLE * taken + 1))
    && (cpu.pc == 0x0EEC ==> cpu.a == t.Sent(TRIPLE * taken + 2))
    && (cpu.pc == 0x0EEE ==> cpu.a == t.Sent(TRIPLE * (taken - 1) + 2))
    && (cpu.pc == 0x0EEE || cpu.pc == 0x0EF0 ==> cpu.x == t.Sent(TRIPLE * (taken - 1) + 1))
    && (cpu.pc == 0x0EF1 ==> cpu.a == t.Sent(TRIPLE * (taken - 1) + 1))
    && (cpu.pc == 0x0EF4 ==> cpu.z == (cpu.y == 0))
    && (Carrying(cpu.pc) && cpu.pc != 0x0EF4 ==> cpu.y == 0)
  }

  /** How many of its bytes each stream has stored so far. */
  function StoredFirst(s: State): nat {
    s.bus.acknowledged + (if s.cpu.pc == 0x0EE8 || s.cpu.pc == 0x0EEA || s.cpu.pc == 0x0EEC then 1 else 0)
  }

  function StoredSecond(s: State): int {
    s.bus.acknowledged - (if s.cpu.pc == 0x0EEE || s.cpu.pc == 0x0EF0 || s.cpu.pc == 0x0EF1 then 1 else 0)
  }

  function StoredThird(s: State): int {
    s.bus.acknowledged - (if s.cpu.pc == 0x0EEE then 1 else 0)
  }

  /** Every third payload byte, from the lane's own on, zeros past the end, at consecutive wrapping cells. */
  ghost predicate StreamHolds(memory: seq<byte>, t: Transfer, where: nat, lane: nat, count: int)
    requires |memory| == 0x10000
  {
    forall i: nat :: i < count ==>
      memory[Cell(where, i)] == if 3 * i + lane < |t.payload| then t.payload[3 * i + lane] else 0
  }

  /** Memory off the three streams and the three page bytes is as it was. */
  ghost predicate OthersKept(t: Transfer, memory: seq<byte>)
    requires |memory| == 0x10000 == |t.memory|
  {
    forall a: nat :: a < 0x10000 && a != 0x15 && a != 0xC9 && a != 0xCB && !Target(t, a) ==> memory[a] == t.memory[a]
  }

  ghost predicate Target(t: Transfer, a: nat) {
    exists i: nat :: i < t.Triples() && (a == Cell(t.first, i) || a == Cell(t.second, i) || a == Cell(t.third, i))
  }

  /** The three streams hold that many bytes each, and nothing else has changed. */
  ghost predicate Lanes(t: Transfer, memory: seq<byte>, first: int, second: int, third: int)
    requires |memory| == 0x10000 == |t.memory|
  {
    && StreamHolds(memory, t, t.first, 0, first)
    && StreamHolds(memory, t, t.second, 1, second)
    && StreamHolds(memory, t, t.third, 2, third)
    && OthersKept(t, memory)
  }

  ghost predicate Stored(t: Transfer, s: State)
    requires s.bus.Valid() && |t.memory| == 0x10000
  {
    Lanes(t, s.bus.memory, StoredFirst(s), StoredSecond(s), StoredThird(s))
  }

  ghost predicate Pointers(t: Transfer, s: State)
    requires s.bus.Valid()
  {
    var pc, m, taken := s.cpu.pc, s.bus.memory, s.bus.acknowledged;
    var late := Storing(pc) || pc == 0x0EF4 || pc == 0x0EF6;
    && (late || pc == 0x0EF8 || pc == 0x0EFA ==> taken >= 1)
    && PointsTo(m, FIRST_POINTER, t.first, if late then taken - 1 else taken)
    && PointsTo(m, SECOND_POINTER, t.second, if late || pc == 0x0EF8 then taken - 1 else taken)
    && PointsTo(m, THIRD_POINTER, t.third, if late || pc == 0x0EF8 || pc == 0x0EFA then taken - 1 else taken)
  }

  ghost predicate Inv(t: Transfer, s: State)
    requires s.bus.Valid() && |t.memory| == 0x10000
  {
    Linked(t, s) && Registers(t, s) && Pointers(t, s) && Stored(t, s)
  }
}
