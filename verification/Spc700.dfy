/**
 * The sixteen instructions of the audio processor that the receive loop and the
 * block header use.
 */
module Spc700 {
  import opened Types

  const BLOCK_START := 0x0EBD
  const FAST_LOOP := 0x0EDC
  const BLOCK_HEADER := 0x0EFF
  /** Stock code, which no part of the patch contains. */
  const DRIVER_READY := 0x0F28
  const PORT_BASE := 0xF4

  /** The patched receive loop as shipped, from 0x0EDC up to but not including 0x0EFE. */
  const LOOP_BYTES: seq<byte> :=
    [0x7E, 0xF4, 0xF0, 0x04, 0x10, 0xFA, 0x2F, 0x1B, 0xE4, 0xF5, 0xD7, 0x14, 0xF8, 0xF6, 0xE4, 0xF7, 0xCB, 0xF4,
     0xD7, 0xCA, 0x7D, 0xD7, 0xC8, 0xFC, 0xD0, 0xE6, 0xAB, 0x15, 0xAB, 0xC9, 0xAB, 0xCB, 0x2F, 0xDE]

  /** The wait for the opening counter, from 0x0EBD up to the dispatch at 0x0EC1. */
  const START_BYTES: seq<byte> := [0xEB, 0xF4, 0xD0, 0xFC]

  /** The block header, from 0x0EFF up to but not including the triple setup at 0x0F13. */
  const HEADER_BYTES: seq<byte> :=
    [0xE4, 0xF6, 0xEB, 0xF7, 0xDA, 0x14, 0xEB, 0xF4, 0xE4, 0xF5, 0xC4, 0xE6, 0xCB, 0xF4, 0x68, 0x00, 0xF0, 0x17,
     0x2F, 0xAA]

  datatype Instr =
    | CmpYDp(dp: byte)
    | Beq(target: nat)
    | Bpl(target: nat)
    | Bne(target: nat)
    | Bra(target: nat)
    | MovADp(dp: byte)
    | MovXDp(dp: byte)
    | MovYDp(dp: byte)
    | MovDpA(dp: byte)
    | MovDpY(dp: byte)
    | MovwDpYA(dp: byte)
    | CmpAImm(value: byte)
    | MovIndirectYA(dp: byte)
    | MovAX
    | IncY
    | IncDp(dp: byte)

  /** Where a relative branch at `pc` goes: two past it, plus the signed offset. */
  function Relative(pc: nat, offset: byte): nat
    requires pc >= 0x100
  {
    pc + 2 + (if offset < 0x80 then offset else offset - 0x100)
  }

  function Disassemble(op: byte, operand: byte, pc: nat): Option<Instr>
    requires pc >= 0x100
  {
    match op
    case 0x7E => Some(CmpYDp(operand))
    case 0xF0 => Some(Beq(Relative(pc, operand)))
    case 0x10 => Some(Bpl(Relative(pc, operand)))
    case 0xD0 => Some(Bne(Relative(pc, operand)))
    case 0x2F => Some(Bra(Relative(pc, operand)))
    case 0xE4 => Some(MovADp(operand))
    case 0xF8 => Some(MovXDp(operand))
    case 0xEB => Some(MovYDp(operand))
    case 0xC4 => Some(MovDpA(operand))
    case 0xCB => Some(MovDpY(operand))
    case 0xDA => Some(MovwDpYA(operand))
    case 0x68 => Some(CmpAImm(operand))
    case 0xD7 => Some(MovIndirectYA(operand))
    case 0x7D => Some(MovAX)
    case 0xFC => Some(IncY)
    case 0xAB => Some(IncDp(operand))
    case _ => None
  }

  /** The instruction `at` bytes into a stretch of code that begins at `base`. */
  function Fetch(code: seq<byte>, base: nat, at: nat): Option<Instr>
    requires at < |code| && base >= 0x100
  {
    Disassemble(code[at], if at + 1 < |code| then code[at + 1] else 0, base + at)
  }

  /** The instruction at `pc`, or None outside the three stretches. */
  function InstrAt(pc: nat): Option<Instr> {
    if FAST_LOOP <= pc < FAST_LOOP + |LOOP_BYTES| then Fetch(LOOP_BYTES, FAST_LOOP, pc - FAST_LOOP)
    else if BLOCK_START <= pc < BLOCK_START + |START_BYTES| then Fetch(START_BYTES, BLOCK_START, pc - BLOCK_START)
    else if BLOCK_HEADER <= pc < BLOCK_HEADER + |HEADER_BYTES| then
      Fetch(HEADER_BYTES, BLOCK_HEADER, pc - BLOCK_HEADER)
    else None
  }

  function Length(i: Instr): nat {
    if i.MovAX? || i.IncY? then 1 else 2
  }

  datatype Cpu = Cpu(pc: nat, a: byte, x: byte, y: byte, n: bool, z: bool)

  /** What the driver can reach: its own memory, the console's latches, its own latch. */
  datatype Bus = Bus(memory: seq<byte>, latches: seq<byte>, acknowledge: byte, acknowledged: nat) {
    ghost predicate Valid() {
      |memory| == 0x10000 && |latches| == 4
    }

    /** Reading a port gives what the console left there, never what the driver wrote. */
    function Read(address: nat): byte
      requires address < 0x10000 && |memory| == 0x10000 && |latches| == 4
    {
      if PORT_BASE <= address < PORT_BASE + 4 then latches[address - PORT_BASE] else memory[address]
    }

    /** Writing port 0 is the acknowledgement; the other ports' own latches are not modelled. */
    function Write(address: nat, value: byte): Bus
      requires address < 0x10000 && |memory| == 0x10000
    {
      if address == PORT_BASE then this.(acknowledge := value, acknowledged := acknowledged + 1)
      else if PORT_BASE < address < PORT_BASE + 4 then this
      else this.(memory := memory[address := value])
    }
  }

  function Flagged(cpu: Cpu, value: byte): Cpu {
    cpu.(n := value >= 0x80, z := value == 0)
  }

  function Jump(cpu: Cpu, taken: bool, target: nat): Cpu {
    cpu.(pc := if taken then target else cpu.pc + 2)
  }

  /** `[dp]+y`: the sixteen-bit pointer at `dp`, plus the index, wrapping at 64 KB. */
  function Indirect(bus: Bus, dp: byte, y: byte): nat
    requires |bus.memory| == 0x10000 && |bus.latches| == 4
  {
    (bus.Read(dp) as int + (bus.Read((dp as int + 1) % 0x100) as int) * 0x100 + y) % 0x10000
  }

  /** One instruction, direct page zero. */
  function Execute(i: Instr, cpu: Cpu, bus: Bus): (Cpu, Bus)
    requires |bus.memory| == 0x10000 && |bus.latches| == 4
  {
    var next := cpu.(pc := cpu.pc + Length(i));
    match i
    case CmpYDp(dp) => (Flagged(next, (cpu.y as int - bus.Read(dp)) % 0x100), bus)
    case Beq(target) => (Jump(cpu, cpu.z, target), bus)
    case Bpl(target) => (Jump(cpu, !cpu.n, target), bus)
    case Bne(target) => (Jump(cpu, !cpu.z, target), bus)
    case Bra(target) => (Jump(cpu, true, target), bus)
    case MovADp(dp) => (Flagged(next, bus.Read(dp)).(a := bus.Read(dp)), bus)
    case MovXDp(dp) => (Flagged(next, bus.Read(dp)).(x := bus.Read(dp)), bus)
    case MovYDp(dp) => (Flagged(next, bus.Read(dp)).(y := bus.Read(dp)), bus)
    case MovDpA(dp) => (next, bus.Write(dp, cpu.a))
    case MovDpY(dp) => (next, bus.Write(dp, cpu.y))
    case MovwDpYA(dp) => (next, bus.Write(dp, cpu.a).Write((dp as int + 1) % 0x100, cpu.y))
    case CmpAImm(value) => (Flagged(next, (cpu.a as int - value) % 0x100), bus)
    case MovIndirectYA(dp) => (next, bus.Write(Indirect(bus, dp, cpu.y), cpu.a))
    case MovAX => (Flagged(next, cpu.x).(a := cpu.x), bus)
    case IncY => (Flagged(next, (cpu.y as int + 1) % 0x100).(y := (cpu.y as int + 1) % 0x100), bus)
    case IncDp(dp) =>
      var value: byte := (bus.Read(dp) as int + 1) % 0x100;
      (Flagged(next, value), bus.Write(dp, value))
  }

  /** The wait: compare the index with the counter port, take, keep waiting, or leave. */
  lemma {:induction false} WaitListing()
    ensures InstrAt(0x0EDC) == Some(CmpYDp(0xF4))
    ensures InstrAt(0x0EDE) == Some(Beq(0x0EE4))
    ensures InstrAt(0x0EE0) == Some(Bpl(0x0EDC))
    ensures InstrAt(0x0EE2) == Some(Bra(BLOCK_HEADER))
  {
  }

  /** The reads, the first store, and the acknowledgement. */
  lemma {:induction false} TakeListing()
    ensures InstrAt(0x0EE4) == Some(MovADp(0xF5))
    ensures InstrAt(0x0EE6) == Some(MovIndirectYA(0x14))
    ensures InstrAt(0x0EE8) == Some(MovXDp(0xF6))
    ensures InstrAt(0x0EEA) == Some(MovADp(0xF7))
    ensures InstrAt(0x0EEC) == Some(MovDpY(0xF4))
  {
  }

  /** The two stores that follow the acknowledgement, and the index. */
  lemma {:induction false} StoreListing()
    ensures InstrAt(0x0EEE) == Some(MovIndirectYA(0xCA))
    ensures InstrAt(0x0EF0) == Some(MovAX)
    ensures InstrAt(0x0EF1) == Some(MovIndirectYA(0xC8))
    ensures InstrAt(0x0EF3) == Some(IncY)
    ensures InstrAt(0x0EF4) == Some(Bne(0x0EDC))
  {
  }

  /** The page carry, once every 256 handshakes. */
  lemma {:induction false} CarryListing()
    ensures InstrAt(0x0EF6) == Some(IncDp(0x15))
    ensures InstrAt(0x0EF8) == Some(IncDp(0xC9))
    ensures InstrAt(0x0EFA) == Some(IncDp(0xCB))
    ensures InstrAt(0x0EFC) == Some(Bra(0x0EDC))
  {
  }

  /** The header reads both halves of the destination, then the counter and the kind byte. */
  lemma {:induction false} HeaderListing()
    ensures InstrAt(BLOCK_HEADER) == Some(MovADp(0xF6))
    ensures InstrAt(0x0F01) == Some(MovYDp(0xF7))
    ensures InstrAt(0x0F03) == Some(MovwDpYA(0x14))
    ensures InstrAt(0x0F05) == Some(MovYDp(0xF4))
    ensures InstrAt(0x0F07) == Some(MovADp(0xF5))
    ensures InstrAt(0x0F09) == Some(MovDpA(0xE6))
    ensures InstrAt(0x0F0B) == Some(MovDpY(0xF4))
  {
  }

  /** After its acknowledgement it leaves for stock code on kind zero, or waits for a zero counter. */
  lemma {:induction false} StartListing()
    ensures InstrAt(0x0F0D) == Some(CmpAImm(0))
    ensures InstrAt(0x0F0F) == Some(Beq(DRIVER_READY))
    ensures InstrAt(0x0F11) == Some(Bra(BLOCK_START))
    ensures InstrAt(BLOCK_START) == Some(MovYDp(0xF4))
    ensures InstrAt(0x0EBF) == Some(Bne(BLOCK_START))
    ensures InstrAt(DRIVER_READY).None?
  {
  }
}
