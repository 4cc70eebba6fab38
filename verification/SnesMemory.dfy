/** The processor's view of an image: cartridge where it answers, a shadow RAM elsewhere. */
module SnesMemory {
  import opened Types
  import opened AddressMap
  import EmulatorMap

  const DMA_BASE := 0x4300
  const DMA_TRIGGER := 0x420B
  const DMA_BLOCK_END := 0x4380

  function RamByte(ram: map<Address, byte>, x: Address): byte {
    if x in ram then ram[x] else 0
  }

  /** The DMA registers as they stand, in the snapshot a trigger takes. */
  function DmaSnapshot(ram: map<Address, byte>): map<Address, byte> {
    map a: Address | DMA_BASE <= a < DMA_BLOCK_END :: RamByte(ram, a)
  }

  class SnesMemory {
    const image: seq<byte>
    const banks: nat
    var ram: map<Address, byte>
    var triggered: Option<map<Address, byte>>

    constructor (image: seq<byte>, banks: nat)
      ensures this.image == image && this.banks == banks && ram == map[] && triggered == None
      ensures Valid() ==> forall x: Address :: Read8(x) == if Exposed(x) then image[At(x, banks)] else 0
    {
      this.image, this.banks := image, banks;
      ram, triggered := map[], None;
    }

    predicate Valid() {
      banks >= 0xC0 && |image| >= banks * BANK
    }

    function Read8(x: Address): byte
      requires Valid()
      reads this
    {
      if IsWram(x / BANK) then RamByte(ram, x)
      else if HighHalfOnly(x / BANK) && x % BANK < HALF then RamByte(ram, x)
      else
        InsideFile(x, banks);
        image[At(x, banks)]
    }

    /** What each of the DMA registers, and no other address, reads as. */
    ghost predicate TakenNow(snapshot: map<Address, byte>)
      requires Valid()
      reads this
    {
      && (forall a: Address :: a in snapshot <==> 0x4300 <= a < 0x4380)
      && forall a: Address :: a in snapshot ==> snapshot[a] == Read8(a)
    }

    /** Writes reach the shadow RAM only; the trigger register also takes a snapshot. */
    method Write8(x: Address, value: nat)
      modifies this
      ensures ram == old(ram)[x := value % 0x100]
      ensures triggered == if x == DMA_TRIGGER then Some(DmaSnapshot(ram)) else old(triggered)
      ensures Valid() ==>
                forall y: Address :: Read8(y) == if y == x && !Exposed(x) then value % 0x100 else old(Read8(y))
      ensures Valid() && x == 0x420B ==> triggered.Some? && TakenNow(triggered.value)
    {
      ram := ram[x := value % 0x100];
      if x == DMA_TRIGGER {
        triggered := Some(DmaSnapshot(ram));
      }
    }
  }

  /**
   * The three statements of the map agree: where the cartridge answers, a read is
   * the file byte the emulator's page table points at; elsewhere the page table
   * is untouched and the read comes from RAM.
   */
  lemma {:induction false} ReadsAgreeWithPageTable(memory: SnesMemory, x: Address, shift: int)
    requires memory.Valid() && shift < 0 && shift != -3
    ensures var pointer := EmulatorMap.SlotPointer(x / EmulatorMap.BLOCK_SIZE, memory.banks, shift);
            && (Exposed(x) <==> pointer.Some?)
            && (pointer.Some? ==>
                  0 <= pointer.value + x % BANK < |memory.image| &&
                  memory.Read8(x) == memory.image[pointer.value + x % BANK])
            && (pointer.None? ==> memory.Read8(x) == RamByte(memory.ram, x))
  {
    EmulatorMap.PageTableIsTheMap(x, memory.banks, shift);
    InsideFile(x, memory.banks);
  }
}
