/** The map as the emulator installs it, block by block, into its page table. */
module EmulatorMap {
  import opened Types
  import opened AddressMap

  const SNES_BANKS := 256
  const BLOCKS_PER_BANK := 16
  const BLOCKS_PER_HALF := 8
  const BLOCK_SIZE := 0x1000

  /** Base pointers for a bank's two halves, as offsets from the start of the image. */
  datatype Halves = Halves(low: int, high: int)

  /** What the install loop computes for one bank, or None where it skips the bank. */
  function HalvesOf(bank: nat, banks: nat, shift: int): Option<Halves> {
    if IsWram(bank) then None
    else if shift == -3 && 0x60 <= bank <= 0x7D then
      var n := bank - 0x60;
      Some(Halves(2 * n * HALF, (2 * n + 1) * HALF - HALF))
    else if shift < 0 && bank >= WINDOW_BASE then
      var lowBank, highBank := LOROM_MIRROR_BASE + (bank - WINDOW_BASE), bank - WINDOW_BASE;
      if lowBank >= banks || highBank >= banks then None
      else Some(Halves(LowHalf(lowBank, banks), LowHalf(highBank, banks) - HALF))
    else
      var imageBank := if bank < banks then bank else bank - (if shift < 0 then 0 else shift);
      if imageBank < 0 || imageBank >= banks then None
      else Some(Halves(LowHalf(imageBank, banks), HighHalf(imageBank) - HALF))
  }

  /** The pointer a page-table slot receives; None where it keeps what it had. */
  function SlotPointer(slot: nat, banks: nat, shift: int): Option<int> {
    var bank, block := slot / BLOCKS_PER_BANK, slot % BLOCKS_PER_BANK;
    match HalvesOf(bank, banks, shift)
    case None => None
    case Some(h) =>
      if block < BLOCKS_PER_HALF then
        if HighHalfOnly(bank) then None else Some(h.low)
      else Some(h.high)
  }

  /** One page-table slot: a base pointer and the two block flags. */
  datatype Page = Page(base: int, isRom: bool, isRam: bool)

  function Installed(pointer: Option<int>, was: Page): Page {
    match pointer
    case Some(p) => Page(p, true, false)
    case None => was
  }

  /** The emulator's page table, one entry per 4 KB block. */
  class Memory {
    const pages: array<int>
    const blockIsRom: array<bool>
    const blockIsRam: array<bool>

    ghost predicate Valid() {
      && pages.Length == blockIsRom.Length == blockIsRam.Length == SNES_BANKS * BLOCKS_PER_BANK
      && blockIsRom != blockIsRam
    }

    function PageAt(s: nat): Page
      requires s < pages.Length == blockIsRom.Length == blockIsRam.Length
      reads pages, blockIsRom, blockIsRam
    {
      Page(pages[s], blockIsRom[s], blockIsRam[s])
    }

    method InstallBank(bank: nat, banks: nat, shift: int)
      requires Valid() && bank < SNES_BANKS
      modifies pages, blockIsRom, blockIsRam
      ensures forall s: nat :: s < pages.Length ==>
                PageAt(s) == if s / BLOCKS_PER_BANK == bank
                             then Installed(SlotPointer(s, banks, shift), old(PageAt(s)))
                             else old(PageAt(s))
    {
      var halves := HalvesOf(bank, banks, shift);
      if halves.None? {
        return;
      }
      for block := 0 to BLOCKS_PER_BANK
        invariant forall s: nat :: s < pages.Length ==>
                    PageAt(s) == if s / BLOCKS_PER_BANK == bank && s % BLOCKS_PER_BANK < block
                                 then Installed(SlotPointer(s, banks, shift), old(PageAt(s)))
                                 else old(PageAt(s))
      {
        var inLowHalf := block < BLOCKS_PER_HALF;
        if inLowHalf && HighHalfOnly(bank) {
          continue;
        }
        var slot := bank * BLOCKS_PER_BANK + block;
        pages[slot] := if inLowHalf then halves.value.low else halves.value.high;
        blockIsRom[slot] := true;
        blockIsRam[slot] := false;
      }
    }

    /** `install_windowed_lorom_map`: every slot of every bank, in order. */
    method Install(calculatedSize: nat, shift: int)
      requires Valid()
      modifies pages, blockIsRom, blockIsRam
      ensures forall s: nat :: s < pages.Length ==>
                PageAt(s) == if calculatedSize / BANK == 0 then old(PageAt(s))
                             else Installed(SlotPointer(s, calculatedSize / BANK, shift), old(PageAt(s)))
    {
      var banks := calculatedSize / BANK;
      if banks <= 0 {
        return;
      }
      for bank := 0 to SNES_BANKS
        invariant forall s: nat :: s < pages.Length ==>
                    PageAt(s) == if s / BLOCKS_PER_BANK < bank
                                 then Installed(SlotPointer(s, banks, shift), old(PageAt(s)))
                                 else old(PageAt(s))
      {
        InstallBank(bank, banks, shift);
      }
    }
  }

  /**
   * For the windowed shifts the page table is the map: an exposed address's block
   * points where adding the address's low sixteen bits gives its file offset, and
   * the slot of an unexposed address keeps whatever the emulator had put there.
   */
  lemma {:induction false} PageTableIsTheMap(x: Address, banks: nat, shift: int)
    requires banks >= 0xC0 && shift < 0 && shift != -3
    ensures Exposed(x) ==>
              && SlotPointer(x / BLOCK_SIZE, banks, shift).Some?
              && SlotPointer(x / BLOCK_SIZE, banks, shift).value + x % BANK == At(x, banks)
    ensures !Exposed(x) ==> SlotPointer(x / BLOCK_SIZE, banks, shift).None?
  {
    SlotOf(x);
  }

  /** Read through the page table, the address shows that byte of the file. */
  ghost predicate Points(x: Address, banks: nat, shift: int, at: int) {
    SlotPointer(x / BLOCK_SIZE, banks, shift) == Some(at - x % BANK)
  }

  ghost predicate Untouched(x: Address, banks: nat, shift: int) {
    SlotPointer(x / BLOCK_SIZE, banks, shift).None?
  }

  /** The two planes read straight, with no window: high halves first, low halves after. */
  function Straight(x: Address, banks: nat): nat {
    x / BANK * HALF + x % HALF + (if x % BANK < HALF then banks * HALF else 0)
  }

  ghost predicate IsLinear(x: Address, shift: int) {
    shift == -3 && 0x600000 <= x < 0x7E0000
  }

  /**
   * Every shift and every file size. Shift -3 lays the start of the file out
   * linearly from $60:0000; the other negative shifts and the rest of that one are
   * the windowed map, cut off at the end of the file; a shift that is not negative
   * reads the planes straight and repeats them that many banks higher.
   */
  lemma {:induction false} EveryShiftsMap(x: Address, banks: nat, shift: int)
    ensures !Exposed(x) ==> Untouched(x, banks, shift)
    ensures IsLinear(x, shift) ==> Points(x, banks, shift, x - 0x600000)
    ensures Exposed(x) && shift < 0 && !IsLinear(x, shift) ==>
              var last := if x >= 0xC00000 then x / BANK - 0x40 else x / BANK;
              if last < banks then Points(x, banks, shift, At(x, banks)) else Untouched(x, banks, shift)
    ensures Exposed(x) && shift >= 0 ==>
              if x / BANK < banks then Points(x, banks, shift, Straight(x, banks))
              else if 0 <= x / BANK - shift < banks then
                Points(x, banks, shift, Straight(x - shift * BANK, banks))
              else Untouched(x, banks, shift)
  {
    SlotOf(x);
    assert x % BANK < HALF ==> x % HALF == x % BANK;
    assert x % BANK >= HALF ==> x % HALF == x % BANK - HALF;
    if shift >= 0 && 0 <= x / BANK - shift {
      var y := x - shift * BANK;
      assert y == (x / BANK - shift) * BANK + x % BANK;
      assert y / BANK == x / BANK - shift && y % BANK == x % BANK;
      assert y % HALF == x % HALF;
    }
  }

  lemma {:induction false} SlotOf(x: Address)
    ensures x / BLOCK_SIZE / BLOCKS_PER_BANK == x / BANK
    ensures x / BLOCK_SIZE % BLOCKS_PER_BANK < BLOCKS_PER_HALF <==> x % BANK < HALF
  {
    assert x / BLOCK_SIZE % BLOCKS_PER_BANK == x % BANK / BLOCK_SIZE;
  }
}
