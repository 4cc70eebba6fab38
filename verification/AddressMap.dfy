/**
 * The windowed LoROM map. A file of `banks` 64 KB banks is two planes of 32 KB
 * halves: high halves first, low halves after. Banks $C0 and up own no storage
 * and are a window onto the low plane.
 */
module AddressMap {

  const HALF := 0x8000
  const BANK := 0x10000
  const SPACE := 0x1000000
  const WINDOW_BASE := 0xC0
  const LOROM_MIRROR_BASE := 0x80

  /** A 24-bit address, `bank << 16 | offset`. */
  type Address = x: int | 0 <= x < 0x1000000

  function HighHalf(bank: nat): nat {
    bank * HALF
  }

  function LowHalf(bank: nat, banks: nat): nat {
    (bank + banks) * HALF
  }

  /** Where in the file the byte at `bank:offset` is stored. */
  function FileOffset(bank: nat, offset: nat, banks: nat): (o: nat)
    requires bank < 0x100 && offset < BANK
  {
    if bank >= WINDOW_BASE then
      if offset < HALF then LowHalf(LOROM_MIRROR_BASE + (bank - WINDOW_BASE), banks) + offset
      else LowHalf(bank - WINDOW_BASE, banks) + (offset - HALF)
    else if offset < HALF then LowHalf(bank, banks) + offset
    else HighHalf(bank) + (offset - HALF)
  }

  function At(x: Address, banks: nat): nat {
    FileOffset(x / BANK, x % BANK, banks)
  }

  predicate IsWram(bank: int) {
    bank == 0x7E || bank == 0x7F
  }

  predicate HighHalfOnly(bank: int) {
    bank < 0x40 || 0x80 <= bank < 0xC0
  }

  /** The addresses at which the cartridge answers at all. */
  predicate Exposed(x: Address) {
    !IsWram(x / BANK) && (HighHalfOnly(x / BANK) ==> x % BANK >= HALF)
  }

  /** Every 24-bit address lands inside a file of at least 0xC0 banks. */
  lemma {:induction false} InsideFile(x: Address, banks: nat)
    requires banks >= 0xC0
    ensures At(x, banks) < banks * BANK
  {
  }

  /** The 32 KB half of the file an exposed address is served from. */
  function Plane(x: Address, banks: nat): nat {
    var bank := x / BANK;
    if bank >= WINDOW_BASE then
      if x % BANK < HALF then bank - 0x40 + banks else bank - WINDOW_BASE + banks
    else if x % BANK < HALF then bank + banks
    else bank
  }

  lemma {:induction false} AtIsPlane(x: Address, banks: nat)
    ensures At(x, banks) == Plane(x, banks) * HALF + x % HALF
  {
    assert x % BANK < HALF ==> x % HALF == x % BANK;
    assert x % BANK >= HALF ==> x % HALF == x % BANK - HALF;
  }

  lemma {:induction false} PlaneIsInjective(x: Address, y: Address, banks: nat)
    requires banks >= 0xC0 && Exposed(x) && Exposed(y)
    requires Plane(x, banks) == Plane(y, banks)
    ensures x / BANK == y / BANK && (x % BANK < HALF <==> y % BANK < HALF)
  {
  }

  /** No two exposed cartridge addresses share a file byte. */
  lemma {:induction false} MapIsInjective(x: Address, y: Address, banks: nat)
    requires banks >= 0xC0 && Exposed(x) && Exposed(y)
    requires At(x, banks) == At(y, banks)
    ensures x == y
  {
    AtIsPlane(x, banks);
    AtIsPlane(y, banks);
    assert Plane(x, banks) == Plane(y, banks) && x % HALF == y % HALF;
    PlaneIsInjective(x, y, banks);
    assert x % BANK == y % BANK;
    assert x == x / BANK * BANK + x % BANK && y == y / BANK * BANK + y % BANK;
  }

  /**
   * Each unexposed low half is the storage the window shows: the address that
   * would name it directly and the window address name the same byte.
   */
  lemma {:induction false} WindowAliasesLowHalves(k: nat, offset: nat, banks: nat)
    requires k < 0x40 && offset < HALF
    ensures FileOffset(WINDOW_BASE + k, offset, banks) == FileOffset(LOROM_MIRROR_BASE + k, offset, banks)
    ensures FileOffset(WINDOW_BASE + k, HALF + offset, banks) == FileOffset(k, offset, banks)
  {
  }

  /** Within one half, consecutive addresses are consecutive file bytes. */
  lemma {:induction false} HalfIsContiguous(x: Address, t: nat, banks: nat)
    requires x % HALF + t < HALF && x + t < SPACE
    ensures At(x + t, banks) == At(x, banks) + t
  {
    assert (x + t) / HALF == x / HALF;
    assert (x + t) / BANK == x / BANK && (x + t) % BANK == x % BANK + t;
    assert x % BANK < HALF <==> (x + t) % BANK < HALF;
  }
}
