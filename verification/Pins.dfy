/**
 * Pinned data written anywhere at all: over a window bank, across a bank edge,
 * through an address the cartridge does not answer at. Such a pin is not kept
 * clear of the streams; exactly when one still comes through is said here.
 */
module Pins {
  import opened Types
  import opened Circular
  import opened AddressMap
  import opened Place
  import opened Plan
  import opened Image
  import opened Served
  import opened Lookup
  import IndexTables

  // ------------------------------------------------------- what pins leave

  /** The byte a run leaves in file byte `o`, if it writes it; the last one, where the run meets its own alias. */
  function LeftByRun(w: Write, banks: nat, o: nat): Option<byte>
    requires w.Fits() && banks >= 0xC0
    decreases |w.data|
  {
    if w.data == [] then None
    else
      var n := |w.data| - 1;
      if At(w.address + n, banks) == o then Some(w.data[n]) else LeftByRun(Write(w.address, w.data[..n]), banks, o)
  }

  /** The byte the pins together leave there; later pins win. */
  function Left(ws: seq<Write>, banks: nat, o: nat): Option<byte>
    requires AllFit(ws) && banks >= 0xC0
  {
    if ws == [] then None
    else
      var last := LeftByRun(ws[|ws| - 1], banks, o);
      if last.Some? then last else Left(ws[..|ws| - 1], banks, o)
  }

  lemma {:induction false} PlacedLeaves(image: seq<byte>, w: Write, banks: nat, o: nat)
    requires w.Fits() && ImageOf(image, banks) && o < |image|
    ensures Placed(image, w, banks)[o]
         == if LeftByRun(w, banks, o).Some? then LeftByRun(w, banks, o).value else image[o]
    decreases |w.data|
  {
    if w.data != [] {
      PlacedLeaves(image, Write(w.address, w.data[..|w.data| - 1]), banks, o);
    }
  }

  /** Every file byte of an image holds what the pins left there, or what it held. */
  lemma {:induction false} AppliedLeaves(image: seq<byte>, ws: seq<Write>, banks: nat, o: nat)
    requires AllFit(ws) && ImageOf(image, banks) && o < |image|
    ensures Applied(image, ws, banks)[o] == if Left(ws, banks, o).Some? then Left(ws, banks, o).value else image[o]
  {
    if ws != [] {
      AppliedLeaves(image, ws[..|ws| - 1], banks, o);
      PlacedLeaves(Applied(image, ws[..|ws| - 1], banks), ws[|ws| - 1], banks, o);
    }
  }

  /** What the pins leave to be read at an address. */
  function Pinned(ws: seq<Write>, banks: nat, x: Address): Option<byte>
    requires AllFit(ws) && banks >= 0xC0
  {
    Left(ws, banks, At(x, banks))
  }

  lemma {:induction false} PinnedView(image: seq<byte>, ws: seq<Write>, banks: nat, x: Address)
    requires AllFit(ws) && ImageOf(image, banks)
    ensures View(Applied(image, ws, banks), x, banks)
         == if Pinned(ws, banks, x).Some? then Pinned(ws, banks, x).value else View(image, x, banks)
  {
    InsideFile(x, banks);
    AppliedLeaves(image, ws, banks, At(x, banks));
  }

  // -------------------------------------------------- one stream, any image

  /** No pin leaves any other byte than `v` to be read at `x`. */
  predicate Spares(ws: seq<Write>, banks: nat, x: Address, v: int)
    requires AllFit(ws) && banks >= 0xC0
  {
    Pinned(ws, banks, x).Some? ==> Pinned(ws, banks, x).value == v
  }

  ghost predicate SparesData(ws: seq<Write>, banks: nat, destination: nat, data: seq<byte>)
    requires AllFit(ws) && banks >= 0xC0
  {
    forall t: nat :: t < |data| && destination + t < SPACE ==> Spares(ws, banks, destination + t, data[t])
  }

  /** The slot still spells the destination. */
  ghost predicate SparesSlot(ws: seq<Write>, banks: nat, slot: Slot, destination: nat)
    requires AllFit(ws) && banks >= 0xC0
  {
    && Spares(ws, banks, TableAddress(1, slot), destination % 0x100)
    && Spares(ws, banks, TableAddress(2, slot), destination / 0x100 % 0x100)
    && Spares(ws, banks, TableAddress(3, slot), destination / 0x10000)
  }

  /** The scan from `addr` still stops at the slot, and nowhere before it. */
  ghost predicate SparesScan(ws: seq<Write>, banks: nat, bank: int, addr: Slot, slot: Slot)
    requires AllFit(ws) && banks >= 0xC0
  {
    && Spares(ws, banks, TableAddress(0, slot), bank)
    && forall s: Slot :: Distance(addr, s) < Distance(addr, slot) ==> PutsNo(ws, banks, s, bank)
  }

  predicate PutsNo(ws: seq<Write>, banks: nat, s: Slot, bank: int)
    requires AllFit(ws) && banks >= 0xC0
  {
    Pinned(ws, banks, TableAddress(0, s)).Some? ==> Pinned(ws, banks, TableAddress(0, s)).value != bank
  }

  lemma {:induction false} ScanIffSpared(image: seq<byte>, ws: seq<Write>, banks: nat, bank: int, addr: Slot,
                                         slot: Slot)
    requires AllFit(ws) && ImageOf(image, banks) && Nearest(SeenHits(image, banks, bank), addr) == Some(slot)
    ensures Nearest(SeenHits(Applied(image, ws, banks), banks, bank), addr) == Some(slot) <==>
            SparesScan(ws, banks, bank, addr, slot)
  {
    var final := Applied(image, ws, banks);
    forall s: Slot
      ensures s in SeenHits(final, banks, bank) <==>
              if Pinned(ws, banks, TableAddress(0, s)).Some? then Pinned(ws, banks, TableAddress(0, s)).value == bank
              else s in SeenHits(image, banks, bank)
    {
      PinnedView(image, ws, banks, TableAddress(0, s));
    }
    if SparesScan(ws, banks, bank, addr, slot) {
      forall s | s in SeenHits(final, banks, bank)
        ensures Distance(addr, slot) <= Distance(addr, s)
      {
        assert Distance(addr, s) < Distance(addr, slot) ==> PutsNo(ws, banks, s, bank);
      }
      NearestIs(SeenHits(final, banks, bank), addr, slot);
    }
  }

  /** Three bytes and the number they spell determine one another. */
  lemma {:induction false} Spelled(low: byte, high: byte, bank: byte, n: nat)
    ensures (bank as int) * 0x10000 + (high as int) * 0x100 + low == n <==>
            low as int == n % 0x100 && high as int == n / 0x100 % 0x100 && bank as int == n / 0x10000
  {
    if (bank as int) * 0x10000 + (high as int) * 0x100 + low == n {
      assert n / 0x100 == (bank as int) * 0x100 + high;
    } else if low as int == n % 0x100 && high as int == n / 0x100 % 0x100 {
      assert n == n / 0x100 * 0x100 + low && n / 0x100 == n / 0x100 / 0x100 * 0x100 + high;
    }
  }

  /** The slot's three bytes are a destination's digits. */
  ghost predicate Spells(image: seq<byte>, banks: nat, slot: Slot, n: nat)
    requires ImageOf(image, banks)
  {
    && View(image, TableAddress(1, slot), banks) as int == n % 0x100
    && View(image, TableAddress(2, slot), banks) as int == n / 0x100 % 0x100
    && View(image, TableAddress(3, slot), banks) as int == n / 0x10000
  }

  lemma {:induction false} SlotSpells(image: seq<byte>, banks: nat, slot: Slot, n: nat)
    requires ImageOf(image, banks)
    ensures SeenDestination(image, banks, slot) == n <==> Spells(image, banks, slot, n)
  {
    Spelled(View(image, TableAddress(1, slot), banks), View(image, TableAddress(2, slot), banks),
            View(image, TableAddress(3, slot), banks), n);
  }

  lemma {:induction false} SlotIffSpared(image: seq<byte>, ws: seq<Write>, banks: nat, slot: Slot, n: nat)
    requires AllFit(ws) && ImageOf(image, banks) && SeenDestination(image, banks, slot) == n
    ensures SeenDestination(Applied(image, ws, banks), banks, slot) == n <==> SparesSlot(ws, banks, slot, n)
  {
    SlotSpells(image, banks, slot, n);
    SlotSpells(Applied(image, ws, banks), banks, slot, n);
    PinnedView(image, ws, banks, TableAddress(1, slot));
    PinnedView(image, ws, banks, TableAddress(2, slot));
    PinnedView(image, ws, banks, TableAddress(3, slot));
  }

  lemma {:induction false} DataIffSpared(image: seq<byte>, ws: seq<Write>, banks: nat, destination: nat,
                                         data: seq<byte>)
    requires AllFit(ws) && ImageOf(image, banks) && ReadsAs(image, banks, destination, data)
    ensures ReadsAs(Applied(image, ws, banks), banks, destination, data) <==>
            SparesData(ws, banks, destination, data)
  {
    var final := Applied(image, ws, banks);
    forall t: nat | t < |data|
      ensures destination + t < SPACE
      ensures ReadsByte(final, banks, destination, data, t) <==> Spares(ws, banks, destination + t, data[t])
    {
      assert ReadsByte(image, banks, destination, data, t);
      PinnedView(image, ws, banks, destination + t);
    }
    if SparesData(ws, banks, destination, data) {
      forall t: nat
        ensures ReadsByte(final, banks, destination, data, t)
      {
      }
    } else {
      var t: nat :| t < |data| && destination + t < SPACE && !Spares(ws, banks, destination + t, data[t]);
      assert !ReadsByte(final, banks, destination, data, t);
    }
  }

  /** Lookup from the source leads to the planned slot and destination, and the bytes are there. */
  ghost predicate ServedAsPlanned(image: seq<byte>, banks: nat, source: nat, slot: Slot, destination: nat,
                                  data: seq<byte>)
    requires ImageOf(image, banks)
  {
    LeadsTo(image, banks, source, slot, destination) && ReadsAs(image, banks, destination, data)
  }

  /** The pins spare everything the lookup and the transfer read. */
  ghost predicate Spared(ws: seq<Write>, banks: nat, source: nat, slot: Slot, destination: nat, data: seq<byte>)
    requires AllFit(ws) && banks >= 0xC0
  {
    var key := IndexTables.SourceKey(source);
    && SparesScan(ws, banks, key.bank, key.addr, slot)
    && SparesSlot(ws, banks, slot, destination)
    && SparesData(ws, banks, destination, data)
  }

  lemma {:induction false} ServedIffSpared(image: seq<byte>, ws: seq<Write>, banks: nat, source: nat, slot: Slot,
                                           destination: nat, data: seq<byte>)
    requires AllFit(ws) && ImageOf(image, banks)
    requires ServedAsPlanned(image, banks, source, slot, destination, data)
    ensures ServedAsPlanned(Applied(image, ws, banks), banks, source, slot, destination, data) <==>
            Spared(ws, banks, source, slot, destination, data)
  {
    var key := IndexTables.SourceKey(source);
    ScanIffSpared(image, ws, banks, key.bank, key.addr, slot);
    SlotIffSpared(image, ws, banks, slot, destination);
    DataIffSpared(image, ws, banks, destination, data);
  }

  // ------------------------------------------------------------ on a build

  /** A build that succeeded, whatever is pinned and wherever. */
  ghost predicate Builds(rom: seq<byte>, entries: seq<Entry>, banks: nat, extra: seq<Write>, decode: Decoder) {
    Inputs(entries, banks, extra, decode) && BuildOf(rom, entries, banks, extra, decode).Ok?
  }

  /** The image before anything is pinned. */
  ghost function Unpinned(rom: seq<byte>, entries: seq<Entry>, banks: nat, extra: seq<Write>, decode: Decoder)
    : (r: seq<byte>)
    requires Builds(rom, entries, banks, extra, decode)
    ensures ImageOf(r, banks)
    ensures BuildOf(rom, entries, banks, extra, decode).value.image == Applied(r, extra, banks)
  {
    var b := BuildOf(rom, entries, banks, extra, decode).value;
    var own := OwnWrites(rom, entries, decode, b.tables.columns, b.destinations);
    OwnWritesAreExposed(rom, entries, banks, extra, decode);
    AppliedConcat(Zeros(banks * BANK), own, extra, banks);
    Applied(Zeros(banks * BANK), own, banks)
  }

  /** It shows the build's own sections, at every exposed address. */
  lemma {:induction false} UnpinnedSeen(rom: seq<byte>, entries: seq<Entry>, banks: nat, extra: seq<Write>,
                                        decode: Decoder, x: Address)
    requires Builds(rom, entries, banks, extra, decode) && Exposed(x)
    ensures var b := BuildOf(rom, entries, banks, extra, decode).value;
            var streams := StreamWrites(rom, entries, b.destinations, decode);
            Sections(Unpinned(rom, entries, banks, extra, decode), banks, rom, b.tables.columns, streams, [], x)
  {
    var b := BuildOf(rom, entries, banks, extra, decode).value;
    var (l, w, t, s) := (LoRomWrites(rom), WindowWrites(rom), TableWrites(b.tables.columns),
                         StreamWrites(rom, entries, b.destinations, decode));
    OwnWritesAreExposed(rom, entries, banks, extra, decode);
    AppliedView(Zeros(banks * BANK), l + w + t + s, banks, x);
    InsideFile(x, banks);
    LastByteConcat(l + w + t, s, x, 0);
    LastByteConcat(l + w, t, x, 0);
    LastByteConcat(l, w, x, 0);
  }

  lemma {:induction false} UnpinnedTables(rom: seq<byte>, entries: seq<Entry>, banks: nat, extra: seq<Write>,
                                          decode: Decoder)
    requires Builds(rom, entries, banks, extra, decode)
    ensures ShowsTables(Unpinned(rom, entries, banks, extra, decode), banks,
                        BuildOf(rom, entries, banks, extra, decode).value.tables.columns)
  {
    var b := BuildOf(rom, entries, banks, extra, decode).value;
    var image := Unpinned(rom, entries, banks, extra, decode);
    var streams := StreamWrites(rom, entries, b.destinations, decode);
    assert b.tables.columns.Valid();
    forall x: Address
      ensures ShowsTableByte(image, banks, b.tables.columns, x)
    {
      if 0x60 <= x / BANK <= 0x63 {
        UnpinnedSeen(rom, entries, banks, extra, decode, x);
        StreamsMiss(rom, entries, banks, extra, decode, x);
        FixedShows(image, banks, rom, b.tables.columns, streams, [], x);
      }
    }
  }

  lemma {:induction false} UnpinnedStream(rom: seq<byte>, entries: seq<Entry>, banks: nat, extra: seq<Write>,
                                          decode: Decoder, k: nat)
    requires Builds(rom, entries, banks, extra, decode) && k < |entries|
    ensures ReadsAs(Unpinned(rom, entries, banks, extra, decode), banks,
                    BuildOf(rom, entries, banks, extra, decode).value.destinations[entries[k].index],
                    DataOf(rom, entries[k], decode))
  {
    var b := BuildOf(rom, entries, banks, extra, decode).value;
    var image := Unpinned(rom, entries, banks, extra, decode);
    var streams := StreamWrites(rom, entries, b.destinations, decode);
    forall t: nat
      ensures ReadsByte(image, banks, b.destinations[entries[k].index], DataOf(rom, entries[k], decode), t)
    {
      if t < |DataOf(rom, entries[k], decode)| {
        var x := b.destinations[entries[k].index] + t;
        StreamIsLast(rom, entries, banks, extra, decode, k, x);
        UnpinnedSeen(rom, entries, banks, extra, decode, x);
        StreamShows(image, banks, rom, b.tables.columns, streams, [], k, t);
      }
    }
  }

  /** Before anything is pinned, every stream is served. */
  lemma {:induction false} UnpinnedServes(rom: seq<byte>, entries: seq<Entry>, banks: nat, extra: seq<Write>,
                                          decode: Decoder, k: nat)
    requires Builds(rom, entries, banks, extra, decode) && k < |entries|
    ensures var b := BuildOf(rom, entries, banks, extra, decode).value;
            && |b.tables.slots| == |entries|
            && ServedAsPlanned(Unpinned(rom, entries, banks, extra, decode), banks, entries[k].source,
                               b.tables.slots[k], b.destinations[entries[k].index], DataOf(rom, entries[k], decode))
  {
    var b := BuildOf(rom, entries, banks, extra, decode).value;
    UnpinnedTables(rom, entries, banks, extra, decode);
    ScanYieldsDestination(Unpinned(rom, entries, banks, extra, decode), banks, Pairs(entries, b.destinations), k);
    UnpinnedStream(rom, entries, banks, extra, decode, k);
  }

  /**
   * Whatever is pinned and wherever, stream `k` comes through the finished image
   * if and only if the pins leave nothing different where it lies, in its slot, or
   * in the way of its scan.
   */
  lemma {:induction false} StreamServedIffSpared(rom: seq<byte>, entries: seq<Entry>, banks: nat, extra: seq<Write>,
                                                 decode: Decoder, k: nat)
    requires Builds(rom, entries, banks, extra, decode) && k < |entries|
    ensures var b := BuildOf(rom, entries, banks, extra, decode).value;
            var (source, data) := (entries[k].source, DataOf(rom, entries[k], decode));
            var destination := b.destinations[entries[k].index];
            && |b.tables.slots| == |entries|
            && (ServedAsPlanned(b.image, banks, source, b.tables.slots[k], destination, data) <==>
                Spared(extra, banks, source, b.tables.slots[k], destination, data))
  {
    var b := BuildOf(rom, entries, banks, extra, decode).value;
    UnpinnedServes(rom, entries, banks, extra, decode, k);
    ServedIffSpared(Unpinned(rom, entries, banks, extra, decode), extra, banks, entries[k].source, b.tables.slots[k],
                    b.destinations[entries[k].index], DataOf(rom, entries[k], decode));
  }

  /** Pins that stay in the data banks spare every stream. */
  lemma {:induction false} DataBankPinsSpare(rom: seq<byte>, entries: seq<Entry>, banks: nat, extra: seq<Write>,
                                             decode: Decoder, k: nat)
    requires Succeeds(rom, entries, banks, extra, decode) && k < |entries|
    ensures var b := BuildOf(rom, entries, banks, extra, decode).value;
            && |b.tables.slots| == |entries|
            && Spared(extra, banks, entries[k].source, b.tables.slots[k], b.destinations[entries[k].index],
                      DataOf(rom, entries[k], decode))
  {
    LookupYieldsDestination(rom, entries, banks, extra, decode, k);
    StreamReadsBack(rom, entries, banks, extra, decode, k);
    StreamServedIffSpared(rom, entries, banks, extra, decode, k);
  }
}
