/** The build itself: plan, then write section by section into one bytearray. */
module Builder {
  import opened Types
  import opened AddressMap
  import opened Regions
  import opened Place
  import opened Plan
  import opened Image
  import FirstFit
  import IndexTables

  /** One 32 KB bank of the ROM, at its own bank and at its FastROM mirror. */
  method PlaceLoRomBank(image: array<byte>, rom: seq<byte>, bank: nat, banks: nat)
    requires |rom| == ORIGINAL_SIZE && bank < LOROM_BANKS && banks >= 0xC0 && image.Length == banks * BANK
    requires AllFit(LoRomWrites(rom))
    modifies image
    ensures image[..] == Placed(Placed(old(image[..]), LoRomWrites(rom)[2 * bank], banks),
                                LoRomWrites(rom)[2 * bank + 1], banks)
  {
    var half := rom[bank * HALF..bank * HALF + HALF];
    LoRomPair(rom, bank);
    PlaceRun(image, bank, HALF, half, banks);
    PlaceRun(image, LOROM_MIRROR_BASE + bank, HALF, half, banks);
  }

  /** The ROM's LoROM view, bank by bank. */
  method PlaceLoRom(image: array<byte>, rom: seq<byte>, banks: nat)
    requires |rom| == ORIGINAL_SIZE && banks >= 0xC0 && image.Length == banks * BANK
    modifies image
    ensures AllFit(LoRomWrites(rom))
    ensures image[..] == Applied(old(image[..]), LoRomWrites(rom), banks)
  {
    LoRomFits(rom);
    for bank := 0 to LOROM_BANKS
      invariant image[..] == Applied(old(image[..]), LoRomWrites(rom)[..2 * bank], banks)
    {
      PlaceLoRomBank(image, rom, bank, banks);
      AppliedTwo(old(image[..]), LoRomWrites(rom), 2 * bank, banks);
    }
    assert LoRomWrites(rom)[..2 * LOROM_BANKS] == LoRomWrites(rom);
  }

  lemma {:induction false} AppliedTwo(image: seq<byte>, ws: seq<Write>, i: nat, banks: nat)
    requires ImageOf(image, banks) && AllFit(ws) && i + 1 < |ws|
    ensures Applied(image, ws[..i + 2], banks)
         == Placed(Placed(Applied(image, ws[..i], banks), ws[i], banks), ws[i + 1], banks)
  {
    AppliedNext(image, ws, i, banks);
    AppliedNext(image, ws, i + 1, banks);
  }

  lemma {:induction false} LoRomPair(rom: seq<byte>, bank: nat)
    requires |rom| == ORIGINAL_SIZE && bank < LOROM_BANKS
    ensures LoRomWrites(rom)[2 * bank] == Write(bank * BANK + HALF, rom[bank * HALF..bank * HALF + HALF])
    ensures LoRomWrites(rom)[2 * bank + 1]
         == Write((LOROM_MIRROR_BASE + bank) * BANK + HALF, rom[bank * HALF..bank * HALF + HALF])
  {
    assert (2 * bank) / 2 == bank && (2 * bank + 1) / 2 == bank;
  }

  lemma {:induction false} LoRomFits(rom: seq<byte>)
    requires |rom| == ORIGINAL_SIZE
    ensures AllFit(LoRomWrites(rom))
  {
  }

  /** One 64 KB bank of the ROM, linear, in its window bank. */
  method PlaceWindowBank(image: array<byte>, rom: seq<byte>, n: nat, banks: nat)
    requires |rom| == ORIGINAL_SIZE && n < ORIGINAL_SIZE / BANK && banks >= 0xC0 && image.Length == banks * BANK
    requires AllFit(WindowWrites(rom))
    modifies image
    ensures image[..] == Placed(old(image[..]), WindowWrites(rom)[n], banks)
  {
    WindowWrite(rom, n);
    PlaceRun(image, WINDOW_BASE + n, 0, rom[n * BANK..(n + 1) * BANK], banks);
  }

  /** The whole ROM, linear, in the window banks. */
  method PlaceWindow(image: array<byte>, rom: seq<byte>, banks: nat)
    requires |rom| == ORIGINAL_SIZE && banks >= 0xC0 && image.Length == banks * BANK
    modifies image
    ensures AllFit(WindowWrites(rom))
    ensures image[..] == Applied(old(image[..]), WindowWrites(rom), banks)
  {
    WindowFits(rom);
    for n := 0 to ORIGINAL_SIZE / BANK
      invariant image[..] == Applied(old(image[..]), WindowWrites(rom)[..n], banks)
    {
      PlaceWindowBank(image, rom, n, banks);
      AppliedNext(old(image[..]), WindowWrites(rom), n, banks);
    }
    assert WindowWrites(rom)[..ORIGINAL_SIZE / BANK] == WindowWrites(rom);
  }

  lemma {:induction false} WindowFits(rom: seq<byte>)
    requires |rom| == ORIGINAL_SIZE
    ensures AllFit(WindowWrites(rom))
  {
  }

  lemma {:induction false} WindowWrite(rom: seq<byte>, n: nat)
    requires |rom| == ORIGINAL_SIZE && n < ORIGINAL_SIZE / BANK
    ensures WindowWrites(rom)[n] == Write((WINDOW_BASE + n) * BANK + 0, rom[n * BANK..(n + 1) * BANK])
    ensures |rom[n * BANK..(n + 1) * BANK]| == BANK
  {
  }

  method PlaceAt(image: array<byte>, w: Write, banks: nat)
    requires w.Fits() && w.address < SPACE && banks >= 0xC0 && image.Length == banks * BANK
    modifies image
    ensures image[..] == Placed(old(image[..]), w, banks)
  {
    PlaceRun(image, w.address / BANK, w.address % BANK, w.data, banks);
  }

  /** The four tables, one bank each. */
  method PlaceTables(image: array<byte>, columns: IndexTables.Columns, banks: nat)
    requires columns.Valid() && banks >= 0xC0 && image.Length == banks * BANK
    modifies image
    ensures AllFit(TableWrites(columns))
    ensures image[..] == Applied(old(image[..]), TableWrites(columns), banks)
  {
    var ws := TableWrites(columns);
    assert AllFit(ws);
    for i := 0 to |ws|
      invariant image[..] == Applied(old(image[..]), ws[..i], banks)
    {
      PlaceAt(image, ws[i], banks);
      AppliedNext(old(image[..]), ws, i, banks);
    }
    assert ws[..|ws|] == ws;
  }

  /** Data the caller pinned to fixed addresses, written last. */
  method PlaceExtra(image: array<byte>, extra: seq<Write>, banks: nat)
    requires AllFit(extra) && banks >= 0xC0 && image.Length == banks * BANK
    modifies image
    ensures image[..] == Applied(old(image[..]), extra, banks)
  {
    for i := 0 to |extra|
      invariant image[..] == Applied(old(image[..]), extra[..i], banks)
    {
      if extra[i].address < SPACE {
        PlaceAt(image, extra[i], banks);
      }
      AppliedNext(old(image[..]), extra, i, banks);
    }
    assert extra[..|extra|] == extra;
  }

  /** Every decoded stream at its destination. */
  method PlaceStreams(image: array<byte>, rom: seq<byte>, entries: seq<Entry>,
                      destinations: map<nat, nat>, decode: Decoder, banks: nat)
    requires LengthsKnown(entries) && banks >= 0xC0 && image.Length == banks * BANK
    requires forall i :: 0 <= i < |entries| ==> entries[i].index in destinations
    requires forall i :: 0 <= i < |entries| ==> destinations[entries[i].index] < SPACE
    requires AllFit(StreamWrites(rom, entries, destinations, decode))
    modifies image
    ensures image[..] == Applied(old(image[..]), StreamWrites(rom, entries, destinations, decode), banks)
  {
    ghost var ws := StreamWrites(rom, entries, destinations, decode);
    for k := 0 to |entries|
      invariant image[..] == Applied(old(image[..]), ws[..k], banks)
    {
      var w := Write(destinations[entries[k].index], DataOf(rom, entries[k], decode));
      assert w == ws[k];
      PlaceAt(image, w, banks);
      AppliedNext(old(image[..]), ws, k, banks);
    }
    assert ws[..|ws|] == ws;
  }

  /** Where everything goes, decided before anything is written. */
  method PlanLayout(rom: seq<byte>, entries: seq<Entry>, extra: seq<Write>, decode: Decoder)
    returns (r: Result<(map<nat, nat>, IndexTables.Tables, seq<Region>), BuildError>)
    requires LengthsKnown(entries)
    ensures LayOut(rom, entries, extra, decode).Err? ==> r == Err(LayOut(rom, entries, extra, decode).error)
    ensures LayOut(rom, entries, extra, decode).Ok? ==>
              var layout := LayOut(rom, entries, extra, decode).value;
              r == Ok((layout.destinations, layout.tables, layout.regions))
  {
    var data := Subtract(DataBankRegions(), SpansOf(extra));
    var reclaimed := Reclaim(rom, entries, decode);
    if reclaimed.Err? {
      return Err(reclaimed.error);
    }
    var regions := data + reclaimed.value;
    var requests := PlacingRequests(entries);
    var destinations := FirstFit.Allocate(requests, regions);
    if destinations.Err? {
      return Err(NoSpace(destinations.error));
    }
    EveryIndexIsPlaced(entries, FirstFit.Fitting(requests, regions).value.spots);
    var tables := IndexTables.BuildTables(Pairs(entries, destinations.value));
    if tables.Err? {
      return Err(NoIndex(tables.error));
    }
    return Ok((destinations.value, tables.value, regions));
  }

  /** `build`: the finished image is the blank file after every write, in order. */
  method Build(rom: seq<byte>, entries: seq<Entry>, banks: nat, extra: seq<Write>, decode: Decoder)
    returns (r: Result<Built, BuildError>)
    requires Inputs(entries, banks, extra, decode)
    ensures r == BuildOf(rom, entries, banks, extra, decode)
  {
    if |rom| != ORIGINAL_SIZE {
      return Err(WrongSize(|rom|));
    }
    var plan := PlanLayout(rom, entries, extra, decode);
    if plan.Err? {
      return Err(plan.error);
    }
    var (destinations, tables, regions) := plan.value;
    forall k | 0 <= k < |entries|
      ensures destinations[entries[k].index] < SPACE
    {
      DestinationsAreBytes(rom, entries, extra, decode, k);
    }
    WritesFit(rom, entries, banks, extra, decode);
    SectionsFit(rom, entries, extra, decode, tables, destinations);

    var image := new byte[banks * BANK](_ => 0);
    ghost var blank := image[..];
    assert blank == Zeros(banks * BANK);
    PlaceLoRom(image, rom, banks);
    PlaceWindow(image, rom, banks);
    PlaceTables(image, tables.columns, banks);
    PlaceStreams(image, rom, entries, destinations, decode, banks);
    PlaceExtra(image, extra, banks);
    SectionsInOrder(blank, rom, entries, extra, decode, tables, destinations, banks);
    r := Ok(Built(image[..], destinations, tables, regions));
  }

  lemma {:induction false} SectionsFit(rom: seq<byte>, entries: seq<Entry>, extra: seq<Write>, decode: Decoder,
                                       tables: IndexTables.Tables, destinations: map<nat, nat>)
    requires |rom| == ORIGINAL_SIZE && LengthsKnown(entries)
    requires forall i :: 0 <= i < |entries| ==> entries[i].index in destinations
    requires AllFit(Writes(rom, entries, extra, decode, tables, destinations))
    ensures AllFit(LoRomWrites(rom)) && AllFit(WindowWrites(rom)) && AllFit(TableWrites(tables.columns))
    ensures AllFit(StreamWrites(rom, entries, destinations, decode)) && AllFit(extra)
  {
    var (a, b, c, d) := (LoRomWrites(rom), WindowWrites(rom), TableWrites(tables.columns),
                         StreamWrites(rom, entries, destinations, decode));
    PartsFit(a + b + c + d, extra);
    PartsFit(a + b + c, d);
    PartsFit(a + b, c);
    PartsFit(a, b);
  }

  lemma {:induction false} PartsFit(a: seq<Write>, b: seq<Write>)
    requires AllFit(a + b)
    ensures AllFit(a) && AllFit(b)
  {
    assert forall i :: 0 <= i < |a| ==> a[i] == (a + b)[i];
    assert forall i :: 0 <= i < |b| ==> b[i] == (a + b)[|a| + i];
  }

  lemma {:induction false} SectionsInOrder(blank: seq<byte>, rom: seq<byte>, entries: seq<Entry>, extra: seq<Write>,
                                           decode: Decoder, tables: IndexTables.Tables,
                                           destinations: map<nat, nat>, banks: nat)
    requires |rom| == ORIGINAL_SIZE && LengthsKnown(entries) && ImageOf(blank, banks)
    requires forall i :: 0 <= i < |entries| ==> entries[i].index in destinations
    requires AllFit(LoRomWrites(rom)) && AllFit(WindowWrites(rom)) && AllFit(TableWrites(tables.columns))
    requires AllFit(StreamWrites(rom, entries, destinations, decode)) && AllFit(extra)
    ensures var (a, b, c, d) := (LoRomWrites(rom), WindowWrites(rom), TableWrites(tables.columns),
                                 StreamWrites(rom, entries, destinations, decode));
            && AllFit(Writes(rom, entries, extra, decode, tables, destinations))
            && Applied(blank, Writes(rom, entries, extra, decode, tables, destinations), banks)
            == Applied(Applied(Applied(Applied(Applied(blank, a, banks), b, banks), c, banks), d, banks), extra, banks)
  {
    var (a, b, c, d) := (LoRomWrites(rom), WindowWrites(rom), TableWrites(tables.columns),
                         StreamWrites(rom, entries, destinations, decode));
    AppliedConcat(blank, a, b, banks);
    AppliedConcat(blank, a + b, c, banks);
    AppliedConcat(blank, a + b + c, d, banks);
    AppliedConcat(blank, a + b + c + d, extra, banks);
  }
}
