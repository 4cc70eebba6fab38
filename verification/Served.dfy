/**
 * What a reader of the finished cartridge sees: every stream verbatim through
 * lookup and plain reads, and the original ROM everywhere else.
 */
module Served {
  import opened Types
  import opened AddressMap
  import opened Regions
  import opened Place
  import opened Plan
  import opened Image
  import FirstFit
  import IndexTables

  /** Pinned data: each run inside one data bank. */
  ghost predicate ExtrasInDataBanks(extra: seq<Write>) {
    forall i :: 0 <= i < |extra| ==>
      IsDataBank(extra[i].address / BANK) && extra[i].address % BANK + |extra[i].data| <= BANK
  }

  /** A build that succeeded, from inputs the builder accepts. */
  ghost predicate Succeeds(rom: seq<byte>, entries: seq<Entry>, banks: nat, extra: seq<Write>, decode: Decoder) {
    && Inputs(entries, banks, extra, decode)
    && ExtrasInDataBanks(extra)
    && BuildOf(rom, entries, banks, extra, decode).Ok?
  }

  // ------------------------------------------------------- which write shows

  lemma {:induction false} ExtraCovers(extra: seq<Write>, j: nat, x: nat)
    requires ExtrasInDataBanks(extra) && j < |extra| && extra[j].Covers(x)
    ensures IsDataBank(x / BANK) && Covers(SpansOf(extra), x / BANK, x % BANK)
  {
    assert SpansOf(extra)[j] == SpanOf(extra[j]);
    SameBank(extra[j], x);
    assert SpansOf(extra)[j].Has(x / BANK, x % BANK);
  }

  lemma {:induction false} SameBank(w: Write, x: nat)
    requires w.Covers(x) && w.address % BANK + |w.data| <= BANK
    ensures x / BANK == w.address / BANK && w.address % BANK <= x % BANK < w.address % BANK + |w.data|
  {
  }

  lemma {:induction false} StreamCovers(rom: seq<byte>, entries: seq<Entry>, banks: nat, extra: seq<Write>,
                                        decode: Decoder, k: nat, x: nat)
    requires Inputs(entries, banks, extra, decode) && LayOut(rom, entries, extra, decode).Ok? && k < |entries|
    requires StreamWrites(rom, entries, LayOut(rom, entries, extra, decode).value.destinations, decode)[k].Covers(x)
    ensures x < SPACE
    ensures LayOut(rom, entries, extra, decode).value.fitted.spots[Turn(entries, k)].Has(x / BANK, x % BANK)
    ensures (IsDataBank(x / BANK) && !Covers(SpansOf(extra), x / BANK, x % BANK)) ||
            (x / BANK >= WINDOW_BASE &&
             Covers(ReclaimedRegions(rom, entries, decode).value, x / BANK, x % BANK))
  {
    StreamWriteFits(rom, entries, banks, extra, decode, k);
    SpotIsOffered(rom, entries, extra, decode, Turn(entries, k), x / BANK, x % BANK);
  }

  lemma {:induction false} StreamsAreApart(rom: seq<byte>, entries: seq<Entry>, banks: nat, extra: seq<Write>,
                                           decode: Decoder, j: nat, k: nat, x: nat)
    requires Inputs(entries, banks, extra, decode) && LayOut(rom, entries, extra, decode).Ok?
    requires j < |entries| && k < |entries| && j != k
    requires StreamWrites(rom, entries, LayOut(rom, entries, extra, decode).value.destinations, decode)[k].Covers(x)
    ensures !StreamWrites(rom, entries, LayOut(rom, entries, extra, decode).value.destinations, decode)[j].Covers(x)
  {
    var layout := LayOut(rom, entries, extra, decode).value;
    var streams := StreamWrites(rom, entries, layout.destinations, decode);
    var (s, t) := (layout.fitted.spots[Turn(entries, j)], layout.fitted.spots[Turn(entries, k)]);
    assert FirstFit.Clear(s, t) || FirstFit.Clear(t, s) by {
      FirstFit.PlacementsAreDisjointAndOffered(PlacingRequests(entries), layout.regions);
      assert Turn(entries, j) != Turn(entries, k);
    }
    StreamCovers(rom, entries, banks, extra, decode, k, x);
    if streams[j].Covers(x) {
      StreamCovers(rom, entries, banks, extra, decode, j, x);
    }
  }

  lemma {:induction false} WritesAreExposed(rom: seq<byte>, entries: seq<Entry>, banks: nat, extra: seq<Write>,
                                            decode: Decoder)
    requires |rom| == ORIGINAL_SIZE && Inputs(entries, banks, extra, decode) && ExtrasInDataBanks(extra)
    requires LayOut(rom, entries, extra, decode).Ok?
    ensures var layout := LayOut(rom, entries, extra, decode).value;
            Writable(Writes(rom, entries, extra, decode, layout.tables, layout.destinations))
  {
    OwnWritesAreExposed(rom, entries, banks, extra, decode);
    forall j | 0 <= j < |extra|
      ensures AllExposed(extra[j])
    {
      forall x: Address | extra[j].Covers(x)
        ensures Exposed(x)
      {
        ExtraCovers(extra, j, x);
      }
    }
    var layout := LayOut(rom, entries, extra, decode).value;
    BothWritable(OwnWrites(rom, entries, decode, layout.tables.columns, layout.destinations), extra);
  }

  lemma {:induction false} BothWritable(a: seq<Write>, b: seq<Write>)
    requires Writable(a) && Writable(b)
    ensures Writable(a + b)
  {
  }

  /** The build's own writes stay where the cartridge answers, whatever is pinned. */
  lemma {:induction false} OwnWritesAreExposed(rom: seq<byte>, entries: seq<Entry>, banks: nat, extra: seq<Write>,
                                               decode: Decoder)
    requires |rom| == ORIGINAL_SIZE && Inputs(entries, banks, extra, decode)
    requires LayOut(rom, entries, extra, decode).Ok?
    ensures var layout := LayOut(rom, entries, extra, decode).value;
            Writable(OwnWrites(rom, entries, decode, layout.tables.columns, layout.destinations))
  {
    var layout := LayOut(rom, entries, extra, decode).value;
    var ws := OwnWrites(rom, entries, decode, layout.tables.columns, layout.destinations);
    WritesFit(rom, entries, banks, extra, decode);
    forall i | 0 <= i < |ws|
      ensures ws[i].Fits() && AllExposed(ws[i])
    {
      assert ws[i] == (ws + extra)[i];
      forall x: Address | ws[i].Covers(x)
        ensures Exposed(x)
      {
        OwnWriteIsExposed(rom, entries, banks, extra, decode, ws[i], x);
      }
    }
  }

  lemma {:induction false} OwnWriteIsExposed(rom: seq<byte>, entries: seq<Entry>, banks: nat, extra: seq<Write>,
                                             decode: Decoder, w: Write, x: Address)
    requires |rom| == ORIGINAL_SIZE && Inputs(entries, banks, extra, decode)
    requires LayOut(rom, entries, extra, decode).Ok? && w.Covers(x)
    requires var layout := LayOut(rom, entries, extra, decode).value;
             w in OwnWrites(rom, entries, decode, layout.tables.columns, layout.destinations)
    ensures Exposed(x)
  {
    var layout := LayOut(rom, entries, extra, decode).value;
    var streams := StreamWrites(rom, entries, layout.destinations, decode);
    if w in LoRomWrites(rom) {
      LoRomIsExposed(rom, w, x);
    } else if w in WindowWrites(rom) || w in TableWrites(layout.tables.columns) {
      FixedIsExposed(rom, layout.tables.columns, w, x);
    } else {
      var k :| 0 <= k < |streams| && streams[k] == w;
      StreamCovers(rom, entries, banks, extra, decode, k, x);
    }
  }

  lemma {:induction false} LoRomIsExposed(rom: seq<byte>, w: Write, x: Address)
    requires |rom| == ORIGINAL_SIZE && w in LoRomWrites(rom) && w.Covers(x)
    ensures Exposed(x)
  {
    var i :| 0 <= i < 2 * LOROM_BANKS && LoRomWrites(rom)[i] == w;
    LoRomCovers(rom, i, x);
  }

  lemma {:induction false} FixedIsExposed(rom: seq<byte>, c: IndexTables.Columns, w: Write, x: Address)
    requires |rom| == ORIGINAL_SIZE && w.Covers(x) && c.Valid()
    requires w in WindowWrites(rom) || w in TableWrites(c)
    ensures Exposed(x)
  {
    if w in TableWrites(c) {
      assert 0x60 * BANK <= x < 0x64 * BANK;
    } else {
      var n :| 0 <= n < ORIGINAL_SIZE / BANK && WindowWrites(rom)[n] == w;
    }
  }

  /** The byte seen at `x` is the last one written there, section by section. */
  ghost predicate Sections(image: seq<byte>, banks: nat, rom: seq<byte>, c: IndexTables.Columns,
                           streams: seq<Write>, extra: seq<Write>, x: Address)
    requires ImageOf(image, banks) && |rom| == ORIGINAL_SIZE
  {
    var fixed := LastByte(TableWrites(c), x, LastByte(WindowWrites(rom), x, LastByte(LoRomWrites(rom), x, 0)));
    View(image, x, banks) == LastByte(extra, x, LastByte(streams, x, fixed))
  }

  /** Every exposed address of a finished image shows its sections. */
  lemma {:induction false} SeenThrough(rom: seq<byte>, entries: seq<Entry>, banks: nat, extra: seq<Write>,
                                       decode: Decoder, x: Address)
    requires Succeeds(rom, entries, banks, extra, decode) && Exposed(x)
    ensures var b := BuildOf(rom, entries, banks, extra, decode).value;
            var streams := StreamWrites(rom, entries, b.destinations, decode);
            Sections(b.image, banks, rom, b.tables.columns, streams, extra, x)
  {
    var b := BuildOf(rom, entries, banks, extra, decode).value;
    var (l, w, t, s) := (LoRomWrites(rom), WindowWrites(rom), TableWrites(b.tables.columns),
                         StreamWrites(rom, entries, b.destinations, decode));
    WritesFit(rom, entries, banks, extra, decode);
    WritesAreExposed(rom, entries, banks, extra, decode);
    AppliedView(Zeros(banks * BANK), l + w + t + s + extra, banks, x);
    InsideFile(x, banks);
    LastByteConcat(l + w + t + s, extra, x, 0);
    LastByteConcat(l + w + t, s, x, 0);
    LastByteConcat(l + w, t, x, 0);
    LastByteConcat(l, w, x, 0);
  }

  // --------------------------------------------------- the fixed sections

  lemma {:induction false} LoRomCovers(rom: seq<byte>, i: nat, x: nat)
    requires |rom| == ORIGINAL_SIZE && i < 2 * LOROM_BANKS
    ensures LoRomWrites(rom)[i].Covers(x) <==>
              x / BANK == i % 2 * LOROM_MIRROR_BASE + i / 2 && x % BANK >= HALF
  {
  }

  /** In the LoROM banks the high half shows 32 KB of the ROM, twice over. */
  lemma {:induction false} LoRomShows(rom: seq<byte>, x: Address, default: byte)
    requires |rom| == ORIGINAL_SIZE
    ensures HighHalfOnly(x / BANK) && x % BANK >= HALF ==>
              LastByte(LoRomWrites(rom), x, default) == rom[x / BANK % 0x80 * HALF + (x % BANK - HALF)]
    ensures !(HighHalfOnly(x / BANK) && x % BANK >= HALF) ==>
              LastByte(LoRomWrites(rom), x, default) == default
  {
    if HighHalfOnly(x / BANK) && x % BANK >= HALF {
      LoRomHit(rom, x, default);
    } else {
      forall i | 0 <= i < |LoRomWrites(rom)|
        ensures !LoRomWrites(rom)[i].Covers(x)
      {
        LoRomCovers(rom, i, x);
      }
      LastByteMisses(LoRomWrites(rom), x, default);
    }
  }

  /** The one write of the LoROM view that names an address. */
  lemma {:induction false} LoRomIndex(bank: nat) returns (i: nat)
    requires HighHalfOnly(bank)
    ensures i < 2 * LOROM_BANKS && i % 2 * LOROM_MIRROR_BASE + i / 2 == bank && i / 2 == bank % 0x80
    ensures forall j: nat :: j < 2 * LOROM_BANKS && j % 2 * LOROM_MIRROR_BASE + j / 2 == bank ==> j == i
  {
    i := if bank < 0x40 then 2 * bank else 2 * (bank - 0x80) + 1;
  }

  lemma {:induction false} LoRomIsLast(rom: seq<byte>, i: nat, x: Address)
    requires |rom| == ORIGINAL_SIZE && i < 2 * LOROM_BANKS && LoRomWrites(rom)[i].Covers(x)
    requires forall j: nat :: j < 2 * LOROM_BANKS && j % 2 * LOROM_MIRROR_BASE + j / 2 == x / BANK ==> j == i
    ensures IsLast(LoRomWrites(rom), i, x)
  {
    forall j | i < j < 2 * LOROM_BANKS
      ensures !LoRomWrites(rom)[j].Covers(x)
    {
      LoRomCovers(rom, j, x);
    }
  }

  lemma {:induction false} LoRomHit(rom: seq<byte>, x: Address, default: byte)
    requires |rom| == ORIGINAL_SIZE && HighHalfOnly(x / BANK) && x % BANK >= HALF
    ensures LastByte(LoRomWrites(rom), x, default) == rom[x / BANK % 0x80 * HALF + (x % BANK - HALF)]
  {
    var i := LoRomIndex(x / BANK);
    var w := LoRomWrites(rom)[i];
    LoRomCovers(rom, i, x);
    LoRomIsLast(rom, i, x);
    LastByteHits(LoRomWrites(rom), i, x, default);
    assert w.address == x / BANK * BANK + HALF;
    assert x - w.address == x % BANK - HALF;
  }

  lemma {:induction false} WindowShows(rom: seq<byte>, x: Address, default: byte)
    requires |rom| == ORIGINAL_SIZE
    ensures LastByte(WindowWrites(rom), x, default)
         == if x / BANK >= WINDOW_BASE then rom[x - WINDOW_BASE * BANK] else default
  {
    var ws := WindowWrites(rom);
    if x / BANK >= WINDOW_BASE {
      LastByteHits(ws, x / BANK - WINDOW_BASE, x, default);
    } else {
      LastByteMisses(ws, x, default);
    }
  }

  lemma {:induction false} TablesShow(c: IndexTables.Columns, x: Address, default: byte)
    requires c.Valid()
    ensures LastByte(TableWrites(c), x, default)
         == if x / BANK == 0x60 then c.key[x % BANK] else if x / BANK == 0x61 then c.low[x % BANK]
            else if x / BANK == 0x62 then c.high[x % BANK] else if x / BANK == 0x63 then c.bank[x % BANK]
            else default
  {
    var ws := TableWrites(c);
    if 0x60 <= x / BANK <= 0x63 {
      LastByteHits(ws, x / BANK - 0x60, x, default);
    } else {
      LastByteMisses(ws, x, default);
    }
  }

  ghost predicate Misses(ws: seq<Write>, x: nat) {
    forall i :: 0 <= i < |ws| ==> !ws[i].Covers(x)
  }

  lemma {:induction false} StreamsMiss(rom: seq<byte>, entries: seq<Entry>, banks: nat, extra: seq<Write>,
                                       decode: Decoder, x: Address)
    requires Inputs(entries, banks, extra, decode) && LayOut(rom, entries, extra, decode).Ok?
    requires !IsDataBank(x / BANK)
    requires x / BANK >= WINDOW_BASE ==>
               !Covers(ReclaimedRegions(rom, entries, decode).value, x / BANK, x % BANK)
    ensures Misses(StreamWrites(rom, entries, LayOut(rom, entries, extra, decode).value.destinations, decode), x)
  {
    var streams := StreamWrites(rom, entries, LayOut(rom, entries, extra, decode).value.destinations, decode);
    forall k | 0 <= k < |streams|
      ensures !streams[k].Covers(x)
    {
      if streams[k].Covers(x) {
        StreamCovers(rom, entries, banks, extra, decode, k, x);
      }
    }
  }

  lemma {:induction false} ExtrasMiss(extra: seq<Write>, x: Address)
    requires ExtrasInDataBanks(extra)
    requires IsDataBank(x / BANK) ==> !Covers(SpansOf(extra), x / BANK, x % BANK)
    ensures Misses(extra, x)
  {
    forall j | 0 <= j < |extra|
      ensures !extra[j].Covers(x)
    {
      if extra[j].Covers(x) {
        ExtraCovers(extra, j, x);
      }
    }
  }

  // ------------------------------------------------- what one image shows

  /** In a table bank the address shows its byte of that bank's column. */
  ghost predicate ShowsTableByte(image: seq<byte>, banks: nat, c: IndexTables.Columns, x: Address)
    requires ImageOf(image, banks) && c.Valid()
  {
    0x60 <= x / BANK <= 0x63 ==>
      var column := if x / BANK == 0x60 then c.key else if x / BANK == 0x61 then c.low
                    else if x / BANK == 0x62 then c.high else c.bank;
      View(image, x, banks) == column[x % BANK]
  }

  /** Where no stream and no pinned data was written, the fixed sections show. */
  lemma {:induction false} FixedShows(image: seq<byte>, banks: nat, rom: seq<byte>, c: IndexTables.Columns,
                                      streams: seq<Write>, extra: seq<Write>, x: Address)
    requires ImageOf(image, banks) && |rom| == ORIGINAL_SIZE && c.Valid()
    requires Sections(image, banks, rom, c, streams, extra, x) && Misses(streams, x) && Misses(extra, x)
    ensures HighHalfOnly(x / BANK) && x % BANK >= HALF ==>
              View(image, x, banks) == rom[x / BANK % 0x80 * HALF + (x % BANK - HALF)]
    ensures x / BANK >= WINDOW_BASE ==> View(image, x, banks) == rom[x - WINDOW_BASE * BANK]
    ensures ShowsTableByte(image, banks, c, x)
    ensures IsDataBank(x / BANK) ==> View(image, x, banks) == 0
  {
    var low := LastByte(LoRomWrites(rom), x, 0);
    var window := LastByte(WindowWrites(rom), x, low);
    var fixed := LastByte(TableWrites(c), x, window);
    LoRomShows(rom, x, 0);
    WindowShows(rom, x, low);
    TablesShow(c, x, window);
    LastByteMisses(streams, x, fixed);
    LastByteMisses(extra, x, fixed);
  }

  /** A stream byte no later stream and no pinned data covers is what shows. */
  lemma {:induction false} StreamShows(image: seq<byte>, banks: nat, rom: seq<byte>, c: IndexTables.Columns,
                                       streams: seq<Write>, extra: seq<Write>, k: nat, t: nat)
    requires ImageOf(image, banks) && |rom| == ORIGINAL_SIZE && k < |streams| && t < |streams[k].data|
    requires streams[k].address + t < SPACE && IsLast(streams, k, streams[k].address + t)
    requires Sections(image, banks, rom, c, streams, extra, streams[k].address + t)
    requires Misses(extra, streams[k].address + t)
    ensures ReadsByte(image, banks, streams[k].address, streams[k].data, t)
  {
    var x: Address := streams[k].address + t;
    var fixed := LastByte(TableWrites(c), x, LastByte(WindowWrites(rom), x, LastByte(LoRomWrites(rom), x, 0)));
    LastByteHits(streams, k, x, fixed);
    LastByteMisses(extra, x, LastByte(streams, x, fixed));
  }

  /** A pinned byte no later pin covers is what shows. */
  lemma {:induction false} PinShows(image: seq<byte>, banks: nat, rom: seq<byte>, c: IndexTables.Columns,
                                    streams: seq<Write>, extra: seq<Write>, j: nat, x: Address)
    requires ImageOf(image, banks) && |rom| == ORIGINAL_SIZE && IsLast(extra, j, x)
    requires Sections(image, banks, rom, c, streams, extra, x)
    ensures View(image, x, banks) == extra[j].data[x - extra[j].address]
  {
    var fixed := LastByte(TableWrites(c), x, LastByte(WindowWrites(rom), x, LastByte(LoRomWrites(rom), x, 0)));
    LastByteHits(extra, j, x, LastByte(streams, x, fixed));
  }

  // ----------------------------------------------------------- the theorems

  /** Off the data banks and the reclaimed regions nothing covers the fixed sections. */
  lemma {:induction false} UntouchedShows(rom: seq<byte>, entries: seq<Entry>, banks: nat, extra: seq<Write>,
                                          decode: Decoder, x: Address)
    requires Succeeds(rom, entries, banks, extra, decode) && Exposed(x) && !IsDataBank(x / BANK)
    requires x / BANK >= WINDOW_BASE ==>
               !Covers(ReclaimedRegions(rom, entries, decode).value, x / BANK, x % BANK)
    ensures var b := BuildOf(rom, entries, banks, extra, decode).value;
            && (HighHalfOnly(x / BANK) ==>
                  View(b.image, x, banks) == rom[x / BANK % 0x80 * HALF + (x % BANK - HALF)])
            && (x / BANK >= WINDOW_BASE ==> View(b.image, x, banks) == rom[x - WINDOW_BASE * BANK])
            && b.tables.columns.Valid() && ShowsTableByte(b.image, banks, b.tables.columns, x)
  {
    var b := BuildOf(rom, entries, banks, extra, decode).value;
    SeenThrough(rom, entries, banks, extra, decode, x);
    StreamsMiss(rom, entries, banks, extra, decode, x);
    ExtrasMiss(extra, x);
    FixedShows(b.image, banks, rom, b.tables.columns, StreamWrites(rom, entries, b.destinations, decode), extra, x);
  }

  /** Banks $00-$3F and $80-$BF still show the ROM's LoROM view, every byte. */
  lemma {:induction false} LoRomViewIsIntact(rom: seq<byte>, entries: seq<Entry>, banks: nat, extra: seq<Write>,
                                             decode: Decoder, x: Address)
    requires Succeeds(rom, entries, banks, extra, decode)
    requires HighHalfOnly(x / BANK) && x % BANK >= HALF
    ensures View(BuildOf(rom, entries, banks, extra, decode).value.image, x, banks)
         == rom[x / BANK % 0x80 * HALF + (x % BANK - HALF)]
  {
    UntouchedShows(rom, entries, banks, extra, decode, x);
  }

  /**
   * The window still shows the linear ROM at every address outside the reclaimed
   * regions; and every reclaimed byte is one some stream's decoding consumed.
   */
  lemma {:induction false} WindowIsIntact(rom: seq<byte>, entries: seq<Entry>, banks: nat, extra: seq<Write>,
                                          decode: Decoder, x: Address)
    requires Succeeds(rom, entries, banks, extra, decode) && x / BANK >= WINDOW_BASE
    ensures ReclaimedRegions(rom, entries, decode).Ok?
    ensures !Covers(ReclaimedRegions(rom, entries, decode).value, x / BANK, x % BANK) ==>
              View(BuildOf(rom, entries, banks, extra, decode).value.image, x, banks) == rom[x - WINDOW_BASE * BANK]
    ensures Covers(ReclaimedRegions(rom, entries, decode).value, x / BANK, x % BANK) ==>
              Consumed(rom, entries, decode, x / BANK, x % BANK)
  {
    if Covers(ReclaimedRegions(rom, entries, decode).value, x / BANK, x % BANK) {
      ReclaimedIsConsumed(rom, entries, decode, x / BANK, x % BANK);
    } else {
      UntouchedShows(rom, entries, banks, extra, decode, x);
    }
  }

  /** In the data banks an address no stream and no pinned data was given stays blank. */
  lemma {:induction false} UnusedDataIsBlank(rom: seq<byte>, entries: seq<Entry>, banks: nat, extra: seq<Write>,
                                             decode: Decoder, x: Address)
    requires Succeeds(rom, entries, banks, extra, decode) && IsDataBank(x / BANK) && Misses(extra, x)
    requires var b := BuildOf(rom, entries, banks, extra, decode).value;
             Misses(StreamWrites(rom, entries, b.destinations, decode), x)
    ensures View(BuildOf(rom, entries, banks, extra, decode).value.image, x, banks) == 0
  {
    var b := BuildOf(rom, entries, banks, extra, decode).value;
    SeenThrough(rom, entries, banks, extra, decode, x);
    FixedShows(b.image, banks, rom, b.tables.columns, StreamWrites(rom, entries, b.destinations, decode), extra, x);
  }

  ghost predicate ShowsTables(image: seq<byte>, banks: nat, c: IndexTables.Columns)
    requires ImageOf(image, banks)
  {
    c.Valid() && forall x: Address :: ShowsTableByte(image, banks, c, x)
  }

  /** The four table banks hold exactly the four columns. */
  lemma {:induction false} TableBanksShow(rom: seq<byte>, entries: seq<Entry>, banks: nat, extra: seq<Write>,
                                          decode: Decoder)
    requires Succeeds(rom, entries, banks, extra, decode)
    ensures var b := BuildOf(rom, entries, banks, extra, decode).value;
            ShowsTables(b.image, banks, b.tables.columns)
  {
    var b := BuildOf(rom, entries, banks, extra, decode).value;
    UntouchedShows(rom, entries, banks, extra, decode, 0x600000);
    forall x: Address
      ensures ShowsTableByte(b.image, banks, b.tables.columns, x)
    {
      if 0x60 <= x / BANK <= 0x63 {
        UntouchedShows(rom, entries, banks, extra, decode, x);
      }
    }
  }

  /** Where stream `k` has a byte the cartridge answers, and no later stream is written there. */
  lemma {:induction false} StreamIsLast(rom: seq<byte>, entries: seq<Entry>, banks: nat, extra: seq<Write>,
                                        decode: Decoder, k: nat, x: nat)
    requires Inputs(entries, banks, extra, decode) && LayOut(rom, entries, extra, decode).Ok? && k < |entries|
    requires StreamWrites(rom, entries, LayOut(rom, entries, extra, decode).value.destinations, decode)[k].Covers(x)
    ensures x < SPACE && Exposed(x)
    ensures IsLast(StreamWrites(rom, entries, LayOut(rom, entries, extra, decode).value.destinations, decode), k, x)
  {
    StreamCovers(rom, entries, banks, extra, decode, k, x);
    StreamIsExposed(x);
    forall j | k < j < |entries|
      ensures !StreamWrites(rom, entries, LayOut(rom, entries, extra, decode).value.destinations, decode)[j].Covers(x)
    {
      StreamsAreApart(rom, entries, banks, extra, decode, j, k, x);
    }
  }

  /** And no pin either, if pins stay in the data banks. */
  lemma {:induction false} StreamStandsAlone(rom: seq<byte>, entries: seq<Entry>, banks: nat, extra: seq<Write>,
                                             decode: Decoder, k: nat, x: nat)
    requires Inputs(entries, banks, extra, decode) && LayOut(rom, entries, extra, decode).Ok? && k < |entries|
    requires ExtrasInDataBanks(extra)
    requires StreamWrites(rom, entries, LayOut(rom, entries, extra, decode).value.destinations, decode)[k].Covers(x)
    ensures x < SPACE && Misses(extra, x)
  {
    StreamCovers(rom, entries, banks, extra, decode, k, x);
    ExtrasMiss(extra, x);
  }

  lemma {:induction false} StreamIsExposed(x: Address)
    requires IsDataBank(x / BANK) || x / BANK >= WINDOW_BASE
    ensures Exposed(x)
  {
  }

  /** Every stream reads back, byte for byte, from its destination. */
  lemma {:induction false} StreamIsServed(rom: seq<byte>, entries: seq<Entry>, banks: nat, extra: seq<Write>,
                                          decode: Decoder, k: nat, t: nat)
    requires Succeeds(rom, entries, banks, extra, decode) && k < |entries|
    requires t < |DataOf(rom, entries[k], decode)|
    ensures var b := BuildOf(rom, entries, banks, extra, decode).value;
            ReadsByte(b.image, banks, b.destinations[entries[k].index], DataOf(rom, entries[k], decode), t)
  {
    var b := BuildOf(rom, entries, banks, extra, decode).value;
    var x := b.destinations[entries[k].index] + t;
    StreamIsLast(rom, entries, banks, extra, decode, k, x);
    StreamStandsAlone(rom, entries, banks, extra, decode, k, x);
    SeenThrough(rom, entries, banks, extra, decode, x);
    StreamShows(b.image, banks, rom, b.tables.columns, StreamWrites(rom, entries, b.destinations, decode), extra, k, t);
  }

  lemma {:induction false} PinIsExposed(extra: seq<Write>, j: nat, x: nat)
    requires ExtrasInDataBanks(extra) && j < |extra| && extra[j].Covers(x)
    ensures x < SPACE && Exposed(x)
  {
    ExtraCovers(extra, j, x);
  }

  /** Pinned data shows at its own address unless a later pin overlaps it. */
  lemma {:induction false} ExtraIsServed(rom: seq<byte>, entries: seq<Entry>, banks: nat, extra: seq<Write>,
                                         decode: Decoder, j: nat, t: nat)
    requires Succeeds(rom, entries, banks, extra, decode) && j < |extra| && t < |extra[j].data|
    requires forall i :: j < i < |extra| ==> !extra[i].Covers(extra[j].address + t)
    ensures Exposed(extra[j].address + t)
    ensures View(BuildOf(rom, entries, banks, extra, decode).value.image, extra[j].address + t, banks)
         == extra[j].data[t]
  {
    var x := extra[j].address + t;
    var b := BuildOf(rom, entries, banks, extra, decode).value;
    PinIsExposed(extra, j, x);
    assert IsLast(extra, j, x);
    SeenThrough(rom, entries, banks, extra, decode, x);
    PinShows(b.image, banks, rom, b.tables.columns, StreamWrites(rom, entries, b.destinations, decode), extra, j, x);
  }
}
