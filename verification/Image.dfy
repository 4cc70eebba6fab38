/** Assembling the image, and what a reader of the finished cartridge sees. */
module Image {
  import opened Types
  import opened AddressMap
  import opened Regions
  import opened Place
  import opened Plan
  import FirstFit
  import IndexTables

  const LOROM_BANKS := 0x40

  datatype Built = Built(
    image: seq<byte>, destinations: map<nat, nat>, tables: IndexTables.Tables, regions: seq<Region>)

  // ----------------------------------------------------------------- planning

  /** The last entry is placed first. */
  function PlacingOrder(entries: seq<Entry>): seq<Entry> {
    if |entries| > 1 then [entries[|entries| - 1]] + entries[..|entries| - 1] else entries
  }

  predicate LengthsKnown(entries: seq<Entry>) {
    forall i :: 0 <= i < |entries| ==> entries[i].length.Some?
  }

  function Requests(entries: seq<Entry>): (r: seq<FirstFit.Request>)
    requires LengthsKnown(entries)
    ensures |r| == |entries|
  {
    seq(|entries|, i requires 0 <= i < |entries| =>
      FirstFit.Request(entries[i].index, entries[i].length.value))
  }

  function OfferedRegions(rom: seq<byte>, entries: seq<Entry>, extra: seq<Write>, decode: Decoder)
    : Result<seq<Region>, BuildError>
  {
    match ReclaimedRegions(rom, entries, decode)
    case Err(e) => Err(e)
    case Ok(reclaimed) => Ok(Subtracted(DataBankRegions(), SpansOf(extra)) + reclaimed)
  }

  function PlacingRequests(entries: seq<Entry>): (r: seq<FirstFit.Request>)
    requires LengthsKnown(entries)
    ensures |r| == |entries|
  {
    Requests(PlacingOrder(entries))
  }

  function Pairs(entries: seq<Entry>, destinations: map<nat, nat>): (r: seq<IndexTables.Pair>)
    requires forall i :: 0 <= i < |entries| ==> entries[i].index in destinations
    ensures |r| == |entries|
  {
    seq(|entries|, i requires 0 <= i < |entries| =>
      IndexTables.Pair(entries[i].source, destinations[entries[i].index]))
  }

  datatype Layout = Layout(
    fitted: FirstFit.Fitted, destinations: map<nat, nat>, tables: IndexTables.Tables, regions: seq<Region>)

  lemma {:induction false} EveryKeyIsPlaced(requests: seq<FirstFit.Request>, spots: seq<FirstFit.Spot>)
    requires |spots| <= |requests|
    ensures forall k :: 0 <= k < |spots| ==> requests[k].key in FirstFit.Addresses(requests, spots)
  {
    if spots != [] {
      EveryKeyIsPlaced(requests, spots[..|spots| - 1]);
    }
  }

  lemma {:induction false} EveryIndexIsPlaced(entries: seq<Entry>, spots: seq<FirstFit.Spot>)
    requires LengthsKnown(entries) && |spots| == |entries|
    ensures forall i :: 0 <= i < |entries| ==>
              entries[i].index in FirstFit.Addresses(PlacingRequests(entries), spots)
  {
    EveryKeyIsPlaced(PlacingRequests(entries), spots);
    forall i | 0 <= i < |entries|
      ensures entries[i].index in FirstFit.Addresses(PlacingRequests(entries), spots)
    {
      assert PlacingRequests(entries)[Turn(entries, i)].key == entries[i].index;
    }
  }

  /** The position at which entry `i` is placed. */
  function Turn(entries: seq<Entry>, i: nat): (t: nat)
    requires i < |entries|
    ensures t < |entries| && PlacingOrder(entries)[t] == entries[i]
  {
    if |entries| <= 1 then i else if i == |entries| - 1 then 0 else i + 1
  }

  /** Everything decided before the first byte is written. */
  ghost function LayOut(rom: seq<byte>, entries: seq<Entry>, extra: seq<Write>, decode: Decoder)
    : (r: Result<Layout, BuildError>)
    requires LengthsKnown(entries)
    ensures r.Ok? ==> forall i :: 0 <= i < |entries| ==> entries[i].index in r.value.destinations
  {
    match OfferedRegions(rom, entries, extra, decode)
    case Err(e) => Err(e)
    case Ok(regions) =>
      match FirstFit.Fitting(PlacingRequests(entries), regions)
      case Err(e) => Err(NoSpace(e))
      case Ok(fitted) =>
        EveryIndexIsPlaced(entries, fitted.spots);
        var destinations := FirstFit.Addresses(PlacingRequests(entries), fitted.spots);
        match IndexTables.TablesFor(Pairs(entries, destinations))
        case Err(e) => Err(NoIndex(e))
        case Ok(tables) => Ok(Layout(fitted, destinations, tables, regions))
  }

  // ------------------------------------------------------------------ writing

  /** Bank `i / 2` of the LoROM view, at its own bank or at its mirror. */
  function LoRomWrites(rom: seq<byte>): (r: seq<Write>)
    requires |rom| == ORIGINAL_SIZE
    ensures |r| == 2 * LOROM_BANKS
  {
    seq(2 * LOROM_BANKS, i requires 0 <= i < 2 * LOROM_BANKS =>
      Write((i % 2 * LOROM_MIRROR_BASE + i / 2) * BANK + HALF, rom[i / 2 * HALF..i / 2 * HALF + HALF]))
  }

  function WindowWrites(rom: seq<byte>): (r: seq<Write>)
    requires |rom| == ORIGINAL_SIZE
    ensures |r| == ORIGINAL_SIZE / BANK
  {
    seq(ORIGINAL_SIZE / BANK, n requires 0 <= n < ORIGINAL_SIZE / BANK =>
      Write((WINDOW_BASE + n) * BANK, rom[n * BANK..(n + 1) * BANK]))
  }

  function TableWrites(c: IndexTables.Columns): seq<Write> {
    [Write(0x60 * BANK, c.key), Write(0x61 * BANK, c.low), Write(0x62 * BANK, c.high), Write(0x63 * BANK, c.bank)]
  }

  function DataOf(rom: seq<byte>, entry: Entry, decode: Decoder): seq<byte>
    requires entry.length.Some?
  {
    match decode(rom, entry.source, entry.length.value)
    case None => []
    case Some(decoded) => decoded.data
  }

  function StreamWrites(rom: seq<byte>, entries: seq<Entry>, destinations: map<nat, nat>, decode: Decoder)
    : (r: seq<Write>)
    requires LengthsKnown(entries)
    requires forall i :: 0 <= i < |entries| ==> entries[i].index in destinations
    ensures |r| == |entries|
  {
    seq(|entries|, i requires 0 <= i < |entries| =>
      Write(destinations[entries[i].index], DataOf(rom, entries[i], decode)))
  }

  /** Every write of the build but the pinned data. */
  function OwnWrites(rom: seq<byte>, entries: seq<Entry>, decode: Decoder, columns: IndexTables.Columns,
                     destinations: map<nat, nat>): seq<Write>
    requires |rom| == ORIGINAL_SIZE && LengthsKnown(entries)
    requires forall i :: 0 <= i < |entries| ==> entries[i].index in destinations
  {
    LoRomWrites(rom) + WindowWrites(rom) + TableWrites(columns) + StreamWrites(rom, entries, destinations, decode)
  }

  /** Every write of the build, in the order the build makes them. */
  function Writes(rom: seq<byte>, entries: seq<Entry>, extra: seq<Write>, decode: Decoder,
                  tables: IndexTables.Tables, destinations: map<nat, nat>): seq<Write>
    requires |rom| == ORIGINAL_SIZE && LengthsKnown(entries)
    requires forall i :: 0 <= i < |entries| ==> entries[i].index in destinations
  {
    OwnWrites(rom, entries, decode, tables.columns, destinations) + extra
  }

  /** A decoder that returns as many bytes as it was asked for. */
  ghost predicate ExactLengths(decode: Decoder) {
    forall rom, source, n :: decode(rom, source, n).Some? ==> |decode(rom, source, n).value.data| == n
  }

  // --------------------------------------------- where streams may be written

  /** A stream's spot: its bank is a data bank or a window bank, and it stays in it. */
  lemma {:induction false} SpotIsOffered(rom: seq<byte>, entries: seq<Entry>, extra: seq<Write>, decode: Decoder,
                                         t: nat, b: nat, x: nat)
    requires LengthsKnown(entries) && LayOut(rom, entries, extra, decode).Ok? && t < |entries|
    requires LayOut(rom, entries, extra, decode).value.fitted.spots[t].Has(b, x)
    ensures x < BANK
    ensures (IsDataBank(b) && !Covers(SpansOf(extra), b, x)) ||
            (b >= WINDOW_BASE && Covers(ReclaimedRegions(rom, entries, decode).value, b, x))
  {
    var layout := LayOut(rom, entries, extra, decode).value;
    var data, reclaimed := Subtracted(DataBankRegions(), SpansOf(extra)),
                           ReclaimedRegions(rom, entries, decode).value;
    FirstFit.PlacementsAreDisjointAndOffered(PlacingRequests(entries), layout.regions);
    CoversConcat(data, reclaimed, b, x);
    SubtractIsDifference(DataBankRegions(), SpansOf(extra), b, x);
    DataBanksAreOffered(b, x);
    ReclaimedIsConsumed(rom, entries, decode, b, x);
  }

  lemma {:induction false} DestinationIsSpot(rom: seq<byte>, entries: seq<Entry>, extra: seq<Write>,
                                             decode: Decoder, k: nat)
    requires LengthsKnown(entries) && LayOut(rom, entries, extra, decode).Ok? && k < |entries|
    requires forall i, j :: 0 <= i < j < |entries| ==> entries[i].index != entries[j].index
    ensures var layout := LayOut(rom, entries, extra, decode).value;
            && layout.destinations[entries[k].index] == layout.fitted.spots[Turn(entries, k)].Address()
            && layout.fitted.spots[Turn(entries, k)].size == entries[k].length.value
  {
    var layout := LayOut(rom, entries, extra, decode).value;
    var requests := PlacingRequests(entries);
    forall i, j | 0 <= i < j < |requests|
      ensures requests[i].key != requests[j].key
    {
      assert PlacingOrder(entries)[i].index == requests[i].key;
      assert PlacingOrder(entries)[j].index == requests[j].key;
    }
    FirstFit.AddressOf(requests, layout.fitted.spots, Turn(entries, k));
    SpotSizes(requests, FirstFit.FreeList(layout.regions), |requests|, Turn(entries, k));
  }

  lemma {:induction false} SpotSizes(requests: seq<FirstFit.Request>, free: seq<Region>, n: nat, k: nat)
    requires k < n <= |requests| && FirstFit.Fit(requests, free, n).Ok?
    ensures FirstFit.Fit(requests, free, n).value.spots[k].size == requests[k].size
  {
    if k < n - 1 {
      SpotSizes(requests, free, n - 1, k);
    }
  }

  // ------------------------------------------------------------------- build

  /** What the build asks of its inputs: a whole file, numbered entries, 24-bit extras. */
  ghost predicate Inputs(entries: seq<Entry>, banks: nat, extra: seq<Write>, decode: Decoder) {
    && banks >= 0xC0
    && LengthsKnown(entries)
    && (forall i, j :: 0 <= i < j < |entries| ==> entries[i].index != entries[j].index)
    && AllFit(extra)
    && ExactLengths(decode)
  }

  lemma {:induction false} DestinationsAreBytes(rom: seq<byte>, entries: seq<Entry>, extra: seq<Write>,
                                                decode: Decoder, k: nat)
    requires LengthsKnown(entries) && LayOut(rom, entries, extra, decode).Ok? && k < |entries|
    ensures BANK <= LayOut(rom, entries, extra, decode).value.destinations[entries[k].index] < SPACE
    ensures entries[k].source < ORIGINAL_SIZE
  {
    var layout := LayOut(rom, entries, extra, decode).value;
    var pairs := Pairs(entries, layout.destinations);
    IndexTables.FilledAllows(pairs, layout.tables.slots, |pairs|);
    assert IndexTables.PairError(pairs[k]).None?;
  }

  lemma {:induction false} StreamSpot(rom: seq<byte>, entries: seq<Entry>, banks: nat, extra: seq<Write>,
                                      decode: Decoder, k: nat) returns (spot: FirstFit.Spot)
    requires Inputs(entries, banks, extra, decode) && k < |entries|
    requires LayOut(rom, entries, extra, decode).Ok?
    ensures var layout := LayOut(rom, entries, extra, decode).value;
            && spot == layout.fitted.spots[Turn(entries, k)]
            && spot.Address() == layout.destinations[entries[k].index]
            && spot.Address() < SPACE
            && spot.size == entries[k].length.value
            && (spot.size > 0 ==> spot.offset + spot.size <= BANK)
  {
    spot := LayOut(rom, entries, extra, decode).value.fitted.spots[Turn(entries, k)];
    DestinationsAreBytes(rom, entries, extra, decode, k);
    DestinationIsSpot(rom, entries, extra, decode, k);
    if spot.size > 0 {
      SpotIsOffered(rom, entries, extra, decode, Turn(entries, k), spot.bank, spot.offset + spot.size - 1);
    }
  }

  lemma {:induction false} InOneBank(spot: FirstFit.Spot, w: Write)
    requires w.address == spot.Address() < SPACE && |w.data| <= spot.size
    requires spot.size > 0 ==> spot.offset + spot.size <= BANK
    ensures w.Fits()
    ensures forall x: nat :: w.Covers(x) ==> x < SPACE && spot.Has(x / BANK, x % BANK)
  {
    if spot.size > 0 {
      FirstFit.AddressInBank(spot);
      InBank(spot.bank, spot.offset, spot.size, w);
    }
  }

  lemma {:induction false} InBank(bank: nat, offset: nat, size: nat, w: Write)
    requires w.address == bank * BANK + offset < SPACE && |w.data| <= size && offset + size <= BANK
    ensures w.Fits()
    ensures forall x: nat :: w.Covers(x) ==> x < SPACE && x / BANK == bank && offset <= x % BANK < offset + size
  {
  }

  lemma {:induction false} StreamWriteFits(rom: seq<byte>, entries: seq<Entry>, banks: nat, extra: seq<Write>,
                                           decode: Decoder, k: nat)
    requires Inputs(entries, banks, extra, decode) && k < |entries|
    requires LayOut(rom, entries, extra, decode).Ok?
    ensures var layout := LayOut(rom, entries, extra, decode).value;
            var w := StreamWrites(rom, entries, layout.destinations, decode)[k];
            var spot := layout.fitted.spots[Turn(entries, k)];
            && w.Fits()
            && (forall x: nat :: w.Covers(x) ==> x < SPACE && spot.Has(x / BANK, x % BANK))
  {
    var spot := StreamSpot(rom, entries, banks, extra, decode, k);
    var destinations := LayOut(rom, entries, extra, decode).value.destinations;
    InOneBank(spot, StreamWrites(rom, entries, destinations, decode)[k]);
  }

  lemma {:induction false} StreamsFit(rom: seq<byte>, entries: seq<Entry>, banks: nat, extra: seq<Write>,
                                      decode: Decoder)
    requires Inputs(entries, banks, extra, decode) && LayOut(rom, entries, extra, decode).Ok?
    ensures AllFit(StreamWrites(rom, entries, LayOut(rom, entries, extra, decode).value.destinations, decode))
  {
    var streams := StreamWrites(rom, entries, LayOut(rom, entries, extra, decode).value.destinations, decode);
    forall k | 0 <= k < |streams|
      ensures streams[k].Fits()
    {
      StreamWriteFits(rom, entries, banks, extra, decode, k);
    }
  }

  lemma {:induction false} FixedWritesFit(rom: seq<byte>, c: IndexTables.Columns)
    requires |rom| == ORIGINAL_SIZE && c.Valid()
    ensures AllFit(LoRomWrites(rom)) && AllFit(WindowWrites(rom)) && AllFit(TableWrites(c))
  {
  }

  lemma {:induction false} BothFit(a: seq<Write>, b: seq<Write>)
    requires AllFit(a) && AllFit(b)
    ensures AllFit(a + b)
  {
  }

  lemma {:induction false} WritesFit(rom: seq<byte>, entries: seq<Entry>, banks: nat, extra: seq<Write>,
                                     decode: Decoder)
    requires |rom| == ORIGINAL_SIZE && Inputs(entries, banks, extra, decode)
    requires LayOut(rom, entries, extra, decode).Ok?
    ensures var layout := LayOut(rom, entries, extra, decode).value;
            AllFit(Writes(rom, entries, extra, decode, layout.tables, layout.destinations))
  {
    var layout := LayOut(rom, entries, extra, decode).value;
    assert layout.tables.columns.Valid();
    var (a, b, c, d) := (LoRomWrites(rom), WindowWrites(rom), TableWrites(layout.tables.columns),
                         StreamWrites(rom, entries, layout.destinations, decode));
    FixedWritesFit(rom, layout.tables.columns);
    StreamsFit(rom, entries, banks, extra, decode);
    BothFit(a, b);
    BothFit(a + b, c);
    BothFit(a + b + c, d);
    BothFit(a + b + c + d, extra);
  }

  /** The finished build: the layout, and every write applied to a blank file. */
  ghost function BuildOf(rom: seq<byte>, entries: seq<Entry>, banks: nat, extra: seq<Write>, decode: Decoder)
    : (r: Result<Built, BuildError>)
    requires Inputs(entries, banks, extra, decode)
    ensures r.Ok? ==> ImageOf(r.value.image, banks)
  {
    if |rom| != ORIGINAL_SIZE then Err(WrongSize(|rom|))
    else
      match LayOut(rom, entries, extra, decode)
      case Err(e) => Err(e)
      case Ok(layout) =>
        WritesFit(rom, entries, banks, extra, decode);
        var writes := Writes(rom, entries, extra, decode, layout.tables, layout.destinations);
        Ok(Built(Applied(Zeros(banks * BANK), writes, banks),
                 layout.destinations, layout.tables, layout.regions))
  }
}
