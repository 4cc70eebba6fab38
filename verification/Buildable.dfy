/**
 * Exactly when a build returns an image, where it puts every stream, and which
 * refusal it gives otherwise; said of the inputs, without the planner's regions,
 * cursors or tables.
 */
module Buildable {
  import opened Types
  import opened Regions
  import opened Place
  import opened Plan
  import opened Image
  import opened LowestFit
  import FirstFit
  import IndexTables
  import KeyTable
  import KeyTableWrap

  // --------------------------------------------------------- what is on offer

  predicate LiesOn(pin: Write, b: nat, x: nat) {
    pin.address / 0x10000 == b && pin.address % 0x10000 <= x < pin.address % 0x10000 + |pin.data|
  }

  /** A byte of banks $40-$5F or $64-$7D on which nothing is pinned. */
  ghost predicate FreeData(extra: seq<Write>, b: nat, x: nat) {
    && (0x40 <= b <= 0x5F || 0x64 <= b <= 0x7D) && x < 0x10000
    && forall i :: 0 <= i < |extra| ==> !LiesOn(extra[i], b, x)
  }

  /** Free data, or inside 4 KB of the window that decoding consumes entirely. */
  ghost predicate OnOffer(rom: seq<byte>, entries: seq<Entry>, extra: seq<Write>, decode: Decoder, b: nat, x: nat) {
    || FreeData(extra, b, x)
    || exists lo: nat :: lo <= x < lo + 0x1000 && ConsumedWindow(rom, entries, decode, b, lo)
  }

  ghost function Offering(rom: seq<byte>, entries: seq<Entry>, extra: seq<Write>, decode: Decoder): Offer {
    (b: nat, x: nat) => OnOffer(rom, entries, extra, decode, b, x)
  }

  lemma {:induction false} PinsCover(extra: seq<Write>, b: nat, x: nat)
    ensures Covers(SpansOf(extra), b, x) <==> exists i :: 0 <= i < |extra| && LiesOn(extra[i], b, x)
  {
    if i :| 0 <= i < |extra| && SpansOf(extra)[i].Has(b, x) {
      assert LiesOn(extra[i], b, x);
    }
    if i :| 0 <= i < |extra| && LiesOn(extra[i], b, x) {
      assert SpansOf(extra)[i].Has(b, x);
    }
  }

  /** The regions the planner offers are made of exactly the bytes on offer. */
  lemma {:induction false} RegionsAreOnOffer(rom: seq<byte>, entries: seq<Entry>, extra: seq<Write>, decode: Decoder,
                                             b: nat, x: nat)
    requires OfferedRegions(rom, entries, extra, decode).Ok?
    ensures Covers(OfferedRegions(rom, entries, extra, decode).value, b, x) <==>
              OnOffer(rom, entries, extra, decode, b, x)
  {
    var data := Subtracted(DataBankRegions(), SpansOf(extra));
    CoversConcat(data, ReclaimedRegions(rom, entries, decode).value, b, x);
    SubtractIsDifference(DataBankRegions(), SpansOf(extra), b, x);
    DataBanksAreOffered(b, x);
    PinsCover(extra, b, x);
    ReclaimedIffWindow(rom, entries, decode, b, x);
  }

  lemma {:induction false} SubtractedNoneEmpty(regions: seq<Region>, taken: seq<Region>)
    ensures NoneEmpty(Subtracted(regions, taken))
  {
    if regions != [] {
      var n := |regions| - 1;
      SubtractedNoneEmpty(regions[..n], taken);
      NonEmptyCovers(Remaining(regions[n], taken), 0, 0);
    }
  }

  lemma {:induction false} RegionsOffer(rom: seq<byte>, entries: seq<Entry>, extra: seq<Write>, decode: Decoder)
    requires OfferedRegions(rom, entries, extra, decode).Ok?
    ensures NoneEmpty(OfferedRegions(rom, entries, extra, decode).value)
    ensures OfferOf(OfferedRegions(rom, entries, extra, decode).value, Offering(rom, entries, extra, decode))
  {
    forall b: nat, x: nat
      ensures Offering(rom, entries, extra, decode)(b, x) <==>
                Covers(OfferedRegions(rom, entries, extra, decode).value, b, x)
    {
      RegionsAreOnOffer(rom, entries, extra, decode, b, x);
    }
    SubtractedNoneEmpty(DataBankRegions(), SpansOf(extra));
    ReclaimedIsConsumed(rom, entries, decode, 0, 0);
  }

  /** Whatever is on offer lies in a data bank, or in the window bank of some stream. */
  lemma {:induction false} OfferStaysInBanks(rom: seq<byte>, entries: seq<Entry>, extra: seq<Write>, decode: Decoder,
                                             b: nat, x: nat)
    requires OnOffer(rom, entries, extra, decode, b, x)
    ensures b >= 0x40 && x < 0x10000
    ensures b <= 0x7D || exists k :: 0 <= k < |entries| && b == 0xC0 + entries[k].source / 0x10000
  {
    if !FreeData(extra, b, x) {
      var lo: nat :| lo <= x < lo + 0x1000 && ConsumedWindow(rom, entries, decode, b, lo);
      assert Consumed(rom, entries, decode, b, x);
      var k :| 0 <= k < |entries| && ConsumedBy(rom, entries[k], decode, b, x);
    }
  }

  // ------------------------------------------------------------ the decoding

  ghost predicate AllDecode(rom: seq<byte>, entries: seq<Entry>, decode: Decoder, n: nat)
    requires LengthsKnown(entries) && n <= |entries|
  {
    forall k :: 0 <= k < n ==> decode(rom, entries[k].source, entries[k].length.value).Some?
  }

  lemma {:induction false} ReclaimedIffDecodes(rom: seq<byte>, entries: seq<Entry>, decode: Decoder, n: nat)
    requires LengthsKnown(entries) && n <= |entries|
    ensures Reclaimed(rom, entries, decode, n).Ok? <==> AllDecode(rom, entries, decode, n)
  {
    if n != 0 {
      ReclaimedIffDecodes(rom, entries, decode, n - 1);
    }
  }

  /** The first stream that does not decode is the one refused. */
  lemma {:induction false} FirstUndecodable(rom: seq<byte>, entries: seq<Entry>, decode: Decoder, i: nat)
    requires LengthsKnown(entries) && i < |entries| && AllDecode(rom, entries, decode, i)
    requires decode(rom, entries[i].source, entries[i].length.value).None?
    ensures Reclaimed(rom, entries, decode, |entries|) == Err(Truncated(entries[i]))
  {
    ReclaimedIffDecodes(rom, entries, decode, i);
    ReclaimStops(rom, entries, decode, i, |entries|);
  }

  // ------------------------------------------------------------- the requests

  /** The last stream is placed first, then the others in order. */
  function LastFirst(n: nat, t: nat): (k: nat)
    requires t < n
    ensures k < n
  {
    if n == 1 then 0 else if t == 0 then n - 1 else t - 1
  }

  function RequestsLastFirst(entries: seq<Entry>): (r: seq<FirstFit.Request>)
    requires LengthsKnown(entries)
    ensures |r| == |entries|
  {
    seq(|entries|, t requires 0 <= t < |entries| =>
      var entry := entries[LastFirst(|entries|, t)];
      FirstFit.Request(entry.index, entry.length.value))
  }

  lemma {:induction false} PlacedLastFirst(entries: seq<Entry>)
    requires LengthsKnown(entries)
    ensures PlacingRequests(entries) == RequestsLastFirst(entries)
  {
    var n := |entries|;
    forall t | 0 <= t < n
      ensures PlacingRequests(entries)[t] == RequestsLastFirst(entries)[t]
    {
      assert PlacingOrder(entries)[t] == entries[LastFirst(n, t)];
    }
  }

  /** The spots the streams take, in the order they are placed. */
  ghost predicate Roomy(rom: seq<byte>, entries: seq<Entry>, extra: seq<Write>, decode: Decoder,
                        spots: seq<FirstFit.Spot>)
    requires LengthsKnown(entries)
  {
    Serves(RequestsLastFirst(entries), Offering(rom, entries, extra, decode), spots)
  }

  // ------------------------------------------------------------------ the keys

  function KeysFor(entries: seq<Entry>): (r: seq<KeyTable.Key>)
    ensures |r| == |entries|
  {
    seq(|entries|, k requires 0 <= k < |entries| =>
      KeyTable.Key(0xC0 + entries[k].source / 0x10000, entries[k].source % 0x10000))
  }

  /** No two scans get in each other's way, and every source lies in the 4 MB cartridge. */
  ghost predicate Indexable(entries: seq<Entry>) {
    && |entries| <= 0x10000 && KeyTableWrap.EveryKeyStays(KeysFor(entries), KeyTable.Order(KeysFor(entries)))
    && InCartridge(entries)
  }

  ghost predicate InCartridge(entries: seq<Entry>) {
    forall k :: 0 <= k < |entries| ==> entries[k].source < 0x400000
  }

  lemma {:induction false} SameKeys(entries: seq<Entry>, destinations: map<nat, nat>)
    requires forall k :: 0 <= k < |entries| ==> entries[k].index in destinations
    ensures IndexTables.KeysOf(Pairs(entries, destinations)) == KeysFor(entries)
  {
  }

  // ---------------------------------------------------------- the destinations

  /** Where a spot's address may lie if every stream comes from the cartridge. */
  lemma {:induction false} SpotIsLegal(spot: FirstFit.Spot)
    requires 0x40 <= spot.bank <= 0xFF && spot.offset <= 0x10000
    ensures 0x10000 <= spot.Address() < 0x1000000
  {
    if spot.offset < 0x10000 {
      FirstFit.AddressInBank(spot);
    } else {
      FirstFit.AddressAtBankEnd(spot);
    }
  }

  lemma {:induction false} OfferIsInMap(rom: seq<byte>, entries: seq<Entry>, extra: seq<Write>, decode: Decoder,
                                        b: nat, x: nat)
    requires OnOffer(rom, entries, extra, decode, b, x) && InCartridge(entries)
    ensures 0x40 <= b <= 0xFF && x < 0x10000
  {
    OfferStaysInBanks(rom, entries, extra, decode, b, x);
  }

  lemma {:induction false} NextIsInMap(rom: seq<byte>, entries: seq<Entry>, extra: seq<Write>, decode: Decoder,
                                       before: seq<FirstFit.Spot>, spot: FirstFit.Spot)
    requires Next(Offering(rom, entries, extra, decode), before, spot) && InCartridge(entries)
    ensures 0x40 <= spot.bank <= 0xFF && spot.offset <= 0x10000
    ensures spot.size > 0 ==> spot.offset < 0x10000
  {
    var offered := Offering(rom, entries, extra, decode);
    if spot.size > 0 {
      assert offered(spot.bank, spot.offset);
      OfferIsInMap(rom, entries, extra, decode, spot.bank, spot.offset);
    } else {
      var x: nat :| FirstOffered(offered, spot.bank, x) && TakenTo(offered, before, spot.bank, x, spot.offset);
      OfferIsInMap(rom, entries, extra, decode, spot.bank, x);
      if x < spot.offset {
        assert offered(spot.bank, spot.offset - 1);
        OfferIsInMap(rom, entries, extra, decode, spot.bank, spot.offset - 1);
      }
    }
  }

  /** Every stream's spot, by its own number rather than its turn. */
  lemma {:induction false} LastFirstOfTurn(entries: seq<Entry>, k: nat)
    requires k < |entries|
    ensures LastFirst(|entries|, Turn(entries, k)) == k
  {
  }

  /** The addresses of those spots are 24-bit, and none is in bank zero. */
  lemma {:induction false} RoomyIsLegal(rom: seq<byte>, entries: seq<Entry>, extra: seq<Write>, decode: Decoder,
                                        spots: seq<FirstFit.Spot>, t: nat)
    requires LengthsKnown(entries) && InCartridge(entries) && Roomy(rom, entries, extra, decode, spots)
    requires t < |entries|
    ensures 0x10000 <= spots[t].Address() < 0x1000000
    ensures spots[t].size > 0 ==> spots[t].Address() == spots[t].bank * 0x10000 + spots[t].offset
  {
    assert NextFor(RequestsLastFirst(entries), Offering(rom, entries, extra, decode), spots, t);
    NextIsInMap(rom, entries, extra, decode, spots[..t], spots[t]);
    SpotIsLegal(spots[t]);
    if spots[t].size > 0 {
      FirstFit.AddressInBank(spots[t]);
    }
  }

  // ----------------------------------------------------------------- the plan

  ghost predicate DistinctIndices(entries: seq<Entry>) {
    forall i, j :: 0 <= i < j < |entries| ==> entries[i].index != entries[j].index
  }

  /** The dictionary holds each stream's spot under its own number. */
  ghost predicate Addressed(entries: seq<Entry>, spots: seq<FirstFit.Spot>, destinations: map<nat, nat>) {
    && |spots| == |entries|
    && forall t: nat :: t < |entries| ==>
         var index := entries[LastFirst(|entries|, t)].index;
         index in destinations && destinations[index] == spots[t].Address()
  }

  lemma {:induction false} AddressesAddress(entries: seq<Entry>, spots: seq<FirstFit.Spot>)
    requires LengthsKnown(entries) && DistinctIndices(entries) && |spots| == |entries|
    ensures Addressed(entries, spots, FirstFit.Addresses(PlacingRequests(entries), spots))
  {
    var requests := PlacingRequests(entries);
    PlacedLastFirst(entries);
    forall i, j | 0 <= i < j < |requests|
      ensures requests[i].key != requests[j].key
    {
      assert LastFirst(|entries|, i) != LastFirst(|entries|, j);
    }
    forall t: nat | t < |entries|
      ensures requests[t].key == entries[LastFirst(|entries|, t)].index
      ensures requests[t].key in FirstFit.Addresses(requests, spots)
      ensures FirstFit.Addresses(requests, spots)[requests[t].key] == spots[t].Address()
    {
      FirstFit.AddressOf(requests, spots, t);
    }
  }

  lemma {:induction false} PairsAreLegal(rom: seq<byte>, entries: seq<Entry>, extra: seq<Write>, decode: Decoder,
                                         spots: seq<FirstFit.Spot>, destinations: map<nat, nat>)
    requires LengthsKnown(entries) && InCartridge(entries) && Roomy(rom, entries, extra, decode, spots)
    requires Addressed(entries, spots, destinations)
    requires forall k :: 0 <= k < |entries| ==> entries[k].index in destinations
    ensures forall k :: 0 <= k < |entries| ==> IndexTables.Legal(Pairs(entries, destinations)[k])
  {
    forall k | 0 <= k < |entries|
      ensures IndexTables.Legal(Pairs(entries, destinations)[k])
    {
      LastFirstOfTurn(entries, k);
      RoomyIsLegal(rom, entries, extra, decode, spots, Turn(entries, k));
    }
  }

  /** With the spots found, the tables come back exactly for indexable streams. */
  lemma {:induction false} TablesIffIndexable(rom: seq<byte>, entries: seq<Entry>, extra: seq<Write>, decode: Decoder,
                                              spots: seq<FirstFit.Spot>, destinations: map<nat, nat>)
    requires LengthsKnown(entries) && Roomy(rom, entries, extra, decode, spots)
    requires Addressed(entries, spots, destinations)
    requires forall k :: 0 <= k < |entries| ==> entries[k].index in destinations
    ensures IndexTables.TablesFor(Pairs(entries, destinations)).Ok? <==> Indexable(entries)
  {
    var pairs := Pairs(entries, destinations);
    SameKeys(entries, destinations);
    IndexTables.TablesIffLegal(pairs);
    KeyTableWrap.PlacementIffEveryKeyStays(KeysFor(entries));
    if InCartridge(entries) {
      PairsAreLegal(rom, entries, extra, decode, spots, destinations);
    } else {
      var k :| 0 <= k < |entries| && entries[k].source >= 0x400000;
      assert !IndexTables.Legal(pairs[k]);
    }
  }

  lemma {:induction false} FittingIffRoomy(rom: seq<byte>, entries: seq<Entry>, extra: seq<Write>, decode: Decoder)
    requires LengthsKnown(entries) && OfferedRegions(rom, entries, extra, decode).Ok?
    ensures var regions := OfferedRegions(rom, entries, extra, decode).value;
            var fitting := FirstFit.Fitting(PlacingRequests(entries), regions);
            && (fitting.Ok? <==> exists spots :: Roomy(rom, entries, extra, decode, spots))
            && (forall spots :: Roomy(rom, entries, extra, decode, spots) ==>
                  fitting.Ok? && fitting.value.spots == spots)
  {
    var regions := OfferedRegions(rom, entries, extra, decode).value;
    RegionsOffer(rom, entries, extra, decode);
    PlacedLastFirst(entries);
    FittingIffServed(RequestsLastFirst(entries), regions, Offering(rom, entries, extra, decode));
    if FirstFit.Fitting(PlacingRequests(entries), regions).Ok? {
      FittingServes(RequestsLastFirst(entries), regions, Offering(rom, entries, extra, decode));
      assert Roomy(rom, entries, extra, decode, FirstFit.Fitting(PlacingRequests(entries), regions).value.spots);
    }
    forall spots | Roomy(rom, entries, extra, decode, spots)
      ensures Serves(RequestsLastFirst(entries), Offering(rom, entries, extra, decode), spots)
    {
    }
  }

  // ------------------------------------------------------------------ the build

  lemma {:induction false} OfferedIffDecodes(rom: seq<byte>, entries: seq<Entry>, extra: seq<Write>, decode: Decoder)
    requires LengthsKnown(entries)
    ensures OfferedRegions(rom, entries, extra, decode).Ok? <==> AllDecode(rom, entries, decode, |entries|)
  {
    ReclaimedIffDecodes(rom, entries, decode, |entries|);
  }

  /** The plan for given spots: it stands exactly when the streams can be indexed. */
  lemma {:induction false} LayOutWithSpots(rom: seq<byte>, entries: seq<Entry>, extra: seq<Write>, decode: Decoder,
                                           spots: seq<FirstFit.Spot>)
    requires LengthsKnown(entries) && DistinctIndices(entries)
    requires AllDecode(rom, entries, decode, |entries|) && Roomy(rom, entries, extra, decode, spots)
    ensures LayOut(rom, entries, extra, decode).Ok? <==> Indexable(entries)
    ensures LayOut(rom, entries, extra, decode).Ok? ==>
              Addressed(entries, spots, LayOut(rom, entries, extra, decode).value.destinations)
  {
    OfferedIffDecodes(rom, entries, extra, decode);
    FittingIffRoomy(rom, entries, extra, decode);
    EveryIndexIsPlaced(entries, spots);
    AddressesAddress(entries, spots);
    TablesIffIndexable(rom, entries, extra, decode, spots, FirstFit.Addresses(PlacingRequests(entries), spots));
  }

  lemma {:induction false} LayOutNeedsSpots(rom: seq<byte>, entries: seq<Entry>, extra: seq<Write>, decode: Decoder)
    requires LengthsKnown(entries) && LayOut(rom, entries, extra, decode).Ok?
    ensures AllDecode(rom, entries, decode, |entries|)
    ensures exists spots :: Roomy(rom, entries, extra, decode, spots)
  {
    OfferedIffDecodes(rom, entries, extra, decode);
    FittingIffRoomy(rom, entries, extra, decode);
  }

  /**
   * A build returns an image if and only if the ROM is 4 MB, every stream decodes,
   * every stream finds room in its turn, the scans stay out of each other's way and
   * every source lies in the cartridge.
   */
  ghost predicate Buildable(rom: seq<byte>, entries: seq<Entry>, extra: seq<Write>, decode: Decoder)
    requires LengthsKnown(entries)
  {
    && |rom| == 0x400000 && AllDecode(rom, entries, decode, |entries|)
    && (exists spots :: Roomy(rom, entries, extra, decode, spots))
    && Indexable(entries)
  }

  lemma {:induction false} BuildIffBuildable(rom: seq<byte>, entries: seq<Entry>, banks: nat, extra: seq<Write>,
                                             decode: Decoder)
    requires Inputs(entries, banks, extra, decode)
    ensures BuildOf(rom, entries, banks, extra, decode).Ok? <==> Buildable(rom, entries, extra, decode)
  {
    if LayOut(rom, entries, extra, decode).Ok? {
      LayOutNeedsSpots(rom, entries, extra, decode);
    }
    if AllDecode(rom, entries, decode, |entries|) {
      if spots :| Roomy(rom, entries, extra, decode, spots) {
        LayOutWithSpots(rom, entries, extra, decode, spots);
      }
    }
  }

  /** And then each stream stands at the spot it takes in its turn, the last stream first. */
  lemma {:induction false} BuildPlacesInTurn(rom: seq<byte>, entries: seq<Entry>, banks: nat, extra: seq<Write>,
                                             decode: Decoder, spots: seq<FirstFit.Spot>)
    requires Inputs(entries, banks, extra, decode) && BuildOf(rom, entries, banks, extra, decode).Ok?
    requires Roomy(rom, entries, extra, decode, spots)
    ensures Addressed(entries, spots, BuildOf(rom, entries, banks, extra, decode).value.destinations)
  {
    LayOutNeedsSpots(rom, entries, extra, decode);
    LayOutWithSpots(rom, entries, extra, decode, spots);
  }

  // --------------------------------------------------------------- refusals

  /** A file of any other size is refused before anything else. */
  lemma {:induction false} WrongSizeIsRefused(rom: seq<byte>, entries: seq<Entry>, banks: nat, extra: seq<Write>,
                                              decode: Decoder)
    requires Inputs(entries, banks, extra, decode) && |rom| != 0x400000
    ensures BuildOf(rom, entries, banks, extra, decode) == Err(WrongSize(|rom|))
  {
  }

  /** Then the first stream that does not decode. */
  lemma {:induction false} UndecodableIsRefused(rom: seq<byte>, entries: seq<Entry>, banks: nat, extra: seq<Write>,
                                                decode: Decoder, i: nat)
    requires Inputs(entries, banks, extra, decode) && |rom| == 0x400000
    requires i < |entries| && AllDecode(rom, entries, decode, i)
    requires decode(rom, entries[i].source, entries[i].length.value).None?
    ensures BuildOf(rom, entries, banks, extra, decode) == Err(Truncated(entries[i]))
  {
    FirstUndecodable(rom, entries, decode, i);
  }

  /** Then want of room: nothing on offer at all, or the first stream in turn that fits nowhere. */
  lemma {:induction false} CrampedIsRefused(rom: seq<byte>, entries: seq<Entry>, banks: nat, extra: seq<Write>,
                                            decode: Decoder)
    returns (t: nat, before: seq<FirstFit.Spot>)
    requires Inputs(entries, banks, extra, decode) && |rom| == 0x400000
    requires AllDecode(rom, entries, decode, |entries|)
    requires !exists spots :: Roomy(rom, entries, extra, decode, spots)
    ensures (forall b: nat, x: nat :: !OnOffer(rom, entries, extra, decode, b, x)) ==>
              BuildOf(rom, entries, banks, extra, decode) == Err(NoSpace(FirstFit.NoRegions))
    ensures (exists b: nat, x: nat :: OnOffer(rom, entries, extra, decode, b, x)) ==>
              && t < |entries| && |before| == t
              && InTurn(RequestsLastFirst(entries), Offering(rom, entries, extra, decode), before)
              && var entry := entries[LastFirst(|entries|, t)];
                 && (forall w: FirstFit.Spot :: w.size == entry.length.value ==>
                       !Fits(Offering(rom, entries, extra, decode), before, w))
                 && BuildOf(rom, entries, banks, extra, decode)
                    == Err(NoSpace(FirstFit.NoRoom(entry.index, entry.length.value)))
  {
    var offered := Offering(rom, entries, extra, decode);
    OfferedIffDecodes(rom, entries, extra, decode);
    var regions := OfferedRegions(rom, entries, extra, decode).value;
    RegionsOffer(rom, entries, extra, decode);
    PlacedLastFirst(entries);
    FittingIffRoomy(rom, entries, extra, decode);
    t, before := RefusalNames(RequestsLastFirst(entries), regions, offered);
    if b: nat, x: nat :| OnOffer(rom, entries, extra, decode, b, x) {
      assert offered(b, x);
    }
  }

  /** Last, streams that cannot be indexed: too many, ambiguous, or from outside the cartridge. */
  lemma {:induction false} UnindexableIsRefused(rom: seq<byte>, entries: seq<Entry>, banks: nat, extra: seq<Write>,
                                                decode: Decoder, spots: seq<FirstFit.Spot>)
    requires Inputs(entries, banks, extra, decode) && |rom| == 0x400000
    requires AllDecode(rom, entries, decode, |entries|) && Roomy(rom, entries, extra, decode, spots)
    requires !Indexable(entries)
    ensures BuildOf(rom, entries, banks, extra, decode)
         == Err(NoIndex(if |entries| > 0x10000 then KeyTable.TooManyKeys
                        else if !KeyTableWrap.EveryKeyStays(KeysFor(entries), KeyTable.Order(KeysFor(entries)))
                        then KeyTable.Ambiguous else KeyTable.NotAByte))
  {
    var destinations := FirstFit.Addresses(PlacingRequests(entries), spots);
    OfferedIffDecodes(rom, entries, extra, decode);
    FittingIffRoomy(rom, entries, extra, decode);
    EveryIndexIsPlaced(entries, spots);
    AddressesAddress(entries, spots);
    TablesRefuse(rom, entries, extra, decode, spots, destinations);
  }

  lemma {:induction false} TablesRefuse(rom: seq<byte>, entries: seq<Entry>, extra: seq<Write>, decode: Decoder,
                                        spots: seq<FirstFit.Spot>, destinations: map<nat, nat>)
    requires LengthsKnown(entries) && Roomy(rom, entries, extra, decode, spots)
    requires Addressed(entries, spots, destinations) && !Indexable(entries)
    requires forall k :: 0 <= k < |entries| ==> entries[k].index in destinations
    ensures IndexTables.TablesFor(Pairs(entries, destinations))
         == Err(if |entries| > 0x10000 then KeyTable.TooManyKeys
                else if !KeyTableWrap.EveryKeyStays(KeysFor(entries), KeyTable.Order(KeysFor(entries)))
                then KeyTable.Ambiguous else KeyTable.NotAByte)
  {
    var pairs := Pairs(entries, destinations);
    SameKeys(entries, destinations);
    KeyTableWrap.PlacementIffEveryKeyStays(KeysFor(entries));
    if KeyTable.Placement(KeysFor(entries)).Err? {
      IndexTables.UnplacedKeysAreRefused(pairs);
    } else {
      var k :| 0 <= k < |entries| && entries[k].source >= 0x400000;
      var i := FirstIllegal(pairs, k);
      DestinationsAreHigh(rom, entries, extra, decode, spots, destinations, i);
      IndexTables.FirstIllegalPairIsRefused(pairs, i);
    }
  }

  lemma {:induction false} FirstIllegal(pairs: seq<IndexTables.Pair>, k: nat) returns (i: nat)
    requires k < |pairs| && !IndexTables.Legal(pairs[k])
    ensures i < |pairs| && !IndexTables.Legal(pairs[i]) && forall j :: 0 <= j < i ==> IndexTables.Legal(pairs[j])
    decreases k
  {
    if j :| 0 <= j < k && !IndexTables.Legal(pairs[j]) {
      i := FirstIllegal(pairs, j);
    } else {
      i := k;
    }
  }

  /** No stream is ever put in bank zero, wherever it comes from. */
  lemma {:induction false} DestinationsAreHigh(rom: seq<byte>, entries: seq<Entry>, extra: seq<Write>,
                                               decode: Decoder, spots: seq<FirstFit.Spot>,
                                               destinations: map<nat, nat>, k: nat)
    requires LengthsKnown(entries) && Roomy(rom, entries, extra, decode, spots) && k < |entries|
    requires Addressed(entries, spots, destinations)
    ensures entries[k].index in destinations && destinations[entries[k].index] >= 0x10000
  {
    var t := Turn(entries, k);
    var offered := Offering(rom, entries, extra, decode);
    LastFirstOfTurn(entries, k);
    assert NextFor(RequestsLastFirst(entries), offered, spots, t);
    if spots[t].size > 0 {
      assert offered(spots[t].bank, spots[t].offset);
      OfferStaysInBanks(rom, entries, extra, decode, spots[t].bank, spots[t].offset);
    } else {
      var bank, offset := spots[t].bank, spots[t].offset;
      var x: nat :| FirstOffered(offered, bank, x) && TakenTo(offered, spots[..t], bank, x, offset);
      OfferStaysInBanks(rom, entries, extra, decode, spots[t].bank, x);
      if x < spots[t].offset {
        assert offered(spots[t].bank, spots[t].offset - 1);
        OfferStaysInBanks(rom, entries, extra, decode, spots[t].bank, spots[t].offset - 1);
      }
    }
    SpotIsHigh(spots[t]);
  }

  lemma {:induction false} SpotIsHigh(spot: FirstFit.Spot)
    requires spot.bank >= 0x40 && spot.offset <= 0x10000
    ensures spot.Address() >= 0x10000
  {
    if spot.offset < 0x10000 {
      FirstFit.AddressInBank(spot);
    } else {
      FirstFit.AddressAtBankEnd(spot);
    }
  }
}
