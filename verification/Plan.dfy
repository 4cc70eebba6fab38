/** Deciding where everything goes: free regions, destinations, lookup tables. */
module Plan {
  import opened Types
  import opened AddressMap
  import opened Regions
  import opened Place
  import FirstFit
  import KeyTable

  const DATA_BANK_FIRST := 0x40
  const DATA_BANK_LAST := 0x7D
  const TABLE_BANK := 0x60
  const TABLE_COUNT := 4
  const ORIGINAL_SIZE := 0x400000
  const MIN_REGION := 0x1000
  const READ_AHEAD := 1

  /** One compressed stream: its number, its source in the cartridge, its decoded length. */
  datatype Entry = Entry(index: nat, source: nat, length: Option<nat>)

  /** What decoding yields: the bytes, and one past the last cartridge byte read. */
  datatype Decoded = Decoded(data: seq<byte>, end: nat)

  type Decoder = (seq<byte>, nat, nat) -> Option<Decoded>

  datatype BuildError =
    | WrongSize(size: nat)
    | Truncated(entry: Entry)
    | NoSpace(allocation: FirstFit.AllocationError)
    | NoIndex(placement: KeyTable.PlacementError)

  // ------------------------------------------------------------ data banks

  predicate IsDataBank(bank: int) {
    DATA_BANK_FIRST <= bank <= DATA_BANK_LAST && !(TABLE_BANK <= bank < TABLE_BANK + TABLE_COUNT)
  }

  /** Banks $40-$5F and $64-$7D, each offered whole. */
  function DataBankRegions(): seq<Region> {
    seq(58, i requires 0 <= i < 58 => Region(if i < 0x20 then 0x40 + i else 0x44 + i, 0, BANK))
  }

  lemma {:induction false} DataBanksAreOffered(b: nat, x: nat)
    ensures Covers(DataBankRegions(), b, x) <==> IsDataBank(b) && x < BANK
  {
    if IsDataBank(b) && x < BANK {
      var i := if b < 0x60 then b - 0x40 else b - 0x44;
      assert DataBankRegions()[i].Has(b, x);
    }
  }

  function SpanOf(w: Write): Region {
    Region(w.address / BANK, w.address % BANK, w.address % BANK + |w.data|)
  }

  function SpansOf(extra: seq<Write>): seq<Region> {
    seq(|extra|, i requires 0 <= i < |extra| => SpanOf(extra[i]))
  }

  // ----------------------------------------------------- reclaimed cartridge

  /** The run of its own window bank an entry stops needing, if it is not empty. */
  function SpanReclaimed(entry: Entry, decoded: Decoded): Option<Region> {
    var consumed := decoded.end - READ_AHEAD;
    var bankEnd := (entry.source / BANK + 1) * BANK;
    var end := if consumed < bankEnd then consumed else bankEnd;
    if end <= entry.source then None
    else Some(Region(WINDOW_BASE + entry.source / BANK, entry.source % BANK,
                     end - entry.source / BANK * BANK))
  }

  /** The spans of the first `n` entries; entries of unknown length reclaim nothing. */
  function Reclaimed(rom: seq<byte>, entries: seq<Entry>, decode: Decoder, n: nat): Result<seq<Region>, BuildError>
    requires n <= |entries|
  {
    if n == 0 then Ok([])
    else
      match Reclaimed(rom, entries, decode, n - 1)
      case Err(e) => Err(e)
      case Ok(spans) =>
        var entry := entries[n - 1];
        if entry.length.None? then Ok(spans)
        else
          match decode(rom, entry.source, entry.length.value)
          case None => Err(Truncated(entry))
          case Some(decoded) =>
            match SpanReclaimed(entry, decoded)
            case None => Ok(spans)
            case Some(span) => Ok(spans + [span])
  }

  function LargeEnough(regions: seq<Region>): seq<Region> {
    if regions == [] then []
    else
      var n := |regions| - 1;
      LargeEnough(regions[..n]) +
      (if regions[n].end >= regions[n].start + MIN_REGION then [regions[n]] else [])
  }

  function ReclaimedRegions(rom: seq<byte>, entries: seq<Entry>, decode: Decoder): Result<seq<Region>, BuildError> {
    match Reclaimed(rom, entries, decode, |entries|)
    case Err(e) => Err(e)
    case Ok(spans) => Ok(LargeEnough(Merged(spans)))
  }

  method Reclaim(rom: seq<byte>, entries: seq<Entry>, decode: Decoder) returns (r: Result<seq<Region>, BuildError>)
    ensures r == ReclaimedRegions(rom, entries, decode)
  {
    var spans: seq<Region> := [];
    for n := 0 to |entries|
      invariant Reclaimed(rom, entries, decode, n) == Ok(spans)
    {
      var entry := entries[n];
      if entry.length.None? {
        continue;
      }
      var decoded := decode(rom, entry.source, entry.length.value);
      if decoded.None? {
        ReclaimStops(rom, entries, decode, n, |entries|);
        return Err(Truncated(entry));
      }
      var consumed := decoded.value.end - READ_AHEAD;
      var bankEnd := (entry.source / BANK + 1) * BANK;
      var end := if consumed < bankEnd then consumed else bankEnd;
      if end <= entry.source {
        continue;
      }
      spans := spans + [Region(WINDOW_BASE + entry.source / BANK, entry.source % BANK,
                               end - entry.source / BANK * BANK)];
    }
    var merged := Merge(spans);
    r := Ok(LargeEnough(merged));
  }

  lemma {:induction false} ReclaimStops(rom: seq<byte>, entries: seq<Entry>, decode: Decoder, i: nat, n: nat)
    requires i < n <= |entries|
    requires Reclaimed(rom, entries, decode, i + 1).Err?
    ensures Reclaimed(rom, entries, decode, n) == Reclaimed(rom, entries, decode, i + 1)
  {
    if n > i + 1 {
      ReclaimStops(rom, entries, decode, i, n - 1);
    }
  }

  /** Some stream's decoding read this window byte before its last look ahead. */
  ghost predicate ConsumedBy(rom: seq<byte>, entry: Entry, decode: Decoder, b: nat, x: nat) {
    && entry.length.Some?
    && decode(rom, entry.source, entry.length.value).Some?
    && b == WINDOW_BASE + entry.source / BANK
    && entry.source % BANK <= x < BANK
    && entry.source / BANK * BANK + x + READ_AHEAD < decode(rom, entry.source, entry.length.value).value.end
  }

  ghost predicate Consumed(rom: seq<byte>, entries: seq<Entry>, decode: Decoder, b: nat, x: nat) {
    exists k :: 0 <= k < |entries| && ConsumedBy(rom, entries[k], decode, b, x)
  }

  lemma {:induction false} SpansAreConsumed(rom: seq<byte>, entries: seq<Entry>, decode: Decoder, n: nat)
    requires n <= |entries| && Reclaimed(rom, entries, decode, n).Ok?
    ensures EndsWithin(Reclaimed(rom, entries, decode, n).value, BANK)
    ensures forall b, x :: Covers(Reclaimed(rom, entries, decode, n).value, b, x) <==>
              exists k :: 0 <= k < n && ConsumedBy(rom, entries[k], decode, b, x)
  {
    if n != 0 {
      SpansAreConsumed(rom, entries, decode, n - 1);
      var was := Reclaimed(rom, entries, decode, n - 1).value;
      var spans := Reclaimed(rom, entries, decode, n).value;
      var entry := entries[n - 1];
      forall b, x
        ensures Covers(spans, b, x) <==> Covers(was, b, x) || ConsumedBy(rom, entry, decode, b, x)
      {
        if |spans| > |was| {
          assert spans == was + [spans[|was|]];
          CoversConcat(was, [spans[|was|]], b, x);
          assert [spans[|was|]][0] == spans[|was|];
        }
      }
      forall b, x
        ensures Covers(spans, b, x) <==> exists k :: 0 <= k < n && ConsumedBy(rom, entries[k], decode, b, x)
      {
        if ConsumedBy(rom, entry, decode, b, x) {
          assert ConsumedBy(rom, entries[n - 1], decode, b, x);
        }
      }
    }
  }

  lemma {:induction false} LargeEnoughIsExact(regions: seq<Region>)
    ensures forall r :: r in LargeEnough(regions) <==> r in regions && r.end >= r.start + MIN_REGION
  {
    if regions != [] {
      var n := |regions| - 1;
      LargeEnoughIsExact(regions[..n]);
      assert regions == regions[..n] + [regions[n]];
    }
  }

  /** Reclaimed regions stay in their bank and cover only bytes some stream consumed. */
  lemma {:induction false} ReclaimedIsConsumed(rom: seq<byte>, entries: seq<Entry>, decode: Decoder, b: nat, x: nat)
    requires ReclaimedRegions(rom, entries, decode).Ok?
    ensures EndsWithin(ReclaimedRegions(rom, entries, decode).value, BANK)
    ensures forall i :: 0 <= i < |ReclaimedRegions(rom, entries, decode).value| ==>
              var r := ReclaimedRegions(rom, entries, decode).value[i];
              r.end >= r.start + MIN_REGION
    ensures Covers(ReclaimedRegions(rom, entries, decode).value, b, x) ==> Consumed(rom, entries, decode, b, x)
  {
    var spans := Reclaimed(rom, entries, decode, |entries|).value;
    var regions := ReclaimedRegions(rom, entries, decode).value;
    SpansAreConsumed(rom, entries, decode, |entries|);
    LargeEnoughIsExact(Merged(spans));
    MergedEndsWithin(spans);
    forall i | 0 <= i < |regions|
      ensures regions[i] in Merged(spans) && regions[i].end >= regions[i].start + MIN_REGION
    {
      assert regions[i] in regions;
    }
    if i :| 0 <= i < |regions| && regions[i].Has(b, x) {
      MergeIsUnion(spans, b, x);
      assert regions[i] in Merged(spans);
      assert Covers(Merged(spans), b, x);
    }
  }

  lemma {:induction false} MergedEndsWithin(spans: seq<Region>)
    requires EndsWithin(spans, BANK)
    ensures EndsWithin(Merged(spans), BANK)
  {
    var sorted := SortedRegions(spans);
    forall i | 0 <= i < |sorted|
      ensures sorted[i].end <= BANK
    {
      assert sorted[i] in spans;
    }
    MergeKeepsEnds(sorted, BANK);
  }

  /** The 4 KB from `lo` on, every byte of them consumed by some stream. */
  ghost predicate ConsumedWindow(rom: seq<byte>, entries: seq<Entry>, decode: Decoder, b: nat, lo: nat) {
    forall y :: lo <= y < lo + MIN_REGION ==> Consumed(rom, entries, decode, b, y)
  }

  lemma {:induction false} SpansCoverConsumed(rom: seq<byte>, entries: seq<Entry>, decode: Decoder, b: nat, y: nat)
    requires Reclaimed(rom, entries, decode, |entries|).Ok?
    ensures Separated(Merged(Reclaimed(rom, entries, decode, |entries|).value))
    ensures Covers(Merged(Reclaimed(rom, entries, decode, |entries|).value), b, y) <==>
              Consumed(rom, entries, decode, b, y)
  {
    SpansAreConsumed(rom, entries, decode, |entries|);
    MergeIsUnion(Reclaimed(rom, entries, decode, |entries|).value, b, y);
  }

  lemma {:induction false} KeptIsWindow(rom: seq<byte>, entries: seq<Entry>, decode: Decoder, b: nat, x: nat, r: Region)
    returns (lo: nat)
    requires Reclaimed(rom, entries, decode, |entries|).Ok?
    requires r in Merged(Reclaimed(rom, entries, decode, |entries|).value)
    requires r.Has(b, x) && r.end >= r.start + MIN_REGION
    ensures lo <= x < lo + MIN_REGION && ConsumedWindow(rom, entries, decode, b, lo)
  {
    var merged := Merged(Reclaimed(rom, entries, decode, |entries|).value);
    var i :| 0 <= i < |merged| && merged[i] == r;
    lo := if x + MIN_REGION <= r.end then x else r.end - MIN_REGION;
    forall y | lo <= y < lo + MIN_REGION
      ensures Consumed(rom, entries, decode, b, y)
    {
      assert merged[i].Has(b, y);
      SpansCoverConsumed(rom, entries, decode, b, y);
    }
  }

  lemma {:induction false} WindowIsKept(rom: seq<byte>, entries: seq<Entry>, decode: Decoder, b: nat, x: nat, lo: nat)
    returns (r: Region)
    requires Reclaimed(rom, entries, decode, |entries|).Ok?
    requires lo <= x < lo + MIN_REGION && ConsumedWindow(rom, entries, decode, b, lo)
    ensures r in Merged(Reclaimed(rom, entries, decode, |entries|).value)
    ensures r.Has(b, x) && r.end >= r.start + MIN_REGION
  {
    var merged := Merged(Reclaimed(rom, entries, decode, |entries|).value);
    forall y | lo <= y < lo + MIN_REGION
      ensures Covers(merged, b, y)
    {
      assert Consumed(rom, entries, decode, b, y);
      SpansCoverConsumed(rom, entries, decode, b, y);
    }
    assert Covers(merged, b, lo);
    var i :| 0 <= i < |merged| && merged[i].Has(b, lo);
    SpansCoverConsumed(rom, entries, decode, b, lo);
    OneRegion(merged, b, lo, lo + MIN_REGION, i);
    r := merged[i];
  }

  /**
   * What is reclaimed, said without spans or merging: exactly the bytes inside
   * some 4 KB stretch of one bank that streams consumed entirely.
   */
  lemma {:induction false} ReclaimedIffWindow(rom: seq<byte>, entries: seq<Entry>, decode: Decoder, b: nat, x: nat)
    requires ReclaimedRegions(rom, entries, decode).Ok?
    ensures Covers(ReclaimedRegions(rom, entries, decode).value, b, x) <==>
              exists lo: nat :: lo <= x < lo + MIN_REGION && ConsumedWindow(rom, entries, decode, b, lo)
  {
    var merged := Merged(Reclaimed(rom, entries, decode, |entries|).value);
    var regions := ReclaimedRegions(rom, entries, decode).value;
    LargeEnoughIsExact(merged);
    if i :| 0 <= i < |regions| && regions[i].Has(b, x) {
      assert regions[i] in regions;
      var lo := KeptIsWindow(rom, entries, decode, b, x, regions[i]);
    }
    if lo: nat :| lo <= x < lo + MIN_REGION && ConsumedWindow(rom, entries, decode, b, lo) {
      var r := WindowIsKept(rom, entries, decode, b, x, lo);
      assert r in regions;
      var i :| 0 <= i < |regions| && regions[i] == r;
      assert regions[i].Has(b, x);
    }
  }
}
