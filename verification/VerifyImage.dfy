/** The check run over a finished image: every stream resolved and compared byte by byte. */
module VerifyImage {
  import opened Types
  import opened Listing
  import opened AddressMap
  import opened Place
  import opened Plan
  import opened Image
  import opened Served
  import opened Lookup
  import opened StreamTable

  datatype Mismatch = Mismatch(source: nat, destination: nat, first: nat)

  datatype Report = Report(unresolved: seq<nat>, wrong: seq<Mismatch>) {
    predicate Clean() {
      unresolved == [] && wrong == []
    }
  }

  /** What stops the check: a stream the decoder refuses, or a read past bank $FF. */
  datatype Stop = Undecodable(stream: Stream) | PastTheMap(stream: Stream)

  /** The first offset from `t` on at which the image does not show the data. */
  function FirstBad(image: seq<byte>, banks: nat, address: nat, data: seq<byte>, t: nat): (r: Option<nat>)
    requires banks >= 0xC0 && |image| == banks * BANK && address + |data| <= SPACE && t <= |data|
    ensures r.Some? ==> t <= r.value < |data| && View(image, address + r.value, banks) != data[r.value]
    ensures forall u :: t <= u < (if r.Some? then r.value else |data|) ==> View(image, address + u, banks) == data[u]
    decreases |data| - t
  {
    if t == |data| then None
    else if View(image, address + t, banks) != data[t] then Some(t)
    else FirstBad(image, banks, address, data, t + 1)
  }

  /** What the check finds of one stream. */
  datatype Verdict = Fine | Lost | Bad(destination: nat, first: nat)

  ghost function VerdictOf(image: seq<byte>, banks: nat, rom: seq<byte>, decode: Decoder, s: Stream)
    : Result<Verdict, Stop>
    requires ImageOf(image, banks)
  {
    match ResolveOf(image, banks, s.source)
    case None => Ok(Lost)
    case Some(found) =>
      match decode(rom, s.source, s.length)
      case None => Err(Undecodable(s))
      case Some(want) =>
        if found.destination + |want.data| > SPACE then Err(PastTheMap(s))
        else
          match FirstBad(image, banks, found.destination, want.data, 0)
          case None => Ok(Fine)
          case Some(first) => Ok(Bad(found.destination, first))
  }

  function Added(report: Report, source: nat, verdict: Verdict): (r: Report)
    ensures r.Clean() <==> report.Clean() && verdict.Fine?
  {
    match verdict
    case Fine => report
    case Lost => report.(unresolved := report.unresolved + [source])
    case Bad(destination, first) => report.(wrong := report.wrong + [Mismatch(source, destination, first)])
  }

  /** One stream's addition to the report. */
  ghost function Checked(image: seq<byte>, banks: nat, rom: seq<byte>, decode: Decoder, s: Stream, report: Report)
    : Result<Report, Stop>
    requires ImageOf(image, banks)
  {
    match VerdictOf(image, banks, rom, decode, s)
    case Err(e) => Err(e)
    case Ok(verdict) => Ok(Added(report, s.source, verdict))
  }

  ghost function ReportOf(image: seq<byte>, banks: nat, rom: seq<byte>, decode: Decoder, streams: seq<Stream>)
    : Result<Report, Stop>
    requires ImageOf(image, banks)
  {
    if streams == [] then Ok(Report([], []))
    else
      match ReportOf(image, banks, rom, decode, streams[..|streams| - 1])
      case Err(e) => Err(e)
      case Ok(report) => Checked(image, banks, rom, decode, streams[|streams| - 1], report)
  }

  /** The bytes the image shows from an address on. */
  method ReadRun(image: seq<byte>, banks: nat, address: nat, length: nat) returns (got: seq<byte>)
    requires ImageOf(image, banks) && address + length <= SPACE
    ensures |got| == length && forall t :: 0 <= t < length ==> got[t] == View(image, address + t, banks)
  {
    got := [];
    for offset := 0 to length
      invariant |got| == offset && forall t :: 0 <= t < offset ==> got[t] == View(image, address + t, banks)
    {
      got := got + [View(image, address + offset, banks)];
    }
  }

  /** Comparing the two byte strings finds a bad offset exactly when there is one. */
  lemma {:induction false} ReadTellsBad(image: seq<byte>, banks: nat, address: nat, data: seq<byte>, got: seq<byte>)
    requires ImageOf(image, banks) && address + |data| <= SPACE && |got| == |data|
    requires forall t :: 0 <= t < |got| ==> got[t] == View(image, address + t, banks)
    ensures got == data <==> FirstBad(image, banks, address, data, 0).None?
  {
    var first := FirstBad(image, banks, address, data, 0);
    if first.Some? {
      assert got[first.value] != data[first.value];
    } else {
      forall t | 0 <= t < |data|
        ensures got[t] == data[t]
      {
      }
    }
  }

  method CheckStream(image: seq<byte>, banks: nat, rom: seq<byte>, decode: Decoder, s: Stream, report: Report)
    returns (r: Result<Report, Stop>)
    requires ImageOf(image, banks)
    ensures r == Checked(image, banks, rom, decode, s, report)
  {
    var found := Resolve(image, banks, s.source);
    if found.None? {
      return Ok(report.(unresolved := report.unresolved + [s.source]));
    }
    var want := decode(rom, s.source, s.length);
    if want.None? {
      return Err(Undecodable(s));
    }
    var data, destination := want.value.data, found.value.destination;
    if destination + |data| > SPACE {
      return Err(PastTheMap(s));
    }
    var got := ReadRun(image, banks, destination, |data|);
    ReadTellsBad(image, banks, destination, data, got);
    if got != data {
      var first := FirstBad(image, banks, destination, data, 0);
      return Ok(report.(wrong := report.wrong + [Mismatch(s.source, destination, first.value)]));
    }
    return Ok(report);
  }

  method CheckImage(image: seq<byte>, banks: nat, rom: seq<byte>, decode: Decoder, streams: seq<Stream>)
    returns (r: Result<Report, Stop>)
    requires ImageOf(image, banks)
    ensures r == ReportOf(image, banks, rom, decode, streams)
  {
    var report := Report([], []);
    for i := 0 to |streams|
      invariant ReportOf(image, banks, rom, decode, streams[..i]) == Ok(report)
    {
      assert streams[..i + 1][..i] == streams[..i];
      var next := CheckStream(image, banks, rom, decode, streams[i], report);
      if next.Err? {
        ReportStops(image, banks, rom, decode, streams, i);
        return next;
      }
      report := next.value;
    }
    assert streams[..|streams|] == streams;
    return Ok(report);
  }

  lemma {:induction false} ReportStops(image: seq<byte>, banks: nat, rom: seq<byte>, decode: Decoder,
                                       streams: seq<Stream>, i: nat)
    requires ImageOf(image, banks) && i < |streams| && ReportOf(image, banks, rom, decode, streams[..i + 1]).Err?
    ensures ReportOf(image, banks, rom, decode, streams)
         == ReportOf(image, banks, rom, decode, streams[..i + 1])
    decreases |streams|
  {
    if i + 1 == |streams| {
      assert streams[..i + 1] == streams;
    } else {
      var front := streams[..|streams| - 1];
      assert front[..i + 1] == streams[..i + 1];
      ReportStops(image, banks, rom, decode, front, i);
    }
  }

  // ------------------------------------------------------- what a report lists

  /** Read from the address, the data differs at that offset and at none before. */
  ghost predicate FirstDifference(image: seq<byte>, banks: nat, address: nat, data: seq<byte>, first: nat)
    requires ImageOf(image, banks)
  {
    && first < |data| && address + |data| <= 0x1000000
    && View(image, address + first, banks) != data[first]
    && forall t :: 0 <= t < first ==> View(image, address + t, banks) == data[t]
  }

  lemma {:induction false} BadIsFirst(image: seq<byte>, banks: nat, address: nat, data: seq<byte>, first: nat)
    requires ImageOf(image, banks) && address + |data| <= SPACE
    ensures FirstBad(image, banks, address, data, 0) == Some(first) <==>
            FirstDifference(image, banks, address, data, first)
  {
    var found := FirstBad(image, banks, address, data, 0);
    if FirstDifference(image, banks, address, data, first) {
      assert found.Some? && found.value <= first;
    }
  }

  /** The lookup leads there, and the data read from there differs first at that offset. */
  ghost predicate DiffersFirst(image: seq<byte>, banks: nat, rom: seq<byte>, decode: Decoder, s: Stream,
                               destination: nat, first: nat)
    requires ImageOf(image, banks)
  {
    && (exists step: nat :: ResolvesTo(image, banks, s.source, step, destination))
    && decode(rom, s.source, s.length).Some?
    && FirstDifference(image, banks, destination, decode(rom, s.source, s.length).value.data, first)
  }

  ghost predicate Differs(image: seq<byte>, banks: nat, rom: seq<byte>, decode: Decoder, s: Stream)
    requires ImageOf(image, banks)
  {
    exists destination: nat, first: nat :: DiffersFirst(image, banks, rom, decode, s, destination, first)
  }

  /** Nothing to stop for: no slot, or a slot whose stream decodes and ends inside the map. */
  ghost predicate GoesThrough(image: seq<byte>, banks: nat, rom: seq<byte>, decode: Decoder, s: Stream)
    requires ImageOf(image, banks)
  {
    || OutOfReach(image, banks, s.source)
    || exists step: nat, destination: nat ::
         ResolvesTo(image, banks, s.source, step, destination) && decode(rom, s.source, s.length).Some? &&
         destination + |decode(rom, s.source, s.length).value.data| <= 0x1000000
  }

  /** The verdict on one stream, in those terms. */
  lemma {:induction false} VerdictIsExact(image: seq<byte>, banks: nat, rom: seq<byte>, decode: Decoder, s: Stream)
    requires ImageOf(image, banks)
    ensures VerdictOf(image, banks, rom, decode, s) == Ok(Lost) <==> OutOfReach(image, banks, s.source)
    ensures forall destination: nat, first: nat ::
              VerdictOf(image, banks, rom, decode, s) == Ok(Bad(destination, first)) <==>
              DiffersFirst(image, banks, rom, decode, s, destination, first)
    ensures VerdictOf(image, banks, rom, decode, s).Ok? <==> GoesThrough(image, banks, rom, decode, s)
    ensures !GoesThrough(image, banks, rom, decode, s) ==>
              VerdictOf(image, banks, rom, decode, s)
              == Err(if decode(rom, s.source, s.length).None? then Undecodable(s) else PastTheMap(s))
  {
    ResolveIsExact(image, banks, s.source);
    if ResolveOf(image, banks, s.source).Some? {
      var found := ResolveOf(image, banks, s.source).value;
      forall step: nat, destination: nat | ResolvesTo(image, banks, s.source, step, destination)
        ensures destination == found.destination
      {
        ResolvesOnce(image, banks, s.source, step, destination, found.step, found.destination);
      }
      assert !OutOfReach(image, banks, s.source);
      FoundVerdict(image, banks, rom, decode, s, found);
    }
  }

  lemma {:induction false} FoundVerdict(image: seq<byte>, banks: nat, rom: seq<byte>, decode: Decoder, s: Stream,
                                        found: Resolution)
    requires ImageOf(image, banks) && ResolveOf(image, banks, s.source) == Some(found)
    requires ResolvesTo(image, banks, s.source, found.step, found.destination)
    requires forall step: nat, destination: nat ::
               ResolvesTo(image, banks, s.source, step, destination) ==> destination == found.destination
    ensures VerdictOf(image, banks, rom, decode, s) != Ok(Lost)
    ensures forall destination: nat, first: nat ::
              VerdictOf(image, banks, rom, decode, s) == Ok(Bad(destination, first)) <==>
              DiffersFirst(image, banks, rom, decode, s, destination, first)
    ensures VerdictOf(image, banks, rom, decode, s).Ok? <==>
              decode(rom, s.source, s.length).Some? &&
              found.destination + |decode(rom, s.source, s.length).value.data| <= 0x1000000
  {
    if decode(rom, s.source, s.length).Some? {
      var data := decode(rom, s.source, s.length).value.data;
      if found.destination + |data| <= SPACE {
        forall first: nat
          ensures FirstBad(image, banks, found.destination, data, 0) == Some(first) <==>
                  FirstDifference(image, banks, found.destination, data, first)
        {
          BadIsFirst(image, banks, found.destination, data, first);
        }
      }
    }
  }

  function LossOf(s: Stream, verdict: Result<Verdict, Stop>): Option<nat> {
    if verdict == Ok(Lost) then Some(s.source) else None
  }

  function MismatchOf(s: Stream, verdict: Result<Verdict, Stop>): Option<Mismatch> {
    if verdict.Ok? && verdict.value.Bad? then Some(Mismatch(s.source, verdict.value.destination, verdict.value.first))
    else None
  }

  ghost function Verdicts(image: seq<byte>, banks: nat, rom: seq<byte>, decode: Decoder, streams: seq<Stream>)
    : (r: seq<Result<Verdict, Stop>>)
    requires ImageOf(image, banks)
    ensures |r| == |streams|
  {
    seq(|streams|, i requires 0 <= i < |streams| => VerdictOf(image, banks, rom, decode, streams[i]))
  }

  function Losses(streams: seq<Stream>, verdicts: seq<Result<Verdict, Stop>>): (r: seq<Option<nat>>)
    requires |verdicts| == |streams|
    ensures |r| == |streams|
  {
    seq(|streams|, i requires 0 <= i < |streams| => LossOf(streams[i], verdicts[i]))
  }

  function Mismatches(streams: seq<Stream>, verdicts: seq<Result<Verdict, Stop>>): (r: seq<Option<Mismatch>>)
    requires |verdicts| == |streams|
    ensures |r| == |streams|
  {
    seq(|streams|, i requires 0 <= i < |streams| => MismatchOf(streams[i], verdicts[i]))
  }

  /** A report is its streams' losses and mismatches, each list in order. */
  lemma {:induction false} ReportIsKept(image: seq<byte>, banks: nat, rom: seq<byte>, decode: Decoder,
                                        streams: seq<Stream>)
    requires ImageOf(image, banks) && ReportOf(image, banks, rom, decode, streams).Ok?
    ensures var (report, verdicts) := (ReportOf(image, banks, rom, decode, streams).value,
                                       Verdicts(image, banks, rom, decode, streams));
            && report.unresolved == Kept(Losses(streams, verdicts))
            && report.wrong == Kept(Mismatches(streams, verdicts))
  {
    if streams != [] {
      var n := |streams| - 1;
      var verdicts := Verdicts(image, banks, rom, decode, streams);
      ReportIsKept(image, banks, rom, decode, streams[..n]);
      assert Verdicts(image, banks, rom, decode, streams[..n]) == verdicts[..n];
      assert Losses(streams, verdicts)[..n] == Losses(streams[..n], verdicts[..n]);
      assert Mismatches(streams, verdicts)[..n] == Mismatches(streams[..n], verdicts[..n]);
      AddedIsKept(ReportOf(image, banks, rom, decode, streams[..n]).value, streams[n], verdicts[n]);
    }
  }

  lemma {:induction false} AddedIsKept(report: Report, s: Stream, verdict: Result<Verdict, Stop>)
    requires verdict.Ok?
    ensures var (loss, mismatch) := (LossOf(s, verdict), MismatchOf(s, verdict));
            var after := Added(report, s.source, verdict.value);
            && after.unresolved == report.unresolved + (if loss.Some? then [loss.value] else [])
            && after.wrong == report.wrong + (if mismatch.Some? then [mismatch.value] else [])
  {
  }

  ghost function LostAt(image: seq<byte>, banks: nat, streams: seq<Stream>): nat -> bool
    requires ImageOf(image, banks)
  {
    (i: nat) => i < |streams| && OutOfReach(image, banks, streams[i].source)
  }

  ghost function WrongAt(image: seq<byte>, banks: nat, rom: seq<byte>, decode: Decoder, streams: seq<Stream>)
    : nat -> bool
    requires ImageOf(image, banks)
  {
    (i: nat) => i < |streams| && Differs(image, banks, rom, decode, streams[i])
  }

  /** When the check goes through, `unresolved` holds the sources of exactly the streams out of reach, in order. */
  lemma {:induction false} UnresolvedIsExact(image: seq<byte>, banks: nat, rom: seq<byte>, decode: Decoder,
                                             streams: seq<Stream>) returns (lost: seq<nat>)
    requires ImageOf(image, banks) && ReportOf(image, banks, rom, decode, streams).Ok?
    ensures Selects(LostAt(image, banks, streams), |streams|, lost)
    ensures var unresolved := ReportOf(image, banks, rom, decode, streams).value.unresolved;
            && |unresolved| == |lost|
            && forall k :: 0 <= k < |lost| ==> lost[k] < |streams| && unresolved[k] == streams[lost[k]].source
  {
    var losses := Losses(streams, Verdicts(image, banks, rom, decode, streams));
    ReportIsKept(image, banks, rom, decode, streams);
    forall i: nat | i < |streams|
      ensures Found(losses)(i) <==> LostAt(image, banks, streams)(i)
    {
      VerdictIsExact(image, banks, rom, decode, streams[i]);
    }
    lost := KeptIsExact(losses);
    SameSelection(Found(losses), LostAt(image, banks, streams), |streams|, lost);
  }

  lemma {:induction false} MismatchIsExact(image: seq<byte>, banks: nat, rom: seq<byte>, decode: Decoder, s: Stream)
    requires ImageOf(image, banks)
    ensures var mismatch := MismatchOf(s, VerdictOf(image, banks, rom, decode, s));
            && (mismatch.Some? <==> Differs(image, banks, rom, decode, s))
            && (mismatch.Some? ==>
                  && mismatch.value.source == s.source
                  && DiffersFirst(image, banks, rom, decode, s, mismatch.value.destination, mismatch.value.first))
  {
    VerdictIsExact(image, banks, rom, decode, s);
  }

  /**
   * And `wrong` names exactly the streams whose bytes differ, in order, with where
   * the lookup led and the least offset at which they differ.
   */
  lemma {:induction false} WrongIsExact(image: seq<byte>, banks: nat, rom: seq<byte>, decode: Decoder,
                                        streams: seq<Stream>) returns (at: seq<nat>)
    requires ImageOf(image, banks) && ReportOf(image, banks, rom, decode, streams).Ok?
    ensures Selects(WrongAt(image, banks, rom, decode, streams), |streams|, at)
    ensures var wrong := ReportOf(image, banks, rom, decode, streams).value.wrong;
            && |wrong| == |at|
            && forall k :: 0 <= k < |at| ==>
                 && at[k] < |streams| && wrong[k].source == streams[at[k]].source
                 && DiffersFirst(image, banks, rom, decode, streams[at[k]], wrong[k].destination, wrong[k].first)
  {
    var verdicts := Verdicts(image, banks, rom, decode, streams);
    var mismatches := Mismatches(streams, verdicts);
    ReportIsKept(image, banks, rom, decode, streams);
    forall i: nat | i < |streams|
      ensures Found(mismatches)(i) <==> WrongAt(image, banks, rom, decode, streams)(i)
    {
      MismatchIsExact(image, banks, rom, decode, streams[i]);
    }
    at := KeptIsExact(mismatches);
    SameSelection(Found(mismatches), WrongAt(image, banks, rom, decode, streams), |streams|, at);
    var wrong := ReportOf(image, banks, rom, decode, streams).value.wrong;
    forall k | 0 <= k < |at|
      ensures wrong[k].source == streams[at[k]].source
      ensures DiffersFirst(image, banks, rom, decode, streams[at[k]], wrong[k].destination, wrong[k].first)
    {
      MismatchIsExact(image, banks, rom, decode, streams[at[k]]);
    }
  }

  lemma {:induction false} LastGoesThrough(image: seq<byte>, banks: nat, rom: seq<byte>, decode: Decoder,
                                           streams: seq<Stream>)
    requires ImageOf(image, banks) && streams != []
    ensures var n := |streams| - 1;
            ReportOf(image, banks, rom, decode, streams).Ok? <==>
            ReportOf(image, banks, rom, decode, streams[..n]).Ok? && GoesThrough(image, banks, rom, decode, streams[n])
  {
    VerdictIsExact(image, banks, rom, decode, streams[|streams| - 1]);
  }

  /** The check goes through exactly when every stream does. */
  lemma {:induction false} CheckGoesThrough(image: seq<byte>, banks: nat, rom: seq<byte>, decode: Decoder,
                                            streams: seq<Stream>)
    requires ImageOf(image, banks)
    ensures ReportOf(image, banks, rom, decode, streams).Ok? <==>
              forall i :: 0 <= i < |streams| ==> GoesThrough(image, banks, rom, decode, streams[i])
  {
    if streams != [] {
      var n := |streams| - 1;
      CheckGoesThrough(image, banks, rom, decode, streams[..n]);
      LastGoesThrough(image, banks, rom, decode, streams);
      assert forall i :: 0 <= i < n ==> streams[..n][i] == streams[i];
    }
  }

  /** Otherwise it stops at the first that does not: one the decoder refuses, or one that runs past bank $FF. */
  lemma {:induction false} CheckStopsAt(image: seq<byte>, banks: nat, rom: seq<byte>, decode: Decoder,
                                        streams: seq<Stream>, i: nat)
    requires ImageOf(image, banks) && i < |streams| && !GoesThrough(image, banks, rom, decode, streams[i])
    requires forall j :: 0 <= j < i ==> GoesThrough(image, banks, rom, decode, streams[j])
    ensures ReportOf(image, banks, rom, decode, streams)
         == Err(if decode(rom, streams[i].source, streams[i].length).None? then Undecodable(streams[i])
                else PastTheMap(streams[i]))
  {
    assert streams[..i + 1][..i] == streams[..i];
    CheckGoesThrough(image, banks, rom, decode, streams[..i]);
    VerdictIsExact(image, banks, rom, decode, streams[i]);
    ReportStops(image, banks, rom, decode, streams, i);
  }

  // ------------------------------------------------------ what a clean report means

  /** The stream decodes, and the budgeted lookup leads to exactly its bytes. */
  ghost predicate Right(image: seq<byte>, banks: nat, rom: seq<byte>, decode: Decoder, s: Stream)
    requires ImageOf(image, banks)
  {
    && ResolveOf(image, banks, s.source).Some?
    && decode(rom, s.source, s.length).Some?
    && ReadsAs(image, banks, ResolveOf(image, banks, s.source).value.destination,
               decode(rom, s.source, s.length).value.data)
  }

  /** No bad byte and no read past the map is what reading as the data means. */
  lemma {:induction false} NothingBad(image: seq<byte>, banks: nat, address: nat, data: seq<byte>)
    requires ImageOf(image, banks) && address <= SPACE
    ensures ReadsAs(image, banks, address, data) <==>
              address + |data| <= SPACE && FirstBad(image, banks, address, data, 0).None?
  {
    if address + |data| > SPACE {
      assert !ReadsByte(image, banks, address, data, |data| - 1);
    } else {
      match FirstBad(image, banks, address, data, 0)
      case Some(first) => assert !ReadsByte(image, banks, address, data, first);
      case None =>
        forall t: nat
          ensures ReadsByte(image, banks, address, data, t)
        {
        }
    }
  }

  lemma {:induction false} FineIsRight(image: seq<byte>, banks: nat, rom: seq<byte>, decode: Decoder, s: Stream)
    requires ImageOf(image, banks)
    ensures VerdictOf(image, banks, rom, decode, s) == Ok(Fine) <==> Right(image, banks, rom, decode, s)
  {
    if ResolveOf(image, banks, s.source).Some? && decode(rom, s.source, s.length).Some? {
      NothingBad(image, banks, ResolveOf(image, banks, s.source).value.destination,
                 decode(rom, s.source, s.length).value.data);
    }
  }

  /** A report is clean only if it was clean before the last stream and that stream is right. */
  lemma {:induction false} ReportIsClean(image: seq<byte>, banks: nat, rom: seq<byte>, decode: Decoder,
                                         streams: seq<Stream>)
    requires ImageOf(image, banks) && streams != []
    ensures var n := |streams| - 1;
            var (before, after) := (ReportOf(image, banks, rom, decode, streams[..n]),
                                    ReportOf(image, banks, rom, decode, streams));
            after.Ok? && after.value.Clean() <==>
              before.Ok? && before.value.Clean() && Right(image, banks, rom, decode, streams[n])
  {
    FineIsRight(image, banks, rom, decode, streams[|streams| - 1]);
  }

  /** The check goes through and both lists are empty. */
  ghost predicate CleanFor(image: seq<byte>, banks: nat, rom: seq<byte>, decode: Decoder, streams: seq<Stream>)
    requires ImageOf(image, banks)
  {
    var r := ReportOf(image, banks, rom, decode, streams);
    r.Ok? && r.value.Clean()
  }

  lemma {:induction false} ReportIsCleanSoFar(image: seq<byte>, banks: nat, rom: seq<byte>, decode: Decoder,
                                              streams: seq<Stream>)
    requires ImageOf(image, banks)
    ensures CleanFor(image, banks, rom, decode, streams) <==>
              forall i :: 0 <= i < |streams| ==> Right(image, banks, rom, decode, streams[i])
  {
    if streams != [] {
      var n := |streams| - 1;
      ReportIsClean(image, banks, rom, decode, streams);
      ReportIsCleanSoFar(image, banks, rom, decode, streams[..n]);
      assert forall i :: 0 <= i < n ==> streams[..n][i] == streams[i];
    }
  }

  /**
   * The check passes exactly when every stream resolves within the budget and
   * reads back as the decoder's bytes; and then each is served by the plain scan.
   */
  lemma {:induction false} CleanIffEveryStreamIsRight(image: seq<byte>, banks: nat, rom: seq<byte>, decode: Decoder,
                                                      streams: seq<Stream>)
    requires ImageOf(image, banks)
    ensures CleanFor(image, banks, rom, decode, streams) <==>
              forall i :: 0 <= i < |streams| ==> Right(image, banks, rom, decode, streams[i])
    ensures forall i :: 0 <= i < |streams| && Right(image, banks, rom, decode, streams[i]) ==>
              ServedThroughLookup(image, banks, streams[i].source,
                                  decode(rom, streams[i].source, streams[i].length).value.data)
  {
    ReportIsCleanSoFar(image, banks, rom, decode, streams);
    forall i | 0 <= i < |streams| && Right(image, banks, rom, decode, streams[i])
      ensures ServedThroughLookup(image, banks, streams[i].source,
                                  decode(rom, streams[i].source, streams[i].length).value.data)
    {
      RightIsServed(image, banks, rom, decode, streams[i]);
    }
  }

  lemma {:induction false} RightIsServed(image: seq<byte>, banks: nat, rom: seq<byte>, decode: Decoder, s: Stream)
    requires ImageOf(image, banks) && Right(image, banks, rom, decode, s)
    ensures ServedThroughLookup(image, banks, s.source, decode(rom, s.source, s.length).value.data)
  {
  }

  function StreamsOf(entries: seq<Entry>): (r: seq<Stream>)
    requires LengthsKnown(entries)
    ensures |r| == |entries|
  {
    seq(|entries|, i requires 0 <= i < |entries| => Stream(entries[i].source, entries[i].length.value))
  }

  lemma {:induction false} EntryDecodes(rom: seq<byte>, entries: seq<Entry>, decode: Decoder, n: nat, k: nat)
    requires LengthsKnown(entries) && k < n <= |entries| && Reclaimed(rom, entries, decode, n).Ok?
    ensures decode(rom, entries[k].source, entries[k].length.value).Some?
  {
    if k < n - 1 {
      EntryDecodes(rom, entries, decode, n - 1, k);
    }
  }

  lemma {:induction false} EntryIsRight(rom: seq<byte>, entries: seq<Entry>, banks: nat, extra: seq<Write>,
                                        decode: Decoder, k: nat)
    requires Succeeds(rom, entries, banks, extra, decode) && WithinBudget(SourcesOf(entries)) && k < |entries|
    ensures Right(BuildOf(rom, entries, banks, extra, decode).value.image, banks, rom, decode, StreamsOf(entries)[k])
  {
    var b := BuildOf(rom, entries, banks, extra, decode).value;
    BudgetSuffices(rom, entries, banks, extra, decode, k);
    StreamReadsBack(rom, entries, banks, extra, decode, k);
    EntryDecodes(rom, entries, decode, |entries|, k);
    ResolvedIsRight(b.image, banks, rom, decode, StreamsOf(entries)[k], b.destinations[entries[k].index]);
  }

  lemma {:induction false} BuiltImageIsClean(rom: seq<byte>, entries: seq<Entry>, banks: nat, extra: seq<Write>,
                                             decode: Decoder, streams: seq<Stream>)
    requires Succeeds(rom, entries, banks, extra, decode) && WithinBudget(SourcesOf(entries))
    requires forall s :: s in streams ==> s in StreamsOf(entries)
    ensures CleanFor(BuildOf(rom, entries, banks, extra, decode).value.image, banks, rom, decode, streams)
  {
    var b := BuildOf(rom, entries, banks, extra, decode).value;
    forall i | 0 <= i < |streams|
      ensures Right(b.image, banks, rom, decode, streams[i])
    {
      assert streams[i] in StreamsOf(entries);
      var k :| 0 <= k < |entries| && StreamsOf(entries)[k] == streams[i];
      EntryIsRight(rom, entries, banks, extra, decode, k);
    }
    ReportIsCleanSoFar(b.image, banks, rom, decode, streams);
  }

  /** The sources as the gate's scan check takes them. */
  function TableSources(table: seq<Stream>): (r: seq<nat>)
    ensures |r| == |table|
  {
    seq(|table|, i requires 0 <= i < |table| => Sorted(table)[i].source)
  }

  lemma {:induction false} TableIsListed(table: seq<Stream>, entries: seq<Entry>)
    requires DistinctSources(table) && Lists(DictOf(table), entries)
    ensures LengthsKnown(entries) && SourcesOf(entries) == TableSources(table)
    ensures forall s :: s in table ==> s in StreamsOf(entries)
  {
    OrdersAgree(table, entries);
    forall s | s in table
      ensures s in StreamsOf(entries)
    {
      assert s in Sorted(table);
      var i :| 0 <= i < |table| && Sorted(table)[i] == s;
      assert StreamsOf(entries)[i] == s;
    }
  }

  /**
   * From the gate to the check: if a table repeats no source and its worst scan is
   * within the budget, every image built from that table passes the check over it,
   * each tool reading the table in its own order.
   */
  lemma {:induction false} GatedTableIsClean(table: seq<Stream>, rom: seq<byte>, entries: seq<Entry>, banks: nat,
                                             extra: seq<Write>, decode: Decoder)
    requires DistinctSources(table) && WithinBudget(TableSources(table))
    requires Lists(DictOf(table), entries) && Succeeds(rom, entries, banks, extra, decode)
    ensures CleanFor(BuildOf(rom, entries, banks, extra, decode).value.image, banks, rom, decode, table)
  {
    TableIsListed(table, entries);
    BuiltImageIsClean(rom, entries, banks, extra, decode, table);
  }

  lemma {:induction false} ResolvedIsRight(image: seq<byte>, banks: nat, rom: seq<byte>, decode: Decoder,
                                           s: Stream, destination: nat)
    requires ImageOf(image, banks) && ResolveOf(image, banks, s.source).Some?
    requires ResolveOf(image, banks, s.source).value.destination == destination
    requires decode(rom, s.source, s.length).Some?
    requires ReadsAs(image, banks, destination, decode(rom, s.source, s.length).value.data)
    ensures Right(image, banks, rom, decode, s)
  {
  }
}
