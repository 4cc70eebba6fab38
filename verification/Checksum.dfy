/** The cartridge checksum, patch runs, and the diff that recovers them. */
module Checksum {
  import opened Types

  const CHECKSUM_FIELD := 0x007FDC
  const CHECKSUM_END := 0x007FE0
  const CHECKSUM_FIELD_SUM := 0x01FE

  predicate InField(i: int) {
    CHECKSUM_FIELD <= i < CHECKSUM_END
  }

  predicate IsRom(rom: seq<byte>) {
    |rom| >= CHECKSUM_END
  }

  function Sum(rom: seq<byte>): nat {
    if rom == [] then 0 else Sum(rom[..|rom| - 1]) + rom[|rom| - 1]
  }

  /** A slice assignment: past the end it appends, as a bytearray's does. */
  function SliceSet(rom: seq<byte>, at: nat, data: seq<byte>): (r: seq<byte>)
    ensures at + |data| <= |rom| ==>
              && |r| == |rom|
              && forall i :: 0 <= i < |rom| ==> r[i] == if at <= i < at + |data| then data[i - at] else rom[i]
  {
    var from, to := if at < |rom| then at else |rom|, if at + |data| < |rom| then at + |data| else |rom|;
    rom[..from] + data + rom[to..]
  }

  /** A slice that reaches past the end replaces the tail from its place on, or follows the last byte. */
  lemma {:induction false} SlicePastEnd(rom: seq<byte>, at: nat, data: seq<byte>)
    requires at + |data| > |rom|
    ensures var (r, from) := (SliceSet(rom, at, data), if at < |rom| then at else |rom|);
            && |r| == from + |data|
            && forall i :: 0 <= i < |r| ==> r[i] == if i < from then rom[i] else data[i - from]
  {
  }

  /** The image with four given bytes in its checksum field. */
  function WithField(rom: seq<byte>, field: seq<byte>): (r: seq<byte>)
    requires |field| == 4
    ensures IsRom(rom) ==> |r| == |rom|
    ensures IsRom(rom) ==>
              forall i :: 0 <= i < |rom| ==> r[i] == if InField(i) then field[i - CHECKSUM_FIELD] else rom[i]
  {
    SliceSet(rom, CHECKSUM_FIELD, field)
  }

  /** Byte sum with the field blank, plus what any stamped field adds. */
  function ChecksumOf(rom: seq<byte>): (value: nat)
    ensures value < 0x10000
  {
    (Sum(WithField(rom, [0, 0, 0, 0])) + CHECKSUM_FIELD_SUM) % 0x10000
  }

  /** Complement then value, each low byte first. */
  function FieldFor(value: nat): (r: seq<byte>)
    requires value < 0x10000
    ensures |r| == 4
  {
    var complement := 0xFFFF - value;
    [complement % 0x100, complement / 0x100, value % 0x100, value / 0x100]
  }

  function Stamped(rom: seq<byte>): (r: seq<byte>)
    ensures IsRom(rom) ==> |r| == |rom|
  {
    WithField(rom, FieldFor(ChecksumOf(rom)))
  }

  /** The complement an image's own field claims, low byte first, just before the value. */
  function StoredComplement(rom: seq<byte>): nat
    requires IsRom(rom)
  {
    (rom[0x7FDC] as int) + (rom[0x7FDD] as int) * 0x100
  }

  /** The value an image's own field claims. */
  function StoredChecksum(rom: seq<byte>): nat
    requires IsRom(rom)
  {
    (rom[0x7FDE] as int) + (rom[0x7FDF] as int) * 0x100
  }

  /** Writes the four bytes of the field over a copy. */
  method WriteChecksum(rom: seq<byte>) returns (stamped: seq<byte>)
    ensures stamped == Stamped(rom)
    ensures IsRom(rom) ==> |stamped| == |rom| && StoredChecksum(stamped) == ChecksumOf(rom)
    ensures IsRom(rom) ==> StoredComplement(stamped) + StoredChecksum(stamped) == 0xFFFF
    ensures IsRom(rom) ==> forall i :: 0 <= i < |rom| && !InField(i) ==> stamped[i] == rom[i]
  {
    stamped := rom;
    var value := ChecksumOf(stamped);
    var complement := 0xFFFF - value;
    FieldAddsUp(value);
    stamped := SliceSet(stamped, CHECKSUM_FIELD,
                        [complement % 0x100, complement / 0x100, value % 0x100, value / 0x100]);
  }

  predicate SameOffField(a: seq<byte>, b: seq<byte>) {
    |a| == |b| && forall i :: 0 <= i < |a| && !InField(i) ==> a[i] == b[i]
  }

  /** Stamping sees only the bytes off the field. */
  lemma {:induction false} StampIgnoresField(a: seq<byte>, b: seq<byte>)
    requires IsRom(a) && SameOffField(a, b)
    ensures Stamped(a) == Stamped(b) && SameOffField(Stamped(a), a)
  {
    assert WithField(a, [0, 0, 0, 0]) == WithField(b, [0, 0, 0, 0]);
  }

  lemma {:induction false} StampIsIdempotent(rom: seq<byte>)
    requires IsRom(rom)
    ensures Stamped(Stamped(rom)) == Stamped(rom)
  {
    StampIgnoresField(rom, rom);
    StampIgnoresField(Stamped(rom), rom);
  }

  lemma {:induction false} SumSplits(a: seq<byte>, b: seq<byte>)
    ensures Sum(a + b) == Sum(a) + Sum(b)
    decreases |b|
  {
    if b == [] {
      assert a + b == a;
    } else {
      var n := |b| - 1;
      assert (a + b)[..|a| + n] == a + b[..n];
      SumSplits(a, b[..n]);
    }
  }

  lemma {:induction false} FieldSum(rom: seq<byte>, field: seq<byte>)
    requires IsRom(rom) && |field| == 4
    ensures Sum(WithField(rom, field)) == Sum(rom[..CHECKSUM_FIELD]) + Sum(field) + Sum(rom[CHECKSUM_END..])
  {
    assert WithField(rom, field) == rom[..CHECKSUM_FIELD] + field + rom[CHECKSUM_END..];
    SumSplits(rom[..CHECKSUM_FIELD] + field, rom[CHECKSUM_END..]);
    SumSplits(rom[..CHECKSUM_FIELD], field);
  }

  lemma {:induction false} FourBytes(a: byte, b: byte, c: byte, d: byte)
    ensures Sum([a, b, c, d]) == a as int + b as int + c as int + d as int
  {
    SumSplits([a, b, c], [d]);
    SumSplits([a, b], [c]);
    SumSplits([a], [b]);
    assert [a, b, c] + [d] == [a, b, c, d] && [a, b] + [c] == [a, b, c] && [a] + [b] == [a, b];
    assert Sum([a]) == a as int && Sum([b]) == b as int && Sum([c]) == c as int && Sum([d]) == d as int;
  }

  /** A stamped image's whole byte sum, field included, is the value in its field. */
  lemma {:induction false} StampedSumMatches(rom: seq<byte>)
    requires IsRom(rom)
    ensures Sum(Stamped(rom)) % 0x10000 == StoredChecksum(Stamped(rom)) == ChecksumOf(rom)
  {
    var value := ChecksumOf(rom);
    var f := FieldFor(value);
    FieldSum(rom, f);
    FieldSum(rom, [0, 0, 0, 0]);
    FourBytes(f[0], f[1], f[2], f[3]);
    FourBytes(0, 0, 0, 0);
    assert f == [f[0], f[1], f[2], f[3]];
    FieldAddsUp(value);
    assert Sum(Stamped(rom)) == Sum(WithField(rom, [0, 0, 0, 0])) + CHECKSUM_FIELD_SUM;
  }

  lemma {:induction false} FieldAddsUp(value: nat)
    requires value < 0x10000
    ensures var f := FieldFor(value);
            && f[0] as int + f[1] as int + f[2] as int + f[3] as int == CHECKSUM_FIELD_SUM
            && f[2] as int + f[3] as int * 0x100 == value
            && f[0] as int + f[1] as int * 0x100 == 0xFFFF - value
  {
    assert (0xFFFF - value) % 0x100 == 0xFF - value % 0x100;
    assert (0xFFFF - value) / 0x100 == 0xFF - value / 0x100;
  }

  // --------------------------------------------------------------------- runs

  datatype Run = Run(at: nat, data: seq<byte>) {
    predicate Covers(i: int) {
      at <= i < at + |data|
    }
  }

  ghost predicate OffField(runs: seq<Run>) {
    forall i, k :: 0 <= i < |runs| && runs[i].Covers(k) ==> !InField(k)
  }

  ghost predicate Inside(runs: seq<Run>, size: nat) {
    forall i :: 0 <= i < |runs| ==> runs[i].at + |runs[i].data| <= size
  }

  /** No byte belongs to two runs; order does not matter. */
  ghost predicate Apart(runs: seq<Run>) {
    forall i, j, k :: 0 <= i < j < |runs| && runs[i].Covers(k) ==> !runs[j].Covers(k)
  }

  ghost function WithRuns(rom: seq<byte>, runs: seq<Run>): (r: seq<byte>)
    ensures Inside(runs, |rom|) ==> |r| == |rom|
  {
    if runs == [] then rom
    else
      var n := |runs| - 1;
      assert Inside(runs, |rom|) ==> Inside(runs[..n], |rom|);
      SliceSet(WithRuns(rom, runs[..n]), runs[n].at, runs[n].data)
  }

  lemma {:induction false} FrontIsApart(rom: seq<byte>, runs: seq<Run>)
    requires Inside(runs, |rom|) && Apart(runs) && runs != []
    ensures Inside(runs[..|runs| - 1], |rom|) && Apart(runs[..|runs| - 1])
  {
    var front := runs[..|runs| - 1];
    forall i, j, k | 0 <= i < j < |front| && front[i].Covers(k)
      ensures !front[j].Covers(k)
    {
      assert runs[i].Covers(k);
    }
  }

  /** A byte one run covers shows that run's data; a byte none covers is kept. */
  ghost predicate Shows(rom: seq<byte>, written: seq<byte>, runs: seq<Run>, k: nat)
    requires k < |rom| == |written|
  {
    && (forall i :: 0 <= i < |runs| && runs[i].Covers(k) ==> written[k] == runs[i].data[k - runs[i].at])
    && ((forall i :: 0 <= i < |runs| ==> !runs[i].Covers(k)) ==> written[k] == rom[k])
  }

  lemma {:induction false} ShowsOneMore(rom: seq<byte>, was: seq<byte>, written: seq<byte>, runs: seq<Run>, k: nat)
    requires k < |rom| == |was| == |written| && runs != [] && Apart(runs)
    requires Shows(rom, was, runs[..|runs| - 1], k)
    requires var last := runs[|runs| - 1];
             written[k] == if last.Covers(k) then last.data[k - last.at] else was[k]
    ensures Shows(rom, written, runs, k)
  {
    var n := |runs| - 1;
    assert forall i :: 0 <= i < n ==> runs[..n][i] == runs[i];
  }

  lemma {:induction false} RunShows(rom: seq<byte>, run: Run, k: nat)
    requires run.at + |run.data| <= |rom| && k < |rom|
    ensures k < |SliceSet(rom, run.at, run.data)|
    ensures SliceSet(rom, run.at, run.data)[k] == if run.Covers(k) then run.data[k - run.at] else rom[k]
  {
  }

  lemma {:induction false} RunsShow(rom: seq<byte>, runs: seq<Run>, k: nat)
    requires Inside(runs, |rom|) && Apart(runs) && k < |rom|
    ensures Shows(rom, WithRuns(rom, runs), runs, k)
  {
    if runs != [] {
      var n := |runs| - 1;
      FrontIsApart(rom, runs);
      RunsShow(rom, runs[..n], k);
      RunShows(WithRuns(rom, runs[..n]), runs[n], k);
      ShowsOneMore(rom, WithRuns(rom, runs[..n]), WithRuns(rom, runs), runs, k);
    }
  }

  /** The slice of a run's place, clipped at the end of the image, is its data. */
  predicate HasRun(rom: seq<byte>, run: Run) {
    var from, to := if run.at < |rom| then run.at else |rom|,
                    if run.at + |run.data| < |rom| then run.at + |run.data| else |rom|;
    rom[from..to] == run.data
  }

  /** Every run's bytes are already in place. */
  predicate IsPatched(rom: seq<byte>, runs: seq<Run>) {
    forall i :: 0 <= i < |runs| ==> HasRun(rom, runs[i])
  }

  datatype PatchError = NotStock

  /** Already patched is returned as it is; stock is patched and stamped; anything else is refused. */
  ghost function Patched(rom: seq<byte>, probe: seq<Run>, runs: seq<Run>): Result<seq<byte>, PatchError> {
    if IsPatched(rom, runs) then Ok(rom)
    else if !IsPatched(rom, probe) then Err(NotStock)
    else Ok(Stamped(WithRuns(rom, runs)))
  }

  method Apply(rom: seq<byte>, probe: seq<Run>, runs: seq<Run>) returns (r: Result<seq<byte>, PatchError>)
    ensures r == Patched(rom, probe, runs)
    ensures r.Err? <==> !AllInPlace(rom, runs) && !AllInPlace(rom, probe)
    ensures AllInPlace(rom, runs) ==> r == Ok(rom)
  {
    RefusedIffForeign(rom, probe, runs);
    if IsPatched(rom, runs) {
      return Ok(rom);
    }
    if !IsPatched(rom, probe) {
      return Err(NotStock);
    }
    var patched := rom;
    for n := 0 to |runs|
      invariant patched == WithRuns(rom, runs[..n])
    {
      assert runs[..n + 1][..n] == runs[..n];
      patched := SliceSet(patched, runs[n].at, runs[n].data);
    }
    assert runs[..|runs|] == runs;
    var stamped := WriteChecksum(patched);
    return Ok(stamped);
  }

  /** The run's bytes stand at its place; a run of no bytes always does. */
  predicate InPlace(rom: seq<byte>, run: Run) {
    run.data == [] || (run.at + |run.data| <= |rom| && rom[run.at..run.at + |run.data|] == run.data)
  }

  ghost predicate AllInPlace(rom: seq<byte>, runs: seq<Run>) {
    forall i :: 0 <= i < |runs| ==> InPlace(rom, runs[i])
  }

  lemma {:induction false} HasRunIsInPlace(rom: seq<byte>, run: Run)
    ensures HasRun(rom, run) <==> InPlace(rom, run)
  {
  }

  lemma {:induction false} PatchedIsInPlace(rom: seq<byte>, runs: seq<Run>)
    ensures IsPatched(rom, runs) <==> AllInPlace(rom, runs)
  {
    forall i | 0 <= i < |runs|
      ensures HasRun(rom, runs[i]) <==> InPlace(rom, runs[i])
    {
      HasRunIsInPlace(rom, runs[i]);
    }
  }

  /** Only a ROM that is neither patched nor stock is refused, and a patched one comes back as it is. */
  lemma {:induction false} RefusedIffForeign(rom: seq<byte>, probe: seq<Run>, runs: seq<Run>)
    ensures Patched(rom, probe, runs).Err? <==> !AllInPlace(rom, runs) && !AllInPlace(rom, probe)
    ensures AllInPlace(rom, runs) ==> Patched(rom, probe, runs) == Ok(rom)
  {
    PatchedIsInPlace(rom, runs);
    PatchedIsInPlace(rom, probe);
  }

  /**
   * Applying a patch whose runs are disjoint and off the checksum field, to a ROM of
   * any size that holds them, stock or already patched: it succeeds, the result
   * carries every run, is its own patch, has a true checksum unless it was already
   * patched, and differs from the source only in the runs and the field.
   */
  lemma {:induction false} ApplyIsIdempotent(rom: seq<byte>, probe: seq<Run>, runs: seq<Run>)
    requires !AllInPlace(rom, runs) ==> IsRom(rom) && Inside(runs, |rom|)
    requires Apart(runs) && OffField(runs) && (AllInPlace(rom, runs) || AllInPlace(rom, probe))
    ensures Patched(rom, probe, runs).Ok?
    ensures var r := Patched(rom, probe, runs).value;
            && |r| == |rom| && AllInPlace(r, runs)
            && Patched(r, probe, runs) == Ok(r)
            && (forall k :: 0 <= k < |rom| && !InField(k) && (forall i :: 0 <= i < |runs| ==> !runs[i].Covers(k)) ==>
                  r[k] == rom[k])
            && (!AllInPlace(rom, runs) ==> IsRom(r) && Sum(r) % 0x10000 == StoredChecksum(r))
  {
    PatchedIsInPlace(rom, runs);
    PatchedIsInPlace(rom, probe);
    if !IsPatched(rom, runs) {
      PatchingStock(rom, runs);
    }
    PatchedIsInPlace(Patched(rom, probe, runs).value, runs);
  }

  /** Stock with the runs written and the field stamped. */
  lemma {:induction false} PatchingStock(rom: seq<byte>, runs: seq<Run>)
    requires IsRom(rom) && Inside(runs, |rom|) && Apart(runs) && OffField(runs)
    ensures var r := Stamped(WithRuns(rom, runs));
            && |r| == |rom| && IsPatched(r, runs)
            && (forall k :: 0 <= k < |rom| && !InField(k) && (forall i :: 0 <= i < |runs| ==> !runs[i].Covers(k)) ==>
                  r[k] == rom[k])
            && IsRom(r) && Sum(r) % 0x10000 == StoredChecksum(r)
  {
    var written := WithRuns(rom, runs);
    var r := Stamped(written);
    StampIgnoresField(written, written);
    StampedSumMatches(written);
    forall i | 0 <= i < |runs|
      ensures HasRun(r, runs[i])
    {
      RunSurvives(rom, runs, i);
    }
    forall k | 0 <= k < |rom| && !InField(k) && (forall i :: 0 <= i < |runs| ==> !runs[i].Covers(k))
      ensures r[k] == rom[k]
    {
      RunsShow(rom, runs, k);
    }
  }

  /** A byte of a run shows the run's data, stamped or not. */
  lemma {:induction false} RunByteSurvives(rom: seq<byte>, runs: seq<Run>, i: nat, k: nat)
    requires IsRom(rom) && Inside(runs, |rom|) && Apart(runs) && OffField(runs) && i < |runs| && runs[i].Covers(k)
    ensures k < |Stamped(WithRuns(rom, runs))|
    ensures Stamped(WithRuns(rom, runs))[k] == runs[i].data[k - runs[i].at]
  {
    RunsShow(rom, runs, k);
    StampIgnoresField(WithRuns(rom, runs), WithRuns(rom, runs));
  }

  lemma {:induction false} HasItsBytes(rom: seq<byte>, run: Run)
    requires run.at + |run.data| <= |rom|
    requires forall k :: run.Covers(k) ==> rom[k] == run.data[k - run.at]
    ensures HasRun(rom, run)
  {
    var shown := rom[run.at..run.at + |run.data|];
    forall j | 0 <= j < |run.data|
      ensures shown[j] == run.data[j]
    {
      assert run.Covers(run.at + j);
    }
  }

  lemma {:induction false} RunSurvives(rom: seq<byte>, runs: seq<Run>, i: nat)
    requires IsRom(rom) && Inside(runs, |rom|) && Apart(runs) && OffField(runs) && i < |runs|
    ensures HasRun(Stamped(WithRuns(rom, runs)), runs[i])
  {
    var r := Stamped(WithRuns(rom, runs));
    forall k | runs[i].Covers(k)
      ensures r[k] == runs[i].data[k - runs[i].at]
    {
      RunByteSurvives(rom, runs, i, k);
    }
    HasItsBytes(r, runs[i]);
  }

  // --------------------------------------------------------------------- diff

  /** The byte differs and is not part of the checksum field. */
  predicate Differs(before: seq<byte>, after: seq<byte>, i: int)
    requires |before| == |after|
  {
    0 <= i < |before| && !InField(i) && before[i] != after[i]
  }

  /** A run is exactly one maximal stretch of differing bytes, holding the new ones. */
  ghost predicate MaximalRun(before: seq<byte>, after: seq<byte>, run: Run)
    requires |before| == |after|
  {
    && |run.data| > 0 && run.at + |run.data| <= |after|
    && run.data == after[run.at..run.at + |run.data|]
    && (forall k :: run.Covers(k) ==> Differs(before, after, k))
    && !Differs(before, after, run.at - 1) && !Differs(before, after, run.at + |run.data|)
  }

  /** The runs account for every difference below `limit`. */
  ghost predicate Recorded(before: seq<byte>, after: seq<byte>, runs: seq<Run>, limit: nat)
    requires |before| == |after|
  {
    forall k :: 0 <= k < limit && Differs(before, after, k) ==> exists i :: 0 <= i < |runs| && runs[i].Covers(k)
  }

  /** Ordered, strictly separated, and closed before `limit`. */
  ghost predicate Separated(runs: seq<Run>, limit: nat) {
    && (forall i, j :: 0 <= i < j < |runs| ==> runs[i].at + |runs[i].data| < runs[j].at)
    && (forall i :: 0 <= i < |runs| ==> runs[i].at + |runs[i].data| <= limit)
  }

  ghost predicate AllMaximal(before: seq<byte>, after: seq<byte>, runs: seq<Run>)
    requires |before| == |after|
  {
    forall i :: 0 <= i < |runs| ==> MaximalRun(before, after, runs[i])
  }

  /** The diff is right so far: closed runs are recorded, and an open one is all differences. */
  ghost predicate Scanning(before: seq<byte>, after: seq<byte>, found: seq<Run>, start: Option<nat>, index: nat)
    requires |before| == |after|
  {
    var closed := if start.Some? then start.value else index;
    && closed <= index <= |before|
    && AllMaximal(before, after, found) && Separated(found, closed) && Recorded(before, after, found, closed)
    && (start.None? ==> !Differs(before, after, index - 1))
    && (start.Some? ==> OpenAt(before, after, found, start.value, index))
  }

  /** Everything from `start` up to `end` differs, and the run cannot be extended or joined backwards. */
  ghost predicate OpenAt(before: seq<byte>, after: seq<byte>, found: seq<Run>, start: nat, end: nat)
    requires |before| == |after|
  {
    && start < end && AllDiffer(before, after, start, end) && !Differs(before, after, start - 1)
    && (found != [] ==> found[|found| - 1].at + |found[|found| - 1].data| < start)
  }

  ghost predicate AllDiffer(before: seq<byte>, after: seq<byte>, start: nat, end: nat)
    requires |before| == |after|
  {
    forall k :: start <= k < end ==> Differs(before, after, k)
  }

  /** The runs of one diff: ordered, strictly separated, maximal, and accounting for every difference. */
  ghost predicate IsDiff(before: seq<byte>, after: seq<byte>, runs: seq<Run>)
    requires |before| == |after|
  {
    AllMaximal(before, after, runs) && Separated(runs, |before|) && Recorded(before, after, runs, |before|)
  }

  datatype DiffError = Shorter(at: nat)

  /** The second image over the first one's length; field bytes it lacks count as unchanged. */
  function Aligned(before: seq<byte>, after: seq<byte>): (r: seq<byte>)
    ensures |r| == |before| && forall i :: 0 <= i < |before| ==> r[i] == if i < |after| then after[i] else before[i]
  {
    seq(|before|, i requires 0 <= i < |before| => if i < |after| then after[i] else before[i])
  }

  /** A run open at the end takes along whatever the second image has past the first one's length. */
  function WithTail(before: seq<byte>, after: seq<byte>, runs: seq<Run>): seq<Run> {
    if runs != [] && |after| > |before| && Differs(before, Aligned(before, after), |before| - 1) then
      var last := runs[|runs| - 1];
      runs[..|runs| - 1] + [Run(last.at, last.data + after[|before|..])]
    else runs
  }

  lemma {:induction false} SameLengthIsPlain(before: seq<byte>, after: seq<byte>, runs: seq<Run>)
    requires |before| == |after|
    ensures Aligned(before, after) == after && WithTail(before, after, runs) == runs
  {
  }

  /** One index: a field byte or an equal one closes what is open, a differing one opens or carries on. */
  method StepRun(before: seq<byte>, after: seq<byte>, was: seq<Run>, open: Option<nat>, index: nat)
    returns (found: seq<Run>, start: Option<nat>)
    requires index < |before| && Scanning(before, Aligned(before, after), was, open, index)
    requires InField(index) || index < |after|
    ensures Scanning(before, Aligned(before, after), found, start, index + 1)
  {
    found, start := was, open;
    if !InField(index) && before[index] != after[index] {
      OpenRun(before, Aligned(before, after), was, open, index);
      if start.None? {
        start := Some(index);
      }
    } else {
      StopRun(before, Aligned(before, after), was, open, index);
      if start.Some? {
        found := found + [AlignedRun(before, after, was, start.value, index)];
        start := None;
      }
    }
  }

  /** The last run, if one is open at the end, takes the rest of the second image. */
  method FinishRuns(before: seq<byte>, after: seq<byte>, was: seq<Run>, start: Option<nat>)
    returns (found: seq<Run>, ghost base: seq<Run>)
    requires Scanning(before, Aligned(before, after), was, start, |before|)
    ensures IsDiff(before, Aligned(before, after), base) && found == WithTail(before, after, base)
  {
    found, base := was, was;
    if start.Some? {
      CloseRun(before, Aligned(before, after), was, start.value, |before|);
      base := was + [Run(start.value, Aligned(before, after)[start.value..|before|])];
      TailOfOpenRun(before, after, was, start.value);
      found := was + [Run(start.value, after[start.value..])];
    }
  }

  /** The second image has every byte the diff compares. */
  predicate Comparable(before: seq<byte>, after: seq<byte>, limit: nat) {
    forall i :: |after| <= i < limit ==> InField(i)
  }

  /** The first image's last byte is compared and found different. */
  predicate EndsDifferent(before: seq<byte>, after: seq<byte>) {
    var n := |before|;
    0 < n <= |after| && !InField(n - 1) && before[n - 1] != after[n - 1]
  }

  /** A run is a slice of the second image: all that is left of it if it is open at the end, else within the first. */
  ghost predicate IsSlice(before: seq<byte>, after: seq<byte>, run: Run, open: bool) {
    var end := run.at + |run.data|;
    && end <= |after| && run.data == after[run.at..end]
    && if open then end == |after| else end <= |before|
  }

  /** Every run is such a slice, and there is an open one, the last, exactly when the images end differently. */
  ghost predicate AreSlices(before: seq<byte>, after: seq<byte>, runs: seq<Run>) {
    && (EndsDifferent(before, after) ==> runs != [])
    && forall i :: 0 <= i < |runs| ==>
         IsSlice(before, after, runs[i], i == |runs| - 1 && EndsDifferent(before, after))
  }

  lemma {:induction false} RunIsSlice(before: seq<byte>, after: seq<byte>, run: Run)
    requires MaximalRun(before, Aligned(before, after), run) && Comparable(before, after, |before|)
    ensures IsSlice(before, after, run, false)
  {
    var aligned, end := Aligned(before, after), run.at + |run.data|;
    assert run.Covers(end - 1) && Differs(before, aligned, end - 1);
    SameSlice(before, after, run.at, end);
  }

  lemma {:induction false} SameSlice(before: seq<byte>, after: seq<byte>, from: nat, to: nat)
    requires from <= to <= |before| && to <= |after|
    ensures Aligned(before, after)[from..to] == after[from..to]
  {
  }

  /** If the last byte differs, the last run is the one that ends with it. */
  lemma {:induction false} LastRunEnds(before: seq<byte>, after: seq<byte>, runs: seq<Run>)
    requires |before| == |after| && IsDiff(before, after, runs) && Differs(before, after, |before| - 1)
    ensures runs != [] && runs[|runs| - 1].at + |runs[|runs| - 1].data| == |before|
  {
    var i :| 0 <= i < |runs| && runs[i].Covers(|before| - 1);
    assert MaximalRun(before, after, runs[i]) && MaximalRun(before, after, runs[|runs| - 1]);
  }

  lemma {:induction false} BaseIsSlices(before: seq<byte>, after: seq<byte>, runs: seq<Run>)
    requires IsDiff(before, Aligned(before, after), runs) && Comparable(before, after, |before|)
    ensures forall i :: 0 <= i < |runs| ==> IsSlice(before, after, runs[i], false)
  {
    forall i | 0 <= i < |runs|
      ensures IsSlice(before, after, runs[i], false)
    {
      RunIsSlice(before, after, runs[i]);
    }
  }

  lemma {:induction false} OpenTakesRest(before: seq<byte>, after: seq<byte>, last: Run)
    requires IsSlice(before, after, last, false) && last.at + |last.data| == |before|
    ensures IsSlice(before, after, Run(last.at, last.data + after[|before|..]), true)
  {
    assert last.data + after[|before|..] == after[last.at..|after|];
  }

  lemma {:induction false} LastTakesRest(before: seq<byte>, after: seq<byte>, runs: seq<Run>, last: Run)
    requires runs != [] && EndsDifferent(before, after) && IsSlice(before, after, last, true)
    requires forall i :: 0 <= i < |runs| ==> IsSlice(before, after, runs[i], false)
    ensures AreSlices(before, after, runs[..|runs| - 1] + [last])
  {
  }

  lemma {:induction false} EndsIffDiffers(before: seq<byte>, after: seq<byte>)
    requires Comparable(before, after, |before|)
    ensures EndsDifferent(before, after) <==> Differs(before, Aligned(before, after), |before| - 1)
  {
  }

  lemma {:induction false} OpenTail(before: seq<byte>, after: seq<byte>, runs: seq<Run>)
    requires EndsDifferent(before, after) && runs != []
    ensures var last := runs[|runs| - 1];
            WithTail(before, after, runs) == runs[..|runs| - 1] + [Run(last.at, last.data + after[|before|..])]
  {
    var last := runs[|runs| - 1];
    if |after| == |before| {
      assert last.data + after[|before|..] == last.data;
      assert runs == runs[..|runs| - 1] + [last];
    }
  }

  lemma {:induction false} TailIsRest(before: seq<byte>, after: seq<byte>, runs: seq<Run>)
    requires IsDiff(before, Aligned(before, after), runs) && Comparable(before, after, |before|)
    ensures AreSlices(before, after, WithTail(before, after, runs))
  {
    BaseIsSlices(before, after, runs);
    EndsIffDiffers(before, after);
    if EndsDifferent(before, after) {
      LastRunEnds(before, Aligned(before, after), runs);
      var last := runs[|runs| - 1];
      OpenTakesRest(before, after, last);
      OpenTail(before, after, runs);
      LastTakesRest(before, after, runs, Run(last.at, last.data + after[|before|..]));
    } else {
      assert WithTail(before, after, runs) == runs;
    }
  }

  /**
   * The diff of two images, field bytes passed over. It fails exactly when the
   * second image lacks a byte that has to be compared, at the first such byte.
   */
  method DifferingRuns(before: seq<byte>, after: seq<byte>) returns (r: Result<seq<Run>, DiffError>)
    ensures r.Ok? <==> Comparable(before, after, |before|)
    ensures r.Err? ==>
              var at := r.error.at;
              |after| <= at < |before| && !InField(at) && Comparable(before, after, at)
    ensures r.Ok? ==> AreSlices(before, after, r.value)
    ensures r.Ok? ==>
              exists base :: IsDiff(before, Aligned(before, after), base) && r.value == WithTail(before, after, base)
    ensures r.Ok? && |before| == |after| ==> IsDiff(before, after, r.value)
  {
    var found: seq<Run> := [];
    var start: Option<nat> := None;
    for index := 0 to |before|
      invariant Scanning(before, Aligned(before, after), found, start, index)
      invariant Comparable(before, after, index)
    {
      if !InField(index) && index >= |after| {
        return Err(Shorter(index));
      }
      found, start := StepRun(before, after, found, start, index);
    }
    ghost var base;
    found, base := FinishRuns(before, after, found, start);
    TailIsRest(before, after, base);
    if |before| == |after| {
      SameLengthIsPlain(before, after, base);
    }
    return Ok(found);
  }

  /** Differing bytes are ones the second image has, so its own slice is the run's data. */
  function AlignedRun(before: seq<byte>, after: seq<byte>, ghost found: seq<Run>, start: nat, end: nat): (run: Run)
    requires end <= |before| && OpenAt(before, Aligned(before, after), found, start, end)
    ensures run == Run(start, Aligned(before, after)[start..end])
  {
    OpenIsPresent(before, after, found, start, end);
    Run(start, after[start..end])
  }

  lemma {:induction false} OpenIsPresent(before: seq<byte>, after: seq<byte>, found: seq<Run>, start: nat, end: nat)
    requires end <= |before| && OpenAt(before, Aligned(before, after), found, start, end)
    ensures end <= |after| && after[start..end] == Aligned(before, after)[start..end]
  {
    assert Differs(before, Aligned(before, after), end - 1);
  }

  lemma {:induction false} TailOfOpenRun(before: seq<byte>, after: seq<byte>, found: seq<Run>, start: nat)
    requires OpenAt(before, Aligned(before, after), found, start, |before|)
    ensures |before| <= |after|
    ensures found + [Run(start, after[start..])]
         == WithTail(before, after, found + [Run(start, Aligned(before, after)[start..|before|])])
  {
    var aligned := Aligned(before, after);
    OpenIsPresent(before, after, found, start, |before|);
    assert Differs(before, aligned, |before| - 1);
    var base := found + [Run(start, aligned[start..|before|])];
    assert base[..|base| - 1] == found;
    if |after| == |before| {
      assert after[start..] == aligned[start..|before|];
    } else {
      assert after[start..] == aligned[start..|before|] + after[|before|..];
    }
  }

  /** A difference carries on the open run, or opens one that cannot touch the run before it. */
  lemma {:induction false} OpenRun(before: seq<byte>, after: seq<byte>, found: seq<Run>, start: Option<nat>, index: nat)
    requires |before| == |after| && Scanning(before, after, found, start, index) && Differs(before, after, index)
    ensures Scanning(before, after, found, if start.Some? then start else Some(index), index + 1)
  {
    if start.None? && found != [] {
      assert MaximalRun(before, after, found[|found| - 1]);
    }
  }

  /** Closing a run at a byte that does not differ records it as a maximal one. */
  lemma {:induction false} CloseRun(before: seq<byte>, after: seq<byte>, found: seq<Run>, start: nat, end: nat)
    requires |before| == |after| && Scanning(before, after, found, Some(start), end) && !Differs(before, after, end)
    ensures var more := found + [Run(start, after[start..end])];
            AllMaximal(before, after, more) && Separated(more, end) && Recorded(before, after, more, end)
    ensures end < |before| ==> Recorded(before, after, found + [Run(start, after[start..end])], end + 1)
  {
    var run := Run(start, after[start..end]);
    var more := found + [run];
    assert MaximalRun(before, after, run);
    forall i, j | 0 <= i < j < |more|
      ensures more[i].at + |more[i].data| < more[j].at
    {
      if j == |found| && i < |found| - 1 {
        assert found[i].at + |found[i].data| < found[|found| - 1].at;
      }
    }
    RecordRun(before, after, found, start, end);
  }

  lemma {:induction false} RecordRun(before: seq<byte>, after: seq<byte>, found: seq<Run>, start: nat, end: nat)
    requires |before| == |after| && start < end <= |before| && Recorded(before, after, found, start)
    ensures Recorded(before, after, found + [Run(start, after[start..end])], end)
    ensures !Differs(before, after, end) ==> Recorded(before, after, found + [Run(start, after[start..end])], end + 1)
  {
    var more := found + [Run(start, after[start..end])];
    forall k | 0 <= k < end && Differs(before, after, k)
      ensures exists i :: 0 <= i < |more| && more[i].Covers(k)
    {
      if k < start {
        var i :| 0 <= i < |found| && found[i].Covers(k);
        assert more[i].Covers(k);
      } else {
        assert more[|found|].Covers(k);
      }
    }
  }

  /** A byte that does not differ closes whatever run is open. */
  lemma {:induction false} StopRun(before: seq<byte>, after: seq<byte>, found: seq<Run>, start: Option<nat>, index: nat)
    requires |before| == |after| && index < |before| && !Differs(before, after, index)
    requires Scanning(before, after, found, start, index)
    ensures Scanning(before, after,
              if start.Some? then found + [Run(start.value, after[start.value..index])] else found, None, index + 1)
  {
    if start.Some? {
      CloseRun(before, after, found, start.value, index);
    }
  }

  /**
   * Re-applying a diff: over `before` the runs give `after` everywhere but the
   * field, so stamping gives what stamping `after` gives; the original comes back
   * exactly when it carries its own checksum.
   */
  lemma {:induction false} DiffRoundTrip(before: seq<byte>, after: seq<byte>, runs: seq<Run>)
    requires |before| == |after| && IsRom(before)
    requires IsDiff(before, after, runs)
    ensures Inside(runs, |before|) && Apart(runs) && OffField(runs)
    ensures Stamped(WithRuns(before, runs)) == Stamped(after)
    ensures Stamped(WithRuns(before, runs)) == after <==> Stamped(after) == after
  {
    DiffIsApart(before, after, runs);
    var written := WithRuns(before, runs);
    forall k | 0 <= k < |before| && !InField(k)
      ensures written[k] == after[k]
    {
      DiffShows(before, after, runs, k);
    }
    StampIgnoresField(written, after);
  }

  /** Off the field, writing the diff over `before` shows `after`. */
  lemma {:induction false} DiffShows(before: seq<byte>, after: seq<byte>, runs: seq<Run>, k: nat)
    requires |before| == |after| && k < |before| && !InField(k) && Inside(runs, |before|) && Apart(runs)
    requires AllMaximal(before, after, runs) && Recorded(before, after, runs, |before|)
    ensures WithRuns(before, runs)[k] == after[k]
  {
    if i :| 0 <= i < |runs| && runs[i].Covers(k) {
      RunsShow(before, runs, k);
      RunHoldsAfter(before, after, runs[i], k);
    } else {
      assert !Differs(before, after, k);
      UncoveredIsKept(before, runs, k);
    }
  }

  lemma {:induction false} RunHoldsAfter(before: seq<byte>, after: seq<byte>, run: Run, k: nat)
    requires |before| == |after| && MaximalRun(before, after, run) && run.Covers(k)
    ensures run.data[k - run.at] == after[k]
  {
  }

  lemma {:induction false} UncoveredIsKept(rom: seq<byte>, runs: seq<Run>, k: nat)
    requires Inside(runs, |rom|) && Apart(runs) && k < |rom| && forall i :: 0 <= i < |runs| ==> !runs[i].Covers(k)
    ensures WithRuns(rom, runs)[k] == rom[k]
  {
    RunsShow(rom, runs, k);
  }

  lemma {:induction false} DiffIsApart(before: seq<byte>, after: seq<byte>, runs: seq<Run>)
    requires |before| == |after| && AllMaximal(before, after, runs) && Separated(runs, |before|)
    ensures Inside(runs, |before|) && Apart(runs) && OffField(runs)
  {
    forall i, k | 0 <= i < |runs| && runs[i].Covers(k)
      ensures !InField(k)
    {
      assert MaximalRun(before, after, runs[i]) && Differs(before, after, k);
    }
  }
}
