/**
 * Searching a cartridge for streams whose decoded bytes occur in a reference.
 * Two bitmaps of window hashes narrow the search; they may cost time but never a hit.
 */
module StreamFind {
  import opened Types
  import opened Bits
  import opened Listing

  const PROBE_LENGTH := 8
  const CONFIRM_LENGTH := 32
  const MIN_PROBE_DISTINCT := 4
  const MIN_DISTINCT := 10
  const EXTEND_LENGTH := 4096

  type Decoder = (seq<byte>, nat, nat) -> Option<seq<byte>>

  /** Decodes exactly as many bytes as asked, and a shorter request is a prefix of a longer one. */
  ghost predicate PrefixConsistent(decode: Decoder) {
    && (forall s, o: nat, n: nat :: decode(s, o, n).Some? ==> |decode(s, o, n).value| == n)
    && (forall s, o: nat, m: nat, n: nat :: m <= n && decode(s, o, n).Some? ==>
          decode(s, o, m) == Some(decode(s, o, n).value[..m]))
  }

  // ------------------------------------------------------------------ bits

  /** `v >> k & 1`. */
  predicate TestBit(v: nat, k: nat) {
    if k == 0 then v % 2 == 1 else TestBit(v / 2, k - 1)
  }

  /** `v | 1 << k`. */
  function SetBit(v: nat, k: nat): nat {
    if k == 0 then v - v % 2 + 1 else 2 * SetBit(v / 2, k - 1) + v % 2
  }

  /** Setting one bit sets that bit and no other. */
  lemma {:induction false} SetBitSetsOne(v: nat, k: nat, j: nat)
    ensures TestBit(SetBit(v, k), j) <==> j == k || TestBit(v, j)
  {
    if k != 0 && j != 0 {
      SetBitSetsOne(v / 2, k - 1, j - 1);
    }
  }

  lemma {:induction false} SetBitFits(v: nat, k: nat, n: nat)
    requires k < n && v < Power2(n)
    ensures SetBit(v, k) < Power2(n)
  {
    if k != 0 {
      SetBitFits(v / 2, k - 1, n - 1);
    }
  }

  lemma {:induction false} ByteStaysByte(v: byte, k: nat)
    requires k < 8
    ensures SetBit(v, k) < 0x100
  {
    assert Power2(4) == 16 && Power2(8) == 256;
    SetBitFits(v, k, 8);
  }

  function SetByteBit(v: byte, k: nat): byte
    requires k < 8
  {
    ByteStaysByte(v, k);
    SetBit(v, k)
  }

  lemma {:induction false} ZeroHasNoBits(k: nat)
    ensures !TestBit(0, k)
  {
    if k != 0 {
      ZeroHasNoBits(k - 1);
    }
  }

  // ---------------------------------------------------------------- bitmaps

  function WindowHash(crc: seq<byte> -> nat, value: seq<byte>, bits: nat): (slot: nat)
    ensures slot < Power2(bits)
  {
    crc(value) % Power2(bits)
  }

  predicate Marked(bitmap: seq<byte>, slot: nat)
    requires slot / 8 < |bitmap|
  {
    TestBit(bitmap[slot / 8], slot % 8)
  }

  lemma {:induction false} SlotInside(slot: nat, bits: nat)
    requires bits >= 3 && slot < Power2(bits)
    ensures slot / 8 < Power2(bits) / 8
  {
    assert Power2(bits) == 2 * Power2(bits - 1);
    assert Power2(bits - 1) == 2 * Power2(bits - 2);
    assert Power2(bits - 2) == 2 * Power2(bits - 3);
  }

  predicate Probe(crc: seq<byte> -> nat, bitmap: seq<byte>, value: seq<byte>, bits: nat)
    requires bits >= 3 && |bitmap| == Power2(bits) / 8
  {
    SlotInside(WindowHash(crc, value, bits), bits);
    Marked(bitmap, WindowHash(crc, value, bits))
  }

  /** The window at `i` hashes to `slot`. */
  predicate WindowIs(crc: seq<byte> -> nat, data: seq<byte>, window: nat, bits: nat, i: nat, slot: nat) {
    i + window <= |data| && WindowHash(crc, data[i..i + window], bits) == slot
  }

  /** One of the first `count` windows hashes to `slot`. */
  ghost predicate HashedWindow(crc: seq<byte> -> nat, data: seq<byte>, window: nat, bits: nat, count: int, slot: nat) {
    exists i: nat :: i < count && WindowIs(crc, data, window, bits, i, slot)
  }

  /** The bitmap's marks are the hashes of the first `count` windows, and nothing else. */
  ghost predicate MarksWindows(crc: seq<byte> -> nat, bitmap: seq<byte>, data: seq<byte>, window: nat, bits: nat,
                               count: int)
    requires bits >= 3 && |bitmap| == Power2(bits) / 8
  {
    forall slot: nat :: slot < Power2(bits) ==> MarksSlot(crc, bitmap, data, window, bits, count, slot)
  }

  ghost predicate MarksSlot(crc: seq<byte> -> nat, bitmap: seq<byte>, data: seq<byte>, window: nat, bits: nat,
                            count: int, slot: nat)
    requires bits >= 3 && |bitmap| == Power2(bits) / 8 && slot < Power2(bits)
  {
    SlotInside(slot, bits);
    Marked(bitmap, slot) <==> HashedWindow(crc, data, window, bits, count, slot)
  }

  /** The bitmap of that width marks exactly the data's windows. */
  ghost predicate Marks(crc: seq<byte> -> nat, bitmap: seq<byte>, data: seq<byte>, window: nat, bits: nat) {
    && bits >= 3 && |bitmap| == Power2(bits) / 8
    && MarksWindows(crc, bitmap, data, window, bits, |data| - window + 1)
  }

  /** One bit per window of the data, set by the window's hash; exactly those bits. */
  method BuildBitmap(crc: seq<byte> -> nat, data: seq<byte>, window: nat, bits: nat) returns (bitmap: seq<byte>)
    requires bits >= 3
    ensures Marks(crc, bitmap, data, window, bits)
  {
    var map8 := new byte[Power2(bits) / 8](_ => 0);
    BlankMarksNothing(crc, map8[..], data, window, bits);
    var i: nat := 0;
    while i < |data| - window + 1
      invariant i == 0 || i <= |data| - window + 1
      invariant MarksWindows(crc, map8[..], data, window, bits, i)
    {
      var slot := WindowHash(crc, data[i..i + window], bits);
      ghost var was := map8[..];
      SlotInside(slot, bits);
      map8[slot / 8] := SetByteBit(map8[slot / 8], slot % 8);
      MarkWindow(crc, was, map8[..], data, window, bits, i);
      i := i + 1;
    }
    NoMoreWindows(crc, map8[..], data, window, bits, i);
    bitmap := map8[..];
  }

  lemma {:induction false} BlankMarksNothing(crc: seq<byte> -> nat, bitmap: seq<byte>, data: seq<byte>,
                                             window: nat, bits: nat)
    requires bits >= 3 && |bitmap| == Power2(bits) / 8
    requires forall k :: 0 <= k < |bitmap| ==> bitmap[k] == 0
    ensures MarksWindows(crc, bitmap, data, window, bits, 0)
  {
    forall slot: nat | slot < Power2(bits)
      ensures MarksSlot(crc, bitmap, data, window, bits, 0, slot)
    {
      SlotInside(slot, bits);
      ZeroHasNoBits(slot % 8);
    }
  }

  lemma {:induction false} MarkWindow(crc: seq<byte> -> nat, was: seq<byte>, now: seq<byte>, data: seq<byte>,
                                      window: nat, bits: nat, i: nat)
    requires bits >= 3 && |was| == Power2(bits) / 8 == |now| && i + window <= |data|
    requires MarksWindows(crc, was, data, window, bits, i)
    requires var slot := WindowHash(crc, data[i..i + window], bits);
             slot / 8 < |was| && now == was[slot / 8 := SetByteBit(was[slot / 8], slot % 8)]
    ensures MarksWindows(crc, now, data, window, bits, i + 1)
  {
    var slot, next := WindowHash(crc, data[i..i + window], bits), i + 1;
    forall s: nat | s < Power2(bits)
      ensures MarksSlot(crc, now, data, window, bits, next, s)
    {
      SlotInside(s, bits);
      assert MarksSlot(crc, was, data, window, bits, i, s);
      MarkOne(was, now, slot, s);
      OneMoreWindow(crc, data, window, bits, i, s);
    }
  }

  /** Once the loop is done every window has been hashed, even if there were none. */
  lemma {:induction false} NoMoreWindows(crc: seq<byte> -> nat, bitmap: seq<byte>, data: seq<byte>,
                                         window: nat, bits: nat, i: nat)
    requires bits >= 3 && |bitmap| == Power2(bits) / 8 && MarksWindows(crc, bitmap, data, window, bits, i)
    requires i >= |data| - window + 1 && (i == 0 || i <= |data| - window + 1)
    ensures MarksWindows(crc, bitmap, data, window, bits, |data| - window + 1)
  {
    var all := |data| - window + 1;
    forall s: nat | s < Power2(bits)
      ensures MarksSlot(crc, bitmap, data, window, bits, all, s)
    {
      assert MarksSlot(crc, bitmap, data, window, bits, i, s);
    }
  }

  lemma {:induction false} MarkOne(was: seq<byte>, now: seq<byte>, slot: nat, s: nat)
    requires slot / 8 < |was| && s / 8 < |was| && now == was[slot / 8 := SetByteBit(was[slot / 8], slot % 8)]
    ensures Marked(now, s) <==> s == slot || Marked(was, s)
  {
    if s / 8 == slot / 8 {
      SetBitSetsOne(was[slot / 8], slot % 8, s % 8);
    }
  }

  lemma {:induction false} OneMoreWindow(crc: seq<byte> -> nat, data: seq<byte>, window: nat, bits: nat, i: nat, s: nat)
    requires i + window <= |data|
    ensures HashedWindow(crc, data, window, bits, i + 1, s) <==>
              HashedWindow(crc, data, window, bits, i, s) || s == WindowHash(crc, data[i..i + window], bits)
  {
    if s == WindowHash(crc, data[i..i + window], bits) {
      assert WindowIs(crc, data, window, bits, i, s);
    }
  }

  // ------------------------------------------------------------- the search

  function Letters(blob: seq<byte>): set<byte> {
    set v | v in blob
  }

  predicate IsDistinctive(blob: seq<byte>, minimum: nat) {
    |Letters(blob)| >= minimum
  }

  predicate OccursAt(reference: seq<byte>, blob: seq<byte>, at: nat) {
    at + |blob| <= |reference| && reference[at..at + |blob|] == blob
  }

  /** The first place from `i` on where the blob occurs. */
  function FindFrom(reference: seq<byte>, blob: seq<byte>, i: nat): (r: Option<nat>)
    ensures r.Some? ==> i <= r.value && OccursAt(reference, blob, r.value)
    ensures forall j :: i <= j < (if r.Some? then r.value else |reference| + 1) ==> !OccursAt(reference, blob, j)
    decreases |reference| + 1 - i
  {
    if i > |reference| then None
    else if OccursAt(reference, blob, i) then Some(i)
    else FindFrom(reference, blob, i + 1)
  }

  datatype Hit = Hit(source: nat, target: nat, length: nat)

  /** The stream's first `n` bytes stand at `target` in the reference. */
  predicate Verbatim(decode: Decoder, source: seq<byte>, reference: seq<byte>, offset: nat, target: nat, n: nat) {
    match decode(source, offset, n)
    case None => false
    case Some(blob) => OccursAt(reference, blob, target)
  }

  /** Doubling from `length`, the last length that still matched. */
  function Extended(decode: Decoder, source: seq<byte>, reference: seq<byte>, offset: nat, target: nat,
                    limit: nat, length: nat): (r: nat)
    requires length > 0
    ensures r >= length
    decreases limit - length
  {
    if length >= limit then length
    else
      var next := if 2 * length < limit then 2 * length else limit;
      if Verbatim(decode, source, reference, offset, target, next)
      then Extended(decode, source, reference, offset, target, limit, next)
      else length
  }

  /** The doubling that starts from the length already confirmed. */
  function Confirmed(decode: Decoder, source: seq<byte>, reference: seq<byte>, offset: nat, target: nat, limit: nat)
    : (r: nat)
  {
    Extended(decode, source, reference, offset, target, limit, CONFIRM_LENGTH)
  }

  method Extend(decode: Decoder, source: seq<byte>, reference: seq<byte>, offset: nat, target: nat, limit: nat)
    returns (confirmed: nat)
    ensures confirmed == Confirmed(decode, source, reference, offset, target, limit)
  {
    confirmed := CONFIRM_LENGTH;
    var length := CONFIRM_LENGTH;
    while length < limit
      invariant length == confirmed > 0
      invariant Extended(decode, source, reference, offset, target, limit, CONFIRM_LENGTH)
             == Extended(decode, source, reference, offset, target, limit, length)
      decreases limit - length
    {
      length := if 2 * length < limit then 2 * length else limit;
      var blob := decode(source, offset, length);
      if blob.None? || !OccursAt(reference, blob.value, target) {
        break;
      }
      confirmed := length;
    }
  }

  /** The extension is a verbatim match, and no longer request could have matched further up the ladder. */
  lemma {:induction false} ExtensionIsVerbatim(decode: Decoder, source: seq<byte>, reference: seq<byte>, offset: nat,
                                               target: nat, limit: nat, length: nat)
    requires PrefixConsistent(decode) && length > 0
    requires Verbatim(decode, source, reference, offset, target, length)
    ensures var r := Extended(decode, source, reference, offset, target, limit, length);
            && Verbatim(decode, source, reference, offset, target, r)
            && (length <= limit ==> r <= limit)
            && (forall n :: (if 2 * r < limit then 2 * r else limit) <= n && r < limit ==>
                  !Verbatim(decode, source, reference, offset, target, n))
    decreases limit - length
  {
    if length < limit {
      var next := if 2 * length < limit then 2 * length else limit;
      if Verbatim(decode, source, reference, offset, target, next) {
        ExtensionIsVerbatim(decode, source, reference, offset, target, limit, next);
      } else {
        forall n | next <= n
          ensures !Verbatim(decode, source, reference, offset, target, n)
        {
          if Verbatim(decode, source, reference, offset, target, n) {
            ShorterIsVerbatim(decode, source, reference, offset, target, next, n);
          }
        }
      }
    }
  }

  lemma {:induction false} ShorterIsVerbatim(decode: Decoder, source: seq<byte>, reference: seq<byte>, offset: nat,
                                             target: nat, m: nat, n: nat)
    requires PrefixConsistent(decode) && m <= n && Verbatim(decode, source, reference, offset, target, n)
    ensures Verbatim(decode, source, reference, offset, target, m)
  {
    var blob := decode(source, offset, n).value;
    assert reference[target..target + n][..m] == reference[target..target + m];
  }

  /** The search without any bitmap: both distinctiveness tests, then a look in the reference. */
  function HitAt(decode: Decoder, source: seq<byte>, reference: seq<byte>, offset: nat): Option<Hit> {
    match decode(source, offset, PROBE_LENGTH)
    case None => None
    case Some(head) =>
      if !IsDistinctive(head, MIN_PROBE_DISTINCT) then None
      else
        match decode(source, offset, CONFIRM_LENGTH)
        case None => None
        case Some(blob) =>
          if !IsDistinctive(blob, MIN_DISTINCT) then None
          else
            match FindFrom(reference, blob, 0)
            case None => None
            case Some(target) =>
              Some(Hit(offset, target, Confirmed(decode, source, reference, offset, target, EXTEND_LENGTH)))
  }

  /** What each offset of the range gives. */
  function Examined(decode: Decoder, source: seq<byte>, reference: seq<byte>, start: nat, stop: nat)
    : (r: seq<Option<Hit>>)
    ensures |r| == if start < stop then stop - start else 0
  {
    seq(if start < stop then stop - start else 0, i requires 0 <= i => HitAt(decode, source, reference, start + i))
  }

  function Hits(decode: Decoder, source: seq<byte>, reference: seq<byte>, start: nat, stop: nat): seq<Hit> {
    Kept(Examined(decode, source, reference, start, stop))
  }

  /** A window that occurs in the data always passes its bitmap. */
  lemma {:induction false} OccurringPasses(crc: seq<byte> -> nat, bitmap: seq<byte>, data: seq<byte>, window: nat,
                                           bits: nat, value: seq<byte>, at: nat)
    requires Marks(crc, bitmap, data, window, bits)
    requires |value| == window && OccursAt(data, value, at)
    ensures Probe(crc, bitmap, value, bits)
  {
    var slot := WindowHash(crc, value, bits);
    assert WindowIs(crc, data, window, bits, at, slot);
    assert MarksSlot(crc, bitmap, data, window, bits, |data| - window + 1, slot);
  }

  /** The two bitmaps of one search, with their widths. */
  datatype Filters = Filters(probeMap: seq<byte>, probeBits: nat, confirmMap: seq<byte>, confirmBits: nat) {
    predicate Valid() {
      && probeBits >= 3 && |probeMap| == Power2(probeBits) / 8
      && confirmBits >= 3 && |confirmMap| == Power2(confirmBits) / 8
    }
  }

  /** If the unfiltered search reports the offset, its head and its output pass the bitmaps. */
  ghost predicate Passes(decode: Decoder, crc: seq<byte> -> nat, source: seq<byte>, reference: seq<byte>, f: Filters,
                         offset: nat)
    requires f.Valid()
  {
    HitAt(decode, source, reference, offset).Some? ==>
      && Probe(crc, f.probeMap, decode(source, offset, PROBE_LENGTH).value, f.probeBits)
      && Probe(crc, f.confirmMap, decode(source, offset, CONFIRM_LENGTH).value, f.confirmBits)
  }

  /** Whatever the unfiltered search reports passes both filters, its head included. */
  lemma {:induction false} HitsPassFilters(decode: Decoder, crc: seq<byte> -> nat, source: seq<byte>,
                                           reference: seq<byte>, f: Filters, offset: nat)
    requires PrefixConsistent(decode)
    requires Marks(crc, f.probeMap, reference, PROBE_LENGTH, f.probeBits)
    requires Marks(crc, f.confirmMap, reference, CONFIRM_LENGTH, f.confirmBits)
    ensures f.Valid() && Passes(decode, crc, source, reference, f, offset)
  {
    if HitAt(decode, source, reference, offset).Some? {
      var head, blob := decode(source, offset, PROBE_LENGTH).value, decode(source, offset, CONFIRM_LENGTH).value;
      var target := FindFrom(reference, blob, 0).value;
      OccurringPasses(crc, f.confirmMap, reference, CONFIRM_LENGTH, f.confirmBits, blob, target);
      assert head == blob[..PROBE_LENGTH];
      assert reference[target..target + CONFIRM_LENGTH][..PROBE_LENGTH] == reference[target..target + PROBE_LENGTH];
      OccurringPasses(crc, f.probeMap, reference, PROBE_LENGTH, f.probeBits, head, target);
    }
  }

  /** Filters that lose no hit, wherever it is. */
  ghost predicate LoseNothing(decode: Decoder, crc: seq<byte> -> nat, source: seq<byte>, reference: seq<byte>,
                              f: Filters)
  {
    f.Valid() && forall offset: nat :: Passes(decode, crc, source, reference, f, offset)
  }

  /** The hits of the offsets from `start` up to `stop`. */
  ghost predicate AreHits(decode: Decoder, source: seq<byte>, reference: seq<byte>, start: nat, stop: nat,
                          hits: seq<Hit>)
  {
    hits == Hits(decode, source, reference, start, stop)
  }

  /** One more offset's hit, if it has one. */
  method ExamineNext(decode: Decoder, crc: seq<byte> -> nat, source: seq<byte>, reference: seq<byte>, f: Filters,
                     ghost start: nat, offset: nat, hits: seq<Hit>) returns (more: seq<Hit>)
    requires f.Valid() && Passes(decode, crc, source, reference, f, offset)
    requires start <= offset && AreHits(decode, source, reference, start, offset, hits)
    ensures AreHits(decode, source, reference, start, offset + 1, more)
  {
    var hit := Examine(decode, crc, source, reference, f, offset);
    NextOffset(decode, source, reference, start, offset);
    more := if hit.Some? then hits + [hit.value] else hits;
  }

  /** Every offset of the range in turn, through both bitmaps. */
  method SearchRange(decode: Decoder, crc: seq<byte> -> nat, source: seq<byte>, reference: seq<byte>, f: Filters,
                     start: nat, stop: nat) returns (hits: seq<Hit>)
    requires start <= stop && LoseNothing(decode, crc, source, reference, f)
    ensures AreHits(decode, source, reference, start, stop, hits)
  {
    hits := [];
    NoOffsets(decode, source, reference, start, start);
    for offset := start to stop
      invariant AreHits(decode, source, reference, start, offset, hits)
    {
      hits := ExamineNext(decode, crc, source, reference, f, start, offset, hits);
    }
  }

  // --------------------------------------------------- what the search reports

  /** The eight-byte head shows at least four values, and the 32-byte output at least ten. */
  ghost predicate Telling(decode: Decoder, source: seq<byte>, o: nat) {
    && decode(source, o, 8).Some? && Shows(decode(source, o, 8).value, 4)
    && decode(source, o, 32).Some? && Shows(decode(source, o, 32).value, 10)
  }

  ghost predicate Shows(blob: seq<byte>, count: nat) {
    exists values: set<byte> :: |values| >= count && forall v :: v in values ==> v in blob
  }

  lemma {:induction false} DistinctiveShows(blob: seq<byte>, count: nat)
    ensures IsDistinctive(blob, count) <==> Shows(blob, count)
  {
    if values: set<byte> :| |values| >= count && forall v :: v in values ==> v in blob {
      SmallerSet(values, Letters(blob));
    }
  }

  lemma {:induction false} SmallerSet(a: set<byte>, b: set<byte>)
    requires a <= b
    ensures |a| <= |b|
  {
    assert b == a + (b - a);
  }

  ghost predicate StandsAt(reference: seq<byte>, blob: seq<byte>, at: nat) {
    at + |blob| <= |reference| && forall t :: 0 <= t < |blob| ==> reference[at + t] == blob[t]
  }

  /** The least place where the blob stands. */
  ghost predicate StandsFirstAt(reference: seq<byte>, blob: seq<byte>, at: nat) {
    StandsAt(reference, blob, at) && forall j: nat :: j < at ==> !StandsAt(reference, blob, j)
  }

  /** A stream at `o` is to be reported, at that place of the reference. */
  ghost predicate Reportable(decode: Decoder, source: seq<byte>, reference: seq<byte>, o: nat, target: nat) {
    Telling(decode, source, o) && StandsFirstAt(reference, decode(source, o, 32).value, target)
  }

  /** 32, doubled until 4096. */
  predicate IsRung(n: nat) {
    n == 32 || n == 64 || n == 128 || n == 256 || n == 512 || n == 1024 || n == 2048 || n == 4096
  }

  /** The stream's first `n` bytes decode and stand there. */
  ghost predicate Matches(decode: Decoder, source: seq<byte>, reference: seq<byte>, o: nat, target: nat, n: nat) {
    decode(source, o, n).Some? && StandsAt(reference, decode(source, o, n).value, target)
  }

  /** Every rung up to and including this one matches. */
  ghost predicate Climbed(decode: Decoder, source: seq<byte>, reference: seq<byte>, o: nat, target: nat, n: nat) {
    forall m: nat :: IsRung(m) && m <= n ==> Matches(decode, source, reference, o, target, m)
  }

  /** Up the ladder as far as every rung matches: the next one, if there is one, does not. */
  ghost predicate LastRung(decode: Decoder, source: seq<byte>, reference: seq<byte>, o: nat, target: nat, n: nat) {
    && IsRung(n) && Climbed(decode, source, reference, o, target, n)
    && (n < 4096 ==> !Matches(decode, source, reference, o, target, 2 * n))
  }

  ghost predicate TrueHit(decode: Decoder, source: seq<byte>, reference: seq<byte>, h: Hit) {
    && Reportable(decode, source, reference, h.source, h.target)
    && LastRung(decode, source, reference, h.source, h.target, h.length)
  }

  /** In ascending order of offset, each in the range and true. */
  ghost predicate TrueHits(decode: Decoder, source: seq<byte>, reference: seq<byte>, start: nat, stop: nat,
                           hits: seq<Hit>)
  {
    && (forall i, j :: 0 <= i < j < |hits| ==> hits[i].source < hits[j].source)
    && forall i :: 0 <= i < |hits| ==> start <= hits[i].source < stop && TrueHit(decode, source, reference, hits[i])
  }

  /** One hit for every reportable offset of the range. */
  ghost predicate NoneMissed(decode: Decoder, source: seq<byte>, reference: seq<byte>, start: nat, stop: nat,
                             hits: seq<Hit>)
  {
    forall o: nat, target: nat :: start <= o < stop && Reportable(decode, source, reference, o, target) ==>
      Reported(hits, o, target)
  }

  ghost predicate Reported(hits: seq<Hit>, o: nat, target: nat) {
    exists i :: 0 <= i < |hits| && hits[i].source == o && hits[i].target == target
  }

  lemma {:induction false} OccursIsStands(reference: seq<byte>, blob: seq<byte>, at: nat)
    ensures OccursAt(reference, blob, at) <==> StandsAt(reference, blob, at)
  {
    if OccursAt(reference, blob, at) {
      forall t | 0 <= t < |blob|
        ensures reference[at + t] == blob[t]
      {
        assert reference[at..at + |blob|][t] == blob[t];
      }
    }
  }

  lemma {:induction false} FindIsFirst(reference: seq<byte>, blob: seq<byte>, at: nat)
    ensures FindFrom(reference, blob, 0) == Some(at) <==> StandsFirstAt(reference, blob, at)
  {
    forall j: nat
      ensures OccursAt(reference, blob, j) <==> StandsAt(reference, blob, j)
    {
      OccursIsStands(reference, blob, j);
    }
    var found := FindFrom(reference, blob, 0);
    if StandsFirstAt(reference, blob, at) && found.Some? {
      assert StandsAt(reference, blob, found.value);
    }
  }

  lemma {:induction false} VerbatimMatches(decode: Decoder, source: seq<byte>, reference: seq<byte>, o: nat,
                                           target: nat, n: nat)
    ensures Verbatim(decode, source, reference, o, target, n) <==> Matches(decode, source, reference, o, target, n)
  {
    if decode(source, o, n).Some? {
      OccursIsStands(reference, decode(source, o, n).value, target);
    }
  }

  lemma {:induction false} ExtensionIsLastRung(decode: Decoder, source: seq<byte>, reference: seq<byte>, o: nat,
                                               target: nat, n: nat)
    requires IsRung(n) && Climbed(decode, source, reference, o, target, n)
    ensures LastRung(decode, source, reference, o, target,
                     Extended(decode, source, reference, o, target, EXTEND_LENGTH, n))
    decreases EXTEND_LENGTH - n
  {
    if n < EXTEND_LENGTH {
      VerbatimMatches(decode, source, reference, o, target, 2 * n);
      if Verbatim(decode, source, reference, o, target, 2 * n) {
        ExtensionIsLastRung(decode, source, reference, o, target, 2 * n);
      }
    }
  }

  /** One offset: a hit exactly when it is reportable, and then a true one. */
  lemma {:induction false} HitAtIsTrue(decode: Decoder, source: seq<byte>, reference: seq<byte>, o: nat)
    ensures HitAt(decode, source, reference, o).Some? ==>
              HitAt(decode, source, reference, o).value.source == o &&
              TrueHit(decode, source, reference, HitAt(decode, source, reference, o).value)
    ensures forall target: nat :: Reportable(decode, source, reference, o, target) ==>
              HitAt(decode, source, reference, o).Some? && HitAt(decode, source, reference, o).value.target == target
  {
    if decode(source, o, 8).Some? {
      DistinctiveShows(decode(source, o, 8).value, 4);
    }
    if decode(source, o, 32).Some? {
      var blob := decode(source, o, 32).value;
      DistinctiveShows(blob, 10);
      forall target: nat
        ensures FindFrom(reference, blob, 0) == Some(target) <==> StandsFirstAt(reference, blob, target)
      {
        FindIsFirst(reference, blob, target);
      }
      if FindFrom(reference, blob, 0).Some? {
        assert StandsFirstAt(reference, blob, FindFrom(reference, blob, 0).value);
        ExtensionIsLastRung(decode, source, reference, o, FindFrom(reference, blob, 0).value, 32);
      }
    }
  }

  /** Hits that carry their own offsets come out in ascending order, all of them and nothing else. */
  lemma {:induction false} HitsKeepOrder(findings: seq<Option<Hit>>, start: nat)
    requires forall i :: 0 <= i < |findings| && findings[i].Some? ==> findings[i].value.source == start + i
    ensures forall i, j :: 0 <= i < j < |Kept(findings)| ==> Kept(findings)[i].source < Kept(findings)[j].source
    ensures forall h :: h in Kept(findings) <==> Some(h) in findings
  {
    KeptMembers(findings);
    var at := KeptIsExact(findings);
    forall i, j | 0 <= i < j < |Kept(findings)|
      ensures Kept(findings)[i].source < Kept(findings)[j].source
    {
      assert at[i] < at[j] && findings[at[i]] == Some(Kept(findings)[i]) && findings[at[j]] == Some(Kept(findings)[j]);
    }
  }

  /** The result of one offset is no hit, or a true hit of that offset. */
  ghost predicate TrueOrNone(decode: Decoder, source: seq<byte>, reference: seq<byte>, o: nat, hit: Option<Hit>) {
    hit.Some? ==> hit.value.source == o && TrueHit(decode, source, reference, hit.value)
  }

  lemma {:induction false} TrueIfAny(decode: Decoder, source: seq<byte>, reference: seq<byte>, o: nat)
    ensures TrueOrNone(decode, source, reference, o, HitAt(decode, source, reference, o))
  {
    HitAtIsTrue(decode, source, reference, o);
  }

  lemma {:induction false} AllAreTrue(decode: Decoder, source: seq<byte>, reference: seq<byte>, start: nat,
                                      findings: seq<Option<Hit>>)
    requires forall i :: 0 <= i < |findings| ==> TrueOrNone(decode, source, reference, start + i, findings[i])
    ensures TrueHits(decode, source, reference, start, start + |findings|, Kept(findings))
  {
    HitsKeepOrder(findings, start);
    forall k | 0 <= k < |Kept(findings)|
      ensures start <= Kept(findings)[k].source < start + |findings|
      ensures TrueHit(decode, source, reference, Kept(findings)[k])
    {
      assert Kept(findings)[k] in Kept(findings);
      var i :| 0 <= i < |findings| && findings[i] == Some(Kept(findings)[k]);
      assert TrueOrNone(decode, source, reference, start + i, findings[i]);
    }
  }

  lemma {:induction false} HitsAreTrue(decode: Decoder, source: seq<byte>, reference: seq<byte>, start: nat, stop: nat)
    requires start <= stop
    ensures TrueHits(decode, source, reference, start, stop, Hits(decode, source, reference, start, stop))
  {
    var findings := Examined(decode, source, reference, start, stop);
    forall i | 0 <= i < |findings|
      ensures TrueOrNone(decode, source, reference, start + i, findings[i])
    {
      TrueIfAny(decode, source, reference, start + i);
      assert findings[i] == HitAt(decode, source, reference, start + i);
    }
    AllAreTrue(decode, source, reference, start, findings);
  }

  lemma {:induction false} NoHitIsMissed(decode: Decoder, source: seq<byte>, reference: seq<byte>,
                                         start: nat, stop: nat)
    ensures NoneMissed(decode, source, reference, start, stop, Hits(decode, source, reference, start, stop))
  {
    var findings := Examined(decode, source, reference, start, stop);
    forall o: nat, target: nat | start <= o < stop && Reportable(decode, source, reference, o, target)
      ensures Reported(Kept(findings), o, target)
    {
      HitAtIsTrue(decode, source, reference, o);
      KeptReports(findings, o - start, findings[o - start].value);
    }
  }

  lemma {:induction false} KeptReports(findings: seq<Option<Hit>>, i: nat, hit: Hit)
    requires i < |findings| && findings[i] == Some(hit)
    ensures Reported(Kept(findings), hit.source, hit.target)
  {
    KeptMembers(findings);
    assert hit in Kept(findings);
    var k :| 0 <= k < |Kept(findings)| && Kept(findings)[k] == hit;
  }

  /**
   * The filtered search. Whatever the hash and the bitmap widths, it returns what
   * the unfiltered search would.
   */
  method FindStreams(decode: Decoder, crc: seq<byte> -> nat, source: seq<byte>, reference: seq<byte>,
                     start: nat, stop: nat, probeBits: nat, confirmBits: nat) returns (hits: seq<Hit>)
    requires PrefixConsistent(decode) && probeBits >= 3 && confirmBits >= 3
    ensures hits == Hits(decode, source, reference, start, stop)
    ensures TrueHits(decode, source, reference, start, stop, hits)
    ensures NoneMissed(decode, source, reference, start, stop, hits)
  {
    if start <= stop {
      HitsAreTrue(decode, source, reference, start, stop);
    }
    NoHitIsMissed(decode, source, reference, start, stop);
    var probeMap := BuildBitmap(crc, reference, PROBE_LENGTH, probeBits);
    var confirmMap := BuildBitmap(crc, reference, CONFIRM_LENGTH, confirmBits);
    var f := Filters(probeMap, probeBits, confirmMap, confirmBits);
    forall offset: nat
      ensures f.Valid() && Passes(decode, crc, source, reference, f, offset)
    {
      HitsPassFilters(decode, crc, source, reference, f, offset);
    }
    hits := [];
    if start < stop {
      hits := SearchRange(decode, crc, source, reference, f, start, stop);
    } else {
      NoOffsets(decode, source, reference, start, stop);
    }
  }

  lemma {:induction false} NextOffset(decode: Decoder, source: seq<byte>, reference: seq<byte>, start: nat, offset: nat)
    requires start <= offset
    ensures HitAt(decode, source, reference, offset).None? ==>
              Hits(decode, source, reference, start, offset + 1) == Hits(decode, source, reference, start, offset)
    ensures HitAt(decode, source, reference, offset).Some? ==>
              Hits(decode, source, reference, start, offset + 1)
              == Hits(decode, source, reference, start, offset) + [HitAt(decode, source, reference, offset).value]
  {
    assert Examined(decode, source, reference, start, offset + 1)[..offset - start]
        == Examined(decode, source, reference, start, offset);
  }

  lemma {:induction false} NoOffsets(decode: Decoder, source: seq<byte>, reference: seq<byte>, start: nat, stop: nat)
    requires stop <= start
    ensures AreHits(decode, source, reference, start, stop, [])
  {
  }

  /** One offset: the cheap tests first, each ending the examination when it fails. */
  method Examine(decode: Decoder, crc: seq<byte> -> nat, source: seq<byte>, reference: seq<byte>, f: Filters,
                 offset: nat) returns (hit: Option<Hit>)
    requires f.Valid() && Passes(decode, crc, source, reference, f, offset)
    ensures hit == HitAt(decode, source, reference, offset)
  {
    var head := decode(source, offset, PROBE_LENGTH);
    if head.None? || !IsDistinctive(head.value, MIN_PROBE_DISTINCT) {
      return None;
    }
    if !Probe(crc, f.probeMap, head.value, f.probeBits) {
      return None;
    }
    var blob := decode(source, offset, CONFIRM_LENGTH);
    if blob.None? || !IsDistinctive(blob.value, MIN_DISTINCT) {
      return None;
    }
    if !Probe(crc, f.confirmMap, blob.value, f.confirmBits) {
      return None;
    }
    var target := FindFrom(reference, blob.value, 0);
    if target.None? {
      return None;
    }
    var length := Extend(decode, source, reference, offset, target.value, EXTEND_LENGTH);
    return Some(Hit(offset, target.value, length));
  }

  /** A reported hit: its whole reported length stands in the reference, at the blob's first occurrence. */
  lemma {:induction false} HitsAreVerbatim(decode: Decoder, source: seq<byte>, reference: seq<byte>, offset: nat)
    requires PrefixConsistent(decode) && HitAt(decode, source, reference, offset).Some?
    ensures var h := HitAt(decode, source, reference, offset).value;
            && CONFIRM_LENGTH <= h.length <= EXTEND_LENGTH
            && Verbatim(decode, source, reference, offset, h.target, h.length)
            && forall j :: 0 <= j < h.target ==> !Verbatim(decode, source, reference, offset, j, h.length)
  {
    var h := HitAt(decode, source, reference, offset).value;
    ExtensionIsVerbatim(decode, source, reference, offset, h.target, EXTEND_LENGTH, CONFIRM_LENGTH);
    forall j: nat | j < h.target
      ensures !Verbatim(decode, source, reference, offset, j, h.length)
    {
      if Verbatim(decode, source, reference, offset, j, h.length) {
        ShorterIsVerbatim(decode, source, reference, offset, j, CONFIRM_LENGTH, h.length);
      }
    }
  }
}
