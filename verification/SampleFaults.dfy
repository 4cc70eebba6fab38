/** What makes a sample bank well formed: every sample ends, loops onto itself, and owns its bytes. */
module SampleFaults {
  import opened Types
  import opened Listing
  import opened SampleAudit
  import Sorting

  // ------------------------------------------------------------------- faults

  datatype BankFault =
    | RunsOff(sample: nat, at: nat)
    | LoopOutside(sample: nat, at: nat)
    | LoopUnaligned(sample: nat, at: nat)

  function FaultOf(ram: Ram, directory: nat, sample: nat): Option<BankFault> {
    var entry := EntryOf(ram, directory, sample);
    var walked := ChainFrom(ram, entry.start);
    if !walked.ends then Some(RunsOff(sample, entry.start))
    else if !(entry.start <= entry.loop < walked.end) then Some(LoopOutside(sample, entry.loop))
    else if (entry.loop - entry.start) % BLOCK_BYTES != 0 then Some(LoopUnaligned(sample, entry.loop))
    else None
  }

  function Examined(ram: Ram, directory: nat, used: seq<nat>): (r: seq<Option<BankFault>>)
    ensures |r| == |used|
  {
    seq(|used|, i requires 0 <= i < |used| => FaultOf(ram, directory, used[i]))
  }

  function FaultsOf(ram: Ram, directory: nat, used: seq<nat>): seq<BankFault> {
    Kept(Examined(ram, directory, used))
  }

  method Faults(ram: Ram, directory: nat, used: seq<nat>) returns (found: seq<BankFault>)
    ensures found == FaultsOf(ram, directory, used)
  {
    found := [];
    for i := 0 to |used|
      invariant found == FaultsOf(ram, directory, used[..i])
    {
      FaultsNext(ram, directory, used, i);
      var sample := used[i];
      var entry := EntryOf(ram, directory, sample);
      var walked := WalkChain(ram, entry.start);
      if !walked.ends {
        found := found + [RunsOff(sample, entry.start)];
        continue;
      }
      if !(entry.start <= entry.loop < walked.end) {
        found := found + [LoopOutside(sample, entry.loop)];
      } else if (entry.loop - entry.start) % BLOCK_BYTES != 0 {
        found := found + [LoopUnaligned(sample, entry.loop)];
      }
    }
    assert used[..|used|] == used;
  }

  lemma {:induction false} FaultsNext(ram: Ram, directory: nat, used: seq<nat>, i: nat)
    requires i < |used|
    ensures FaultsOf(ram, directory, used[..i + 1])
         == FaultsOf(ram, directory, used[..i]) + IfAny(FaultOf(ram, directory, used[i]))
  {
    var examined := Examined(ram, directory, used[..i + 1]);
    assert examined[..i] == Examined(ram, directory, used[..i]);
  }

  /** The list holds the used samples' faults and nothing else, so it is empty exactly when there are none. */
  lemma {:induction false} FaultsAreExact(ram: Ram, directory: nat, used: seq<nat>)
    ensures forall f :: f in FaultsOf(ram, directory, used) <==>
              exists i :: 0 <= i < |used| && FaultOf(ram, directory, used[i]) == Some(f)
    ensures FaultsOf(ram, directory, used) == [] <==>
              forall i :: 0 <= i < |used| ==> FaultOf(ram, directory, used[i]).None?
  {
    var examined := Examined(ram, directory, used);
    KeptMembers(examined);
    assert forall i :: 0 <= i < |used| ==> examined[i] == FaultOf(ram, directory, used[i]);
  }

  /** The loop point is one of the sample's own blocks, up to and including the flagged one. */
  ghost predicate LoopsToOwnBlock(ram: Ram, entry: Entry) {
    exists last: nat, k: nat :: LastBlock(ram, entry.start, last) && k <= last && LoopsToBlock(entry, k)
  }

  ghost predicate LoopsToBlock(entry: Entry, k: nat) {
    entry.loop == entry.start + 9 * k
  }

  /** Somewhere in the sample's bytes, on its grid or off it. */
  ghost predicate LoopsInside(ram: Ram, entry: Entry) {
    exists last: nat :: LastBlock(ram, entry.start, last) && entry.start <= entry.loop < entry.start + 9 * (last + 1)
  }

  /**
   * Which fault a sample has, block by block: it never ends, or its loop point lies
   * outside it, or inside it but on none of its blocks; and none exactly when it
   * loops to a block of its own, its first one included.
   */
  lemma {:induction false} FaultIsExact(ram: Ram, directory: nat, sample: nat)
    ensures var (fault, entry) := (FaultOf(ram, directory, sample), EntryOf(ram, directory, sample));
            && (fault == Some(RunsOff(sample, entry.start)) <==> forall n: nat :: !LastBlock(ram, entry.start, n))
            && (fault == Some(LoopOutside(sample, entry.loop)) <==>
                  (exists n: nat :: LastBlock(ram, entry.start, n)) && !LoopsInside(ram, entry))
            && (fault == Some(LoopUnaligned(sample, entry.loop)) <==>
                  LoopsInside(ram, entry) && !LoopsToOwnBlock(ram, entry))
            && (fault.None? <==> LoopsToOwnBlock(ram, entry))
  {
    var entry := EntryOf(ram, directory, sample);
    var walked := ChainFrom(ram, entry.start);
    WalkIsExact(ram, entry.start);
    if walked.ends {
      var last: nat :| LastBlock(ram, entry.start, last);
      InsideIsWithin(ram, entry, last);
      OwnBlockIsAligned(ram, entry, last);
    }
  }

  lemma {:induction false} InsideIsWithin(ram: Ram, entry: Entry, last: nat)
    requires LastBlock(ram, entry.start, last)
    ensures LoopsInside(ram, entry) <==> entry.start <= entry.loop < entry.start + 9 * (last + 1)
  {
    if LoopsInside(ram, entry) {
      var n: nat :| LastBlock(ram, entry.start, n) && entry.start <= entry.loop < entry.start + 9 * (n + 1);
      OneLastBlock(ram, entry.start, n, last);
    }
  }

  lemma {:induction false} OwnBlockIsAligned(ram: Ram, entry: Entry, last: nat)
    requires LastBlock(ram, entry.start, last)
    ensures LoopsToOwnBlock(ram, entry) <==>
              entry.start <= entry.loop < entry.start + 9 * (last + 1) && (entry.loop - entry.start) % 9 == 0
  {
    if LoopsToOwnBlock(ram, entry) {
      var n: nat, k: nat :| LastBlock(ram, entry.start, n) && k <= n && LoopsToBlock(entry, k);
      OneLastBlock(ram, entry.start, n, last);
      assert (9 * k) % 9 == 0;
    }
    if entry.start <= entry.loop < entry.start + 9 * (last + 1) && (entry.loop - entry.start) % 9 == 0 {
      var k := (entry.loop - entry.start) / 9;
      assert k <= last && LoopsToBlock(entry, k);
    }
  }

  ghost function HasFault(ram: Ram, directory: nat, used: seq<nat>): nat -> bool {
    (i: nat) => i < |used| && FaultOf(ram, directory, used[i]).Some?
  }

  /** One line for each used sample with a fault, in the order given. */
  lemma {:induction false} FaultsInOrder(ram: Ram, directory: nat, used: seq<nat>) returns (at: seq<nat>)
    ensures Selects(HasFault(ram, directory, used), |used|, at)
    ensures var report := FaultsOf(ram, directory, used);
            && |report| == |at|
            && forall k :: 0 <= k < |at| ==> at[k] < |used| && FaultOf(ram, directory, used[at[k]]) == Some(report[k])
  {
    var examined := Examined(ram, directory, used);
    at := KeptIsExact(examined);
    SameSelection(Found(examined), HasFault(ram, directory, used), |used|, at);
  }

  /** The loop plays inside the sample: it ends, and where the sample ends. */
  ghost predicate LoopsOntoItself(ram: Ram, directory: nat, sample: nat) {
    var entry := EntryOf(ram, directory, sample);
    var walked := ChainFrom(ram, entry.start);
    && walked.ends && entry.start <= entry.loop < walked.end
    && ChainFrom(ram, entry.loop).ends && ChainFrom(ram, entry.loop).end == walked.end
  }

  /** A sample with no fault loops onto its own blocks for ever. */
  lemma {:induction false} FaultFreeLoops(ram: Ram, directory: nat, sample: nat)
    requires FaultOf(ram, directory, sample).None?
    ensures LoopsOntoItself(ram, directory, sample)
  {
    var entry := EntryOf(ram, directory, sample);
    var k := (entry.loop - entry.start) / BLOCK_BYTES;
    assert entry.loop == entry.start + k * BLOCK_BYTES && k <= MAX_BLOCKS;
    BlockOfAnother(ram, entry.start, k);
  }

  /** The whole of what the chip plays: the sample once, then its loop. */
  ghost predicate LoopsTheSame(ram: Ram, other: Ram, directory: nat, sample: nat) {
    var loop := EntryOf(ram, directory, sample).loop;
    && PlaysTheSame(ram, other, directory, sample)
    && ChainFrom(other, loop) == ChainFrom(ram, loop)
    && forall a :: loop <= a < ChainFrom(ram, loop).end ==> other[a] == ram[a]
  }

  lemma {:induction false} SamePlaySameFault(ram: Ram, other: Ram, directory: nat, sample: nat)
    requires PlaysTheSame(ram, other, directory, sample)
    ensures FaultOf(other, directory, sample) == FaultOf(ram, directory, sample)
  {
  }

  /** The bytes the collision check looks at: four from the directory address on, and the walk. */
  predicate Looked(ram: Ram, directory: nat, sample: nat, a: nat) {
    var at, walked := DirectoryAt(directory, sample), ChainFrom(ram, EntryOf(ram, directory, sample).start);
    at <= a < at + DIRECTORY_BYTES || walked.start <= a < walked.end
  }

  /** The addresses the entry is read from; they wrap at 64 KB. */
  function EntryByte(directory: nat, sample: nat, i: nat): (a: nat)
    ensures a < APU_RAM
  {
    (DirectoryAt(directory, sample) + i) % APU_RAM
  }

  predicate EntryIsLooked(ram: Ram, directory: nat, sample: nat) {
    forall i :: 0 <= i < DIRECTORY_BYTES ==> Looked(ram, directory, sample, EntryByte(directory, sample, i))
  }

  predicate LoopIsLooked(ram: Ram, directory: nat, sample: nat) {
    var loop := EntryOf(ram, directory, sample).loop;
    forall a :: loop <= a < ChainFrom(ram, loop).end ==> Looked(ram, directory, sample, a)
  }

  /** Silence can be trusted for everything the chip plays of this sample in this memory. */
  ghost predicate SilenceCovers(ram: Ram, directory: nat, sample: nat) {
    forall other: Ram, written ::
      CollisionOf(ram, directory, sample, written).None? && DiffersOnlyAt(ram, other, written) ==>
        LoopsTheSame(ram, other, directory, sample)
  }

  lemma {:induction false} LookedIsKept(ram: Ram, other: Ram, directory: nat, sample: nat, written: seq<nat>, a: nat)
    requires CollisionOf(ram, directory, sample, written).None? && DiffersOnlyAt(ram, other, written)
    requires a < APU_RAM && Looked(ram, directory, sample, a)
    ensures other[a] == ram[a]
  {
    var at, walked := DirectoryAt(directory, sample), ChainFrom(ram, EntryOf(ram, directory, sample).start);
    UntouchedKeeps(ram, other, written, at, at + DIRECTORY_BYTES);
    UntouchedKeeps(ram, other, written, walked.start, walked.end);
  }

  lemma {:induction false} SameBytesSameEntry(ram: Ram, other: Ram, directory: nat, sample: nat)
    requires other[EntryByte(directory, sample, 0)] == ram[EntryByte(directory, sample, 0)]
    requires other[EntryByte(directory, sample, 1)] == ram[EntryByte(directory, sample, 1)]
    requires other[EntryByte(directory, sample, 2)] == ram[EntryByte(directory, sample, 2)]
    requires other[EntryByte(directory, sample, 3)] == ram[EntryByte(directory, sample, 3)]
    ensures EntryOf(other, directory, sample) == EntryOf(ram, directory, sample)
  {
    assert EntryByte(directory, sample, 0) == DirectoryAt(directory, sample);
  }

  lemma {:induction false} LookedEntryIsKept(ram: Ram, other: Ram, directory: nat, sample: nat, written: seq<nat>)
    requires CollisionOf(ram, directory, sample, written).None? && DiffersOnlyAt(ram, other, written)
    requires EntryIsLooked(ram, directory, sample)
    ensures EntryOf(other, directory, sample) == EntryOf(ram, directory, sample)
  {
    forall i | 0 <= i < DIRECTORY_BYTES
      ensures other[EntryByte(directory, sample, i)] == ram[EntryByte(directory, sample, i)]
    {
      LookedIsKept(ram, other, directory, sample, written, EntryByte(directory, sample, i));
    }
    SameBytesSameEntry(ram, other, directory, sample);
  }

  /** A walk whose bytes are kept is the same walk. */
  lemma {:induction false} WalkIsKept(ram: Ram, other: Ram, directory: nat, sample: nat, written: seq<nat>, start: nat)
    requires CollisionOf(ram, directory, sample, written).None? && DiffersOnlyAt(ram, other, written)
    requires start < APU_RAM
    requires forall a :: start <= a < ChainFrom(ram, start).end ==> Looked(ram, directory, sample, a)
    ensures ChainFrom(other, start) == ChainFrom(ram, start)
    ensures forall a :: start <= a < ChainFrom(ram, start).end ==> other[a] == ram[a]
  {
    forall a | start <= a < ChainFrom(ram, start).end
      ensures other[a] == ram[a]
    {
      LookedIsKept(ram, other, directory, sample, written, a);
    }
    WalkReadsItsReach(ram, other, start, 0);
  }

  lemma {:induction false} LookedIsCovered(ram: Ram, other: Ram, directory: nat, sample: nat, written: seq<nat>)
    requires CollisionOf(ram, directory, sample, written).None? && DiffersOnlyAt(ram, other, written)
    requires EntryIsLooked(ram, directory, sample) && LoopIsLooked(ram, directory, sample)
    ensures LoopsTheSame(ram, other, directory, sample)
  {
    LookedEntryIsKept(ram, other, directory, sample, written);
    WalkIsKept(ram, other, directory, sample, written, EntryOf(ram, directory, sample).start);
    WalkIsKept(ram, other, directory, sample, written, EntryOf(ram, directory, sample).loop);
  }

  /** The memory with one byte changed. */
  function Changed(ram: Ram, a: nat): Ram
    requires a < APU_RAM
  {
    ram[a := if ram[a] == 0 then 1 else 0]
  }

  /** A write to a byte the check does not look at goes unreported. */
  lemma {:induction false} UnlookedIsSilent(ram: Ram, directory: nat, sample: nat, a: nat)
    requires a < APU_RAM && !Looked(ram, directory, sample, a)
    ensures CollisionOf(ram, directory, sample, [a]).None? && DiffersOnlyAt(ram, Changed(ram, a), [a])
  {
    var at, walked := DirectoryAt(directory, sample), ChainFrom(ram, EntryOf(ram, directory, sample).start);
    Untouched(a, at, at + DIRECTORY_BYTES);
    Untouched(a, walked.start, walked.end);
    assert [a][0] == a;
  }

  lemma {:induction false} ChangedEntry(ram: Ram, directory: nat, sample: nat, i: nat)
    requires i < DIRECTORY_BYTES
    ensures EntryOf(Changed(ram, EntryByte(directory, sample, i)), directory, sample)
         != EntryOf(ram, directory, sample)
  {
    var at := DirectoryAt(directory, sample);
    assert (at + 0) % APU_RAM == at;
    assert at != (at + 1) % APU_RAM && (at + 2) % APU_RAM != (at + 3) % APU_RAM;
  }

  lemma {:induction false} EntryEscapes(ram: Ram, directory: nat, sample: nat, i: nat)
    requires i < DIRECTORY_BYTES && !Looked(ram, directory, sample, EntryByte(directory, sample, i))
    ensures !SilenceCovers(ram, directory, sample)
  {
    var other := Changed(ram, EntryByte(directory, sample, i));
    UnlookedIsSilent(ram, directory, sample, EntryByte(directory, sample, i));
    ChangedEntry(ram, directory, sample, i);
    assert !LoopsTheSame(ram, other, directory, sample);
  }

  lemma {:induction false} LoopEscapes(ram: Ram, directory: nat, sample: nat, a: nat)
    requires a < APU_RAM && !Looked(ram, directory, sample, a)
    requires var loop := EntryOf(ram, directory, sample).loop; loop <= a < ChainFrom(ram, loop).end
    ensures !SilenceCovers(ram, directory, sample)
  {
    UnlookedIsSilent(ram, directory, sample, a);
    assert !LoopsTheSame(ram, Changed(ram, a), directory, sample);
  }

  lemma {:induction false} CoveredIsLooked(ram: Ram, directory: nat, sample: nat)
    requires SilenceCovers(ram, directory, sample)
    ensures EntryIsLooked(ram, directory, sample) && LoopIsLooked(ram, directory, sample)
  {
    forall i | 0 <= i < DIRECTORY_BYTES
      ensures Looked(ram, directory, sample, EntryByte(directory, sample, i))
    {
      if !Looked(ram, directory, sample, EntryByte(directory, sample, i)) {
        EntryEscapes(ram, directory, sample, i);
      }
    }
    var loop := EntryOf(ram, directory, sample).loop;
    forall a | loop <= a < ChainFrom(ram, loop).end
      ensures Looked(ram, directory, sample, a)
    {
      if !Looked(ram, directory, sample, a) {
        LoopEscapes(ram, directory, sample, a);
      }
    }
  }

  /**
   * When silence is about every pass: exactly when the sample's entry and every
   * byte its loop plays are among the bytes the check looks at.
   */
  lemma {:induction false} SilenceCoversIffLooked(ram: Ram, directory: nat, sample: nat)
    ensures SilenceCovers(ram, directory, sample) <==>
              EntryIsLooked(ram, directory, sample) && LoopIsLooked(ram, directory, sample)
  {
    if SilenceCovers(ram, directory, sample) {
      CoveredIsLooked(ram, directory, sample);
    }
    if EntryIsLooked(ram, directory, sample) && LoopIsLooked(ram, directory, sample) {
      forall other: Ram, written |
        CollisionOf(ram, directory, sample, written).None? && DiffersOnlyAt(ram, other, written)
        ensures LoopsTheSame(ram, other, directory, sample)
      {
        LookedIsCovered(ram, other, directory, sample, written);
      }
    }
  }

  /** An entry inside memory is looked at: its bytes are the four the check names. */
  lemma {:induction false} EntryInMemoryIsLooked(ram: Ram, directory: nat, sample: nat)
    requires DirectoryAt(directory, sample) <= APU_RAM - DIRECTORY_BYTES
    ensures EntryIsLooked(ram, directory, sample)
  {
    forall i | 0 <= i < DIRECTORY_BYTES
      ensures Looked(ram, directory, sample, EntryByte(directory, sample, i))
    {
      assert EntryByte(directory, sample, i) == DirectoryAt(directory, sample) + i;
    }
  }

  /** A loop that ends where its sample does plays only bytes of the sample. */
  lemma {:induction false} FaultFreeIsLooked(ram: Ram, directory: nat, sample: nat)
    requires FaultOf(ram, directory, sample).None?
    ensures LoopIsLooked(ram, directory, sample)
  {
    FaultFreeLoops(ram, directory, sample);
  }

  /**
   * For a fault-free sample the collision check covers the loop too: nothing
   * reported means every pass plays the same, and the sample stays fault free.
   */
  lemma {:induction false} SilenceCoversTheLoop(ram: Ram, other: Ram, directory: nat, sample: nat, written: seq<nat>)
    requires DirectoryAt(directory, sample) <= APU_RAM - DIRECTORY_BYTES
    requires FaultOf(ram, directory, sample).None? && CollisionOf(ram, directory, sample, written).None?
    requires DiffersOnlyAt(ram, other, written)
    ensures LoopsTheSame(ram, other, directory, sample)
    ensures FaultOf(other, directory, sample).None?
  {
    EntryInMemoryIsLooked(ram, directory, sample);
    FaultFreeIsLooked(ram, directory, sample);
    SilenceCoversIffLooked(ram, directory, sample);
    assert LoopsTheSame(ram, other, directory, sample);
    SamePlaySameFault(ram, other, directory, sample);
  }

  lemma {:induction false} OneBlock(ram: Ram, start: nat)
    requires start + BLOCK_BYTES <= APU_RAM && ram[start] % 2 == 1
    ensures ChainFrom(ram, start) == Chain(start, 1, start + BLOCK_BYTES, true)
  {
  }

  lemma {:induction false} TwoBlocks(ram: Ram, start: nat)
    requires start + 2 * BLOCK_BYTES <= APU_RAM && ram[start] % 2 == 0 && ram[start + BLOCK_BYTES] % 2 == 1
    ensures ChainFrom(ram, start) == Chain(start, 2, start + 2 * BLOCK_BYTES, true)
  {
    assert Walk(ram, start, 0) == Walk(ram, start, 1);
  }

  /** One block at 0x0100 whose loop point, 0x0300, is a sample of its own. */
  const STRAY_LOOP: Ram := Zeros(0x10000)[0x201 := 1][0x203 := 3][0x100 := 1][0x300 := 1]

  lemma {:induction false} StrayLoopWalks()
    ensures EntryOf(STRAY_LOOP, 0x200, 0) == Entry(0x100, 0x300)
    ensures ChainFrom(STRAY_LOOP, 0x100) == Chain(0x100, 1, 0x109, true)
    ensures ChainFrom(STRAY_LOOP, 0x300) == Chain(0x300, 1, 0x309, true)
  {
    OneBlock(STRAY_LOOP, 0x100);
    OneBlock(STRAY_LOOP, 0x300);
  }

  /** A stray loop point escapes the check: its bytes can change unreported. */
  lemma {:induction false} StrayLoopEscapes()
    ensures FaultOf(STRAY_LOOP, 0x200, 0) == Some(LoopOutside(0, 0x300))
    ensures !SilenceCovers(STRAY_LOOP, 0x200, 0)
  {
    StrayLoopWalks();
    assert !Looked(STRAY_LOOP, 0x200, 0, 0x300);
    LoopEscapes(STRAY_LOOP, 0x200, 0, 0x300);
  }

  /** Two blocks at 0x0100 whose loop point, 0x0101, is off their grid but ends inside them. */
  const MISALIGNED_LOOP: Ram := Zeros(0x10000)[0x201 := 1][0x202 := 1][0x203 := 1][0x101 := 1][0x109 := 1]

  lemma {:induction false} MisalignedLoopWalks()
    ensures EntryOf(MISALIGNED_LOOP, 0x200, 0) == Entry(0x100, 0x101)
    ensures ChainFrom(MISALIGNED_LOOP, 0x100) == Chain(0x100, 2, 0x112, true)
    ensures ChainFrom(MISALIGNED_LOOP, 0x101) == Chain(0x101, 1, 0x10A, true)
  {
    TwoBlocks(MISALIGNED_LOOP, 0x100);
    OneBlock(MISALIGNED_LOOP, 0x101);
  }

  /** A loop that ends inside its sample is covered, on the sample's grid or off it. */
  lemma {:induction false} LoopInsideIsCovered(ram: Ram, directory: nat, sample: nat, entry: Entry)
    requires EntryOf(ram, directory, sample) == entry && DirectoryAt(directory, sample) + DIRECTORY_BYTES <= APU_RAM
    requires entry.start <= entry.loop && ChainFrom(ram, entry.loop).end <= ChainFrom(ram, entry.start).end
    requires ChainFrom(ram, entry.start).start == entry.start
    ensures SilenceCovers(ram, directory, sample)
  {
    SilenceCoversIffLooked(ram, directory, sample);
  }

  /** A faulty loop point is not always uncovered. */
  lemma {:induction false} MisalignedLoopIsCovered()
    ensures FaultOf(MISALIGNED_LOOP, 0x200, 0) == Some(LoopUnaligned(0, 0x101))
    ensures SilenceCovers(MISALIGNED_LOOP, 0x200, 0)
  {
    MisalignedLoopWalks();
    LoopInsideIsCovered(MISALIGNED_LOOP, 0x200, 0, Entry(0x100, 0x101));
  }

  lemma {:induction false} Untouched(a: nat, from: nat, to: nat)
    requires !(from <= a < to)
    ensures LeastTouched([a], from, to).None?
  {
  }

  // ----------------------------------------------------------------- overlaps

  datatype Overlap = Overlap(first: nat, second: nat, at: nat)

  function Later(a: nat, b: nat): nat {
    if a < b then b else a
  }

  ghost predicate Shares(p: Chain, q: Chain, a: nat) {
    p.start <= a < p.end && q.start <= a < q.end
  }

  /** The lowest byte two walks share, unless they are the same sample. */
  function SharedBy(p: Chain, q: Chain): (r: Option<nat>)
    ensures r.Some? ==> p.start != q.start && Shares(p, q, r.value)
    ensures r.Some? ==> forall a :: Shares(p, q, a) ==> r.value <= a
    ensures r.None? && p.start != q.start ==> forall a :: !Shares(p, q, a)
  {
    var low := Later(p.start, q.start);
    if p.start != q.start && low < p.end && low < q.end then Some(low) else None
  }

  /** A sample that ends, with its walk. */
  datatype Reached = Reached(sample: nat, walk: Chain)

  predicate NoHigher(p: Reached, q: Reached) {
    p.sample <= q.sample
  }

  /** Each sample once, in order of their numbers. */
  function WithReach(reached: seq<Reached>, r: Reached): (s: seq<Reached>)
    ensures forall x :: x in s <==> x in reached || x == r
  {
    if r in reached then reached else Sorting.Inserted(NoHigher, reached, r)
  }

  function ReachOf(ram: Ram, directory: nat, sample: nat): Reached {
    Reached(sample, ChainFrom(ram, EntryOf(ram, directory, sample).start))
  }

  function ReachedBy(ram: Ram, directory: nat, used: seq<nat>): (r: seq<Reached>)
    ensures forall i :: 0 <= i < |r| ==> r[i] == ReachOf(ram, directory, r[i].sample)
  {
    if used == [] then []
    else
      var n := |used| - 1;
      var before := ReachedBy(ram, directory, used[..n]);
      var reach := ReachOf(ram, directory, used[n]);
      if !reach.walk.ends then before
      else
        var r := WithReach(before, reach);
        assert forall i :: 0 <= i < |r| ==> r[i] in r;
        r
  }

  ghost predicate Ascending(reached: seq<Reached>) {
    forall i, j :: 0 <= i < j < |reached| ==> reached[i].sample < reached[j].sample
  }

  /** A sample is walked from its entry, so it is in the list under one number only. */
  ghost predicate OnePerSample(reached: seq<Reached>, r: Reached) {
    forall i :: 0 <= i < |reached| && reached[i].sample == r.sample ==> reached[i] == r
  }

  lemma {:induction false} WithReachAscends(reached: seq<Reached>, r: Reached)
    requires Ascending(reached) && OnePerSample(reached, r)
    ensures Ascending(WithReach(reached, r))
  {
    if r !in reached {
      var s := WithReach(reached, r);
      assert Sorting.StablyInOrder(NoHigher, Different, reached);
      Sorting.InsertedIsStable(NoHigher, Different, reached, r);
      forall i, j | 0 <= i < j < |s|
        ensures s[i].sample < s[j].sample
      {
        assert NoHigher(s[i], s[j]) && (NoHigher(s[j], s[i]) ==> Different(s[i], s[j]));
      }
    }
  }

  predicate Different(p: Reached, q: Reached) {
    p.sample != q.sample
  }

  lemma {:induction false} ReachedAscend(ram: Ram, directory: nat, used: seq<nat>)
    ensures Ascending(ReachedBy(ram, directory, used))
    ensures forall r :: r in ReachedBy(ram, directory, used) <==>
              r.sample in used && r == ReachOf(ram, directory, r.sample) && r.walk.ends
  {
    if used != [] {
      var n := |used| - 1;
      ReachedAscend(ram, directory, used[..n]);
      assert used == used[..n] + [used[n]];
      if ReachOf(ram, directory, used[n]).walk.ends {
        WithReachAscends(ReachedBy(ram, directory, used[..n]), ReachOf(ram, directory, used[n]));
      }
    }
  }

  function OverlapOf(p: Reached, q: Reached): Option<Overlap> {
    match SharedBy(p.walk, q.walk)
    case None => None
    case Some(a) => Some(Overlap(p.sample, q.sample, a))
  }

  /** The overlaps of sample `i` with the ones after it, up to but not including `j`. */
  function RowOf(reached: seq<Reached>, i: nat, j: nat): seq<Overlap>
    requires i < j <= |reached|
  {
    if j == i + 1 then [] else RowOf(reached, i, j - 1) + IfAny(OverlapOf(reached[i], reached[j - 1]))
  }

  function RowsOf(reached: seq<Reached>, n: nat): seq<Overlap>
    requires n <= |reached|
  {
    if n == 0 then [] else RowsOf(reached, n - 1) + RowOf(reached, n - 1, |reached|)
  }

  function OverlapsOf(ram: Ram, directory: nat, used: seq<nat>): seq<Overlap> {
    RowsOf(ReachedBy(ram, directory, used), |ReachedBy(ram, directory, used)|)
  }

  method Reaches(ram: Ram, directory: nat, used: seq<nat>) returns (reached: seq<Reached>)
    ensures reached == ReachedBy(ram, directory, used)
  {
    reached := [];
    for i := 0 to |used|
      invariant reached == ReachedBy(ram, directory, used[..i])
    {
      assert used[..i + 1][..i] == used[..i];
      var walked := WalkChain(ram, EntryOf(ram, directory, used[i]).start);
      if walked.ends {
        reached := WithReach(reached, Reached(used[i], walked));
      }
    }
    assert used[..|used|] == used;
  }

  method OverlapRow(reached: seq<Reached>, i: nat) returns (row: seq<Overlap>)
    requires i < |reached|
    ensures row == RowOf(reached, i, |reached|)
  {
    row := [];
    for j := i + 1 to |reached|
      invariant row == RowOf(reached, i, j)
    {
      var overlap := OverlapOf(reached[i], reached[j]);
      RowNext(reached, i, j);
      row := row + IfAny(overlap);
    }
  }

  /** Every pair of different samples is compared once. */
  method Overlaps(ram: Ram, directory: nat, used: seq<nat>) returns (found: seq<Overlap>)
    ensures found == OverlapsOf(ram, directory, used)
  {
    var reached := Reaches(ram, directory, used);
    found := [];
    for i := 0 to |reached|
      invariant found == RowsOf(reached, i)
    {
      var row := OverlapRow(reached, i);
      found := found + row;
    }
  }

  lemma {:induction false} RowNext(reached: seq<Reached>, i: nat, j: nat)
    requires i < j < |reached|
    ensures RowOf(reached, i, j + 1) == RowOf(reached, i, j) + IfAny(OverlapOf(reached[i], reached[j]))
  {
  }

  ghost predicate ListedBelow(reached: seq<Reached>, i: nat, j: nat, o: Overlap)
    requires i < j <= |reached|
  {
    exists k :: i < k < j && OverlapOf(reached[i], reached[k]) == Some(o)
  }

  lemma {:induction false} RowHolds(reached: seq<Reached>, i: nat, j: nat, o: Overlap)
    requires i < j <= |reached|
    ensures o in RowOf(reached, i, j) <==> ListedBelow(reached, i, j, o)
  {
    if j > i + 1 {
      RowHolds(reached, i, j - 1, o);
      RowNext(reached, i, j - 1);
    }
  }

  ghost predicate ListedInRows(reached: seq<Reached>, n: nat, o: Overlap)
    requires n <= |reached|
  {
    exists i :: 0 <= i < n && ListedBelow(reached, i, |reached|, o)
  }

  lemma {:induction false} OneMoreRow(reached: seq<Reached>, n: nat, o: Overlap)
    requires n < |reached|
    ensures ListedInRows(reached, n + 1, o) <==>
              ListedInRows(reached, n, o) || ListedBelow(reached, n, |reached|, o)
  {
  }

  lemma {:induction false} RowJoins(reached: seq<Reached>, n: nat, o: Overlap, before: seq<Overlap>, row: seq<Overlap>)
    requires n < |reached|
    requires o in before <==> ListedInRows(reached, n, o)
    requires o in row <==> ListedBelow(reached, n, |reached|, o)
    ensures o in before + row <==> ListedInRows(reached, n + 1, o)
  {
    OneMoreRow(reached, n, o);
  }

  ghost predicate RowsAreListed(reached: seq<Reached>, n: nat, o: Overlap)
    requires n <= |reached|
  {
    o in RowsOf(reached, n) <==> ListedInRows(reached, n, o)
  }

  lemma {:induction false} RowsStep(reached: seq<Reached>, n: nat, o: Overlap)
    requires n < |reached| && RowsAreListed(reached, n, o)
    ensures RowsAreListed(reached, n + 1, o)
  {
    RowHolds(reached, n, |reached|, o);
    RowJoins(reached, n, o, RowsOf(reached, n), RowOf(reached, n, |reached|));
  }

  lemma {:induction false} RowsHold(reached: seq<Reached>, n: nat, o: Overlap)
    requires n <= |reached|
    ensures RowsAreListed(reached, n, o)
    decreases n
  {
    if n != 0 {
      RowsHold(reached, n - 1, o);
      RowsStep(reached, n - 1, o);
    }
  }

  /** Two used samples that end, lower number first. */
  ghost predicate BothEnd(ram: Ram, directory: nat, used: seq<nat>, first: nat, second: nat) {
    && first in used && second in used && first < second
    && ReachOf(ram, directory, first).walk.ends && ReachOf(ram, directory, second).walk.ends
  }

  lemma {:induction false} ListedIn(reached: seq<Reached>, p: Reached, q: Reached, o: Overlap)
    requires Ascending(reached) && p in reached && q in reached && p.sample < q.sample && OverlapOf(p, q) == Some(o)
    ensures o in RowsOf(reached, |reached|)
  {
    var i :| 0 <= i < |reached| && reached[i] == p;
    var k :| 0 <= k < |reached| && reached[k] == q;
    assert i != k && !(k < i);
    assert ListedBelow(reached, i, |reached|, o);
    assert ListedInRows(reached, |reached|, o);
    RowsHold(reached, |reached|, o);
  }

  lemma {:induction false} InListed(reached: seq<Reached>, o: Overlap) returns (p: Reached, q: Reached)
    requires Ascending(reached) && o in RowsOf(reached, |reached|)
    ensures p in reached && q in reached && p.sample < q.sample && OverlapOf(p, q) == Some(o)
  {
    RowsHold(reached, |reached|, o);
    var i :| 0 <= i < |reached| && ListedBelow(reached, i, |reached|, o);
    var k :| i < k < |reached| && OverlapOf(reached[i], reached[k]) == Some(o);
    p, q := reached[i], reached[k];
  }

  /** The lowest byte the two samples both play, when they are not the same blocks. */
  ghost predicate FirstShared(p: Chain, q: Chain, a: nat) {
    p.start != q.start && Shares(p, q, a) && forall b: nat :: b < a ==> !Shares(p, q, b)
  }

  lemma {:induction false} SharedIsFirst(p: Reached, q: Reached, a: nat)
    ensures OverlapOf(p, q) == Some(Overlap(p.sample, q.sample, a)) <==> FirstShared(p.walk, q.walk, a)
    ensures OverlapOf(p, q).Some? ==>
              OverlapOf(p, q).value.first == p.sample && OverlapOf(p, q).value.second == q.sample
  {
  }

  /** Every pair that shares bytes is reported, at its lowest shared byte, and nothing else is. */
  lemma {:induction false} OverlapsAreExact(ram: Ram, directory: nat, used: seq<nat>, o: Overlap)
    ensures o in OverlapsOf(ram, directory, used) <==>
              BothEnd(ram, directory, used, o.first, o.second) &&
              FirstShared(ReachOf(ram, directory, o.first).walk, ReachOf(ram, directory, o.second).walk, o.at)
  {
    var reached := ReachedBy(ram, directory, used);
    ReachedAscend(ram, directory, used);
    var p, q := ReachOf(ram, directory, o.first), ReachOf(ram, directory, o.second);
    SharedIsFirst(p, q, o.at);
    if BothEnd(ram, directory, used, o.first, o.second) && OverlapOf(p, q) == Some(o) {
      ListedIn(reached, p, q, o);
    }
    if o in RowsOf(reached, |reached|) {
      var r, s := InListed(reached, o);
      SharedIsFirst(r, s, o.at);
      assert r == p && s == q;
    }
  }

  /** By the lower number, and then by the higher one. */
  ghost predicate Precedes(o: Overlap, p: Overlap) {
    o.first < p.first || (o.first == p.first && o.second < p.second)
  }

  ghost predicate InRising(found: seq<Overlap>) {
    forall i, j :: 0 <= i < j < |found| ==> Precedes(found[i], found[j])
  }

  ghost predicate AllBefore(found: seq<Overlap>, more: seq<Overlap>) {
    forall o, p :: o in found && p in more ==> Precedes(o, p)
  }

  lemma {:induction false} RisingJoins(found: seq<Overlap>, more: seq<Overlap>)
    requires InRising(found) && InRising(more) && AllBefore(found, more)
    ensures InRising(found + more)
  {
  }

  /** An overlap the row of sample `i` could hold: with one of the samples after it, below `j`. */
  ghost predicate OfRow(reached: seq<Reached>, i: nat, j: nat, o: Overlap)
    requires i < j <= |reached|
  {
    o.first == reached[i].sample && exists k :: i < k < j && o.second == reached[k].sample
  }

  ghost predicate OfRows(reached: seq<Reached>, n: nat, o: Overlap)
    requires n <= |reached|
  {
    exists i :: 0 <= i < n && o.first == reached[i].sample
  }

  lemma {:induction false} RowGrows(reached: seq<Reached>, i: nat, j: nat, row: seq<Overlap>, one: seq<Overlap>)
    requires i < j < |reached| && Ascending(reached)
    requires forall o :: o in row ==> OfRow(reached, i, j, o)
    requires forall o :: o in one ==> o.first == reached[i].sample && o.second == reached[j].sample
    ensures AllBefore(row, one)
    ensures forall o :: o in row + one ==> OfRow(reached, i, j + 1, o)
  {
  }

  lemma {:induction false} RowRises(reached: seq<Reached>, i: nat, j: nat)
    requires i < j <= |reached| && Ascending(reached)
    ensures InRising(RowOf(reached, i, j))
    ensures forall o :: o in RowOf(reached, i, j) ==> OfRow(reached, i, j, o)
  {
    if j > i + 1 {
      RowRises(reached, i, j - 1);
      var row, one := RowOf(reached, i, j - 1), IfAny(OverlapOf(reached[i], reached[j - 1]));
      RowGrows(reached, i, j - 1, row, one);
      RisingJoins(row, one);
    }
  }

  lemma {:induction false} RowsBefore(reached: seq<Reached>, n: nat, found: seq<Overlap>, row: seq<Overlap>)
    requires n < |reached| && Ascending(reached)
    requires forall o :: o in found ==> OfRows(reached, n, o)
    requires forall o :: o in row ==> OfRow(reached, n, |reached|, o)
    ensures AllBefore(found, row)
    ensures forall o :: o in found + row ==> OfRows(reached, n + 1, o)
  {
  }

  lemma {:induction false} RowsRise(reached: seq<Reached>, n: nat)
    requires n <= |reached| && Ascending(reached)
    ensures InRising(RowsOf(reached, n))
    ensures forall o :: o in RowsOf(reached, n) ==> OfRows(reached, n, o)
  {
    if n != 0 {
      RowsRise(reached, n - 1);
      var found, row := RowsOf(reached, n - 1), RowOf(reached, n - 1, |reached|);
      RowRises(reached, n - 1, |reached|);
      RowsBefore(reached, n - 1, found, row);
      RisingJoins(found, row);
    }
  }

  /** The pairs come in order, and none of them twice. */
  lemma {:induction false} OverlapsAscend(ram: Ram, directory: nat, used: seq<nat>)
    ensures InRising(OverlapsOf(ram, directory, used))
  {
    ReachedAscend(ram, directory, used);
    var reached := ReachedBy(ram, directory, used);
    RowsRise(reached, |reached|);
  }

  /**
   * With no overlap reported, rewriting one sample's bytes cannot damage a
   * different one: its walk and every byte of it stay as they were.
   */
  lemma {:induction false} NoOverlapIsolates(ram: Ram, other: Ram, directory: nat, used: seq<nat>,
                                             first: nat, second: nat, rewritten: nat, kept: nat)
    requires OverlapsOf(ram, directory, used) == [] && BothEnd(ram, directory, used, first, second)
    requires (rewritten, kept) == (first, second) || (rewritten, kept) == (second, first)
    requires EntryOf(ram, directory, first).start != EntryOf(ram, directory, second).start
    requires var p := ReachOf(ram, directory, rewritten).walk;
             forall a :: 0 <= a < APU_RAM && !(p.start <= a < p.end) ==> other[a] == ram[a]
    ensures var start := EntryOf(ram, directory, kept).start;
            && ChainFrom(other, start) == ChainFrom(ram, start)
            && forall a :: start <= a < ChainFrom(ram, start).end ==> other[a] == ram[a]
  {
    var p, q := ReachOf(ram, directory, first), ReachOf(ram, directory, second);
    var shared := SharedBy(p.walk, q.walk);
    if shared.Some? {
      OverlapsAreExact(ram, directory, used, Overlap(first, second, shared.value));
    }
    var walk := ReachOf(ram, directory, kept).walk;
    forall a | walk.start <= a < walk.end
      ensures other[a] == ram[a]
    {
      assert !Shares(p.walk, q.walk, a);
    }
    WalkReadsItsReach(ram, other, walk.start, 0);
  }
}
