/** Checking a sample bank the way the audio chip walks it. */
module SampleAudit {
  import opened Types
  import opened Listing

  const APU_RAM := 0x10000
  const BLOCK_BYTES := 9
  const DIRECTORY_BYTES := 4
  const MAX_BLOCKS := 7281

  type Ram = r: seq<byte> | |r| == 0x10000 witness Zeros(0x10000)

  // --------------------------------------------------------------- directory

  datatype Entry = Entry(start: nat, loop: nat)

  function DirectoryAt(directory: nat, sample: nat): (at: nat)
    ensures at < APU_RAM
  {
    (directory + sample * DIRECTORY_BYTES) % APU_RAM
  }

  /** The four bytes are read one by one, each address wrapping at 64 KB. */
  function EntryOf(ram: Ram, directory: nat, sample: nat): (e: Entry)
    ensures e.start < APU_RAM && e.loop < APU_RAM
  {
    var at := DirectoryAt(directory, sample);
    Entry((ram[at] as int) + (ram[(at + 1) % APU_RAM] as int) * 0x100,
          (ram[(at + 2) % APU_RAM] as int) + (ram[(at + 3) % APU_RAM] as int) * 0x100)
  }

  // -------------------------------------------------------------------- walk

  /** How far a walk reached and whether a block said it was the last. */
  datatype Chain = Chain(start: nat, blocks: nat, end: nat, ends: bool)

  /** The walk from `start` with `blocks` blocks already behind it. */
  function Walk(ram: Ram, start: nat, blocks: nat): (c: Chain)
    requires start < APU_RAM && blocks <= MAX_BLOCKS && start + blocks * BLOCK_BYTES <= APU_RAM
    ensures c.start == start && start + blocks * BLOCK_BYTES <= c.end <= APU_RAM
    ensures c.ends ==> c.end == start + c.blocks * BLOCK_BYTES && c.blocks > blocks
    decreases MAX_BLOCKS - blocks
  {
    var at := start + blocks * BLOCK_BYTES;
    if blocks == MAX_BLOCKS then Chain(start, MAX_BLOCKS, APU_RAM, false)
    else if at + BLOCK_BYTES > APU_RAM then Chain(start, blocks, at, false)
    else if ram[at] % 2 == 1 then Chain(start, blocks + 1, at + BLOCK_BYTES, true)
    else Walk(ram, start, blocks + 1)
  }

  function ChainFrom(ram: Ram, start: nat): Chain
    requires start < APU_RAM
  {
    Walk(ram, start, 0)
  }

  /** The loop that walks a sample, bounded by the blocks memory could hold. */
  method WalkChain(ram: Ram, start: nat) returns (c: Chain)
    requires start < APU_RAM
    ensures c == ChainFrom(ram, start)
  {
    var at := start;
    for blocks := 1 to MAX_BLOCKS + 1
      invariant at == start + (blocks - 1) * BLOCK_BYTES <= APU_RAM
      invariant ChainFrom(ram, start) == Walk(ram, start, blocks - 1)
    {
      if at + BLOCK_BYTES > APU_RAM {
        return Chain(start, blocks - 1, if at < APU_RAM then at else APU_RAM, false);
      }
      var header := ram[at];
      at := at + BLOCK_BYTES;
      if header % 2 == 1 {
        return Chain(start, blocks, at, true);
      }
    }
    return Chain(start, MAX_BLOCKS, APU_RAM, false);
  }

  /** A walk looks only at bytes inside the reach it reports. */
  lemma {:induction false} WalkReadsItsReach(ram: Ram, other: Ram, start: nat, blocks: nat)
    requires start < APU_RAM && blocks <= MAX_BLOCKS && start + blocks * BLOCK_BYTES <= APU_RAM
    requires forall a :: start <= a < Walk(ram, start, blocks).end ==> other[a] == ram[a]
    ensures Walk(other, start, blocks) == Walk(ram, start, blocks)
    decreases MAX_BLOCKS - blocks
  {
    var at := start + blocks * BLOCK_BYTES;
    if blocks < MAX_BLOCKS && at + BLOCK_BYTES <= APU_RAM {
      assert other[at] == ram[at];
      if ram[at] % 2 == 0 {
        WalkReadsItsReach(ram, other, start, blocks + 1);
      }
    }
  }

  /** Block `last` of the nine-byte blocks from `start` is whole, carries the end flag, and is the first to. */
  ghost predicate LastBlock(ram: Ram, start: nat, last: nat) {
    && start + 9 * (last + 1) <= 0x10000 && ram[start + 9 * last] % 2 == 1
    && forall k: nat :: k < last ==> EvenAt(ram, start + 9 * k)
  }

  predicate EvenAt(ram: Ram, a: nat) {
    a < 0x10000 && ram[a] % 2 == 0
  }

  /** The walk ends behind the first flagged block; with none it stops where no whole block is left. */
  lemma {:induction false} WalkIsExact(ram: Ram, start: nat)
    requires start < APU_RAM
    ensures ChainFrom(ram, start).ends <==> exists last: nat :: LastBlock(ram, start, last)
    ensures forall last: nat :: LastBlock(ram, start, last) ==>
              ChainFrom(ram, start) == Chain(start, last + 1, start + 9 * (last + 1), true)
    ensures !ChainFrom(ram, start).ends ==>
              var whole := (0x10000 - start) / 9;
              ChainFrom(ram, start) == Chain(start, whole, if start < 8 then 0x10000 else start + 9 * whole, false)
  {
    WalkIsExactFrom(ram, start, 0);
  }

  lemma {:induction false} WalkIsExactFrom(ram: Ram, start: nat, n: nat)
    requires start < APU_RAM && n <= MAX_BLOCKS && start + n * BLOCK_BYTES <= APU_RAM
    requires forall k: nat :: k < n ==> EvenAt(ram, start + 9 * k)
    ensures Walk(ram, start, n).ends <==> exists last: nat :: LastBlock(ram, start, last)
    ensures forall last: nat :: LastBlock(ram, start, last) ==>
              Walk(ram, start, n) == Chain(start, last + 1, start + 9 * (last + 1), true)
    ensures !Walk(ram, start, n).ends ==>
              var whole := (0x10000 - start) / 9;
              Walk(ram, start, n) == Chain(start, whole, if start < 8 then 0x10000 else start + 9 * whole, false)
    decreases MAX_BLOCKS - n
  {
    var at := start + n * BLOCK_BYTES;
    if n == MAX_BLOCKS || at + BLOCK_BYTES > APU_RAM {
      NoLastBlock(ram, start, n);
    } else if ram[at] % 2 == 1 {
      assert LastBlock(ram, start, n);
      forall last: nat | LastBlock(ram, start, last)
        ensures last == n
      {
        OneLastBlock(ram, start, n, last);
      }
    } else {
      assert EvenAt(ram, start + 9 * n);
      WalkIsExactFrom(ram, start, n + 1);
    }
  }

  lemma {:induction false} NoLastBlock(ram: Ram, start: nat, n: nat)
    requires start < APU_RAM && start + 9 * n <= 0x10000 < start + 9 * (n + 1)
    requires forall k: nat :: k < n ==> EvenAt(ram, start + 9 * k)
    ensures forall last: nat :: !LastBlock(ram, start, last)
    ensures (0x10000 - start) / 9 == n
  {
    forall last: nat
      ensures !LastBlock(ram, start, last)
    {
      if last < n {
        assert EvenAt(ram, start + 9 * last);
      }
    }
  }

  lemma {:induction false} NotBothLast(ram: Ram, start: nat, m: nat, n: nat)
    requires m < n && LastBlock(ram, start, n)
    ensures !LastBlock(ram, start, m)
  {
    assert EvenAt(ram, start + 9 * m);
  }

  lemma {:induction false} OneLastBlock(ram: Ram, start: nat, m: nat, n: nat)
    requires LastBlock(ram, start, m) && LastBlock(ram, start, n)
    ensures m == n
  {
    if m < n {
      NotBothLast(ram, start, m, n);
      assert false;
    }
    if n < m {
      NotBothLast(ram, start, n, m);
      assert false;
    }
  }

  /** A directory entry reads back what was spelled there: start, then loop, low byte first. */
  lemma {:induction false} EntryReadsBack(ram: Ram, directory: nat, sample: nat, start: nat, loop: nat)
    requires start < 0x10000 && loop < 0x10000
    ensures var at := (directory + 4 * sample) % 0x10000;
            var spelled: Ram := ram[at := start % 0x100][(at + 1) % 0x10000 := start / 0x100]
                                   [(at + 2) % 0x10000 := loop % 0x100][(at + 3) % 0x10000 := loop / 0x100];
            EntryOf(spelled, directory, sample) == Entry(start, loop)
  {
  }

  // -------------------------------------------------------------- collisions

  datatype Fault = DirectoryWritten(sample: nat, at: nat) | Overwritten(sample: nat, at: nat)

  ghost predicate Touches(written: seq<nat>, from: nat, to: nat) {
    exists i :: 0 <= i < |written| && from <= written[i] < to
  }

  /** The lowest written address in a range. */
  function LeastTouched(written: seq<nat>, from: nat, to: nat): (r: Option<nat>)
    ensures r.None? <==> !Touches(written, from, to)
    ensures r.Some? ==> from <= r.value < to && r.value in written
    ensures r.Some? ==> forall i :: 0 <= i < |written| && from <= written[i] < to ==> r.value <= written[i]
  {
    if written == [] then None
    else
      var n := |written| - 1;
      var rest := LeastTouched(written[..n], from, to);
      assert forall i :: 0 <= i < n ==> written[..n][i] == written[i];
      if !(from <= written[n] < to) then rest
      else if rest.Some? && rest.value <= written[n] then rest
      else Some(written[n])
  }

  /** What an upload would do to one playing sample, if anything. */
  function CollisionOf(ram: Ram, directory: nat, sample: nat, written: seq<nat>): Option<Fault> {
    var at := DirectoryAt(directory, sample);
    if LeastTouched(written, at, at + DIRECTORY_BYTES).Some? then Some(DirectoryWritten(sample, at))
    else
      var walked := ChainFrom(ram, EntryOf(ram, directory, sample).start);
      match LeastTouched(written, walked.start, walked.end)
      case None => None
      case Some(a) => Some(Overwritten(sample, a))
  }

  function Checked(ram: Ram, directory: nat, playing: seq<nat>, written: seq<nat>): (r: seq<Option<Fault>>)
    ensures |r| == |playing|
  {
    seq(|playing|, i requires 0 <= i < |playing| => CollisionOf(ram, directory, playing[i], written))
  }

  function CollisionsOf(ram: Ram, directory: nat, playing: seq<nat>, written: seq<nat>): seq<Fault> {
    Kept(Checked(ram, directory, playing, written))
  }

  method Collisions(ram: Ram, directory: nat, playing: seq<nat>, written: seq<nat>) returns (found: seq<Fault>)
    ensures found == CollisionsOf(ram, directory, playing, written)
  {
    found := [];
    ghost var checked := Checked(ram, directory, playing, written);
    for i := 0 to |playing|
      invariant found == Kept(checked[..i])
    {
      assert checked[..i + 1][..i] == checked[..i];
      var sample := playing[i];
      var at := DirectoryAt(directory, sample);
      if LeastTouched(written, at, at + DIRECTORY_BYTES).Some? {
        found := found + [DirectoryWritten(sample, at)];
        continue;
      }
      var entry := EntryOf(ram, directory, sample);
      var walked := WalkChain(ram, entry.start);
      var shared := LeastTouched(written, walked.start, walked.end);
      if shared.Some? {
        found := found + [Overwritten(sample, shared.value)];
      }
    }
    assert checked[..|playing|] == checked;
  }

  /** An empty report means no playing sample has a collision, and the other way round. */
  lemma {:induction false} NoneReported(ram: Ram, directory: nat, playing: seq<nat>, written: seq<nat>)
    ensures CollisionsOf(ram, directory, playing, written) == [] <==>
              forall i :: 0 <= i < |playing| ==> CollisionOf(ram, directory, playing[i], written).None?
  {
    var checked := Checked(ram, directory, playing, written);
    KeptMembers(checked);
    assert forall i :: 0 <= i < |playing| ==> checked[i] == CollisionOf(ram, directory, playing[i], written);
  }

  ghost predicate WrittenIn(written: seq<nat>, from: nat, to: nat) {
    exists a :: a in written && from <= a < to
  }

  ghost predicate LeastWritten(written: seq<nat>, from: nat, to: nat, a: nat) {
    a in written && from <= a < to && forall b :: b in written && from <= b < to ==> a <= b
  }

  lemma {:induction false} TouchedIsWritten(written: seq<nat>, from: nat, to: nat)
    ensures LeastTouched(written, from, to).Some? <==> WrittenIn(written, from, to)
  {
    if a :| a in written && from <= a < to {
      var i :| 0 <= i < |written| && written[i] == a;
      assert Touches(written, from, to);
    }
  }

  lemma {:induction false} LeastIsLeast(written: seq<nat>, from: nat, to: nat, a: nat)
    ensures LeastTouched(written, from, to) == Some(a) <==> LeastWritten(written, from, to, a)
  {
    var least := LeastTouched(written, from, to);
    TouchedIsWritten(written, from, to);
    if least.Some? {
      forall b | b in written && from <= b < to
        ensures least.value <= b
      {
        var i :| 0 <= i < |written| && written[i] == b;
      }
    }
  }

  /** What a report says of a sample: its entry is written to, or else the least byte of its walk that is. */
  lemma {:induction false} CollisionIsExact(ram: Ram, directory: nat, sample: nat, written: seq<nat>)
    ensures var at := (directory + 4 * sample) % 0x10000;
            var walked := ChainFrom(ram, EntryOf(ram, directory, sample).start);
            && (CollisionOf(ram, directory, sample, written) == Some(DirectoryWritten(sample, at)) <==>
                  WrittenIn(written, at, at + 4))
            && (forall a: nat :: CollisionOf(ram, directory, sample, written) == Some(Overwritten(sample, a)) <==>
                  !WrittenIn(written, at, at + 4) && LeastWritten(written, walked.start, walked.end, a))
            && (CollisionOf(ram, directory, sample, written).None? <==>
                  !WrittenIn(written, at, at + 4) && !WrittenIn(written, walked.start, walked.end))
  {
    var at := DirectoryAt(directory, sample);
    var walked := ChainFrom(ram, EntryOf(ram, directory, sample).start);
    TouchedIsWritten(written, at, at + 4);
    TouchedIsWritten(written, walked.start, walked.end);
    forall a: nat
      ensures LeastTouched(written, walked.start, walked.end) == Some(a) <==>
              LeastWritten(written, walked.start, walked.end, a)
    {
      LeastIsLeast(written, walked.start, walked.end, a);
    }
  }

  ghost function HasCollision(ram: Ram, directory: nat, playing: seq<nat>, written: seq<nat>): nat -> bool {
    (i: nat) => i < |playing| && CollisionOf(ram, directory, playing[i], written).Some?
  }

  /** The report: one line for each playing sample with a collision, in the order given. */
  lemma {:induction false} CollisionsInOrder(ram: Ram, directory: nat, playing: seq<nat>, written: seq<nat>)
    returns (at: seq<nat>)
    ensures Selects(HasCollision(ram, directory, playing, written), |playing|, at)
    ensures var report := CollisionsOf(ram, directory, playing, written);
            && |report| == |at|
            && forall k :: 0 <= k < |at| ==>
                 at[k] < |playing| && CollisionOf(ram, directory, playing[at[k]], written) == Some(report[k])
  {
    var checked := Checked(ram, directory, playing, written);
    at := KeptIsExact(checked);
    SameSelection(Found(checked), HasCollision(ram, directory, playing, written), |playing|, at);
  }

  /** The upload changed nothing outside the addresses it says it writes. */
  ghost predicate DiffersOnlyAt(ram: Ram, other: Ram, written: seq<nat>) {
    forall a :: 0 <= a < APU_RAM && a !in written ==> other[a] == ram[a]
  }

  /** The chip plays the sample the same: same entry, same walk, same bytes. */
  ghost predicate PlaysTheSame(ram: Ram, other: Ram, directory: nat, sample: nat) {
    var start := EntryOf(ram, directory, sample).start;
    && EntryOf(other, directory, sample) == EntryOf(ram, directory, sample)
    && ChainFrom(other, start) == ChainFrom(ram, start)
    && forall a :: start <= a < ChainFrom(ram, start).end ==> other[a] == ram[a]
  }

  /** With the directory entry inside memory, no report means no audible change. */
  lemma {:induction false} SilenceIsSound(ram: Ram, other: Ram, directory: nat, sample: nat, written: seq<nat>)
    requires DirectoryAt(directory, sample) <= APU_RAM - DIRECTORY_BYTES
    requires CollisionOf(ram, directory, sample, written).None? && DiffersOnlyAt(ram, other, written)
    ensures PlaysTheSame(ram, other, directory, sample)
  {
    var at := DirectoryAt(directory, sample);
    var walked := ChainFrom(ram, EntryOf(ram, directory, sample).start);
    UntouchedKeeps(ram, other, written, at, at + DIRECTORY_BYTES);
    UntouchedKeeps(ram, other, written, walked.start, walked.end);
    SameEntry(ram, other, directory, sample);
    WalkReadsItsReach(ram, other, walked.start, 0);
  }

  lemma {:induction false} UntouchedKeeps(ram: Ram, other: Ram, written: seq<nat>, from: nat, to: nat)
    requires DiffersOnlyAt(ram, other, written) && !Touches(written, from, to)
    ensures forall a :: from <= a < to && a < APU_RAM ==> other[a] == ram[a]
  {
    forall a | from <= a < to && a < APU_RAM
      ensures a !in written
    {
      if i :| 0 <= i < |written| && written[i] == a {
        assert Touches(written, from, to);
      }
    }
  }

  lemma {:induction false} SameEntry(ram: Ram, other: Ram, directory: nat, sample: nat)
    requires DirectoryAt(directory, sample) <= APU_RAM - DIRECTORY_BYTES
    requires forall a :: DirectoryAt(directory, sample) <= a < DirectoryAt(directory, sample) + DIRECTORY_BYTES ==>
               other[a] == ram[a]
    ensures EntryOf(other, directory, sample) == EntryOf(ram, directory, sample)
  {
  }

  /** Memory whose sample at `at` is one block at 0x0100, with `at` near the very top. */
  function Wrapped(at: nat): Ram
    requires 0xFFFC < at < APU_RAM
  {
    Zeros(0x10000)[(at + 1) % APU_RAM := 1][0x100 := 1]
  }

  lemma {:induction false} OnlyZero(from: nat, to: nat)
    requires from > 0
    ensures LeastTouched([0], from, to).None?
  {
  }

  /**
   * An entry that straddles the top of memory escapes the check: its wrapped
   * bytes sit at address zero, which the check's range never includes.
   */
  lemma {:induction false} StraddlingEntryEscapes(directory: nat, sample: nat)
    requires DirectoryAt(directory, sample) > APU_RAM - DIRECTORY_BYTES
    ensures var ram := Wrapped(DirectoryAt(directory, sample));
            && CollisionOf(ram, directory, sample, [0]).None?
            && DiffersOnlyAt(ram, ram[0 := 0x55], [0])
            && !PlaysTheSame(ram, ram[0 := 0x55], directory, sample)
  {
    var at := DirectoryAt(directory, sample);
    var ram := Wrapped(at);
    var other: Ram := ram[0 := 0x55];
    assert EntryOf(ram, directory, sample).start == 0x100;
    assert Walk(ram, 0x100, 0) == Chain(0x100, 1, 0x109, true);
    OnlyZero(at, at + DIRECTORY_BYTES);
    OnlyZero(0x100, 0x109);
    assert EntryOf(other, directory, sample) != EntryOf(ram, directory, sample);
    assert [0][0] == 0;
  }

  ghost predicate CheckIsSound(directory: nat, sample: nat) {
    forall ram: Ram, other: Ram, written ::
      CollisionsOf(ram, directory, [sample], written) == [] && DiffersOnlyAt(ram, other, written) ==>
        PlaysTheSame(ram, other, directory, sample)
  }

  /** The check can be trusted for a sample exactly when its entry does not wrap. */
  lemma {:induction false} SoundIffEntryInMemory(directory: nat, sample: nat)
    ensures CheckIsSound(directory, sample) <==> DirectoryAt(directory, sample) <= APU_RAM - DIRECTORY_BYTES
  {
    if DirectoryAt(directory, sample) <= APU_RAM - DIRECTORY_BYTES {
      forall ram: Ram, other: Ram, written |
        CollisionsOf(ram, directory, [sample], written) == [] && DiffersOnlyAt(ram, other, written)
        ensures PlaysTheSame(ram, other, directory, sample)
      {
        NoneReported(ram, directory, [sample], written);
        assert [sample][0] == sample;
        SilenceIsSound(ram, other, directory, sample, written);
      }
    } else {
      var ram := Wrapped(DirectoryAt(directory, sample));
      StraddlingEntryEscapes(directory, sample);
      NoneReported(ram, directory, [sample], [0]);
      assert CollisionsOf(ram, directory, [sample], [0]) == [];
    }
  }

  /** A directory on a four-byte boundary, as the chip's own always is, never wraps. */
  lemma {:induction false} AlignedDirectoryIsSound(directory: nat, sample: nat)
    requires directory % DIRECTORY_BYTES == 0
    ensures CheckIsSound(directory, sample)
  {
    AlignedInMemory(directory, sample);
    SoundIffEntryInMemory(directory, sample);
  }

  lemma {:induction false} AlignedInMemory(directory: nat, sample: nat)
    requires directory % DIRECTORY_BYTES == 0
    ensures DirectoryAt(directory, sample) <= APU_RAM - DIRECTORY_BYTES
  {
    var words := directory / 4 + sample;
    assert directory + sample * DIRECTORY_BYTES == 4 * words;
    WrapsInFours(words);
  }

  lemma {:induction false} WrapsInFours(words: nat)
    ensures 4 * words % 0x10000 <= 0x10000 - 4
  {
    var q, r := words / 0x4000, words % 0x4000;
    assert 4 * words == 0x10000 * q + 4 * r;
  }

  // ---------------------------------------------------------------- overlaps

  /** A walk that goes on past block `k` continues as the walk from that block. */
  lemma {:induction false} SameTail(ram: Ram, start: nat, k: nat, j: nat)
    requires start < APU_RAM && k + j <= MAX_BLOCKS && start + (k + j) * BLOCK_BYTES <= APU_RAM
    requires start + k * BLOCK_BYTES < APU_RAM
    requires Walk(ram, start, k + j).ends
    ensures Walk(ram, start + k * BLOCK_BYTES, j).ends
    ensures Walk(ram, start + k * BLOCK_BYTES, j).end == Walk(ram, start, k + j).end
    decreases MAX_BLOCKS - j
  {
    var at := start + (k + j) * BLOCK_BYTES;
    assert at == start + k * BLOCK_BYTES + j * BLOCK_BYTES;
    if ram[at] % 2 == 0 {
      SameTail(ram, start, k, j + 1);
    }
  }

  /** Before its last block a terminating walk passes every block on its grid. */
  lemma {:induction false} PassesBlock(ram: Ram, start: nat, i: nat, k: nat)
    requires start < APU_RAM && i <= k <= MAX_BLOCKS && start + i * BLOCK_BYTES <= APU_RAM
    requires Walk(ram, start, i).ends && start + k * BLOCK_BYTES < Walk(ram, start, i).end
    ensures start + k * BLOCK_BYTES <= APU_RAM
    ensures Walk(ram, start, k) == Walk(ram, start, i)
    decreases k - i
  {
    if i < k {
      PassesBlock(ram, start, i + 1, k);
    }
  }

  lemma {:induction false} TailFromBlock(ram: Ram, start: nat, k: nat)
    requires k <= MAX_BLOCKS && start + k * BLOCK_BYTES < APU_RAM && Walk(ram, start, k).ends
    ensures Walk(ram, start + k * BLOCK_BYTES, 0).ends
    ensures Walk(ram, start + k * BLOCK_BYTES, 0).end == Walk(ram, start, k).end
  {
    assert k + 0 == k;
    SameTail(ram, start, k, 0);
  }

  lemma {:induction false} BlockOfAnother(ram: Ram, start: nat, k: nat)
    requires k <= MAX_BLOCKS && start + k * BLOCK_BYTES < APU_RAM
    requires ChainFrom(ram, start).ends && start + k * BLOCK_BYTES < ChainFrom(ram, start).end
    ensures ChainFrom(ram, start + k * BLOCK_BYTES).ends
    ensures ChainFrom(ram, start + k * BLOCK_BYTES).end == ChainFrom(ram, start).end
  {
    PassesBlock(ram, start, 0, k);
    TailFromBlock(ram, start, k);
  }

  /**
   * Two terminating samples that share a byte and lie on the same nine-byte grid
   * end at the same address.
   */
  lemma {:induction false} SharedGridSharesEnd(ram: Ram, s1: nat, s2: nat, a: nat)
    requires s1 <= s2 < APU_RAM && (s2 - s1) % BLOCK_BYTES == 0
    requires ChainFrom(ram, s1).ends && ChainFrom(ram, s2).ends
    requires s1 <= a < ChainFrom(ram, s1).end && s2 <= a < ChainFrom(ram, s2).end
    ensures ChainFrom(ram, s1).end == ChainFrom(ram, s2).end
  {
    var k := (s2 - s1) / BLOCK_BYTES;
    assert s2 == s1 + k * BLOCK_BYTES && k <= MAX_BLOCKS;
    BlockOfAnother(ram, s1, k);
  }
}
