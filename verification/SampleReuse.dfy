/**
 * Replaying a log of sample uploads to see which blocks were already resident.
 * A block counts as resident when every byte it would write came, last time that
 * byte was written, from the very source it would come from now.
 */
module SampleReuse {
  import opened Types
  import opened Listing

  const APU_RAM := 0x10000
  const LONGEST_BLOCK := 0x8000

  /** One upload: `length` bytes from `bank:src` in the cartridge to `dest` in sound RAM. */
  datatype Block = Block(bank: nat, src: nat, length: nat, dest: nat)

  /** Where a byte of sound RAM came from. */
  datatype Tag = Tag(bank: nat, offset: nat)

  function TagAt(b: Block, step: nat): Tag {
    Tag(b.bank, (b.src + step) % 0x10000)
  }

  function SlotAt(b: Block, step: nat): (s: nat)
    ensures s < APU_RAM
  {
    (b.dest + step) % APU_RAM
  }

  /** Empty and overlong lengths are log noise and are passed over. */
  predicate Counted(b: Block) {
    0 < b.length <= LONGEST_BLOCK
  }

  // ------------------------------------------------------- the shadow and the RAM

  /** The provenance array after a block's first `n` bytes. */
  function Traced(provenance: seq<Option<Tag>>, b: Block, n: nat): (r: seq<Option<Tag>>)
    requires |provenance| == APU_RAM
    ensures |r| == APU_RAM
  {
    if n == 0 then provenance else Traced(provenance, b, n - 1)[SlotAt(b, n - 1) := Some(TagAt(b, n - 1))]
  }

  predicate Resident(provenance: seq<Option<Tag>>, b: Block)
    requires |provenance| == APU_RAM
  {
    forall step :: 0 <= step < b.length ==> provenance[SlotAt(b, step)] == Some(TagAt(b, step))
  }

  /** The byte the cartridge shows at an offset of a bank. */
  type Cartridge = (nat, nat) -> byte

  /**
   * Sound RAM after a block's first `n` bytes arrive: the cartridge is read from the
   * block's bank, and both the source offset and the destination wrap at 64 KB.
   */
  function Uploaded(ram: seq<byte>, rom: Cartridge, b: Block, n: nat): (r: seq<byte>)
    requires |ram| == APU_RAM
    ensures |r| == APU_RAM
  {
    if n == 0 then ram
    else Uploaded(ram, rom, b, n - 1)[(b.dest + (n - 1)) % 0x10000 := rom(b.bank, (b.src + (n - 1)) % 0x10000)]
  }

  /** Every traced byte of RAM is the cartridge byte its tag names. */
  ghost predicate Shadows(provenance: seq<Option<Tag>>, ram: seq<byte>, rom: Cartridge) {
    && |provenance| == APU_RAM == |ram|
    && forall a :: 0 <= a < APU_RAM && provenance[a].Some? ==>
         ram[a] == rom(provenance[a].value.bank, provenance[a].value.offset)
  }

  lemma {:induction false} UploadKeepsShadow(provenance: seq<Option<Tag>>, ram: seq<byte>, rom: Cartridge,
                                             b: Block, n: nat)
    requires Shadows(provenance, ram, rom)
    ensures Shadows(Traced(provenance, b, n), Uploaded(ram, rom, b, n), rom)
  {
    if n != 0 {
      UploadKeepsShadow(provenance, ram, rom, b, n - 1);
    }
  }

  /** Uploading a resident block writes back what is there. */
  lemma {:induction false} ResidentUploadIsNoOp(provenance: seq<Option<Tag>>, ram: seq<byte>, rom: Cartridge,
                                                b: Block, n: nat)
    requires Shadows(provenance, ram, rom) && Resident(provenance, b) && n <= b.length
    ensures Uploaded(ram, rom, b, n) == ram
    ensures Traced(provenance, b, n) == provenance
  {
    if n != 0 {
      ResidentUploadIsNoOp(provenance, ram, rom, b, n - 1);
      assert provenance[SlotAt(b, n - 1)] == Some(TagAt(b, n - 1));
    }
  }

  // ------------------------------------------------------------- whole logs

  /** The provenance after the first `n` blocks. */
  function TracedAll(blocks: seq<Block>, n: nat): (r: seq<Option<Tag>>)
    requires n <= |blocks|
    ensures |r| == APU_RAM
  {
    if n == 0 then seq(APU_RAM, _ => None)
    else
      var was := TracedAll(blocks, n - 1);
      if Counted(blocks[n - 1]) then Traced(was, blocks[n - 1], blocks[n - 1].length) else was
  }

  /** Block `i` is counted and was already there when its turn came. */
  predicate Skippable(blocks: seq<Block>, i: nat)
    requires i < |blocks|
  {
    Counted(blocks[i]) && Resident(TracedAll(blocks, i), blocks[i])
  }

  /** Sound RAM after one more upload. */
  function RamAfter(was: seq<byte>, rom: Cartridge, b: Block): (r: seq<byte>)
    requires |was| == APU_RAM
    ensures |r| == APU_RAM
  {
    if Counted(b) then Uploaded(was, rom, b, b.length) else was
  }

  /** Sound RAM after the first `n` blocks, all of them uploaded. */
  function RamUploadingAll(ram: seq<byte>, rom: Cartridge, blocks: seq<Block>, n: nat): (r: seq<byte>)
    requires |ram| == APU_RAM && n <= |blocks|
    ensures |r| == APU_RAM
  {
    if n == 0 then ram else RamAfter(RamUploadingAll(ram, rom, blocks, n - 1), rom, blocks[n - 1])
  }

  function Unskipped(blocks: seq<Block>, i: nat): Option<Block>
    requires i < |blocks|
  {
    if Skippable(blocks, i) then None else Some(blocks[i])
  }

  function Choices(blocks: seq<Block>, n: nat): (r: seq<Option<Block>>)
    requires n <= |blocks|
    ensures |r| == n
  {
    seq(n, i requires 0 <= i < n => Unskipped(blocks, i))
  }

  /** The log of the first `n` blocks with the skippable ones left out, the others in order. */
  function Sent(blocks: seq<Block>, n: nat): seq<Block>
    requires n <= |blocks|
  {
    Kept(Choices(blocks, n))
  }

  lemma {:induction false} UploadsShare(ram: seq<byte>, rom: Cartridge, some: seq<Block>, more: seq<Block>, n: nat)
    requires |ram| == APU_RAM && some <= more && n <= |some|
    ensures RamUploadingAll(ram, rom, some, n) == RamUploadingAll(ram, rom, more, n)
  {
    if n != 0 {
      UploadsShare(ram, rom, some, more, n - 1);
    }
  }

  /** RAM follows the shadow: every traced byte is the cartridge's. */
  lemma {:induction false} UploadsKeepShadow(ram: seq<byte>, rom: Cartridge, blocks: seq<Block>, n: nat)
    requires |ram| == APU_RAM && n <= |blocks|
    ensures Shadows(TracedAll(blocks, n), RamUploadingAll(ram, rom, blocks, n), rom)
  {
    if n != 0 {
      UploadsKeepShadow(ram, rom, blocks, n - 1);
      var b := blocks[n - 1];
      if Counted(b) {
        UploadKeepsShadow(TracedAll(blocks, n - 1), RamUploadingAll(ram, rom, blocks, n - 1), rom, b, b.length);
      }
    }
  }

  lemma {:induction false} SentNext(blocks: seq<Block>, n: nat)
    requires n < |blocks|
    ensures Sent(blocks, n + 1) == if Skippable(blocks, n) then Sent(blocks, n) else Sent(blocks, n) + [blocks[n]]
  {
    assert Choices(blocks, n + 1)[..n] == Choices(blocks, n);
  }

  lemma {:induction false} SendOneMore(ram: seq<byte>, rom: Cartridge, before: seq<Block>, b: Block)
    requires |ram| == APU_RAM
    ensures RamUploadingAll(ram, rom, before + [b], |before + [b]|)
         == RamAfter(RamUploadingAll(ram, rom, before, |before|), rom, b)
  {
    UploadsShare(ram, rom, before, before + [b], |before|);
  }

  /**
   * Skipping is safe: whatever the cartridge holds and whatever RAM held first,
   * sending only the blocks not counted as resident leaves the same RAM, after any
   * block of the log.
   */
  lemma {:induction false} SkippingChangesNothing(ram: seq<byte>, rom: Cartridge, blocks: seq<Block>, n: nat)
    requires |ram| == APU_RAM && n <= |blocks|
    ensures RamUploadingAll(ram, rom, Sent(blocks, n), |Sent(blocks, n)|) == RamUploadingAll(ram, rom, blocks, n)
  {
    if n != 0 {
      var was := RamUploadingAll(ram, rom, blocks, n - 1);
      SkippingChangesNothing(ram, rom, blocks, n - 1);
      SentNext(blocks, n - 1);
      if Skippable(blocks, n - 1) {
        UploadsKeepShadow(ram, rom, blocks, n - 1);
        ResidentUploadIsNoOp(TracedAll(blocks, n - 1), was, rom, blocks[n - 1], blocks[n - 1].length);
      } else {
        SendOneMore(ram, rom, Sent(blocks, n - 1), blocks[n - 1]);
      }
    }
  }

  /** A fresh byte is never taken for a resident one: nothing is traced that was not sent. */
  lemma {:induction false} TracedBytesWereSent(blocks: seq<Block>, n: nat, a: nat)
    requires n <= |blocks| && a < APU_RAM && TracedAll(blocks, n)[a].Some?
    ensures exists i, step :: 0 <= i < n && Sends(blocks[i], step, a, TracedAll(blocks, n)[a].value)
  {
    var b, was := blocks[n - 1], TracedAll(blocks, n - 1);
    if Counted(b) && (exists step :: 0 <= step < b.length && SlotAt(b, step) == a) {
      LastSent(was, b, b.length, a);
      var step :| Sends(b, step, a, TracedAll(blocks, n)[a].value);
      assert Sends(blocks[n - 1], step, a, TracedAll(blocks, n)[a].value);
    } else {
      if Counted(b) {
        UntouchedTrace(was, b, b.length, a);
      }
      TracedBytesWereSent(blocks, n - 1, a);
    }
  }

  ghost predicate Sends(b: Block, step: nat, a: nat, tag: Tag) {
    Counted(b) && step < b.length && SlotAt(b, step) == a && TagAt(b, step) == tag
  }

  lemma {:induction false} LastSent(was: seq<Option<Tag>>, b: Block, n: nat, a: nat)
    requires |was| == APU_RAM && a < APU_RAM && Counted(b) && n <= b.length
    requires exists step :: 0 <= step < n && SlotAt(b, step) == a
    ensures Traced(was, b, n)[a].Some?
    ensures exists step :: Sends(b, step, a, Traced(was, b, n)[a].value)
  {
    if SlotAt(b, n - 1) == a {
      assert Sends(b, n - 1, a, Traced(was, b, n)[a].value);
    } else {
      LastSent(was, b, n - 1, a);
    }
  }

  lemma {:induction false} UntouchedTrace(was: seq<Option<Tag>>, b: Block, n: nat, a: nat)
    requires |was| == APU_RAM && a < APU_RAM
    requires forall step :: 0 <= step < n ==> SlotAt(b, step) != a
    ensures Traced(was, b, n)[a] == was[a]
  {
    if n != 0 {
      UntouchedTrace(was, b, n - 1, a);
    }
  }

  // ------------------------------------------------------- what resident means

  /** Byte `step` of the block goes to cell `a`; lengths of zero and past 32 KB send nothing. */
  predicate Wrote(b: Block, step: nat, a: nat) {
    0 < b.length <= 0x8000 && step < b.length && (b.dest + step) % 0x10000 == a
  }

  ghost predicate WritesTo(b: Block, a: nat) {
    exists step: nat :: Wrote(b, step, a)
  }

  /** Of the first `n` blocks, `j` is the last to write cell `a`, with its byte `step`. */
  ghost predicate LastWrote(blocks: seq<Block>, n: nat, j: nat, step: nat, a: nat)
    requires n <= |blocks|
  {
    && j < n && Wrote(blocks[j], step, a)
    && forall k :: j < k < n ==> !WritesTo(blocks[k], a)
  }

  /** A block has at most one byte for a cell. */
  lemma {:induction false} OneStep(b: Block, s: nat, t: nat, a: nat)
    requires Wrote(b, s, a) && Wrote(b, t, a)
    ensures s == t
  {
    assert (b.dest + s) % 0x10000 == (b.dest + t) % 0x10000;
  }

  lemma {:induction false} TraceShows(was: seq<Option<Tag>>, b: Block, n: nat, step: nat, a: nat)
    requires |was| == APU_RAM && step < n <= b.length && Wrote(b, step, a)
    ensures Traced(was, b, n)[a] == Some(Tag(b.bank, (b.src + step) % 0x10000))
  {
    if step < n - 1 {
      TraceShows(was, b, n - 1, step, a);
      if SlotAt(b, n - 1) == a {
        OneStep(b, step, n - 1, a);
      }
    }
  }

  lemma {:induction false} TraceKeeps(was: seq<Option<Tag>>, b: Block, a: nat)
    requires |was| == APU_RAM && a < APU_RAM && Counted(b) && !WritesTo(b, a)
    ensures Traced(was, b, b.length)[a] == was[a]
  {
    forall step | 0 <= step < b.length
      ensures SlotAt(b, step) != a
    {
      assert !Wrote(b, step, a);
    }
    UntouchedTrace(was, b, b.length, a);
  }

  /** Block `j` is the last to write the cell, and its byte comes from that bank and offset. */
  ghost predicate LastFrom(blocks: seq<Block>, n: nat, j: nat, step: nat, a: nat, bank: nat, offset: nat)
    requires n <= |blocks|
  {
    LastWrote(blocks, n, j, step, a) && blocks[j].bank == bank && (blocks[j].src + step) % 0x10000 == offset
  }

  /** Some block is the cell's last writer, from that bank and offset. */
  ghost predicate CameFrom(blocks: seq<Block>, n: nat, a: nat, bank: nat, offset: nat)
    requires n <= |blocks|
  {
    exists j: nat, step: nat :: LastFrom(blocks, n, j, step, a, bank, offset)
  }

  /** A cell the newest block writes came from there. */
  lemma {:induction false} NewestIsLast(blocks: seq<Block>, n: nat, step: nat, a: nat, bank: nat, offset: nat)
    requires 0 < n <= |blocks| && Wrote(blocks[n - 1], step, a)
    ensures CameFrom(blocks, n, a, bank, offset) <==>
              blocks[n - 1].bank == bank && (blocks[n - 1].src + step) % 0x10000 == offset
  {
    if blocks[n - 1].bank == bank && (blocks[n - 1].src + step) % 0x10000 == offset {
      assert LastFrom(blocks, n, n - 1, step, a, bank, offset);
    }
    forall j: nat, t: nat | LastFrom(blocks, n, j, t, a, bank, offset)
      ensures j == n - 1 && t == step
    {
      assert WritesTo(blocks[n - 1], a);
      OneStep(blocks[n - 1], step, t, a);
    }
  }

  /** A cell it leaves alone came from where it came from before. */
  lemma {:induction false} OthersStayLast(blocks: seq<Block>, n: nat, a: nat, bank: nat, offset: nat)
    requires 0 < n <= |blocks| && !WritesTo(blocks[n - 1], a)
    ensures CameFrom(blocks, n, a, bank, offset) <==> CameFrom(blocks, n - 1, a, bank, offset)
  {
    var m := n - 1;
    if j: nat, step: nat :| LastFrom(blocks, n, j, step, a, bank, offset) {
      assert Wrote(blocks[j], step, a);
      assert LastFrom(blocks, m, j, step, a, bank, offset);
    }
    if j: nat, step: nat :| LastFrom(blocks, m, j, step, a, bank, offset) {
      assert LastFrom(blocks, n, j, step, a, bank, offset);
    }
  }

  /** The trace holds exactly where each cell's last writer took it from. */
  lemma {:induction false} TraceIsLastWriter(blocks: seq<Block>, n: nat, a: nat, bank: nat, offset: nat)
    requires n <= |blocks| && a < APU_RAM
    ensures TracedAll(blocks, n)[a] == Some(Tag(bank, offset)) <==> CameFrom(blocks, n, a, bank, offset)
  {
    if n != 0 {
      var b, was := blocks[n - 1], TracedAll(blocks, n - 1);
      if step: nat :| Wrote(b, step, a) {
        TraceShows(was, b, b.length, step, a);
        NewestIsLast(blocks, n, step, a, bank, offset);
      } else {
        TraceIsLastWriter(blocks, n - 1, a, bank, offset);
        OthersStayLast(blocks, n, a, bank, offset);
        if Counted(b) {
          TraceKeeps(was, b, a);
        }
      }
    }
  }

  /** Byte `step` of block `i` would find its cell last written from the same bank and the same wrapped offset. */
  ghost predicate ByteWasThere(blocks: seq<Block>, i: nat, step: nat)
    requires i < |blocks|
  {
    CameFrom(blocks, i, (blocks[i].dest + step) % 0x10000, blocks[i].bank, (blocks[i].src + step) % 0x10000)
  }

  /**
   * A block counts as resident exactly when it has a length of 1 to 32 KB and every
   * one of its bytes was last written from the very place it would come from now.
   */
  lemma {:induction false} ResidentIffLastFromSource(blocks: seq<Block>, i: nat)
    requires i < |blocks|
    ensures Skippable(blocks, i) <==>
              && 0 < blocks[i].length <= 0x8000
              && forall step: nat :: step < blocks[i].length ==> ByteWasThere(blocks, i, step)
  {
    var b := blocks[i];
    forall step: nat | step < b.length
      ensures TracedAll(blocks, i)[SlotAt(b, step)] == Some(TagAt(b, step)) <==> ByteWasThere(blocks, i, step)
    {
      TraceIsLastWriter(blocks, i, (b.dest + step) % 0x10000, b.bank, (b.src + step) % 0x10000);
    }
  }

  lemma {:induction false} UploadKeeps(ram: seq<byte>, rom: Cartridge, b: Block, n: nat, a: nat)
    requires |ram| == APU_RAM && a < APU_RAM && n <= b.length && 0 < b.length <= 0x8000 && !WritesTo(b, a)
    ensures Uploaded(ram, rom, b, n)[a] == ram[a]
  {
    if n != 0 {
      UploadKeeps(ram, rom, b, n - 1, a);
      assert !Wrote(b, n - 1, a);
    }
  }

  /** After uploading everything a cell holds its last writer's cartridge byte, or what it held first. */
  lemma {:induction false} RamIsLastWriter(ram: seq<byte>, rom: Cartridge, blocks: seq<Block>, n: nat, a: nat)
    requires |ram| == APU_RAM && n <= |blocks| && a < APU_RAM
    ensures forall bank, offset :: CameFrom(blocks, n, a, bank, offset) ==>
              RamUploadingAll(ram, rom, blocks, n)[a] == rom(bank, offset)
    ensures (forall j :: 0 <= j < n ==> !WritesTo(blocks[j], a)) ==> RamUploadingAll(ram, rom, blocks, n)[a] == ram[a]
  {
    UploadsKeepShadow(ram, rom, blocks, n);
    forall bank, offset | CameFrom(blocks, n, a, bank, offset)
      ensures RamUploadingAll(ram, rom, blocks, n)[a] == rom(bank, offset)
    {
      TraceIsLastWriter(blocks, n, a, bank, offset);
    }
    if forall j :: 0 <= j < n ==> !WritesTo(blocks[j], a) {
      UnwrittenIsKept(ram, rom, blocks, n, a);
    }
  }

  lemma {:induction false} UnwrittenIsKept(ram: seq<byte>, rom: Cartridge, blocks: seq<Block>, n: nat, a: nat)
    requires |ram| == APU_RAM && n <= |blocks| && a < APU_RAM
    requires forall j :: 0 <= j < n ==> !WritesTo(blocks[j], a)
    ensures RamUploadingAll(ram, rom, blocks, n)[a] == ram[a]
  {
    if n != 0 {
      UnwrittenIsKept(ram, rom, blocks, n - 1, a);
      if Counted(blocks[n - 1]) {
        UploadKeeps(RamUploadingAll(ram, rom, blocks, n - 1), rom, blocks[n - 1], blocks[n - 1].length, a);
      }
    }
  }

  // ---------------------------------------------------------------- replay

  datatype Totals = Totals(loads: nat, blocks: nat, bytes: nat, residentBlocks: nat, residentBytes: nat)

  function CountBlock(t: Totals, b: Block, same: bool): Totals {
    if !Counted(b) then t
    else
      Totals(t.loads, t.blocks + 1, t.bytes + b.length,
             t.residentBlocks + (if same then 1 else 0), t.residentBytes + (if same then b.length else 0))
  }

  /** The totals over the first `n` blocks, residency judged at each block's turn. */
  function Tally(blocks: seq<Block>, n: nat): Totals
    requires n <= |blocks|
  {
    if n == 0 then Totals(0, 0, 0, 0, 0)
    else CountBlock(Tally(blocks, n - 1), blocks[n - 1], Skippable(blocks, n - 1))
  }

  /** One run's spans, in order; a span is its blocks. */
  type Load = seq<seq<Block>>

  function SpanBlocks(spans: Load): seq<Block> {
    if spans == [] then [] else SpanBlocks(spans[..|spans| - 1]) + spans[|spans| - 1]
  }

  function AllBlocks(loads: seq<Load>): seq<Block> {
    if loads == [] then [] else AllBlocks(loads[..|loads| - 1]) + SpanBlocks(loads[|loads| - 1])
  }

  /** Compares a block with the provenance, then records it. */
  method TraceBlock(provenance: array<Option<Tag>>, b: Block) returns (same: bool)
    requires provenance.Length == APU_RAM
    modifies provenance
    ensures same == Resident(old(provenance[..]), b)
    ensures provenance[..] == Traced(old(provenance[..]), b, b.length)
  {
    same := true;
    for step := 0 to b.length
      invariant provenance[..] == old(provenance[..])
      invariant same <==> forall i :: 0 <= i < step ==> provenance[SlotAt(b, i)] == Some(TagAt(b, i))
    {
      if provenance[SlotAt(b, step)] != Some(TagAt(b, step)) {
        same := false;
      }
    }
    for step := 0 to b.length
      invariant provenance[..] == Traced(old(provenance[..]), b, step)
    {
      provenance[SlotAt(b, step)] := Some(TagAt(b, step));
    }
  }

  lemma {:induction false} PrefixAgrees(a: seq<Block>, b: seq<Block>, n: nat)
    requires n <= |a| && a <= b
    ensures TracedAll(a, n) == TracedAll(b, n) && Tally(a, n) == Tally(b, n)
  {
    if n != 0 {
      PrefixAgrees(a, b, n - 1);
    }
  }

  /** What a stretch of blocks moved, and how much of it was already there. */
  datatype Cost = Cost(bytes: nat, resident: nat) {
    function Plus(c: Cost): Cost {
      Cost(bytes + c.bytes, resident + c.resident)
    }
  }

  /** One block's share, judged against the provenance its predecessors left. */
  function BlockCost(before: seq<Block>, b: Block): Cost {
    if !Counted(b) then Cost(0, 0)
    else Cost(b.length, if Resident(TracedAll(before, |before|), b) then b.length else 0)
  }

  /** The first `n` blocks of a span, after the blocks in `before`. */
  function SpanCost(before: seq<Block>, blocks: seq<Block>, n: nat): Cost
    requires n <= |blocks|
  {
    if n == 0 then Cost(0, 0)
    else SpanCost(before, blocks, n - 1).Plus(BlockCost(before + blocks[..n - 1], blocks[n - 1]))
  }

  function SpanCosts(before: seq<Block>, spans: Load, n: nat): (r: seq<Cost>)
    requires n <= |spans|
    ensures |r| == n
  {
    if n == 0 then []
    else
      SpanCosts(before, spans, n - 1) +
      [SpanCost(before + SpanBlocks(spans[..n - 1]), spans[n - 1], |spans[n - 1]|)]
  }

  function Sum(costs: seq<Cost>): Cost {
    if costs == [] then Cost(0, 0) else Sum(costs[..|costs| - 1]).Plus(costs[|costs| - 1])
  }

  /** One load's line: its own figures, and its spans'. */
  datatype LoadReport = LoadReport(cost: Cost, spans: seq<Cost>)

  function ReportFor(before: seq<Block>, spans: Load): LoadReport {
    LoadReport(Sum(SpanCosts(before, spans, |spans|)), SpanCosts(before, spans, |spans|))
  }

  function ReportsFor(loads: seq<Load>, n: nat): (r: seq<LoadReport>)
    requires n <= |loads|
    ensures |r| == n
  {
    if n == 0 then [] else ReportsFor(loads, n - 1) + [ReportFor(AllBlocks(loads[..n - 1]), loads[n - 1])]
  }

  function CostOfReports(reports: seq<LoadReport>): Cost {
    if reports == [] then Cost(0, 0) else CostOfReports(reports[..|reports| - 1]).Plus(reports[|reports| - 1].cost)
  }

  /** The totals' own two byte counts. */
  function Moved(t: Totals): Cost {
    Cost(t.bytes, t.residentBytes)
  }

  /** Provenance and totals are those of the blocks in `done`, the load count apart. */
  ghost predicate Carried(provenance: seq<Option<Tag>>, t: Totals, done: seq<Block>) {
    provenance == TracedAll(done, |done|) && t == Tally(done, |done|).(loads := t.loads)
  }

  /** One more block on the log: totals, provenance, and its share of the span's figures. */
  method ReplayBlock(provenance: array<Option<Tag>>, ghost done: seq<Block>, b: Block, t: Totals)
    returns (r: Totals, share: Cost)
    requires provenance.Length == APU_RAM
    requires Carried(provenance[..], t, done)
    modifies provenance
    ensures Carried(provenance[..], r, done + [b]) && r.loads == t.loads
    ensures share == BlockCost(done, b) && Moved(r) == Moved(t).Plus(share)
  {
    PrefixAgrees(done, done + [b], |done|);
    r, share := t, Cost(0, 0);
    if Counted(b) {
      var same := TraceBlock(provenance, b);
      r := CountBlock(t, b, same);
      share := Cost(b.length, if same then b.length else 0);
    }
  }

  /** One span: its blocks in order, and its figures. */
  method ReplaySpan(provenance: array<Option<Tag>>, ghost before: seq<Block>, blocks: seq<Block>, t: Totals)
    returns (r: Totals, cost: Cost)
    requires provenance.Length == APU_RAM
    requires Carried(provenance[..], t, before)
    modifies provenance
    ensures Carried(provenance[..], r, before + blocks) && r.loads == t.loads
    ensures cost == SpanCost(before, blocks, |blocks|) && Moved(r) == Moved(t).Plus(cost)
  {
    r, cost := t, Cost(0, 0);
    assert before + blocks[..0] == before;
    for j := 0 to |blocks|
      invariant Carried(provenance[..], r, before + blocks[..j]) && r.loads == t.loads
      invariant cost == SpanCost(before, blocks, j) && Moved(r) == Moved(t).Plus(cost)
    {
      assert before + blocks[..j + 1] == before + blocks[..j] + [blocks[j]];
      var share;
      r, share := ReplayBlock(provenance, before + blocks[..j], blocks[j], r);
      cost := cost.Plus(share);
    }
    assert blocks[..|blocks|] == blocks;
  }

  /** One load: its spans in order, each with its own figures. */
  method ReplayLoad(provenance: array<Option<Tag>>, ghost before: seq<Block>, spans: Load, t: Totals)
    returns (r: Totals, report: LoadReport)
    requires provenance.Length == APU_RAM
    requires Carried(provenance[..], t, before)
    modifies provenance
    ensures Carried(provenance[..], r, before + SpanBlocks(spans)) && r.loads == t.loads
    ensures report == ReportFor(before, spans) && Moved(r) == Moved(t).Plus(report.cost)
  {
    r := t;
    var costs: seq<Cost>, total := [], Cost(0, 0);
    assert before + SpanBlocks(spans[..0]) == before;
    for i := 0 to |spans|
      invariant Carried(provenance[..], r, before + SpanBlocks(spans[..i])) && r.loads == t.loads
      invariant costs == SpanCosts(before, spans, i) && total == Sum(costs) && Moved(r) == Moved(t).Plus(total)
    {
      ghost var done := before + SpanBlocks(spans[..i]);
      assert spans[..i + 1][..i] == spans[..i];
      assert before + SpanBlocks(spans[..i + 1]) == done + spans[i];
      var cost;
      r, cost := ReplaySpan(provenance, done, spans[i], r);
      assert (costs + [cost])[..i] == costs;
      costs, total := costs + [cost], total.Plus(cost);
    }
    assert spans[..|spans|] == spans;
    report := LoadReport(total, costs);
  }

  /** The whole log: provenance and totals carried from load to load. */
  method Replay(loads: seq<Load>) returns (totals: Totals, perLoad: seq<LoadReport>)
    ensures totals == Tally(AllBlocks(loads), |AllBlocks(loads)|).(loads := |loads|)
    ensures perLoad == ReportsFor(loads, |loads|) && CostOfReports(perLoad) == Moved(totals)
  {
    var provenance := new Option<Tag>[APU_RAM](_ => None);
    totals, perLoad := Totals(0, 0, 0, 0, 0), [];
    assert provenance[..] == TracedAll([], 0);
    for l := 0 to |loads|
      invariant Carried(provenance[..], totals, AllBlocks(loads[..l])) && totals.loads == l
      invariant perLoad == ReportsFor(loads, l) && CostOfReports(perLoad) == Moved(totals)
    {
      assert loads[..l + 1][..l] == loads[..l];
      var report;
      totals, report := ReplayLoad(provenance, AllBlocks(loads[..l]), loads[l], totals);
      totals := totals.(loads := totals.loads + 1);
      assert (perLoad + [report])[..l] == perLoad;
      perLoad := perLoad + [report];
    }
    assert loads[..|loads|] == loads;
  }

  // ------------------------------------------------------- what the figures mean

  /** The lengths of the blocks from `lo` up to `hi` that satisfy `p`, added up. */
  function Bytes(blocks: seq<Block>, p: nat -> bool, lo: nat, hi: nat): nat
    requires hi <= |blocks|
  {
    if hi <= lo then 0
    else Bytes(blocks, p, lo, hi - 1) + (if p(hi - 1) then blocks[hi - 1].length else 0)
  }

  /** Blocks of 1 to 32 KB. */
  function Sizeable(blocks: seq<Block>): nat -> bool {
    (i: nat) => i < |blocks| && 0 < blocks[i].length <= 0x8000
  }

  /** Blocks counted as resident; ResidentIffLastFromSource says which those are. */
  function AlreadyThere(blocks: seq<Block>): nat -> bool {
    (i: nat) => i < |blocks| && Skippable(blocks, i)
  }

  /** The totals: how many blocks and bytes were sent, and how many of them needlessly. */
  lemma {:induction false} TotalsAreExact(blocks: seq<Block>, n: nat)
    requires n <= |blocks|
    ensures var t := Tally(blocks, n);
            && t.blocks == |Places(Sizeable(blocks), n)| && t.bytes == Bytes(blocks, Sizeable(blocks), 0, n)
            && t.residentBlocks == |Places(AlreadyThere(blocks), n)|
            && t.residentBytes == Bytes(blocks, AlreadyThere(blocks), 0, n)
  {
    if n != 0 {
      TotalsAreExact(blocks, n - 1);
      assert AlreadyThere(blocks)(n - 1) ==> Sizeable(blocks)(n - 1);
    }
  }

  /** A span's figures are those of its own blocks, judged where they stand in the log. */
  lemma {:induction false} SpanIsExact(before: seq<Block>, blocks: seq<Block>, n: nat)
    requires n <= |blocks|
    ensures var all := before + blocks;
            SpanCost(before, blocks, n)
            == Cost(Bytes(all, Sizeable(all), |before|, |before| + n),
                    Bytes(all, AlreadyThere(all), |before|, |before| + n))
  {
    if n != 0 {
      var all, done := before + blocks, before + blocks[..n - 1];
      SpanIsExact(before, blocks, n - 1);
      assert all[|before| + n - 1] == blocks[n - 1];
      assert done <= all;
      PrefixAgrees(done, all, |done|);
    }
  }

  /** Every span of every load: its figures, and the load's as their sum. */
  lemma {:induction false} ReportsAreExact(loads: seq<Load>, l: nat, j: nat, n: nat)
    requires l < n <= |loads| && j < |loads[l]|
    ensures var before := AllBlocks(loads[..l]) + SpanBlocks(loads[l][..j]);
            var all := before + loads[l][j];
            var report := ReportsFor(loads, n)[l];
            && |report.spans| == |loads[l]| && report.cost == Sum(report.spans)
            && report.spans[j]
               == Cost(Bytes(all, Sizeable(all), |before|, |all|), Bytes(all, AlreadyThere(all), |before|, |all|))
  {
    if l < n - 1 {
      ReportsAreExact(loads, l, j, n - 1);
    } else {
      SpanCostsAt(AllBlocks(loads[..l]), loads[l], j, |loads[l]|);
      SpanIsExact(AllBlocks(loads[..l]) + SpanBlocks(loads[l][..j]), loads[l][j], |loads[l][j]|);
    }
  }

  lemma {:induction false} SpanCostsAt(before: seq<Block>, spans: Load, j: nat, n: nat)
    requires j < n <= |spans|
    ensures SpanCosts(before, spans, n)[j] == SpanCost(before + SpanBlocks(spans[..j]), spans[j], |spans[j]|)
  {
    if j < n - 1 {
      SpanCostsAt(before, spans, j, n - 1);
    }
  }
}
