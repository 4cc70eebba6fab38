/**
 * Finding a stream in a finished image: the budgeted check a tool runs, and the
 * unbounded scan the cartridge runs before it starts a transfer.
 */
module Lookup {
  import opened Types
  import opened Circular
  import opened AddressMap
  import opened Place
  import opened Plan
  import opened Image
  import opened Served
  import FirstFit
  import IndexTables
  import KeyTable
  import KeyTableLoops
  import Memory = SnesMemory
  import Regions

  const SCAN_BUDGET := 64

  function TableAddress(table: nat, slot: Slot): Address
    requires table < TABLE_COUNT
  {
    (TABLE_BANK + table) * BANK + slot
  }

  /** The slots of the image's key bank that carry a bank byte, as a reader sees them. */
  ghost function SeenHits(image: seq<byte>, banks: nat, bank: int): set<Slot>
    requires ImageOf(image, banks)
  {
    set s: Slot | 0 <= s < SLOTS && View(image, TableAddress(0, s), banks) == bank
  }

  /** The destination spelled by the other three table banks at a slot. */
  function SeenDestination(image: seq<byte>, banks: nat, slot: Slot): nat
    requires banks >= 0xC0 && |image| == banks * BANK
  {
    (View(image, TableAddress(3, slot), banks) as int) * 0x10000 +
    (View(image, TableAddress(2, slot), banks) as int) * 0x100 +
    View(image, TableAddress(1, slot), banks)
  }

  // -------------------------------------------------------------- resolve

  datatype Resolution = Resolution(destination: nat, step: nat)

  /** The nearest hit, if it is within the budget. */
  ghost function ResolveOf(image: seq<byte>, banks: nat, source: nat): Option<Resolution>
    requires ImageOf(image, banks)
  {
    var key := IndexTables.SourceKey(source);
    match Nearest(SeenHits(image, banks, key.bank), key.addr)
    case None => None
    case Some(slot) =>
      var step := Distance(key.addr, slot);
      if step > SCAN_BUDGET then None else Some(Resolution(SeenDestination(image, banks, slot), step))
  }

  /** Looks at no more than 65 slots. */
  method Resolve(image: seq<byte>, banks: nat, source: nat) returns (r: Option<Resolution>)
    requires ImageOf(image, banks)
    ensures r == ResolveOf(image, banks, source)
    ensures r.None? <==> OutOfReach(image, banks, source)
    ensures r.Some? ==> ResolvesTo(image, banks, source, r.value.step, r.value.destination)
  {
    ResolveIsExact(image, banks, source);
    var bank, cursor: Slot := WINDOW_BASE + source / BANK, source % BANK;
    ghost var hits := SeenHits(image, banks, bank);
    for step := 0 to SCAN_BUDGET + 1
      invariant forall t :: t in hits ==> step <= Distance(cursor, t)
    {
      var slot: Slot := (cursor + step) % SLOTS;
      StepStands(cursor, step);
      if View(image, TableAddress(0, slot), banks) == bank {
        NearestIs(hits, cursor, slot);
        return Some(Resolution(SeenDestination(image, banks, slot), step));
      }
      assert slot !in hits;
      KeyTableLoops.OnlyOneAtDistance(cursor, slot);
    }
    return None;
  }

  lemma {:induction false} StepStands(cursor: Slot, step: nat)
    requires step < SLOTS
    ensures Distance(cursor, (cursor + step) % SLOTS) == step
  {
  }

  /** The bank byte `step` places on from the source's own address, and the three bytes beside it. */
  function KeyByteAt(image: seq<byte>, banks: nat, source: nat, step: nat): byte
    requires banks >= 0xC0 && |image| == banks * BANK
  {
    View(image, 0x600000 + (source + step) % 0x10000, banks)
  }

  function SpelledAt(image: seq<byte>, banks: nat, source: nat, step: nat): nat
    requires banks >= 0xC0 && |image| == banks * BANK
  {
    var at := (source + step) % 0x10000;
    (View(image, 0x630000 + at, banks) as int) * 0x10000 + (View(image, 0x620000 + at, banks) as int) * 0x100 +
    View(image, 0x610000 + at, banks)
  }

  /** None of the 65 places looked at carries the source's bank. */
  ghost predicate OutOfReach(image: seq<byte>, banks: nat, source: nat)
    requires ImageOf(image, banks)
  {
    forall step: nat :: step <= 64 ==> KeyByteAt(image, banks, source, step) as int != 0xC0 + source / 0x10000
  }

  /** The first of them that does is `step` places on, and spells that destination. */
  ghost predicate ResolvesTo(image: seq<byte>, banks: nat, source: nat, step: nat, destination: nat)
    requires ImageOf(image, banks)
  {
    && step <= 64 && KeyByteAt(image, banks, source, step) as int == 0xC0 + source / 0x10000
    && (forall s: nat :: s < step ==> KeyByteAt(image, banks, source, s) as int != 0xC0 + source / 0x10000)
    && destination == SpelledAt(image, banks, source, step)
  }

  lemma {:induction false} HitIsKeyByte(image: seq<byte>, banks: nat, source: nat, step: nat)
    requires ImageOf(image, banks) && step < 0x10000
    ensures var slot: Slot := (source + step) % 0x10000;
            && Distance(source % BANK, slot) == step
            && (slot in SeenHits(image, banks, WINDOW_BASE + source / BANK) <==>
                KeyByteAt(image, banks, source, step) as int == 0xC0 + source / 0x10000)
            && SeenDestination(image, banks, slot) == SpelledAt(image, banks, source, step)
  {
    assert (source + step) % 0x10000 == (source % 0x10000 + step) % 0x10000;
  }

  /** The budgeted lookup, place by place: it gives up exactly when nothing within reach carries the bank. */
  lemma {:induction false} ResolveIsExact(image: seq<byte>, banks: nat, source: nat)
    requires ImageOf(image, banks)
    ensures ResolveOf(image, banks, source).None? <==> OutOfReach(image, banks, source)
    ensures ResolveOf(image, banks, source).Some? ==>
              var r := ResolveOf(image, banks, source).value;
              ResolvesTo(image, banks, source, r.step, r.destination)
  {
    var hits, addr: Slot := SeenHits(image, banks, WINDOW_BASE + source / BANK), source % BANK;
    var nearest := Nearest(hits, addr);
    forall step: nat | step <= 64 && KeyByteAt(image, banks, source, step) as int == 0xC0 + source / 0x10000
      ensures nearest.Some? && Distance(addr, nearest.value) <= step
    {
      HitIsKeyByte(image, banks, source, step);
    }
    if nearest.Some? {
      var step := Distance(addr, nearest.value);
      HitIsKeyByte(image, banks, source, step);
      SlotAtDistance(source, nearest.value);
      if step <= 64 {
        assert KeyByteAt(image, banks, source, step) as int == 0xC0 + source / 0x10000;
      }
    }
  }

  lemma {:induction false} SlotAtDistance(source: nat, slot: Slot)
    ensures (source + Distance(source % BANK, slot)) % 0x10000 == slot
  {
  }

  /** Only one place and one destination can be the answer. */
  lemma {:induction false} ResolvesOnce(image: seq<byte>, banks: nat, source: nat, s: nat, d: nat, t: nat, e: nat)
    requires ImageOf(image, banks)
    requires ResolvesTo(image, banks, source, s, d) && ResolvesTo(image, banks, source, t, e)
    ensures s == t && d == e
  {
  }

  // ------------------------------------------------------- lookup on a build

  lemma {:induction false} ShowsSlot(image: seq<byte>, banks: nat, c: IndexTables.Columns, s: Slot)
    requires ImageOf(image, banks) && ShowsTables(image, banks, c)
    ensures View(image, TableAddress(0, s), banks) == c.key[s]
    ensures View(image, TableAddress(1, s), banks) == c.low[s]
    ensures View(image, TableAddress(2, s), banks) == c.high[s]
    ensures View(image, TableAddress(3, s), banks) == c.bank[s]
  {
    assert ShowsTableByte(image, banks, c, TableAddress(0, s));
    assert ShowsTableByte(image, banks, c, TableAddress(1, s));
    assert ShowsTableByte(image, banks, c, TableAddress(2, s));
    assert ShowsTableByte(image, banks, c, TableAddress(3, s));
  }

  /** The scan of the key bank from a source address stops at that slot, which spells that destination. */
  ghost predicate LeadsTo(image: seq<byte>, banks: nat, source: nat, slot: Slot, destination: nat)
    requires ImageOf(image, banks)
  {
    var key := IndexTables.SourceKey(source);
    && Nearest(SeenHits(image, banks, key.bank), key.addr) == Some(slot)
    && SeenDestination(image, banks, slot) == destination
  }

  /**
   * Scanning an image's key bank from a stream's source address stops at that
   * stream's slot, and the slot spells the stream's destination.
   */
  lemma {:induction false} ScanYieldsDestination(image: seq<byte>, banks: nat, pairs: seq<IndexTables.Pair>, k: nat)
    requires ImageOf(image, banks) && IndexTables.TablesFor(pairs).Ok? && k < |pairs|
    requires ShowsTables(image, banks, IndexTables.TablesFor(pairs).value.columns)
    ensures var slots := IndexTables.TablesFor(pairs).value.slots;
            |slots| == |pairs| && LeadsTo(image, banks, pairs[k].source, slots[k], pairs[k].destination)
  {
    var t := IndexTables.TablesFor(pairs).value;
    var bank := IndexTables.SourceKey(pairs[k].source).bank;
    IndexTables.TablesAnswer(pairs, k);
    forall s: Slot
      ensures s in SeenHits(image, banks, bank) <==> s in IndexTables.BankHits(t.columns.key, bank)
    {
      ShowsSlot(image, banks, t.columns, s);
    }
    assert SeenHits(image, banks, bank) == IndexTables.BankHits(t.columns.key, bank);
    ShowsSlot(image, banks, t.columns, t.slots[k]);
  }

  lemma {:induction false} LookupYieldsDestination(rom: seq<byte>, entries: seq<Entry>, banks: nat,
                                                   extra: seq<Write>, decode: Decoder, k: nat)
    requires Succeeds(rom, entries, banks, extra, decode) && k < |entries|
    ensures var b := BuildOf(rom, entries, banks, extra, decode).value;
            && |b.tables.slots| == |entries|
            && LeadsTo(b.image, banks, entries[k].source, b.tables.slots[k], b.destinations[entries[k].index])
  {
    var b := BuildOf(rom, entries, banks, extra, decode).value;
    TableBanksShow(rom, entries, banks, extra, decode);
    ScanYieldsDestination(b.image, banks, Pairs(entries, b.destinations), k);
  }

  /** What the chip would decode: lookup from the source, then plain reads. */
  ghost predicate ServedThroughLookup(image: seq<byte>, banks: nat, source: nat, data: seq<byte>)
    requires ImageOf(image, banks)
  {
    var key := IndexTables.SourceKey(source);
    var slot := Nearest(SeenHits(image, banks, key.bank), key.addr);
    slot.Some? && ReadsAs(image, banks, SeenDestination(image, banks, slot.value), data)
  }

  lemma {:induction false} FoundAndRead(image: seq<byte>, banks: nat, source: nat, slot: Slot,
                                        destination: nat, data: seq<byte>)
    requires ImageOf(image, banks) && ReadsAs(image, banks, destination, data)
    requires LeadsTo(image, banks, source, slot, destination)
    ensures ServedThroughLookup(image, banks, source, data)
  {
  }

  lemma {:induction false} StreamReadsBack(rom: seq<byte>, entries: seq<Entry>, banks: nat, extra: seq<Write>,
                                           decode: Decoder, k: nat)
    requires Succeeds(rom, entries, banks, extra, decode) && k < |entries|
    ensures var b := BuildOf(rom, entries, banks, extra, decode).value;
            ReadsAs(b.image, banks, b.destinations[entries[k].index], DataOf(rom, entries[k], decode))
  {
    var b := BuildOf(rom, entries, banks, extra, decode).value;
    var data := DataOf(rom, entries[k], decode);
    forall t: nat
      ensures ReadsByte(b.image, banks, b.destinations[entries[k].index], data, t)
    {
      if t < |data| {
        StreamIsServed(rom, entries, banks, extra, decode, k, t);
      }
    }
  }

  /**
   * Meaning preservation: if the build returns, every stream the chip would have
   * decoded is served, byte for byte, by a key scan and plain reads.
   */
  lemma {:induction false} EveryStreamIsServed(rom: seq<byte>, entries: seq<Entry>, banks: nat,
                                               extra: seq<Write>, decode: Decoder, k: nat)
    requires Succeeds(rom, entries, banks, extra, decode) && k < |entries|
    ensures ServedThroughLookup(BuildOf(rom, entries, banks, extra, decode).value.image, banks,
                                entries[k].source, DataOf(rom, entries[k], decode))
  {
    var b := BuildOf(rom, entries, banks, extra, decode).value;
    LookupYieldsDestination(rom, entries, banks, extra, decode, k);
    StreamReadsBack(rom, entries, banks, extra, decode, k);
    FoundAndRead(b.image, banks, entries[k].source, b.tables.slots[k],
                 b.destinations[entries[k].index], DataOf(rom, entries[k], decode));
  }

  // ---------------------------------------------------------- scan budget

  function SourceKeys(sources: seq<nat>): (r: seq<KeyTable.Key>)
    ensures |r| == |sources|
  {
    seq(|sources|, i requires 0 <= i < |sources| => IndexTables.SourceKey(sources[i]))
  }

  function StepAt(sources: seq<nat>, slots: seq<Slot>, i: nat): nat
    requires i < |sources| == |slots|
  {
    Distance(sources[i] % BANK, slots[i])
  }

  /** The largest of the first `n` steps; zero of none. */
  function LongestStep(sources: seq<nat>, slots: seq<Slot>, n: nat): (r: nat)
    requires n <= |sources| == |slots|
    ensures forall i: nat :: i < n ==> StepAt(sources, slots, i) <= r
    ensures n > 0 ==> exists i: nat :: i < n && StepAt(sources, slots, i) == r
  {
    if n == 0 then 0
    else
      var rest, last := LongestStep(sources, slots, n - 1), StepAt(sources, slots, n - 1);
      if last > rest then last else rest
  }

  /** The longest scan any key of the table needs, or the allocator's refusal. */
  ghost function WorstOf(sources: seq<nat>): Result<nat, KeyTable.PlacementError> {
    if sources == [] then Ok(0)
    else
      match KeyTable.Placement(SourceKeys(sources))
      case Err(e) => Err(e)
      case Ok(slots) =>
        IndexTables.PlacementHasLength(SourceKeys(sources));
        Ok(LongestStep(sources, slots, |sources|))
  }

  /** The scan for that source looks at that slot after exactly so many steps, less than once round. */
  ghost predicate StandsAfter(source: nat, slot: Slot, steps: nat) {
    steps < 0x10000 && (source + steps) % 0x10000 == slot
  }

  ghost predicate ReachedWithin(source: nat, slot: Slot, most: nat) {
    exists steps: nat :: steps <= most && StandsAfter(source, slot, steps)
  }

  /** The longest scan of that placement: every source's slot is that near, and some source's is that far. */
  ghost predicate IsLongest(sources: seq<nat>, slots: seq<Slot>, worst: nat)
    requires |sources| == |slots|
  {
    && (forall i :: 0 <= i < |sources| ==> ReachedWithin(sources[i], slots[i], worst))
    && exists i :: 0 <= i < |sources| && StandsAfter(sources[i], slots[i], worst)
  }

  /** The figure is attained and never passed; without a placement the allocator's refusal is the answer. */
  lemma {:induction false} WorstIsExact(sources: seq<nat>)
    requires sources != []
    ensures var placement := KeyTable.Placement(SourceKeys(sources));
            && (placement.Err? ==> WorstOf(sources) == Err(placement.error))
            && (placement.Ok? ==> |placement.value| == |sources| && WorstOf(sources).Ok? &&
                                  IsLongest(sources, placement.value, WorstOf(sources).value))
  {
    var placement := KeyTable.Placement(SourceKeys(sources));
    if placement.Ok? {
      IndexTables.PlacementHasLength(SourceKeys(sources));
      var slots := placement.value;
      var worst := LongestStep(sources, slots, |sources|);
      forall i: nat | i < |sources|
        ensures StepAt(sources, slots, i) <= worst && StandsAfter(sources[i], slots[i], StepAt(sources, slots, i))
      {
        DistanceStands(sources[i], slots[i]);
      }
      var i: nat :| i < |sources| && StepAt(sources, slots, i) == worst;
      assert StandsAfter(sources[i], slots[i], worst);
    }
  }

  lemma {:induction false} DistanceStands(source: nat, slot: Slot)
    ensures StandsAfter(source, slot, Distance(source % BANK, slot))
  {
  }

  method WorstScan(sources: seq<nat>) returns (r: Result<nat, KeyTable.PlacementError>)
    ensures r == WorstOf(sources)
  {
    if sources == [] {
      return Ok(0);
    }
    var placement := KeyTableLoops.Allocate(SourceKeys(sources));
    if placement.Err? {
      return Err(placement.error);
    }
    IndexTables.PlacementHasLength(SourceKeys(sources));
    var slots := placement.value;
    var worst := 0;
    for i := 0 to |sources|
      invariant worst == LongestStep(sources, slots, i)
    {
      if StepAt(sources, slots, i) > worst {
        worst := StepAt(sources, slots, i);
      }
    }
    return Ok(worst);
  }

  function SourcesOf(entries: seq<Entry>): (r: seq<nat>)
    ensures |r| == |entries|
  {
    seq(|entries|, i requires 0 <= i < |entries| => entries[i].source)
  }

  /** The slots in the image are the ones the worst-scan check computed. */
  lemma {:induction false} SameSlots(rom: seq<byte>, entries: seq<Entry>, banks: nat, extra: seq<Write>,
                                     decode: Decoder)
    requires Succeeds(rom, entries, banks, extra, decode)
    ensures KeyTable.Placement(SourceKeys(SourcesOf(entries)))
         == Ok(BuildOf(rom, entries, banks, extra, decode).value.tables.slots)
  {
    var b := BuildOf(rom, entries, banks, extra, decode).value;
    assert SourceKeys(SourcesOf(entries)) == IndexTables.KeysOf(Pairs(entries, b.destinations));
  }

  /** The gate's scan check passes: the worst scan of the sources is within the budget. */
  ghost predicate WithinBudget(sources: seq<nat>) {
    WorstOf(sources).Ok? && WorstOf(sources).value <= SCAN_BUDGET
  }

  lemma {:induction false} BudgetBoundsSteps(sources: seq<nat>, slots: seq<Slot>, k: nat)
    requires WithinBudget(sources) && k < |sources| == |slots| && KeyTable.Placement(SourceKeys(sources)) == Ok(slots)
    ensures StepAt(sources, slots, k) <= SCAN_BUDGET
  {
    assert StepAt(sources, slots, k) <= LongestStep(sources, slots, |sources|);
  }

  /**
   * If the table's worst scan is within the budget, the budgeted lookup on the
   * image built from that same table resolves every stream, in exactly the
   * distance from its address to its slot.
   */
  lemma {:induction false} BudgetSuffices(rom: seq<byte>, entries: seq<Entry>, banks: nat, extra: seq<Write>,
                                          decode: Decoder, k: nat)
    requires Succeeds(rom, entries, banks, extra, decode) && k < |entries| && WithinBudget(SourcesOf(entries))
    ensures var b := BuildOf(rom, entries, banks, extra, decode).value;
            && |b.tables.slots| == |entries|
            && ResolveOf(b.image, banks, entries[k].source)
               == Some(Resolution(b.destinations[entries[k].index],
                                  Distance(entries[k].source % BANK, b.tables.slots[k])))
  {
    SameSlots(rom, entries, banks, extra, decode);
    LookupYieldsDestination(rom, entries, banks, extra, decode, k);
    BudgetBoundsSteps(SourcesOf(entries), BuildOf(rom, entries, banks, extra, decode).value.tables.slots, k);
  }

  // ------------------------------------------------- the cartridge's own scan

  /** The slot the unbounded walk looks at after `n` steps. */
  function WalkSlot(addr: Slot, n: nat): Slot {
    (addr + n) % SLOTS
  }

  /** The walk stops at step `n`. */
  predicate Matches(image: seq<byte>, banks: nat, bank: int, addr: Slot, n: nat)
    requires banks >= 0xC0 && |image| == banks * BANK
  {
    View(image, TableAddress(0, WalkSlot(addr, n)), banks) == bank
  }

  /** The unbounded walk ends exactly when the key bank carries the bank anywhere; otherwise it never does. */
  lemma {:induction false} WalkEndsIffPresent(image: seq<byte>, banks: nat, bank: int, addr: Slot)
    requires ImageOf(image, banks)
    ensures (exists n: nat :: Matches(image, banks, bank, addr, n)) <==> SeenHits(image, banks, bank) != {}
  {
    if n: nat :| Matches(image, banks, bank, addr, n) {
      assert WalkSlot(addr, n) in SeenHits(image, banks, bank);
    }
    if SeenHits(image, banks, bank) != {} {
      var s :| s in SeenHits(image, banks, bank);
      assert WalkSlot(addr, Distance(addr, s)) == s;
      assert Matches(image, banks, bank, addr, Distance(addr, s));
    }
  }

  /** Some stream of the table lies in that window bank. */
  ghost predicate BankIsListed(entries: seq<Entry>, bank: int) {
    exists k :: 0 <= k < |entries| && IndexTables.SourceKey(entries[k].source).bank == bank
  }

  lemma {:induction false} SlotShowsPair(image: seq<byte>, banks: nat, pairs: seq<IndexTables.Pair>, bank: int, s: Slot)
    requires ImageOf(image, banks) && IndexTables.TablesFor(pairs).Ok? && bank != 0
    requires ShowsTables(image, banks, IndexTables.TablesFor(pairs).value.columns)
    ensures var slots := IndexTables.TablesFor(pairs).value.slots;
            && |slots| == |pairs|
            && (s in SeenHits(image, banks, bank) <==>
                exists k :: 0 <= k < |pairs| && slots[k] == s && IndexTables.SourceKey(pairs[k].source).bank == bank)
  {
    ShowsSlot(image, banks, IndexTables.TablesFor(pairs).value.columns, s);
    IndexTables.HeldByAnEntry(pairs, s, bank);
  }

  /** Entry `k` has the slot and lies in the bank. */
  ghost predicate HasSlot(entries: seq<Entry>, slots: seq<Slot>, k: int, bank: int, s: Slot)
    requires |slots| == |entries|
  {
    0 <= k < |entries| && slots[k] == s && IndexTables.SourceKey(entries[k].source).bank == bank
  }

  lemma {:induction false} PairsHaveSlots(entries: seq<Entry>, destinations: map<nat, nat>, slots: seq<Slot>,
                                    bank: int, s: Slot)
    requires forall i :: 0 <= i < |entries| ==> entries[i].index in destinations
    requires |slots| == |entries|
    ensures var pairs := Pairs(entries, destinations);
            (exists k :: 0 <= k < |pairs| && slots[k] == s && IndexTables.SourceKey(pairs[k].source).bank == bank) <==>
              exists k :: HasSlot(entries, slots, k, bank, s)
  {
    var pairs := Pairs(entries, destinations);
    assert forall k :: 0 <= k < |entries| ==> pairs[k].source == entries[k].source;
    if k :| 0 <= k < |pairs| && slots[k] == s && IndexTables.SourceKey(pairs[k].source).bank == bank {
      assert HasSlot(entries, slots, k, bank, s);
    }
  }

  /** A slot of a built key bank shows a bank exactly when an entry of that bank owns it. */
  lemma {:induction false} SlotShowsOwner(rom: seq<byte>, entries: seq<Entry>, banks: nat, extra: seq<Write>,
                                          decode: Decoder, bank: int, s: Slot)
    requires Succeeds(rom, entries, banks, extra, decode) && bank != 0
    ensures var b := BuildOf(rom, entries, banks, extra, decode).value;
            && |b.tables.slots| == |entries|
            && (s in SeenHits(b.image, banks, bank) <==> exists k :: HasSlot(entries, b.tables.slots, k, bank, s))
  {
    var b := BuildOf(rom, entries, banks, extra, decode).value;
    TableBanksShow(rom, entries, banks, extra, decode);
    SlotShowsPair(b.image, banks, Pairs(entries, b.destinations), bank, s);
    PairsHaveSlots(entries, b.destinations, b.tables.slots, bank, s);
  }

  /**
   * On a built image the cartridge's walk for a bank ends exactly when the table
   * lists a stream of that bank: a miss in an unlisted bank walks for ever.
   */
  lemma {:induction false} WalkEndsIffListed(rom: seq<byte>, entries: seq<Entry>, banks: nat, extra: seq<Write>,
                                             decode: Decoder, bank: int, addr: Slot)
    requires Succeeds(rom, entries, banks, extra, decode) && bank != 0
    ensures var b := BuildOf(rom, entries, banks, extra, decode).value;
            (exists n: nat :: Matches(b.image, banks, bank, addr, n)) <==> BankIsListed(entries, bank)
  {
    var b := BuildOf(rom, entries, banks, extra, decode).value;
    WalkEndsIffPresent(b.image, banks, bank, addr);
    forall s: Slot
      ensures s in SeenHits(b.image, banks, bank) ==> BankIsListed(entries, bank)
    {
      SlotShowsOwner(rom, entries, banks, extra, decode, bank, s);
    }
    if k :| 0 <= k < |entries| && IndexTables.SourceKey(entries[k].source).bank == bank {
      LookupYieldsDestination(rom, entries, banks, extra, decode, k);
    }
  }

  /**
   * What any source address gets, listed or not: in a listed bank, some stream of
   * that bank, namely the owner of the nearest slot; its own stream if listed.
   */
  lemma {:induction false} ScanAnswersInBank(rom: seq<byte>, entries: seq<Entry>, banks: nat, extra: seq<Write>,
                                             decode: Decoder, source: nat) returns (k: nat)
    requires Succeeds(rom, entries, banks, extra, decode)
    requires BankIsListed(entries, IndexTables.SourceKey(source).bank)
    ensures k < |entries| && IndexTables.SourceKey(entries[k].source).bank == IndexTables.SourceKey(source).bank
    ensures var b := BuildOf(rom, entries, banks, extra, decode).value;
            && |b.tables.slots| == |entries|
            && LeadsTo(b.image, banks, source, b.tables.slots[k], b.destinations[entries[k].index])
    ensures (exists j :: 0 <= j < |entries| && entries[j].source == source) ==> entries[k].source == source
  {
    var b := BuildOf(rom, entries, banks, extra, decode).value;
    var key := IndexTables.SourceKey(source);
    if j :| 0 <= j < |entries| && entries[j].source == source {
      k := j;
    } else {
      var listed :| 0 <= listed < |entries| && IndexTables.SourceKey(entries[listed].source).bank == key.bank;
      LookupYieldsDestination(rom, entries, banks, extra, decode, listed);
      var slot := Nearest(SeenHits(b.image, banks, key.bank), key.addr).value;
      SlotShowsOwner(rom, entries, banks, extra, decode, key.bank, slot);
      k :| HasSlot(entries, b.tables.slots, k, key.bank, slot);
    }
    LookupYieldsDestination(rom, entries, banks, extra, decode, k);
  }

  /** With nothing placed and nothing pinned, the whole data space is offered. */
  lemma {:induction false} EmptyTableOffers(rom: seq<byte>, decode: Decoder) returns (regions: seq<Regions.Region>)
    ensures OfferedRegions(rom, [], [], decode) == Ok(regions) && FirstFit.FreeList(regions) != []
  {
    regions := Regions.Subtracted(DataBankRegions(), SpansOf([]));
    assert Regions.Merged([]) == [];
    assert regions + [] == regions;
    DataBanksAreOffered(0x40, 0);
    Regions.SubtractIsDifference(DataBankRegions(), SpansOf([]), 0x40, 0);
    FirstFit.FreeListIsOffered(regions, 0x40, 0);
  }

  lemma {:induction false} NoPairsFill()
    ensures IndexTables.TablesFor([]).Ok?
  {
    KeyTable.PlacementIffIntervals([]);
    assert IndexTables.KeysOf([]) == [];
  }

  /** A table with no streams builds. */
  lemma {:induction false} EmptyTableBuilds(rom: seq<byte>, banks: nat, decode: Decoder)
    requires |rom| == ORIGINAL_SIZE && banks >= 0xC0 && ExactLengths(decode)
    ensures Succeeds(rom, [], banks, [], decode)
  {
    var regions := EmptyTableOffers(rom, decode);
    NoPairsFill();
    assert PlacingRequests([]) == [] && Pairs([], FirstFit.Addresses([], [])) == [];
    assert FirstFit.Fitting([], regions).Ok?;
    assert LayOut(rom, [], [], decode).Ok?;
  }

  /** On the image of an empty table no cartridge source ever gets an answer. */
  lemma {:induction false} EmptyTableNeverAnswers(rom: seq<byte>, banks: nat, decode: Decoder, source: nat)
    requires |rom| == ORIGINAL_SIZE && banks >= 0xC0 && ExactLengths(decode)
    ensures Succeeds(rom, [], banks, [], decode)
    ensures var key := IndexTables.SourceKey(source);
            forall n: nat :: !Matches(BuildOf(rom, [], banks, [], decode).value.image, banks, key.bank, key.addr, n)
  {
    EmptyTableBuilds(rom, banks, decode);
    var key := IndexTables.SourceKey(source);
    WalkEndsIffListed(rom, [], banks, [], decode, key.bank, key.addr);
  }

  /** Bit 3 cleared and the other seven kept, as the routine's `and #$F7` does. */
  function ClearFixed(dmap: byte): (r: byte)
    ensures r / 8 % 2 == 0 && r % 8 == dmap % 8 && r / 16 == dmap / 16
  {
    if dmap / 8 % 2 == 1 then dmap - 8 else dmap
  }

  /**
   * A stream as the game asks for it: the address it programs is the stream's place
   * in the window at bank $C0, and the walk from there ends at the stream's slot,
   * whose destination reads back as the decoded bytes.
   */
  lemma {:induction false} ProgrammedStreamIsServed(rom: seq<byte>, entries: seq<Entry>, banks: nat,
                                                    extra: seq<Write>, decode: Decoder, k: nat)
    requires Succeeds(rom, entries, banks, extra, decode) && k < |entries|
    ensures var b := BuildOf(rom, entries, banks, extra, decode).value;
            var programmed := 0xC00000 + entries[k].source;
            var slot := Nearest(SeenHits(b.image, banks, programmed / 0x10000), programmed % 0x10000);
            && programmed < 0x1000000
            && (exists n: nat :: Matches(b.image, banks, programmed / 0x10000, programmed % 0x10000, n))
            && slot.Some? && SeenDestination(b.image, banks, slot.value) == b.destinations[entries[k].index]
            && ReadsAs(b.image, banks, b.destinations[entries[k].index], DataOf(rom, entries[k], decode))
  {
    var b := BuildOf(rom, entries, banks, extra, decode).value;
    var programmed := 0xC00000 + entries[k].source;
    DestinationsAreBytes(rom, entries, extra, decode, k);
    assert programmed / 0x10000 == 0xC0 + entries[k].source / 0x10000;
    assert programmed % 0x10000 == entries[k].source % 0x10000;
    LookupYieldsDestination(rom, entries, banks, extra, decode, k);
    StreamReadsBack(rom, entries, banks, extra, decode, k);
    WalkEndsIffPresent(b.image, banks, programmed / 0x10000, programmed % 0x10000);
  }

  /** A DMA channel's 24-bit source register: address low, address high, bank. */
  function ChannelSource(memory: Memory.SnesMemory, channel: nat): (source: nat)
    requires memory.Valid() && channel <= 0x70
    reads memory
    ensures source < SPACE
  {
    (memory.Read8(0x4304 + channel) as int) * 0x10000 +
    (memory.Read8(0x4303 + channel) as int) * 0x100 + memory.Read8(0x4302 + channel)
  }

  lemma {:induction false} TableReads(memory: Memory.SnesMemory, table: nat, s: Slot)
    requires memory.Valid() && |memory.image| == memory.banks * BANK && table < TABLE_COUNT
    ensures memory.Read8(TableAddress(table, s)) == View(memory.image, TableAddress(table, s), memory.banks)
  {
  }

  /**
   * The walk of the key bank. The cartridge's own has no bound; a whole lap
   * without a match is the case in which it never ends, and is None here.
   */
  method ScanKeyBank(memory: Memory.SnesMemory, bank: byte, addr: Slot) returns (slot: Option<Slot>)
    requires memory.Valid() && |memory.image| == memory.banks * BANK
    ensures slot == Nearest(SeenHits(memory.image, memory.banks, bank), addr)
    ensures slot.None? <==> forall n: nat :: !Matches(memory.image, memory.banks, bank, addr, n)
  {
    ghost var hits := SeenHits(memory.image, memory.banks, bank);
    WalkEndsIffPresent(memory.image, memory.banks, bank, addr);
    var y := addr;
    for walked := 0 to SLOTS
      invariant walked < SLOTS ==> Distance(addr, y) == walked
      invariant forall t: Slot :: Distance(addr, t) < walked ==> t !in hits
    {
      TableReads(memory, 0, y);
      if memory.Read8(TableAddress(0, y)) == bank {
        NearestIs(hits, addr, y);
        return Some(y);
      }
      KeyTableLoops.OnlyOneAtDistance(addr, y);
      y := Next(y);
    }
    assert forall t: Slot :: Distance(addr, t) < SLOTS;
    return None;
  }

  /** Four writes to the channel's own registers: three destination bytes, then the mode. */
  method Redirect(memory: Memory.SnesMemory, channel: nat, low: byte, high: byte, bank: byte)
    requires memory.Valid() && channel <= 0x70
    modifies memory
    ensures memory.Read8(0x4302 + channel) == low && memory.Read8(0x4303 + channel) == high
    ensures memory.Read8(0x4304 + channel) == bank
    ensures memory.Read8(0x4300 + channel) == ClearFixed(old(memory.Read8(0x4300 + channel)))
    ensures forall x: Address :: !(0x4302 + channel <= x <= 0x4304 + channel) && x != 0x4300 + channel ==>
              memory.Read8(x) == old(memory.Read8(x))
  {
    memory.Write8(0x4302 + channel, low);
    memory.Write8(0x4303 + channel, high);
    memory.Write8(0x4304 + channel, bank);
    memory.Write8(0x4300 + channel, ClearFixed(memory.Read8(0x4300 + channel)));
  }

  /**
   * The translation the cartridge runs before a transfer: it reads the source the
   * game programmed into the channel, walks the key bank, and writes back the
   * destination with the fixed-address bit cleared. Nothing else the processor
   * can read changes. It does not return when the walk never ends.
   */
  method Translate(memory: Memory.SnesMemory, channel: nat) returns (returned: bool)
    requires memory.Valid() && |memory.image| == memory.banks * BANK
    requires channel == 0x00 || channel == 0x10 || channel == 0x70
    modifies memory
    ensures var source := old(ChannelSource(memory, channel));
            returned <==> exists n: nat :: Matches(memory.image, memory.banks, source / BANK, source % BANK, n)
    ensures returned ==>
              var source := old(ChannelSource(memory, channel));
              var slot := Nearest(SeenHits(memory.image, memory.banks, source / BANK), source % BANK);
              slot.Some? && ChannelSource(memory, channel) == SeenDestination(memory.image, memory.banks, slot.value)
    ensures returned ==> memory.Read8(0x4300 + channel) == ClearFixed(old(memory.Read8(0x4300 + channel)))
    ensures forall x: Address ::
              !returned || (!(0x4302 + channel <= x <= 0x4304 + channel) && x != 0x4300 + channel) ==>
                memory.Read8(x) == old(memory.Read8(x))
  {
    var source := ChannelSource(memory, channel);
    var slot := ScanKeyBank(memory, source / BANK, source % BANK);
    if slot.None? {
      return false;
    }
    TableReads(memory, 1, slot.value);
    TableReads(memory, 2, slot.value);
    TableReads(memory, 3, slot.value);
    Redirect(memory, channel, memory.Read8(TableAddress(1, slot.value)), memory.Read8(TableAddress(2, slot.value)),
             memory.Read8(TableAddress(3, slot.value)));
    return true;
  }
}
