# A verified model of the chip-free image builder and its sound path

Two 1996 cartridges stream graphics through a decompression chip, the S-DD1. This repository rebuilds
them without the chip: every compressed stream is decoded ahead of time, placed in a larger image, and
found again at run time through an open-addressed table keyed by the address the game would have handed
the chip. A second part replaces the audio driver's upload loop with a faster one. The model covers both,
and the analyses the repository runs to decide that the result is safe.

## What is modelled

**The stream index.** `Circular` is sixteen-bit slot arithmetic, `Sorting` the stable sort used throughout.
`KeyTable` gives the table its meaning: what a scan that sees only bank bytes finds, what the greedy pass and
the repair step do, and when every scan is unambiguous. `KeyTableLoops` holds the loops of `sdd1tables.py`,
each proved equal to that meaning. `KeyTableLimits` and `KeyTableWrap` read acceptance off the key list
itself; `KeyTablePlaceable` says which lists have a placement at all, by the marriage theorem of `Marriage`.
`IndexTables` fills the four 64 KB tables, and says for which pairs it does.

A finding about the code: the repair loop never changes anything. When a key scans to a blocker, all the
slots between the two are occupied, so the second probe finds the slot just vacated and puts the key back
(`KeyTable.RepairIsNoOp`). The allocator therefore answers exactly what its greedy pass decides, whether or
not probes wrap past slot 0xFFFF, and the "key table is full" error and the assertion inside the loop are
unreachable. The allocator is not complete: `KeyTableLimits.RefusedThoughPlaceable` is a three-key list it
refuses although a placement exists. Exactly which lists it accepts is said on the keys alone by
`KeyTableWrap.PlacementIffEveryKeyStays`, and more simply by `KeyTableLimits.PlacementIffNotCrowded` when no
probe can pass the top of the table. Exactly which lists could be served by some placement is
`KeyTablePlaceable.PlaceableIffNoArcOverfull`; a refused list that meets its condition was servable.

**The image.** `AddressMap` is the windowed LoROM map: banks $C0 and up own no storage and are a window onto
the plane of low halves. `EmulatorMap` is the emulator's nested install loop over its page table,
`SnesMemory` the third statement of the same map, with a shadow RAM. `Regions` is the interval algebra,
`FirstFit` the allocator of destinations, `LowestFit` the same fit said byte by byte, `Place` the writer that
splits runs over the two planes, `Plan` the reclaimed and offered regions, `Image` the finished build as a
value, `Builder` the build as the loops that write one byte array. `Buildable` says exactly when a build
returns, where it puts every stream and which refusal it gives otherwise, of the inputs alone
(`Buildable.BuildIffBuildable`). `Served` describes every exposed address of the finished cartridge: LoROM
banks, window banks, table banks, streams, pinned data and blank space, given that pinned data stays inside
data banks; `Pins` says exactly which streams survive pins put anywhere else. `Lookup` adds the scan of the
image's own key bank, so that "lookup, then plain reads, gives what the chip would have decoded" is one
theorem (`Lookup.EveryStreamIsServed`), along with the budgeted lookup of the checking tool, the worst-scan
gate and the cartridge's own translate routine. `StreamTable` is the stream table in the gate's order and in
the build's, and `VerifyImage` the checking tool's main loop; together, a table that passes the gate builds
images that pass the check (`VerifyImage.GatedTableIsClean`).

**The upload handshake.** `Spc700` disassembles the shipped bytes of the receive loop, the block header and
the wait for an opening counter, and executes their sixteen instructions. `Handshake` puts that processor
and the console side by side as two processes over one-byte latches; a step is one instruction or one latch
access, in any order. `HandshakeSafety` proves an invariant of every step, `HandshakeTheorems` what follows
for whole prepared runs, `HandshakeStarts` what every other start leads to, and `HandshakeHarness` is the
`Console` object polling after each instruction, as `on_hardware` runs it. The theorems ask what a caller
arranges: three destination ranges disjoint from one another and clear of the pointers, the port page and
the loop itself.

**The analyses.** `SampleReuse` (which uploads were already resident), `SampleAudit` and `SampleFaults`
(what an upload would damage, and when a bank is well formed), `StreamFind` (a bitmap-filtered search) and
`Checksum` (patch application, stamping, and the diff that recovers a patch). `Listing` is what their reports
share: each keeps what was found, in order, and nothing else.

A method that loops in the source is a method here, proved equal to a specification function; the theorems
are lemmas about those functions. The decoder, and the checksum hash of the search, are parameters.

Three places where the code does less than its description:

- The comment at asm/sdd1-translate.asm:80-82 says the walk of the key bank cannot miss. It ends exactly
  when the table lists some stream of the programmed bank (`Lookup.WalkEndsIffListed`); in an unlisted bank
  it walks for ever, as on the image of an empty table (`Lookup.EmptyTableNeverAnswers`). An unlisted
  address of a listed bank gets some other stream of that bank (`Lookup.ScanAnswersInBank`).
- `collisions` (tools/sample_audit.py:232-248) looks at directory addresses without wrapping them while
  `entry` wraps, so it misses an entry straddling the top of memory. `SampleAudit.SoundIffEntryInMemory` is
  the exact condition on the directory address.
- Silence about collisions is about a sample's first pass. It covers every pass exactly when the entry and
  every byte the loop plays are among the bytes the check looks at (`SampleFaults.SilenceCoversIffLooked`).
  A fault-free sample meets that (`SampleFaults.SilenceCoversTheLoop`); of the faulty ones some do
  (`SampleFaults.MisalignedLoopIsCovered`) and some do not (`SampleFaults.StrayLoopEscapes`).

## Model

| member | source | states |
|---|---|---|
| Sorting.SortIsStable | sdd1tables.py:42 | For any total comparison the sort is in order, and items that compare equal keep the order they came in |
| Sorting.SortSorts | rombuild.py:129 | For any total comparison the sort is in order and holds every item as often as it was given |
| KeyTable.OrderIsStableSort | sdd1tables.py:42 | The processing order is strictly sorted by address and, for equal addresses, by list position |
| KeyTableLoops.FirstFreeSlot | sdd1tables.py:20-26 | Returns the free slot at the least forward distance round the circle; fails only when no slot is free |
| KeyTableLoops.ScanTable | sdd1tables.py:29-35 | Returns the slot of that bank at the least forward distance, or none exactly when no slot carries it |
| KeyTableLoops.GreedyPass | sdd1tables.py:42-49 | The loop over dict and list reaches the greedy placement |
| KeyTable.GreedyIsBijection | sdd1tables.py:42-49 | After it table and placement are one bijection with the right banks, and every slot from a key's address to its own is occupied, for any list including ones that wrap |
| KeyTableLoops.BrokenKeys | sdd1tables.py:52-56 | Lists, in order, exactly the keys whose scan stops elsewhere; empty exactly when all scans are right |
| KeyTableLoops.RepairKey | sdd1tables.py:60-66 | One repair: the slot is freed, and the first free slot after the blocker is taken |
| KeyTable.RepairIsNoOp | sdd1tables.py:59-66 | Repairing a broken key reproduces the very same table and placement |
| KeyTableLoops.Allocate | sdd1tables.py:38-68 | Greedy plus up to 64 repair rounds answers exactly what the greedy pass alone decides |
| KeyTable.UnambiguousIffIntervals | sdd1tables.py:29-35 | For any one-to-one placement, all scans stop at home if and only if every slot lies before the next same-bank address, round the circle |
| KeyTable.PlacementIffIntervals | sdd1tables.py:38-68 | allocate succeeds if and only if at most 65,536 keys were given and the greedy slots stay in their own intervals |
| KeyTable.EqualKeysAreRefused | sdd1tables.py:51-68 | A list with two equal keys is always refused |
| KeyTableLimits.LandingIsFurthestPush | sdd1tables.py:45-49 | Where a key comes to rest is the maximum, over runs of keys ending at it, of the run's first address plus the keys after it |
| KeyTableLimits.GreedyLands | sdd1tables.py:45-49 | As long as no probe has passed the top, the probing loop has put every key at exactly that resting place |
| KeyTableLimits.PlacementIffNotCrowded | sdd1tables.py:38-68 | When no probe can pass the top, a list is accepted if and only if no run of keys outnumbers the addresses before the next address of its last key's bank |
| KeyTableWrap.TakesLowestHole | sdd1tables.py:45-49 | A key pushed past the top takes the lowest free slot of the table, above the one the key before it took |
| KeyTableWrap.HolesSuffice | sdd1tables.py:45-49 | Such a key stops below an address exactly when the keys landing there and the keys pushed past the top so far leave a hole |
| KeyTableWrap.PlacementIffEveryKeyStays | sdd1tables.py:38-68 | For every list, wrapping or not, acceptance is equivalent to a condition counted from the keys alone |
| KeyTableLimits.RefusedThoughPlaceable | sdd1tables.py:51-68 | C0:0010, C1:0010, C1:0011 is refused although slots 0012, 0010, 0011 serve it: the allocator is not complete |
| KeyTablePlaceable.PlaceableIffNoArcOverfull | sdd1tables.py:29-35 | Some one-to-one placement lets every scan stop at home if and only if no arc of the circle confines more keys than it has slots |
| KeyTablePlaceable.AcceptedIsPlaceable | sdd1tables.py:38-68 | A list the allocator accepts meets that condition |
| KeyTableLoops.Tabulate | sdd1tables.py:72-76 | Succeeds exactly on one-to-one placements, with the table they describe |
| KeyTableLoops.Verify | sdd1tables.py:71-84 | Objects exactly to a slot used twice or a placement outside the intervals |
| IndexTables.AllocatedPassesVerify | sdd1tables.py:88-90 | Whatever allocate returns, the re-check accepts |
| IndexTables.FillColumns | sdd1tables.py:92-107 | The four byte arrays filled in place, or the first pair refused: bank zero, then a value that is not a byte |
| IndexTables.FilledHolds | sdd1tables.py:97-107 | Each slot holds its own pair's bank and destination, and every other slot's key byte stays zero |
| IndexTables.BuildTables | sdd1tables.py:87-109 | Allocation, re-check and filling together; the re-check's branch is dead |
| IndexTables.TablesIffLegal | sdd1tables.py:87-109 | Tables come back if and only if the keys have a placement and every pair's source is below 0x400000 and its destination from 0x10000 to 0xFFFFFF |
| IndexTables.UnplacedKeysAreRefused | sdd1tables.py:88-90 | Keys without a placement are refused first, as too many or else as ambiguous |
| IndexTables.FirstIllegalPairIsRefused | sdd1tables.py:97-107 | Otherwise the first illegal pair is refused: for a destination in bank zero, or else for a value that is no byte |
| IndexTables.TablesSpell | sdd1tables.py:104-107 | At each pair's slot stand its bank byte, $C0 and up, and its destination's three digits |
| IndexTables.SameHolders | sdd1tables.py:29-35 | Bank bytes with zero for empty tell a scan exactly what the dict told the allocator |
| IndexTables.TablesAnswer | sdd1tables.py:87-109 | Scanning the key column from any entry's source address stops at that entry's slot, whose three bytes spell its destination |
| AddressMap.InsideFile | README.md:102-124 | Every 24-bit address maps inside a file of at least 192 banks |
| AddressMap.MapIsInjective | README.md:102-124 | No two exposed cartridge addresses share a file byte |
| AddressMap.WindowAliasesLowHalves | README.md:108-110 | Bank $C0+k shows the low half of bank $80+k below $8000 and of bank k above |
| AddressMap.HalfIsContiguous | README.md:119-123 | Inside one 32 KB half, consecutive addresses are consecutive file bytes |
| EmulatorMap.Memory.InstallBank | emu/windowed_lorom.cpp:47-86 | One bank's sixteen slots: set where the bank is exposed, kept where it is skipped |
| EmulatorMap.Memory.Install | emu/windowed_lorom.cpp:39-88 | All 4,096 page-table slots after the nested loops, pointers and both flags |
| EmulatorMap.PageTableIsTheMap | emu/windowed_lorom.cpp:46-87 | For the windowed shifts, pointer plus low address bits is the map's file offset at every exposed address, and unexposed slots are untouched |
| EmulatorMap.EveryShiftsMap | emu/windowed_lorom.cpp:46-87 | For every shift and file size: shift -3 lays the file's start out linearly from $60:0000, negative shifts are otherwise the windowed map cut off at the file's end, the others read the planes straight and repeat them that many banks higher; all other slots are untouched |
| SnesMemory.SnesMemory.constructor | patchrun.py:35-39 | Keeps any image and bank count; reads give the cartridge where it answers and zero elsewhere, and there is no snapshot |
| SnesMemory.SnesMemory.Write8 | patchrun.py:41-55 | A write is seen only at its own address and only where the cartridge does not answer; the trigger register also snapshots what each address from $4300 to $437F reads as |
| SnesMemory.ReadsAgreeWithPageTable | patchrun.py:41-49 | The harness's read is the file byte the emulator's page table points at wherever the cartridge answers, and the shadow RAM where the table was left alone |
| Regions.Subtract | rombuild.py:77-95 | The nested piece-splitting loops compute the specified pieces, in order |
| Regions.SubtractIsDifference | rombuild.py:77-95 | An address is left exactly when it was offered and no hole of its bank covers it |
| Regions.SubtractKeepsDisjoint | rombuild.py:77-95 | Disjoint regions stay disjoint |
| Regions.SubtractKeepsOrder | rombuild.py:77-95 | What is left of regions in order is in order, inside them, and none of it is empty |
| Regions.Merge | rombuild.py:127-135 | Sorting and widening the last region in place computes the specified merge |
| Regions.MergeIsUnion | rombuild.py:127-135 | Merged regions are sorted, separated by gaps, and cover exactly the same addresses |
| Regions.MergeKeepsEnds | rombuild.py:127-135 | Merging never reaches past the furthest end it was given |
| Plan.DataBanksAreOffered | rombuild.py:61-67 | The offered data space is banks $40-$5F and $64-$7D, whole |
| Plan.Reclaim | rombuild.py:98-124 | The spans, their merge and the size filter, or the first stream that does not decode |
| Plan.SpansAreConsumed | rombuild.py:109-123 | Before merging, the spans cover exactly the bytes of each stream's own bank its decoding consumed |
| Plan.ReclaimedIsConsumed | rombuild.py:98-124 | Reclaimed regions stay in one bank, are at least 4 KB, and cover only consumed bytes |
| Plan.ReclaimedIffWindow | rombuild.py:98-124 | An address is reclaimed if and only if it lies in some 4 KB stretch of its bank that streams consumed entirely |
| FirstFit.Allocate | rombuild.py:138-158 | The cursor loop answers the fit as a dictionary of bank and cursor joined by OR, or the first request with no room |
| FirstFit.AddressInBank | rombuild.py:149 | Below the bank's end the OR is the bank's start plus the cursor |
| FirstFit.AddressAtBankEnd | rombuild.py:149 | A cursor standing at 0x10000 gives the next bank's start after an even bank, and the same bank's after an odd one |
| FirstFit.AddressOf | rombuild.py:143-150 | With distinct keys each request's dictionary entry is its own spot |
| FirstFit.EachGetsTheLowestWindow | rombuild.py:146-151 | If any free window of a request's non-zero size exists, it succeeds and is placed no higher than that window |
| FirstFit.NoBytesGoFirst | rombuild.py:146-151 | A request for no bytes always succeeds, at the first region's cursor, and moves no cursor |
| FirstFit.EachGetsAFreeWindow | rombuild.py:146-156 | A request that succeeds got a window inside one region, clear of all earlier ones; with the row above, refusal means no window is left |
| FirstFit.BytesAreConserved | rombuild.py:144-150 | The cursors have advanced by exactly the bytes requested |
| FirstFit.PlacementsAreDisjointAndOffered | rombuild.py:138-158 | Placements are pairwise disjoint and every byte handed out was offered |
| LowestFit.FittingIffServed | rombuild.py:138-158 | Allocation succeeds if and only if every request finds room in its turn; said of the offered bytes, without regions or cursors: the lowest bank and offset where so many offered, untaken bytes lie together |
| LowestFit.FittingServes | rombuild.py:146-151 | And then those are the spots it gives |
| LowestFit.RefusalNames | rombuild.py:138-156 | With nothing offered it says so; otherwise it names the first request in turn that fits nowhere |
| Place.PlaceRun | rombuild.py:161-172 | Writing chunk by chunk across half and bank edges equals writing each byte at its mapped offset |
| Place.PlacedReadsBack | rombuild.py:161-172 | Through the map the run shows its data and every other exposed address is unchanged |
| Place.PlacedKeepsOthers | rombuild.py:161-172 | File bytes the run's addresses do not name are unchanged |
| Place.AppliedView | rombuild.py:161-172 | After any list of writes an address shows the last write that covers it, else what it showed |
| Builder.PlaceLoRom | rombuild.py:191-195 | The 64 double placements are the LoROM section, in order |
| Builder.PlaceWindow | rombuild.py:197-204 | The 64 linear placements are the window section, in order |
| Builder.PlaceTables | rombuild.py:206-207 | The four tables are written to banks $60-$63 |
| Builder.PlaceStreams | rombuild.py:209-217 | Every decoded stream is written at its destination |
| Builder.PlaceExtra | rombuild.py:219-220 | Pinned data is written last |
| Builder.PlanLayout | rombuild.py:184-187 | Regions, destinations and tables, or the first refusal, as the layout function says |
| Builder.Build | rombuild.py:175-222 | The image is a blank file after all sections' writes in order, with the plan's destinations, tables and regions; or the same refusal |
| Buildable.RegionsAreOnOffer | rombuild.py:184 | A byte is offered if and only if it is data space with nothing pinned on it, or inside 4 KB of a window bank that decoding consumes entirely |
| Buildable.BuildIffBuildable | rombuild.py:175-222 | A build returns if and only if the ROM is 4 MB, every stream decodes, every stream finds room in its turn, the scans stay out of each other's way and every source lies in the cartridge |
| Buildable.BuildPlacesInTurn | rombuild.py:185-186 | And then each stream stands at the lowest room left when its turn comes, the last stream first |
| Buildable.WrongSizeIsRefused | rombuild.py:181-182 | Any other file size is refused before anything else |
| Buildable.UndecodableIsRefused | rombuild.py:110-113 | Then the first stream that does not decode |
| Buildable.CrampedIsRefused | rombuild.py:138-156 | Then want of room: nothing offered at all, or the first stream in turn that fits nowhere |
| Buildable.UnindexableIsRefused | rombuild.py:187 | Last, streams that cannot be indexed: too many, ambiguous, or from outside the cartridge, in that order |
| Image.SpotIsOffered | rombuild.py:184-186 | A destination byte lies in a data bank clear of pinned data, or in a reclaimed window region |
| Served.LoRomViewIsIntact | rombuild.py:191-195 | After build, banks $00-$3F and $80-$BF show the ROM's LoROM view at every address |
| Served.WindowIsIntact | rombuild.py:98-124 | After build, banks $C0-$FF show the linear ROM outside the reclaimed regions, and every reclaimed byte was consumed by some stream |
| Served.TableBanksShow | rombuild.py:206-207 | Banks $60-$63 show exactly the four columns, untouched by streams and pinned data |
| Served.StreamIsServed | rombuild.py:209-217 | Every byte of every stream reads back from its destination in the finished image |
| Served.ExtraIsServed | rombuild.py:219-220 | Pinned data reads back unless a later pin overlaps it |
| Pins.StreamServedIffSpared | rombuild.py:184-220 | Whatever is pinned and wherever, window banks, bank edges and aliases included: a stream is found in its slot, led to its destination and read back whole if and only if no pin leaves a different byte where it lies, in its slot, or in the way of its scan |
| Pins.DataBankPinsSpare | rombuild.py:70-74 | Pins that stay inside data banks leave every stream so |
| Pins.AppliedLeaves | rombuild.py:161-173 | After any writes a file byte holds the last one a write left there, through whichever alias, or what it held before |
| Served.UnusedDataIsBlank | rombuild.py:189-222 | Data-bank addresses nothing was placed on read zero |
| Lookup.Resolve | tools/verify_image.py:42-52 | Looking at 65 slots finds the nearest slot of that bank if its distance is at most 64, else gives up; said slot by slot as well |
| Lookup.ResolveIsExact | tools/verify_image.py:42-52 | It gives up if and only if none of the 65 key bytes is the bank; otherwise the answer is the first that is, how far on it stands and the destination its three bytes spell |
| Lookup.LookupYieldsDestination | rombuild.py:187-207 | In a built image, scanning the key bank from an entry's source stops at its slot, and the table banks spell its destination |
| Lookup.EveryStreamIsServed | rombuild.py:175-222 | If build returns, lookup from the source followed by plain reads yields exactly the decoded bytes, for every entry |
| Lookup.WorstScan | gate.py:96-103 | The largest distance from address to slot over the whole list, zero for no entries, the allocator's refusal otherwise |
| Lookup.WorstIsExact | gate.py:96-103 | Every source's slot is at most that many places on, round the circle, and some source's is exactly that many; the refusal is the allocator's |
| Lookup.SameSlots | gate.py:99-100 | The gate allocates the very slots the build puts in the image |
| Lookup.BudgetSuffices | gate.py:148-151 | If the worst scan of the entries' sources is within 64, the budgeted lookup resolves every entry of the built image, in exactly its distance |
| Lookup.WalkEndsIffPresent | asm/sdd1-translate.asm:78-85 | The walk from any address meets the bank at some step if and only if some slot of the key bank carries it |
| Lookup.WalkEndsIffListed | asm/sdd1-translate.asm:78-85 | On a built image the walk for a non-zero bank ends if and only if the table lists a stream of that bank |
| Lookup.ScanAnswersInBank | asm/sdd1-translate.asm:78-104 | In a listed bank any source gets the destination of the nearest slot's owner, a stream of that bank, and its own if it is listed |
| Lookup.EmptyTableNeverAnswers | asm/sdd1-translate.asm:78-85 | An empty table builds, and on its image the walk ends for no cartridge source |
| Lookup.ScanKeyBank | asm/sdd1-translate.asm:75-85 | The nearest slot of the bank; none exactly when the unbounded walk never ends |
| Lookup.Redirect | asm/sdd1-translate.asm:99-108 | Four register writes: destination bytes and the cleared fixed-address bit, every other readable byte unchanged |
| Lookup.Translate | asm/sdd1-translate.asm:59-118 | It returns if and only if the walk ends; then the channel's source is the nearest slot's destination, bit 3 of its mode is cleared, and nothing else readable changes |
| Lookup.ProgrammedStreamIsServed | asm/sdd1-translate.asm:59-118 | For every stream of a built image: programmed as its place in the window, the walk ends, and the destination found reads back as the decoded bytes |
| StreamTable.Duplicates | gate.py:51-58 | The sources of exactly the streams that repeat an earlier one, in table order, once for each repeat; their count is the table's length less its number of sources, and they are none if and only if all sources differ |
| StreamTable.SortedIsInOrder | gate.py:43-44 | The gate reads the table by source, then length, every entry as often as it is listed |
| StreamTable.EntriesFromMap | rombuild.py:53-58 | The dictionary's items in ascending order of source, numbered from zero, lengths kept, whatever order the dictionary has |
| StreamTable.OrdersAgree | rombuild.py:53-58 | With no repeated source, the gate's sorted table and the build's entries are the same streams in the same order |
| VerifyImage.CheckStream | tools/verify_image.py:95-106 | One stream: unresolved, wrong with its first bad byte, or fine, added to the list it belongs to |
| VerifyImage.CheckImage | tools/verify_image.py:92-106 | Both lists, in stream order, or the stream at which the check cannot go on |
| VerifyImage.UnresolvedIsExact | tools/verify_image.py:94-98 | The one list is, in order and as often as listed, the sources of exactly the streams with no slot of their bank within 64 places |
| VerifyImage.WrongIsExact | tools/verify_image.py:99-106 | The other is, in order, exactly the resolved streams whose bytes differ, with the resolved destination and the least differing offset |
| VerifyImage.CheckGoesThrough | tools/verify_image.py:94-106 | The check reaches its end if and only if every resolved stream decodes and stays inside the map |
| VerifyImage.CheckStopsAt | tools/verify_image.py:99-103 | Otherwise it stops at the first stream that does not |
| VerifyImage.CleanIffEveryStreamIsRight | tools/verify_image.py:92-115 | Both lists are empty if and only if every stream resolves in budget, decodes and reads back verbatim; and then the plain scan serves it |
| VerifyImage.BuiltImageIsClean | tools/verify_image.py:92-115 | An image built from entries within the scan budget passes over any list of those streams |
| VerifyImage.GatedTableIsClean | gate.py:124-151 | A table that repeats no source and is within the scan budget builds images that pass the check over that table |
| Spc700.WaitListing | spcfast.py:66-72 | The shipped bytes at 0x0EDC disassemble to compare, branch to take, wait, leave |
| Spc700.TakeListing | spcfast.py:66-72 | The bytes that follow read three ports and acknowledge after the first store |
| Spc700.StoreListing | spcfast.py:66-72 | The bytes that follow store the other two and advance the index |
| Spc700.HeaderListing | spcfast.py:73-76 | The bytes at 0x0EFF disassemble to the block header up to its acknowledgement |
| Spc700.StartListing | spcfast.py:63-76 | The bytes that follow leave for 0x0F28 on kind zero, or wait at 0x0EBD for a zero counter |
| Spc700.CarryListing | spcfast.py:66-72 | The bytes that follow carry three page bytes and go back to the wait |
| HandshakeSafety.CompareTells | spcfast.py:66-72 | Index equals counter exactly when a whole fresh triple is in the latches; otherwise the comparison is positive, so the loop waits |
| HandshakeSafety.StepKeeps | tools/driver_run.py:276-293 | Every single latch access or instruction, from any state satisfying it, keeps the handshake invariant |
| HandshakeTheorems.NothingTornOrLost | tools/driver_run.py:264-293 | At every moment of every interleaving: no more acknowledgements than triples, at most one unnoticed, every acknowledged triple but the newest stored whole in its three streams, all other memory unchanged |
| HandshakeTheorems.NeverLeaves | spcfast.py:66-72 | From a prepared start the exit branch is never reached, under any interleaving |
| HandshakeTheorems.StoppedMeansDelivered | tools/driver_run.py:397-410 | Whenever the stop rule holds, the streams are every third payload byte from offsets 0, 1 and 2, then zeros, one handshake a triple |
| HandshakeTheorems.FairRunsDeliver | tools/driver_run.py:397-410 | Any schedule that keeps giving both sides turns stops, delivered, within 40 rounds a triple and 7 |
| HandshakeStarts.WrongCounterDeliversNothing | tools/driver_run.py:219-227 | Starting from a counter other than zero, at every moment before stock code has control: no payload byte is stored, at most one acknowledgement and one handshake occur, memory off $14, $15 and $E6 is unchanged, and a run with a payload or a counter up to 128 has not stopped. Above 128 nothing is written or acknowledged at all |
| HandshakeStarts.LowWrongCounterLeaves | tools/driver_run.py:219-227 | From counters 1 to 128 the driver leaves its loop, in four instructions |
| HandshakeStarts.LowWrongCounterIsParsed | asm/spc-fast-upload.asm:343-351 | And eleven instructions in it has taken the first triple for a block header: destination to $14 and $15, kind byte to $E6, the counter acknowledged once, which the console's next poll counts unless its latch already read so |
| HandshakeStarts.StockIffKindZero | asm/spc-fast-upload.asm:351-353 | Some run leaves the patched code for the stock routine at $0F28 if and only if the counter is 1 to 128 and the first byte offered is zero |
| HandshakeStarts.UnseededNeverCompletes | tools/driver_run.py:229-237 | With the latch already zero the first acknowledgement goes unnoticed: at most one triple is taken, and a run with a payload never stops |
| HandshakeStarts.EmptyPayloadStops | tools/driver_run.py:398-402 | With nothing to send some run stops for counter zero, seeded or not, and for every counter above 128 |
| HandshakeStarts.CompletesIffPrepared | tools/driver_run.py:373-404 | For every start that cannot leave for stock code, some run stops if and only if: with a payload, the counter starts at zero and the latch was seeded with something else; with none, the counter is zero or above 128 |
| HandshakeHarness.Console.constructor | tools/driver_run.py:264-270 | Starts at the payload's beginning with the latch's present value as last seen |
| HandshakeHarness.Console.Offer | tools/driver_run.py:276-281 | After the four writes the latches hold counter and next triple, zero padded, nothing else changed |
| HandshakeHarness.Console.Watch | tools/driver_run.py:283-293 | An acknowledgement is noticed exactly when the latch changed, and answered with the next triple |
| HandshakeHarness.WatchIsFiveSteps | tools/driver_run.py:283-293 | The object's poll is five atomic console steps with no instruction between |
| HandshakeHarness.OnHardware | tools/driver_run.py:346-410 | For every start that cannot leave for stock code: a completed run means a start that can stop, with the three streams in place, one handshake a triple and other memory unchanged when prepared, and nothing noticed otherwise; any other run ends past its ceiling; and a start that can stop completes when the ceiling covers 40 turns a triple and 6 at the most an instruction costs |
| HandshakeHarness.Ports.constructor | tools/driver_run.py:119-126 | The stand-in starts offering the first triple |
| HandshakeHarness.Ports.Offer | tools/driver_run.py:132-140 | The four port cells hold counter and triple, all other memory is unchanged |
| HandshakeHarness.Ports.Write8 | tools/driver_run.py:147-158 | A write to port 0 advances payload, counter and handshakes and keeps the offer current; other ports are only remembered; else it is memory |
| SampleReuse.TraceBlock | tools/sample_reuse.py:110-114 | Compares a block with the provenance as it was, then records bank and wrapped offset for each byte, wrapping at 64 KB on both sides |
| SampleReuse.ReplayBlock | tools/sample_reuse.py:106-123 | One block's effect on provenance, totals and its span's figures; empty and overlong blocks change nothing |
| SampleReuse.ReplaySpan | tools/sample_reuse.py:103-123 | One span's bytes and resident bytes, each block judged after its predecessors |
| SampleReuse.ReplayLoad | tools/sample_reuse.py:101-123 | One run's own figures are the sum of its spans', which are listed, and totals and provenance carry on |
| SampleReuse.Replay | tools/sample_reuse.py:96-134 | The totals are the tally over all runs' blocks; every run's and every span's bytes and resident bytes are reported, and the runs' add up to the totals |
| SampleReuse.ResidentUploadIsNoOp | tools/sample_reuse.py:112-123 | Uploading a block counted as resident, read from the cartridge by bank and wrapped offset, changes neither RAM nor provenance |
| SampleReuse.SkippingChangesNothing | tools/sample_reuse.py:96-134 | For any cartridge, read by bank and wrapped offset, and any initial RAM: sending only the blocks not counted as resident gives the same RAM after every block |
| SampleReuse.TracedBytesWereSent | tools/sample_reuse.py:110-114 | Every recorded origin was really sent there by an earlier counted block |
| SampleReuse.ResidentIffLastFromSource | tools/sample_reuse.py:106-123 | A block counts as resident if and only if it has 1 to 32,768 bytes and each cell it would write was last written from that byte's own bank and wrapped offset |
| SampleReuse.RamIsLastWriter | tools/sample_reuse.py:110-114 | After the whole log a cell holds its last writer's cartridge byte, or what it held first |
| SampleReuse.TotalsAreExact | tools/sample_reuse.py:115-123 | The totals are the number and the summed lengths of the blocks of 1 to 32,768 bytes, and of the resident ones among them |
| SampleReuse.SpanIsExact | tools/sample_reuse.py:103-121 | A span's figures are the summed lengths of its own blocks, judged where they stand in the log |
| SampleReuse.ReportsAreExact | tools/sample_reuse.py:100-133 | Every span of every run is reported with those figures, and each run with their sum |
| SampleAudit.WalkChain | tools/sample_audit.py:145-160 | The bounded loop computes the walk, its reach and whether it ended |
| SampleAudit.WalkIsExact | tools/sample_audit.py:145-160 | The walk ends behind the first flagged nine-byte block, and does not end if and only if there is none before memory does |
| SampleAudit.EntryReadsBack | tools/sample_audit.py:137-142 | A directory entry, wrapped at 64 KB, reads back the start and loop written there, low byte first |
| SampleAudit.WalkReadsItsReach | tools/sample_audit.py:145-160 | A walk depends only on the bytes inside the reach it reports |
| SampleAudit.Collisions | tools/sample_audit.py:232-248 | One report per damaged playing sample, directory first, as the check of one sample says |
| SampleAudit.CollisionIsExact | tools/sample_audit.py:238-247 | A sample's report is its directory address if any of those four bytes is written, else the least written byte of its walk, else none |
| SampleAudit.CollisionsInOrder | tools/sample_audit.py:232-248 | The list is those reports, one for each playing sample that has one, in the order played |
| SampleAudit.NoneReported | tools/sample_audit.py:232-248 | The report is empty exactly when no playing sample has a collision |
| SampleAudit.SilenceIsSound | tools/sample_audit.py:232-248 | No report means same entry, same walk and same bytes in any memory differing only where written |
| SampleAudit.StraddlingEntryEscapes | tools/sample_audit.py:239-240 | For any entry that wraps past the top there is a write that changes it and goes unreported |
| SampleAudit.SoundIffEntryInMemory | tools/sample_audit.py:232-248 | Silence can be trusted for all memories if and only if the entry lies below 0xFFFD |
| SampleAudit.AlignedDirectoryIsSound | tools/sample_audit.py:137-142 | With a four-byte aligned directory it always can |
| SampleAudit.SharedGridSharesEnd | tools/sample_audit.py:211-229 | Two samples that end, share a byte and are congruent modulo nine end at the same address |
| SampleFaults.Faults | tools/sample_audit.py:195-208 | The early-exit loop keeps what the check of each used sample finds |
| SampleFaults.FaultIsExact | tools/sample_audit.py:195-208 | Said block by block: runs off if no block is flagged, loop outside if it is not among the bytes up to the flagged block, loop unaligned if it is but starts no block, and no fault if and only if it starts one of the sample's own blocks, the first included |
| SampleFaults.FaultsInOrder | tools/sample_audit.py:195-208 | One line for each used sample with a fault, in the order given |
| SampleFaults.FaultsAreExact | tools/sample_audit.py:195-208 | The list holds exactly the used samples' faults, and is empty if and only if none has one |
| SampleFaults.FaultFreeLoops | tools/sample_audit.py:195-208 | A sample with no fault loops onto its own blocks and ends where the sample ends |
| SampleFaults.SilenceCoversIffLooked | tools/sample_audit.py:232-248 | For any memory, no collision means every pass plays the same under all such writes if and only if the entry's bytes and the loop's reach are all among the bytes the check looks at |
| SampleFaults.SilenceCoversTheLoop | tools/sample_audit.py:195-248 | No fault and no collision, with the entry inside memory: every pass plays the same, and the sample stays fault free |
| SampleFaults.MisalignedLoopIsCovered | tools/sample_audit.py:206-207 | A bank whose loop point is off the block grid and is covered all the same |
| SampleFaults.StrayLoopEscapes | tools/sample_audit.py:204-205 | A bank whose loop lies outside its sample and is not covered |
| SampleFaults.Overlaps | tools/sample_audit.py:211-229 | The nested loops compute the specified list of pairs |
| SampleFaults.OverlapsAreExact | tools/sample_audit.py:211-229 | A triple is listed if and only if both samples end, start apart, and it names their lowest shared byte |
| SampleFaults.OverlapsAscend | tools/sample_audit.py:220-229 | The list is strictly ascending by the lower sample, then the higher, so no pair is listed twice |
| SampleFaults.NoOverlapIsolates | tools/sample_audit.py:211-229 | With no overlap listed, rewriting one sample leaves the other's walk and bytes alone |
| Listing.KeptIsExact | tools/sample_audit.py:195-248 | A report keeps exactly the findings there were, once each, in order, each traced to its place |
| StreamFind.SetBitSetsOne | sdd1find.py:36 | Setting one bit sets that bit and no other |
| StreamFind.BuildBitmap | sdd1find.py:31-37 | The marked bits are exactly the hashes of the data's windows |
| StreamFind.OccurringPasses | sdd1find.py:40-42 | A window that occurs in the data always passes its bitmap |
| StreamFind.Extend | sdd1find.py:49-67 | The doubling loop computes the confirmed length |
| StreamFind.ExtensionIsVerbatim | sdd1find.py:49-67 | The confirmed length matches verbatim, and no length from the next rung up would |
| StreamFind.HitsPassFilters | sdd1find.py:93-115 | Wherever the unfiltered search reports a hit, its head and its output pass the two bitmaps |
| StreamFind.Examine | sdd1find.py:96-115 | One offset, cheap tests first, answers as the unfiltered test does |
| StreamFind.FindStreams | sdd1find.py:70-117 | For any hash and any widths of three bits or more, the hits are those of the unfiltered search: true ones in ascending order of offset, and none missed |
| StreamFind.HitsAreTrue | sdd1find.py:93-117 | Every hit is at an offset of the range whose 8-byte head decodes with 4 distinct values and 32-byte output with 10, its target the least place that output stands in the reference, its length the last rung up to 4,096 to which every doubling matches; ascending, one an offset |
| StreamFind.NoHitIsMissed | sdd1find.py:93-117 | Every such offset of the range is among the hits |
| StreamFind.HitsAreVerbatim | sdd1find.py:112-115 | A hit's whole length stands in the reference, at the first place it occurs |
| Checksum.WriteChecksum | spcfast.py:107-115 | Complement and value, adding up to 0xFFFF, land low byte first in the field's four bytes and nothing else changes; an image too short for the field grows, as a bytearray does |
| Checksum.StampIgnoresField | spcfast.py:101-115 | Stamping depends only on bytes off the field and changes only the field |
| Checksum.StampIsIdempotent | spcfast.py:107-115 | Stamping twice is stamping once |
| Checksum.StampedSumMatches | spcfast.py:101-115 | The byte sum of a stamped image, field included, is the checksum it stores |
| Checksum.Apply | spcfast.py:138-147 | It fails if and only if some run's bytes are not in place and some probe's are not either; already patched is returned as it is, stock is patched, past its end if a run lies there, and stamped |
| Checksum.RefusedIffForeign | spcfast.py:130-147 | The same of the specification, on slices of the ROM of any size |
| Checksum.SlicePastEnd | spcfast.py:144-146 | Data reaching past the end replaces the tail from its place on, or follows the last byte |
| Checksum.ApplyIsIdempotent | spcfast.py:130-147 | For disjoint runs off the field and a ROM of any size that holds them, stock or patched: it succeeds, every run is in place, applying again is the identity, the checksum is true when stamped, nothing else changed |
| Checksum.DifferingRuns | tools/freeze_spcfast.py:51-68 | Ordered, separated, maximal runs of exactly the differing bytes off the field, each a slice of the second image, the last taking along a longer one's tail exactly when the images end differently; it fails exactly when the second image lacks a byte to compare, at the first one |
| Checksum.RunsShow | spcfast.py:144-146 | After writing disjoint runs each byte shows its run's data, or is kept |
| Checksum.DiffRoundTrip | tools/freeze_spcfast.py:51-68 | Writing the diff over the original and stamping equals stamping the target; it gives the target back if and only if the target carries its own checksum |

## Left out

- The S-DD1 decoder: a function parameter. The build needs it to return as many bytes as asked, the search that a shorter request is a prefix of a longer one.
- The mapper package is not part of this model; its rule is taken from README.md:102-124 and emu/windowed_lorom.cpp.
- The 65816 and the rest of the audio processor, the mixer and the boot ROM: only the sixteen instructions of the receive loop, the block header and the wait at 0x0EBD are executed, not the dispatch after that wait, which no modelled run reaches. Two operand bytes the patch does not list, at 0x0EBE and 0x0F00, are taken from spcfast.py:28 and the listing. The translate routine is modelled by its register reads and writes, without its stack and width switches.
- HandshakeStarts.WrongCounterDeliversNothing: says nothing once control is at 0x0F28, stock code of the cartridge that is not part of this model; which starts lead there is HandshakeStarts.StockIffKindZero.
- HandshakeStarts.CompletesIffPrepared: leaves out the same starts, counters 1 to 128 with a first byte of zero, among them the one tools/driver_run.test.py:337-341 runs to its ceiling.
- HandshakeHarness.OnHardware: leaves out those starts too. The cycles of an instruction are a parameter, and the driver's latches 1 to 3 are not kept, because the loop never writes them. The stop test runs after a step, so an empty payload still costs one zero triple, as in the source.
- HandshakeHarness.Ports.Write8: the stand-in's `run` around it (tools/driver_run.py:318-343) is left out; the two-process model says more.
- KeyTableLimits.PlacementIffNotCrowded: the simple form, for lists of which no probe passes slot 0xFFFF; KeyTableWrap.PlacementIffEveryKeyStays covers every list.
- KeyTableLoops.Allocate: entries are a list of keys; the counts and texts inside error messages are not modelled anywhere.
- Builder.Build: asks for known lengths and distinct entry numbers, which `entries_from_map` guarantees; an unknown length is a type error in the source. Images are of at least 192 banks, the only size built: a smaller one is outside the map.
- VerifyImage.CheckStream: a destination whose data would run past bank $FF stops the check, since what the mapper package answers there is not known.
- VerifyImage.CheckImage: stops with that stream, for the same reason.
- SampleReuse.Replay: frame numbers, group names and sample ids, which it passes through; log parsing; base_repeats and group_costs.
- SampleAudit.Collisions: rendering a sample through the mixer (play, reaches_end) and the report text.
- StreamFind.FindStreams: the progress callback, the default stop, and chains.
- Checksum.Apply: the frame hook is empty in the source, so the run list is the patch itself; lists are arbitrary, not the one shipped.
- gate.py beyond duplicates and worst_scan (undecodable, uncovered, check): each is one pass over a list.
- The stream tables, recorded requests, game fixes, command lines, containers, manifests and the emulator front ends.
