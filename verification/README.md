# Verified models of the hardware abstraction layer

A Dafny model of the parts of the HAL where state, arithmetic and protocols meet:

- **The ACPI power-management timer filter** (`Piix4Timer`). A 24- or 32-bit counter that may roll over, step back
  or jump is turned into a 64-bit time. The model is the whole call, including the reread loop and the skew
  corrections, as a function of the values the hardware returns; the method over the split globals computes it.
  Proved over whole runs: time never goes back, the bound stays one table entry ahead, the hardware value can always
  be recovered, on healthy hardware every call is exact, and with a skew in force every call is at the same offset.
- **The event timer's performance counter** (`MmTimer`). A 64-bit count from a 32-bit register, clock interrupts and
  calibrations in any interleaving, with the exact condition under which a query is right.
- **Bus address ranges** (`RangeAlgebra`, `RangeLists`, `SupportedRanges`, `ResourceAlgebra`, `ResourceLists`).
  Linked lists of ranges, merged, subtracted, sorted and consolidated in place, and the rewriting of a device's
  resource requirements against them. Proved: the list operations are set intersection, union and difference on the
  addresses and their translations, consolidation is canonical and keeps the translation under exact conditions,
  every descriptor is replaced by descriptors that allow exactly its supported part, and exactly which counts make
  the buffer of the first pass large enough for every request.
- **Processors and memory nodes** (`Processors`, `NumaAlgebra`, `Numa`). The prediction of which local APIC gets
  which processor number over the start sequence, and the page-to-node index built from the static resource
  affinity table.
- **The bus handler database** (`BusHandlers`). Two growable tables and a list, kept together by registrations, and
  the enumeration of the buses that translate an address.
- **The x86 emulator's arithmetic** (`X86Context`, `X86Arith`, `X86Conditions`, `X86Limbs`, `Rotations`, `X86Shift`,
  `X86MulDiv`). Addition and subtraction with all flags, conditions after a comparison, numbers of any length,
  rotations, double shifts, multiplication and division, against their mathematical meaning.

State that the code changes in place is a class or an array whose methods are proved against functions on values;
the properties are lemmas about those functions. Machine integers are ranges of `int` with the wrap-around written
out (`Words`). Values read from hardware, the outcome of an install or translate routine, and the interleaving of
events are parameters. `dafny verify dfyconfig.toml` checks the whole project.

Where the code and its comments differ the model follows the code:

- pmtimerc.c:601-604 assigns inside its condition, so the second half of the test is whether the assigned sum is not
  zero; pmtimerc.c:625 masks with a pointer-sized constant, which depends on the build, so the width is a parameter.
  With 32-bit pointers and a 32-bit counter the mask is zero: a positive skew is then kept into the next period, and
  the next read is not believed.
- pmtimerc.c:478-482 promises an exit on two consecutive non-decreasing reads at most 0xfff apart. The port value is
  not masked, so this holds exactly for reads that agree above the bits of the counter.
- rangesup.c:359-438 does not visit an entry it splits off a later entry; the difference is exact nevertheless.
- rangesup.c:515-517 cannot join a range whose limit is the largest address.
- rangesup.c:515-528 joins ranges of one system base in different address spaces, and keeps only the first space.
- rangesup.c:756-762 counts the lists once. A later removal (rangesup.c:309-329) can split entries without clearing the
  mark, and then the counts can be too small for the buffer; writes behind the buffer are an outcome of the model.
- rangesup.c:1095-1100 meets its "impossible" range only if the minimum is not the smallest 64-bit address.
- rangesup.c:774-809 allows nothing for the impossible descriptor of an interrupt when there is no interrupt list.
- rangesup.c:1146-1163 exchanges everything but the system address space.
- bushnd.c:738-775 returns an address that is not null for a slot that was never filled; such slots do not arise
  from registrations without gaps.
- shiftops.c:173 and 228 mask the count of a rotation through carry with the width, not the width plus one.

## Model

| member | source | states |
|---|---|---|
| `Piix4Timer.CallIsSafe` | hals/halacpi/pmtimerc.c:315-687 | every call that returns leaves a time not before the last one, at most the bound or a quarter of a table entry ahead, and a bound one table entry ahead of it, for every sequence of hardware values and every skew |
| `Piix4Timer.RunNeverGoesBack` | hals/halacpi/pmtimerc.c:253-687 | over whole runs, with any hardware behaviour and any change of tick rate, every call advances the clock in that sense |
| `Piix4Timer.AdvancedIsMonotone` | hals/halacpi/pmtimerc.c:253-687 | the times of such a run are ordered between any two calls, not only neighbours |
| `Piix4Timer.RunIsMonotoneAndBounded` | hals/halacpi/pmtimerc.c:253-687 | the filter's promise: times returned never decrease, the bound is always the last time plus the table entry, two calls at one tick rate are at most one entry apart |
| `Piix4Timer.VerdictUnskews` | hals/halacpi/pmtimerc.c:443-564 | whatever branch the believing code takes, removing the skew it records gives back the reading it judged |
| `Piix4Timer.ReskewKeepsPhase` | hals/halacpi/pmtimerc.c:579-640 | both corrections of the skew after the loop keep the hardware value modulo the counter period |
| `Piix4Timer.CallKeepsPhase` | hals/halacpi/pmtimerc.c:315-648 | after every call the reported time with its skew removed is the last hardware value modulo the counter period |
| `Piix4Timer.RolloverComparesHardware` | hals/halacpi/pmtimerc.c:394-413 | so the rollover test of the next call compares two hardware values, however far the reported time has moved away |
| `Piix4Timer.HealthyReading` | hals/halacpi/pmtimerc.c:370-413 | on a healthy counter less than a period after the last call, a read gives the true time, or one period less when the rollover is not detected; both cases exactly |
| `Piix4Timer.HealthyReadIsExact` | hals/halacpi/pmtimerc.c:370-455 | the first read is believed at its true value if and only if it is within the bound and, after a rollover, shows less than half a table entry |
| `Piix4Timer.HealthyCall` | hals/halacpi/pmtimerc.c:253-687 | a timely call on healthy hardware returns the true time after one read, with no skew |
| `Piix4Timer.HealthyRunIsExact` | hals/halacpi/pmtimerc.c:253-687 | every call of every timely run on healthy hardware returns the true 64-bit time, across any number of rollovers |
| `Piix4Timer.SkewIsDropped` | hals/halacpi/pmtimerc.c:394-455 | with any skew, a first read whose true time is within the bounds and in the period of the last time is believed as the true time with the skew dropped, if and only if the counter shows no less than at the last read or at least half a table entry |
| `Piix4Timer.RecoveredCall` | hals/halacpi/pmtimerc.c:253-687 | such a call returns the true time after one read |
| `Piix4Timer.RecoveredRunIsExact` | hals/halacpi/pmtimerc.c:253-687 | and every timely run from there on is exact |
| `Piix4Timer.SkewIsApplied` | hals/halacpi/pmtimerc.c:457-476 | for any skew in force, a first read in the period of the last time with no rollover, out of bounds as it is and in bounds with the skew applied, is returned with the skew applied after that one read, and the skew is kept unless the time enters a new period |
| `Piix4Timer.FollowedReading` | hals/halacpi/pmtimerc.c:370-413 | a clock with a skew that follows the counter reads the plain time plus the time passed, across a rollover, which is seen exactly when it occurs |
| `Piix4Timer.FollowedCall` | hals/halacpi/pmtimerc.c:253-687 | a timely call then returns the last time plus the time passed after one read, with the skew that the two corrections leave |
| `Piix4Timer.FollowsOn` | hals/halacpi/pmtimerc.c:579-640 | the clock follows the counter afterwards if and only if the time did not carry a positive skew into a new period unseen |
| `Piix4Timer.FollowedRunIsExact` | hals/halacpi/pmtimerc.c:253-687 | every call of a timely run with a skew in force returns the true time plus the same offset, across rollovers of the counter and of the time |
| `Piix4Timer.GlitchedCall` | hals/halacpi/pmtimerc.c:504-562 | two consistent reads out of bounds: the answer is the last time plus 3 ticks after a small step back, plus an eighth of the table entry after a larger one, plus a quarter after a jump ahead, and the clock then follows the counter at that offset |
| `Piix4Timer.ReadAligns` | hals/halacpi/pmtimerc.c:579-640 | what the corrections are for: after a believed read the unskewed time and the time are in one period if and only if the skew is below a period, which is so if and only if the believed time is less than a period ahead of the reading, and not ahead at all under negative skew |
| `Piix4Timer.CallAligns` | hals/halacpi/pmtimerc.c:315-648 | the same for a whole call, whatever counter values it reads and however often it rereads |
| `Piix4Timer.NarrowBuildLosesOffset` | hals/halacpi/pmtimerc.c:624-640 | with 32-bit pointers and a 32-bit counter a clock that follows keeps its skew into the next period and its next read is not believed |
| `Piix4Timer.ConsecutiveReadings` | hals/halacpi/pmtimerc.c:370-413 | two non-decreasing reads in a row get the same rollover treatment, and if they agree above the bits of the counter the readings differ by exactly as much |
| `Piix4Timer.LoopExits` | hals/halacpi/pmtimerc.c:478-487 | from any clock and any point of the loop, it ends no later than the second of two consecutive non-decreasing reads at most 0xfff apart that agree above the bits of the counter |
| `Piix4Timer.LoopExitIsExact` | hals/halacpi/pmtimerc.c:478-487 | for two such reads, every call returns by the second if and only if they agree above the bits of the counter |
| `Piix4Timer.AdjacentReadsDoNotExit` | hals/halacpi/pmtimerc.c:478-487 | reads of a 24-bit counter one apart, across a multiple of 2^24, that do not end the loop |
| `Piix4Timer.Timer.constructor` | hals/halacpi/pmtimerc.c:151-184 | the upper-bound table and the initial clock |
| `Piix4Timer.Timer.AdjustUpperBoundTable2X` | hals/halacpi/pmtimerc.c:187-211 | every table entry is doubled in place, modulo 2^32; the timer stays valid while the entries stay within the doubled table |
| `Piix4Timer.Timer.QueryBrokenPiix4` | hals/halacpi/pmtimerc.c:255-687 | the method over the split globals computes the call function from the hardware values it reads, and keeps the duplicated high words equal |
| `Piix4Timer.Timer.AdjustRead` | hals/halacpi/pmtimerc.c:370-414 | the spliced reading, the rollover flag and the adjusted reading |
| `Piix4Timer.Timer.Believe` | hals/halacpi/pmtimerc.c:434-565 | one pass of the judging code: believed with which value and skew, or read again |
| `Piix4Timer.Timer.AdjustSkew` | hals/halacpi/pmtimerc.c:579-640 | the skew after the loop, including the assignment inside the condition and the pointer-width mask |
| `Piix4Timer.Timer.SetBounds` | hals/halacpi/pmtimerc.c:653-666 | the time and the bound written to the duplicated globals |
| `MmTimer.InterruptKeepsInvariant` | hals/halacpi/mmtimer.c:247-258 | a clock interrupt keeps the offset a multiple of 2^32 behind the true count and the difference of count and offset below 2^32 |
| `MmTimer.CalibrateKeepsInvariant` | hals/halacpi/mmtimer.c:592-605 | a calibration re-establishes the invariant for the new count |
| `MmTimer.StepKeepsInvariant` | hals/halacpi/mmtimer.c:247-605 | every allowed step keeps it |
| `MmTimer.ResetIsInvariant` | hals/halacpi/mmtimer.c:51-52 | it holds for the reset globals |
| `MmTimer.QueryIsExact` | hals/halacpi/mmtimer.c:658-667 | a query returns the count plus the lag modulo 2^32, so it is the true 64-bit count if and only if the globals lag by less than 2^32 |
| `MmTimer.RunIsExact` | hals/halacpi/mmtimer.c:247-667 | the same after any interleaving of interrupts and calibrations |
| `MmTimer.StepMovesLag` | hals/halacpi/mmtimer.c:247-258 | an interrupt takes exactly its ticks off the lag of the count, the hardware adds to it, a calibration clears it |
| `MmTimer.PaceDecides` | hals/halacpi/mmtimer.c:247-667 | after any interleaving, with no assumption on the lag it leaves, a query is exact if and only if the interrupts since the last calibration kept pace with the counter to within 2^32 ticks |
| `MmTimer.InterruptsKeepPace` | hals/halacpi/mmtimer.c:247-667 | without calibrations, from any state: the count advances by the ticks of one clock period for each interrupt, and a query is exact if and only if the elapsed ticks and the first lag exceed those periods by less than 2^32 |
| `MmTimer.TruthIsMonotone` | hals/halacpi/mmtimer.c:247-258 | between calibrations the true count only grows |
| `MmTimer.QueriesAreMonotone` | hals/halacpi/mmtimer.c:658-667 | two exact queries with no calibration between them never go back |
| `MmTimer.EventTimer.constructor` | hals/halacpi/mmtimer.c:51-52 | the reset globals |
| `MmTimer.EventTimer.ClockInterrupt` | hals/halacpi/mmtimer.c:247-258 | the globals after a clock interrupt, with 64-bit wrap-around |
| `MmTimer.EventTimer.CalibratePerfCount` | hals/halacpi/mmtimer.c:592-605 | the globals after a calibration; only the primary processor calibrates |
| `MmTimer.EventTimer.QueryPerfCount` | hals/halacpi/mmtimer.c:658-667 | the count returned for a reading of the main counter |
| `RangeAlgebra.MergeIsIntersection` | hals/rangesup.c:154-220 | an address translates to t in a merged list if and only if the parent covers it and the child translates it to t |
| `RangeAlgebra.AddIsUnion` | hals/rangesup.c:250-306 | adding a list gives exactly the union of the translations |
| `RangeAlgebra.RemoveIsDifference` | hals/rangesup.c:359-438 | removing an interval leaves exactly the old translations outside it, although entries split off later entries are never visited |
| `RangeAlgebra.WalkRemoves` | hals/rangesup.c:389-437 | the walk clears the interval from every entry, including those it inserts and skips |
| `RangeAlgebra.RemoveAllIsDifference` | hals/rangesup.c:332-355 | removing a list leaves exactly what none of its ranges contains |
| `RangeAlgebra.ConsolidateKeepsAddresses` | hals/rangesup.c:462-547 | consolidation keeps every address and the system base it translates by |
| `RangeAlgebra.ConsolidateShape` | hals/rangesup.c:462-547 | a consolidated list is sorted and has no empty entry unless it has only one entry |
| `RangeAlgebra.ConsolidateIsCanonical` | hals/rangesup.c:494-546 | with one system base the result has no overlapping or touching entries if and only if no range that reaches the largest address has a non-empty range behind it |
| `RangeAlgebra.NoMaximumIsUnblocked` | hals/rangesup.c:515-517 | a caller can rule the exception out: no limit is the largest address |
| `RangeAlgebra.MaximumIsNotJoined` | hals/rangesup.c:515-517 | concrete overlapping ranges that stay apart because the limit cannot be stepped past |
| `RangeAlgebra.ConsolidateMeaning` | hals/rangesup.c:441-550 | addresses, order and shape for whatever order the exchange sort leaves equal bases in |
| `RangeAlgebra.CanonicalInEveryOrder` | hals/rangesup.c:441-550 | for the unsorted list a caller has: every result is canonical if and only if no non-empty range that reaches the largest address has another non-empty range at or above its base |
| `RangeAlgebra.ConsolidateKeepsTranslation` | hals/rangesup.c:515-528 | joining compares system bases only; the whole translation is kept if no two ranges that overlap or touch have one system base in different address spaces |
| `RangeAlgebra.TranslationIsKept` | hals/rangesup.c:515-528 | with one system base and no limit at the largest address, that condition is also necessary |
| `RangeAlgebra.SpaceIsLost` | hals/rangesup.c:515-528 | two overlapping ranges of one system base where the address space of the second is lost |
| `RangeAlgebra.MixedPairIsKept` | hals/rangesup.c:515-535 | with several system bases a range of another base can keep two such ranges apart, so that nothing is lost |
| `RangeAlgebra.RemovedNotShorter` | hals/rangesup.c:359-438 | removal empties and splits entries and never takes one out |
| `RangeAlgebra.ConsolidatedNotLonger` | hals/rangesup.c:441-550 | consolidation never makes a list longer |
| `RangeAlgebra.SortedDownCovers` | hals/rangesup.c:1146-1163 | the descending sort, which does not exchange address spaces, keeps the covered addresses |
| `RangeLists.RangeList.constructor` | hals/rangesup.c:554-584 | a new list holds the one empty range [1, 0] |
| `RangeLists.RangeList.AddRange` | hals/rangesup.c:276-306 | the linked list after inserting behind the head |
| `RangeLists.RangeList.SplitEntry` | hals/rangesup.c:401-418 | an entry split around the interval, its right part inserted behind the head |
| `RangeLists.RangeList.ClipEntry` | hals/rangesup.c:391-436 | one entry clipped in place, split, or emptied |
| `RangeLists.RangeList.RemoveRange` | hals/rangesup.c:359-438 | the contents of the linked list are those of the removal function |
| `RangeLists.RangeList.AddRangeList` | hals/rangesup.c:250-272 | every entry of the other list is inserted, and the other list is left alone |
| `RangeLists.RangeList.RemoveRangeList` | hals/rangesup.c:332-355 | every range of the other list is removed in turn |
| `RangeLists.RangeList.Emit` | hals/rangesup.c:200-217 | an overlap goes into the blank head first and into new entries behind the last one afterwards |
| `RangeLists.RangeList.EmitOverlap` | hals/rangesup.c:181-217 | the overlap of two ranges with the child's translation, unless it is empty |
| `RangeLists.RangeList.MergeRow` | hals/rangesup.c:179-218 | all overlaps of one parent range |
| `RangeLists.RangeList.MergeRangeList` | hals/rangesup.c:154-220 | the linked result holds the merge function of the two lists |
| `RangeLists.RangeList.Exchange` | hals/rangesup.c:472-485 | two entries exchange their ranges |
| `RangeLists.RangeList.SortPass` | hals/rangesup.c:470-487 | the least base comes to the front of the unsorted part, and the entries are permuted |
| `RangeLists.RangeList.Sort` | hals/rangesup.c:469-488 | sorted by base, the same multiset of ranges |
| `RangeLists.RangeList.Unlink` | hals/rangesup.c:503-511 | the entry behind a given one is taken out of the chain |
| `RangeLists.RangeList.Absorb` | hals/rangesup.c:503-511 | an entry and the next are replaced by one |
| `RangeLists.RangeList.Coalesce` | hals/rangesup.c:494-535 | the pass computes the coalescing function and returns the last entry |
| `RangeLists.RangeList.DropLast` | hals/rangesup.c:542-546 | the last entry is unlinked |
| `RangeLists.RangeList.Consolidate` | hals/rangesup.c:462-547 | the list holds some sorted permutation of its ranges, consolidated |
| `RangeLists.RangeList.ExchangeTriples` | hals/rangesup.c:1150-1160 | base, limit and system base are exchanged, address spaces are not |
| `RangeLists.RangeList.SortDownPass` | hals/rangesup.c:1147-1162 | the greatest base comes to the front of the unsorted part |
| `RangeLists.RangeList.SortRanges` | hals/rangesup.c:1118-1175 | descending order of base, the same multiset of triples, and the number of entries |
| `SupportedRanges.Supported.RemoveRanges` | hals/rangesup.c:309-329 | I/O and DMA are removed list by list, memory and prefetchable memory both from both; added entries are new, the other structure, the mark and the recorded counts stay, so exact counts still suffice if and only if no list got longer |
| `SupportedRanges.Supported.SortOnce` | hals/rangesup.c:756-762 | unmarked lists are sorted and their lengths recorded; marked ones are left alone with the counts recorded for them |
| `SupportedRanges.Supported.ConsolidateRanges` | hals/rangesup.c:441-550 | all four lists are consolidated; mark and recorded counts stay, no list gets longer, so counts that sufficed still do |
| `SupportedRanges.MergedList` | hals/rangesup.c:139-141 | a new list with the overlaps of a parent and a child list |
| `SupportedRanges.MergedWithUnion` | hals/rangesup.c:143-147 | the same against the union of two parent lists |
| `SupportedRanges.MergeRanges` | hals/rangesup.c:117-150 | a new unmarked structure with new lists and entries, holding the four merges |
| `SupportedRanges.RemoveRangesMeaning` | hals/rangesup.c:309-329 | no memory address of the other bus is left in memory or prefetchable memory, and every other translation is as it was |
| `SupportedRanges.MergeRangesMeaning` | hals/rangesup.c:117-150 | exact intersection with the child's translation; on the prefetchable side the parent counts with both kinds of memory |
| `SupportedRanges.PrefetchParentCovers` | hals/rangesup.c:143-146 | the helper parent list covers exactly both kinds of parent memory |
| `SupportedRanges.BusSortedCovers` | hals/rangesup.c:756-762 | the sort of a bus does not change what it covers |
| `ResourceAlgebra.EmittedIsIntersection` | hals/rangesup.c:848-963 | if the bus supports any of a descriptor's interval, the descriptors emitted for it allow exactly the part in the ranges of its kind, and for memory with the flag 0x0004 in the prefetchable ranges as well |
| `ResourceAlgebra.EmittedIsImpossible` | hals/rangesup.c:1090-1108 | if it supports none, an alternative yields nothing and any other descriptor yields one, which no address satisfies unless the interval starts at the smallest 64-bit address |
| `ResourceAlgebra.ImpossibleIsEmpty` | hals/rangesup.c:1095-1100 | the substitute interval is empty if and only if the minimum is not the smallest 64-bit address |
| `ResourceAlgebra.EmittedFollows` | hals/rangesup.c:1067-1108 | of everything emitted for a descriptor all but the first are alternatives, and all fields but option and interval are copied |
| `ResourceAlgebra.PrefetchIsPreferred` | hals/rangesup.c:899-925 | the descriptors for prefetchable ranges, emitted for memory with the flag 0x0004 only, come first and are marked preferred; all others are marked so exactly if the descriptor was |
| `ResourceAlgebra.CountedAllByKind` | hals/rangesup.c:782-804 | the first pass counts the list of each kind once per descriptor of the kind, and the prefetchable list once per memory descriptor with the flag |
| `ResourceAlgebra.ClipIsStored` | hals/rangesup.c:887-890 | a clipped interval survives the 32-bit fields of interrupts and DMA |
| `ResourceAlgebra.EmittedRoom` | hals/rangesup.c:782-804 | what one descriptor can emit against what the first pass counts for it |
| `ResourceAlgebra.EstimateBoundsOutput` | hals/rangesup.c:774-809 | with an interrupt list the second pass never writes more than the first counted; without one, each lone interrupt can exceed the count by one |
| `ResourceAlgebra.InterruptsWithoutList` | hals/rangesup.c:774-809 | interrupts only and no interrupt list: the one spare descriptor suffices if and only if at most one of them is not an alternative |
| `ResourceAlgebra.LoneInterruptsDecide` | hals/rangesup.c:774-809 | counts that suffice but no interrupt list: every request with k lone interrupts, whatever else it has, fits if and only if k is at most 1 |
| `ResourceAlgebra.TwoInterruptsOverrun` | hals/rangesup.c:774-809 | two lone interrupts and no interrupt list overrun the buffer |
| `ResourceAlgebra.EmittedLength` | hals/rangesup.c:848-1108 | one descriptor for each range that is met, or one if none is and the descriptor is not an alternative |
| `ResourceAlgebra.RoomyIsExact` | hals/rangesup.c:774-824 | for any counts and lists, the buffer is large enough for every request if and only if the count of each kind is at least 1 and at least the number of ranges its widest descriptor meets |
| `ResourceAlgebra.SufficesIsRoomy` | hals/rangesup.c:756-764 | counts of at least the lengths are enough when there is an interrupt list |
| `ResourceAlgebra.StaleCountOverruns` | hals/rangesup.c:756-809 | a list counted, split by a removal and not counted again: one port descriptor overruns the buffer |
| `ResourceAlgebra.OutputFits` | hals/rangesup.c:774-824 | counts of at least the lengths are enough for any request with at most one lone interrupt, or any request at all when there is an interrupt list |
| `ResourceLists.Cursor.GetNextSupportedRange` | hals/rangesup.c:1002-1115 | one call writes the next clip, or the impossible descriptor, or nothing, and says what is still to be emitted |
| `ResourceLists.Cursor.Put` | hals/rangesup.c:1068-1077 | a copy of the input descriptor with the current option, which becomes alternative |
| `ResourceLists.Cursor.Advance` | hals/rangesup.c:1042-1061 | the descriptor clipped to the current range, and the next position |
| `ResourceLists.Cursor.Refuse` | hals/rangesup.c:1095-1100 | the interval meant to be impossible |
| `ResourceLists.Cursor.Start` | hals/rangesup.c:858 | the head of a list as the current position |
| `ResourceLists.Cursor.FillIn` | hals/rangesup.c:866-869 | the interval and preferred mark of the descriptor written last |
| `ResourceLists.Cursor.EmitNext` | hals/rangesup.c:859-871 | one turn of the loop of a resource kind |
| `ResourceLists.Cursor.Drain` | hals/rangesup.c:859-871 | the whole loop emits the clips against one list |
| `ResourceLists.Cursor.EmitDescriptor` | hals/rangesup.c:848-970 | everything for one descriptor, by its kind |
| `ResourceLists.Cursor.EmitList` | hals/rangesup.c:838-979 | everything for one resource list, written behind what is there, in the buffer as far as that goes |
| `ResourceLists.CountList` | hals/rangesup.c:777-804 | refuses an unknown kind, else what the list adds to the count, by kind and flag |
| `ResourceLists.CountRoom` | hals/rangesup.c:774-809 | the first pass over all lists, which refuses a bad version: the room by kind and flag |
| `ResourceLists.Rewrite` | hals/rangesup.c:830-987 | every list rewritten into one buffer of the counted size; it writes behind the buffer if and only if the descriptors of the whole request do not fit |
| `ResourceLists.SortInterrupts` | hals/rangesup.c:764 | the interrupt ranges are sorted and counted, the others left alone |
| `ResourceLists.SortSources` | hals/rangesup.c:756-764 | the ranges are sorted if they were not, the interrupt ranges always; the counts are the recorded ones of marked ranges and the lengths of others |
| `ResourceLists.AdjustSorted` | hals/rangesup.c:774-997 | the two passes: refusal, success, or an overrun exactly if the counted room is too small |
| `ResourceLists.AdjustResourceListRange` | hals/rangesup.c:702-998 | invalid parameters are refused, with the ranges sorted if the version is right; otherwise the rewritten request, or an overrun of the buffer exactly if it does not fit into the room that the counts give, which cannot happen with counts that suffice and an interrupt list |
| `ResourceLists.AdjustMeaning` | hals/rangesup.c:702-998 | in terms of the ranges passed in: a supported descriptor is replaced by descriptors that allow exactly its supported part, an unsupported one by nothing or by one impossible descriptor |
| `Processors.ApicTable.MarkBootProcessor` | hals/halacpi/mpsyssup.c:240-252 | the first entry with the boot APIC ID is started and enumerated |
| `Processors.ApicTable.MarkProcessorStarted` | hals/halacpi/mpsyssup.c:345-360 | the first entry with the ID gets the processor number, truncated to a byte |
| `Processors.ApicTable.GetNextProcessorApicId` | hals/halacpi/mpsyssup.c:363-416 | the first entry not yet enumerated is enumerated and returned |
| `Processors.ApicTable.FindStarted` | hals/halacpi/mpsyssup.c:459-468 | the first started entry with a number, or how many waiting entries to skip |
| `Processors.ApicTable.FindWaiting` | hals/halacpi/mpsyssup.c:478-500 | the waiting entry with so many waiting entries before it, or none |
| `Processors.ApicTable.GetApicIdByProcessorNumber` | hals/halacpi/mpsyssup.c:419-507 | the ID of the started entry with the number, or else of the waiting entry that is due to get it, or none |
| `Processors.PredictionIsSeat` | hals/halacpi/mpsyssup.c:419-507 | in every reachable state a number is predicted to be its seat: the started processors in order, then the waiting ones |
| `Processors.StepSeats` | hals/halacpi/mpsyssup.c:345-416 | starting the next processor leaves every seat where it is; a refused one loses its seat |
| `Processors.RunKeepsSeats` | hals/halacpi/mpsyssup.c:345-416 | the seats over whole runs of the start sequence |
| `Processors.PredictionIsStable` | hals/halacpi/mpsyssup.c:419-507 | while every enumerated processor is started, the prediction is the same in every reachable state and is the processor that ends up with the number |
| `Processors.AnswerIsStarted` | hals/halacpi/mpsyssup.c:419-507 | while every enumerated processor is started, the APIC ID returned for a number in any state is that of the entry that has the number in any later state, and none if there is no processor left to get it |
| `Processors.WaitingIsExact` | hals/halacpi/mpsyssup.c:478-500 | the waiting entries are exactly the entries not yet enumerated, in table order |
| `Processors.SeatsAreDistinct` | hals/halacpi/mpsyssup.c:419-507 | no two numbers have one seat |
| `Processors.RefusalShiftsPrediction` | hals/halacpi/mpsyssup.c:363-507 | a refused processor changes the prediction for a number if and only if that number was predicted to be a waiting one |
| `Processors.BootStartsRun` | hals/halacpi/mpsyssup.c:240-252 | marking the boot processor establishes the invariant of a run |
| `Processors.PredictionBeforeBoot` | hals/halacpi/mpsyssup.c:240-507 | a prediction made before the boot processor is marked is right for number 0 if and only if the system booted on the first entry |
| `NumaAlgebra.OwnerIsUnique` | hals/halacpi/sratnuma.c:534-612 | a page has one owner among the memory descriptors |
| `NumaAlgebra.LastBelowOwns` | hals/halacpi/sratnuma.c:534-563 | in stable order the last entry at or below a page is its owner |
| `NumaAlgebra.SlotIsOwner` | hals/halacpi/sratnuma.c:572-597 | after merging runs and replacing the first base by 0, the slot of a page still holds the domain of its owner |
| `NumaAlgebra.TableIsSorted` | hals/halacpi/sratnuma.c:590-597 | the finished table is sorted |
| `NumaAlgebra.SlotIsUnique` | hals/halacpi/sratnuma.c:115-134 | so a page has one slot, whichever slot the search starts from |
| `Numa.Exchange` | hals/halacpi/sratnuma.c:542-554 | two neighbours exchange base and domain together |
| `Numa.BubblePass` | hals/halacpi/sratnuma.c:536-556 | one pass moves the largest base to its final place and keeps equal bases in order |
| `Numa.SortMemory` | hals/halacpi/sratnuma.c:534-563 | the two parallel arrays end up in stable order of base; the unsigned bound wraps only after the last pass |
| `Numa.MergeRuns` | hals/halacpi/sratnuma.c:572-583 | neighbours of one domain are merged in place |
| `Numa.Terminate` | hals/halacpi/sratnuma.c:590-597 | the sentinel and the leading 0 |
| `Numa.ConvertDomains` | hals/halacpi/sratnuma.c:605-612 | each domain is replaced by its place in the list of domains |
| `Numa.CountEntries` | hals/halacpi/sratnuma.c:245-267 | the entries that are enabled and memory, and those that are enabled and processors, are counted |
| `Numa.ScanGrows` | hals/halacpi/sratnuma.c:382-417 | the domains and counts only grow, so a scan that fails early fails for the whole table |
| `Numa.DomainsComplete` | hals/halacpi/sratnuma.c:391-417 | the list of domains has every domain once |
| `Numa.PlaceIsTaken` | hals/halacpi/sratnuma.c:251-265 | the places taken from the table are those of entries that qualify, in table order |
| `Numa.TakenHasPlace` | hals/halacpi/sratnuma.c:251-265 | and every entry that qualifies is taken |
| `Numa.MemoriesAreEnabled` | hals/halacpi/sratnuma.c:391-491 | the memory descriptors are exactly the enabled memory entries, in table order, each with its base and domain |
| `Numa.CpusAreEnabled` | hals/halacpi/sratnuma.c:391-491 | the processors are exactly the enabled processor entries, in table order |
| `Numa.DomainsAreAll` | hals/halacpi/sratnuma.c:391-417 | the domains listed are those of all entries, enabled or not, each once |
| `Numa.DomainsAppear` | hals/halacpi/sratnuma.c:391-417 | in the order of their first appearance |
| `Numa.OwnerIsEntry` | hals/halacpi/sratnuma.c:534-612 | the owner among the descriptors is the enabled memory entry that owns the page |
| `Numa.NodeIsEntryDomain` | hals/halacpi/sratnuma.c:87-138 | so the node of a page is the place of the domain of that entry |
| `Numa.FirstCpuIsEntry` | hals/halacpi/sratnuma.c:174-194 | the first processor with an APIC ID is the first enabled processor entry with it |
| `Numa.UsableScan` | hals/halacpi/sratnuma.c:251-417 | what makes a table usable, on its entries and on what the scan collects |
| `Numa.NodeOfPageIsUnique` | hals/halacpi/sratnuma.c:87-138 | the node number of a page is determined |
| `Numa.NodeOfEntryIsUnique` | hals/halacpi/sratnuma.c:87-138 | also in terms of the table |
| `Numa.Config.constructor` | hals/halacpi/sratnuma.c:357-373 | an empty configuration |
| `Numa.Config.NoteDomain` | hals/halacpi/sratnuma.c:391-417 | a new domain is appended if there is room |
| `Numa.Config.TakeEntry` | hals/halacpi/sratnuma.c:391-491 | one table entry, or refusal |
| `Numa.Config.Scan` | hals/halacpi/sratnuma.c:379-492 | the second scan succeeds if and only if the table has room for all domains and processors |
| `Numa.Config.BootDomainFirst` | hals/halacpi/sratnuma.c:514-527 | the boot processor's domain comes first and the domains are permuted |
| `Numa.Config.BuildIndex` | hals/halacpi/sratnuma.c:534-612 | the finished arrays answer for every page |
| `Numa.Config.IndexAnswers` | hals/halacpi/sratnuma.c:534-612 | every slot of every page names the node of the page's owner |
| `Numa.Config.Initialize` | hals/halacpi/sratnuma.c:245-612 | succeeds if and only if the table has an enabled memory entry, an enabled processor entry, and not too many domains and enabled processors, and then the queries' invariant holds |
| `Numa.Config.QueryPageToNode` | hals/halacpi/sratnuma.c:87-138 | from any last slot, the place of the domain of the enabled memory entry that owns the page, in terms of the table the configuration was built from; the slot is remembered |
| `Numa.Config.QueryProcessorNode` | hals/halacpi/sratnuma.c:174-194 | the place of the domain of the first enabled processor entry with the ID, 0 for the boot processor, none exactly if there is no such entry |
| `BusHandlers.PutSlot` | hals/bushnd.c:497-562 | a registration changes one slot of a table and no other, whatever has to grow |
| `BusHandlers.PutGapFree` | hals/bushnd.c:664-732 | it leaves no slot unfilled if and only if its number is at most the next one of its type |
| `BusHandlers.RegisteredSlots` | hals/bushnd.c:497-562 | the slots of both tables after a registration |
| `BusHandlers.RegisteredList` | hals/bushnd.c:564-577 | exactly the replaced handler leaves the list, the new one joins it, addresses stay distinct |
| `BusHandlers.RegisterKeepsConsistent` | hals/bushnd.c:488-582 | the tables and the list hold the same handlers afterwards if the registration may replace what is in its slots |
| `BusHandlers.ConsistentNeedsReplaceable` | hals/bushnd.c:488-582 | and only then |
| `BusHandlers.ConsistentIffReplaceable` | hals/bushnd.c:488-582 | both directions together: the condition on the handlers in the two slots is exact |
| `BusHandlers.MixedPairIsInconsistent` | hals/bushnd.c:551-577 | two handlers properly registered and a third, given outright, over both of them: it leaves the first on the list without a slot |
| `BusHandlers.RunSlots` | hals/bushnd.c:297-633 | after any history of registrations a slot holds the last registration for its type and number |
| `BusHandlers.RunKeeps` | hals/bushnd.c:297-633 | every history of fresh, replaceable, gap-free registrations keeps the tables consistent and without gaps |
| `BusHandlers.RunIsLastRegistration` | hals/bushnd.c:738-775 | after such a history every lookup in either table gives the last registration, and the list holds exactly the handlers that no later one replaced |
| `BusHandlers.ListIsKept` | hals/bushnd.c:564-577 | the list is the unreplaced registrations in order of registration |
| `BusHandlers.TranslatesItself` | hals/bushnd.c:1283-1311 | a listed handler translates exactly when it is on a bus and its own translation works, although it is looked up again |
| `BusHandlers.CallsEnumerate` | hals/bushnd.c:1583-1754 | from any context, repeated calls give each working handler after it once, in list order, then only failures |
| `BusHandlers.EnumerationIsComplete` | hals/bushnd.c:1583-1754 | from context 0 the calls give every handler that translates the address exactly once |
| `BusHandlers.FindHere` | hals/bushnd.c:1583-1700 | a call that does not ask for the next bus answers for the handler of its context, the first one for context 0, keeps a context that fails, and finds nothing for an unknown context |
| `BusHandlers.BusDatabase.constructor` | hals/bushnd.c:264-266 | two empty tables and an empty list |
| `BusHandlers.BusDatabase.LookupHandler` | hals/bushnd.c:738-775 | nothing, a handler, or the address that an unfilled slot yields |
| `BusHandlers.BusDatabase.NextFreeNumber` | hals/bushnd.c:402-409 | the first number that a lookup finds nothing for |
| `BusHandlers.BusDatabase.Install` | hals/bushnd.c:497-562 | the table with the handler in its slot, and the handler that was there |
| `BusHandlers.BusDatabase.Register` | hals/bushnd.c:297-633 | the new database, or the old one if the install routine fails |
| `BusHandlers.BusDatabase.ContextToBusHandler` | hals/bushnd.c:1463-1507 | the place of a context on the list, the first entry for 0, none for anything else |
| `BusHandlers.BusDatabase.TranslateBusAddress` | hals/bushnd.c:1283-1311 | the outcome of the handler found for a type and number |
| `BusHandlers.BusDatabase.FindBusAddressTranslation` | hals/bushnd.c:1583-1754 | one step of the enumeration |
| `X86Context.ComputeParity` | hals/x86new/utility.c:35-67 | the table look-up says whether the low byte has an even number of ones |
| `X86Context.Context.StoreResult` | hals/x86new/utility.c:490-557 | the low bits of the destination are overwritten and nothing else changes |
| `X86Arith.SumOverflow` | hals/x86new/addops.c:493-494 | the exclusive-or formula for the overflow flag says exactly whether the signed sum with carry leaves its range |
| `X86Arith.DifferenceOverflow` | hals/x86new/addops.c:601 | the same for the difference with borrow |
| `X86Arith.SumInTwoSteps` | hals/x86new/addops.c:436-457 | two wrapped additions and two comparisons give the sum and its carry |
| `X86Arith.DifferenceInTwoSteps` | hals/x86new/addops.c:534-555 | two wrapped subtractions and two comparisons give the difference and its borrow |
| `X86Arith.AddOperands` | hals/x86new/addops.c:402-497 | result and all six flags are those of the mathematical sum; an increment keeps the carry flag |
| `X86Arith.SubOperands` | hals/x86new/addops.c:500-603 | result and flags are those of the difference; comparisons store nothing, a decrement keeps carry, compare-and-exchange keeps zero |
| `X86Arith.AddOp` | hals/x86new/addops.c:46-74 | the sum without carry |
| `X86Arith.AdcOp` | hals/x86new/addops.c:77-105 | the sum with the carry flag |
| `X86Arith.SubOp` | hals/x86new/addops.c:141-169 | the difference without borrow |
| `X86Arith.SbbOp` | hals/x86new/addops.c:108-138 | the difference with the carry flag as borrow |
| `X86Arith.CmpOp` | hals/x86new/addops.c:172-200 | the flags of the difference, nothing stored |
| `X86Arith.IncOp` | hals/x86new/addops.c:300-329 | one more, carry flag kept |
| `X86Arith.DecOp` | hals/x86new/addops.c:267-297 | one less, carry flag kept |
| `X86Arith.NegOp` | hals/x86new/addops.c:332-363 | zero minus the destination |
| `X86Arith.CmpxchgOp` | hals/x86new/addops.c:203-264 | source to destination if it equals the accumulator, else destination to accumulator; the flags are those of the comparison |
| `X86Conditions.SignedLess` | hals/x86new/jmpops.c:193-194 | sign and overflow of a difference disagree exactly when the destination is less |
| `X86Conditions.ComparisonDecides` | hals/x86new/jmpops.c:138-210 | after a comparison of any operands of any width, the ten order conditions hold exactly for the unsigned and signed order they name |
| `X86Conditions.ComparisonReports` | hals/x86new/jmpops.c:145-187 | the overflow, sign and parity conditions after a comparison |
| `X86Conditions.SumReports` | hals/x86new/jmpops.c:138-187 | after an addition the overflow, carry, zero, sign and parity conditions |
| `X86Conditions.Jxx` | hals/x86new/jmpops.c:109-216 | the jump is taken exactly when its condition holds |
| `X86Conditions.Sxx` | hals/x86new/setops.c:29-133 | the byte is one exactly when the jump with the same control value would be taken |
| `X86Limbs.ChainBalances` | hals/x86new/addops.c:436-471 | for chains of any length with carry throughout: result plus carry out equals operands plus carry in |
| `X86Limbs.ChainIsExact` | hals/x86new/addops.c:72-138 | an addition and additions with carry compute the sum of numbers of any length, subtractions the difference, with increments and decrements of other places in between |
| `X86Limbs.CarryOutIsExact` | hals/x86new/addops.c:436-572 | the final carry flag says exactly whether the sum does not fit, or the first number is smaller |
| `X86Limbs.Perform` | hals/x86new/emulate.c:376-384 | the emulator's operations perform one instruction of a chain |
| `X86Limbs.PerformAll` | hals/x86new/emulate.c:376-384 | and a whole program |
| `Rotations.RotateLeftStep` | hals/x86new/shiftops.c:70-74 | a rotation by one more is one more rotation by one, for words of any number of bits |
| `Rotations.RotateRightStep` | hals/x86new/shiftops.c:123-127 | the same to the right |
| `X86Shift.RolOp` | hals/x86new/shiftops.c:61-80 | the loop is the closed-form rotation by the masked count; carry and overflow in terms of the result |
| `X86Shift.RorOp` | hals/x86new/shiftops.c:115-133 | the same to the right |
| `X86Shift.RclOp` | hals/x86new/shiftops.c:170-190 | carry flag and value are rotated together as one word with one bit more |
| `X86Shift.RcrOp` | hals/x86new/shiftops.c:226-245 | the same to the right |
| `X86Shift.RolRorInvert` | hals/x86new/shiftops.c:61-133 | the two rotations undo each other for every width, value and count |
| `X86Shift.RclRcrInvert` | hals/x86new/shiftops.c:170-245 | the two rotations through carry undo each other on value and carry flag |
| `X86Shift.ShldOp` | hals/x86new/shiftops.c:476-506 | the result is the high half of the double-width shift, the carry its last bit shifted out |
| `X86Shift.ShrdOp` | hals/x86new/shiftops.c:549-579 | the result is the low half of the double-width shift right |
| `X86MulDiv.DivideIsExact` | hals/x86new/divops.c:62-97 | a division that does not trap gives quotient and remainder; it traps exactly if the divisor is zero or the quotient does not fit |
| `X86MulDiv.DivOp` | hals/x86new/divops.c:29-98 | the comparison of the high half with the divisor decides the trap; the quotient goes into AL, AX or EAX and the remainder into AH, DX or EDX; a trap changes nothing |
| `X86MulDiv.DivideUndoesMultiply` | hals/x86new/mulops.c:180-200 | dividing a product by one nonzero operand does not trap and restores the other with remainder 0 |
| `X86MulDiv.HalvesInPair` | hals/x86new/mulops.c:180-200 | the low half of a double-width value is in AL, AX or EAX and the high half in AH, DX or EDX |
| `X86MulDiv.MulOp` | hals/x86new/mulops.c:151-202 | the register pair holds the whole product, its low half in the accumulator; carry and overflow say whether it needs the high half |
| `X86MulDiv.SignedHalves` | hals/x86new/mulops.c:58-84 | the upper half repeats the sign of the lower exactly when the signed product fits |
| `X86MulDiv.ImulOp` | hals/x86new/mulops.c:29-85 | the low half of the signed product; the flags say exactly whether it does not fit |
| `X86MulDiv.ImulxOp` | hals/x86new/mulops.c:88-148 | the register pair holds the signed product in two's complement, its low half in the accumulator |

## Left out

- Piix4Timer.RunNeverGoesBack: assumes that the 64-bit time itself does not wrap during the run; so do the run lemmas built on it.
- MmTimer.RunIsExact: assumes that the 64-bit count itself does not wrap.
- Numa.Config.Initialize: the shift of a byte base to a page base and the allocation of physical memory for the configuration are not modelled; bases are given as pages.
- BusHandlers.BusDatabase.Register: allocation failure, reference counts and the handlers inherited from a parent bus are not modelled.
- ResourceLists.AdjustResourceListRange: the buffer is counted in descriptors, not bytes; the 32-bit size of a huge request and failure of the allocation are not modelled, and neither is what a write behind the buffer does to other memory.
- RangeAlgebra.ConsolidateKeepsTranslation: with several system bases the condition is sufficient only, because a range of another base between two mixed ones can keep them apart (`RangeAlgebra.MixedPairIsKept`); `RangeAlgebra.TranslationIsKept` is exact for one base.
- BusHandlers.BusDatabase.TranslateBusAddress: answers false for a slot that was never filled, where the code would use a null handler; in a consistent database the slot of a listed handler is filled.
- X86Shift.RclOp: conformance with the processor's count modulo the width plus one is not claimed; the count is the one the code uses.
- X86Limbs.Perform: operand decoding is represented by loading the operands from the memory of the context.
- The freeing and displaying of range lists and the copy of a range structure, which adds every list to a new structure.
- The stall calibration of both timers and the 8254 fallback.
- Port and register access, interrupt masking, spin locks and the multiprocessor safety of the timer globals.
- The interrupt vector, NMI and EISA parts of the multiprocessor setup.
- Slot resources, device handlers and the null handlers of the bus interface.
- The single-word shifts, exchange-and-add, bit scans, decimal adjustments, string, stack and segment operations and the signed division of the emulator, and its decoding of instructions.
- The PCI BIOS services, the x86 BIOS call interface, and the other HAL variants.
