# Alphabox: verified models of the processor core and the EV8 PALcode

Alphabox emulates DEC Alpha machines. This project models the parts of its processor core and of its
own EV8 PALcode that keep the most state or are easiest to get wrong, and proves what they promise,
for every input, every run or every interleaving. `dafny verify dfyconfig.toml` checks all of it.

| part | files | what is proved |
|---|---|---|
| Address translation | `TbIndex`, `TbSearch`, `PageCache`, `DataTb`, `Coverage`, `CoverageRuns`, `Answering`, `Invalidates`, `Backing`, `Freshness`; in place: `TbStore`, `CacheStore`, `DataPath` | the TB's set index is exact; the two page-cache levels and the mirror act as one cache; over every run no page-cache hit hides a DTB miss; a mapped page is served, a fill's at once, and an invalidate takes exactly its own; over every disciplined run each access gets the translation filled last; on the native EV8, and elsewhere without keeping, every answer is some matching entry's at that moment |
| IEEE arithmetic | `Rounding`, `Ieee`, `IeeeAdd`, `IeeeConvert`, `IeeeInteger`, `Representable` | add, subtract, round and pack, and the conversions to and from integers are correctly rounded in four modes and two formats, flags included; an exact conversion converts back; the result is the best of all the format's numbers, by their bits, and the numbers themselves are kept |
| EV8 PALcode | `PalState`, `PalRuns`, `PalFrames`, `PalEntries`, `PalWalk`; as it runs: `PalFlows` | interrupt IDs are ended exactly once; rti undoes post through any nesting; each event enters the system where it last asked; the miss flow finds what a direct page-table walk finds, exactly when the level 2 PTEs are consistent |
| Vector memory instructions | `Vector` | all or nothing, element order, forward progress, at the addresses the TB gave |
| Cycle counter | `CycleCounter` | exact billing, no host time lost or billed twice, no overflow, rising reads |
| Threads | `IrqTimers`, `Quiesce`, `QuiesceDelays`, `QuiesceWakes` | no delayed line forgotten or revived, each fires on time; no lost wake-up, and each one arrives |
| Paired root estimate | `RootEstimate` | the chopped reciprocal square root, from any starting guess |

Code that works by changing tables in place is modelled twice and tied: a class over arrays whose
methods follow the source's loops (`TbStore.Table`, `CacheStore.Levels`, `DataPath.Processor`,
`PalFlows.Processor`, `Vector.Unit`, `CycleCounter.Clock`), each method's new state equal to a function
of the old one, and the invariants and runs proved of those functions. The two thread protocols are
state machines whose steps are the source's atomic operations.

Machine words are natural numbers; wrap-around, truncation and the 64-bit overflow that does not
happen are written out. Addresses in the translation path are page numbers (the address shifted right
13), a mask of low or middle bits is a remainder, and an OR of fields that do not overlap is a sum.

Where the code does not do all that its comments say:

- The miss flow equals a direct walk if and only if no usable level 2 PTE faults on read and every
  granularity hint in one agrees with its neighbours (`PalWalk.FlowRefinesWalk`); the comment at
  firmware/ev8/pal.c:518-525 asks only that the kernel may read the upper PTEs.
- A halt is to leave the user's stack pointer in the HWPCB (firmware/ev8/pal.c:836-839). It does if and
  only if it does not happen on the kernel's stack while PS says user mode
  (`PalFrames.HaltRecordsUserSp`). Two flows can: post from user mode, which takes the kernel's stack
  pointer before it writes PS, and rti to user mode, which writes PS before its last four loads. Both
  need a kernel stack that does not translate; `PalFrames.PostHaltLosesUserSp` and
  `PalFrames.RtiHaltLosesUserSp` are runs from reset. A misaligned saved kernel stack pointer, post's
  other check, never occurs from user mode.
- The comment at src/cpu/AlphaCPU.hpp:1589-1591 says QUIESCE's check and sleep cannot miss a waker.
  For the watch flag and for enabled interrupts this holds (`Quiesce.NoLostWakeUp`). For a delayed
  interrupt it does not: the release of a line sets check_timers again when it finds another timer
  running, and notifies nobody (src/cpu/AlphaCPU.hpp:2144-2148). A release, with nothing else going on,
  can lose the wake-up if and only if another line's timer keeps running beside it and no interrupt
  stays raised (`QuiesceDelays.ReleaseLosesExactly`). In the program the millisecond slice of the wait
  ends it.
- A fill's page is what the next access gets, except that a write gets the page of the last entry a write
  found if that is another one that also matches (`Answering.FillAnswers`): add_tb sets only the read
  hint (src/cpu/AlphaCPU.cpp:3260). It takes a page with both an ASM and a non-ASM translation
  (`Answering.WriteServedOther`); software that gives a page one setting between invalidates is served
  its fill at once (`Freshness.FillServed`).
- The truncated rate makes the counter slow by under one part in 2^32 (src/cpu/AlphaCPU.hpp:416-418) exactly
  when a remainder is less than the frequency, which a guest clock no slower than the host's ensures
  (`CycleCounter.TruncationLoss`).

## Model

| member | source | states |
|---|---|---|
| `Rounding.RoundDivCorrect` | src/cpu/AlphaCPU_ieeefloat.cpp:935-1027 | the reference rounding of a quotient: floor or ceiling by mode and sign, nearest with ties to even, never off by one unit |
| `Rounding.RoundByHalves` | src/cpu/AlphaCPU_ieeefloat.cpp:935-1027 | the half bit and the sticky rest decide the rounding of every quotient in every mode |
| `Rounding.StandsRounds` | src/cpu/AlphaCPU_ieeefloat.cpp:541-624 | a fraction whose last bit is sticky rounds as the exact value it stands for |
| `Rounding.StickyStands` | src/cpu/AlphaCPU_ieeefloat.cpp:541-624 | aligning by a shift that ORs what it drops into the last bit keeps that property |
| `Rounding.RoundDenotes` | src/cpu/AlphaCPU_ieeefloat.cpp:935-1027 | the outcome depends on the exact value only, not on the fraction and exponent that denote it |
| `Ieee.Norm` | src/cpu/AlphaCPU_ieeefloat.cpp:880-904 | the loop's table of shifts normalizes every fraction: top bit set, value unchanged, zero left alone |
| `Ieee.RoundAndPack` | src/cpu/AlphaCPU_ieeefloat.cpp:935-1027 | for every normalized fraction, mode and format: the correctly rounded significand with its carry into the exponent; overflow gives infinity or the largest number by mode; below the smallest normal, that number if it rounds up to it and true zero otherwise; inexact exactly when the result differs |
| `IeeeAdd.Unpack` | src/cpu/AlphaCPU_ieeefloat.cpp:825-879 | class, sign, exponent and fraction denote the operand's value |
| `IeeeAdd.Align` | src/cpu/AlphaCPU_ieeefloat.cpp:541-624 | the smaller operand shifted with sticky, for every distance |
| `IeeeAdd.AddFractions` | src/cpu/AlphaCPU_ieeefloat.cpp:541-624 | sum of magnitudes with its carry represents the exact sum well enough to round |
| `IeeeAdd.SubtractFractions` | src/cpu/AlphaCPU_ieeefloat.cpp:541-624 | difference, renormalized, represents the exact difference; cancellation is zero with the sign the mode gives |
| `IeeeAdd.AddFinite` | src/cpu/AlphaCPU_ieeefloat.cpp:541-624 | two finite operands, either order, zeros included: the exact sum rounded |
| `IeeeAdd.AddSub` | src/cpu/AlphaCPU_ieeefloat.cpp:541-624 | for all zero or normal operands, both formats, four modes: the correctly rounded exact sum or difference and its flags; an exact zero is positive, negative only toward minus infinity or from two negative zeros; infinities and NaNs as IEEE 754 has them; invalid exactly for a denormal, a signalling NaN or opposed infinities |
| `IeeeConvert.Split` | src/cpu/AlphaCPU_ieeefloat.cpp:431-511 | integer part modulo 2^64 and sticky remainder at every exponent |
| `IeeeConvert.Finish` | src/cpu/AlphaCPU_ieeefloat.cpp:431-511 | rounding increment, negation and the range test on both widths |
| `IeeeConvert.Convert` | src/cpu/AlphaCPU_ieeefloat.cpp:431-511 | the correctly rounded integer modulo 2^64 (2^32 in the longword form); integer overflow exactly when the rounded value is out of range, inexact exactly when the operand is not integral |
| `IeeeInteger.FromInteger` | src/cpu/AlphaCPU_ieeefloat.cpp:389-405 | every quadword correctly rounded to S or T in every mode, zero to +0 |
| `IeeeInteger.ExactWhen` | src/cpu/AlphaCPU_ieeefloat.cpp:389-405 | to T it is inexact exactly when the integer has more than 53 significant bits |
| `IeeeInteger.SmallExact` | src/cpu/AlphaCPU_ieeefloat.cpp:389-405 | no integer of magnitude 2^53 or less is |
| `IeeeInteger.RoundTrip` | src/cpu/AlphaCPU_ieeefloat.cpp:389-511 | a quadword converted to T exactly converts back to itself in every mode, with no exception |
| `IeeeConvert.TargetIs` | src/cpu/AlphaCPU_ieeefloat.cpp:431-511 | overflow is leaving -2^31 to 2^31 - 1, or -2^63 to 2^63 - 1, and the word delivered is the integer in two's complement |
| `Representable.NumbersAreKept` | src/cpu/AlphaCPU_ieeefloat.cpp:935-1027 | every S number (exponent 897 to 1150, low 29 bits clear) and every T number (exponent 1 to 2046) is its own rounding in every mode, with no flag |
| `Representable.EndsAre` | src/cpu/AlphaCPU_ieeefloat.cpp:935-1027 | the least and the largest number of each format by their bits, and the largest is what an overflow toward zero delivers |
| `Representable.RoundsToBest` | src/cpu/AlphaCPU_ieeefloat.cpp:935-1027 | from the least number to the largest a value rounds to a number of the format that no other number of the format beats on the mode's side or in distance, even in a tie, inexact exactly when it is not the value |
| `Representable.AboveLargest` | src/cpu/AlphaCPU_ieeefloat.cpp:986-997 | above the largest: infinity or the largest by mode and sign with overflow, exactly when rounding to the last binade's unit leaves it |
| `Representable.BelowLeast` | src/cpu/AlphaCPU_ieeefloat.cpp:935-1027 | below the least number: that number when rounding to its unit reaches it, else a true zero with underflow |
| `Representable.SumIsBest` | src/cpu/AlphaCPU_ieeefloat.cpp:541-624 | a sum or difference in range is the best number of the format there is |
| `Representable.PlusZero` | src/cpu/AlphaCPU_ieeefloat.cpp:541-624 | a number plus or minus either zero is that number with no flag |
| `Representable.SumLaws` | src/cpu/AlphaCPU_ieeefloat.cpp:541-624 | the sum is symmetric and a difference is the sum with the second operand negated, zero signs included |
| `Representable.ZeroSums` | src/cpu/AlphaCPU_ieeefloat.cpp:541-624 | a number less itself is +0, -0 toward minus infinity; zeros alike add to themselves |
| `Representable.OneConverts` | src/cpu/AlphaCPU_ieeefloat.cpp:389-511 | the conversions' scale: 1 is 0x3FF0000000000000 both ways |
| `Representable.SpecialWords` | src/cpu/AlphaCPU_ieeefloat.cpp:541-624 | the words delivered for infinities, zeros and the default NaN by their fields |
| `Representable.QuietIs` | src/cpu/AlphaCPU_ieeefloat.cpp:541-624 | a propagated NaN is quiet with its sign and payload |
| `TbIndex.HitSet` | src/cpu/AlphaCPU.hpp:824-826 | an 8 KB entry is looked for in the set it is indexed under |
| `TbIndex.InsertWayOk` | src/cpu/AlphaCPU.hpp:829-840 | ways stay packed and duplicate-free, the new one first; the last way is lost exactly when the set was full of others, and no other ever |
| `TbIndex.RemoveWayOk` | src/cpu/AlphaCPU.hpp:843-853 | ways stay packed and duplicate-free, exactly that slot gone |
| `TbIndex.EmptyExact` | src/cpu/AlphaCPU.cpp:3377-3396 | the cleared index is exact for a TB with nothing valid |
| `TbIndex.InsertExact` | src/cpu/AlphaCPU.cpp:2790-2810 | moving a lost entry back to the front keeps the index exact |
| `TbIndex.AddExact` | src/cpu/AlphaCPU.cpp:3118-3123 | an entry entering keeps the index exact and the large-page count right |
| `TbIndex.DropExact` | src/cpu/AlphaCPU.cpp:3111-3116 | an entry leaving keeps the index exact and the count right |
| `TbSearch.Scan` | src/cpu/AlphaCPU.cpp:2755-2843 | the linear scan returns a matching slot or says that there is none |
| `TbSearch.Probe` | src/cpu/AlphaCPU.cpp:2755-2843 | a probe returns only matching slots, and misses none before the first empty way |
| `TbSearch.FindExact` | src/cpu/AlphaCPU.cpp:2755-2843 | hint, ways, overflow mark and count find a matching valid entry if and only if the linear scan has one |
| `TbSearch.FindUnique` | src/cpu/AlphaCPU.cpp:2755-2843 | with one match the search returns the scan's slot |
| `TbSearch.SweepExact` | src/cpu/AlphaCPU.cpp:3425-3431 | a pass that invalidates selected entries keeps the index exact and touches no other entry |
| `TbSearch.RebuiltExact` | src/cpu/AlphaCPU.cpp:3125-3133 | rebuilding gives an exact index for any entries |
| `TbStore.InsertInRow` | src/cpu/AlphaCPU.hpp:829-840 | the in-place slide is the insertion, other sets untouched |
| `TbStore.RemoveFromRow` | src/cpu/AlphaCPU.hpp:843-853 | the in-place slide is the removal, other sets untouched |
| `TbStore.Table.Search` | src/cpu/AlphaCPU.cpp:2755-2843 | FindTBEntry over the arrays refines the search proved exact |
| `TbStore.Table.SweepSlots` | src/cpu/AlphaCPU.cpp:3425-3431 | the loop over 128 slots refines the sweep |
| `TbStore.Table.RebuildIndex` | src/cpu/AlphaCPU.cpp:3125-3133 | the loop refines the rebuild |
| `PageCache.FillOk` | src/cpu/AlphaCPU.hpp:719-728 | a fill of both levels keeps them one cache, mirror in step, and adds only that page |
| `PageCache.PromoteOk` | src/cpu/AlphaCPU.hpp:774-782 | after a promotion level 1 serves the page asked for, and nothing is held that was not |
| `PageCache.FlushAllOk` | src/cpu/AlphaCPU.hpp:968-982 | a full flush leaves nothing live, generation wrap included |
| `PageCache.FlushRangeOk` | src/cpu/AlphaCPU.hpp:874-895 | a range flush removes every slot of the page and nothing becomes live |
| `PageCache.FlushRangeSpares` | src/cpu/AlphaCPU.hpp:874-895 | with keep an 8 KB flush leaves every slot of every other page in both levels and the mirror |
| `PageCache.InlineProbe` | src/cpu/AlphaCPU.hpp:712-750 | the mirror's tag equals page and key exactly for a valid host-backed slot of that page, mode and 8-bit ASN; bias plus address is the host address |
| `CacheStore.Levels.FillBoth` | src/cpu/AlphaCPU.hpp:784-789 | the in-place fill refines the fill |
| `CacheStore.Levels.TryPromote` | src/cpu/AlphaCPU.hpp:774-782 | the in-place promotion refines it, both branches |
| `CacheStore.Levels.Flush` | src/cpu/AlphaCPU.hpp:968-982 | the loops and the generation refine the flush |
| `CacheStore.Levels.FlushPages` | src/cpu/AlphaCPU.hpp:874-895 | the slot writes refine the range flush |
| `Coverage.StillMapsExact` | src/cpu/AlphaCPU.cpp:3135-3156 | dtb_still_maps answers through the index exactly whether the TB or the shadow holds the same translation |
| `Coverage.DropCovers` | src/cpu/AlphaCPU.hpp:1347-1362 | after drop_unmapped_page no cached page depended on the translation let go |
| `Coverage.SameIs` | src/cpu/AlphaCPU.cpp:3135-3143 | dtb_still_maps looks for a valid entry for exactly the same pages and address spaces |
| `Coverage.DropSpares` | src/cpu/AlphaCPU.hpp:1347-1362 | drop_unmapped_page keeps every other page, and its own while the tables have the translation |
| `Coverage.AddTbKeeps` | src/cpu/AlphaCPU.cpp:3158-3290 | a fill with its eviction keeps the whole invariant |
| `Coverage.RefillKeeps` | src/cpu/AlphaCPU.cpp:2850-2870 | a refill from the shadow keeps it |
| `Coverage.FindDataExact` | src/cpu/AlphaCPU.cpp:2755-2870 | a data lookup succeeds if and only if the TB or the shadow has a match, and returns one |
| `Coverage.FindMoves` | src/cpu/AlphaCPU.cpp:2755-2870 | a lookup remembers the slot it found, and changes an entry only by moving the shadow's into the round-robin slot when no entry matched |
| `Coverage.CacheHitNeverHidesMiss` | src/cpu/AlphaCPU.hpp:1347-1362 | a page-cache hit in the current mode and ASN implies that FindTBEntry would not miss |
| `CoverageRuns.TbisDKeeps` | src/cpu/AlphaCPU.cpp:3483-3509 | tbis_d keeps the invariant |
| `CoverageRuns.TbisKeeps` | src/cpu/AlphaCPU.cpp:3449-3466 | tbis keeps it |
| `CoverageRuns.TbisDForgets` | src/cpu/AlphaCPU.cpp:3483-3509 | after tbis_d neither the TB nor the shadow answers for the page in that address space, no cache slot holds it, and nothing came back in another space |
| `CoverageRuns.TbisForgets` | src/cpu/AlphaCPU.cpp:3449-3466 | after tbis neither the TB nor the shadow answers for the page in either port's address space and no cache slot holds it; a lookup misses and an access gets nothing |
| `CoverageRuns.TbiapKeeps` | src/cpu/AlphaCPU.cpp:3416-3441 | tbiap keeps it |
| `CoverageRuns.TbiaKeeps` | src/cpu/AlphaCPU.cpp:3377-3405 | tbia keeps it |
| `CoverageRuns.Ev8AddTbKeeps` | src/cpu/AlphaCPU_ev8.cpp:367-437 | ev8_add_tb keeps it |
| `CoverageRuns.Ev8TbImKeeps` | src/cpu/AlphaCPU_ev8.cpp:462-486 | every DTB_IM mode keeps it |
| `CoverageRuns.Ev8TbIsKeeps` | src/cpu/AlphaCPU_ev8.cpp:490-507 | DTB_IS keeps it |
| `CoverageRuns.Ev8SetGroupKeeps` | src/cpu/AlphaCPU_ev8.cpp:521-536 | a TPU group switch keeps it |
| `CoverageRuns.Ev8ClearKeeps` | src/cpu/AlphaCPU_ev8.cpp:538-545 | the reset's clear keeps it |
| `CoverageRuns.AccessKeeps` | src/cpu/AlphaCPU.hpp:1996-2058 | an access that fills the page cache from the TB keeps it |
| `CoverageRuns.RunKeeps` | src/cpu/AlphaCPU.hpp:1347-1362 | over every run of fills, evictions, refills, invalidates, group switches, ASN and mode writes and accesses: index exact, levels one, no hit hides a miss |
| `CoverageRuns.ResetInv` | src/cpu/AlphaCPU.cpp:788-800 | the reset state satisfies the invariant |
| `Answering.EntryCovers` | src/cpu/AlphaCPU.cpp:3162-3192 | an entry matches exactly the 8^size pages from its own of VA<47:13>, or VA<51:13>, in its address space or with ASM in all |
| `Answering.AdmitsByBits` | src/cpu/AlphaCPU.cpp:3231-3243 | an access is admitted exactly with its mode's read or write enable set and its fault bit clear in the PTE |
| `Answering.UncachedAnswer` | src/cpu/AlphaCPU.hpp:2041-2057 | past the page cache an access gets the page of a matching, admitting entry of the TB or the shadow, and level 1 then holds it |
| `Answering.Answers` | src/cpu/AlphaCPU.hpp:2041-2057 | a page the TB or the shadow maps, with an access every such entry admits, is served and level 1 then holds what was served |
| `Answering.ServedAgain` | src/cpu/AlphaCPU.hpp:1996-2058 | a page once served is served again from the page cache, and nothing changes |
| `Answering.LevelTwoKeeps` | src/cpu/AlphaCPU.hpp:774-789 | a fill of another level 2 slot leaves a cached page promotable |
| `Answering.FillTakes` | src/cpu/AlphaCPU.cpp:3194-3260 | a fill replaces the first matching entry or else the round-robin one, the pointer moving on exactly then; the shadow gets 8 KB pages; nothing else changes |
| `Answering.FillFinds` | src/cpu/AlphaCPU.cpp:2755-2843 | after a fill the search returns the new entry for every size, or for a write the last slot a write found if that matches |
| `Answering.FillAnswers` | src/cpu/AlphaCPU.hpp:2041-2057 | so the next access gets the fill's page exactly when the PTE admits it and no stale write hint matches |
| `Answering.BlockAnswers` | src/cpu/AlphaCPU.cpp:3162-3192 | with a granularity hint each page read is as far into the physical block as into the virtual one |
| `Answering.SmallFillAnswers` | src/cpu/AlphaCPU.cpp:3255-3259 | an 8 KB fill serves its PTE's page, and the shadow would serve it again |
| `Answering.WriteServedOther` | src/cpu/AlphaCPU.cpp:3260-3260 | a run in which a write gets another entry's page after a fill |
| `Answering.Ev8FillAnswers` | src/cpu/AlphaCPU_ev8.cpp:367-437 | a native fill serves every page of its block at once, reads and writes |
| `Invalidates.Ev8IsTakes` | src/cpu/AlphaCPU_ev8.cpp:490-507 | DTB_IS takes exactly this group's entries that match the page in this address space and leaves every other entry as it was |
| `Invalidates.Ev8IsForgets` | src/cpu/AlphaCPU_ev8.cpp:490-507 | then the page is not mapped, a lookup misses and an access gets nothing |
| `Invalidates.Ev8IsSpares` | src/cpu/AlphaCPU_ev8.cpp:490-536 | and switched to any other group every access is answered as it would have been |
| `Invalidates.GroupRoundTrip` | src/cpu/AlphaCPU_ev8.cpp:521-536 | a group's entries show exactly while it is current, and switching away and back restores the TB |
| `Invalidates.Ev8ImTakes` | src/cpu/AlphaCPU_ev8.cpp:448-486 | what DTB_IM takes in each mode its documentation names, and when the pointer is reset |
| `Invalidates.Ev8ImForgets` | src/cpu/AlphaCPU_ev8.cpp:462-486 | after modes 00, 01 and 10 nothing answers in this group |
| `Invalidates.TbisDTakes` | src/cpu/AlphaCPU.cpp:3483-3509 | tbis_d takes exactly the matching entries, from the TB and the shadow |
| `Invalidates.TbiapTakes` | src/cpu/AlphaCPU.cpp:3416-3441 | tbiap takes exactly the entries without ASM, from the TB and the shadow, and empties the page cache |
| `Invalidates.TbiapServesShared` | src/cpu/AlphaCPU.cpp:3416-3441 | a page with an ASM entry is still served after it |
| `Invalidates.TbiaForgets` | src/cpu/AlphaCPU.cpp:3377-3405 | after tbia nothing answers |
| `Backing.AnswerIsMapped` | src/cpu/AlphaCPU.hpp:1996-2058 | what a transparent page cache serves is what a matching, admitting entry gives now |
| `Backing.StepTransparent` | src/cpu/AlphaCPU.hpp:1347-1362 | every operation keeps it so, on the native EV8 and without keeping |
| `Backing.RunTransparent` | src/cpu/AlphaCPU.hpp:1347-1362 | over every such run, pages of every size, anything filled: each answer is the page of an entry of the TB or the shadow that matches and admits it at that moment |
| `Backing.ResetTransparent` | src/cpu/AlphaCPU.cpp:788-800 | such runs start at a reset |
| `Freshness.FillFresh` | src/cpu/AlphaCPU.cpp:3194-3290 | a fill makes its translation the current one everywhere and leaves every other page's alone |
| `Freshness.AccessFresh` | src/cpu/AlphaCPU.hpp:1996-2058 | an access served by any layer gets the current translation under a PTE that admits it |
| `Freshness.CurrentServed` | src/cpu/AlphaCPU.hpp:1996-2058 | the current translation of a page the TB or the shadow has is served to every access it admits |
| `Freshness.FillServed` | src/cpu/AlphaCPU.cpp:3194-3290 | a disciplined fill is served at once, to reads and writes |
| `Freshness.TbisDFresh` | src/cpu/AlphaCPU.cpp:3483-3509 | an invalidate leaves nothing stale |
| `Freshness.TbiapFresh` | src/cpu/AlphaCPU.cpp:3416-3441 | so does tbiap, which keeps ASM translations |
| `Freshness.RunServesLatest` | src/cpu/AlphaCPU.cpp:3158-3290 | over every run of 8 KB fills with one ASM setting per page between invalidates, whatever layer answers serves the physical page filled last for the page and ASN and not invalidated since; and it does answer while the TB or the shadow has the page |
| `Freshness.ResetFresh` | src/cpu/AlphaCPU.cpp:788-800 | such runs start at a reset |
| `DataPath.Processor.constructor` | src/cpu/AlphaCPU.cpp:788-800 | a new path satisfies the invariant |
| `DataPath.Processor.DtbStillMaps` | src/cpu/AlphaCPU.cpp:3135-3156 | the loops refine dtb_still_maps' specification |
| `DataPath.Processor.DropUnmappedPage` | src/cpu/AlphaCPU.hpp:1359-1362 | refines its specification |
| `DataPath.Processor.AddTranslation` | src/cpu/AlphaCPU.cpp:3158-3290 | add_tb over the arrays refines the fill of the runs |
| `DataPath.Processor.RefillFromShadow` | src/cpu/AlphaCPU.cpp:2850-2870 | refines the refill, hit and miss |
| `DataPath.Processor.FindEntry` | src/cpu/AlphaCPU.cpp:2755-2843 | refines the data lookup |
| `DataPath.Processor.InvalidateSingleD` | src/cpu/AlphaCPU.cpp:3483-3509 | tbis_d's loop refines its specification |
| `DataPath.Processor.InvalidateSingle` | src/cpu/AlphaCPU.cpp:3449-3466 | tbis, both ports' spaces |
| `DataPath.Processor.InvalidateProcess` | src/cpu/AlphaCPU.cpp:3416-3441 | tbiap |
| `DataPath.Processor.InvalidateAll` | src/cpu/AlphaCPU.cpp:3377-3405 | tbia |
| `DataPath.Processor.AddGroupTranslation` | src/cpu/AlphaCPU_ev8.cpp:367-437 | ev8_add_tb |
| `DataPath.Processor.InvalidateMultiple` | src/cpu/AlphaCPU_ev8.cpp:462-486 | DTB_IM |
| `DataPath.Processor.InvalidateSelected` | src/cpu/AlphaCPU_ev8.cpp:490-507 | DTB_IS |
| `DataPath.Processor.SetGroup` | src/cpu/AlphaCPU_ev8.cpp:521-536 | ev8_set_group |
| `DataPath.Processor.ClearGroups` | src/cpu/AlphaCPU_ev8.cpp:538-545 | ev8_tb_clear |
| `DataPath.Processor.Translate` | src/cpu/AlphaCPU.hpp:1996-2058 | level 1, promotion, TB, shadow and fill refine one access of the runs |
| `PalRuns.TableEnables` | firmware/ev8/layout.h:208-214 | the IPL table enables each external level exactly below its IPL |
| `PalRuns.DoEoiEnds` | firmware/ev8/pal.c:807-835 | do_eoi ends the ID in service, once, at its port |
| `PalRuns.EoiAddressTellsPort` | firmware/ev8/pal.c:807-835 | two IDs share an EOI address only on the same port of the same element |
| `PalRuns.VectorDecodes` | firmware/ev8/pal.c:684-711 | the vector decodes to the element and the ID's low bits |
| `PalRuns.QueueOnlyWhenIdle` | firmware/ev8/pal.c:684-698 | the queue is read only with nothing in service: no ID is overwritten |
| `PalRuns.PostKeeps` | firmware/ev8/pal.c:741-788 | post keeps the invariant, its halts included |
| `PalRuns.InterruptKeeps` | firmware/ev8/pal.c:610-730 | interrupt dispatch keeps it in every branch |
| `PalRuns.InterruptRaisesIpl` | firmware/ev8/pal.c:610-730 | an interrupt that reaches the system raises the IPL; the others change nothing or halt at IPL 7 |
| `PalRuns.RtiKeeps` | firmware/ev8/pal.c:1234-1279 | rti keeps it whatever frame it pops |
| `PalRuns.RetSysKeeps` | firmware/ev8/pal.c:1292-1315 | retsys keeps it |
| `PalRuns.SwpIplKeeps` | firmware/ev8/pal.c:1207-1225 | swpipl keeps it |
| `PalRuns.HaltKeeps` | firmware/ev8/pal.c:848-921 | a halt from any state ends what is in service and leaves IPL 7 with nothing enabled |
| `PalRuns.StepKeeps` | firmware/ev8/pal.c:741-782 | at every exit from PALmode IER_CM is the table's entry for PS, user mode exactly with PS bit 3, and an ID in service implies IPL 4 or above |
| `PalRuns.RunKeeps` | firmware/ev8/pal.c:684-715 | so over every run of interrupts, faults, calls, returns, halts, starts and arbitrary program steps; the saved kernel stack pointer stays aligned |
| `PalRuns.EveryInterruptEndedOnce` | firmware/ev8/pal.c:684-715 | over every run from reset each dequeued ID gets exactly one end-of-interrupt write, in order, at its own address; below IPL 4 none is outstanding |
| `PalFrames.RtiUndoesPost` | firmware/ev8/pal.c:741-782 | post then rti is the identity on PS, IER_CM, PC, GP, a0 to a2, SP and the kernel stack pointer, from either mode at any IPL |
| `PalFrames.PushedIsFramed` | firmware/ev8/pal.c:753-763 | the six quadwords do not overlap, wrap-around included |
| `PalFrames.WorkLeaves` | firmware/ev8/pal.c:1234-1279 | a handler of any nesting depth leaves its stack above its frame alone |
| `PalFrames.HandledReturnsToContext` | firmware/ev8/pal.c:1234-1279 | the interrupted program finds its context again, from either mode, through any nesting of handlers, which may write anywhere but their stack above their frame |
| `PalFrames.HaltRecordsUserSp` | firmware/ev8/pal.c:848-866 | over every operation from every state a run reaches: one that halts leaves the user's stack pointer in the HWPCB if and only if it was not on the kernel's stack with PS saying user mode, or the two are equal; there it leaves the kernel's |
| `PalFrames.PostHaltLosesUserSp` | firmware/ev8/pal.c:741-788 | a run from reset to such a halt in post |
| `PalFrames.RtiHaltLosesUserSp` | firmware/ev8/pal.c:1242-1273 | a run from reset to such a halt in rti |
| `PalEntries.EntersWhereTold` | firmware/ev8/pal.c:741-788 | over every run from reset a fault, callsys or dispatched interrupt enters the system at the address last written by wrent for its kind, with GP the last wrkgp, a0 to a2 its arguments and the IPL its own; or halts; or is dismissed and changes nothing |
| `PalEntries.InterruptEnters` | firmware/ev8/pal.c:610-730 | which source an interrupt serves, its arguments and its IPL, by the IPL and the pending bits |
| `PalEntries.PostEnters` | firmware/ev8/pal.c:764-782 | the state post leaves by the selector's entry and IPL |
| `PalEntries.HaltLeadsTo` | firmware/ev8/pal.c:848-921 | a halt leaves processor 0 at the console with its reason and any other parked, nothing enabled; rti and retsys halt for the kernel stack only |
| `PalEntries.StartResumesStacks` | firmware/ev8/pal.c:373-486 | a parked processor started with the context its halt recorded has its stack pointers again |
| `PalEntries.RetSysUndoesCallSys` | firmware/ev8/pal.c:1292-1315 | callsys then retsys gives the caller its PC, GP, stack pointer and mode, and the kernel its stack pointer |
| `PalEntries.SwpIplTwice` | firmware/ev8/pal.c:1207-1225 | swpipl returns the IPL there was and, given it back, restores IPL and enables |
| `PalEntries.EoiAddressFields` | firmware/ev8/pal.c:807-835 | the end of interrupt is written to EOI_DAT of the port and element in the ID |
| `PalEntries.AcknowledgesServed` | firmware/ev8/pal.c:610-730 | the bit cleared in R_INT_STAT is set, this TPU's and the served source's |
| `PalFlows.Processor.constructor` | firmware/ev8/pal.c:237-275 | the reset state satisfies the invariant |
| `PalFlows.Processor.EndInterrupt` | firmware/ev8/pal.c:807-835 | do_eoi step by step refines its specification |
| `PalFlows.Processor.HaltPath` | firmware/ev8/pal.c:848-921 | halt_path |
| `PalFlows.Processor.PushFrame` | firmware/ev8/pal.c:753-763 | post's stores in order, up to one that does not translate |
| `PalFlows.Processor.Enter` | firmware/ev8/pal.c:741-788 | post |
| `PalFlows.Processor.CallSystem` | firmware/ev8/pal.c:1498-1518 | callsys from either mode |
| `PalFlows.Processor.TakeInterrupt` | firmware/ev8/pal.c:610-730 | the dispatch, and what it writes to R_INT_STAT: the bit of the source served |
| `PalFlows.Processor.WriteEntry` | firmware/ev8/pal.c:1055-1063 | wrent, numbers above 5 ignored |
| `PalFlows.Processor.SwapIpl` | firmware/ev8/pal.c:1207-1225 | swpipl |
| `PalFlows.Processor.TakePs` | firmware/ev8/pal.c:1247-1268 | rti's stack pointers, PS and end of interrupt, before its last loads |
| `PalFlows.Processor.ReturnFromInterrupt` | firmware/ev8/pal.c:1234-1287 | rti, with a halt at each load |
| `PalFlows.Processor.ReturnFromSystem` | firmware/ev8/pal.c:1292-1315 | retsys |
| `PalFlows.Processor.WaitForInterrupt` | firmware/ev8/pal.c:1466-1493 | wtint leaves with the IPL's own enables |
| `PalWalk.VaFormSplits` | src/cpu/AlphaCPU_ev8.cpp:184-198 | VA_FORM is the base, the page of PTEs and the PTE's place, for every 43-bit address |
| `PalWalk.VptbDecides` | src/cpu/AlphaCPU_ev8.cpp:210-229 | whether the virtual page table is translated by the TB depends on its base alone |
| `PalWalk.KnownBases` | firmware/ev8/layout.h:238-239 | the two bases in use are |
| `PalWalk.PteFields` | firmware/ev8/pal.c:526-565 | the PTE's bits the flow reads, and 8^hint pages to a block |
| `PalWalk.FrontIs` | src/cpu/AlphaCPU_ev8.cpp:210-229 | the two superpages and the sign-extended addresses beside them by their bounds |
| `PalWalk.FieldByShifts` | firmware/ev8/pal.c:533-535 | the shift pair cuts out the index field |
| `PalWalk.DoubleMiss` | firmware/ev8/pal.c:526-565 | the double miss's shifts and loads reach the level 2 PTE of the walk, or its MMCSR |
| `PalWalk.WalksSamePage` | firmware/ev8/pal.c:518-546 | walking the PTE's address is walking the address that missed |
| `PalWalk.FlowRefinesWalk` | firmware/ev8/pal.c:120-143 | over every run of misses and evictions from an empty DTB each miss finds what the direct walk finds, if and only if the level 2 PTEs are consistent |
| `PalWalk.MissAnswers` | firmware/ev8/pal.c:526-597 | then a miss loads the level 3 PTE exactly when all levels are usable, else enters entMM with ACV, TNV or FOE exactly as they say, and never halts |
| `PalWalk.PlainTablesConsistent` | firmware/ev8/pal.c:518-526 | tables whose level 2 PTEs map single pages the kernel may read are consistent |
| `PalWalk.HintMisleads` | src/cpu/AlphaCPU_ev8.cpp:379-383 | a granularity hint in a level 2 PTE that makes a run go wrong |
| `Vector.VerdictUnique` | src/cpu/AlphaCPU_vector.cpp:538-588 | the check has exactly one outcome: the lowest active faulting element, of its kind, or none |
| `Vector.AddressSteps` | src/cpu/AlphaCPU_vector.cpp:557-561 | a strided access starts at Rb and steps by vs modulo 2^64; a gather's address less Rb is its index |
| `Vector.DoneIs` | src/cpu/AlphaCPU_vector.cpp:549-588 | an instruction goes through exactly when every active element is on a quadword boundary and kept or translated |
| `Vector.HigherElementWins` | src/cpu/AlphaCPU_vector.cpp:589-605 | at each address the highest active element that writes it wins; elsewhere memory is unchanged |
| `Vector.Unit.CheckElements` | src/cpu/AlphaCPU_vector.cpp:549-588 | the check loop gives that outcome and keeps every translation it passed |
| `Vector.Unit.StoreElements` | src/cpu/AlphaCPU_vector.cpp:594-600 | stores in element order |
| `Vector.Unit.LoadElements` | src/cpu/AlphaCPU_vector.cpp:600-604 | active elements loaded, inactive ones and other registers unchanged |
| `Vector.Unit.Execute` | src/cpu/AlphaCPU_vector.cpp:538-605 | all or nothing: on a fault memory and registers are unchanged; else every access at addresses computed before any (so a gather may overwrite its index) |
| `Vector.FaultAdvances` | src/cpu/AlphaCPU_vector.cpp:549-588 | after a fault whose element then translates, the next fault is later and fewer elements lack a kept translation, whatever else the TB forgot |
| `Vector.ForwardProgress` | src/cpu/AlphaCPU_vector.cpp:549-588 | over any attempts at most one translation fault per active element, so at most vl |
| `Vector.Unit.ExecuteToEnd` | src/cpu/AlphaCPU_vector.cpp:538-605 | executed again after each miss, whatever else the TB forgets, the instruction ends within one attempt more than its active elements; only then do memory or registers change, by the whole instruction, each element where the TB put it in one of the attempts or the record had it at first |
| `CycleCounter.Clock.SyncWallClock` | src/cpu/AlphaCPU.hpp:449-479 | the update refines the specification, 64-bit arithmetic |
| `CycleCounter.Clock.Rpcc` | src/cpu/AlphaCPU.hpp:484-492 | the read refines it and returns the counter's low half under the offset |
| `CycleCounter.BillFits` | src/cpu/AlphaCPU.hpp:466-468 | no 64-bit overflow for a guest clock under 2^32 Hz |
| `CycleCounter.FitsExactly` | src/cpu/AlphaCPU.hpp:466-468 | and for host clocks up to 2^32 Hz no faster guest clock is safe |
| `CycleCounter.ReadExact` | src/cpu/AlphaCPU.hpp:484-492 | a read exceeds the last and lends at most one cycle |
| `CycleCounter.RepaysFirst` | src/cpu/AlphaCPU.hpp:466-478 | what was lent is repaid first: while any is owed the counter stands, and when it moves it shows exactly what was billed |
| `CycleCounter.RunExact` | src/cpu/AlphaCPU.hpp:441-492 | over every run (cc - borrow) * 2^32 + remainder advances by exactly billed ticks times the rate, cc never falls, reads rise, borrow grows by at most the reads |
| `CycleCounter.BilledWithinElapsed` | src/cpu/AlphaCPU.hpp:441-460 | no host time is billed twice, whatever lag, limit and stalls |
| `CycleCounter.NoTimeLost` | src/cpu/AlphaCPU.hpp:441-479 | nor is any lost: over every run without stalls the counter is billed up to the last instant lag and limit let it reach, and in steps within a second all of it |
| `CycleCounter.ElapsedIsBilled` | src/cpu/AlphaCPU.hpp:441-479 | with no lag and no limit exactly the elapsed ticks are billed, less exactly the stalls left out |
| `CycleCounter.LongStepCapped` | src/cpu/AlphaCPU.hpp:461-465 | a step longer than a second is billed a second |
| `CycleCounter.DisabledStands` | src/cpu/AlphaCPU.hpp:460-478 | a counter that is not enabled stands still |
| `CycleCounter.TruncationLoss` | src/cpu/AlphaCPU.hpp:416-419 | over every run the billed cycles fall short by under one part in 2^32 if and only if the rate's remainder is less than the guest frequency, which tickHz <= cpuHz ensures |
| `CycleCounter.LosesMore` | src/cpu/AlphaCPU.hpp:416-419 | at 466 MHz on a nanosecond clock it loses more than two |
| `IrqTimers.DeviceStepKeeps` | src/cpu/AlphaCPU.hpp:2106-2150 | every atomic step of irq_h on any thread keeps the invariant |
| `IrqTimers.CpuStepKeeps` | src/cpu/AlphaCPU.hpp:2089-2104 | so does every step of count_down_irq, of the poll and of QUIESCE's poll |
| `IrqTimers.CountdownNeverRevives` | src/cpu/AlphaCPU.hpp:2089-2104 | the processor never raises a timer's value; a raise follows its own exchange to zero |
| `IrqTimers.NoTimerForgotten` | src/cpu/AlphaCPU.cpp:1574-1585 | under every interleaving each countdown raise consumes one armed delay, and a running timer has check_timers set or a thread with a step to come that sets it or deals with the line |
| `IrqTimers.PollCounts` | src/cpu/AlphaCPU.cpp:1574-1585 | with the devices at rest one poll lowers every running timer by the step and raises exactly the lines that reach zero |
| `IrqTimers.FiresOnTime` | src/cpu/AlphaCPU.hpp:2089-2104 | so after n polls a line has delay - n * step left or has been raised, once: a delay left alone fires in the poll that reaches it |
| `IrqTimers.CallAlone` | src/cpu/AlphaCPU.hpp:2106-2150 | irq_h with no other thread between: raises an inactive line, or arms its timer and rings; a release clears both and rings exactly if another timer runs; nothing else |
| `IrqTimers.DelayedLineRises` | src/cpu/AlphaCPU.hpp:2089-2120 | a delayed assertion raises its line after the polls that reach the delay and not before, once |
| `IrqTimers.CancelledStaysDown` | src/cpu/AlphaCPU.hpp:2138-2150 | a release before that leaves the line down however many polls follow |
| `Quiesce.WakerStepKeeps` | src/cpu/AlphaCPU.hpp:274-279 | every step of every waker keeps the invariant |
| `Quiesce.SleeperStepKeeps` | src/cpu/AlphaCPU.cpp:697-754 | every step of the sleeper does |
| `Quiesce.NoLostWakeUp` | src/cpu/AlphaCPU.cpp:697-754 | in no reachable state does the sleeper wait with its flag clear or an enabled interrupt raised while no waker has its notify to make |
| `QuiesceDelays.NoDelayedWakeUpLost` | src/cpu/AlphaCPU.cpp:707-722 | nor with check_timers set, over every run in which no rescan sets it behind the sleeper's look |
| `QuiesceDelays.UnheardRingIsLost` | src/cpu/AlphaCPU.hpp:2144-2148 | such a rescan with no other notify coming, left to the sleeper, loses the wake-up if and only if a timer runs and the sleeper is past its other reasons not to wait |
| `QuiesceDelays.ReleaseSafe` | src/cpu/AlphaCPU.hpp:2138-2149 | a release beside no other timer, or beside an interrupt that stays raised, loses nothing in any run |
| `QuiesceDelays.ReleaseLosesExactly` | src/cpu/AlphaCPU.hpp:2138-2149 | a release can lose a delayed interrupt's wake-up if and only if another line's timer keeps running and no interrupt stays raised |
| `QuiesceDelays.DelayedWakeUpLost` | src/cpu/AlphaCPU.hpp:2144-2148 | a run from the start to a sleeper waiting beside a running timer with nobody to wake it |
| `QuiesceWakes.WokenDecides` | src/cpu/AlphaCPU.cpp:697-754 | a notified sleeper leaves exactly when its flag is clear, an interrupt is raised or a timer it was rung for runs; else it waits again |
| `QuiesceWakes.QuiesceDecides` | src/cpu/AlphaCPU.cpp:697-754 | a QUIESCE that begins with such a cause does not sleep |
| `QuiesceWakes.NotifyArrives` | src/cpu/AlphaCPU.hpp:274-279 | a notify still to come gets through, whoever holds the mutex |
| `QuiesceWakes.WakeUpArrives` | src/cpu/AlphaCPU.cpp:697-754 | so over every run a sleeper waiting with its flag clear or an interrupt raised is taken out of QUIESCE by steps of the threads alone |
| `RootEstimate.IntegerRoot` | src/cpu/AlphaCPU_paired.cpp:251-256 | the correcting loops give the integer square root from any guess |
| `RootEstimate.RootInRange` | src/cpu/AlphaCPU_paired.cpp:244-248 | the root has 15 bits at the parity's scale but for the smallest significand at 53 |
| `RootEstimate.ScaledRoot` | src/cpu/AlphaCPU_paired.cpp:248-260 | at most two rounds; q squared times m is at most 2^G and (q + 1) squared times m above it |
| `RootEstimate.Estimate` | src/cpu/AlphaCPU_paired.cpp:240-263 | for every positive normal single the result is 1/sqrt(x) chopped to 14 fraction bits, exponent in range |
| `RootEstimate.ChoppedUnique` | src/cpu/AlphaCPU_paired.cpp:244-247 | there is only one such result, so the guess does not matter |

## Left out

- Backing.RunTransparent: not claimed with kept pages on the earlier processors, where dtb_still_maps compares the page and address space but not the physical page; Freshness covers those runs.
- QuiesceWakes.WakeUpArrives: that the scheduler does run those steps is not part of the model.
- Superpage translations as a source of page-cache fills, and the code that flushes on their enables.
- Page-cache slots are filled only after a successful TB lookup that the access checks admit; PALcode's unchecked accesses look up but do not fill.
- The instruction TB's callers: it is the same search, index and sweeps, without a shadow or a page cache.
- Freshness.RunServesLatest: not claimed for pages with both an ASM and a non-ASM translation, or for overlapping page sizes, without an invalidate between; several entries then match and only the coverage and answering results hold, and without keeping the transparency results.
- TbSearch.FindUnique: with several matches the search may return another matching slot than the scan does.
- A processor is either a native EV8 or another row for a whole run: add_tb's removal of a replaced entry compares the whole match mask, so the two kinds of entry are not mixed.
- Denormal operands of the IEEE routines, whose result the code calls UNPREDICTABLE; they are read as zero or trap in ieee_unpack.
- IEEE multiply, divide, square root and compare, the conversions between S and T, and the VAX formats.
- The delivery of arithmetic traps and FPCR's sticky bits; the model returns the exceptions themselves.
- PALcode scratch registers at a halt (a0 to a2 in rti and post), the halt's PC and its message and slot record.
- CALL_PALs that touch none of the modelled state; swpctx appears as the stack pointers it loads, any values.
- R_INT_STAT and the interrupt queue of a chip are inputs of each interrupt: the other TPUs' use of them is arbitrary.
- PalWalk: one address space and one page table for a run; misses for addresses inside the virtual page table itself; 52-bit addresses and 64 KB pages.
- Vector: side effects of device registers among the elements, and the store-conditional note; what the TB answers for each element is an input.
- CycleCounter.RunExact: for runs that stay within 64 bits of cycles; the interval timer's lag and limit are inputs.
- Quiesce: the timeout and the millisecond slice are a wait that may end at any time; a stop request is the watch flag it clears.
- IrqTimers: the page-cache flush request that shares check_timers.
- Weak memory ordering: atomics are sequentially consistent steps.
- The JIT emitter and compiled code, instruction decode, save and restore, tracing and reports, devices and system buses.
