# cropstun: a verified model

A Dafny model of the parts of cropstun where a mistake is silent: the loader that maps a DLL without the
system's help, the shutdown of the Wintun device, the change-notification handlers, the pooled buffers
and gather writes, the Linux policy rules, and the Windows socket-address encoding. Every statement below
holds for all inputs, or for every run of a state machine whose steps are the atomic actions of the code.

`dafny verify dfyconfig.toml` checks the whole project.

| files | what they model |
|---|---|
| Bits, Words | bit operations on natural numbers, little-endian words, byte ranges of an image |
| Thumb, Relocation, RelocationMeaning, RelocationTable | base relocation, with the MOVW/MOVT pairs of ARM (DDI 0406C, sections A8.8.102 and A8.8.106) |
| Layout | the layout check, the copying of sections, truncated addresses |
| Imports, ImportsMeaning, ImportTable | binding the imports in place, and what every slot then holds |
| LoadedImage | layout check, copy, relocation, imports and protections on one image |
| PageGroups, PageGroupsMeaning, PageSafety, PageRights, SectionRights | merging sections into page groups, protections, decommitting, and what each page is left with |
| Loader | address reservations and library references of a load, on every exit |
| WintunShutdown, WintunCalls | close flag, wait group, event and session end, interleaved with readers and writers |
| ChangeHandler, CallbackCalls, Notifications | the Register/Unregister/notify protocol that three handlers share |
| Pool, PoolOwnership, ByteQueue, Buffers, Gather, BufferOwnership | size classes, array ownership, the windowed buffer as a byte queue, gather writes, and the steps of the ownership machine that the buffers take |
| PolicyRules, PolicyMeaning, PolicyTable, PolicyTeardown | the rule lists, what they decide, setting them up and taking them down |
| SockAddr | socket addresses and prefixes in the 28-byte union |

Where the code falls short of what its comments or its purpose suggest, the model keeps the code and the
project proves exactly when it does what is wanted:

- A MOVW/MOVT pair is patched iff constant + delta (unsigned) fits in 32 bits, so an image that moves down
  is refused for exactly the pairs whose new address would be valid (`Thumb.DownwardMoveExact`).
- HIGH entries drop the carry: relocating there and back restores the image iff no HIGH entry meets a
  delta that is not a multiple of 64 KiB (`RelocationMeaning.RoundTripExact`, with an image that does not come
  back in `RelocationMeaning.HighDoesNotComeBack`).
- The check of a section against the file size adds two 32-bit numbers in 32 bits: below 4 GiB an accepted
  range lies in the file iff the sum has not wrapped (`Layout.RawDataCheckExact`, with a range far outside a
  small file in `Layout.WrappedRangeAccepted`), and the copy reads outside the file exactly when it gets to
  such a section (`Layout.LeavesFileExactly`).
- An alignment of zero passes the layout check for every image, with no room for any section
  (`Layout.CheckLayout`).
- Giving back a discardable group is safe iff system pages are no larger than SectionAlignment
  (`PageSafety.DecommitSafetyExact`), and every needed section ends with the rights of its group under the
  same condition (`PageRights.FinalRightsExact`); on larger pages a later call can take away the right to read
  (`PageRights.PairClashes`).
- The entry of a module in the list of loaded address ranges is never removed; a failed load leaves one
  behind iff it stops at the hook or in the DLL entry (`Loader.LoadLibrary`, `Loader.EntryLeftBehind`).
- The wake-up of Close is never lost iff at most one reader is inside at a time
  (`WintunShutdown.WakeUpSafetyExact`).
- A callback that unregisters itself, or that calls Register or Unregister while it is being unregistered,
  may wait for ever. This is the only way to get stuck: in every reachable state something can go on or a
  callback is in such a circular wait (`ChangeHandler.ProgressOrCircularWait`), and who is in one stays
  there (`ChangeHandler.NeverReturns`). The comment that a callback registered twice is silently accepted does not
  apply: every Register call makes a new callback.
- Put panics for powers of two below 64, and Release panics for a buffer made with a negative size
  (`Pool.PutExact`, `PoolOwnership.NegativeSizePanics`).
- The promise that no more than half of an array goes unused holds for exactly the sizes from 32 on: smaller
  ones get 64 bytes as well (`Pool.HalfWastedAtMost`).
- ReadFrom reports zero bytes, although they are in the buffer, iff the reader's answers fill the free space
  while the reader is still open (`ByteQueue.ShortExactly`, `Buffers.Buffer.ReadFrom`).
- The IPv6 rules for the device's own addresses never decide anything: packets from lo with a source have
  jumped over them (`PolicyMeaning.Decide6`).
- Without automatic routing, a table with an IPv6 rule of priority one makes the device take priority zero,
  and taking it down deletes the rule of priority zero that is there, the one for local addresses, and
  leaves the device's own; the exact condition is `PolicyTeardown.InTheWay` (`PolicyTeardown.OwnRoundTrip`,
  with such a table in `PolicyTeardown.LocalRuleLost`).
- SetAddrPort says that all other members are set to zero; for IPv4 the last twelve bytes keep their value
  (`SockAddr.LayoutParts`).

## Model

| member | source | states |
|---|---|---|
| Thumb.ImmediateCodec | internal/wintun/memmod/memmod_windows.go:279-305 | the scattered 16-bit immediate decodes to what was encoded, and encoding touches no opcode or register bit |
| Thumb.OpcodesExactly | internal/wintun/memmod/memmod_windows.go:281-300 | the masks recognise MOVW and MOVT by exactly their opcode bits (ARM DDI 0406C, sections A8.8.102 and A8.8.106) |
| Thumb.OwnImmediate | internal/wintun/memmod/memmod_windows.go:279-305 | writing an instruction's own immediate back changes nothing |
| Thumb.HalvesCarry | internal/wintun/memmod/memmod_windows.go:289-305 | the two 16-bit halves with carry are the 32-bit sum |
| Thumb.PairExact | internal/wintun/memmod/memmod_windows.go:279-308 | a valid pair is patched iff constant + delta fits in 32 bits; it then loads exactly the sum, keeps opcode and Rd, and MOVT changes only if its half does |
| Thumb.DownwardMoveExact | internal/wintun/memmod/memmod_windows.go:279-308 | for a move down by k the patch succeeds iff the constant is below k, the opposite of what is wanted |
| Thumb.DownwardMoveRefused | internal/wintun/memmod/memmod_windows.go:279-308 | a concrete pair with a representable result that is refused |
| Relocation.SameTable | internal/wintun/memmod/memmod_windows.go:249-316 | the block table reads the same in an image that agrees on the table's bytes |
| Relocation.RelocateBlock | internal/wintun/memmod/memmod_windows.go:256-313 | one block, in place, equals the patches of its entries in order, with the same failure; the second word of a Thumb pair is not touched unless something is added to it |
| Relocation.RelocateBlocks | internal/wintun/memmod/memmod_windows.go:249-316 | the walk over the variable-length blocks terminates and equals applying the whole parsed table |
| Relocation.PerformBaseRelocation | internal/wintun/memmod/memmod_windows.go:242-319 | the in-place relocation equals applying the parsed table to the old image; with an empty directory nothing happens and it succeeds iff delta is zero |
| RelocationTable.TableReadsBack | internal/wintun/memmod/memmod_windows.go:248-260 | every list of blocks that can be written (page, kinds, 12-bit offsets, an odd byte at the end) is read back as its entries, each at page + offset, in order, with the table ending behind the zero word |
| RelocationTable.EntryApplied | internal/wintun/memmod/memmod_windows.go:248-313 | after a successful pass the 2, 4 or 8 little-endian bytes at page + offset of every entry that was written have grown by their share of delta; kinds other than 0, 1, 2, 3, 7 and 10 do not succeed |
| RelocationTable.ThumbTouches | internal/wintun/memmod/memmod_windows.go:279-303 | a Thumb entry touches eight bytes iff delta reaches above 16 bits or the low halves carry, and four otherwise |
| RelocationTable.NothingTouched | internal/wintun/memmod/memmod_windows.go:258-312 | padding and unknown kinds touch no byte; padding succeeds and the others do not |
| RelocationMeaning.OtherBytesUnchanged | internal/wintun/memmod/memmod_windows.go:256-313 | bytes outside all patched fields keep their value, also on failure |
| RelocationMeaning.EachFieldPatched | internal/wintun/memmod/memmod_windows.go:256-313 | with pairwise disjoint sites every field is patched once, independently of all others |
| RelocationMeaning.AddressesFollowTheBase | internal/wintun/memmod/memmod_windows.go:262-277 | every DIR64 field keeps its offset from the image base mod 2^64, every HIGHLOW and LOW field mod its width |
| Thumb.LoneMovwExact | internal/wintun/memmod/memmod_windows.go:279-308 | a MOVW in front of anything but a MOVT is patched iff its half does not overflow, and the other word is left alone |
| RelocationMeaning.ThumbPairsFollowTheBase | internal/wintun/memmod/memmod_windows.go:279-308 | in a relocated image every MOVW/MOVT pair whose high half changes loads its old constant plus delta, with the same opcodes and registers |
| RelocationMeaning.MovwFollowsTheBase | internal/wintun/memmod/memmod_windows.go:279-305 | a MOVW that does not carry grows by delta alone, whatever follows it and also at the very end of the image; with an unchanged MOVT behind it the pair loads its old constant plus delta |
| RelocationMeaning.ResolvedPatchIsSame | internal/wintun/memmod/memmod_windows.go:279-308 | where there is room for the second word, leaving it out makes no difference |
| RelocationMeaning.TableApplies | internal/wintun/memmod/memmod_windows.go:249-316 | for entries that do not overlap, deciding what each touches before the pass or just before its patch gives the same image |
| RelocationMeaning.PlainSucceeds | internal/wintun/memmod/memmod_windows.go:256-313 | tables of ABSOLUTE, LOW, HIGH, HIGHLOW and DIR64 entries never fail |
| RelocationMeaning.FieldRoundTrip | internal/wintun/memmod/memmod_windows.go:262-277 | one field comes back after delta and -delta iff it is not HIGH or delta is a multiple of 64 KiB |
| RelocationMeaning.RoundTripExact | internal/wintun/memmod/memmod_windows.go:242-319 | relocating by -delta afterwards restores the image byte for byte iff no HIGH entry meets an unaligned delta |
| RelocationMeaning.HighDoesNotComeBack | internal/wintun/memmod/memmod_windows.go:262-277 | two bytes under one HIGH entry that a delta of 1 and its opposite do not restore |
| RelocationMeaning.RelocateThereAndBack | internal/wintun/memmod/memmod_windows.go:242-319 | the same for whole images: the relocated image parses to the same table, and the second pass undoes the first |
| RelocationMeaning.ThumbNeverComesBack | internal/wintun/memmod/memmod_windows.go:279-308 | a Thumb pair moved successfully by a delta that is not a multiple of 2^32 is refused on the way back |
| Layout.AlignUpExact | internal/wintun/memmod/memmod_windows.go:684-690 | for any alignment alignUp is at least the value iff the value is zero, or the alignment is not zero and the sum does not wrap |
| Layout.AlignUpIs | internal/wintun/memmod/memmod_windows.go:688-690 | for a power of two alignUp is the smallest multiple at or above the value, and zero if the sum wraps |
| Layout.AlignDownIs | internal/wintun/memmod/memmod_windows.go:684-686 | for a power of two alignDown is the largest multiple not above the value |
| Layout.CheckLayout | internal/wintun/memmod/memmod_windows.go:478-499 | for a power of two the check accepts exactly when sizeOfImage and the last section end take the same number of alignment units, and the image then has that many; in general, when both aligned sizes agree; every section target then lies inside the image iff the alignment is not zero or there is nothing to place |
| Layout.LastEndIs | internal/wintun/memmod/memmod_windows.go:481-495 | the last end is the largest virtualAddress + sizeOfRawData, or + SectionAlignment for sections without data |
| Layout.RawDataCheckExact | internal/wintun/memmod/memmod_windows.go:78 | below 4 GiB every range inside the file is accepted, an accepted range lies inside iff the 32-bit sum has not wrapped, and a refused one ends behind the file also after wrapping |
| Layout.WrappedRangeAccepted | internal/wintun/memmod/memmod_windows.go:78 | a range that starts behind the end of the file and is accepted |
| Layout.StatusIsFirstFailure | internal/wintun/memmod/memmod_windows.go:50-101 | the copy ends the way the first section that is not copied does |
| Layout.LeavesFileExactly | internal/wintun/memmod/memmod_windows.go:78-95 | the copy reads outside the file iff it gets to a committed section whose range is accepted and leaves the file, which below 4 GiB takes a wrapped sum |
| Layout.CopyOneHeader | internal/wintun/memmod/memmod_windows.go:55-97 | one copied section: its bytes or zeros are at its virtual address, what was read lay in the file, and only the union field of its header has changed, to the truncated address |
| Layout.SectionByte | internal/wintun/memmod/memmod_windows.go:55-95 | byte k of a section is byte pointerToRawData + k of the file, or zero for one alignment unit |
| Layout.CopySections | internal/wintun/memmod/memmod_windows.go:50-101 | the in-place loop equals copying the sections in order up to the first failure |
| Layout.OtherBytesKept | internal/wintun/memmod/memmod_windows.go:50-101 | bytes outside every target keep their value, whether or not the copy succeeds |
| Layout.SectionsInPlace | internal/wintun/memmod/memmod_windows.go:50-101 | after a successful copy into disjoint targets every section's raw bytes, or SectionAlignment zeros, are at its virtual address, and its header holds the truncated address |
| Layout.HeadersBefore | internal/wintun/memmod/memmod_windows.go:50-101 | headers already dealt with are not touched again |
| Layout.RebuiltExactly | internal/wintun/memmod/memmod_windows_64.go:16-18 | a truncated address OR-ed with the high half of the base is the address iff both lie in one 4 GiB block |
| Layout.SectionAddressRebuilt | internal/wintun/memmod/memmod_windows.go:68-97 | for a base that does not straddle, every stored section address is rebuilt exactly iff the section is empty or page aligned, otherwise to its page |
| LoadedImage.LoadImage | internal/wintun/memmod/memmod_windows.go:478-583 | layout check, copy, relocation, imports and finalisation on one image: unless a stage fails, each section byte outside the patched fields and the slots is the file's, each patched field follows the base, each slot has its function's address, and the calls are those for the true addresses; which stage fails, and which libraries are referenced then, is stated exactly |
| Imports.SameImports | internal/wintun/memmod/memmod_windows.go:327-358 | descriptors, names and thunks read the same in an image that has changed only where none of them lies |
| Imports.BindLibrary | internal/wintun/memmod/memmod_windows.go:334-355 | one library, in place: the slots become the addresses of the functions that the untouched table names, up to a zero for the first that is missing, also where the table is overwritten while it is read |
| Imports.BindImports | internal/wintun/memmod/memmod_windows.go:321-361 | the whole loop, in place, equals binding the table as it was before; with an empty directory nothing happens |
| ImportTable.NameIsWhatLies | internal/wintun/memmod/memmod_windows.go:330-348 | a name is what lies in the image up to the first zero byte |
| ImportTable.ImportsReadBack | internal/wintun/memmod/memmod_windows.go:327-348 | whatever import tables are written, by number or by name, with a hint table or without, the loader reads the libraries and functions that were meant, in order |
| ImportTable.SlotsAsWritten | internal/wintun/memmod/memmod_windows.go:327-356 | after binding, the eight bytes of the slot for every function that was written are its address in the library that was written |
| ImportsMeaning.BindsExactly | internal/wintun/memmod/memmod_windows.go:321-361 | it succeeds iff every library is there with all its functions; the handles kept are those before the first that is not |
| ImportsMeaning.OutsideSlotsKept | internal/wintun/memmod/memmod_windows.go:343-355 | bytes outside all slots keep their value, whether or not it succeeds |
| ImportsMeaning.EverySlotBound | internal/wintun/memmod/memmod_windows.go:343-355 | after success every slot of every library holds the non-zero address of the function its thunk named |
| ImportsMeaning.NamesOutsideSuffice | internal/wintun/memmod/memmod_windows.go:335-342 | with the names outside the slots, it is safe to read the thunks from the slots themselves or from a hint table apart from them |
| ImportsMeaning.AgreesWithLoad | internal/wintun/memmod/memmod_windows.go:321-361 | binding succeeds exactly when the resource model of the load counts the imports as found |
| LoadedImage.FieldsFollowTheBase | internal/wintun/memmod/memmod_windows.go:242-319 | after the relocation every address field and every Thumb pair follows the base |
| LoadedImage.SectionsThroughStages | internal/wintun/memmod/memmod_windows.go:50-319 | through copy and relocation every section byte that no fixup covers is the file's |
| LoadedImage.FinalisedFromTrueAddresses | internal/wintun/memmod/memmod_windows.go:176-213 | the addresses finalizeSections rebuilds from the copied headers are the true ones, for all sections, iff each section with data starts on a page |
| LoadedImage.AddressRebuilt | internal/wintun/memmod/memmod_windows_64.go:16-21 | for the base of a load that succeeded every address inside the image is rebuilt from its lower 32 bits |
| PageGroups.FinalizeSections | internal/wintun/memmod/memmod_windows.go:176-220 | the in-place loop reads each union field before overwriting it: its calls are those for the groups of the original addresses, and the fields become the section sizes |
| PageGroupsMeaning.CombineBit | internal/wintun/memmod/memmod_windows.go:196-200 | merging two flag words ORs every bit, except that DISCARDABLE survives only if both have it |
| PageGroupsMeaning.GroupsCorrect | internal/wintun/memmod/memmod_windows.go:176-220 | for ascending sections the groups partition them in order, each range is that of its members, flags are the union, DISCARDABLE iff all have it, and no two groups share an alignment page |
| PageGroupsMeaning.SharingIsByPage | internal/wintun/memmod/memmod_windows.go:192-194 | for ascending sections the loop merges exactly when the next section starts on the page of the group's last address |
| PageGroupsMeaning.GroupsCutBetweenPages | internal/wintun/memmod/memmod_windows.go:176-220 | groups are as small as possible: neighbours inside a group share a page, groups are cut only between pages |
| PageSafety.DecommitsSafe | internal/wintun/memmod/memmod_windows.go:130-139 | with system pages no larger than the alignment no decommitted page holds a byte of a section that is still needed |
| PageSafety.PairIsLost | internal/wintun/memmod/memmod_windows.go:130-139 | two sections that lose a needed byte when system pages are larger |
| PageSafety.DecommitSafetyExact | internal/wintun/memmod/memmod_windows.go:130-139 | decommitting is safe for all section lists iff the system page is no larger than SectionAlignment |
| PageSafety.ProtectionGrants | internal/wintun/memmod/memmod_windows.go:141-155 | the protection table grants execute, write and read exactly as the flags ask, read being implied by write |
| PageSafety.NeededSectionsProtected | internal/wintun/memmod/memmod_windows.go:125-220 | after success one of the calls covers every needed section and grants exactly the union of its group's rights |
| SectionRights.SizeIsMemorySize | internal/wintun/memmod/memmod_windows.go:102-114 | the size of a section in memory, from its header fields and flag values |
| SectionRights.ProtectionIs | internal/wintun/memmod/memmod_windows.go:141-155 | the number given to the system for each combination of the write, read, execute and not-cached flags |
| SectionRights.SectionProtected | internal/wintun/memmod/memmod_windows.go:125-220 | for ascending sections one call covers [imageBase + virtualAddress, + size) of every section with bytes that is not discardable, with the protection number of the flags of its group |
| SectionRights.GivenBackExactly | internal/wintun/memmod/memmod_windows.go:130-139 | exactly the groups of discardable sections that start on an alignment unit, and end on one or are the last, are given back, each as a whole |
| PageRights.FinalRightsExact | internal/wintun/memmod/memmod_windows.go:125-220 | after all calls of a successful pass the last one to touch a system page of a needed section has set exactly the rights of the section's group, for all section lists, iff the system page is no larger than SectionAlignment |
| PageRights.PairClashes | internal/wintun/memmod/memmod_windows.go:125-220 | on larger pages, a readable section whose page cannot be read in the end, because the call for the section behind it comes last |
| Loader.DifferentBoundaries | internal/wintun/memmod/memmod_windows_64.go:21 | straddling reservations that do not overlap hold different multiples of 2^32 |
| Loader.StraddlesExactly | internal/wintun/memmod/memmod_windows_64.go:21 | a reservation is rejected iff a multiple of 2^32 lies behind its base and not behind its end, that is iff base and end differ in their upper 32 bits |
| Loader.OneBoundaryLess | internal/wintun/memmod/memmod_windows_64.go:20-36 | each rejected reservation makes the set of unblocked boundaries strictly smaller |
| Loader.SettleStep | internal/wintun/memmod/memmod_windows_64.go:20-36 | one turn of the retry: accepted, refused, or one boundary less for the rest |
| Loader.Module.Reserve | internal/wintun/memmod/memmod_windows.go:509-524 | the base is the first of two offers that fits, and the module owns it |
| Loader.Module.Check4GBBoundaries | internal/wintun/memmod/memmod_windows_64.go:20-36 | the retry loop terminates for every allocator; the base is the first offer whose upper 32 bits hold for the whole image, every rejected one crosses a multiple of 2^32 and stays owned, and a good first base is kept |
| Loader.Module.BuildImportTable | internal/wintun/memmod/memmod_windows.go:321-361 | it succeeds iff every library and function is found, and on every exit the module owns exactly the references that are still open |
| Loader.Module.FreeBlocked | internal/wintun/memmod/memmod_windows.go:24-28 | every reservation of the list is released once |
| Loader.Module.Free | internal/wintun/memmod/memmod_windows.go:623-644 | releases exactly what the module owns; called again it releases nothing |
| Loader.LoadLibrary | internal/wintun/memmod/memmod_windows.go:458-620 | the load succeeds iff no stage stops it, given all answers of the system; on failure no reservation and no library reference remains, on success the module owns exactly the new ones and base and end agree in their upper 32 bits; a range entry is added iff the load gets as far as the hook |
| Loader.SucceedsExactly | internal/wintun/memmod/memmod_windows.go:458-620 | a load succeeds iff it finds its place and every stage that can fail does not |
| Loader.EntryLeftBehind | internal/wintun/memmod/memmod_windows.go:458-620 | a load in which only the DLL entry fails, and which leaves its range entry behind |
| WintunShutdown.InvStep | tun_windows.go:392-501 | every step of readers, writers, driver and Close keeps the wait count exact and keeps late callers out of the rings |
| WintunShutdown.NoRingOpAfterWait | tun_windows.go:392-501 | in every run no ring operation follows the return of the wait or the end of the session, even for calls that enter later |
| WintunShutdown.EndSessionOnceAndEmptyHanded | tun_windows.go:485-491 | the session ends at most once, with no packet held |
| WintunCalls.StepsInOrder | tun_windows.go:392-478 | in every run the steps of each call follow each other as in the program: a packet received is released next, one allocated is sent next, a wait is followed by a new test, and a call returns only after the flag, a packet or an error |
| WintunCalls.ReaderTests | tun_windows.go:392-419 | a reader tests the flag twice after it has begun or been woken, and once before every further try |
| WintunCalls.CloseInOrder | tun_windows.go:485-491 | Close stores the flag, sets the event, waits for everyone and ends the session, in this order |
| WintunShutdown.NoLostWakeUp | tun_windows.go:392-419 | with one reader, whenever Close has signalled and the reader is at the wait, the event is set |
| WintunShutdown.TwoReadersLoseTheWakeUp | tun_windows.go:392-491 | a reachable state with two readers in which Close has signalled, one reader waits, and nothing has to wake it |
| WintunShutdown.WakeUpSafetyExact | tun_windows.go:392-491 | in all runs with at most r readers inside at once, whoever waits after the signal finds the event set, iff r is at most one |
| WintunShutdown.InFlightCanMove | tun_windows.go:392-491 | after the signal every call in flight has a step it can take |
| WintunShutdown.CallStepDropsWork | tun_windows.go:392-478 | each step of a call after the flag is set decreases the remaining work, and no other step but a new call changes it |
| WintunShutdown.CloseGetsPastTheWait | tun_windows.go:485-491 | in every fair run with one reader, once new calls stop coming, Close gets past running.Wait |
| ChangeHandler.InvStep | internal/winipcfg/interface_change_handler.go:30-88 | every step keeps lock ownership, map membership, wait counts, silence after the wait and handle consistency |
| ChangeHandler.WaitCountsInvocations | internal/winipcfg/interface_change_handler.go:78-84 | in every reachable state a callback's wait count is the number of its started and unfinished invocations |
| ChangeHandler.UnregisterIsFinal | internal/winipcfg/route_change_handler.go:54-74 | in every run, once Unregister has returned, with or without an error, no invocation of the callback runs or is ever started |
| ChangeHandler.OneRegistration | internal/winipcfg/unicast_address_change_handler.go:30-74 | at most one registration is live; outside Register's critical section a non-empty map has it and the handle names it |
| ChangeHandler.HandleZeroIffEmpty | internal/winipcfg/interface_change_handler.go:30-74 | between operations the handle is zero iff the map is empty, unless a cancel has failed |
| ChangeHandler.ProgressOrCircularWait | internal/winipcfg/interface_change_handler.go:30-88 | in every reachable state with anything under way, whatever callbacks call, some step is possible or a callback waits for an Unregister that waits for it |
| ChangeHandler.NoDeadlock | internal/winipcfg/interface_change_handler.go:30-88 | its special case: if callbacks call neither function, some step is always possible |
| ChangeHandler.CancelLeavesMapFree | internal/winipcfg/interface_change_handler.go:58-66 | a pending cancel holds the outer mutex, and no call holds the one a notification needs |
| CallbackCalls.StepsInOrder | internal/winipcfg/interface_change_handler.go:30-74 | in every run the steps of each Register and Unregister call follow each other as in the program, with the branches taken exactly when the handle was zero or the last callback went |
| CallbackCalls.DeletionDecides | internal/winipcfg/interface_change_handler.go:58-61 | the registration is to be given up iff the deletion empties the map while there is a handle |
| CallbackCalls.OutcomeKept | internal/winipcfg/interface_change_handler.go:41-74 | a call fails iff the system refused something; a refused registration leaves no callback behind |
| ChangeHandler.NeverReturns | internal/winipcfg/interface_change_handler.go:54-63 | an Unregister that waits for an invocation which waits for it, or for a call blocked behind it, never returns |
| ChangeHandler.DeadlocksAreReachable | internal/winipcfg/interface_change_handler.go:30-88 | both such states are reachable: unregistering oneself, and registering while being unregistered |
| Notifications.NotifiesEachOnce | internal/winipcfg/interface_change_handler.go:76-88 | in every run a delivered notification has started exactly one invocation of each callback that was in the map when it took the mutex, and none of any other |
| Notifications.SpawnStartsInvocation | internal/winipcfg/interface_change_handler.go:79-84 | each start is a new unfinished invocation, counted by the callback's wait group |
| Pool.GetIsBestFit | common/buf/alloc.go:45-60 | Get serves sizes 1 to 65536 from the smallest class that fits; above 64 the class is under twice the size |
| Pool.ClassSizes | common/buf/alloc.go:14-40 | the eleven sizes, from 64 to 65536 |
| Pool.HalfWastedAtMost | common/buf/alloc.go:23-60 | at most half of the array goes unused iff the size is at least 32 |
| Pool.PutExact | common/buf/alloc.go:90-127 | Put files an array iff its capacity is one of the eleven sizes, and panics iff it is a smaller power of two |
| Pool.PutUndoesGet | common/buf/alloc.go:45-127 | Put returns an array to the class Get took it from |
| PoolOwnership.OneOwner | common/buf/buffer.go:26-71 | in every run with non-negative sizes nothing panics, and an array is pooled once, or held by one managed buffer, or neither |
| PoolOwnership.ReleaseGivesBack | common/buf/buffer.go:283-292 | in every run Release puts the array into the list of its own size and empties the buffer, or does nothing |
| PoolOwnership.ReleaseIsIdempotent | common/buf/buffer.go:283-292 | releasing twice is releasing once |
| PoolOwnership.NegativeSizePanics | common/buf/buffer.go:42-56 | releasing a new buffer panics iff it was made with a negative size |
| BufferOwnership.TrackedNewSize | common/buf/buffer.go:42-56 | on the objects, NewSize is the ownership machine's step of that name for every integer size, and keeps its invariant unless the size is negative |
| BufferOwnership.TrackedRelease | common/buf/buffer.go:283-292 | Release is the machine's step and keeps its invariant; that the array is not pooled already is a consequence of it |
| BufferOwnership.TrackedToOwned | common/buf/buffer.go:350-357 | ToOwned is the machine's step and keeps its invariant; its array is that of the buffer copied only if that one is a foreign slice of a pooled array |
| BufferOwnership.Run | common/buf/buffer.go:26-71 | whatever sequence of calls a program makes on a new pool, beside any foreign arrays and with any aliasing, the objects go through a run of the ownership machine |
| BufferOwnership.HeldApart | common/buf/buffer.go:26-71 | in every state of the machine's invariant the managed buffers hold pairwise different arrays, none of them pooled |
| BufferOwnership.ListIsOwned | common/buf/buffer.go:26-71 | what gather writes need of their lists follows for every list of tracked buffers |
| ByteQueue.FirstInFirstOut | common/buf/buffer.go:99-238 | over every run of writes and reads, what came out followed by what is left is what was there followed by what went in, and no more goes in than there was room for |
| ByteQueue.AsMuchAsPossible | common/buf/buffer.go:99-238 | bytes are left out only if the room is then used up, fewer come out than asked for only if nothing is left, and an exact number comes out whole or not at all |
| ByteQueue.ShortExactly | common/buf/buffer.go:168-184 | reading stops short iff the reader's answers fill the free space while it is still open; then every byte of it is filled |
| Buffers.Allocator.Get | common/buf/alloc.go:45-88 | the array is new or leaves the pool, and has the class's size |
| Buffers.Allocator.Put | common/buf/alloc.go:90-127 | the array enters the pool exactly when its size is one of the pool's |
| Buffers.Buffer.Write | common/buf/buffer.go:99-109 | appends the longest prefix that fits and changes nothing else; short iff there is something to write and no room |
| Buffers.Buffer.WriteByte | common/buf/buffer.go:119-126 | appends the byte, or reports a full buffer |
| Buffers.Buffer.Extend | common/buf/buffer.go:81-89 | the contents grow by the next n bytes of the array iff the capacity allows it |
| Buffers.Buffer.ExtendHeader | common/buf/buffer.go:111-117 | the contents grow at the front iff there is that much in front |
| Buffers.Buffer.Read | common/buf/buffer.go:231-238 | hands out exactly the oldest unread bytes |
| Buffers.Buffer.ReadByte | common/buf/buffer.go:211-219 | hands out the oldest byte, or end of file for an empty buffer |
| Buffers.Buffer.ReadBytes | common/buf/buffer.go:221-229 | hands out exactly n of the oldest bytes, or nothing |
| Buffers.Buffer.Advance | common/buf/buffer.go:91-93 | drops n bytes from the front |
| Buffers.Buffer.Truncate | common/buf/buffer.go:95-97 | keeps the first n bytes |
| Buffers.Buffer.Resize | common/buf/buffer.go:245-248 | the contents are the given range of the array |
| Buffers.Buffer.Reserve | common/buf/buffer.go:250-255 | takes n from the capacity; OverCap gives it back |
| Buffers.Buffer.OverCap | common/buf/buffer.go:257-262 | gives capacity back, up to the length of the array |
| Buffers.Buffer.Reset | common/buf/buffer.go:264-268 | an empty buffer with the room of the whole array |
| Buffers.Buffer.ReadOnceFrom | common/buf/buffer.go:128-135 | appends what one read delivers |
| Buffers.Buffer.ReadFrom | common/buf/buffer.go:168-184 | appends exactly the bytes delivered until the reader or the space ends; the count is zero iff it is the space, which a condition on the reader and the room decides |
| Buffers.Buffer.Release | common/buf/buffer.go:283-292 | gives the array back and empties the buffer iff it is managed and not referenced |
| Buffers.NewSize | common/buf/buffer.go:42-56 | an empty buffer with the asked room, managed iff the size is not zero and at most 65535; a negative size gives a managed buffer without an array |
| Buffers.ToOwned | common/buf/buffer.go:350-357 | the same window and contents, in an array of its own unless the one copied lies in the pool |
| Gather.LenMulti | common/buf/multi.go:5-11 | the length of the concatenated contents |
| Gather.CopyMulti | common/buf/multi.go:19-25 | the front of the target becomes as much of the concatenated contents as fits, the rest stays |
| Gather.ToSliceMulti | common/buf/multi.go:13-17 | the slices concatenate to the contents |
| Gather.ReleaseMulti | common/buf/multi.go:27-31 | exactly the arrays of managed unreferenced buffers are in the pool afterwards, each buffer handled once even if listed twice |
| Gather.WriteVectorised | common/bufio/vectorised.go:44-62 | the bytes written upstream are the contents before any release, on either side of 65535 and whatever the scratch array held; then the list is released |
| Gather.WriteSlices | common/bufio/vectorised.go:84-96 | the bytes written are the given arrays one after the other, and the count is theirs on success |
| Gather.Write | tun_windows.go:451-478 | the packet sent is the concatenation of the elements; a full ring drops it without an error, and the count is always zero |
| Gather.TunWriteVectorised | tun_windows.go:480-483 | a packet is sent iff the device is open and has room, it is the contents before any release, and the list is released in every case |
| PolicyRules.AutoRules | tun_linux.go:231-394 | whatever the address lists, each family's rules are emitted in the given order with the given priorities |
| PolicyMeaning.Decide4 | tun_linux.go:254-331 | the exact decision of the IPv4 list for every packet, address list and main table, and what it passes on |
| PolicyMeaning.Promise4 | tun_linux.go:254-331 | a packet from the tun for elsewhere, or from a local socket with a foreign source, is not sent into the tun; one from another interface is, iff main has no specific route or the port is 53 |
| PolicyMeaning.Decide6 | tun_linux.go:273-381 | the exact decision of the IPv6 list, in which the device's own addresses play no part |
| PolicyTable.AutoListInRange | tun_linux.go:246-394 | all priorities lie in [start, start+10] |
| PolicyTable.PrioritiesExactly | tun_linux.go:246-394 | the priority of every rule of both families |
| PolicyTable.JumpsLeadForward | tun_linux.go:251-394 | every goto leads to a later rule of its family with a larger priority |
| PolicyTable.AddedBetween | tun_linux.go:410-418 | ascending rules added to a table end up together, in order, between the smaller and the larger priorities |
| PolicyTable.DecideInTwo | tun_linux.go:251-394 | any list of rules, jumps included, decides as its first part and what it leaves to the second |
| PolicyTable.InstalledDecision | tun_linux.go:217-418 | for every packet, both families and any other rules, jumps included: after setting up, the rules below the range decide first, what falls through them gets the verdict of the device's rules alone, and the rest goes on to the rules above |
| PolicyTable.InstalledChange | tun_linux.go:217-418 | if no rule jumps into the range, the decision changes for exactly the packets that fall through the rules below it, and the device's verdict comes first for them |
| PolicyTable.OnStockRules | tun_linux.go:217-418 | between Linux's own rules: local addresses, then the device's verdict, then the main table, and the default table for IPv4 |
| PolicyTeardown.StartAutoRules | tun_linux.go:152-160 | starting on any sorted table clears the range and adds the rules: on success every packet is decided as above, on failure only the range has changed, and it is empty |
| PolicyTeardown.RuleTable.SetRules | tun_linux.go:410-418 | all rules are added in order iff none is refused, otherwise those before the first refused one |
| PolicyTeardown.RuleTable.UnsetAutoRules | tun_linux.go:451-468 | no deletion fails, and exactly the rules in the range are gone |
| PolicyTeardown.RuleTable.UnsetOwnRules | tun_linux.go:438-449 | one IPv6 rule is deleted for every noted priority, up to the first that is missing; the notes are dropped on success |
| PolicyTeardown.RuleTable.NextIndex6 | tun_linux.go:201-215 | one below the smallest positive IPv6 priority, noted for later |
| PolicyTeardown.DeleteOne | tun_linux.go:457-467 | deleting by family and priority removes that key once and nothing outside the range |
| PolicyTeardown.AutoRoundTrip | tun_linux.go:410-471 | setting up, completely or not, and taking down restores the table rule for rule iff it had nothing in the range |
| PolicyTeardown.DeleteUndoesAdd | tun_linux.go:440-443 | deleting takes back the added rule iff no other is reached first, which otherwise goes in its place |
| PolicyTeardown.LocalRuleLost | tun_linux.go:201-228 | a table with IPv6 rules of priorities zero and one loses the first and keeps the device's own instead |
| PolicyTeardown.OwnRuleDecides | tun_linux.go:218-228 | the rule set without automatic routing sends exactly the packets bound to the device into the tun table |
| PolicyTeardown.OwnRoundTrip | tun_linux.go:218-228 | without automatic routing the table is restored iff there is no IPv6 address, or it could be listed and no rule is in the way; a rule in the way is deleted instead, and the device's own stays |
| SockAddr.NtohsOfHtons | internal/winipcfg/types.go:742-750 | the stored port bytes are big-endian, and come back |
| SockAddr.ZoneRoundTrip | internal/winipcfg/types.go:770-776 | a zone survives iff it is empty or a canonical non-zero decimal 32-bit number |
| SockAddr.LayoutParts | internal/winipcfg/types.go:752-780 | where each member lies, and which bytes of an IPv4 union stay as they were |
| SockAddr.AddrPortRoundTrip | internal/winipcfg/types.go:752-818 | address and port come back whatever the union held, iff the zone is empty or canonical |
| SockAddr.AnyUnion | internal/winipcfg/types.go:788-818 | what any 28 bytes are taken for: family 2 and 23 by their first two bytes, the port big-endian behind them, everything else no address |
| SockAddr.RawSockaddrInet.SetAddrPort | internal/winipcfg/types.go:752-780 | the bytes after writing member by member; an invalid address changes nothing |
| SockAddr.IPAddressPrefix.SetPrefix | internal/winipcfg/types.go:898-917 | every prefix with a valid address reads back as itself; an invalid one changes nothing |
| SockAddr.PrefixBits | internal/winipcfg/types.go:908-917 | a prefix is valid up to 32 or 128 bits and has no zone |

## Left out

- Well-formedness the loader takes for granted is assumed: every relocation block has SizeOfBlock of at least 8, the table ends with a zero VirtualAddress and lies in the image, patched sites lie in the image and outside the table, and there is at least one section.
- SectionAlignment is a power of two in the grouping theorems, because the code only checks that it is even; the layout check and the copy are proved without that.
- LoadedImage.LoadImage: a SectionAlignment of zero is excluded, because the reservation of zero bytes it asks for fails; sections with overlapping targets are excluded too.
- The headers of a loaded image are modelled as a list of section headers beside the image bytes, so a section that overlaps its own headers is not captured.
- In `Loader.LoadLibrary` the outcome of header checks, copying, relocation, finalisation, the hook and the DLL entry are inputs; what the stages do to the image is `LoadedImage.LoadImage`, and for the imports `ImportsMeaning.AgreesWithLoad` ties the two together.
- Imports.BindImports: the tables are inside the image, and no slot is written before the last thing in it has been read; what the system answers is an arbitrary function of the call number, the handle and the name.
- Layout.CopySections: what a copy that leaves the file reads, or whether it faults, is left open; the model stops there.
- Exception tables, thread-local storage callbacks, export names, the hook of RtlPcToFileHeader and the DLL entry call are foreign code or patches of it.
- The 32-bit variants of the loader differ in constants and are not modelled.
- The Wintun rings, the event and the session are steps of a state machine; what ReceivePacket and its companions do is not part of this model.
- ReadPacket's release function runs after its call has left the wait group and may come after the end of the session; the ring guarantee does not cover it.
- Whether a reader spins or waits when the ring is empty is left open, so the rate estimate does not matter.
- The rule of Go's wait groups against adding while a wait is returning is not checked.
- NativeTun.Write with a single slice is the gather write with one element, except for the count it returns.
- The zero-copy writers over net.Buffers and system calls hand the slices to the runtime or the system.
- Buffers.Buffer.ReadOnceFrom: ReadPacketFrom, ReadAtLeastFrom and ReadFullFrom, which differ in error reporting only, are not modelled.
- Buffers.Buffer.Advance: as for Truncate, Resize and Reserve, arguments that leave the window are excluded, because the code does not check them.
- PoolOwnership.OneOwner: sizes are non-negative; the other case is `PoolOwnership.NegativeSizePanics`. Buffers are not used from several goroutines at once.
- PolicyTeardown.OwnRoundTrip: no rule of the device's own is in the table yet. With no positive IPv6 priority the code passes -1, which the netlink library does not send on: the kernel's choice is an input, and the deletion then takes the first IPv6 rule.
- PolicyTeardown.AutoRoundTrip: a negative start of the range would not be sent on either; it is taken as an ordinary priority.
- PolicyMeaning.Decide4: the tun table holds only the default route, the device's name is neither "lo" nor empty, and the routes of all other tables enter as the length of the best one for the packet. Selectors of other programs' rules that the device's rules do not use are numbers a packet meets or not.
- PolicyTable.InstalledDecision: nothing else is in the device's range when its rules are added; `PolicyTeardown.StartAutoRules` shows that starting sees to that.
- BufferOwnership.Run: sizes are non-negative, as in `PoolOwnership.OneOwner`.
- BufferOwnership.ListIsOwned: it leaves to the makers of foreign slices that these do not alias pooled arrays.
- Deletions that the kernel refuses for other reasons than a missing rule, and rule tables of other programs that change in between, are not modelled.
- SockAddr.RawSockaddrInet.SetAddrPort: the address types of Go's netip are reduced to their bytes and zone; an IPv4 address mapped into IPv6 is an IPv6 address, as it is there.
- DNS setup, routes, interface configuration, process lookup and the gVisor stack are system calls and plumbing.
