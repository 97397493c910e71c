# Verified model of the compartment manager

This project models the compartment manager of a CHERI (Morello) compartmentalization demo and proves
properties of the model with Dafny 4.11. `dafny verify dfyconfig.toml` checks all of it. Nothing here was
executed, and no part of the original program is linked.

The system loads statically linked ELF files into one address space, gives each a memory range and a
descriptor, and lets them call each other through a small switcher in assembly.

## Main results

* **Call and return** (`SwitchRuns.dfy`). Runs are arbitrary sequences of calls, returns, computation by
  compartments (any change to any register they can reach), and work of the manager. The 96-byte frames
  refine an abstract stack of contexts, and the return matching a call restores the caller.
* **Isolation of suspended compartments** (`Isolation.dfy`). Compartments act with the capabilities they
  hold, one load, store, derivation or mmap() call at a time. Memory of a compartment that waits for a return
  changes only where store capabilities were handed out, shared file mappings aside. This rests on what the
  switcher clears, on disjoint ranges (which follow from what `IsRangeFree` compares), on DDC bounds, and on
  what the mmap() wrapper does.
* **Loading** (`ElfHull.dfy`, `ElfImage.dfy`, `ElfLoader.dfy`, `ElfSearch.dfy`). Accepted segments share no
  page, and memory after `Map` is the System V gABI image.
* **Placement and start-up** (`Placement.dfy`, `InitialStack.dfy`, `StackReader.dfy`, `CompartmentLoader.dfy`,
  `CompartmentManager.dfy`, `Compartments.dfy`). Ranges are partitioned and stay disjoint, libc's view of the
  initial stack inverts its construction, loading succeeds exactly under conditions on the file, the range and
  the stack unless the kernel refuses a mapping that it could grant, and a whole `CompartmentAdd` is a run of the
  switcher's step system that hands over the gABI image and a sound allocator.
* **The allocator inside compartments** (`CompartmentHeap.dfy`), whose two variables lie in memory that its
  own mappings can replace, **enclave arithmetic** (`Enclave.dfy`) and **the session registry**
  (`Sessions.dfy`, `TailQueues.dfy`), over all histories.

The classes (`Cpu`, `AddressSpace`, `StaticElfExecutable`, `StackBuilder`, `Loader`, `Manager`, `Allocator`,
`TailQueue`, `Registry`) follow the source's step-by-step code; each method is proved against a function or
relation on snapshots, about which the lemmas over runs and histories are stated. What these specifications say
of one call is also stated without them, by numbers and raw fields of the input: see the lemmas whose names end
in `Exactly`, `SwitchRuns.CallFrame`, `CompartmentHeap.GrantContents`, `InitialStack.StackWords`,
`Placement.SetUpLayout`, `Compartments.StartsAsLoaded` and `Compartments.FindsWhenEntered`.

## Where the code does less than its documentation says

* The compartment ID is compared as a signed number: ids from 2^63 on pass the check
  (`SwitchRuns.IdCheckExact`).
* `FindSymbol` promises an address inside a segment. An empty or wrapping symbol range need not give one
  (`ElfSearch.PointsIntoSegment`), and at a page boundary the early bail-out can miss a segment that has the
  required protection (`ElfSearch.BailOutExact`). So a compartment's entry point lies in code if its symbol has
  a size (`CompartmentLoader.EntryInCode`), and only then (`ElfSearch.FoundFunctionInCodeExactly`).
* A segment without bytes in the file that starts at a page boundary conforms to the gABI and is accepted, but
  its empty file part cannot be mapped, so loading always fails (`ElfImage.FilePartsExactly`,
  `ElfImage.PureBssNotMapped`). It also fails for a range that does not end at a page boundary, and only
  after the first mappings (`Placement.MapParts`).
* Nothing checks that offset and address of a segment are congruent modulo the page size; otherwise the file's
  bytes are mapped elsewhere than the header says (`ElfImage.CongruentExactly`).
* A failed `ReadProgramHeaders` leaves its segments behind, and a second call on the same object appends to
  them (`ElfLoader.StaticElfExecutable.ReadProgramHeaders`, `ElfLoader.ReadAgain`).
* A compartment's range is inferred from the DDC saved after its initialization. An initialization that
  narrows DDC gives up its range exactly if another reservation fits next to what is left
  (`Placement.ReservationSafeExactly`, `Compartments.NarrowedReservationLost`).
* The stack pointer after initialization is compared with a window below the initial SP, which is never the
  mapped stack (`CompartmentManager.SpWindowExact`).
* A string longer than the stack's address passes the check for overflow, and copying it faults
  (`InitialStack.StackBuilder.SetupCompartmentStack`).
* The mmap() wrapper keeps its window in two variables inside the compartment, and its MAP_FIXED path may map
  over them; two calls then leave DDC (`CompartmentHeap.TwoCallEscape`), and after munmap() the next call
  faults (`CompartmentHeap.UnmappedVariableFaults`). A call keeps the variables exactly if it spares them
  (`CompartmentHeap.FixedKeepsBothExactly`), and calls without MAP_FIXED stay in a range exactly if the
  variables confine them (`CompartmentHeap.ConfinesExactly`).
* `modulo` wraps at 32 bits: over the bases and exponents that the enclave can pass it is right exactly for
  moduli up to 2^16 and divisors of 2^32 (`Enclave.ModuloRightExactly`).
* A session whose truncated id is 0 can never be closed (`Sessions.Registry.Close`). The compartment of a session
  is numbered by its truncated address divided by a million: the number can lie past the descriptor table
  (`Sessions.CompartmentIdValidExactly`), and two sessions can share it (`Sessions.CompartmentsCollideExactly`).

## Assumptions of the model

* Compartments enter the manager only at its two entry points, cannot write its stack or descriptor table,
  and map memory only through the wrappers. They make no other system call, such as `read()`, `mprotect()` or
  `madvise()`, that changes memory or protections of another compartment. README.rst lines 367 and 382 say that
  none of this is enforced. A compartment under initialization makes no compartment calls, changes only its own
  range, and hands back the bounds of the DDC that it was given.
* The contents of shared file mappings, which the wrappers allow, may change at any time; the isolation of a
  suspended compartment covers their protections but not their contents. They hold no capabilities. A file
  that backs a private mapping is not written while it is mapped.
* For isolation, a compartment calls the wrappers with DDC within its own range, and calls without MAP_FIXED
  while its two variables still confine them to it. This is a real assumption: a compartment can overwrite
  the variables, and then map over another one (`CompartmentHeap.ConfinesExactly`).
* "Handed out" counts every store capability that crosses between domains. The manager's own call in
  enclave_manager.cpp line 224 passes a capability that spans its whole DDC, so after it everything counts as
  handed out (`Isolation.BroadArgumentHandsOutAll`).
* ELF files conform to the gABI: offset and address of a segment are congruent modulo the page size, and
  segments, symbols and reserved ranges do not wrap around the address space.
* `CompartmentAdd` is called with an ID below 4094 that is not in use, as its source asks of callers.
* Page sizes are powers of two from 16 bytes to 1 MiB. A refused `mmap()` changes nothing. The kernel refuses an
  empty, unaligned or overflowing mapping for certain, and may refuse any other.

## Model

| member | source | states |
|---|---|---|
| `Switcher.Cpu.CompartmentSwitch` | src/compartment-manager/compartment_manager_asm.S:57-120 | the call path, instruction by instruction, ends in the one-piece specification `Switched`: target compartment installed, 96-byte frame stored, registers cleared, or the process dead, or a descriptor pointer outside the table |
| `Switcher.Cpu.CompartmentSwitchReturn` | src/compartment-manager/compartment_manager_asm.S:122-152 | the return path ends in `Returned`: descriptor updated if the frame holds a pointer, caller's context restored, registers cleared |
| `Switcher.Cpu.ClearAllRegistersExcept` | src/compartment-manager/compartment_manager_asm.S:34-55 | exactly the registers not listed become null |
| `Switcher.Cpu.SaveContext` | src/compartment-manager/compartment_manager_asm.S:92-103 | Restricted bank, CLR and the descriptor pointer (or null) go to their slots of the frame |
| `Switcher.Cpu.RestoreContext` | src/compartment-manager/compartment_manager_asm.S:135-143 | Restricted bank, CLR, FP and SP come back from the frame |
| `Switcher.Cpu.UpdateDescriptor` | src/compartment-manager/compartment_manager_asm.S:127-133 | the descriptor takes the Restricted bank, and keeps its entry point and flag |
| `Switcher.Layout.DescIndexExact` | src/compartment-manager/compartment_manager_asm.S:76-80 | a pointer designates table entry k exactly if it is the address of entry k |
| `SwitchRuns.RunRefines` | src/compartment-manager/compartment_manager_asm.S:57-152 | in every state of every run the frames in memory are the abstract stack of saved contexts, one every 96 bytes, with SP at the newest |
| `SwitchRuns.CallReturn` | src/compartment-manager/compartment_manager_asm.S:57-152 | over every run with arbitrarily nested calls, the return matching a call gives the caller RCSP, RDDC, RCTPIDR, CLR, FP and SP as at the call; only c0 carries a value |
| `SwitchRuns.CalleeSees` | src/compartment-manager/compartment_manager_asm.S:62-70 | the callee gets the six arguments in c0 to c5, its entry capability in c24, and nothing else of the caller's |
| `SwitchRuns.SwitchExactly` | src/compartment-manager/compartment_manager_asm.S:57-90 | a call aborts exactly for ids from 4094 to 2^63 - 1, for absent compartments, and without room for 96 bytes; it leaves the table exactly for ids from 2^63 on that are no alias modulo 2^60; otherwise compartment id mod 2^60 is entered at its entry point |
| `SwitchRuns.CallPointers` | src/compartment-manager/compartment_manager_asm.S:58-60 | a call lowers SP by 96 bytes and points FP 80 bytes above it |
| `SwitchRuns.CallFrame` | src/compartment-manager/compartment_manager_asm.S:92-103 | the frame that a call leaves, granule by granule: Restricted bank and CLR at 0, 16, 32 and 48, descriptor address or 0 at 64, frame record at 80; nothing else on the stack changes |
| `SwitchRuns.ReturnExactly` | src/compartment-manager/compartment_manager_asm.S:122-152 | what a return takes from each granule of such a frame, which descriptor it updates, and when it leaves the table |
| `SwitchRuns.SavedPointerOnlyInInitialization` | src/compartment-manager/compartment_manager_asm.S:99-103 | a saved descriptor pointer is found only in the single frame of an initialization, and points to the descriptor being initialized |
| `SwitchRuns.ReturnEffect` | src/compartment-manager/compartment_manager_asm.S:125-133 | in every reachable state a return succeeds and changes the table exactly when a compartment is being initialized |
| `SwitchRuns.DescriptorFixed` | src/compartment-manager/compartment_manager.cpp:448-452 | outside its own CompartmentAdd a descriptor never changes, whatever calls and returns happen |
| `SwitchRuns.InitializationCaptures` | src/compartment-manager/compartment_manager.cpp:432-438 | calling a compartment under initialization and returning from any state it can reach resumes the manager and captures the Restricted bank in the descriptor |
| `SwitchRuns.IdCheckExact` | src/compartment-manager/compartment_manager_asm.S:72-80 | the signed ID check accepts ids below 4094 and from 2^63 on; which descriptor such an id reaches |
| `SwitchRuns.IdCheckRightBelow` | src/compartment-manager/compartment_manager_asm.S:72-74 | the ID check is right exactly for ids below 2^63 |
| `SwitchRuns.CallReachesCompartment` | src/compartment-manager/compartment_manager_asm.S:72-90 | a valid id of an initialized compartment reaches it, unless the manager's stack is exhausted |
| `Isolation.WorldSafe` | src/compartment-manager/compartment_manager_asm.S:105-120 | in every reachable state nobody holds store authority, in registers, frames, table or memory, beyond its own range and what was handed out |
| `Isolation.SuspendedMemoryKept` | README.rst:78-81 | while a compartment waits for a call to return (and is not re-entered), its memory, with its protections and capabilities, changes at most at handed-out addresses, and in the contents of file pages that were mapped as shared |
| `Isolation.SavedRegistersSurvive` | src/compartment_interface_impl.h:26-39 | registers that the caller saved on its stack, if that is not a shared mapping, are read back unchanged, through the same stack pointer |
| `Isolation.CallSafe` | src/compartment-manager/compartment_manager_asm.S:105-120 | a call passes on no authority but the arguments' |
| `Isolation.ReturnSafe` | src/compartment-manager/compartment_manager_asm.S:125-152 | a return passes on no authority but the result's, and keeps the table in agreement with the ranges if initialization kept the bounds of DDC |
| `Isolation.ComputeSafe` | README.rst:14-18 | one action of a compartment (register work, load, store, a private or shared mmap(), munmap()) keeps the authority invariant, given CHERI monotonicity |
| `Isolation.HandedExactly` | README.rst:78-81 | a step hands out exactly what six arguments, a result, or a capability moved across the bounds of its owner can store to |
| `Isolation.SharedExactly` | src/compartments/compartment_mmap.cpp:61-62 | the pages that count as shared are exactly those last mapped from a file with a request to share |
| `Isolation.StoreExactly` | README.rst:14-18 | a store of data changes exactly its bytes, but for shared contents, and no protection |
| `Isolation.CapabilitiesExactly` | README.rst:14-18 | capabilities in memory survive exactly where nothing is stored and nothing is mapped |
| `Isolation.StorePossible` | README.rst:14-18 | the system admits every store of data that capabilities and page protections allow, with its effect |
| `Isolation.DerivePossible` | README.rst:14-18 | it admits every register value that CHERI monotonicity allows |
| `Isolation.LoadPossible` | README.rst:14-18 | it admits every load of a capability that the capabilities allow |
| `Isolation.CallPossible` | src/compartment-manager/compartment_manager_asm.S:57-120 | it admits every call that the switcher completes |
| `Isolation.MapCallKeeps` | src/compartments/compartment_mmap.cpp:31-70 | a granted mmap() call of one compartment, private or shared, leaves memory (but for contents of shared file pages), protections and capabilities of every other range alone, if its variables confine it |
| `Isolation.NewRangeApart` | src/compartment-manager/compartment_manager.cpp:127-137 | a range that IsRangeFree finds unclaimed is apart from the range of every compartment in the table |
| `Isolation.BroadArgumentHandsOutAll` | src/compartment-manager/enclave_manager.cpp:221-224 | after a call with an argument that can store anywhere, every address counts as handed out for the rest of the run |
| `Ranges.IntersectsMeansShared` | src/utils/elf_util.h:27-29 | on non-empty ranges, Intersects means sharing an address |
| `Ranges.ContainsRangeMeansSubset` | src/utils/elf_util.h:31-33 | Contains means inclusion of addresses, for a non-empty inner range |
| `ElfLoader.StaticElfExecutable.ReadProgramHeaders` | src/utils/elf_util.cpp:74-126 | true exactly if every header is good and no segment meets the hull of its predecessors; then the table (after segments left by an earlier failed call) and both hulls are exact; otherwise exactly the segments before the offending header are left behind |
| `ElfLoader.StaticElfExecutable.Read` | src/utils/elf_util.cpp:207-247 | true exactly if all checks pass; the table is then the file's exactly if it was empty before |
| `ElfLoader.ReadAgain` | src/utils/elf_util.cpp:74-126 | a first Read() that fails on an unreadable header and a second one that succeeds leave a segment in the table twice |
| `CompartmentLoader.FileAcceptedExactly` | src/utils/elf_util.cpp:207-247 | a file is accepted exactly if header and symbols are readable, no header is missing, dynamic, an interpreter, larger in the file than in memory, or larger in memory without being writable, each segment is below or above all earlier ones, the first segment that holds four bytes from the entry point on is executable, and the executable range is not empty |
| `ElfFormat.LoadsSnoc` | src/utils/elf_util.cpp:85-123 | the segment table has one entry for each PT_LOAD header, in order, with the numbers that the header gives |
| `ElfLoader.StaticElfExecutable.MapSegment` | src/utils/elf_util.cpp:256-280 | a mapped segment holds its file bytes and then zeros, and no page of another segment changes; it fails exactly if the file part is empty or the kernel refuses a mapping that it could grant |
| `ElfLoader.StaticElfExecutable.ClearFilePage` | src/utils/elf_util.cpp:261-270 | zeroing the end of the last file page, which is writable whenever it is needed |
| `ElfLoader.StaticElfExecutable.Map` | src/utils/elf_util.cpp:249-284 | on success every segment is imaged at once, despite rounding; true exactly if initialized, no file part is empty, and the kernel refused no mapping that it could grant |
| `ElfHull.HullMeets` | src/utils/elf_util.cpp:111-117 | intersecting the running hull is meeting two earlier segments |
| `ElfHull.HullFreeExactly` | src/utils/elf_util.cpp:108-117 | a table is accepted exactly if each segment lies below all earlier ones or above all of them |
| `ElfHull.HullsTight` | src/utils/elf_util.cpp:118-120 | total and executable range enclose all, and all executable, segments, and begin and end with one of them |
| `ElfHull.HullSnoc` | src/utils/elf_util.h:39-43 | Enlarge keeps the hull exact |
| `ElfHull.LoadsHull` | src/utils/elf_util.cpp:75-119 | a range is the hull of a file's segments exactly if it is what enlarging segment by segment gives |
| `ElfHull.AcceptedPagesDisjoint` | src/utils/elf_util.cpp:111-122 | accepted segments share no page, in whatever order they appear |
| `ElfHull.AscendingAccepted` | src/utils/elf_util.cpp:111-117 | segments in ascending order, as the gABI demands, never meet the hull of their predecessors |
| `ElfImage.AcceptedMayBeMapped` | src/utils/elf_util.cpp:102-122 | what is accepted from a conforming file may be given to Map |
| `ElfImage.MappedIsGabi` | src/utils/elf_util.cpp:249-284 | after Map, memory is the gABI reference image of every PT_LOAD header |
| `ElfImage.FilePartsExactly` | src/utils/elf_util.cpp:256-260 | a conforming file has no empty file part, and so can be mapped, exactly if no PT_LOAD header has p_filesz 0 and a page-aligned offset |
| `ElfImage.PureBssNotMapped` | src/utils/elf_util.cpp:256-260 | code followed by a segment of zeros that starts on a page conforms to the gABI, is accepted, and has an empty file part |
| `ElfImage.PureBssExample` | src/utils/elf_util.cpp:256-260 | for example 4 KiB of code at 16 MiB and 8 KiB of zeros |
| `ElfImage.CongruentExactly` | src/utils/elf_util.cpp:94-126 | mapping the file part puts the bytes of every file where the header says exactly if offset and address are congruent modulo the page size, which is not checked |
| `ElfImage.PhdrImage` | src/utils/elf_util.cpp:343-359 | the address given for AT_PHDR holds the file's program header table |
| `ElfImage.PhdrAddressExactly` | src/utils/elf_util.cpp:343-359 | the address for AT_PHDR, by file offsets: where the first segment that covers the table puts it, and 0 without one |
| `ElfLoader.StaticElfExecutable.GetAuxPhdr` | src/utils/elf_util.cpp:345-359 | the first segment that covers the program headers, or 0 if none does |
| `ElfLoader.StaticElfExecutable.CheckEntryPoint` | src/utils/elf_util.cpp:128-147 | true exactly if the first segment that contains the entry instruction is executable |
| `ElfLoader.StaticElfExecutable.FindSymbol` | src/utils/elf_util.cpp:286-341 | the outcome settled by the first matching global symbol, or null |
| `ElfSearch.BailOutLosesNothing` | src/utils/elf_util.cpp:133-143 | stopping at the first containing segment agrees with an exhaustive search, for every range that ends above the start of its first page |
| `ElfSearch.BailOutExact` | src/utils/elf_util.cpp:318-335 | and for no other range: otherwise two abutting segments make the search miss |
| `ElfSearch.PointsIntoSegment` | src/utils/elf_util.h:64-67 | containment makes the returned address lie in a segment exactly for ranges that are not empty and do not wrap |
| `ElfSearch.StrncmpExact` | src/utils/elf_util.cpp:311-313 | with a NUL-terminated string table the bounded comparison is exact |
| `ElfSearch.MatchesExactly` | src/utils/elf_util.cpp:291-313 | a global symbol matches exactly if it is an object or a function of that name; symbols of other kinds never do |
| `ElfSearch.FindsExactly` | src/utils/elf_util.cpp:286-341 | for a proper name the search answers with the first global object or function of the name, exactly if it has the size and its bytes lie in a segment with the protection |
| `ElfSearch.FoundSymbolIsUsable` | src/utils/elf_util.h:64-72 | a found symbol has the requested size, and all its bytes lie in one segment with the requested protection |
| `ElfSearch.FoundFunctionInCodeExactly` | src/utils/elf_util.cpp:318-335 | a function that is found lies in an executable segment, for every accepted segment table, exactly if its symbol is not empty |
| `Placement.IsRangeFree` | src/compartment-manager/compartment_manager.cpp:116-139 | true exactly if the range is at or below the limit and meets no initialized compartment's DDC range |
| `Placement.ReservationSafeExactly` | src/compartment-manager/compartment_manager.cpp:127-137 | no later reservation can meet a compartment's reservation exactly if its DDC still meets it and no least reservation fits directly below or above the pages of that DDC |
| `Placement.CoveringDdcProtects` | src/compartment-manager/compartment_manager.cpp:127-137 | in particular, DDC bounds that still cover every page of the reservation protect it |
| `Placement.ReservedIsReservable` | src/compartment-manager/compartment_manager.cpp:150-173 | what SetupMappings reserves is whole pages, at least a page, the stack and two guard pages |
| `Placement.SetupMappings` | src/compartment-manager/compartment_manager.cpp:141-186 | succeeds, unless the kernel refuses a mapping that it could grant, exactly if the file was read, the range is free, large enough and ends at a page boundary, and no file part is empty; then hull, window, guard, stack, guard partition the range in that order and hold what they should, and nothing outside changes |
| `Placement.MapParts` | src/compartment-manager/compartment_manager.cpp:159-177 | of a range that is large enough, reservation, segments and stack are mapped exactly if the file was read, the end of the range is page-aligned, no file part is empty, and no mapping is refused that could be granted |
| `Placement.HullInRange` | src/compartment-manager/compartment_manager.cpp:150-157 | the size check leaves room for the rounded hull below the window's top |
| `Placement.RangeFitsExactly` | src/compartment-manager/compartment_manager.cpp:116-157 | a range can be reserved exactly if it ends below the limit and at a page boundary, meets no bounds of a DDC in the table, and takes segments, 1 MiB and two pages |
| `Placement.ReservableExactly` | src/compartment-manager/compartment_manager.cpp:150-157 | the ranges that count as reservable are exactly those that fit some file |
| `Placement.SetUpLayout` | src/compartment-manager/compartment_manager.cpp:159-183 | stack, guard pages, window and reserved memory at their addresses, with their protections |
| `CompartmentManager.SpWindowExact` | src/compartment-manager/compartment_manager.cpp:280-288 | the initial SP is below the stack top, and the accepted SPs are the stack-sized window below it, which never is the mapped stack |
| `CompartmentLoader.Loader.Load` | src/compartment-manager/compartment_manager.cpp:334-381 | loading succeeds, unless the kernel refuses a mapping that it could grant, exactly if the file is accepted, each of the five names is found, no file part is empty, the range is free, large enough and ends at a page boundary, and the stack has room; then image, stack, auxiliary values and variables are as they should be, and each symbol is what the search for its name settles on |
| `CompartmentLoader.Loader.FindSymbols` | src/compartment-manager/compartment_manager.cpp:347-357 | all five special symbols are found exactly if FindSymbol finds each |
| `CompartmentLoader.HasSymbolsExactly` | src/compartment-manager/compartment_manager.cpp:347-357 | all five are found exactly if the file has a function and variables of 16, 16, 8 and 8 bytes of these names, in segments that allow what is wanted |
| `CompartmentLoader.SymbolsFoundExactly` | src/compartment-manager/compartment_manager.cpp:347-357 | each of the five addresses of a compartment is that of its own name |
| `CompartmentLoader.HasRoomExactly` | src/compartment-manager/compartment_manager.cpp:146-157 | there is room exactly if no segment has an empty file part, the range can be reserved, and the initial stack fits in the upper 512 KiB of the stack |
| `CompartmentLoader.LoadedRangeFree` | src/compartment-manager/compartment_manager.cpp:147-157 | a loaded compartment's range was free |
| `CompartmentLoader.Loader.FillMapped` | src/compartment-manager/compartment_manager.cpp:361-374 | the image changes only in the stack's upper half and the two mmap variables, which hold the window; it fails exactly if the stack does not fit |
| `CompartmentLoader.Loader.AuxValuesOf` | src/compartment-manager/compartment_manager.cpp:253-256 | the auxiliary values handed to the stack are the file's and the page size |
| `CompartmentLoader.EnteredIsGabi` | src/compartment-manager/compartment_manager.cpp:159-163 | at its first entry a compartment finds the gABI image of every PT_LOAD header, but for the variables that the manager has set |
| `CompartmentLoader.HeadersFound` | src/compartment-manager/compartment_manager.cpp:245-256 | at the first entry, getauxval(AT_PHDR) read from the initial stack leads to the program header table of the file, byte by byte but for the variables that the manager has set, with AT_PHNUM and AT_PHENT of the file, the page size for AT_PAGESZ, 0 for AT_SECURE and the random bytes for AT_RANDOM |
| `CompartmentLoader.EntryInCode` | src/compartment-manager/compartment_manager.cpp:397-403 | the address of the entry symbol lies in an executable segment and in the bounds of the entry capability, if the symbol is not empty |
| `CompartmentLoader.StartInCode` | src/compartment-manager/compartment_manager.cpp:405-407 | so does the address at which the compartment starts, if the instruction there does not wrap around |
| `CompartmentManager.Manager.LoadArguments` | src/compartment_interface_impl.h:18-31 | ID in c0, arguments in c1 to c6, return address in CLR |
| `CompartmentManager.Manager.EnterCompartment` | src/compartment_interface_impl.h:18-39 | the call reaches the compartment with that id exactly if the manager's stack has room for a frame |
| `CompartmentManager.Manager.LeaveCompartment` | src/compartment-manager/compartment_manager_asm.S:122-152 | the return of an initialization captures the Restricted bank in the descriptor |
| `CompartmentManager.Manager.Initialize` | src/compartment-manager/compartment_manager.cpp:425-438 | calling the compartment is a run of the system from BeginAdd to the return; it fails exactly if the manager's stack has no room |
| `CompartmentManager.Manager.CompartmentAdd` | src/compartment-manager/compartment_manager.cpp:328-463 | says when it succeeds, as Load does and then the launch; then it is a run of the system that ends with the final descriptor and an accepted SP, over memory that held image, stack, window variables and return capability at the first entry, and holds what initialization left in the compartment's range and the call capability at the end |
| `CompartmentManager.InitializationStarts` | src/compartment-manager/compartment_manager.cpp:380-434 | initialization starts at the file's entry address with exactly execute rights over the executable range, exactly load and store rights over the reserved range, the prepared SP and no thread pointer |
| `CompartmentManager.FinalDescriptor` | src/compartment-manager/compartment_manager.cpp:436-452 | the final descriptor: entry symbol with execute rights over the executable range, the bank that initialization left, an SP at most 1 MiB below the prepared one; no other descriptor changes |
| `CompartmentManager.CanLaunchExactly` | src/compartment-manager/compartment_manager.cpp:425-459 | the launch succeeds exactly if the manager's stack has 96 bytes, the SP comes back in its window, and the variable for the call capability is writable |
| `CompartmentManager.FinishedContents` | src/compartment-manager/compartment_manager.cpp:454-459 | afterwards the variable holds the call capability, and every other byte is as initialization left it or as it was |
| `Compartments.StartsAsLoaded` | src/compartment-manager/compartment_manager.cpp:345-452 | from file to capability: a compartment starts at e_entry and is called later at the value of its entry symbol, in bounds that just enclose its executable segments, with data rights from its first segment on |
| `Compartments.FindsWhenEntered` | src/compartment-manager/compartment_manager.cpp:361-377 | at the first entry SP leaves exactly the room for the initial stack, and the variables hold window and return capability |
| `CompartmentManager.AddStaysInReserved` | src/compartment-manager/compartment_manager.cpp:387-392 | an addition whose initialization changes only the reserved range changes no memory outside of it |
| `Compartments.LaunchedHasEffect` | src/compartment-manager/compartment_manager.cpp:425-452 | the contract of CompartmentAdd, as one step of a history, if initialization kept DDC's bounds |
| `Compartments.ReservedRangesDisjoint` | src/compartment-manager/compartment_manager.cpp:116-139 | over any sequence of additions the reserved ranges are pairwise disjoint and at or below the manager's lowest address |
| `Compartments.LoadedMemoryKept` | src/compartment-manager/compartment_manager.cpp:159-177 | over any sequence of additions, whose initializations change only their own ranges, the memory of a loaded compartment stays as its own addition left it |
| `Compartments.FirstHeapSound` | src/compartment-manager/compartment_manager.cpp:374-377 | CompartmentAdd hands the allocator, read from memory, a sound state with the window of SetupMappings over a range without holes, if the file keeps the variables apart |
| `Compartments.GrantsMissEverything` | src/compartment-manager/compartment_manager.cpp:170-183 | over any history of an added compartment that spares the variables, granted mappings miss every segment page, both guard pages and the stack |
| `Compartments.NarrowedReservationLost` | src/compartment-manager/compartment_manager.cpp:127-137 | after an initialization that hands back the first page of its DDC, a second reservation is accepted over the first |
| `Compartments.PlacementServesIsolation` | src/compartment-manager/compartment_manager.cpp:387-434 | the installed descriptor and entry point meet every condition that isolation's steps ask for |
| `Compartments.SoundServesIsolation` | src/compartments/compartment_mmap.cpp:50-69 | in a sound allocator state every call stays within the range, as isolation asks for |
| `InitialStack.StackBuilder.Push` | src/compartment-manager/compartment_manager.cpp:197-205 | a push that fits stores its bytes below SP; one that does not marks an overflow for good; one whose size wraps the check faults |
| `InitialStack.StackBuilder.SetupCompartmentStack` | src/compartment-manager/compartment_manager.cpp:190-278 | true exactly if everything fits in the upper half; then SP is where it should be and the initial stack is complete; writes stay in the upper half in any case; a string longer than the stack's address faults, and none does below the limit |
| `InitialStack.StackBuilder.PushArgv` | src/compartment-manager/compartment_manager.cpp:266-272 | argument pointers end up in order |
| `InitialStack.StackBuilder.PushEnvp` | src/compartment-manager/compartment_manager.cpp:261-264 | environment pointers end up reversed |
| `InitialStack.FinalSpAligned` | src/compartment-manager/compartment_manager.cpp:234-242 | the final SP is 16-byte aligned for any strings |
| `InitialStack.FinalSpExactly` | src/compartment-manager/compartment_manager.cpp:207-277 | the final SP is the greatest multiple of 16 that leaves room for strings, random bytes, seven auxiliary entries, pointers, NULLs and argc |
| `InitialStack.AuxvalsOf` | src/compartment-manager/compartment_manager.cpp:244-256 | getauxval() of the vector, by the numbers of elf.h, for all six kinds; the last entry and no other is AT_NULL |
| `InitialStack.StackWords` | src/compartment-manager/compartment_manager.cpp:190-278 | the initial stack in memory, word by word from SP up |
| `InitialStack.StartedReadsBack` | src/compartment-manager/compartment_manager.cpp:190-278 | a reader of the complete stack recovers argc, the arguments in order, the environment and the auxiliary vector; NUL-free strings exactly |
| `StackReader.LaidOutReadsBack` | src/compartment-manager/compartment_manager.cpp:244-277 | the reference reader inverts the layout |
| `StackReader.CutExact` | src/compartment-manager/compartment_manager.cpp:212-215 | passing a string as a C string loses nothing exactly if it holds no NUL |
| `StackReader.ReadAuxvAt` | src/compartment-manager/compartment_manager.cpp:245-256 | the auxiliary vector is read up to AT_NULL |
| `CompartmentHeap.Allocator.WrapMmap` | src/compartments/compartment_mmap.cpp:31-70 | one step of the allocator in any state, with the variables read from and stored to memory; MAP_FAILED only if the call is out of bounds or out of window, if the mapping is empty, unaligned or too long, or if the kernel refuses what it could grant |
| `CompartmentHeap.Allocator.WrapMunmap` | src/compartments/compartment_mmap.cpp:88-91 | unmapping is a fixed mapping of inaccessible pages |
| `CompartmentHeap.GrantContents` | src/compartments/compartment_mmap.cpp:31-91 | a granted mapping holds what was asked for, byte by byte, with the protection asked for, munmap() leaving zeros without access; nothing else changes but the variable of the top |
| `CompartmentHeap.GrantAddress` | src/compartments/compartment_mmap.cpp:40-67 | with MAP_FIXED the mapping is where it was asked for, otherwise at the target address, which the variable of the top then holds |
| `CompartmentHeap.OutcomesExactly` | src/compartments/compartment_mmap.cpp:31-70 | a failed call changes nothing; unreadable variables always make a call without MAP_FIXED fault, and otherwise only storing the new top does |
| `CompartmentHeap.FixedAcceptedExactly` | src/compartments/compartment_mmap.cpp:40-41 | a MAP_FIXED call is refused for certain exactly if it wraps, is not strictly inside DDC, or is empty, unaligned or too long |
| `CompartmentHeap.BumpAcceptedExactly` | src/compartments/compartment_mmap.cpp:50-62 | one without exactly if it is empty, the top is unaligned, or its pages exceed the top or the window; otherwise they go directly below the top |
| `CompartmentHeap.StepConfined` | src/compartments/compartment_mmap.cpp:31-70 | in a sound state a call touches whole pages inside DDC, leaves no hole and does not fault; the state stays sound if the variables are spared |
| `CompartmentHeap.FixedKeepsBothExactly` | src/compartments/compartment_mmap.cpp:34-43 | a granted MAP_FIXED call keeps both variables exactly if its pages miss them, or are readable and writable and bring the same bytes |
| `CompartmentHeap.TwoCallEscape` | src/compartments/compartment_mmap.cpp:40-67 | otherwise, from every sound state whose variables are not on the first page, a MAP_FIXED call within DDC and a second call map a page outside DDC |
| `CompartmentHeap.UnmappedVariableFaults` | src/compartments/compartment_mmap.cpp:88-91 | after munmap() over a variable, every call without MAP_FIXED faults |
| `CompartmentHeap.ConfinesExactly` | src/compartments/compartment_mmap.cpp:53-59 | calls without MAP_FIXED stay in a range, for every length, exactly if the top is unaligned, there is no room, or the most they can take lies in it |
| `CompartmentHeap.GrantStaysIn` | src/compartments/compartment_mmap.cpp:31-70 | a granted call changes nothing outside of a page-aligned range that encloses DDC and confines the variables |
| `CompartmentHeap.NoHolesNoEscape` | src/compartments/compartment_mmap.cpp:76-86 | over every history of calls that spare the variables, with computation in between, no call faults, the reserved range stays mapped, and nothing outside it is touched |
| `CompartmentHeap.GrantsStacked` | src/compartments/compartment_mmap.cpp:50-69 | over every such history granted mappings are whole pages, pairwise disjoint, never reissued, above the window base's page, and add up to what the top has come down |
| `CompartmentHeap.FixedCheckExact` | src/compartments/compartment_mmap.cpp:34-43 | checking the unrounded length keeps whole pages inside DDC exactly if DDC ends at a page boundary or one byte later |
| `Enclave.ComputeModulo` | src/compartments/enclave.cpp:19-32 | the loop terminates below n for every n > 0, and equals a^b mod n when no product loses information |
| `Enclave.LoopExact` | src/compartments/enclave.cpp:22-31 | without loss, the loop from (x, y, b) gives x * y^b mod n |
| `Enclave.ModuloRightExactly` | src/compartments/enclave.cpp:19-32 | modulo is right for all bases and exponents below 1000, the ones that the enclave can pass, exactly if the modulus is at most 2^16 or divides 2^32 |
| `Enclave.ReducedRightExactly` | src/compartments/enclave.cpp:19-32 | for every reduced base and every exponent, exactly for the same moduli |
| `Enclave.UnreducedRightExactly` | src/compartments/enclave.cpp:19-32 | for bases that are not reduced, exactly if the modulus divides 2^32 |
| `Enclave.MultiplierExact` | src/compartments/enclave.cpp:61-65 | with p1 * q1 up to 2^16 or a divisor of 2^32, c is p1 times (p1^(q1-1) mod q1) |
| `Enclave.MultiplierWraps` | src/compartments/enclave.cpp:61-65 | beyond such moduli it need not be: for p1 = 965, q1 = 69 the wrapping loop gives 8685 and not 965 |
| `Enclave.CommitmentExactly` | src/compartments/enclave.cpp:48-85 | both requests divide by zero exactly if q1 divides p1^(q1-1), always for q1 = 1 and never if p1 is invertible modulo q1 > 1; otherwise decryption returns what was encrypted exactly if its product with c does not wrap |
| `Enclave.EncryptedWraps` | src/compartments/enclave.cpp:71-75 | what encryption returns differs from c times the input by a multiple of 2^32 |
| `Enclave.DecryptUndoesEncryptExactly` | src/compartments/enclave.cpp:71-83 | decryption under the same c returns the input exactly if c times the input stays below 2^32 |
| `TailQueues.TailQueue.InsertTail` | src/compartment-manager/enclave_manager.cpp:81-81 | insertion at the tail of the linked list |
| `TailQueues.TailQueue.Remove` | src/compartment-manager/enclave_manager.cpp:268-270 | removal from the linked list, wherever the entry is |
| `Sessions.Registry.Open` | src/compartment-manager/enclave_manager.cpp:69-122 | a new session and its context are appended to their lists |
| `Sessions.IdsExactly` | src/compartment-manager/enclave_manager.cpp:57-67 | a session below 2^32 has its address as its id; two sessions share an id exactly if they are a multiple of 2^32 apart |
| `Sessions.Registry.Find` | src/compartment-manager/enclave_manager.cpp:57-67 | the first session with the id; null exactly if the id is not live |
| `Sessions.Registry.Get` | src/compartment-manager/enclave_manager.cpp:190-201 | success exactly for live ids |
| `Sessions.Registry.Close` | src/compartment-manager/enclave_manager.cpp:247-273 | removes the session and the context at the same position; refused for id 0 and ids that are not live |
| `Sessions.CompartmentIdExactly` | src/compartment-manager/enclave_manager.cpp:158-160 | the compartment ID is k exactly for truncated addresses in the k-th million |
| `Sessions.CompartmentIdValidExactly` | src/compartment-manager/enclave_manager.cpp:158-160 | the compartment ID made from a session's address is below 4094 exactly if the truncated address is below 4094 million; it never is more than 4294 |
| `Sessions.CompartmentsCollideExactly` | src/compartment-manager/enclave_manager.cpp:158-160 | two sessions get the same compartment ID exactly if no multiple of a million lies between their truncated addresses, so never at a distance of a million |
| `Sessions.LiveDistinct` | src/compartment-manager/enclave_manager.cpp:57-122 | over every history with fresh ids the list stays duplicate-free |
| `Sessions.LiveAreStillOpen` | src/compartment-manager/enclave_manager.cpp:69-122 | over every history with fresh ids the list holds exactly the sessions opened and not closed since, in opening order |

## Left out

- CompartmentHeap.Allocator.WrapMmap: leaves the kernel's own refusals open, and does not fault when a mapping replaces code or stack of the caller.
- Placement.SetupMappings: takes the stack size to be the constant that its only caller passes.
- ElfLoader.StaticElfExecutable.MapSegment: assumes congruent, non-wrapping segments, as `Map` does.
- ElfLoader.StaticElfExecutable.Map: assumes congruent, non-wrapping segments, because the code does not check them and the gABI demands them; `ElfImage.CongruentExactly` says what depends on it.
- Isolation.SuspendedMemoryKept: leaves out the contents of shared file mappings and system calls other than the wrapped ones, as the assumptions above say.
- Compartments.LoadedMemoryKept: confines initialization code to its own range by construction, as the assumptions above say.
- Enclave.MultiplierWraps: gives one input; which p1 and q1 with other moduli happen to come out right is not characterized.
- CompartmentManager.Manager.CompartmentAdd: the encodings of the manager's two entry capabilities are parameters, and permissions that decide nothing here (GLOBAL, MUTABLE_LOAD, STORE_LOCAL_CAP) are not modelled.
- Switcher.Cpu.CompartmentSwitch: what a descriptor pointer outside the table reads is not modelled; such a call ends in the outcome Wild.
- Capability compression, sealing and instruction encodings; capabilities have exact bounds.
- File access, `/proc/self/maps`, `sysconf`, `getauxval`, `getrandom`, `ctime` and the random engine: their results are parameters.
- The mapping of the symbol table sections: symbols and string table are given as sequences.
- `GetFullEnvString`: the strings found in the environment are parameters.
- File bytes past the end of the file read as 0; a page wholly beyond the end, which would fault, is not told apart.
- Printing, path handling, and the text of error messages; `exit` and `abort` are failed outcomes.
- The client API wrappers, UUID conversion, and the demo client and server: thin copying or demo payload.
- Threads and signals, which README.rst lines 343 to 353 put out of scope.
