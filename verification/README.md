# OXIDE OS: verified models

Dafny models of four parts of the OXIDE operating system, with the properties they rest on proved for all
inputs and, for the protocols, for all runs.

- **Build-dependency graphs** (`Names`, `Graphs`, `Tarjan`, `BuildLayers`, `TopoSort`, `Closures`, `DepSpecs`, `Resolver`):
  the package manager's strongly connected components, build layers, topological sort, closures, depth-first
  resolution and cycle search. The database is a finite node set and a finite edge set; an edge `(a, b)` says that
  `a` build-depends on `b`.
- **Page tables** (`Paging`, `Faults`, `FaultHandlers`, `KstackGuard`, `BootPaging`, `BootInvariants`, `PtFrames`,
  `RegionSplitter`): four-level x86-64 tables as frames of 512 entries with one translation function (section 4.5
  of the Intel SDM, volume 3A), and the kernel and boot code that changes or reads them. Allocators are parameters
  of the model: a set of free frames and a point from which they refuse.
- **Kernel protocols** (`ChildLists`, `WaitProtocol`, `ExecHandover`, `ContextSwitch`, `SwitchRuns`,
  `DebugWriter`): process lists and `wait`, handing a process to a new address space, saving and resuming tasks over
  many CPUs, and the debug writer, as systems of atomic steps interleaved in any way.
- **Loaders and time** (`Bytes`, `SegmentCopy`, `ElfLoader`, `Epoch`): ELF images placed flat and page by page, and
  calendar time to seconds.

`dafny verify dfyconfig.toml` checks everything. `Basics` holds what all parts share.

## What the code does not do

Some properties one would expect of the code do not hold without a condition. The condition is proved exact:

- A `wait` looks at the first 64 children only. It is certain to report a death if and only if the dead child is
  among them (`BlocksExactlyPastBuffer`); a process whose first of more than 64 children dies waits in vain
  (`LateDeathBlocks`). Waiting for a process that is no child blocks too, as long as there are other children.
- A switch publishes the next task before it loads that task's page tables. A process that is reaped, or that is
  stolen and finishes an exec, in between leaves its former CPU on freed tables; this is the only way, and on one CPU
  there is none (`SafeExactlyWhenClear`, `ReapedInMidSwitch`, `DroppedInMidSwitch`, `OneCpuIsSafe`).
- A tick ends on the kernel stack of the task it switches away from, with what it will load noted there, while that
  task is queued again already. If the task is stolen and runs elsewhere before the tick is over, or is removed, the
  note can be written over and the incoming task resumes with whatever is there then. A scheduler switches rightly in
  all its runs if and only if in none of them a task runs or is removed while a CPU in mid-switch stands on its stack
  (`RightExactlyWhenClear`, `StolenInMidSwitch`). One that asks for this every time has only such runs
  (`CheckingSchedulerIsRight`); the code does not ask.
- In those runs too, the FS base of a resumed task is as it left it exactly when it was not zero or the CPU's already
  is (`ResumesAsItLeft`, `ForeignFsBase`).
- Unmapping and remapping a guard page is the identity on translations exactly when there is no last-level table or
  the page was mapped to itself before (`PairRestoresExactly`, `PairFillsAbsent`). In the boot direct map there never
  is one, so there the guard has no effect at all (`BootGuardInert`). The entry written back is no-execute and global,
  which the boot loader's entries are not, although the comment beside it says that the flags match.
- The kernel image is mapped byte for byte exactly when it has at most 2^18 pages; a longer one wraps inside its
  page directory (`KernelImageExact`, `OnePageTooMany`).
- In a release build the bounds check of a program header wraps around. It lets a header through that is not in the
  file exactly when the header's end wraps to a place in the file (`StrayHeaderExactly`, `StrayHeader`).
- The boot loader leaves the memory outside the computed hull alone exactly when no segment has file bytes past it
  (`KeepsOutsideExactly`, `FitsByHeader`, `OverrunWritesOutside`).
- The copy of a user segment breaks off, with a negative length, exactly when it has more file bytes than memory and
  both end in one page (`CopySegment`, `OverlongExists`).
- A usable region that is not whole pages long is handed out past its end unless that last page is protected
  (`StaysInsideExactly`, `OneByteOffersPage`). The boot loader counts regions in whole pages
  (bootloader/boot-uefi/src/main.rs:242-246), so its own maps never hold such a region.
- A dependency with two operators can keep one of them in its name. It does not exactly when, of the operators that
  occur, the one first looked for stands at the first comparison character (`NameIsBareExactly`,
  `LongerOperatorWins`).
- The debug writer drops a message whenever anybody else is inside, which includes callers that are themselves about
  to give up (`DroppedExactlyWhenBusy`, `DroppedThoughNobodyPrints`); its comment speaks of a recursive call.
- The memory guard's fallback to the stack pointer is computed but never used: without a bootloader region there is
  no guard (`GuardBelowBootloader`).

## Model

| member | source | states |
|---|---|---|
| `Names.LeqExactly` | pkgmgr/lib/srpm_graph.py:1289-1304 | Names are ordered by the first character in which they differ, a beginning before its continuation |
| `Tarjan.SccGroups` | pkgmgr/lib/srpm_graph.py:1263-1310 | For every finite graph the groups partition the nodes, two packages share a group iff each reaches the other, and an edge into another group leads to an earlier one |
| `Tarjan.Search.StrongConnect` | pkgmgr/lib/srpm_graph.py:1282-1304 | A visit keeps the whole search invariant, finishes everything it discovers that cannot get back further, and its low link bounds and is attained by what the new names reach on the stack |
| `Tarjan.PushKeepsInv` | pkgmgr/lib/srpm_graph.py:1283-1287 | Discovering a name keeps the invariant, with the name now on the path |
| `Tarjan.PoppedMutual` | pkgmgr/lib/srpm_graph.py:1296-1304 | What is popped together is exactly one component: its members reach each other, and whoever is mutually reachable with one is among them |
| `Tarjan.PopKeepsInv` | pkgmgr/lib/srpm_graph.py:1296-1304 | Emitting the group keeps the invariant: components whole and disjoint, dependencies emitted first |
| `Tarjan.RetreatExplores` | pkgmgr/lib/srpm_graph.py:1289-1296 | Returning without a group leaves every stacked name able to reach one on the caller's path |
| `Tarjan.CloseExplores` | pkgmgr/lib/srpm_graph.py:1289-1304 | A low link equal to the own index means that nothing above reaches below, so the pop is sound |
| `BuildLayers.ParallelBuildGroups` | pkgmgr/lib/srpm_graph.py:1312-1359 | For every graph, cyclic or not, each package is in exactly one layer, a component never spans layers, an edge between components leads to a strictly later layer, and the layer number is the largest number of component crossings on any walk into the package |
| `BuildLayers.CondensationDescends` | pkgmgr/lib/srpm_graph.py:1319-1332 | Contracted edges always lead to components with smaller numbers, so the contracted graph is acyclic |
| `BuildLayers.ContractEdges` | pkgmgr/lib/srpm_graph.py:1323-1332 | The contracted edge set is the condensation of the graph |
| `BuildLayers.Peel` | pkgmgr/lib/srpm_graph.py:1340-1359 | Peeling places every component, in the layer just after the latest one that depends on it |
| `BuildLayers.AllPlaced` | pkgmgr/lib/srpm_graph.py:1343-1357 | When nothing is left to peel, no component is left at all |
| `BuildLayers.LevelIsLongest` | pkgmgr/lib/srpm_graph.py:1312-1359 | A numbering that rises by one over its latest predecessor is the longest-walk numbering |
| `TopoSort.Sort` | pkgmgr/lib/srpm_graph.py:1231-1261 | None iff the graph has a cycle; otherwise all nodes, each once, every dependency before its dependents |
| `TopoSort.Release` | pkgmgr/lib/srpm_graph.py:1252-1257 | Releasing a node's edges keeps each in-degree equal to the number of unprocessed dependents and the queue equal to the unprocessed nodes of in-degree zero |
| `TopoSort.StuckIsCyclic` | pkgmgr/lib/srpm_graph.py:1259-1260 | If nodes are left when the queue runs empty, the graph has a cycle |
| `TopoSort.OrderIsAcyclic` | pkgmgr/lib/srpm_graph.py:1259-1261 | A complete order rules out every cycle |
| `Closures.TransitiveDeps` | pkgmgr/lib/srpm_graph.py:1107-1117 | Exactly the packages reachable by one or more edges |
| `Closures.TransitiveRdeps` | pkgmgr/lib/srpm_graph.py:1119-1129 | Exactly the packages that reach the given one by one or more edges |
| `Closures.ReversedReach` | pkgmgr/lib/srpm_graph.py:1107-1129 | Reaching in the reversed graph is being reached, so the two closures are converse |
| `Resolver.Traversal.Dfs` | pkgmgr/lib/resolver.py:61-87 | Succeeds iff no cycle is reachable; then it appends exactly the reachable packages that were missing, dependencies first, the package last |
| `Resolver.DependencyResolver.AddPackage` | pkgmgr/lib/resolver.py:24-32 | Adds the package and exactly the edges to the names in the given specifications; forward and reverse maps stay converse |
| `DepSpecs.StripVersion` | pkgmgr/lib/resolver.py:34-40 | The trimmed text before the first place of the first listed operator that occurs, or all of it |
| `DepSpecs.NameIsBareExactly` | pkgmgr/lib/resolver.py:34-40 | The name holds no comparison character, and is then the text before the first one, iff there is none, or of the listed operators that occur anywhere in the text the first in the list stands at the first comparison character |
| `DepSpecs.CutIsFirstExactly` | pkgmgr/lib/resolver.py:36-39 | For any list of operators: the text is cut at its first comparison character iff there is none, or of the operators that occur the first in the list stands there |
| `DepSpecs.TakesTheName` | pkgmgr/lib/resolver.py:34-40 | From blanks, a name, blanks, any of the six operators and a version, or from a name alone, the name is taken |
| `DepSpecs.LongerOperatorWins` | pkgmgr/lib/resolver.py:34-40 | A specification whose name keeps a comparison character |
| `Resolver.DependencyResolver.Resolve` | pkgmgr/lib/resolver.py:42-59 | None iff the package is unknown or reaches a cycle of known packages; otherwise exactly the reachable known packages, dependencies first, the request last |
| `Resolver.DependencyResolver.GetBuildOrder` | pkgmgr/lib/resolver.py:89-105 | None iff some wanted package reaches a cycle; otherwise exactly what the wanted ones reach, each once, dependencies first |
| `Resolver.DependencyResolver.FindCycles` | pkgmgr/lib/resolver.py:107-118 | Every result is a genuine cycle without repeated members; for every cycle of known packages some package reaches both it and a result; and there is a result iff the known graph is cyclic |
| `Resolver.CycleSearch.FindCycleDfs` | pkgmgr/lib/resolver.py:120-141 | A hit leaves a cycle without repeated members in the path, all of it reached from where the search began; a miss restores the path and leaves what it visited in an order in which dependencies come first |
| `Resolver.CycleMeetsBase` | pkgmgr/lib/resolver.py:107-141 | When all packages are visited, every cycle passes through a name visited by a search that found one; without such a search the known graph is acyclic |
| `Resolver.DependencyResolver.GetAllDependencies` | pkgmgr/lib/resolver.py:151-164 | Exactly what is reachable by one or more edges, known or not |
| `Resolver.DependencyResolver.SuggestBuildGroups` | pkgmgr/lib/resolver.py:175-203 | Each package comes strictly after its known dependencies and directly after the last of them; left out are exactly the packages that reach a cycle |
| `Resolver.PeelEnds` | pkgmgr/lib/resolver.py:188-201 | When no package is ready, those remaining are exactly the ones that reach a cycle |
| `Paging.PathsDiffer` | kernel/src/fault.rs:410-413 | Two addresses use the same four table slots iff their 48-bit pages are equal |
| `Paging.ReadPteValueExact` | kernel/src/fault.rs:549-572 | A value is returned iff the walk has a last-level table, and it is that slot's entry, present or not; the page is mapped at 4 KiB iff the entry is present |
| `Paging.LinkedEntries` | kernel/src/fault.rs:424-432 | In a tree, zeroing a frame and linking it at one slot changes that slot of the walk structure and no other |
| `Paging.TranslateByBits` | kernel/src/fault.rs:549-572 | A translation, spelled out as the reads that nine bits of the address at a time select and the offset below 4 KiB, 2 MiB or 1 GiB |
| `FaultHandlers.Machine.HandleDemandPage` | kernel/src/fault.rs:407-512 | True: the page is mapped and no other page's translation changed; false: none changed, and the allocator was exhausted or a huge page was in the way. A new page is zero in every word, its entry is present, for user code, writable iff the memory area is and no-execute iff the area is not executable, and every table linked on the way is writable, for user code and executable. Tree shape and the separation of free frames are kept in every case |
| `FaultHandlers.Machine.HandleStackGrowth` | kernel/src/fault.rs:239-400 | The same for stack growth, with a new page writable and no-execute; a busy lock changes nothing, and a page already present counts iff it is writable |
| `FaultHandlers.FaultTranslations` | kernel/src/fault.rs:407-512 | Whatever tables were linked on the way, only a completed fault changes a translation, and only its own page's |
| `Faults.OtherPagesKeep` | kernel/src/fault.rs:424-505 | Every other walk is unchanged, and all walks are when the last level was not reached |
| `Faults.ResolvedPageMapped` | kernel/src/fault.rs:466-511 | After all four levels the page maps to the last frame taken |
| `Faults.TakenIsReachable` | kernel/src/fault.rs:424-505 | The frames taken are exactly the newly reachable ones, each at a single place |
| `FaultHandlers.RunConsistent` | kernel/src/fault.rs:239-512 | Over any run of faults and refusals: the allocator's losses are exactly the new reachable frames, each table and data page linked at a single place, no mapped page ever changes, and the tree stays a tree |
| `FaultHandlers.RetryTakesTheRest` | kernel/src/fault.rs:239-512 | A retry continues where the failure stopped; both together take at most four frames, and exactly the missing ones when it succeeds |
| `KstackGuard.Tables.ClearPte` | kernel/src/kstack_guard.rs:97-131 | True iff the address had a present 4 KiB entry, and then only that entry is emptied; otherwise memory is untouched |
| `KstackGuard.Tables.SetPte` | kernel/src/kstack_guard.rs:144-180 | True iff the address has a last-level table, and then only that entry is written |
| `KstackGuard.Tables.UnmapGuardPage` | kernel/src/kstack_guard.rs:24-53 | Empties exactly the entry for the guard's address plus 0xFFFF_8000_0000_0000, if there is one |
| `KstackGuard.Tables.RemapGuardPage` | kernel/src/kstack_guard.rs:63-86 | Writes exactly the entry for the guard's address plus 0xFFFF_8000_0000_0000, if it has a table: present, writable, no-execute and global, closed to user code |
| `KstackGuard.DirectMapAddress` | kernel/src/kstack_guard.rs:24-27 | Below 2^47 a frame's address in the direct map is its own plus 0xFFFF_8000_0000_0000 |
| `KstackGuard.OnlyGuardUnmapped` | kernel/src/kstack_guard.rs:24-53 | Unmapping makes exactly that page untranslatable |
| `KstackGuard.PairTranslate` | kernel/src/kstack_guard.rs:24-86 | Which translations survive unmap and remap, address by address |
| `KstackGuard.PairRestoresExactly` | kernel/src/kstack_guard.rs:24-86 | The pair restores all translations iff there is no last-level table or the page was mapped to its own address |
| `KstackGuard.PairFillsAbsent` | kernel/src/kstack_guard.rs:63-86 | A memory in which the guard page is not mapped before unmap and remap, and is after |
| `BootPaging.Boot.SetupPageTables` | bootloader/boot-uefi/src/paging.rs:24-46 | Fresh distinct tables with exactly the boot layout, which map the lowest 4 GiB to themselves, 4 TiB of physical memory at 0xFFFF_8000_0000_0000 and a kernel of up to 1 GiB byte for byte at 0xFFFF_FFFF_8000_0000; or no table because memory ran out |
| `BootPaging.Boot.SetupIdentityMapping` | bootloader/boot-uefi/src/paging.rs:49-70 | Four 1 GiB pages from address zero, nothing else changed |
| `BootPaging.Boot.SetupPhysicalMap` | bootloader/boot-uefi/src/paging.rs:73-108 | Eight tables of 1 GiB pages from slot 256, nothing else changed |
| `BootPaging.Boot.SetupKernelMapping` | bootloader/boot-uefi/src/paging.rs:111-175 | The kernel's tables hold, slot by slot, the last page written to each |
| `BootPaging.VirtIndices` | bootloader/boot-uefi/src/paging.rs:144-174 | The indices of page k of the image are k's base-512 digits, through 64-bit wrap-around |
| `BootPaging.BootTranslates` | bootloader/boot-uefi/src/paging.rs:24-188 | Every canonical address: identity below 4 GiB, the direct map up to 4 TiB, the kernel image, and everything else unmapped |
| `BootPaging.KernelImageExact` | bootloader/boot-uefi/src/paging.rs:111-175 | The image is mapped byte for byte iff it has at most 2^18 pages |
| `BootPaging.OnePageTooMany` | bootloader/boot-uefi/src/paging.rs:111-175 | With 2^18 + 1 pages the kernel's first address maps to its last page |
| `BootInvariants.BootTree` | bootloader/boot-uefi/src/paging.rs:24-188 | The boot tables form a tree, as the kernel's fault handlers need |
| `BootInvariants.BootRights` | bootloader/boot-uefi/src/paging.rs:16-19 | Every present entry a walk can meet is writable, executable, not global and closed to user code |
| `BootInvariants.BootGuardInert` | kernel/src/kstack_guard.rs:24-86 | In the boot tables, unmapping and remapping any guard page changes no memory at all |
| `PtFrames.CollectFrames` | kernel/src/init.rs:3260-3322 | Exactly the table frames reachable from the root, without duplicates, also where tables are shared |
| `RegionSplitter.PrepareRegions` | kernel/src/init.rs:437-563 | On any map the usable segments cover exactly what the page-wise loop offers, are disjoint when the regions' page spans are, and every other region is passed on as it is; on a page-aligned map they cover exactly the usable pages of which no byte lies in the first megabyte, the kernel, the guard or a page table |
| `RegionSplitter.GuardBelowBootloader` | kernel/src/init.rs:437-450 | Two megabytes below the lowest bootloader region, and no guard without one |
| `RegionSplitter.SplitRegion` | kernel/src/init.rs:538-563 | Any region's segments are ordered, non-empty, inside its page span and cover exactly the pages, counted from its start, whose first address is not protected |
| `RegionSplitter.StaysInsideExactly` | kernel/src/init.rs:538-563 | The segments stay inside the region iff it is whole pages long or its last, partial page is protected |
| `RegionSplitter.OneByteOffersPage` | kernel/src/init.rs:538-563 | A region of one byte above low memory of which a second byte is offered |
| `RegionSplitter.AlignedOffered` | kernel/src/init.rs:488-563 | On a page-aligned map exactly the usable pages without a forbidden byte are offered |
| `RegionSplitter.ProtectedExactly` | kernel/src/init.rs:488-509 | On a page-aligned map a page is protected iff a byte of it is in the first megabyte, the kernel, the guard or a page table |
| `RegionSplitter.AskedExactly` | kernel/src/init.rs:488-509 | On any map an address is protected iff it is forbidden other than by a page table, or is where a page table starts |
| `RegionSplitter.ForbiddenIsProtected` | kernel/src/init.rs:488-509 | Asking about a page's first byte decides for the whole page when protected areas start on pages |
| `ChildLists.WithChildList` | kernel/sched/sched/src/core.rs:2070-2109 | Linking prepends to the parent's list and touches links only |
| `ChildLists.WithoutChildList` | kernel/sched/sched/src/core.rs:2122-2174 | Unlinking from any position removes just that child from the list and touches links only |
| `ChildLists.ProcessTable.AddTaskChild` | kernel/sched/sched/src/core.rs:2070-2109 | When the parent's list is l and the child is outside it: afterwards the list is the child and then l, only links differ, and no other family is touched |
| `ChildLists.ProcessTable.RemoveTaskChild` | kernel/sched/sched/src/core.rs:2122-2174 | When the child is member k of the parent's list: afterwards the list is the rest in order, only links differ, and no other family is touched |
| `ChildLists.ProcessTable.GetTaskChildren` | kernel/sched/sched/src/core.rs:2032-2056 | Following the links gives the first 64 children in list order |
| `ChildLists.ProcessTable.FindChildStateChange` | kernel/src/process.rs:1026-1098 | Reports the earliest child with something to report, iff there is one: a recorded status as it is, a stop as 0x7F with the signal in the second byte, a continue as 0xFFFF; exactly the stop or continue reported is cleared, and no other task changes |
| `ChildLists.ProcessTable.WaitOnce` | kernel/src/process.rs:890-1021 | One turn of the wait: ECHILD without children; zero, EINTR or another turn when nothing is to report; else the packed report; exactly a reported death is unlinked and removed, and after any other report the tasks are as the scan left them |
| `ChildLists.ReportedOnce` | kernel/src/process.rs:1072-1092 | If the next scan, with whatever options, reports the same living child again, one report is the stop and the other the continue |
| `ChildLists.StatusReadsBack` | kernel/proc/proc/src/wait.rs:70-99 | The stopping signal, the exit code modulo 256 and the killing signal can be read back from the status word |
| `ChildLists.DeathIsUnmistakable` | kernel/proc/proc/src/wait.rs:70-99 | A recorded death status never reads as stopped or continued, and those two always do |
| `ChildLists.SignalMistakenExactly` | kernel/proc/proc/src/wait.rs:78-83 | A death by signal would read as a stop for signal number 127 only |
| `ChildLists.PackWait` | kernel/src/process.rs:942-943 | Pid and status can both be read back from the packed result |
| `WaitProtocol.StepKeepsInv` | kernel/src/process.rs:890-1021 | Every step of fork, death, stop, continue, scan, unlink and removal keeps the invariant of lists, phases and reports |
| `WaitProtocol.ReapedOnce` | kernel/src/process.rs:890-1021 | In every run no death is returned twice, each returned status is the one in force when a scan of that parent found the child linked and dead and is not a stop or continue, and following the links from each parent visits exactly its children, all present |
| `WaitProtocol.ParentReads` | kernel/src/process.rs:1026-1098 | What a child just did is what its parent reads in the next scan that reports it: the exit code, the signal that killed or stopped it, or that it was continued |
| `WaitProtocol.DeadChildIsReported` | kernel/src/process.rs:1026-1098 | A wait with a dead matching child among the first 64 returns a report |
| `WaitProtocol.BlocksExactlyPastBuffer` | kernel/src/process.rs:1026-1098 | A plain wait of a process with children blocks iff no matching child among the first 64 is dead |
| `WaitProtocol.LateDeathBlocks` | kernel/sched/sched/src/core.rs:2032-2056 | A run of more than 64 forks after which the first child's death goes unseen |
| `ExecHandover.SafeExactlyWhenClear` | kernel/src/process.rs:1808-1899 | In every interleaving of exec, fork, reaping and switches, whose publishing and loading are separate steps: no loaded and no stored root is ever a freed one if and only if no step frees a root that a CPU in mid-switch still stands on; then no live root is without owner either |
| `ExecHandover.StepKeepsInv` | kernel/src/process.rs:1808-1899 | Each step that frees nothing under a CPU in mid-switch keeps who owns which root and what each CPU may have loaded |
| `ExecHandover.StepSafeExactly` | kernel/src/scheduler.rs:215-229 | From a sound state, a reap, a drop or any other step leaves a CPU on a freed root exactly when that CPU is in mid-switch on it |
| `ExecHandover.OneCpuIsSafe` | kernel/src/process.rs:1808-1899 | On one CPU every run is safe |
| `ExecHandover.ReapedInMidSwitch` | kernel/src/scheduler.rs:215-237 | From every state with a process on one of two CPUs and a waiting task: the run in which the process is reaped between its CPU's publishing and loading, and the freed root it ends on |
| `ExecHandover.DroppedInMidSwitch` | kernel/sched/sched/src/core.rs:1721-1790 | The run in which the other CPU steals the process and finishes its exec there, dropping the root the first CPU still stands on |
| `ExecHandover.OnlyTheKernelOrder` | kernel/src/process.rs:1808-1855 | Of the six orders of storing the root, loading it and dropping the old space, the kernel's is the only one that is safe in all runs that free nothing under a CPU in mid-switch, switches being allowed between any two of the steps |
| `ContextSwitch.Scheduler.SchedulerTick` | kernel/src/scheduler.rs:970-1352 | One tick saves and resumes exactly as specified, word by word of the two frames: the saved context is what the interrupted frame and the FS and GS bases held; for a switch that goes through, the new frame holds the incoming registers in push order, flags with only bit 9 added, stack segment 0x10 for code segment 0x08 and 0x1B for 0x23; it ends at most 7 bytes below the saved stack pointer for 0x08 and below the kernel stack's top for 0x23, and no other word of memory changes; a refused switch returns the same stack pointer |
| `ContextSwitch.Scheduler.ContextSwitchTransaction` | kernel/sched/sched/src/core.rs:1206-1378 | Succeeds iff both tasks are in this CPU's queue and the incoming context has an instruction and a stack pointer and code segment 0x08 or 0x23; the outgoing task is saved as soon as it is found |
| `ContextSwitch.FrameRoundTrip` | kernel/src/scheduler.rs:1325-1351 | A stored frame reads back register by register, and nothing outside its 160 bytes changes |
| `ContextSwitch.ResumeUndoesSave` | kernel/src/scheduler.rs:982-1351 | A saved task resumes with every register as it was, but for bit 9 of the flags, the stack segment its code segment needs, and an FS base of zero |
| `SwitchRuns.HalvesMakeTick` | kernel/src/scheduler.rs:970-1352 | The two halves of a tick in a row, with the note between them left alone, are the whole tick |
| `SwitchRuns.RunsOnce` | kernel/sched/sched/src/core.rs:1206-1378 | In no state of any run is a task other than an idle one current on two CPUs |
| `SwitchRuns.StepKeepsPlaced` | kernel/sched/sched/src/core.rs:1206-1378 | Every step keeps each task in a single run queue and each CPU's current task in its own |
| `SwitchRuns.StepKeepsSound` | kernel/src/scheduler.rs:1043-1352 | A step on whose kernel stack no CPU in mid-switch stands keeps every note equal to what is saved of the incoming task, and every entry stack the running task's |
| `SwitchRuns.RightExactlyWhenClear` | kernel/src/scheduler.rs:1043-1352 | A scheduler, whatever it lets happen, has only runs in which every tick loads what was saved of the task it goes to, iff it has only runs in which no task runs or is removed while a CPU in mid-switch stands on its kernel stack |
| `SwitchRuns.UnclearCanBeWrong` | kernel/src/scheduler.rs:1043-1352 | Whenever a task does run or go while a CPU in mid-switch stands on its stack, some writing to that stack makes the switch wrong |
| `SwitchRuns.CheckingSchedulerIsRight` | kernel/src/scheduler.rs:1043-1352 | A scheduler that first asks whether a CPU in mid-switch stands on the stack switches rightly in all its runs |
| `SwitchRuns.StolenInMidSwitch` | kernel/sched/sched/src/runqueue.rs:515-555 | From every state with a task running and two waiting on one CPU while another idles: the run in which the outgoing task is stolen in mid-switch, as the guards of stealing allow, and works elsewhere, and the incoming one resumes with any frame the stack then holds |
| `SwitchRuns.ResumesAsItLeft` | kernel/src/scheduler.rs:970-1351 | In every run over many CPUs in which no task runs or is removed while a CPU in mid-switch stands on its stack, a task resumes with all registers, GS base, FPU state and preemption count as it left them, interrupts on and the stack segment its code segment needs; nothing at all differs iff interrupts were on, the stack segment matched, and the FS base was not zero or the CPU's is |
| `SwitchRuns.ForeignFsBase` | kernel/src/scheduler.rs:1239-1243 | Two ticks after which a task with FS base zero comes back with another task's |
| `SwitchRuns.SituationsExist` | kernel/src/scheduler.rs:1239-1243 | A state from which both of these runs start |
| `DebugWriter.OutputIsWhole` | kernel/src/debug_buffer.rs:24-57 | In every interleaving at most one caller prints, the output is whole messages and a beginning of the current one if there is one, the depth is the number of callers inside, and the flag says whether one prints |
| `DebugWriter.AcquireSucceeds` | kernel/src/debug_buffer.rs:34-42 | The compare-exchange never fails once the depth check has passed |
| `DebugWriter.DroppedExactlyWhenBusy` | kernel/src/debug_buffer.rs:24-32 | A message is dropped iff somebody else was inside when it came |
| `DebugWriter.DroppedThoughNobodyPrints` | kernel/src/debug_buffer.rs:24-32 | A run in which a message is dropped though nobody is printing or will |
| `SegmentCopy.Loader.CopySegment` | kernel/src/init.rs:2394-2462 | For every alignment and all sizes the page-by-page copy equals the flat specification: file bytes, then zeros up to the memory size, no other byte changed; it completes iff every page is mapped and the segment is not overlong, that is, has more file bytes than memory with both ends in one page |
| `SegmentCopy.OverlongExists` | kernel/src/init.rs:2394-2462 | A segment for which the copy breaks off |
| `SegmentCopy.CopyExtends` | kernel/src/init.rs:2400-2460 | One page's copy extends the flat specification by that page and disturbs no other |
| `ElfLoader.ParseElf` | bootloader/boot-uefi/src/elf.rs:97-181 | The first error in order, or exactly the loadable segments in header order; when no header wraps, the load base is the least address of the loadable headers and base plus size their greatest end |
| `ElfLoader.StrayHeaderExactly` | bootloader/boot-uefi/src/elf.rs:136-140 | The bounds check passes a program header outside the file iff the header's end wraps around to a place in the file |
| `ElfLoader.StrayHeader` | bootloader/boot-uefi/src/elf.rs:136-140 | A file header without error whose only program header passes the check and is not in the file |
| `ElfLoader.Loader.LoadSegments` | bootloader/boot-uefi/src/elf.rs:187-212 | Fails iff a segment's bytes are missing; otherwise every address holds what the last segment covering it says, and the rest is untouched |
| `ElfLoader.LastWriterDecides` | bootloader/boot-uefi/src/elf.rs:187-212 | What the last loadable header to write an address puts there: a byte of the file at the header's own offset, or zero |
| `ElfLoader.DisjointSegmentsArrive` | bootloader/boot-uefi/src/elf.rs:187-212 | A segment that no later one overlaps arrives whole: file bytes, then zeros |
| `ElfLoader.UncoveredStays` | bootloader/boot-uefi/src/elf.rs:187-212 | Addresses no segment covers keep their contents |
| `ElfLoader.KeepsOutsideExactly` | bootloader/boot-uefi/src/elf.rs:187-212 | Placing the segments leaves all memory outside the hull alone, whatever it holds, iff no segment reaches past the hull |
| `ElfLoader.FitsByHeader` | bootloader/boot-uefi/src/elf.rs:157-172 | For segments ending below 2^64: a segment stays in the hull iff it has no more file bytes than memory or its file bytes end there all the same |
| `ElfLoader.Loader.LoadKernel` | bootloader/boot-uefi/src/main.rs:150-166 | Parse and load together, on the program headers and the file: an error changes no memory; the load succeeds iff every loadable header's file bytes are in the file; then each address holds what the last header for it says, file byte offset + k at offset k below the file size and zero from there on, and every other address what it held; with well-formed headers these lie in the room of the computed size |
| `ElfLoader.OverrunWritesOutside` | bootloader/boot-uefi/src/main.rs:150-166 | A file header and table that the parse accepts, for which one page is allocated, and whose load writes to the page after it |
| `Epoch.DateToEpoch` | kernel/src/init.rs:3533-3554 | For any six numbers the year-by-year loop, in wrapping 64-bit arithmetic, equals the closed formula of section 4.16 of POSIX.1-2017 modulo 2^64; a bad month or year gives the fallback |
| `Epoch.DaysAreDays` | kernel/src/init.rs:3533-3560 | The same time on the following calendar day is 86400 seconds more, through all months and leap years |
| `Epoch.KnownSeconds` | kernel/src/init.rs:3537-3539 | The first second of 1970 is 0, and the fallback is the first second of 2024 |
| `Epoch.NoWrapYet` | kernel/src/init.rs:3533-3554 | For every valid time up to the year 500 000 000 000 nothing wraps around |
| `Epoch.SecondsInOrder` | kernel/src/init.rs:3533-3554 | Seconds order all valid times exactly as the calendar does, and different times differ |

## Left out

- SQLite, `dnf`, `rpm`, downloads and capability lookup: outside the graph algorithms; the graph is a parameter.
- `VersionResolver`: version numbers are never compared.
- Python's recursion limit, at which `strongconnect`, `_dfs` and `_find_cycle_dfs` break off on very deep chains.
- Page-fault classification, copy-on-write, swap, reclaim and the frame database: only the two handlers that build tables are modelled.
- Raw bits of page-table entries: an entry is modelled field by field, with the bits no walk reads kept together.
- Concurrent faults on one address space: the demand-paging handler takes no lock; each fault is one step here.
- TLB invalidation and cache effects.
- FaultHandlers.Machine.HandleStackGrowth: the growth lock is a parameter (`lockBusy`), since only its outcome matters.
- Threads that share an address space during exec; each process owns its space.
- ContextSwitch.Scheduler.SchedulerTick: requires stack pointers with room for a frame, below which the source's subtraction wraps; loading the page tables is in ExecHandover, and the checks of the incoming page tables that abandon a switch half-way (kernel/src/scheduler.rs:1151-1221) are taken not to fire.
- ContextSwitch.Scheduler.ContextSwitchTransaction: the run queue is the set of its tasks; their order, accounting and re-enqueueing are the scheduling policy, and which task is picked next is a parameter of a tick.
- SwitchRuns: a note is overwritten as a whole or not at all; which words of a stack a task really writes, and what else of an unfinished tick lies there, is not modelled. Interrupts stay off during a tick.
- Signal frames, futexes and thread exit.
- WaitProtocol: reuse of process ids after 2^32 forks is not modelled. A second death overwrites a status that no scan has seen, as in the code.
- WaitProtocol: a wait's scan of the children is one step, where the source locks a run queue for each child in turn.
- Atomicity inside the linked-list operations: each operation on a child list is one step, its field updates are modelled in order within it; only the parent itself forks into and reaps from its list.
- ExecHandover: table roots are never address zero, which the code reserves for kernel tasks. Noting the new root and publishing the task are one step; they lie under one run-queue lock but for the last store, and a task that is being switched to is not dead.
- ExecHandover.OnlyTheKernelOrder: is about switches between any two of the three steps. The kernel keeps preemption off around them (kernel/src/process.rs:1823), and which orders that alone would make safe is not stated.
- DebugWriter: the 64-bit depth counter does not wrap, and memory is sequentially consistent.
- ElfLoader.ParseElf: takes the decoded headers; decoding bytes into header fields is not modelled, so a header that the bounds check lets through outside the file is whatever is read there. Physical addresses do not wrap.
- Epoch: 64-bit arithmetic wraps as in a release build; CMOS access and BCD decoding are not modelled.
- Boot menu, fonts, consoles, configuration, drivers, networking, file systems and CPU bring-up.
