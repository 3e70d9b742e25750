# Proofs about the GEM emulation layer

A Dafny model of the native emulation layer in `src/gem`, and proofs about it. `dafny verify dfyconfig.toml`
checks the whole project.

## What is modelled

**Transactional guest memory** (`src/gem/memory.c`). A `Memory` value holds pages, backings shared by
reference count, the caller's host pages, the stamp counter and the optimistic transactions. What a function does to one page is an
`Edit`; what a call does is an error code and a list of edits, its plan. From there the proofs go four ways:

- invariants of every edit and of every history of calls: counted references, bounded stamps, reservations
  that partition the mapped pages (`MemoryInvariants`, `ReachableStates`);
- what each call does, as an effect stated without its edits (`MappingEffects`, `MappingTheorems`, `PagedAccess`,
  `TransactionCalls`, `CommitPages`);
- why a transaction may trust what it recorded (`OptimisticValidation`);
- concurrency: `commit_pages` gives up the metadata lock while it is still copying. `PendingCopies`, `SplitCommit`
  and `CommitProtocol` let any other call in between whose stripes are free, and show that nobody can tell, not even
  by the byte count reported (`CommitCounts`); `StripeLocks` shows that no set of callers deadlocks.

`PageTable` and `MemoryObject` are the same memory as an object: linked page records on a list and on hash chains,
changed in place by the loops of the source. Each method is proved to run the edits of its plan.

**The ARM64EC/x64 coordinator** (`src/gem/hybrid_runtime.c`, the generic path). `Coordinator` is the object with its
frames, stage and pending flags. Both engines are arbitrary: they may change registers, memory and its protections at
will and stop for any reason. The x64 engine is only trusted not to change the instruction-set tag and the cookie.

**ARM64X images** (`src/gem/pe_arm64x.c`, `arm64ec_target.c`, `pe_arm64x_loader.c`). `Arm64xImage` parses untrusted bytes
into tables and searches them; `Arm64ecTarget` follows redirections; `Arm64xLoader` loads an image into the
memory object. `Arm64xLayout` and `Arm64xLoaded` say byte by byte what an accepted file and a loaded image are. The file
format is that of the Microsoft PE Format specification, "Section Table (Section Headers)" and "The Load Configuration
Structure".

**The i386 run loop** (`src/gem/i386_engine.c`) is `I386Runtime`. **The context codecs** (`context_serialization.c`,
`context_conversion.c`) are `ContextWire` and `ContextConversion`; MXCSR is described in section 10.2.3 and EFLAGS in section
3.4.3 of the Intel SDM, Volume 1.

## What the proofs assume

- The stamp counter does not wrap; the source aborts when it does (`src/gem/memory.c:359-368`).
- A new backing's stamp is not ahead of the counter. The source leaves that field unset (`src/gem/memory.c:429-441`);
  `OptimisticValidation.StampAheadOfCounterHidesStore` shows what a stamp ahead of it would hide.
- The content hash is an arbitrary function, and claims about content are made for owned storage; the hash that picks
  a bucket is an arbitrary function into the buckets.
- The allocator gives distinct unused pointers or fails; a freed pointer may be given out again.
- A transaction is used by one thread at a time.
- An address resolves to the same target as long as a coordinator lives; what of guest memory can be reached changes only
  while an engine runs.
- The two halves of a 128-bit register are read low half first (`src/gem/context_serialization.c:44-47` leaves the order to
  the compiler).

## What turned out not to hold

- A stamp does not tell every change of protection: a read or fetch of a caller-owned write-copy page changes its
  protection and not its stamp. No other access does, and no other edit (`PagedAccess.UnstampedByAccess` gives the condition,
  `PagedAccess.ReadChangesUnstamped` a memory, `OptimisticValidation.UnstampedProtectionChange` the edits).
- A commit that has to copy a write-copy page can be read half done, through an alias made meanwhile, if the copy's
  storage lies on a stripe the commit does not hold; the read is neither page exactly when a line differs in each part
  (`CommitProtocol.TornRead`). Where the commit holds that stripe, commits are atomic
  (`CommitProtocol.SplitCommitsAreAtomic`).
- Loading an image whose base is 0 leaves its reservation behind, exactly when the reservation succeeds, and may remove
  another one at address 0 (`Arm64xLoader.Materialize`, `Arm64xLoader.ZeroBaseLeaks`).
- The i386 loop reports the retired count modulo 2^32: a run that used up its budget reports it truly exactly when the
  budget is below 2^32 (`I386Runtime.I386Machine.Run`, `I386Runtime.SteadyRun`).
- A file span that runs out of the headers may be found elsewhere than its own first bytes (`Arm64xImage.OffsetsFollow` gives
  the exact condition, `Arm64xImage.OffsetsPart` an image).

## Model

| member | source | states |
|---|---|---|
| MemoryInvariants.CountedPreserved | src/gem/memory.c:422-441 | every edit of every call keeps each backing's count equal to the pages, records and commits in flight that point at it; no count is zero and nothing points at a freed backing |
| MemoryInvariants.HolderAlive | src/gem/memory.c:422-428 | what a page, a record or a commit in flight points at has not been freed |
| MemoryInvariants.EditSound | src/gem/memory.c:359-368 | whenever an edit changes a page's backing or stamp, its protection over owned storage, or a backing's data, that page or backing carries a stamp newer than every stamp issued before, and no stamp is ahead of the counter; reservation fields and protections over caller-owned storage are excepted |
| MemoryInvariants.InvOverRun | src/gem/memory.c:359-441 | counts, stamps and known host pages hold after every run of edits |
| ReachableStates.HistoriesKeepHealth | src/gem/memory.c:1374-1595 | counts, stamps and the partition into reservations hold after every history of calls, whatever succeeded or failed |
| ReachableStates.ReachableIsHealthy | src/gem/memory.c:1311-1350 | in particular after every history that begins with an empty memory |
| ReachableStates.ReachableIsOrderly | src/gem/memory.c:953-975 | after every history of calls from an empty memory each transaction has one record of a page at most, no more than 256, and each says truly whether the caller owns its page |
| OptimisticValidation.ValidationIsSound | src/gem/memory.c:1069-1100 | a record that was current and is current again describes a page that, in every state in between, had the same stamp, backing and owned bytes, and the same protection over owned storage; pointer reuse cannot fool the check |
| OptimisticValidation.DivergenceIsSeen | src/gem/memory.c:1078-1094 | once a recorded page has changed, no run of edits makes its record look current again |
| OptimisticValidation.UnstampedProtectionChange | src/gem/memory.c:827-834 | of all edits only the one that ends the write-copy state of a caller-owned page changes a protection without a stamp |
| OptimisticValidation.StampAheadOfCounterHidesStore | src/gem/memory.c:429-441 | were the stamp of new storage one ahead of the counter, a store through another page would go unseen by a record |
| MappingTheorems.ReserveCall | src/gem/memory.c:468-510 | reserve succeeds exactly on a well-formed unmapped range with enough records, and each failure has its own error; asked for address 0 it tries the first address from 4 GiB up below which all is mapped, or the last one the search may look at; success maps exactly that range uncommitted, failure only uses up stamps; reservations stay a partition |
| MappingTheorems.AliasCall | src/gem/memory.c:612-653 | alias succeeds exactly when its source is committed and its destination unmapped, with an error of its own for each failing condition; each new page shares the backing of its counterpart |
| MappingTheorems.CommitCall | src/gem/memory.c:511-540 | commit succeeds exactly on a mapped range with a known protection and storage to be had, and reports the first condition that fails; pages that had storage keep it, the others get zeroed storage of their own; a failure changes nothing |
| MappingTheorems.DecommitCall | src/gem/memory.c:541-554 | decommit reports the first page that is not committed, and otherwise drops exactly the range's references and leaves its pages reserved and inaccessible |
| MappingTheorems.ProtectCall | src/gem/memory.c:596-611 | protect succeeds exactly on a committed range and a known protection, reports the first condition that fails, and changes and stamps exactly that range |
| MappingTheorems.ReleaseCall | src/gem/memory.c:555-565 | release succeeds exactly on one whole reservation and removes exactly its pages and their references |
| MappingTheorems.UnmapCall | src/gem/memory.c:566-595 | unmap succeeds exactly inside one reservation, removes exactly the range and leaves the two sides as reservations of their own |
| MappingTheorems.MapIdentityCall | src/gem/memory.c:654-674 | an identity mapping succeeds exactly on a well-formed unmapped range above 4 GiB with enough records and backings, with an error of its own for each failing condition; it then maps the whole range onto the host, and otherwise puts mapping and backings back as they were |
| MappingTheorems.CommitExternalCall | src/gem/memory.c:675-716 | committing host pages succeeds exactly on a mapped range each of whose pages is uncommitted or already is that host page, with backings for the uncommitted ones; the error is that of the first page in the way; afterwards every page is its host page; a failure changes nothing |
| MappingTheorems.CommitHostDecision | src/gem/memory.c:690-701 | the page-by-page scan, which stops at the first foreign backing or refused allocation, finds none exactly when there is none |
| MappingTheorems.BindKuserCall | src/gem/memory.c:717-740 | binding succeeds exactly when both KUSER pages are mapped and share a backing and a new one can be had, with the source's error otherwise; both then move to one new host-backed page with two references, and the backing they left goes when nothing else holds it; a failure changes nothing |
| MappingTheorems.RollbackRestores | src/gem/memory.c:662-668 | removing pages that were only given newly allocated storage restores the page map and every backing |
| MappingEffects.RemovalOrderIrrelevant | src/gem/memory.c:455-467 | the order in which pages are removed makes no difference |
| MappingEffects.SplitKeepsPartition | src/gem/memory.c:580-593 | a reservation cut in two around a hole leaves a partition |
| MappingEffects.NewIntervalKeepsPartition | src/gem/memory.c:487-507 | a new reservation on unmapped pages leaves a partition |
| PagedAccess.WriteCall | src/gem/memory.c:749-860 | reading back a written range gives the written bytes exactly when pages that share storage were given the same bytes; sharers see the same new content; every other byte, other aliases of write-copy pages included, is what it was; a written WRITE_COPY page becomes READWRITE and an EXECUTE_WRITECOPY page EXECUTE_READWRITE, and all other protections stay |
| PagedAccess.ReadCall | src/gem/memory.c:839-852 | a read returns the range's bytes, one for each address, moves none, and leaves every page's content as it was; only caller-owned write-copy pages of the range change their protection, to READWRITE or EXECUTE_READWRITE |
| PagedAccess.FailedAccess | src/gem/memory.c:772-803 | a failed access changes nothing, except that a guard hit clears and stamps exactly the first guard of the range, and in deferred mode not even that |
| PagedAccess.AccessSucceeds | src/gem/memory.c:754-803 | an access succeeds exactly when its addresses do not wrap, every page allows it, no guard is armed and working storage and copies can be had; otherwise the error is that of the first page that refuses, or of the first armed guard, or of the want of storage |
| PagedAccess.WriteCopyAliasIsApart | src/gem/memory.c:804-826 | an alias that shares only with write-copy pages of the range is untouched by the write |
| PagedAccess.UnstampedByAccess | src/gem/memory.c:804-836 | an access changes the protection of a mapped page and not its stamp if and only if it succeeds, is a read or a fetch, and the page is in its range, caller-owned and write-copy |
| PagedAccess.ReadChangesUnstamped | src/gem/memory.c:827-836 | a memory of one such page in which reading one byte does it |
| TransactionCalls.SnapshotCall | src/gem/memory.c:920-983 | a snapshot succeeds exactly at a page address whose page is committed and either has no record while there are fewer than 256, or has one it is still like; each failure has its own error and leaves no trace; success adds exactly one record, true of the page, if there was none, and otherwise changes nothing |
| TransactionCalls.PinIsCurrent | src/gem/memory.c:953-975 | the record that snapshot or validate adds is current, and the others stay what they were |
| TransactionCalls.RefreshIsCurrent | src/gem/memory.c:1222-1238 | a refreshed record is current and no other record becomes current or stale by it |
| TransactionCalls.GuardHitIsCurrent | src/gem/memory.c:1035-1060 | after a guard hit the record is current exactly when the content was not stored to since it was recorded and a caller-owned page has the right hash |
| TransactionCalls.SnapshotsAgree | src/gem/memory.c:952-979 | two successful snapshots of an owned page return the same bytes, whatever ran in between |
| TransactionCalls.ValidateCall | src/gem/memory.c:985-1067 | validate succeeds exactly when every page of the range is recorded or can be, is like its record, allows the access and has no guard armed, and otherwise reports the first page in the way; it adds records of exactly the pages it reached, and takes at most the guard it reports; however it ends, the records it makes are current and those that were current still are |
| TransactionCalls.FinishCall | src/gem/memory.c:1069-1100 | when finish succeeds, every owned page recorded has the backing, bytes and protection it had whenever its record was current |
| TransactionCalls.FinishDecides | src/gem/memory.c:1069-1100 | finish succeeds exactly when every recorded page is as recorded, and otherwise names the first that is not |
| TransactionCalls.EndCall | src/gem/memory.c:909-918 | ending a transaction drops exactly its own pins |
| CommitPages.CommitPagesCall | src/gem/memory.c:1102-1292 | commit_pages succeeds exactly for at most 64 writes, with every record current, each write with data for a page boundary no earlier write has, its page committed, unguarded and READWRITE, WRITE_COPY or executable with either, and a copy granted where one is needed; the error is that of the first write in the way; an error changes nothing, except that a guard error disarms the first armed guard and leaves the records current; on success written write-copy pages become READWRITE or EXECUTE_READWRITE and no other protection changes, every page shows its data exactly when writes to one storage agree, pages out of reach keep their bytes, and a record of owned storage is current exactly when no write to another page came over it last |
| CommitPages.FinishAfterCommit | src/gem/memory.c:1222-1238 | a finish right after a commit, all recorded pages being owned, succeeds exactly when on each recorded page its own write came last or none reached it |
| CommitPages.WritesRun | src/gem/memory.c:1197-1247 | after k writes every page shows the data of the last of them that reaches it, and copied pages share with none |
| CommitPages.PublishFacts | src/gem/memory.c:1199-1217 | publishing a page gives its bytes to it and to those that still share with it, and separates exactly a copied page |
| PendingCopies.EditSettles | src/gem/memory.c:1250-1262 | an edit commutes with the making of owed copies unless it reads or overwrites storage a copy is owed to |
| PendingCopies.PublishOwedSettles | src/gem/memory.c:1204-1217 | publishing a page with its bytes still owed is, once they are copied, publishing it with those bytes |
| PendingCopies.PinnedKept | src/gem/memory.c:1215-1216 | no edit frees storage that a copy is owed to, except the owing commit letting go |
| ShapeIndependence.ShapePublish | src/gem/memory.c:1136-1196 | what commit_pages decides and edits does not depend on owned bytes |
| ShapeIndependence.RecordsKnowKept | src/gem/memory.c:1218-1231 | a record says truly whether its backing is caller-owned, after every edit |
| SplitCommit.SplitRun | src/gem/memory.c:1197-1262 | a commit stopped where it gives up the metadata lock, with its copies made, is the commit made in one piece |
| CommitProtocol.ValidateInRequests | src/gem/memory.c:1008-1060 | recording a page and then checking it, as two requests with nothing in between, is one page of validate |
| CommitProtocol.RequestRefines | src/gem/memory.c:308-338 | a call, or a write of the host to its own page, that comes in while copies are owed answers, edits and leaves memory as if they had been made |
| CommitProtocol.ProtocolStep | src/gem/memory.c:1250-1272 | every step of the split protocol is one whole call or nothing, with the same answer |
| CommitProtocol.SplitCommitsAreAtomic | src/gem/memory.c:1117-1272 | every schedule, whatever runs while commits copy, gives the answers and the memory of the same calls made whole in that order, provided new storage lies on a stripe the commit holds; the byte count is the subject of CommitCounts |
| CommitProtocol.QuiescentIsWhole | src/gem/memory.c:1263-1272 | with no copy owed at either end the two memories are equal |
| CommitProtocol.CopiedPageIsShut | src/gem/memory.c:308-338 | while a copy is owed, no call that locks a range gets in if a page of the range shows the storage being copied to, however that page came about |
| CommitProtocol.UncoveredCopyIsRead | src/gem/memory.c:1471-1483 | storage on a stripe no commit holds can be aliased and read while it is being copied to |
| CommitProtocol.TornRead | src/gem/memory.c:1117-1136 | after any number of lines such a read returns those lines of the new page and the rest of the old one; it is neither page exactly when a line differs on each side |
| CommitCounts.CommitCountIsWhole | src/gem/memory.c:1239-1274 | the bytes a commit counts as it copies, whatever runs in between, are those that the commit made in one piece would have counted on the memory with all owed copies made |
| CommitCounts.StepCounts | src/gem/memory.c:1250-1262 | every step of the protocol but a publication by the transaction itself keeps the sum of what its commit has counted and what it will still count |
| StripeLocks.InsertStripe | src/gem/memory.c:261-270 | the list stays strictly ascending and within 256 entries, and gains exactly the one stripe |
| StripeLocks.ListDependencyStripes | src/gem/memory.c:300-307 | the list holds exactly the stripes of the recorded pages and their backings: page number modulo 256, and backing address in 64-byte lines modulo 256 |
| StripeLocks.MarkRange | src/gem/memory.c:308-330 | the marks are exactly the stripes of the pages of the range and of what backs them, all stripes for 256 pages or more, and none if the range is empty or wraps |
| StripeLocks.ListFits | src/gem/memory.c:261-270 | a strictly ascending list of stripes has at most 256 entries |
| StripeLocks.NoDeadlock | src/gem/memory.c:56-64 | while any call is unfinished some call can go on, writers waiting for holders and readers also for waiting writers |
| StripeLocks.CallsFinish | src/gem/memory.c:144-199 | any number of calls started with no lock held, in any interleaving, make no more moves than they have lock operations, and when none can move all have finished |
| StripeLocks.MovingStaysSane | src/gem/memory.c:144-199 | taking and releasing locks keeps the order and mutual exclusion |
| StripeLocks.RangeCallDisciplined | src/gem/memory.c:1383-1395 | a range call takes metadata before stripes, stripes ascending, and leaves none |
| StripeLocks.CommitCallDisciplined | src/gem/memory.c:1131-1272 | so does commit_pages, which holds no stripe when it takes the metadata lock again |
| StripeLocks.StripesFirstIsUndisciplined | src/gem/memory.c:1263-1270 | taking it again with stripes still held would break the order |
| PageTable.Table.At | src/gem/memory.c:401-407 | walking one chain finds the record of any page in the table |
| PageTable.Table.Insert | src/gem/memory.c:501-507 | list and chains hold the same records afterwards, with the new one in front |
| PageTable.Table.Unindex | src/gem/memory.c:413-421 | the record leaves its chain and no other; the walk never ends without it |
| PageTable.Table.RemovePages | src/gem/memory.c:455-467 | exactly the records of the range leave list and chains, the rest keep their order |
| PageTable.AgreeRemoved | src/gem/memory.c:413-421 | chains that lose exactly one record agree with a map that loses its page |
| MemoryObject.GemMemory.Check | src/gem/memory.c:442-454 | the loop reports the error of the first page that has one |
| MemoryObject.GemMemory.Reserve | src/gem/memory.c:468-510 | the search, the scan, the allocation and the insertion loops run the plan of reserve, and the base returned is the one ReserveCall describes |
| MemoryObject.GemMemory.Commit | src/gem/memory.c:511-540 | the two loops run the plan of commit, and nothing is changed before all storage is obtained |
| MemoryObject.GemMemory.Decommit | src/gem/memory.c:541-554 | the loop runs the plan of decommit |
| MemoryObject.GemMemory.Protect | src/gem/memory.c:596-611 | setting all protections and then all stamps runs the plan of protect and returns the first page's old protection |
| MemoryObject.GemMemory.Release | src/gem/memory.c:555-565 | runs the plan of release |
| MemoryObject.GemMemory.Unmap | src/gem/memory.c:566-595 | runs the plan of unmap; the unchecked look-ups always find a page because reservations are fully mapped |
| MemoryObject.GemMemory.MakeAlias | src/gem/memory.c:612-653 | runs the plan of alias; on failure the references taken are given back one by one |
| MemoryObject.GemMemory.AccessMemory | src/gem/memory.c:749-860 | validation, guard, copies, promotions and the byte loop run the plan of the access, and a read returns the range's bytes |
| MemoryObject.GemMemory.FinishTransaction | src/gem/memory.c:1069-1100 | reports the first record that is no longer current |
| MemoryObject.GemMemory.CopyLines | src/gem/memory.c:1253-1262 | copying only the cache lines that differ gives the whole page, and counts 64 bytes for each of them |
| MemoryObject.GemMemory.CommitPages | src/gem/memory.c:1102-1292 | checks, publication, line copies and letting go run the plan of commit_pages; with nothing in between the count is 64 for every line that differed from what its page held just before |
| MemoryObject.HomeHolds | src/gem/memory.c:1185-1217 | before owed bytes are copied each owned page still shows its old content at its new home |
| MemoryObject.LastOwedIsLastWriter | src/gem/memory.c:1250-1262 | the copies made so far leave in a page's storage the data of the last write that reached it |
| Coordinator.HybridRuntime.Boundary | src/gem/hybrid_runtime.c:231-313 | frames, depth and stage are never touched; which of resume, stop, fail or not handled is answered at each helper address, exactly; a callback return is accepted exactly when stage, frame, cookie, link register and both stack pointers match; a dispatch leaves the resolved target pending |
| Coordinator.HybridRuntime.PushX64 | src/gem/hybrid_runtime.c:633-679 | a push succeeds exactly with room for a frame, the stack where it is said to be, an x64 target and a word that can be replaced; it then remembers where to go back to and the word it overwrites, puts the sentinel there, and goes to the resolved target with all other registers kept |
| Coordinator.WordMeans | src/gem/hybrid_runtime.c:192-222 | a stack word is its eight bytes, the lowest first |
| Coordinator.HybridRuntime.PopX64 | src/gem/hybrid_runtime.c:681-709 | a pop succeeds exactly at the top frame's return address with its word replaceable; it restores pc, stack pointers, cookie and stage of the matching push and every byte of the overwritten word, moves x8 to x0 and the thread block to x18, and keeps all other registers, whatever the engines did |
| Coordinator.HybridRuntime.EnterCallback | src/gem/hybrid_runtime.c:711-763 | a callback is entered exactly if x64 code left its return address where a call or a tail transfer does and the four bytes before the function lead to a thunk that is no x64 code; it keeps what its frame remembers of the push, records where x64 code resumes, and sets x4, x9, x18, x30 and an aligned stack |
| Coordinator.HybridRuntime.FinishCallback | src/gem/hybrid_runtime.c:765-793 | a call resumes behind itself on its own stack with every other register kept; a tail transfer completes its frame like a pop, result included; either fails only if the tail frame's word cannot be replaced |
| Coordinator.HybridRuntime.RestoreRecords | src/gem/hybrid_runtime.c:600-610 | each byte is as it was before the outermost frame whose record covers it and can be put back was pushed, even if other records cannot; success means all could |
| Coordinator.HybridRuntime.Abort | src/gem/hybrid_runtime.c:612-628 | an abort restores what records it can, forgets all frames, and changes cookie, instruction set and stop reason of the context alone |
| Coordinator.HybridRuntime.ArmTurn | src/gem/hybrid_runtime.c:850-902 | the turn comes to exactly what the engine's answer and the pending flags say: stop, go home, finish a callback, dispatch or enter x64 code; the guest is then exactly there; a turn that goes on lowers the rank, and retired instructions come out of the budget |
| Coordinator.HybridRuntime.X64Turn | src/gem/hybrid_runtime.c:904-944 | one instruction, after which the guest is still in x64 code, has returned through the sentinel or has entered a callback, exactly as the engine's answer says; anything else stops the run; a turn that goes on has retired one instruction |
| Coordinator.HybridRuntime.Run | src/gem/hybrid_runtime.c:817-948 | accepted exactly for a budget within bounds and a context that fits the run in progress or can begin one; terminates; retired plus remaining equals the budget; pushes and pops balance except after an abort; what is left obeys the stack discipline; the reason returned is the one recorded |
| Coordinator.PushSound | src/gem/hybrid_runtime.c:633-679 | a push keeps the stack discipline and the memory of earlier pushes |
| Coordinator.PopSound | src/gem/hybrid_runtime.c:681-709 | a pop returns to the stage below and keeps the discipline |
| Coordinator.CallbackSound | src/gem/hybrid_runtime.c:711-793 | entering or leaving a callback changes nothing a frame remembers of its push |
| Coordinator.OneMoreRestored | src/gem/hybrid_runtime.c:600-610 | restoring one more frame from the top down, even over overlapping records |
| Arm64xImage.ParseSections | src/gem/pe_arm64x.c:371-400 | a section table is accepted exactly when no section is bad, and is then sorted, disjoint and inside the image; otherwise the first bad section decides the error |
| Arm64xImage.ParseCodeMap | src/gem/pe_arm64x.c:511-565 | the same for the code map, whose ranges begin and end in executable sections |
| Arm64xImage.ParseEntries | src/gem/pe_arm64x.c:567-608 | the same for entry ranges, each inside one x64 code range |
| Arm64xImage.ParseRedirections | src/gem/pe_arm64x.c:610-642 | the same for redirections, whose sources ascend strictly |
| Arm64xImage.ParseImage | src/gem/pe_arm64x.c:699-771 | with room for it, an image is accepted exactly when the bytes say something well formed whose section data lie in the file, and it is then what the bytes say; otherwise the status is that of the first stage, and in a table of the first record, that fails |
| Arm64xImage.FindCodeRange | src/gem/pe_arm64x.c:220-232 | stopping at the first range beyond the address misses none |
| Arm64xImage.FindEntryRange | src/gem/pe_arm64x.c:234-246 | the same for entry ranges |
| Arm64xImage.FindRedirection | src/gem/pe_arm64x.c:248-260 | the same for redirections |
| Arm64xImage.Classify | src/gem/pe_arm64x.c:903-967 | classification with early-exit searches equals classification by looking at everything |
| Arm64xImage.ThunkIsX64 | src/gem/pe_arm64x.c:598-602 | every address of an entry range lies in x64 code |
| Arm64xImage.OffsetFound | src/gem/pe_arm64x.c:159-194 | a span is found exactly when the headers or any one section hold it, and where they hold it, whatever order the sections are searched in; else it is a bad address, or a bad argument if it is empty |
| Arm64xImage.OffsetsFollow | src/gem/pe_arm64x.c:159-194 | a byte of a span, asked for alone, is found where the span is found if and only if the span is found in the headers, the byte is not inside them, or the section has equal addresses in file and memory |
| Arm64xImage.OffsetsPart | src/gem/pe_arm64x.c:159-194 | a well-formed image, its section data in the file, with a section that begins inside the headers, in which it is not |
| Arm64xLayout.AcceptedExactly | src/gem/pe_arm64x.c:279-642 | an image is accepted exactly when the bytes, read at the offsets of the file format, describe it, headers, sections, metadata and three tables, and it makes sense |
| Arm64xLayout.HeadersSay | src/gem/pe_arm64x.c:279-369 | headers are accepted or refused, and each field read, by the bytes at the offsets of the file format, the first fault deciding |
| Arm64xLayout.MetadataSays | src/gem/pe_arm64x.c:404-465 | the metadata is found through the pointer at 0xC8 of the load configuration, its seven fields at their offsets, and the status is that of the first thing missing on the way |
| Arm64xLayout.SensibleIsWellFormed | src/gem/pe_arm64x.c:371-642 | what the parser insists on is that sections, ranges and redirections are inside the image, sorted and disjoint, that code begins and ends where bit 29 of a section allows it, and that entry ranges lie in x64 code |
| Arm64xLayout.ClassifiedMeans | src/gem/pe_arm64x.c:903-967 | an address is a redirection's source first, then in an entry range, then code of its range's kind, then data; each piece of information is that of the one table entry that holds the address |
| Arm64ecTarget.Resolve | src/gem/arm64ec_target.c:101-141 | the hop-limit error is reported exactly when the redirection chain enters a cycle; otherwise the end of the chain is resolved |
| Arm64ecTarget.ResolvesExactly | src/gem/arm64ec_target.c:101-141 | an address resolves to a target exactly when a path of redirections leads to it and on from it none, and it is code that may run |
| Arm64ecTarget.EndlessExactly | src/gem/arm64ec_target.c:117-129 | the cycle that meets the hop limit is there exactly when following redirections comes to no end |
| Arm64ecTarget.TerminalMeans | src/gem/arm64ec_target.c:57-99 | where no redirection leads on, an address is a target exactly as code of a range inside an executable section, aligned to four if it is ARM code; otherwise it is not executable, or misaligned |
| Arm64ecTarget.LongChainCycles | src/gem/arm64ec_target.c:117-129 | more redirected addresses in a row than redirections means a cycle |
| Arm64ecTarget.CycleNeverEnds | src/gem/arm64ec_target.c:117-129 | a chain that has come back to an address never leaves the redirected ones |
| Arm64ecTarget.EndsOnce | src/gem/arm64ec_target.c:101-141 | a redirection chain ends in one place at most, and one that ends enters no cycle |
| Arm64ecTarget.ResolveAgain | src/gem/arm64ec_target.c:101-141 | a resolved address resolves to itself with the same kind and no hop |
| Arm64ecTarget.ThunkStopsAtX64 | src/gem/arm64ec_target.c:57-99 | an entry-range address is never taken for ARM code nor found malformed |
| Arm64ecTarget.CheckedThread.Dispatch | src/gem/arm64ec_target.c:152-192 | accepts exactly an ARM64EC thread whose x11 resolves, is authorized and, if it resolves to x64 code, comes with an x10 that resolves to ARM code; only then, and only for x64 code, x9 gets the target and x11 the end of the chain from x10; a foreign thread and a denied target have their own status |
| Arm64xLoader.Materialize | src/gem/pe_arm64x_loader.c:51-216 | for a base other than 0 a failed load puts mapping and backings back, and a successful one gives every page the protection that headers and sections agree on and the bytes of headers, sections and bindings over zeros; a conflict of protections or a bad binding is reported only if there is one, and with storage to be had the outcome is exactly `Verdict`; for base 0 it never succeeds, and leaves its reservation behind exactly when it gets as far as the reservation and that succeeds |
| Arm64xLoader.LoadableExactly | src/gem/pe_arm64x_loader.c:72-204 | the outcome is success exactly when the image is asked for at its own base, other than 0, there is room for it, all that covers a page agrees on its protection, the file holds its sections, and every binding is in order |
| Arm64xLoaded.RefusedExactly | src/gem/pe_arm64x_loader.c:60-204 | which loads are refused, for what and in which order, said of sections, bytes and bindings without the loader's marks: the first section that clashes in a page or is not in the file decides, then the bindings |
| Arm64xLoader.AgreedExactly | src/gem/pe_arm64x_loader.c:140-148 | marking pages section by section meets no conflict exactly when any two sections, or a section and the headers, agree wherever they share a page |
| Arm64xLoaded.CompatibleIsAgreed | src/gem/pe_arm64x_loader.c:140-148 | the agreement the loader checks is that sections with a byte in a common page ask for the same, and those that meet the headers for reading alone |
| Arm64xLoaded.FinalMeans | src/gem/pe_arm64x_loader.c:23-31 | the final protection of a page is what bits 29 to 31 of any section with a byte in it ask for, else reading if headers are in it, else no access |
| Arm64xLoader.LoadedContents | src/gem/pe_arm64x_loader.c:123-194 | each byte of a loaded image is that of the last binding whose slot covers it, else of the section whose raw data it is in, else of the headers, else 0 |
| Arm64xLoaded.LoadedMeans | src/gem/pe_arm64x_loader.c:123-204 | after a load every byte is that of the last binding over it, lowest byte first, else of its section's bytes in the file, else of the headers, else 0, and its page has the protection its sections ask for, else reading for headers, else none |
| Arm64xLoader.WriteShows | src/gem/pe_arm64x_loader.c:123-160 | a write into the image overwrites exactly its bytes of what the image shows |
| Arm64xLoader.ReleaseRestores | src/gem/pe_arm64x_loader.c:210-216 | releasing the image's reservation succeeds and undoes the load |
| Arm64xLoader.ZeroBaseLeaks | src/gem/pe_arm64x_loader.c:102-111 | releasing address 0 does not give back a reservation beyond 4 GiB; if a reservation of that size lies at address 0, it removes that one instead |
| Arm64xLoader.ImageWrite | src/gem/pe_arm64x_loader.c:112-160 | a write into the image touches nothing outside it |
| Arm64xLoader.MarkSection | src/gem/pe_arm64x_loader.c:140-148 | a section's pages are marked exactly when none is already marked otherwise |
| Arm64xLoader.Bind | src/gem/pe_arm64x_loader.c:162-194 | a binding goes once into a data section of the image, points outside it, and puts its value into its slot over what was there |
| I386Runtime.I386Machine.Turn | src/gem/i386_engine.c:104-167 | exactly which context, count, reason and next quantum a quantum leaves: a conflict keeps context and count and halves the quantum, any other keeps its count and, if it got through an instruction or stopped for a reason that allows it, its context; an undisturbed one doubles the quantum up to 256 |
| I386Runtime.I386Machine.Run | src/gem/i386_engine.c:87-180 | refused exactly while running, after a backend failure, for a bad context or a budget over the limit; the budget is never exceeded and running out of it means it was used up, as it is when nobody interferes; quanta are bounded by instructions retired plus conflicts; a run that used up its budget reports the real count exactly if the budget is below 2^32 |
| I386Runtime.SteadyRun | src/gem/i386_engine.c:176-176 | a run of a well-behaved backend that uses up any given budget and reports its remainder modulo 2^32 |
| I386Runtime.QuantumKept | src/gem/i386_engine.c:150-166 | the quantum stays a power of two between 1 and 256 |
| ContextWire.RoundTrips | src/gem/context_serialization.c:51-143 | a byte string decodes to a context exactly when the context is acceptable and the string is its encoding |
| ContextWire.LaidOutExactly | src/gem/context_serialization.c:51-123 | the encoding of a context is the one string of 740 bytes with each field at its offset; values too wide for their field have none |
| ContextWire.ParsedExactly | src/gem/context_serialization.c:78-143 | a byte string decodes to a context exactly when magic, versions and sizes are right, every field stands at its offset, the lowest byte first, and the context is acceptable |
| ContextWire.ParsedFits | src/gem/context_serialization.c:124-143 | what is accepted encodes to the same bytes again |
| ContextWire.Serialize | src/gem/context_serialization.c:103-123 | writes the encoding at the front of the buffer, or nothing |
| ContextWire.Deserialize | src/gem/context_serialization.c:124-143 | accepts exactly complete and acceptable encodings |
| ContextWire.Put | src/gem/context_serialization.c:4-18 | writes the low bytes of a value in place, lowest first, and nothing else |
| ContextWire.WidthsFill | src/gem/context_serialization.c:51-76 | the fields fill the 740 bytes exactly |
| ContextConversion.FlagsReturn | src/gem/context_conversion.c:12-47 | flags survive the way to x64 and back in every arithmetic mode, and disturb no other bit |
| ContextConversion.FlagsReturnFromX64 | src/gem/context_conversion.c:12-47 | the same starting from x64 |
| ContextConversion.FlagMeanings | src/gem/context_conversion.c:12-25 | the carry is complemented for a subtraction, the other flags are carried over |
| ContextConversion.ControlReturns | src/gem/context_conversion.c:49-90 | the control bits that MXCSR represents survive the way there and back |
| ContextConversion.StatusReturns | src/gem/context_conversion.c:49-90 | so do the status bits |
| ContextConversion.MxcsrReturns | src/gem/context_conversion.c:49-90 | so does a convertible MXCSR on the way to ARM and back |
| ContextConversion.MxcsrThrough | src/gem/context_conversion.c:49-90 | whatever other bits the ARM registers keep, a convertible MXCSR put into them is read back, all but its upper half |
| ContextConversion.ProducedIsConvertible | src/gem/context_conversion.c:49-72 | an MXCSR made from ARM registers never has bit 6 set |
| ContextConversion.MxcsrMeans | src/gem/context_conversion.c:49-72 | which ARM bit each bit of MXCSR comes from: flags as they are, masks complemented, the two rounding bits exchanged, flush-to-zero on top |
| ContextConversion.ToX64Views | src/gem/context_conversion.c:161-193 | an ARM64EC thread converts exactly if it is valid, to each register where it lives, flags bit by bit, MXCSR from the ARM control words and the rest as stored |
| ContextConversion.MaterializedShows | src/gem/context_conversion.c:96-123 | an x64 thread shows each x64 register where it lives, RAX in x8, RCX in x0 and so on, RSP in sp, with stored flags and control words, and only if it is a valid x64 thread |
| ContextConversion.Thread.FromX64 | src/gem/context_conversion.c:195-240 | refused exactly for denormals-are-zero, an empty or foreign thread block or an x64 thread; an invalid context is begun anew; else each register goes where it lives, the thread converts back to the x64 registers given, but for the unused upper half of MXCSR, and keeps what x64 does not see |
| ContextConversion.Thread.CommitX64 | src/gem/context_conversion.c:125-159 | accepted exactly for a valid x64 thread with the same thread block; each register then is where it lives, the thread reads back as the given x64 registers, and everything the x64 side does not see is kept |
| ContextConversion.Thread.ThereAndBack | src/gem/context_conversion.c:161-240 | to x64 and back is never refused and changes only the cached x64 flags and MXCSR |
| LittleEndian.DecodeEncode | src/gem/context_serialization.c:4-40 | a value that fits is read back as it was written |
| LittleEndian.EncodeDecode | src/gem/context_serialization.c:4-40 | bytes that were read are written back as they were |

## Left out

- Both CPU engines, Blink and Dynarmic: unknown step functions, with the assumptions stated above.
- Fault replay and conflict retry are not claimed to undo guest stores; the source restores CPU state only.
- Real mutexes and condition variables, clocks, and the recursive re-entry of the metadata lock on a protection fault.
- `peek`, `is_external`, the transaction's lock-wait time and the Mach queries about host pages: small readers.
- `gem_memory_create`, `gem_memory_destroy`: the object starts empty here; the KUSER pages it sets up come from the same calls.
- `commit_pages` reports a faulting address; the model reports the error alone.
- The scripted one-shot paths of `hybrid_runtime.c` (lines 963-1803): the generic coordinator has the same parts.
- `wine_bridge.c`, `x64_engine.c`, `i386_memory.c` and the tools: thin wrappers and plumbing.
- TransactionCalls.ValidateCall: takes its pages in one go. The source gives up the lock between pages; in CommitProtocol each page's record and its check is a request of its own, with any other call in between (`CommitProtocol.ValidateInRequests`).
- CommitProtocol.SplitCommitsAreAtomic: the answer of a commit is its error; that its byte count too is that of the whole commit is CommitCounts.CommitCountIsWhole.
- CommitProtocol.TornRead: one write by a transaction with no records, which is enough for a torn read to exist; CommitProtocol.UncoveredCopyIsRead is about every state. Lines are copied whole, while the source's copy within a line is not atomic either.
- MemoryObject.GemMemory.MakeAlias: new records wait in a sequence, not on a private linked list, before they enter the table; so do those of Reserve.
- MemoryObject.GemMemory.RemovePages: backings are dropped after all records are out of the table instead of one by one; removal order makes no difference.
- MemoryObject.GemMemory.CommitPages: nothing else runs while the metadata lock is given up; what may run then is the subject of CommitProtocol. Backings are let go in the opposite order.
- Backings are values in a map in the memory object, not heap records; snapshot, validate, identity and host mappings, KUSER binding and ending a transaction are modelled as plans only.
- Coordinator.HybridRuntime.PushX64: which addresses resolve where, and which words can be read and replaced, is arbitrary; Arm64ecTarget and PagedAccess say it for images and for the memory object.
- Coordinator.HybridRuntime.RunArm: the boundary return address that is set for trap delivery only matters as a call that may fail.
- I386Runtime.I386Machine.Run: conflicts may recur for ever, so the loop is followed for any given number of quanta.
- Arm64xLoader.Materialize: starts from the parsed image; parsing is Arm64xImage.ParseImage.
- Section names, relocations, exports and every other part of the PE format that the source does not read.
