# Software pipelining of matmul loops, and the CUDA launcher's argument handling

This project models two parts of the Triton compiler in Dafny and proves properties of the model.

The first part is the matmul loop pipeliner of the TritonGPU dialect. It covers:

- which loads of a `scf.for` body are pipelined (`assignMemoryLayouts`), and the first use of each (`getFirstUseOfPipelinedLoad`);
- the ring-buffer depth of each load, and the stage groups that share insert/extract counters (`createAsyncOps`);
- the loop-carried counter slots appended to the loop and the yield patched to step them, and the `select(c + 1 < n, c + 1, 0)` increment (`createIncrementModulo`);
- the per-descriptor counters threaded out of nested `scf.if`s (`rewriteTMABufferUpdates`);
- the grouping of descriptor loads under shared mbarriers and the bytes each barrier expects (`createTMABarrierAndWait`);
- the final schedule (`getFinalSchedule`);
- the wait-count resolver (`minNumInterleavedCommitOps`) and the merging of adjacent waits (`combineRedundantWaitOps`);
- rule 3a of `dotCanBeProperlyAsync`, the waits `insertAsyncWarpGroupDotWaitInLoop` adds, and the duplicate-free operand list of `threadValuesThroughWait`.

The second part is the pure core of the NVIDIA backend driver:

- `ty_to_cpp` and `flatten_tuples`;
- the signature normalisation of `make_launcher` and the argument filtering of its `wrapper`;
- the global-scratch size computed by `CudaLauncher.__call__`.

The IR is an arena. An op is an index, and it records its block, a kind tag, its optional `loop.stage` and `loop.cluster` attributes, and its users (module `Ir`). Each module specifies its operation by a function over these values. The loops of the source are methods proved equal to those functions. The properties the source promises are lemmas about the functions. The loop being rewritten is the class `CarriedState.ForLoop`, whose init and yield operand lists the methods update in place.

Modules, one per file:

| file | module |
|---|---|
| `wrappers.dfy` | `Wrappers` |
| `ir.dfy` | `Ir` |
| `first_use.dfy` | `FirstUse` |
| `load_selection.dfy` | `LoadSelection` |
| `ring_counters.dfy` | `RingCounters` |
| `carried_state.dfy` | `CarriedState` |
| `desc_counter.dfy` | `DescCounter` |
| `barrier_groups.dfy` | `BarrierGroups` |
| `final_schedule.dfy` | `FinalSchedule` |
| `wait_resolver.dfy` | `WaitResolver` |
| `wait_merge.dfy` | `WaitMerge` |
| `dot_waits.dfy` | `DotWaits` |
| `launcher.dfy` | `Launcher` |

Two details of the code that the model keeps as written:

- The buffer count of a load is its distance to first use, plus one only for an MMAv3-shared or MMAv5-scale load (MatmulLoopPipeline.cpp:929-935).
- The new wait made by `combineRedundantWaitOps` takes the operands of the second to last waits of a run, not those of the first (MatmulLoopPipeline.cpp:1250-1256).

## Model

Source cells give a file of the repository and the lines the member models.

| member | source | states |
|---|---|---|
| FirstUse.FirstUseIn | lib/Dialect/TritonGPU/Transforms/Pipeliner/MatmulLoopPipeline.cpp:101-119 | a user the scan keeps is one of the load's users, in the load's block, and carries a stage and a cluster |
| FirstUse.FirstUseIsLeast | lib/Dialect/TritonGPU/Transforms/Pipeliner/MatmulLoopPipeline.cpp:99-119 | there is no first use exactly when no user is in the load's block; otherwise it is an in-block user whose (stage, cluster) no in-block user precedes, and the earliest in the use list among those tied with it |
| FirstUse.FirstUseNone | lib/Dialect/TritonGPU/Transforms/Pipeliner/MatmulLoopPipeline.cpp:102-117 | the scan finds nothing if and only if no user is in the load's block |
| FirstUse.FirstUseLeastAt | lib/Dialect/TritonGPU/Transforms/Pipeliner/MatmulLoopPipeline.cpp:104-116 | the kept user sits at a position of the use list where it is least, strictly better than every earlier in-block user and no worse than every later one |
| FirstUse.GetFirstUseOfPipelinedLoad | lib/Dialect/TritonGPU/Transforms/Pipeliner/MatmulLoopPipeline.cpp:101-119 | the loop over the users returns the first use defined above |
| LoadSelection.InfoAfterFacts | lib/Dialect/TritonGPU/Transforms/Pipeliner/MatmulLoopPipeline.cpp:528-566 | after the users loop, `usedByDot` holds iff some user is a dot; `isMMAv3Shared` iff some user is a dot and the load is an MMAv3 buffer; a shared encoding is found iff there is a user and the generic or the dot-branch encoding exists; `isMMAv5Scale` iff a scaled-MMA user met no dot-branch encoding; only a plain load gets a blocked encoding |
| LoadSelection.ClassifyAsWritten | lib/Dialect/TritonGPU/Transforms/Pipeliner/MatmulLoopPipeline.cpp:508-515 | the stage check dereferences the first use exactly when there is none |
| LoadSelection.Classify | lib/Dialect/TritonGPU/Transforms/Pipeliner/MatmulLoopPipeline.cpp:508-515 | a load is a candidate iff its first use exists, is annotated and is in another stage than the load; it never dereferences null; it agrees with the code as written whenever a first use exists |
| LoadSelection.PipelinedUpToExact | lib/Dialect/TritonGPU/Transforms/Pipeliner/MatmulLoopPipeline.cpp:497-573 | the selected loads are exactly the staged body loads with a first use in another stage and a shared encoding, each once, in program order |
| LoadSelection.AssignMemoryLayouts | lib/Dialect/TritonGPU/Transforms/Pipeliner/MatmulLoopPipeline.cpp:491-580 | the loop yields one entry per selected load, in program order, each with the `LoadInfo` the users loop computes for it |
| LoadSelection.AssignDistances | lib/Dialect/TritonGPU/Transforms/Pipeliner/MatmulLoopPipeline.cpp:1127-1133 | every entry keeps its load and info, with `distToUse` set to the first use's stage minus the load's stage, which is never 0 |
| LoadSelection.BufferDepth | lib/Dialect/TritonGPU/Transforms/Pipeliner/MatmulLoopPipeline.cpp:929-935 | a selected load's buffer count (`NumBuffers`) is its stage distance to first use, plus one exactly when it is an MMAv3 buffer used by a dot or feeds a scaled MMA with no dot-branch encoding |
| LoadSelection.NullFirstUseDereferenced | lib/Dialect/TritonGPU/Transforms/Pipeliner/MatmulLoopPipeline.cpp:510-514 | a staged load whose only user is in a nested block has no first use; the code as written dereferences it, the corrected check skips the load |
| RingCounters.IncrementModulo | lib/Dialect/TritonGPU/Transforms/Pipeliner/MatmulLoopPipeline.cpp:807-815 | for a counter in [-1, n) the result is (counter + 1) mod n, inside [0, n) |
| RingCounters.XorOne | lib/Dialect/TritonGPU/Transforms/Pipeliner/MatmulLoopPipeline.cpp:1044-1047 | `x xor 1` flips the lowest bit and keeps the rest; on a phase in {0, 1} it gives 1 - x |
| RingCounters.RunClosedForm | lib/Dialect/TritonGPU/Transforms/Pipeliner/MatmulLoopPipeline.cpp:1026-1048 | starting from -1, -1 and phase 0, iteration k (from 1) sees insert and extract index (k - 1) mod n and phase ((k - 1) div n) mod 2 |
| RingCounters.CountersInRange | lib/Dialect/TritonGPU/Transforms/Pipeliner/MatmulLoopPipeline.cpp:1026-1048 | the indices stay in [0, n) and equal each other, the first iteration uses slot 0, and the phase stays in {0, 1} |
| RingCounters.PhaseFlipsExactlyOnWrap | lib/Dialect/TritonGPU/Transforms/Pipeliner/MatmulLoopPipeline.cpp:1037-1047 | the phase changes between two iterations iff the extract index was n - 1, which is exactly when it wraps to 0 |
| CarriedState.GroupIndex | lib/Dialect/TritonGPU/Transforms/Pipeliner/MatmulLoopPipeline.cpp:952-955 | the MapVector lookup finds the group keyed by the buffer count, or there is none |
| CarriedState.FirstLoadWith | lib/Dialect/TritonGPU/Transforms/Pipeliner/MatmulLoopPipeline.cpp:952 | the position of the first load with a buffer count, before which no load has it |
| CarriedState.GroupsKeyed | lib/Dialect/TritonGPU/Transforms/Pipeliner/MatmulLoopPipeline.cpp:952-955 | there is exactly one stage group per distinct buffer count among the loads, and no other |
| CarriedState.GroupsTrackTMA | lib/Dialect/TritonGPU/Transforms/Pipeliner/MatmulLoopPipeline.cpp:952-955 | a group's `hasTMALoad` holds iff some load with its buffer count is a descriptor load |
| CarriedState.GroupsInFirstInsertionOrder | lib/Dialect/TritonGPU/Transforms/Pipeliner/MatmulLoopPipeline.cpp:952 | the groups are in the order in which their buffer counts first occur among the loads |
| CarriedState.CollectAsyncLoads | lib/Dialect/TritonGPU/Transforms/Pipeliner/MatmulLoopPipeline.cpp:920-957 | the loop makes one async load per selected load, in order, and the stage groups of those loads |
| CarriedState.GroupSlotsLength | lib/Dialect/TritonGPU/Transforms/Pipeliner/MatmulLoopPipeline.cpp:972-981 | the group slots number two per group plus one per group with a descriptor load |
| CarriedState.GroupSlotsAt | lib/Dialect/TritonGPU/Transforms/Pipeliner/MatmulLoopPipeline.cpp:1013-1024 | group g's slots start at its offset: insert index, extract index, then its phase when it has a descriptor load |
| CarriedState.GroupSlotsDistinct | lib/Dialect/TritonGPU/Transforms/Pipeliner/MatmulLoopPipeline.cpp:972-981 | every group slot names an existing group and no slot appears twice |
| CarriedState.PatchedAll | lib/Dialect/TritonGPU/Transforms/Pipeliner/MatmulLoopPipeline.cpp:1073-1080 | once every group slot is patched, the yield is the old operands, the stepped group counters, then the rest of the appended values |
| CarriedState.ForLoop.constructor | lib/Dialect/TritonGPU/Transforms/Pipeliner/MatmulLoopPipeline.cpp:990-992 | a loop holds as many init args as yield operands |
| CarriedState.NewOperands | lib/Dialect/TritonGPU/Transforms/Pipeliner/MatmulLoopPipeline.cpp:967-987 | the appended initial values are -1, -1 (and 0 for a phase) per group in group order, then one 0 per descriptor; it also returns the number of group slots |
| CarriedState.PatchGroup | lib/Dialect/TritonGPU/Transforms/Pipeliner/MatmulLoopPipeline.cpp:1074-1079 | patching group g sets its two or three yield slots to their stepped values and moves the index to group g + 1's slots, leaving the init args alone |
| CarriedState.CreateCarriedState | lib/Dialect/TritonGPU/Transforms/Pipeliner/MatmulLoopPipeline.cpp:967-1080 | the init args gain the slots' initial values; the yield gains the stepped group counters and, for now, the descriptor counters' initial values; the descriptor counters start at the body argument after the group slots; the group slots start at their values after no iteration, and each yield takes every group slot's value after k iterations to its value after k + 1 |
| CarriedState.PhaseSlotsOfTMAGroups | lib/Dialect/TritonGPU/Transforms/Pipeliner/MatmulLoopPipeline.cpp:1014-1023 | a phase slot is laid out only for a group holding a descriptor load |
| CarriedState.CountersAtSlotValues | lib/Dialect/TritonGPU/Transforms/Pipeliner/MatmulLoopPipeline.cpp:1014-1023 | read back from its slots after k iterations, a group's insert and extract indices, and its phase when it has one, are its ring counters after k steps on its own buffer count |
| CarriedState.CarriedCountersStep | lib/Dialect/TritonGPU/Transforms/Pipeliner/MatmulLoopPipeline.cpp:1014-1048 | each group's updated insert index, extract index and phase, stepped modulo that group's own buffer count, take the slot values after k iterations to those after k + 1, and the appended init values are the values after none |
| CarriedState.CarriedYield | lib/Dialect/TritonGPU/Transforms/Pipeliner/MatmulLoopPipeline.cpp:967-992 | the init list and yield that createAsyncOps leaves start every group slot at its first value and step it once per iteration |
| CarriedState.LoadCountersCycle | lib/Dialect/TritonGPU/Transforms/Pipeliner/MatmulLoopPipeline.cpp:1028-1054 | loads sharing a buffer count share one group (`stageGroups[asyncLoad.numBuffers]`), and for a positive count iteration k uses slot (k - 1) mod numBuffers, with the phase, when the group has one, the parity of the completed rotations |
| DescCounter.WalkFailsOnNonIf | lib/Dialect/TritonGPU/Transforms/Pipeliner/MatmulLoopPipeline.cpp:864-898 | climbing from a descriptor op to the loop body succeeds iff every enclosing op inside the loop is an `scf.if`; on failure it names the innermost other op |
| DescCounter.WalkMeaning | lib/Dialect/TritonGPU/Transforms/Pipeliner/MatmulLoopPipeline.cpp:864-898 | for any choice of branches by the ifs, the value the climb yields to the loop is the stepped counter iff the descriptor op runs, and otherwise the old counter |
| DescCounter.CounterSteppedIffExecuted | lib/Dialect/TritonGPU/Transforms/Pipeliner/MatmulLoopPipeline.cpp:859-902 | the counter yielded for a descriptor op is stepped in an iteration exactly when the op executes in it |
| DescCounter.PropagateCounter | lib/Dialect/TritonGPU/Transforms/Pipeliner/MatmulLoopPipeline.cpp:862-898 | the `while (parent != forOp)` loop computes the climb above |
| DescCounter.RewriteTMABufferUpdates | lib/Dialect/TritonGPU/Transforms/Pipeliner/MatmulLoopPipeline.cpp:828-906 | on success every descriptor was written by `createTMADesc` and every descriptor op climbed, and the yield has each descriptor counter replaced by its stepped value; on failure the first op whose descriptor cannot be written or whose climb fails is named with the reason, every earlier one succeeded, and only the earlier ones are patched; the init args never change |
| DescCounter.WalksSucceedOnIfs | lib/Dialect/TritonGPU/Transforms/Pipeliner/MatmulLoopPipeline.cpp:846-876 | each descriptor op is rewritten iff `createTMADesc` writes its descriptor and only ifs enclose it inside the loop |
| DescCounter.RewriteLoopCounters | lib/Dialect/TritonGPU/Transforms/Pipeliner/MatmulLoopPipeline.cpp:967-1080 | the loop gains every slot's initial value; the rewrite succeeds iff every descriptor can be written and every descriptor op is enclosed only by ifs, and then every appended slot is yielded its stepped value |
| DescCounter.CountersYield | lib/Dialect/TritonGPU/Transforms/Pipeliner/MatmulLoopPipeline.cpp:1000-1003 | writing the stepped descriptor counters over their initial values gives the yield of all stepped slots |
| DescCounter.RewriteOutcome | lib/Dialect/TritonGPU/Transforms/Pipeliner/MatmulLoopPipeline.cpp:1005-1008 | the rewrite of all descriptor ops succeeds iff every descriptor can be written and each op is enclosed only by ifs |
| DescCounter.CounterCountsExecutions | lib/Dialect/TritonGPU/Transforms/Pipeliner/MatmulLoopPipeline.cpp:853-902 | after any run of iterations, a descriptor counter equals the number of iterations in which its op ran, mod numStages, so its slot is inside the buffer |
| BarrierGroups.Candidate | lib/Dialect/TritonGPU/Transforms/Pipeliner/MatmulLoopPipeline.cpp:691-694 | a position the scan may add holds a descriptor load whose async load is a TMA load |
| BarrierGroups.Scan | lib/Dialect/TritonGPU/Transforms/Pipeliner/MatmulLoopPipeline.cpp:688-707 | the forward scan only appends to the group, and stops inside the body |
| BarrierGroups.ScanIncreasing | lib/Dialect/TritonGPU/Transforms/Pipeliner/MatmulLoopPipeline.cpp:688-707 | the members' positions increase and all lie before the stop position |
| BarrierGroups.ScanAdded | lib/Dialect/TritonGPU/Transforms/Pipeliner/MatmulLoopPipeline.cpp:695-701 | every added member is a TMA load with the first member's buffer count and (stage, cluster) |
| BarrierGroups.ScanStopped | lib/Dialect/TritonGPU/Transforms/Pipeliner/MatmulLoopPipeline.cpp:688-699 | the scan stops at the end of the body, at a visited op, at a recorded user of a member, or at a TMA load with another buffer count |
| BarrierGroups.ScanPassed | lib/Dialect/TritonGPU/Transforms/Pipeliner/MatmulLoopPipeline.cpp:688-707 | every position passed was neither visited nor a user of an earlier member, and a TMA load there joined exactly when it matched the first member's stage and cluster |
| BarrierGroups.GroupsUpTo | lib/Dialect/TritonGPU/Transforms/Pipeliner/MatmulLoopPipeline.cpp:661-709 | after any prefix of the outer loop, every group holds indices of async loads |
| BarrierGroups.ScanFromSeed | lib/Dialect/TritonGPU/Transforms/Pipeliner/MatmulLoopPipeline.cpp:665-707 | the scan loop builds the seed's group and adds exactly its members to the visited set |
| BarrierGroups.GroupLoads | lib/Dialect/TritonGPU/Transforms/Pipeliner/MatmulLoopPipeline.cpp:652-709 | the outer loop builds the groups of the specification function |
| BarrierGroups.GroupsShaped | lib/Dialect/TritonGPU/Transforms/Pipeliner/MatmulLoopPipeline.cpp:661-709 | every group starts with a TMA load, and all its members are TMA loads sharing its first member's buffer count and (stage, cluster), in body order |
| BarrierGroups.GroupsUnique | lib/Dialect/TritonGPU/Transforms/Pipeliner/MatmulLoopPipeline.cpp:661-709 | no load is in two groups, nor twice in one |
| BarrierGroups.GroupsCover | lib/Dialect/TritonGPU/Transforms/Pipeliner/MatmulLoopPipeline.cpp:661-663 | every TMA load is in some group |
| BarrierGroups.GroupsPartitionTMALoads | lib/Dialect/TritonGPU/Transforms/Pipeliner/MatmulLoopPipeline.cpp:652-709 | the groups partition the TMA loads: each is in exactly one group at one place, and nothing else is grouped |
| BarrierGroups.GroupBytesBounds | lib/Dialect/TritonGPU/Transforms/Pipeliner/MatmulLoopPipeline.cpp:718-724 | the expected bytes are the group's bits divided by eight per load, losing less than a byte per load, and nothing when every width is a whole number of bytes |
| BarrierGroups.SizeInBytes | lib/Dialect/TritonGPU/Transforms/Pipeliner/MatmulLoopPipeline.cpp:714-724 | the inner loop sums each member's elements times bit width divided by eight |
| BarrierGroups.CreateBarriers | lib/Dialect/TritonGPU/Transforms/Pipeliner/MatmulLoopPipeline.cpp:713-758 | one barrier per group, in group order, keyed to the stage group of its buffer count, with the group's bytes; the expect in the first member's (stage, cluster) before the first member, on the group's insert index; the wait in the first member's first-use (stage, cluster) after the last member, on the group's extract index and phase |
| BarrierGroups.BarrierMatchesGroup | lib/Dialect/TritonGPU/Transforms/Pipeliner/MatmulLoopPipeline.cpp:713-758 | each barrier's stage group has that buffer count and a phase; every member shares the barrier's buffer count and (stage, cluster) and lies between the expect and the wait; the wait runs in the first member's first-use (stage, cluster); the expect indexes the insert slot and the wait the extract and phase slots the loop carries |
| FinalSchedule.BucketsOrdered | lib/Dialect/TritonGPU/Transforms/Pipeliner/MatmulLoopPipeline.cpp:776-783 | the buckets, taken in order, are sorted by cluster and by program order inside a cluster |
| FinalSchedule.ScheduleIsStableSortByCluster | lib/Dialect/TritonGPU/Transforms/Pipeliner/MatmulLoopPipeline.cpp:763-784 | the schedule holds exactly the annotated ops, once each, each paired with its own stage (`WithStages`) below numStages, ordered by cluster and then by program order |
| FinalSchedule.FillBuckets | lib/Dialect/TritonGPU/Transforms/Pipeliner/MatmulLoopPipeline.cpp:765-775 | bucket c holds the annotated body ops of cluster minC + c, in program order |
| FinalSchedule.EmitBucket | lib/Dialect/TritonGPU/Transforms/Pipeliner/MatmulLoopPipeline.cpp:778-781 | the inner loop emits the bucket's ops with their stages |
| FinalSchedule.GetFinalSchedule | lib/Dialect/TritonGPU/Transforms/Pipeliner/MatmulLoopPipeline.cpp:763-784 | the method returns the schedule the lemma above characterises |
| WaitResolver.Commits | lib/Dialect/TritonGPU/Transforms/Pipeliner/MatmulLoopPipeline.cpp:1181-1190 | the commits between two ops are at most the ops between them |
| WaitResolver.CountCommitsBetween | lib/Dialect/TritonGPU/Transforms/Pipeliner/MatmulLoopPipeline.cpp:1181-1190 | the counting loop returns that number of commits |
| WaitResolver.MinNumInterleavedCommitOpsAsWritten | lib/Dialect/TritonGPU/Transforms/Pipeliner/MatmulLoopPipeline.cpp:1180-1236 | a wait without exactly one operand gets 0 |
| WaitResolver.MinOverHistories | lib/Dialect/TritonGPU/Transforms/Pipeliner/MatmulLoopPipeline.cpp:1197-1230 | the running minimum never rises, and the answer is 0 or the running minimum |
| WaitResolver.MinNumInterleavedCommitOps | lib/Dialect/TritonGPU/Transforms/Pipeliner/MatmulLoopPipeline.cpp:1180-1236 | a wait without exactly one operand gets 0, and no answer exceeds `INT_MAX` |
| WaitResolver.MinIsLowerBound | lib/Dialect/TritonGPU/Transforms/Pipeliner/MatmulLoopPipeline.cpp:1197-1230 | the running minimum ends at most at the commits of any history that passes no loop argument twice |
| WaitResolver.MinIsAchieved | lib/Dialect/TritonGPU/Transforms/Pipeliner/MatmulLoopPipeline.cpp:1197-1230 | the running minimum ends where it started or at the commits of some history, which the lemma returns |
| WaitResolver.Shortcut | lib/Dialect/TritonGPU/Transforms/Pipeliner/MatmulLoopPipeline.cpp:1208-1226 | every history has one that passes no loop argument twice and costs no more commits |
| WaitResolver.TrackableStep | lib/Dialect/TritonGPU/Transforms/Pipeliner/MatmulLoopPipeline.cpp:1211-1226 | from an iter arg that reaches no untrackable value, neither its init value nor its yielded value reaches one |
| WaitResolver.TrackableMinIsExact | lib/Dialect/TritonGPU/Transforms/Pipeliner/MatmulLoopPipeline.cpp:1197-1231 | when no untrackable value is reachable, the recursion returns exactly the running minimum it ends with, so the conservative 0 never appears |
| WaitResolver.ResolverIsMinOverHistories | lib/Dialect/TritonGPU/Transforms/Pipeliner/MatmulLoopPipeline.cpp:1180-1236 | for a one-operand wait the answer is at most the commits of every history of the token; when no untrackable value is reachable from the token it is `INT_MAX` or the commits of one such history, so the least over all histories; otherwise it may also be 0 |
| WaitResolver.ResolverUntrackedIsZero | lib/Dialect/TritonGPU/Transforms/Pipeliner/MatmulLoopPipeline.cpp:1204-1230 | a wait on an untrackable value, or on an iter arg whose init or yielded value is untrackable, gets the conservative 0 |
| WaitResolver.SwapLoopRecursesForever | lib/Dialect/TritonGPU/Transforms/Pipeliner/MatmulLoopPipeline.cpp:1208-1226 | on a loop whose yield swaps two token arguments and whose body has no commit, the recursion as written never returns, whatever its depth bound |
| WaitResolver.ResolverAsWrittenDivergesOnSwapLoop | lib/Dialect/TritonGPU/Transforms/Pipeliner/MatmulLoopPipeline.cpp:1233-1235 | as written, the resolver does not return for the wait at the top of that loop's body |
| WaitResolver.ResolverOnSwapLoop | lib/Dialect/TritonGPU/Transforms/Pipeliner/MatmulLoopPipeline.cpp:1180-1236 | with the path pruned, the resolver returns 1 there, the one commit between the token and the loop |
| WaitMerge.RunEnd | lib/Dialect/TritonGPU/Transforms/Pipeliner/MatmulLoopPipeline.cpp:1250-1257 | the scan stops at the first op that is neither a wait nor a subview, or at the end of the block |
| WaitMerge.WaitsIn | lib/Dialect/TritonGPU/Transforms/Pipeliner/MatmulLoopPipeline.cpp:1251-1256 | the waits met by the scan are waits inside the scanned range |
| WaitMerge.RunMembers | lib/Dialect/TritonGPU/Transforms/Pipeliner/MatmulLoopPipeline.cpp:1247-1257 | a wait is in the run from s iff only waits and subviews lie from s to it; the run is in block order |
| WaitMerge.MinNumIsLeast | lib/Dialect/TritonGPU/Transforms/Pipeliner/MatmulLoopPipeline.cpp:1249-1253 | the merged count is the least count of the run's waits, and the count of one of them |
| WaitMerge.LeadOfRunMember | lib/Dialect/TritonGPU/Transforms/Pipeliner/MatmulLoopPipeline.cpp:1244-1257 | a wait belongs to the run scanned from a lead wait iff that wait is its lead |
| WaitMerge.ScanRun | lib/Dialect/TritonGPU/Transforms/Pipeliner/MatmulLoopPipeline.cpp:1246-1257 | the inner loop collects the run's waits, their least count and the operands of all but the first |
| WaitMerge.CombineKeys | lib/Dialect/TritonGPU/Transforms/Pipeliner/MatmulLoopPipeline.cpp:1243-1267 | after the outer loop has seen a prefix, the deleted waits are those whose lead lies in it and whose run has more than one wait |
| WaitMerge.CombineValues | lib/Dialect/TritonGPU/Transforms/Pipeliner/MatmulLoopPipeline.cpp:1243-1267 | every deleted wait maps to the new wait made for its lead's run |
| WaitMerge.CombineRedundantWaitOps | lib/Dialect/TritonGPU/Transforms/Pipeliner/MatmulLoopPipeline.cpp:1240-1272 | the method builds the deletion map and the new waits of the specification function |
| WaitMerge.CombineMergesRuns | lib/Dialect/TritonGPU/Transforms/Pipeliner/MatmulLoopPipeline.cpp:1240-1272 | a wait is replaced iff the run from its lead has more than one wait, and then by that run's new wait; a wait alone in its run is untouched |
| WaitMerge.MergeOfRun | lib/Dialect/TritonGPU/Transforms/Pipeliner/MatmulLoopPipeline.cpp:1246-1263 | the new wait of a run covers exactly the waits led by its first, has their least count, and takes the operands of the waits after the first |
| DotWaits.InsertAllFacts | lib/Dialect/TritonGPU/Transforms/Pipeliner/MatmulLoopPipeline.cpp:1325-1331 | inserting into a SetVector keeps it duplicate-free, keeps the old entries in place, and holds exactly the old and the inserted values |
| DotWaits.InsertAllOrder | lib/Dialect/TritonGPU/Transforms/Pipeliner/MatmulLoopPipeline.cpp:1331 | the new entries come in the order of their first occurrence among the inserted values |
| DotWaits.ThreadedOperandsFacts | lib/Dialect/TritonGPU/Transforms/Pipeliner/MatmulLoopPipeline.cpp:1317-1360 | the new wait keeps each old operand at its old index, has no duplicates, holds exactly the old operands, the values and the memory descriptors, and orders the new ones by first occurrence |
| DotWaits.ThreadValuesThroughWait | lib/Dialect/TritonGPU/Transforms/Pipeliner/MatmulLoopPipeline.cpp:1317-1360 | the method builds that operand list |
| DotWaits.AllAccumulatorUses | lib/Dialect/TritonGPU/Transforms/Pipeliner/MatmulLoopPipeline.cpp:1519-1522 | `all_of` holds iff every use is a `warp_group_dot` reading operand 2, and holds vacuously on no uses |
| DotWaits.Rule3aAsWritten | lib/Dialect/TritonGPU/Transforms/Pipeliner/MatmulLoopPipeline.cpp:1517-1524 | rule 3a dereferences the iter arg exactly when rule 2 found none |
| DotWaits.Rule3aChecked | lib/Dialect/TritonGPU/Transforms/Pipeliner/MatmulLoopPipeline.cpp:1517-1524 | with a missing iter arg the dot is not made async; otherwise it agrees with the code as written |
| DotWaits.Rule3aDecides | lib/Dialect/TritonGPU/Transforms/Pipeliner/MatmulLoopPipeline.cpp:1517-1524 | the dot is properly async, with the iter arg's index, iff every use of the iter arg is as another dot's accumulator; otherwise rule 3b is tried |
| DotWaits.NullIterArgDereferenced | lib/Dialect/TritonGPU/Transforms/Pipeliner/MatmulLoopPipeline.cpp:1479-1524 | when rule 2 finds no yield use, rule 3a as written reads a null iter arg; the corrected rule rejects the dot |
| DotWaits.UseBlocksFacts | lib/Dialect/TritonGPU/Transforms/Pipeliner/MatmulLoopPipeline.cpp:1586-1600 | the blocks of the non-yield uses, each once |
| DotWaits.StartWaitsMembers | lib/Dialect/TritonGPU/Transforms/Pipeliner/MatmulLoopPipeline.cpp:1585-1609 | the start-of-block waits are exactly one per dot and block holding a non-yield use |
| DotWaits.StartWaitFacts | lib/Dialect/TritonGPU/Transforms/Pipeliner/MatmulLoopPipeline.cpp:1602-1608 | a start-of-block wait sits at the block's start, waits for everything (`pendings` 0), and threads the dot's result first and once |
| DotWaits.LoopWaitsPlacement | lib/Dialect/TritonGPU/Transforms/Pipeliner/MatmulLoopPipeline.cpp:1574-1632 | no wait is added iff there is no properly async dot or the body already has a `wait 0`; otherwise every non-yield use block of every dot gets a `wait 0`, and a last wait right after the last dot allows as many dots in flight as there are and threads every dot's result |
| DotWaits.GroupUsesByBlock | lib/Dialect/TritonGPU/Transforms/Pipeliner/MatmulLoopPipeline.cpp:1586-1600 | the loops group the non-yield uses by block: each block holding a use once, with exactly the uses in it |
| DotWaits.GatherMemDescs | lib/Dialect/TritonGPU/Transforms/Pipeliner/MatmulLoopPipeline.cpp:1333-1355 | the memory descriptors reached from the values, value by value |
| DotWaits.AnyWaitZero | lib/Dialect/TritonGPU/Transforms/Pipeliner/MatmulLoopPipeline.cpp:1580-1583 | the `any_of` scan holds iff some body wait has `pendings` 0 |
| DotWaits.WaitsAtUseBlocks | lib/Dialect/TritonGPU/Transforms/Pipeliner/MatmulLoopPipeline.cpp:1602-1608 | one `wait 0` per use block of a dot, at that block's start |
| DotWaits.InsertAsyncWarpGroupDotWaitInLoop | lib/Dialect/TritonGPU/Transforms/Pipeliner/MatmulLoopPipeline.cpp:1574-1632 | the method creates the waits of the specification function |
| Launcher.TyToCpp | third_party/nvidia/backend/driver.py:71-91 | an empty name raises an index error; a name succeeds iff it is a pointer, `none` or a scalar of the table; pointers and `none` map to `CUdeviceptr`, scalars to their table entry |
| Launcher.TyToCppTable | third_party/nvidia/backend/driver.py:71-91 | every pointer is a `CUdeviceptr`, `i1` widens to `int32_t`, and `constexpr` is not in the table |
| Launcher.FlattenAppend | third_party/nvidia/backend/driver.py:94-100 | flattening distributes over concatenation |
| Launcher.FlattenOne | third_party/nvidia/backend/driver.py:94-100 | a leaf yields itself, a tuple its flattened elements, and an empty tuple nothing |
| Launcher.FlattenNoTuples | third_party/nvidia/backend/driver.py:94-100 | without tuples flattening changes nothing |
| Launcher.FieldsOfJoin | third_party/nvidia/backend/driver.py:127-129 | joining with commas, splitting and dropping empty fields gives each part's non-empty fields in order |
| Launcher.SerializeFlattens | third_party/nvidia/backend/driver.py:115-129 | for plain type names, serialising, joining, splitting and filtering equals flattening |
| Launcher.KeepAtPositions | third_party/nvidia/backend/driver.py:152-163 | filtering by index keeps the values at exactly the undropped positions, in ascending order |
| Launcher.NormalizedSignatureFacts | third_party/nvidia/backend/driver.py:121-135 | no `constexpr` and no empty name survives; the keys are exactly the undropped positions of the flattened list, not renumbered |
| Launcher.FieldsAreFlattenedLeaves | third_party/nvidia/backend/driver.py:121-129 | for plain type names the fields are the flattened entries left after the first removal |
| Launcher.NormalizeCommentExample | third_party/nvidia/backend/driver.py:106-135 | the signature of the source's own comment normalises to `{0: 'i32', 1: '*f32'}` |
| Launcher.NormalizeGapExample | third_party/nvidia/backend/driver.py:127-135 | a `constexpr` inside a tuple leaves a gap in the keys |
| Launcher.WrapperAlignsWithSignature | third_party/nvidia/backend/driver.py:121-163 | arguments shaped like the signature reach the launch aligned with it: one value per key, the j-th from the j-th key's flattened position, keys ascending |
| Launcher.ScratchAllocSize | third_party/nvidia/backend/driver.py:185-190 | scratch is allocated iff its per-program size is positive |
| Launcher.ScratchPerProgram | third_party/nvidia/backend/driver.py:185-190 | the allocation is empty iff the grid is, and holds a whole slice for every program of the grid |

## Left out

- MatmulLoopPipeline.cpp builds and erases IR, and the model does not: allocations, async copies, TMA loads and gathers, barrier allocation and init, subviews, `replaceAllUsesWith`, op erasure, and the schedule update at the end of `createAsyncOps`. The model keeps the decisions those steps take: which ops, which counters, which slots, which groups, which waits.
- The helpers outside the named core are inputs of the model, not modelled. These are `getTransitiveUserInBlock`, `getSharedEncoding`, `getSharedEncIfAllUsersAreDotEnc`, `getBlockedEncoding`, `getBackwardSlice` (the memory descriptors a value reaches), `getMinMaxCluster`, the stage and cluster of each op and of each load's first use, and whether `createTMADesc` succeeds for each descriptor op (the `descOk` argument).
- Rules 1, 2 and 3b of `dotCanBeProperlyAsync` are not modelled. Rule 3a takes rule 2's iter arg, or its absence, as input.
- The position of a new `warp_group_dot_wait` is recorded, not the dominance-based replacement of its results' uses.
- Integers are unbounded. The 32-bit counters, `INT_MAX` as the resolver's start value, and the `int` byte counts do not wrap in the model.
- The block of a value's uses is a number. Blocks are not nested, and `findAncestorOpInBlock` for users in nested blocks is an input (the recorded users of a barrier group).
- Python exceptions other than those of `ty_to_cpp`, the C helpers `build_signature_metadata` and `launch`, the scratch allocator call and the CUDA driver are not modelled. Signature keys are dropped; only the values' order matters.
- WaitResolver.Commits: counts commits only within the sink's block. The source walks `getNextNode` from the def's successor and would run off the block for a def in another block; that case is outside the model.
- WaitResolver.MinNumInterleavedCommitOpsAsWritten: carries a depth bound (`fuel`), so that the recursion as written can be stated at all. `None` stands for running out of depth.
- DescCounter.RewriteLoopCounters: patches the group slots before the descriptor counters. The source does these in the other order; the two touch disjoint yield positions, so the final yield is the same. A failure is returned as a value where the source stops with `llvm_unreachable`.
- DotWaits.GroupUsesByBlock: lists the use blocks in the order of their first use. The source walks a DenseMap keyed by block, whose order is unspecified. Each wait goes to the start of its own block, so the order does not change the resulting IR.
- CarriedState.LoadCountersCycle: the closed form needs a buffer count of at least 1, and the model does not prove that for a selected load. `AssignDistances` only gives a non-zero distance to use, so a first use in an earlier stage than its load would give a non-positive buffer count.
- LoadSelection.AssignMemoryLayouts: the source's `loadToInfo.count(&op)` re-visit check never fires on a single pass over distinct ops and is not modelled.
- Launcher.SerializeFlattens: holds only for type names that are non-empty and have no comma. Names that break the comma round trip are outside the model.

## Findings

| source | as written | input that shows it | evidently intended | confidence | as-written member | corrected member |
|---|---|---|---|---|---|---|
| lib/Dialect/TritonGPU/Transforms/Pipeliner/MatmulLoopPipeline.cpp:510-514 | the first use of a staged load is passed to `maybeGetStageCluster` and logged without a null check | a staged load whose only user sits in a nested region of the body, so no user is in the load's block | skip the load, as the `!firstUseStageCluster` branch does for a user without attributes | not executed | LoadSelection.ClassifyAsWritten, shown by LoadSelection.NullFirstUseDereferenced | LoadSelection.Classify |
| lib/Dialect/TritonGPU/Transforms/Pipeliner/MatmulLoopPipeline.cpp:1208-1226 | the recursion through a loop argument follows the yielded value with no record of the arguments already on the path | a loop whose yield swaps two arguments that both carry a token made before the loop, with no commit in the body and one commit between the token and the loop | stop following an argument already on the path, which yields the least count over all histories whenever the token reaches no untrackable value | not executed | WaitResolver.MinNumInterleavedCommitOpsAsWritten, shown by WaitResolver.ResolverAsWrittenDivergesOnSwapLoop | WaitResolver.MinNumInterleavedCommitOps, proved by WaitResolver.ResolverIsMinOverHistories, WaitResolver.TrackableMinIsExact and WaitResolver.ResolverOnSwapLoop |
| lib/Dialect/TritonGPU/Transforms/Pipeliner/MatmulLoopPipeline.cpp:1479-1524 | rule 3a calls `getUses()` on `iterArg`, which stays null when rule 2 met no use of the dot by the loop's yield | a dot whose result is used only inside an `scf.if` that does not yield it, or not at all | treat a dot without a loop-carried result as not properly async | not executed | DotWaits.Rule3aAsWritten, shown by DotWaits.NullIterArgDereferenced | DotWaits.Rule3aChecked |
