# Verified model of the pctwm testing engine

This project models, in Dafny, the weak-memory testing engine under `pctwm/`: the modification-order
graph and the execution engine built on it, the race detector that uses the engine's clocks, the index
structures both rely on, the allocator for snapshotted memory, and the two mechanisms that decide which
thread runs. It proves what each part is for: that accepted executions are coherent, that reported races are
exactly the races, that the structures implement a map, a stable sort and best fit, that the heap stays well-formed.

`dafny verify dfyconfig.toml` checks everything.

## Parts

Each file holds one module. Code that updates state is a class whose methods are proved against functions or
relations on values; what holds over whole runs is proved about those.

- **Modification order.** `clocks`, `mograph` (reachability and the theory of the one-entry clock test),
  `cyclegraph` (the mutable graph: worklist, splicing, pruning), `counterexamples`.
- **Execution engine.** `actions`, `coherence`, `execution_state` (the transition system), `engine`,
  `engine_order`, `engine_cycles`, `engine_exact`, `engine_clocks`, `engine_entries`, `engine_sync`, `engine_values`,
  `engine_candidates`, `engine_least`, `engine_fences`, `engine_progress` (invariants and
  theorems over all runs), `execution` (the engine's methods, each proved to take a step of the transition system). Loads, stores, RMWs, compare-and-swaps,
  fences of every order, joins, locks and thread creation are steps; acquire, release and seq_cst orders are as in the
  source. `small_runs`, `counterexample_runs` and `fence_runs` build single runs, step by step from the initial state.
  The theorems about runs say what the steps amount to without naming the functions the steps are made of: the clocks
  decide exactly the happens-before that program order, thread creation, joins, locks and release sequences make; a read
  may observe exactly the writes the rules leave; and the modification order is contained in every order that obeys the rules.
- **Race detector.** `race_records` (packed and expanded records), `race_detector` (the arrays changed in
  place), `shadow_memory` (tables on demand and the multi-byte fast path), `race_history`, `shadow_history` and `race_engine`
  (reports are exact for every history of accesses of any sizes, and for every run of the engine), `powers`.
- **Index structures.** `probing` and `hash_table`; `trie`, `links` (doubly linked lists as pointers) and `action_list`.
- **Allocator.** `size_index`, `bitmaps`, `tree_bins`, `chunk_rings`, `bin_edits`, `tree_search`, `large_bins`,
  `free_bins`, `heap_layout`, `mspace`.
- **Scheduling.** `priorities` and `scheduler`; `wait_graph`.
- `options` holds what all share: optional values, sequences without repetition.

Random choices, program values and the thread that runs are parameters or labels, and every theorem holds for all of them.

## Where the code and its documentation differ

The model follows the code. Six shortcuts do not always do what the comments say. Each has an input on which it
fails, for the engine a run from the initial state, and its exact condition.

- `addRMWEdge` relies on the last merge reporting a change to push the RMW's clock to the successors it takes
  over. When the write it read is by the same thread and knows no other thread, nothing is pushed and
  `checkReachable` misses those successors: `MoGraph.SpliceExact` says when, and `CounterexampleRuns.StaleRun` is a run
  of six steps. The test is exact along a run exactly as long as each RMW's clock is pushed, by the splice or by an edge
  added after it (`EngineExact.RunTestsExact`). It stays sound in every run (`Engine.RunTestSound`), so coherence does not
  depend on it.
- `addNodeEdge` attaches an edge at the end of the source's RMW chain, although the caller's check was about its
  start. This can close a cycle: `CounterexampleRuns.CycleRun` is a run of ten steps. A run stays acyclic
  exactly as long as no step attaches an edge at a node its target reaches (`EngineCycles.RunAcyclicExact`). While it is
  acyclic, every read of a written location finds a write to read from (`EngineProgress.RunProgress`); after a cycle a
  read can reject every candidate, and the source then picks from an empty set (`CounterexampleRuns.StuckRun`).
- `r_modification_order` skips a thread when the reader's previous access to the location, made since its last fence,
  knew as much of that thread. That access need not have looked at the thread's writes the way this read must,
  so the rules of section 29.3, paragraphs 4 and 5 of ISO/IEC 14882:2011, which the comments cite, can be missed
  (`FenceRuns.StoreHidesSeqCst`, `FenceRuns.RelaxedReadHidesFence`). A read keeps a fence rule exactly when it scans the
  write's thread, or the write was already ordered before what it reads or before the end of the RMW chain of one of
  its priors (`EngineFences.RunReadFenceExact`). Paragraph 6 holds in every run (`EngineFences.RunBetweenFences`).
- `set_chg_pts_byread` draws until it has `bugdepth` different numbers, meant to lie between 1 and the bound. A seed
  divides each random number first, so fewer may be left to draw, and one only when the seed is negative; the loop
  can end exactly when enough are left (`Priorities.DrawsSuffice`, `Priorities.LargeSeedStuck`,
  `Priorities.NegativeSeedStuck`).
- `minmerge` is the minimum only when the receiver has no live entry past the argument's end (`Clocks.MinMergeExact`,
  `Clocks.MinMergeKeepsTail`).
- `compute_tree_index` looks at 32 bits of the shifted size (`SizeIndex.TreeIndexExact`, `SizeIndex.FirstMisfiled`).

## Model

Sources are relative to the repository.

| member | source | states |
|---|---|---|
| `Clocks.ClockVector.constructor` | pctwm/clockvector.cc:19-31 | A new vector is the parent's clock with the action's own entry set. |
| `Clocks.ClockVector.Merge` | pctwm/clockvector.cc:44-63 | The result is the pointwise maximum, and `true` is returned exactly when some entry grew. |
| `Clocks.ClockVector.MinMerge` | pctwm/clockvector.cc:70-89 | The value it leaves behind, entries past the argument's length included; `true` is returned exactly when some entry it looks at shrank. |
| `Clocks.MinMergeExact` | pctwm/clockvector.cc:65-89 | That value is the pointwise minimum if and only if the receiver has no live entry past the end of the argument; the comment in the source promises it always. |
| `Clocks.MinMergeKeepsTail` | pctwm/clockvector.cc:70-89 | Merging [0] into [0, 5] leaves [0, 5], which is not the minimum. |
| `Clocks.ClockVector.SynchronizedSince` | pctwm/clockvector.cc:103-110 | The one-entry test of whether an action is covered, false for a thread the vector does not have. |
| `Clocks.ClockVector.GetClock` | pctwm/clockvector.cc:113-120 | The entry of a thread, 0 past the end. |
| `CycleGraphs.CycleGraph.GetNode` | pctwm/cyclegraph.cc:46-54 | Creates the missing node, with no edges and only its own stamp. |
| `CycleGraphs.CycleGraph.CheckReachable` | pctwm/cyclegraph.cc:282-291 | Answers the clock test, false when either node was never created. |
| `CycleGraphs.CycleGraph.NodeAddEdge` | pctwm/cyclegraph.cc:376-383 | Appends to the out-list and the in-list unless the edge is already there. |
| `CycleGraphs.CycleGraph.NodeRemoveInEdge` | pctwm/cyclegraph.cc:321-329 | Overwrites the first occurrence by the last entry and pops. |
| `CycleGraphs.CycleGraph.Propagate` | pctwm/cyclegraph.cc:82-94 | The clock worklist ends on every graph, cyclic ones included (each push back uses up clock slack), invents no clock entry, and leaves no edge lagging. |
| `CycleGraphs.CycleGraph.AttachAndPush` | pctwm/cyclegraph.cc:79-94 | Attaching an edge and pushing the clock of its source leaves the same edges, clocks that only grew from what reaches their owner, and the new edge in order. |
| `CycleGraphs.CycleGraph.AddNodeEdge` | pctwm/cyclegraph.cc:62-95 | Skips a redundant edge unless forced, follows the RMW chain, attaches at its end, pushes; following the chain ends. |
| `CycleGraphs.CycleGraph.AddEdge` | pctwm/cyclegraph.cc:195-204 | The same on actions, creating the nodes it needs. |
| `CycleGraphs.CycleGraph.TransferEdges` | pctwm/cyclegraph.cc:128-135 | Hands every out-edge of the write over to the RMW; in-lists and out-lists agree again at the end. |
| `CycleGraphs.CycleGraph.AddRmwEdge` | pctwm/cyclegraph.cc:109-138 | Records the RMW, transfers the edges of the write it reads, and orders it right after that write. |
| `CycleGraphs.CycleGraph.Prune` | pctwm/cyclegraph.cc:141-163 | What is left is pairwise unreachable by the clock test, and every write dropped reaches one that was kept. |
| `CycleGraphs.CycleGraph.AddEdges` | pctwm/cyclegraph.cc:140-168 | Prunes, then adds an edge from every survivor, forced from those of the same thread. |
| `MoGraph.TestSound` | pctwm/cyclegraph.cc:271-274 | A positive clock test always has a path behind it, also while a write is being attached, given that same-thread writes are ordered. |
| `MoGraph.TestComplete` | pctwm/cyclegraph.cc:271-274 | Every path is seen by the test as long as clocks grow along edges. |
| `MoGraph.TestExact` | pctwm/cyclegraph.cc:265-274 | For nodes of one location the test holds if and only if there is a path. |
| `MoGraph.PushExact` | pctwm/cyclegraph.cc:79-94 | Pushing through a new edge joins the source's clock to exactly the nodes its target reaches. |
| `MoGraph.PropagatedMono` | pctwm/cyclegraph.cc:82-94 | If only the pushed edge was out of order, afterwards every source clock is at most its target clock. |
| `MoGraph.WithNodeInv` | pctwm/cyclegraph.cc:46-54 | Creating a node keeps the graph invariant and the order of clocks along edges. |
| `MoGraph.AddedEdgeInv` | pctwm/cyclegraph.cc:62-95 | Adding an edge keeps the invariant, every path and every RMW link, and orders the source before the target unless it was skipped. |
| `MoGraph.AddedEdgeOrders` | pctwm/cyclegraph.cc:62-95 | Whether skipped or not, the source then reaches the target, given that same-thread edges are forced. |
| `MoGraph.AddedEdgeAcyclic` | pctwm/cyclegraph.cc:73-79 | Adding an edge closes a cycle if and only if the target already reaches the end of the source's RMW chain. |
| `MoGraph.AddedRmwInv` | pctwm/cyclegraph.cc:109-138 | Splicing keeps the invariant and every path; afterwards the RMW is the only successor of the write it read. |
| `MoGraph.SpliceMisses` | pctwm/cyclegraph.cc:117-137 | When the final merge reports no change, every successor taken over is reachable from the RMW and yet fails the clock test. |
| `MoGraph.SpliceExact` | pctwm/cyclegraph.cc:82-137 | After a splice clocks still agree with edges if and only if nothing was transferred or the read write's clock has an entry of another thread; otherwise some reachable successor fails the test. |
| `MoGraph.AddedAllInv` | pctwm/cyclegraph.cc:164-167 | Adding edges one by one keeps all paths and puts every source before the target. |
| `MoGraph.AddedPrunedInv` | pctwm/cyclegraph.cc:140-168 | Pruning costs nothing: every write originally listed ends up before the target. |
| `Counterexamples.StaleSuccessor` | pctwm/cyclegraph.cc:117-137 | On every graph in which one write precedes the other and nothing else is known, splicing in an RMW of the first leaves it with a successor that is reachable but fails the test. |
| `Counterexamples.ChainClosesCycle` | pctwm/cyclegraph.cc:73-79 | On every graph of this shape, acyclic and passing the check, following the RMW chain closes a cycle. |
| `CounterexampleRuns.StaleRun` | pctwm/cyclegraph.cc:117-137 | A run of six steps, thread starts included, from the initial state after which the RMW reaches a write and yet fails the test. |
| `CounterexampleRuns.CycleRun` | pctwm/cyclegraph.cc:73-79 | A run of ten steps from the initial state whose last read passes its check on an acyclic graph and leaves a cyclic one. |
| `CounterexampleRuns.StuckRun` | pctwm/execution.cc:891-916 | The same run and a join: a thread that knows both writes on the cycle rejects every candidate of its next read. |
| `Actions.RelClockStable` | pctwm/execution.cc:1854-1906 | Recording younger actions does not change the clock a release sequence carries. |
| `Actions.HeadClockLeq` | pctwm/execution.cc:1871-1896 | What a write contributes to its release sequence is at most its own clock. |
| `Coherence.CommittedTestSound` | pctwm/cyclegraph.cc:282-291 | Between recorded writes of one location a positive clock test always has a path behind it. |
| `Coherence.RelClockOrdered` | pctwm/execution.cc:1854-1906 | Whatever the clock of a release sequence covers is ordered before its last write. |
| `Coherence.RecordCoherent` | pctwm/execution.cc:1615-1842 | Recording an action whose clock covers only what is ordered before it keeps the whole execution coherent. |
| `Engine.VisitsAll` | pctwm/execution.cc:1638-1638 | The cyclic order of the thread loop visits every thread. |
| `Engine.ReadScanCovers` | pctwm/execution.cc:1656-1730 | The scan of one thread stops at an access that the covered one is ordered before. |
| `Engine.ReadOrders` | pctwm/execution.cc:1615-1732 | Looking at one access per thread, and skipping threads whose clock has not moved, still orders everything the reader knows before the write it reads. |
| `Engine.ReadClockOrders` | pctwm/execution.cc:1273-1285 | What the reader learns by acquiring is also ordered before the write it reads. |
| `Engine.StoreOrders` | pctwm/execution.cc:1759-1842 | Looking at one access per thread orders everything the writer knows before the new write. |
| `Engine.ReadStepInv` | pctwm/execution.cc:870-916 | A read, pruned from the lists or not, keeps the invariant of the engine. |
| `Engine.StoreStepInv` | pctwm/execution.cc:1759-1842 | A store keeps the invariant. |
| `Engine.RmwStepInv` | pctwm/execution.cc:1581-1593 | A successful RMW, with its read part, splice and write part, keeps the invariant. |
| `Engine.FenceStepInv` | pctwm/execution.cc:1091-1105 | A fence keeps the invariant. |
| `Engine.SyncStepInv` | pctwm/execution.cc:1299-1306 | A join or lock that synchronizes keeps the invariant. |
| `Engine.SpawnStepInv` | pctwm/execution.cc:1152-1178 | Thread creation keeps the invariant. |
| `Engine.RunInv` | pctwm/execution.cc:1394-1578 | Every reachable state is coherent, its graph well-formed and its clocks growing along threads, and its access lists represent every access, pruned reads included. |
| `Engine.RunCoherent` | pctwm/execution.cc:1595-1614 | In every run, if one access happens before another to the same location, the write of the first equals or reaches the write of the second, and what the second observes. |
| `Engine.RunTestSound` | pctwm/cyclegraph.cc:282-291 | In every run the one-entry test never claims an order the graph does not have. |
| `Engine.RunOneRmw` | pctwm/execution.cc:2192-2203 | In every run at most one successful RMW reads from a write, and it is that write's only successor. |
| `Engine.RunListsInverse` | pctwm/cyclegraph.cc:376-383 | In every run out-lists and in-lists are mutual inverses without repetition. |
| `EngineOrder.RunTestExact` | pctwm/cyclegraph.cc:265-291 | In every run whose RMWs meet the side condition of the splice, the test and path existence agree on all nodes of one location. |
| `EngineExact.MonoExact` | pctwm/cyclegraph.cc:265-274 | In a coherent state the test decides reachability within a location if and only if every source clock is at most its target clock. |
| `EngineExact.StepTestExact` | pctwm/cyclegraph.cc:82-137 | From a state where the test is exact, a step leaves one where it is if and only if it is no RMW, or the splice or an edge added after it pushes the RMW's clock. |
| `EngineExact.RunTestsExact` | pctwm/cyclegraph.cc:82-137 | In every run the test is exact in all states up to a given one if and only if every step before it meets that condition. |
| `EngineOrder.AcceptedClear` | pctwm/execution.cc:1673-1732 | Without RMW chains, the check of an accepted read rules out a cycle. |
| `EngineOrder.RunAcyclic` | pctwm/execution.cc:899-902 | In every run without a successful RMW no two distinct writes reach each other. |
| `EngineOrder.RunAcyclicIfClear` | pctwm/cyclegraph.cc:73-79 | The same in every run, RMWs included, none of whose steps attaches an edge at a node its target reaches. |
| `EngineCycles.EdgeTestExact` | pctwm/cyclegraph.cc:73-79 | With clocks that agree with edges, an edge keeps the graph acyclic if and only if the target fails the engine's own test for the end of the source's RMW chain. |
| `EngineCycles.StepAcyclicExact` | pctwm/cyclegraph.cc:62-95 | From an acyclic state a step, of any kind, leaves an acyclic one if and only if it attaches no edge at a node its target reaches. |
| `EngineCycles.ReadClearTest` | pctwm/execution.cc:1673-1732 | For a read that condition is the engine's test of the write read against the end of each prior's RMW chain, where the source tests the prior itself. |
| `EngineCycles.RunAcyclicExact` | pctwm/cyclegraph.cc:62-95 | In every run a state is acyclic if and only if every step so far met the condition: a cycle, once there, stays. |
| `EngineOrder.SplicedCycle` | pctwm/cyclegraph.cc:121-137 | A cycle after a splice comes from a cycle before it, as the comment there claims. |
| `EngineClocks.RunHappensBeforeTransitive` | pctwm/action.cc:683-686 | In every run happens-before passes on the whole clock, so the clock test is transitive. |
| `EngineClocks.RunSeqCstWrites` | pctwm/execution.cc:1767-1776 | In every run the seq_cst writes to a location are ordered as they executed (paragraph 3 of section 29.3 of ISO/IEC 14882:2011). |
| `EngineEntries.RunEntries` | pctwm/clockvector.cc:19-63 | In every run each clock entry of a thread is the number of one of that thread's actions. |
| `EngineSync.RunSynchronizes` | pctwm/execution.cc:1273-1285 | In every run an acquiring read, or an acquire fence after a read of any order in its thread, happens after every releasing write from which a chain of RMWs leads to what was read, and after every release fence before such a write, releasing or not, in its thread. |
| `EngineSync.RunLearns` | pctwm/execution.cc:1854-1906 | Conversely what a read, write or fence knows of another thread it inherited from its own thread or its creator, or it happened before such a write or fence; an action that does not acquire learns nothing. |
| `EngineSync.RelClockCovers` | pctwm/execution.cc:1854-1906 | The clock of a release sequence covers exactly what happens before something the sequence releases. |
| `EngineSync.RunHappensBeforeExact` | pctwm/action.cc:683-686 | In every run the clock test holds between two actions if and only if a path of program order, thread creation, joins and locks with what they synchronize with, and release sequences leads from one to the other. |
| `EngineSync.RunRecords` | pctwm/execution.cc:1249-1258 | In every run the record of a step keeps its kind, order, value and what it read, for good. |
| `EngineValues.ValEqualsBytes` | pctwm/execution.cc:2133-2147 | The comparison of a compare-and-swap holds if and only if the values agree in each of the `size` low bytes. |
| `EngineValues.RunSwaps` | pctwm/cmodelint.cc:207-221 | In every run an RMW that writes is a fetch-and-op, or a compare-and-swap whose value read agrees with the expected one in every byte; a compare-and-swap that does not write read a value that differs in some byte. |
| `EngineCandidates.RunCandidates` | pctwm/execution.cc:2156-2236 | In every run the candidates of a read without a bound are exactly the recorded writes of the location that no later write of their thread, known to the reader, hides, that paragraph 3 of section 29.3 allows a seq_cst read, and that no RMW has read if this read would write; with a bound n each thread gives the n most recent of these. |
| `EngineCandidates.RunReadsReadable` | pctwm/execution.cc:870-916 | In every run what a step reads is one of these writes. |
| `EngineCandidates.RunScRead` | pctwm/execution.cc:2185-2189 | In every run a seq_cst read observes the youngest seq_cst write of the location older than it, or a write that is not seq_cst and does not happen before that one (the read half of paragraph 3). |
| `EngineLeast.RunRejects` | pctwm/execution.cc:1615-1732 | In every run a write is rejected only if it precedes the write of an access that the reader knows or that a seq_cst fence makes count; on an acyclic graph with an exact test an accepted one precedes no write of an access the reader knows. |
| `EngineLeast.RunOrderLeast` | pctwm/execution.cc:1759-1842 | In every run the modification order is contained in every order that obeys the rules (coherence with what readers and writers know, the fence rules, execution order of seq_cst writes, atomicity of RMWs): no two writes are ordered without need. |
| `EngineLeast.RunAtomic` | pctwm/cyclegraph.cc:109-138 | In every run what follows a write that an RMW read, other than the RMW, follows the RMW. |
| `EngineFences.RunBetweenFences` | pctwm/execution.cc:1690-1697 | In every run a write before a seq_cst fence of its thread is ordered before whatever another thread's access, read or write, observes after a later seq_cst fence (paragraph 6 of section 29.3, and 7 with it). |
| `EngineFences.ReadFenceExact` | pctwm/execution.cc:1649-1697 | A write that a fence makes count is ordered before what a read observes if and only if the scan of its thread was not skipped, or it was already ordered before what is read or before the end of a prior's RMW chain. |
| `EngineFences.RunReadFenceExact` | pctwm/execution.cc:1649-1697 | The same for every read of every run, of loads, failed compare-and-swaps and RMWs: the rules of paragraphs 4 to 6 are missed only by skipping a thread. On an acyclic graph the write part of an RMW changes nothing about it. |
| `EngineFences.RunBeforeFence` | pctwm/execution.cc:1682-1689 | In every run a read after a seq_cst fence observes a seq_cst write that preceded the fence, or a later one, if its thread only read the location since the fence (paragraph 4). |
| `EngineFences.RunAfterFence` | pctwm/execution.cc:1674-1681 | In every run a seq_cst read observes a write whose thread took a seq_cst fence before the read, or a later one, if its own thread made only seq_cst reads of the location since that fence (paragraph 5). |
| `EngineProgress.RunProgress` | pctwm/execution.cc:891-916 | In every run, while the modification order is acyclic, a read of any kind finds an acceptable candidate if and only if the location has been written, whatever the history bound. |
| `EngineProgress.CandidateAfter` | pctwm/execution.cc:2156-2240 | Every write of the location is ordered before some candidate of a read, or is one. |
| `FenceRuns.RelaxedReadHidesFence` | pctwm/execution.cc:1649-1654 | A run of eight steps in which a seq_cst read observes a write not ordered after one that paragraph 5 makes count. |
| `FenceRuns.StoreHidesSeqCst` | pctwm/execution.cc:1649-1654 | A run of ten steps in which a read after a fence observes a write not ordered after one that paragraph 4 makes count. |
| `Executions.ModelExecution.LastScFence` | pctwm/execution.cc:2063-2088 | The last seq_cst fence of a thread, before a given fence if one is given. |
| `Executions.ModelExecution.VisitForRead` | pctwm/execution.cc:1638-1731 | One turn of the thread loop: which write becomes a prior, whether the read is rejected, the pruning flag, and the previous access of the own thread. |
| `Executions.ModelExecution.RModificationOrder` | pctwm/execution.cc:1615-1732 | Accepts exactly when no prior is reached by the candidate, and then returns the prior set and the pruning flag. |
| `Executions.ModelExecution.CollectEdges` | pctwm/execution.cc:1759-1842 | The edge set of a write: at most one access per thread, fences and the last seq_cst write included. |
| `Executions.ModelExecution.BuildMayReadFrom` | pctwm/execution.cc:2156-2236 | The candidate writes of `RunCandidates`: in a state of a run exactly the writes the read may observe, and with a history bound the most recent of each thread. |
| `Executions.ModelExecution.ChooseWrite` | pctwm/execution.cc:891-916 | Tries candidates in any order of picks; returns an accepted one, and gives up only when every candidate was rejected. |
| `Executions.ModelExecution.GetHbFromWrite` | pctwm/execution.cc:1854-1906 | The result covers exactly what happens before something the release sequence releases; it is the recursively defined clock, every cached clock stays equal to recomputation, and the walk ends. |
| `Executions.ModelExecution.InitializeAction` | pctwm/execution.cc:1249-1258 | The next sequence number and a clock inherited from the parent action. |
| `Executions.ModelExecution.MergeReleased` | pctwm/execution.cc:903-909 | An acquiring read merges the released clock, and every read adds it to what the thread's next acquire fence merges. |
| `Executions.ModelExecution.CommitAction` | pctwm/execution.cc:1915-1958 | The action joins the per-location lists (unless pruned), the last-action and last-release-fence maps and the fence list. |
| `Executions.ModelExecution.AtomicLoad` | pctwm/execution.cc:870-916 | An atomic load is a step of the transition system and returns the value of the write it reads, or changes nothing, exactly when every candidate is rejected. |
| `Executions.ModelExecution.AtomicStore` | pctwm/execution.cc:1066-1083 | An atomic store is a step of the transition system. |
| `Executions.ModelExecution.AtomicUpdate` | pctwm/cmodelint.cc:120-221 | A fetch-and-op or compare-and-swap is a step, and returns the value it read: an update exactly for a fetch-and-op or when all bytes agree with the expected value, a plain read otherwise; nothing changes exactly when every candidate is rejected. |
| `Executions.ModelExecution.SpliceRmw` | pctwm/execution.cc:1581-1593 | Closing an RMW places it right after the write it read. |
| `Executions.ModelExecution.Fence` | pctwm/execution.cc:1091-1105 | A fence is a step; an acquire fence merges what the thread's reads have seen released. |
| `Executions.ModelExecution.Synchronize` | pctwm/execution.cc:1299-1306 | A join or lock that synchronizes is a step. |
| `Executions.ModelExecution.CreateThread` | pctwm/execution.cc:1155-1178 | Thread creation is a step. |
| `Executions.ModelExecution.DeferAction` | pctwm/execution.cc:1457-1472 | A change point that puts the action back is a step that only uses a sequence number. |
| `RaceRecords.EncodeDecode` | pctwm/datarace.h:89-116 | Every field of a short record that fits its bits is read back as written, and the word fits 64 bits. |
| `RaceRecords.ReadCellMeaning` | pctwm/datarace.cc:662-713 | A read check on a short record and on its expansion give the same verdict and related states. |
| `RaceRecords.WriteCellMeaning` | pctwm/datarace.cc:921-973 | A write check on a short record and on its expansion give the same verdict and the same state. |
| `PowersOfTwo.PopCountPower` | pctwm/datarace.cc:501-517 | At most one bit set means zero or a power of two: the growth rule of the read arrays. |
| `RaceDetector.RaceRecord.constructor` | pctwm/datarace.cc:138-164 | Expanding a packed word gives the record the word stands for. |
| `RaceDetector.RaceRecord.Compact` | pctwm/datarace.cc:476-499 | Keeps, in order, exactly the recorded reads the new read does not subsume. |
| `RaceDetector.RaceRecord.MakeRoom` | pctwm/datarace.cc:501-517 | Whatever is kept, the arrays have room for one more entry. |
| `RaceDetector.RaceRecord.CheckRead` | pctwm/datarace.cc:462-526 | Report and new record of a read. |
| `RaceDetector.RaceRecord.CheckWrite` | pctwm/datarace.cc:230-269 | Report and new record of a write: recorded reads are cleared. |
| `RaceHistory.ReportSound` | pctwm/datarace.cc:230-269 | A report names an earlier access that really races. |
| `RaceHistory.ReportComplete` | pctwm/datarace.cc:462-526 | Nothing that races goes unreported, although subsumed reads and all reads before a write are forgotten. |
| `RaceHistory.RemembersStep` | pctwm/datarace.cc:462-526 | While nothing is reported the record goes on remembering enough. |
| `RaceHistory.ReportsExactly` | pctwm/datarace.cc:128-132 | For every causal history, up to the first report, a check reports if and only if an earlier conflicting access by another thread is unordered, and names one. |
| `RaceHistory.QuietIffRaceFree` | pctwm/datarace.cc:128-132 | A history is checked without a report if and only if it has no race. |
| `RaceEngine.RunCausal` | pctwm/execution.cc:2127-2131 | The clocks the engine hands to the detector always make a causal history. |
| `RaceEngine.RunSilentIffRaceFree` | pctwm/datarace.cc:591-660 | For every run of the engine and every sequence of non-atomic accesses to a byte along it, the detector stays silent if and only if no two of them race. |
| `RaceEngine.RunRacyExact` | pctwm/datarace.cc:128-132 | In every run two accesses race if and only if they are by different threads, one writes, and nothing the earlier thread did after its access happens before the last action of the later thread. |
| `ShadowMemories.SameTable` | pctwm/datarace.h:122-123 | Within the boundary check the entries of adjacent bytes lie side by side in one table. |
| `ShadowMemories.OwnSpot` | pctwm/datarace.cc:58-73 | Different addresses below 2^48 have different entries. |
| `ShadowMemories.PutEntry` | pctwm/datarace.cc:58-73 | Storing the entry of a byte changes the entry of that byte and of no other. |
| `ShadowMemories.BytewiseEntry` | pctwm/datarace.cc:591-660 | Checking the bytes from `a` to `a + n` one by one takes one step from the entry of each byte `b` with `a <= b < a + n`, and changes the entry of no other byte. |
| `ShadowMemories.SameStep` | pctwm/datarace.cc:736-762 | A byte whose word equals the first byte's old word takes the same step by taking its new word. |
| `ShadowMemories.ShadowMemory.Lookup` | pctwm/datarace.cc:58-73 | Makes a missing table on demand and finds the entry of an address, which is that of no other address. |
| `ShadowMemories.ShadowMemory.Other` | pctwm/datarace.cc:662-713 | Checks one byte. |
| `ShadowMemories.ShadowMemory.First` | pctwm/datarace.cc:591-660 | Checks the first byte and hands out old and new word only when that was a step between packed words. |
| `ShadowMemories.ShadowMemory.CheckBytes` | pctwm/datarace.cc:727-779 | The check on 2, 4 or 8 bytes leaves exactly the entries of a bytewise check: each byte covered takes one step from its own entry, no other entry changes; each report is a report of one of these steps, and there is one whenever some step reports. |
| `ShadowHistory.EntryAfter` | pctwm/datarace.cc:591-660 | After any checks from empty shadow memory the entry of a byte is what exactly the accesses covering that byte leave. |
| `ShadowHistory.TouchReportsExactly` | pctwm/datarace.cc:727-835 | Up to the first report a check on any number of bytes reports something if and only if an earlier access that shares a byte with it races with it. |
| `ShadowHistory.RunChecksSilent` | pctwm/datarace.cc:727-835 | For every run of the engine and every sequence of non-atomic accesses of any sizes along it, the checks stay silent if and only if no two accesses that share a byte race. |
| `Probing.FreeMeansAbsent` | pctwm/hashtable.h:236-252 | A free slot on the way from a key's home proves the key absent. |
| `Probing.SearchOn` | pctwm/hashtable.h:238-250 | A search never comes back to its start, so it ends. |
| `Probing.SomeFree` | pctwm/hashtable.h:181-208 | With fewer keys than slots some slot is free. |
| `Probing.Inserted` | pctwm/hashtable.h:184-218 | Taking the first free slot keeps every key reachable without a gap. |
| `Probing.ShiftBack` | pctwm/hashtable.h:291-316 | An entry that may not stay fills the hole and leaves one behind, with every other key still reachable. |
| `Probing.ShiftDone` | pctwm/hashtable.h:296-302 | At the first free slot no search can miss an entry any more. |
| `Probing.StayTest` | pctwm/hashtable.h:304-310 | The comparisons of the source are one cyclic test. |
| `PowersOfTwo.MaskIsRemainder` | pctwm/hashtable.h:187-202 | Masking with a power of two less one is the remainder. |
| `HashTables.HashTable.Get` | pctwm/hashtable.h:225-252 | The stored value, or 0. |
| `HashTables.HashTable.Contains` | pctwm/hashtable.h:337-357 | True exactly for stored keys. |
| `HashTables.HashTable.Put` | pctwm/hashtable.h:169-218 | The map gains or replaces exactly this entry, resizing first when the table is too full. |
| `HashTables.HashTable.Resize` | pctwm/hashtable.h:364-401 | A table of the new size with the same map. |
| `HashTables.HashTable.Remove` | pctwm/hashtable.h:259-322 | Returns the value or 0, and the map loses exactly this key. |
| `HashTables.HashTable.CloseGap` | pctwm/hashtable.h:287-316 | Backward shifting keeps every remaining key reachable, also around the end of the table. |
| `HashTables.HashTable.Reset` | pctwm/hashtable.h:115-121 | The map is empty. |
| `ActionLists.ActionList.FindPrev` | pctwm/actionlist.cc:33-88 | The last action with a strictly smaller clock, or none, for every clock: climbing with a borrow across levels, then descending. |
| `ActionLists.ActionList.MakePath` | pctwm/actionlist.cc:95-153 | Afterwards the trie has exactly the nodes the live clocks and the new clock need. |
| `ActionLists.ActionList.AddAction` | pctwm/actionlist.cc:90-155 | The list that the pointers stand for gains the action after the last one of its own or a smaller clock. |
| `ActionLists.ActionList.RemoveAction` | pctwm/actionlist.cc:173-225 | The list that the pointers stand for loses exactly this action, or nothing when it is not in it. |
| `ActionLists.ActionList.SpliceIn` | pctwm/actionlist.cc:104-126 | The pointer writes of an insertion splice the node in after its predecessor or at the front. |
| `ActionLists.ActionList.SpliceOut` | pctwm/actionlist.cc:192-205 | The pointer writes of a removal splice the node out. |
| `ActionLists.ActionList.FindNode` | pctwm/actionlist.cc:187-222 | Walking back from the leaf's node over one clock finds the action exactly when it is listed. |
| `Links.SplicedInOk` | pctwm/actionlist.cc:104-126 | If next, prev, head and tail stand for a sequence, then after splicing in they stand for the sequence with the element put in at that place. |
| `Links.SplicedOutOk` | pctwm/actionlist.cc:192-205 | So does splicing out, for the sequence with the element taken out. |
| `ActionLists.ActionList.DecrementCount` | pctwm/actionlist.cc:157-171 | Every node that lost its last child goes, the root excepted, and the trie indexes the remaining clocks. |
| `ActionLists.ActionList.IsEmpty` | pctwm/actionlist.cc:246-248 | The root's count is zero exactly when the list is empty. |
| `ActionLists.PrevSplits` | pctwm/actionlist.cc:102-126 | Inserting after the predecessor found keeps the list in clock order. |
| `ActionLists.InsertedSorted` | pctwm/actionlist.cc:100-143 | An insertion leaves a stable sort of the actions added. |
| `ActionLists.DeletedSorted` | pctwm/actionlist.cc:173-225 | A deletion leaves a stable sort of the actions still live. |
| `ActionLists.SameMembers` | pctwm/actionlist.cc:90-225 | The list holds exactly the live actions. |
| `Tries.UpMinus` | pctwm/actionlist.cc:35-58 | Taking one off a digit leaves the digits below alone. |
| `Tries.RemovedNodeOk` | pctwm/actionlist.cc:157-171 | Removing an empty node leaves the trie agreeing with the live clocks one level further up. |
| `Tries.RootCount` | pctwm/actionlist.cc:246-248 | The root's count is zero exactly when no clock is live. |
| `SizeIndex.TreeIndexExact` | pctwm/malloc.c:2823-2834 | `compute_tree_index` gives the bin whose range holds the size if and only if the size is below 2^40 or the 32 bits it looks at are at least 0xc000: the truncation to `unsigned int` loses the rest. |
| `SizeIndex.BinsOrdered` | pctwm/malloc.c:2895-2897 | Sizes of a lower bin are smaller than sizes of a higher one. |
| `SizeIndex.KeyBit` | pctwm/malloc.c:2890-2892 | The bit a walk tests at each level is the next bit of the size, and shifting moves on to the one after. |
| `Bitmaps.NextMarked` | pctwm/malloc.c:2915-2918 | Left bits and lowest bit find the next marked bin, or show there is none. |
| `Bitmaps.SmallBits` | pctwm/malloc.c:5486-5502 | Shifting the small map and testing two bits tells whether either bin is marked. |
| `Bitmaps.NextSmall` | pctwm/malloc.c:5506-5508 | The next larger marked small bin is found. |
| `TreeSearch.WrapTest` | pctwm/malloc.c:4411-4426 | Starting from the wrapped-around `-nb`, the unsigned comparison accepts exactly the large enough sizes that fit better. |
| `TreeSearch.Split` | pctwm/malloc.c:4427-4430 | Below a place everything else is below one of its two children. |
| `TreeSearch.WalkEnds` | pctwm/malloc.c:4416-4436 | Leaving the bin, only the deepest untaken right subtree can still hold a better fit. |
| `TreeSearch.NextBin` | pctwm/malloc.c:4438-4446 | In the next non-empty bin every chunk is large enough, and later bins only hold larger ones. |
| `TreeSearch.FirstIsLeast` | pctwm/malloc.c:4448-4455 | Everything below a place is below its first child or larger than it. |
| `LargeBins.LargeBins.FindLarge` | pctwm/malloc.c:4409-4456 | The search finds the smallest chunk of all tree bins that is at least as large as the request, or shows there is none. |
| `LargeBins.LargeBins.FindSmall` | pctwm/malloc.c:4480-4496 | The search finds the smallest chunk of all tree bins. |
| `LargeBins.LargeBins.WalkBin` | pctwm/malloc.c:4410-4436 | The walk down one bin. |
| `LargeBins.LargeBins.WalkLeft` | pctwm/malloc.c:4448-4455 | The walk along first children. |
| `LargeBins.LargeBins.Insert` | pctwm/malloc.c:3625-3674 | The chunk joins the bins, chained to its equals or hung below; tries, rings, headers and bin map stay well-formed. |
| `LargeBins.LargeBins.Unlink` | pctwm/malloc.c:3693-3762 | The chunk leaves the bins, replaced by an equal or by a leaf from below; everything else stays, well-formed. |
| `LargeBins.LargeBins.DetachLeaf` | pctwm/malloc.c:3708-3721 | Finds a leaf below the chunk and clears the pointer to it, or reports that the chunk is a leaf. |
| `LargeBins.LargeBins.Relink` | pctwm/malloc.c:3723-3761 | Gives the place of a chunk, with its parent and children, to another or to nobody. |
| `BinEdits.UnlinkBase` | pctwm/malloc.c:3694-3762 | Unlinking the chunk in the trie when others have its size keeps tries and rings. |
| `BinEdits.UnlinkInner` | pctwm/malloc.c:3707-3762 | So does replacing an only chunk by a leaf below it: that leaf suits the place. |
| `BinEdits.UnlinkChained` | pctwm/malloc.c:3694-3723 | So does unlinking a chunk that is only in a ring. |
| `ChunkRings.JoinedOk` | pctwm/malloc.c:3658-3665 | Linking a chunk in after an equal one keeps every ring a ring. |
| `ChunkRings.BridgedOk` | pctwm/malloc.c:3696-3702 | Linking a chunk out keeps every ring a ring. |
| `FreeBins.FreeBins.InsertChunk` | pctwm/malloc.c:3766-3768 | The chunk joins the bin of its size. |
| `FreeBins.FreeBins.UnlinkChunk` | pctwm/malloc.c:3770-3772 | The chunk leaves the bin of its size. |
| `FreeBins.FreeBins.InsertSmall` | pctwm/malloc.c:3547-3563 | A small chunk joins the front of its bin, in the pointers and in the list they stand for, and the bin is marked. |
| `FreeBins.FreeBins.UnlinkSmall` | pctwm/malloc.c:3566-3588 | A small chunk leaves its bin, in the pointers and in the list they stand for; equal neighbours mean that it was the last, and the bin is unmarked. |
| `FreeBins.FreeBins.LinkFirst` | pctwm/malloc.c:3550-3562 | The pointer writes of an insertion, with the header itself as the next chunk when the bin was not marked. |
| `FreeBins.FreeBins.LinkOut` | pctwm/malloc.c:3577-3581 | The pointer writes of a removal between two different neighbours. |
| `Links.AloneTest` | pctwm/malloc.c:3574-3576 | A chunk has the same neighbour on both sides exactly when it is the only one of its bin. |
| `HeapLayout.FreedOk` | pctwm/malloc.c:5601-5677 | Freeing a used chunk with its free neighbours gives a heap that is tiled again with the same total, tags and feet consistent, no two adjacent free chunks, each free chunk in exactly one of bins, designated victim and top, and every other used chunk as it was. |
| `HeapLayout.CarvedOk` | pctwm/malloc.c:5472-5584 | So does taking a chunk from a free one or from top. |
| `MSpaces.OwnedApart` | pctwm/malloc.c:5472-5584 | Two chunks the program owns never overlap, and both lie inside the segment. |
| `MSpaces.ChunkForOk` | pctwm/malloc.c:5481-5537 | A request below the limit asks for the least multiple of 8 that holds its bytes and a head word and is no smaller than a chunk. |
| `MSpaces.MSpace.constructor` | pctwm/malloc.c:3873-3885 | A fresh space is well-formed and nothing is owned. |
| `MSpaces.MSpace.Free` | pctwm/malloc.c:5586-5685 | Frees exactly this chunk: the space is well-formed and all other owned chunks keep their place and size. |
| `MSpaces.MSpace.Malloc` | pctwm/malloc.c:5472-5584 | Returns a newly owned chunk, large enough and not a whole chunk too large, all others untouched; it is the smallest binned chunk that is large enough unless the victim is preferred, else the victim, else the front of top. Gives up only when none of these could serve the request. |
| `MSpaces.MSpace.MallocLarge` | pctwm/malloc.c:4409-4477 | The smallest binned chunk that is large enough, if it is smaller than a victim that fits; otherwise nothing changes. The rest of the chunk is kept. |
| `MSpaces.MSpace.MallocFromTree` | pctwm/malloc.c:4480-4515 | The smallest binned chunk that is large enough serves a small request. |
| `MSpaces.MSpace.MallocSmall` | pctwm/malloc.c:5482-5532 | The smallest binned chunk that is large enough serves a small request, except that a victim that fits goes before all but a remainderless small bin. |
| `MSpaces.SmallestSmall` | pctwm/malloc.c:5486-5510 | The first chunk of the next marked small bin is the smallest binned chunk that is large enough. |
| `MSpaces.SmallestTree` | pctwm/malloc.c:4409-4496 | So is the best fit of the tree bins, when no small bin can serve the request. |
| `MSpaces.MSpace.ReplaceDv` | pctwm/malloc.c:3611-3620 | The old victim goes to its bin. |
| `MSpaces.KeptIs` | pctwm/malloc.c:5612-5655 | Unlinking what is binned of the block leaves exactly the bins' other chunks. |
| `Schedulers.Scheduler.SetChangePoints` | pctwm/schedule.cc:118-148 | The change points are the first different numbers drawn, sorted, with any seed and any bound but 0; it succeeds exactly when that many different ones were drawn. |
| `Schedulers.Scheduler.SortPoints` | pctwm/schedule.cc:139-147 | The bubble sort leaves different numbers strictly increasing, and the same numbers. |
| `Priorities.DrawsRunOut` | pctwm/schedule.cc:125-132 | However much is drawn, it never yields more different numbers than the bound, the seed and the largest random number leave. |
| `Priorities.DrawsSuffice` | pctwm/schedule.cc:125-132 | Whatever was drawn before, drawing on can yield the change points asked for if and only if there are that many different numbers to draw: then and only then can the loop end. |
| `Priorities.DrawExact` | pctwm/schedule.cc:169-185 | Exactly the numbers from 1 to that count can be drawn: the bound less one, the largest random number divided by the seed, or 1 for a negative seed. |
| `Priorities.LargeSeedStuck` | pctwm/schedule.cc:118-132 | With bound 100 and seed 1234567890 no draws yield two change points. |
| `Priorities.NegativeSeedStuck` | pctwm/schedule.cc:118-132 | With a negative seed none do, whatever the bound. |
| `Schedulers.Scheduler.InsertHigh` | pctwm/schedule.cc:234-267 | A new thread goes to a random place and the order of the others is kept. |
| `Schedulers.Scheduler.AddThread` | pctwm/schedule.cc:634-640 | It is enabled and has a high slot. |
| `Schedulers.Scheduler.MoveThread` | pctwm/schedule.cc:270-296 | The thread leaves the first slot that holds it for the given low slot. |
| `Schedulers.Scheduler.FindChangeIndex` | pctwm/schedule.cc:214-221 | The last change point equal to the count, or -1. |
| `Schedulers.Scheduler.FindHighest` | pctwm/schedule.cc:312-345 | The first available thread in slot order, 0 when there is none. |
| `Schedulers.Scheduler.GetHighestThread` | pctwm/schedule.cc:364-399 | The only enabled thread, or the first in slot order, or -1. |
| `Schedulers.Scheduler.CountInstruction` | pctwm/execution.cc:1429-1440 | At a change point, and only there, the highest available thread moves to that point's low slot. |
| `Schedulers.BothAgree` | pctwm/schedule.cc:312-399 | Whenever an enabled thread exists and all are in slots, both searches return the same enabled thread, and none enabled ranks higher. |
| `Priorities.HighestRanks` | pctwm/schedule.cc:312-399 | The highest thread is available, and no available one has an earlier slot. |
| `Priorities.MoveKeeps` | pctwm/schedule.cc:270-296 | A move into a free slot leaves each thread in exactly one slot and the others where they were. |
| `Priorities.AddKeeps` | pctwm/schedule.cc:234-267 | So does adding a thread, and the others keep their order. |
| `Priorities.RunRanked` | pctwm/execution.cc:1429-1440 | In every run each added thread sits in exactly one slot. |
| `Priorities.RunDemotes` | pctwm/execution.cc:1429-1440 | In every run the thread just moved ranks below every other, which keep their places. |
| `Priorities.RunFillsOnce` | pctwm/schedule.cc:214-221 | In every run each low slot is filled at most once, in ascending order, and is found free. |
| `WaitGraph.StepKeeps` | pctwm/model.cc:489-512 | Each step keeps the wait-for graph acyclic unless it is the switch that reports the deadlock, and a report means a cycle; after a switch, reported or not, the check's own assumptions hold. |
| `WaitGraph.RunAcyclic` | pctwm/model.cc:509-512 | In every run the wait-for graph is acyclic until a deadlock is reported, and a cycle is reported at the very switch that closes it. |
| `WaitGraph.IntoFreeAcyclic` | pctwm/execution.cc:955-969 | Granting a lock makes others wait for a thread that waits for nobody, which closes no cycle. |
| `WaitGraph.MeetsNew` | pctwm/threads.cc:560-563 | Along a chain that has not met the thread asked for, every thread is new. |
| `WaitGraph.IsWaitingOn` | pctwm/threads.cc:549-564 | Decides whether one thread waits for another, directly or not, a recursive lock by its holder excepted, and ends even when the state has a cycle. |
| `WaitGraph.RunDeadlockExact` | pctwm/model.cc:509-512 | In every run in which nothing was reported there is no nonempty set of threads each of which is about to join one of the set or to lock a mutex that one of the set owns, and a step reports if and only if it leaves such a set. |
| `WaitGraph.RunDeadlockBlocks` | pctwm/execution.cc:1319-1343 | In every run no thread of such a set can take its pending operation. |
| `WaitGraph.NotEnabled` | pctwm/execution.cc:1319-1343 | An operation that cannot be taken is a join of a thread that is not done, or a lock of an owned mutex. |
| `WaitGraph.WaitsIffPath` | pctwm/threads.cc:526-564 | One thread waits for another if and only if a chain of pending joins of the next thread and locks of mutexes it owns leads there. |
| `WaitGraph.RunUnblocked` | pctwm/model.cc:509-512 | In every run without a report, whoever waits waits in the end for a thread that can go on, or that has announced nothing: it runs, or it finished owning a mutex. |
| `WaitGraph.RunOwner` | pctwm/execution.cc:945-1030 | In every run a thread owns a mutex if and only if it was granted it and nobody unlocked it since. |
| `WaitGraph.RunPending` | pctwm/model.cc:505-509 | In every run an operation is pending exactly from the switch that announced it until it is taken. |

## Left out

- Sequence numbers and clocks are unbounded; the 32-bit wrap-around of `modelclock_t` is not modelled.
- Non-atomic stores that are lazily converted into actions (`convertNonAtomicStore`, `add_normal_write_to_lists`).
- Collecting old actions (`collectActions`, `computeMinimalCV`, `freeAction`), which is off by default and removes nodes.
- Bags and local vectors (`updateVec`, `maxVec`, `computeUpdate`, `computeBag_sc`, `update_local_vec`) and the reads chosen through them; which candidate a read tries is a parameter.
- Executions.ModelExecution.AtomicLoad: an empty candidate set is reported as failure, where the source would index an empty vector.
- Executions.ModelExecution.Synchronize: which action a join or lock synchronizes with, the last of the joined thread or the last unlock, is a parameter.
- Executions.ModelExecution.CommitAction: the new action joins the lists after the write scan instead of before it, where the scan skips it.
- Executions.ModelExecution.RModificationOrder: every location has a list for every thread, empty ones included, where the source grows its vectors lazily.
- CycleGraphs.CycleGraph.Propagate: nodes carry clocks as values; sharing and reallocation of clock arrays are covered by `ClockVector` alone.
- Condition variables, timed waits and recursive mutexes.
- RaceHistory.ReportsExactly: counts up to the first report on a byte; what is reported after that is not described.
- ShadowMemories.ShadowMemory.Lookup: the two levels of tables are one map from the upper 32 bits of an address; addresses have 48 bits.
- ShadowMemories.ShadowMemory.CheckBytes: an entry holds the value of an expanded record instead of a pointer to a `RaceRecord`, whose in-place checks are proved separately; 8-bit checks are `Other`.
- RaceRecords.ReadCellMeaning: assumes the reader's own clock entry is positive, which holds for every thread that has acted (`RaceEngine.ShownClock`).
- The race checks for atomic accesses, `recordCalloc`, the checks on whole memory operations, and the hash set that suppresses duplicate reports.
- HashTables.HashTable.constructor: the load factor is the default one half and the capacity a power of two of at least four; a slot whose key is 0 but whose value is not, which the searches allow for, is never made, and allocation failure is not modelled.
- ActionLists.ActionList.AddAction: list nodes are named by the action they hold, and trie nodes by level and prefix, instead of by addresses; parent pointers of the trie are thereby implicit.
- FreeBins.FreeBins.InsertSmall: the header of a small bin is a missing neighbour instead of an address, and each bin has its own map of pointers.
- MSpaces.MSpace.Malloc: one segment below 2^40 bytes, and 0 where the source would ask the system for memory.
- MSpaces.MSpace.Free: trimming, segment release, memory-mapped chunks, footers and the error actions for corrupted or foreign pointers are not modelled.
- LargeBins.LargeBins.Insert: sizes from 2^40 on, for which the bin index is not exact, are not inserted.
- `dispose_chunk`, `mspace_realloc`, `mspace_memalign`, bulk allocation and statistics of the allocator.
- Schedulers.Scheduler.SetChangePoints: the random numbers are an argument, and it fails when they run out, where the source draws on; whether drawing on helps is `Priorities.DrawsSuffice`. A bound of 0, for which the source divides by zero, is excluded.
- Priorities.DrawsSuffice: the largest random number is 0x7fffffff, as in the GNU C library.
- EngineFences.RunBeforeFence: paragraph 4 only under a condition on the reader's thread, because the engine does not always keep it; the exact condition is stated read by read in `RunReadFenceExact`.
- EngineFences.RunAfterFence: paragraph 5 likewise.
- Schedulers.Scheduler.InsertHigh: the scratch vector is a copy of the old order; the source writes it without sizing it first.
- The livelock fallback of `select_next_thread`, sleep sets and external reads.
- Context switching, fork snapshots, signal handling, option parsing, output, and everything under `genmc-tool/`, of which only a driver, headers, benchmarks and scripts are present.
