# A verified model of the beam search's host-side logic

The program runs a multi-GPU beam search over a puzzle graph. This project models the parts that its CPU
references, its history, its planning code and its control code define exactly, and proves what they
promise, for all inputs and over all runs.

- **Frontier selection.** `Frontier` says what a frontier is: the best candidate of every hash, cut to the
  top B. `Stream3` and `Stream4` are the per-rank split and the per-shard merge, `Histogram` the thresholds,
  `FrontierCpu` the whole-depth reference. `Pruning` is the distributed run as a state machine (batch,
  deliver, merge, union, publish, update) in which every step may use any threshold issued so far and any
  published histogram, however old. Its main result is that no threshold ever excludes a member of the true
  top B and that the final frontier is the one obtained by collecting everything. `Distributed` shows that
  splitting, routing and merging per owner is one global merge. `ReferenceRun` runs the reference over many
  depths and shows that a pruned run on one rank ends with exactly its survivors.
- **History and paths.** `HistoryPath` rebuilds paths and shows that they replay to the stored states.
  `PruneAdjacent`, `HistoryState` and `CandidateHistory` are the in-memory history with concurrent prune
  jobs: paths from the newest depth never change, pruning ends, and it ends at a fixpoint. `HistoryBudget`,
  `HybridState` and `StaticHybrid` are the planned storage with fallback after disk failures: live ranges
  never overlap and a read returns what was committed.
- **Calibration frontiers.** `SymmetricGroup`, `CycleSpacing` and `OrbitCertificate` prove the certificate for
  S_n: what it shows, and for exactly which generators one is found.
  `FactorialRanks`, `Enumeration` and `EnumeratedFrontiers` prove that the enumerated frontiers never repeat
  a state, are reachable, and are complete whenever enough arrangements exist.
- **Engine control.** `ControlState` and `EngineControl` are the two-thread protocol.
- **Arithmetic and input.** `Sets` and `Arithmetic` hold shared facts. `RuntimeArithmetic` is the exact
  64-bit sizing, `Csv` the CSV reader together with an exact description of the texts it accepts.

## How to read the model

Values are datatypes, and objects whose fields the program updates are classes. Where a class has much
state, its steps are functions on a snapshot (`HistoryState`, `HybridState`, `ControlState`), invariants are
proved about these, and each method states its whole new snapshot, or that the invariant is kept together
with what its callers rely on. Exceptions are `Result` or `Option` values. Where a computed value could outgrow
the program's 32 or 64 bits (send counts and offsets, cumulative histograms, bounds and budgets, scaled sizes,
sequence numbers), it has a subset type or its fit is stated; elsewhere counts are plain naturals.

The orders, packings and frontiers that the main results are stated through are also given in plain numbers
(`Candidates.HashOrderIsNumeric`, `Stream4.MergeIsNumeric`, `Stream3.SplitIsNumeric`,
`Frontier.TopFrontierIsNumeric` and the members named `...InNumbers`), each equivalent to or implied by the
definition it spells out.

Hashes are ordered keys. The score, the owner key and the shard key are arbitrary functions, so the results
hold for the placeholder score of `src/frontier_cpu.cpp:26` and for any other. `std::sort` is used through
its contract alone (`Sorting.Sort`): some arrangement the comparator accepts, with nothing said about
equivalent elements. CUDA events, worker threads, disk failures and deadlines are nondeterministic choices
or arbitrary oracles.

## Facts a reader may not expect

- Stream3 breaks ties inside a hash by payload id, Stream4 by (parent, route). A split keeps the best
  candidates themselves if and only if payload order agrees with (parent, move)
  (`Stream3.ExactExactlyWhenPayloadAgrees`); `Stream3.SmallerPayloadLosesTheBest` is a batch of two that loses
  its best. Without agreement the final frontier still has the right score at every position
  (`Pruning.PrunedFrontierScoresAreExact`).
- `complete` can throw for an engine that alternates `next` and `complete`: a redundant `prepare` that runs
  out of memory calls `finish` on the running context (`ControlState.SecondPrepareCanBreakCompletion`). It
  throws exactly when some `prepare` call has reported a failure
  (`ControlState.CompleteThrowsExactlyAfterReport`), so never for a controller that prepares once.
- World size times shard count times the logical shard size equals the aligned width exactly when the batch
  alignment is nonzero or the width divides evenly (`RuntimeArithmetic.ShardsHoldTheWidthExactly`). The
  configuration builder refuses alignment 0 (`cuda/runtime_config.cpp:738-746`), so every configuration it
  builds is exact (`RuntimeArithmetic.AlignedShardsAreExact`); only a direct call of the public size
  functions can meet the other case (`RuntimeArithmetic.UnalignedShardsCanExceed`).
- A slot committed out of depth order is marked as copying before the error is raised, which breaks the
  in-memory store's invariant (`CandidateHistory.Store.CommitSlot`).
- When `conservative_union_histogram` reports an overflow it has written exactly the bins before the failing
  one (`Histogram.ConservativeUnionHistogram`, and `Histogram.OverflowCanFollowAWrite` at one input). It also
  works when the output is one of its inputs.

## Model

| member | source | states |
|---|---|---|
| Candidates.RouteRoundTrip | src/hash.cpp:15-31 | A packed route gives back rank, owner and move, and every 32-bit word is the packing of its fields |
| Candidates.RouteIsNumeric | src/hash.cpp:15-31 | A route is rank * 65536 + owner * 256 + move, and unpacking is division and remainder by these numbers |
| Candidates.HashOrderIsNumeric | src/hash.cpp:8-13 | Hashes compare as the numbers hi * 2^64 + lo |
| Candidates.QualityIsNumeric | src/stream4.cpp:11-19 | Inside a hash the smaller score comes first, then the smaller parent, then the smaller route as a number |
| Frontier.BestCovers | src/stream4.cpp:38-44 | Every candidate is matched or beaten by the representative kept for its hash |
| Frontier.BestAbsorbs | src/stream4.cpp:21-46 | Deduplicating early and again after more candidates arrive changes nothing |
| Frontier.BestOfThreshold | src/stream4.cpp:26-36 | Thresholding commutes with deduplication |
| Frontier.TruncationIsTopB | src/frontier_cpu.cpp:35-40 | Sorting and truncating leaves exactly the candidates fewer than B others beat |
| Frontier.SafeKeepsTopB | src/stream4.cpp:54-63 | A threshold at or below which the beam is already filled excludes no member of the true top B |
| Frontier.TopBDependsOnSafePart | src/frontier_cpu.cpp:34-40 | Candidate sets that agree up to a safe threshold have the same top B |
| Frontier.TopBScores | src/frontier_cpu.cpp:34-40 | Up to any score the top B holds as many candidates as there are hashes, and at most B |
| Frontier.BankIsNumeric | src/stream4.cpp:31-36 | A bank is a sequence whose hashes strictly increase as 128-bit numbers |
| Frontier.TopFrontierIsNumeric | src/frontier_cpu.cpp:34-40 | The ordered top B is equivalent to a statement without beaters: at most B candidates in increasing (score, parent, route), each the lowest of its hash, and a hash is missing only from a full frontier that ends before its lowest |
| Sorting.IncreasingIsDetermined | src/stream4.cpp:31-36 | A strictly increasing sequence is determined by its elements, whatever the sort does |
| HashRuns.KeepFirsts | src/stream4.cpp:38-44 | Keeping the first of each run leaves increasing hashes, only leaders of their hash, and every hash |
| Stream4.ThresholdSortDedup | src/stream4.cpp:21-46 | The output is a bank in hash order holding exactly the best surviving candidate of every hash; the same in numbers: 128-bit hashes increase, and no survivor of its hash has a smaller (score, parent, route) than an entry |
| Stream4.MergeIsNumeric | src/stream4.cpp:21-46 | Being the bank of the best survivors is equivalent to the statement in numbers |
| Stream4.UniqueUnionReference | src/unique_frontier_reference.hpp:9-14 | The union of two banks is the bank of the best of both |
| Stream4.OrderIndependent | src/stream4.cpp:21-46 | The result depends on which candidates are given, not on order or multiplicity |
| Stream4.IncrementalMerge | src/stream4.cpp:21-46 | Merging into an already merged bank, at any lower threshold, equals merging everything at once |
| Stream4.Idempotent | src/stream4.cpp:21-46 | Merging a merged bank again changes nothing |
| Stream4.UnionCommutes | src/unique_frontier_reference.hpp:9-14 | The bank union is commutative |
| Stream4.UnionAssociates | src/unique_frontier_reference.hpp:9-14 | The bank union is associative |
| Stream3.PackedOrder | src/stream3.cpp:9-11 | The packed key orders like (score, payload) and keeps the score in its high half |
| Stream3.CompactAndSort | src/stream3.cpp:25-41 | Exactly the candidates under the threshold, packed and in comparator order |
| Stream3.Scatter | src/stream3.cpp:52-74 | Counts and offsets fit 32 bits, offsets are exclusive prefix sums of the counts bounded by the batch, and every peer's segment holds exactly its entries in hash order |
| Stream3.ThresholdDedupSplit | src/stream3.cpp:13-75 | The split of a batch is the scatter of one leader per surviving hash, and the same in numbers; it throws exactly when a survivor meets a world size outside 1 to 256 |
| Stream3.SplitIsNumeric | src/stream3.cpp:43-73 | The local list and every segment of the send buffer hold, in increasing 128-bit hashes, exactly one entry for each surviving hash the peer owns: an input first in (score, payload), with its route as rank * 65536 + peer * 256 + move |
| Stream3.ScatterIsPermutation | src/stream3.cpp:52-73 | Local plus remote is a permutation of the deduplicated batch |
| Stream3.PeerReceivesItsBank | src/stream3.cpp:63-73 | Each peer's segment has its count, is a bank in hash order, and holds exactly what the peer owns |
| Stream3.SurvivorIsDelivered | src/stream3.cpp:43-73 | Every surviving candidate reaches its owner as one of equal hash and no larger score, and the best one reaches it itself under payload agreement |
| Stream3.DeliveredIsOwned | src/stream3.cpp:43-73 | Whatever a rank is sent was generated, is under the threshold and is owned by that rank |
| Stream3.ExactExactlyWhenPayloadAgrees | src/stream3.cpp:33-50 | All best candidates under the threshold are delivered if and only if payload ids agree with (parent, move) up to it |
| Stream3.SmallerPayloadLosesTheBest | src/stream3.cpp:33-50 | A concrete batch of two whose best candidate is not delivered |
| Histogram.HistogramThreshold | src/stream4.cpp:48-64 | Returns the bin where the cumulative count first reaches the beam, the maximum if none does, and overflows exactly when that bin's cumulative count does not fit |
| Histogram.SumIsStepwise | src/stream4.cpp:54-58 | The cumulative count grows by one bin at a time |
| Histogram.CrossingIsUnique | src/stream4.cpp:54-62 | At most one bin is the selected one |
| Histogram.SmallerCountsSelectLater | src/stream4.cpp:54-63 | A histogram that never counts more never selects a smaller threshold |
| Histogram.ConservativeUnionHistogram | src/unique_frontier_reference.hpp:18-30 | In place, every prefix sum of the output is the larger input prefix sum; overflow exactly when an input total does not fit, and then exactly the bins before the failing one are written |
| Histogram.OverflowCanFollowAWrite | src/unique_frontier_reference.hpp:22-28 | An input for which the error is raised after bin 0 has been written |
| Histogram.ConservativeIsLowerBound | src/unique_frontier_reference.hpp:16-30 | The output never counts more hashes than the union holds |
| Histogram.ConservativeThresholdIsNotBelowExact | src/unique_frontier_reference.hpp:16-30 | Conservative selection over two unique banks is never below exact selection over their union |
| Histogram.SelectedIsSafe | src/stream4.cpp:48-64 | A threshold selected from a lower bound is safe |
| Histogram.TotalIsLowerBound | cuda/threshold.hpp:17-28 | Lower bounds of disjoint hash domains may be added |
| Pruning.NextKeepsInv | src/stream4.cpp:21-64 | Every step of the distributed run keeps the invariant: candidates stay where they belong, banks stay unique, published histograms are lower bounds, all thresholds are safe |
| Pruning.GlobalIsLowerBound | cuda/threshold.hpp:17-28 | The all-reduced conservative histogram never counts more hashes than were generated |
| Pruning.RunKeeps | src/stream3.cpp:25-31 | Over every run the best candidates under all issued thresholds are still held |
| Pruning.NoThresholdExcludesTopB | src/unique_frontier_reference.hpp:16-30 | No threshold issued at any point of any run excludes a member of the final true top B |
| Pruning.PrunedTopBIsExact | src/stream4.cpp:21-64 | The pruned run ends with the top B of everything ever generated |
| Pruning.GeneratedIsRanked | src/stream4.cpp:11-19 | The candidates of a run are told apart by score, parent and route, so the final order has no ties |
| Pruning.PrunedFrontierIsExact | src/frontier_cpu.cpp:34-40 | The ordered, truncated frontier of the pruned distributed run is the reference's, and the top B in numbers of everything generated |
| Pruning.PrunedScoresAreExact | src/stream3.cpp:33-50 | Without payload agreement every member of the top B keeps its hash and score |
| Pruning.PrunedFrontierScoresAreExact | src/frontier_cpu.cpp:34-40 | Without payload agreement the truncated frontier has the reference's length and its score at every position |
| Distributed.OutputsAreHashDisjoint | src/hash.cpp:59-64 | Different owners never output the same hash |
| Distributed.DistributedIsGlobal | src/stream3.cpp:13-75 | Split, route and merge per owner equals one global merge of every rank's candidates |
| Distributed.DistributedScoresAreGlobal | src/stream3.cpp:33-50 | Whatever the payload ids, both hold the same hashes with the same scores |
| FrontierCpu.MoveIsUndone | src/state.cpp:40-46 | A move followed by its inverse gives the state back, padding included |
| FrontierCpu.ChildIgnoresPadding | src/frontier_cpu.cpp:20-21 | Children of states that agree on their logical cells are equal |
| FrontierCpu.SelectSurvivors | src/frontier_cpu.cpp:34-41 | The survivors are the top B of the best per hash, best first; the same in numbers |
| FrontierCpu.ExpandDepth | src/frontier_cpu.cpp:7-48 | Survivors are the ordered top B of everything generated, also in numbers, the next frontier is what they produce, and solved says whether any child is the goal |
| FrontierCpu.IsGenerated | src/frontier_cpu.cpp:18-32 | Every move of every parent whose score is within the threshold is generated |
| FrontierCpu.GeneratedIsRanked | src/frontier_cpu.cpp:18-32 | The generated candidates are told apart by parent and move |
| ReferenceRun.Search | src/frontier_cpu.cpp:7-48 | Depth after depth, every stored depth is the top of what its frontier generates, and the stored depths form a search from the initial frontier |
| ReferenceRun.RunGeneratesDepth | src/frontier_cpu.cpp:18-32 | A one-rank run whose batches are a frontier's moves generates what the reference generates |
| ReferenceRun.PrunedRunIsReference | src/frontier_cpu.cpp:34-41 | Such a run ends with the reference's survivors, or without payload agreement with as many of the same scores |
| HistoryPath.CpuHistoryStore.AppendDepth | src/history.cpp:12-14 | A depth is appended and the others are kept |
| HistoryPath.CpuHistoryStore.ReconstructSolution | src/history.cpp:27-53 | The backwards walk returns the path of the entry, stated with and without recursion, or the error of the first range it leaves, and then no path exists |
| HistoryPath.PathToIsPath | src/history.cpp:36-52 | Every parent index of a rebuilt path names the survivor of the depth before whose move and parent stand one place earlier |
| HistoryPath.PathIsPathTo | src/history.cpp:36-52 | A sequence of moves and parents with that property is the rebuilt path |
| HistoryPath.ReconstructedPathIsReal | src/history.cpp:36-52 | After any number of depths the path of any generated child has its depth as length and replays to that child |
| HistoryPath.SurvivorPathIsReal | src/frontier_cpu.cpp:42-46 | A stored survivor's path replays to the state materialised for it |
| PruneAdjacent.PruneAdjacentDepths | tools/history/candidate_history.hpp:468-499 | Keeps exactly the referenced entries in order, every entry still refers to the entry it did before, every kept entry is the parent of some child, and it throws exactly on a parent out of range |
| PruneAdjacent.PrunedIsFull | tools/history/candidate_history.hpp:484-494 | After pruning no entry of the earlier depth is without a child |
| HistoryState.PathsPreserved | tools/history/candidate_history.hpp:514-553 | Whatever has been pruned, an entry reads back the path of the committed entry it descends from |
| HistoryState.NewestPathsUnchanged | tools/history/candidate_history.hpp:514-594 | Every index of the newest depth keeps the path it was committed with |
| HistoryState.NewestRoutesUnchanged | tools/production_runner.cu:2169-2195 | A solution found from the newest depth has the same path in the pruned and in the committed history |
| HistoryState.LaunchKeepsInv | tools/history/candidate_history.hpp:560-580 | Launching a prune of two stored depths keeps the invariant; no depth is in two jobs |
| HistoryState.CompleteKeepsInv | tools/history/candidate_history.hpp:530-550 | Storing a job's result keeps the invariant |
| HistoryState.JobParentsWithin | tools/history/candidate_history.hpp:477-482 | An in-flight job never meets a parent out of range |
| HistoryState.CompleteOwesLess | tools/history/candidate_history.hpp:542-549 | The sum of d + 1 over dirty depths strictly falls with every finished job |
| HistoryState.MaterialiseKeepsInv | tools/history/candidate_history.hpp:647-658 | Storing a written slot's depth keeps the invariant |
| HistoryState.CommitKeepsInv | tools/history/candidate_history.hpp:737-747 | Committing a depth keeps the invariant |
| HistoryState.SettledIsFixpoint | tools/history/candidate_history.hpp:554-589 | When nothing is left to prune every entry of a non-last depth is a parent and stored plus pruned bytes are the committed bytes |
| HistoryState.InRangeIsChained | tools/history/candidate_history.hpp:477-494 | While pruning is on every recorded parent, all the way down, is in range |
| HistoryState.WalkingStep | tools/production_runner.cu:2184-2194 | Reading the cursor's parent extends the path by one, and leaves the history exactly when the solution's chain of parents does |
| HistoryState.ChainedIsPath | tools/production_runner.cu:2184-2194 | While the chain of parents stays in range, the moves and parents read are a path: each step is the low byte of the route and the parent of the entry the next step's parent index names |
| HistoryState.PathIsChained | tools/production_runner.cu:2184-2194 | A path exists only where the chain of parents stays in range |
| HistoryState.NewestChainIsCommitted | tools/production_runner.cu:2184-2194 | A chain from the newest depth that stays in range in the pruned history stays in range in the committed one |
| CandidateHistory.Store.ReadyPairIsFree | tools/history/candidate_history.hpp:505-512 | A stored pair is never in a job |
| CandidateHistory.Store.FinishJob | tools/history/candidate_history.hpp:530-551 | The job's pair is replaced by its pruned form and the owed work falls |
| CandidateHistory.Store.LaunchNewest | tools/history/candidate_history.hpp:555-588 | Launches the newest eligible pair, or there is none |
| CandidateHistory.Store.PumpPruneJobs | tools/history/candidate_history.hpp:514-594 | Terminates; with waiting no job and nothing to prune is left, and without waiting a worker is idle only when nothing is left to launch |
| CandidateHistory.Store.PumpCompleted | tools/history/candidate_history.hpp:596-689 | Terminates; slots without work stay as they were, others keep it or become free; with waiting none is pending and nothing is left to prune |
| CandidateHistory.Store.AcquireSlot | tools/history/candidate_history.hpp:691-707 | Hands out a slot that was free or held work, and fails exactly when every slot was acquired and not committed |
| CandidateHistory.Store.CommitSlot | tools/history/candidate_history.hpp:709-753 | Commits the next depth, entry by entry the parent and route of its candidates, whatever its parents, or reports the error and the state it leaves, broken after an out-of-order commit; the invariant needs parents in range only while pruning is on |
| CandidateHistory.Store.FinishAll | tools/history/candidate_history.hpp:755-758 | Everything is stored, the bytes add up, and with pruning on every entry of a non-last depth is a parent |
| CandidateHistory.Store.ReadEntry | tools/history/candidate_history.hpp:820-831 | Reads the current entry or reports which bound or wait was missed |
| CandidateHistory.Store.Reconstruct | tools/production_runner.cu:2169-2195 | From the newest depth the moves are those recorded before any pruning, a path through the routes and parents of the committed entries; an error exactly when some parent of the chain is out of range |
| HistoryBudget.ExpandBound | src/history_budget.cpp:11-13 | The step is the minimum of the beam and the product, and the product it forms fits 64 bits |
| HistoryBudget.BoundsAreStepwise | src/history_budget.cpp:11-36 | The first bound is the smaller of moves and beam, each next one the last times the moves but at most the beam, and the total adds them up |
| HistoryBudget.EstimateEntries | src/history_budget.cpp:15-40 | With its early exit the total is the sum of min(beam, moves^(d+1)); overflow exactly when that sum does not fit |
| HistoryBudget.ReservedIsRequired | src/history_budget.cpp:57-84 | Disk plus RAM reservations are exactly the required entries |
| HistoryBudget.PlannedApart | src/history_budget.cpp:72-77 | Two depths of one arena never overlap and lie inside its reservation |
| HistoryBudget.PlacementIsDetermined | src/history_budget.cpp:69-82 | The greedy placement is unique, and shorter ones are prefixes of longer ones |
| HistoryBudget.PlanHistory | src/history_budget.cpp:57-84 | Every depth gets its bound, disk first; a plan is refused exactly for zero moves, an overflowing or too large total, or a depth that fits neither arena |
| HistoryBudget.AnsweredRangesAreSafe | src/history_budget.cpp:49-84 | A finished plan answers every count a depth can reach and no larger one, with ranges inside the arenas that share no entry |
| HistoryBudget.ReserveFallbackRam | src/history_budget.cpp:86-93 | Hands out the tail exactly when it fits, and a refusal changes nothing |
| HybridState.LiveRangesAreSafe | tools/history/candidate_history.hpp:402-425 | Live ranges lie inside their arena and no cell belongs to two of them |
| HybridState.CommitAtIsSafe | tools/history/candidate_history.hpp:728-737 | Committing at a planned or fallback range keeps every depth safe |
| HybridState.WriteIsSafe | tools/history/candidate_history.hpp:450-464 | A writer, moved to RAM or not, keeps every other depth's entries |
| HybridState.SpoiledDiskIsSafe | tools/history/candidate_history.hpp:451-458 | A failed disk write without fallback harms no written depth |
| HybridState.CollectIsSafe | tools/history/candidate_history.hpp:659-679 | Collecting a writer keeps the store safe |
| HybridState.AccountedStays | tools/history/candidate_history.hpp:643-681 | A step on one slot forgets no committed depth |
| HybridState.IdleIsReady | tools/history/candidate_history.hpp:755-758 | When no slot has work left or broken, every committed depth is readable |
| HybridState.MovedUpdate | tools/history/candidate_history.hpp:412-425 | Moving a depth to RAM adds its count to what the RAM tail holds |
| HybridState.CommitKeepsTail | tools/history/candidate_history.hpp:402-410 | A commit adds its count to the RAM tail exactly when it falls back; so over every run the tail handed out is the sum of the moved depths |
| StaticHybrid.Store.constructor | tools/history/candidate_history.hpp:225-237 | A new store has the RAM tail at the plan's reservation, no failure, whole arenas, nothing committed and every slot free |
| StaticHybrid.Store.ReserveLocation | tools/history/candidate_history.hpp:402-410 | Answers the planned range, or the RAM tail exactly for a disk depth after a disk failure; refused exactly when the count or the room is missing |
| StaticHybrid.Store.CommitSlot | tools/history/candidate_history.hpp:709-747 | Commits the next depth, entry by entry the parent and route of its candidates, at its place and leaves it with the slot; each refusal is given by its exact condition and commits nothing |
| StaticHybrid.Store.RunWriter | tools/history/candidate_history.hpp:427-466 | The depth is written at its place, or after a disk failure at the RAM tail; it errs only without a place or because the plan's RAM, the depths moved so far and this one exceed the arena, and harms no other depth |
| StaticHybrid.Store.FallBack | tools/history/candidate_history.hpp:412-425 | After a disk failure the depth moves to the RAM tail, and is refused as exhausted exactly when it does not fit there |
| StaticHybrid.Store.Collect | tools/history/candidate_history.hpp:647-680 | The depth becomes readable and the slot free |
| StaticHybrid.Store.ReadEntry | tools/history/candidate_history.hpp:820-858 | Reading depth d index i returns what was committed, for every pattern of disk write failures, or reports a failing disk read; an idle store has every depth materialised |
| StaticHybrid.WriteChunks | tools/history/candidate_history.hpp:332-340 | Staged chunked writing puts the parent and route of every candidate in the range and changes nothing else |
| SymmetricGroup.GeneratedPower | integrations/cayleypy_native/multigpubeamsearch/calibration_frontier.py:10-32 | Powers of a generator, hence its inverse, are products of generators |
| SymmetricGroup.EdgeIsGenerated | integrations/cayleypy_native/multigpubeamsearch/calibration_frontier.py:24-25 | Every conjugate of the transposition along the cycle is a product of generators |
| SymmetricGroup.ConnectedGivesSwaps | integrations/cayleypy_native/multigpubeamsearch/calibration_frontier.py:26-29 | Connected transpositions give every transposition |
| SymmetricGroup.SwapsGenerateAll | integrations/cayleypy_native/multigpubeamsearch/calibration_frontier.py:10-32 | Transpositions give every permutation |
| OrbitCertificate.IsFullCycle | integrations/cayleypy_native/multigpubeamsearch/calibration_frontier.py:12-16 | The orbit loop decides whether a generator is one cycle over all positions |
| CycleSpacing.FullCycleMeans | integrations/cayleypy_native/multigpubeamsearch/calibration_frontier.py:12-16 | A full cycle is a map whose first n steps from 0 meet every position and end at 0 |
| OrbitCertificate.FindTransposition | integrations/cayleypy_native/multigpubeamsearch/calibration_frontier.py:17-22 | Finds the two exchanged positions exactly when the generator is a transposition |
| OrbitCertificate.BuildEdges | integrations/cayleypy_native/multigpubeamsearch/calibration_frontier.py:23-25 | The edges are the transposed pair moved along the cycle n times, and the neighbour sets are theirs |
| OrbitCertificate.ReachesAll | integrations/cayleypy_native/multigpubeamsearch/calibration_frontier.py:26-30 | The search reaches all positions if and only if the edges connect them |
| CycleSpacing.SpacingConnects | integrations/cayleypy_native/multigpubeamsearch/calibration_frontier.py:23-30 | Pairs of positions d steps apart on a full cycle connect all n positions if and only if gcd(d, n) is 1 |
| OrbitCertificate.CertifiesExactly | integrations/cayleypy_native/multigpubeamsearch/calibration_frontier.py:12-30 | A pair of generators has a certificate if and only if one is a full cycle and the other exchanges two positions whose distance along it is coprime to n |
| OrbitCertificate.CertifiedEdges | integrations/cayleypy_native/multigpubeamsearch/calibration_frontier.py:23-25 | A certificate lists n edges: the exchanged pair, then each the image of the one before under the cycle |
| OrbitCertificate.CertificateIsSound | integrations/cayleypy_native/multigpubeamsearch/calibration_frontier.py:10-32 | A certificate makes every permutation a finite product of the generators, inverses not assumed |
| OrbitCertificate.SymmetricOrbitCertificate | integrations/cayleypy_native/multigpubeamsearch/calibration_frontier.py:10-32 | Returns a certificate exactly when some generator is a full cycle and some generator exchanges two positions at a coprime distance along it; then its edges are the n images of that pair and all of S_n is generated |
| FactorialRanks.UnrankIsInjective | integrations/cayleypy_native/multigpubeamsearch/calibration_frontier.py:52-60 | Different numbers below n! name different arrangements |
| FactorialRanks.EveryArrangementHasARank | integrations/cayleypy_native/multigpubeamsearch/calibration_frontier.py:52-60 | Every arrangement has a number |
| FactorialRanks.UnrankArranges | integrations/cayleypy_native/multigpubeamsearch/calibration_frontier.py:52-60 | Every number names a rearrangement of the symbols |
| FactorialRanks.UnrankIsLexicographic | integrations/cayleypy_native/multigpubeamsearch/calibration_frontier.py:52-60 | Numbering sorted symbols lists their arrangements in lexicographic order |
| FactorialRanks.StrideIsInjective | integrations/cayleypy_native/multigpubeamsearch/calibration_frontier.py:40-51 | With a coprime stride the affine map modulo n! repeats nothing |
| FactorialRanks.GcdIsGreatest | integrations/cayleypy_native/multigpubeamsearch/calibration_frontier.py:42 | Every common divisor divides the computed one |
| FactorialRanks.CoprimeMeans | integrations/cayleypy_native/multigpubeamsearch/calibration_frontier.py:42 | A computed divisor of 1 is equivalent to having no common divisor above 1 |
| Enumeration.ChooseStride | integrations/cayleypy_native/multigpubeamsearch/calibration_frontier.py:40-42 | For up to 20 symbols the stride is the largest one up to 65537 that is coprime to n! and keeps every index within 64 bits |
| Enumeration.CoprimeUpTo | integrations/cayleypy_native/multigpubeamsearch/calibration_frontier.py:42 | The decrement loop ends at the largest coprime stride within the limit |
| Enumeration.NoWrap | integrations/cayleypy_native/multigpubeamsearch/calibration_frontier.py:50-51 | The 64-bit computation of an index wraps nowhere |
| Enumeration.UnrankRow | integrations/cayleypy_native/multigpubeamsearch/calibration_frontier.py:52-60 | The digit loop computes the arrangement with the given number |
| Enumeration.StateAtMeans | integrations/cayleypy_native/multigpubeamsearch/calibration_frontier.py:50-60 | State i is the arrangement whose lexicographic number is (i * stride + offset) mod n! |
| Enumeration.MakeForbidden | integrations/cayleypy_native/multigpubeamsearch/calibration_frontier.py:38-39 | The forbidden states are exactly the centre and the states one move before it |
| EnumeratedFrontiers.Batch | integrations/cayleypy_native/multigpubeamsearch/calibration_frontier.py:50-62 | A batch is exactly the states of its numbers that are not forbidden, in order |
| EnumeratedFrontiers.FreshMembers | integrations/cayleypy_native/multigpubeamsearch/calibration_frontier.py:50-62 | The states kept from a range of numbers are exactly the states of those numbers that are not forbidden |
| EnumeratedFrontiers.FreshJoins | integrations/cayleypy_native/multigpubeamsearch/calibration_frontier.py:44-65 | Reading a range in batches gives the states of the range, in the order of their numbers |
| EnumeratedFrontiers.FillRank | integrations/cayleypy_native/multigpubeamsearch/calibration_frontier.py:43-65 | One rank is filled with fresh states, or its last look at the clock was late, the first such, or the numbers ran out; when one batch suffices the rank holds exactly the first states of that batch |
| EnumeratedFrontiers.FillRanks | integrations/cayleypy_native/multigpubeamsearch/calibration_frontier.py:43-66 | Each rank gets its count, no state repeats across ranks, and without a deadline enough arrangements guarantee success; ranks that one batch each can fill hold exactly the states that come in turn |
| EnumeratedFrontiers.SkippedAreFew | integrations/cayleypy_native/multigpubeamsearch/calibration_frontier.py:61-63 | No more numbers are lost to forbidden states than there are such states |
| EnumeratedFrontiers.EnumerateFrontiers | integrations/cayleypy_native/multigpubeamsearch/calibration_frontier.py:35-72 | All written rows differ; each is a rearrangement of the centre reached by moves, not the centre and not one move before it, followed by zeros to the storage size |
| EnumeratedFrontiers.PaddingKeepsApart | integrations/cayleypy_native/multigpubeamsearch/calibration_frontier.py:64-65 | Padding keeps different states different |
| EnumeratedFrontiers.NotNearMeans | integrations/cayleypy_native/multigpubeamsearch/calibration_frontier.py:38-39 | No move takes a written state to the centre |
| EnumeratedFrontiers.WalkIsChain | integrations/cayleypy_native/multigpubeamsearch/calibration_frontier.py:75-77 | Reaching a state is a chain from the centre in which each state takes, at every position, the symbol the move points at |
| EnumeratedFrontiers.RearrangementIsReachable | integrations/cayleypy_native/multigpubeamsearch/calibration_frontier.py:75-77 | With a certificate every rearrangement of the centre is reached by applying moves |
| EnumeratedFrontiers.WriteCertified | integrations/cayleypy_native/multigpubeamsearch/calibration_frontier.py:84-98 | Bad counts, storage, budget and walk length are refused in order; the certified route is taken exactly with at most 20 positions, different symbols and a suitable pair of generators, and writes an exact frontier |
| ControlState.StepKeepsInv | native/engine_control.hpp:33-61 | Every step of either thread keeps the protocol invariant |
| ControlState.ProtocolIsOrdered | native/beam_native.cpp:64-155 | Over all interleavings jobs are delivered once in the order 0, 1, 2; ready means accepted equals completed with nothing pending, running means one more |
| ControlState.PrepareGetsReady | native/beam_native.cpp:64-89 | A prepared context whose engine asks for a job is ready, with success as its result |
| ControlState.NextJobRunsThrough | native/beam_native.cpp:99-123 | A ready, uncancelled context accepts the job with the next number modulo 2^64, delivers it, completes it, and is ready again one job further |
| ControlState.OtherSubmissionsAreRefused | native/beam_native.cpp:99-110 | Every other submission is refused and changes nothing |
| ControlState.CompleteThrowsExactlyAfterReport | native/engine_control.hpp:42-49 | For an alternating engine `complete` throws if and only if a `prepare` call has reported a failure |
| ControlState.CompleteNeverThrowsAfterOnePrepare | native/beam_native.cpp:64-89 | A controller that prepares once never sees it throw |
| ControlState.SecondPrepareCanBreakCompletion | native/beam_native.cpp:66-89 | A concrete run in which a redundant `prepare` makes the running job's completion throw |
| ControlState.NothingAfterCancel | native/beam_native.cpp:147-155 | After a cancel no job is accepted or delivered |
| ControlState.CancelledEngineEnds | native/beam_native.cpp:167-175 | After a cancel the engine can always go on and is at its end after at most four calls, so joining it ends |
| ControlState.WaitTells | native/beam_native.cpp:124-135 | What each answer of `wait` says about the jobs and the engine |
| ControlState.WaitAnswers | native/beam_native.cpp:124-135 | `wait` answers success on a ready, uncancelled context, the cancellation after a cancel, and keeps waiting while preparing or running |
| EngineControl.Context.LeaveNext | native/engine_control.hpp:33-41 | Delivers the pending job once, or reports the cancellation |
| EngineControl.Context.Complete | native/engine_control.hpp:42-49 | Succeeds exactly for the running sequence number, which then advances modulo 2^64 |
| EngineControl.Context.Finish | native/engine_control.hpp:55-61 | A cancelled context finishes as cancelled, others with the given code |
| EngineControl.Context.Prepare | native/beam_native.cpp:64-90 | Starts the engine once; malformed arguments are invalid, a second call is busy, and failure is answered exactly when it finishes the context |
| EngineControl.Context.Submit | native/beam_native.cpp:99-123 | Accepts exactly a well-formed job with the next number on a ready, uncancelled context |
| EngineControl.Context.Wait | native/beam_native.cpp:124-135 | Answers by phase, with cancellation first |
| RuntimeArithmetic.CheckedProduct | cuda/runtime_config.cpp:17-21 | The product, or an overflow exactly when it exceeds 64 bits |
| RuntimeArithmetic.ScaledRoundUpIsExact | cuda/runtime_config.cpp:89-102 | The result is ceil(value * ppm / 10^6), and it throws exactly when that exceeds 64 bits |
| RuntimeArithmetic.RoundUpIsLeastMultiple | src/config.cpp:36-46 | The least multiple not below the value, or an overflow exactly when that exceeds 64 bits |
| RuntimeArithmetic.SharesAreProportional | src/config.cpp:76-84 | The first k ranks hold ceil(k * width / world), so all hold the width |
| RuntimeArithmetic.ShareIsEven | src/config.cpp:76-84 | A share is the quotient rounded up or down, so shares differ by at most one |
| RuntimeArithmetic.ShareStepsFit | src/config.cpp:79-83 | No 64-bit step of a share overflows |
| RuntimeArithmetic.SharesFitTheirRank | cuda/runtime_config.cpp:656-658 | Every share fits the rank's planned capacity |
| RuntimeArithmetic.AlignedFacts | cuda/runtime_config.cpp:209-221 | The aligned width is the least sufficient multiple of world, shards and batch |
| RuntimeArithmetic.ShardsHoldTheWidthExactly | cuda/runtime_config.cpp:649-662 | The shards hold the aligned width, and exactly it if and only if the alignment is set or the width divides evenly |
| RuntimeArithmetic.AlignedShardsAreExact | cuda/runtime_config.cpp:209-221 | Every configuration with a batch alignment holds exactly the aligned width |
| RuntimeArithmetic.UnalignedShardsCanExceed | src/config.cpp:36-39 | Width 1 on two ranks without alignment gets two places |
| RuntimeArithmetic.SizesAreRefusedExactly | cuda/runtime_config.cpp:649-662 | Refused exactly without ranks, without shards, or when the alignment or the width rounded up to it exceeds 64 bits |
| RuntimeArithmetic.ScaledInNumbers | cuda/runtime_config.cpp:89-102 | The scaled value r is the one with 1000000 r - 1000000 < value * ppm <= 1000000 r |
| RuntimeArithmetic.RoundedInNumbers | src/config.cpp:36-46 | The rounded value is a multiple less than one alignment above the value; its refusal as an inequality |
| RuntimeArithmetic.SharesInNumbers | src/config.cpp:76-84 | The first k ranks hold the least number whose world-fold reaches k * width; each share is the even one or one more |
| RuntimeArithmetic.SizesInNumbers | cuda/runtime_config.cpp:649-662 | The aligned width, a rank's capacity and a shard's size bracketed by their products with the alignment, the world and the shards |
| Csv.Csv | src/native_input.cpp:82-111 | The character loop computes the reader's answer |
| Csv.PlainRow | src/native_input.cpp:97-110 | Commas separate fields; a line feed, with or without a carriage return, or the end of the text ends the row |
| Csv.QuotedField | src/native_input.cpp:90-95 | Inside quotes everything is kept and two quotes are one |
| Csv.QuotesAreChecked | src/native_input.cpp:90-111 | A quote inside a bare field or text after a closing quote is malformed, an unclosed quote unterminated |
| Csv.ReadingUndoesPrinting | src/native_input.cpp:81-111 | However fields are quoted and lines ended, reading a printing gives back its rows |
| Csv.QuotedRowsComeBack | src/native_input.cpp:81-111 | Every list of nonempty rows over any characters comes back from its quoted printing |
| Csv.AcceptedIsPrinted | src/native_input.cpp:88-111 | Whatever is accepted is a printing of the rows returned |
| Csv.AcceptsExactlyPrintings | src/native_input.cpp:81-111 | The reader accepts exactly the printings and returns exactly what was printed |

## Left out

- Stream3.ThresholdDedupSplit: takes batches of at most 2^32 - 1 candidates, because the program's send
  offsets are 32-bit and it does not check them.
- Stream3.ExactExactlyWhenPayloadAgrees: is stated for batches whose payload ids and (parent, move) pairs are
  unique, as generated ones are; inputs equal in both are left to the sort.
- Pruning.PrunedFrontierIsExact: needs payload agreement up to each batch's threshold; the general case is
  `Pruning.PrunedFrontierScoresAreExact`.
- CandidateHistory.Store.CommitSlot: says nothing of the store after a commit, with pruning on, whose parents
  lie outside the depth before; the program accepts it and a later prune job throws. On one rank the expansion
  never produces such parents; on several ranks, where parents may lie on other ranks, the runner switches
  pruning off.
- StaticHybrid.Store.RunWriter: a writer's reservation and copy are one step; two writers copying at the same
  instant touch disjoint ranges (`HybridState.LiveRangesAreSafe`) and are not interleaved further.
- OrbitCertificate.SymmetricOrbitCertificate: takes at least one position, since the program reads position 0.
- EnumeratedFrontiers.EnumerateFrontiers: rows are values; the directory that must not exist yet, the files,
  their byte layout and their digests are left out.
- The random-walk route of `write_frontiers`: it is random sampling with an explicit set of seen states.
- The static-hybrid slot loop repeats the in-memory one and is not modelled a second time; the file-per-depth
  mode and the Rust history bridge are left out.
- Path reconstruction across ranks: it reads each depth from the rank that owns it over NCCL.
- CUDA kernels, graphs, streams, NCCL and neural inference: only their CPU references are modelled.
- The search for a runtime configuration within a memory budget: its objective is a heuristic.
- Interface versions, history callbacks, the single-context flag and the error buffer of the engine interface:
  direct checks without state of their own.
- The exhaustive CNOT verifier, CNOT move numbering, capacity search, all-to-all exchange, tensor binding
  checks and weight repacking.
- Floating-point score keys, JSON, file, hashing and environment handling.
