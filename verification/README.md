# Verified model of the MLX execution provider's planning and replay logic

This project models the parts of the MLX execution provider for ONNX Runtime whose correctness is
hard to see by reading one function, and proves what they are for. It has five groups; `Wrappers` and
`Sizes` serve several of them.

**The graph partitioner** (`Graphs`, `Kahn`, `Colours`, `BitRows`, `UnionFind`, `ConvexMerge`,
`Sorting`, `ConvexClusters`, `ColourRuns`, `Quotients`, `ClusterEdges`, `Regions`, `Layers`,
`LayerBoundaries`). A DAG whose nodes carry a colour (supported, float64, compile class) is cut into groups to fuse. Every
path through the partitioner covers each supported node once, mixes no colours and leaves an acyclic
contracted graph, so each group is convex. Node identifiers are positions in the node order; a region
entry past the end stands for an unknown node. The bit rows are sequences of 64-bit words, each word a
sequence of 64 booleans. Predecessor lists are the transpose of successor lists as multisets.

**Speculative decoding with rollback** (`StateReplay`, `Decoding`, `PagedDecoding`,
`SpeculativeRunner`). A K=1 speculative loop over a paged key/value cache, with recurrent and
convolution states checkpointed and replayed, emits the target's own greedy tokens for every draft,
every prefill chunk size and every earlier request. Hypothesis: arithmetic is exact, so running a
chunk is the fold of running its tokens one by one; each chunk step depends only on what came before
it. `bench/README.md` lines 408 to 414 record that FP16 batching can break ties differently, so this
is a statement about the loop, not about FP16 kernels. Numbers are reals and the batch size is one.

**The shape-keyed compile cache** (`PlanNodes`, `ShapeFences`, `ShapeConstants`, `Noninterference`,
`Evaluation`, `OperatorTables`, `FencedPlans`, `Decimal`, `SpecializationKeys`, `KeyInjectivity`,
`KeyBuilder`, `KeyFormats`, `CompileCache`). A trace bakes in values read on the host while the cache sees only shapes. A plan is marked, fenced,
checked by the guard and keyed by its host values; together these make two calls with equal keys
agree on every shape, every shape constant and every baked value, so a replayed trace answers what
eager translation answers, over every sequence of calls and for native-attention plans too, whose own
live Tile is refused while capturing. Hypotheses (`Noninterference.Sound`), for any operator the
compiled routes may hold (not classified eager, not fenced, not data-dependent): its output shapes
depend on input shapes, constant inputs and host parameters; Shape and Size look at shapes only; and
only random operators classified eager draw from hidden state. `FencedPlans.LiveTileIsSound` shows
that a registry whose Tile reads live repeats meets them. `Noninterference.Clean` is what ONNX
guarantees of names: outputs are new names of their scope, and a boundary name has one index.

**Indexes that agree with something simple** (`DeviceMemory`, `RowWriteback`, `CacheCopies`,
`SharedInitializers`, `ScopedTranslation`, `LeafKeys`). Stored device payloads against byte memory, writeback
ranges against the set of rows, partial copy-out against full copy, weak interning against address
reuse, and one mutable scoped environment against a pure evaluator.

**The broadcast adjoint** (`BroadcastAdjoint`). `SumToShape` is adjoint to ONNX broadcasting (the
rule of Broadcasting.md, section "Multidirectional Broadcasting", for one direction) for any rank,
with extents of one and of zero.

## Findings

- The delta copy-out counts an empty outer or inner extent as one slab or one element. With an extent
  of zero its runs leave the buffer: they stay in bounds exactly when no extent is zero
  (`CacheCopies.InBoundsIffNotEmpty`). `CacheCopies.EmptyArraysOverrun` names two deltas the code
  records for arrays without elements; they overrun if both empty buffers have a non-null address,
  since a null one returns first. `CacheCopies.CopyOut` reports exactly when a copy stays inside.
- Splitting groups at layer boundaries keeps the contracted graph acyclic only because each group is
  listed along its edges; `Layers.CutAcrossListingLoops` is a group listed against an edge that
  the splitter cuts into a loop.
- The colour runs of a cyclic graph are never a partition: `ColourRuns.TopologicalColourRuns` is one
  exactly when the graph without loops is acyclic.
- The plain paged loop serves one token more than the speculative runner admits for the same cache:
  its guard is per forward pass, so it succeeds exactly when prompt plus generation is at most
  capacity plus one (`PagedDecoding.RunOnce`), while the runner refuses beyond the capacity.

## Model

| member | source | states |
|---|---|---|
| `Graphs.ConvexIffNothingBetween` | rust/src/partition.rs:404-406 | a set is convex exactly when no outside node lies both below and above a member |
| `Graphs.AcyclicHasNoCycle` | rust/src/partition.rs:379-393 | a graph with a rank has no path from a node back to itself |
| `Graphs.AcyclicQuotientMakesGroupsConvex` | rust/src/partition.rs:40-42 | groups whose contraction is acyclic are each convex in the original graph |
| `Kahn.StackOrder` | rust/src/partition.rs:379-393 | the stack of ready nodes emits a topological prefix, which is a whole topological order exactly when the graph is acyclic |
| `Kahn.Release` | rust/src/partition.rs:382-390 | finishing a node lowers exactly its successors' open degrees, once per edge, and pushes those that reach zero |
| `Kahn.StuckMeansDoneOrCyclic` | rust/src/partition.rs:382-393 | a prefix with nothing ready is a full order exactly when the graph is acyclic |
| `Kahn.OrderRanks` | rust/src/partition.rs:379-393 | positions in a topological order rank every edge upwards |
| `Colours.OneColourMeans` | rust/src/partition.rs:585-597 | one colour means every node is supported and any two agree on float64 use and compile class |
| `BitRows.BitSet` | rust/src/partition.rs:648-650 | setting a bit adds one member to the row's set and nothing else |
| `BitRows.BitOrInto` | rust/src/partition.rs:652-656 | or-ing rows makes the union of their sets |
| `BitRows.ConvexBitsets` | rust/src/partition.rs:358-364 | the word-wise test holds exactly when every common descendant and ancestor is a member |
| `UnionFind.UfFind` | rust/src/partition.rs:640-646 | finds the representative of a node and keeps the forest, whatever path halving rewrote |
| `UnionFind.HalvedPath` | rust/src/partition.rs:641-644 | pointing a node at its grandparent keeps every representative |
| `UnionFind.JoinRoots` | rust/src/partition.rs:458-461 | linking two roots makes one class of theirs and leaves the others |
| `ConvexMerge.Closure` | rust/src/partition.rs:395-414 | in a topological order the rows become the exact sets of reachable nodes |
| `ConvexMerge.DescendantsByEdges` | rust/src/partition.rs:395-402 | the descendants of a node are its successors and their descendants |
| `ConvexMerge.ClosedIsConvex` | rust/src/partition.rs:358-364 | the bit condition on member, descendant and ancestor sets is convexity |
| `ConvexMerge.TestMerge` | rust/src/partition.rs:449-457 | the tried union is accepted exactly when it is closed, that is convex |
| `ConvexMerge.MergeEdge` | rust/src/partition.rs:443-463 | an edge joins two groups and lowers the number of roots, or is recorded as not joinable; every root's rows stay exact and every class closed |
| `ConvexMerge.MergePass` | rust/src/partition.rs:441-464 | a pass keeps the table state and, if it changed nothing, leaves every edge blocked |
| `ConvexMerge.MergeAlong` | rust/src/partition.rs:440-464 | the change loop ends with closed classes and every compatible edge blocked |
| `ConvexClusters.MergeableEdges` | rust/src/partition.rs:426-439 | lists exactly the edges between compatible nodes |
| `ConvexClusters.InitialRows` | rust/src/partition.rs:416-424 | the starting rows are the exact member, descendant and ancestor sets of single nodes |
| `ConvexClusters.GroupByRoot` | rust/src/partition.rs:466-483 | nodes of one representative end up in one list, in order, and nothing is lost |
| `ConvexClusters.ClosedMeansGreedyConvex` | rust/src/partition.rs:440-464 | closed, blocked classes are convex groups that no compatible edge could still join convexly |
| `ConvexClusters.MergedClusters` | rust/src/partition.rs:373-483 | on a DAG the greedy merge yields single-coloured convex groups with no mergeable edge left |
| `ColourRuns.TopologicalColourRuns` | rust/src/partition.rs:576-638 | emits a greedy topological prefix, cuts it into maximal single-coloured runs, and is a valid partition exactly when the graph without loops is acyclic |
| `ColourRuns.GreedyContinues` | rust/src/partition.rs:609-629 | while the queue just served has a ready node, its least one is emitted next |
| `ColourRuns.GreedyChanges` | rust/src/partition.rs:609-629 | otherwise, and at the start, the least ready node of all is emitted |
| `ColourRuns.NeighboursShareRun` | rust/src/partition.rs:621-629 | neighbours of one colour in the emitted order share a run |
| `ColourRuns.IntervalsHaveAcyclicQuotient` | rust/src/partition.rs:576-638 | intervals of a topological order contract to an acyclic graph |
| `ColourRuns.RunsArePartition` | rust/src/partition.rs:576-638 | the runs of a full order are a valid partition |
| `ColourRuns.RunsOfACycleAreNotAPartition` | rust/src/partition.rs:576-638 | if the runs are a valid partition of a graph without loops, it was acyclic |
| `Quotients.OwnersOf` | rust/src/partition.rs:485-490 | maps each node to the one unit that holds it |
| `Quotients.AddSingles` | rust/src/partition.rs:525-530 | adds a unit of its own for every node not yet covered |
| `Quotients.QuotientLists` | rust/src/partition.rs:498-507 | successor and predecessor lists of the contracted graph, transposes of each other, with an edge exactly where an edge crosses units |
| `Quotients.QuotientScheduleIsGroupSchedule` | rust/src/partition.rs:508-521 | the contracted graph is acyclic exactly when the groups can be scheduled |
| `Quotients.ExpansionKeepsQuotientAcyclic` | rust/src/partition.rs:550-561 | expanding groups of units keeps the contraction acyclic |
| `Quotients.ExpansionIsPartition` | rust/src/partition.rs:550-561 | a valid partition of the units expands to a valid partition of the nodes |
| `Sorting.SortNodes` | rust/src/partition.rs:553-560 | ascending, with the same elements |
| `Sorting.SortKeepsNoDup` | rust/src/partition.rs:553-560 | sorting a list without repeats is strictly ascending |
| `Sorting.SortByHead` | rust/src/partition.rs:568-573 | groups ordered by their first node, the same groups |
| `Sorting.SortOccurrences` | rust/src/partition.rs:568-573 | sorting groups by first node keeps every node occurrence |
| `ClusterEdges.Coalesce` | rust/src/partition.rs:522-573 | coalesced groups are a valid partition and contain whole clusters; every cluster that is not shapeless stays as it was |
| `ClusterEdges.EligibleMeans` | rust/src/partition.rs:531-539 | only supported shapeless units are scheduled, and only their width tells them apart |
| `ClusterEdges.CoalescedIsPartition` | rust/src/partition.rs:550-567 | runs of eligible units together with the kept units partition the graph |
| `ClusterEdges.AscendingFollowsOrderedEdges` | rust/src/partition.rs:553-560 | in an ordered graph ascending groups list every edge forward |
| `ClusterEdges.PartitionEdges` | rust/src/partition.rs:366-574 | every return path is a valid partition of a DAG, says which path produced it, and keeps every cluster that is not shapeless |
| `Regions.RegionIsConvex` | rust/src/partition.rs:133-155 | the pruned search answers true exactly when the region is convex, also when it prunes past the last member |
| `Regions.ConvexIffNoReturn` | rust/src/partition.rs:133-155 | convex exactly when no path leaves the region and comes back |
| `Regions.TestRegion` | rust/src/partition.rs:112-158 | accepts a candidate exactly when it is nonempty, known, supported, single-coloured, disjoint from earlier ones and convex |
| `Regions.AcceptRegions` | rust/src/partition.rs:110-163 | the accepted regions are those the declarative filter keeps, in order |
| `Regions.EveryFittingRegionIsAccepted` | rust/src/partition.rs:110-163 | a nonempty, known, single-coloured, convex region that shares no node with those accepted before it is accepted |
| `Regions.OnlyFittingRegionsAreAccepted` | rust/src/partition.rs:110-163 | each accepted region is such a region and holds exactly its nodes |
| `Regions.DisjointRegionsAreAccepted` | rust/src/partition.rs:110-163 | pairwise disjoint such regions are all accepted |
| `Regions.PriorityOrder` | rust/src/partition.rs:184-202 | the heap emits ready units smallest first, all of them exactly when the unit graph is acyclic |
| `Regions.Renumber` | rust/src/partition.rs:203-220 | renumbered lists are transposes, isomorphic to the unit graph and ordered |
| `Regions.PartitionWithRegions` | rust/src/partition.rs:83-238 | a valid partition of every DAG; each accepted region lies wholly in one group whenever the region quotient is acyclic, and so does each of any pairwise disjoint, convex, single-coloured regions that can be scheduled |
| `Layers.SplitCluster` | rust/src/partition.rs:285-315 | cuts a group after every span-th boundary, keeps its order, with no empty part and at most span boundaries in a part |
| `Layers.LayerEndsMeans` | rust/src/partition.rs:297-306 | the layers of a part are counted by its positions that hold a boundary |
| `Layers.SplitLayers` | rust/src/partition.rs:285-315 | splits every group that way and concatenates the parts |
| `Layers.JoinOccurrences` | rust/src/partition.rs:285-315 | splitting loses and adds no node |
| `Layers.SplitIsPartition` | rust/src/partition.rs:285-315 | parts of groups listed along their edges are again a valid partition |
| `Layers.CutAcrossListingLoops` | rust/src/partition.rs:285-315 | a schedulable group listed against an edge, which the splitter cuts into parts that cannot be scheduled |
| `Layers.BuildContiguousClusters` | rust/src/partition.rs:10-38 | maximal single-coloured stretches of the node order |
| `Layers.GroupsAreConvex` | rust/src/partition.rs:40-42 | every group of a valid partition is convex |
| `Layers.ClaimGroups` | rust/src/capability.rs:305-356 | the whole pipeline, contiguous or by regions, split or not, yields a valid partition of convex groups whose nodes agree on support, width and class |
| `LayerBoundaries.Spread` | rust/src/partition.rs:329-348 | a stack search confined to a window of indices marks exactly the nodes a walk inside the window leads to |
| `LayerBoundaries.BackwardSearch` | rust/src/partition.rs:339-348 | searching the predecessors finds exactly the nodes from which a walk leads forward to the anchor |
| `LayerBoundaries.BoundaryBetween` | rust/src/partition.rs:328-353 | the last Add strictly between two anchors that lies on a walk from one to the other, or none exactly when there is none |
| `LayerBoundaries.InferBoundaryIndices` | rust/src/partition.rs:317-356 | one such end per pair of consecutive anchors; no answer exactly for fewer than two anchors or a pair without an end |
| `LayerBoundaries.OrderedEnds` | rust/src/partition.rs:331-348 | in an ordered graph the index windows lose nothing: an end is an Add on any walk between its anchors |
| `LayerBoundaries.BoundariesSeparate` | rust/src/partition.rs:349-353 | the ends and the anchors alternate, so an answer exists for ascending anchors only |
| `LayerBoundaries.PartHoldsSpanLayers` | rust/src/partition.rs:285-356 | cutting an ascending group at the inferred ends leaves at most span attention anchors in any part |
| `StateReplay.AcceptedGeometry` | bench/mtp_replay.py:176-199 | a capsule width is accepted exactly when it is that of a valid head geometry, and the key sections are recovered exactly |
| `StateReplay.WidthMeans` | bench/mtp_replay.py:176-199 | a head geometry is valid if the key heads divide the heads and a key has at most 256 elements |
| `StateReplay.RecurrentStep` | bench/mtp_replay.py:200-234 | a token decays every cell with its head and adds its key row times its value row; neighbouring heads share a key row |
| `StateReplay.WindowStep` | bench/mtp_replay.py:159-175 | a token shifts the oldest sample of each channel out and the new one in |
| `StateReplay.CapsuleSlices` | bench/mtp_replay.py:200-213 | the section offsets find the first decay, key and delta in the packed capsule of any capacity |
| `StateReplay.ReplayMatrixIsStep` | bench/mtp_replay.py:200-234 | the linear update on the decayed checkpoint is the real recurrent step |
| `StateReplay.ReplayIsFirstStep` | bench/mtp_replay.py:159-234 | replaying a capture from a checkpoint is the first captured step, for recurrent and convolution states and width zero |
| `Decoding.AfterAppend` | bench/ort_paged.py:110-144 | reading two chunks is reading their concatenation |
| `Decoding.GreedyPrefix` | bench/ort_mtp.py:369-372 | a shorter greedy continuation is a prefix of a longer one |
| `Decoding.StartIsBlank` | bench/ort_mtp.py:207-212 | a request starts with no rows and every entry of every state zero |
| `Decoding.BlankIsStart` | bench/ort_mtp.py:306-310 | there is one such start, so resetting the states restores it |
| `Decoding.GreedyFromBlank` | bench/ort_mtp.py:306-310 | the greedy tokens are those of a model read from all-zero states |
| `PagedDecoding.RunChunk` | bench/ort_mtp.py:247-281 | a chunk reads only rows below its position and its own, so stale rows never matter |
| `PagedDecoding.LastRow` | bench/ort_mtp.py:317-322 | the last row of a chunk is the row of the whole context |
| `PagedDecoding.OneMoreToken` | bench/ort_paged.py:139-144 | the token chosen after the prompt is the next greedy token |
| `PagedDecoding.MoreOfPrompt` | bench/ort_paged.py:136-138 | an intermediate chunk only reads on |
| `PagedDecoding.Pass` | bench/ort_paged.py:112-144 | one forward pass keeps the loop state and adds a token exactly when the prompt is read |
| `PagedDecoding.RunOnce` | bench/ort_paged.py:31-151 | greedy tokens from all-zero states for every positive chunk size; succeeds exactly for well-formed requests whose passes fit the cache |
| `SpeculativeRunner.Runner.ExecuteTarget` | bench/ort_mtp.py:247-281 | steps cache and states by a chunk and captures its first update on request |
| `SpeculativeRunner.Runner.Propose` | bench/ort_mtp.py:332-349 | the draft head is fed the waiting rows before the selection overwrites the shared buffer |
| `SpeculativeRunner.FedOneMore` | bench/ort_mtp.py:329-340 | feeding the waiting tokens gives the head one pair per committed token, at its own position |
| `SpeculativeRunner.PairsMeans` | bench/ort_mtp.py:329-340 | each pair is a committed token at its own position with the target's hidden row of the context before it |
| `SpeculativeRunner.Runner.FeedHead` | bench/ort_mtp.py:332-349 | the head then holds exactly the committed tokens paired with the target's hidden rows |
| `SpeculativeRunner.RoundFacts` | bench/ort_mtp.py:350-354 | verifying the anchor and any proposal gives the target's own next choices and rows |
| `SpeculativeRunner.Runner.CheckProposal` | bench/ort_mtp.py:349-354 | prediction and bonus are the target's greedy tokens, and the checkpoint can replay the anchor's step |
| `SpeculativeRunner.Runner.RollBack` | bench/ort_mtp.py:365-366 | replay restores the states as if only the anchor had been read |
| `SpeculativeRunner.Runner.Restore` | bench/ort_mtp.py:365-367 | the logical state is then that of the context up to the anchor |
| `SpeculativeRunner.AcceptedTokens` | bench/ort_mtp.py:356-362 | an accepted proposal and the bonus are the next two greedy tokens |
| `SpeculativeRunner.WaitingPair` | bench/ort_mtp.py:358-370 | which hidden rows wait after one or two committed tokens |
| `SpeculativeRunner.Runner.Attempt` | bench/ort_mtp.py:329-354 | one proposal is made from the committed tokens and verified after everything but the last of them |
| `SpeculativeRunner.Runner.Settle` | bench/ort_mtp.py:355-370 | two tokens are kept exactly when the proposal is the target's own choice, else one after a rollback |
| `SpeculativeRunner.Runner.KeepBoth` | bench/ort_mtp.py:355-362 | the bookkeeping after an accepted proposal |
| `SpeculativeRunner.Runner.KeepOne` | bench/ort_mtp.py:363-370 | the bookkeeping after a rejected proposal |
| `SpeculativeRunner.Runner.Round` | bench/ort_mtp.py:329-370 | one round keeps the bookkeeping, emits one or two greedy tokens, and leaves the target state at everything but the last token |
| `SpeculativeRunner.Runner.Prefill` | bench/ort_mtp.py:317-328 | chunked prefill ends in the state, token and hidden row of the unchunked prompt |
| `SpeculativeRunner.AppendedIsGreedy` | bench/ort_mtp.py:371-373 | cutting the last emission short still leaves the greedy tokens |
| `SpeculativeRunner.Runner.Speculate` | bench/ort_mtp.py:329-373 | rounds terminate with exactly the requested greedy tokens and consistent counters |
| `SpeculativeRunner.Runner.Generate` | bench/ort_mtp.py:298-391 | for every draft, prompt, length, chunk size and earlier request: refused exactly when malformed or too long, else exactly the target's greedy tokens from all-zero states, with round counts that add up |
| `ShapeFences.Fence` | rust/src/plan_builder.rs:80-128 | closes the routes of exactly the nodes that hold a live Tile or Range, and reports whether one was found |
| `ShapeFences.FencedSupport` | rust/src/plan_builder.rs:80-128 | outside the native owner a fenced plan keeps its shape-keyed routes exactly when it held no live value at any depth |
| `ShapeFences.FencedNodeSupport` | rust/src/plan_builder.rs:105-118 | the native owner exempts its own live nodes but none in a body |
| `ShapeFences.FenceMeans` | rust/src/plan_builder.rs:80-121 | which conditions make a Tile or Range live, and the route each fenced node keeps |
| `ShapeConstants.MarkShapeConstants` | rust/src/plan_builder.rs:479-523 | sets exactly the flags of the dataflow marking, through nested scopes |
| `ShapeConstants.ScopeOf` | rust/src/plan_builder.rs:485-494 | a body inherits the constants less its inputs and everything it produces |
| `ShapeConstants.MarkedIsFlagged` | rust/src/plan_builder.rs:479-523 | marked nodes carry the flags their scopes determine, at every depth |
| `ShapeConstants.MarkedMeans` | rust/src/plan_builder.rs:479-523 | an input is flagged exactly if its name is inherited or an output of an earlier node that reads only constants and draws nothing, or is a Shape or Size |
| `ShapeConstants.MarkedBody` | rust/src/plan_builder.rs:485-494 | a body is marked with the names constant before its node, less its inputs and outputs |
| `Evaluation.IfRuns` | rust/src/ops/controlflow.rs:180-215 | a condition whose first element is not zero runs the then body in the node's environment, zero the else body, and the outputs are what it returns |
| `Evaluation.IfNeedsBody` | rust/src/ops/controlflow.rs:180-215 | an If succeeds only on a readable condition and with the body it asks for |
| `Evaluation.OperatorRuns` | rust/src/engine.rs:1341-1384 | an operator hands its handler what its inputs denote and binds what the handler answers |
| `Evaluation.BindMeans` | rust/src/engine.rs:1065-1068 | every named output gets its value, every other name stays |
| `Evaluation.CollectMeans` | rust/src/engine.rs:2412-2424 | outputs are collected by name, in order, if all are bound |
| `Evaluation.NodesRunInOrder` | rust/src/engine.rs:2407-2411 | nodes run in plan order, each after the ones before it |
| `Evaluation.ReplayRuns` | rust/src/compiled.rs:1-26 | a replay takes host parameters and draws from the traced call and every other input from the new one |
| `Evaluation.ReplayRunsTracedBody` | rust/src/compiled.rs:1-26 | a replay runs the body the traced condition chose |
| `OperatorTables.HostParametersSteer` | rust/src/compiled.rs:117-143 | which inputs of which operators are read on the host |
| `OperatorTables.UnsafeMeans` | rust/src/compiled.rs:86-115 | which operators no general trace may hold |
| `OperatorTables.GuardMeans` | rust/src/compiled.rs:145-167 | the guard refuses a node exactly for a host parameter that is neither constant nor keyed |
| `OperatorTables.OpenMeans` | rust/src/compiled.rs:255-269 | the route of a plan without bodies is open exactly if every operator may be captured and is guarded |
| `OperatorTables.SteeredIsSound` | rust/src/compiled.rs:117-143 | the assumptions on operators hold of a registry whose shapes are read off every host parameter and every data-dependent input |
| `OperatorTables.SteeredShape` | rust/src/compiled.rs:117-143 | and those shapes do move with each such value |
| `Noninterference.HostArgsEqual` | rust/src/compiled.rs:236-253 | a parameter that passes the guard check has the same value in both calls |
| `Noninterference.KernelAlike` | rust/src/plan_builder.rs:495-521 | an operator's outputs keep their shapes, and their values if the marking calls them constant |
| `Noninterference.NodeKeepsAlike` | rust/src/plan_builder.rs:479-523 | one node, or the branch it takes, keeps the two calls alike |
| `Noninterference.NodesKeepAlike` | rust/src/compiled.rs:230-268 | two calls with equal input shapes, guarded values and branches agree on every shape and every shape constant, through shadowed names in bodies |
| `Noninterference.ReplayIsEager` | rust/src/compiled.rs:1-26 | a trace with its host parameters and branches baked in computes what running the new call computes |
| `FencedPlans.FencedFlagged` | rust/src/plan_builder.rs:80-128 | fencing keeps every shape-constant flag right |
| `FencedPlans.OpenMeansFenced` | rust/src/plan_builder.rs:80-128 | if the route is open after fencing, no body holds a live value and a live node of the plan is the native owner's own |
| `FencedPlans.CapturingMeans` | rust/src/ops/shape.rs:1247-1249 | only a Tile whose repeats are neither an initializer nor a constant refuses to be captured |
| `FencedPlans.CaptureIsEager` | rust/src/ops/shape.rs:1247-1249 | a capture that succeeds computes what an eager run computes, though Tile refuses live repeats while capturing |
| `FencedPlans.CapturedIsAdmitted` | rust/src/plan_builder.rs:54-73 | marking, fence, guard and a successful capture together admit a plan, native owner or not |
| `FencedPlans.LiveTileIsSound` | rust/src/ops/shape.rs:1239-1280 | the assumptions on operators hold of a registry whose Tile reads its shape off live repeats |
| `SpecializationKeys.BoundaryShapeInputs` | rust/src/compiled.rs:169-192 | lists exactly the boundary inputs some guarded host parameter reads, each once |
| `SpecializationKeys.KeyedCoversGuarded` | rust/src/compiled.rs:169-192 | equal values of the keyed inputs are equal values of every guarded parameter |
| `Decimal.NaturalPrefix` | rust/src/compiled.rs:225 | a rendered number can be told from what follows it |
| `Decimal.ListPrefix` | rust/src/compiled.rs:225 | a rendered list of integers can be told from what follows it |
| `KeyInjectivity.KeyInjective` | rust/src/compiled.rs:194-389 | equal key strings come from equal control-flow entries and equal boundary readings |
| `KeyInjectivity.WalkDecides` | rust/src/compiled.rs:325-389 | equal entries mean the same branch at every If, the same trip count and condition at every Loop, and so on in the bodies walked |
| `KeyInjectivity.EqualKeysAgree` | rust/src/compiled.rs:690-712 | equal keys mean equal decisions and equal guarded values |
| `KeyBuilder.AppendControl` | rust/src/compiled.rs:330-384 | the recursive walk appends exactly the rendered entries and advances the ordinal by their number |
| `KeyBuilder.AppendBoundary` | rust/src/compiled.rs:194-228 | appends one record per keyed input, or declines when one cannot be keyed |
| `KeyBuilder.BuildKey` | rust/src/compiled.rs:690-712 | the key of a call, or none when some scalar is not host-readable |
| `KeyFormats.KeyExists` | rust/src/compiled.rs:194-228 | a call has a key exactly if every control scalar on the walk is readable and every keyed input holds one to sixty-four int32 or int64 values |
| `KeyFormats.LoopKey` | rust/src/compiled.rs:353-375 | a Loop is keyed by its ordinal, trip count and condition |
| `KeyFormats.IfKey` | rust/src/compiled.rs:335-352 | an If is keyed by its ordinal and decision |
| `KeyFormats.TripsAreKeyed` | rust/src/compiled.rs:353-375 | two and three trips of one Loop have different keys |
| `CompileCache.CollectInputs` | rust/src/compiled.rs:1093-1145 | the closure inputs are exactly the dynamic boundary inputs read at any depth, CastLike targets apart |
| `CompileCache.CleanForReads` | rust/src/compiled.rs:1093-1145 | the boundary inputs read at any depth are all a plan needs to know of the boundary |
| `CompileCache.TraceableMeans` | rust/src/compiled.rs:785-800 | a call is traced only if no boundary input has an empty dimension or one over int32 |
| `CompileCache.EqualKeysReplay` | rust/src/compiled.rs:690-729 | with equal shape and host-value keys a replay answers what eager would |
| `CompileCache.NewToken` | rust/src/compiled.rs:710-727 | a new token is nobody else's, at most sixteen exist, and no other key's token changes |
| `CompileCache.TokenTellsKey` | rust/src/compiled.rs:710-727 | two keys with one token are one key |
| `CompileCache.GeneralSlot.Token` | rust/src/compiled.rs:710-727 | a recorded token, the next one while there is room, or none; the table is otherwise kept |
| `CompileCache.GeneralSlot.Specialize` | rust/src/compiled.rs:690-729 | the shape key carries the token of the call's own host-value key; none exactly when the key is unreadable or there is no room |
| `CompileCache.GeneralSlot.BuildClosure` | rust/src/compiled.rs:763-775 | the closure is attempted once and its verdict kept |
| `CompileCache.GeneralSlot.FileTrace` | rust/src/compiled.rs:867-983 | a successful capture is filed under the key of the call that made it; a failed one closes the route; a filed key is not traced again |
| `CompileCache.GeneralSlot.Apply` | rust/src/compiled.rs:961-1015 | applying a filed trace gives the eager answer, or fails and closes the route |
| `CompileCache.GeneralSlot.AnsweredIsFiled` | rust/src/compiled.rs:690-729 | a call answered once is found again under the same key, with no new token |
| `CompileCache.GeneralSlot.ReplaysEager` | rust/src/compiled.rs:867-969 | a trace found under a call's key was made with the same decisions and guarded values |
| `CompileCache.GeneralSlot.TryCompiled` | rust/src/compiled.rs:651-983 | a call is answered exactly when the route is open, keyed, compiled and traceable and nothing fails; the answer is the eager one, and the new tables are stated |
| `CompileCache.GeneralSlot.Compute` | rust/src/compiled.rs:638-657 | compiled or not, each call of any sequence gives the eager answer |
| `ScopedTranslation.BodyFrame` | rust/src/engine.rs:2374-2431 | running a body changes nothing but the names it binds |
| `LeafKeys.PlanHasMeanings` | rust/src/engine.rs:76-86 | with one payload per owned copy, and per name without one, every leaf holds what its key names |
| `LeafKeys.TrackedMeans` | rust/src/engine.rs:1071-1102 | exactly the standard Identity, Cast and Transpose views of keyed data get a key, and which |
| `LeafKeys.ViewKernelFollows` | rust/src/engine.rs:1082-1102 | the assumption on views holds of a registry that does what the operators say |
| `ScopedTranslation.Translation.ResolveRef` | rust/src/engine.rs:1341-1384 | a lookup answers as the pure evaluator does, though it keeps boundary inputs beside the bindings |
| `ScopedTranslation.Translation.BindOutputs` | rust/src/engine.rs:1065-1068 | binding forgets what was proven of the name |
| `ScopedTranslation.Translation.TrackFrozenView` | rust/src/engine.rs:1082-1102 | the output of a view of immutable data gets the key of that view, and a keyed name holds exactly what its key denotes |
| `ScopedTranslation.Translation.CacheContiguous` | rust/src/engine.rs:1105-1121 | a kept copy is what packing again would give, also on later runs |
| `ScopedTranslation.Translation.Translate` | rust/src/registry.rs:384-414 | one node against the mutable environment is one step of the pure evaluator |
| `ScopedTranslation.Translation.RunSubgraph` | rust/src/engine.rs:2363-2433 | returns what the pure evaluator returns and leaves every name and every proven key as it was |
| `DeviceMemory.Device.Lookup` | rust/src/device.rs:165-168 | the greatest base at or below an address |
| `DeviceMemory.Device.GreatestBaseOwns` | rust/src/device.rs:165-178 | that base is the allocation containing a range whenever one does |
| `DeviceMemory.Device.Locate` | rust/src/device.rs:165-178 | finds the containing allocation exactly when there is one |
| `DeviceMemory.MemoryMeans` | rust/src/device.rs:231-267 | a write changes its range to the bytes given, forgetting empties it, nothing else changes |
| `DeviceMemory.HoldsAfter` | rust/src/device.rs:251-266 | after a store exactly the stored range and the ranges apart from it are held |
| `DeviceMemory.Device.Store` | rust/src/device.rs:231-267 | writes byte memory and drops overlapped payloads whole |
| `DeviceMemory.Device.Load` | rust/src/device.rs:145-229 | succeeds exactly for a range stored last by this thread, and returns the bytes memory holds there |
| `DeviceMemory.Device.HostData` | rust/src/device.rs:283-345 | a cached or new host view shows the bytes memory holds, and changes no payload |
| `DeviceMemory.Device.CopyDevice` | rust/src/device.rs:484-525 | the destination holds the source's bytes and nothing else changes |
| `DeviceMemory.Device.Allocate` | rust/src/device.rs:370-395 | a reservation of at least one byte with nothing stored in it |
| `DeviceMemory.Device.Free` | rust/src/device.rs:397-417 | forgets the reservation and its bytes; an unknown base changes nothing |
| `Sorting.SortDedup` | rust/src/engine.rs:3091-3093 | strictly ascending, with the same rows |
| `RowWriteback.GeometryCounts` | rust/src/engine.rs:3078-3090 | a representable geometry counts the rows up to the axis and the bytes behind it |
| `RowWriteback.GeometryExists` | rust/src/engine.rs:3078-3090 | a geometry is refused exactly for a bad axis, empty elements, a negative dimension or a product over 64 bits |
| `RowWriteback.RequestedMeans` | rust/src/engine.rs:3094-3111 | a byte is requested exactly if its row is |
| `RowWriteback.PushRow` | rust/src/engine.rs:3100-3111 | one more row keeps the ranges canonical and covers exactly its bytes more |
| `RowWriteback.InputWritebackRanges` | rust/src/engine.rs:3065-3114 | canonical in-bounds ranges of exactly the requested rows; an error exactly for unrepresentable geometry or a row outside it |
| `RowWriteback.CanonicalUnique` | rust/src/engine.rs:3065-3114 | canonical ranges are determined by the bytes they cover |
| `CacheCopies.CopySpans` | rust/src/engine.rs:2772-2785 | copies exactly the covered bytes |
| `CacheCopies.WriteBackRows` | rust/src/engine.rs:1123-1177 | the destination becomes the functional row scatter |
| `CacheCopies.ApplyPatches` | rust/src/engine.rs:1257-1266 | a slot's row becomes the last patch for it, and every other row stays |
| `CacheCopies.HoldsPatchMeans` | rust/src/engine.rs:1257-1266 | a row that holds a patch has the patch's bytes, one for one |
| `CacheCopies.CopySlabs` | rust/src/engine.rs:3026-3043 | copies the same run of every slab and nothing else |
| `CacheCopies.InBoundsIffNotEmpty` | rust/src/engine.rs:3018-3043 | the runs stay in the buffer exactly when no extent is zero |
| `CacheCopies.EmptyArraysOverrun` | rust/src/engine.rs:3018-3043 | two recorded deltas of arrays without elements that apply and whose first run leaves the buffer, if both buffers have an address |
| `CacheCopies.CopyOut` | rust/src/engine.rs:3003-3056 | with a delta only its rows are copied, and the buffer is the whole new array if every other row was already there; exactly the rows from offset on, count of them, arrive; without an aliased delta everything is copied; a null pointer copies nothing; the copy leaves the buffer exactly for rows of an array without elements |
| `CacheCopies.RowInterval` | rust/src/engine.rs:1158-1159 | the least and greatest axis row among flattened rows |
| `CacheCopies.WritebackPrepares` | rust/src/engine.rs:1153-1170 | an array that differs only in the written rows satisfies the condition of the recorded delta |
| `CacheCopies.PublishRows` | rust/src/engine.rs:1123-1177 | an in-place row update whose output aliases the cache: delta copy-out, then writeback, leaves the whole new array, or refuses exactly an invalid request |
| `SharedInitializers.Pool.Own` | rust/src/shared_initializers.rs:33-53 | live equal content is shared, anything else is a new storage |
| `SharedInitializers.Pool.Intern` | rust/src/shared_initializers.rs:45-52 | new content is indexed and every expired key forgotten |
| `SharedInitializers.OneOwnerPerContent` | rust/src/shared_initializers.rs:33-53 | a live content key has one owner |
| `SharedInitializers.SameStorage` | rust/src/shared_initializers.rs:90-102 | an array alive at an address was made of the storage that has the address now |
| `SharedInitializers.Pool.Get` | rust/src/shared_initializers.rs:76-117 | returns only an array of the requested bytes, type and shape, however addresses were reused |
| `SharedInitializers.Pool.DropStorage` | rust/src/shared_initializers.rs:33-53 | bytes stay alive exactly while a plan owns them or an array holds them |
| `SharedInitializers.Pool.DropArray` | rust/src/shared_initializers.rs:62-67 | the last owner frees the array, and its bytes exactly if no plan and no other array has them |
| `BroadcastAdjoint.SumToShape` | rust/src/ops/broadcast_adjoint.rs:41-86 | a well-formed tensor of exactly the target shape, or the error |
| `BroadcastAdjoint.AcceptedTargets` | rust/src/ops/broadcast_adjoint.rs:44-67 | a result exists exactly when the target has extents from 0 to 2147483647 that broadcast to the gradient's shape; each error has its one cause |
| `BroadcastAdjoint.RowOfBroadcast` | rust/src/ops/broadcast_adjoint.rs:60-67 | rows of a broadcast are broadcasts of rows |
| `BroadcastAdjoint.SumAxesIsAdjoint` | rust/src/ops/broadcast_adjoint.rs:71-82 | summing the listed axes is adjoint to broadcasting, by induction on the rank |
| `BroadcastAdjoint.SumIsAdjointOfBroadcast` | rust/src/ops/broadcast_adjoint.rs:41-86 | for every tensor of the target shape the two inner products agree, empty gradients included |
| `BroadcastAdjoint.EachElementSumsItsCopies` | rust/src/ops/broadcast_adjoint.rs:71-82 | each reduced element is the sum of exactly the gradient elements it was broadcast to |
| `BroadcastAdjoint.TotalIsKept` | rust/src/ops/broadcast_adjoint.rs:41-86 | the reduced gradient has the gradient's total |

## Left out

- ORT and MLX foreign calls, status handling, panic guards, tracing, environment switches: no visible semantics.
- Operator claim predicates and the registry table: long case lists that one reading settles.
- Floating-point numerics and Metal kernels: reals and integers stand for them; the FP16 tie of `bench/README.md` is outside the model.
- Node identifiers and hash iteration order of the partitioner: nodes are positions, and contracted degrees are read off the transposed lists instead of being counted along.
- `select_layer_partition_span` and boundary names read from model metadata: they choose a span and boundaries; every choice is covered by the split theorem.
- Loop and Scan bodies: read by the key walk as decisions, excluded from evaluation by `Noninterference.Clean`.
- The decode and prefill slots, RoPE rows, shared key/value detection and region-of-interest checks of `try_compiled`: they need caller contracts outside the code.
- The Rust `bind` of an empty name: the evaluator drops it, which no input can observe.
- Hash digests are taken as injective, and the race window of `host_data` is sequential.
- Null input pointers: a boundary reading always has data; an empty control scalar is not readable.
- Views of device payloads with another type or shape keep their bytes; a refused view is not modelled.
- Environment variables that disable a route: the routes are modelled as open.
- SpeculativeRunner.Runner.Propose: the draft's own recurrent state is part of the arbitrary draft function of everything fed so far.
- CompileCache.GeneralSlot.TryCompiled: a failed device evaluation reports a fallback; the hard error with device tensors enabled is not distinguished.
- CacheCopies.CopyOut: what a copy that leaves the buffer does to other memory is not modelled; it is reported and the buffer stays.
- RowWriteback.InputWritebackRanges: the order in which an overflow and a bad row are noticed is not distinguished, only that the call fails.
- ScopedTranslation.Translation.Translate: handlers read their inputs up front and in order; a handler that stops early is not distinguished.
- StateReplay.ReplayIsFirstStep: batch size one; a batch replays each of its members the same way.
