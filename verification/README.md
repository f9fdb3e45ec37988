# Serial anySCAN engine — a Dafny model

This project models the serial anySCAN structural-clustering engine
(`pSCAN-refactor/experimental/anyscan/AnySCANGraphSerial.cpp`). The engine
works on an undirected graph in compressed-sparse-row form (`out_edge_start`,
`out_edges`, `degree`) with a rational threshold ε² = `eps_a2 / eps_b2` and a
core threshold `min_u`. It does three things:

- The **similarity oracle** decides whether an edge (u, v) is
  ε-similar. It uses only integer arithmetic:
  - a degree-ratio pre-filter;
  - a lower bound on the number of common closed neighbours;
  - a merge-join of the two sorted neighbour lists that stops early.
- The **block driver** `Summarize` walks the vertices in contiguous blocks.
  Within each block it:
  - computes each vertex's ε-neighbourhood;
  - marks each vertex PROCESSED_CORE or PROCESSED_NOISE;
  - counts, for each vertex, how many cores list it in their ε-neighbourhood;
  - turns noise reached by a core into PROCESSED_BORDER;
  - unions each core with the ε-neighbours that pass `IsDefiniteCore`.
- `anySCAN` calls `Summarize` and then three stub phases.

Files:

- `csr.dfy` (module `GraphStore`): the read-only CSR graph as a datatype. It
  states the shape facts the engine's indexing relies on. It also names the
  graph properties the later theorems assume: sorted slices, symmetry, no
  self loops, and closed-neighbourhood degrees.
- `similarity.dfy` (module `Similarity`): the oracle.
  - `ComputeCnLowerBound` is a function.
  - `IntersectNeighborSets` and `EvalSimilarity` are methods. They are proved
    against the specification functions `Common` (the merge-join count) and
    `EdgeVerdict`. The merge-join walks the two neighbour slices by positions
    relative to their starts, standing for `offset_nei_u - out_edge_start[u]` and
    `offset_nei_v - out_edge_start[v]`.
  - `VerdictIsScanTest` shows the pruned oracle decides exactly the SCAN
    test σ(u, v)² ≥ ε², where σ(u, v) = |N+(u) ∩ N+(v)| / sqrt(d(u) d(v)).
- `classification.dfy` (module `Classification`): the specification of what
  `Summarize` computes. It is written as functions of the graph and the
  parameters:
  - ε-neighbourhoods, core-ness, neighbour counters;
  - the reclassification rule;
  - the log of union calls;
  - the block schedule of the outer loop, with its lemmas.
- `anyscan.dfy` (module `AnyScan`): class `AnySCANGraph`. Its fields are:
  - arrays for `vertex_status`, `eps_neighbor_num` and `eps_neighborhood`;
  - the sequence of union calls, standing in for the disjoint set;
  - `checking_lst`.

  `Summarize` is split into one method per step of its block body. Each
  method is proved to bring the state from "classified below `v_beg`" to
  "classified below `v_cur + 1`". The loop invariant `Walk` bundles that
  predicate with the block schedule still to come. `SummarizeStep` is one
  pass of the outer loop, and `CloseBlock` is its branch that processes a
  block. The graph, ε², `min_u`, the status codes and the three arrays are
  fixed at construction (`const`); only their elements, the union log and
  the checking list change.

The status codes of namespace `anySCAN` are defined outside this model. They
are a parameter (`StatusCodes`) with five pairwise distinct values. Every
result holds for any such choice.

As written in the source, the model keeps these behaviours:

- **Line 96.** The block-boundary test compares `vertex_status[v_cur]` with
  the counter `untouched_num`, not with `UN_TOUCHED`. `BlockSchedule`
  reproduces this comparison. `SingleBlock` shows its consequence: for any
  block size of at least 2, the whole vertex range is one block.
- **Lines 101-117.** Step 1.1 evaluates every vertex of the block, whatever
  its status.
- **Lines 134-137.** The `UN_TOUCHED` → `UNPROCESSED_CORE` branch sits under
  a `PROCESSED_CORE` guard, so it can never run. `Reclassify` keeps the branch
  order, and its contract shows that only PROCESSED_NOISE changes.
- **Line 148.** `IsDefiniteCore` receives a vertex id, not a status. The union
  log therefore holds exactly the pairs (core u, w in N_ε(u)) whose id `w`
  equals one of the two core codes. `UnionLogMembers` states this; the model
  does not strengthen it.

## Model

| member | source | states |
|---|---|---|
| Similarity.RoundUp | pSCAN-refactor/experimental/anyscan/AnySCANGraphSerial.cpp:49 | The fix-up adds at most one. After it, c²·b2 ≥ du·dv·a2 whenever the estimate was at most one below. A large enough estimate is left unchanged. |
| Similarity.ComputeCnLowerBound | pSCAN-refactor/experimental/anyscan/AnySCANGraphSerial.cpp:47-51 | c²·eps_b2 ≥ du·dv·eps_a2, and (c−1)² falls short, so c is the least common-neighbour count meeting ε². |
| Similarity.LowerBoundIsLeast | pSCAN-refactor/experimental/anyscan/AnySCANGraphSerial.cpp:47-51 | Every k with k²·b2 ≥ du·dv·a2 is at least the bound. |
| Similarity.LowerBoundMonotone | pSCAN-refactor/experimental/anyscan/AnySCANGraphSerial.cpp:47-51 | Larger degrees never give a smaller bound. |
| Similarity.CommonSymmetric | pSCAN-refactor/experimental/anyscan/AnySCANGraphSerial.cpp:59-73 | The merge-join count does not depend on the order of its two slices. |
| Similarity.CommonCountsSharedElements | pSCAN-refactor/experimental/anyscan/AnySCANGraphSerial.cpp:59-73 | On strictly ascending slices, the merge-join count is the size of their intersection. |
| Similarity.IntersectNeighborSets | pSCAN-refactor/experimental/anyscan/AnySCANGraphSerial.cpp:53-75 | Returns SIMILAR iff 2 + (common neighbours of the two slices) ≥ min_cn_num, despite the early exits. Returns SIMILAR whenever min_cn_num ≤ 2. The loop keeps du == cn + (elements left in u's slice), likewise dv, and cn − 2 plus the merge-join count of what is left stays the full count. |
| Similarity.EvalSimilarity | pSCAN-refactor/experimental/anyscan/AnySCANGraphSerial.cpp:77-87 | The verdict for edge `edge_idx` of u equals `EdgeVerdict`. Returns NOT_SIMILAR when min(deg)·b2 < max(deg)·a2. Returns SIMILAR when the lower bound is ≤ 2 and the ratio test passes. |
| Similarity.VerdictSymmetric | pSCAN-refactor/experimental/anyscan/AnySCANGraphSerial.cpp:77-87 | Thanks to the swap on line 80 and the symmetric intersection, edge u→v gets the same verdict as v→u. |
| Similarity.ClosedCommon | pSCAN-refactor/experimental/anyscan/AnySCANGraphSerial.cpp:54-56 | For an edge of a sorted, symmetric, loop-free graph, \|N+(u) ∩ N+(v)\| = 2 + the merge-join count. The count is below both slice lengths. |
| Similarity.PrunedTestByCount | pSCAN-refactor/experimental/anyscan/AnySCANGraphSerial.cpp:79-85 | For a closed common count cn between 2 and both degrees, "passes the ratio test, and the bound is ≤ 2 or cn reaches it" holds iff cn²·b2 ≥ d1·d2·a2. |
| Similarity.RatioPruneSound | pSCAN-refactor/experimental/anyscan/AnySCANGraphSerial.cpp:79-82 | When the degree-ratio test rejects, no common count within the smaller degree can reach ε². |
| Similarity.BoundDecides | pSCAN-refactor/experimental/anyscan/AnySCANGraphSerial.cpp:84-85 | A count reaches the lower bound iff its square meets du·dv·ε². |
| Similarity.VerdictByCount | pSCAN-refactor/experimental/anyscan/AnySCANGraphSerial.cpp:77-87 | Under closed-neighbourhood degrees, the verdict is SIMILAR iff cn²·b2 ≥ d(u)·d(v)·a2. |
| Similarity.VerdictIsScanTest | pSCAN-refactor/experimental/anyscan/AnySCANGraphSerial.cpp:77-87 | The pruned oracle says SIMILAR exactly when \|N+(u) ∩ N+(v)\|²·eps_b2 ≥ degree[u]·degree[v]·eps_a2, i.e. σ(u, v)² ≥ ε². |
| Classification.EpsNeighborhoodMembers | pSCAN-refactor/experimental/anyscan/AnySCANGraphSerial.cpp:103-110 | w is listed for u exactly when w is an out-neighbour of u and the oracle calls the edge SIMILAR. |
| Classification.SimilarTargetsAscending | pSCAN-refactor/experimental/anyscan/AnySCANGraphSerial.cpp:104-109 | The list keeps edge order: strictly ascending slices give a strictly ascending ε-neighbourhood with no repeats. |
| Classification.EpsNeighborhoodSymmetric | pSCAN-refactor/experimental/anyscan/AnySCANGraphSerial.cpp:103-110 | On a symmetric graph, w ∈ N_ε(u) iff u ∈ N_ε(w). |
| Classification.EpsNeighborhoodIsScan | pSCAN-refactor/experimental/anyscan/AnySCANGraphSerial.cpp:103-110 | The ε-neighbourhood is the set of neighbours w with σ(u, w)² ≥ ε². |
| Classification.CoreRefs | pSCAN-refactor/experimental/anyscan/AnySCANGraphSerial.cpp:120-126 | The counter is positive iff some core below `hi` lists x. |
| Classification.CoreRefsCountsCores | pSCAN-refactor/experimental/anyscan/AnySCANGraphSerial.cpp:120-126 | With sorted slices, the counter equals the number of cores whose ε-neighbourhood contains x. |
| Classification.RefByCoreWitness | pSCAN-refactor/experimental/anyscan/AnySCANGraphSerial.cpp:127-131 | "Reached by a core in [lo, hi)" holds iff there is such a core v with x ∈ N_ε(v). |
| Classification.DefiniteCoreCodes | pSCAN-refactor/experimental/anyscan/AnySCANGraphSerial.cpp:89-91 | `IsDefiniteCore` is true for UNPROCESSED_CORE and PROCESSED_CORE. It is false for the other three codes. |
| Classification.Reclassify | pSCAN-refactor/experimental/anyscan/AnySCANGraphSerial.cpp:130-138 | With distinct codes, PROCESSED_NOISE becomes PROCESSED_BORDER and every other status is unchanged. The UNPROCESSED_CORE promotion cannot happen. |
| Classification.DefiniteCorePairsMembers | pSCAN-refactor/experimental/anyscan/AnySCANGraphSerial.cpp:147-151 | For one core u, a pair is unioned iff it is (u, w) with w in the list and `IsDefiniteCore(w)`. |
| Classification.UnionLogMembers | pSCAN-refactor/experimental/anyscan/AnySCANGraphSerial.cpp:144-153 | (u, w) is unioned iff u is a core, w ∈ N_ε(u) and `IsDefiniteCore(w)` holds, as written. |
| Classification.ClassifyStep | pSCAN-refactor/experimental/anyscan/AnySCANGraphSerial.cpp:101-141 | Applying the block's neighbourhoods, counters and `BlockStatus` takes `ClassifiedBelow(v_beg)` to `ClassifiedBelow(v_cur + 1)`. Below it, every ε-neighbourhood is listed and PROCESSED_CORE marks exactly the cores. Every status there is CORE, NOISE or BORDER, so nothing stays UN_TOUCHED or becomes UNPROCESSED_CORE. A border is reached by a core, a non-core reached by a core at or after it is a border, and the counters count core references. |
| Classification.BordersStep | pSCAN-refactor/experimental/anyscan/AnySCANGraphSerial.cpp:127-141 | A block adds its own "every reached non-core is a border" guarantee, and no later block undoes an earlier one. |
| Classification.ExactBorders | pSCAN-refactor/experimental/anyscan/AnySCANGraphSerial.cpp:95-141 | When the schedule is a single block, PROCESSED_BORDER holds iff the vertex is not a core and some core lists it. |
| Classification.ScheduleTiles | pSCAN-refactor/experimental/anyscan/AnySCANGraphSerial.cpp:95-155 | The blocks [v_beg, v_cur] are non-empty, consecutive, and end at n−1. |
| Classification.TilesOrdered | pSCAN-refactor/experimental/anyscan/AnySCANGraphSerial.cpp:95-155 | The blocks are increasing and disjoint. |
| Classification.ScheduleCoversOnce | pSCAN-refactor/experimental/anyscan/AnySCANGraphSerial.cpp:95-155 | Every vertex lies in exactly one block, so step 1.1 evaluates it exactly once. |
| Classification.ScheduleWithoutCount | pSCAN-refactor/experimental/anyscan/AnySCANGraphSerial.cpp:95-99 | Once the counter no longer equals the status read and is below the block size, only the final vertex closes the block. |
| Classification.SingleBlock | pSCAN-refactor/experimental/anyscan/AnySCANGraphSerial.cpp:95-99 | Because of the comparison on line 96, for n > 0 and block size ≥ 2 the only block is [0, n−1]. |
| AnyScan.AnySCANGraph.constructor | pSCAN-refactor/experimental/anyscan/AnySCANGraphSerial.cpp:33-40 | Every status is UN_TOUCHED, every counter is 0 and every ε-neighbourhood is empty. The disjoint set has no unions. The block size is 32768. |
| AnyScan.AnySCANGraph.EvaluateVertex | pSCAN-refactor/experimental/anyscan/AnySCANGraphSerial.cpp:103-116 | Appends exactly N_ε(u) to u's list. Sets u to PROCESSED_CORE iff \|N_ε(u)\| ≥ min_u, otherwise PROCESSED_NOISE. Nothing else changes. |
| AnyScan.AnySCANGraph.EvaluateBlock | pSCAN-refactor/experimental/anyscan/AnySCANGraphSerial.cpp:101-117 | Does the same for every vertex of the block, and leaves the vertices outside it unchanged. |
| AnyScan.AnySCANGraph.CountNeighbors | pSCAN-refactor/experimental/anyscan/AnySCANGraphSerial.cpp:122-124 | Each counter grows by the number of times its vertex occurs in the core's list, and by nothing else. |
| AnyScan.AnySCANGraph.CountBlock | pSCAN-refactor/experimental/anyscan/AnySCANGraphSerial.cpp:120-126 | Each counter goes from its value for the cores below v_beg to its value for the cores below v_cur + 1. |
| AnyScan.AnySCANGraph.ReclassifyNeighbors | pSCAN-refactor/experimental/anyscan/AnySCANGraphSerial.cpp:129-138 | A vertex in the core's list that was PROCESSED_NOISE becomes PROCESSED_BORDER. Every other status is unchanged. |
| AnyScan.AnySCANGraph.ReclassifyBlock | pSCAN-refactor/experimental/anyscan/AnySCANGraphSerial.cpp:127-141 | The only change is PROCESSED_NOISE → PROCESSED_BORDER, for exactly the vertices in the ε-neighbourhood of a core of the block. |
| AnyScan.AnySCANGraph.MergeNeighbors | pSCAN-refactor/experimental/anyscan/AnySCANGraphSerial.cpp:147-151 | Appends (u, w) for exactly the w of the list that pass `IsDefiniteCore`, in list order. |
| AnyScan.AnySCANGraph.MergeBlock | pSCAN-refactor/experimental/anyscan/AnySCANGraphSerial.cpp:143-153 | Extends the union log by exactly the calls for the cores of the block. |
| AnyScan.AnySCANGraph.ClassifyBlock | pSCAN-refactor/experimental/anyscan/AnySCANGraphSerial.cpp:101-141 | After steps 1.1 and 1.2 each block vertex holds its ε-neighbourhood, and every counter counts the references by the cores below v_cur + 1. Each status is `BlockStatus` of the old one. |
| AnyScan.AnySCANGraph.ProcessBlock | pSCAN-refactor/experimental/anyscan/AnySCANGraphSerial.cpp:100-155 | Takes "processed below v_beg" to "processed below v_cur + 1". The new block joins the list of blocks in which every non-core reached by a core of the block is a border. Every status, inside the block or not, becomes `BlockStatus` of its old value: a vertex the block neither evaluates nor reaches keeps its status. |
| AnyScan.AnySCANGraph.CloseBlock | pSCAN-refactor/experimental/anyscan/AnySCANGraphSerial.cpp:98-157 | When the counter reaches the block size or v_cur is the last vertex, processing [v_beg, v_cur] restores the invariant at v_cur + 1 with v_beg = v_cur + 1 and the block appended. |
| AnyScan.AnySCANGraph.SummarizeStep | pSCAN-refactor/experimental/anyscan/AnySCANGraphSerial.cpp:95-157 | One pass of the outer loop keeps `Walk` from v_cur to v_cur + 1. |
| AnyScan.AnySCANGraph.Summarize | pSCAN-refactor/experimental/anyscan/AnySCANGraphSerial.cpp:94-158 | The blocks are those of the boundary rule. Every vertex is classified as `ClassifiedBelow` states, and the union log is `UnionLog` of all vertices. With the block size of line 39, PROCESSED_BORDER holds exactly for the non-cores in some core's ε-neighbourhood. |
| AnyScan.AnySCANGraph.WalkEnds | pSCAN-refactor/experimental/anyscan/AnySCANGraphSerial.cpp:94-158 | When the loop ends, the blocks are the schedule, every vertex is processed, and with the block size of line 39 PROCESSED_BORDER holds iff the vertex is not a core and some core lists it. |
| AnyScan.AnySCANGraph.MergeWeaklyRelatedCluster | pSCAN-refactor/experimental/anyscan/AnySCANGraphSerial.cpp:164-166 | Empties the checking list. |
| AnyScan.AnySCANGraph.AnySCAN | pSCAN-refactor/experimental/anyscan/AnySCANGraphSerial.cpp:173-178 | From the constructed state, the result of `Summarize` holds afterwards, and the checking list is empty. |

Some lemmas are proof helpers for the members above and have no row:
`UnionLogStep`, `ScheduleCloses` and `ScheduleContinues` unfold `UnionLog`
and `BlockSchedule` by one step; `ClassifiedAtStart`, `WalkStarts`,
`OpenBlockUntouched` and `WalkAdvances` establish and carry the loop
invariant `Walk` of `Summarize`.

`MergeStronglyRelatedCluster` (lines 160-162) and `PostProcessing`
(lines 169-171) have empty bodies in the source. They are modelled as
methods with empty bodies.

## Left out

- Constructor I/O (lines 15-32, 41-44): reading the graph, parsing ε, the
  timing and the console output. The constructor takes the graph, ε² and
  `min_u` as values. `degree` is whatever the loader supplies. Its relation to
  `out_edge_start` (closed-neighbourhood degrees) is an explicit hypothesis,
  used only by the SCAN-equivalence lemmas.
- `sqrtl` (line 48) is floating point. The model uses an exact integer
  floor square root of ⌊du·dv·a2 / b2⌋ in its place; this floor equals
  floor(sqrt(du·dv·a2 / b2)). The precision of `long double` is not modelled.
- Fixed-width overflow of the `int` and `long long` arithmetic: the model
  uses unbounded integers. `vertex_status` is a `char` array in the source
  and an `int` array here.
- `DisjointSet` (find, rank, path compression) is not part of this model.
  Only the sequence of `Union(u, w)` calls is recorded.
- `Output` (lines 180-182): its body is commented out.
- `beta_block_size` and `checking_lst.reserve`: they have no observable
  effect.
- Summarize: its contract covers a single run from the constructed state. A
  second call, on a state it has already updated, is not modelled.
- ClassifyStep, BordersStep: these value-level lemmas hold for any block
  schedule, and for several blocks they promise only that a border is reached
  by some core, and that a non-core reached by a core at or after it is a
  border; a non-core reached only by cores of earlier blocks stays
  PROCESSED_NOISE, as lines 101-141 leave it, which `ProcessBlock` states
  through `BlockStatus` for each block. `Summarize` itself is exact: the
  block size is at least 2 in every state it accepts (32768 from the
  constructor), so its schedule is one block.
