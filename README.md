# mcpm matching engine, in Dafny

This project models `mcpm::Matching` from `external/mcpm/include/mcpm/matching.h`
and proves properties of the model. `mcpm::Matching` is Edmonds' blossom algorithm
with primal-dual updates. Over a fixed undirected graph it computes:

- a maximum-cardinality matching (`SolveMaximumMatching`);
- a minimum-cost perfect matching (`SolveMinimumCostPerfectMatching`).

The engine's state is indexed by slot. Slots `0..n-1` are the original vertices.
Slots `n..2n-1` are blossom slots, drawn from a stack of free indices. For each slot
the engine keeps:

- its outermost blossom (`outer`);
- the original vertices nested in it (`deep`);
- its children on the odd circuit (`shallow`) and its `tip`;
- whether it is in use (`active`);
- its label in the alternating forest (`type`: EVEN, ODD or UNLABELED);
- its `forest` parent and its `root`;
- whether it is `blocked`;
- its `dual` value and its `mate`;
- a `visited` mark.

Every edge also carries a `slack` (reduced cost). An edge whose slack is positive
cannot be used.

## How the model is laid out

- `graph.dfy` (module `Graphs`): the read-only graph the engine queries. It is an
  edge list with the first-edge index of a vertex pair, adjacency, and adjacency
  lists in edge order.
- `matching.dfy` (module `Mcpm`): the class `Matching`.
  - The source's twelve per-slot vectors are one `array<Slot>` of records: field `x`
    of `slots[i]` is the source's `x[i]`, and `type` is the field `kind`.
  - `slack` is an `array<real>`.
  - `free`, `forestList` and `perfect` are fields that the methods reassign.
  - Every operation of the source is a method that updates these in place. Loops
    carry their invariants.
  - Two invariants frame the operations:
    - `Valid`: the sizes are right, and every stored index points at a slot.
    - `Ready`: `Valid`, and every original vertex is active, unblocked, and holds
      exactly itself. `Clear` establishes `Ready`, and every later operation keeps it.
  - Value-level predicates over `slots[..]` state what each operation does:
    - `Dismantles`: only nesting, activity, blocking and mates change.
    - `Expands`: only `outer`, `active`, `mate` and the order of `shallow` change.
    - `BlossomMade`, `Labelled` and `GrowOnto` describe the other steps.
    - Both `Dismantles` and `Expands` include the free-pool discipline `Tracks`.
- `pool.dfy` (module `FreePool`): `Tracks`, the free-pool discipline.
  - The pool only grows at its back.
  - No slot is activated.
  - Every deactivated slot is pushed.
  - Every pushed slot is inactive.
- `nesting.dfy` (module `Nesting`):
  - concatenating the deep lists of children;
  - rotating an odd circuit so that it starts at a given child.
- `pairing.dfy` (module `Pairing`): the usable vertex pair of least edge index that
  `Expand` rematches through.
- `forest.dfy` (module `Forest`): the walks up the alternating forest that find a
  blossom's tip and its odd circuit, on values.
- `duals.dfy` (module `Duals`):
  - the three step bounds `e1`, `e2` and `e3`;
  - the clamped step;
  - the slack change it makes;
  - the initial shift that makes every cost non-negative.
- `greedy.dfy` (module `Greedy`): the degree counts and the least-degree choices of
  the greedy warm start.
- `results.dfy` (module `Results`): reading matched edges off `mate`, and their
  total cost.

Costs, duals and slacks are exact `real`s. The source's tolerant comparison
`GREATER(a, b)` is the exact `a > b` here. The C++ exception on a graph without a
perfect matching becomes the `Failure(NoPerfectMatching)` result.

## Model

| member | source | states |
|---|---|---|
| `Graphs.Graph.EdgeIndex` | external/mcpm/include/mcpm/matching.h:185-186 | -1 exactly when no edge joins `u` and `v`; otherwise the index of an edge joining them |
| `Graphs.Graph.AdjList` | external/mcpm/include/mcpm/matching.h:110 | holds exactly the vertices adjacent to `u` |
| `Graphs.Graph.EdgeIndexSymmetric` | external/mcpm/include/mcpm/matching.h:580 | the edge index of a pair does not depend on the order the pair is named in |
| `Graphs.Graph.SameIndexSameEnds` | external/mcpm/include/mcpm/matching.h:185-188 | two pairs with the same edge index are the same pair, in either order |
| `Mcpm.Matching.constructor` | external/mcpm/include/mcpm/matching.h:14-30 | every per-slot field starts zeroed over `2n` slots, every slack is 0, and the pool and queue are empty |
| `Mcpm.Matching.IsAdjacent` | external/mcpm/include/mcpm/matching.h:587-590 | adjacent through an edge whose slack is not positive (`Usable`) |
| `Mcpm.Matching.IsEdgeBlocked` | external/mcpm/include/mcpm/matching.h:579-581 | blocked exactly when the edge is not `Usable`, that is, when its slack is positive |
| `Mcpm.Matching.GetFreeBlossomIndex` | external/mcpm/include/mcpm/matching.h:562-566 | removes the last pool element and returns it; it lies in `[n, 2n)` |
| `Mcpm.Matching.AddFreeBlossomIndex` | external/mcpm/include/mcpm/matching.h:568-570 | appends `i` to the pool |
| `Mcpm.Matching.ClearBlossomIndices` | external/mcpm/include/mcpm/matching.h:572-576 | the pool becomes exactly `n, n+1, ..., 2n-1` |
| `FreePool.TracksRelease` | external/mcpm/include/mcpm/matching.h:484-486 | deactivating a slot and pushing it onto the pool keeps the pool discipline |
| `FreePool.TracksTrans` | external/mcpm/include/mcpm/matching.h:235-236 | the pool discipline composes over consecutive steps |
| `Mcpm.Matching.Clear` | external/mcpm/include/mcpm/matching.h:446-468 | the pool is `n..2n-1`. Every slot `i` has `outer == i`, `tip == i`, `root == i`, `forest == -1`, `mate == -1`, dual 0, label UNLABELED and no children, and is unblocked. `deep == [i]` and active exactly when `i < n`. Every slack is 0. `Ready` holds afterwards |
| `Mcpm.Matching.SetOuter` | external/mcpm/include/mcpm/matching.h:476-479 | `b` becomes the outer blossom of exactly the listed slots; nothing else changes |
| `Mcpm.Matching.UnnestChildren` | external/mcpm/include/mcpm/matching.h:475-482 | the loop over the children only dismantles nesting (`Dismantles`): nesting, activity, blocking and mates may change, the pool grows only at its back, and every slot it deactivates is pushed |
| `Mcpm.Matching.ReleaseSlot` | external/mcpm/include/mcpm/matching.h:484-487 | `t` becomes inactive, unblocked and unmatched, and is pushed onto the pool; nothing else changes |
| `Mcpm.Matching.DestroyBlossom` | external/mcpm/include/mcpm/matching.h:470-488 | with `t < n`, or `t` blocked with positive dual, nothing changes. Otherwise `t` ends inactive, unblocked, with `mate == -1`, and on top of the pool. In all cases only nesting, activity, blocking and mates change, and the pool follows the activity flags |
| `Mcpm.DismantlesRelease` | external/mcpm/include/mcpm/matching.h:484-487 | releasing a slot that is not blocked with positive dual is a dismantling step |
| `Mcpm.DismantlesTrans` | external/mcpm/include/mcpm/matching.h:481 | dismantling steps compose, which lets the recursion be chained |
| `Mcpm.Matching.ScanRow` | external/mcpm/include/mcpm/matching.h:183-190 | the inner scan keeps the usable pair of least edge index seen so far, and its index |
| `Mcpm.Matching.FindMinPair` | external/mcpm/include/mcpm/matching.h:177-191 | `(p, q)` is the usable pair between `deep[u]` and `deep[v]` of least edge index, or `(-1, -1)` when there is none |
| `Pairing.MinPairSymmetric` | external/mcpm/include/mcpm/matching.h:179-180 | the least pair seen from `v`'s side is the same pair, reversed |
| `Pairing.MinPairUnique` | external/mcpm/include/mcpm/matching.h:179-191 | the least usable pair between disjoint vertex sets is unique |
| `Pairing.ExpansionAgrees` | external/mcpm/include/mcpm/matching.h:179-180 | expanding `u` and expanding its mate `v` pick the same edge, which is the stated reason for the minimum index |
| `Mcpm.Matching.Rematch` | external/mcpm/include/mcpm/matching.h:175-194 | `mate[u] := q` and `mate[outer[mate[u]]] := p`, with `(p, q)` the least usable pair; nothing else changes |
| `Nesting.FirstHolding` | external/mcpm/include/mcpm/matching.h:200-205 | the position of the first child whose deep list holds `p`; no earlier child holds it |
| `Nesting.RotatePermutes` | external/mcpm/include/mcpm/matching.h:207-210 | rotating the circuit is a permutation that starts at the chosen child |
| `Mcpm.Matching.TurnToHolder` | external/mcpm/include/mcpm/matching.h:200-210 | the circuit rotated to start at the first child whose deep list holds `p` |
| `Mcpm.Matching.RotateToHolder` | external/mcpm/include/mcpm/matching.h:198-211 | `shallow[u]` is rotated to start at the child holding `p`; nothing else changes |
| `Mcpm.Matching.PairFrom` | external/mcpm/include/mcpm/matching.h:218-226 | matches `c[1]` with `c[2]`, `c[3]` with `c[4]`, and so on; only mates of circuit members change |
| `Mcpm.Matching.PairCircuit` | external/mcpm/include/mcpm/matching.h:213-226 | the tip takes `u`'s mate, and the other children are matched in consecutive pairs |
| `Mcpm.Matching.UnnestAll` | external/mcpm/include/mcpm/matching.h:228-234 | each child becomes the outer blossom of itself and of its deep vertices; only `outer` changes |
| `Mcpm.Matching.Retire` | external/mcpm/include/mcpm/matching.h:235-236 | `u` becomes inactive and is pushed onto the pool; nothing else changes |
| `Mcpm.Matching.UnnestKeeping` | external/mcpm/include/mcpm/matching.h:228-234 | only `outer` changes; the mates of the circuit are kept, and when the children claim disjoint slots each becomes the outer blossom of the slots it claims |
| `Mcpm.Matching.UnnestAndRetire` | external/mcpm/include/mcpm/matching.h:228-236 | an expansion step; `u` ends inactive and on top of the pool with its children kept, and the mates of the circuit are kept |
| `Mcpm.Matching.Reorder` | external/mcpm/include/mcpm/matching.h:198-226 | the circuit is rotated to the new tip and re-matched around it; the deep lists are kept |
| `Mcpm.Matching.Dissolve` | external/mcpm/include/mcpm/matching.h:198-236 | `u` ends inactive and on top of the pool, by an expansion step. Its children are rotated to start at the child holding `p`. That child takes `u`'s mate, and the others are mated in consecutive pairs. When the children claim disjoint slots, each child becomes the outer blossom of itself and of its deep vertices |
| `Mcpm.Matching.DissolveAndDescend` | external/mcpm/include/mcpm/matching.h:198-240 | dissolving `u` and expanding its children leaves `u` inactive, by an expansion step; the pool is the old pool, then `u`, then whatever the children's expansions release |
| `Mcpm.Matching.ExpandChildren` | external/mcpm/include/mcpm/matching.h:238-240 | at depth 0 nothing changes. Otherwise `states` and `pools` run from the slots and pool on entry to those on exit, one step per child in order, and each step is the `ExpandStep` of that child: an expansion step; no change for a child without a mate; otherwise a least usable pair with its mate's outer blossom, a dissolvable child ending inactive and any other only re-paired through that pair. Every child dissolvable at its turn ends inactive |
| `Mcpm.Matching.Expand` | external/mcpm/include/mcpm/matching.h:174-242 | rematches `u` and its mate's blossom through the least usable pair. It stops there when `u < n`, or when `u` is blocked and `expandBlocked` is false; otherwise `u` ends inactive. Only `outer`, `active`, `mate` and the order of `shallow` change, a blocked blossom is dissolved only under `expandBlocked`, and the pool follows the activity flags |
| `Mcpm.ExpandsTrans` | external/mcpm/include/mcpm/matching.h:239-240 | expansion steps compose, which lets the recursion be chained |
| `Mcpm.Matching.Flip` | external/mcpm/include/mcpm/matching.h:252-255 | an expansion step that dissolves no blocked blossom. When `p` and `q` are distinct original vertices, each its own outer blossom and joined by a usable edge, they end mated to each other |
| `Mcpm.Matching.ExpandEnd` | external/mcpm/include/mcpm/matching.h:253-254 | the `ExpandStep` of `x` with blocked blossoms kept (as for `ExpandChildren`); on an original vertex that is its own outer blossom and mated across a usable edge, nothing changes |
| `Pairing.MinPairOfSingles` | external/mcpm/include/mcpm/matching.h:177-191 | between two single vertices joined by a usable edge, the least pair is that edge |
| `Mcpm.Matching.FlipPathToRoot` | external/mcpm/include/mcpm/matching.h:256-265 | the walk to the root is a sequence of expansion steps that dissolve no blocked blossom; when `p0` is a root, nothing changes |
| `Mcpm.Matching.Augment` | external/mcpm/include/mcpm/matching.h:246-279 | only `outer`, `active`, `mate` and the order of `shallow` change, no blocked blossom is dissolved, and the pool follows the activity flags |
| `Mcpm.Matching.ResetSlot` | external/mcpm/include/mcpm/matching.h:284-288 | cuts the forest link of slot `i`, then only dismantles |
| `Mcpm.Matching.ResetForest` | external/mcpm/include/mcpm/matching.h:283-289 | every slot is unhooked from the forest, and otherwise blossoms are only dismantled |
| `Mcpm.Matching.ClearVisited` | external/mcpm/include/mcpm/matching.h:291 | every visit mark is cleared; nothing else changes |
| `Mcpm.Matching.LabelVertex` | external/mcpm/include/mcpm/matching.h:294-300 | the outer blossom of `i` becomes EVEN and visited when unmatched, UNLABELED otherwise; `i` is queued when its blossom was unmatched and unvisited |
| `Mcpm.Matching.LabelRoots` | external/mcpm/include/mcpm/matching.h:293-301 | labels and visit marks as `Labelled` says, and the queue is the first vertex of each unmatched blossom |
| `Mcpm.Matching.Relabel` | external/mcpm/include/mcpm/matching.h:291-301 | the labelling of `LabelRoots`, starting from cleared visit marks and an empty queue |
| `Mcpm.QueueStep` | external/mcpm/include/mcpm/matching.h:296-298 | the `visited` guard queues a vertex exactly when it is the first vertex of its unmatched blossom |
| `Mcpm.FirstsAscending` | external/mcpm/include/mcpm/matching.h:293-298 | the queue holds vertices in ascending order, each the first vertex of an unmatched blossom |
| `Mcpm.FirstsDistinct` | external/mcpm/include/mcpm/matching.h:296-298 | no blossom is queued twice |
| `Mcpm.FirstsCover` | external/mcpm/include/mcpm/matching.h:293-298 | the blossom of every unmatched vertex is queued |
| `Mcpm.ResetKinds` | external/mcpm/include/mcpm/matching.h:282-302 | after the reset every slot has `forest == -1` and `root == itself`, and blossoms of no vertex keep their label |
| `Mcpm.Matching.Reset` | external/mcpm/include/mcpm/matching.h:282-302 | every slot has `forest == -1` and `root == itself`, and blossoms are only dismantled. The outer blossom of each unmatched vertex is EVEN, and of each matched vertex UNLABELED. A blossom is visited exactly when unmatched. The queue holds the first vertex of each unmatched blossom, once |
| `Forest.MarkPath` | external/mcpm/include/mcpm/matching.h:312-316 | marks exactly the blossoms on the walk from `u`'s outer blossom to its root |
| `Forest.FindTip` | external/mcpm/include/mcpm/matching.h:318-321 | the first blossom on `v`'s walk that is marked |
| `Forest.TipIsLowestCommon` | external/mcpm/include/mcpm/matching.h:318-321 | the tip lies on `v`'s walk, and no blossom before it on that walk is on `u`'s walk |
| `Forest.ChainsApart` | external/mcpm/include/mcpm/matching.h:318-320 | when the tip is not on `u`'s walk, the two walks share no blossom |
| `Forest.CircuitDown` | external/mcpm/include/mcpm/matching.h:325-331 | the walk from `u`'s blossom up to the tip, reversed |
| `Forest.CircuitUp` | external/mcpm/include/mcpm/matching.h:339-344 | appends `v`'s walk up to, not including, the tip |
| `Forest.CircuitFromTip` | external/mcpm/include/mcpm/matching.h:325-344 | the circuit is the tip, then `u`'s side reversed, then `v`'s side; `u`'s outer blossom sits where that side ends |
| `Mcpm.Matching.FindCircuit` | external/mcpm/include/mcpm/matching.h:311-344 | the tip and the odd circuit found by the two walks over the current forest |
| `Nesting.Flatten` | external/mcpm/include/mcpm/matching.h:347-354 | a vertex is in the concatenated deep lists exactly when some child's deep list holds it |
| `Mcpm.Matching.AbsorbVertex` | external/mcpm/include/mcpm/matching.h:351-352 | appends vertex `z` to `deep[t]` and makes `t` its outer blossom |
| `Mcpm.Matching.AbsorbChild` | external/mcpm/include/mcpm/matching.h:348-353 | child `x` and each vertex deep in it get `t` as outer blossom, and those vertices join `deep[t]` in order |
| `Mcpm.AbsorbAllDeep` | external/mcpm/include/mcpm/matching.h:347-354 | `deep[t]` becomes the children's deep lists concatenated in circuit order; other deep lists are kept |
| `Mcpm.AbsorbAllOuter` | external/mcpm/include/mcpm/matching.h:347-354 | exactly the children and the vertices deep in them get `t` as outer blossom |
| `Mcpm.AbsorbOuterFor` | external/mcpm/include/mcpm/matching.h:347-354 | slot `y` gets `t` as outer blossom exactly when it is one of the first `k` children or deep in one |
| `Mcpm.Matching.Contract` | external/mcpm/include/mcpm/matching.h:333-354 | the slots after naming the tip, setting the children and contracting them into `t` |
| `Mcpm.Matching.CrownSlot` | external/mcpm/include/mcpm/matching.h:356-361 | `t` takes the tip's forest parent, root and mate, and becomes an active EVEN outer blossom |
| `Mcpm.NestedFrom` | external/mcpm/include/mcpm/matching.h:346-354 | contraction nests exactly the children and their vertices in `t`, with `deep[t]` their concatenation |
| `Mcpm.BlossomMadeFrom` | external/mcpm/include/mcpm/matching.h:306-364 | contracting the circuit of the walks and crowning `t` yields the blossom `BlossomMade` describes |
| `Mcpm.Matching.Blossom` | external/mcpm/include/mcpm/matching.h:306-364 | `t` is the slot popped from the pool and lies in `[n, 2n)`. `t` becomes an active EVEN outer blossom whose tip is the lowest blossom common to the two forest walks, with the tip's parent, root and mate. Its children are the odd circuit, tip first. When `t` is not on that circuit, the children and their vertices get `t` as outer blossom, and `deep[t]` is their deep lists concatenated. Other slots change only in `outer` |
| `Mcpm.GrowOntoFacts` | external/mcpm/include/mcpm/matching.h:122-136 | growing through `u`-`v` makes `outer[v]` ODD under `u` and its mate's blossom EVEN under `v`, both in `u`'s tree, the latter visited. Mates, nesting and activity are kept, and no other slot changes |
| `Mcpm.Matching.GrowAlong` | external/mcpm/include/mcpm/matching.h:122-136 | the slots become `GrowOnto`; the mate's vertex is queued exactly when its blossom was not visited |
| `Mcpm.Matching.ExploreEdge` | external/mcpm/include/mcpm/matching.h:112-159 | when the scan goes on, mates, outer blossoms and the pool are unchanged |
| `Mcpm.Matching.CloseEven` | external/mcpm/include/mcpm/matching.h:138-159 | `stop` holds exactly when the two blossoms lie in different trees, or are distinct with a free slot in the pool; otherwise nothing changes. In different trees: the augmentation is an expansion step that dissolves no blocked blossom (to `flipped`), the reset only dismantles blossoms and leaves a fresh forest (`FreshForest`). In the same tree: the top `b` of the pool is popped and queued at the front, the slots are a contraction into `b` (`BlossomMade`) with `b` then marked visited |
| `Mcpm.Matching.AugmentAndReset` | external/mcpm/include/mcpm/matching.h:142-146 | the augmentation is an expansion step that dissolves no blocked blossom; the reset after it unhooks every slot, only dismantles blossoms, and leaves a fresh forest: labels by matched status, visit marks exactly on the unmatched outer blossoms, and the queue of their first vertices |
| `Mcpm.Matching.ContractAndQueue` | external/mcpm/include/mcpm/matching.h:150-158 | `b` is popped from the top of the pool and lies in `[n, 2n)`. The slots become the blossom `BlossomMade` describes, over the forest walks of the old state, with `b` visited; `b` is queued at the front |
| `Mcpm.Matching.ExploreVertex` | external/mcpm/include/mcpm/matching.h:110-161 | when no edge stops the scan, mates, outer blossoms and the pool are unchanged |
| `Mcpm.Matching.GrowStep` | external/mcpm/include/mcpm/matching.h:99-162 | when the round goes on, mates, outer blossoms and the pool are unchanged, and the queue is the rest of the old queue with vertices appended |
| `Mcpm.Matching.CheckPerfect` | external/mcpm/include/mcpm/matching.h:165-169 | `perfect` holds exactly when the outer blossom of every original vertex is matched |
| `Mcpm.Matching.Grow` | external/mcpm/include/mcpm/matching.h:93-170 | `done` holds exactly when the queue was drained; `perfect` holds exactly when every vertex's outer blossom has a mate |
| `Mcpm.Matching.ResetAndGrow` | external/mcpm/include/mcpm/matching.h:93-163 | `done` holds exactly when the queue was drained |
| `Mcpm.Matching.GrowRounds` | external/mcpm/include/mcpm/matching.h:98-163 | `done` holds exactly when the queue was drained |
| `Duals.LeastIsLeast` | external/mcpm/include/mcpm/matching.h:374-377 | the scan with the `inite` flag finds nothing exactly when no element is selected; otherwise it finds a selected element no greater than any other |
| `Duals.LeastSlackFound` | external/mcpm/include/mcpm/matching.h:369-385 | the scan's result is the least slack over the edges of the class, or none |
| `Mcpm.Matching.LeastSlacks` | external/mcpm/include/mcpm/matching.h:369-385 | `e1` is the least slack of an EVEN-UNLABELED edge, and `e2` of an EVEN-EVEN edge between distinct outer blossoms |
| `Mcpm.Matching.LeastOddDual` | external/mcpm/include/mcpm/matching.h:386-391 | `e3` is the least dual of an active ODD outer blossom slot |
| `Duals.Step` | external/mcpm/include/mcpm/matching.h:392-400 | the step is at most `e1`, `e2/2` and `e3`, wherever each is defined |
| `Duals.StepIsLeastBound` | external/mcpm/include/mcpm/matching.h:392-400 | the step equals one of the defined bounds, or is 0 when none is defined |
| `Mcpm.Matching.ComputeStep` | external/mcpm/include/mcpm/matching.h:367-400 | the step the source computes from the current labels, slacks and duals |
| `Duals.StepNotNegative` | external/mcpm/include/mcpm/matching.h:392-400 | with non-negative slacks and ODD duals, the step is not negative |
| `Duals.StepKeepsSlacksNonNegative` | external/mcpm/include/mcpm/matching.h:413-427 | with non-negative slacks beforehand, every slack is non-negative after the step |
| `Duals.StepTightensAnEdge` | external/mcpm/include/mcpm/matching.h:392-427 | unless the step is `e3`, some EVEN-UNLABELED or EVEN-EVEN edge ends with slack 0 |
| `Mcpm.Matching.ShiftDuals` | external/mcpm/include/mcpm/matching.h:402-411 | active EVEN outer blossoms gain `e` and active ODD ones lose `e`; nothing else changes |
| `Mcpm.Matching.ShiftSlacks` | external/mcpm/include/mcpm/matching.h:413-427 | each slack moves by the change the step makes to the reduced cost of its edge |
| `Mcpm.ViewsIgnoreDuals` | external/mcpm/include/mcpm/matching.h:402-413 | shifting the duals does not change the labels the slack update reads |
| `Mcpm.SlackFollowsDuals` | external/mcpm/include/mcpm/matching.h:402-427 | between distinct active outer blossoms, the slack change is minus the sum of the two dual changes; otherwise it is 0 |
| `Mcpm.DualStepFeasible` | external/mcpm/include/mcpm/matching.h:366-427 | on the engine's state, with non-negative slacks and ODD duals, the step is non-negative and keeps every slack non-negative |
| `Mcpm.OddDualsStayNonNegative` | external/mcpm/include/mcpm/matching.h:386-411 | the clamp by `e3` keeps the dual of every ODD outer blossom non-negative |
| `Mcpm.Matching.UnblockSlot` | external/mcpm/include/mcpm/matching.h:428-441 | afterwards slot `i` is blocked if its dual is positive, and unblocked if its dual is not positive and it is active. Duals are kept, and no settled slot becomes unsettled |
| `Mcpm.Matching.UnblockAll` | external/mcpm/include/mcpm/matching.h:428-442 | every blossom slot is settled in that sense, and the duals are kept |
| `Mcpm.BlockSettledDismantles` | external/mcpm/include/mcpm/matching.h:435 | destroying blossoms keeps duals and keeps settled slots settled |
| `Mcpm.BlockSettledReset` | external/mcpm/include/mcpm/matching.h:282-302 | a reset keeps every dual, and every slot whose block flag agreed with its dual still agrees |
| `Mcpm.BlockSettledExpands` | external/mcpm/include/mcpm/matching.h:438-439 | expanding without `expandBlocked` keeps duals and keeps settled slots settled |
| `Mcpm.Matching.UpdateDualCosts` | external/mcpm/include/mcpm/matching.h:366-443 | the step is `DualStep` of the old state. The slacks are shifted by it over the old labels, and the duals are those of `DualShifted`. Every blossom slot ends blocked exactly when its dual is positive, as far as it is active |
| `Greedy.Degrees` | external/mcpm/include/mcpm/matching.h:497-506 | the degree of each vertex counts its edges that are not blocked |
| `Greedy.Handshake` | external/mcpm/include/mcpm/matching.h:497-506 | the degrees sum to twice the number of edges that are not blocked |
| `Mcpm.Matching.CountDegrees` | external/mcpm/include/mcpm/matching.h:494-506 | the counting loop computes `Degrees` |
| `Greedy.DeleteMin` | external/mcpm/include/mcpm/matching.h:511-512 | the drawn vertex has the least degree of those pending |
| `Greedy.DrawnStep` | external/mcpm/include/mcpm/matching.h:508-512 | drawing a least-degree vertex keeps the drawn order non-decreasing in degree, and every vertex drawn or pending |
| `Greedy.LeastDegree` | external/mcpm/include/mcpm/matching.h:515-525 | -1 exactly when there is no candidate. Otherwise a candidate of least degree, and every earlier candidate has a strictly larger degree, so it is the first such one |
| `Greedy.PickPartner` | external/mcpm/include/mcpm/matching.h:513-525 | -1 exactly when no neighbour fits. Otherwise a fitting neighbour (an unblocked edge, another outer blossom, unmatched) of least degree |
| `Mcpm.Matching.MatchGreedily` | external/mcpm/include/mcpm/matching.h:512-530 | an unmatched blossom of `u` gets a least-degree fitting partner, `mate[outer[u]] := partner` and `mate[outer[partner]] := u`. Otherwise nothing changes. Existing mates are kept, and `u` is settled |
| `Mcpm.MatchSettles` | external/mcpm/include/mcpm/matching.h:513-529 | after one greedy visit, `u`'s blossom is matched or has no fitting partner |
| `Mcpm.SettledKept` | external/mcpm/include/mcpm/matching.h:526-529 | adding mates keeps earlier vertices settled |
| `Mcpm.EverySettled` | external/mcpm/include/mcpm/matching.h:511-531 | once every vertex has been drawn, every vertex is settled |
| `Mcpm.Matching.Heuristic` | external/mcpm/include/mcpm/matching.h:490-532 | `order` holds the `n` vertices in non-decreasing degree order, every vertex present. `states` runs from the slots on entry to those on exit, and step `j` is the `GreedyStep` of `order[j]`: nothing changes, or the unmatched outer blossom of the vertex is mated to that of a least-degree fitting partner, as `MatchGreedily` states. Only mates are added, and afterwards every vertex's blossom is matched or has no fitting partner |
| `Duals.LowestOrZero` | external/mcpm/include/mcpm/matching.h:536-539 | `min(0, min slack)`: at most 0 and at most every slack, and 0 or attained |
| `Mcpm.Matching.LowestSlack` | external/mcpm/include/mcpm/matching.h:536-539 | the scan computes `LowestOrZero` |
| `Duals.ShiftMakesNonNegative` | external/mcpm/include/mcpm/matching.h:534-543 | after the shift every slack is non-negative and pairwise differences are kept. Nothing moves when no slack was negative; otherwise some slack becomes 0 |
| `Mcpm.Matching.PositiveCosts` | external/mcpm/include/mcpm/matching.h:535-543 | every slack is lowered by the same `LowestOrZero` |
| `Results.SelectedUpTo` | external/mcpm/include/mcpm/matching.h:552-559 | exactly the edges `(u, v)` with `mate[u] == v`, in strictly ascending order |
| `Results.SelectedEdgesFormMatching` | external/mcpm/include/mcpm/matching.h:552-559 | when the mates of the original vertices form a matching, the selected edges share no endpoint and cover exactly the matched vertices |
| `Mcpm.Matching.ExpandMatched` | external/mcpm/include/mcpm/matching.h:547-550 | `states` and `pools` run from the slots and pool on entry to those on exit, one step per slot `i` in ascending order. Step `i` is the `ExpandStep` of `i` with blocked blossoms included when slot `i` is then active, matched and its own outer blossom, and no change otherwise. Every such blossom slot ends inactive |
| `Mcpm.Matching.ReadMatching` | external/mcpm/include/mcpm/matching.h:552-559 | the scan returns `SelectedUpTo` of the mates |
| `Results.ReadSelected` | external/mcpm/include/mcpm/matching.h:552-559 | the scan over the edges returns exactly the indices `i` whose edge `(u, v)` has `mate[u] == v`, ascending (`SelectedUpTo`) |
| `Mcpm.Matching.RetrieveMatching` | external/mcpm/include/mcpm/matching.h:545-560 | the expansion trace of `ExpandMatched`; the returned indices are the edges `(u, v)` with `mate[u] == v` after it, ascending |
| `Mcpm.Matching.SolveMaximumMatching` | external/mcpm/include/mcpm/matching.h:81-85 | fails only with `OutOfSteps`. `perfect` holds exactly when every original vertex's outer blossom is matched in `grown`. On success the result is read off the final mates, which an `ExpandMatched` trace reaches from `grown` and `pool`. How `grown` follows from the cleared state is not stated |
| `Mcpm.Matching.LoadCosts` | external/mcpm/include/mcpm/matching.h:46 | the slacks become the given costs |
| `Mcpm.Matching.PrimalDualRound` | external/mcpm/include/mcpm/matching.h:52-61 | the warm start as `Heuristic` states it (`order`, and the trace `warm` from the slots on entry). `perfect` holds exactly when every original vertex's outer blossom is matched in `grown`. When the growth drained its queue, the slacks and duals move by `DualStep` over `grown`, block flags agree with duals, and the forest is fresh (`ShiftedReset`); otherwise the slacks are unchanged. How `grown` follows from the warm start is not stated |
| `Mcpm.Matching.GrowAndShift` | external/mcpm/include/mcpm/matching.h:57-60 | `perfect` as in `PrimalDualRound`; when the queue was drained, `ShiftedReset` from `grown`, and otherwise unchanged slacks. How `grown` follows from the slots on entry is not stated |
| `Mcpm.Matching.ShiftAndReset` | external/mcpm/include/mcpm/matching.h:58-60 | `ShiftedReset` from the slots and slacks on entry: slacks shifted by `DualStep` over them, duals moved by the same step, every blossom slot with positive dual blocked and every active one without unblocked, and a fresh forest |
| `Results.TotalSnoc` | external/mcpm/include/mcpm/matching.h:66-67 | the total grows by the cost of each next edge |
| `Mcpm.TotalCost` | external/mcpm/include/mcpm/matching.h:65-67 | the sum of the original costs over the returned edges |
| `Mcpm.Matching.SolveMinimumCostPerfectMatching` | external/mcpm/include/mcpm/matching.h:38-77 | fails with `NoPerfectMatching` only with `perfect` false and some original vertex's outer blossom unmatched in `grown`; otherwise as `CostRounds`. On success `perfect` holds and every original vertex's outer blossom is matched in `grown`, and the result is the matched edges, ascending, with the sum of their unshifted costs |
| `Mcpm.Matching.CostRounds` | external/mcpm/include/mcpm/matching.h:43-77 | fails only with `OutOfSteps`. On success `perfect` holds, every original vertex's outer blossom is matched in `grown` (the slots after the last growth), and the result is the edges `(u, v)` with `mate[u] == v` after the final expansion, ascending, with the sum of their costs |

## Left out

- The graph (`mcpm/graph.h`) is not part of this model. It is modelled by the five
  queries the engine makes, with edge indices and adjacency lists in edge order.
- The binary heap (`mcpm/binary_heap.h`) is not part of this model. `Heuristic`
  draws the first pending vertex of least degree. The heap may break ties
  differently, and every contract holds for any least-degree choice.
- `Mcpm.Matching.Heuristic`: `order` is fixed only up to ties in degree, since the
  heap's tie-breaking is not modelled; the trace follows whichever order was taken.
- Floating point: `GREATER` is the exact `>` on reals, so epsilon tolerance and
  rounding drift are not modelled.
- Optimality of the minimum-cost matching, and termination of the primal-dual loop,
  are not modelled. `SolveMinimumCostPerfectMatching` runs at most `fuel` rounds,
  and `Grow` at most `fuel` queue rounds. Running out gives `Failure(OutOfSteps)`,
  a result the source does not have.
- The `dualObj` sum (lines 69-74) is computed and never used, so it is not modelled.
- `SolveMinimumCostPerfectMatching` reports `NoPerfectMatching` in the state
  `SolveMaximumMatching` leaves. The source also throws before clearing anything. A
  "freshly cleared" engine after this failure is not promised; the model follows
  the code.
- `PositiveCosts` subtracts `min(0, min slack)`, as the code does. Slacks that are
  all non-negative are left alone, rather than shifted down to a zero minimum.
- `Expand` and `DestroyBlossom` take a nesting `depth`, and the model passes `n`.
  Below it, the recursion into children stops. Nesting in the source is at most
  `n/2` deep, so the bound is never reached on a well-formed state.
- `Expand`: when `mate[u] == -1`, the model returns without change. The source would
  read `outer[-1]` there; no caller passes such a blossom.
- `FlipPathToRoot` (the two loops of `Augment`) stops after `2n` steps, and also
  where a blossom's parent has no parent. On a well-formed forest neither happens
  before the root.
- The forest walks of `Blossom` (`Forest.Chain`) climb at most `2n` times.
- `Mcpm.Matching.Blossom`: the facts about `outer` and `deep` are stated for the case
  where the drawn slot is not on the circuit. A free slot is never an outer blossom
  in the algorithm, but the model carries no invariant saying so.
- `Blossom` reads each child's deep list before appending to `deep[t]`, so a
  contraction of `t` into itself cannot loop.
- `Grow` contracts a blossom only when the pool is not empty. It grows onto an
  unlabeled blossom only when that blossom is matched, which the reset labelling
  always gives. The scan of `deep[w]` reads the list as the round began.
- `Mcpm.Matching.Grow`: does not state how a growth changes the matching (that
  augmenting keeps a valid matching). It states the queue and the `perfect` flag.
- `Mcpm.Matching.Augment`: states the frame (only mates, nesting, activity and the
  order of children change, and no blocked blossom is dissolved), not that the path
  is flipped into a larger matching. That would need the full nesting and forest
  invariants.
- `Mcpm.Matching.Expand`: states the rematch and the frame, not the final mates of
  every vertex nested in `u`.
- `Mcpm.Matching.DestroyBlossom`: does not state that each child ends as its own
  outer blossom. A later sibling's deep list could overwrite it unless blossoms are
  disjoint, and the model has no such invariant.
- `Mcpm.Matching.UpdateDualCosts`: states the step, the slacks, the duals and the
  block flags. It does not state what the `Expand` and `DestroyBlossom` calls of
  its unblocking pass do to mates and nesting.
- `Mcpm.Matching.ExploreEdge`: for a scan that goes on, states that mates, outer
  blossoms and the pool are kept and the queue only grows. A stopping edge is
  stated only as far as the contracts of `CloseEven` and `GrowAlong` go; neither
  states the matching an augmentation produces.
- `Mcpm.Matching.CloseEven`: states the augmentation only as an expansion step
  (the flip of the path is not stated, as for `Augment`), and the contraction
  through `BlossomMade`. The ghost outputs of the case that did not happen are
  unconstrained.
- `Mcpm.Matching.ExploreVertex`: the same as `ExploreEdge`, over all edges of the
  vertex.
- `Mcpm.Matching.GrowStep`: states what a round that goes on keeps, not what a
  stopping round does to the matching.
- `Mcpm.Matching.AugmentAndReset`: states the frame of the augmentation and the
  reset, not that the matching grows by one edge.
- `Mcpm.Matching.PrimalDualRound`: `grown`, the slots after the growth, is tied
  to the final state (the `perfect` flag, and `ShiftedReset` when the queue was
  drained) but not to the warm start, because the growth has no functional
  contract and the fuel may stop it early. That the dual objective improves is
  not stated.
- `Mcpm.Matching.GrowAndShift`: `grown` is tied to the final state as in
  `PrimalDualRound`, not to the slots on entry; a body that skipped the growth
  would meet the same contract.
- `Mcpm.Matching.ResetAndGrow`: states only that `done` means the queue was
  drained. What the rounds do to the matching and the forest is not stated:
  `GrowStep` states a round that goes on, not one that stops, and the fuel lets
  the loop stop early.
- `Mcpm.Matching.GrowRounds`: the same as `ResetAndGrow`, without the reset.
- `Mcpm.Matching.SolveMaximumMatching`: `perfect` and the result are tied to
  `grown`, and the result to the expansion of `grown`, but `grown` is tied
  neither to the graph nor to the cleared state, since `Grow` has no functional
  contract. That the matching is maximum is not stated.
- `Mcpm.Matching.SolveMinimumCostPerfectMatching`: `NoPerfectMatching`, success
  and `perfect` are tied to `grown`, which is tied neither to the graph nor to
  the state after the growth in the way the source computes it (see `Grow`).
  That the maximum matching is maximum, and that the result has minimum cost, are
  not stated.
- `Mcpm.Matching.CostRounds`: the same gap for `grown` as in `PrimalDualRound`;
  the success result is not tied to `grown` beyond the `perfect` flag.
- `Mcpm.Matching.UnnestChildren`: states the dismantling frame only, not that each
  child ends as its own outer blossom. The reason is the same as for
  `DestroyBlossom`.
- `Mcpm.Matching.ExpandChildren`: states each child's expansion as an
  `ExpandStep`. It does not state the mates or nesting left inside a dissolved
  child, which `Expand` does not state either; later steps may change what an
  earlier one set.
- `Mcpm.Matching.ExpandEnd`: the mates left inside a dissolved blossom `x` are not
  stated, as for `Expand`.
- `Mcpm.Matching.DissolveAndDescend`: states that `u` is dissolved and how the pool
  grows. The re-matching and un-nesting that `Dissolve` states are not restated,
  because the children's own expansions may overwrite them.
- `Mcpm.Matching.Flip`: states the new mates only where `p` and `q` are original
  vertices, each its own outer blossom. For a blossom end, the mates nested inside
  are those `Expand` leaves, and its contract does not state them.
- `Mcpm.Matching.FlipPathToRoot`: states the frame and that a root is left alone.
  It does not state the flip of each pair on the walk.
- `Mcpm.Matching.ExpandMatched`: states each step of the scan, and that every
  blossom slot that is active, matched and its own outer blossom when the scan
  reaches it is dissolved. It does not state that no matched blossom is left at
  the end; that needs the nesting invariant.
- `Mcpm.Matching.RetrieveMatching`: the same expansion facts as `ExpandMatched`.
- `Mcpm.Matching.RotateToHolder`: when no child holds `p`, the rotation makes one
  full turn and stops. The source loops forever there. A well-formed blossom always
  has a child holding `p`.
- `Mcpm.Matching.PairCircuit`: on an empty circuit it returns. The source
  dereferences `begin()` there. A blossom's circuit is never empty.
- `Mcpm.Matching.PairFrom`: on a circuit of even length the last child is left
  unpaired. The source steps past `end()` there. A blossom's circuit is always odd.
- `Results.SelectedEdgesFormMatching` is stated for any mate array in which the
  mates of the original vertices form a matching. That the engine's final mates
  form one after the expansion of `ExpandMatched` is not proved.
