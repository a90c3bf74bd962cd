# Weighted set cover (SetCoverer) in Dafny

This project models `SetCoverer`, the weighted minimum set-cover solver of the
sketch. The solver works on a universe of indices `[0, universeSize)`, a list of
candidate sets (lists of indices) and one weight per set. It has four parts:

- **Coverability check.** The constructor runs it once. It tells whether the
  union of all sets hits every index.
- **Exact solver.** `findMinSetCoverDP` is a dynamic program over the `2^n`
  coverage masks. It records a parent mask and the set used for each mask, then
  walks back from the full mask to rebuild the selection.
- **Greedy solver.** `findMinSetCoverGreedy` repeatedly takes the set with the
  least weight per newly covered element. It stops when everything is covered or
  when no set adds anything.
- **Dispatcher.** `findMinSetCover` uses greedy when `sets.length * 2^n > 1e7`
  and the exact solver otherwise. The menu's caller uses the dispatcher for
  coverable instances and greedy for the rest.

Modules follow these parts:

- `Bitmask`: masks as natural numbers. `SetBit(m, j)` stands for `m | (1 << j)`.
- `Cover`: the data model (`SetCoverer`, `Cover`, `Cost`) and the meaning of a
  selection. A selection's union, weight and mask are defined here.
- `Coverability`: the constructor, the coverability check and the getter.
- `ExactSolver`: the table fill, the reconstruction and `findMinSetCoverDP`.
- `GreedySolver`: one round's scan, the main loop, and the lemmas about greedy
  runs.
- `Dispatcher`: `findMinSetCover` and the menu's routing.
- `Scenarios`: two worked instances.

Weights are natural numbers; the demo draws integer weights from 1 to 10. The
JavaScript `Infinity` in the DP table is `Cost.Infinity`. The greedy ratio test
`w_i / c_i < best` is compared exactly by cross-multiplication (`RatioLess`).
`selectedSets` holds positions in `sets` rather than references to the set
arrays.

The comment on the table at `sketch/SetCoverer/setCover.ts:64` ("minimum
weight to cover the elements at positions represented by mask") can be read
as "covers at least the mask". The code computes something narrower, and this
model follows the code: `dp[M]` is the least weight of a selection whose union
is **exactly** the mask `M` (`EntryIsExactMinimum`). For the full mask the two
readings agree, so the answer is the same.

## Model

| member | source | states |
|---|---|---|
| Bitmask.SetBitBits | sketch/SetCoverer/setCover.ts:77 | `mask \| (1 << j)` adds exactly bit j and never makes the mask smaller |
| Bitmask.FullMaskBits | sketch/SetCoverer/setCover.ts:88-90 | `(1 << n) - 1` has exactly the bits 0 .. n-1 |
| Cover.AddSetBits | sketch/SetCoverer/setCover.ts:75-78 | the `newMask` loop sets exactly the bits of the set's elements on top of the old mask |
| Cover.CoversIffFullMask | sketch/SetCoverer/setCover.ts:88 | a selection covers the universe iff its mask is the full mask, so the full-mask entry is the answer for covers |
| Coverability.MarkCovered | sketch/SetCoverer/setCover.ts:22-25 | after marking a set, an entry is true iff it was true before or its index is in the set |
| Coverability.CheckIfUniverseCoverable | sketch/SetCoverer/setCover.ts:19-29 | true iff every index below universeSize occurs in some set |
| Coverability.NewSetCoverer | sketch/SetCoverer/setCover.ts:7-12 | the instance keeps its three inputs, and its flag is true iff the universe is coverable |
| Coverability.GetUniverseCoverable | sketch/SetCoverer/setCover.ts:35-37 | the getter answers whether every index occurs in some set |
| Coverability.CoverableEdgeCases | sketch/SetCoverer/setCover.ts:20-28 | an empty universe is vacuously coverable; a non-empty one with no sets is not |
| ExactSolver.FillTable | sketch/SetCoverer/setCover.ts:64-86 | after the mask loop, mask 0 costs 0 and every finite entry is a recorded transition from a smaller finite mask with matching weight; an infinite entry has no recorded set (-1); extending any finite mask by any set reaches an entry no heavier than the sum |
| ExactSolver.RelaxedTableIsOptimal | sketch/SetCoverer/setCover.ts:70-86 | no selection reaching mask M weighs less than `dp[M]`, and `dp[M]` is finite for every reachable M |
| ExactSolver.EntryHasWitness | sketch/SetCoverer/setCover.ts:80-84 | every finite `dp[M]` is the total weight of some selection whose mask is exactly M |
| ExactSolver.EntryIsExactMinimum | sketch/SetCoverer/setCover.ts:64-86 | `dp[M]` is finite iff some selection reaches exactly M, and then it is the least weight among those selections |
| ExactSolver.TransitionGrowsMask | sketch/SetCoverer/setCover.ts:80-84 | a recorded transition comes from a strictly smaller parent whose bits are a proper subset of M's, so the walk back terminates |
| ExactSolver.Reconstruct | sketch/SetCoverer/setCover.ts:88-99 | the result carries `dp[full]`; if that is finite the rebuilt sets cover the universe and their weights sum to it; if infinite, no sets are returned; with universeSize 0 none are returned |
| ExactSolver.FindMinSetCoverDP | sketch/SetCoverer/setCover.ts:61-100 | finite weight iff the universe is coverable, and then a cover of that weight that no cover undercuts; otherwise Infinity and no sets; universeSize 0 gives weight 0 and no sets |
| GreedySolver.UncoveredCount | sketch/SetCoverer/setCover.ts:118-124 | the count is positive iff some entry of the set is still uncovered |
| GreedySolver.BestSet | sketch/SetCoverer/setCover.ts:113-132 | returns -1 iff no set covers anything new; otherwise the lowest-index set minimising weight per uncovered entry, which never has zero uncovered entries |
| GreedySolver.GreedyChoiceUnique | sketch/SetCoverer/setCover.ts:126-131 | at most one set is the round's choice for a given coverage |
| GreedySolver.GreedyRunUnique | sketch/SetCoverer/setCover.ts:106-145 | the greedy result is determined by the instance: two runs are the same pick sequence |
| GreedySolver.GreedyRunCoversReachable | sketch/SetCoverer/setCover.ts:112-142 | when the loop stops, the picks cover exactly the indices that some set contains |
| GreedySolver.GreedyPicksDistinct | sketch/SetCoverer/setCover.ts:116-141 | no set is picked twice |
| GreedySolver.GreedyEdgeCases | sketch/SetCoverer/setCover.ts:108-112 | with universeSize 0 or no sets, the result is weight 0 and no sets |
| GreedySolver.FindMinSetCoverGreedy | sketch/SetCoverer/setCover.ts:106-145 | the result is the greedy run, with weight equal to the sum of the picked weights; there are at most universeSize rounds; the picks cover exactly what the sets can cover, so the result is a full cover iff the universe is coverable |
| Dispatcher.FindMinSetCover | sketch/SetCoverer/setCover.ts:43-55 | when `sets.length * 2^n > 1e7` the result is the greedy run; otherwise it meets the exact solver's contract; universeSize 0 gives weight 0 and no sets |
| Dispatcher.GreedyNeverBeatsExact | sketch/SetCoverer/setCover.ts:61-145 | on a coverable instance the exact weight is at most the greedy weight |
| Dispatcher.HighlightOptimalSetCover | sketch/WebUtil/Menu.ts:225-232 | the routed result always has a finite weight equal to its picks' sum, and covers exactly what the sets can cover; a coverable instance is routed through `findMinSetCover` (the greedy run above the threshold, an exact minimum at or below it) and a non-coverable instance gets the greedy run |
| Scenarios.ExactOnFiveSets | sketch/SetCoverer/setCover.ts:61-100 | on sets `[0,1,2] [3] [0,2,4] [3,4]` with unit weights over 5 indices, the instance is coverable and the exact weight is 2 with two sets |
| Scenarios.GreedyOnTwoSingletons | sketch/SetCoverer/setCover.ts:106-145 | on sets `[0] [1]` with unit weights over 3 indices, greedy takes both sets for weight 2 and leaves index 2 uncovered; the universe is not coverable |

## Left out

- JavaScript's 32-bit shift is a precondition, not modelled: the exact solver and the dispatcher require `universeSize <= 30`. At 31 and above, `1 << n` is negative or wraps.
- Out-of-range indices are a precondition, not modelled: every element of every set must lie below `universeSize`. The source does not check this. An out-of-range index would grow the `covered` array or set a bit outside the mask.
- A length mismatch between `sets` and `setWeights` is also a precondition, not modelled. The source does not check it either.
- Weights are natural numbers, not IEEE doubles. The greedy ratio is compared exactly by cross-multiplication. Floating-point rounding of `w / c` could only differ for ratios closer together than double precision, and that cannot happen with the demo's small integer weights.
- `selectedSets` holds set positions, not references to the callers' arrays. The menu's `indexOf` lookup from a returned array back to a node is presentation and is left out.
- ExactSolver.FindMinSetCoverDP: the contract fixes the weight. It also says the selection is a cover of that weight. It does not say which one of several equally light covers the table scan ends on.
- Dispatcher.FindMinSetCover: in the exact branch it pins the selection only as far as ExactSolver.FindMinSetCoverDP does, as described above.
- The exact solver's `2^n` table memory and running time are not modelled. The `1e7` threshold appears only as the routing decision.
- The rest of the sketch is UI plumbing with no part in the solver, so it is not modelled. That covers the p5 setup and drawing loop, random weight generation, nodes, cameras, dragging, context menus, the file loader and the DOM menu apart from the routing at Menu.ts lines 228-232.
