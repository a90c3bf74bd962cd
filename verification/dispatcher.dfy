/** `findMinSetCover`, which picks the exact or the greedy solver by a size
    threshold, and the caller's routing in the menu, which sends
    non-coverable instances to the greedy solver. */
module Dispatcher {
  import opened Bitmask
  import opened Cover
  import opened ExactSolver
  import opened GreedySolver

  /** `1e7`: the largest `sets.length * 2^universeSize` left to the exact
      solver. */
  const Threshold: nat := 10000000

  /** `findMinSetCover`. */
  method FindMinSetCover(c: SetCoverer) returns (r: Cover)
    requires ValidInput(c.universeSize, c.sets, c.setWeights)
    requires c.universeSize <= MaxShift
    ensures |c.sets| * Pow2(c.universeSize) > Threshold ==>
      GreedyResult(c.universeSize, c.sets, c.setWeights, r)
    ensures |c.sets| * Pow2(c.universeSize) <= Threshold ==>
      ExactResult(c.universeSize, c.sets, c.setWeights, r)
    ensures c.universeSize == 0 ==> r == Cover(Finite(0), [])
  {
    if |c.sets| * Pow2(c.universeSize) > Threshold {
      r := FindMinSetCoverGreedy(c);
      if c.universeSize == 0 {
        GreedyEdgeCases(c.universeSize, c.sets, c.setWeights, r);
      }
    } else {
      r := FindMinSetCoverDP(c);
    }
  }

  /** On a coverable instance the greedy weight is never below the exact
      one: the greedy picks are a cover, and the exact weight undercuts
      every cover. */
  lemma GreedyNeverBeatsExact(n: nat, sets: seq<seq<nat>>, ws: seq<nat>, greedy: Cover, exact: Cover)
    requires ValidInput(n, sets, ws) && Coverable(n, sets)
    requires GreedyResult(n, sets, ws, greedy) && ExactResult(n, sets, ws, exact)
    ensures exact.minSetWeight.Finite? && greedy.minSetWeight.Finite?
    ensures exact.minSetWeight.value <= greedy.minSetWeight.value
  {
    forall j: nat | j < n
      ensures j in Union(sets, greedy.selectedSets)
    {
      GreedyRunCoversReachable(n, sets, ws, greedy.selectedSets, j);
    }
  }

  /** The routing in `highlightOptimalSetCover`: `findMinSetCover` when the
      universe is coverable, the greedy solver otherwise.  Either way the
      answer is a finite weight whose sets cover every index that any set
      covers. */
  method HighlightOptimalSetCover(c: SetCoverer) returns (r: Cover)
    requires Valid(c)
    requires c.isUniverseCoverable ==> c.universeSize <= MaxShift
    ensures IndicesBelow(|c.sets|, r.selectedSets)
    ensures r.minSetWeight == Finite(TotalWeight(c.setWeights, r.selectedSets))
    ensures forall j: nat :: j < c.universeSize ==>
      (j in Union(c.sets, r.selectedSets) <==> InSomeSet(c.sets, j))
    ensures !c.isUniverseCoverable ==> GreedyResult(c.universeSize, c.sets, c.setWeights, r)
    ensures c.isUniverseCoverable && |c.sets| * Pow2(c.universeSize) > Threshold ==>
      GreedyResult(c.universeSize, c.sets, c.setWeights, r)
    ensures c.isUniverseCoverable && |c.sets| * Pow2(c.universeSize) <= Threshold ==>
      ExactResult(c.universeSize, c.sets, c.setWeights, r)
  {
    if c.isUniverseCoverable {
      r := FindMinSetCover(c);
      if |c.sets| * Pow2(c.universeSize) > Threshold {
        forall j: nat | j < c.universeSize
          ensures j in Union(c.sets, r.selectedSets) <==> InSomeSet(c.sets, j)
        {
          GreedyRunCoversReachable(c.universeSize, c.sets, c.setWeights, r.selectedSets, j);
        }
      } else {
        forall j: nat | j < c.universeSize
          ensures j in Union(c.sets, r.selectedSets) <==> InSomeSet(c.sets, j)
        {
          if j in Union(c.sets, r.selectedSets) {
            UnionInSomeSet(c.sets, r.selectedSets, j);
          }
        }
      }
    } else {
      r := FindMinSetCoverGreedy(c);
    }
  }
}
