/** The greedy solver, `findMinSetCoverGreedy`: repeatedly take the set
    with the best weight per newly covered element until nothing is left
    to cover or no set adds anything. */
module GreedySolver {
  import opened Cover
  import opened Coverability

  /** Number of entries of s that are still uncovered.  A set that lists an
      uncovered index twice counts it twice, as the counting loop of
      `findMinSetCoverGreedy` does. */
  function UncoveredCount(s: seq<nat>, covered: seq<bool>): (count: nat)
    requires IndicesBelow(|covered|, s)
    ensures count > 0 <==> exists k :: 0 <= k < |s| && !covered[s[k]]
    ensures count <= |s|
  {
    if |s| == 0 then 0
    else
      var rest := UncoveredCount(s[1..], covered);
      assert forall k :: 1 <= k < |s| ==> s[1..][k - 1] == s[k];
      (if covered[s[0]] then 0 else 1) + rest
  }

  /** `w1 / c1 < w2 / c2` for positive counts, without division. */
  predicate RatioLess(w1: nat, c1: nat, w2: nat, c2: nat)
  {
    w1 * c2 < w2 * c1
  }

  lemma RatioLessTrans(w1: nat, c1: nat, w2: nat, c2: nat, w3: nat, c3: nat)
    requires c1 > 0 && c2 > 0 && c3 > 0
    requires RatioLess(w1, c1, w2, c2) && !RatioLess(w3, c3, w2, c2)
    ensures RatioLess(w1, c1, w3, c3)
  {
  }

  /** Set b is what one round of the scan in `findMinSetCoverGreedy` picks:
      it covers something new, every earlier candidate has a strictly worse
      ratio and no later candidate a strictly better one (the scan keeps the first
      minimum, because it replaces the best only on a strict `<`). */
  predicate IsGreedyChoice(sets: seq<seq<nat>>, ws: seq<nat>, covered: seq<bool>, b: nat)
    requires |sets| == |ws| && forall i :: 0 <= i < |sets| ==> IndicesBelow(|covered|, sets[i])
  {
    && b < |sets|
    && UncoveredCount(sets[b], covered) > 0
    && (forall i :: 0 <= i < b && UncoveredCount(sets[i], covered) > 0 ==>
          RatioLess(ws[b], UncoveredCount(sets[b], covered), ws[i], UncoveredCount(sets[i], covered)))
    && (forall i :: b < i < |sets| && UncoveredCount(sets[i], covered) > 0 ==>
          !RatioLess(ws[i], UncoveredCount(sets[i], covered), ws[b], UncoveredCount(sets[b], covered)))
  }

  /** No candidate covers anything new. */
  predicate NothingToAdd(sets: seq<seq<nat>>, covered: seq<bool>)
    requires forall i :: 0 <= i < |sets| ==> IndicesBelow(|covered|, sets[i])
  {
    forall i :: 0 <= i < |sets| ==> UncoveredCount(sets[i], covered) == 0
  }

  /** One round's scan (the `for` loop over the sets).  Returns -1 when no
      set covers anything new: a quotient `w / 0` is Infinity or NaN, and
      neither is below the best so far. */
  method BestSet(sets: seq<seq<nat>>, ws: seq<nat>, covered: seq<bool>) returns (best: int)
    requires |sets| == |ws| && forall i :: 0 <= i < |sets| ==> IndicesBelow(|covered|, sets[i])
    ensures best == -1 <==> NothingToAdd(sets, covered)
    ensures best != -1 ==> 0 <= best && IsGreedyChoice(sets, ws, covered, best)
  {
    best := -1;
    var bestCount: nat := 0;
    for i := 0 to |sets|
      invariant best == -1 ==> forall i' :: 0 <= i' < i ==> UncoveredCount(sets[i'], covered) == 0
      invariant best != -1 ==> 0 <= best < i && bestCount == UncoveredCount(sets[best], covered) > 0
      invariant best != -1 ==> forall i' :: 0 <= i' < best && UncoveredCount(sets[i'], covered) > 0 ==>
        RatioLess(ws[best], bestCount, ws[i'], UncoveredCount(sets[i'], covered))
      invariant best != -1 ==> forall i' :: best < i' < i && UncoveredCount(sets[i'], covered) > 0 ==>
        !RatioLess(ws[i'], UncoveredCount(sets[i'], covered), ws[best], bestCount)
    {
      var count := UncoveredCount(sets[i], covered);
      if count > 0 && (best == -1 || RatioLess(ws[i], count, ws[best], bestCount)) {
        if best != -1 {
          forall i' | 0 <= i' < i && UncoveredCount(sets[i'], covered) > 0
            ensures RatioLess(ws[i], count, ws[i'], UncoveredCount(sets[i'], covered))
          {
            if i' != best {
              RatioLessTrans(ws[i], count, ws[best], bestCount, ws[i'], UncoveredCount(sets[i'], covered));
            }
          }
        }
        best := i;
        bestCount := count;
      }
    }
  }

  /** The covered array after the selection's sets have been marked. */
  function CoveredBy(n: nat, sets: seq<seq<nat>>, sel: seq<nat>): (covered: seq<bool>)
    requires IndicesBelow(|sets|, sel)
    ensures |covered| == n
  {
    seq(n, j requires 0 <= j < n => j in Union(sets, sel))
  }

  /** The loop has nothing left to do: every index is covered, or no set
      adds anything. */
  predicate Stalled(n: nat, sets: seq<seq<nat>>, covered: seq<bool>)
    requires |covered| == n && forall i :: 0 <= i < |sets| ==> IndicesBelow(n, sets[i])
  {
    false !in covered || NothingToAdd(sets, covered)
  }

  /** `picks` is the run of the greedy loop: each pick is the greedy choice
      for the coverage of the picks before it, and the loop stops there. */
  ghost predicate IsGreedyRun(n: nat, sets: seq<seq<nat>>, ws: seq<nat>, picks: seq<nat>)
    requires ValidInput(n, sets, ws)
  {
    && IndicesBelow(|sets|, picks)
    && GreedyChoices(n, sets, ws, picks)
    && Stalled(n, sets, CoveredBy(n, sets, picks))
  }

  /** Each pick is the greedy choice for the coverage of the picks before it. */
  ghost predicate GreedyChoices(n: nat, sets: seq<seq<nat>>, ws: seq<nat>, picks: seq<nat>)
    requires ValidInput(n, sets, ws) && IndicesBelow(|sets|, picks)
  {
    forall k {:trigger IsGreedyChoice(sets, ws, CoveredBy(n, sets, picks[..k]), picks[k])} ::
      0 <= k < |picks| ==> IsGreedyChoice(sets, ws, CoveredBy(n, sets, picks[..k]), picks[k])
  }

  /** What the greedy solver returns: its run and the run's total weight. */
  ghost predicate GreedyResult(n: nat, sets: seq<seq<nat>>, ws: seq<nat>, r: Cover)
    requires ValidInput(n, sets, ws)
  {
    && IsGreedyRun(n, sets, ws, r.selectedSets)
    && r.minSetWeight == Finite(TotalWeight(ws, r.selectedSets))
  }

  function CountFalse(c: seq<bool>): (count: nat)
    ensures count <= |c|
  {
    if |c| == 0 then 0 else (if c[0] then 0 else 1) + CountFalse(c[1..])
  }

  /** Turning entries true never adds uncovered entries, and turning one
      false entry true removes at least one. */
  lemma {:induction false} CountFalseShrinks(a: seq<bool>, b: seq<bool>)
    requires |a| == |b| && forall j :: 0 <= j < |a| && a[j] ==> b[j]
    ensures CountFalse(b) <= CountFalse(a)
    ensures (exists j :: 0 <= j < |a| && !a[j] && b[j]) ==> CountFalse(b) < CountFalse(a)
  {
    if |a| > 0 {
      CountFalseShrinks(a[1..], b[1..]);
      if exists j :: 0 <= j < |a| && !a[j] && b[j] {
        var j :| 0 <= j < |a| && !a[j] && b[j];
        if j > 0 {
          assert !a[1..][j - 1] && b[1..][j - 1];
        }
      }
    }
  }

  lemma CoveredByNothing(n: nat, sets: seq<seq<nat>>)
    ensures CoveredBy(n, sets, []) == seq(n, _ => false)
  {
    assert Union(sets, []) == {};
  }

  /** Marking a picked set extends the coverage of the picks by that set. */
  lemma MarkExtendsCoverage(n: nat, sets: seq<seq<nat>>, ws: seq<nat>, picks: seq<nat>, best: nat)
    requires ValidInput(n, sets, ws) && IndicesBelow(|sets|, picks) && best < |sets|
    ensures IndicesBelow(|sets|, picks + [best])
    ensures MarkCovered(CoveredBy(n, sets, picks), sets[best]) == CoveredBy(n, sets, picks + [best])
  {
    var next := picks + [best];
    assert next[..|picks|] == picks;
    assert Union(sets, next) == Union(sets, picks) + Elems(sets[best]);
    var marked := MarkCovered(CoveredBy(n, sets, picks), sets[best]);
    assert forall j :: 0 <= j < n ==> marked[j] == CoveredBy(n, sets, next)[j];
  }

  /** Appending the round's greedy choice keeps the picks a run of greedy
      choices. */
  lemma GreedyStep(n: nat, sets: seq<seq<nat>>, ws: seq<nat>, picks: seq<nat>, best: nat)
    requires ValidInput(n, sets, ws) && IndicesBelow(|sets|, picks)
    requires GreedyChoices(n, sets, ws, picks)
    requires IsGreedyChoice(sets, ws, CoveredBy(n, sets, picks), best)
    ensures IndicesBelow(|sets|, picks + [best])
    ensures GreedyChoices(n, sets, ws, picks + [best])
  {
    var next := picks + [best];
    assert next[..|picks|] == picks;
    forall k | 0 <= k < |next|
      ensures IsGreedyChoice(sets, ws, CoveredBy(n, sets, next[..k]), next[k])
    {
      if k < |picks| {
        assert next[..k] == picks[..k];
      }
    }
  }

  /** Once the loop has stalled, every element of every set is covered. */
  lemma StalledCoversSets(n: nat, sets: seq<seq<nat>>, covered: seq<bool>, i: nat, j: nat)
    requires |covered| == n && forall i' :: 0 <= i' < |sets| ==> IndicesBelow(n, sets[i'])
    requires Stalled(n, sets, covered) && i < |sets| && j in sets[i]
    ensures j < n && covered[j]
  {
  }

  /** When the loop stops, the picks cover exactly what the sets can cover:
      a full cover when the universe is coverable, the largest partial one
      otherwise. */
  lemma GreedyRunCoversReachable(n: nat, sets: seq<seq<nat>>, ws: seq<nat>, picks: seq<nat>, j: nat)
    requires ValidInput(n, sets, ws) && IsGreedyRun(n, sets, ws, picks) && j < n
    ensures j in Union(sets, picks) <==> InSomeSet(sets, j)
  {
    if j in Union(sets, picks) {
      UnionInSomeSet(sets, picks, j);
    }
    if InSomeSet(sets, j) {
      var i :| 0 <= i < |sets| && j in sets[i];
      StalledCoversSets(n, sets, CoveredBy(n, sets, picks), i, j);
    }
  }

  /** At most one set is the greedy choice for a given coverage. */
  lemma GreedyChoiceUnique(sets: seq<seq<nat>>, ws: seq<nat>, covered: seq<bool>, b1: nat, b2: nat)
    requires |sets| == |ws| && forall i :: 0 <= i < |sets| ==> IndicesBelow(|covered|, sets[i])
    requires IsGreedyChoice(sets, ws, covered, b1) && IsGreedyChoice(sets, ws, covered, b2)
    ensures b1 == b2
  {
  }

  /** A stalled loop has no greedy choice left. */
  lemma StalledAdmitsNoChoice(n: nat, sets: seq<seq<nat>>, ws: seq<nat>, covered: seq<bool>, b: nat)
    requires ValidInput(n, sets, ws) && |covered| == n && Stalled(n, sets, covered)
    ensures !IsGreedyChoice(sets, ws, covered, b)
  {
  }

  lemma NextPickAgrees(n: nat, sets: seq<seq<nat>>, ws: seq<nat>, p: seq<nat>, q: seq<nat>, k: nat)
    requires ValidInput(n, sets, ws) && IsGreedyRun(n, sets, ws, p) && IsGreedyRun(n, sets, ws, q)
    requires k < |p| && k < |q| && p[..k] == q[..k]
    ensures p[k] == q[k]
  {
    var covered := CoveredBy(n, sets, p[..k]);
    assert IsGreedyChoice(sets, ws, covered, p[k]);
    assert IsGreedyChoice(sets, ws, covered, q[k]);
    GreedyChoiceUnique(sets, ws, covered, p[k], q[k]);
  }

  lemma {:induction false} RunsAgreeUpTo(n: nat, sets: seq<seq<nat>>, ws: seq<nat>, p: seq<nat>, q: seq<nat>, k: nat)
    requires ValidInput(n, sets, ws) && IsGreedyRun(n, sets, ws, p) && IsGreedyRun(n, sets, ws, q)
    requires k <= |p| && k <= |q|
    ensures p[..k] == q[..k]
  {
    if k > 0 {
      RunsAgreeUpTo(n, sets, ws, p, q, k - 1);
      NextPickAgrees(n, sets, ws, p, q, k - 1);
      assert p[..k] == p[..k - 1] + [p[k - 1]];
      assert q[..k] == q[..k - 1] + [q[k - 1]];
    }
  }

  /** The greedy run is determined by its inputs: two runs on the same
      instance are the same sequence of picks. */
  lemma GreedyRunUnique(n: nat, sets: seq<seq<nat>>, ws: seq<nat>, p: seq<nat>, q: seq<nat>)
    requires ValidInput(n, sets, ws) && IsGreedyRun(n, sets, ws, p) && IsGreedyRun(n, sets, ws, q)
    ensures p == q
  {
    if |p| < |q| {
      RunsAgreeUpTo(n, sets, ws, p, q, |p|);
      assert q[..|p|] == p;
      StalledAdmitsNoChoice(n, sets, ws, CoveredBy(n, sets, p), q[|p|]);
      assert false;
    } else if |q| < |p| {
      RunsAgreeUpTo(n, sets, ws, p, q, |q|);
      assert p[..|q|] == q;
      StalledAdmitsNoChoice(n, sets, ws, CoveredBy(n, sets, q), p[|q|]);
      assert false;
    } else {
      RunsAgreeUpTo(n, sets, ws, p, q, |p|);
      assert p == p[..|p|] && q == q[..|q|];
    }
  }

  /** With an empty universe or no sets the loop never picks anything, and
      the result is weight 0 with no sets. */
  lemma GreedyEdgeCases(n: nat, sets: seq<seq<nat>>, ws: seq<nat>, r: Cover)
    requires ValidInput(n, sets, ws) && GreedyResult(n, sets, ws, r)
    requires n == 0 || |sets| == 0
    ensures r == Cover(Finite(0), [])
  {
    CoveredByNothing(n, sets);
    assert IsGreedyRun(n, sets, ws, []);
    GreedyRunUnique(n, sets, ws, r.selectedSets, []);
  }

  /** A set picked at round k is part of the coverage of every later round. */
  lemma {:induction false} PickStaysCovered(sets: seq<seq<nat>>, picks: seq<nat>, k: nat, later: nat)
    requires IndicesBelow(|sets|, picks) && k < later <= |picks|
    ensures Elems(sets[picks[k]]) <= Union(sets, picks[..later])
  {
    assert picks[..later][..later - 1] == picks[..later - 1];
    if k < later - 1 {
      PickStaysCovered(sets, picks, k, later - 1);
    }
  }

  /** No set is picked twice: once picked, it adds nothing new. */
  lemma GreedyPicksDistinct(n: nat, sets: seq<seq<nat>>, ws: seq<nat>, picks: seq<nat>)
    requires ValidInput(n, sets, ws) && IsGreedyRun(n, sets, ws, picks)
    ensures forall k, later :: 0 <= k < later < |picks| ==> picks[k] != picks[later]
  {
    forall k, later | 0 <= k < later < |picks|
      ensures picks[k] != picks[later]
    {
      var covered := CoveredBy(n, sets, picks[..later]);
      assert IsGreedyChoice(sets, ws, covered, picks[later]);
      var e :| 0 <= e < |sets[picks[later]]| && !covered[sets[picks[later]][e]];
      PickStaysCovered(sets, picks, k, later);
      assert sets[picks[later]][e] !in Elems(sets[picks[k]]);
    }
  }

  /** `findMinSetCoverGreedy`. */
  method FindMinSetCoverGreedy(c: SetCoverer) returns (r: Cover)
    requires ValidInput(c.universeSize, c.sets, c.setWeights)
    ensures GreedyResult(c.universeSize, c.sets, c.setWeights, r)
    ensures |r.selectedSets| <= c.universeSize
    ensures forall j: nat :: j < c.universeSize ==>
      (j in Union(c.sets, r.selectedSets) <==> InSomeSet(c.sets, j))
    ensures Covers(c.universeSize, c.sets, r.selectedSets) <==> Coverable(c.universeSize, c.sets)
  {
    var n, sets, ws := c.universeSize, c.sets, c.setWeights;
    var covered := seq(n, _ => false);
    var totalWeight := 0;
    var picks: seq<nat> := [];
    CoveredByNothing(n, sets);
    while false in covered
      invariant IndicesBelow(|sets|, picks)
      invariant covered == CoveredBy(n, sets, picks)
      invariant totalWeight == TotalWeight(ws, picks)
      invariant GreedyChoices(n, sets, ws, picks)
      invariant |picks| + CountFalse(covered) <= n
      decreases CountFalse(covered)
    {
      var best := BestSet(sets, ws, covered);
      if best == -1 {
        break;
      }
      var next := MarkCovered(covered, sets[best]);
      var k0 :| 0 <= k0 < |sets[best]| && !covered[sets[best][k0]];
      CountFalseShrinks(covered, next);
      MarkExtendsCoverage(n, sets, ws, picks, best);
      GreedyStep(n, sets, ws, picks, best);
      assert (picks + [best])[..|picks|] == picks;
      picks := picks + [best];
      totalWeight := totalWeight + ws[best];
      covered := next;
    }
    r := Cover(Finite(totalWeight), picks);
    forall j: nat | j < n
      ensures j in Union(sets, picks) <==> InSomeSet(sets, j)
    {
      GreedyRunCoversReachable(n, sets, ws, picks, j);
    }
  }
}
