/** Two worked instances of the solver. */
module Scenarios {
  import opened Cover
  import opened ExactSolver
  import opened GreedySolver

  /** Five indices covered by four unit-weight sets. */
  const FiveSets: seq<seq<nat>> := [[0, 1, 2], [3], [0, 2, 4], [3, 4]]
  const UnitWeights: seq<nat> := [1, 1, 1, 1]

  lemma {:induction false} UnitWeightIsCount(sel: seq<nat>)
    requires IndicesBelow(4, sel)
    ensures TotalWeight(UnitWeights, sel) == |sel|
  {
    if |sel| > 0 {
      UnitWeightIsCount(sel[..|sel| - 1]);
    }
  }

  /** No single set covers all five indices. */
  lemma NoSingleSetCovers(sel: seq<nat>)
    requires IndicesBelow(4, sel) && |sel| <= 1
    ensures !Covers(5, FiveSets, sel)
  {
    if |sel| == 0 {
      assert 0 !in Union(FiveSets, sel);
    } else {
      assert sel[..0] == [];
      assert Union(FiveSets, sel) == Elems(FiveSets[sel[0]]);
      if sel[0] == 0 {
        assert 3 !in Union(FiveSets, sel);
      } else if sel[0] == 1 {
        assert 0 !in Union(FiveSets, sel);
      } else if sel[0] == 2 {
        assert 1 !in Union(FiveSets, sel);
      } else {
        assert 0 !in Union(FiveSets, sel);
      }
    }
  }

  /** The exact solver finds weight 2 on this instance, e.g. sets 0 and 3. */
  lemma ExactOnFiveSets(r: Cover)
    requires ValidInput(5, FiveSets, UnitWeights) && ExactResult(5, FiveSets, UnitWeights, r)
    ensures r.minSetWeight == Finite(2)
    ensures |r.selectedSets| == 2
    ensures Coverable(5, FiveSets)
  {
    var two: seq<nat> := [0, 3];
    assert two[..1] == [0] && [0][..0] == [];
    assert Union(FiveSets, two) == {0, 1, 2, 3, 4};
    assert Covers(5, FiveSets, two);
    CoverMakesCoverable(5, FiveSets, two);
    assert TotalWeight(UnitWeights, two) == 2;
    UnitWeightIsCount(r.selectedSets);
    if |r.selectedSets| <= 1 {
      NoSingleSetCovers(r.selectedSets);
    }
  }

  /** Three indices and two unit-weight singleton sets. */
  const TwoSingletons: seq<seq<nat>> := [[0], [1]]
  const TwoUnits: seq<nat> := [1, 1]

  /** Coverage before, between and after the two picks. */
  lemma TwoSingletonsCoverage()
    ensures CoveredBy(3, TwoSingletons, []) == [false, false, false]
    ensures CoveredBy(3, TwoSingletons, [0]) == [true, false, false]
    ensures CoveredBy(3, TwoSingletons, [0, 1]) == [true, true, false]
  {
    assert [0, 1][..1] == [0] && [0][..0] == [];
    assert Union(TwoSingletons, []) == {};
    assert Union(TwoSingletons, [0]) == {0};
    assert Union(TwoSingletons, [0, 1]) == {0, 1};
  }

  /** Picking set 0 and then set 1 is the greedy run on this instance. */
  lemma TwoSingletonsRun()
    ensures IsGreedyRun(3, TwoSingletons, TwoUnits, [0, 1])
  {
    var run: seq<nat> := [0, 1];
    assert run[..0] == [] && run[..1] == [0];
    TwoSingletonsCoverage();
    var c0, c1, c2 := [false, false, false], [true, false, false], [true, true, false];
    assert UncoveredCount([0], c0) == 1 && UncoveredCount([1], c0) == 1;
    assert UncoveredCount([0], c1) == 0 && UncoveredCount([1], c1) == 1;
    assert UncoveredCount([0], c2) == 0 && UncoveredCount([1], c2) == 0;
    assert IsGreedyChoice(TwoSingletons, TwoUnits, c0, 0);
    assert IsGreedyChoice(TwoSingletons, TwoUnits, c1, 1);
    assert Stalled(3, TwoSingletons, c2);
  }

  /** The greedy solver takes both sets, pays 2 and leaves index 2
      uncovered; the universe is not coverable. */
  lemma GreedyOnTwoSingletons(r: Cover)
    requires ValidInput(3, TwoSingletons, TwoUnits) && GreedyResult(3, TwoSingletons, TwoUnits, r)
    ensures r == Cover(Finite(2), [0, 1])
    ensures 2 !in Union(TwoSingletons, r.selectedSets)
    ensures !Coverable(3, TwoSingletons)
  {
    TwoSingletonsRun();
    GreedyRunUnique(3, TwoSingletons, TwoUnits, r.selectedSets, [0, 1]);
    TwoSingletonsCoverage();
    assert [0, 1][..1] == [0] && [0][..0] == [];
    assert !InSomeSet(TwoSingletons, 2);
  }
}
