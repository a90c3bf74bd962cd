/** Construction of the solver and its coverability check
    (`checkIfUniverseCoverable`, run once by the constructor). */
module Coverability {
  import opened Cover

  /** `for (const element of s) covered[element] = true`. */
  function MarkCovered(covered: seq<bool>, s: seq<nat>): (r: seq<bool>)
    requires IndicesBelow(|covered|, s)
    ensures |r| == |covered|
    ensures forall j :: 0 <= j < |r| ==> (r[j] <==> covered[j] || j in s)
    decreases |s|
  {
    if |s| == 0 then covered
    else MarkCovered(covered[s[0] := true], s[1..])
  }

  /** Marks the elements of every set in a boolean array of length n and
      asks whether every entry ended up true. */
  method CheckIfUniverseCoverable(n: nat, sets: seq<seq<nat>>) returns (b: bool)
    requires forall i :: 0 <= i < |sets| ==> IndicesBelow(n, sets[i])
    ensures b <==> Coverable(n, sets)
  {
    var covered := seq(n, _ => false);
    for i := 0 to |sets|
      invariant |covered| == n
      invariant forall j :: 0 <= j < n ==>
        (covered[j] <==> exists i' :: 0 <= i' < i && j in sets[i'])
    {
      covered := MarkCovered(covered, sets[i]);
    }
    b := false !in covered;
    if b {
      forall j: nat | j < n
        ensures InSomeSet(sets, j)
      {
        assert covered[j];
      }
    } else {
      var j :| 0 <= j < n && !covered[j];
      assert !InSomeSet(sets, j);
    }
  }

  /** The constructor: stores the inputs and computes the coverability flag. */
  method NewSetCoverer(universeSize: nat, sets: seq<seq<nat>>, setWeights: seq<nat>)
    returns (c: SetCoverer)
    requires ValidInput(universeSize, sets, setWeights)
    ensures Valid(c)
    ensures c.universeSize == universeSize && c.sets == sets && c.setWeights == setWeights
  {
    var coverable := CheckIfUniverseCoverable(universeSize, sets);
    c := SetCoverer(universeSize, sets, setWeights, coverable);
  }

  /** `getUniverseCoverable`. */
  function GetUniverseCoverable(c: SetCoverer): (b: bool)
    requires Valid(c)
    ensures b <==> Coverable(c.universeSize, c.sets)
  {
    c.isUniverseCoverable
  }

  /** An empty universe is vacuously coverable; a non-empty one with no
      sets is not. */
  lemma CoverableEdgeCases(sets: seq<seq<nat>>, n: nat)
    ensures Coverable(0, sets)
    ensures n > 0 ==> !Coverable(n, [])
  {
    if n > 0 {
      assert !InSomeSet([], 0);
    }
  }
}
