/** The data model of the weighted set-cover solver and the meaning of a
    selection of candidate sets.

    The universe is the index range [0, universeSize).  A candidate set is a
    sequence of universe indices, named by its position in `sets`, and
    `setWeights[i]` is the weight of `sets[i]`.  A selection is a sequence of
    set positions; its union is the set of indices it touches and its weight
    the sum of the chosen weights. */
module Cover {
  import opened Bitmask

  /** A weight that may be infinite: the table entries of the exact solver
      start out as `Infinity`. */
  datatype Cost = Finite(value: nat) | Infinity

  /** The solver's answer: `minSetWeight` and the positions of the selected
      sets, in the order the solver emits them. */
  datatype Cover = Cover(minSetWeight: Cost, selectedSets: seq<nat>)

  /** The solver instance: its three inputs and the coverability flag it
      computes once, at construction. */
  datatype SetCoverer = SetCoverer(
    universeSize: nat,
    sets: seq<seq<nat>>,
    setWeights: seq<nat>,
    isUniverseCoverable: bool)

  /** Every entry of s is an index below n. */
  predicate IndicesBelow(n: nat, s: seq<nat>)
  {
    forall k :: 0 <= k < |s| ==> s[k] < n
  }

  /** What the solver silently relies on: one weight per set, and every
      element of every set inside the universe. */
  predicate ValidInput(n: nat, sets: seq<seq<nat>>, setWeights: seq<nat>)
  {
    && |sets| == |setWeights|
    && forall i :: 0 <= i < |sets| ==> IndicesBelow(n, sets[i])
  }

  /** A solver instance whose inputs are valid and whose flag is correct. */
  predicate Valid(c: SetCoverer)
  {
    && ValidInput(c.universeSize, c.sets, c.setWeights)
    && (c.isUniverseCoverable <==> Coverable(c.universeSize, c.sets))
  }

  /** Index j occurs in some candidate set. */
  predicate InSomeSet(sets: seq<seq<nat>>, j: nat)
  {
    exists i :: 0 <= i < |sets| && j in sets[i]
  }

  /** Every index of the universe occurs in some candidate set. */
  predicate Coverable(n: nat, sets: seq<seq<nat>>)
  {
    forall j: nat :: j < n ==> InSomeSet(sets, j)
  }

  function Elems(s: seq<nat>): (r: set<nat>)
  {
    set x | x in s
  }

  /** Union of the sets a selection names. */
  function Union(sets: seq<seq<nat>>, sel: seq<nat>): (r: set<nat>)
    requires IndicesBelow(|sets|, sel)
  {
    if |sel| == 0 then {}
    else Union(sets, sel[..|sel| - 1]) + Elems(sets[sel[|sel| - 1]])
  }

  /** Sum of the weights of a selection (a set chosen twice counts twice). */
  function TotalWeight(setWeights: seq<nat>, sel: seq<nat>): (r: nat)
    requires IndicesBelow(|setWeights|, sel)
  {
    if |sel| == 0 then 0
    else TotalWeight(setWeights, sel[..|sel| - 1]) + setWeights[sel[|sel| - 1]]
  }

  /** The selection covers the whole universe. */
  predicate Covers(n: nat, sets: seq<seq<nat>>, sel: seq<nat>)
    requires IndicesBelow(|sets|, sel)
  {
    forall j: nat :: j < n ==> j in Union(sets, sel)
  }

  /** The mask after `for (const element of s) newMask |= (1 << element)`. */
  function AddSet(mask: nat, s: seq<nat>): (r: nat)
  {
    if |s| == 0 then mask else SetBit(AddSet(mask, s[..|s| - 1]), s[|s| - 1])
  }

  /** The mask reached from 0 by applying the selection's sets in order. */
  function SelMask(sets: seq<seq<nat>>, sel: seq<nat>): (r: nat)
    requires IndicesBelow(|sets|, sel)
  {
    if |sel| == 0 then 0
    else AddSet(SelMask(sets, sel[..|sel| - 1]), sets[sel[|sel| - 1]])
  }

  /** `AddSet` sets exactly the bits of the set's elements, never decreases
      the mask, and stays below 2^n when the elements do. */
  lemma {:induction false} AddSetBits(mask: nat, s: seq<nat>, k: nat)
    ensures AddSet(mask, s) >= mask
    ensures HasBit(AddSet(mask, s), k) <==> HasBit(mask, k) || k in s
  {
    if |s| > 0 {
      var init := s[..|s| - 1];
      AddSetBits(mask, init, k);
      SetBitBits(AddSet(mask, init), s[|s| - 1], k);
      assert s == init + [s[|s| - 1]];
    }
  }

  lemma {:induction false} AddSetBound(mask: nat, s: seq<nat>, n: nat)
    requires mask < Pow2(n) && IndicesBelow(n, s)
    ensures AddSet(mask, s) < Pow2(n)
  {
    if |s| > 0 {
      AddSetBound(mask, s[..|s| - 1], n);
      SetBitBound(AddSet(mask, s[..|s| - 1]), s[|s| - 1], n);
    }
  }

  /** The bits of a selection's mask are exactly its union. */
  lemma {:induction false} SelMaskBits(sets: seq<seq<nat>>, sel: seq<nat>, k: nat)
    requires IndicesBelow(|sets|, sel)
    ensures HasBit(SelMask(sets, sel), k) <==> k in Union(sets, sel)
  {
    if |sel| == 0 {
      ZeroHasNoBit(k);
    } else {
      var init := sel[..|sel| - 1];
      SelMaskBits(sets, init, k);
      AddSetBits(SelMask(sets, init), sets[sel[|sel| - 1]], k);
    }
  }

  lemma {:induction false} SelMaskBound(n: nat, sets: seq<seq<nat>>, ws: seq<nat>, sel: seq<nat>)
    requires ValidInput(n, sets, ws) && IndicesBelow(|sets|, sel)
    ensures SelMask(sets, sel) < Pow2(n)
  {
    if |sel| > 0 {
      SelMaskBound(n, sets, ws, sel[..|sel| - 1]);
      AddSetBound(SelMask(sets, sel[..|sel| - 1]), sets[sel[|sel| - 1]], n);
    }
  }

  /** A selection covers the universe exactly when its mask is the full
      mask, so the exact solver's answer at `(1 << n) - 1` is the answer
      for covers. */
  lemma CoversIffFullMask(n: nat, sets: seq<seq<nat>>, ws: seq<nat>, sel: seq<nat>)
    requires ValidInput(n, sets, ws) && IndicesBelow(|sets|, sel)
    ensures Covers(n, sets, sel) <==> SelMask(sets, sel) == FullMask(n)
  {
    SelMaskBound(n, sets, ws, sel);
    forall k: nat
      ensures HasBit(SelMask(sets, sel), k) <==> k in Union(sets, sel)
      ensures HasBit(FullMask(n), k) <==> k < n
    {
      SelMaskBits(sets, sel, k);
      FullMaskBits(n, k);
    }
    if Covers(n, sets, sel) {
      BitsDetermineMask(SelMask(sets, sel), FullMask(n), n);
    }
  }

  /** Everything a selection covers occurs in some candidate set. */
  lemma {:induction false} UnionInSomeSet(sets: seq<seq<nat>>, sel: seq<nat>, j: nat)
    requires IndicesBelow(|sets|, sel) && j in Union(sets, sel)
    ensures InSomeSet(sets, j)
  {
    var init := sel[..|sel| - 1];
    if j in Union(sets, init) {
      UnionInSomeSet(sets, init, j);
    } else {
      assert j in sets[sel[|sel| - 1]];
    }
  }

  /** The selection 0, 1, ..., m-1 of every set. */
  function AllSets(m: nat): (sel: seq<nat>)
    ensures |sel| == m && IndicesBelow(m, sel)
  {
    seq(m, i => i)
  }

  lemma {:induction false} AllSetsUnion(sets: seq<seq<nat>>, m: nat, j: nat)
    requires m <= |sets|
    ensures j in Union(sets, AllSets(m)) <==> exists i :: 0 <= i < m && j in sets[i]
  {
    if m > 0 {
      assert AllSets(m)[..m - 1] == AllSets(m - 1);
      AllSetsUnion(sets, m - 1, j);
    }
  }

  /** When the universe is coverable, choosing every set covers it. */
  lemma CoverableByAllSets(n: nat, sets: seq<seq<nat>>)
    requires Coverable(n, sets)
    ensures Covers(n, sets, AllSets(|sets|))
  {
    forall j: nat | j < n
      ensures j in Union(sets, AllSets(|sets|))
    {
      assert InSomeSet(sets, j);
      var i :| 0 <= i < |sets| && j in sets[i];
      AllSetsUnion(sets, |sets|, j);
    }
  }

  /** A cover of the universe makes the universe coverable. */
  lemma CoverMakesCoverable(n: nat, sets: seq<seq<nat>>, sel: seq<nat>)
    requires IndicesBelow(|sets|, sel) && Covers(n, sets, sel)
    ensures Coverable(n, sets)
  {
    forall j: nat | j < n
      ensures InSomeSet(sets, j)
    {
      UnionInSomeSet(sets, sel, j);
    }
  }
}
