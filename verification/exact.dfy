/** The exact solver, `findMinSetCoverDP`: a dynamic program over all 2^n
    coverage masks followed by a walk back along the recorded transitions. */
module ExactSolver {
  import opened Bitmask
  import opened Cover

  /** Largest universe for which `1 << universeSize` is the exact power of
      two under JavaScript's 32-bit signed shift. */
  const MaxShift: nat := 30

  /** The three tables of the program, indexed by mask: best weight `dp`,
      predecessor mask `parent` and `setUsed`, the set of the last step
      (-1 for none). */
  datatype Table = Table(dp: seq<Cost>, parent: seq<int>, setUsed: seq<int>)

  /** `dp[newMask] > dp[mask] + setWeights[i]`, with Infinity above every
      finite weight. */
  predicate Improves(candidate: nat, current: Cost)
  {
    current.Infinity? || candidate < current.value
  }

  predicate Shaped(n: nat, t: Table)
  {
    |t.dp| == Pow2(n) && |t.parent| == Pow2(n) && |t.setUsed| == Pow2(n)
  }

  /** The entry for a non-zero mask M is either untouched (infinite weight,
      no set recorded) or a recorded transition: `setUsed[M]` applied to the
      smaller, finite `parent[M]` gives exactly M, and the weight adds up. */
  predicate EntryRecorded(sets: seq<seq<nat>>, ws: seq<nat>, t: Table, M: nat)
    requires |sets| == |ws|
    requires |t.parent| == |t.dp| && |t.setUsed| == |t.dp| && 0 < M < |t.dp|
  {
    if t.dp[M].Infinity? then t.setUsed[M] == -1
    else
      var i, p := t.setUsed[M], t.parent[M];
      && 0 <= i < |sets| && 0 <= p < M && t.dp[p].Finite?
      && AddSet(p, sets[i]) == M
      && t.dp[M].value == t.dp[p].value + ws[i]
  }

  /** The tables after the mask loop: mask 0 costs 0 and every other entry
      is recorded as above. */
  predicate Recorded(n: nat, sets: seq<seq<nat>>, ws: seq<nat>, t: Table)
    requires |sets| == |ws|
  {
    && Shaped(n, t)
    && t.dp[0] == Finite(0)
    && forall M :: 0 < M < Pow2(n) ==> EntryRecorded(sets, ws, t, M)
  }

  /** Extending the finite mask M by set i reaches a mask whose entry is
      finite and no heavier than `dp[M] + setWeights[i]`. */
  predicate Relaxed(sets: seq<seq<nat>>, ws: seq<nat>, dp: seq<Cost>, M: nat, i: nat)
    requires |sets| == |ws| && M < |dp| && i < |sets|
  {
    dp[M].Finite? ==>
      var target := AddSet(M, sets[i]);
      && target < |dp| && dp[target].Finite?
      && dp[target].value <= dp[M].value + ws[i]
  }

  /** The mask loop of `findMinSetCoverDP`.  Masks are visited in
      increasing order, and every update goes to a strictly larger mask, so
      an entry is final by the time it is used as a source. */
  method FillTable(n: nat, sets: seq<seq<nat>>, ws: seq<nat>) returns (t: Table)
    requires ValidInput(n, sets, ws)
    ensures Recorded(n, sets, ws, t)
    ensures forall M, i :: 0 <= M < Pow2(n) && 0 <= i < |sets| ==> Relaxed(sets, ws, t.dp, M, i)
  {
    var size := Pow2(n);
    var dp := seq(size, _ => Infinity)[0 := Finite(0)];
    var parent := seq(size, _ => -1);
    var setUsed := seq(size, _ => -1);
    for mask := 0 to size
      invariant |dp| == size && |parent| == size && |setUsed| == size
      invariant dp[0] == Finite(0)
      invariant forall M :: 0 < M < size ==> EntryRecorded(sets, ws, Table(dp, parent, setUsed), M)
      invariant forall M :: 0 < M < size && dp[M].Finite? ==> parent[M] < mask
      invariant forall M, j :: 0 <= M < mask && 0 <= j < |sets| ==> Relaxed(sets, ws, dp, M, j)
    {
      if dp[mask].Finite? {
        var base := dp[mask].value;
        for i := 0 to |sets|
          invariant |dp| == size && |parent| == size && |setUsed| == size
          invariant dp[0] == Finite(0) && dp[mask] == Finite(base)
          invariant forall M :: 0 < M < size ==> EntryRecorded(sets, ws, Table(dp, parent, setUsed), M)
          invariant forall M :: 0 < M < size && dp[M].Finite? ==> parent[M] <= mask
          invariant forall M, j :: 0 <= M < mask && 0 <= j < |sets| ==> Relaxed(sets, ws, dp, M, j)
          invariant forall j :: 0 <= j < i ==> Relaxed(sets, ws, dp, mask, j)
        {
          var newMask := AddSet(mask, sets[i]);
          AddSetBound(mask, sets[i], n);
          AddSetBits(mask, sets[i], 0);
          var candidate := base + ws[i];
          if Improves(candidate, dp[newMask]) {
            var dp', parent', setUsed' :=
              dp[newMask := Finite(candidate)], parent[newMask := mask], setUsed[newMask := i];
            RecordKeepsEntries(sets, ws, Table(dp, parent, setUsed), mask, newMask, i, Table(dp', parent', setUsed'));
            RecordKeepsRelaxed(sets, ws, dp, mask, i, newMask, candidate, dp');
            dp, parent, setUsed := dp', parent', setUsed';
          }
          assert Relaxed(sets, ws, dp, mask, i);
        }
      }
    }
    t := Table(dp, parent, setUsed);
  }

  /** Recording the transition `mask --set i--> newMask` keeps every entry
      recorded, because no recorded parent is above mask yet. */
  lemma RecordKeepsEntries(sets: seq<seq<nat>>, ws: seq<nat>, t: Table, mask: nat, newMask: nat, i: nat, t': Table)
    requires |sets| == |ws| && |t.parent| == |t.dp| && |t.setUsed| == |t.dp|
    requires mask < newMask < |t.dp| && i < |sets| && t.dp[mask].Finite?
    requires AddSet(mask, sets[i]) == newMask
    requires forall M :: 0 < M < |t.dp| ==> EntryRecorded(sets, ws, t, M)
    requires forall M :: 0 < M < |t.dp| && t.dp[M].Finite? ==> t.parent[M] <= mask
    requires t' == Table(t.dp[newMask := Finite(t.dp[mask].value + ws[i])],
                         t.parent[newMask := mask], t.setUsed[newMask := i])
    ensures forall M :: 0 < M < |t'.dp| ==> EntryRecorded(sets, ws, t', M)
  {
    forall M | 0 < M < |t.dp|
      ensures EntryRecorded(sets, ws, t', M)
    {
      assert EntryRecorded(sets, ws, t, M);
    }
  }

  /** Lowering the entry of a mask above the current one keeps every
      relaxation done so far. */
  lemma RecordKeepsRelaxed(sets: seq<seq<nat>>, ws: seq<nat>, dp: seq<Cost>, mask: nat, i: nat, newMask: nat, candidate: nat, dp': seq<Cost>)
    requires |sets| == |ws| && mask < newMask < |dp| && i <= |sets|
    requires Improves(candidate, dp[newMask])
    requires forall M, j :: 0 <= M < mask && 0 <= j < |sets| ==> Relaxed(sets, ws, dp, M, j)
    requires forall j :: 0 <= j < i ==> Relaxed(sets, ws, dp, mask, j)
    requires dp' == dp[newMask := Finite(candidate)]
    ensures forall M, j :: 0 <= M < mask && 0 <= j < |sets| ==> Relaxed(sets, ws, dp', M, j)
    ensures forall j :: 0 <= j < i ==> Relaxed(sets, ws, dp', mask, j)
  {
    forall M, j | 0 <= M < mask && 0 <= j < |sets|
      ensures Relaxed(sets, ws, dp', M, j)
    {
      assert Relaxed(sets, ws, dp, M, j);
    }
    forall j | 0 <= j < i
      ensures Relaxed(sets, ws, dp', mask, j)
    {
      assert Relaxed(sets, ws, dp, mask, j);
    }
  }

  /** The walk back from the full mask (the `while (mask !== 0)` loop). */
  method Reconstruct(n: nat, sets: seq<seq<nat>>, ws: seq<nat>, t: Table) returns (r: Cover)
    requires ValidInput(n, sets, ws) && Recorded(n, sets, ws, t)
    ensures r.minSetWeight == t.dp[FullMask(n)]
    ensures IndicesBelow(|sets|, r.selectedSets)
    ensures r.minSetWeight.Finite? ==>
      && Covers(n, sets, r.selectedSets)
      && TotalWeight(ws, r.selectedSets) == r.minSetWeight.value
    ensures r.minSetWeight.Infinity? ==> r.selectedSets == []
    ensures n == 0 ==> r.selectedSets == []
  {
    var full := FullMask(n);
    var minSetWeight := t.dp[full];
    var selected: seq<nat> := [];
    var mask: nat := full;
    assert n == 0 ==> full == 0;
    forall k: nat
      ensures HasBit(full, k) <==> k < n
    {
      FullMaskBits(n, k);
    }
    while mask != 0
      invariant mask < Pow2(n)
      invariant IndicesBelow(|sets|, selected)
      invariant n == 0 ==> selected == []
      invariant minSetWeight.Infinity? ==> mask == full && selected == []
      invariant minSetWeight.Finite? ==>
        && t.dp[mask].Finite?
        && minSetWeight.value == t.dp[mask].value + TotalWeight(ws, selected)
      invariant minSetWeight.Finite? ==>
        forall k: nat :: k < n ==> HasBit(mask, k) || k in Union(sets, selected)
      decreases mask
    {
      assert EntryRecorded(sets, ws, t, mask);
      var setIndex := t.setUsed[mask];
      if setIndex == -1 {
        break;
      }
      var p := t.parent[mask];
      forall k: nat
        ensures HasBit(mask, k) <==> HasBit(p, k) || k in sets[setIndex]
      {
        AddSetBits(p, sets[setIndex], k);
      }
      assert (selected + [setIndex])[..|selected|] == selected;
      selected := selected + [setIndex];
      mask := p;
    }
    if minSetWeight.Finite? {
      forall k: nat
        ensures !HasBit(mask, k)
      {
        ZeroHasNoBit(k);
      }
    }
    r := Cover(minSetWeight, selected);
  }

  /** After the mask loop, no selection reaching mask M exactly weighs less
      than `dp[M]`; in particular every such M has a finite entry. */
  lemma {:induction false} RelaxedTableIsOptimal(n: nat, sets: seq<seq<nat>>, ws: seq<nat>, dp: seq<Cost>, sel: seq<nat>)
    requires ValidInput(n, sets, ws) && |dp| == Pow2(n) && dp[0] == Finite(0)
    requires forall M, i :: 0 <= M < |dp| && 0 <= i < |sets| ==> Relaxed(sets, ws, dp, M, i)
    requires IndicesBelow(|sets|, sel)
    ensures SelMask(sets, sel) < |dp|
    ensures dp[SelMask(sets, sel)].Finite?
    ensures dp[SelMask(sets, sel)].value <= TotalWeight(ws, sel)
  {
    if |sel| > 0 {
      var init := sel[..|sel| - 1];
      var i := sel[|sel| - 1];
      RelaxedTableIsOptimal(n, sets, ws, dp, init);
      assert Relaxed(sets, ws, dp, SelMask(sets, init), i);
    }
  }

  /** Every finite entry is the weight of a selection whose mask is exactly
      M: the chain of recorded transitions back to mask 0. */
  lemma {:induction false} EntryHasWitness(n: nat, sets: seq<seq<nat>>, ws: seq<nat>, t: Table, M: nat)
    returns (sel: seq<nat>)
    requires ValidInput(n, sets, ws) && Recorded(n, sets, ws, t)
    requires M < Pow2(n) && t.dp[M].Finite?
    ensures IndicesBelow(|sets|, sel)
    ensures SelMask(sets, sel) == M
    ensures TotalWeight(ws, sel) == t.dp[M].value
    decreases M
  {
    if M == 0 {
      sel := [];
    } else {
      assert EntryRecorded(sets, ws, t, M);
      var init := EntryHasWitness(n, sets, ws, t, t.parent[M]);
      sel := init + [t.setUsed[M]];
      assert sel[..|sel| - 1] == init;
    }
  }

  /** After the mask loop, `dp[M]` is finite exactly when some selection
      reaches mask M exactly, and then it is the least weight of those. */
  lemma EntryIsExactMinimum(n: nat, sets: seq<seq<nat>>, ws: seq<nat>, t: Table, M: nat)
    requires ValidInput(n, sets, ws) && Recorded(n, sets, ws, t)
    requires forall M', i :: 0 <= M' < Pow2(n) && 0 <= i < |sets| ==> Relaxed(sets, ws, t.dp, M', i)
    requires M < Pow2(n)
    ensures t.dp[M].Finite? <==> exists sel :: IndicesBelow(|sets|, sel) && SelMask(sets, sel) == M
    ensures t.dp[M].Finite? ==>
      && (exists sel :: IndicesBelow(|sets|, sel) && SelMask(sets, sel) == M
                        && TotalWeight(ws, sel) == t.dp[M].value)
      && (forall sel :: IndicesBelow(|sets|, sel) && SelMask(sets, sel) == M
                        ==> t.dp[M].value <= TotalWeight(ws, sel))
  {
    if t.dp[M].Finite? {
      var w := EntryHasWitness(n, sets, ws, t, M);
    }
    forall sel | IndicesBelow(|sets|, sel) && SelMask(sets, sel) == M
      ensures t.dp[M].Finite? && t.dp[M].value <= TotalWeight(ws, sel)
    {
      RelaxedTableIsOptimal(n, sets, ws, t.dp, sel);
    }
  }

  /** Every recorded transition strictly grows the mask: the parent's bits
      are a proper subset of M's, so the walk back terminates. */
  lemma TransitionGrowsMask(n: nat, sets: seq<seq<nat>>, ws: seq<nat>, t: Table, M: nat)
    requires ValidInput(n, sets, ws) && Recorded(n, sets, ws, t)
    requires 0 < M < Pow2(n) && t.dp[M].Finite?
    ensures 0 <= t.parent[M] < M && 0 <= t.setUsed[M] < |sets|
    ensures forall k: nat :: HasBit(t.parent[M], k) ==> HasBit(M, k)
    ensures exists k: nat :: k < n && HasBit(M, k) && !HasBit(t.parent[M], k)
  {
    assert EntryRecorded(sets, ws, t, M);
    var p, i := t.parent[M], t.setUsed[M];
    forall k: nat
      ensures HasBit(M, k) <==> HasBit(p, k) || k in sets[i]
    {
      AddSetBits(p, sets[i], k);
    }
    if forall k: nat :: k < n ==> (HasBit(p, k) <==> HasBit(M, k)) {
      BitsDetermineMask(p, M, n);
      assert false;
    }
  }

  /** What the exact solver promises: a finite weight exactly when the
      universe is coverable, and then a cover of that weight that no cover
      undercuts; otherwise Infinity and no sets. */
  ghost predicate ExactResult(n: nat, sets: seq<seq<nat>>, ws: seq<nat>, r: Cover)
    requires ValidInput(n, sets, ws)
  {
    && IndicesBelow(|sets|, r.selectedSets)
    && (r.minSetWeight.Finite? <==> Coverable(n, sets))
    && (r.minSetWeight.Finite? ==>
          && Covers(n, sets, r.selectedSets)
          && TotalWeight(ws, r.selectedSets) == r.minSetWeight.value
          && forall sel :: IndicesBelow(|sets|, sel) && Covers(n, sets, sel) ==>
               r.minSetWeight.value <= TotalWeight(ws, sel))
    && (r.minSetWeight.Infinity? ==> r.selectedSets == [])
  }

  /** `findMinSetCoverDP`. */
  method FindMinSetCoverDP(c: SetCoverer) returns (r: Cover)
    requires ValidInput(c.universeSize, c.sets, c.setWeights)
    requires c.universeSize <= MaxShift
    ensures ExactResult(c.universeSize, c.sets, c.setWeights, r)
    ensures c.universeSize == 0 ==> r == Cover(Finite(0), [])
  {
    var n, sets, ws := c.universeSize, c.sets, c.setWeights;
    var t := FillTable(n, sets, ws);
    r := Reconstruct(n, sets, ws, t);
    forall sel | IndicesBelow(|sets|, sel) && Covers(n, sets, sel)
      ensures r.minSetWeight.Finite? && r.minSetWeight.value <= TotalWeight(ws, sel)
    {
      RelaxedTableIsOptimal(n, sets, ws, t.dp, sel);
      CoversIffFullMask(n, sets, ws, sel);
    }
    if r.minSetWeight.Finite? {
      CoverMakesCoverable(n, sets, r.selectedSets);
    }
    if Coverable(n, sets) {
      CoverableByAllSets(n, sets);
    }
  }
}
