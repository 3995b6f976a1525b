/**
 Putting received repair symbols in place of missing source symbols: the same repair symbol in the
 symbol matrix and in the constraint matrix (raptorq/nanorq.c, lines 568-606).
 */
module Reception {
  import opened GF256
  import opened Linear
  import opened SpMat
  import opened Oblas
  import opened Scheduling
  import opened Preconditioning
  import opened Hdpc
  import opened Bitmasks
  import opened Tuples
  import opened Generation
  import opened Encoding

  // ---------- merging ----------

  lemma {:induction false} MissingOrder(s: set<nat>, i: nat, k: nat)
    requires i <= k
    ensures Missing(s, i) <= Missing(s, k)
    ensures i < k && i !in s ==> Missing(s, i) < Missing(s, k)
    ensures Missing(s, i) == Missing(s, k) ==> forall j: nat :: i <= j < k ==> j in s
    decreases k
  {
    if i < k {
      MissingOrder(s, i, k - 1);
    }
  }

  /**
   The entries of `own`, except that those below k whose number is not in s are replaced by the
   entries of `extra` in order, and the entries of `extra` left over follow at the end.
   */
  ghost function Merge<T>(s: set<nat>, own: seq<T>, extra: seq<T>, k: nat): (r: seq<T>)
    requires k <= |own| && Missing(s, k) <= |extra|
    ensures |r| == |own| + |extra| - Missing(s, k)
  {
    seq(|own| + |extra| - Missing(s, k),
        i requires 0 <= i < |own| + |extra| - Missing(s, k) => Merged(s, own, extra, k, i))
  }

  ghost function Merged<T>(s: set<nat>, own: seq<T>, extra: seq<T>, k: nat, i: nat): T
    requires k <= |own| && Missing(s, k) <= |extra| && i < |own| + |extra| - Missing(s, k)
  {
    if i < k && i !in s then
      MissingOrder(s, i, k);
      extra[Missing(s, i)]
    else if i < |own| then own[i]
    else extra[Missing(s, k) + i - |own|]
  }

  /** Two merges pair what their parts pair: a received symbol stays with its number. */
  lemma MergePairs<A, B>(s: set<nat>, own: seq<A>, own': seq<B>, extra: seq<A>, extra': seq<B>, k: nat,
                         pairs: (A, B) -> bool)
    requires |own| == |own'| && |extra| == |extra'| && k <= |own| && Missing(s, k) <= |extra|
    requires forall i :: 0 <= i < |own| && (i in s || i >= k) ==> pairs(own[i], own'[i])
    requires forall j :: 0 <= j < |extra| ==> pairs(extra[j], extra'[j])
    ensures forall i ::
      0 <= i < |own| + |extra| - Missing(s, k) ==> pairs(Merge(s, own, extra, k)[i], Merge(s, own', extra', k)[i])
  {
    hide Missing;
    forall i | 0 <= i < |own| + |extra| - Missing(s, k)
      ensures pairs(Merge(s, own, extra, k)[i], Merge(s, own', extra', k)[i])
    {
      if i < k && i !in s {
        MissingOrder(s, i, k);
      }
    }
  }

  // ---------- the symbol matrix ----------

  datatype RepairSymbol = RepairSymbol(esi: nat, row: Vec)

  function RowsIn(bin: seq<RepairSymbol>): (r: seq<Vec>)
    ensures |r| == |bin|
  {
    seq(|bin|, j requires 0 <= j < |bin| => bin[j].row)
  }

  function IdsIn(bin: seq<RepairSymbol>, pad: nat): (r: seq<nat>)
    ensures |r| == |bin|
  {
    seq(|bin|, j requires 0 <= j < |bin| => bin[j].esi + pad)
  }

  /** From row `skip` on, the first g of `own` are merged and the rest is as before. */
  ghost predicate Filling<T>(m0: seq<T>, m: seq<T>, s: set<nat>, own: seq<T>, extra: seq<T>, skip: nat, g: nat) {
    && |m| == |m0| && skip + |own| <= |m| && Missing(s, g) <= |extra| && g <= |own|
    && (forall r :: 0 <= r < skip ==> m[r] == m0[r])
    && (forall i :: 0 <= i < |own| ==>
        m[skip + i] == if i < g && i !in s && Missing(s, i) < |extra| then extra[Missing(s, i)] else own[i])
  }

  lemma FillStart<T>(m: seq<T>, s: set<nat>, own: seq<T>, extra: seq<T>, skip: nat)
    requires skip + |own| <= |m| && own == m[skip..skip + |own|]
    ensures Filling(m, m, s, own, extra, skip, 0)
  {}

  lemma FillSkip<T>(m0: seq<T>, m: seq<T>, s: set<nat>, own: seq<T>, extra: seq<T>, skip: nat, g: nat)
    requires Filling(m0, m, s, own, extra, skip, g) && g in s && g < |own|
    ensures Filling(m0, m, s, own, extra, skip, g + 1) && Missing(s, g + 1) == Missing(s, g)
  {
    hide Missing;
    MissingNext(s, g);
  }

  lemma FillStep<T>(m0: seq<T>, m: seq<T>, s: set<nat>, own: seq<T>, extra: seq<T>, skip: nat, g: nat)
    requires Filling(m0, m, s, own, extra, skip, g) && g !in s && g < |own| && Missing(s, g) < |extra|
    ensures Filling(m0, m[skip + g := extra[Missing(s, g)]], s, own, extra, skip, g + 1)
    ensures Missing(s, g + 1) == Missing(s, g) + 1
  {
    hide Missing;
    assert Missing(s, g + 1) == Missing(s, g) + 1 by { MissingNext(s, g); }
    var m' := m[skip + g := extra[Missing(s, g)]];
    forall i | 0 <= i < |own|
      ensures m'[skip + i] == if i < g + 1 && i !in s && Missing(s, i) < |extra| then extra[Missing(s, i)] else own[i]
    {
      if i != g {
        assert m'[skip + i] == m[skip + i];
      }
    }
  }

  lemma MissingNext(s: set<nat>, g: nat)
    ensures Missing(s, g + 1) == Missing(s, g) + (if g in s then 0 else 1)
  {}

  /** All gaps below k are filled and n leftovers have been placed after the own rows. */
  ghost predicate Filled<T>(m0: seq<T>, m: seq<T>, s: set<nat>, own: seq<T>, extra: seq<T>, k: nat, skip: nat, n: nat) {
    && k <= |own| && Missing(s, k) <= n <= |extra| && |m| == |m0|
    && skip + |own| + n - Missing(s, k) <= |m|
    && (forall r :: 0 <= r < skip ==> m[r] == m0[r])
    && (forall i :: 0 <= i < |own| + n - Missing(s, k) ==> m[skip + i] == Merged(s, own, extra, k, i))
  }

  lemma FillGapsDone<T>(m0: seq<T>, m: seq<T>, s: set<nat>, own: seq<T>, extra: seq<T>, skip: nat, g: nat, k: nat)
    requires Filling(m0, m, s, own, extra, skip, g) && g <= k <= |own| && Missing(s, k) <= |extra|
    requires Missing(s, g) == Missing(s, k)
    ensures Filled(m0, m, s, own, extra, k, skip, Missing(s, k))
  {
    hide Missing;
    MissingOrder(s, g, k);
    forall i | 0 <= i < |own| ensures m[skip + i] == Merged(s, own, extra, k, i) {
      if i < k && i !in s {
        MissingOrder(s, i, k);
        assert i < g;
      }
    }
  }

  lemma FillLeftover<T>(m0: seq<T>, m: seq<T>, s: set<nat>, own: seq<T>, extra: seq<T>, k: nat, skip: nat, n: nat)
    requires Filled(m0, m, s, own, extra, k, skip, n) && n < |extra|
    requires skip + |own| + n - Missing(s, k) < |m|
    ensures Filled(m0, m[skip + |own| + n - Missing(s, k) := extra[n]], s, own, extra, k, skip, n + 1)
  {
    hide Missing;
    var m' := m[skip + |own| + n - Missing(s, k) := extra[n]];
    forall i | 0 <= i < |own| + n + 1 - Missing(s, k) ensures m'[skip + i] == Merged(s, own, extra, k, i) {
      if i < |own| + n - Missing(s, k) {
        assert m'[skip + i] == m[skip + i];
      }
    }
  }

  lemma FilledRows<T>(m0: seq<T>, m: seq<T>, s: set<nat>, own: seq<T>, extra: seq<T>, k: nat, skip: nat)
    requires Filled(m0, m, s, own, extra, k, skip, |extra|)
    ensures m[..skip] == m0[..skip] && m[skip..skip + |own| + |extra| - Missing(s, k)] == Merge(s, own, extra, k)
  {
    hide Missing;
  }

  /** memcpy of a symbol into row r. */
  method PutRow(d: array2<Octet>, r: nat, v: Vec)
    requires r < d.Length0 && |v| == d.Length1
    modifies d
    ensures RowsOf(d) == old(RowsOf(d))[r := v]
  {
    ghost var m := RowsOf(d);
    for k := 0 to d.Length1
      invariant forall x, y ::
        0 <= x < d.Length0 && 0 <= y < d.Length1 ==> d[x, y] == if x == r && y < k then v[y] else m[x][y]
    {
      d[r, k] := v[k];
    }
    SameRows(d, m[r := v]);
  }

  /** fill_symbol_matrix_gaps. */
  method FillSymbolMatrixGaps(pr: Params, d: array2<Octet>, k: nat, mask: Bitmask, bin: seq<RepairSymbol>)
    requires pr.s + pr.h + pr.kprime == pr.l && k <= pr.kprime && Missing(mask.Contents(), k) <= |bin|
    requires pr.l + |bin| - Missing(mask.Contents(), k) <= d.Length0
    requires forall j :: 0 <= j < |bin| ==> |bin[j].row| == d.Length1
    modifies d
    ensures RowsOf(d)[..pr.s + pr.h] == old(RowsOf(d))[..pr.s + pr.h]
    ensures RowsOf(d)[pr.s + pr.h..pr.l + |bin| - Missing(mask.Contents(), k)]
         == Merge(mask.Contents(), old(RowsOf(d))[pr.s + pr.h..pr.l], RowsIn(bin), k)
  {
    hide RowsOf, Filling, Filled, Missing, Bitmask.Contents;
    ghost var m, s := RowsOf(d), mask.Contents();
    ghost var own, extra := m[pr.s + pr.h..pr.l], RowsIn(bin);
    var repIdx, skip, numRepair := 0, pr.s + pr.h, |bin|;
    FillStart(m, s, own, extra, skip);
    assert Missing(s, 0) == 0 by { MissingNone(s); }
    var gap := 0;
    while gap < k && repIdx < numRepair
      invariant gap <= k && repIdx == Missing(s, gap) && mask.Contents() == s
      invariant Filling(m, RowsOf(d), s, own, extra, skip, gap)
    {
      var have := mask.Check(gap);
      if have {
        FillSkip(m, RowsOf(d), s, own, extra, skip, gap);
      } else {
        FillStep(m, RowsOf(d), s, own, extra, skip, gap);
        PutRow(d, skip + gap, bin[repIdx].row);
        repIdx := repIdx + 1;
      }
      gap := gap + 1;
    }
    MissingOrder(s, gap, k);
    FillGapsDone(m, RowsOf(d), s, own, extra, skip, gap, k);
    var row := pr.l;
    while repIdx < numRepair
      invariant repIdx <= numRepair && row == pr.l + repIdx - Missing(s, k)
      invariant Filled(m, RowsOf(d), s, own, extra, k, skip, repIdx)
    {
      FillLeftover(m, RowsOf(d), s, own, extra, k, skip, repIdx);
      PutRow(d, row, bin[repIdx].row);
      repIdx := repIdx + 1;
      row := row + 1;
    }
    FilledRows(m, RowsOf(d), s, own, extra, k, skip);
  }

  lemma MissingNone(s: set<nat>)
    ensures Missing(s, 0) == 0
  {}

  // ---------- the constraint matrix ----------

  ghost function ListsIn(bin: seq<RepairSymbol>, pad: nat, pr: Params, rnd: Rnd): (r: Lists)
    requires ValidParams(pr)
    ensures |r| == |bin| && forall j :: 0 <= j < |bin| ==> r[j] == Neighbours(bin[j].esi + pad, pr, rnd)
  {
    seq(|bin|, j requires 0 <= j < |bin| => Neighbours(bin[j].esi + pad, pr, rnd))
  }

  /** Replaces one row of the constraint matrix by that of an internal symbol. */
  method PatchRow(a: Sparse, row: nat, x: nat, pr: Params, rnd: Rnd)
    requires ValidParams(pr) && row < a.idxs.Length
    modifies a.idxs
    ensures a.idxs[..] == old(a.idxs[..])[row := Neighbours(x, pr, rnd)]
  {
    hide ValidParams, Neighbours;
    a.ClearRow(row);
    SetIdxs(x, pr, rnd, a, row);
    assert [] + Neighbours(x, pr, rnd) == Neighbours(x, pr, rnd);
  }

  /** patch_precode_matrix, the rows of missing source symbols. */
  method PatchGaps(pr: Params, rnd: Rnd, a: Sparse, k: nat, gaps: nat, mask: Bitmask, bin: seq<RepairSymbol>,
                   ghost own: Lists)
    returns (repIdx: nat)
    requires ValidParams(pr) && k <= pr.kprime && gaps == Missing(mask.Contents(), k) <= |bin|
    requires pr.s + pr.h + pr.kprime == pr.l <= a.idxs.Length && own == a.idxs[pr.s + pr.h..pr.l]
    modifies a.idxs
    ensures repIdx == gaps
    ensures Filled(old(a.idxs[..]), a.idxs[..], mask.Contents(), own, ListsIn(bin, pr.kprime - k, pr, rnd), k,
                   pr.s + pr.h, gaps)
  {
    hide Filling, Filled, Missing, Bitmask.Contents, Neighbours, ValidParams;
    ghost var m, s, extra := a.idxs[..], mask.Contents(), ListsIn(bin, pr.kprime - k, pr, rnd);
    var skip, numGaps := pr.s + pr.h, gaps;
    repIdx := 0;
    FillStart(m, s, own, extra, skip);
    assert Missing(s, 0) == 0 by { MissingNone(s); }
    var gap := 0;
    while gap < pr.l && numGaps > 0
      invariant gap <= k && repIdx == Missing(s, gap) && numGaps == gaps - repIdx && mask.Contents() == s
      invariant Filling(m, a.idxs[..], s, own, extra, skip, gap)
    {
      NotYet(s, gap, k);
      var have := mask.Check(gap);
      if have {
        FillSkip(m, a.idxs[..], s, own, extra, skip, gap);
      } else {
        FillStep(m, a.idxs[..], s, own, extra, skip, gap);
        PatchRow(a, skip + gap, bin[repIdx].esi + (pr.kprime - k), pr, rnd);
        repIdx := repIdx + 1;
        numGaps := numGaps - 1;
      }
      gap := gap + 1;
      MissingOrder(s, gap, k);
    }
    MissingOrder(s, gap, k);
    FillGapsDone(m, a.idxs[..], s, own, extra, skip, gap, k);
  }

  lemma NotYet(s: set<nat>, g: nat, k: nat)
    requires g <= k && Missing(s, g) < Missing(s, k)
    ensures g < k
  {}

  /** patch_precode_matrix: rows of missing source symbols first, then the rows past L. */
  method PatchPrecodeMatrix(pr: Params, rnd: Rnd, a: Sparse, k: nat, gaps: nat, mask: Bitmask, bin: seq<RepairSymbol>)
    requires ValidParams(pr) && k <= pr.kprime && gaps == Missing(mask.Contents(), k) <= |bin|
    requires pr.s + pr.h + pr.kprime == pr.l && a.idxs.Length == pr.l + |bin| - gaps
    modifies a.idxs
    ensures a.idxs[..pr.s + pr.h] == old(a.idxs[..pr.s + pr.h])
    ensures a.idxs[pr.s + pr.h..]
         == Merge(mask.Contents(), old(a.idxs[pr.s + pr.h..pr.l]), ListsIn(bin, pr.kprime - k, pr, rnd), k)
  {
    hide Filling, Filled, Missing, Bitmask.Contents, Neighbours, ValidParams, Merge;
    ghost var m, s, skip := a.idxs[..], mask.Contents(), pr.s + pr.h;
    ghost var own, extra := m[skip..pr.l], ListsIn(bin, pr.kprime - k, pr, rnd);
    assert own == a.idxs[skip..pr.l];
    var repIdx := PatchGaps(pr, rnd, a, k, gaps, mask, bin, own);
    for row := pr.l to a.idxs.Length
      invariant repIdx == gaps + row - pr.l && Filled(m, a.idxs[..], s, own, extra, k, skip, repIdx)
    {
      FillLeftover(m, a.idxs[..], s, own, extra, k, skip, repIdx);
      PatchRow(a, row, bin[repIdx].esi + (pr.kprime - k), pr, rnd);
      repIdx := repIdx + 1;
    }
    FilledRows(m, a.idxs[..], s, own, extra, k, skip);
    assert a.idxs[skip..] == a.idxs[..][skip..skip + |own| + |extra| - Missing(s, k)];
  }
}
