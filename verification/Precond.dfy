/**
 First phase of the solver: choosing rows of low remaining degree, permuting rows and columns to
 expose a unit lower triangular block, and inactivating columns (raptorq/precode.c, lines 99-203).
 The degrees counted in `nz` are maintained incrementally.
 */
module Preconditioning {
  import opened SpMat
  import opened Oblas
  import opened Permutation
  import opened Scheduling
  import Primes

  /** The positions of the listed columns under the column permutation. */
  function Places(xs: seq<nat>, ci: seq<nat>): (r: seq<nat>)
    requires Below(xs, |ci|)
    ensures |r| == |xs|
  {
    seq(|xs|, k requires 0 <= k < |xs| => ci[xs[k]])
  }

  /** A row with no entry outside the last P columns; its degree is a sentinel. */
  ghost predicate Dormant(pr: Params, xs: seq<nat>)
    requires pr.p <= pr.l
  {
    Count(xs, 0, pr.l - pr.p) == 0
  }

  /** nz holds each row's number of entries at positions [lo, hi), or the sentinel. */
  ghost predicate Degrees(a: Lists, pr: Params, ci: seq<nat>, nz: seq<nat>, lo: nat, hi: nat)
    requires pr.p <= pr.l && |nz| == |a| && WellFormed(a, |ci|)
  {
    forall r :: 0 <= r < |a| ==>
      nz[r] == if Dormant(pr, a[r]) then pr.l else Count(Places(a[r], ci), lo, hi)
  }

  /** Positions below i form a unit lower triangular block, zero up to position hi. */
  ghost predicate Triangle(a: Lists, pm: Perms, i: nat, hi: nat) {
    && i <= hi <= |pm.c| && i <= |pm.d| == |a|
    && (forall k :: 0 <= k < |a| ==> pm.d[k] < |a|)
    && (forall k :: 0 <= k < i ==> pm.c[k] in a[pm.d[k]])
    && (forall k, j :: 0 <= k < i && k < j < hi ==> pm.c[j] !in a[pm.d[k]])
  }

  /** The last P columns and the last H rows keep their initial positions. */
  ghost predicate Frozen(pr: Params, pm: Perms) {
    && |pm.c| == pr.l && pr.p <= pr.l && pr.h <= |pm.d|
    && (forall j :: pr.l - pr.p <= j < pr.l ==> pm.c[j] == j)
    && (forall k :: |pm.d| - pr.h <= k < |pm.d| ==> pm.d[k] == pr.s + (k - (|pm.d| - pr.h)))
  }

  ghost predicate PreInv(a: Lists, pr: Params, pm: Perms, nz: seq<nat>, i: nat, u: nat) {
    && Sized(pr, |a|) && WellFormed(a, pr.l) && pm.Valid(|a|, pr.l) && Frozen(pr, pm)
    && |nz| == |a| && i <= |a| - pr.h && i + u <= pr.l && u >= pr.p
    && Triangle(a, pm, i, pr.l - u)
    && Degrees(a, pr, pm.ci, nz, i, pr.l - u)
  }

  lemma SwapRowsKeeps(a: Lists, pr: Params, pm: Perms, nz: seq<nat>, i: nat, u: nat, p: nat)
    requires PreInv(a, pr, pm, nz, i, u) && i <= p < |a| - pr.h
    ensures PreInv(a, pr, pm.SwapRows(i, p), nz, i, u)
  {
    SwapInverse(pm.d, pm.di, i, p);
  }

  lemma SwapColsDegrees(a: Lists, pr: Params, pm: Perms, nz: seq<nat>, lo: nat, hi: nat, x: nat, y: nat)
    requires pr.p <= pr.l && |nz| == |a| && WellFormed(a, |pm.c|) && Inverse(pm.c, pm.ci)
    requires lo <= x < hi <= |pm.c| && lo <= y < hi
    requires Degrees(a, pr, pm.ci, nz, lo, hi)
    ensures Degrees(a, pr, pm.SwapCols(x, y).ci, nz, lo, hi)
  {
    var ci' := pm.SwapCols(x, y).ci;
    forall r | 0 <= r < |a|
      ensures nz[r] == if Dormant(pr, a[r]) then pr.l else Count(Places(a[r], ci'), lo, hi)
    {
      CountAgree(Places(a[r], pm.ci), Places(a[r], ci'), lo, hi);
    }
  }

  lemma SwapColsKeeps(a: Lists, pr: Params, pm: Perms, nz: seq<nat>, i: nat, u: nat, x: nat, y: nat)
    requires PreInv(a, pr, pm, nz, i, u) && i <= x < pr.l - u && i <= y < pr.l - u
    ensures PreInv(a, pr, pm.SwapCols(x, y), nz, i, u)
  {
    SwapInverse(pm.c, pm.ci, x, y);
    SwapColsDegrees(a, pr, pm, nz, i, pr.l - u, x, y);
    hide Degrees, Dormant;
  }

  lemma PlacesNoDup(xs: seq<nat>, c: seq<nat>, ci: seq<nat>)
    requires Inverse(c, ci) && Below(xs, |c|) && NoDup(xs)
    ensures NoDup(Places(xs, ci))
    ensures forall j :: 0 <= j < |c| ==> (j in Places(xs, ci) <==> c[j] in xs)
  {
    forall j | 0 <= j < |c| ensures j in Places(xs, ci) <==> c[j] in xs {
      if c[j] in xs {
        var k :| 0 <= k < |xs| && xs[k] == c[j];
        assert Places(xs, ci)[k] == j;
      }
    }
  }

  /** A row with an entry at an active position is not dormant. */
  lemma ActiveNotDormant(a: Lists, pr: Params, pm: Perms, r: nat, j: nat)
    requires pr.p <= pr.l && WellFormed(a, pr.l) && pm.Valid(|a|, pr.l) && Frozen(pr, pm)
    requires r < |a| && j < pr.l - pr.p && pm.c[j] in a[r]
    ensures !Dormant(pr, a[r])
  {
    var v := pm.c[j];
    assert pm.ci[v] == j && pm.ci[pm.c[v]] == v;
    CountZero(a[r], 0, pr.l - pr.p);
  }

  /** The change to nz when the columns at positions i and, if r is 2, hi-1 become inactive. */
  ghost predicate Decremented(a: Lists, pm: Perms, nz: seq<nat>, nz': seq<nat>, i: nat, hi: nat, r: nat)
    requires i < hi <= |pm.c|
  {
    && |nz'| == |nz| == |a|
    && forall row :: 0 <= row < |a| ==>
      nz[row] == nz'[row] + (if pm.c[i] in a[row] then 1 else 0)
                          + (if r == 2 && pm.c[hi - 1] in a[row] then 1 else 0)
  }

  lemma ShrinkCount(xs: seq<nat>, c: seq<nat>, ci: seq<nat>, i: nat, hi: nat, r: nat)
    requires Inverse(c, ci) && Below(xs, |c|) && NoDup(xs) && i < hi <= |c|
    requires r == 1 || (r == 2 && i < hi - 1)
    ensures Count(Places(xs, ci), i + 1, hi - (r - 1)) ==
      Count(Places(xs, ci), i, hi) - (if c[i] in xs then 1 else 0) - (if r == 2 && c[hi - 1] in xs then 1 else 0)
  {
    var ps := Places(xs, ci);
    PlacesNoDup(xs, c, ci);
    CountSplit(ps, i, i + 1, hi);
    CountOne(ps, i);
    if r == 2 {
      CountSplit(ps, i + 1, hi - 1, hi);
      CountOne(ps, hi - 1);
    }
    hide Places;
  }

  lemma ShrinkDegree(a: Lists, pr: Params, pm: Perms, i: nat, u: nat, r: nat, n: nat, n': nat, row: nat)
    requires pr.p <= pr.l && WellFormed(a, pr.l) && pm.Valid(|a|, pr.l) && Frozen(pr, pm)
    requires row < |a| && i + u < pr.l && u >= pr.p && (r == 1 || (r == 2 && i < pr.l - u - 1))
    requires n == if Dormant(pr, a[row]) then pr.l else Count(Places(a[row], pm.ci), i, pr.l - u)
    requires n == n' + (if pm.c[i] in a[row] then 1 else 0)
                     + (if r == 2 && pm.c[pr.l - u - 1] in a[row] then 1 else 0)
    ensures n' == if Dormant(pr, a[row]) then pr.l
                  else Count(Places(a[row], pm.ci), i + 1, pr.l - u - (r - 1))
  {
    ShrinkCount(a[row], pm.c, pm.ci, i, pr.l - u, r);
    if pm.c[i] in a[row] {
      ActiveNotDormant(a, pr, pm, row, i);
    }
    if pm.c[pr.l - u - 1] in a[row] {
      ActiveNotDormant(a, pr, pm, row, pr.l - u - 1);
    }
    hide *;
  }

  lemma ShrinkDegrees(a: Lists, pr: Params, pm: Perms, nz: seq<nat>, nz': seq<nat>, i: nat, u: nat, r: nat)
    requires PreInv(a, pr, pm, nz, i, u) && i + u < pr.l
    requires r == 1 || (r == 2 && i < pr.l - u - 1)
    requires Decremented(a, pm, nz, nz', i, pr.l - u, r)
    ensures |nz'| == |a| && |pm.ci| == pr.l
    ensures Degrees(a, pr, pm.ci, nz', i + 1, pr.l - u - (r - 1))
  {
    hide Places, Dormant, Triangle, Frozen;
    forall row | 0 <= row < |a|
      ensures nz'[row] == if Dormant(pr, a[row]) then pr.l
                          else Count(Places(a[row], pm.ci), i + 1, pr.l - u - (r - 1))
    {
      ShrinkDegree(a, pr, pm, i, u, r, nz[row], nz'[row], row);
    }
  }

  /** The chosen row has entries, among active positions, exactly at i and (r == 2) at hi-1. */
  ghost predicate Exposed(a: Lists, pm: Perms, i: nat, hi: nat, r: nat)
    requires i < hi <= |pm.c| && i < |pm.d| && pm.d[i] < |a|
  {
    && (r == 1 || (r == 2 && i < hi - 1))
    && pm.c[i] in a[pm.d[i]]
    && (forall j :: i < j < hi - (r - 1) ==> pm.c[j] !in a[pm.d[i]])
  }

  lemma GrowTriangle(a: Lists, pm: Perms, i: nat, hi: nat, r: nat)
    requires Triangle(a, pm, i, hi) && i < hi && i < |pm.d| && Exposed(a, pm, i, hi, r)
    ensures Triangle(a, pm, i + 1, hi - (r - 1))
  {}

  /** One pass of the first phase: the block grows by one and the inactive part by r - 1. */
  lemma ShrinkKeeps(a: Lists, pr: Params, pm: Perms, nz: seq<nat>, nz': seq<nat>, i: nat, u: nat, r: nat)
    requires PreInv(a, pr, pm, nz, i, u) && i + u < pr.l && i < |a| - pr.h
    requires Exposed(a, pm, i, pr.l - u, r)
    requires Decremented(a, pm, nz, nz', i, pr.l - u, r)
    ensures PreInv(a, pr, pm, nz', i + 1, u + r - 1)
  {
    hide Degrees, Dormant, Triangle, Inverse, WellFormed, Decremented, Places, Count;
    ShrinkDegrees(a, pr, pm, nz, nz', i, u, r);
    GrowTriangle(a, pm, i, pr.l - u, r);
    assert pr.l - (u + r - 1) == pr.l - u - (r - 1);
  }

  // ---------- sorting ----------

  /** The dense rows list nothing in the sparse matrix. */
  ghost predicate DenseRowsEmpty(a: Lists, pr: Params) {
    forall r :: pr.s <= r < pr.s + pr.h && r < |a| ==> a[r] == []
  }

  /** Position k of the initial row order: the dense rows move to the bottom. */
  function Rotated(pr: Params, rows: nat, k: nat): nat
    requires k < rows && pr.s + pr.h <= rows
  {
    if k + pr.s + pr.h < rows then k + pr.s + pr.h else k + pr.s + pr.h - rows
  }

  lemma RotatedMod(pr: Params, rows: nat, k: nat)
    requires k < rows && pr.s + pr.h <= rows
    ensures (k + pr.s + pr.h) % rows == Rotated(pr, rows, k)
  {
    Primes.ModBelowTwice(k + pr.s + pr.h, rows);
  }

  /** Moves the dense rows to the bottom and counts the degrees. */
  method Sort(pr: Params, a: Sparse, s: Schedule)
    requires Sized(pr, a.idxs.Length) && WellFormed(a.idxs[..], pr.l) && a.cols == pr.l
    requires s.Distinct(a.idxs.Length, pr.l) && s.Pm().Valid(a.idxs.Length, pr.l)
    requires forall j :: 0 <= j < pr.l ==> s.c[j] == j
    modifies s.d, s.di, s.nz
    ensures PreInv(a.idxs[..], pr, s.Pm(), s.nz[..], 0, pr.p)
  {
    hide Count;
    var rows := a.idxs.Length;
    for row := 0 to rows
      invariant forall k :: 0 <= k < row ==> s.d[k] == Rotated(pr, rows, k)
    {
      RotatedMod(pr, rows, row);
      s.d[row] := (row + pr.s + pr.h) % rows;
    }
    for i := 0 to rows
      invariant forall k :: 0 <= k < rows ==> s.d[k] == Rotated(pr, rows, k)
      invariant forall k :: 0 <= k < i ==> s.di[Rotated(pr, rows, k)] == k
    {
      s.di[s.d[i]] := i;
    }
    RotatedOnto(pr, s.d[..], s.di[..]);
    ghost var pm := s.Pm();
    for row := 0 to rows
      invariant s.Pm() == pm
      invariant forall k :: 0 <= k < row ==>
        s.nz[s.d[k]] == if Dormant(pr, a.idxs[s.d[k]]) then pr.l else Count(a.idxs[s.d[k]], 0, pr.l - pr.p)
    {
      s.nz[s.d[row]] := a.Nnz(s.d[row], 0, a.cols - pr.p);
      if s.nz[s.d[row]] == 0 {
        s.nz[s.d[row]] := a.cols;
      }
    }
    Sorted(a.idxs[..], pr, s.Pm(), s.nz[..]);
  }

  lemma RotatedOnto(pr: Params, d: seq<nat>, di: seq<nat>)
    requires |d| == |di| && pr.s + pr.h <= |d|
    requires forall k :: 0 <= k < |d| ==> d[k] == Rotated(pr, |d|, k)
    requires forall k :: 0 <= k < |d| ==> di[Rotated(pr, |d|, k)] == k
    ensures Inverse(d, di)
  {
    forall r | 0 <= r < |d| ensures di[r] < |d| && d[di[r]] == r {
      var k := if r >= pr.s + pr.h then r - pr.s - pr.h else r + |d| - pr.s - pr.h;
      assert Rotated(pr, |d|, k) == r;
    }
  }

  lemma Sorted(a: Lists, pr: Params, pm: Perms, nz: seq<nat>)
    requires Sized(pr, |a|) && WellFormed(a, pr.l) && pm.Valid(|a|, pr.l) && |nz| == |a|
    requires forall j :: 0 <= j < pr.l ==> pm.c[j] == j
    requires forall k :: 0 <= k < |a| ==> pm.d[k] == Rotated(pr, |a|, k)
    requires forall k :: 0 <= k < |a| ==>
      nz[pm.d[k]] == if Dormant(pr, a[pm.d[k]]) then pr.l else Count(a[pm.d[k]], 0, pr.l - pr.p)
    ensures PreInv(a, pr, pm, nz, 0, pr.p)
  {
    hide Dormant, Count;
    assert forall j :: 0 <= j < pr.l ==> pm.ci[j] == j by {
      forall j | 0 <= j < pr.l ensures pm.ci[j] == j {
        assert pm.ci[pm.c[j]] == j;
      }
    }
    forall r | 0 <= r < |a|
      ensures nz[r] == if Dormant(pr, a[r]) then pr.l else Count(Places(a[r], pm.ci), 0, pr.l - pr.p)
    {
      assert Places(a[r], pm.ci) == a[r];
      assert pm.d[pm.di[r]] == r;
    }
  }

  // ---------- choosing and exposing a row ----------

  /** Stacks of rows by degree; only degrees 1 and 2 are kept. */
  ghost predicate Stacks(nzt: Lists, rows: nat) {
    |nzt| == 3 && forall b :: 0 <= b < 3 ==> Below(nzt[b], rows)
  }

  /** Row r is at a position from i on and has degree b. */
  predicate HasDegree(di: seq<nat>, nz: seq<nat>, i: nat, b: nat, r: nat)
    requires |di| == |nz|
  {
    r < |nz| && di[r] >= i && nz[r] == b
  }

  /** Every active row of degree 1 or 2 is on the stack of its degree; `but` may be missing. */
  ghost predicate Stacked(nzt: Lists, di: seq<nat>, nz: seq<nat>, i: nat, but: set<nat>) {
    && |nzt| == 3 && |di| == |nz|
    && forall b, r: nat :: 1 <= b <= 2 && r !in but && HasDegree(di, nz, i, b, r) ==> r in nzt[b]
  }

  /** No row at a position from i on has degree b. */
  ghost predicate NoneOfDegree(di: seq<nat>, nz: seq<nat>, i: nat, b: nat) {
    |di| == |nz| && forall r: nat :: !HasDegree(di, nz, i, b, r)
  }

  lemma PopOther(nzt: Lists, di: seq<nat>, nz: seq<nat>, i: nat, b: nat)
    requires Stacked(nzt, di, nz, i, {}) && 1 <= b <= 2 && nzt[b] != []
    ensures var xs := nzt[b];
      var rest := nzt[b := xs[..|xs| - 1]];
      && Stacked(rest, di, nz, i, {xs[|xs| - 1]})
      && (!HasDegree(di, nz, i, b, xs[|xs| - 1]) ==> Stacked(rest, di, nz, i, {}))
  {
    var xs := nzt[b];
    assert xs == xs[..|xs| - 1] + [xs[|xs| - 1]];
  }

  /**
   Pops rows of degree 1, then 2, until one is still active and its recorded degree is current.
   Returns its position, or srows when none is left: a row of least degree if that is 1 or 2.
   */
  method Choose(v0: nat, srows: nat, s: Schedule, nzt: Sparse) returns (chosen: nat)
    requires s.di.Length == s.nz.Length == s.d.Length && srows <= s.d.Length
    requires Inverse(s.d[..], s.di[..]) && Stacks(nzt.idxs[..], s.d.Length)
    requires Stacked(nzt.idxs[..], s.di[..], s.nz[..], v0, {})
    requires forall k :: srows <= k < s.d.Length ==> s.nz[s.d[k]] > 2
    modifies nzt.idxs
    ensures Stacks(nzt.idxs[..], s.d.Length)
    ensures chosen <= srows
    ensures chosen < srows ==> v0 <= chosen && s.d[chosen] < s.nz.Length && 1 <= s.nz[s.d[chosen]] <= 2
    ensures chosen < srows ==> Stacked(nzt.idxs[..], s.di[..], s.nz[..], v0, {s.d[chosen]})
    ensures chosen == srows || s.nz[s.d[chosen]] == 2 ==> NoneOfDegree(s.di[..], s.nz[..], v0, 1)
    ensures chosen == srows ==> NoneOfDegree(s.di[..], s.nz[..], v0, 2)
  {
    ghost var di, nz := s.di[..], s.nz[..];
    for b := 1 to 3
      invariant Stacks(nzt.idxs[..], s.d.Length) && Stacked(nzt.idxs[..], di, nz, v0, {})
      invariant forall e :: 1 <= e < b ==> NoneOfDegree(di, nz, v0, e)
    {
      while |nzt.idxs[b]| > 0
        invariant Stacks(nzt.idxs[..], s.d.Length) && Stacked(nzt.idxs[..], di, nz, v0, {})
        decreases |nzt.idxs[b]|
      {
        var xs := nzt.idxs[b];
        var row := xs[|xs| - 1];
        PopOther(nzt.idxs[..], di, nz, v0, b);
        nzt.idxs[b] := xs[..|xs| - 1];
        assert s.d[s.di[row]] == row;
        if s.di[row] >= v0 && s.nz[row] == b {
          return s.di[row];
        }
      }
    }
    return srows;
  }

  /**
   The positions, in [lo, hi), of the listed columns, when there are nz of them (1 or 2);
   the second is hi when there is one only.
   */
  method RowNzAt(rs: seq<nat>, ci: array<nat>, lo: nat, hi: nat, nz: nat) returns (r: nat, at0: nat, at1: nat)
    requires Below(rs, ci.Length)
    requires 1 <= nz <= 2 && Count(Places(rs, ci[..]), lo, hi) == nz && NoDup(Places(rs, ci[..]))
    ensures r == nz && lo <= at0 < hi && at0 in Places(rs, ci[..])
    ensures if r == 1 then at1 == hi else at0 < at1 < hi && at1 in Places(rs, ci[..])
    ensures forall j :: lo <= j < hi && j in Places(rs, ci[..]) ==> j == at0 || j == at1
  {
    hide Places, Found, Count;
    r, at0, at1 := 0, hi, hi;
    ghost var ps := Places(rs, ci[..]);
    assert ps[..0] == [];
    NoneFound(lo, hi);
    var it := 0;
    while it < |rs| && r < nz
      invariant it <= |rs| && Found(ps[..it], lo, hi, r, at0, at1)
      invariant r <= nz
    {
      var col := ci[rs[it]];
      PlaceAt(rs, ci[..], it);
      assert ps[..it + 1] == ps[..it] + [col] && col !in ps[..it];
      FoundStep(ps[..it], lo, hi, r, at0, at1, col);
      if col >= lo && col < hi {
        if r == 0 {
          at0 := col;
        } else {
          at1 := col;
        }
        r := r + 1;
      }
      it := it + 1;
    }
    assert ps[..|ps|] == ps;
    CountPrefix(ps, it, lo, hi);
    FoundCount(ps[..it], lo, hi, r, at0, at1);
    FoundAll(ps, it, lo, hi, r, at0, at1);
    if at0 > at1 {
      at0, at1 := at1, at0;
    }
  }

  lemma PlaceAt(xs: seq<nat>, ci: seq<nat>, k: nat)
    requires Below(xs, |ci|) && k < |xs|
    ensures Places(xs, ci)[k] == ci[xs[k]]
  {}

  /** The r entries of ps in range are at0 and at1; hi stands for none. */
  ghost predicate Found(ps: seq<nat>, lo: nat, hi: nat, r: nat, at0: nat, at1: nat) {
    && r == Count(ps, lo, hi) && r <= 2
    && (if r >= 1 then lo <= at0 < hi && at0 in ps else at0 == hi)
    && (if r >= 2 then lo <= at1 < hi && at1 in ps && at0 != at1 else at1 == hi)
    && forall k :: 0 <= k < |ps| && lo <= ps[k] < hi ==> ps[k] == at0 || ps[k] == at1
  }

  lemma FoundCount(ps: seq<nat>, lo: nat, hi: nat, r: nat, at0: nat, at1: nat)
    requires Found(ps, lo, hi, r, at0, at1)
    ensures r == Count(ps, lo, hi)
  {}

  lemma NoneFound(lo: nat, hi: nat)
    ensures Found([], lo, hi, 0, hi, hi)
  {}

  lemma FoundStep(ps: seq<nat>, lo: nat, hi: nat, r: nat, at0: nat, at1: nat, col: nat)
    requires Found(ps, lo, hi, r, at0, at1) && r < 2 && col !in ps
    ensures lo <= col < hi ==>
      Found(ps + [col], lo, hi, r + 1, if r == 0 then col else at0, if r == 0 then at1 else col)
    ensures !(lo <= col < hi) ==> Found(ps + [col], lo, hi, r, at0, at1)
  {
    assert (ps + [col])[..|ps|] == ps;
  }

  lemma FoundAll(ps: seq<nat>, n: nat, lo: nat, hi: nat, r: nat, at0: nat, at1: nat)
    requires n <= |ps| && Found(ps[..n], lo, hi, r, at0, at1) && 1 <= r
    requires forall k :: n <= k < |ps| ==> !(lo <= ps[k] < hi)
    ensures lo <= at0 < hi && at0 in ps && (if r == 1 then at1 == hi else lo <= at1 < hi && at1 in ps && at0 != at1)
    ensures forall j :: lo <= j < hi && j in ps ==> j == at0 || j == at1
  {
    assert ps == ps[..n] + ps[n..];
  }

  /** The column order after moving position at0 to i and, if there is one, at1 to hi - 1. */
  function Exposing(pm: Perms, i: nat, hi: nat, r: nat, at0: nat, at1: nat): Perms
    requires i < hi <= |pm.c| && Inverse(pm.c, pm.ci) && at0 < hi && (r == 2 ==> at1 < hi)
  {
    SwapInverse(pm.c, pm.ci, i, at0);
    var pm1 := if at0 != i then pm.SwapCols(i, at0) else pm;
    if r == 2 && at1 != hi - 1 then pm1.SwapCols(hi - 1, at1) else pm1
  }

  lemma ExposingExposes(a: Lists, pm: Perms, i: nat, hi: nat, r: nat, at0: nat, at1: nat)
    requires i < hi <= |pm.c| && Inverse(pm.c, pm.ci) && i < |pm.d| && pm.d[i] < |a|
    requires Below(a[pm.d[i]], |pm.c|) && NoDup(a[pm.d[i]])
    requires (r == 1 && at1 == hi) || (r == 2 && at0 < at1 < hi && pm.c[at1] in a[pm.d[i]])
    requires i <= at0 < hi && pm.c[at0] in a[pm.d[i]]
    requires forall j :: i <= j < hi && pm.c[j] in a[pm.d[i]] ==> j == at0 || j == at1
    ensures Exposed(a, Exposing(pm, i, hi, r, at0, at1), i, hi, r)
  {}

  lemma ExposingKeeps(a: Lists, pr: Params, pm: Perms, nz: seq<nat>, i: nat, u: nat, r: nat, at0: nat, at1: nat)
    requires PreInv(a, pr, pm, nz, i, u) && i + u < pr.l
    requires i <= at0 < pr.l - u && (r == 2 ==> i < at1 < pr.l - u)
    ensures PreInv(a, pr, Exposing(pm, i, pr.l - u, r, at0, at1), nz, i, u)
  {
    hide Degrees, Triangle, Frozen, Sized, WellFormed, Perms.SwapCols;
    SwapColsKeeps(a, pr, pm, nz, i, u, i, at0);
    SwapInverse(pm.c, pm.ci, i, at0);
    var pm1 := if at0 != i then pm.SwapCols(i, at0) else pm;
    if r == 2 {
      SwapColsKeeps(a, pr, pm1, nz, i, u, pr.l - u - 1, at1);
    }
  }

  lemma ExposingSteps(pm: Perms, i: nat, hi: nat, r: nat, at0: nat, at1: nat)
    requires i < hi <= |pm.c| && Inverse(pm.c, pm.ci) && at0 < hi && (r == 2 ==> at1 < hi)
    ensures var pm1 := if at0 != i then pm.SwapCols(i, at0) else pm;
      Exposing(pm, i, hi, r, at0, at1) == if r == 2 && at1 != hi - 1 then pm1.SwapCols(hi - 1, at1) else pm1
  {}

  /** Moves the columns of the chosen row's one or two active entries to the block's edges. */
  method ExposeRow(pr: Params, a: Sparse, v0: nat, vcols: nat, s: Schedule) returns (r: nat)
    requires a.idxs.Length == s.d.Length && s.Distinct(s.d.Length, pr.l)
    requires vcols > 0 && v0 + vcols <= pr.l && v0 < s.d.Length
    requires PreInv(a.idxs[..], pr, s.Pm(), s.nz[..], v0, pr.l - v0 - vcols)
    requires s.d[v0] < s.nz.Length && 1 <= s.nz[s.d[v0]] <= 2
    modifies s.c, s.ci
    ensures PreInv(a.idxs[..], pr, s.Pm(), s.nz[..], v0, pr.l - v0 - vcols)
    ensures Exposed(a.idxs[..], s.Pm(), v0, v0 + vcols, r)
    ensures s.Pm().d == old(s.Pm().d)
  {
    hide Degrees, Triangle, Frozen, Sized, WellFormed, Inverse, Exposed, PreInv, Count, Places, Exposing;
    ghost var pm, al := s.Pm(), a.idxs[..];
    var vlast := v0 + vcols - 1;
    var row := s.d[v0];
    RowFacts(al, pr, pm, s.nz[..], v0, pr.l - v0 - vcols, row);
    var at0, at1;
    r, at0, at1 := RowNzAt(a.idxs[row], s.ci, v0, v0 + vcols, s.nz[row]);
    ExposingExposes(al, pm, v0, v0 + vcols, r, at0, at1);
    ExposingKeeps(al, pr, pm, s.nz[..], v0, pr.l - v0 - vcols, r, at0, at1);
    ExposingSteps(pm, v0, v0 + vcols, r, at0, at1);
    if at0 != v0 {
      s.SwapCols(v0, at0);
    }
    if r == 2 && at1 != vlast {
      s.SwapCols(vlast, at1);
    }
  }

  lemma RowFacts(a: Lists, pr: Params, pm: Perms, nz: seq<nat>, i: nat, u: nat, row: nat)
    requires PreInv(a, pr, pm, nz, i, u) && row < |a| && 1 <= nz[row] <= 2
    ensures Below(a[row], pr.l) && NoDup(a[row])
    ensures Count(Places(a[row], pm.ci), i, pr.l - u) == nz[row] && NoDup(Places(a[row], pm.ci))
    ensures forall j :: 0 <= j < pr.l ==> (j in Places(a[row], pm.ci) <==> pm.c[j] in a[row])
    ensures pm.Valid(|a|, pr.l) && i <= pr.l - u
  {
    hide Dormant, Triangle, Frozen, Count, Places, NoDup;
    PlacesNoDup(a[row], pm.c, pm.ci);
  }

  // ---------- maintaining the degrees ----------

  /** Lowers the degree of every listed row, stacking those that reach degree 1 or 2. */
  method DecrementRows(cs: seq<nat>, s: Schedule, nzt: Sparse, i: nat)
    requires Below(cs, s.nz.Length) && NoDup(cs) && forall k :: 0 <= k < |cs| ==> s.nz[cs[k]] > 0
    requires Stacks(nzt.idxs[..], s.nz.Length) && s.nz != s.di && Stacked(nzt.idxs[..], s.di[..], s.nz[..], i, {})
    modifies s.nz, nzt.idxs
    ensures Stacks(nzt.idxs[..], s.nz.Length) && Stacked(nzt.idxs[..], s.di[..], s.nz[..], i, {})
    ensures forall r :: 0 <= r < s.nz.Length ==> old(s.nz[r]) == s.nz[r] + (if r in cs then 1 else 0)
  {
    hide Stacked;
    ghost var di := s.di[..];
    for it := 0 to |cs|
      invariant Stacks(nzt.idxs[..], s.nz.Length) && Stacked(nzt.idxs[..], di, s.nz[..], i, {})
      invariant forall r :: 0 <= r < s.nz.Length ==> old(s.nz[r]) == s.nz[r] + (if r in cs[..it] then 1 else 0)
    {
      var row := cs[it];
      assert cs[..it + 1] == cs[..it] + [row];
      assert row !in cs[..it];
      var nz := s.nz[row] - 1;
      PushLowered(nzt.idxs[..], di, s.nz[..], i, row, nz);
      s.nz[row] := nz;
      if nz > 0 && nz < 3 {
        nzt.Push(nz, row);
      }
    }
    assert cs[..|cs|] == cs;
  }

  /** A row whose degree drops is pushed onto its new stack; other rows stay where they are. */
  lemma PushLowered(nzt: Lists, di: seq<nat>, nz: seq<nat>, i: nat, row: nat, n: nat)
    requires Stacked(nzt, di, nz, i, {}) && row < |nz|
    ensures |nzt| == 3
    ensures 0 < n < 3 ==> Stacked(nzt[n := nzt[n] + [row]], di, nz[row := n], i, {})
    ensures !(0 < n < 3) ==> Stacked(nzt, di, nz[row := n], i, {})
  {
    forall b, r: nat | 1 <= b <= 2 && r != row && HasDegree(di, nz[row := n], i, b, r) ensures r in nzt[b] {
      assert HasDegree(di, nz, i, b, r);
    }
  }

  lemma DegreeBound(a: Lists, pr: Params, pm: Perms, nz: seq<nat>, i: nat, u: nat, r: nat, row: nat)
    requires PreInv(a, pr, pm, nz, i, u) && i + u < pr.l && row < |a|
    requires r == 1 || (r == 2 && i < pr.l - u - 1)
    ensures nz[row] >= (if pm.c[i] in a[row] then 1 else 0) + (if r == 2 && pm.c[pr.l - u - 1] in a[row] then 1 else 0)
  {
    hide Places, Dormant, Triangle, Count;
    ShrinkCount(a[row], pm.c, pm.ci, i, pr.l - u, r);
    if pm.c[i] in a[row] {
      ActiveNotDormant(a, pr, pm, row, i);
    }
    if pm.c[pr.l - u - 1] in a[row] {
      ActiveNotDormant(a, pr, pm, row, pr.l - u - 1);
    }
  }

  /** The column lists of the columns leaving the active part, and what lowering along them needs. */
  lemma LeavingColumns(a: Lists, b: Lists, pr: Params, pm: Perms, nz: seq<nat>, i: nat, u: nat, r: nat)
    requires PreInv(a, pr, pm, nz, i, u) && i + u < pr.l && Transposed(a, b) && |b| == pr.l
    requires r == 1 || (r == 2 && i < pr.l - u - 1)
    ensures pm.c[i] < |b| && Below(b[pm.c[i]], |a|) && NoDup(b[pm.c[i]])
    ensures forall row :: 0 <= row < |a| ==> (row in b[pm.c[i]] <==> pm.c[i] in a[row])
    ensures r == 2 ==> pm.c[pr.l - u - 1] < |b| && Below(b[pm.c[pr.l - u - 1]], |a|) && NoDup(b[pm.c[pr.l - u - 1]])
    ensures r == 2 ==> forall row :: 0 <= row < |a| ==> (row in b[pm.c[pr.l - u - 1]] <==> pm.c[pr.l - u - 1] in a[row])
    ensures forall row :: 0 <= row < |a| ==>
      (nz[row] >= (if pm.c[i] in a[row] then 1 else 0) + (if r == 2 && pm.c[pr.l - u - 1] in a[row] then 1 else 0))
  {
    hide Degrees, Triangle, Frozen;
    forall row | 0 <= row < |a|
      ensures nz[row]
        >= (if pm.c[i] in a[row] then 1 else 0) + (if r == 2 && pm.c[pr.l - u - 1] in a[row] then 1 else 0)
    {
      DegreeBound(a, pr, pm, nz, i, u, r, row);
    }
  }

  method UpdateNnz(pr: Params, at: Sparse, v0: nat, vcols: nat, r: nat, s: Schedule, nzt: Sparse, ghost a: Lists)
    requires |a| == s.d.Length && s.Distinct(s.d.Length, pr.l) && nzt.idxs != at.idxs
    requires vcols > 0 && v0 + vcols <= pr.l && v0 < |a|
    requires PreInv(a, pr, s.Pm(), s.nz[..], v0, pr.l - v0 - vcols)
    requires Transposed(a, at.idxs[..]) && at.idxs.Length == pr.l && Stacks(nzt.idxs[..], |a|)
    requires r == 1 || (r == 2 && vcols > 1)
    requires Stacked(nzt.idxs[..], s.di[..], s.nz[..], v0 + 1, {})
    modifies s.nz, nzt.idxs
    ensures Stacks(nzt.idxs[..], |a|) && Stacked(nzt.idxs[..], s.di[..], s.nz[..], v0 + 1, {})
    ensures Decremented(a, s.Pm(), old(s.nz[..]), s.nz[..], v0, v0 + vcols, r)
  {
    hide Degrees, Triangle, Frozen, Sized, WellFormed, PreInv, Transposed, Inverse, Stacks, Count, Places, Stacked;
    ghost var pm, b, nz0 := s.Pm(), at.idxs[..], s.nz[..];
    LeavingColumns(a, b, pr, pm, nz0, v0, pr.l - v0 - vcols, r);
    var cs := at.idxs[s.c[v0]];
    DecrementRows(cs, s, nzt, v0 + 1);
    if r == 2 {
      cs := at.idxs[s.c[v0 + vcols - 1]];
      DecrementRows(cs, s, nzt, v0 + 1);
    }
  }

  // ---------- the first phase ----------

  /** What the first phase leaves: a unit lower triangular block of size i, the rest inactive. */
  ghost predicate Preconditioned(a: Lists, pr: Params, pm: Perms, i: nat) {
    && Sized(pr, |a|) && pm.Valid(|a|, pr.l) && Frozen(pr, pm)
    && i <= |a| - pr.h && i <= pr.l - pr.p
    && Triangle(a, pm, i, i)
  }

  lemma PreInvDone(a: Lists, pr: Params, pm: Perms, nz: seq<nat>, i: nat, u: nat)
    requires PreInv(a, pr, pm, nz, i, u)
    ensures Preconditioned(a, pr, pm, i)
  {
    hide Degrees;
  }

  /** The dense rows carry the sentinel, so they are never chosen. */
  lemma DenseDegrees(a: Lists, pr: Params, pm: Perms, nz: seq<nat>, i: nat, u: nat)
    requires PreInv(a, pr, pm, nz, i, u) && DenseRowsEmpty(a, pr)
    ensures forall k :: |a| - pr.h <= k < |a| ==> pm.d[k] < |a| && nz[pm.d[k]] > 2
  {
    hide Triangle, Places;
    forall k | |a| - pr.h <= k < |a| ensures nz[pm.d[k]] > 2 {
      assert a[pm.d[k]] == [];
      CountZero(a[pm.d[k]], 0, pr.l - pr.p);
    }
  }

  method FillStacks(srows: nat, s: Schedule, nzt: Sparse)
    requires s.d.Length == s.nz.Length && srows <= s.d.Length && Stacks(nzt.idxs[..], s.nz.Length)
    requires Inverse(s.d[..], s.di[..]) && forall k :: srows <= k < s.d.Length ==> s.nz[s.d[k]] > 2
    modifies nzt.idxs
    ensures Stacks(nzt.idxs[..], s.nz.Length) && Stacked(nzt.idxs[..], s.di[..], s.nz[..], 0, {})
  {
    for row := 0 to srows
      invariant Stacks(nzt.idxs[..], s.nz.Length)
      invariant forall k :: 0 <= k < row && 1 <= s.nz[s.d[k]] <= 2 ==> s.d[k] in nzt.idxs[s.nz[s.d[k]]]
    {
      if s.nz[s.d[row]] < 3 {
        nzt.Push(s.nz[s.d[row]], s.d[row]);
      }
    }
    forall b, r: nat | 1 <= b <= 2 && HasDegree(s.di[..], s.nz[..], 0, b, r) ensures r in nzt.idxs[b] {
      assert s.d[s.di[r]] == r;
    }
  }

  /** Picks a row of degree 1 or 2 and moves it to position i.  False when none is left. */
  method TakeRow(pr: Params, a: Sparse, s: Schedule, nzt: Sparse, i: nat, u: nat) returns (more: bool)
    requires a.idxs.Length == s.d.Length && s.Distinct(s.d.Length, pr.l) && nzt.idxs != a.idxs
    requires PreInv(a.idxs[..], pr, s.Pm(), s.nz[..], i, u) && i + u < pr.l
    requires DenseRowsEmpty(a.idxs[..], pr) && Stacks(nzt.idxs[..], s.d.Length)
    requires Stacked(nzt.idxs[..], s.di[..], s.nz[..], i, {})
    modifies s.d, s.di, nzt.idxs
    ensures Stacks(nzt.idxs[..], s.d.Length)
    ensures PreInv(a.idxs[..], pr, s.Pm(), s.nz[..], i, u)
    ensures more ==> Stacked(nzt.idxs[..], s.di[..], s.nz[..], i + 1, {})
    ensures !more || s.nz[s.d[i]] == 2 ==> NoneOfDegree(s.di[..], s.nz[..], i, 1)
    ensures !more ==> NoneOfDegree(s.di[..], s.nz[..], i, 2)
    ensures more ==> i < s.d.Length - pr.h && s.d[i] < s.nz.Length && 1 <= s.nz[s.d[i]] <= 2
  {
    ghost var al, pm := a.idxs[..], s.Pm();
    PreInvBounds(al, pr, pm, s.nz[..], i, u);
    DenseDegrees(al, pr, pm, s.nz[..], i, u);
    hide Degrees, Triangle, Frozen, Sized, WellFormed, PreInv, Inverse, Stacks, DenseRowsEmpty, Stacked, NoneOfDegree;
    var srows := a.idxs.Length - pr.h;
    var chosen := Choose(i, srows, s, nzt);
    if chosen >= srows {
      return false;
    }
    SwapRowsKeeps(al, pr, pm, s.nz[..], i, u, chosen);
    SwapSelf(pm, i);
    TakenStacked(nzt.idxs[..], pm, s.nz[..], i, chosen);
    if i != chosen {
      s.SwapRows(i, chosen);
    }
    more := true;
  }

  /** With the chosen row at position i, what is active from i + 1 on is as before from i on, but for that row. */
  lemma TakenStacked(nzt: Lists, pm: Perms, nz: seq<nat>, i: nat, p: nat)
    requires Inverse(pm.d, pm.di) && i <= p < |pm.d| == |nz| && Stacked(nzt, pm.di, nz, i, {pm.d[p]})
    ensures Stacked(nzt, pm.SwapRows(i, p).di, nz, i + 1, {})
    ensures forall b :: NoneOfDegree(pm.di, nz, i, b) ==> NoneOfDegree(pm.SwapRows(i, p).di, nz, i, b)
  {
    var di' := pm.SwapRows(i, p).di;
    assert forall r :: 0 <= r < |pm.di| && r != pm.d[i] && r != pm.d[p] ==> di'[r] == pm.di[r];
    assert di'[pm.d[p]] == i && di'[pm.d[i]] == p;
    forall b, r: nat | HasDegree(di', nz, i, b, r) ensures HasDegree(pm.di, nz, i, b, r) {}
    forall b, r: nat | 1 <= b <= 2 && HasDegree(di', nz, i + 1, b, r) ensures r in nzt[b] {
      assert HasDegree(di', nz, i, b, r) && r != pm.d[p];
    }
  }

  /** One pass of the first phase.  False when no row of degree 1 or 2 is left. */
  method PrecondPass(pr: Params, a: Sparse, at: Sparse, s: Schedule, nzt: Sparse, i: nat, u: nat)
    returns (more: bool, r: nat)
    requires a.idxs.Length == s.d.Length && s.Distinct(s.d.Length, pr.l)
    requires nzt.idxs != at.idxs && nzt.idxs != a.idxs
    requires PreInv(a.idxs[..], pr, s.Pm(), s.nz[..], i, u) && i + u < pr.l
    requires DenseRowsEmpty(a.idxs[..], pr)
    requires Transposed(a.idxs[..], at.idxs[..]) && at.idxs.Length == pr.l && Stacks(nzt.idxs[..], s.d.Length)
    requires Stacked(nzt.idxs[..], s.di[..], s.nz[..], i, {})
    modifies s.c, s.ci, s.d, s.di, s.nz, nzt.idxs
    ensures Stacks(nzt.idxs[..], s.d.Length)
    ensures more ==> Stacked(nzt.idxs[..], s.di[..], s.nz[..], i + 1, {})
    ensures !more ==> NoneOfDegree(s.di[..], s.nz[..], i, 1) && NoneOfDegree(s.di[..], s.nz[..], i, 2)
    ensures more ==> r >= 1 && PreInv(a.idxs[..], pr, s.Pm(), s.nz[..], i + 1, u + r - 1)
    ensures !more ==> PreInv(a.idxs[..], pr, s.Pm(), s.nz[..], i, u) && s.nz[..] == old(s.nz[..])
    ensures more ==> exists k :: 0 <= k < s.nz.Length && 1 <= old(s.nz[..])[k] <= 2
  {
    hide Degrees, Triangle, Frozen, Sized, WellFormed, PreInv, Transposed, Inverse, Stacks, DenseRowsEmpty, Exposed,
      Stacked, NoneOfDegree;
    r := 0;
    more := TakeRow(pr, a, s, nzt, i, u);
    if more {
      ghost var al, nz := a.idxs[..], s.nz[..];
      assert 1 <= nz[s.d[i]] <= 2;
      r := ExposeRow(pr, a, i, pr.l - i - u, s);
      PreInvBounds(al, pr, s.Pm(), nz, i, u);
      ExposedShape(al, s.Pm(), i, pr.l - u, r);
      UpdateNnz(pr, at, i, pr.l - i - u, r, s, nzt, al);
      ShrinkKeeps(al, pr, s.Pm(), nz, s.nz[..], i, u, r);
    }
  }

  lemma SwapSelf(pm: Perms, i: nat)
    requires Inverse(pm.d, pm.di) && i < |pm.d|
    ensures pm.SwapRows(i, i) == pm
  {}

  lemma ExposedShape(a: Lists, pm: Perms, i: nat, hi: nat, r: nat)
    requires i < hi <= |pm.c| && i < |pm.d| && pm.d[i] < |a| && Exposed(a, pm, i, hi, r)
    ensures r == 1 || (r == 2 && i < hi - 1)
  {}

  lemma PreInvBounds(a: Lists, pr: Params, pm: Perms, nz: seq<nat>, i: nat, u: nat)
    requires PreInv(a, pr, pm, nz, i, u)
    ensures pm.Valid(|a|, pr.l) && pr.h <= |a| && i <= |a| - pr.h && u >= pr.p
    ensures Inverse(pm.d, pm.di) && forall k :: 0 <= k < |a| ==> pm.d[k] < |a|
  {
    hide Degrees;
  }

  /**
   The first phase.  Leaves S.i rows in the triangular block.  It stops only when every column has
   left the active part or when no row outside the block has one or two entries in it.  The block is
   empty exactly if no row is light.
   */
  method Precond(pr: Params, a: Sparse, at: Sparse, s: Schedule) returns (ghost u: nat)
    requires a.idxs.Length == s.d.Length && s.Distinct(s.d.Length, pr.l)
    requires PreInv(a.idxs[..], pr, s.Pm(), s.nz[..], 0, pr.p)
    requires DenseRowsEmpty(a.idxs[..], pr) && forall j :: 0 <= j < pr.l ==> s.c[j] == j
    requires Transposed(a.idxs[..], at.idxs[..]) && at.idxs.Length == pr.l
    modifies s.c, s.ci, s.d, s.di, s.nz, s`i, s`u
    ensures Preconditioned(a.idxs[..], pr, s.Pm(), s.i) && s.u == pr.l - s.i
    ensures PreInv(a.idxs[..], pr, s.Pm(), s.nz[..], s.i, u)
    ensures s.i + u == pr.l || (NoneOfDegree(s.di[..], s.nz[..], s.i, 1) && NoneOfDegree(s.di[..], s.nz[..], s.i, 2))
    ensures pr.p <= pr.l && (s.i == 0 <==> NoneLight(a.idxs[..], pr))
  {
    hide Degrees, Triangle, Frozen, Sized, WellFormed, PreInv, Transposed, Inverse, DenseRowsEmpty, Preconditioned,
      Stacks, Stacked, NoneOfDegree, Light, NoneLight;
    ghost var al, bl, nz0 := a.idxs[..], at.idxs[..], s.nz[..];
    PreInvBounds(al, pr, s.Pm(), s.nz[..], 0, pr.p);
    StartLight(al, pr, s.Pm(), nz0);
    var rows := a.idxs.Length;
    var i: nat, inactive: nat := 0, pr.p;
    var nzt := EmptyStacks(rows);
    DenseDegrees(al, pr, s.Pm(), s.nz[..], 0, pr.p);
    FillStacks(rows - pr.h, s, nzt);
    PreInvWidth(al, pr, s.Pm(), s.nz[..], 0, pr.p);
    while i + inactive < pr.l
      invariant PreInv(al, pr, s.Pm(), s.nz[..], i, inactive) && Stacks(nzt.idxs[..], rows) && i + inactive <= pr.l
      invariant Stacked(nzt.idxs[..], s.di[..], s.nz[..], i, {})
      invariant a.idxs[..] == al && at.idxs[..] == bl
      invariant if i == 0 then inactive == pr.p && s.nz[..] == nz0 else !NoneLight(al, pr)
      decreases pr.l - i
    {
      var more, r := PrecondPass(pr, a, at, s, nzt, i, inactive);
      if !more {
        if i == 0 {
          NoLightLeft(al, pr, s.di[..], nz0);
        }
        break;
      }
      if i == 0 {
        SomeLight(al, pr, nz0);
      }
      i, inactive := i + 1, inactive + r - 1;
      PreInvWidth(al, pr, s.Pm(), s.nz[..], i, inactive);
    }
    if i == 0 && inactive == pr.l {
      NoRoomForLight(al, pr);
    }
    u := inactive;
    PreInvDone(al, pr, s.Pm(), s.nz[..], i, u);
    PreconditionedBound(al, pr, s.Pm(), i);
    s.i := i;
    s.u := pr.l - i;
  }

  /** A row that the first phase can take first: it has one or two entries before the last P columns. */
  predicate Light(pr: Params, xs: seq<nat>)
    requires pr.p <= pr.l
  {
    1 <= Count(xs, 0, pr.l - pr.p) <= 2
  }

  ghost predicate NoneLight(a: Lists, pr: Params)
    requires pr.p <= pr.l
  {
    forall r :: 0 <= r < |a| ==> !Light(pr, a[r])
  }

  /** To begin with, the rows of degree one or two are the light ones. */
  lemma StartLight(a: Lists, pr: Params, pm: Perms, nz: seq<nat>)
    requires PreInv(a, pr, pm, nz, 0, pr.p) && forall j :: 0 <= j < pr.l ==> pm.c[j] == j
    ensures pr.p <= pr.l && |nz| == |a| && pr.l >= 3
    ensures forall r :: 0 <= r < |a| ==> (1 <= nz[r] <= 2 <==> Light(pr, a[r]))
  {
    forall r | 0 <= r < |a| ensures 1 <= nz[r] <= 2 <==> Light(pr, a[r]) {
      assert forall k :: 0 <= k < |a[r]| ==> pm.ci[pm.c[a[r][k]]] == a[r][k];
      assert Places(a[r], pm.ci) == a[r];
    }
  }

  lemma NoLightLeft(a: Lists, pr: Params, di: seq<nat>, nz: seq<nat>)
    requires pr.p <= pr.l && |nz| == |a| && forall r :: 0 <= r < |a| ==> (1 <= nz[r] <= 2 <==> Light(pr, a[r]))
    requires NoneOfDegree(di, nz, 0, 1) && NoneOfDegree(di, nz, 0, 2)
    ensures NoneLight(a, pr)
  {
    hide Light;
    forall r | 0 <= r < |a| ensures !Light(pr, a[r]) {
      assert !HasDegree(di, nz, 0, 1, r) && !HasDegree(di, nz, 0, 2, r);
    }
  }

  lemma SomeLight(a: Lists, pr: Params, nz: seq<nat>)
    requires pr.p <= pr.l && |nz| == |a| && forall r :: 0 <= r < |a| ==> (1 <= nz[r] <= 2 <==> Light(pr, a[r]))
    requires exists r :: 0 <= r < |nz| && 1 <= nz[r] <= 2
    ensures !NoneLight(a, pr)
  {}

  lemma NoRoomForLight(a: Lists, pr: Params)
    requires pr.p == pr.l
    ensures NoneLight(a, pr)
  {
    forall r | 0 <= r < |a| ensures !Light(pr, a[r]) {
      CountZero(a[r], 0, 0);
    }
  }

  lemma PreInvWidth(a: Lists, pr: Params, pm: Perms, nz: seq<nat>, i: nat, u: nat)
    requires PreInv(a, pr, pm, nz, i, u)
    ensures i + u <= pr.l
  {}

  method EmptyStacks(rows: nat) returns (nzt: Sparse)
    ensures fresh(nzt) && fresh(nzt.idxs) && Stacks(nzt.idxs[..], rows)
  {
    nzt := new Sparse(3, rows);
  }

  lemma PreconditionedBound(a: Lists, pr: Params, pm: Perms, i: nat)
    requires Preconditioned(a, pr, pm, i)
    ensures i <= pr.l - pr.p <= pr.l && i <= |a| - pr.h
  {}
}
