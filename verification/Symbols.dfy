/**
 Encoding symbols as sums of intermediate symbols, and what the constraint rows say about them:
 sections 5.3.5.3 and 5.3.3.4 of RFC 6330 (raptorq/nanorq.c, lines 7-12 and 184-204).
 */
module Symbols {
  import opened GF256
  import opened Tables
  import opened Linear
  import opened SpMat
  import opened Oblas
  import opened Primes
  import opened Scheduling
  import opened Elimination
  import opened Preconditioning
  import opened Hdpc
  import opened Inversion
  import opened Tuples
  import opened Generation

  function Zeros(t: nat): (r: Vec)
    ensures |r| == t && forall k :: 0 <= k < t ==> r[k] == 0
  {
    seq(t, k requires 0 <= k < t => 0)
  }

  /** The sum of the rows of c listed in xs. */
  function Sum(c: Mat, xs: seq<nat>, t: nat): (r: Vec)
    requires Below(xs, |c|) && IsMat(c, |c|, t)
    ensures |r| == t
  {
    if xs == [] then Zeros(t) else Plus(Sum(c, xs[..|xs| - 1], t), c[xs[|xs| - 1]])
  }

  /** The symbol with internal id x, made of the intermediate symbols c. */
  ghost function Symbol(c: Mat, x: nat, pr: Params, rnd: Rnd, t: nat): (r: Vec)
    requires ValidParams(pr) && IsMat(c, |c|, t) && |c| >= pr.l
    ensures |r| == t
  {
    NeighboursDistinct(x, pr, rnd);
    Sum(c, Neighbours(x, pr, rnd), t)
  }

  /** Only the first L rows of a matrix matter. */
  lemma {:induction false} SumPrefix(c: Mat, xs: seq<nat>, t: nat, l: nat)
    requires l <= |c| && Below(xs, l) && IsMat(c, |c|, t)
    ensures Sum(c[..l], xs, t) == Sum(c, xs, t)
  {
    if xs != [] {
      SumPrefix(c, xs[..|xs| - 1], t, l);
    }
  }

  // ---------- sums and 0/1 rows ----------

  /** Setting entry x of a row from 0 to 1 adds row x of c. */
  lemma {:induction false} DotSet(a: Vec, b: Vec, c: Mat, k: nat, n: nat, x: nat)
    requires n <= |a| == |b| && n <= |c| && forall j :: 0 <= j < n ==> k < |c[j]|
    requires x < |a| && a[x] == 0 && b == a[x := 1]
    ensures Dot(b, c, k, n) == if x < n then Add(Dot(a, c, k, n), c[x][k]) else Dot(a, c, k, n)
    decreases n
  {
    hide Add, Mul;
    if n != 0 {
      DotSet(a, b, c, k, n - 1, x);
      var v := c[n - 1][k];
      if x == n - 1 {
        MulZero(v);
        MulOneLeft(v);
        AddZero(Dot(a, c, k, n - 1));
      } else if x < n - 1 {
        var d, w := Dot(a, c, k, n - 1), Mul(a[n - 1], v);
        AddAssoc(d, c[x][k], w);
        AddComm(c[x][k], w);
        AddAssoc(d, w, c[x][k]);
      }
    }
  }

  lemma {:induction false} DotZeros(a: Vec, c: Mat, k: nat, n: nat)
    requires n <= |a| && n <= |c| && forall j :: 0 <= j < n ==> k < |c[j]|
    requires forall j :: 0 <= j < n ==> a[j] == 0
    ensures Dot(a, c, k, n) == 0
    decreases n
  {
    hide Add, Mul;
    if n != 0 {
      DotZeros(a, c, k, n - 1);
      MulZero(c[n - 1][k]);
      AddZero(0);
    }
  }

  /** A sum of distinct rows is the 0/1 combination with ones at those rows. */
  lemma {:induction false} SumIsDot(c: Mat, xs: seq<nat>, t: nat, k: nat)
    requires Below(xs, |c|) && NoDup(xs) && IsMat(c, |c|, t) && k < t
    ensures Sum(c, xs, t)[k] == Dot(Indicator(xs, |c|), c, k, |c|)
    decreases |xs|
  {
    hide Add, Mul, Dot;
    if xs == [] {
      DotZeros(Indicator(xs, |c|), c, k, |c|);
    } else {
      var init, x := xs[..|xs| - 1], xs[|xs| - 1];
      SumIsDot(c, init, t, k);
      assert x !in init && forall j :: j in xs <==> j in init || j == x;
      assert Indicator(xs, |c|) == Indicator(init, |c|)[x := 1];
      DotSet(Indicator(init, |c|), Indicator(xs, |c|), c, k, |c|, x);
    }
  }

  // ---------- what the constraint rows say ----------

  /** Row r < S + H of the constraint matrix: an LDPC relation or a dense relation. */
  ghost function Relation(pr: Params, rnd: Rnd, r: nat): (v: Vec)
    requires ValidParams(pr) && r < pr.s + pr.h
    ensures |v| == pr.l
  {
    SomeParams(pr);
    if r < pr.s then seq(pr.l, x requires 0 <= x < pr.l => if LdpcEntry(pr, r, x) then 1 else 0)
    else DenseRow(HdpcMatrix(rnd, pr.h, pr.l - pr.h)[r - pr.s], pr, r - pr.s)
  }

  /** The pre-coding relationships among intermediate symbols, section 5.3.3.3 of RFC 6330. */
  ghost predicate Precoded(pr: Params, rnd: Rnd, c: Mat, t: nat)
    requires ValidParams(pr)
  {
    && IsMat(c, pr.l, t)
    && forall r, k :: 0 <= r < pr.s + pr.h && 0 <= k < t ==> Dot(Relation(pr, rnd, r), c, k, pr.l) == 0
  }

  lemma RelationRow(a: Lists, pr: Params, rnd: Rnd, r: nat)
    requires ValidParams(pr) && pr.s > 0 && pr.p > 0 && Relations(a, pr) && r < pr.s + pr.h
    ensures SolverParams(pr) && Constraints(a, pr, rnd)[r] == Relation(pr, rnd, r)
  {
    hide LdpcEntry, HdpcMatrix, LeastPrime, Prime;
    SomeParams(pr);
    if r < pr.s {
      forall x | 0 <= x < pr.l ensures Constraints(a, pr, rnd)[r][x] == Relation(pr, rnd, r)[x] {}
    }
  }

  /** Half relation h in full: its H + L entries of the product, and half symbol h itself. */
  lemma HalfTerms(pr: Params, rnd: Rnd, h: nat, x: nat)
    requires ValidParams(pr) && h < pr.h && x < pr.l
    ensures pr.h >= 2 && pr.l == pr.kprime + pr.s + pr.h
    ensures Relation(pr, rnd, pr.s + h)[x] ==
      if x < pr.kprime + pr.s then HdpcMatrix(rnd, pr.h, pr.kprime + pr.s)[h][x]
      else if x == pr.kprime + pr.s + h then 1 else 0
  {
    hide HdpcMatrix, LdpcEntry;
    SomeParams(pr);
  }

  lemma SymbolRow(a: Lists, pr: Params, rnd: Rnd, ids: seq<nat>, i: nat, c: Mat, t: nat, k: nat)
    requires ValidParams(pr) && SymbolRows(a, pr, rnd, ids) && i < |ids| && IsMat(c, pr.l, t) && k < t
    ensures SolverParams(pr)
    ensures Dot(Constraints(a, pr, rnd)[pr.s + pr.h + i], c, k, pr.l) == Symbol(c, ids[i], pr, rnd, t)[k]
  {
    hide HdpcMatrix, LeastPrime, Prime, Dot, Sum, Neighbours;
    var xs := Neighbours(ids[i], pr, rnd);
    NeighboursDistinct(ids[i], pr, rnd);
    assert a[pr.s + pr.h + i] == xs;
    SumIsDot(c, xs, t, k);
  }

  /** The right-hand side of a system of received symbols: zeros for the relations, then the symbols. */
  ghost predicate Holds(d: Mat, pr: Params, t: nat, symbols: seq<Vec>) {
    && |d| == pr.s + pr.h + |symbols|
    && (forall r :: 0 <= r < pr.s + pr.h ==> d[r] == Zeros(t))
    && (forall i :: 0 <= i < |symbols| ==> d[pr.s + pr.h + i] == symbols[i] && |symbols[i]| == t)
  }

  /** All constraint rows belong to a relation or to a symbol. */
  ghost predicate Encodes(a: Lists, pr: Params, rnd: Rnd, ids: seq<nat>)
    requires ValidParams(pr)
  {
    pr.s > 0 && pr.p > 0 && Relations(a, pr) && SymbolRows(a, pr, rnd, ids) && |a| == pr.s + pr.h + |ids|
  }

  ghost function SystemRow(pr: Params, rnd: Rnd, ids: seq<nat>, r: nat): (v: Vec)
    requires ValidParams(pr) && r < pr.s + pr.h + |ids|
    ensures |v| == pr.l
  {
    if r < pr.s + pr.h then Relation(pr, rnd, r) else Indicator(Neighbours(ids[r - pr.s - pr.h], pr, rnd), pr.l)
  }

  /** The constraint matrix for the symbols with the given ids, section 5.4.2.1 of RFC 6330. */
  ghost function SystemMatrix(pr: Params, rnd: Rnd, ids: seq<nat>): (m: Mat)
    requires ValidParams(pr)
    ensures IsMat(m, pr.s + pr.h + |ids|, pr.l)
  {
    hide Relation, Neighbours, ValidParams;
    seq(pr.s + pr.h + |ids|, r requires 0 <= r < pr.s + pr.h + |ids| => SystemRow(pr, rnd, ids, r))
  }

  lemma EncodesSystem(a: Lists, pr: Params, rnd: Rnd, ids: seq<nat>)
    requires ValidParams(pr) && Encodes(a, pr, rnd, ids)
    ensures SolverParams(pr) && Constraints(a, pr, rnd) == SystemMatrix(pr, rnd, ids)
  {
    hide Relation, Relations, ValidParams, Neighbours, HdpcMatrix;
    SomeParams(pr);
    var m, top := Constraints(a, pr, rnd), pr.s + pr.h;
    forall r | 0 <= r < |a| ensures m[r] == SystemMatrix(pr, rnd, ids)[r] {
      if r < top {
        RelationRow(a, pr, rnd, r);
      } else {
        var i := r - top;
        assert a[pr.s + pr.h + i] == Neighbours(ids[i], pr, rnd);
      }
    }
  }

  /** Intermediate symbols solve the system exactly if they obey the relations and make up each symbol. */
  lemma SystemMeaning(a: Lists, pr: Params, rnd: Rnd, ids: seq<nat>, d: Mat, c: Mat, t: nat, symbols: seq<Vec>)
    requires ValidParams(pr) && Encodes(a, pr, rnd, ids) && |symbols| == |ids|
    requires Holds(d, pr, t, symbols) && IsMat(c, pr.l, t)
    ensures SolverParams(pr) && IsMat(d, |a|, t)
    ensures Solves(Constraints(a, pr, rnd), d, c, t) <==>
      Precoded(pr, rnd, c, t) && forall i :: 0 <= i < |ids| ==> Symbol(c, ids[i], pr, rnd, t) == symbols[i]
  {
    hide Dot, Symbol, Relation, Relations, SymbolRows, Constraints, ValidParams;
    SomeParams(pr);
    var m, top := Constraints(a, pr, rnd), pr.s + pr.h;
    assert IsMat(d, |a|, t) by { HoldsShape(d, pr, t, symbols); }
    forall r | 0 <= r < top ensures m[r] == Relation(pr, rnd, r) {
      RelationRow(a, pr, rnd, r);
    }
    forall i, k | 0 <= i < |ids| && 0 <= k < t
      ensures Dot(m[top + i], c, k, pr.l) == Symbol(c, ids[i], pr, rnd, t)[k]
    {
      SymbolRow(a, pr, rnd, ids, i, c, t, k);
    }
    if Solves(m, d, c, t) {
      MeaningOf(m, pr, rnd, ids, d, c, t, symbols);
    }
    if Precoded(pr, rnd, c, t) && forall i :: 0 <= i < |ids| ==> Symbol(c, ids[i], pr, rnd, t) == symbols[i] {
      forall r, k | 0 <= r < |m| && 0 <= k < t ensures d[r][k] == Dot(m[r], c, k, |c|) {
        if r >= top {
          var i := r - top;
          assert m[top + i] == m[r] && d[top + i] == symbols[i];
          assert Symbol(c, ids[i], pr, rnd, t) == symbols[i];
        }
      }
    }
  }

  lemma HoldsShape(d: Mat, pr: Params, t: nat, symbols: seq<Vec>)
    requires Holds(d, pr, t, symbols)
    ensures IsMat(d, pr.s + pr.h + |symbols|, t)
  {
    forall r | 0 <= r < |d| ensures |d[r]| == t {
      if r >= pr.s + pr.h {
        var i := r - pr.s - pr.h;
        assert d[pr.s + pr.h + i] == symbols[i];
      }
    }
  }

  lemma MeaningOf(m: Mat, pr: Params, rnd: Rnd, ids: seq<nat>, d: Mat, c: Mat, t: nat, symbols: seq<Vec>)
    requires ValidParams(pr) && IsMat(c, pr.l, t) && IsMat(m, pr.s + pr.h + |ids|, pr.l) && |symbols| == |ids|
    requires Holds(d, pr, t, symbols) && IsMat(d, |m|, t) && Solves(m, d, c, t)
    requires forall r :: 0 <= r < pr.s + pr.h ==> m[r] == Relation(pr, rnd, r)
    requires forall i, k :: 0 <= i < |ids| && 0 <= k < t ==>
      Dot(m[pr.s + pr.h + i], c, k, pr.l) == Symbol(c, ids[i], pr, rnd, t)[k]
    ensures Precoded(pr, rnd, c, t)
    ensures forall i :: 0 <= i < |ids| ==> Symbol(c, ids[i], pr, rnd, t) == symbols[i]
  {
    hide Dot, Symbol, Relation, ValidParams;
    var top := pr.s + pr.h;
    forall r, k | 0 <= r < top && 0 <= k < t ensures Dot(Relation(pr, rnd, r), c, k, pr.l) == 0 {
      assert d[r][k] == Dot(m[r], c, k, |c|) && d[r] == Zeros(t);
    }
    forall i | 0 <= i < |ids| ensures Symbol(c, ids[i], pr, rnd, t) == symbols[i] {
      assert d[top + i] == symbols[i];
      forall k | 0 <= k < t ensures Symbol(c, ids[i], pr, rnd, t)[k] == symbols[i][k] {
        assert d[top + i][k] == Dot(m[top + i], c, k, |c|);
      }
    }
  }

  // ---------- computing a symbol ----------

  /** Adds row w of d to a buffer. */
  method ApplyRow(d: array2<Octet>, w: nat, a: array<Octet>)
    requires w < d.Length0 && a.Length == d.Length1 && (a as object) != (d as object)
    modifies a
    ensures a[..] == Plus(old(a[..]), RowsOf(d)[w])
  {
    hide Add;
    ghost var before := a[..];
    for i := 0 to a.Length
      invariant forall k :: 0 <= k < a.Length ==> a[k] == if k < i then Add(before[k], d[w, k]) else before[k]
    {
      a[i] := Add(a[i], d[w, i]);
    }
  }

  lemma SumPush(c: Mat, xs: seq<nat>, x: nat, t: nat)
    requires Below(xs, |c|) && x < |c| && IsMat(c, |c|, t)
    ensures Below(xs + [x], |c|) && Sum(c, xs + [x], t) == Plus(Sum(c, xs, t), c[x])
  {
    assert (xs + [x])[..|xs|] == xs;
  }

  /** The LT part of decode_row: the rows of the walk around W places. */
  method ApplyLt(t: Tuple, w: nat, d: array2<Octet>, ptr: array<Octet>)
    requires 0 < w <= d.Length0 && t.b < w && t.d >= 1
    requires ptr.Length == d.Length1 && (ptr as object) != (d as object) && ptr[..] == Zeros(d.Length1)
    modifies ptr
    ensures Below(LtIdxs(t, w), d.Length0) && ptr[..] == Sum(RowsOf(d), LtIdxs(t, w), d.Length1)
  {
    hide Sum, Plus, RowsOf, Stop;
    ghost var m, n := RowsOf(d), d.Length1;
    var b := t.b;
    assert Sum(m, [], n) == Zeros(n) by { SumNothing(m, n); }
    SumPush(m, [], b, n);
    StopStart(b, t.a, w);
    assert Walk(t.b, t.a, w, 1) == [] + [b];
    ApplyRow(d, b, ptr);
    for j := 1 to t.d
      invariant b == Stop(t.b, t.a, w, j - 1) && RowsOf(d) == m
      invariant Below(Walk(t.b, t.a, w, j), |m|) && ptr[..] == Sum(m, Walk(t.b, t.a, w, j), n)
    {
      StopNext(t.b, t.a, w, j - 1);
      b := (b + t.a) % w;
      SumPush(m, Walk(t.b, t.a, w, j), b, n);
      assert Walk(t.b, t.a, w, j + 1) == Walk(t.b, t.a, w, j) + [b];
      ApplyRow(d, b, ptr);
    }
  }

  lemma SumNothing(c: Mat, t: nat)
    requires IsMat(c, |c|, t)
    ensures Sum(c, [], t) == Zeros(t)
  {}

  /** The PI part of decode_row. */
  method ApplyPi(t: Tuple, p: nat, p1: nat, w: nat, d: array2<Octet>, ptr: array<Octet>, ghost lt: seq<nat>)
    requires Prime(p1) && 0 < t.a1 < p1 && t.b1 < p1 && p <= p1 && 1 <= t.d1 <= p && w + p <= d.Length0
    requires t.d1 <= |Kept(Walk(t.b1, t.a1, p1, p1), p)| && Below(lt, d.Length0)
    requires ptr.Length == d.Length1 && (ptr as object) != (d as object) && ptr[..] == Sum(RowsOf(d), lt, d.Length1)
    modifies ptr
    ensures Below(lt + PiIdxs(t, p, p1, w), d.Length0)
    ensures ptr[..] == Sum(RowsOf(d), lt + PiIdxs(t, p, p1, w), d.Length1)
  {
    hide Prime, Stop, Kept, Walk, PiSoFar, PiIdxs, Sum, Plus, RowsOf;
    ghost var m, n, pos := RowsOf(d), d.Length1, 0;
    var b1;
    b1, pos := FirstPi(t, p, p1, w);
    SumPush(m, lt, w + b1, n);
    ghost var out: seq<nat> := [w + b1];
    ApplyRow(d, w + b1, ptr);
    for j := 1 to t.d1
      invariant PiSoFar(t, p, p1, w, b1, pos, out) && |out| == j && RowsOf(d) == m
      invariant Below(lt + out, |m|) && ptr[..] == Sum(m, lt + out, n)
    {
      b1, pos := NextPi(t, p, p1, w, b1, pos, out);
      assert lt + out + [w + b1] == lt + (out + [w + b1]);
      SumPush(m, lt + out, w + b1, n);
      out := out + [w + b1];
      ApplyRow(d, w + b1, ptr);
    }
    PiFinish(t, p, p1, w, b1, pos, out);
  }

  /** decode_row: the symbol with internal id x, computed from the intermediate symbols in d. */
  method DecodeRow(pr: Params, rnd: Rnd, d: array2<Octet>, x: nat, ptr: array<Octet>)
    requires ValidParams(pr) && pr.l <= d.Length0 && ptr.Length == d.Length1 && (ptr as object) != (d as object)
    modifies ptr
    ensures ptr[..] == Symbol(RowsOf(d), x, pr, rnd, d.Length1)
  {
    hide Prime, Stop, Kept, Seed, DegreeFrom, Sum, RowsOf;
    for i := 0 to ptr.Length
      invariant forall k :: 0 <= k < i ==> ptr[k] == 0
    {
      ptr[i] := 0;
    }
    TupleBounds(x, pr, rnd);
    TupleHits(x, pr, rnd);
    var t := GenTuple(x, pr, rnd);
    ApplyLt(t, pr.w, d, ptr);
    ApplyPi(t, pr.p, pr.p1, pr.w, d, ptr, LtIdxs(t, pr.w));
  }
}
