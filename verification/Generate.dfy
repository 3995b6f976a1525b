/**
 The sparse constraint rows: the LDPC relations and one LT row per symbol, section 5.3.3.3 of
 RFC 6330 (raptorq/precode.c, lines 34-58 and 85-97).
 */
module Generation {
  import opened SpMat
  import opened Primes
  import opened Scheduling
  import opened Preconditioning
  import opened Hdpc
  import opened Tuples

  // ---------- the LDPC relations ----------

  /** The k-th LDPC row that intermediate symbol x is added to: steps of 1 + x/S around S places. */
  function Ldpc(x: nat, s: nat, k: nat): (r: nat)
    requires s > 0
    ensures r < s
  {
    if k == 0 then x % s else (Ldpc(x, s, k - 1) + x / s + 1) % s
  }

  /** Symbol x < B takes part in LDPC relation r. */
  predicate InLdpc(x: nat, r: nat, s: nat)
    requires s > 0
  {
    r == Ldpc(x, s, 0) || r == Ldpc(x, s, 1) || r == Ldpc(x, s, 2)
  }

  /** Row r < S of the matrix of section 5.3.3.3 of RFC 6330 has a one in column x. */
  predicate LdpcEntry(pr: Params, r: nat, x: nat)
    requires pr.s > 0 && pr.p > 0
  {
    (x < pr.b && InLdpc(x, r, pr.s)) || x == pr.b + r || x == pr.w + r % pr.p || x == pr.w + (r + 1) % pr.p
  }

  lemma {:induction false} LdpcStop(x: nat, s: nat, k: nat)
    requires s > 0
    ensures Ldpc(x, s, k) == Stop(x, x / s + 1, s, k)
  {
    if k == 0 {
      assert x + 0 * (x / s + 1) == x;
    } else {
      LdpcStop(x, s, k - 1);
      StopNext(x, x / s + 1, s, k - 1);
    }
  }

  /**
   The terms of LDPC relation r in full: symbol x below B if r is one of the three places x, x + a and x + 2 a around
   S, where a is 1 + x / S; symbol B + r; and two neighbouring places of the last P.
   */
  lemma LdpcTerms(pr: Params, r: nat, x: nat)
    requires ValidParams(pr) && r < pr.s
    ensures pr.s > 0 && pr.p > 0
    ensures var a := 1 + x / pr.s;
      LdpcEntry(pr, r, x) <==>
      || (x < pr.b && (r == x % pr.s || r == (x + a) % pr.s || r == (x + 2 * a) % pr.s))
      || x == pr.b + r || x == pr.w + r % pr.p || x == pr.w + (r + 1) % pr.p
  {
    LdpcStop(x, pr.s, 0);
    LdpcStop(x, pr.s, 1);
    LdpcStop(x, pr.s, 2);
    hide Ldpc;
    assert x + 0 * (x / pr.s + 1) == x;
  }

  /** Each column below B goes to three different LDPC rows. */
  lemma LdpcDistinct(x: nat, s: nat, b: nat)
    requires Prime(s) && s >= 3 && x < b && b / s + 1 < s
    ensures Ldpc(x, s, 0) != Ldpc(x, s, 1)
    ensures Ldpc(x, s, 0) != Ldpc(x, s, 2)
    ensures Ldpc(x, s, 1) != Ldpc(x, s, 2)
  {
    hide Prime, Ldpc, Stop;
    LdpcStop(x, s, 0);
    LdpcStop(x, s, 1);
    LdpcStop(x, s, 2);
    QuotientMonotone(x, b, s);
    StopsDistinct(x, x / s + 1, s, 0, 1);
    StopsDistinct(x, x / s + 1, s, 0, 2);
    StopsDistinct(x, x / s + 1, s, 1, 2);
  }

  lemma QuotientMonotone(x: nat, y: nat, s: nat)
    requires s > 0 && x <= y
    ensures x / s <= y / s
  {
    var q, p := x / s, y / s;
    if q > p {
      TimesAtLeast(q - p, s);
    }
  }

  /** The first LDPC block, up to column col. */
  ghost predicate LdpcColumns(a: Lists, s: nat, col: nat)
    requires s > 0
  {
    && (forall r :: 0 <= r < |a| ==> NoDup(a[r]) && Below(a[r], col))
    && (forall r :: s <= r < |a| ==> a[r] == [])
    && (forall r, x: nat :: 0 <= r < |a| && r < s && x < col ==> (x in a[r] <==> InLdpc(x, r, s)))
  }

  function AddTo(a: Lists, r: nat, x: nat): (b: Lists)
    requires r < |a|
    ensures |b| == |a|
  {
    a[r := a[r] + [x]]
  }

  lemma LdpcColumn(a: Lists, s: nat, col: nat, b1: nat, b2: nat, b3: nat)
    requires 0 < s <= |a| && LdpcColumns(a, s, col) && b1 < s && b2 < s && b3 < s
    requires b1 != b2 && b1 != b3 && b2 != b3
    requires forall r: nat :: InLdpc(col, r, s) <==> r == b1 || r == b2 || r == b3
    ensures LdpcColumns(AddTo(AddTo(AddTo(a, b1, col), b2, col), b3, col), s, col + 1)
  {
    hide InLdpc;
    var a' := AddTo(AddTo(AddTo(a, b1, col), b2, col), b3, col);
    assert forall r :: 0 <= r < |a| ==> a'[r] == if r == b1 || r == b2 || r == b3 then a[r] + [col] else a[r];
    assert forall r :: 0 <= r < |a| ==> col !in a[r];
  }

  /** The rows the source computes for a column are those of the standard. */
  lemma LdpcRows(col: nat, s: nat)
    requires s > 0
    ensures col % s == Ldpc(col, s, 0) && (col + col / s + 1) % s == Ldpc(col, s, 1)
    ensures (col + 2 * (col / s + 1)) % s == Ldpc(col, s, 2)
  {
    LdpcStop(col, s, 1);
    LdpcStop(col, s, 2);
    assert col + 1 * (col / s + 1) == col + col / s + 1;
  }

  /** precode_matrix_make_LDPC1. */
  method MakeLDPC1(a: Sparse, s: nat, b: nat)
    requires Prime(s) && s >= 3 && b / s + 1 < s && s <= a.idxs.Length
    requires forall r :: 0 <= r < a.idxs.Length ==> a.idxs[r] == []
    modifies a.idxs
    ensures LdpcColumns(a.idxs[..], s, b)
  {
    hide Prime, LdpcColumns, Ldpc;
    assert LdpcColumns(a.idxs[..], s, 0) by { NoColumns(a.idxs[..], s); }
    for col := 0 to b
      invariant LdpcColumns(a.idxs[..], s, col)
    {
      ghost var before := a.idxs[..];
      var submtx := col / s;
      var b1 := col % s;
      var b2 := (col + submtx + 1) % s;
      var b3 := (col + 2 * (submtx + 1)) % s;
      LdpcRows(col, s);
      LdpcDistinct(col, s, b);
      LdpcColumn(before, s, col, b1, b2, b3);
      a.Push(b1, col);
      a.Push(b2, col);
      a.Push(b3, col);
    }
  }

  lemma NoColumns(a: Lists, s: nat)
    requires s > 0 && forall r :: 0 <= r < |a| ==> a[r] == []
    ensures LdpcColumns(a, s, 0)
  {}

  /** Row m + k has one entry more, n + k, for each k < dim. */
  ghost predicate Diagonal(a: Lists, b: Lists, dim: nat, m: nat, n: nat) {
    && |a| == |b|
    && forall r :: 0 <= r < |a| ==> b[r] == if m <= r < m + dim then a[r] + [n + (r - m)] else a[r]
  }

  /** precode_matrix_make_identity. */
  method MakeIdentity(a: Sparse, dim: nat, m: nat, n: nat)
    requires m + dim <= a.idxs.Length
    modifies a.idxs
    ensures Diagonal(old(a.idxs[..]), a.idxs[..], dim, m, n)
  {
    for diag := 0 to dim
      invariant Diagonal(old(a.idxs[..]), a.idxs[..], diag, m, n)
    {
      a.Push(m + diag, n + diag);
    }
  }

  /** The first n rows have two entries more, in neighbouring columns of a circle of p from w on. */
  ghost predicate PiPairs(a: Lists, b: Lists, n: nat, w: nat, p: nat)
    requires p > 0
  {
    && |a| == |b|
    && forall r :: 0 <= r < |a| ==> b[r] == if r < n then a[r] + [w + r % p, w + (r + 1) % p] else a[r]
  }

  /** precode_matrix_make_LDPC2. */
  method MakeLDPC2(a: Sparse, w: nat, s: nat, p: nat)
    requires p > 0 && s <= a.idxs.Length
    modifies a.idxs
    ensures PiPairs(old(a.idxs[..]), a.idxs[..], s, w, p)
  {
    for idx := 0 to s
      invariant PiPairs(old(a.idxs[..]), a.idxs[..], idx, w, p)
    {
      var b1, b2 := idx % p, (idx + 1) % p;
      a.Push(idx, w + b1);
      a.Push(idx, w + b2);
    }
  }

  // ---------- all constraint rows ----------

  /** The rows above the LT rows: the LDPC relations, and empty lists where the dense rows go. */
  ghost predicate Relations(a: Lists, pr: Params)
    requires pr.s > 0 && pr.p > 0
  {
    && pr.s + pr.h <= |a| && DenseRowsEmpty(a, pr)
    && (forall r :: 0 <= r < pr.s ==> NoDup(a[r]) && Below(a[r], pr.l))
    && (forall r, x: nat :: 0 <= r < pr.s ==> (x in a[r] <==> LdpcEntry(pr, r, x)))
  }

  /** Row S + H + k lists the intermediate symbols of internal symbol ids[k]. */
  ghost predicate SymbolRows(a: Lists, pr: Params, rnd: Rnd, ids: seq<nat>)
    requires ValidParams(pr)
  {
    && pr.s + pr.h + |ids| <= |a|
    && forall k :: 0 <= k < |ids| ==> a[pr.s + pr.h + k] == Neighbours(ids[k], pr, rnd)
  }

  function Range(n: nat): (r: seq<nat>)
    ensures |r| == n && forall k :: 0 <= k < n ==> r[k] == k
  {
    seq(n, k requires 0 <= k < n => k)
  }

  lemma SecondLdpc(r: nat, p: nat)
    requires p >= 2
    ensures r % p != (r + 1) % p
  {
    var q := r / p;
    if r % p + 1 < p {
      DivModUnique(r + 1, p, q, r % p + 1);
    } else {
      assert r + 1 == (q + 1) * p + 0 by { assert (q + 1) * p == q * p + p; }
      DivModUnique(r + 1, p, q + 1, 0);
    }
  }

  lemma LdpcRow(xs: seq<nat>, pr: Params, r: nat)
    requires ValidParams(pr) && r < pr.s && NoDup(xs) && Below(xs, pr.b)
    requires forall x: nat :: x < pr.b ==> (x in xs <==> InLdpc(x, r, pr.s))
    ensures var ys := xs + [pr.b + r] + [pr.w + r % pr.p, pr.w + (r + 1) % pr.p];
      NoDup(ys) && Below(ys, pr.l) && forall x: nat :: x in ys <==> LdpcEntry(pr, r, x)
  {
    hide InLdpc, LeastPrime, Prime;
    SecondLdpc(r, pr.p);
    var u, v := pr.w + r % pr.p, pr.w + (r + 1) % pr.p;
    var ys := xs + [pr.b + r] + [u, v];
    assert u < pr.l && v < pr.l && u != v && pr.b + r < pr.w;
    assert ys == xs + [pr.b + r, u, v];
  }

  lemma RelationsHold(a1: Lists, a2: Lists, a3: Lists, pr: Params)
    requires ValidParams(pr) && pr.s + pr.h <= |a1| && LdpcColumns(a1, pr.s, pr.b)
    requires Diagonal(a1, a2, pr.s, 0, pr.b) && pr.p > 0 && PiPairs(a2, a3, pr.s, pr.w, pr.p)
    ensures Relations(a3, pr)
    ensures forall r :: pr.s + pr.h <= r < |a3| ==> a3[r] == []
  {
    hide ValidParams;
    assert pr.s > 0 && pr.p > 0 by { SomeParams(pr); }
    forall r | 0 <= r < pr.s
      ensures NoDup(a3[r]) && Below(a3[r], pr.l) && forall x: nat :: x in a3[r] <==> LdpcEntry(pr, r, x)
    {
      LdpcRow(a1[r], pr, r);
      assert a3[r] == a1[r] + [pr.b + r] + [pr.w + r % pr.p, pr.w + (r + 1) % pr.p];
    }
  }

  lemma SomeParams(pr: Params)
    requires ValidParams(pr)
    ensures pr.s >= 3 && pr.p >= 3 && pr.s + pr.h <= pr.l && Prime(pr.s) && pr.b / pr.s + 1 < pr.s
    ensures pr.l == pr.s + pr.h + pr.kprime && Sized(pr, pr.l) && pr.h >= 2
  {}

  /** precode_matrix_make_G_ENC. */
  method MakeGEnc(a: Sparse, pr: Params, rnd: Rnd)
    requires ValidParams(pr) && pr.l <= a.idxs.Length
    requires forall r :: pr.s + pr.h <= r < a.idxs.Length ==> a.idxs[r] == []
    modifies a.idxs
    ensures SymbolRows(a.idxs[..], pr, rnd, Range(pr.kprime))
    ensures a.idxs[..pr.s + pr.h] == old(a.idxs[..pr.s + pr.h])
    ensures forall r :: pr.l <= r < a.idxs.Length ==> a.idxs[r] == []
  {
    hide ValidParams, Neighbours;
    SomeParams(pr);
    ghost var top := a.idxs[..pr.s + pr.h];
    for row := pr.s + pr.h to pr.l
      invariant SymbolRows(a.idxs[..], pr, rnd, Range(row - pr.s - pr.h)) && a.idxs[..pr.s + pr.h] == top
      invariant forall r :: row <= r < a.idxs.Length ==> a.idxs[r] == []
    {
      ghost var before := a.idxs[..];
      SetIdxs(row - pr.s - pr.h, pr, rnd, a, row);
      NextSymbolRow(before, a.idxs[..], pr, rnd, row);
    }
  }

  lemma NextSymbolRow(a: Lists, b: Lists, pr: Params, rnd: Rnd, row: nat)
    requires ValidParams(pr) && pr.s + pr.h <= row < |a| && a[row] == []
    requires b == a[row := a[row] + Neighbours(row - pr.s - pr.h, pr, rnd)]
    requires SymbolRows(a, pr, rnd, Range(row - pr.s - pr.h))
    ensures SymbolRows(b, pr, rnd, Range(row - pr.s - pr.h + 1))
    ensures b[..pr.s + pr.h] == a[..pr.s + pr.h] && forall r :: row < r < |a| ==> b[r] == a[r]
  {
    hide ValidParams, Neighbours;
    var n := row - pr.s - pr.h;
    var ids := Range(n + 1);
    forall k | 0 <= k < |ids| ensures b[pr.s + pr.h + k] == Neighbours(ids[k], pr, rnd) {
      if k < n {
        assert a[pr.s + pr.h + k] == Neighbours(Range(n)[k], pr, rnd);
      }
    }
  }

  lemma RelationsKept(a: Lists, b: Lists, pr: Params)
    requires pr.s > 0 && pr.p > 0 && Relations(a, pr) && |a| == |b| && a[..pr.s + pr.h] == b[..pr.s + pr.h]
    ensures Relations(b, pr)
  {
    hide LdpcEntry;
    forall r | 0 <= r < pr.s + pr.h ensures b[r] == a[r] {
      assert b[..pr.s + pr.h][r] == a[..pr.s + pr.h][r];
    }
  }

  /**
   precode_matrix_gen: the constraint matrix of section 5.3.3.3 of RFC 6330, without its dense rows,
   with the symbols 0 .. K'-1 and empty rows for symbols received beyond K'.
   */
  method Generate(pr: Params, rnd: Rnd, overhead: nat) returns (a: Sparse)
    requires ValidParams(pr)
    ensures fresh(a) && fresh(a.idxs) && a.cols == pr.l && a.idxs.Length == pr.l + overhead
    ensures pr.s > 0 && pr.p > 0 && Relations(a.idxs[..], pr) && SymbolRows(a.idxs[..], pr, rnd, Range(pr.kprime))
    ensures forall r :: pr.l <= r < pr.l + overhead ==> a.idxs[r] == []
  {
    hide ValidParams, LdpcColumns, Relations, SymbolRows, Diagonal, PiPairs, Prime;
    SomeParams(pr);
    a := new Sparse(pr.l + overhead, pr.l);
    MakeLDPC1(a, pr.s, pr.b);
    ghost var a1 := a.idxs[..];
    MakeIdentity(a, pr.s, 0, pr.b);
    ghost var a2 := a.idxs[..];
    MakeLDPC2(a, pr.w, pr.s, pr.p);
    ghost var a3 := a.idxs[..];
    RelationsHold(a1, a2, a3, pr);
    MakeGEnc(a, pr, rnd);
    RelationsKept(a3, a.idxs[..], pr);
  }

  /** All rows of the matrix are well formed once every row past the dense ones belongs to a symbol. */
  lemma RowsWellFormed(a: Lists, pr: Params, rnd: Rnd, ids: seq<nat>)
    requires ValidParams(pr) && Relations(a, pr) && SymbolRows(a, pr, rnd, ids) && |a| == pr.s + pr.h + |ids|
    ensures WellFormed(a, pr.l) && DenseRowsEmpty(a, pr)
  {
    hide Neighbours, LdpcEntry, ValidParams;
    assert pr.s > 0 && pr.p > 0 by { SomeParams(pr); }
    forall r | 0 <= r < |a| ensures Below(a[r], pr.l) && NoDup(a[r]) {
      if r >= pr.s + pr.h {
        NeighboursDistinct(ids[r - pr.s - pr.h], pr, rnd);
        assert a[pr.s + pr.h + (r - pr.s - pr.h)] == Neighbours(ids[r - pr.s - pr.h], pr, rnd);
      }
    }
  }
}
