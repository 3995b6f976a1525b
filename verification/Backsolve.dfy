/**
 Back-substitution: the operations that turn the upper triangular part into the identity and
 clear its columns from the triangular block, scheduled without touching any matrix
 (precode_matrix_backsolve, raptorq/precode.c, lines 317-334).
 */
module BackSubstitution {
  import opened GF256
  import opened Tables
  import opened Linear
  import opened SpMat
  import opened Oblas
  import opened Permutation
  import opened Scheduling
  import opened Preconditioning
  import opened WorkMatrix
  import opened Elimination
  import opened Gauss

  /** Row positions below n are in range. */
  ghost predicate Square(m: Mat, pm: Perms) {
    Fits(m, pm) && |pm.c| <= |pm.d|
  }

  /**
   What back-substitution starts from: positions i .. L are unit upper triangular with the working
   matrix's entries above the diagonal, and rows below i hold their sparse entries from i on.
   */
  ghost predicate BackReady(m: Mat, a: Lists, v: Mat, pm: Perms, i: nat) {
    && Square(m, pm) && i <= |pm.c| && |a| == |v| == |pm.d|
    && (forall k, j :: 0 <= k < i && i <= j < |pm.c| ==> At(m, pm, k, j) == if pm.c[j] in a[pm.d[k]] then 1 else 0)
    && (forall k, j :: i <= k < |pm.c| && 0 <= j < k ==> At(m, pm, k, j) == 0)
    && (forall k :: i <= k < |pm.c| ==> At(m, pm, k, k) == 1)
    && (forall k, j :: i <= k < j < |pm.c| ==> j - i < |v[pm.d[k]]| && At(m, pm, k, j) == v[pm.d[k]][j - i])
  }

  /** Columns above r are unit; column r is cleared in the rows of part and positions i .. del. */
  ghost predicate BackCleared(m0: Mat, m: Mat, pm: Perms, i: nat, r: nat, part: seq<nat>, del: nat) {
    && Square(m0, pm) && Square(m, pm) && i <= r < |pm.c| && del <= r
    && (forall k, j :: 0 <= k < |pm.c| && r < j < |pm.c| ==> At(m, pm, k, j) == if k == j then 1 else 0)
    && (forall k, j :: 0 <= k < |pm.c| && 0 <= j < r ==> At(m, pm, k, j) == At(m0, pm, k, j))
    && (forall k :: 0 <= k < |pm.c| ==>
        At(m, pm, k, r) == if (k < i && pm.d[k] in part) || i <= k < del then 0 else At(m0, pm, k, r))
  }

  /** An addition of the unit row r changes one entry of the square part: column r of the target. */
  lemma AddUnitRow(m0: Mat, m: Mat, a: Lists, v: Mat, pm: Perms, i: nat, r: nat, part: seq<nat>, del: nat, p: nat,
                   beta: Octet)
    requires BackReady(m0, a, v, pm, i) && BackCleared(m0, m, pm, i, r, part, del)
    requires p < r && beta != 0
    ensures ValidOp(Op(pm.d[p], pm.d[r], beta), |m|)
    ensures var m' := ApplyOp(m, Op(pm.d[p], pm.d[r], beta));
      && Square(m', pm)
      && (forall k, j :: 0 <= k < |pm.c| && 0 <= j < |pm.c| && !(k == p && j == r) ==>
          At(m', pm, k, j) == At(m, pm, k, j))
      && At(m', pm, p, r) == Add(At(m, pm, p, r), beta)
  {
    var op := Op(pm.d[p], pm.d[r], beta);
    assert pm.di[pm.d[p]] == p && pm.di[pm.d[r]] == r;
    OpAtPosition(m, pm, op, p);
    hide Add, Mul;
    var m' := ApplyOp(m, op);
    forall k, j | 0 <= k < |pm.c| && 0 <= j < |pm.c|
      ensures At(m', pm, k, j) == if k == p && j == r then Add(At(m, pm, p, r), beta) else At(m, pm, k, j)
    {
      if k == p {
        assert At(m', pm, p, j) == Add(At(m, pm, p, j), Mul(beta, At(m, pm, r, j)));
        assert At(m, pm, r, j) == if j == r then 1 else 0;
        MulZero(beta);
        MulOneRight(beta);
        AddZero(At(m, pm, p, j));
      }
    }
  }

  lemma BackTop(m0: Mat, m: Mat, a: Lists, v: Mat, pm: Perms, i: nat, r: nat, part: seq<nat>, tmp: nat)
    requires BackReady(m0, a, v, pm, i) && BackCleared(m0, m, pm, i, r, part, i)
    requires tmp < |pm.d| && tmp !in part && pm.c[r] in a[tmp]
    ensures pm.di[tmp] < i ==> ValidOp(Op(tmp, pm.d[r], 1), |m|)
    ensures pm.di[tmp] < i ==>
      BackCleared(m0, ApplyOp(m, Op(tmp, pm.d[r], 1)), pm, i, r, part + [tmp], i)
    ensures pm.di[tmp] >= i ==> BackCleared(m0, m, pm, i, r, part + [tmp], i)
  {
    var p := pm.di[tmp];
    assert pm.d[p] == tmp;
    assert forall k :: 0 <= k < |pm.c| && pm.d[k] == tmp ==> k == p by {
      assert forall k :: 0 <= k < |pm.c| ==> pm.di[pm.d[k]] == k;
    }
    if p < i {
      AddUnitRow(m0, m, a, v, pm, i, r, part, i, p, 1);
      assert At(m, pm, p, r) == 1;
      AddSelf(1);
      hide Add, ApplyOp;
    }
  }

  lemma BackLow(m0: Mat, m: Mat, a: Lists, v: Mat, pm: Perms, i: nat, r: nat, part: seq<nat>, del: nat)
    requires BackReady(m0, a, v, pm, i) && BackCleared(m0, m, pm, i, r, part, del) && i <= del < r
    ensures r - i < |v[pm.d[del]]|
    ensures var beta := v[pm.d[del]][r - i];
      && (beta != 0 ==> ValidOp(Op(pm.d[del], pm.d[r], beta), |m|))
      && (beta != 0 ==>
          BackCleared(m0, ApplyOp(m, Op(pm.d[del], pm.d[r], beta)), pm, i, r, part, del + 1))
      && (beta == 0 ==> BackCleared(m0, m, pm, i, r, part, del + 1))
  {
    var beta := v[pm.d[del]][r - i];
    assert At(m, pm, del, r) == beta;
    if beta != 0 {
      AddUnitRow(m0, m, a, v, pm, i, r, part, del, del, beta);
      AddSelf(beta);
      hide Add, ApplyOp;
    }
  }

  /** All columns from r on are unit in the square part, those before r as in m0. */
  ghost predicate BackDone(m0: Mat, m: Mat, pm: Perms, i: nat, r: nat) {
    && Square(m0, pm) && Square(m, pm) && i <= r <= |pm.c|
    && (forall k, j :: 0 <= k < |pm.c| && r <= j < |pm.c| ==> At(m, pm, k, j) == if k == j then 1 else 0)
    && (forall k, j :: 0 <= k < |pm.c| && 0 <= j < r ==> At(m, pm, k, j) == At(m0, pm, k, j))
  }

  lemma BackOpen(m0: Mat, m: Mat, pm: Perms, i: nat, r: nat)
    requires BackDone(m0, m, pm, i, r) && i < r
    ensures BackCleared(m0, m, pm, i, r - 1, [], i)
  {}

  lemma BackClose(m0: Mat, m: Mat, a: Lists, b: Lists, v: Mat, pm: Perms, i: nat, r: nat)
    requires BackReady(m0, a, v, pm, i) && Transposed(a, b) && |b| == |pm.c| && r < |pm.c|
    requires BackCleared(m0, m, pm, i, r, b[pm.c[r]], r)
    ensures BackDone(m0, m, pm, i, r)
  {
    forall k | 0 <= k < |pm.c| ensures At(m, pm, k, r) == if k == r then 1 else 0 {
      assert k < i ==> (pm.d[k] in b[pm.c[r]] <==> pm.c[r] in a[pm.d[k]]);
    }
  }

  /** The operations scheduled so far, run on m0, have cleared column r as BackCleared says. */
  ghost predicate BackState(m0: Mat, ops0: seq<Op>, ops: seq<Op>, pm: Perms, i: nat, r: nat, part: seq<nat>, del: nat) {
    && ops0 <= ops && IsMat(m0, |m0|, |pm.c|) && ValidOps(ops[|ops0|..], |m0|)
    && BackCleared(m0, Run(m0, ops[|ops0|..], |pm.c|), pm, i, r, part, del)
    && UpperTargets(ops[|ops0|..], pm, i)
  }

  /** Operations add rows at positions i .. L into rows further up. */
  ghost predicate UpperTargets(ops: seq<Op>, pm: Perms, i: nat) {
    forall k :: 0 <= k < |ops| ==>
      && ops[k].beta != 0 && ops[k].i < |pm.di| && ops[k].j < |pm.di|
      && pm.di[ops[k].i] < pm.di[ops[k].j] < |pm.c| && i <= pm.di[ops[k].j]
  }

  lemma BackPush(m0: Mat, ops0: seq<Op>, ops: seq<Op>, pm: Perms, i: nat, r: nat, part: seq<nat>, del: nat,
                 op: Op, part': seq<nat>, del': nat)
    requires BackState(m0, ops0, ops, pm, i, r, part, del)
    requires ValidOp(op, |m0|) && op.beta != 0
    requires BackCleared(m0, ApplyOp(Run(m0, ops[|ops0|..], |pm.c|), op), pm, i, r, part', del')
    requires op.i < |pm.di| && op.j < |pm.di| && pm.di[op.i] < pm.di[op.j] < |pm.c| && i <= pm.di[op.j]
    ensures BackState(m0, ops0, ops + [op], pm, i, r, part', del')
  {
    hide Run, BackCleared, ApplyOp;
    RunPush(m0, ops[|ops0|..], op, |pm.c|);
    assert (ops + [op])[|ops0|..] == ops[|ops0|..] + [op];
  }

  lemma BackStateTop(m0: Mat, ops0: seq<Op>, ops: seq<Op>, a: Lists, v: Mat, pm: Perms, i: nat, r: nat, part: seq<nat>,
                     tmp: nat)
    requires BackReady(m0, a, v, pm, i) && BackState(m0, ops0, ops, pm, i, r, part, i)
    requires tmp < |pm.d| && tmp < |a| && tmp !in part && r < |pm.c| && pm.c[r] in a[tmp] && tmp < |pm.di|
    requires r < |pm.d|
    ensures pm.di[tmp] < i ==> BackState(m0, ops0, ops + [Op(tmp, pm.d[r], 1)], pm, i, r, part + [tmp], i)
    ensures pm.di[tmp] >= i ==> BackState(m0, ops0, ops, pm, i, r, part + [tmp], i)
  {
    hide Run, ApplyOp;
    BackTop(m0, Run(m0, ops[|ops0|..], |pm.c|), a, v, pm, i, r, part, tmp);
    if pm.di[tmp] < i {
      assert pm.di[pm.d[r]] == r;
      BackPush(m0, ops0, ops, pm, i, r, part, i, Op(tmp, pm.d[r], 1), part + [tmp], i);
    }
  }

  lemma BackStateLow(m0: Mat, ops0: seq<Op>, ops: seq<Op>, a: Lists, v: Mat, pm: Perms, i: nat, r: nat, part: seq<nat>,
                     del: nat)
    requires BackReady(m0, a, v, pm, i) && BackState(m0, ops0, ops, pm, i, r, part, del) && i <= del < r
    ensures del < |pm.d| && r < |pm.d| && pm.d[del] < |v| && r - i < |v[pm.d[del]]|
    ensures var beta := v[pm.d[del]][r - i];
      && (beta != 0 ==> BackState(m0, ops0, ops + [Op(pm.d[del], pm.d[r], beta)], pm, i, r, part, del + 1))
      && (beta == 0 ==> BackState(m0, ops0, ops, pm, i, r, part, del + 1))
  {
    hide Run, ApplyOp;
    BackLow(m0, Run(m0, ops[|ops0|..], |pm.c|), a, v, pm, i, r, part, del);
    var beta := v[pm.d[del]][r - i];
    if beta != 0 {
      assert pm.di[pm.d[r]] == r && pm.di[pm.d[del]] == del;
      BackPush(m0, ops0, ops, pm, i, r, part, del, Op(pm.d[del], pm.d[r], beta), part, del + 1);
    }
  }

  /** Clears one column from the rows above it. */
  method BackColumn(u: WrkMat, s: Schedule, at: Sparse, row: nat, ghost m0: Mat, ghost ops0: seq<Op>, ghost a: Lists)
    requires u.Valid() && u.rows == |a| && s.Distinct(|a|, at.idxs.Length) && s.i + u.cols == s.c.Length
    requires Transposed(a, at.idxs[..]) && BackReady(m0, a, u.View(), s.Pm(), s.i) && s.i <= row < s.c.Length
    requires BackState(m0, ops0, s.ops, s.Pm(), s.i, row, [], s.i)
    modifies s`ops
    ensures BackState(m0, ops0, s.ops, s.Pm(), s.i, row, at.idxs[s.c[row]], row)
  {
    hide Run, BackState, BackReady, Transposed, BackCleared, WrkMat.View;
    ghost var pm, v, b := s.Pm(), u.View(), at.idxs[..];
    BackFacts(m0, a, v, pm, s.i);
    var cs := at.idxs[s.c[row]];
    ColumnList(a, b, pm.c[row]);
    assert cs[..0] == [];
    for it := 0 to |cs|
      invariant BackState(m0, ops0, s.ops, pm, s.i, row, cs[..it], s.i)
    {
      var del := s.di[cs[it]];
      assert cs[..it + 1] == cs[..it] + [cs[it]];
      BackStateTop(m0, ops0, s.ops, a, v, pm, s.i, row, cs[..it], cs[it]);
      if del < s.i {
        s.Push(s.d[del], s.d[row], 1);
      }
    }
    assert cs[..|cs|] == cs;
    for del := s.i to row
      invariant BackState(m0, ops0, s.ops, pm, s.i, row, cs, del)
    {
      BackStateLow(m0, ops0, s.ops, a, v, pm, s.i, row, cs, del);
      var beta := u.At(s.d[del], row - s.i);
      if beta != 0 {
        s.Push(s.d[del], s.d[row], beta);
      }
    }
  }

  lemma BackFacts(m0: Mat, a: Lists, v: Mat, pm: Perms, i: nat)
    requires BackReady(m0, a, v, pm, i)
    ensures pm.Valid(|pm.d|, |pm.c|) && |pm.c| <= |pm.d| == |a| == |v| && i <= |pm.c|
  {}

  ghost predicate BackSolved(m0: Mat, ops0: seq<Op>, ops: seq<Op>, pm: Perms, i: nat, r: nat) {
    && ops0 <= ops && IsMat(m0, |m0|, |pm.c|) && ValidOps(ops[|ops0|..], |m0|)
    && BackDone(m0, Run(m0, ops[|ops0|..], |pm.c|), pm, i, r)
    && UpperTargets(ops[|ops0|..], pm, i)
  }

  /** precode_matrix_backsolve. */
  method Backsolve(u: WrkMat, s: Schedule, at: Sparse, ghost m0: Mat, ghost a: Lists)
    requires u.Valid() && u.rows == |a| && s.Distinct(|a|, at.idxs.Length) && s.i + u.cols == s.c.Length
    requires Transposed(a, at.idxs[..]) && BackReady(m0, a, u.View(), s.Pm(), s.i)
    modifies s`ops
    ensures BackSolved(m0, old(s.ops), s.ops, s.Pm(), s.i, s.i)
  {
    hide Run, BackState, BackReady, Transposed, BackCleared, WrkMat.View, BackSolved;
    ghost var ops0, pm, v, b := s.ops, s.Pm(), u.View(), at.idxs[..];
    BackFacts(m0, a, v, pm, s.i);
    BackStart(m0, ops0, a, v, pm, s.i);
    var row := s.c.Length;
    while row > s.i
      invariant s.i <= row <= s.c.Length
      invariant BackSolved(m0, ops0, s.ops, pm, s.i, row)
      decreases row
    {
      row := row - 1;
      BackStateOpen(m0, ops0, s.ops, pm, s.i, row + 1);
      BackColumn(u, s, at, row, m0, ops0, a);
      BackStateClose(m0, ops0, s.ops, a, b, v, pm, s.i, row);
    }
  }

  lemma BackStart(m0: Mat, ops0: seq<Op>, a: Lists, v: Mat, pm: Perms, i: nat)
    requires BackReady(m0, a, v, pm, i)
    ensures BackSolved(m0, ops0, ops0, pm, i, |pm.c|)
  {
    assert ops0[|ops0|..] == [];
    assert Run(m0, [], |pm.c|) == m0;
  }

  lemma BackStateOpen(m0: Mat, ops0: seq<Op>, ops: seq<Op>, pm: Perms, i: nat, r: nat)
    requires BackSolved(m0, ops0, ops, pm, i, r) && i < r
    ensures BackState(m0, ops0, ops, pm, i, r - 1, [], i)
  {
    hide Run;
    BackOpen(m0, Run(m0, ops[|ops0|..], |pm.c|), pm, i, r);
  }

  lemma BackStateClose(m0: Mat, ops0: seq<Op>, ops: seq<Op>, a: Lists, b: Lists, v: Mat, pm: Perms, i: nat, r: nat)
    requires BackReady(m0, a, v, pm, i) && Transposed(a, b) && |b| == |pm.c| && r < |pm.c| && pm.c[r] < |b|
    requires BackState(m0, ops0, ops, pm, i, r, b[pm.c[r]], r)
    ensures BackSolved(m0, ops0, ops, pm, i, r)
  {
    hide Run;
    BackClose(m0, Run(m0, ops[|ops0|..], |pm.c|), a, b, v, pm, i, r);
  }
}
