/**
 Clearing the columns of the triangular block: the dense matrix behind the sparse one, the
 agreement between the working matrix and the scheduled operations, and precode_matrix_fwd_GE
 (raptorq/precode.c, lines 205-262).
 */
module Elimination {
  import opened GF256
  import opened Tables
  import opened Linear
  import opened SpMat
  import opened Oblas
  import opened Permutation
  import opened Scheduling
  import opened Preconditioning
  import opened WorkMatrix

  // ---------- the dense matrix ----------

  /** The 0/1 row of a list of columns. */
  function Indicator(xs: seq<nat>, n: nat): (v: Vec)
    ensures |v| == n
  {
    seq(n, j requires 0 <= j < n => if j in xs then 1 else 0)
  }

  /** Dense row x: its GF(256) entries followed by row x of the identity. */
  function DenseRow(h: Vec, pr: Params, x: nat): (v: Vec)
    requires pr.h <= pr.l && |h| == pr.l - pr.h
    ensures |v| == pr.l
  {
    seq(pr.l, j requires 0 <= j < pr.l => if j < pr.l - pr.h then h[j] else if j == pr.l - pr.h + x then 1 else 0)
  }

  /** The constraint matrix: sparse rows as indicators, rows S .. S+H dense. */
  function Full(a: Lists, pr: Params, hdpc: Mat): (m: Mat)
    requires pr.h <= pr.l && |hdpc| == pr.h && forall x :: 0 <= x < pr.h ==> |hdpc[x]| == pr.l - pr.h
    ensures IsMat(m, |a|, pr.l)
  {
    seq(|a|, r requires 0 <= r < |a| => FullRow(a[r], pr, hdpc, r))
  }

  function FullRow(xs: seq<nat>, pr: Params, hdpc: Mat, r: nat): (v: Vec)
    requires pr.h <= pr.l && |hdpc| == pr.h && forall x :: 0 <= x < pr.h ==> |hdpc[x]| == pr.l - pr.h
    ensures |v| == pr.l
  {
    if pr.s <= r < pr.s + pr.h then DenseRow(hdpc[r - pr.s], pr, r - pr.s) else Indicator(xs, pr.l)
  }

  // ---------- working matrix and schedule ----------

  /** Columns from position i on of m, except in rows lo .. hi, are what the working matrix holds. */
  ghost predicate Agree(v: Mat, m: Mat, c: seq<nat>, i: nat, lo: nat, hi: nat) {
    && |v| == |m| && i <= |c|
    && (forall x :: i <= x < |c| ==> c[x] < |c|)
    && (forall r :: 0 <= r < |m| && !(lo <= r < hi) ==> |v[r]| == |c| - i && |m[r]| == |c|)
    && (forall r, x :: 0 <= r < |m| && !(lo <= r < hi) && i <= x < |c| ==> v[r][x - i] == m[r][c[x]])
  }

  lemma AgreeStep(v: Mat, m: Mat, c: seq<nat>, i: nat, lo: nat, hi: nat, op: Op)
    requires Agree(v, m, c, i, lo, hi) && ValidOp(op, |m|) && !(lo <= op.i < hi)
    requires op.beta != 0 ==> !(lo <= op.j < hi)
    ensures Agree(ApplyOp(v, op), ApplyOp(m, op), c, i, lo, hi)
  {
    hide Add, Mul;
    var v', m' := ApplyOp(v, op), ApplyOp(m, op);
    forall r, x | 0 <= r < |m| && !(lo <= r < hi) && i <= x < |c| ensures v'[r][x - i] == m'[r][c[x]] {
      if r == op.i {
        assert v[r][x - i] == m[r][c[x]];
        if op.beta != 0 {
          assert v[op.j][x - i] == m[op.j][c[x]];
        }
      }
    }
  }

  /** The working matrix v agrees with the full matrix after the scheduled operations. */
  ghost predicate Linked(full: Mat, ops: seq<Op>, v: Mat, c: seq<nat>, i: nat, lo: nat, hi: nat) {
    && IsMat(full, |full|, |c|) && ValidOps(ops, |full|)
    && (forall k :: 0 <= k < |ops| ==> !(lo <= ops[k].i < hi) && (ops[k].beta != 0 ==> !(lo <= ops[k].j < hi)))
    && Agree(v, Run(full, ops, |c|), c, i, lo, hi)
  }

  lemma LinkedStep(full: Mat, ops: seq<Op>, v: Mat, c: seq<nat>, i: nat, lo: nat, hi: nat, op: Op)
    requires Linked(full, ops, v, c, i, lo, hi) && ValidOp(op, |full|) && !(lo <= op.i < hi)
    requires op.beta != 0 ==> !(lo <= op.j < hi)
    ensures |v| == |full| && (op.beta != 0 ==> |v[op.i]| == |v[op.j]|)
    ensures Linked(full, ops + [op], ApplyOp(v, op), c, i, lo, hi)
    ensures Run(full, ops + [op], |c|) == ApplyOp(Run(full, ops, |c|), op)
  {
    hide Run, Agree, ApplyOp;
    AgreeSizes(v, Run(full, ops, |c|), c, i, lo, hi, op);
    AgreeStep(v, Run(full, ops, |c|), c, i, lo, hi, op);
    RunPush(full, ops, op, |c|);
  }

  lemma AgreeSizes(v: Mat, m: Mat, c: seq<nat>, i: nat, lo: nat, hi: nat, op: Op)
    requires Agree(v, m, c, i, lo, hi) && ValidOp(op, |m|) && !(lo <= op.i < hi)
    requires op.beta != 0 ==> !(lo <= op.j < hi)
    ensures |v| == |m| && (op.beta != 0 ==> |v[op.i]| == |v[op.j]|)
  {}

  /** The working matrix shares no index vector with the schedule. */
  ghost predicate Apart(u: WrkMat, s: Schedule) {
    u.rowmap != s.c && u.rowmap != s.ci && u.rowmap != s.d && u.rowmap != s.di && u.rowmap != s.nz
  }

  /** One scheduled addition: applied to the working matrix and appended to the schedule. */
  method RowAdd(u: WrkMat, s: Schedule, i: nat, j: nat, beta: Octet, ghost full: Mat, ghost lo: nat, ghost hi: nat)
    returns (ok: bool)
    requires Apart(u, s) && u.Valid() && u.rows == |full| && i < |full| && j < |full| && i != j && beta != 0
    requires !u.typ[i] && !u.typ[j] ==> beta == 1
    requires Linked(full, s.ops, u.View(), s.c[..], s.i, lo, hi) && !(lo <= i < hi) && !(lo <= j < hi)
    modifies u.bits, u.gf256, u.rowmap, u.typ, u`blkidx, s`ops
    ensures ok == !(!old(u.typ[i]) && old(u.typ[j]) && old(u.blkidx) == u.gf256.Length0)
    ensures !ok ==> u.blkidx == u.gf256.Length0
    ensures ok ==> u.blkidx == old(u.blkidx) + if !old(u.typ[i]) && old(u.typ[j]) then 1 else 0
    ensures s.ops == old(s.ops) + [Op(i, j, beta)]
    ensures s.c[..] == old(s.c[..]) && ValidOps(s.ops, |full|)
    ensures Run(full, s.ops, s.c.Length) == ApplyOp(Run(full, old(s.ops), s.c.Length), Op(i, j, beta))
    ensures ok ==> u.Valid() && Linked(full, s.ops, u.View(), s.c[..], s.i, lo, hi)
    ensures ok ==> forall r :: 0 <= r < u.rows ==> u.typ[r] == (old(u.typ[r]) || (r == i && old(u.typ[j])))
  {
    LinkedStep(full, s.ops, u.View(), s.c[..], s.i, lo, hi, Op(i, j, beta));
    LinkedValid(full, s.ops, u.View(), s.c[..], s.i, lo, hi);
    hide Linked, Run, ApplyOp, IsMat;
    ok := u.Axpy(i, j, beta);
    s.Push(i, j, beta);
  }

  lemma LinkedValid(full: Mat, ops: seq<Op>, v: Mat, c: seq<nat>, i: nat, lo: nat, hi: nat)
    requires Linked(full, ops, v, c, i, lo, hi)
    ensures IsMat(full, |full|, |c|) && ValidOps(ops, |full|)
  {}

  // ---------- clearing below the diagonal ----------

  /** Entry of m at row position k and column position j. */
  ghost function At(m: Mat, pm: Perms, k: nat, j: nat): Octet
    requires k < |pm.d| && pm.d[k] < |m| && j < |pm.c| && pm.c[j] < |m[pm.d[k]]|
  {
    m[pm.d[k]][pm.c[j]]
  }

  ghost predicate Fits(m: Mat, pm: Perms) {
    && IsMat(m, |pm.d|, |pm.c|) && pm.Valid(|pm.d|, |pm.c|)
  }

  /** Position h is cleared in column position j by a pass over rows strictly between s and e. */
  predicate Target(s: int, e: nat, j: nat, h: nat) { s < h && j < h && h < e }

  /**
   What a pass needs: the first i positions are unit lower triangular with no entry left of the
   diagonal in rows the pass does not clear, and rows it clears still hold their sparse entries.
   */
  ghost predicate PassReady(m: Mat, a: Lists, pm: Perms, i: nat, s: int, e: nat) {
    && Fits(m, pm) && i <= |pm.c| && i <= |pm.d| && e <= |pm.d| == |a|
    && (forall k, j :: 0 <= k < i && k <= j < i ==> At(m, pm, k, j) == if j == k then 1 else 0)
    && (forall k, j :: 0 <= j < k < i && !Target(s, e, j, k) ==> At(m, pm, k, j) == 0)
    && (forall h, j :: 0 <= j < i && 0 <= h < e && Target(s, e, j, h) ==>
        At(m, pm, h, j) == if pm.c[j] in a[pm.d[h]] then 1 else 0)
  }

  /** Columns before `row`, and column `row` in the rows of `part`, are cleared; the rest is as in m0. */
  ghost predicate Cleared(m0: Mat, m: Mat, pm: Perms, i: nat, s: int, e: nat, row: nat, part: seq<nat>) {
    && Fits(m0, pm) && Fits(m, pm) && i <= |pm.c|
    && (forall h, j :: 0 <= h < |pm.d| && 0 <= j < i ==>
        At(m, pm, h, j)
          == if Target(s, e, j, h) && (j < row || (j == row && pm.d[h] in part)) then 0 else At(m0, pm, h, j))
    && (forall h :: 0 <= h < |pm.d| && (h <= s || h >= e) ==> m[pm.d[h]] == m0[pm.d[h]])
  }

  lemma ClearStep(m0: Mat, m: Mat, a: Lists, pm: Perms, i: nat, s: int, e: nat, row: nat, part: seq<nat>, tmp: nat)
    requires PassReady(m0, a, pm, i, s, e) && Cleared(m0, m, pm, i, s, e, row, part) && row < i
    requires tmp < |pm.d| && tmp !in part && pm.c[row] in a[tmp]
    ensures Target(s, e, row, pm.di[tmp]) ==> tmp != pm.d[row]
    ensures Target(s, e, row, pm.di[tmp]) ==>
      Cleared(m0, ApplyOp(m, Op(tmp, pm.d[row], 1)), pm, i, s, e, row, part + [tmp])
    ensures !Target(s, e, row, pm.di[tmp]) ==> Cleared(m0, m, pm, i, s, e, row, part + [tmp])
  {
    hide Add, Mul;
    if Target(s, e, row, pm.di[tmp]) {
      var m' := ApplyOp(m, Op(tmp, pm.d[row], 1));
      forall h, j | 0 <= h < |pm.d| && 0 <= j < i
        ensures At(m', pm, h, j) ==
          if Target(s, e, j, h) && (j < row || (j == row && pm.d[h] in part + [tmp])) then 0 else At(m0, pm, h, j)
      {
        if pm.d[h] == tmp {
          assert h == pm.di[tmp];
          assert At(m, pm, row, j) == if j == row then 1 else 0;
          MulZero(1);
          MulOneLeft(1);
          AddZero(At(m, pm, h, j));
          AddSelf(1);
        }
      }
    }
  }

  lemma ClearColumn(m0: Mat, m: Mat, a: Lists, b: Lists, pm: Perms, i: nat, s: int, e: nat, row: nat)
    requires PassReady(m0, a, pm, i, s, e) && row < i && Transposed(a, b) && |b| == |pm.c|
    requires Cleared(m0, m, pm, i, s, e, row, b[pm.c[row]])
    ensures Cleared(m0, m, pm, i, s, e, row + 1, [])
  {}

  /**
   Additions of rows at positions below i into rows further down, strictly between s and e, in the
   order of the rows added; each clears an entry that was one in m0.
   */
  ghost predicate Additions(m0: Mat, ops: seq<Op>, pm: Perms, i: nat, s: int, e: nat) {
    && (forall k :: 0 <= k < |ops| ==> Addition(m0, ops[k], pm, i, s, e))
    && (forall x, y :: 0 <= x < y < |ops| ==>
        ops[x].j < |pm.di| && ops[y].j < |pm.di| && pm.di[ops[x].j] <= pm.di[ops[y].j])
  }

  ghost predicate Addition(m0: Mat, op: Op, pm: Perms, i: nat, s: int, e: nat) {
    && op.beta == 1 && op.i < |pm.di| && op.j < |pm.di|
    && pm.di[op.j] < i && s < pm.di[op.i] < e && pm.di[op.j] < pm.di[op.i]
    && pm.di[op.j] < |pm.c| && op.i < |m0| && pm.c[pm.di[op.j]] < |m0[op.i]|
    && m0[op.i][pm.c[pm.di[op.j]]] == 1
  }

  /** The rows added so far are at positions up to `row`. */
  ghost predicate SourcesUpTo(ops: seq<Op>, pm: Perms, row: nat) {
    forall k :: 0 <= k < |ops| ==> ops[k].j < |pm.di| && pm.di[ops[k].j] <= row
  }

  lemma AdditionsPush(m0: Mat, ops: seq<Op>, pm: Perms, i: nat, s: int, e: nat, op: Op)
    requires Additions(m0, ops, pm, i, s, e) && Addition(m0, op, pm, i, s, e)
    requires SourcesUpTo(ops, pm, pm.di[op.j])
    ensures Additions(m0, ops + [op], pm, i, s, e) && SourcesUpTo(ops + [op], pm, pm.di[op.j])
  {}

  /** A pass in progress: ops extends ops0 by additions, and m0 was the matrix at ops0. */
  ghost predicate InPass(full: Mat, ops0: seq<Op>, ops: seq<Op>, v: Mat, a: Lists, pm: Perms, i: nat,
                         s: int, e: nat, row: nat, part: seq<nat>, lo: nat, hi: nat) {
    && Linked(full, ops, v, pm.c, i, lo, hi) && ValidOps(ops0, |full|)
    && ops0 <= ops && Additions(Run(full, ops0, |pm.c|), ops[|ops0|..], pm, i, s, e)
    && SourcesUpTo(ops[|ops0|..], pm, row)
    && PassReady(Run(full, ops0, |pm.c|), a, pm, i, s, e)
    && Cleared(Run(full, ops0, |pm.c|), Run(full, ops, |pm.c|), pm, i, s, e, row, part)
  }

  /** Rows the pass reads or writes are never the excluded ones. */
  ghost predicate Clear(pm: Perms, i: nat, e: nat, lo: nat, hi: nat) {
    forall k :: 0 <= k < |pm.d| && (k < i || k < e) ==> !(lo <= pm.d[k] < hi)
  }

  lemma InPassFacts(full: Mat, ops0: seq<Op>, ops: seq<Op>, v: Mat, a: Lists, pm: Perms, i: nat,
                    s: int, e: nat, row: nat, part: seq<nat>, lo: nat, hi: nat)
    requires InPass(full, ops0, ops, v, a, pm, i, s, e, row, part, lo, hi)
    ensures |full| == |pm.d| == |a| && pm.Valid(|pm.d|, |pm.c|) && i <= |pm.c| && i <= |pm.d| && e <= |pm.d|
    ensures Linked(full, ops, v, pm.c, i, lo, hi)
  {
    hide Linked, Run, Cleared;
    LinkedValid(full, ops, v, pm.c, i, lo, hi);
  }

  lemma InPassAdd(full: Mat, ops0: seq<Op>, ops: seq<Op>, v: Mat, v': Mat, a: Lists, pm: Perms, i: nat,
                  s: int, e: nat, row: nat, part: seq<nat>, lo: nat, hi: nat, tmp: nat)
    requires InPass(full, ops0, ops, v, a, pm, i, s, e, row, part, lo, hi) && row < i
    requires tmp < |pm.d| && tmp !in part && pm.c[row] in a[tmp]
    requires Target(s, e, row, pm.di[tmp])
    requires Linked(full, ops + [Op(tmp, pm.d[row], 1)], v', pm.c, i, lo, hi)
    ensures InPass(full, ops0, ops + [Op(tmp, pm.d[row], 1)], v', a, pm, i, s, e, row, part + [tmp], lo, hi)
  {
    var op := Op(tmp, pm.d[row], 1);
    var m0, m := Run(full, ops0, |pm.c|), Run(full, ops, |pm.c|);
    ClearStep(m0, m, a, pm, i, s, e, row, part, tmp);
    PassOp(full, ops, v, pm, i, row, lo, hi, tmp);
    IsAddition(m0, a, pm, i, s, e, row, tmp);
    hide Linked, Run, Cleared, PassReady, ApplyOp, Additions, SourcesUpTo, Addition;
    assert pm.di[pm.d[row]] == row;
    assert (ops + [op])[|ops0|..] == ops[|ops0|..] + [op];
    AdditionsPush(m0, ops[|ops0|..], pm, i, s, e, op);
  }

  lemma IsAddition(m0: Mat, a: Lists, pm: Perms, i: nat, s: int, e: nat, row: nat, tmp: nat)
    requires PassReady(m0, a, pm, i, s, e) && row < i && tmp < |pm.d| && pm.c[row] in a[tmp]
    requires Target(s, e, row, pm.di[tmp])
    ensures Addition(m0, Op(tmp, pm.d[row], 1), pm, i, s, e)
  {
    assert pm.di[pm.d[row]] == row && pm.d[pm.di[tmp]] == tmp;
    assert At(m0, pm, pm.di[tmp], row) == 1;
  }

  lemma PassOp(full: Mat, ops: seq<Op>, v: Mat, pm: Perms, i: nat, row: nat, lo: nat, hi: nat, tmp: nat)
    requires Linked(full, ops, v, pm.c, i, lo, hi) && row < |pm.d| == |full| && pm.d[row] < |full|
    requires tmp < |full| && tmp != pm.d[row]
    ensures ValidOps(ops + [Op(tmp, pm.d[row], 1)], |full|)
    ensures Run(full, ops + [Op(tmp, pm.d[row], 1)], |pm.c|) == ApplyOp(Run(full, ops, |pm.c|), Op(tmp, pm.d[row], 1))
  {
    hide Run, ApplyOp, Agree;
    RunPush(full, ops, Op(tmp, pm.d[row], 1), |pm.c|);
  }

  lemma InPassSkip(full: Mat, ops0: seq<Op>, ops: seq<Op>, v: Mat, a: Lists, pm: Perms, i: nat,
                   s: int, e: nat, row: nat, part: seq<nat>, lo: nat, hi: nat, tmp: nat)
    requires InPass(full, ops0, ops, v, a, pm, i, s, e, row, part, lo, hi) && row < i
    requires tmp < |pm.d| && tmp !in part && pm.c[row] in a[tmp]
    requires !Target(s, e, row, pm.di[tmp])
    ensures InPass(full, ops0, ops, v, a, pm, i, s, e, row, part + [tmp], lo, hi)
  {
    ClearStep(Run(full, ops0, |pm.c|), Run(full, ops, |pm.c|), a, pm, i, s, e, row, part, tmp);
    hide Linked, Run, Cleared, PassReady, Additions;
  }

  lemma InPassNext(full: Mat, ops0: seq<Op>, ops: seq<Op>, v: Mat, a: Lists, b: Lists, pm: Perms, i: nat,
                   s: int, e: nat, row: nat, lo: nat, hi: nat)
    requires row < i && i <= |pm.c| && pm.c[row] < |b| == |pm.c| && Transposed(a, b)
    requires InPass(full, ops0, ops, v, a, pm, i, s, e, row, b[pm.c[row]], lo, hi)
    ensures InPass(full, ops0, ops, v, a, pm, i, s, e, row + 1, [], lo, hi)
  {
    ClearColumn(Run(full, ops0, |pm.c|), Run(full, ops, |pm.c|), a, b, pm, i, s, e, row);
    hide Linked, Run, Cleared, PassReady, Additions, Transposed;
  }

  /** The inner loop of precode_matrix_fwd_GE: clears one column of the block. */
  method ClearPass(u: WrkMat, s: Schedule, at: Sparse, row: nat, si: int, e: nat,
                   ghost full: Mat, ghost ops0: seq<Op>, ghost a: Lists, ghost lo: nat, ghost hi: nat)
    requires Apart(u, s) && u.Valid() && u.rows == |full| && s.Distinct(|full|, at.idxs.Length)
    requires forall r :: 0 <= r < u.rows ==> !u.typ[r]
    requires row < s.i && Transposed(a, at.idxs[..]) && Clear(s.Pm(), s.i, e, lo, hi)
    requires InPass(full, ops0, s.ops, u.View(), a, s.Pm(), s.i, si, e, row, [], lo, hi)
    modifies u.bits, u.gf256, u.rowmap, u.typ, u`blkidx, s`ops
    ensures u.Valid() && forall r :: 0 <= r < u.rows ==> !u.typ[r]
    ensures s.Pm() == old(s.Pm()) && at.idxs[..] == old(at.idxs[..])
    ensures InPass(full, ops0, s.ops, u.View(), a, s.Pm(), s.i, si, e, row + 1, [], lo, hi)
  {
    hide InPass, Linked, Transposed, Run, ApplyOp, IsMat, WrkMat.View;
    InPassFacts(full, ops0, s.ops, u.View(), a, s.Pm(), s.i, si, e, row, [], lo, hi);
    ghost var pm, b := s.Pm(), at.idxs[..];
    var mv := if si < row then row else si;
    var cs := at.idxs[s.c[row]];
    ColumnList(a, b, pm.c[row]);
    assert cs[..0] == [];
    for it := 0 to |cs|
      invariant u.Valid() && forall r :: 0 <= r < u.rows ==> !u.typ[r]
      invariant s.Pm() == pm && at.idxs[..] == b
      invariant InPass(full, ops0, s.ops, u.View(), a, pm, s.i, si, e, row, cs[..it], lo, hi)
    {
      var tmp := cs[it];
      var h := s.di[tmp];
      assert cs[..it + 1] == cs[..it] + [tmp];
      InPassFacts(full, ops0, s.ops, u.View(), a, pm, s.i, si, e, row, cs[..it], lo, hi);
      if h > mv && h < e {
        ghost var ops, v := s.ops, u.View();
        assert pm.d[h] == tmp && pm.di[pm.d[row]] == row;
        var _ := RowAdd(u, s, tmp, s.d[row], 1, full, lo, hi);
        InPassAdd(full, ops0, ops, v, u.View(), a, pm, s.i, si, e, row, cs[..it], lo, hi, tmp);
      } else {
        InPassSkip(full, ops0, s.ops, u.View(), a, pm, s.i, si, e, row, cs[..it], lo, hi, tmp);
      }
    }
    assert cs[..|cs|] == cs;
    InPassNext(full, ops0, s.ops, u.View(), a, b, pm, s.i, si, e, row, lo, hi);
  }

  lemma ColumnList(a: Lists, b: Lists, j: nat)
    requires Transposed(a, b) && j < |b|
    ensures Below(b[j], |a|) && NoDup(b[j]) && forall r :: r in b[j] ==> r < |a| && j in a[r]
    ensures forall k :: 0 <= k < |b[j]| ==> b[j][k] !in b[j][..k]
  {}

  /** precode_matrix_fwd_GE: one pass over the columns of the triangular block. */
  method FwdGE(u: WrkMat, s: Schedule, at: Sparse, si: int, e: nat,
               ghost full: Mat, ghost a: Lists, ghost lo: nat, ghost hi: nat)
    requires Apart(u, s) && u.Valid() && u.rows == |full| && s.Distinct(|full|, at.idxs.Length)
    requires forall r :: 0 <= r < u.rows ==> !u.typ[r]
    requires Transposed(a, at.idxs[..]) && Clear(s.Pm(), s.i, e, lo, hi)
    requires Linked(full, s.ops, u.View(), s.c[..], s.i, lo, hi)
    requires PassReady(Run(full, s.ops, s.c.Length), a, s.Pm(), s.i, si, e)
    modifies u.bits, u.gf256, u.rowmap, u.typ, u`blkidx, s`ops
    ensures u.Valid() && forall r :: 0 <= r < u.rows ==> !u.typ[r]
    ensures s.Pm() == old(s.Pm()) && at.idxs[..] == old(at.idxs[..])
    ensures InPass(full, old(s.ops), s.ops, u.View(), a, s.Pm(), s.i, si, e, s.i, [], lo, hi)
  {
    hide InPass, Linked, Transposed, Run, PassReady, Clear, IsMat, WrkMat.View, Inverse;
    ghost var ops0, pm, b := s.ops, s.Pm(), at.idxs[..];
    PassStart(full, ops0, u.View(), a, pm, s.i, si, e, lo, hi);
    for row := 0 to s.i
      invariant u.Valid() && forall r :: 0 <= r < u.rows ==> !u.typ[r]
      invariant s.Pm() == pm && at.idxs[..] == b
      invariant InPass(full, ops0, s.ops, u.View(), a, pm, s.i, si, e, row, [], lo, hi)
    {
      ClearPass(u, s, at, row, si, e, full, ops0, a, lo, hi);
    }
  }

  lemma PassStart(full: Mat, ops: seq<Op>, v: Mat, a: Lists, pm: Perms, i: nat, s: int, e: nat, lo: nat, hi: nat)
    requires Linked(full, ops, v, pm.c, i, lo, hi) && PassReady(Run(full, ops, |pm.c|), a, pm, i, s, e)
    ensures InPass(full, ops, ops, v, a, pm, i, s, e, 0, [], lo, hi)
  {
    hide Run, Agree;
  }

  // ---------- the working matrix ----------

  /** Rows before r, and the first `it` entries of row r, have been copied from position i on. */
  ghost predicate FilledTo(a: Lists, v: Mat, c: seq<nat>, i: nat, r: nat, it: nat) {
    && |v| == |a| && i <= |c| && (r < |a| ==> it <= |a[r]|)
    && (forall q :: 0 <= q < |v| ==> |v[q]| == |c| - i)
    && (forall q, x :: 0 <= q < |v| && i <= x < |c| ==>
        v[q][x - i] == if (q < r && c[x] in a[q]) || (q == r && c[x] in a[q][..it]) then 1 else 0)
  }

  lemma CopySet(a: Lists, v: Mat, c: seq<nat>, ci: seq<nat>, i: nat, r: nat, it: nat)
    requires Inverse(c, ci) && FilledTo(a, v, c, i, r, it) && r < |a| && it < |a[r]| && a[r][it] < |c|
    ensures ci[a[r][it]] >= i ==>
      FilledTo(a, v[r := v[r][ci[a[r][it]] - i := 1]], c, i, r, it + 1)
    ensures ci[a[r][it]] < i ==> FilledTo(a, v, c, i, r, it + 1)
  {
    var e := a[r][it];
    var p := ci[e];
    assert a[r][..it + 1] == a[r][..it] + [e] && c[p] == e;
    var v' := if p >= i then v[r := v[r][p - i := 1]] else v;
    forall q, x | 0 <= q < |v| && i <= x < |c|
      ensures v'[q][x - i] == if (q < r && c[x] in a[q]) || (q == r && c[x] in a[q][..it + 1]) then 1 else 0
    {
      assert ci[c[x]] == x;
      assert q == r && x == p ==> v'[q][x - i] == 1;
      assert !(q == r && x == p) ==> v'[q][x - i] == v[q][x - i];
      assert x != p ==> c[x] != e;
    }
    assert |v'| == |a| && forall q :: 0 <= q < |v'| ==> |v'[q]| == |c| - i;
    assert FilledTo(a, v', c, i, r, it + 1);
  }

  /** Copies the entries of one row. */
  method FillRow(u: WrkMat, a: Sparse, s: Schedule, i: nat)
    requires Apart(u, s) && u.Valid() && i < u.rows == a.idxs.Length && s.Distinct(u.rows, a.cols)
    requires Below(a.idxs[i], a.cols) && Inverse(s.c[..], s.ci[..]) && s.i + u.cols == a.cols
    requires forall r :: 0 <= r < u.rows ==> !u.typ[r]
    requires FilledTo(a.idxs[..], u.View(), s.c[..], s.i, i, 0)
    modifies u.bits, u.gf256
    ensures u.Valid() && FilledTo(a.idxs[..], u.View(), s.c[..], s.i, i + 1, 0)
  {
    hide FilledTo, Inverse;
    ghost var al, c, ci := a.idxs[..], s.c[..], s.ci[..];
    var rs := a.idxs[i];
    for it := 0 to |rs|
      invariant u.Valid() && FilledTo(al, u.View(), c, s.i, i, it)
    {
      CopySet(al, u.View(), c, ci, s.i, i, it);
      InverseBound(c, ci, rs[it]);
      var col := s.ci[rs[it]];
      if col >= s.i {
        var _ := u.Set(i, col - s.i, 1);
      }
    }
    CopyRow(al, u.View(), c, s.i, i);
  }

  lemma InverseBound(c: seq<nat>, ci: seq<nat>, x: nat)
    requires Inverse(c, ci) && x < |c|
    ensures ci[x] < |c|
  {}

  /** precode_matrix_fill_U. */
  method FillU(u: WrkMat, a: Sparse, s: Schedule)
    requires Apart(u, s) && u.Valid() && u.rows == a.idxs.Length && s.Distinct(u.rows, a.cols)
    requires WellFormed(a.idxs[..], a.cols) && Inverse(s.c[..], s.ci[..]) && s.i + u.cols == a.cols
    requires forall r :: 0 <= r < u.rows ==> !u.typ[r]
    requires forall r, x :: 0 <= r < u.rows && 0 <= x < u.cols ==> u.View()[r][x] == 0
    modifies u.bits, u.gf256
    ensures u.Valid() && FilledTo(a.idxs[..], u.View(), s.c[..], s.i, u.rows, 0)
  {
    ghost var al, c := a.idxs[..], s.c[..];
    assert FilledTo(al, u.View(), c, s.i, 0, 0);
    hide FilledTo, Inverse, Below;
    for i := 0 to a.idxs.Length
      invariant u.Valid() && FilledTo(al, u.View(), c, s.i, i, 0)
    {
      FillRow(u, a, s, i);
    }
  }

  lemma CopyRow(a: Lists, v: Mat, c: seq<nat>, i: nat, r: nat)
    requires r < |a| && FilledTo(a, v, c, i, r, |a[r]|)
    ensures FilledTo(a, v, c, i, r + 1, 0)
  {
    assert a[r][..|a[r]|] == a[r];
  }

  /** A fully copied working matrix agrees with the full matrix outside the dense rows. */
  lemma FilledAgrees(a: Lists, v: Mat, pr: Params, hdpc: Mat, c: seq<nat>, ci: seq<nat>, i: nat)
    requires FilledTo(a, v, c, i, |a|, 0) && Inverse(c, ci) && |c| == pr.l && pr.h <= pr.l
    requires IsMat(hdpc, pr.h, pr.l - pr.h)
    ensures Linked(Full(a, pr, hdpc), [], v, c, i, pr.s, pr.s + pr.h)
  {
    var full := Full(a, pr, hdpc);
    assert Run(full, [], pr.l) == full;
    forall r, x | 0 <= r < |full| && !(pr.s <= r < pr.s + pr.h) && i <= x < |c|
      ensures v[r][x - i] == full[r][c[x]]
    {
      assert full[r] == Indicator(a[r], pr.l);
    }
  }

  // ---------- preparing the working matrix ----------

  /** Rows outside the last H positions are sparse rows. */
  lemma SparsePositions(pr: Params, pm: Perms, rows: nat)
    requires Sized(pr, rows) && pm.Valid(rows, pr.l) && Frozen(pr, pm)
    ensures forall k :: 0 <= k < rows - pr.h ==> !(pr.s <= pm.d[k] < pr.s + pr.h)
  {
    forall r | pr.s <= r < pr.s + pr.h ensures pm.di[r] >= rows - pr.h {
      var q := rows - pr.h + (r - pr.s);
      assert pm.d[q] == r && pm.di[pm.d[q]] == q;
    }
    assert forall k :: 0 <= k < rows - pr.h ==> pm.di[pm.d[k]] == k;
  }

  lemma FirstPassReady(a: Lists, pr: Params, hdpc: Mat, pm: Perms, i: nat)
    requires Preconditioned(a, pr, pm, i) && IsMat(hdpc, pr.h, pr.l - pr.h)
    ensures PassReady(Full(a, pr, hdpc), a, pm, i, 0, i)
    ensures Clear(pm, i, i, pr.s, pr.s + pr.h)
  {
    SparsePositions(pr, pm, |a|);
    var full := Full(a, pr, hdpc);
    assert forall k :: 0 <= k < i ==> full[pm.d[k]] == Indicator(a[pm.d[k]], pr.l);
    hide Frozen, Full;
  }

  /** The block after the first pass: the identity at positions below i, other rows as they were. */
  ghost predicate BlockCleared(full: Mat, m: Mat, pm: Perms, i: nat) {
    && Fits(full, pm) && Fits(m, pm) && i <= |pm.c| && i <= |pm.d|
    && (forall k, j :: 0 <= k < i && 0 <= j < i ==> At(m, pm, k, j) == if j == k then 1 else 0)
    && (forall k :: i <= k < |pm.d| ==> m[pm.d[k]] == full[pm.d[k]])
  }

  lemma FirstPassDone(full: Mat, m: Mat, a: Lists, pm: Perms, i: nat)
    requires PassReady(full, a, pm, i, 0, i) && Cleared(full, m, pm, i, 0, i, i, [])
    ensures BlockCleared(full, m, pm, i)
  {
    forall k, j | 0 <= k < i && 0 <= j < i ensures At(m, pm, k, j) == if j == k then 1 else 0 {
      assert At(m, pm, k, j) == if Target(0, i, j, k) then 0 else At(full, pm, k, j);
    }
  }

  /** No row of the block has an entry left of the diagonal. */
  ghost predicate BlockDiagonal(a: Lists, pm: Perms, i: nat) {
    && i <= |pm.c| && i <= |pm.d|
    && (forall k :: 0 <= k < i ==> pm.d[k] < |a|)
    && forall j, k :: 0 <= j < k < i ==> pm.c[j] !in a[pm.d[k]]
  }

  /** The first pass records nothing exactly if there is nothing to clear. */
  lemma FirstPassEmpty(full: Mat, ops: seq<Op>, a: Lists, pm: Perms, i: nat)
    requires PassReady(full, a, pm, i, 0, i) && Additions(full, ops, pm, i, 0, i)
    requires IsMat(full, |full|, |pm.c|) && ValidOps(ops, |full|) && BlockCleared(full, Run(full, ops, |pm.c|), pm, i)
    ensures ops == [] <==> BlockDiagonal(a, pm, i)
  {
    hide Run;
    if ops == [] {
      RunNothing(full, |pm.c|);
      forall j, k | 0 <= j < k < i ensures pm.c[j] !in a[pm.d[k]] {
        assert At(full, pm, k, j) == 0 && Target(0, i, j, k);
      }
    } else {
      assert Addition(full, ops[0], pm, i, 0, i);
      var j, k := pm.di[ops[0].j], pm.di[ops[0].i];
      assert pm.d[k] == ops[0].i && At(full, pm, k, j) == 1 && Target(0, i, j, k);
    }
  }

  lemma RunNothing(m: Mat, cols: nat)
    requires IsMat(m, |m|, cols)
    ensures ValidOps([], |m|) && Run(m, [], cols) == m
  {}

  lemma SecondPassReady(a: Lists, pr: Params, hdpc: Mat, m: Mat, pm: Perms, i: nat)
    requires Preconditioned(a, pr, pm, i) && IsMat(hdpc, pr.h, pr.l - pr.h)
    requires BlockCleared(Full(a, pr, hdpc), m, pm, i)
    ensures PassReady(m, a, pm, i, i - 1, |a| - pr.h)
    ensures Clear(pm, i, |a| - pr.h, pr.s, pr.s + pr.h)
  {
    SparsePositions(pr, pm, |a|);
    var full := Full(a, pr, hdpc);
    assert forall k :: i <= k < |a| - pr.h ==> full[pm.d[k]] == Indicator(a[pm.d[k]], pr.l);
  }

  // ---------- triangular form of the remaining columns ----------

  /**
   Gaussian elimination in progress: at positions i .. lim, columns before `row` are zero below
   the diagonal, columns before i are zero, and the diagonal is one up to `row`.
   */
  ghost predicate Solving(m: Mat, pm: Perms, i: nat, row: nat, lim: nat) {
    && Fits(m, pm) && i <= row <= |pm.c| && row <= lim <= |pm.d|
    && (forall k, j :: i <= k < lim && 0 <= j < k && j < row ==> At(m, pm, k, j) == 0)
    && (forall k :: i <= k < row ==> At(m, pm, k, k) == 1)
  }

  /** Rows at positions below i are as in m1. */
  ghost predicate SameTop(m1: Mat, m: Mat, pm: Perms, i: nat) {
    && |m1| == |m| == |pm.d| && i <= |pm.d|
    && forall k :: 0 <= k < i ==> pm.d[k] < |m| && m[pm.d[k]] == m1[pm.d[k]]
  }

  lemma SecondPassDone(full: Mat, m1: Mat, m: Mat, a: Lists, pm: Perms, i: nat, e: nat)
    requires BlockCleared(full, m1, pm, i) && i <= e
    requires PassReady(m1, a, pm, i, i - 1, e) && Cleared(m1, m, pm, i, i - 1, e, i, [])
    ensures Solving(m, pm, i, i, e) && SameTop(m1, m, pm, i)
  {
    forall k, j | i <= k < e && 0 <= j < i ensures At(m, pm, k, j) == 0 {
      assert Target(i - 1, e, j, k);
    }
  }
}
