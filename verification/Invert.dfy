/**
 precode_matrix_invert: from the constraint matrix to a schedule, or to the verdict that its
 columns are dependent (raptorq/precode.c, lines 254-377).
 */
module Inversion {
  import opened GF256
  import opened Tables
  import opened Linear
  import opened SpMat
  import opened Oblas
  import opened Permutation
  import opened Scheduling
  import opened Preconditioning
  import opened WorkMatrix
  import opened Elimination
  import opened Gauss
  import opened Hdpc
  import opened DenseRows
  import opened BackSubstitution
  import opened Rank
  import opened Replaying
  import opened ReplayOrder

  /**
   NULL is Singular.  Aborted is the abort of the working matrix when its spare byte rows are used
   up (raptorq/wrkmat.c, lines 93-98).
   */
  datatype Outcome = Inverted | Singular | Aborted

  /** An unsigned 32-bit count minus one. */
  function Dec32(n: nat): nat {
    if n == 0 then 0xFFFF_FFFF else n - 1
  }

  /** The parameters a code can have, as far as the solver relies on them. */
  ghost predicate SolverParams(pr: Params) {
    pr.h >= 2 && pr.kprime + pr.s + pr.h == pr.l && pr.kprime + pr.s >= 1
  }

  /** The constraint matrix the sparse matrix a stands for. */
  ghost function Constraints(a: Lists, pr: Params, rnd: Rnd): (m: Mat)
    requires SolverParams(pr)
    ensures IsMat(m, |a|, pr.l)
  {
    Full(a, pr, HdpcMatrix(rnd, pr.h, pr.l - pr.h))
  }

  /** After the two clearing passes: ready for Gaussian elimination. */
  ghost predicate Prepared(full: Mat, s: Schedule, u: WrkMat, pr: Params, n0: nat, rows: nat)
    reads s, s.c, s.ci, s.d, s.di, u, u.bits, u.gf256, u.rowmap, u.typ
  {
    && u.Valid() && u.rows == rows == |full| && s.Distinct(rows, pr.l) && s.i + u.cols == pr.l
    && Apart(u, s) && u.typ.Length == u.rows && (forall r :: 0 <= r < u.rows ==> !u.typ[r])
    && n0 <= |s.ops| && pr.h <= rows && Cleaned(s.ops[..n0], s.ops, s.di[..], s.i)
    && SolveState(full, s.ops[..n0], s.ops, u.View(), s.Pm(), s.i, s.i, rows - pr.h, pr.s, pr.s + pr.h)
  }

  lemma PassesDone(full: Mat, f1: seq<Op>, ops: seq<Op>, v: Mat, a: Lists, pr: Params, hd: Mat, pm: Perms, i: nat)
    requires Preconditioned(a, pr, pm, i) && IsMat(hd, pr.h, pr.l - pr.h) && full == Full(a, pr, hd)
    requires IsMat(full, |full|, |pm.c|) && ValidOps(f1, |full|)
    requires BlockCleared(full, Run(full, f1, |pm.c|), pm, i) && Additions(full, f1, pm, i, 0, i)
    requires InPass(full, f1, ops, v, a, pm, i, i - 1, |a| - pr.h, i, [], pr.s, pr.s + pr.h)
    ensures SolveState(full, f1, ops, v, pm, i, i, |a| - pr.h, pr.s, pr.s + pr.h)
    ensures f1 <= ops && Cleaned(f1, ops, pm.di, i)
  {
    hide *;
    PreconditionedFacts(a, pr, pm, i);
    InPassParts(full, f1, ops, v, a, pm, i, i - 1, |a| - pr.h, i, pr.s, pr.s + pr.h);
    PreconditionedFrozen(a, pr, pm, i);
    SecondPassDone(full, Run(full, f1, |pm.c|), Run(full, ops, |pm.c|), a, pm, i, |a| - pr.h);
    BlockIdentity(full, Run(full, f1, |pm.c|), pm, i);
    SparsePositions(pr, pm, |a|);
    SecondTargets(Run(full, f1, |pm.c|), ops[|f1|..], pm, i, |a| - pr.h);
    PassCleaned(Run(full, f1, |pm.c|), f1, ops, pm, i, |a| - pr.h);
    StateFromParts(full, f1, ops, v, pm, i, i, |a| - pr.h, pr.s, pr.s + pr.h);
  }

  lemma PreconditionedFrozen(a: Lists, pr: Params, pm: Perms, i: nat)
    requires Preconditioned(a, pr, pm, i)
    ensures |pm.d| == |a| && |pm.c| == pr.l && Frozen(pr, pm)
  {}

  lemma InPassParts(full: Mat, f1: seq<Op>, ops: seq<Op>, v: Mat, a: Lists, pm: Perms, i: nat, s: int, e: nat,
                    row: nat, lo: nat, hi: nat)
    requires InPass(full, f1, ops, v, a, pm, i, s, e, row, [], lo, hi)
    ensures IsMat(full, |full|, |pm.c|) && ValidOps(ops, |full|) && ValidOps(f1, |full|) && f1 <= ops
    ensures Linked(full, ops, v, pm.c, i, lo, hi)
    ensures Additions(Run(full, f1, |pm.c|), ops[|f1|..], pm, i, s, e)
    ensures PassReady(Run(full, f1, |pm.c|), a, pm, i, s, e)
    ensures Cleared(Run(full, f1, |pm.c|), Run(full, ops, |pm.c|), pm, i, s, e, row, [])
  {
    hide Linked, Run, Additions, PassReady, Cleared;
    LinkedValid(full, ops, v, pm.c, i, lo, hi);
  }

  lemma StateFromParts(full: Mat, f1: seq<Op>, ops: seq<Op>, v: Mat, pm: Perms, i: nat,
                       row: nat, lim: nat, lo: nat, hi: nat)
    requires IsMat(full, |full|, |pm.c|) && ValidOps(ops, |full|) && ValidOps(f1, |full|) && f1 <= ops
    requires Linked(full, ops, v, pm.c, i, lo, hi) && Solving(Run(full, ops, |pm.c|), pm, i, row, lim)
    requires SameTop(Run(full, f1, |pm.c|), Run(full, ops, |pm.c|), pm, i)
    requires TopIdentity(Run(full, f1, |pm.c|), pm, i)
    requires LowTargets(ops[|f1|..], pm.di, i) && Additions(full, f1, pm, i, 0, i)
    requires forall k :: 0 <= k < |pm.d| && (k < i || k < lim) ==> !(lo <= pm.d[k] < hi)
    ensures SolveState(full, f1, ops, v, pm, i, row, lim, lo, hi)
  {
    hide Run, Linked, Solving, SameTop, TopIdentity, LowTargets, Additions;
  }

  lemma BlockIdentity(full: Mat, m: Mat, pm: Perms, i: nat)
    requires BlockCleared(full, m, pm, i)
    ensures TopIdentity(m, pm, i)
  {}

  lemma SecondTargets(m: Mat, ops: seq<Op>, pm: Perms, i: nat, e: nat)
    requires Additions(m, ops, pm, i, i - 1, e)
    ensures LowTargets(ops, pm.di, i)
  {
    forall k | 0 <= k < |ops| ensures ops[k].i < |pm.di| && pm.di[ops[k].i] >= i {
      assert Addition(m, ops[k], pm, i, i - 1, e);
    }
  }

  lemma PassCleaned(m: Mat, f1: seq<Op>, ops: seq<Op>, pm: Perms, i: nat, e: nat)
    requires f1 <= ops && Additions(m, ops[|f1|..], pm, i, i - 1, e)
    ensures Cleaned(f1, ops, pm.di, i)
  {
    if |ops| > |f1| {
      assert Addition(m, ops[|f1|..][|ops| - 1 - |f1|], pm, i, i - 1, e);
    }
  }

  lemma FirstPassResult(full: Mat, ops: seq<Op>, v: Mat, a: Lists, pr: Params, pm: Perms, i: nat)
    requires InPass(full, [], ops, v, a, pm, i, 0, i, i, [], pr.s, pr.s + pr.h)
    ensures IsMat(full, |full|, |pm.c|) && ValidOps(ops, |full|)
    ensures BlockCleared(full, Run(full, ops, |pm.c|), pm, i) && Additions(full, ops, pm, i, 0, i)
    ensures Linked(full, ops, v, pm.c, i, pr.s, pr.s + pr.h)
    ensures ops == [] <==> BlockDiagonal(a, pm, i)
  {
    hide Linked, Additions, Cleared, PassReady, BlockCleared, BlockDiagonal;
    LinkedValid(full, ops, v, pm.c, i, pr.s, pr.s + pr.h);
    assert Run(full, [], |pm.c|) == full;
    assert ops[0..] == ops;
    FirstPassDone(full, Run(full, ops, |pm.c|), a, pm, i);
    FirstPassEmpty(full, ops, a, pm, i);
  }

  /**
   precode_matrix_make_U: the working matrix, with the block's columns cleared everywhere.  The first
   checkpoint stands for no operations exactly if the block is diagonal already.
   */
  method MakeU(pr: Params, a: Sparse, at: Sparse, s: Schedule, ghost full: Mat, ghost hd: Mat)
    returns (u: WrkMat, ghost n0: nat)
    requires Preconditioned(a.idxs[..], pr, s.Pm(), s.i) && s.Distinct(a.idxs.Length, pr.l) && s.u == pr.l - s.i
    requires s.ops == [] && a.cols == pr.l && WellFormed(a.idxs[..], pr.l) && IsMat(hd, pr.h, pr.l - pr.h)
    requires full == Full(a.idxs[..], pr, hd) && Transposed(a.idxs[..], at.idxs[..]) && at.idxs.Length == pr.l
    modifies s`ops, s`marks0
    ensures fresh(u) && fresh(u.bits) && fresh(u.gf256) && fresh(u.rowmap) && fresh(u.typ)
    ensures Prepared(full, s, u, pr, n0, a.idxs.Length) && s.Pm() == old(s.Pm())
    ensures s.marks0 == Dec32(n0) && at.idxs[..] == old(at.idxs[..])
    ensures n0 == 0 <==> BlockDiagonal(a.idxs[..], s.Pm(), s.i)
  {
    hide Run, Linked, PassReady, Transposed, Full, Preconditioned, Cleared, BlockCleared, Additions, SolveState,
      Inverse, Triangle, Frozen, WrkMat.View, Clear, FilledTo, InPass, Cleaned, BlockDiagonal;
    ghost var al, pm, b := a.idxs[..], s.Pm(), at.idxs[..];
    PreconditionedFacts(al, pr, pm, s.i);
    var rows := a.idxs.Length;
    u := new WrkMat(rows, s.u);
    FillU(u, a, s);
    FilledAgrees(al, u.View(), pr, hd, pm.c, pm.ci, s.i);
    FirstPassReady(al, pr, hd, pm, s.i);
    RunNothing(full, pr.l);
    FwdGE(u, s, at, 0, s.i, full, al, pr.s, pr.s + pr.h);
    FirstPassResult(full, s.ops, u.View(), al, pr, pm, s.i);
    n0 := |s.ops|;
    ghost var f1 := s.ops;
    s.marks0 := Dec32(|s.ops|);
    SecondPassReady(al, pr, hd, Run(full, s.ops, pr.l), pm, s.i);
    FwdGE(u, s, at, s.i - 1, rows - pr.h, full, al, pr.s, pr.s + pr.h);
    PassesDone(full, f1, s.ops, u.View(), al, pr, hd, pm, s.i);
    assert s.ops[..n0] == f1;
  }

  lemma PreconditionedFacts(a: Lists, pr: Params, pm: Perms, i: nat)
    requires Preconditioned(a, pr, pm, i)
    ensures Sized(pr, |a|) && pm.Valid(|a|, pr.l) && i <= pr.l - pr.p && i <= |a| - pr.h && pr.h <= |a|
  {}

  // ---------- from elimination to the finished schedule ----------

  /** pm differs from pm0 only in rows at positions from i on. */
  ghost predicate TopKept(pm0: Perms, pm: Perms, i: nat) {
    && pm.c == pm0.c && |pm.d| == |pm0.d| && i <= |pm.d|
    && forall k :: 0 <= k < i ==> pm.d[k] == pm0.d[k]
  }

  lemma EliminatedUpper(full: Mat, f1: seq<Op>, ops: seq<Op>, v: Mat, pm: Perms, i: nat, lim: nat, lo: nat, hi: nat,
                        n: nat)
    requires SolveState(full, f1, ops, v, pm, i, n, lim, lo, hi)
    ensures ValidOps(f1, |full|) && ValidOps(ops, |full|) && ValidOps(ops[|f1|..], |full|) && f1 <= ops
    ensures IsMat(full, |full|, |pm.c|) && |full| == |pm.d|
    ensures Run(Run(full, f1, |pm.c|), ops[|f1|..], |pm.c|) == Run(full, ops, |pm.c|)
    ensures Upper(Run(full, ops, |pm.c|), pm, n)
  {
    hide Run, Linked, LowTargets, Additions, Spared;
    LinkedValid(full, ops, v, pm.c, i, lo, hi);
    var f2 := ops[|f1|..];
    assert f1 + f2 == ops;
    RunAppend(full, f1, f2, |pm.c|);
    var m1, m := Run(full, f1, |pm.c|), Run(full, ops, |pm.c|);
    forall k, j | 0 <= j < k < n ensures At(m, pm, k, j) == 0 {
      if k < i {
        assert At(m, pm, k, j) == At(m1, pm, k, j);
      }
    }
    forall k | 0 <= k < n ensures At(m, pm, k, k) == 1 {
      if k < i {
        assert At(m, pm, k, k) == At(m1, pm, k, k);
      }
    }
  }

  lemma StateParts(full: Mat, f1: seq<Op>, ops: seq<Op>, v: Mat, pm: Perms, i: nat, row: nat, lim: nat, lo: nat,
                   hi: nat)
    requires SolveState(full, f1, ops, v, pm, i, row, lim, lo, hi)
    ensures pm.Valid(|pm.d|, |pm.c|) && i <= row <= |pm.c| && row <= lim <= |pm.d| == |full|
    ensures IsMat(full, |full|, |pm.c|) && ValidOps(f1, |full|) && ValidOps(ops, |full|)
    ensures LowTargets(ops[|f1|..], pm.di, i) && Additions(full, f1, pm, i, 0, i)
    ensures TopIdentity(Run(full, f1, |pm.c|), pm, i)
    ensures Linked(full, ops, v, pm.c, i, lo, hi) && Solving(Run(full, ops, |pm.c|), pm, i, row, lim)
  {
    hide Run, Linked, LowTargets, Additions, Spared, SameTop, TopIdentity;
    LinkedValid(full, ops, v, pm.c, i, lo, hi);
  }

  lemma ReadyForBack(full: Mat, f1: seq<Op>, ops: seq<Op>, v: Mat, a: Lists, pr: Params, hd: Mat, pm0: Perms, pm: Perms,
                     i: nat, lim: nat, lo: nat, hi: nat)
    requires SolveState(full, f1, ops, v, pm, i, |pm.c|, lim, lo, hi) && |pm.c| <= lim
    requires Preconditioned(a, pr, pm0, i) && TopKept(pm0, pm, i)
    requires IsMat(hd, pr.h, pr.l - pr.h) && full == Full(a, pr, hd)
    ensures IsMat(full, |full|, |pm.c|) && ValidOps(f1, |full|) && ValidOps(ops[|f1|..], |full|)
    ensures BackReady(Unwound(full, f1, ops[|f1|..], |pm.c|), a, v, pm, i)
  {
    hide Run, Linked, LowTargets, Additions, Triangle, SolveState, Full, Unwound;
    EliminatedUpper(full, f1, ops, v, pm, i, lim, lo, hi, |pm.c|);
    StateParts(full, f1, ops, v, pm, i, |pm.c|, lim, lo, hi);
    StateFacts(full, f1, ops, v, pm, i, |pm.c|, lim, lo, hi);
    var f2 := ops[|f1|..];
    var m3, m4 := Run(full, ops, |pm.c|), Unwound(full, f1, f2, |pm.c|);
    UnwoundRows(full, pm, i, f1, f2);
    SparsePositions(pr, pm0, |a|);
    TopRowsSparse(full, m4, a, pr, hd, pm, i);
    forall k, j | i <= k < |pm.c| && 0 <= j < |pm.c| ensures At(m4, pm, k, j) == At(m3, pm, k, j) {}
    forall k, j | i <= k < j < |pm.c| ensures j - i < |v[pm.d[k]]| && At(m4, pm, k, j) == v[pm.d[k]][j - i] {
      assert At(m4, pm, k, j) == At(m3, pm, k, j);
    }
  }

  lemma TopRowsSparse(full: Mat, m4: Mat, a: Lists, pr: Params, hd: Mat, pm: Perms, i: nat)
    requires pr.h <= pr.l && IsMat(hd, pr.h, pr.l - pr.h) && full == Full(a, pr, hd)
    requires Fits(full, pm) && Fits(m4, pm) && i <= |pm.d| == |a| && i <= |pm.c| == pr.l
    requires forall k :: 0 <= k < i ==> m4[pm.d[k]] == full[pm.d[k]]
    requires forall k :: 0 <= k < i ==> !(pr.s <= pm.d[k] < pr.s + pr.h)
    ensures forall k, j :: 0 <= k < i && i <= j < |pm.c| ==> At(m4, pm, k, j) == if pm.c[j] in a[pm.d[k]] then 1 else 0
  {
    assert forall k :: 0 <= k < i ==> full[pm.d[k]] == Indicator(a[pm.d[k]], pr.l);
  }

  lemma ScheduleInverts(full: Mat, f1: seq<Op>, ops: seq<Op>, ops': seq<Op>, v: Mat, pm: Perms, i: nat, lim: nat,
                        lo: nat, hi: nat)
    requires SolveState(full, f1, ops, v, pm, i, |pm.c|, lim, lo, hi) && |pm.c| <= lim
    requires IsMat(full, |full|, |pm.c|) && ValidOps(f1, |full|) && ValidOps(ops[|f1|..], |full|)
    requires BackSolved(Unwound(full, f1, ops[|f1|..], |pm.c|), ops, ops', pm, i, i)
    ensures ops <= ops' && f1 <= ops
    ensures Inverts(full, pm, i, f1, ops[|f1|..], ops'[|ops|..])
  {
    hide Run, Linked, LowTargets, Additions, SolveState, Unwound, BackDone, UpperTargets, Upper, TopIdentity;
    EliminatedUpper(full, f1, ops, v, pm, i, lim, lo, hi, |pm.c|);
    StateParts(full, f1, ops, v, pm, i, |pm.c|, lim, lo, hi);
  }

  /** Stuck elimination means dependent columns. */
  lemma StuckMeansDeficient(full: Mat, f1: seq<Op>, ops: seq<Op>, v: Mat, pm: Perms, i: nat, row: nat)
    requires SolveState(full, f1, ops, v, pm, i, row, |pm.d|, 0, 0) && row < |pm.c|
    requires IsMat(full, |full|, |pm.c|) && ValidOps(ops, |full|)
    requires Stuck(Run(full, ops, |pm.c|), pm, row, |pm.d|)
    ensures Deficient(full, |pm.c|)
  {
    hide Run, Linked, LowTargets, Additions, SolveState, TopIdentity, Deficient, Upper;
    EliminatedUpper(full, f1, ops, v, pm, i, |pm.d|, 0, 0, row);
    StateParts(full, f1, ops, v, pm, i, row, |pm.d|, 0, 0);
    var m := Run(full, ops, |pm.c|);
    var beta :| FirstNonzero(m, pm, row, |pm.d|, |pm.d|, beta);
    StuckDeficient(full, ops, pm, row);
  }

  // ---------- the sparse rows alone ----------

  /** The matrix with rows lo .. hi, the dense ones, replaced by zeros. */
  ghost function SparsePart(m: Mat, lo: nat, hi: nat, cols: nat): (r: Mat)
    requires IsMat(m, |m|, cols)
    ensures IsMat(r, |m|, cols)
    ensures forall k :: 0 <= k < |m| ==> r[k] == if lo <= k < hi then ZeroMat(1, cols)[0] else m[k]
  {
    var zero := ZeroMat(1, cols)[0];
    assert |zero| == cols;
    seq(|m|, k requires 0 <= k < |m| => if lo <= k < hi then zero else m[k])
  }

  /** Operations that neither read nor change the dense rows act on the sparse part alone. */
  lemma {:induction false} SparseRun(m: Mat, ops: seq<Op>, lo: nat, hi: nat, cols: nat)
    requires IsMat(m, |m|, cols) && ValidOps(ops, |m|)
    requires forall k :: 0 <= k < |ops| ==> !(lo <= ops[k].i < hi) && (ops[k].beta != 0 ==> !(lo <= ops[k].j < hi))
    ensures Run(SparsePart(m, lo, hi, cols), ops, cols) == SparsePart(Run(m, ops, cols), lo, hi, cols)
    decreases |ops|
  {
    if ops != [] {
      var before, op := ops[..|ops| - 1], ops[|ops| - 1];
      SparseRun(m, before, lo, hi, cols);
      var n := Run(m, before, cols);
      assert ApplyOp(SparsePart(n, lo, hi, cols), op) == SparsePart(ApplyOp(n, op), lo, hi, cols);
    }
  }

  /** Elimination stuck on the sparse rows: they do not determine the symbols by themselves. */
  lemma SparseStuck(full: Mat, f1: seq<Op>, ops: seq<Op>, v: Mat, pm: Perms, pr: Params, i: nat, row: nat, lim: nat)
    requires SolveState(full, f1, ops, v, pm, i, row, lim, pr.s, pr.s + pr.h) && row < |pm.c| && Frozen(pr, pm)
    requires IsMat(full, |full|, |pm.c|) && ValidOps(ops, |full|) && lim + pr.h == |pm.d|
    requires Stuck(Run(full, ops, |pm.c|), pm, row, lim)
    ensures Deficient(SparsePart(full, pr.s, pr.s + pr.h, |pm.c|), |pm.c|)
  {
    hide Run, LowTargets, Additions, SolveState, TopIdentity, Deficient, Upper, Linked;
    EliminatedUpper(full, f1, ops, v, pm, i, lim, pr.s, pr.s + pr.h, row);
    StateParts(full, f1, ops, v, pm, i, row, lim, pr.s, pr.s + pr.h);
    StateFacts(full, f1, ops, v, pm, i, row, lim, pr.s, pr.s + pr.h);
    LinkedSparse(full, ops, v, pm.c, i, pr.s, pr.s + pr.h);
    SparseRun(full, ops, pr.s, pr.s + pr.h, |pm.c|);
    var m := Run(full, ops, |pm.c|);
    SparseUpper(m, pm, pr, row, lim);
    StuckDeficient(SparsePart(full, pr.s, pr.s + pr.h, |pm.c|), ops, pm, row);
  }

  lemma LinkedSparse(full: Mat, ops: seq<Op>, v: Mat, c: seq<nat>, i: nat, lo: nat, hi: nat)
    requires Linked(full, ops, v, c, i, lo, hi)
    ensures forall k :: 0 <= k < |ops| ==> !(lo <= ops[k].i < hi) && (ops[k].beta != 0 ==> !(lo <= ops[k].j < hi))
  {}

  lemma SparseUpper(m: Mat, pm: Perms, pr: Params, row: nat, lim: nat)
    requires Upper(m, pm, row) && row < |pm.c| && row <= lim && lim + pr.h == |pm.d| && Frozen(pr, pm)
    requires Stuck(m, pm, row, lim) && forall k, j :: row <= k < lim && 0 <= j < row ==> At(m, pm, k, j) == 0
    requires forall k :: 0 <= k < lim ==> !(pr.s <= pm.d[k] < pr.s + pr.h)
    ensures IsMat(m, |m|, |pm.c|)
    ensures var b := SparsePart(m, pr.s, pr.s + pr.h, |pm.c|);
      Upper(b, pm, row) && forall k, j :: row <= k < |pm.d| && 0 <= j <= row ==> At(b, pm, k, j) == 0
  {
    var b := SparsePart(m, pr.s, pr.s + pr.h, |pm.c|);
    forall k, j | 0 <= k < |pm.d| && 0 <= j < |pm.c|
      ensures At(b, pm, k, j) == if k < lim then At(m, pm, k, j) else 0
    {
      assert b[pm.d[k]] == if pr.s <= pm.d[k] < pr.s + pr.h then ZeroMat(1, |pm.c|)[0] else m[pm.d[k]];
    }
    var beta :| FirstNonzero(m, pm, row, lim, lim, beta);
  }

  /** Gaussian elimination on all rows, the dense ones included. */
  method EliminateAll(pr: Params, rnd: Rnd, u: WrkMat, s: Schedule, ghost full: Mat, ghost f1: seq<Op>,
                      ghost row0: nat, ghost a: Lists, ghost e0: nat)
    returns (outcome: Outcome, ghost e: nat)
    requires SolverParams(pr) && Sized(pr, |a|) && full == Constraints(a, pr, rnd)
    requires Apart(u, s) && u.Valid() && u.rows == |full| == |a| && s.Distinct(u.rows, pr.l) && s.i + u.cols == pr.l
    requires forall r :: 0 <= r < u.rows ==> !u.typ[r]
    requires Frozen(pr, s.Pm()) && s.i <= pr.l - pr.p && s.i <= u.rows - pr.h
    requires SolveState(full, f1, s.ops, u.View(), s.Pm(), s.i, row0, u.rows - pr.h, pr.s, pr.s + pr.h)
    requires Since(s.ops, s.di[..], s.i, |f1|, e0)
    modifies u, u.bits, u.gf256, u.rowmap, u.typ, s`ops, s.d, s.di
    ensures s.c[..] == old(s.c[..]) && TopKept(old(s.Pm()), s.Pm(), s.i)
    ensures outcome == Singular ==> Deficient(full, pr.l)
    ensures outcome == Aborted ==> u.blkidx == u.gf256.Length0 == 2 * pr.h < |a| - s.i
    ensures outcome == Inverted ==> u.Valid() && SolveState(full, f1, s.ops, u.View(), s.Pm(), s.i, pr.l, |a|, 0, 0)
    ensures outcome == Inverted ==> Since(s.ops, s.di[..], s.i, |f1|, e)
  {
    hide Run, SolveState, Linked, Inverse, WrkMat.View, Full, HdpcMatrix, Deficient, Stuck, IsMat, OtherRowsKept,
      Frozen, Housed, Since, Recorded, Cleaned;
    ghost var pm0, ops0 := s.Pm(), s.ops;
    FillHDPC(pr, rnd, u, s, full, f1, row0, a);
    StateStart(full, f1, s.ops, u.View(), s.Pm(), s.i, s.i, u.rows, 0, 0);
    ghost var ops1 := s.ops;
    e := SinceCleaned(ops0, ops1, pm0.di, s.i, |f1|, e0);
    var ok, rank := SolveGF256(u, s, u.rows, full, f1, 0, 0);
    KeptTop(pm0, s.Pm(), s.i, u.rows);
    if !ok {
      return Aborted, e;
    }
    if rank < pr.l {
      StuckMeansDeficient(full, f1, s.ops, u.View(), s.Pm(), s.i, rank);
      return Singular, e;
    }
    StateStart(full, f1, s.ops, u.View(), s.Pm(), s.i, rank, u.rows, 0, 0);
    SinceKept(ops1, pm0, s.Pm(), s.i, u.rows, |f1|, e);
    SinceMore(ops1, s.ops, s.di[..], s.i, |f1|, e);
    outcome := Inverted;
  }

  /** Gaussian elimination: the sparse rows alone if there are enough of them, then all rows. */
  method Eliminate(pr: Params, rnd: Rnd, u: WrkMat, s: Schedule, ghost full: Mat, ghost n0: nat, ghost a: Lists)
    returns (outcome: Outcome, ghost lim: nat, ghost lo: nat, ghost hi: nat, ghost e: nat)
    requires SolverParams(pr) && Sized(pr, |a|) && full == Constraints(a, pr, rnd)
    requires Prepared(full, s, u, pr, n0, |a|) && Preconditioned(a, pr, s.Pm(), s.i)
    modifies u, u.bits, u.gf256, u.rowmap, u.typ, s`ops, s.d, s.di
    ensures s.c[..] == old(s.c[..]) && TopKept(old(s.Pm()), s.Pm(), s.i)
    ensures outcome == Singular ==> Deficient(full, pr.l)
    ensures outcome == Aborted ==> u.blkidx == u.gf256.Length0 == 2 * pr.h < |a| - s.i
    ensures outcome == Aborted ==> |a| < pr.l + pr.h || Deficient(SparsePart(full, pr.s, pr.s + pr.h, pr.l), pr.l)
    ensures outcome == Inverted ==> u.Valid() && pr.l <= lim
    ensures outcome == Inverted ==> SolveState(full, old(s.ops)[..n0], s.ops, u.View(), s.Pm(), s.i, pr.l, lim, lo, hi)
    ensures outcome == Inverted ==> Since(s.ops, s.di[..], s.i, n0, e)
  {
    hide Run, SolveState, Linked, Inverse, WrkMat.View, Full, HdpcMatrix, Preconditioned, Deficient, Stuck, IsMat,
      OtherRowsKept, Frozen, Since, Recorded, Cleaned;
    ghost var pm0, f1, ops0 := s.Pm(), s.ops[..n0], s.ops;
    e := |ops0|;
    SinceStart(ops0, pm0.di, s.i, n0);
    var rows := u.rows;
    PreconditionedFacts(a, pr, pm0, s.i);
    PreconditionedFrozen(a, pr, pm0, s.i);
    lim, lo, hi := rows - pr.h, pr.s, pr.s + pr.h;
    ghost var row0 := s.i;
    if rows - pr.h >= pr.l {
      StateStart(full, f1, s.ops, u.View(), s.Pm(), s.i, s.i, lim, lo, hi);
      var rank := SolveGF2(u, s, rows - pr.h, full, f1, lo, hi);
      row0 := rank;
      KeptTop(pm0, s.Pm(), s.i, lim);
      FrozenKept(pr, pm0, s.Pm(), s.i, lim);
      StateStart(full, f1, s.ops, u.View(), s.Pm(), s.i, rank, lim, lo, hi);
      SinceKept(ops0, pm0, s.Pm(), s.i, lim, n0, e);
      SinceMore(ops0, s.ops, s.di[..], s.i, n0, e);
      if rank == pr.l {
        return Inverted, lim, lo, hi, e;
      }
      SparseStuck(full, f1, s.ops, u.View(), s.Pm(), pr, s.i, rank, lim);
    } else {
      TopKeptRefl(pm0, s.i);
    }
    ghost var pm1 := s.Pm();
    outcome, e := EliminateAll(pr, rnd, u, s, full, f1, row0, a, e);
    lim, lo, hi := rows, 0, 0;
    TopKeptTrans(pm0, pm1, s.Pm(), s.i);
  }

  lemma KeptTop(pm0: Perms, pm: Perms, i: nat, lim: nat)
    requires OtherRowsKept(pm0, pm, i, lim) && i <= |pm.d|
    ensures TopKept(pm0, pm, i)
  {}

  lemma TopKeptRefl(pm: Perms, i: nat)
    requires i <= |pm.d|
    ensures TopKept(pm, pm, i)
  {}

  lemma TopKeptTrans(pm0: Perms, pm1: Perms, pm2: Perms, i: nat)
    requires TopKept(pm0, pm1, i) && TopKept(pm1, pm2, i)
    ensures TopKept(pm0, pm2, i)
  {}

  lemma FrozenKept(pr: Params, pm0: Perms, pm: Perms, i: nat, lim: nat)
    requires Frozen(pr, pm0) && OtherRowsKept(pm0, pm, i, lim) && lim == |pm0.d| - pr.h
    ensures Frozen(pr, pm)
  {}

  /** The schedule s splits at n0 and n1 into the parts of a schedule that inverts the constraints. */
  ghost predicate Complete(full: Mat, s: Schedule, n0: nat, n1: nat)
    reads s, s.c, s.ci, s.d, s.di
  {
    && n0 <= n1 <= |s.ops| && s.marks0 == Dec32(n0) && s.marks1 == Dec32(n1)
    && Inverts(full, s.Pm(), s.i, s.ops[..n0], s.ops[n0..n1], s.ops[n1..])
  }

  /**
   Where the operations came from: those of elimination from e on, none before the first checkpoint exactly if
   the block is diagonal, and an empty block exactly if no row is light.
   */
  ghost predicate Traced(a: Lists, pr: Params, ops: seq<Op>, pm: Perms, i: nat, n0: nat, e: nat, n1: nat) {
    && n1 <= |ops| && Since(ops[..n1], pm.di, i, n0, e) && (n0 == 0 <==> BlockDiagonal(a, pm, i))
    && pr.p <= pr.l && (i == 0 <==> NoneLight(a, pr))
  }

  /** The steps before Gaussian elimination: sorting, the first phase, the two clearing passes. */
  method Prepare(pr: Params, rnd: Rnd, a: Sparse) returns (s: Schedule, at: Sparse, u: WrkMat, ghost n0: nat)
    requires SolverParams(pr) && Sized(pr, a.idxs.Length) && a.cols == pr.l
    requires WellFormed(a.idxs[..], pr.l) && DenseRowsEmpty(a.idxs[..], pr)
    ensures fresh(s) && fresh(s.c) && fresh(s.ci) && fresh(s.d) && fresh(s.di) && fresh(s.nz)
    ensures fresh(u) && fresh(u.bits) && fresh(u.gf256) && fresh(u.rowmap) && fresh(u.typ) && fresh(at)
    ensures fresh(at.idxs)
    ensures Transposed(a.idxs[..], at.idxs[..]) && at.idxs.Length == pr.l
    ensures Preconditioned(a.idxs[..], pr, s.Pm(), s.i)
    ensures Prepared(Constraints(a.idxs[..], pr, rnd), s, u, pr, n0, a.idxs.Length) && s.marks0 == Dec32(n0)
    ensures n0 == 0 <==> BlockDiagonal(a.idxs[..], s.Pm(), s.i)
    ensures s.i == 0 <==> NoneLight(a.idxs[..], pr)
  {
    hide Run, SolveState, Linked, Inverse, WrkMat.View, Full, HdpcMatrix, Preconditioned, PreInv, Transposed,
      WellFormed, DenseRowsEmpty, BlockDiagonal, Cleaned, NoneLight;
    ghost var al := a.idxs[..];
    s := new Schedule(a.idxs.Length, pr.l);
    Sort(pr, a, s);
    at := a.Transpose();
    var _ := Precond(pr, a, at, s);
    u, n0 := MakeU(pr, a, at, s, Constraints(al, pr, rnd), HdpcMatrix(rnd, pr.h, pr.l - pr.h));
  }

  /**
   precode_matrix_invert.  Barring the working matrix's abort, it finds a schedule if the columns
   of the constraint matrix are independent, and answers Singular if and only if they are not.
   It cannot abort when at most 2H rows are left outside the triangular block, or when there are at least
   L sparse rows and they determine the symbols by themselves.  Of the operations before the second
   checkpoint, elimination recorded those from e on: if it recorded any, the late operation is harmless; if
   not, only if it is spared.
   The first checkpoint stands for no operations exactly if the triangular block is diagonal; the block is
   empty exactly if no sparse row has one or two entries before the last P columns.
   */
  method Invert(pr: Params, rnd: Rnd, a: Sparse)
    returns (outcome: Outcome, s: Schedule, ghost n0: nat, ghost e: nat, ghost n1: nat)
    requires SolverParams(pr) && Sized(pr, a.idxs.Length) && a.cols == pr.l
    requires WellFormed(a.idxs[..], pr.l) && DenseRowsEmpty(a.idxs[..], pr)
    ensures fresh(s) && fresh(s.c) && fresh(s.ci) && fresh(s.d) && fresh(s.di) && fresh(s.nz)
    ensures s.Distinct(a.idxs.Length, pr.l)
    ensures outcome != Aborted ==> (outcome == Singular <==> Deficient(Constraints(a.idxs[..], pr, rnd), pr.l))
    ensures outcome == Aborted ==> 2 * pr.h < a.idxs.Length - s.i
    ensures outcome == Aborted && a.idxs.Length >= pr.l + pr.h ==>
      Deficient(SparsePart(Constraints(a.idxs[..], pr, rnd), pr.s, pr.s + pr.h, pr.l), pr.l)
    ensures outcome == Inverted ==> Complete(Constraints(a.idxs[..], pr, rnd), s, n0, n1)
    ensures outcome == Inverted ==> Traced(a.idxs[..], pr, s.ops, s.Pm(), s.i, n0, e, n1)
    ensures outcome == Inverted && 0 < n0 ==>
      (LateHarmless(s.ops, n0, n1, s.Pm()) <==> e < n1 || LateSpared(s.ops, n0, n1, s.Pm()))
    ensures s.i == 0 <==> NoneLight(a.idxs[..], pr)
  {
    hide Run, SolveState, Linked, Inverse, WrkMat.View, Full, HdpcMatrix, Preconditioned, Deficient, Transposed,
      Inverts, WellFormed, DenseRowsEmpty, BlockDiagonal, Since, LateHarmless, LateSpared, Cleaned, NoneLight;
    ghost var al, hd := a.idxs[..], HdpcMatrix(rnd, pr.h, pr.l - pr.h);
    ghost var full := Constraints(al, pr, rnd);
    var at, u;
    s, at, u, n0 := Prepare(pr, rnd, a);
    ghost var pm0, f1 := s.Pm(), s.ops[..n0];
    ghost var lim, lo, hi;
    outcome, lim, lo, hi, e := Eliminate(pr, rnd, u, s, full, n0, al);
    n1 := |s.ops|;
    if outcome == Inverted {
      ghost var ops := s.ops;
      n1 := FinishSchedule(pr, u, s, at, full, f1, al, hd, pm0, lim, lo, hi);
      assert s.ops[..n0] == f1 && s.ops[..n1] == ops;
      BlockDiagonalKept(al, pm0, s.Pm(), s.i);
      if 0 < n0 {
        LateHarmlessIff(full, s.Pm(), s.i, s.ops, n0, n1, e);
      }
    }
  }

  lemma BlockDiagonalKept(a: Lists, pm0: Perms, pm: Perms, i: nat)
    requires TopKept(pm0, pm, i)
    ensures BlockDiagonal(a, pm0, i) <==> BlockDiagonal(a, pm, i)
  {
    assert forall k :: 0 <= k < i ==> pm.d[k] == pm0.d[k];
    if BlockDiagonal(a, pm0, i) {
      forall j, k | 0 <= j < k < i ensures pm.c[j] !in a[pm.d[k]] {
        assert pm0.c[j] !in a[pm0.d[k]];
      }
    }
    if BlockDiagonal(a, pm, i) {
      forall j, k | 0 <= j < k < i ensures pm0.c[j] !in a[pm0.d[k]] {
        assert pm.c[j] !in a[pm.d[k]];
      }
    }
  }

  /** The second checkpoint and back-substitution. */
  method FinishSchedule(pr: Params, u: WrkMat, s: Schedule, at: Sparse, ghost full: Mat, ghost f1: seq<Op>,
                        ghost a: Lists, ghost hd: Mat, ghost pm0: Perms, ghost lim: nat, ghost lo: nat, ghost hi: nat)
    returns (ghost n1: nat)
    requires u.Valid() && u.rows == |a| && s.Distinct(|a|, at.idxs.Length) && s.i + u.cols == s.c.Length == pr.l
    requires Transposed(a, at.idxs[..]) && Preconditioned(a, pr, pm0, s.i) && TopKept(pm0, s.Pm(), s.i)
    requires pr.h <= pr.l && IsMat(hd, pr.h, pr.l - pr.h) && full == Full(a, pr, hd) && pr.l <= lim
    requires SolveState(full, f1, s.ops, u.View(), s.Pm(), s.i, pr.l, lim, lo, hi)
    modifies s`ops, s`marks1
    ensures n1 == |old(s.ops)| && s.marks1 == Dec32(n1) && old(s.ops) <= s.ops && |f1| <= n1 && f1 <= s.ops
    ensures Inverts(full, s.Pm(), s.i, f1, s.ops[|f1|..n1], s.ops[n1..])
    ensures !Deficient(full, pr.l)
  {
    hide Run, SolveState, Linked, Inverse, WrkMat.View, Full, HdpcMatrix, Preconditioned, Transposed, Inverts,
      BackReady, BackSolved, Unwound, Upper, Deficient;
    ghost var ops, v, pm := s.ops, u.View(), s.Pm();
    s.marks1 := Dec32(|s.ops|);
    n1 := |s.ops|;
    ReadyForBack(full, f1, ops, v, a, pr, hd, pm0, pm, s.i, lim, lo, hi);
    EliminatedUpper(full, f1, ops, v, pm, s.i, lim, lo, hi, pr.l);
    TriangularNotDeficient(full, ops, pm);
    Backsolve(u, s, at, Unwound(full, f1, ops[|f1|..], pr.l), a);
    ScheduleInverts(full, f1, ops, s.ops, v, pm, s.i, lim, lo, hi);
    assert s.ops[..n1] == ops;
    assert s.ops[|f1|..n1] == ops[|f1|..];
  }
}
