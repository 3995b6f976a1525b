/**
 Replaying a schedule: forward elimination, the additions of the first pass undone, back
 substitution, and the first pass again (raptorq/precode.c, lines 15-32), the code's version of
 the phases of section 5.4.2 of RFC 6330.
 */
module Replaying {
  import opened GF256
  import opened Tables
  import opened Linear
  import opened SpMat
  import opened Permutation
  import opened Scheduling
  import opened Elimination
  import opened Gauss
  import opened BackSubstitution
  import opened Rank

  /** The matrix after forward elimination and the reversal of the first pass. */
  ghost function Unwound(full: Mat, f1: seq<Op>, f2: seq<Op>, cols: nat): (m: Mat)
    requires IsMat(full, |full|, cols) && ValidOps(f1, |full|) && ValidOps(f2, |full|)
    ensures IsMat(m, |full|, cols)
  {
    ReverseValid(f1, |full|);
    Run(Run(Run(full, f1, cols), f2, cols), Reverse(f1), cols)
  }

  lemma ReverseValid(ops: seq<Op>, rows: nat)
    requires ValidOps(ops, rows)
    ensures ValidOps(Reverse(ops), rows)
  {}

  /**
   The parts of an inverting schedule: f1 turns the triangular block into the identity, f2 changes
   rows from position i on only and makes them upper triangular, and b solves what is left once
   f1 is undone.
   */
  ghost predicate Inverts(full: Mat, pm: Perms, i: nat, f1: seq<Op>, f2: seq<Op>, b: seq<Op>) {
    && IsMat(full, |pm.d|, |pm.c|) && pm.Valid(|pm.d|, |pm.c|) && i <= |pm.c| <= |pm.d|
    && ValidOps(f1, |full|) && ValidOps(f2, |full|) && ValidOps(b, |full|)
    && Additions(full, f1, pm, i, 0, i) && TopIdentity(Run(full, f1, |pm.c|), pm, i)
    && LowTargets(f2, pm.di, i) && UpperTargets(b, pm, i)
    && Upper(Run(Run(full, f1, |pm.c|), f2, |pm.c|), pm, |pm.c|)
    && BackDone(Unwound(full, f1, f2, |pm.c|), Run(Unwound(full, f1, f2, |pm.c|), b, |pm.c|), pm, i, i)
  }

  /** The rows of the triangular block. */
  ghost function Top(pm: Perms, i: nat): set<nat>
    requires i <= |pm.d|
  {
    set k | 0 <= k < i :: pm.d[k]
  }

  lemma TopTouches(full: Mat, ops: seq<Op>, pm: Perms, i: nat)
    requires Additions(full, ops, pm, i, 0, i) && Inverse(pm.d, pm.di) && i <= |pm.d|
    ensures Touches(ops, Top(pm, i)) && Touches(Reverse(ops), Top(pm, i))
  {
    forall k | 0 <= k < |ops| ensures ops[k].i in Top(pm, i) && ops[k].j in Top(pm, i) {
      assert Addition(full, ops[k], pm, i, 0, i);
      assert pm.d[pm.di[ops[k].i]] == ops[k].i && pm.d[pm.di[ops[k].j]] == ops[k].j;
    }
  }

  /** Rows outside the block keep their values under operations among the block's rows. */
  lemma OutsideKept(m: Mat, ops: seq<Op>, cols: nat, pm: Perms, i: nat, k: nat)
    requires i <= k < |pm.d| == |m| && Inverse(pm.d, pm.di)
    requires IsMat(m, |m|, cols) && ValidOps(ops, |m|) && Touches(ops, Top(pm, i))
    ensures pm.d[k] < |m| && Run(m, ops, cols)[pm.d[k]] == m[pm.d[k]]
  {
    forall x | 0 <= x < |ops| ensures ops[x].i != pm.d[k] {
      assert ops[x].i in Top(pm, i);
      var y :| 0 <= y < i && pm.d[y] == ops[x].i;
      assert pm.di[pm.d[y]] == y && pm.di[pm.d[k]] == k;
    }
    RunKeepsRow(m, ops, cols, pm.d[k]);
  }

  /** Rows in the block keep their values under operations that only change rows outside it. */
  lemma InsideKept(m: Mat, ops: seq<Op>, cols: nat, pm: Perms, i: nat, k: nat)
    requires IsMat(m, |m|, cols) && ValidOps(ops, |m|) && LowTargets(ops, pm.di, i)
    requires k < i <= |pm.d| == |m| && Inverse(pm.d, pm.di)
    ensures pm.d[k] < |m| && Run(m, ops, cols)[pm.d[k]] == m[pm.d[k]]
  {
    assert pm.di[pm.d[k]] == k;
    RunKeepsRow(m, ops, cols, pm.d[k]);
  }

  /** Undoing the first pass restores the block's rows and leaves the others eliminated. */
  lemma UnwoundRows(full: Mat, pm: Perms, i: nat, f1: seq<Op>, f2: seq<Op>)
    requires IsMat(full, |pm.d|, |pm.c|) && pm.Valid(|pm.d|, |pm.c|) && i <= |pm.d|
    requires ValidOps(f1, |full|) && ValidOps(f2, |full|)
    requires Additions(full, f1, pm, i, 0, i) && LowTargets(f2, pm.di, i)
    ensures forall k :: 0 <= k < i ==> Unwound(full, f1, f2, |pm.c|)[pm.d[k]] == full[pm.d[k]]
    ensures forall k :: i <= k < |pm.d| ==>
      Unwound(full, f1, f2, |pm.c|)[pm.d[k]] == Run(Run(full, f1, |pm.c|), f2, |pm.c|)[pm.d[k]]
  {
    hide Run;
    var m1 := Run(full, f1, |pm.c|);
    var m3 := Run(m1, f2, |pm.c|);
    TopTouches(full, f1, pm, i);
    ReverseValid(f1, |full|);
    forall k | i <= k < |pm.d| ensures Unwound(full, f1, f2, |pm.c|)[pm.d[k]] == m3[pm.d[k]] {
      OutsideKept(m3, Reverse(f1), |pm.c|, pm, i, k);
    }
    forall r | r in Top(pm, i) ensures r < |full| && m3[r] == m1[r] {
      var k :| 0 <= k < i && pm.d[k] == r;
      InsideKept(m1, f2, |pm.c|, pm, i, k);
    }
    ReverseUndoes(full, f1, |pm.c|);
    forall k | 0 <= k < i ensures Unwound(full, f1, f2, |pm.c|)[pm.d[k]] == full[pm.d[k]] {
      forall x | 0 <= x < |pm.c| ensures Unwound(full, f1, f2, |pm.c|)[pm.d[k]][x] == full[pm.d[k]][x] {
        RunLocal(m3, m1, Reverse(f1), |pm.c|, |pm.c|, x, x, Top(pm, i));
        assert pm.d[k] in Top(pm, i);
      }
    }
  }

  /** The rows of the square part are unit rows: position k of m is column c[k]. */
  ghost predicate Solved(m: Mat, pm: Perms) {
    && Square(m, pm)
    && forall k, j :: 0 <= k < |pm.c| && 0 <= j < |pm.c| ==> At(m, pm, k, j) == if k == j then 1 else 0
  }

  ghost function Phases(f1: seq<Op>, f2: seq<Op>, b: seq<Op>): seq<Op> {
    f1 + f2 + Reverse(f1) + b + f1
  }

  /** The last phase: running the first pass over the back-substituted matrix. */
  lemma LastPhase(full: Mat, m0: Mat, m5: Mat, pm: Perms, i: nat, f1: seq<Op>)
    requires Fits(full, pm) && |full| == |m5| && ValidOps(f1, |full|) && Additions(full, f1, pm, i, 0, i)
    requires TopIdentity(Run(full, f1, |pm.c|), pm, i) && BackDone(m0, m5, pm, i, i)
    requires forall k :: 0 <= k < i ==> m0[pm.d[k]] == full[pm.d[k]]
    requires forall k, j :: i <= k < |pm.c| && 0 <= j < i ==> At(m0, pm, k, j) == 0
    ensures Solved(Run(m5, f1, |pm.c|), pm)
  {
    hide Run, Additions, TopIdentity, Touches, Top;
    var m6 := Run(m5, f1, |pm.c|);
    TopTouches(full, f1, pm, i);
    forall k, j | 0 <= k < |pm.c| && 0 <= j < |pm.c| ensures At(m6, pm, k, j) == if k == j then 1 else 0 {
      if k >= i {
        OutsideKept(m5, f1, |pm.c|, pm, i, k);
        assert At(m6, pm, k, j) == At(m5, pm, k, j);
      } else if j >= i {
        LastPhaseZero(m5, pm, i, f1, j, k);
      } else {
        LastPhaseIdentity(full, m0, m5, pm, i, f1, j, k);
      }
    }
  }

  lemma LastPhaseZero(m5: Mat, pm: Perms, i: nat, f1: seq<Op>, j: nat, k: nat)
    requires Fits(m5, pm) && ValidOps(f1, |m5|) && k < i <= j < |pm.c| && i <= |pm.d| && Touches(f1, Top(pm, i))
    requires forall q :: 0 <= q < i ==> At(m5, pm, q, j) == 0
    ensures At(Run(m5, f1, |pm.c|), pm, k, j) == 0
  {
    hide Run;
    var z := ZeroMat(|m5|, |pm.c|);
    RunZero(|m5|, |pm.c|, f1);
    forall r | r in Top(pm, i) && r < |m5| ensures m5[r][pm.c[j]] == z[r][pm.c[j]] {
      var q :| 0 <= q < i && pm.d[q] == r;
      assert At(m5, pm, q, j) == 0;
    }
    RunLocal(m5, z, f1, |pm.c|, |pm.c|, pm.c[j], pm.c[j], Top(pm, i));
    assert pm.d[k] in Top(pm, i);
  }

  lemma LastPhaseIdentity(full: Mat, m0: Mat, m5: Mat, pm: Perms, i: nat, f1: seq<Op>, j: nat, k: nat)
    requires Fits(full, pm) && |full| == |m5| && ValidOps(f1, |m5|)
    requires k < i && j < i && i <= |pm.d| && BackDone(m0, m5, pm, i, i) && Touches(f1, Top(pm, i))
    requires TopIdentity(Run(full, f1, |pm.c|), pm, i)
    requires forall k :: 0 <= k < i ==> m0[pm.d[k]] == full[pm.d[k]]
    ensures At(Run(m5, f1, |pm.c|), pm, k, j) == if k == j then 1 else 0
  {
    hide Run;
    forall r | r in Top(pm, i) && r < |m5| ensures m5[r][pm.c[j]] == full[r][pm.c[j]] {
      var q :| 0 <= q < i && pm.d[q] == r;
      assert At(m5, pm, q, j) == At(m0, pm, q, j);
    }
    RunLocal(m5, full, f1, |pm.c|, |pm.c|, pm.c[j], pm.c[j], Top(pm, i));
    assert pm.d[k] in Top(pm, i);
    assert At(Run(full, f1, |pm.c|), pm, k, j) == if j == k then 1 else 0;
  }

  /** The phases in their intended order turn the constraint matrix into unit rows. */
  lemma PhasesSolve(full: Mat, pm: Perms, i: nat, f1: seq<Op>, f2: seq<Op>, b: seq<Op>)
    requires Inverts(full, pm, i, f1, f2, b)
    ensures ValidOps(Phases(f1, f2, b), |full|)
    ensures Solved(Run(full, Phases(f1, f2, b), |pm.c|), pm)
  {
    hide Run;
    ReverseValid(f1, |full|);
    RunAppend(full, f1, f2, |pm.c|);
    RunAppend(full, f1 + f2, Reverse(f1), |pm.c|);
    RunAppend(full, f1 + f2 + Reverse(f1), b, |pm.c|);
    RunAppend(full, f1 + f2 + Reverse(f1) + b, f1, |pm.c|);
    var m4 := Unwound(full, f1, f2, |pm.c|);
    var m5 := Run(m4, b, |pm.c|);
    UnwoundRows(full, pm, i, f1, f2);
    var m3 := Run(Run(full, f1, |pm.c|), f2, |pm.c|);
    forall k, j | i <= k < |pm.c| && 0 <= j < i ensures At(m4, pm, k, j) == 0 {
      assert At(m4, pm, k, j) == At(m3, pm, k, j);
    }
    LastPhase(full, m4, m5, pm, i, f1);
  }
}
