/**
 The order the source replays in.  Its second checkpoint is one short, so the last operation of
 forward elimination runs after the first pass has been undone instead of before.  This file
 says exactly when that makes a difference.
 */
module ReplayOrder {
  import opened GF256
  import opened Tables
  import opened Linear
  import opened SpMat
  import opened Permutation
  import opened Scheduling
  import opened Elimination
  import opened Gauss
  import opened BackSubstitution
  import opened Rank
  import opened Replaying

  /** The phases as replayed: the last operation of e runs after the reversal of f1. */
  ghost function ActualPhases(f1: seq<Op>, e: seq<Op>, b: seq<Op>): seq<Op>
    requires e != []
  {
    e[..|e| - 1] + Reverse(f1) + [e[|e| - 1]] + b + f1
  }

  /** n is m with w added to row t, as far as the rows in `good` and row t are concerned. */
  ghost predicate DiffersAt(m: Mat, n: Mat, cols: nat, good: set<nat>, t: nat, w: Vec) {
    && IsMat(m, |m|, cols) && IsMat(n, |m|, cols) && t < |m| && |w| == cols && t !in good
    && (forall r :: r in good && r < |m| ==> n[r] == m[r])
    && n[t] == Plus(m[t], w)
  }

  /** Operations into the rows of `good` or into t add rows of `good`. */
  ghost predicate ReadsGood(ops: seq<Op>, good: set<nat>, t: nat) {
    forall k :: 0 <= k < |ops| && (ops[k].i in good || ops[k].i == t) ==> ops[k].beta != 0 && ops[k].j in good
  }

  lemma DiffStep(m: Mat, n: Mat, op: Op, cols: nat, good: set<nat>, t: nat, w: Vec)
    requires DiffersAt(m, n, cols, good, t, w) && ValidOp(op, |m|)
    requires op.i in good || op.i == t ==> op.beta != 0 && op.j in good
    ensures DiffersAt(ApplyOp(m, op), ApplyOp(n, op), cols, good, t, w)
  {
    hide Add, Mul;
    var m', n' := ApplyOp(m, op), ApplyOp(n, op);
    if op.i == t {
      forall k | 0 <= k < cols ensures n'[t][k] == Plus(m'[t], w)[k] {
        var x := Mul(op.beta, m[op.j][k]);
        AddAssoc(m[t][k], w[k], x);
        AddComm(w[k], x);
        AddAssoc(m[t][k], x, w[k]);
      }
    }
  }

  lemma {:induction false} RunDiff(m: Mat, n: Mat, ops: seq<Op>, cols: nat, good: set<nat>, t: nat, w: Vec)
    requires DiffersAt(m, n, cols, good, t, w) && ValidOps(ops, |m|) && ReadsGood(ops, good, t)
    ensures DiffersAt(Run(m, ops, cols), Run(n, ops, cols), cols, good, t, w)
    decreases |ops|
  {
    hide DiffersAt;
    assert IsMat(m, |m|, cols) && IsMat(n, |n|, cols) && |n| == |m| by { DiffShape(m, n, cols, good, t, w); }
    if ops != [] {
      var init, op := ops[..|ops| - 1], ops[|ops| - 1];
      RunDiff(m, n, init, cols, good, t, w);
      DiffStep(Run(m, init, cols), Run(n, init, cols), op, cols, good, t, w);
    }
  }

  lemma DiffShape(m: Mat, n: Mat, cols: nat, good: set<nat>, t: nat, w: Vec)
    requires DiffersAt(m, n, cols, good, t, w)
    ensures IsMat(m, |m|, cols) && IsMat(n, |n|, cols) && |n| == |m|
  {}

  /** What the late operation adds too much: beta times the change the first pass made to its source row. */
  ghost function Excess(full: Mat, m1: Mat, op: Op, cols: nat): (w: Vec)
    requires IsMat(full, |full|, cols) && IsMat(m1, |full|, cols) && ValidOp(op, |full|)
    ensures |w| == cols
  {
    if op.beta == 0 then ZeroMat(1, cols)[0] else Scaled(Plus(full[op.j], m1[op.j]), op.beta)
  }

  ghost function Below(n: nat): (s: set<nat>)
    ensures forall r: nat :: r in s <==> r < n
  {
    if n == 0 then {} else Below(n - 1) + {n - 1}
  }

  lemma PlusZero(a: Vec, w: Vec)
    requires |a| == |w| && forall k :: 0 <= k < |w| ==> w[k] == 0
    ensures Plus(a, w) == a
  {
    hide Add;
    forall k | 0 <= k < |a| ensures Plus(a, w)[k] == a[k] {
      AddZero(a[k]);
    }
  }

  /** beta*x added to y, against beta*z added to y: the difference is beta*(x+z). */
  lemma LateAddition(y: Vec, x: Vec, z: Vec, beta: Octet)
    requires |x| == |y| == |z|
    ensures AddScaled(y, x, beta) == Plus(AddScaled(y, z, beta), Scaled(Plus(x, z), beta))
  {
    hide Add, Mul;
    forall k | 0 <= k < |y|
      ensures AddScaled(y, x, beta)[k] == Plus(AddScaled(y, z, beta), Scaled(Plus(x, z), beta))[k]
    {
      var p, q := Mul(beta, x[k]), Mul(beta, z[k]);
      MulAddRight(beta, x[k], z[k]);
      AddComm(p, q);
      AddAssoc(y[k], q, Add(q, p));
      AddAssoc(q, q, p);
      AddSelf(q);
      AddZero(p);
    }
  }

  /**
   Just before back-substitution, the actual matrix is the intended one with the excess added to
   the target of the late operation.
   */
  ghost predicate Displaced(full: Mat, pm: Perms, f1: seq<Op>, f2: seq<Op>)
    requires IsMat(full, |full|, |pm.c|) && ValidOps(f1, |full|) && ValidOps(f2, |full|) && f1 + f2 != []
  {
    ReverseValid(f1, |full|);
    var e, cols := f1 + f2, |pm.c|;
    var last := e[|e| - 1];
    assert ValidOps(e[..|e| - 1], |full|) && ValidOp(last, |full|);
    var x := ApplyOp(Run(Run(full, e[..|e| - 1], cols), Reverse(f1), cols), last);
    DiffersAt(Unwound(full, f1, f2, cols), x, cols, Below(|full|) - {last.i}, last.i,
              Excess(full, Run(full, f1, cols), last, cols))
  }

  /** The last operation comes from the phases after the first pass. */
  lemma DisplacedLow(full: Mat, pm: Perms, i: nat, f1: seq<Op>, f2: seq<Op>)
    requires IsMat(full, |pm.d|, |pm.c|) && pm.Valid(|pm.d|, |pm.c|) && i <= |pm.d|
    requires ValidOps(f1, |full|) && ValidOps(f2, |full|) && f2 != []
    requires Additions(full, f1, pm, i, 0, i) && LowTargets(f2, pm.di, i)
    ensures Displaced(full, pm, f1, f2)
  {
    hide Run, Additions, Add, Mul;
    var cols, f2', last := |pm.c|, f2[..|f2| - 1], f2[|f2| - 1];
    var m1 := Run(full, f1, cols);
    assert (f1 + f2)[..|f1 + f2| - 1] == f1 + f2';
    RunAppend(full, f1, f2', cols);
    var m' := Run(m1, f2', cols);
    RunPush(m1, f2', last, cols);
    assert f2' + [last] == f2;
    UnwoundRows(full, pm, i, f1, f2');
    UnwoundRows(full, pm, i, f1, f2);
    var x, y := ApplyOp(Unwound(full, f1, f2', cols), last), Unwound(full, f1, f2, cols);
    forall r | 0 <= r < |full| && r != last.i ensures x[r] == y[r] {
      assert pm.d[pm.di[r]] == r;
    }
    LateTarget(full, m1, m', Unwound(full, f1, f2', cols), pm, i, f1, f2', last);
    assert pm.d[pm.di[last.i]] == last.i;
  }

  lemma LateTarget(full: Mat, m1: Mat, m': Mat, u: Mat, pm: Perms, i: nat, f1: seq<Op>, f2': seq<Op>, last: Op)
    requires IsMat(full, |pm.d|, |pm.c|) && pm.Valid(|pm.d|, |pm.c|) && i <= |pm.d|
    requires ValidOps(f1, |full|) && ValidOps(f2', |full|) && ValidOp(last, |full|)
    requires Additions(full, f1, pm, i, 0, i) && LowTargets(f2', pm.di, i) && pm.di[last.i] >= i
    requires m1 == Run(full, f1, |pm.c|) && m' == Run(m1, f2', |pm.c|) && u == Unwound(full, f1, f2', |pm.c|)
    ensures ApplyOp(u, last)[last.i] == Plus(ApplyOp(m', last)[last.i], Excess(full, m1, last, |pm.c|))
  {
    hide Run, Additions, Add, Mul;
    UnwoundRows(full, pm, i, f1, f2');
    TopTouches(full, f1, pm, i);
    assert pm.d[pm.di[last.i]] == last.i && u[last.i] == m'[last.i];
    if last.beta == 0 {
      PlusZero(ApplyOp(m', last)[last.i], Excess(full, m1, last, |pm.c|));
    } else {
      var q := pm.di[last.j];
      assert pm.d[q] == last.j;
      if q < i {
        InsideKept(m1, f2', |pm.c|, pm, i, q);
        LateAddition(m'[last.i], full[last.j], m1[last.j], last.beta);
      } else {
        OutsideKept(full, f1, |pm.c|, pm, i, q);
        NoExcess(full[last.j], last.beta);
        PlusZero(ApplyOp(m', last)[last.i], Excess(full, m1, last, |pm.c|));
      }
    }
  }

  lemma NoExcess(a: Vec, beta: Octet)
    ensures forall k :: 0 <= k < |a| ==> Scaled(Plus(a, a), beta)[k] == 0
  {
    hide Add, Mul;
    forall k | 0 <= k < |a| ensures Scaled(Plus(a, a), beta)[k] == 0 {
      AddSelf(a[k]);
      MulZero(beta);
    }
  }

  /** Operations of the first pass before the last one never add the last one's target. */
  lemma TargetNotAdded(full: Mat, f1: seq<Op>, pm: Perms, i: nat)
    requires Additions(full, f1, pm, i, 0, i) && f1 != []
    ensures forall k :: 0 <= k < |f1| ==> f1[k].j != f1[|f1| - 1].i
  {
    var last := f1[|f1| - 1];
    assert Addition(full, last, pm, i, 0, i);
    forall k | 0 <= k < |f1| ensures f1[k].j != last.i {
      assert Addition(full, f1[k], pm, i, 0, i);
    }
  }

  lemma AdditionsPrefix(full: Mat, f1: seq<Op>, pm: Perms, i: nat)
    requires Additions(full, f1, pm, i, 0, i) && f1 != []
    ensures Additions(full, f1[..|f1| - 1], pm, i, 0, i)
    ensures forall k :: 0 <= k < |f1| ==> f1[k].beta == 1
  {
    forall k | 0 <= k < |f1| ensures Addition(full, f1[k], pm, i, 0, i) {}
  }

  lemma AddOne(a: Vec, b: Vec)
    requires |a| == |b|
    ensures AddScaled(a, b, 1) == Plus(a, b)
  {
    hide Add, Mul;
    forall k | 0 <= k < |a| ensures AddScaled(a, b, 1)[k] == Plus(a, b)[k] {
      MulOneLeft(b[k]);
    }
  }

  lemma PlusAssoc(a: Vec, b: Vec, c: Vec)
    requires |a| == |b| == |c|
    ensures Plus(Plus(a, b), c) == Plus(a, Plus(c, b))
  {
    hide Add;
    forall k | 0 <= k < |a| ensures Plus(Plus(a, b), c)[k] == Plus(a, Plus(c, b))[k] {
      AddAssoc(a[k], b[k], c[k]);
      AddComm(b[k], c[k]);
    }
  }

  /** Scaling by one does nothing. */
  lemma ScaledOne(a: Vec)
    ensures Scaled(a, 1) == a
  {
    hide Mul;
    forall k | 0 <= k < |a| ensures Scaled(a, 1)[k] == a[k] {
      MulOneLeft(a[k]);
    }
  }

  /** Leaving out the last addition of a reversed pass shows up in its target row only. */
  lemma ReverseLess(full: Mat, pm: Perms, i: nat, f1: seq<Op>)
    requires IsMat(full, |pm.d|, |pm.c|) && pm.Valid(|pm.d|, |pm.c|) && ValidOps(f1, |full|) && f1 != []
    requires Additions(full, f1, pm, i, 0, i)
    ensures ValidOps(f1[..|f1| - 1], |full|) && ValidOps(Reverse(f1[..|f1| - 1]), |full|)
    ensures DiffersAt(full, Run(Run(full, f1, |pm.c|), Reverse(f1[..|f1| - 1]), |pm.c|), |pm.c|,
                      Below(|full|) - {f1[|f1| - 1].i}, f1[|f1| - 1].i, Run(full, f1, |pm.c|)[f1[|f1| - 1].j])
  {
    var cols, f1', last := |pm.c|, f1[..|f1| - 1], f1[|f1| - 1];
    var m', m1 := Run(full, f1', cols), Run(full, f1, cols);
    TargetNotAdded(full, f1, pm, i);
    AdditionsPrefix(full, f1, pm, i);
    assert m1 == ApplyOp(m', last);
    hide Run, Additions, Add, Mul;
    AddOne(m'[last.i], m'[last.j]);
    assert last.j != last.i && m1[last.j] == m'[last.j];
    var good := Below(|full|) - {last.i};
    ReverseValid(f1', |full|);
    assert DiffersAt(m', m1, cols, good, last.i, m1[last.j]);
    assert ReadsGood(Reverse(f1'), good, last.i);
    RunDiff(m', m1, Reverse(f1'), cols, good, last.i, m1[last.j]);
    ReverseUndoes(full, f1', cols);
  }

  /** The last operation is the last of the first pass: nothing followed it. */
  lemma DisplacedTop(full: Mat, pm: Perms, i: nat, f1: seq<Op>)
    requires IsMat(full, |pm.d|, |pm.c|) && pm.Valid(|pm.d|, |pm.c|) && ValidOps(f1, |full|) && f1 != []
    requires Additions(full, f1, pm, i, 0, i)
    ensures ValidOps([], |full|) && Displaced(full, pm, f1, [])
  {
    hide Run, Additions, Add, Mul, DiffersAt, ApplyOp, AddScaled;
    var cols, f1', last := |pm.c|, f1[..|f1| - 1], f1[|f1| - 1];
    assert f1 + [] == f1;
    ReverseLess(full, pm, i, f1);
    AdditionsPrefix(full, f1, pm, i);
    ReverseUndoes(full, f1, cols);
    var m', m1 := Run(full, f1', cols), Run(full, f1, cols);
    RunEmpty(m1, cols);
    RunPush(full, f1', last, cols);
    assert f1' + [last] == f1;
    ReverseFirst(m', f1, cols);
    LateOnTop(full, m1, Run(m1, Reverse(f1'), cols), last, cols);
  }

  lemma RunEmpty(m: Mat, cols: nat)
    requires IsMat(m, |m|, cols)
    ensures ValidOps([], |m|) && Run(m, [], cols) == m
  {}

  /** Adding the late operation to a matrix already displaced by the eliminated source row. */
  lemma LateOnTop(full: Mat, m1: Mat, q: Mat, last: Op, cols: nat)
    requires IsMat(full, |full|, cols) && IsMat(m1, |full|, cols) && ValidOp(last, |full|) && last.beta == 1
    requires DiffersAt(full, q, cols, Below(|full|) - {last.i}, last.i, m1[last.j])
    ensures IsMat(q, |full|, cols)
    ensures DiffersAt(full, ApplyOp(q, last), cols, Below(|full|) - {last.i}, last.i, Excess(full, m1, last, cols))
  {
    hide Add, Mul, AddScaled, Scaled, Plus;
    AddOne(q[last.i], q[last.j]);
    PlusAssoc(full[last.i], m1[last.j], full[last.j]);
    ScaledOne(Plus(full[last.j], m1[last.j]));
  }

  lemma ReverseFirst(m: Mat, ops: seq<Op>, cols: nat)
    requires IsMat(m, |m|, cols) && ValidOps(ops, |m|) && ops != []
    ensures ValidOps(Reverse(ops), |m|) && ValidOps(Reverse(ops[..|ops| - 1]), |m|)
    ensures Run(m, Reverse(ops), cols) == Run(ApplyOp(m, ops[|ops| - 1]), Reverse(ops[..|ops| - 1]), cols)
  {
    var last, init := ops[|ops| - 1], ops[..|ops| - 1];
    ReverseValid(ops, |m|);
    ReverseValid(init, |m|);
    assert [last][..0] == [];
    RunAppend(m, [last], Reverse(init), cols);
  }

  // ---------- when the order matters ----------

  /**
   The late operation is harmless: it scales, or its target is an unused row, or the first pass
   left its source row alone.
   */
  predicate Harmless(f1: seq<Op>, last: Op, pm: Perms)
    requires last.i < |pm.di|
  {
    last.beta == 0 || pm.di[last.i] >= |pm.c| || forall k :: 0 <= k < |f1| ==> f1[k].i != last.j
  }

  /** Rows at positions in [lo, hi). */
  ghost function Band(pm: Perms, lo: nat, hi: nat): set<nat>
    requires hi <= |pm.d|
  {
    set k | lo <= k < hi :: pm.d[k]
  }

  lemma DiffWeaken(m: Mat, n: Mat, cols: nat, good: set<nat>, good': set<nat>, t: nat, w: Vec)
    requires DiffersAt(m, n, cols, good, t, w) && t !in good' && forall r :: r in good' ==> r in good
    ensures DiffersAt(m, n, cols, good', t, w)
  {}

  /** The rows that decide what ends up in row t, and that the late operation leaves alone. */
  ghost function Deciding(pm: Perms, i: nat, t: nat): set<nat>
    requires t < |pm.di| == |pm.d| && |pm.c| <= |pm.d|
  {
    if pm.di[t] < i then Below(|pm.d|) - {t}
    else if pm.di[t] < |pm.c| then Band(pm, pm.di[t] + 1, |pm.c|)
    else Band(pm, 0, |pm.c|)
  }

  lemma DecidingReads(full: Mat, pm: Perms, i: nat, f1: seq<Op>, b: seq<Op>, t: nat)
    requires Inverse(pm.d, pm.di) && i <= |pm.c| <= |pm.d| && t < |pm.d| && ValidOps(f1, |pm.d|) && ValidOps(b, |pm.d|)
    requires Additions(full, f1, pm, i, 0, i) && UpperTargets(b, pm, i)
    requires pm.di[t] < i ==> forall k :: 0 <= k < |f1| ==> f1[k].j != t
    ensures t !in Deciding(pm, i, t) && forall r :: r in Deciding(pm, i, t) ==> r < |pm.d|
    ensures ReadsGood(b, Deciding(pm, i, t), t) && ReadsGood(f1, Deciding(pm, i, t), t)
  {
    var good := Deciding(pm, i, t);
    assert forall k :: 0 <= k < |pm.d| ==> pm.di[pm.d[k]] == k;
    assert forall r :: 0 <= r < |pm.d| ==> pm.d[pm.di[r]] == r;
    forall k | 0 <= k < |f1| && (f1[k].i in good || f1[k].i == t) ensures f1[k].beta != 0 && f1[k].j in good {
      assert Addition(full, f1[k], pm, i, 0, i);
    }
    forall k | 0 <= k < |b| && (b[k].i in good || b[k].i == t) ensures b[k].beta != 0 && b[k].j in good {
      assert pm.d[pm.di[b[k].j]] == b[k].j;
    }
  }

  /** The excess is zero when the late operation's source row was left alone, and not otherwise. */
  lemma ExcessZero(full: Mat, pm: Perms, i: nat, f1: seq<Op>, last: Op)
    requires IsMat(full, |pm.d|, |pm.c|) && ValidOps(f1, |full|) && ValidOp(last, |full|)
    requires last.beta == 0 || forall k :: 0 <= k < |f1| ==> f1[k].i != last.j
    ensures forall k :: 0 <= k < |pm.c| ==> Excess(full, Run(full, f1, |pm.c|), last, |pm.c|)[k] == 0
  {
    hide Run, Add, Mul;
    if last.beta != 0 {
      RunKeepsRow(full, f1, |pm.c|, last.j);
      NoExcess(full[last.j], last.beta);
    }
  }

  lemma ExcessNonzero(full: Mat, pm: Perms, i: nat, f1: seq<Op>, last: Op, k: nat) returns (x: nat)
    requires IsMat(full, |pm.d|, |pm.c|) && pm.Valid(|pm.d|, |pm.c|) && ValidOps(f1, |full|) && ValidOp(last, |full|)
    requires Additions(full, f1, pm, i, 0, i) && TopIdentity(Run(full, f1, |pm.c|), pm, i)
    requires last.beta != 0 && k < |f1| && f1[k].i == last.j
    ensures x < |pm.c| && Excess(full, Run(full, f1, |pm.c|), last, |pm.c|)[x] != 0
  {
    hide Run, Add, Mul, Additions;
    var m1 := Run(full, f1, |pm.c|);
    assert Addition(full, f1[k], pm, i, 0, i) by { AdditionsAt(full, f1, pm, i, k); }
    var p, q := pm.di[f1[k].i], pm.di[f1[k].j];
    x := pm.c[q];
    assert pm.d[p] == last.j && At(m1, pm, p, q) == 0;
    AddZero(1);
    MulOneRight(last.beta);
  }

  /** An operation of the solving phases, whose source row is outside the block, is harmless. */
  lemma SolvingHarmless(full: Mat, pm: Perms, i: nat, f1: seq<Op>, last: Op)
    requires Additions(full, f1, pm, i, 0, i) && last.i < |pm.di|
    requires last.beta != 0 ==> last.j < |pm.di| && pm.di[last.j] >= i
    ensures Harmless(f1, last, pm)
  {
    hide Additions, Addition;
    forall k | 0 <= k < |f1| ensures last.beta != 0 ==> f1[k].i != last.j {
      AdditionsAt(full, f1, pm, i, k);
      AdditionTarget(full, f1[k], pm, i);
    }
  }

  /** Operation n1 - 1, replayed late, leaves every row that is read after it as it should be. */
  ghost predicate LateHarmless(ops: seq<Op>, n0: nat, n1: nat, pm: Perms) {
    0 < n0 <= n1 <= |ops| && ops[n1 - 1].i < |pm.di| && Harmless(ops[..n0], ops[n1 - 1], pm)
  }

  /** The target of operation n1 - 1 is an unused row, or the first pass left its source row alone. */
  ghost predicate LateSpared(ops: seq<Op>, n0: nat, n1: nat, pm: Perms) {
    && 0 < n0 <= n1 <= |ops| && ops[n1 - 1].i < |pm.di|
    && (pm.di[ops[n1 - 1].i] >= |pm.c| || forall k :: 0 <= k < n0 ==> ops[k].i != ops[n1 - 1].j)
  }

  /**
   If elimination recorded an operation, the late operation is harmless.  If it recorded none, the late
   operation is one of a clearing pass, and harmless only if its target or its source happens to allow it.
   */
  lemma LateHarmlessIff(full: Mat, pm: Perms, i: nat, ops: seq<Op>, n0: nat, n1: nat, e: nat)
    requires 0 < n0 <= n1 <= |ops| && Inverts(full, pm, i, ops[..n0], ops[n0..n1], ops[n1..])
    requires Since(ops[..n1], pm.di, i, n0, e)
    ensures LateHarmless(ops, n0, n1, pm) <==> e < n1 || LateSpared(ops, n0, n1, pm)
    ensures e == n1 ==> AddsBlock(ops[n1 - 1], pm.di, i)
  {
    hide Run, Additions, LowTargets, UpperTargets, TopIdentity, Upper, BackDone;
    var f1, last := ops[..n0], ops[n1 - 1];
    LateIsValid(full, pm, i, ops, n0, n1);
    assert ops[..n1][n1 - 1] == last;
    if e < n1 {
      SolvingHarmless(full, pm, i, f1, last);
    } else if e == n0 {
      AdditionsAt(full, f1, pm, i, n0 - 1);
      AdditionTarget(full, last, pm, i);
    }
    assert forall k :: 0 <= k < n0 ==> f1[k] == ops[k];
  }

  lemma LateIsValid(full: Mat, pm: Perms, i: nat, ops: seq<Op>, n0: nat, n1: nat)
    requires 0 < n0 <= n1 <= |ops| && Inverts(full, pm, i, ops[..n0], ops[n0..n1], ops[n1..])
    ensures ValidOp(ops[n1 - 1], |full|) && |full| == |pm.di|
  {
    if n0 == n1 {
      assert ops[..n0][n0 - 1] == ops[n1 - 1];
    } else {
      assert ops[n0..n1][n1 - 1 - n0] == ops[n1 - 1];
    }
  }

  lemma AdditionTarget(full: Mat, op: Op, pm: Perms, i: nat)
    requires Addition(full, op, pm, i, 0, i)
    ensures op.i < |pm.di| && pm.di[op.i] < i && AddsBlock(op, pm.di, i)
  {}

  lemma AdditionsAt(full: Mat, f1: seq<Op>, pm: Perms, i: nat, k: nat)
    requires Additions(full, f1, pm, i, 0, i) && k < |f1|
    ensures Addition(full, f1[k], pm, i, 0, i)
  {}

  /**
   The replay as the source orders it solves every system the schedule inverts if and only if the
   late operation is harmless.
   */
  lemma ActualPhasesSolve(full: Mat, pm: Perms, i: nat, f1: seq<Op>, f2: seq<Op>, b: seq<Op>)
    requires Inverts(full, pm, i, f1, f2, b) && f1 + f2 != []
    ensures ValidOps(ActualPhases(f1, f1 + f2, b), |full|)
    ensures Solved(Run(full, ActualPhases(f1, f1 + f2, b), |pm.c|), pm)
       <==> Harmless(f1, (f1 + f2)[|f1 + f2| - 1], pm)
  {
    hide Run, Additions, LowTargets, UpperTargets, TopIdentity, Upper, BackDone, Displaced, DiffersAt, ReadsGood,
      Deciding, Excess, Solved, ActualPhases, Phases, ApplyOp, Dot, Add, Mul;
    var cols, e := |pm.c|, f1 + f2;
    var last := e[|e| - 1];
    ActualSplit(full, cols, f1, f2, b);
    PhasesSolve(full, pm, i, f1, f2, b);
    PhasesSplit(full, cols, f1, f2, b);
    var y, x := Unwound(full, f1, f2, cols), LateMatrix(full, f1, f2, cols);
    var w := Excess(full, Run(full, f1, cols), last, cols);
    LateDiffers(full, pm, i, f1, f2);
    LateTargetUnread(full, pm, i, f1, f2);
    DecidingReads(full, pm, i, f1, b, last.i);
    var good := Deciding(pm, i, last.i);
    DiffWeaken(y, x, cols, Below(|full|) - {last.i}, good, last.i, w);
    RunDiff(y, x, b, cols, good, last.i, w);
    RunDiff(Run(y, b, cols), Run(x, b, cols), f1, cols, good, last.i, w);
    FinalVerdict(full, Run(Run(y, b, cols), f1, cols), Run(Run(x, b, cols), f1, cols), pm, i, f1, last, w);
    if Harmless(f1, last, pm) && pm.di[last.i] < cols {
      ExcessZero(full, pm, i, f1, last);
      SameMatrix(y, x, cols, last.i, w);
    }
  }

  /** The actual matrix just before back-substitution. */
  ghost function LateMatrix(full: Mat, f1: seq<Op>, f2: seq<Op>, cols: nat): (m: Mat)
    requires IsMat(full, |full|, cols) && ValidOps(f1, |full|) && ValidOps(f2, |full|) && f1 + f2 != []
    ensures IsMat(m, |full|, cols)
  {
    ReverseValid(f1, |full|);
    var e := f1 + f2;
    var last := e[|e| - 1];
    assert ValidOps(e[..|e| - 1], |full|) && ValidOp(last, |full|);
    ApplyOpIsMat(Run(Run(full, e[..|e| - 1], cols), Reverse(f1), cols), last, cols);
    ApplyOp(Run(Run(full, e[..|e| - 1], cols), Reverse(f1), cols), last)
  }

  lemma ActualSplit(full: Mat, cols: nat, f1: seq<Op>, f2: seq<Op>, b: seq<Op>)
    requires IsMat(full, |full|, cols) && ValidOps(f1, |full|) && ValidOps(f2, |full|) && ValidOps(b, |full|)
    requires f1 + f2 != []
    ensures ValidOps(ActualPhases(f1, f1 + f2, b), |full|)
    ensures Run(full, ActualPhases(f1, f1 + f2, b), cols) == Run(Run(LateMatrix(full, f1, f2, cols), b, cols), f1, cols)
  {
    hide Run;
    var e := f1 + f2;
    var e', last := e[..|e| - 1], e[|e| - 1];
    ReverseValid(f1, |full|);
    assert ValidOps(e', |full|);
    RunAppend(full, e', Reverse(f1), cols);
    RunPush(full, e' + Reverse(f1), last, cols);
    RunAppend(full, e' + Reverse(f1) + [last], b, cols);
    RunAppend(full, e' + Reverse(f1) + [last] + b, f1, cols);
  }

  lemma PhasesSplit(full: Mat, cols: nat, f1: seq<Op>, f2: seq<Op>, b: seq<Op>)
    requires IsMat(full, |full|, cols) && ValidOps(f1, |full|) && ValidOps(f2, |full|) && ValidOps(b, |full|)
    requires ValidOps(Phases(f1, f2, b), |full|)
    ensures Run(full, Phases(f1, f2, b), cols) == Run(Run(Unwound(full, f1, f2, cols), b, cols), f1, cols)
  {
    hide Run;
    ReverseValid(f1, |full|);
    RunAppend(full, f1, f2, cols);
    RunAppend(full, f1 + f2, Reverse(f1), cols);
    RunAppend(full, f1 + f2 + Reverse(f1), b, cols);
    RunAppend(full, f1 + f2 + Reverse(f1) + b, f1, cols);
  }

  lemma LateDiffers(full: Mat, pm: Perms, i: nat, f1: seq<Op>, f2: seq<Op>)
    requires IsMat(full, |pm.d|, |pm.c|) && pm.Valid(|pm.d|, |pm.c|) && i <= |pm.d|
    requires ValidOps(f1, |full|) && ValidOps(f2, |full|) && f1 + f2 != []
    requires Additions(full, f1, pm, i, 0, i) && LowTargets(f2, pm.di, i)
    ensures var last := (f1 + f2)[|f1 + f2| - 1];
      ValidOp(last, |full|) &&
      DiffersAt(Unwound(full, f1, f2, |pm.c|), LateMatrix(full, f1, f2, |pm.c|), |pm.c|,
                Below(|full|) - {last.i}, last.i,
                Excess(full, Run(full, f1, |pm.c|), last, |pm.c|))
  {
    hide Run, Additions, LowTargets, DiffersAt, Excess, ApplyOp;
    if f2 == [] {
      assert f1 + f2 == f1;
      DisplacedTop(full, pm, i, f1);
    } else {
      DisplacedLow(full, pm, i, f1, f2);
    }
  }

  /** If the late operation's target is in the block, the first pass never adds that row. */
  lemma LateTargetUnread(full: Mat, pm: Perms, i: nat, f1: seq<Op>, f2: seq<Op>)
    requires Additions(full, f1, pm, i, 0, i) && LowTargets(f2, pm.di, i) && f1 + f2 != []
    requires ValidOps(f1, |pm.di|) && ValidOps(f2, |pm.di|)
    ensures var last := (f1 + f2)[|f1 + f2| - 1];
      last.i < |pm.di| && (pm.di[last.i] < i ==> forall k :: 0 <= k < |f1| ==> f1[k].j != last.i)
  {
    hide Additions;
    if f2 == [] {
      assert f1 + f2 == f1;
      TargetNotAdded(full, f1, pm, i);
    }
  }

  lemma SameMatrix(y: Mat, x: Mat, cols: nat, t: nat, w: Vec)
    requires DiffersAt(y, x, cols, Below(|y|) - {t}, t, w) && forall k :: 0 <= k < cols ==> w[k] == 0
    ensures x == y
  {
    hide Plus;
    PlusZero(y[t], w);
    forall r | 0 <= r < |y| ensures x[r] == y[r] {
      assert r != t ==> r in Below(|y|) - {t};
    }
  }

  /** Comparing the two final matrices. */
  lemma FinalVerdict(full: Mat, r: Mat, r': Mat, pm: Perms, i: nat, f1: seq<Op>, last: Op, w: Vec)
    requires IsMat(full, |pm.d|, |pm.c|) && pm.Valid(|pm.d|, |pm.c|) && i <= |pm.c| <= |pm.d|
    requires ValidOps(f1, |full|) && ValidOp(last, |full|)
    requires Additions(full, f1, pm, i, 0, i) && TopIdentity(Run(full, f1, |pm.c|), pm, i)
    requires Solved(r, pm) && DiffersAt(r, r', |pm.c|, Deciding(pm, i, last.i), last.i, w)
    requires w == Excess(full, Run(full, f1, |pm.c|), last, |pm.c|)
    ensures pm.di[last.i] >= |pm.c| ==> Solved(r', pm)
    ensures !Harmless(f1, last, pm) ==> !Solved(r', pm)
  {
    hide Run, Additions, TopIdentity, Add, Mul, Excess;
    if pm.di[last.i] >= |pm.c| {
      forall k, j | 0 <= k < |pm.c| && 0 <= j < |pm.c| ensures At(r', pm, k, j) == if k == j then 1 else 0 {
        assert pm.d[k] in Deciding(pm, i, last.i);
        assert At(r', pm, k, j) == At(r, pm, k, j);
      }
    }
    if !Harmless(f1, last, pm) {
      var k :| 0 <= k < |f1| && f1[k].i == last.j;
      var x := ExcessNonzero(full, pm, i, f1, last, k);
      var p, q := pm.di[last.i], pm.ci[x];
      assert pm.d[p] == last.i && pm.c[q] == x;
      assert At(r', pm, p, q) == Add(At(r, pm, p, q), w[x]);
      AddCancel(w[x], At(r, pm, p, q));
      AddComm(w[x], At(r, pm, p, q));
      AddSelf(At(r, pm, p, q));
    }
  }
}
