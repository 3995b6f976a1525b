/**
 Computing the intermediate symbols: the schedule is replayed on the symbol matrix in place and
 its rows are permuted into column order (raptorq/precode.c, lines 15-32 and 379-389).
 */
module IntermediateSymbols {
  import opened GF256
  import opened Tables
  import opened Linear
  import opened SpMat
  import opened Oblas
  import opened Permutation
  import opened Scheduling
  import opened Elimination
  import opened Gauss
  import opened BackSubstitution
  import opened Rank
  import opened Replaying
  import opened ReplayOrder
  import opened Inversion

  // ---------- what a solving replay does to every system ----------

  /** The operations bring row c[k] of every solution to row d[k] of the right-hand side. */
  ghost predicate Recovers(full: Mat, ops: seq<Op>, pm: Perms)
    requires IsMat(full, |full|, |pm.c|) && ValidOps(ops, |full|)
  {
    forall d: Mat, c: Mat, t: nat :: IsMat(d, |full|, t) && IsMat(c, |pm.c|, t) && Solves(full, d, c, t)
      ==> Carries(Run(d, ops, t), c, pm)
  }

  ghost predicate Carries(m: Mat, c: Mat, pm: Perms) {
    && |c| == |pm.c| <= |pm.d| == |m|
    && forall k :: 0 <= k < |pm.c| ==> pm.d[k] < |m| && pm.c[k] < |c| && m[pm.d[k]] == c[pm.c[k]]
  }

  lemma SolvedCarries(full: Mat, ops: seq<Op>, pm: Perms, d: Mat, c: Mat, t: nat)
    requires IsMat(full, |full|, |pm.c|) && ValidOps(ops, |full|) && Solved(Run(full, ops, |pm.c|), pm)
    requires IsMat(d, |full|, t) && IsMat(c, |pm.c|, t) && Solves(full, d, c, t)
    ensures Carries(Run(d, ops, t), c, pm)
  {
    hide Run, Dot;
    RunSolves(full, d, c, t, ops);
    var m, e := Run(full, ops, |pm.c|), Run(d, ops, t);
    forall k | 0 <= k < |pm.c| ensures e[pm.d[k]] == c[pm.c[k]] {
      UnitRow(m, pm, k);
      forall x | 0 <= x < t ensures e[pm.d[k]][x] == c[pm.c[k]][x] {
        DotUnit(m[pm.d[k]], c, x, |c|, pm.c[k]);
      }
    }
  }

  lemma UnitRow(m: Mat, pm: Perms, k: nat)
    requires Solved(m, pm) && k < |pm.c|
    ensures forall j :: 0 <= j < |pm.c| ==> m[pm.d[k]][j] == if j == pm.c[k] then 1 else 0
  {
    forall j | 0 <= j < |pm.c| ensures m[pm.d[k]][j] == if j == pm.c[k] then 1 else 0 {
      var q := pm.ci[j];
      assert pm.c[q] == j && m[pm.d[k]][j] == At(m, pm, k, q);
    }
  }

  function Identity(n: nat): (m: Mat)
    ensures IsMat(m, n, n)
  {
    seq(n, r requires 0 <= r < n => UnitVec(n, r))
  }

  function UnitVec(n: nat, r: nat): (v: Vec)
    ensures |v| == n
  {
    seq(n, k requires 0 <= k < n => if k == r then 1 else 0)
  }

  /** The first n terms of a combination of unit vectors. */
  lemma {:induction false} DotIdentity(a: Vec, k: nat, n: nat)
    requires n <= |a| && k < |a|
    ensures Dot(a, Identity(|a|), k, n) == if k < n then a[k] else 0
    decreases n
  {
    hide Add, Mul;
    if n != 0 {
      DotIdentity(a, k, n - 1);
      MulZero(a[n - 1]);
      MulOneRight(a[n - 1]);
      AddZero(a[n - 1]);
      AddZero(0);
      AddZero(Dot(a, Identity(|a|), k, n - 1));
    }
  }

  /** A replay recovers the solution of every system exactly if it turns the constraints into unit rows. */
  lemma RecoversIffSolved(full: Mat, ops: seq<Op>, pm: Perms)
    requires IsMat(full, |pm.d|, |pm.c|) && pm.Valid(|pm.d|, |pm.c|) && ValidOps(ops, |full|) && |pm.c| <= |pm.d|
    ensures Recovers(full, ops, pm) <==> Solved(Run(full, ops, |pm.c|), pm)
  {
    hide Run, Dot, Solved, Carries;
    var l := |pm.c|;
    if Solved(Run(full, ops, l), pm) {
      forall d: Mat, c: Mat, t: nat | IsMat(d, |full|, t) && IsMat(c, l, t) && Solves(full, d, c, t)
        ensures Carries(Run(d, ops, t), c, pm)
      {
        SolvedCarries(full, ops, pm, d, c, t);
      }
    }
    if Recovers(full, ops, pm) {
      var id := Identity(l);
      forall r, k | 0 <= r < |full| && 0 <= k < l ensures full[r][k] == Dot(full[r], id, k, l) {
        DotIdentity(full[r], k, l);
      }
      assert Solves(full, full, id, l);
      CarriesIdentity(Run(full, ops, l), pm);
    }
  }

  lemma CarriesIdentity(m: Mat, pm: Perms)
    requires Carries(m, Identity(|pm.c|), pm) && Fits(m, pm)
    ensures Solved(m, pm)
  {
    assert forall k :: 0 <= k < |pm.c| ==> pm.ci[pm.c[k]] == k;
  }

  /** A square system is solved by what the replay leaves, whatever its right-hand side. */
  lemma SquareSolvable(full: Mat, ops: seq<Op>, pm: Perms, d: Mat, c: Mat, t: nat)
    requires IsMat(full, |pm.c|, |pm.c|) && |pm.d| == |pm.c| && ValidOps(ops, |full|)
    requires Solved(Run(full, ops, |pm.c|), pm)
    requires IsMat(d, |full|, t) && IsMat(c, |pm.c|, t) && Carries(Run(d, ops, t), c, pm)
    ensures Solves(full, d, c, t)
  {
    hide Run, Dot;
    var m, e := Run(full, ops, |pm.c|), Run(d, ops, t);
    forall r, x | 0 <= r < |full| && 0 <= x < t ensures e[r][x] == Dot(m[r], c, x, |c|) {
      var k := pm.di[r];
      assert pm.d[k] == r;
      UnitRow(m, pm, k);
      DotUnit(m[r], c, x, |c|, pm.c[k]);
    }
    RunSolves(full, d, c, t, ops);
  }

  /**
   The source's replay order recovers the solution of every system with a solution, for every
   schedule of every constraint matrix, if and only if the late operation is harmless.
   */
  lemma ReplayIsCorrectIff(full: Mat, pm: Perms, i: nat, f1: seq<Op>, f2: seq<Op>, b: seq<Op>)
    requires Inverts(full, pm, i, f1, f2, b) && f1 + f2 != []
    ensures ValidOps(ActualPhases(f1, f1 + f2, b), |full|)
    ensures Recovers(full, ActualPhases(f1, f1 + f2, b), pm)
       <==> Harmless(f1, (f1 + f2)[|f1 + f2| - 1], pm)
  {
    hide Run, Recovers, Solved, Harmless;
    ActualPhasesSolve(full, pm, i, f1, f2, b);
    RecoversIffSolved(full, ActualPhases(f1, f1 + f2, b), pm);
  }

  // ---------- a schedule the order breaks ----------

  /**
   A schedule by hand for three unknowns and a block of two, in which elimination has nothing to do.  The first
   pass adds row 0 to row 1, the second row 1 to row 2.  Replayed late, that operation adds the restored row 1,
   and row 2 ends up wrong.  Whether precode_matrix_invert makes such a schedule for any code is not shown.
   */
  const SampleMatrix: Mat := [[1, 0, 0], [1, 1, 0], [0, 1, 1]]
  const SamplePerms: Perms := Perms([0, 1, 2], [0, 1, 2], [0, 1, 2], [0, 1, 2])

  lemma SampleSteps()
    ensures IsMat(SampleMatrix, 3, 3)
    ensures ApplyOp(SampleMatrix, Op(1, 0, 1)) == [[1, 0, 0], [0, 1, 0], [0, 1, 1]]
    ensures ApplyOp([[1, 0, 0], [0, 1, 0], [0, 1, 1]], Op(2, 1, 1)) == [[1, 0, 0], [0, 1, 0], [0, 0, 1]]
    ensures ApplyOp([[1, 0, 0], [0, 1, 0], [0, 0, 1]], Op(1, 0, 1)) == [[1, 0, 0], [1, 1, 0], [0, 0, 1]]
  {
    hide Add, Mul;
    MulOneLeft(0);
    MulOneLeft(1);
    AddZero(0);
    AddZero(1);
    AddSelf(1);
    assert AddScaled([1, 1, 0], [1, 0, 0], 1) == [0, 1, 0];
    assert AddScaled([0, 1, 1], [0, 1, 0], 1) == [0, 0, 1];
    assert AddScaled([0, 1, 0], [1, 0, 0], 1) == [1, 1, 0];
  }

  lemma RunOne(m: Mat, op: Op, cols: nat)
    requires IsMat(m, |m|, cols) && ValidOp(op, |m|)
    ensures ValidOps([op], |m|) && Run(m, [op], cols) == ApplyOp(m, op)
  {
    assert [op][..0] == [];
  }

  lemma SampleTop()
    ensures TopIdentity([[1, 0, 0], [0, 1, 0], [0, 1, 1]], SamplePerms, 2)
  {}

  lemma SampleUpper()
    ensures Upper([[1, 0, 0], [0, 1, 0], [0, 0, 1]], SamplePerms, 3)
  {}

  lemma SampleBack()
    ensures BackDone([[1, 0, 0], [1, 1, 0], [0, 0, 1]], [[1, 0, 0], [1, 1, 0], [0, 0, 1]], SamplePerms, 2, 2)
  {}

  lemma SampleOps()
    ensures ValidOps([Op(1, 0, 1)], 3) && ValidOps([Op(2, 1, 1)], 3) && ValidOps([], 3)
    ensures Additions(SampleMatrix, [Op(1, 0, 1)], SamplePerms, 2, 0, 2)
    ensures LowTargets([Op(2, 1, 1)], SamplePerms.di, 2) && UpperTargets([], SamplePerms, 2)
  {}

  lemma SampleRun()
    ensures ValidOps([Op(1, 0, 1)], 3) && ValidOps([Op(2, 1, 1)], 3) && ValidOps([], 3) && IsMat(SampleMatrix, 3, 3)
    ensures Run(SampleMatrix, [Op(1, 0, 1)], 3) == [[1, 0, 0], [0, 1, 0], [0, 1, 1]]
    ensures Run([[1, 0, 0], [0, 1, 0], [0, 1, 1]], [Op(2, 1, 1)], 3) == [[1, 0, 0], [0, 1, 0], [0, 0, 1]]
    ensures Run([[1, 0, 0], [0, 1, 0], [0, 0, 1]], [Op(1, 0, 1)], 3) == [[1, 0, 0], [1, 1, 0], [0, 0, 1]]
    ensures Run([[1, 0, 0], [1, 1, 0], [0, 0, 1]], [], 3) == [[1, 0, 0], [1, 1, 0], [0, 0, 1]]
  {
    hide Add, Mul, ApplyOp;
    SampleSteps();
    RunOne(SampleMatrix, Op(1, 0, 1), 3);
    RunOne([[1, 0, 0], [0, 1, 0], [0, 1, 1]], Op(2, 1, 1), 3);
    RunOne([[1, 0, 0], [0, 1, 0], [0, 0, 1]], Op(1, 0, 1), 3);
  }

  lemma SampleInverts()
    ensures Inverts(SampleMatrix, SamplePerms, 2, [Op(1, 0, 1)], [Op(2, 1, 1)], [])
  {
    hide Run, TopIdentity, Upper, BackDone, Additions, LowTargets, UpperTargets, ApplyOp;
    SampleRun();
    SampleOps();
    SampleTop();
    SampleUpper();
    SampleBack();
    assert Reverse([Op(1, 0, 1)]) == [Op(1, 0, 1)];
  }

  /** It inverts its matrix, yet the source's replay order does not solve it: the condition is not idle. */
  lemma LateOperationCanHarm()
    ensures Inverts(SampleMatrix, SamplePerms, 2, [Op(1, 0, 1)], [Op(2, 1, 1)], [])
    ensures ValidOps(ActualPhases([Op(1, 0, 1)], [Op(1, 0, 1), Op(2, 1, 1)], []), 3) && IsMat(SampleMatrix, 3, 3)
    ensures !Recovers(SampleMatrix, ActualPhases([Op(1, 0, 1)], [Op(1, 0, 1), Op(2, 1, 1)], []), SamplePerms)
  {
    hide Run, Recovers, Inverts;
    SampleInverts();
    var f1, f2 := [Op(1, 0, 1)], [Op(2, 1, 1)];
    assert f1 + f2 == [Op(1, 0, 1), Op(2, 1, 1)];
    ReplayIsCorrectIff(SampleMatrix, SamplePerms, 2, f1, f2, []);
    assert f1[0].i == f2[0].j;
  }

  // ---------- replaying in place ----------

  /** precode_matrix_apply_op. */
  method ApplyOne(d: array2<Octet>, op: Op)
    requires ValidOp(op, d.Length0)
    modifies d
    ensures RowsOf(d) == ApplyOp(old(RowsOf(d)), op)
  {
    if op.beta != 0 {
      OAxpy(d, op.i, op.j, op.beta);
    } else {
      OScal(d, op.i, op.j);
    }
  }

  /** Runs entries from lo up to before hi; false if that reads past the end of the list. */
  method RunUp(d: array2<Octet>, ops: seq<Op>, lo: nat, hi: nat) returns (inBounds: bool)
    requires ValidOps(ops, d.Length0)
    modifies d
    ensures inBounds == (lo < hi ==> hi <= |ops|)
    ensures inBounds && lo <= hi <= |ops| ==> ValidOps(ops[lo..hi], d.Length0)
    ensures inBounds && lo <= hi <= |ops| ==> RowsOf(d) == Run(old(RowsOf(d)), ops[lo..hi], d.Length1)
  {
    hide ApplyOp, RowsOf;
    var k := lo;
    ghost var m := RowsOf(d);
    if lo <= |ops| {
      assert ops[lo..lo] == [];
      RunEmpty(m, d.Length1);
    }
    while k < hi
      invariant k == lo || (lo <= k <= hi && k <= |ops|)
      invariant lo <= k <= |ops| ==> RowsOf(d) == Run(m, ops[lo..k], d.Length1)
      decreases hi - k
    {
      if k >= |ops| {
        return false;
      }
      RunPush(m, ops[lo..k], ops[k], d.Length1);
      assert ops[lo..k + 1] == ops[lo..k] + [ops[k]];
      ApplyOne(d, ops[k]);
      k := k + 1;
    }
    return true;
  }

  /** Runs entries n - 1 down to 0. */
  method RunDown(d: array2<Octet>, ops: seq<Op>, n: nat)
    requires ValidOps(ops, d.Length0) && n <= |ops|
    modifies d
    ensures ValidOps(Reverse(ops[..n]), d.Length0)
    ensures RowsOf(d) == Run(old(RowsOf(d)), Reverse(ops[..n]), d.Length1)
  {
    hide ApplyOp, RowsOf;
    var k := n;
    ghost var m, r := RowsOf(d), Reverse(ops[..n]);
    RunEmpty(m, d.Length1);
    assert r[..0] == [];
    while k > 0
      invariant 0 <= k <= n && ValidOps(r, d.Length0)
      invariant RowsOf(d) == Run(m, r[..n - k], d.Length1)
    {
      k := k - 1;
      assert r[n - k - 1] == ops[k];
      RunPush(m, r[..n - k - 1], r[n - k - 1], d.Length1);
      assert r[..n - k] == r[..n - k - 1] + [r[n - k - 1]];
      ApplyOne(d, ops[k]);
    }
    assert r[..n] == r;
  }

  /**
   precode_matrix_apply_sched.  The signed counter of the second loop makes a wrapped first
   checkpoint -1; the unsigned comparison of the last loop makes it run past the end of the list.
   */
  method ApplySched(d: array2<Octet>, s: Schedule, ghost n0: nat, ghost n1: nat) returns (inBounds: bool)
    requires ValidOps(s.ops, d.Length0) && n0 <= n1 <= |s.ops| < 0x8000_0000
    requires s.marks0 == Dec32(n0) && s.marks1 == Dec32(n1)
    modifies d
    ensures inBounds <==> n0 > 0
    ensures inBounds ==> ValidOps(ActualPhases(s.ops[..n0], s.ops[..n1], s.ops[n1..]), d.Length0)
    ensures inBounds ==>
      RowsOf(d) == Run(old(RowsOf(d)), ActualPhases(s.ops[..n0], s.ops[..n1], s.ops[n1..]), d.Length1)
  {
    hide ApplyOp, RowsOf, Run;
    ghost var m := RowsOf(d);
    inBounds := RunUp(d, s.ops, 0, s.marks1);
    if !inBounds {
      return;
    }
    var start: int := if s.marks0 < 0x8000_0000 then s.marks0 else s.marks0 - 0x1_0000_0000;
    if start >= 0 {
      RunDown(d, s.ops, start + 1);
    }
    var _ := RunUp(d, s.ops, s.marks1, |s.ops|);
    inBounds := RunUp(d, s.ops, 0, s.marks0 + 1);
    if inBounds {
      PhasesInOrder(m, s.ops, n0, n1, d.Length1);
    }
  }

  lemma PhasesInOrder(m: Mat, ops: seq<Op>, n0: nat, n1: nat, cols: nat)
    requires IsMat(m, |m|, cols) && ValidOps(ops, |m|) && 0 < n0 <= n1 <= |ops|
    ensures ValidOps(Reverse(ops[..n0]), |m|)
    ensures ValidOps(ActualPhases(ops[..n0], ops[..n1], ops[n1..]), |m|)
    ensures Run(m, ActualPhases(ops[..n0], ops[..n1], ops[n1..]), cols)
         == Run(Run(Run(Run(m, ops[0..n1 - 1], cols), Reverse(ops[..n0]), cols), ops[n1 - 1..|ops|], cols),
                ops[0..n0], cols)
  {
    hide Run, ValidOp;
    ReverseValid(ops[..n0], |m|);
    PhaseSlices(ops, n0, n1);
    RunFour(m, ops[0..n1 - 1], Reverse(ops[..n0]), ops[n1 - 1..|ops|], ops[0..n0], cols);
  }

  lemma PhaseSlices(ops: seq<Op>, n0: nat, n1: nat)
    requires 0 < n0 <= n1 <= |ops|
    ensures ActualPhases(ops[..n0], ops[..n1], ops[n1..])
         == ops[0..n1 - 1] + Reverse(ops[..n0]) + ops[n1 - 1..|ops|] + ops[0..n0]
  {
    assert ops[..n1][..n1 - 1] == ops[0..n1 - 1];
    assert ops[n1 - 1..|ops|] == [ops[n1 - 1]] + ops[n1..];
    var p, b := ops[0..n1 - 1] + Reverse(ops[..n0]), ops[n1..];
    assert p + [ops[n1 - 1]] + b == p + ([ops[n1 - 1]] + b);
  }

  lemma RunFour(m: Mat, a: seq<Op>, b: seq<Op>, c: seq<Op>, d: seq<Op>, cols: nat)
    requires IsMat(m, |m|, cols) && ValidOps(a, |m|) && ValidOps(b, |m|) && ValidOps(c, |m|) && ValidOps(d, |m|)
    ensures ValidOps(a + b + c + d, |m|)
    ensures Run(m, a + b + c + d, cols) == Run(Run(Run(Run(m, a, cols), b, cols), c, cols), d, cols)
  {
    hide Run;
    RunAppend(m, a, b, cols);
    RunAppend(m, a + b, c, cols);
    RunAppend(m, a + b + c, d, cols);
  }

  // ---------- intermediate symbols ----------

  /** Operations on the first n rows act on those rows alone. */
  lemma {:induction false} RunPrefix(m: Mat, ops: seq<Op>, cols: nat, n: nat)
    requires IsMat(m, |m|, cols) && n <= |m| && ValidOps(ops, n)
    ensures ValidOps(ops, |m|) && IsMat(m[..n], n, cols)
    ensures Run(m[..n], ops, cols) == Run(m, ops, cols)[..n]
    decreases |ops|
  {
    hide Add, Mul;
    if ops != [] {
      var init, op := ops[..|ops| - 1], ops[|ops| - 1];
      RunPrefix(m, init, cols, n);
      assert ValidOp(op, n);
      var x, y := Run(m, init, cols), Run(m[..n], init, cols);
      assert y == x[..n];
      assert ApplyOp(y, op) == ApplyOp(x, op)[..n];
    }
  }

  method CopyToInts(p: array<nat>) returns (q: array<int>)
    ensures fresh(q) && q.Length == p.Length && forall k :: 0 <= k < p.Length ==> q[k] == p[k]
  {
    q := new int[p.Length];
    for i := 0 to p.Length
      invariant forall k :: 0 <= k < i ==> q[k] == p[k]
    {
      q[i] := p[i];
    }
  }

  /** Rows in solved order: row c[k] of m' is row d[k] of m. */
  ghost predicate Unscrambled(m: Mat, m': Mat, pm: Perms) {
    && |m'| == |m| && |pm.c| <= |pm.d| <= |m|
    && forall k :: 0 <= k < |pm.c| ==> pm.c[k] < |m| && pm.d[k] < |m| && m'[pm.c[k]] == m[pm.d[k]]
  }

  lemma TwoMoves(m: Mat, m1: Mat, m2: Mat, pm: Perms)
    requires pm.Valid(|pm.d|, |pm.c|) && |pm.c| <= |pm.d| <= |m| == |m1|
    requires Moved(pm.di, m, m1) && Moved(pm.c, m1, m2)
    ensures Unscrambled(m, m2, pm)
  {
    forall k | 0 <= k < |pm.c| ensures m2[pm.c[k]] == m[pm.d[k]] {
      assert pm.di[pm.d[k]] == k;
      assert m1[pm.di[pm.d[k]]] == m[pm.d[k]];
    }
  }

  /** Permuting by di and then by c puts the row solved for column j at row j. */
  method Unscramble(d: array2<Octet>, s: Schedule)
    requires s.Distinct(s.d.Length, s.c.Length) && s.Pm().Valid(s.d.Length, s.c.Length)
    requires s.c.Length <= s.d.Length <= d.Length0
    modifies d
    ensures Unscrambled(old(RowsOf(d)), RowsOf(d), s.Pm())
  {
    hide RowsOf, Moved, Inverse, Unscrambled;
    ghost var m, pm := RowsOf(d), s.Pm();
    var rm := CopyToInts(s.di);
    var cm := CopyToInts(s.c);
    InverseInjective(pm.d, pm.di);
    InverseInjective(pm.c, pm.ci);
    assert rm[..] == pm.di && cm[..] == pm.c;
    Permute(d, rm, s.d.Length);
    ghost var m1 := RowsOf(d);
    Permute(d, cm, s.c.Length);
    TwoMoves(m, m1, RowsOf(d), pm);
  }

  lemma InverseInjective(p: seq<nat>, q: seq<nat>)
    requires Inverse(p, q)
    ensures forall x :: 0 <= x < |p| ==> p[x] < |p| && q[x] < |p|
    ensures forall x, y :: 0 <= x < y < |p| ==> p[x] != p[y] && q[x] != q[y]
  {}

  lemma UnscrambledCarries(m: Mat, m': Mat, n: nat, pm: Perms, c: Mat)
    requires Unscrambled(m, m', pm) && n == |pm.d| && Inverse(pm.c, pm.ci) && Inverse(pm.d, pm.di) && |c| == |pm.c|
    ensures Carries(m[..n], c, pm) <==> m'[..|pm.c|] == c
  {
    assert forall j :: 0 <= j < |pm.c| ==> pm.c[pm.ci[j]] == j;
    if m'[..|pm.c|] == c {
      forall k | 0 <= k < |pm.c| ensures m[pm.d[k]] == c[pm.c[k]] && pm.d[k] < n {
        assert pm.ci[pm.c[k]] == k;
        assert m'[pm.c[k]] == m'[..|pm.c|][pm.c[k]];
      }
    }
    if Carries(m[..n], c, pm) {
      forall j | 0 <= j < |pm.c| ensures m'[j] == c[j] {
        var k := pm.ci[j];
        assert pm.c[k] == j && m[..n][pm.d[k]] == c[pm.c[k]];
      }
    }
  }

  /** For every solution of the system the rows hold before, its symbols end up in order. */
  ghost predicate HoldsSolution(full: Mat, d0: Mat, d: Mat, l: nat, t: nat)
    requires IsMat(full, |full|, l) && IsMat(d0, |d0|, t) && |full| <= |d0| && l <= |d|
  {
    forall c: Mat :: IsMat(c, l, t) && Solves(full, d0[..|full|], c, t) ==> d[..l] == c
  }

  lemma ReplayedHoldsSolution(full: Mat, d0: Mat, d1: Mat, d: Mat, ops: seq<Op>, pm: Perms, t: nat)
    requires IsMat(full, |pm.d|, |pm.c|) && pm.Valid(|pm.d|, |pm.c|) && ValidOps(ops, |full|) && |pm.c| <= |pm.d|
    requires IsMat(d0, |d0|, t) && |full| <= |d0| && ValidOps(ops, |d0|) && d1 == Run(d0, ops, t)
    requires Unscrambled(d1, d, pm) && Solved(Run(full, ops, |pm.c|), pm)
    ensures HoldsSolution(full, d0, d, |pm.c|, t)
    ensures |full| == |pm.c| && IsMat(d[..|pm.c|], |pm.c|, t) ==> Solves(full, d0[..|full|], d[..|pm.c|], t)
  {
    hide Run, Dot, Solved, Unscrambled, Carries, Inverse;
    var n, l := |full|, |pm.c|;
    RunPrefix(d0, ops, t, n);
    assert |d| == |d1| by { UnscrambledSize(d1, d, pm); }
    forall c: Mat | IsMat(c, l, t) && Solves(full, d0[..n], c, t) ensures d[..l] == c {
      SolvedCarries(full, ops, pm, d0[..n], c, t);
      UnscrambledCarries(d1, d, n, pm, c);
    }
    if n == l && IsMat(d[..l], l, t) {
      UnscrambledCarries(d1, d, n, pm, d[..l]);
      SquareSolvable(full, ops, pm, d0[..n], d[..l], t);
    }
  }

  lemma UnscrambledSize(m: Mat, m': Mat, pm: Perms)
    requires Unscrambled(m, m', pm)
    ensures |m'| == |m|
  {}

  /**
   precode_matrix_intermediate.  It stays inside the schedule exactly if the first pass recorded an
   operation; it then leaves the solution of the system in the first L rows, for every system with
   a solution, exactly if the late operation is harmless (ReplayIsCorrectIff), and what it leaves
   solves every square system.
   */
  method Intermediate(d: array2<Octet>, s: Schedule, ghost full: Mat, ghost n0: nat, ghost n1: nat)
    returns (inBounds: bool)
    requires Complete(full, s, n0, n1) && s.Distinct(|full|, s.c.Length) && IsMat(full, |full|, s.c.Length)
    requires s.c.Length <= |full| <= d.Length0 && |s.ops| < 0x8000_0000
    modifies d
    ensures inBounds <==> n0 > 0
    ensures LateHarmless(s.ops, n0, n1, s.Pm())
      ==> HoldsSolution(full, old(RowsOf(d)), RowsOf(d), s.c.Length, d.Length1)
    ensures LateHarmless(s.ops, n0, n1, s.Pm()) && |full| == s.c.Length
      ==> Solves(full, old(RowsOf(d))[..|full|], RowsOf(d)[..s.c.Length], d.Length1)
  {
    hide RowsOf, Run, Solved, Unscrambled, Harmless, HoldsSolution, Inverse, Dot;
    ghost var m, pm, ops := RowsOf(d), s.Pm(), s.ops;
    ghost var f1, f2, b := ops[..n0], ops[n0..n1], ops[n1..];
    InvertsFacts(full, pm, s.i, f1, f2, b);
    OpsSplit(ops, n0, n1, |full|, d.Length0);
    inBounds := ApplySched(d, s, n0, n1);
    ghost var d1 := RowsOf(d);
    if inBounds {
      Unscramble(d, s);
      assert f1 + f2 == ops[..n1];
      ActualPhasesSolve(full, pm, s.i, f1, f2, b);
      if Harmless(f1, ops[n1 - 1], pm) {
        ReplayedHoldsSolution(full, m, d1, RowsOf(d), ActualPhases(f1, f1 + f2, b), pm, d.Length1);
      }
    }
  }

  lemma InvertsFacts(full: Mat, pm: Perms, i: nat, f1: seq<Op>, f2: seq<Op>, b: seq<Op>)
    requires Inverts(full, pm, i, f1, f2, b)
    ensures pm.Valid(|full|, |pm.c|) && ValidOps(f1, |full|) && ValidOps(f2, |full|) && ValidOps(b, |full|)
  {}

  lemma OpsSplit(ops: seq<Op>, n0: nat, n1: nat, rows: nat, more: nat)
    requires n0 <= n1 <= |ops| && rows <= more
    requires ValidOps(ops[..n0], rows) && ValidOps(ops[n0..n1], rows) && ValidOps(ops[n1..], rows)
    ensures ValidOps(ops, more)
  {
    forall k | 0 <= k < |ops| ensures ValidOp(ops[k], more) {
      assert ops[k] == if k < n0 then ops[..n0][k] else if k < n1 then ops[n0..n1][k - n0] else ops[n1..][k - n1];
    }
  }
}
