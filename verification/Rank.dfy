/**
 Column rank of the constraint matrix, and why elimination decides it: a triangular matrix has no
 nonzero kernel vector, and a matrix in which elimination is stuck has one.
 */
module Rank {
  import opened GF256
  import opened Tables
  import opened Linear
  import opened SpMat
  import opened Permutation
  import opened Scheduling
  import opened Elimination
  import opened Gauss

  function ZeroMat(rows: nat, cols: nat): (m: Mat)
    ensures |m| == rows && forall r :: 0 <= r < rows ==> |m[r]| == cols
  {
    seq(rows, r => seq(cols, k => 0))
  }

  /** The matrix a sends the vector x, a one-column matrix, to zero. */
  ghost predicate Kernel(a: Mat, x: Mat, l: nat) {
    && IsMat(a, |a|, l) && IsMat(x, l, 1)
    && Solves(a, ZeroMat(|a|, 1), x, 1)
  }

  /** The columns of a are linearly dependent: its column rank is below l. */
  ghost predicate Deficient(a: Mat, l: nat) {
    exists x :: Kernel(a, x, l) && Nonzero(x)
  }

  ghost predicate Nonzero(x: Mat) {
    exists j :: 0 <= j < |x| && x[j] != [0]
  }

  lemma {:induction false} RunZero(rows: nat, cols: nat, ops: seq<Op>)
    requires ValidOps(ops, rows)
    ensures IsMat(ZeroMat(rows, cols), rows, cols)
    ensures Run(ZeroMat(rows, cols), ops, cols) == ZeroMat(rows, cols)
    decreases |ops|
  {
    if ops != [] {
      var op, z := ops[|ops| - 1], ZeroMat(rows, cols);
      RunZero(rows, cols, ops[..|ops| - 1]);
      hide Add, Mul;
      MulZero(op.beta);
      AddZero(0);
      if op.beta == 0 {
        MulZero(op.j);
        assert Scaled(z[op.i], op.j) == z[op.i];
      } else {
        assert AddScaled(z[op.i], z[op.j], op.beta) == z[op.i];
      }
    }
  }

  /** Row operations keep the kernel. */
  lemma RunKernel(a: Mat, x: Mat, l: nat, ops: seq<Op>)
    requires IsMat(a, |a|, l) && IsMat(x, l, 1) && ValidOps(ops, |a|)
    ensures Kernel(a, x, l) <==> Kernel(Run(a, ops, l), x, l)
  {
    hide Run, Dot;
    RunZero(|a|, 1, ops);
    RunSolves(a, ZeroMat(|a|, 1), x, 1, ops);
  }

  /** The combination is the pivot's entry when later unknowns are zero and earlier coefficients are. */
  lemma {:induction false} DotOnly(a: Vec, x: Mat, n: nat, p: nat)
    requires n <= |a| && n <= |x| && p < n && forall j :: 0 <= j < n ==> |x[j]| == 1
    requires a[p] == 1
    requires forall j :: 0 <= j < n && j != p ==> a[j] == 0 || x[j][0] == 0
    ensures Dot(a, x, 0, n) == x[p][0]
    decreases n
  {
    hide Add, Mul;
    MulZero(a[n - 1]);
    MulZero(x[n - 1][0]);
    if p == n - 1 {
      DotNone(a, x, n - 1);
      MulOneLeft(x[p][0]);
      AddZero(x[p][0]);
    } else {
      DotOnly(a, x, n - 1, p);
      AddZero(x[p][0]);
    }
  }

  lemma {:induction false} DotNone(a: Vec, x: Mat, n: nat)
    requires n <= |a| && n <= |x| && forall j :: 0 <= j < n ==> |x[j]| == 1
    requires forall j :: 0 <= j < n ==> a[j] == 0 || x[j][0] == 0
    ensures Dot(a, x, 0, n) == 0
    decreases n
  {
    hide Add, Mul;
    if n != 0 {
      DotNone(a, x, n - 1);
      MulZero(a[n - 1]);
      MulZero(x[n - 1][0]);
      AddZero(0);
    }
  }

  /** The first l positions are upper triangular with ones on the diagonal, up to position n. */
  ghost predicate Upper(m: Mat, pm: Perms, n: nat) {
    && Fits(m, pm) && n <= |pm.c| && n <= |pm.d|
    && (forall k, j :: 0 <= j < k < n ==> At(m, pm, k, j) == 0)
    && (forall k :: 0 <= k < n ==> At(m, pm, k, k) == 1)
  }

  /** Every kernel vector of a full triangular matrix is zero from position k on. */
  lemma {:induction false} TriangularTail(m: Mat, pm: Perms, x: Mat, k: nat)
    requires Upper(m, pm, |pm.c|) && k <= |pm.c| && Kernel(m, x, |pm.c|)
    ensures forall j :: k <= j < |pm.c| ==> x[pm.c[j]][0] == 0
    decreases |pm.c| - k
  {
    if k < |pm.c| {
      TriangularTail(m, pm, x, k + 1);
      var row := m[pm.d[k]];
      assert At(m, pm, k, k) == 1;
      forall j | 0 <= j < |pm.c| && j != pm.c[k] ensures row[j] == 0 || x[j][0] == 0 {
        var q := pm.ci[j];
        assert pm.c[q] == j;
        if q < k {
          assert At(m, pm, k, q) == 0;
        }
      }
      DotOnly(row, x, |pm.c|, pm.c[k]);
      assert ZeroMat(|m|, 1)[pm.d[k]][0] == Dot(row, x, 0, |pm.c|);
    }
  }

  /** A matrix that eliminates to full triangular form has independent columns. */
  lemma TriangularNotDeficient(a: Mat, ops: seq<Op>, pm: Perms)
    requires IsMat(a, |a|, |pm.c|) && ValidOps(ops, |a|) && Upper(Run(a, ops, |pm.c|), pm, |pm.c|)
    ensures !Deficient(a, |pm.c|)
  {
    forall x | Kernel(a, x, |pm.c|) ensures !Nonzero(x) {
      RunKernel(a, x, |pm.c|, ops);
      KernelVanishes(Run(a, ops, |pm.c|), pm, x);
    }
  }

  lemma KernelVanishes(m: Mat, pm: Perms, x: Mat)
    requires Upper(m, pm, |pm.c|) && Kernel(m, x, |pm.c|)
    ensures !Nonzero(x)
  {
    hide Solves;
    TriangularTail(m, pm, x, 0);
    forall j | 0 <= j < |x| ensures x[j] == [0] {
      var q := pm.ci[j];
      assert pm.c[q] == j;
    }
  }

  // ---------- a kernel vector when elimination is stuck ----------

  /** x is zero after position n in the column order, one at n, and solves the rows k .. n. */
  ghost predicate Partial(m: Mat, pm: Perms, n: nat, k: nat, x: Mat) {
    && Fits(m, pm) && n < |pm.c| && k <= n && n <= |pm.d| && IsMat(x, |pm.c|, 1)
    && (forall j :: n < j < |pm.c| ==> x[pm.c[j]][0] == 0)
    && (forall j :: 0 <= j < k ==> x[pm.c[j]][0] == 0)
    && x[pm.c[n]][0] == 1
    && (forall r :: k <= r < n ==> Dot(m[pm.d[r]], x, 0, |pm.c|) == 0)
  }

  lemma PartialStart(m: Mat, pm: Perms, n: nat) returns (x: Mat)
    requires Fits(m, pm) && n < |pm.c| && n <= |pm.d|
    ensures Partial(m, pm, n, n, x)
  {
    x := ZeroMat(|pm.c|, 1)[pm.c[n] := [1]];
    assert forall j :: 0 <= j < |pm.c| ==> pm.ci[pm.c[j]] == j;
  }

  lemma PartialStep(m: Mat, pm: Perms, n: nat, k: nat, x: Mat) returns (x': Mat)
    requires Partial(m, pm, n, k, x) && k > 0 && Upper(m, pm, n)
    ensures Partial(m, pm, n, k - 1, x')
  {
    hide Dot;
    var p := pm.c[k - 1];
    var v := Dot(m[pm.d[k - 1]], x, 0, |pm.c|);
    x' := x[p := [v]];
    assert forall j :: 0 <= j < |pm.c| ==> pm.ci[pm.c[j]] == j;
    forall r | k - 1 <= r < n ensures Dot(m[pm.d[r]], x', 0, |pm.c|) == 0 {
      AddZero(v);
      DotChange(m[pm.d[r]], x, x', 0, |pm.c|, p, v);
      assert m[pm.d[r]][p] == At(m, pm, r, k - 1);
      if r == k - 1 {
        assert At(m, pm, r, r) == 1;
        MulOneLeft(v);
        AddSelf(v);
      } else {
        assert At(m, pm, r, k - 1) == 0;
        MulZero(v);
        AddZero(0);
      }
    }
  }

  lemma {:induction false} PartialAll(m: Mat, pm: Perms, n: nat, k: nat, x: Mat) returns (x': Mat)
    requires Partial(m, pm, n, k, x) && Upper(m, pm, n)
    ensures Partial(m, pm, n, 0, x')
  {
    hide Partial, Upper;
    if k == 0 {
      x' := x;
    } else {
      var y := PartialStep(m, pm, n, k, x);
      x' := PartialAll(m, pm, n, k - 1, y);
    }
  }

  /** A row that is zero up to column position n has no product with a vector that is zero after it. */
  lemma ZeroRow(m: Mat, pm: Perms, n: nat, x: Mat, q: nat)
    requires Partial(m, pm, n, 0, x) && q < |pm.d|
    requires forall j :: 0 <= j <= n ==> At(m, pm, q, j) == 0
    ensures Dot(m[pm.d[q]], x, 0, |pm.c|) == 0
  {
    var row := m[pm.d[q]];
    forall j | 0 <= j < |pm.c| ensures row[j] == 0 || x[j][0] == 0 {
      var y := pm.ci[j];
      assert pm.c[y] == j;
      if y <= n {
        assert At(m, pm, q, y) == 0;
      }
    }
    DotNone(row, x, |pm.c|);
  }

  lemma PartialIsKernel(m: Mat, pm: Perms, n: nat, x: Mat)
    requires Partial(m, pm, n, 0, x)
    requires forall k, j :: n <= k < |pm.d| && 0 <= j <= n ==> At(m, pm, k, j) == 0
    ensures Kernel(m, x, |pm.c|)
  {
    hide Dot;
    forall r | 0 <= r < |m| ensures Dot(m[r], x, 0, |pm.c|) == 0 {
      var q := pm.di[r];
      assert pm.d[q] == r;
      if q >= n {
        ZeroRow(m, pm, n, x, q);
      }
    }
  }

  /** Elimination stuck at position n: rows from n on are zero in columns up to n. */
  lemma StuckDeficient(a: Mat, ops: seq<Op>, pm: Perms, n: nat)
    requires IsMat(a, |a|, |pm.c|) && ValidOps(ops, |a|) && n < |pm.c|
    requires Upper(Run(a, ops, |pm.c|), pm, n)
    requires forall k, j :: n <= k < |pm.d| && 0 <= j <= n ==> At(Run(a, ops, |pm.c|), pm, k, j) == 0
    ensures Deficient(a, |pm.c|)
  {
    hide Run, Partial, Kernel;
    var m := Run(a, ops, |pm.c|);
    var x := PartialStart(m, pm, n);
    x := PartialAll(m, pm, n, n, x);
    PartialIsKernel(m, pm, n, x);
    PartialShape(m, pm, n, x);
    RunKernel(a, x, |pm.c|, ops);
  }

  lemma PartialShape(m: Mat, pm: Perms, n: nat, x: Mat)
    requires Partial(m, pm, n, 0, x)
    ensures IsMat(x, |pm.c|, 1) && Nonzero(x)
  {
    assert x[pm.c[n]] != [0];
  }

  // ---------- fewer rows than columns ----------

  /** Adding a multiple of v that clears entry p. */
  function ClearedRow(a: Vec, v: Vec, p: nat): (b: Vec)
    requires |a| == |v| && p < |v|
    ensures |b| == |a|
  {
    AddScaled(a, v, Mul(a[p], Inv(v[p])))
  }

  lemma ClearedAt(a: Vec, v: Vec, p: nat)
    requires |a| == |v| && p < |v| && v[p] != 0
    ensures ClearedRow(a, v, p)[p] == 0
  {
    hide Add, Mul, Inv;
    CancelInverse(a[p], v[p]);
    AddSelf(a[p]);
  }

  lemma CancelInverse(x: Octet, y: Octet)
    requires y != 0
    ensures Mul(Mul(x, Inv(y)), y) == x
  {
    hide Mul, Inv;
    InvCorrect(y);
    MulComm(Inv(y), y);
    MulAssoc(x, Inv(y), y);
    MulOneRight(x);
  }

  /** A solution of the cleared rows becomes one of all rows by setting unknown p. */
  lemma SetUnknown(v: Vec, l: nat, p: nat, y: Mat) returns (x: Mat)
    requires |v| == l && p < l && v[p] != 0 && IsMat(y, l, 1) && y[p] == [0]
    ensures IsMat(x, l, 1) && Dot(v, x, 0, l) == 0 && forall j :: 0 <= j < l && j != p ==> x[j] == y[j]
    ensures forall a: Vec :: |a| == l && Dot(ClearedRow(a, v, p), y, 0, l) == 0 ==> Dot(a, x, 0, l) == 0
  {
    hide Add, Mul, Dot, Inv, ClearedRow;
    var d := Dot(v, y, 0, l);
    var w := Mul(d, Inv(v[p]));
    x := y[p := [w]];
    AddZero(w);
    DotChange(v, y, x, 0, l, p, w);
    CancelInverse(d, v[p]);
    MulComm(w, v[p]);
    AddSelf(d);
    forall a: Vec | |a| == l && Dot(ClearedRow(a, v, p), y, 0, l) == 0 ensures Dot(a, x, 0, l) == 0 {
      ClearedSolution(a, v, l, p, y, x, w);
    }
  }

  lemma ClearedSolution(a: Vec, v: Vec, l: nat, p: nat, y: Mat, x: Mat, w: Octet)
    requires |a| == |v| == l && p < l && v[p] != 0 && IsMat(y, l, 1) && IsMat(x, l, 1) && y[p] == [0] && x[p] == [w]
    requires forall j :: 0 <= j < l && j != p ==> x[j] == y[j]
    requires Dot(v, x, 0, l) == 0 && Dot(ClearedRow(a, v, p), y, 0, l) == 0
    ensures Dot(a, x, 0, l) == 0
  {
    hide Add, Mul, Dot, Inv;
    var b, beta := ClearedRow(a, v, p), Mul(a[p], Inv(v[p]));
    ClearedAt(a, v, p);
    AddZero(w);
    DotChange(b, y, x, 0, l, p, w);
    MulZero(w);
    AddZero(0);
    DotAddScaled(a, v, beta, x, 0, l);
    MulZero(beta);
    AddZero(Dot(a, x, 0, l));
  }

  lemma Unit(l: nat, free: set<nat>) returns (x: Mat)
    requires free != {} && forall j :: j in free ==> j < l
    ensures IsMat(x, l, 1) && Nonzero(x) && forall j :: 0 <= j < l && j !in free ==> x[j] == [0]
  {
    var p :| p in free;
    x := ZeroMat(l, 1)[p := [1]];
    assert x[p] != [0];
  }

  lemma StillNonzero(y: Mat, x: Mat, l: nat, p: nat)
    requires |x| == |y| == l && p < l && y[p] == [0] && Nonzero(y)
    requires forall j :: 0 <= j < l && j != p ==> x[j] == y[j]
    ensures Nonzero(x)
  {
    var j :| 0 <= j < l && y[j] != [0];
    assert x[j] != [0];
  }

  /** Fewer rows than columns in `free`: a nonzero vector on these columns is sent to zero. */
  lemma {:induction false} FewRowsKernel(a: Mat, l: nat, free: set<nat>) returns (x: Mat)
    requires IsMat(a, |a|, l) && |a| < |free| && forall j :: j in free ==> j < l
    ensures IsMat(x, l, 1) && Nonzero(x) && forall j :: 0 <= j < l && j !in free ==> x[j] == [0]
    ensures forall r :: 0 <= r < |a| ==> Dot(a[r], x, 0, l) == 0
    decreases |a|
  {
    hide Dot, ClearedRow;
    if a == [] {
      x := Unit(l, free);
    } else {
      var n := |a| - 1;
      var v := a[n];
      if p :| p in free && v[p] != 0 {
        var b := seq(n, r requires 0 <= r < n => ClearedRow(a[r], v, p));
        var y := FewRowsKernel(b, l, free - {p});
        x := SetUnknown(v, l, p, y);
        StillNonzero(y, x, l, p);
        forall r | 0 <= r < n ensures Dot(a[r], x, 0, l) == 0 {
          assert Dot(b[r], y, 0, l) == 0 && b[r] == ClearedRow(a[r], v, p);
        }
      } else {
        x := FewRowsKernel(a[..n], l, free);
        DotNone(v, x, l);
        forall r | 0 <= r < n ensures Dot(a[r], x, 0, l) == 0 {
          assert a[r] == a[..n][r];
        }
      }
    }
  }

  /** A matrix with fewer rows than columns has dependent columns. */
  lemma FewRowsDeficient(a: Mat, l: nat)
    requires IsMat(a, |a|, l) && |a| < l
    ensures Deficient(a, l)
  {
    hide Dot;
    ColumnsSize(l);
    var x := FewRowsKernel(a, l, Columns(l));
    assert Kernel(a, x, l);
  }

  function Columns(n: nat): (s: set<nat>)
    ensures forall x :: x in s <==> 0 <= x < n
  {
    if n == 0 then {} else Columns(n - 1) + {n - 1}
  }

  lemma {:induction false} ColumnsSize(n: nat)
    ensures |Columns(n)| == n
  {
    if n != 0 {
      ColumnsSize(n - 1);
    }
  }
}
