/**
 Dense matrices over GF(256), the two row operations of a decoding schedule, and what a row
 operation does to a system of equations.
 */
module Linear {
  import opened GF256
  import opened Tables

  type Vec = seq<Octet>
  type Mat = seq<Vec>

  ghost predicate IsMat(m: Mat, rows: nat, cols: nat) {
    |m| == rows && forall r :: 0 <= r < rows ==> |m[r]| == cols
  }

  function AddScaled(a: Vec, b: Vec, beta: Octet): (r: Vec)
    requires |a| == |b|
    ensures |r| == |a|
  {
    seq(|a|, k requires 0 <= k < |a| => Add(a[k], Mul(beta, b[k])))
  }

  /** The sum of two rows. */
  function Plus(a: Vec, w: Vec): (r: Vec)
    requires |a| == |w|
    ensures |r| == |a|
  {
    seq(|a|, k requires 0 <= k < |a| => Add(a[k], w[k]))
  }

  function Scaled(a: Vec, u: Octet): (r: Vec)
    ensures |r| == |a|
  {
    seq(|a|, k requires 0 <= k < |a| => Mul(u, a[k]))
  }

  /**
   One entry of a schedule.  A nonzero beta adds beta times row j to row i; beta zero multiplies
   row i by the octet j.
   */
  datatype Op = Op(i: nat, j: nat, beta: Octet)

  predicate ValidOp(op: Op, rows: nat) {
    && op.i < rows
    && (if op.beta != 0 then op.j < rows && op.j != op.i else 2 <= op.j < 256)
  }

  function ApplyOp(m: Mat, op: Op): (r: Mat)
    requires ValidOp(op, |m|)
    requires op.beta != 0 ==> |m[op.i]| == |m[op.j]|
    ensures |r| == |m|
  {
    if op.beta != 0 then m[op.i := AddScaled(m[op.i], m[op.j], op.beta)]
    else m[op.i := Scaled(m[op.i], op.j)]
  }

  ghost predicate ValidOps(ops: seq<Op>, rows: nat) {
    forall k :: 0 <= k < |ops| ==> ValidOp(ops[k], rows)
  }

  ghost function Run(m: Mat, ops: seq<Op>, cols: nat): (r: Mat)
    requires IsMat(m, |m|, cols) && ValidOps(ops, |m|)
    ensures IsMat(r, |m|, cols)
  {
    if ops == [] then m
    else ApplyOp(Run(m, ops[..|ops| - 1], cols), ops[|ops| - 1])
  }

  lemma RunPush(m: Mat, ops: seq<Op>, op: Op, cols: nat)
    requires IsMat(m, |m|, cols) && ValidOps(ops, |m|) && ValidOp(op, |m|)
    ensures ValidOps(ops + [op], |m|)
    ensures Run(m, ops + [op], cols) == ApplyOp(Run(m, ops, cols), op)
  {
    assert (ops + [op])[..|ops|] == ops;
  }

  lemma {:induction false} RunAppend(m: Mat, a: seq<Op>, b: seq<Op>, cols: nat)
    requires IsMat(m, |m|, cols) && ValidOps(a, |m|) && ValidOps(b, |m|)
    ensures ValidOps(a + b, |m|)
    ensures Run(m, a + b, cols) == Run(Run(m, a, cols), b, cols)
    decreases |b|
  {
    if b == [] {
      assert a + b == a;
    } else {
      var b' := b[..|b| - 1];
      RunAppend(m, a, b', cols);
      assert (a + b)[..|a + b| - 1] == a + b';
    }
  }

  // ---------- linear combinations ----------

  /** The first n terms of row a applied to column t of c. */
  ghost function Dot(a: Vec, c: Mat, t: nat, n: nat): Octet
    requires n <= |a| && n <= |c| && forall j :: 0 <= j < n ==> t < |c[j]|
  {
    if n == 0 then 0 else Add(Dot(a, c, t, n - 1), Mul(a[n - 1], c[n - 1][t]))
  }

  /** The matrix c solves the system with coefficients a and right-hand side d. */
  ghost predicate Solves(a: Mat, d: Mat, c: Mat, t: nat)
    requires IsMat(a, |a|, |c|) && IsMat(d, |a|, t) && IsMat(c, |c|, t)
  {
    forall r, k :: 0 <= r < |a| && 0 <= k < t ==> d[r][k] == Dot(a[r], c, k, |c|)
  }

  lemma {:induction false} DotAddScaled(a: Vec, b: Vec, beta: Octet, c: Mat, t: nat, n: nat)
    requires |a| == |b| && n <= |a| && n <= |c| && forall j :: 0 <= j < n ==> t < |c[j]|
    ensures Dot(AddScaled(a, b, beta), c, t, n) == Add(Dot(a, c, t, n), Mul(beta, Dot(b, c, t, n)))
    decreases n
  {
    hide Add, Mul;
    if n == 0 {
      MulZero(beta);
      AddZero(0);
    } else {
      DotAddScaled(a, b, beta, c, t, n - 1);
      var x := c[n - 1][t];
      MulAddLeft(a[n - 1], Mul(beta, b[n - 1]), x);
      MulAssoc(beta, b[n - 1], x);
      MulAddRight(beta, Dot(b, c, t, n - 1), Mul(b[n - 1], x));
      AddSwap(Dot(a, c, t, n - 1), Mul(beta, Dot(b, c, t, n - 1)),
              Mul(a[n - 1], x), Mul(beta, Mul(b[n - 1], x)));
    }
  }

  lemma {:induction false} DotScaled(a: Vec, u: Octet, c: Mat, t: nat, n: nat)
    requires n <= |a| && n <= |c| && forall j :: 0 <= j < n ==> t < |c[j]|
    ensures Dot(Scaled(a, u), c, t, n) == Mul(u, Dot(a, c, t, n))
    decreases n
  {
    hide Add, Mul;
    if n == 0 {
      MulZero(u);
    } else {
      DotScaled(a, u, c, t, n - 1);
      MulAssoc(u, a[n - 1], c[n - 1][t]);
      MulAddRight(u, Dot(a, c, t, n - 1), Mul(a[n - 1], c[n - 1][t]));
    }
  }

  lemma ApplyOpIsMat(m: Mat, op: Op, cols: nat)
    requires IsMat(m, |m|, cols) && ValidOp(op, |m|)
    ensures IsMat(ApplyOp(m, op), |m|, cols)
  {}

  /** One row operation neither gains nor loses solutions. */
  lemma StepSolves(a: Mat, d: Mat, c: Mat, t: nat, op: Op)
    requires IsMat(a, |a|, |c|) && IsMat(d, |a|, t) && IsMat(c, |c|, t) && ValidOp(op, |a|)
    ensures IsMat(ApplyOp(a, op), |a|, |c|) && IsMat(ApplyOp(d, op), |a|, t)
    ensures Solves(a, d, c, t) <==> Solves(ApplyOp(a, op), ApplyOp(d, op), c, t)
  {
    hide Add, Mul, Dot;
    var a', d', i := ApplyOp(a, op), ApplyOp(d, op), op.i;
    forall k | 0 <= k < t
      ensures d[i][k] == Dot(a[i], c, k, |c|) && (op.beta != 0 ==> d[op.j][k] == Dot(a[op.j], c, k, |c|))
              ==> d'[i][k] == Dot(a'[i], c, k, |c|)
      ensures d'[i][k] == Dot(a'[i], c, k, |c|) && (op.beta != 0 ==> d[op.j][k] == Dot(a[op.j], c, k, |c|))
              ==> d[i][k] == Dot(a[i], c, k, |c|)
    {
      var x, y := d[i][k], Dot(a[i], c, k, |c|);
      if op.beta != 0 {
        DotAddScaled(a[i], a[op.j], op.beta, c, k, |c|);
        AddCancel(x, Mul(op.beta, d[op.j][k]));
        AddCancel(y, Mul(op.beta, d[op.j][k]));
      } else {
        DotScaled(a[i], op.j, c, k, |c|);
        ScaleInjective(op.j, x, y);
      }
    }
    if Solves(a, d, c, t) {
      forall r, k | 0 <= r < |a| && 0 <= k < t ensures d'[r][k] == Dot(a'[r], c, k, |c|) {
        if r == i {
        } else {
          assert a'[r] == a[r] && d'[r] == d[r];
        }
      }
    }
    if Solves(a', d', c, t) {
      forall r, k | 0 <= r < |a| && 0 <= k < t ensures d[r][k] == Dot(a[r], c, k, |c|) {
        assert d'[r][k] == Dot(a'[r], c, k, |c|);
        if r == i {
          if op.beta != 0 {
            assert d'[op.j][k] == Dot(a'[op.j], c, k, |c|);
          }
        } else {
          assert a'[r] == a[r] && d'[r] == d[r];
        }
      }
    }
  }

  lemma ScaleInjective(u: Octet, x: Octet, y: Octet)
    requires u != 0
    ensures Mul(u, x) == Mul(u, y) <==> x == y
  {
    hide *;
    InvCorrect(u);
    MulAssoc(Inv(u), u, x);
    MulAssoc(Inv(u), u, y);
    MulOneLeft(x);
    MulOneLeft(y);
  }

  /** Running a schedule on both sides of a system neither gains nor loses solutions. */
  lemma {:induction false} RunSolves(a: Mat, d: Mat, c: Mat, t: nat, ops: seq<Op>)
    requires IsMat(a, |a|, |c|) && IsMat(d, |a|, t) && IsMat(c, |c|, t) && ValidOps(ops, |a|)
    ensures Solves(a, d, c, t) <==> Solves(Run(a, ops, |c|), Run(d, ops, t), c, t)
    decreases |ops|
  {
    if ops != [] {
      var init, last := ops[..|ops| - 1], ops[|ops| - 1];
      RunSolves(a, d, c, t, init);
      StepSolves(Run(a, init, |c|), Run(d, init, t), c, t, last);
    }
  }

  // ---------- undoing additions ----------

  function Reverse(ops: seq<Op>): (r: seq<Op>)
    ensures |r| == |ops|
    ensures forall k :: 0 <= k < |ops| ==> r[k] == ops[|ops| - 1 - k]
  {
    if ops == [] then [] else [ops[|ops| - 1]] + Reverse(ops[..|ops| - 1])
  }

  lemma AddTwice(m: Mat, op: Op, cols: nat)
    requires IsMat(m, |m|, cols) && ValidOp(op, |m|) && op.beta != 0
    ensures ApplyOp(ApplyOp(m, op), op) == m
  {
    hide Add, Mul;
    var m' := ApplyOp(ApplyOp(m, op), op);
    forall k | 0 <= k < cols ensures m'[op.i][k] == m[op.i][k] {
      AddCancel(m[op.i][k], Mul(op.beta, m[op.j][k]));
    }
    assert m'[op.i] == m[op.i];
  }

  lemma {:induction false} ReverseUndoes(m: Mat, ops: seq<Op>, cols: nat)
    requires IsMat(m, |m|, cols) && ValidOps(ops, |m|)
    requires forall k :: 0 <= k < |ops| ==> ops[k].beta != 0
    ensures ValidOps(Reverse(ops), |m|)
    ensures Run(Run(m, ops, cols), Reverse(ops), cols) == m
    decreases |ops|
  {
    if ops != [] {
      var init, last := ops[..|ops| - 1], ops[|ops| - 1];
      ReverseUndoes(m, init, cols);
      var m' := Run(m, ops, cols);
      assert ValidOps([last], |m|) && ValidOps(Reverse(init), |m|);
      RunAppend(m', [last], Reverse(init), cols);
      assert [last][..0] == [];
      assert Run(m', [last], cols) == ApplyOp(m', last);
      AddTwice(Run(m, init, cols), last, cols);
    }
  }

  // ---------- locality ----------

  ghost predicate Touches(ops: seq<Op>, rows: set<nat>) {
    forall k :: 0 <= k < |ops| ==> ops[k].i in rows && (ops[k].beta != 0 ==> ops[k].j in rows)
  }

  /** A row that is no target keeps its value. */
  lemma {:induction false} RunKeepsRow(m: Mat, ops: seq<Op>, cols: nat, r: nat)
    requires IsMat(m, |m|, cols) && ValidOps(ops, |m|) && r < |m|
    requires forall k :: 0 <= k < |ops| ==> ops[k].i != r
    ensures Run(m, ops, cols)[r] == m[r]
    decreases |ops|
  {
    if ops != [] {
      RunKeepsRow(m, ops[..|ops| - 1], cols, r);
    }
  }

  /**
   Operations among a set of rows act on one column only through that column's entries in those
   rows, even between matrices of different widths.
   */
  lemma {:induction false} RunLocal(m: Mat, n: Mat, ops: seq<Op>, cols: nat, dols: nat, x: nat, y: nat, rows: set<nat>)
    requires IsMat(m, |m|, cols) && IsMat(n, |m|, dols) && ValidOps(ops, |m|) && x < cols && y < dols
    requires Touches(ops, rows)
    requires forall r :: r in rows && r < |m| ==> m[r][x] == n[r][y]
    ensures forall r :: r in rows && r < |m| ==> Run(m, ops, cols)[r][x] == Run(n, ops, dols)[r][y]
    decreases |ops|
  {
    hide Add, Mul;
    if ops != [] {
      var init := ops[..|ops| - 1];
      RunLocal(m, n, init, cols, dols, x, y, rows);
      var m', n', op := Run(m, init, cols), Run(n, init, dols), ops[|ops| - 1];
      assert op.i in rows && (op.beta != 0 ==> op.j in rows);
      assert m'[op.i][x] == n'[op.i][y];
    }
  }

  // ---------- rows with few nonzero entries ----------

  /** A row that is zero but for a one in column p picks row p of the solution. */
  lemma {:induction false} DotUnit(a: Vec, c: Mat, t: nat, n: nat, p: nat)
    requires n <= |a| && n <= |c| && forall j :: 0 <= j < n ==> t < |c[j]|
    requires forall j :: 0 <= j < n && j != p ==> a[j] == 0
    requires p < n ==> a[p] == 1
    ensures Dot(a, c, t, n) == if p < n then c[p][t] else 0
    decreases n
  {
    hide Add, Mul;
    if n != 0 {
      DotUnit(a, c, t, n - 1, p);
      MulZero(c[n - 1][t]);
      MulOneLeft(c[n - 1][t]);
      AddZero(c[n - 1][t]);
      AddZero(0);
      AddZero(Dot(a, c, t, n - 1));
    }
  }

  /** Changing one row of the solution changes the combination by that row's coefficient. */
  lemma {:induction false} DotChange(a: Vec, c: Mat, c': Mat, t: nat, n: nat, p: nat, v: Octet)
    requires n <= |a| && n <= |c| && |c| == |c'| && p < |c|
    requires forall j :: 0 <= j < |c| ==> t < |c[j]| && t < |c'[j]|
    requires forall j :: 0 <= j < |c| && j != p ==> c[j][t] == c'[j][t]
    requires c'[p][t] == Add(c[p][t], v)
    ensures Dot(a, c', t, n) == if p < n then Add(Dot(a, c, t, n), Mul(a[p], v)) else Dot(a, c, t, n)
    decreases n
  {
    hide Add, Mul;
    if n != 0 {
      DotChange(a, c, c', t, n - 1, p, v);
      var x, y := Dot(a, c, t, n - 1), Mul(a[n - 1], c[n - 1][t]);
      if p == n - 1 {
        MulAddRight(a[p], c[p][t], v);
        AddAssoc(x, y, Mul(a[p], v));
      } else if p < n - 1 {
        var w := Mul(a[p], v);
        AddAssoc(x, w, y);
        AddComm(w, y);
        AddAssoc(x, y, w);
      }
    }
  }
}
