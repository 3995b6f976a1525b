/**
 The decoding schedule: row and column permutations with their inverses, degree counts, the
 list of row operations and its two checkpoints (raptorq/sched.c, raptorq/sched.h).
 */
module Scheduling {
  import opened Linear
  import opened SpMat
  import opened Oblas
  import opened Permutation

  /** The parameters of a code, section 5.3.3.3 of RFC 6330. */
  datatype Params = Params(kprime: nat, s: nat, h: nat, w: nat, l: nat, p: nat, p1: nat, u: nat, b: nat, j: nat)

  /** What the solver uses of the parameters: L columns, H dense rows, P inactive columns. */
  ghost predicate Sized(pr: Params, rows: nat) {
    pr.s + pr.h <= pr.l <= rows && pr.h <= pr.p <= pr.l && pr.l >= 3
  }

  /** The permutations of a schedule, as values. */
  datatype Perms = Perms(c: seq<nat>, ci: seq<nat>, d: seq<nat>, di: seq<nat>) {
    ghost predicate Valid(rows: nat, cols: nat) {
      && |c| == cols && Inverse(c, ci)
      && |d| == rows && Inverse(d, di)
    }

    function SwapRows(a: nat, b: nat): Perms
      requires a < |d| && b < |d| && d[a] < |di| && d[b] < |di|
    {
      this.(d := Swap(d, a, b), di := Swap(di, d[a], d[b]))
    }

    function SwapCols(a: nat, b: nat): Perms
      requires a < |c| && b < |c| && c[a] < |ci| && c[b] < |ci|
    {
      this.(c := Swap(c, a, b), ci := Swap(ci, c[a], c[b]))
    }
  }

  class Schedule {
    const c: array<nat>
    const ci: array<nat>
    const d: array<nat>
    const di: array<nat>
    const nz: array<nat>
    var ops: seq<Op>
    var i: nat
    var u: nat
    var marks0: nat
    var marks1: nat

    constructor (rows: nat, cols: nat)
      ensures Distinct(rows, cols)
      ensures fresh(c) && fresh(ci) && fresh(d) && fresh(di) && fresh(nz)
      ensures Pm().Valid(rows, cols) && ops == []
      ensures (forall j :: 0 <= j < cols ==> c[j] == j) && forall k :: 0 <= k < rows ==> d[k] == k
    {
      c := new nat[cols](j => j);
      ci := new nat[cols](j => j);
      d := new nat[rows](j => j);
      di := new nat[rows](j => j);
      nz := new nat[rows](j => 0);
      ops := [];
      i, u, marks0, marks1 := 0, 0, 0, 0;
    }

    ghost predicate Distinct(rows: nat, cols: nat) {
      && c.Length == ci.Length == cols && d.Length == di.Length == nz.Length == rows
      && c != ci && c != d && c != di && c != nz && ci != d && ci != di && ci != nz
      && d != di && d != nz && di != nz
    }

    ghost function Pm(): Perms
      reads c, ci, d, di
    {
      Perms(c[..], ci[..], d[..], di[..])
    }

    method Push(i: nat, j: nat, beta: nat)
      requires beta < 256
      modifies this`ops
      ensures ops == old(ops) + [Op(i, j, beta)]
    {
      ops := ops + [Op(i, j, beta)];
    }

    /** Exchanges rows at positions a and b. */
    method SwapRows(a: nat, b: nat)
      requires Distinct(d.Length, c.Length) && Pm().Valid(d.Length, c.Length)
      requires a < d.Length && b < d.Length
      modifies d, di
      ensures Pm() == old(Pm()).SwapRows(a, b) && Pm().Valid(d.Length, c.Length)
    {
      hide Inverse;
      SwapEntries(d, di, a, b);
    }

    /** Exchanges columns at positions a and b. */
    method SwapCols(a: nat, b: nat)
      requires Distinct(d.Length, c.Length) && Pm().Valid(d.Length, c.Length)
      requires a < c.Length && b < c.Length
      modifies c, ci
      ensures Pm() == old(Pm()).SwapCols(a, b) && Pm().Valid(d.Length, c.Length)
    {
      hide Inverse;
      SwapEntries(c, ci, a, b);
    }
  }
}
