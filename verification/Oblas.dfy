/**
 Row operations on a byte matrix, in place: oblas/oblas_classic.c.  A matrix is a two-dimensional
 array; RowsOf is its contents as a value.
 */
module Oblas {
  import opened GF256
  import opened Tables
  import opened Linear

  ghost function RowsOf(d: array2<Octet>): (m: Mat)
    reads d
    ensures IsMat(m, d.Length0, d.Length1)
    ensures forall r, k :: 0 <= r < d.Length0 && 0 <= k < d.Length1 ==> m[r][k] == d[r, k]
  {
    seq(d.Length0, r requires 0 <= r < d.Length0 reads d =>
      seq(d.Length1, k requires 0 <= k < d.Length1 reads d => d[r, k]))
  }

  lemma SameRows(d: array2<Octet>, m: Mat)
    requires IsMat(m, d.Length0, d.Length1)
    requires forall r, k :: 0 <= r < d.Length0 && 0 <= k < d.Length1 ==> m[r][k] == d[r, k]
    ensures RowsOf(d) == m
  {
    forall r | 0 <= r < d.Length0 ensures RowsOf(d)[r] == m[r] {}
  }

  /** Exchange of rows i and j. */
  function Swap<T>(s: seq<T>, i: nat, j: nat): (r: seq<T>)
    requires i < |s| && j < |s|
    ensures |r| == |s|
  {
    s[i := s[j]][j := s[i]]
  }

  method OSwapRow(d: array2<Octet>, i: nat, j: nat)
    requires i < d.Length0 && j < d.Length0
    modifies d
    ensures RowsOf(d) == Swap(old(RowsOf(d)), i, j)
  {
    ghost var m := RowsOf(d);
    if i == j {
      return;
    }
    for k := 0 to d.Length1
      invariant forall r, c :: 0 <= r < d.Length0 && 0 <= c < d.Length1 ==>
        d[r, c] == if c < k && (r == i || r == j) then m[i + j - r][c] else m[r][c]
    {
      d[i, k], d[j, k] := d[j, k], d[i, k];
    }
    SameRows(d, Swap(m, i, j));
  }

  method OAddRow(d: array2<Octet>, i: nat, j: nat)
    requires i < d.Length0 && j < d.Length0 && i != j
    modifies d
    ensures RowsOf(d) == ApplyOp(old(RowsOf(d)), Op(i, j, 1))
  {
    hide Add, Mul;
    ghost var m := RowsOf(d);
    for k := 0 to d.Length1
      invariant forall r, c :: 0 <= r < d.Length0 && r != i && 0 <= c < d.Length1 ==> d[r, c] == m[r][c]
      invariant forall c :: 0 <= c < k ==> d[i, c] == Add(m[i][c], Mul(1, m[j][c]))
      invariant forall c :: k <= c < d.Length1 ==> d[i, c] == m[i][c]
    {
      MulOneLeft(d[j, k]);
      d[i, k] := Add(d[i, k], d[j, k]);
    }
    SameRows(d, ApplyOp(m, Op(i, j, 1)));
  }

  /** Adds u times row j to row i, by two nibble look-ups per byte. */
  method OAxpy(d: array2<Octet>, i: nat, j: nat, u: Octet)
    requires i < d.Length0 && j < d.Length0 && i != j
    modifies d
    ensures RowsOf(d) == if u == 0 then old(RowsOf(d)) else ApplyOp(old(RowsOf(d)), Op(i, j, u))
  {
    if u == 0 {
      return;
    }
    if u == 1 {
      OAddRow(d, i, j);
      return;
    }
    hide Add, Mul, TableMul;
    ghost var m := RowsOf(d);
    for k := 0 to d.Length1
      invariant forall r, c :: 0 <= r < d.Length0 && r != i && 0 <= c < d.Length1 ==> d[r, c] == m[r][c]
      invariant forall c :: 0 <= c < k ==> d[i, c] == Add(m[i][c], Mul(u, m[j][c]))
      invariant forall c :: k <= c < d.Length1 ==> d[i, c] == m[i][c]
    {
      NibbleProduct(u, d[j, k]);
      d[i, k] := Add(d[i, k], TableMul(u, d[j, k]));
    }
    SameRows(d, ApplyOp(m, Op(i, j, u)));
  }

  /** Multiplies row i by u; 0 and 1 leave it alone. */
  method OScal(d: array2<Octet>, i: nat, u: Octet)
    requires i < d.Length0
    modifies d
    ensures RowsOf(d) == if u < 2 then old(RowsOf(d)) else ApplyOp(old(RowsOf(d)), Op(i, u, 0))
  {
    if u < 2 {
      return;
    }
    hide Add, Mul, TableMul;
    ghost var m := RowsOf(d);
    for k := 0 to d.Length1
      invariant forall r, c :: 0 <= r < d.Length0 && r != i && 0 <= c < d.Length1 ==> d[r, c] == m[r][c]
      invariant forall c :: 0 <= c < k ==> d[i, c] == Mul(u, m[i][c])
      invariant forall c :: k <= c < d.Length1 ==> d[i, c] == m[i][c]
    {
      NibbleProduct(u, d[i, k]);
      d[i, k] := TableMul(u, d[i, k]);
    }
    SameRows(d, ApplyOp(m, Op(i, u, 0)));
  }
}
