/**
 The dense half-symbol rows: the product MT * GAMMA of section 5.3.3.3 of RFC 6330, and the
 right-to-left recurrence that computes it in place (raptorq/precode.c, lines 60-83).
 */
module Hdpc {
  import opened GF256
  import opened Tables
  import opened Linear
  import opened Oblas
  import opened Scheduling
  import Primes

  /** The four table look-ups behind rnd_get(y, i, m), before reduction modulo m. */
  type Rnd = (nat, nat) -> nat

  /** rnd_get: the pseudo-random generator of section 5.3.5.1 of RFC 6330. */
  function RndGet(rnd: Rnd, y: nat, i: nat, m: nat): (r: nat)
    requires m > 0
    ensures r < m
  {
    rnd(y, i) % m
  }

  /** The two rows flipped in column col. */
  function Flip1(rnd: Rnd, m: nat, col: nat): (r: nat)
    requires m >= 2
    ensures r < m
  {
    RndGet(rnd, col + 1, 6, m)
  }

  function Flip2(rnd: Rnd, m: nat, col: nat): (r: nat)
    requires m >= 2
    ensures r < m
  {
    (Flip1(rnd, m, col) + RndGet(rnd, col + 1, 7, m - 1) + 1) % m
  }

  lemma FlipsDistinct(rnd: Rnd, m: nat, col: nat)
    requires m >= 2
    ensures Flip1(rnd, m, col) != Flip2(rnd, m, col)
  {
    var a, b := Flip1(rnd, m, col), RndGet(rnd, col + 1, 7, m - 1) + 1;
    assert 1 <= b < m && a < m;
    Primes.ModBelowTwice(a + b, m);
  }

  /** MT: two ones in every column but the last, which holds the powers of alpha. */
  function Mt(rnd: Rnd, m: nat, n: nat, h: nat, j: nat): Octet
    requires m >= 2
  {
    if j == n - 1 then AlphaPow(h)
    else if h == Flip1(rnd, m, j) || h == Flip2(rnd, m, j) then 1 else 0
  }

  /** GAMMA: powers of alpha on and below the diagonal. */
  function Gamma(i: nat, j: nat): Octet {
    if i >= j then AlphaPow(i - j) else 0
  }

  /** The first k terms of entry (h, col) of MT * GAMMA. */
  function Product(rnd: Rnd, m: nat, n: nat, h: nat, col: nat, k: nat): Octet
    requires m >= 2
  {
    if k == 0 then 0
    else Add(Product(rnd, m, n, h, col, k - 1), Mul(Mt(rnd, m, n, h, k - 1), Gamma(k - 1, col)))
  }

  function HdpcMatrix(rnd: Rnd, m: nat, n: nat): (r: Mat)
    requires m >= 2
    ensures |r| == m && forall h :: 0 <= h < m ==> |r[h]| == n
  {
    seq(m, h requires 0 <= h < m => HdpcRow(rnd, m, n, h))
  }

  function HdpcRow(rnd: Rnd, m: nat, n: nat, h: nat): (r: Vec)
    requires m >= 2
    ensures |r| == n
  {
    seq(n, c requires 0 <= c < n => Product(rnd, m, n, h, c, n))
  }

  lemma GammaStep(i: nat, j: nat)
    ensures Gamma(i, j) == Add(Xtime(Gamma(i, j + 1)), if i == j then 1 else 0)
  {
    hide Add;
    AddZero(Gamma(i, j));
    AddZero(1);
  }

  /** Column col of the product is alpha times column col + 1, plus column col of MT. */
  lemma {:induction false} ProductStep(rnd: Rnd, m: nat, n: nat, h: nat, col: nat, k: nat)
    requires m >= 2
    ensures Product(rnd, m, n, h, col, k)
         == Add(Xtime(Product(rnd, m, n, h, col + 1, k)), if k > col then Mt(rnd, m, n, h, col) else 0)
    decreases k
  {
    hide Add, Mul, Gamma, Mt;
    if k == 0 {
      AddZero(0);
    } else {
      hide Xtime;
      ProductStep(rnd, m, n, h, col, k - 1);
      var p, t := Product(rnd, m, n, h, col + 1, k - 1), Mt(rnd, m, n, h, k - 1);
      var g: Octet, e: Octet := Gamma(k - 1, col + 1), if k - 1 == col then 1 else 0;
      var c: Octet := if k - 1 > col then Mt(rnd, m, n, h, col) else 0;
      GammaStep(k - 1, col);
      MulAddRight(t, Xtime(g), e);
      MulXtimeRight(t, g);
      XtimeAdd(p, Mul(t, g));
      AddSwap(Xtime(p), c, Xtime(Mul(t, g)), Mul(t, e));
      MulZero(t);
      MulOneRight(t);
      AddZero(c);
      AddZero(t);
    }
  }

  /** The last column of the product is the last column of MT. */
  lemma {:induction false} ProductLast(rnd: Rnd, m: nat, n: nat, h: nat, k: nat)
    requires m >= 2 && k <= n && n >= 1
    ensures Product(rnd, m, n, h, n - 1, k) == if k == n then AlphaPow(h) else 0
    decreases k
  {
    hide Add, Mul, AlphaPow;
    if k != 0 {
      ProductLast(rnd, m, n, h, k - 1);
      MulZero(Mt(rnd, m, n, h, k - 1));
      AddZero(0);
      if k == n {
        assert AlphaPow(0) == 1 by { AlphaZero(); }
        MulOneRight(AlphaPow(h));
        AddZero(AlphaPow(h));
      }
    }
  }

  /**
   The product in full: the last column is the powers of alpha, and every other column is alpha times its right
   neighbour, with a one added in two rows, the second of which is 1 to H - 1 places behind the first.
   */
  lemma HdpcEntries(rnd: Rnd, m: nat, n: nat, h: nat, col: nat)
    requires m >= 2 && h < m && col < n
    ensures var e, one, gap := HdpcMatrix(rnd, m, n), rnd(col + 1, 6) % m, 1 + rnd(col + 1, 7) % (m - 1);
      e[h][col] ==
      if col == n - 1 then AlphaPow(h)
      else Add(Xtime(e[h][col + 1]), if h == one || h == (one + gap) % m then 1 else 0)
  {
    hide Add, Xtime, Product, AlphaPow;
    ProductLast(rnd, m, n, h, n);
    ProductStep(rnd, m, n, h, col, n);
    var one, gap := rnd(col + 1, 6) % m, rnd(col + 1, 7) % (m - 1);
    assert one + gap + 1 == one + (1 + gap);
  }

  lemma AlphaZero()
    ensures AlphaPow(0) == 1
  {}

  /** OCT_EXP[OCT_LOG[x] + 1] for nonzero x. */
  lemma TableXtime(x: Octet)
    ensures (if x == 0 then 0 else AlphaPow(Log(x) + 1)) == Xtime(x)
  {
    hide Log;
    if x != 0 {
      LogOfNonzero(x);
    }
  }

  /** precode_matrix_make_HDPC. */
  method MakeHDPC(pr: Params, rnd: Rnd) returns (hdpc: array2<Octet>)
    requires pr.h >= 2 && pr.kprime + pr.s >= 1
    ensures fresh(hdpc) && hdpc.Length0 == pr.h && hdpc.Length1 == pr.kprime + pr.s
    ensures RowsOf(hdpc) == HdpcMatrix(rnd, pr.h, pr.kprime + pr.s)
  {
    hide Add, Product, AlphaPow, Log, Xtime, Mt;
    var m, n := pr.h, pr.kprime + pr.s;
    var last: nat := n - 1;
    hdpc := new Octet[m, n]((i, j) => 0);
    for row := 0 to m
      invariant forall r :: 0 <= r < row ==> hdpc[r, last] == Product(rnd, m, n, r, last, n)
    {
      ProductLast(rnd, m, n, row, n);
      hdpc[row, last] := AlphaPow(row);
    }
    var col: nat := last;
    while col > 0
      invariant 0 <= col < n
      invariant forall r, c :: 0 <= r < m && col <= c < n ==> hdpc[r, c] == Product(rnd, m, n, r, c, n)
      decreases col
    {
      col := col - 1;
      MakeColumn(hdpc, rnd, n, col);
    }
    SameRows(hdpc, HdpcMatrix(rnd, m, n));
  }

  /** One column: alpha times its right neighbour, then two flips. */
  method MakeColumn(hdpc: array2<Octet>, rnd: Rnd, n: nat, col: nat)
    requires hdpc.Length0 >= 2 && col + 1 < n == hdpc.Length1
    requires forall r, c ::
      0 <= r < hdpc.Length0 && col < c < n ==> hdpc[r, c] == Product(rnd, hdpc.Length0, n, r, c, n)
    modifies hdpc
    ensures forall r, c ::
      0 <= r < hdpc.Length0 && col <= c < n ==> hdpc[r, c] == Product(rnd, hdpc.Length0, n, r, c, n)
  {
    hide Add, Product, AlphaPow, Log, Xtime;
    var m := hdpc.Length0;
    for row := 0 to m
      invariant forall r, c :: 0 <= r < m && 0 <= c < n && c != col ==> hdpc[r, c] == old(hdpc[r, c])
      invariant forall r :: 0 <= r < row ==> hdpc[r, col] == Xtime(hdpc[r, col + 1])
    {
      TableXtime(hdpc[row, col + 1]);
      hdpc[row, col] := if hdpc[row, col + 1] == 0 then 0 else AlphaPow(Log(hdpc[row, col + 1]) + 1);
    }
    var b1 := RndGet(rnd, col + 1, 6, m);
    var b2 := (b1 + RndGet(rnd, col + 1, 7, m - 1) + 1) % m;
    FlipsDistinct(rnd, m, col);
    hdpc[b1, col] := Add(hdpc[b1, col], 1);
    hdpc[b2, col] := Add(hdpc[b2, col], 1);
    forall r | 0 <= r < m ensures hdpc[r, col] == Product(rnd, m, n, r, col, n) {
      ProductStep(rnd, m, n, r, col, n);
      AddZero(Xtime(hdpc[r, col + 1]));
    }
  }
}
