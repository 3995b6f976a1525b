/**
 The lookup tables of oblas/octtables.h, as built by oblas/tablegen.c: powers of the generator,
 discrete logarithms, inverses and the two nibble product tables.
 */
module Tables {
  import opened Bits
  import opened GF256

  /** The powers of the generator x. */
  function AlphaPow(k: nat): Octet {
    if k == 0 then 1 else Xtime(AlphaPow(k - 1))
  }

  lemma {:induction false} AlphaPowAdd(i: nat, j: nat)
    ensures Mul(AlphaPow(i), AlphaPow(j)) == AlphaPow(i + j)
  {
    hide Mul, Xtime;
    if i == 0 {
      MulOneLeft(AlphaPow(j));
    } else {
      AlphaPowAdd(i - 1, j);
      MulXtimeLeft(AlphaPow(i - 1), AlphaPow(j));
    }
  }

  // ---------- the generator has order 255 ----------

  lemma XorJoin(p: bool, a: nat, q: bool, b: nat)
    ensures Xor(Join(p, a), Join(q, b)) == Join(p != q, Xor(a, b))
  {
    hide Xor, Odd, Half;
    XorStep(Join(p, a), Join(q, b));
    Digits(p, a);
    Digits(q, b);
    Rejoin(Xor(Join(p, a), Join(q, b)));
  }

  lemma XorSeven(h: nat, x: nat)
    requires x < 8
    ensures Xor(8 * h + x, 7) == 8 * h + 7 - x
  {
    hide Xor;
    var p, y := x % 2 == 1, x / 2;
    var q, z := y % 2 == 1, y / 2;
    XorZero(h);
    XorJoin(z == 1, h, true, 0);
    XorJoin(q, 2 * h + z, true, 1);
    XorJoin(p, 4 * h + y, true, 3);
  }

  /** The reduction step in closed form, from the digits of what doubling leaves. */
  lemma XtimeValue(a: Octet, h: nat, x: nat, w: nat)
    requires 2 * a - 256 == 32 * h + 4 * x + 2 * w && x < 8 && w < 2
    ensures Xtime(a) == 32 * h + 29 + 2 * w - 4 * x
  {
    hide Xor;
    XorSeven(h, x);
    XorJoin(w == 1, 8 * h + x, false, 7);
    XorJoin(false, 16 * h + 2 * x + w, true, 14);
  }

  lemma SmallSums()
    ensures Add(3, 6) == 5 && Add(5, 20) == 17 && Add(17, 68) == 85
  {
    // 3 + 6
    assert Xor(0, 1) == 1 && Xor(1, 3) == 2 && Xor(3, 6) == 5;
    // 5 + 20
    assert Xor(0, 1) == 1 && Xor(0, 2) == 2 && Xor(1, 5) == 4 && Xor(2, 10) == 8 && Xor(5, 20) == 17;
    // 17 + 68
    assert Xor(0, 1) == 1 && Xor(0, 2) == 2 && Xor(1, 4) == 5 && Xor(2, 8) == 10;
    assert Xor(4, 17) == 21 && Xor(8, 34) == 42 && Xor(17, 68) == 85;
  }

  lemma MoreSums()
    ensures Add(85, 73) == 28 && Add(28, 112) == 108 && Add(3, 12) == 15
  {
    // 85 + 73
    assert Xor(1, 1) == 0 && Xor(2, 2) == 0 && Xor(5, 4) == 1 && Xor(10, 9) == 3;
    assert Xor(21, 18) == 7 && Xor(42, 36) == 14 && Xor(85, 73) == 28;
    // 28 + 112
    assert Xor(0, 1) == 1 && Xor(0, 3) == 3 && Xor(1, 7) == 6 && Xor(3, 14) == 13;
    assert Xor(7, 28) == 27 && Xor(14, 56) == 54 && Xor(28, 112) == 108;
    // 3 + 12
    assert Xor(0, 1) == 1 && Xor(0, 3) == 3 && Xor(1, 6) == 7 && Xor(3, 12) == 15;
  }

  lemma MulThreeFive(a: Octet)
    ensures Mul(3, a) == Add(a, Xtime(a))
    ensures Mul(5, a) == Add(a, Xtime(Xtime(a)))
  {
    hide Xtime, Add;
    MulUnfold(3, a);
    MulUnfold(5, a);
    MulUnfold(2, Xtime(a));
    MulOneLeft(Xtime(a));
    MulOneLeft(Xtime(Xtime(a)));
    assert Half(3) == 1 && Half(5) == 2 && Half(2) == 1;
    AddZero(Xtime(Xtime(a)));
  }

  /** k doublings of a that need no reduction. */
  lemma {:induction false} Doublings(k: nat, n: nat)
    requires AlphaPow(k) * Pow2(n) < 256
    ensures AlphaPow(k + n) == AlphaPow(k) * Pow2(n)
  {
    if n != 0 {
      assert AlphaPow(k) * Pow2(n) == 2 * (AlphaPow(k) * Pow2(n - 1));
      Doublings(k, n - 1);
      hide Add;
    }
  }

  lemma Reduction(k: nat, h: nat, x: nat, w: nat)
    requires 2 * AlphaPow(k) - 256 == 32 * h + 4 * x + 2 * w && x < 8 && w < 2
    ensures AlphaPow(k + 1) == 32 * h + 29 + 2 * w - 4 * x
  {
    XtimeValue(AlphaPow(k), h, x, w);
    hide Xtime;
  }

  lemma Pow2Values()
    ensures Pow2(1) == 2 && Pow2(2) == 4 && Pow2(3) == 8 && Pow2(4) == 16 && Pow2(7) == 128
  {}

  lemma AlphaPowFirst()
    ensures AlphaPow(15) == 38 && AlphaPow(17) == 152
  {
    assert AlphaPow(0) == 1;
    Pow2Values();
    hide *;
    Doublings(0, 7);
    Reduction(7, 0, 0, 0);
    Doublings(8, 3);
    Reduction(11, 6, 4, 0);
    Reduction(12, 4, 6, 1);
    Reduction(13, 0, 3, 1);
    Doublings(14, 1);
    Doublings(15, 2);
  }

  lemma AlphaPowSecond()
    requires AlphaPow(17) == 152
    ensures AlphaPow(25) == 3
  {
    Pow2Values();
    hide *;
    Reduction(17, 1, 4, 0);
    Doublings(18, 2);
    Reduction(20, 3, 2, 0);
    Doublings(21, 1);
    Reduction(22, 6, 5, 0);
    Reduction(23, 4, 4, 1);
    Reduction(24, 0, 7, 1);
  }

  lemma AlphaPowMiddle()
    requires AlphaPow(25) == 3
    ensures AlphaPow(50) == 5 && AlphaPow(51) == 10 && AlphaPow(75) == 15
  {
    assert Xtime(3) == 6 && Xtime(6) == 12;
    SmallSums();
    MoreSums();
    Pow2Values();
    hide *;
    AlphaPowAdd(25, 25);
    AlphaPowAdd(50, 25);
    MulThreeFive(3);
    Doublings(50, 1);
  }

  lemma AlphaPowThird()
    requires AlphaPow(75) == 15
    ensures AlphaPow(85) == 214
  {
    Pow2Values();
    hide *;
    Doublings(75, 4);
    Reduction(79, 7, 0, 0);
    Reduction(80, 7, 6, 1);
    Reduction(81, 6, 3, 1);
    Reduction(82, 5, 1, 1);
    Reduction(83, 3, 5, 1);
    Doublings(84, 1);
  }

  lemma AlphaPowFourth()
    requires AlphaPow(50) == 5
    ensures AlphaPow(250) == 108
  {
    assert Xtime(5) == 10 && Xtime(10) == 20 && Xtime(17) == 34 && Xtime(34) == 68;
    assert Xtime(85) == 170 && Xtime(28) == 56 && Xtime(56) == 112;
    SmallSums();
    MoreSums();
    hide *;
    AlphaPowAdd(50, 50);
    AlphaPowAdd(50, 100);
    AlphaPowAdd(50, 150);
    AlphaPowAdd(50, 200);
    MulThreeFive(5);
    MulThreeFive(17);
    MulThreeFive(85);
    MulThreeFive(28);
    XtimeValue(170, 2, 5, 0);
  }

  lemma AlphaPowFifth()
    requires AlphaPow(250) == 108
    ensures AlphaPow(255) == 1
  {
    Pow2Values();
    hide *;
    Doublings(250, 1);
    Reduction(251, 5, 4, 0);
    Reduction(252, 2, 6, 1);
    Doublings(253, 1);
    Reduction(254, 0, 7, 0);
  }

  lemma AlphaPowValues()
    ensures AlphaPow(15) != 1 && AlphaPow(51) != 1 && AlphaPow(85) != 1
    ensures AlphaPow(255) == 1
  {
    hide *;
    AlphaPowFirst();
    AlphaPowSecond();
    AlphaPowMiddle();
    AlphaPowThird();
    AlphaPowFourth();
    AlphaPowFifth();
  }

  lemma {:induction false} AlphaPowMultiple(n: nat, k: nat)
    requires AlphaPow(n) == 1
    ensures AlphaPow(n * k) == 1
  {
    hide *;
    if k == 0 {
      assert n * k == 0;
      AlphaPowZero();
    } else {
      AlphaPowMultiple(n, k - 1);
      assert n * k == n + n * (k - 1);
      AlphaPowAdd(n, n * (k - 1));
      MulOneLeft(1);
    }
  }

  lemma AlphaPowZero()
    ensures AlphaPow(0) == 1
  {}

  /** If alpha^n is 1 and n*k leaves remainder r modulo 255, then alpha^r is 1. */
  lemma AlphaPowReduce(n: nat, k: nat, q: nat, r: nat)
    requires AlphaPow(n) == 1 && n * k == 255 * q + r
    ensures AlphaPow(r) == 1
  {
    hide *;
    AlphaPowMultiple(n, k);
    AlphaPowValues();
    AlphaPowMultiple(255, q);
    AlphaPowAdd(255 * q, r);
    MulOneLeft(AlphaPow(r));
  }

  /** Inverses modulo the three prime factors of 255: r * k = p * t + 1. */
  lemma InverseModulo(p: nat, r: nat) returns (k: nat, t: nat)
    requires (p == 17 || p == 5 || p == 3) && 0 < r < p
    ensures r * k == p * t + 1
  {
    if p == 17 {
      k, t := Inverse17(r);
    } else if p == 5 {
      match r {
        case 1 => k, t := 1, 0;
        case 2 => k, t := 3, 1;
        case 3 => k, t := 2, 1;
        case 4 => k, t := 4, 3;
      }
    } else {
      match r {
        case 1 => k, t := 1, 0;
        case 2 => k, t := 2, 1;
      }
    }
  }

  lemma Inverse17(r: nat) returns (k: nat, t: nat)
    requires 0 < r < 17
    ensures r * k == 17 * t + 1
  {
    match r {
      case 1 => k, t := 1, 0;
      case 2 => k, t := 9, 1;
      case 3 => k, t := 6, 1;
      case 4 => k, t := 13, 3;
      case 5 => k, t := 7, 2;
      case 6 => k, t := 3, 1;
      case 7 => k, t := 5, 2;
      case 8 => k, t := 15, 7;
      case 9 => k, t := 2, 1;
      case 10 => k, t := 12, 7;
      case 11 => k, t := 14, 9;
      case 12 => k, t := 10, 7;
      case 13 => k, t := 4, 3;
      case 14 => k, t := 11, 9;
      case 15 => k, t := 8, 7;
      case 16 => k, t := 16, 15;
    }
  }

  /** If 255 == p*f with p prime and p does not divide n, then alpha^n = 1 makes alpha^f 1. */
  lemma SmallerOrder(n: nat, p: nat, f: nat, q: nat, r: nat)
    requires AlphaPow(n) == 1
    requires (p == 17 && f == 15) || (p == 5 && f == 51) || (p == 3 && f == 85)
    requires n == p * q + r && 0 < r < p
    ensures AlphaPow(f) == 1
  {
    hide *;
    var k, t := InverseModulo(p, r);
    Distribute(p, q, r, k);
    Scale(n, f, k);
    AlphaPowReduce(n, f * k, q * k + t, f);
  }

  lemma Distribute(p: nat, q: nat, r: nat, k: nat)
    ensures (p * q + r) * k == p * (q * k) + r * k
  {}

  lemma Scale(n: nat, f: nat, k: nat)
    ensures n * (f * k) == f * (n * k)
  {}

  /** The generator's order is exactly 255. */
  lemma OrderOfAlpha(n: nat)
    requires 0 < n < 255
    ensures AlphaPow(n) != 1
  {
    hide *;
    if AlphaPow(n) == 1 {
      AlphaPowValues();
      if n % 17 != 0 {
        SmallerOrder(n, 17, 15, n / 17, n % 17);
      } else if n % 5 != 0 {
        SmallerOrder(n, 5, 51, n / 5, n % 5);
      } else {
        SmallerOrder(n, 3, 85, n / 3, n % 3);
      }
    }
  }

  lemma AlphaPowInjective(i: nat, j: nat)
    requires i < j < 255
    ensures AlphaPow(i) != AlphaPow(j)
  {
    hide *;
    if AlphaPow(i) == AlphaPow(j) {
      AlphaPowAdd(i, 255 - i);
      AlphaPowAdd(j - i, 255);
      AlphaPowAdd(j, 255 - i);
      AlphaPowValues();
      MulOneRight(AlphaPow(j - i));
      OrderOfAlpha(j - i);
    }
  }

  lemma AlphaPowNonzero(i: nat)
    requires i < 255
    ensures AlphaPow(i) != 0
  {
    hide *;
    if AlphaPow(i) == 0 {
      AlphaPowAdd(i, 255 - i);
      AlphaPowValues();
      MulZero(AlphaPow(255 - i));
    }
  }

  // ---------- discrete logarithm and inverse ----------

  function LogFrom(a: Octet, k: nat): (r: nat)
    requires k <= 255
    ensures k <= r <= 255 && (r < 255 ==> AlphaPow(r) == a)
    ensures forall i :: k <= i < r ==> AlphaPow(i) != a
    decreases 255 - k
  {
    if k == 255 || AlphaPow(k) == a then k else LogFrom(a, k + 1)
  }

  function Log(a: Octet): nat { LogFrom(a, 0) }

  ghost function Images(n: nat): set<int>
    requires n <= 255
  {
    set i | 0 <= i < n :: AlphaPow(i)
  }

  lemma {:induction false} ImagesSize(n: nat)
    requires n <= 255
    ensures |Images(n)| == n
  {
    hide AlphaPow;
    if n == 0 {
      assert Images(0) == {};
    } else {
      ImagesSize(n - 1);
      forall i | 0 <= i < n - 1 ensures AlphaPow(i) != AlphaPow(n - 1) {
        AlphaPowInjective(i, n - 1);
      }
      assert Images(n) == Images(n - 1) + {AlphaPow(n - 1)};
    }
  }

  ghost function UpTo(n: nat): (r: set<int>)
    ensures forall x :: x in r <==> 1 <= x <= n
  {
    if n == 0 then {} else UpTo(n - 1) + {n}
  }

  lemma {:induction false} UpToSize(n: nat)
    ensures |UpTo(n)| == n
  {
    if n == 0 {
      assert UpTo(0) == {};
    } else {
      UpToSize(n - 1);
      assert UpTo(n) == UpTo(n - 1) + {n as int};
    }
  }

  /** A subset with as many elements as the whole is the whole. */
  lemma SubsetSize(a: set<int>, b: set<int>)
    requires a <= b && |a| == |b|
    ensures a == b
  {
    assert |b - a| == |b| - |a|;
  }

  /** Every nonzero octet is a power of the generator, in exactly one way below 255. */
  lemma LogOfNonzero(a: Octet)
    requires a != 0
    ensures Log(a) < 255 && AlphaPow(Log(a)) == a
  {
    hide AlphaPow;
    ImagesSize(255);
    UpToSize(255);
    forall x | x in Images(255) ensures x in UpTo(255) {
      var i :| 0 <= i < 255 && AlphaPow(i) == x;
      AlphaPowNonzero(i);
    }
    SubsetSize(Images(255), UpTo(255));
    assert (a as int) in Images(255);
    var i :| 0 <= i < 255 && AlphaPow(i) == a;
  }

  lemma LogOfPower(k: nat)
    requires k < 255
    ensures Log(AlphaPow(k)) == k
  {
    hide AlphaPow;
    var r := Log(AlphaPow(k));
    if r < k {
      AlphaPowInjective(r, k);
    }
  }

  /** The inverse table: OCT_EXP[255 - OCT_LOG[a]] above 1, and 0 and 1 for themselves. */
  function Inv(a: Octet): Octet {
    if a <= 1 then a else
      LogOfNonzero(a);
      AlphaPow(255 - Log(a))
  }

  lemma InvCorrect(a: Octet)
    requires a != 0
    ensures Inv(a) != 0 && Mul(Inv(a), a) == 1 && Mul(a, Inv(a)) == 1
  {
    if a == 1 {
      MulOneLeft(1);
    } else {
      LogOfNonzero(a);
      AlphaPowAdd(255 - Log(a), Log(a));
      AlphaPowValues();
      hide AlphaPow, Mul;
      MulZero(a);
      MulComm(a, Inv(a));
    }
  }

  lemma MulNonzero(a: Octet, b: Octet)
    requires Mul(a, b) == 0
    ensures a == 0 || b == 0
  {
    hide Mul;
    if a != 0 {
      InvCorrect(a);
      MulAssoc(Inv(a), a, b);
      MulOneLeft(b);
      MulZero(Inv(a));
    }
  }

  // ---------- table generation ----------

  lemma LowEight(x: nat)
    ensures x < 256 ==> Low(x, 8) == x
    ensures 256 <= x < 512 ==> Low(x, 8) == x - 256
  {
    Pow2Eight();
    hide *;
    LowValue(x, 8);
  }

  /** Doubling a power, kept to eight digits, and reducing it. */
  lemma ReducedDouble(a: Octet)
    ensures (if a >= 128 then Low(Xor(29, 2 * a), 8) else 2 * a) == Xtime(a)
  {
    hide Pow2, Xor, Low;
    if a >= 128 {
      LowXor(29, 2 * a, 8);
      LowEight(29);
      LowEight(2 * a);
      XorComm(29, 2 * a - 256);
    }
  }

  /** Fills the power and logarithm tables of the field. */
  method FillTabs(exp: array<nat>, log: array<nat>)
    requires exp.Length == 255 && log.Length == 256 && exp != log
    modifies exp, log
    ensures forall k :: 0 <= k < 255 ==> exp[k] == AlphaPow(k)
    ensures log[0] == 255
    ensures forall a: Octet :: 0 < a ==> log[a] == Log(a)
    ensures forall a: Octet :: 0 < a ==> log[a] < 255 && exp[log[a]] == a
  {
    hide AlphaPow, Log, Low, Or, And, Xor, Pow2, Xtime;
    var o := 1;
    exp[8] := 0;
    assert o == Pow2(0) && Low(285, 0) == 0 && AlphaPow(0) == 1 by { FirstPowers(0); }
    for i := 0 to 8
      invariant o == Pow2(i) % 256
      invariant forall k :: 0 <= k < i ==> exp[k] == AlphaPow(k)
      invariant exp[8] == Low(285, i)
    {
      FirstPowers(i);
      exp[i] := o;
      OrAndLow(285, i);
      exp[8] := Or(exp[8], And(285, Pow2(i)));
      o := (2 * o) % 256;
    }
    FirstPowers(7);
    LowOfPolynomial();
    assert exp[8] == AlphaPow(8);
    for i := 9 to 255
      invariant forall k :: 0 <= k < i ==> exp[k] == AlphaPow(k)
      invariant exp[8] == 29
    {
      ReducedDouble(exp[i - 1]);
      NextPower(i - 1);
      if exp[i - 1] >= 128 {
        exp[i] := Low(Xor(exp[8], 2 * exp[i - 1]), 8);
      } else {
        exp[i] := 2 * exp[i - 1];
      }
    }
    log[0] := 255;
    for i := 0 to 255
      invariant log[0] == 255
      invariant forall k :: 0 <= k < 255 ==> exp[k] == AlphaPow(k)
      invariant forall k :: 0 <= k < i ==> log[exp[k]] == k
    {
      AlphaPowNonzero(i);
      forall k | 0 <= k < i ensures exp[k] != exp[i] {
        AlphaPowInjective(k, i);
      }
      log[exp[i]] := i;
    }
    forall a: Octet | 0 < a ensures log[a] == Log(a) && log[a] < 255 && exp[log[a]] == a {
      LogOfNonzero(a);
    }
  }

  lemma FirstPowers(i: nat)
    requires i < 8
    ensures Pow2(i) < 256 && Pow2(i + 1) == 2 * Pow2(i) && AlphaPow(i) == Pow2(i)
    ensures Low(285, 0) == 0 && Pow2(0) == 1 && AlphaPow(0) == 1
  {
    Pow2Monotone(i, 7);
    Pow2Eight();
    Doublings(0, i);
  }

  lemma LowOfPolynomial()
    ensures Low(285, 8) == 29 && AlphaPow(8) == 29
  {
    assert Pow2(8) == 256;
    LowValue(285, 8);
  }

  /** The generator of the field is x, and x^8 is x^4 + x^3 + x^2 + 1. */
  lemma AlphaRoot(k: nat)
    requires k < 8
    ensures AlphaPow(k) == Pow2(k)
    ensures AlphaPow(8) == 16 + 8 + 4 + 1
  {
    hide AlphaPow, Pow2;
    FirstPowers(k);
    LowOfPolynomial();
  }

  lemma NextPower(k: nat)
    ensures AlphaPow(k + 1) == Xtime(AlphaPow(k))
  {}

  // ---------- nibble product tables ----------

  /** The low-nibble table, as generated from logarithms. */
  function MulLo(u: Octet, j: nat): Octet
    requires j < 16
  {
    if u == 0 || j == 0 then 0 else AlphaPow((Log(u) + Log(j)) % 255)
  }

  /** The high-nibble table, as generated from logarithms. */
  function MulHi(u: Octet, j: nat): Octet
    requires j < 16
  {
    if u == 0 || j == 0 then 0 else AlphaPow((Log(u) + Log(16 * j)) % 255)
  }

  lemma LogProduct(a: Octet, b: Octet)
    requires a != 0 && b != 0
    ensures AlphaPow((Log(a) + Log(b)) % 255) == Mul(a, b)
  {
    hide *;
    LogOfNonzero(a);
    LogOfNonzero(b);
    AlphaPowAdd(Log(a), Log(b));
    if Log(a) + Log(b) >= 255 {
      AlphaPowAdd(255, Log(a) + Log(b) - 255);
      AlphaPowValues();
      MulOneLeft(AlphaPow(Log(a) + Log(b) - 255));
    }
  }

  lemma AppendDigit(h: nat, l: nat, p: nat)
    requires Xor(h, l) == h + l && p < 2
    ensures Xor(2 * h, 2 * l + p) == 2 * h + (2 * l + p)
  {
    hide Xor;
    XorJoin(false, h, p == 1, l);
  }

  lemma NibbleSum(h: nat, l: nat)
    requires l < 16
    ensures Xor(16 * h, l) == 16 * h + l
  {
    hide Xor;
    var l1, l2, l3 := l / 2, l / 4, l / 8;
    XorZero(h);
    AppendDigit(h, 0, l3);
    AppendDigit(2 * h, l3, l2 - 2 * l3);
    AppendDigit(4 * h, l2, l1 - 2 * l2);
    AppendDigit(8 * h, l1, l - 2 * l1);
  }

  /** The product as the row operations compute it: one look-up for each nibble. */
  function TableMul(u: Octet, b: Octet): Octet {
    Add(MulHi(u, b / 16), MulLo(u, b % 16))
  }

  lemma NibbleProduct(u: Octet, b: Octet)
    ensures TableMul(u, b) == Mul(u, b)
  {
    var h, l := b / 16, b % 16;
    assert b == 16 * h + l && h < 16 && l < 16;
    NibbleSum(h, l);
    assert Add(16 * h, l) == b;
    LookUps(u, h, l);
    hide *;
    MulAddRight(u, 16 * h, l);
  }

  lemma LookUps(u: Octet, h: nat, l: nat)
    requires h < 16 && l < 16
    ensures MulHi(u, h) == Mul(u, 16 * h) && MulLo(u, l) == Mul(u, l)
  {
    hide Mul, AlphaPow, Log;
    MulZero(u);
    MulZero(l);
    MulZero(16 * h);
    if u != 0 && h != 0 {
      LogProduct(u, 16 * h);
    }
    if u != 0 && l != 0 {
      LogProduct(u, l);
    }
  }
}
