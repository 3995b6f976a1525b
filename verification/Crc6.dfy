/**
 The frame checksum: a table-driven remainder by x^6 + x^5 + x^3 + x^2 + x + 1 (crc6.c).  Binary
 polynomials are natural numbers, digit k being the coefficient of x^k.
 */
module Crc6 {
  import opened Bits
  import opened GF256
  import opened Crc6Table
  import opened Primes

  // ---------- division ----------

  /** One step of long division: bring down a digit and subtract the divisor if it goes in. */
  function Step(r: nat, bit: bool): (s: nat)
    requires r < 64
    ensures s < 64
  {
    var v := Join(bit, r);
    if v < 64 then v
    else
      assert Pow2(6) == 64;
      StepBound(v);
      Xor(v, 0x6F)
  }

  lemma StepBound(v: nat)
    requires 64 <= v < 128
    ensures Xor(v, 0x6F) < 64
  {
    var a := Half(v);
    var b := Half(a);
    var c := Half(b);
    var d := Half(c);
    var e := Half(d);
    assert Half(e) == 1 && Xor(1, 1) == 0;
    assert Xor(e, 3) < 2;
    assert Xor(d, 6) < 4;
    assert Xor(c, 13) < 8;
    assert Xor(b, 27) < 16;
    assert Xor(a, 55) < 32;
  }

  /** The remainder of a. */
  function Rem(a: nat): (r: nat)
    ensures r < 64
  {
    if a == 0 then 0 else Step(Rem(Half(a)), Odd(a))
  }

  lemma RemUnfold(a: nat)
    ensures Rem(a) == Step(Rem(Half(a)), Odd(a))
  {}

  /** Division is linear. */
  lemma {:induction false} RemXor(a: nat, b: nat)
    ensures Rem(Xor(a, b)) == Xor(Rem(a), Rem(b))
    decreases a + b
  {
    if a == 0 {
      XorZero(b);
      XorZero(Rem(b));
    } else {
      assert Half(a) + Half(b) < a + b;
      hide *;
      RemXor(Half(a), Half(b));
      XorStep(a, b);
      RemUnfold(a);
      RemUnfold(b);
      RemUnfold(Xor(a, b));
      StepXor(Rem(Half(a)), Rem(Half(b)), Odd(a), Odd(b));
    }
  }

  lemma StepXor(r: nat, s: nat, p: bool, q: bool)
    requires r < 64 && s < 64
    ensures Xor(r, s) < 64 && Step(Xor(r, s), p != q) == Xor(Step(r, p), Step(s, q))
  {
    hide Xor;
    assert Pow2(6) == 64 && Pow2(7) == 128;
    XorBound(r, s, 6);
    var v, w := Join(p, r), Join(q, s);
    Digits(p, r);
    Digits(q, s);
    JoinXor(p, r, q, s);
    var g := 0x6F;
    SevenDigits(v, w);
    if v >= 64 && w >= 64 {
      XorSwap(v, g, w, g);
      XorSelf(g);
      XorZero(Xor(v, w));
    } else if v >= 64 {
      XorComm(g, w);
      XorAssoc(v, g, w);
      XorAssoc(v, w, g);
    } else if w >= 64 {
      XorAssoc(v, w, g);
    }
  }

  lemma JoinXor(p: bool, r: nat, q: bool, s: nat)
    ensures Xor(Join(p, r), Join(q, s)) == Join(p != q, Xor(r, s))
  {
    Digits(p, r);
    Digits(q, s);
    XorStep(Join(p, r), Join(q, s));
  }

  /** The seventh digit of a sum. */
  lemma SevenDigits(v: nat, w: nat)
    requires v < 128 && w < 128
    ensures Xor(v, w) < 128 && (Xor(v, w) >= 64 <==> (v >= 64) != (w >= 64))
  {
    assert Pow2(6) == 64 && Pow2(7) == 128;
    XorBound(v, w, 7);
    TopDigit(v);
    TopDigit(w);
    TopDigit(Xor(v, w));
    BitXor(v, w, 6);
  }

  lemma TopDigit(v: nat)
    requires v < 128
    ensures Bit(v, 6) <==> v >= 64
  {
    assert Bit(v, 6) <==> Odd(Half(Half(Half(Half(Half(Half(v))))))) by {
      assert Bit(v, 6) == Bit(Half(v), 5);
      assert Bit(Half(v), 5) == Bit(Half(Half(v)), 4);
      assert Bit(Half(Half(v)), 4) == Bit(Half(Half(Half(v))), 3);
    }
  }

  lemma RemSmall(a: nat)
    requires a < 64
    ensures Rem(a) == a
  {
    if a != 0 {
      RemSmall(Half(a));
      Rejoin(a);
    }
  }

  // ---------- multiplying by powers of x ----------

  /** a times x^n. */
  function Shift(a: nat, n: nat): nat {
    if n == 0 then a else Join(false, Shift(a, n - 1))
  }

  lemma {:induction false} ShiftXor(a: nat, b: nat, n: nat)
    ensures Shift(Xor(a, b), n) == Xor(Shift(a, n), Shift(b, n))
  {
    hide Xor;
    if n != 0 {
      ShiftXor(a, b, n - 1);
      JoinXor(false, Shift(a, n - 1), false, Shift(b, n - 1));
    }
  }

  lemma {:induction false} ShiftShift(a: nat, m: nat, n: nat)
    ensures Shift(Shift(a, m), n) == Shift(a, m + n)
  {
    if n != 0 {
      ShiftShift(a, m, n - 1);
    }
  }

  /** A shift may be divided before or after. */
  lemma {:induction false} RemShift(a: nat, n: nat)
    ensures Rem(Shift(Rem(a), n)) == Rem(Shift(a, n))
  {
    hide Step;
    if n == 0 {
      RemSmall(Rem(a));
    } else {
      RemShift(a, n - 1);
      var x, y := Shift(Rem(a), n - 1), Shift(a, n - 1);
      Digits(false, x);
      Digits(false, y);
      RemUnfold(Join(false, x));
      RemUnfold(Join(false, y));
    }
  }

  /** x has an inverse modulo the divisor: a shift of a nonzero remainder is not divisible. */
  lemma {:induction false} RemShiftNonzero(a: nat, n: nat)
    requires Rem(a) != 0
    ensures Rem(Shift(a, n)) != 0
  {
    if n != 0 {
      RemShiftNonzero(a, n - 1);
      var y := Shift(a, n - 1);
      Digits(false, y);
      RemUnfold(Join(false, y));
      StepNonzero(Rem(y));
    }
  }

  lemma StepNonzero(r: nat)
    requires 0 < r < 64
    ensures Step(r, false) != 0
  {
    Digits(false, r);
    if 2 * r >= 64 {
      XorStep(2 * r, 0x6F);
    }
  }

  // ---------- the table ----------

  lemma {:induction false} XorTop(v: nat, n: nat)
    requires v < Pow2(n)
    ensures Xor(v, Pow2(n)) == v + Pow2(n)
    decreases n
  {
    hide Xor;
    if n == 0 {
      XorZero(1);
    } else {
      XorTop(Half(v), n - 1);
      Rejoin(v);
      JoinXor(Odd(v), Half(v), false, Pow2(n - 1));
    }
  }

  lemma {:induction false} XorOnes(v: nat, n: nat)
    requires v < Pow2(n)
    ensures Xor(v, Pow2(n) - 1) == Pow2(n) - 1 - v
    decreases n
  {
    hide Xor;
    if n == 0 {
      XorZero(0);
    } else {
      XorOnes(Half(v), n - 1);
      Rejoin(v);
      JoinXor(Odd(v), Half(v), true, Pow2(n - 1) - 1);
    }
  }

  /** Flipping the fifth of six digits. */
  lemma XorFifth(w: nat)
    requires w < 64
    ensures Xor(w, 16) == if w < 16 || 32 <= w < 48 then w + 16 else w - 16
  {
    hide Xor;
    assert Pow2(4) == 16 && Pow2(5) == 32;
    var u := if w < 32 then w else w - 32;
    var x := if u < 16 then u else u - 16;
    XorTop(x, 4);
    XorTop(u, 5);
    XorTop(x + 16, 5);
    XorTop(x, 5);
    XorAssoc(x, 16, 16);
    XorSelf(16);
    XorZero(x);
    XorAssoc(u, 32, 16);
    XorAssoc(u, 16, 32);
    XorComm(16, 32);
  }

  /** Flipping all of six digits but the fifth. */
  lemma FlipXor(v: nat)
    requires v < 64
    ensures Xor(v, 0x2F) == Flip(v)
  {
    hide Xor;
    assert Pow2(6) == 64;
    XorOnes(v, 6);
    XorFifth(63);
    XorAssoc(v, 63, 16);
    XorFifth(63 - v);
  }

  lemma ReduceFlip(v: nat)
    requires v < 64
    ensures Xor(v + 64, 0x6F) == Flip(v)
  {
    hide Xor;
    assert Pow2(6) == 64;
    FlipXor(v);
    XorTop(v, 6);
    XorTop(0x2F, 6);
    XorSwap(v, 64, 0x2F, 64);
    XorSelf(64);
    XorZero(Xor(v, 0x2F));
  }

  /** Every entry of the table is the remainder of its index times x^6. */
  lemma {:induction false} EntryIsRem(i: nat)
    requires i < 256
    ensures Entry(i) == Rem(Shift(i, 6))
  {
    hide Entry, Flip, Step, Rem;
    if i == 0 {
      ZeroEntry();
    } else {
      var h := Half(i);
      EntryIsRem(h);
      AllDouble(h);
      EvenRem(h);
      if Odd(i) {
        OddRem(h);
      }
    }
  }

  lemma ZeroEntry()
    ensures Entry(0) == Rem(Shift(0, 6))
  {}

  lemma EvenRem(h: nat)
    ensures Shift(2 * h, 6) == Shift(Shift(h, 6), 1)
    ensures var r := Rem(Shift(h, 6)); Rem(Shift(2 * h, 6)) == if r < 32 then 2 * r else Flip(2 * r - 64)
  {
    hide Rem, Flip, Xor;
    assert Shift(h, 1) == 2 * h;
    ShiftShift(h, 1, 6);
    ShiftShift(h, 6, 1);
    var y := Shift(h, 6);
    Digits(false, y);
    RemUnfold(Join(false, y));
    if Rem(y) >= 32 {
      ReduceFlip(2 * Rem(y) - 64);
    }
  }

  lemma OddRem(h: nat)
    ensures Rem(Shift(2 * h + 1, 6)) == Flip(Rem(Shift(2 * h, 6)))
  {
    hide Rem, Flip, Xor, Shift;
    assert Xor(2 * h, 1) == 2 * h + 1 by {
      Digits(false, h);
      Digits(true, h);
      XorStep(2 * h, 1);
      XorZero(h);
      SameDigits(Xor(2 * h, 1), 2 * h + 1);
    }
    ShiftXor(2 * h, 1, 6);
    RemXor(Shift(2 * h, 6), Shift(1, 6));
    RemOfSixth();
    FlipXor(Rem(Shift(2 * h, 6)));
  }

  lemma RemOfSixth()
    ensures Rem(Shift(1, 6)) == 0x2F
  {
    assert Shift(1, 5) == 32 && Rem(32) == 32 by { RemSmall(32); }
    RemUnfold(64);
    ReduceFlip(0);
  }

  // ---------- the checksum ----------

  /** A byte string as a polynomial, first byte highest. */
  function Value(data: seq<Octet>): nat {
    if data == [] then 0 else Xor(Shift(Value(data[..|data| - 1]), 8), data[|data| - 1])
  }

  /** The checksum, one byte at a time: the remainder of c * x^8 + byte * x^6. */
  function CrcOf(seed: nat, data: seq<Octet>): (c: nat)
    requires seed < 64
    ensures c < 64
  {
    if data == [] then seed else Rem(Xor(Shift(CrcOf(seed, data[..|data| - 1]), 8), Shift(data[|data| - 1], 6)))
  }

  /** One long division: the remainder of seed * x^8n + data * x^6. */
  function Divided(seed: nat, data: seq<Octet>): (r: nat)
    ensures r < 64
  {
    Rem(Xor(Shift(seed, 8 * |data|), Shift(Value(data), 6)))
  }

  /** That is the checksum of any byte string. */
  lemma {:induction false} CrcIsDivision(seed: nat, data: seq<Octet>)
    requires seed < 64
    ensures CrcOf(seed, data) == Divided(seed, data)
  {
    hide Rem, Xor, Shift;
    if data == [] {
      assert Shift(seed, 0) == seed && Shift(0, 6) == 0 by { ShiftZero(seed); }
      XorZero(seed);
      RemSmall(seed);
    } else {
      var init, b := data[..|data| - 1], data[|data| - 1];
      CrcIsDivision(seed, init);
      var a := Xor(Shift(seed, 8 * |init|), Shift(Value(init), 6));
      RemXor(Shift(Rem(a), 8), Shift(b, 6));
      RemShift(a, 8);
      RemXor(Shift(a, 8), Shift(b, 6));
      ShiftXor(Shift(seed, 8 * |init|), Shift(Value(init), 6), 8);
      ShiftShift(seed, 8 * |init|, 8);
      ShiftShift(Value(init), 6, 8);
      ShiftShift(Value(init), 8, 6);
      ShiftXor(Shift(Value(init), 8), b, 6);
      XorAssoc(Shift(seed, 8 * |data|), Shift(Value(init), 14), Shift(b, 6));
    }
  }

  lemma ShiftZero(a: nat)
    ensures Shift(a, 0) == a && Shift(0, 6) == 0
  {}

  lemma ShiftTimes(a: nat)
    ensures Shift(a, 2) == 4 * a && Pow2(8) == 256
  {
    assert Shift(a, 1) == 2 * a;
  }

  /** One look-up is one byte's worth of division. */
  lemma TableStep(c: nat, b: Octet)
    requires c < 64
    ensures Xor(4 * c, b) < 256 && Entry(Xor(4 * c, b)) == Rem(Xor(Shift(c, 8), Shift(b, 6))) < 64
  {
    hide Rem, Xor, Shift, Entry;
    ShiftTimes(c);
    XorBound(4 * c, b, 8);
    EntryIsRem(Xor(4 * c, b));
    ShiftXor(4 * c, b, 6);
    ShiftShift(c, 2, 6);
  }

  /** Only the low six bits of the running value reach the eight-bit index. */
  lemma IndexLow(c: nat, b: Octet)
    ensures Xor(4 * c, b) % 256 == Xor(4 * (c % 64), b)
  {
    hide *;
    ShiftTimes(0);
    LowXor(4 * c, b, 8);
    LowMod(Xor(4 * c, b), 8);
    LowMod(4 * c, 8);
    LowMod(b, 8);
    FourTimes(c);
    DivModUnique(b, 256, 0, b);
  }

  lemma FourTimes(c: nat)
    ensures (4 * c) % 256 == 4 * (c % 64)
  {
    var q, r := c / 64, c % 64;
    assert c == q * 64 + r;
    DivModUnique(4 * c, 256, q, 4 * r);
  }

  lemma {:induction false} LowMod(a: nat, n: nat)
    ensures Low(a, n) == a % Pow2(n)
    decreases n
  {
    if n != 0 {
      var h, m := Half(a), Pow2(n - 1);
      LowMod(h, n - 1);
      Rejoin(a);
      DoubledMod(a, h, m);
    }
  }

  lemma DoubledMod(a: nat, h: nat, m: nat)
    requires m > 0 && a == Join(Odd(a), h)
    ensures a % (2 * m) == Join(Odd(a), h % m)
  {
    hide Odd;
    var q, r := h / m, h % m;
    assert h == q * m + r;
    assert q * (2 * m) == 2 * (q * m);
    DivModUnique(a, 2 * m, q, Join(Odd(a), r));
  }

  /** crc6_0X6F. */
  method Crc6_0x6F(seed: nat, data: seq<Octet>) returns (crc: nat)
    ensures crc == CrcOf(seed % 64, data)
  {
    hide Rem, Xor, Shift, Entry;
    crc := seed;
    for i := 0 to |data|
      invariant crc % 64 == CrcOf(seed % 64, data[..i])
    {
      TableStep(crc % 64, data[i]);
      IndexLow(crc, data[i]);
      assert data[..i + 1][..i] == data[..i];
      var tblIdx := Xor(crc * 4, data[i]) % 256;
      crc := Entry(tblIdx) % 64;
    }
    assert data[..|data|] == data;
    crc := crc % 64;
  }

  // ---------- what it detects ----------

  /** Two strings' checksums differ by the remainder of their difference. */
  lemma CrcDifference(seed: nat, data: seq<Octet>, data': seq<Octet>)
    requires seed < 64 && |data| == |data'|
    ensures Xor(CrcOf(seed, data), CrcOf(seed, data')) == Rem(Shift(Xor(Value(data), Value(data')), 6))
  {
    hide Rem, Xor, Shift, CrcOf, Value;
    CrcIsDivision(seed, data);
    CrcIsDivision(seed, data');
    var s, v, w := Shift(seed, 8 * |data|), Shift(Value(data), 6), Shift(Value(data'), 6);
    RemXor(Xor(s, v), Xor(s, w));
    XorSwap(s, v, s, w);
    XorSelf(s);
    XorZero(Xor(v, w));
    ShiftXor(Value(data), Value(data'), 6);
  }

  /** Whether a has an odd number of ones. */
  predicate Parity(a: nat) {
    Odd(PopCount(a))
  }

  lemma ParityStep(a: nat)
    ensures Parity(a) == (Odd(a) != Parity(Half(a)))
  {}

  lemma {:induction false} ParityXor(a: nat, b: nat)
    ensures Parity(Xor(a, b)) == (Parity(a) != Parity(b))
    decreases a + b
  {
    if a == 0 {
      XorZero(b);
    } else {
      assert Half(a) + Half(b) < a + b;
      hide Xor, Parity;
      ParityXor(Half(a), Half(b));
      XorStep(a, b);
      ParityStep(a);
      ParityStep(b);
      ParityStep(Xor(a, b));
    }
  }

  lemma ParityJoin(p: bool, q: nat)
    ensures Parity(Join(p, q)) == (p != Parity(q))
  {
    hide Parity;
    Digits(p, q);
    ParityStep(Join(p, q));
  }

  lemma {:induction false} ParityShift(a: nat, n: nat)
    ensures Parity(Shift(a, n)) == Parity(a)
  {
    hide Parity;
    if n != 0 {
      ParityShift(a, n - 1);
      ParityJoin(false, Shift(a, n - 1));
    }
  }

  lemma DivisorEven()
    ensures !Parity(0x6F)
  {
    assert PopCount(0x6F) == 6;
  }

  /** The divisor has an even number of terms, so division keeps parity. */
  lemma {:induction false} ParityRem(a: nat)
    ensures Parity(Rem(a)) == Parity(a)
  {
    hide Parity, Xor;
    if a != 0 {
      ParityRem(Half(a));
      ParityStep(a);
      ParityJoin(Odd(a), Rem(Half(a)));
      DivisorEven();
      ParityXor(Join(Odd(a), Rem(Half(a))), 0x6F);
    }
  }

  /** The parity of the checksum is that of the seed and the data together. */
  lemma CrcParity(seed: nat, data: seq<Octet>)
    requires seed < 64
    ensures Parity(CrcOf(seed, data)) == (Parity(seed) != Parity(Value(data)))
  {
    hide Parity, Xor, Shift, Rem, CrcOf, Value;
    CrcIsDivision(seed, data);
    var a, b := Shift(seed, 8 * |data|), Shift(Value(data), 6);
    ParityRem(Xor(a, b));
    ParityXor(a, b);
    ParityShift(seed, 8 * |data|);
    ParityShift(Value(data), 6);
  }

  /** If an odd number of bits of data and checksum change altogether, the checksum no longer fits. */
  lemma OddErrorsDetected(seed: nat, data: seq<Octet>, data': seq<Octet>, crc': nat)
    requires seed < 64 && |data| == |data'|
    requires Odd(PopCount(Xor(Value(data), Value(data'))) + PopCount(Xor(CrcOf(seed, data), crc')))
    ensures CrcOf(seed, data') != crc'
  {
    hide Xor, Shift, Rem, CrcOf, Value, PopCount;
    if CrcOf(seed, data') == crc' {
      CrcDifference(seed, data, data');
      var e := Xor(Value(data), Value(data'));
      ParityRem(Shift(e, 6));
      ParityShift(e, 6);
    }
  }

  /** A change confined to six consecutive bits of the data changes the checksum. */
  lemma BurstDetected(seed: nat, data: seq<Octet>, data': seq<Octet>, e: nat, j: nat)
    requires seed < 64 && |data| == |data'| && 0 < e < 64 && Xor(Value(data), Value(data')) == Shift(e, j)
    ensures CrcOf(seed, data') != CrcOf(seed, data)
  {
    hide Xor, Shift, Rem, CrcOf, Value;
    CrcDifference(seed, data, data');
    ShiftShift(e, j, 6);
    RemSmall(e);
    RemShiftNonzero(e, j + 6);
    XorSelf(CrcOf(seed, data));
  }

  // ---------- counting and placing bit errors ----------

  /** The number of ones in a byte string. */
  function Ones(data: seq<Octet>): nat {
    if data == [] then 0 else Ones(data[..|data| - 1]) + PopCount(data[|data| - 1])
  }

  lemma {:induction false} OnesHead(b: Octet, rest: seq<Octet>)
    ensures Ones([b] + rest) == PopCount(b) + Ones(rest)
    decreases |rest|
  {
    hide PopCount;
    if rest == [] {
      assert [b] + rest == [b] && [b][..0] == [];
    } else {
      OnesHead(b, rest[..|rest| - 1]);
      assert ([b] + rest)[..|rest|] == [b] + rest[..|rest| - 1];
    }
  }

  lemma {:induction false} ValueParity(data: seq<Octet>)
    ensures Parity(Value(data)) == Odd(Ones(data))
  {
    hide Xor, Shift, Odd, PopCount;
    if data == [] {
      assert !Parity(0) && !Odd(0) by { NoParity(); }
    } else {
      var init, b := data[..|data| - 1], data[|data| - 1];
      ValueParity(init);
      ParityXor(Shift(Value(init), 8), b);
      ParityShift(Value(init), 8);
      OddSum(Ones(init), PopCount(b));
    }
  }

  lemma NoParity()
    ensures !Parity(0) && !Odd(0)
  {}

  lemma OddSum(a: nat, b: nat)
    ensures Odd(a + b) == (Odd(a) != Odd(b))
  {}

  /** The number of bits in which two byte strings differ. */
  function Changed(a: seq<Octet>, b: seq<Octet>): nat
    requires |a| == |b|
  {
    if a == [] then 0
    else Changed(a[..|a| - 1], b[..|b| - 1]) + PopCount(Xor(a[|a| - 1], b[|b| - 1]))
  }

  lemma {:induction false} ChangedOnes(a: seq<Octet>, b: seq<Octet>)
    requires |a| == |b|
    ensures Odd(Changed(a, b)) == (Odd(Ones(a)) != Odd(Ones(b)))
    decreases |a|
  {
    hide Xor, Odd, PopCount;
    if a == [] {
      NoParity();
    } else {
      var x, y, k := a[..|a| - 1], b[..|b| - 1], |a| - 1;
      ChangedOnes(x, y);
      ParityXor(a[k], b[k]);
      OddSum(Changed(x, y), PopCount(Xor(a[k], b[k])));
      OddSum(Ones(x), PopCount(a[k]));
      OddSum(Ones(y), PopCount(b[k]));
    }
  }

  /** Bit p of a byte string, in the order in which it is divided: the highest bit of the first byte first. */
  predicate BitAt(data: seq<Octet>, p: nat)
    requires p < 8 * |data|
  {
    Bit(data[p / 8], 7 - p % 8)
  }

  /** The strings differ, and only in the six bits from bit j on. */
  ghost predicate Burst(a: seq<Octet>, b: seq<Octet>, j: nat)
    requires |a| == |b|
  {
    a != b && forall p: nat :: p < 8 * |a| && BitAt(a, p) != BitAt(b, p) ==> j <= p < j + 6
  }

  lemma {:induction false} BitShift(a: nat, n: nat, k: nat)
    ensures Bit(Shift(a, n), k) <==> k >= n && Bit(a, k - n)
    decreases n
  {
    if n != 0 {
      Digits(false, Shift(a, n - 1));
      if k != 0 {
        BitShift(a, n - 1, k - 1);
      }
    }
  }

  /** The coefficients of a byte string are its bits. */
  lemma {:induction false} ValueBit(data: seq<Octet>, k: nat)
    ensures Bit(Value(data), k) <==> k < 8 * |data| && BitAt(data, 8 * |data| - 1 - k)
    decreases |data|
  {
    hide Xor, Shift, Bit;
    if data == [] {
      BitZero(k);
    } else {
      var init, b := data[..|data| - 1], data[|data| - 1];
      BitXor(Shift(Value(init), 8), b, k);
      BitShift(Value(init), 8, k);
      if k < 8 {
        LastByte(|data|, k);
      } else {
        BitBound(b, 8, k) by { assert Pow2(8) == 256; }
        ValueBit(init, k - 8);
      }
    }
  }

  lemma LastByte(n: nat, k: nat)
    requires n > 0 && k < 8
    ensures (8 * n - 1 - k) / 8 == n - 1 && 7 - (8 * n - 1 - k) % 8 == k
  {
    DivModUnique(8 * n - 1 - k, 8, n - 1, 7 - k);
  }

  /** Numbers with the same digits are equal. */
  lemma {:induction false} SameBits(a: nat, b: nat)
    requires forall k: nat :: Bit(a, k) == Bit(b, k)
    ensures a == b
    decreases a + b
  {
    if a + b != 0 {
      assert Bit(a, 0) == Bit(b, 0);
      forall k: nat ensures Bit(Half(a), k) == Bit(Half(b), k) {
        assert Bit(a, k + 1) == Bit(b, k + 1);
      }
      SameBits(Half(a), Half(b));
      SameDigits(a, b);
    }
  }

  /** Strings with the same value and length are equal. */
  lemma {:induction false} SameValue(a: seq<Octet>, b: seq<Octet>)
    requires |a| == |b| && Value(a) == Value(b)
    ensures a == b
    decreases |a|
  {
    hide Bit;
    forall i | 0 <= i < |a| ensures a[i] == b[i] {
      forall k: nat ensures Bit(a[i], k) == Bit(b[i], k) {
        if k < 8 {
          var n: nat := 8 * (|a| - i) - 1 - (7 - k);
          ValueBit(a, n);
          ValueBit(b, n);
          PlaceOf(|a|, i, k);
        } else {
          assert Pow2(8) == 256;
          BitBound(a[i], 8, k);
          BitBound(b[i], 8, k);
        }
      }
      SameBits(a[i], b[i]);
    }
  }

  lemma PlaceOf(n: nat, i: nat, k: nat)
    requires i < n && k < 8
    ensures var p := 8 * n - 1 - (8 * (n - i) - 1 - (7 - k)); p == 8 * i + 7 - k && p / 8 == i && 7 - p % 8 == k
  {
    DivModUnique(8 * i + 7 - k, 8, i, 7 - k);
  }

  lemma {:induction false} BitsBelow(x: nat, n: nat)
    requires forall k: nat :: Bit(x, k) ==> k < n
    ensures x < Pow2(n)
    decreases n
  {
    if n == 0 {
      forall k: nat ensures Bit(x, k) == Bit(0, k) {
        BitZero(k);
      }
      SameBits(x, 0);
    } else {
      forall k: nat | Bit(Half(x), k) ensures k < n - 1 {
        assert Bit(x, k + 1);
      }
      BitsBelow(Half(x), n - 1);
    }
  }

  /** A polynomial whose terms lie within six consecutive powers is a shift of one of degree below six. */
  lemma {:induction false} Confined(x: nat, lo: nat) returns (e: nat)
    requires forall k: nat :: Bit(x, k) ==> lo <= k < lo + 6
    ensures x == Shift(e, lo) && e < 64
    decreases lo
  {
    if lo == 0 {
      BitsBelow(x, 6);
      assert Pow2(6) == 64;
      e := x;
    } else {
      assert !Bit(x, 0);
      forall k: nat | Bit(Half(x), k) ensures lo - 1 <= k < lo - 1 + 6 {
        assert Bit(x, k + 1);
      }
      e := Confined(Half(x), lo - 1);
      Rejoin(x);
    }
  }

  /** A burst of at most six bits changes the checksum. */
  lemma BurstNoticed(seed: nat, a: seq<Octet>, b: seq<Octet>, j: nat)
    requires seed < 64 && |a| == |b| && Burst(a, b, j)
    ensures CrcOf(seed, b) != CrcOf(seed, a)
  {
    hide Xor, Shift, Rem, CrcOf, Value, Bit;
    var x, n := Xor(Value(a), Value(b)), 8 * |a|;
    var lo: nat := if j + 6 <= n then n - 6 - j else 0;
    forall k: nat | Bit(x, k) ensures lo <= k < lo + 6 {
      BitXor(Value(a), Value(b), k);
      ValueBit(a, k);
      ValueBit(b, k);
      assert j <= n - 1 - k < j + 6;
    }
    var e := Confined(x, lo);
    if e == 0 {
      ZeroDifference(a, b, lo);
    }
    BurstDetected(seed, a, b, e, lo);
  }

  lemma ZeroDifference(a: seq<Octet>, b: seq<Octet>, lo: nat)
    requires |a| == |b| && Xor(Value(a), Value(b)) == Shift(0, lo)
    ensures a == b
  {
    hide Xor, Shift, Value, Bit;
    forall k: nat ensures Bit(Value(a), k) == Bit(Value(b), k) {
      BitXor(Value(a), Value(b), k);
      BitShift(0, lo, k);
      if k >= lo {
        BitZero(k - lo);
      }
    }
    SameBits(Value(a), Value(b));
    SameValue(a, b);
  }

  // ---------- errors as a pattern ----------

  /** Bytes with an error pattern added to them. */
  function Hit(data: seq<Octet>, errors: seq<Octet>): (r: seq<Octet>)
    requires |errors| == |data|
    ensures |r| == |data|
  {
    seq(|data|, k requires 0 <= k < |data| => Add(data[k], errors[k]))
  }

  lemma {:induction false} HitValue(data: seq<Octet>, errors: seq<Octet>)
    requires |errors| == |data|
    ensures Value(Hit(data, errors)) == Xor(Value(data), Value(errors))
    decreases |data|
  {
    hide Xor, Shift;
    if data == [] {
      XorZero(0);
    } else {
      var n := |data| - 1;
      var x, e := data[..n], errors[..n];
      HitValue(x, e);
      assert Hit(data, errors)[..n] == Hit(x, e);
      ShiftXor(Value(x), Value(e), 8);
      XorSwap(Shift(Value(x), 8), Shift(Value(e), 8), data[n], errors[n]);
    }
  }

  /** Errors change the remainder by their own. */
  lemma HitDivided(seed: nat, data: seq<Octet>, errors: seq<Octet>)
    requires |errors| == |data|
    ensures Divided(seed, Hit(data, errors)) == Xor(Divided(seed, data), Divided(0, errors))
  {
    hide Xor, Shift, Rem, Value;
    HitValue(data, errors);
    var v, e, s := Value(data), Value(errors), Shift(seed, 8 * |data|);
    ShiftXor(v, e, 6);
    XorAssoc(s, Shift(v, 6), Shift(e, 6));
    RemXor(Xor(s, Shift(v, 6)), Shift(e, 6));
    ShiftNothing(8 * |data|);
    XorZero(Shift(e, 6));
  }

  lemma {:induction false} ShiftNothing(n: nat)
    ensures Shift(0, n) == 0
  {
    if n != 0 {
      ShiftNothing(n - 1);
    }
  }

  lemma {:induction false} XorHigh(x: nat, n: nat)
    requires x < Pow2(n)
    ensures Xor(Pow2(n), x) == Pow2(n) + x
    decreases n
  {
    if n != 0 {
      XorHigh(Half(x), n - 1);
      Digits(false, Pow2(n - 1));
      Rejoin(x);
    }
  }
}
