/**
 The field GF(256) of section 5.7 of RFC 6330, built from the polynomial
 x^8 + x^4 + x^3 + x^2 + 1 (285).  Addition is exclusive-or; multiplication is shift-and-add
 with reduction.  The log/exp view used by the generated tables is derived from it.
 */
module GF256 {
  import opened Bits

  type Octet = x: nat | x < 256

  lemma Pow2Eight()
    ensures Pow2(8) == 256
  {}

  function Add(a: Octet, b: Octet): Octet {
    Pow2Eight();
    XorBound(a, b, 8);
    Xor(a, b)
  }

  /** Multiplication by x, reduced by the field polynomial. */
  function Xtime(a: Octet): Octet {
    if a < 128 then 2 * a else Add(2 * a - 256, 29)
  }

  /** b or nothing, as the bit p says. */
  function Times(p: bool, b: Octet): Octet { if p then b else 0 }

  function Mul(a: Octet, b: Octet): Octet
    decreases a
  {
    if a == 0 then 0 else Add(Times(Odd(a), b), Mul(Half(a), Xtime(b)))
  }

  // ---------- addition ----------

  lemma AddComm(a: Octet, b: Octet)
    ensures Add(a, b) == Add(b, a)
  {
    XorComm(a, b);
  }

  lemma AddAssoc(a: Octet, b: Octet, c: Octet)
    ensures Add(Add(a, b), c) == Add(a, Add(b, c))
  {
    XorAssoc(a, b, c);
  }

  lemma AddZero(a: Octet)
    ensures Add(a, 0) == a && Add(0, a) == a
  {
    XorZero(a);
  }

  lemma AddSelf(a: Octet)
    ensures Add(a, a) == 0
  {
    XorSelf(a);
  }

  lemma AddCancel(a: Octet, b: Octet)
    ensures Add(Add(a, b), b) == a
    ensures Add(a, b) == 0 <==> a == b
  {
    hide *;
    AddAssoc(a, b, b);
    AddSelf(b);
    AddZero(a);
    AddZero(b);
  }

  lemma AddSwap(a: Octet, b: Octet, c: Octet, d: Octet)
    ensures Add(Add(a, b), Add(c, d)) == Add(Add(a, c), Add(b, d))
  {
    XorSwap(a, b, c, d);
  }

  // ---------- multiplication by x ----------

  lemma LowSeven(a: Octet)
    ensures Low(a, 7) == (if a < 128 then a else a - 128)
    ensures Bit(a, 7) <==> a >= 128
  {
    assert Pow2(7) == 128;
    hide *;
    LowValue(a, 7);
  }

  lemma XtimeParts(a: Octet)
    ensures Low(a, 7) < 128
    ensures Xtime(a) == Add(2 * Low(a, 7), if Bit(a, 7) then 29 else 0)
  {
    hide Low, Bit, Add, Pow2;
    LowSeven(a);
    AddZero(2 * Low(a, 7));
  }

  lemma XorDouble(a: nat, b: nat)
    ensures Xor(2 * a, 2 * b) == 2 * Xor(a, b)
  {
    Digits(false, a);
    Digits(false, b);
  }

  lemma XtimeAdd(a: Octet, b: Octet)
    ensures Xtime(Add(a, b)) == Add(Xtime(a), Xtime(b))
  {
    XtimeParts(a);
    XtimeParts(b);
    XtimeParts(Add(a, b));
    LowXor(a, b, 7);
    BitXor(a, b, 7);
    XorDouble(Low(a, 7), Low(b, 7));
    var ca: Octet := if Bit(a, 7) then 29 else 0;
    var cb: Octet := if Bit(b, 7) then 29 else 0;
    AddSwap(2 * Low(a, 7), ca, 2 * Low(b, 7), cb);
    AddZero(ca);
    AddZero(cb);
    AddSelf(29);
    hide Xor, Low, Bit, Xtime;
  }

  lemma OctetParts(a: Octet)
    ensures a == Add(if Odd(a) then 1 else 0, Xtime(Half(a)))
  {
    Rejoin(a);
    if Odd(a) {
      Digits(false, Half(a));
      Digits(true, 0);
      assert Xor(1, 2 * Half(a)) == Join(true, Xor(0, Half(a)));
      XorZero(Half(a));
    } else {
      XorZero(a);
    }
  }

  // ---------- multiplication ----------

  lemma MulUnfold(a: Octet, b: Octet)
    ensures Mul(a, b) == Add(Times(Odd(a), b), Mul(Half(a), Xtime(b)))
  {
    if a == 0 {
      AddZero(0);
    }
  }

  lemma {:induction false} MulZero(a: Octet)
    ensures Mul(a, 0) == 0 && Mul(0, a) == 0
    decreases a
  {
    if a != 0 {
      MulZero(Half(a));
      AddZero(0);
    }
  }

  lemma TimesAdd(p: bool, b: Octet, c: Octet)
    ensures Times(p, Add(b, c)) == Add(Times(p, b), Times(p, c))
  {
    AddZero(0);
  }

  lemma {:induction false} MulAddRight(a: Octet, b: Octet, c: Octet)
    ensures Mul(a, Add(b, c)) == Add(Mul(a, b), Mul(a, c))
    decreases a
  {
    if a == 0 {
      AddZero(0);
    } else {
      Rejoin(a);
      hide *;
      MulUnfold(a, b);
      MulUnfold(a, c);
      MulUnfold(a, Add(b, c));
      XtimeAdd(b, c);
      MulAddRight(Half(a), Xtime(b), Xtime(c));
      TimesAdd(Odd(a), b, c);
      AddSwap(Times(Odd(a), b), Mul(Half(a), Xtime(b)), Times(Odd(a), c), Mul(Half(a), Xtime(c)));
    }
  }

  lemma TimesOdd(p: bool, q: bool, c: Octet)
    ensures Times(p != q, c) == Add(Times(p, c), Times(q, c))
  {
    AddZero(c);
    AddZero(0);
    AddSelf(c);
  }

  lemma {:induction false} MulAddLeft(a: Octet, b: Octet, c: Octet)
    ensures Mul(Add(a, b), c) == Add(Mul(a, c), Mul(b, c))
    decreases a + b
  {
    if a + b == 0 {
      AddZero(0);
    } else {
      Rejoin(a);
      Rejoin(b);
      XorStep(a, b);
      assert Half(Add(a, b)) == Add(Half(a), Half(b));
      hide *;
      MulUnfold(a, c);
      MulUnfold(b, c);
      MulUnfold(Add(a, b), c);
      MulAddLeft(Half(a), Half(b), Xtime(c));
      TimesOdd(Odd(a), Odd(b), c);
      AddSwap(Times(Odd(a), c), Mul(Half(a), Xtime(c)), Times(Odd(b), c), Mul(Half(b), Xtime(c)));
    }
  }

  lemma TimesXtime(p: bool, b: Octet)
    ensures Times(p, Xtime(b)) == Xtime(Times(p, b))
  {}

  lemma {:induction false} MulXtimeRight(a: Octet, b: Octet)
    ensures Mul(a, Xtime(b)) == Xtime(Mul(a, b))
    decreases a
  {
    if a != 0 {
      Rejoin(a);
      hide *;
      MulUnfold(a, b);
      MulUnfold(a, Xtime(b));
      MulXtimeRight(Half(a), Xtime(b));
      TimesXtime(Odd(a), b);
      XtimeAdd(Times(Odd(a), b), Mul(Half(a), Xtime(b)));
    }
  }

  lemma {:induction false} MulOneLeft(b: Octet)
    ensures Mul(1, b) == b
  {
    MulUnfold(1, b);
    MulZero(Xtime(b));
    AddZero(b);
  }

  lemma {:induction false} MulOneRight(a: Octet)
    ensures Mul(a, 1) == a
    decreases a
  {
    if a != 0 {
      Rejoin(a);
      hide *;
      MulUnfold(a, 1);
      MulXtimeRight(Half(a), 1);
      MulOneRight(Half(a));
      OctetParts(a);
      assert Times(Odd(a), 1) == if Odd(a) then 1 else 0 by { TimesValue(Odd(a)); }
    }
  }

  lemma TimesValue(p: bool)
    ensures Times(p, 1) == if p then 1 else 0
  {}

  lemma {:induction false} MulComm(a: Octet, b: Octet)
    ensures Mul(a, b) == Mul(b, a)
    decreases a
  {
    if a == 0 {
      MulZero(b);
    } else {
      Rejoin(a);
      hide *;
      MulUnfold(a, b);
      MulXtimeRight(Half(a), b);
      MulComm(Half(a), b);
      MulXtimeRight(b, Half(a));
      var low: Octet := if Odd(a) then 1 else 0;
      OctetParts(a);
      MulAddRight(b, low, Xtime(Half(a)));
      MulLow(b, Odd(a));
    }
  }

  lemma MulLow(b: Octet, p: bool)
    ensures Mul(b, if p then 1 else 0) == Times(p, b)
  {
    MulOneRight(b);
    MulZero(b);
  }

  lemma MulXtimeLeft(a: Octet, b: Octet)
    ensures Mul(Xtime(a), b) == Xtime(Mul(a, b))
  {
    hide *;
    MulComm(Xtime(a), b);
    MulXtimeRight(b, a);
    MulComm(a, b);
  }

  lemma {:induction false} MulAssoc(a: Octet, b: Octet, c: Octet)
    ensures Mul(Mul(a, b), c) == Mul(a, Mul(b, c))
    decreases a
  {
    if a == 0 {
      MulZero(c);
    } else {
      Rejoin(a);
      hide *;
      MulUnfold(a, b);
      MulUnfold(a, Mul(b, c));
      MulAddLeft(Times(Odd(a), b), Mul(Half(a), Xtime(b)), c);
      MulAssoc(Half(a), Xtime(b), c);
      MulXtimeLeft(b, c);
      MulTimes(Odd(a), b, c);
    }
  }

  lemma MulTimes(p: bool, b: Octet, c: Octet)
    ensures Mul(Times(p, b), c) == Times(p, Mul(b, c))
  {
    MulZero(c);
  }
}
