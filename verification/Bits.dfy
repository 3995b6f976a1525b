/**
 Bitwise operators on natural numbers, by recursion on binary digits.  Machine words of the
 source (uint8_t, uint32_t) are naturals below the matching power of two.
 */
module Bits {

  function Pow2(n: nat): (r: nat)
    ensures r > 0
  {
    if n == 0 then 1 else 2 * Pow2(n - 1)
  }

  lemma {:induction false} Pow2Monotone(m: nat, n: nat)
    requires m <= n
    ensures Pow2(m) <= Pow2(n)
    decreases n
  {
    if m < n {
      Pow2Monotone(m, n - 1);
    }
  }

  lemma Pow32()
    ensures Pow2(32) == 0x1_0000_0000
  {
    assert Pow2(8) == 256;
    assert Pow2(16) == 65536;
    assert Pow2(24) == 16777216;
  }

  predicate Odd(a: nat) { a % 2 == 1 }

  function Half(a: nat): nat { a / 2 }

  /** The number with last binary digit p and remaining digits q. */
  function Join(p: bool, q: nat): nat { if p then 2 * q + 1 else 2 * q }

  lemma Digits(p: bool, q: nat)
    ensures Odd(Join(p, q)) == p && Half(Join(p, q)) == q
  {}

  lemma Rejoin(a: nat)
    ensures Join(Odd(a), Half(a)) == a
    ensures a > 0 ==> Half(a) < a
  {}

  /** Digit k of a. */
  predicate Bit(a: nat, k: nat)
    decreases k
  {
    if k == 0 then Odd(a) else Bit(Half(a), k - 1)
  }

  function Xor(a: nat, b: nat): nat
    decreases a + b
  {
    if a == 0 && b == 0 then 0 else Join(Odd(a) != Odd(b), Xor(Half(a), Half(b)))
  }

  function And(a: nat, b: nat): nat
    decreases a + b
  {
    if a == 0 && b == 0 then 0 else Join(Odd(a) && Odd(b), And(Half(a), Half(b)))
  }

  function Or(a: nat, b: nat): nat
    decreases a + b
  {
    if a == 0 && b == 0 then 0 else Join(Odd(a) || Odd(b), Or(Half(a), Half(b)))
  }

  // ---------- exclusive-or ----------

  lemma {:induction false} XorComm(a: nat, b: nat)
    ensures Xor(a, b) == Xor(b, a)
    decreases a + b
  {
    if a + b != 0 {
      XorComm(Half(a), Half(b));
    }
  }

  lemma XorStep(a: nat, b: nat)
    ensures Odd(Xor(a, b)) == (Odd(a) != Odd(b))
    ensures Half(Xor(a, b)) == Xor(Half(a), Half(b))
  {
    Digits(Odd(a) != Odd(b), Xor(Half(a), Half(b)));
  }

  /** Numbers with the same last digit and the same remaining digits are equal. */
  lemma SameDigits(a: nat, b: nat)
    requires Odd(a) == Odd(b) && Half(a) == Half(b)
    ensures a == b
  {
    Rejoin(a);
    Rejoin(b);
  }

  lemma {:induction false} XorAssoc(a: nat, b: nat, c: nat)
    ensures Xor(Xor(a, b), c) == Xor(a, Xor(b, c))
    decreases a + b + c
  {
    if a + b + c != 0 {
      assert Half(a) + Half(b) + Half(c) < a + b + c;
      hide *;
      XorAssoc(Half(a), Half(b), Half(c));
      XorStep(a, b);
      XorStep(b, c);
      XorStep(Xor(a, b), c);
      XorStep(a, Xor(b, c));
      SameDigits(Xor(Xor(a, b), c), Xor(a, Xor(b, c)));
    }
  }

  lemma {:induction false} XorZero(a: nat)
    ensures Xor(a, 0) == a && Xor(0, a) == a
  {
    if a != 0 {
      XorZero(Half(a));
    }
  }

  lemma {:induction false} XorSelf(a: nat)
    ensures Xor(a, a) == 0
  {
    if a != 0 {
      XorSelf(Half(a));
    }
  }

  lemma {:induction false} XorBound(a: nat, b: nat, n: nat)
    requires a < Pow2(n) && b < Pow2(n)
    ensures Xor(a, b) < Pow2(n)
    decreases n
  {
    if n != 0 && a + b != 0 {
      XorBound(Half(a), Half(b), n - 1);
    }
  }

  lemma XorSwap(a: nat, b: nat, c: nat, d: nat)
    ensures Xor(Xor(a, b), Xor(c, d)) == Xor(Xor(a, c), Xor(b, d))
  {
    hide *;
    XorAssoc(a, b, Xor(c, d));
    XorAssoc(b, c, d);
    XorComm(b, c);
    XorAssoc(c, b, d);
    XorAssoc(a, c, Xor(b, d));
  }

  // ---------- the low digits ----------

  /** The lowest n digits of a. */
  function Low(a: nat, n: nat): nat
    decreases n
  {
    if n == 0 then 0 else Join(Odd(a), Low(Half(a), n - 1))
  }

  lemma {:induction false} LowXor(a: nat, b: nat, n: nat)
    ensures Low(Xor(a, b), n) == Xor(Low(a, n), Low(b, n))
    decreases n
  {
    if n != 0 {
      XorStep(a, b);
      LowXor(Half(a), Half(b), n - 1);
      Digits(Odd(a), Low(Half(a), n - 1));
      Digits(Odd(b), Low(Half(b), n - 1));
      assert Low(Xor(a, b), n) == Join(Odd(a) != Odd(b), Xor(Low(Half(a), n - 1), Low(Half(b), n - 1)));
    }
  }

  lemma {:induction false} LowValue(a: nat, n: nat)
    ensures a < Pow2(n) ==> Low(a, n) == a && !Bit(a, n)
    ensures Pow2(n) <= a < 2 * Pow2(n) ==> Low(a, n) == a - Pow2(n) && Bit(a, n)
    decreases n
  {
    if n != 0 {
      LowValue(Half(a), n - 1);
    }
  }

  lemma {:induction false} BitXor(a: nat, b: nat, k: nat)
    ensures Bit(Xor(a, b), k) == (Bit(a, k) != Bit(b, k))
    decreases k
  {
    XorStep(a, b);
    if k != 0 {
      BitXor(Half(a), Half(b), k - 1);
    }
  }

  /** Adding digit n of v to its lowest n digits. */
  lemma {:induction false} OrAndLow(v: nat, n: nat)
    ensures Or(Low(v, n), And(v, Pow2(n))) == Low(v, n + 1)
    decreases n
  {
    if n == 0 {
      AndZero(Half(v));
      assert And(v, 1) == Join(Odd(v), And(Half(v), 0));
      OrZero(And(v, 1));
    } else {
      OrAndLow(Half(v), n - 1);
      Digits(false, Pow2(n - 1));
      Digits(Odd(v), Low(Half(v), n - 1));
      Digits(false, And(Half(v), Pow2(n - 1)));
      assert And(v, Pow2(n)) == Join(false, And(Half(v), Pow2(n - 1)));
      assert Low(v, n) == Join(Odd(v), Low(Half(v), n - 1));
      OrJoin(Odd(v), Low(Half(v), n - 1), false, And(Half(v), Pow2(n - 1)));
    }
  }

  lemma OrJoin(p: bool, a: nat, q: bool, b: nat)
    ensures Or(Join(p, a), Join(q, b)) == Join(p || q, Or(a, b))
  {
    Digits(p, a);
    Digits(q, b);
    hide Odd, Half;
  }

  lemma {:induction false} AndZero(a: nat)
    ensures And(a, 0) == 0
  {
    if a != 0 {
      AndZero(Half(a));
    }
  }

  lemma {:induction false} OrZero(a: nat)
    ensures Or(0, a) == a && Or(a, 0) == a
  {
    if a != 0 {
      OrZero(Half(a));
    }
  }

  // ---------- single digits ----------

  lemma {:induction false} BitPow2(n: nat, k: nat)
    ensures Bit(Pow2(n), k) <==> k == n
    decreases n
  {
    if n == 0 {
      BitZero(k);
      if k != 0 {
        BitZero(k - 1);
      }
    } else {
      Digits(false, Pow2(n - 1));
      if k != 0 {
        BitPow2(n - 1, k - 1);
      }
    }
  }

  lemma {:induction false} BitZero(k: nat)
    ensures !Bit(0, k)
    decreases k
  {
    if k != 0 {
      BitZero(k - 1);
    }
  }

  lemma {:induction false} BitOr(a: nat, b: nat, k: nat)
    ensures Bit(Or(a, b), k) == (Bit(a, k) || Bit(b, k))
    decreases k
  {
    Digits(Odd(a) || Odd(b), Or(Half(a), Half(b)));
    if k != 0 {
      BitOr(Half(a), Half(b), k - 1);
    }
  }

  lemma {:induction false} OrBound(a: nat, b: nat, n: nat)
    requires a < Pow2(n) && b < Pow2(n)
    ensures Or(a, b) < Pow2(n)
    decreases n
  {
    if n != 0 && a + b != 0 {
      OrBound(Half(a), Half(b), n - 1);
    }
  }

  /** The complement of an n-digit number. */
  function Not(a: nat, n: nat): (r: nat)
    requires a < Pow2(n)
    ensures r < Pow2(n)
  {
    Pow2(n) - 1 - a
  }

  lemma {:induction false} BitNot(a: nat, n: nat, k: nat)
    requires a < Pow2(n) && k < n
    ensures Bit(Not(a, n), k) == !Bit(a, k)
    decreases n
  {
    assert Half(a) < Pow2(n - 1);
    assert Half(Not(a, n)) == Not(Half(a), n - 1) && Odd(Not(a, n)) == !Odd(a);
    if k != 0 {
      BitNot(Half(a), n - 1, k - 1);
    }
  }

  lemma {:induction false} BitAnd(a: nat, b: nat, k: nat)
    ensures Bit(And(a, b), k) <==> Bit(a, k) && Bit(b, k)
    decreases k
  {
    AndDigits(a, b);
    hide And;
    if k != 0 {
      BitAnd(Half(a), Half(b), k - 1);
    }
  }

  lemma {:induction false} AndBound(a: nat, b: nat, n: nat)
    requires a < Pow2(n) && b < Pow2(n)
    ensures And(a, b) < Pow2(n)
    decreases n
  {
    if n != 0 && a + b != 0 {
      AndBound(Half(a), Half(b), n - 1);
    }
  }

  /** A number below 2^n has no digit from n on. */
  lemma {:induction false} BitBound(a: nat, n: nat, k: nat)
    requires a < Pow2(n) && n <= k
    ensures !Bit(a, k)
    decreases n
  {
    if n == 0 {
      BitZero(k);
    } else {
      BitBound(Half(a), n - 1, k - 1);
    }
  }

  /** The number of trailing zero digits. */
  function Ctz(a: nat): (r: nat)
    requires a > 0
    ensures Bit(a, r)
    ensures forall k :: 0 <= k < r ==> !Bit(a, k)
  {
    if Odd(a) then 0 else 1 + Ctz(Half(a))
  }

  lemma AndDigits(a: nat, b: nat)
    ensures Odd(And(a, b)) == (Odd(a) && Odd(b)) && Half(And(a, b)) == And(Half(a), Half(b))
  {
    Digits(Odd(a) && Odd(b), And(Half(a), Half(b)));
  }

  lemma {:induction false} AndSelf(a: nat)
    ensures And(a, a) == a
  {
    if a != 0 {
      AndSelf(Half(a));
      Rejoin(a);
    }
  }

  /** Clearing the lowest set digit: a & (a - 1). */
  lemma {:induction false} ClearLowest(a: nat, k: nat)
    requires a > 0
    ensures And(a, a - 1) < a
    ensures Bit(And(a, a - 1), k) <==> Bit(a, k) && k != Ctz(a)
    decreases a
  {
    AndDigits(a, a - 1);
    HalfPred(a);
    Rejoin(And(a, a - 1));
    Rejoin(a);
    hide And;
    if Odd(a) {
      AndSelf(Half(a));
    } else {
      ClearLowest(Half(a), if k > 0 then k - 1 else 0);
    }
  }

  lemma HalfPred(a: nat)
    requires a > 0
    ensures Odd(a) ==> Half(a - 1) == Half(a) && !Odd(a - 1)
    ensures !Odd(a) ==> Half(a) > 0 && Half(a - 1) == Half(a) - 1 && Odd(a - 1)
  {}

  /** The number of ones, __builtin_popcountll. */
  function PopCount(a: nat): nat {
    if a == 0 then 0 else (if Odd(a) then 1 else 0) + PopCount(Half(a))
  }
}
