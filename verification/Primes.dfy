/** Primality by trial division, and walking around a prime circle (raptorq/params.c, lines 5-19). */
module Primes {

  ghost predicate Prime(n: nat) {
    n >= 2 && forall d :: 2 <= d < n ==> n % d != 0
  }

  lemma FactorOf(n: nat, d: nat) returns (q: nat)
    requires d > 0 && n % d == 0
    ensures n == d * q
  {
    q := n / d;
  }

  lemma ProductMod(d: nat, q: nat)
    requires d > 0
    ensures (d * q) % d == 0
  {
    if q != 0 {
      ProductMod(d, q - 1);
      assert d * q == d * (q - 1) + d;
      AddMultiple(d * (q - 1), d, 1);
    }
  }

  lemma AddMultiple(x: int, d: nat, k: int)
    requires d > 0
    ensures (x + k * d) % d == x % d
  {
    var q, r := x / d, x % d;
    assert x + k * d == (q + k) * d + r by {
      assert (q + k) * d == q * d + k * d;
    }
    DivModUnique(x + k * d, d, q + k, r);
  }

  lemma TimesAtLeast(k: int, d: nat)
    requires k >= 1
    ensures k * d >= d
  {
    assert k * d == (k - 1) * d + d;
  }

  lemma UniqueParts(d: nat, q: int, r: nat, q': int, r': nat)
    requires r < d && r' < d && q * d + r == q' * d + r'
    ensures q == q' && r == r'
  {
    var k := q - q';
    assert k * d == q * d - q' * d;
    if k > 0 {
      TimesAtLeast(k, d);
    } else if k < 0 {
      TimesAtLeast(-k, d);
    }
  }

  lemma DivModUnique(x: int, d: nat, q: int, r: nat)
    requires d > 0 && x == q * d + r && r < d
    ensures x % d == r && x / d == q
  {
    UniqueParts(d, q, r, x / d, x % d);
  }

  /** One subtraction reduces a number below twice the modulus. */
  lemma ModBelowTwice(x: nat, n: nat)
    requires x < 2 * n
    ensures x % n == if x < n then x else x - n
  {
    DivModUnique(x, n, if x < n then 0 else 1, if x < n then x else x - n);
  }

  /** A divisor of a divisor divides. */
  lemma DividesTrans(a: nat, b: nat, n: nat)
    requires a > 0 && b > 0 && b % a == 0 && n % b == 0
    ensures n % a == 0
  {
    var x := FactorOf(b, a);
    var y := FactorOf(n, b);
    assert n == a * (x * y) by {
      assert (a * x) * y == a * (x * y);
    }
    ProductMod(a, x * y);
  }

  /** No number from 2 up to before i divides n. */
  ghost predicate NoDivisor(n: nat, i: nat) {
    forall d :: 2 <= d < i ==> n % d != 0
  }

  lemma Grows(d: nat, q: nat, i: nat)
    requires d >= i && q >= i
    ensures d * q >= i * i
  {
    assert d * q >= i * q >= i * i;
  }

  lemma SmallCofactor(n: nat, d: nat, q: nat, i: nat)
    requires n == d * q && i <= d < n && i * i > n
    ensures 2 <= q < i
  {
    if q >= i {
      Grows(d, q, i);
    }
  }

  lemma NoDivisorPrime(n: nat, i: nat)
    requires n >= 2 && i >= 2 && NoDivisor(n, i) && i * i > n
    ensures Prime(n)
  {
    forall d | 2 <= d < n ensures n % d != 0 {
      if n % d == 0 && d >= i {
        var q := FactorOf(n, d);
        SmallCofactor(n, d, q, i);
        assert d * q == q * d;
        ProductMod(q, d);
        assert false;
      }
    }
  }

  lemma Candidates(d: nat, i: nat)
    requires i % 6 == 5 && i <= d < i + 6
    ensures d == i || d == i + 2 || d % 2 == 0 || d % 3 == 0
  {
    var k := i / 6;
    assert i == 6 * k + 5;
    if d == i + 1 {
      DivModUnique(d, 2, 3 * k + 3, 0);
    } else if d == i + 3 {
      DivModUnique(d, 2, 3 * k + 4, 0);
    } else if d == i + 4 {
      DivModUnique(d, 3, 2 * k + 3, 0);
    } else if d == i + 5 {
      DivModUnique(d, 2, 3 * k + 5, 0);
    }
  }

  /** Six candidates at a time: only the first and the third can be least divisors. */
  lemma NextSix(n: nat, i: nat)
    requires n % 2 != 0 && n % 3 != 0 && i % 6 == 5 && NoDivisor(n, i)
    requires n % i != 0 && n % (i + 2) != 0
    ensures NoDivisor(n, i + 6)
  {
    forall d | 2 <= d < i + 6 ensures n % d != 0 {
      if d >= i {
        NotInSix(n, i, d);
      }
    }
  }

  lemma NotInSix(n: nat, i: nat, d: nat)
    requires n % 2 != 0 && n % 3 != 0 && i % 6 == 5 && i <= d < i + 6
    requires n % i != 0 && n % (i + 2) != 0
    ensures n % d != 0
  {
    if n % d == 0 {
      if d % 2 == 0 {
        DividesTrans(2, d, n);
      } else if d % 3 == 0 {
        DividesTrans(3, d, n);
      } else {
        Candidates(d, i);
      }
    }
  }

  lemma Composite(n: nat, d: nat)
    requires 2 <= d < n && n % d == 0
    ensures !Prime(n)
  {}

  lemma SmallPrimes()
    ensures Prime(2) && Prime(3)
  {}

  lemma Odds(n: nat)
    requires n % 2 != 0 && n % 3 != 0
    ensures NoDivisor(n, 5)
  {
    if n % 4 == 0 {
      DividesTrans(2, 4, n);
    }
  }

  lemma SquareAbove(i: nat)
    requires i >= 5
    ensures i * i > i + 2
  {
    assert i * i >= 5 * i;
  }

  /** is_prime. */
  method IsPrime(n: nat) returns (r: bool)
    ensures r <==> Prime(n)
  {
    hide NoDivisor;
    if n <= 1 {
      return false;
    }
    if n <= 3 {
      SmallPrimes();
      return true;
    }
    if n % 2 == 0 || n % 3 == 0 {
      Composite(n, if n % 2 == 0 then 2 else 3);
      return false;
    }
    hide Prime;
    Odds(n);
    var i := 5;
    while i * i <= n
      invariant i % 6 == 5 && i >= 5 && NoDivisor(n, i)
      decreases n + 6 - i
    {
      SquareAbove(i);
      if n % i == 0 || n % (i + 2) == 0 {
        Composite(n, if n % i == 0 then i else i + 2);
        return false;
      }
      NextSix(n, i);
      i := i + 6;
    }
    NoDivisorPrime(n, i);
    return true;
  }

  // ---------- multiplication modulo a prime ----------

  lemma Reduced(p: int, a: int, x: int, q: int, r: int, m: int)
    requires p == q * a + r && x * a == p * m
    ensures x * r == (x - q * m) * p
  {
    assert x * r == x * p - x * (q * a);
    assert x * (q * a) == q * (x * a);
    assert q * (p * m) == (q * m) * p;
  }

  /** Euclid's lemma: a product of numbers that a prime does not divide is not divisible by it. */
  lemma {:induction false} EuclidStep(p: nat, a: nat, x: nat)
    requires Prime(p) && 0 < a < p && 0 < x < p
    ensures (x * a) % p != 0
    decreases a
  {
    if a == 1 {
      assert x * a == x;
      DivModUnique(x, p, 0, x);
    } else {
      var q, r := p / a, p % a;
      EuclidStep(p, r, x);
      if (x * a) % p == 0 {
        var m := FactorOf(x * a, p);
        Reduced(p, a, x, q, r, m);
        DivModUnique(x * r, p, x - q * m, 0);
      }
    }
  }

  /** Position t of the walk from b in steps of a around a circle of p places. */
  function Stop(b: nat, a: nat, p: nat, t: nat): (v: nat)
    requires p > 0
    ensures v < p
  {
    (b + t * a) % p
  }

  lemma ModPlus(x: int, a: int, p: nat)
    requires p > 0
    ensures (x % p + a) % p == (x + a) % p
  {
    var q := x / p;
    assert x == q * p + x % p;
    assert x % p + a == (x + a) + (-q) * p by {
      Negated(q, p);
    }
    AddMultiple(x + a, p, -q);
  }

  lemma Negated(q: int, p: int)
    ensures (-q) * p == -(q * p)
  {}

  lemma StopNext(b: nat, a: nat, p: nat, t: nat)
    requires p > 0
    ensures (Stop(b, a, p, t) + a) % p == Stop(b, a, p, t + 1)
  {
    hide Stop;
    NextMultiple(t, a);
    var x := b + t * a;
    StopAt(b, a, p, t, x);
    StopAt(b, a, p, t + 1, x + a);
    ModPlus(x, a, p);
  }

  lemma StopAt(b: nat, a: nat, p: nat, t: nat, x: nat)
    requires p > 0 && x == b + t * a
    ensures Stop(b, a, p, t) == x % p
  {}

  lemma NextMultiple(t: int, a: int)
    ensures (t + 1) * a == t * a + a
  {}

  lemma Spread(s: int, t: int, a: int)
    ensures (t - s) * a == t * a - s * a
  {}

  /** Equal remainders: the difference is a multiple. */
  lemma SameRemainder(x: int, y: int, p: nat)
    requires p > 0 && x % p == y % p
    ensures (y - x) % p == 0
  {
    var k := y / p - x / p;
    assert x == (x / p) * p + x % p && y == (y / p) * p + y % p;
    Spread(x / p, y / p, p);
    DivModUnique(y - x, p, k, 0);
  }

  /** Around a prime circle no place is visited twice in one round. */
  lemma StopsDistinct(b: nat, a: nat, p: nat, s: nat, t: nat)
    requires Prime(p) && 0 < a < p && s < t < s + p
    ensures Stop(b, a, p, s) != Stop(b, a, p, t)
  {
    hide Prime;
    Spread(s, t, a);
    EuclidStep(p, a, t - s);
    if Stop(b, a, p, s) == Stop(b, a, p, t) {
      SameRemainder(b + s * a, b + t * a, p);
    }
  }

  /** The stops of a walk. */
  function Walk(b: nat, a: nat, p: nat, n: nat): (w: seq<nat>)
    requires p > 0
    ensures |w| == n && forall t :: 0 <= t < n ==> w[t] == Stop(b, a, p, t) < p
  {
    seq(n, t requires 0 <= t < n => Stop(b, a, p, t))
  }

  // ---------- the least prime from p on, in 16 bits ----------

  ghost predicate LeastPrime(p: nat, q: nat) {
    Prime(q) && p <= q && forall r :: p <= r < q ==> !Prime(r)
  }

  /** Steps from q to the prime 2, going up through the 16-bit wrap. */
  function ToTwo(q: nat): nat
    requires q < 0x1_0000
  {
    if q <= 2 then 2 - q else 0x1_0002 - q
  }

  /** The search for P1: it ends for every 16-bit start, and finds the least prime unless it wraps. */
  method NextPrime(p: nat) returns (q: nat)
    requires p < 0x1_0000
    ensures Prime(q) && q < 0x1_0000
    ensures (exists r :: p <= r < 0x1_0000 && Prime(r)) ==> LeastPrime(p, q)
  {
    q := p;
    ghost var wrapped := false;
    var prime := IsPrime(q);
    assert Prime(2);
    while !prime
      invariant q < 0x1_0000 && (prime <==> Prime(q))
      invariant wrapped ==> q <= 2 && forall r :: p <= r < 0x1_0000 ==> !Prime(r)
      invariant !wrapped ==> p <= q && forall r :: p <= r < q ==> !Prime(r)
      decreases ToTwo(q)
    {
      if q == 0xFFFF {
        wrapped := true;
      }
      q := (q + 1) % 0x1_0000;
      prime := IsPrime(q);
    }
  }
}
