/**
 Which intermediate symbols make up an encoding symbol: tuples and index walks, sections 5.3.5.2
 to 5.3.5.4 of RFC 6330 (raptorq/tuple.c; raptorq/params.c, lines 21-65).
 */
module Tuples {
  import opened Bits
  import opened SpMat
  import opened Primes
  import opened Scheduling
  import opened Hdpc

  /** What params_init derives from a row of the table of section 5.6 of RFC 6330, and what that table provides. */
  ghost predicate ValidParams(pr: Params) {
    && pr.l == pr.kprime + pr.s + pr.h && pr.l < 0x1_0000 && pr.kprime >= 1
    && pr.w <= pr.l && pr.p == pr.l - pr.w && pr.h <= pr.p && pr.u == pr.p - pr.h
    && pr.s < pr.w && pr.b == pr.w - pr.s && LeastPrime(pr.p, pr.p1)
    && Prime(pr.s) && Prime(pr.w) && pr.s >= 3 && pr.h >= 2 && pr.p >= 3 && pr.b / pr.s + 1 < pr.s
  }

  /** The table entry for K' = 10. */
  lemma SmallestParams()
    ensures ValidParams(Params(10, 7, 10, 17, 27, 10, 11, 0, 10, 254))
  {
    assert 10 % 2 == 0;
  }

  /** One row of the table of section 5.6 of RFC 6330. */
  datatype TableRow = TableRow(kprime: nat, j: nat, s: nat, h: nat, w: nat)

  /** What the table provides. */
  ghost predicate GoodRow(e: TableRow) {
    && e.kprime + e.s + e.h < 0x1_0000 && e.w <= e.kprime + e.s + e.h && e.s < e.w && e.kprime >= 1
    && Prime(e.s) && Prime(e.w) && e.s >= 3 && e.h >= 2 && (e.w - e.s) / e.s + 1 < e.s
    && e.kprime + e.s >= e.w && e.kprime + e.s + e.h - e.w >= 3
    && exists r :: e.kprime + e.s + e.h - e.w <= r < 0x1_0000 && Prime(r)
  }

  /** params_init, past the table look-up. */
  method DeriveParams(e: TableRow) returns (pr: Params)
    requires GoodRow(e)
    ensures ValidParams(pr) && TableRow(pr.kprime, pr.j, pr.s, pr.h, pr.w) == e
  {
    hide Prime;
    var l := e.kprime + e.s + e.h;
    var p := l - e.w;
    var p1 := NextPrime(p);
    pr := Params(e.kprime, e.s, e.h, e.w, l, p, p1, p - e.h, e.w - e.s, e.j);
  }

  /**
   params_init: the first row of the table with at least K symbols, which is that of the least K' if the table is
   in order.
   */
  method InitParams(k: nat, table: seq<TableRow>) returns (pr: Params)
    requires forall i :: 0 <= i < |table| ==> GoodRow(table[i])
    requires exists i :: 0 <= i < |table| && k <= table[i].kprime
    ensures ValidParams(pr) && k <= pr.kprime && TableRow(pr.kprime, pr.j, pr.s, pr.h, pr.w) in table
    ensures (forall i, j :: 0 <= i < j < |table| ==> table[i].kprime < table[j].kprime) ==>
      forall i :: 0 <= i < |table| && k <= table[i].kprime ==> pr.kprime <= table[i].kprime
  {
    hide GoodRow, ValidParams;
    for i := 0 to |table|
      invariant forall j :: 0 <= j < i ==> k > table[j].kprime
    {
      if k <= table[i].kprime {
        pr := DeriveParams(table[i]);
        return;
      }
    }
    assert false;
  }

  // ---------- tuples ----------

  /** The cumulative degree distribution, section 5.3.5.2 of RFC 6330. */
  const DEGREE_DIST: seq<nat> := [
    0,       5243,    529531,  704294,  791675,  844104,  879057,  904023,
    922747,  937311,  948962,  958494,  966438,  973160,  978921,  983914,
    988283,  992138,  995565,  998631,  1001391, 1003887, 1006157, 1008229,
    1010129, 1011876, 1013490, 1014983, 1016370, 1017662, 1048576]

  /** The band of the distribution that v falls into. */
  ghost predicate InBand(v: nat, d: nat) {
    1 <= d < |DEGREE_DIST| && DEGREE_DIST[d - 1] <= v < DEGREE_DIST[d]
  }

  lemma {:induction false} Increasing(i: nat, j: nat)
    requires i <= j < |DEGREE_DIST|
    ensures DEGREE_DIST[i] <= DEGREE_DIST[j]
    decreases j
  {
    if i < j {
      Increasing(i, j - 1);
      assert DEGREE_DIST[j - 1] <= DEGREE_DIST[j];
    }
  }

  lemma BandUnique(v: nat, d: nat, e: nat)
    requires InBand(v, d) && InBand(v, e)
    ensures d == e
  {
    if d < e {
      Increasing(d, e - 1);
    } else if e < d {
      Increasing(e, d - 1);
    }
  }

  /** Least d from i on with v below entry d. */
  function DegreeFrom(v: nat, i: nat): (d: nat)
    requires i < |DEGREE_DIST| && v < 0x10_0000 && (i > 0 ==> DEGREE_DIST[i - 1] <= v)
    ensures InBand(v, d)
    decreases |DEGREE_DIST| - i
  {
    if v < DEGREE_DIST[i] then i else DegreeFrom(v, i + 1)
  }

  function Min(a: nat, b: nat): nat {
    if a < b then a else b
  }

  /** deg: the band of v, capped at W - 2. */
  method Deg(v: nat, w: nat) returns (d: nat)
    requires v < 0x10_0000 && w >= 2
    ensures d == Min(DegreeFrom(v, 0), w - 2)
  {
    d := 0;
    for i := 0 to |DEGREE_DIST|
      invariant i > 0 ==> DEGREE_DIST[i - 1] <= v
    {
      if v < DEGREE_DIST[i] {
        BandUnique(v, i, DegreeFrom(v, 0));
        return if i < w - 2 then i else w - 2;
      }
    }
    assert false;
  }

  /** n is 5243 + 2^20 * (d - 1) / d, rounded up or down. */
  predicate Rounded(d: int, n: int) {
    -d < d * (n - 5243) - 0x10_0000 * (d - 1) < d
  }

  /**
   The distribution in closed form: degree 1 has probability 5243 / 2^20 and, but for rounding, every degree d from 2
   to 29 has probability 1 / (d * (d - 1)); what is left is degree 30.
   */
  lemma DegreeTable(d: nat)
    requires 1 <= d <= 29
    ensures |DEGREE_DIST| == 31 && DEGREE_DIST[0] == 0 && DEGREE_DIST[30] == 0x10_0000
    ensures Rounded(d, DEGREE_DIST[d])
  {
    if d <= 15 {
      assert forall i :: 1 <= i <= 15 ==> Rounded(i, DEGREE_DIST[i]);
    } else {
      assert forall i :: 16 <= i <= 29 ==> Rounded(i, DEGREE_DIST[i]);
    }
  }

  datatype Tuple = Tuple(d: nat, a: nat, b: nat, d1: nat, a1: nat, b1: nat)

  /** The multiplier of the seed: the odd one of two neighbouring numbers. */
  function Multiplier(j: nat): (a: nat)
    ensures a % 2 == 1 && 53591 + 997 * j <= a <= 53592 + 997 * j
  {
    var a := 53591 + j * 997;
    if a % 2 == 0 then a + 1 else a
  }

  /** The seed of the tuple for X, in 32 bits. */
  function Seed(x: nat, j: nat): nat {
    (10267 * (j + 1) + x * Multiplier(j)) % 0x1_0000_0000
  }

  /** Seeds start at 10267 * (J + 1) and go up by the odd one of 53591 + 997 J and 53592 + 997 J, in 32 bits. */
  lemma SeedNext(x: nat, j: nat, a: nat)
    requires a % 2 == 1 && 53591 + 997 * j <= a <= 53592 + 997 * j
    ensures Seed(0, j) == (10267 * (j + 1)) % 0x1_0000_0000
    ensures Seed(x + 1, j) == (Seed(x, j) + a) % 0x1_0000_0000
  {
    hide Seed, Multiplier;
    MultiplierUnique(j, a);
    var s := 10267 * (j + 1) + x * a;
    SeedAt(0, j, a, 10267 * (j + 1));
    SeedAt(x, j, a, s);
    NextMultiple(x, a);
    SeedAt(x + 1, j, a, s + a);
    ModPlus(s, a, 0x1_0000_0000);
  }

  lemma SeedAt(x: nat, j: nat, a: nat, s: nat)
    requires a == Multiplier(j) && s == 10267 * (j + 1) + x * a
    ensures Seed(x, j) == s % 0x1_0000_0000
  {
    hide Multiplier;
  }

  lemma MultiplierUnique(j: nat, a: nat)
    requires a % 2 == 1 && 53591 + 997 * j <= a <= 53592 + 997 * j
    ensures a == Multiplier(j)
  {
    var m := Multiplier(j);
    hide Multiplier;
    OddOfTwo(53591 + 997 * j, a, m);
  }

  lemma OddOfTwo(b: nat, a: nat, m: nat)
    requires a % 2 == 1 && m % 2 == 1 && b <= a <= b + 1 && b <= m <= b + 1
    ensures a == m
  {}

  /** A power of two that divides an odd multiple divides the number. */
  lemma {:induction false} OddMultiple(x: nat, a: nat, k: nat)
    requires a % 2 == 1 && (x * a) % Pow2(k) == 0
    ensures x % Pow2(k) == 0
    decreases k
  {
    if k != 0 {
      var p, e := Pow2(k - 1), x / 2;
      HalveProduct(x, a, p);
      OddMultiple(e, a, k - 1);
      DoubleMultiple(e, p);
    }
  }

  lemma HalveProduct(x: nat, a: nat, p: nat)
    requires p > 0 && a % 2 == 1 && (x * a) % (2 * p) == 0
    ensures x == 2 * (x / 2) && ((x / 2) * a) % p == 0
  {
    var e := x / 2;
    var q := FactorOf(x * a, 2 * p);
    assert (2 * p) * q == 2 * (p * q) && p * q == q * p;
    EvenProduct(x * a, q * p);
    EvenFactor(x, a);
    assert (2 * e) * a == 2 * (e * a);
    DivModUnique(e * a, p, q, 0);
  }

  lemma EvenProduct(x: nat, h: nat)
    requires x == 2 * h
    ensures x % 2 == 0
  {}

  lemma DoubleMultiple(e: nat, p: nat)
    requires p > 0 && e % p == 0
    ensures (2 * e) % (2 * p) == 0
  {
    var r := FactorOf(e, p);
    assert (2 * p) * r == 2 * (p * r);
    ProductMod(2 * p, r);
  }

  lemma EvenFactor(x: nat, a: nat)
    requires a % 2 == 1 && (x * a) % 2 == 0
    ensures x % 2 == 0
  {
    if x % 2 == 1 {
      var e, f := x / 2, a / 2;
      assert x == 2 * e + 1 && a == 2 * f + 1;
      assert x * a == 2 * (2 * e * f + e + f) + 1;
      DivModUnique(x * a, 2, 2 * e * f + e + f, 1);
    }
  }

  /** Different symbols have different seeds. */
  lemma SeedsDistinct(x: nat, y: nat, j: nat)
    requires x < y < 0x1_0000_0000
    ensures Seed(x, j) != Seed(y, j)
  {
    var a, b := Multiplier(j), 10267 * (j + 1);
    SeedAt(x, j, a, b + x * a);
    SeedAt(y, j, a, b + y * a);
    hide Multiplier, Seed, Pow2;
    Pow32();
    DivModUnique(y - x, Pow2(32), 0, y - x);
    if Seed(x, j) == Seed(y, j) {
      SameSeeds(x, y, b, a, 32);
    }
  }

  lemma SameSeeds(x: nat, y: nat, b: nat, a: nat, k: nat)
    requires x < y && a % 2 == 1 && (b + x * a) % Pow2(k) == (b + y * a) % Pow2(k)
    ensures (y - x) % Pow2(k) == 0
  {
    SameShifted(b, x * a, y * a, Pow2(k));
    Spread(x, y, a);
    OddMultiple(y - x, a, k);
  }

  lemma SameShifted(b: int, u: int, v: int, p: nat)
    requires p > 0 && (b + u) % p == (b + v) % p
    ensures (v - u) % p == 0
  {
    SameRemainder(b + u, b + v, p);
    assert (b + v) - (b + u) == v - u;
  }

  /** The tuple of internal symbol X. */
  function TupleOf(x: nat, pr: Params, rnd: Rnd): Tuple
    requires pr.w >= 2 && pr.p1 >= 2
  {
    var y := Seed(x, pr.j);
    var d := Min(DegreeFrom(RndGet(rnd, y, 0, 0x10_0000), 0), pr.w - 2);
    Tuple(d, 1 + RndGet(rnd, y, 1, pr.w - 1), RndGet(rnd, y, 2, pr.w),
          if d < 4 then 2 + RndGet(rnd, x, 3, 2) else 2, 1 + RndGet(rnd, x, 4, pr.p1 - 1), RndGet(rnd, x, 5, pr.p1))
  }

  /** gen_tuple. */
  method GenTuple(x: nat, pr: Params, rnd: Rnd) returns (t: Tuple)
    requires pr.w >= 2 && pr.p1 >= 2
    ensures t == TupleOf(x, pr, rnd)
  {
    hide RndGet, DegreeFrom, Seed;
    var y := Seed(x, pr.j);
    var v := RndGet(rnd, y, 0, 0x10_0000);
    var d := Deg(v, pr.w);
    var d1 := 2;
    if d < 4 {
      d1 := 2 + RndGet(rnd, x, 3, 2);
    }
    t := Tuple(d, 1 + RndGet(rnd, y, 1, pr.w - 1), RndGet(rnd, y, 2, pr.w),
               d1, 1 + RndGet(rnd, x, 4, pr.p1 - 1), RndGet(rnd, x, 5, pr.p1));
  }

  /**
   What every component of a tuple is taken from: d, a and b from the random numbers 0, 1 and 2 of the seed; d1, a1
   and b1 from the random numbers 3, 4 and 5 of X itself.
   */
  lemma TupleParts(x: nat, pr: Params, rnd: Rnd, a: nat, y: nat)
    requires pr.w >= 2 && pr.p1 >= 2 && a % 2 == 1 && 53591 + 997 * pr.j <= a <= 53592 + 997 * pr.j
    requires y == (10267 * (pr.j + 1) + x * a) % 0x1_0000_0000
    ensures var t := TupleOf(x, pr, rnd);
      && (exists band :: InBand(rnd(y, 0) % 0x10_0000, band) && t.d == Min(band, pr.w - 2))
      && t.a == 1 + rnd(y, 1) % (pr.w - 1) && t.b == rnd(y, 2) % pr.w
      && t.d1 == (if t.d < 4 then 2 + rnd(x, 3) % 2 else 2)
      && t.a1 == 1 + rnd(x, 4) % (pr.p1 - 1) && t.b1 == rnd(x, 5) % pr.p1
  {
    hide InBand, Seed, DegreeFrom, Multiplier;
    MultiplierUnique(pr.j, a);
    SeedAt(x, pr.j, a, 10267 * (pr.j + 1) + x * a);
    assert InBand(rnd(y, 0) % 0x10_0000, DegreeFrom(rnd(y, 0) % 0x10_0000, 0));
  }

  lemma TupleBounds(x: nat, pr: Params, rnd: Rnd)
    requires ValidParams(pr)
    ensures pr.w >= 3 && pr.p1 >= 3
    ensures var t := TupleOf(x, pr, rnd);
      1 <= t.d < pr.w && 1 <= t.a < pr.w && t.b < pr.w && 2 <= t.d1 <= 3 && 1 <= t.a1 < pr.p1 && t.b1 < pr.p1
  {}

  // ---------- index walks ----------

  /** The entries below lim, in order. */
  function Kept(w: seq<nat>, lim: nat): (k: seq<nat>)
    ensures |k| <= |w| && Below(k, lim)
    ensures forall v :: v in k ==> v in w
  {
    if w == [] then []
    else
      var k, v := Kept(w[..|w| - 1], lim), w[|w| - 1];
      if v < lim then k + [v] else k
  }

  lemma {:induction false} KeptAll(w: seq<nat>, lim: nat, v: nat)
    requires v in w && v < lim
    ensures v in Kept(w, lim)
  {
    if v in w[..|w| - 1] {
      KeptAll(w[..|w| - 1], lim, v);
    }
  }

  lemma {:induction false} KeptNoDup(w: seq<nat>, lim: nat)
    requires NoDup(w)
    ensures NoDup(Kept(w, lim))
  {
    if w != [] {
      var init := w[..|w| - 1];
      KeptNoDup(init, lim);
      assert w[|w| - 1] !in init;
    }
  }

  lemma {:induction false} KeptPrefix(w: seq<nat>, n: nat, lim: nat)
    requires n <= |w|
    ensures Kept(w[..n], lim) <= Kept(w, lim)
    decreases |w|
  {
    if n == |w| {
      assert w[..n] == w;
    } else {
      KeptPrefix(w[..|w| - 1], n, lim);
      assert w[..|w| - 1][..n] == w[..n];
    }
  }

  lemma KeptStep(w: seq<nat>, n: nat, lim: nat)
    requires n < |w|
    ensures Kept(w[..n + 1], lim) == if w[n] < lim then Kept(w[..n], lim) + [w[n]] else Kept(w[..n], lim)
  {
    assert w[..n + 1][..n] == w[..n];
  }

  lemma WalkNoDup(b: nat, a: nat, p: nat, n: nat)
    requires Prime(p) && 0 < a < p && n <= p
    ensures NoDup(Walk(b, a, p, n))
  {
    hide Prime, Stop;
    forall s, t | 0 <= s < t < n ensures Walk(b, a, p, n)[s] != Walk(b, a, p, n)[t] {
      StopsDistinct(b, a, p, s, t);
    }
  }

  /** A full round around a prime circle meets every place below lim. */
  lemma RoundHits(b: nat, a: nat, p: nat, lim: nat)
    requires Prime(p) && 0 < a < p && lim <= p
    ensures |Kept(Walk(b, a, p, p), lim)| >= lim
  {
    hide Prime, Stop;
    var w := Walk(b, a, p, p);
    WalkNoDup(b, a, p, p);
    Pigeonhole(w, p);
    forall v | 0 <= v < lim ensures v in Kept(w, lim) {
      KeptAll(w, lim, v);
    }
    Covering(Kept(w, lim), lim);
  }

  /** The LT indices: the first d stops around W places. */
  function LtIdxs(t: Tuple, w: nat): (r: seq<nat>)
    requires w > 0
  {
    Walk(t.b, t.a, w, t.d)
  }

  function Shift(xs: seq<nat>, k: nat): (r: seq<nat>)
    ensures |r| == |xs| && forall i :: 0 <= i < |xs| ==> r[i] == xs[i] + k
  {
    seq(|xs|, i requires 0 <= i < |xs| => xs[i] + k)
  }

  /** The PI indices: the first d1 stops below P in one round of P1 places, after the W LT ones. */
  function PiIdxs(t: Tuple, p: nat, p1: nat, w: nat): (r: seq<nat>)
    requires p1 > 0 && t.d1 <= |Kept(Walk(t.b1, t.a1, p1, p1), p)|
  {
    Shift(Kept(Walk(t.b1, t.a1, p1, p1), p)[..t.d1], w)
  }

  lemma TupleHits(x: nat, pr: Params, rnd: Rnd)
    requires ValidParams(pr)
    ensures pr.w >= 3 && pr.p1 >= 3
    ensures var t := TupleOf(x, pr, rnd); t.d1 <= |Kept(Walk(t.b1, t.a1, pr.p1, pr.p1), pr.p)|
  {
    TupleBounds(x, pr, rnd);
    var t := TupleOf(x, pr, rnd);
    RoundHits(t.b1, t.a1, pr.p1, pr.p);
  }

  /** The intermediate symbols that make up the symbol with internal id X. */
  ghost function Neighbours(x: nat, pr: Params, rnd: Rnd): (r: seq<nat>)
    requires ValidParams(pr)
  {
    TupleHits(x, pr, rnd);
    var t := TupleOf(x, pr, rnd);
    LtIdxs(t, pr.w) + PiIdxs(t, pr.p, pr.p1, pr.w)
  }

  lemma JoinDistinct(a: seq<nat>, b: seq<nat>, w: nat, l: nat)
    requires Below(a, w) && NoDup(a) && NoDup(b) && Below(b, l) && w <= l
    requires forall k :: 0 <= k < |b| ==> b[k] >= w
    ensures Below(a + b, l) && NoDup(a + b)
    ensures forall k :: 0 <= k < |a + b| ==> ((a + b)[k] < w <==> k < |a|)
  {}

  /** Every symbol is a sum of distinct LT symbols, at least one, and two or three distinct PI symbols. */
  lemma NeighboursDistinct(x: nat, pr: Params, rnd: Rnd)
    requires ValidParams(pr)
    ensures Below(Neighbours(x, pr, rnd), pr.l) && NoDup(Neighbours(x, pr, rnd)) && pr.w >= 3 && pr.p1 >= 3
    ensures var d, n := TupleOf(x, pr, rnd).d, |Neighbours(x, pr, rnd)|; 1 <= d < n && 2 <= n - d <= 3
    ensures forall k :: 0 <= k < |Neighbours(x, pr, rnd)| ==>
      (Neighbours(x, pr, rnd)[k] < pr.w <==> k < TupleOf(x, pr, rnd).d)
  {
    hide Prime, Stop, TupleOf, Kept;
    TupleBounds(x, pr, rnd);
    TupleHits(x, pr, rnd);
    var t := TupleOf(x, pr, rnd);
    WalkNoDup(t.b, t.a, pr.w, t.d);
    PiDistinct(t, pr.p, pr.p1, pr.w);
    JoinDistinct(LtIdxs(t, pr.w), PiIdxs(t, pr.p, pr.p1, pr.w), pr.w, pr.l);
  }

  /** Where the kept entries come from: ascending positions, among which are all entries below lim. */
  ghost predicate KeptAt(w: seq<nat>, lim: nat, pos: seq<nat>) {
    && |pos| == |Kept(w, lim)|
    && (forall i :: 0 <= i < |pos| ==> pos[i] < |w| && w[pos[i]] == Kept(w, lim)[i])
    && (forall i, j :: 0 <= i < j < |pos| ==> pos[i] < pos[j])
    && (forall s: nat :: s < |w| && w[s] < lim ==> s in pos)
  }

  lemma {:induction false} KeptPositions(w: seq<nat>, lim: nat) returns (pos: seq<nat>)
    ensures KeptAt(w, lim, pos)
  {
    pos := [];
    if w != [] {
      var n := |w| - 1;
      pos := KeptPositions(w[..n], lim);
      if w[n] < lim {
        pos := pos + [n];
        assert pos[|pos| - 1] == n;
      }
    }
  }

  /**
   The indices in full: LT index k is the number b + k * a around W places, and PI index k is W plus the k-th number
   below P among b1, b1 + a1, b1 + 2 * a1, ... around P1 places.
   */
  lemma NeighboursAre(x: nat, pr: Params, rnd: Rnd) returns (pos: seq<nat>)
    requires ValidParams(pr)
    ensures pr.w >= 3 && pr.p1 >= 3
    ensures var t, n := TupleOf(x, pr, rnd), Neighbours(x, pr, rnd);
      && |n| == t.d + t.d1 && (forall k :: 0 <= k < t.d ==> n[k] == (t.b + k * t.a) % pr.w)
      && FirstBelow(pos, t.b1, t.a1, pr.p1, pr.p, n[t.d..], pr.w)
    ensures |pos| == TupleOf(x, pr, rnd).d1
  {
    hide TupleOf, Kept, Prime;
    TupleHits(x, pr, rnd);
    TupleBounds(x, pr, rnd);
    var t := TupleOf(x, pr, rnd);
    var w := Walk(t.b1, t.a1, pr.p1, pr.p1);
    var all := KeptPositions(w, pr.p);
    pos := all[..t.d1];
    var pi := PiIdxs(t, pr.p, pr.p1, pr.w);
    assert Neighbours(x, pr, rnd)[t.d..] == pi;
    PrefixBelow(t, pr.p1, pr.p, pr.w, all);
  }

  /** The values at the ascending places pos of a walk, less w, are the first ones below p that it meets. */
  ghost predicate FirstBelow(pos: seq<nat>, b: nat, a: nat, p1: nat, p: nat, values: seq<nat>, w: nat) {
    && p1 > 0 && |values| == |pos|
    && (forall i :: 0 <= i < |pos| ==> values[i] == w + (b + pos[i] * a) % p1 < w + p)
    && (forall i, j :: 0 <= i < j < |pos| ==> pos[i] < pos[j])
    && (forall s: nat, i :: 0 <= i < |pos| && s < pos[i] && Stop(b, a, p1, s) < p ==> s in pos)
  }

  lemma Ascending(pos: seq<nat>, i: nat, j: nat)
    requires i < |pos| && j < |pos| && pos[i] < pos[j]
    requires forall i, j :: 0 <= i < j < |pos| ==> pos[i] < pos[j]
    ensures i < j
  {}

  lemma PrefixBelow(t: Tuple, p1: nat, p: nat, w: nat, all: seq<nat>)
    requires p1 > 0 && t.d1 <= |Kept(Walk(t.b1, t.a1, p1, p1), p)| && KeptAt(Walk(t.b1, t.a1, p1, p1), p, all)
    ensures FirstBelow(all[..t.d1], t.b1, t.a1, p1, p, PiIdxs(t, p, p1, w), w)
  {
    hide Kept;
    var pos, walk, kept := all[..t.d1], Walk(t.b1, t.a1, p1, p1), Kept(Walk(t.b1, t.a1, p1, p1), p);
    forall i | 0 <= i < |pos| ensures PiIdxs(t, p, p1, w)[i] == w + (t.b1 + pos[i] * t.a1) % p1 < w + p {
      assert kept[i] == walk[pos[i]] == Stop(t.b1, t.a1, p1, pos[i]);
    }
    hide Stop;
    forall s: nat, i | 0 <= i < |pos| && s < pos[i] && Stop(t.b1, t.a1, p1, s) < p ensures s in pos {
      assert walk[s] < p;
      var j :| 0 <= j < |all| && all[j] == s;
      Ascending(all, j, i);
      assert pos[j] == s;
    }
  }

  lemma PiDistinct(t: Tuple, p: nat, p1: nat, w: nat)
    requires Prime(p1) && 0 < t.a1 < p1 && p <= p1 && t.d1 <= |Kept(Walk(t.b1, t.a1, p1, p1), p)|
    ensures NoDup(PiIdxs(t, p, p1, w)) && Below(PiIdxs(t, p, p1, w), w + p)
    ensures forall k :: 0 <= k < |PiIdxs(t, p, p1, w)| ==> PiIdxs(t, p, p1, w)[k] >= w
  {
    hide Prime, Stop;
    WalkNoDup(t.b1, t.a1, p1, p1);
    KeptNoDup(Walk(t.b1, t.a1, p1, p1), p);
  }

  /** The walk to the next stop below lim; it ends because a full round has enough of them. */
  method SkipLarge(b: nat, a: nat, lim: nat, p: nat, ghost b0: nat, ghost pos: nat) returns (r: nat, ghost pos': nat)
    requires Prime(p) && 0 < a < p && lim <= p && pos < p && b == Stop(b0, a, p, pos)
    requires |Kept(Walk(b0, a, p, p)[..pos], lim)| < lim
    ensures pos <= pos' < p && r == Stop(b0, a, p, pos') < lim
    ensures Kept(Walk(b0, a, p, p)[..pos'], lim) == Kept(Walk(b0, a, p, p)[..pos], lim)
  {
    hide Prime, Stop;
    r, pos' := b, pos;
    ghost var w := Walk(b0, a, p, p);
    while r >= lim
      invariant pos <= pos' < p && r == Stop(b0, a, p, pos')
      invariant Kept(w[..pos'], lim) == Kept(w[..pos], lim)
      decreases p - pos'
    {
      KeptStep(w, pos', lim);
      MoreHits(b0, a, p, lim, pos' + 1);
      StopNext(b0, a, p, pos');
      r := (r + a) % p;
      pos' := pos' + 1;
    }
  }

  lemma MoreHits(b: nat, a: nat, p: nat, lim: nat, n: nat)
    requires Prime(p) && 0 < a < p && lim <= p && n <= p
    requires |Kept(Walk(b, a, p, p)[..n], lim)| < lim
    ensures n < p
  {
    var w := Walk(b, a, p, p);
    RoundHits(b, a, p, lim);
    assert w[..p] == w;
  }

  /** params_set_idxs: the indices are pushed onto a row of the sparse matrix. */
  method SetIdxs(x: nat, pr: Params, rnd: Rnd, m: Sparse, row: nat)
    requires ValidParams(pr) && row < m.idxs.Length
    modifies m.idxs
    ensures m.idxs[..] == old(m.idxs[..])[row := old(m.idxs[row]) + Neighbours(x, pr, rnd)]
  {
    hide Prime, Stop, Kept, Seed, DegreeFrom;
    TupleBounds(x, pr, rnd);
    TupleHits(x, pr, rnd);
    var t := GenTuple(x, pr, rnd);
    ghost var before := m.idxs[row];
    PushLt(t, pr.w, m, row);
    PushPi(t, pr.p, pr.p1, pr.w, m, row);
    assert before + LtIdxs(t, pr.w) + PiIdxs(t, pr.p, pr.p1, pr.w) == before + Neighbours(x, pr, rnd);
  }

  method PushLt(t: Tuple, w: nat, m: Sparse, row: nat)
    requires w > 0 && row < m.idxs.Length && t.b < w && t.d >= 1
    modifies m.idxs
    ensures m.idxs[..] == old(m.idxs[..])[row := old(m.idxs[row]) + LtIdxs(t, w)]
  {
    ghost var before, all := m.idxs[row], m.idxs[..];
    var b := t.b;
    m.Push(row, b);
    assert Walk(t.b, t.a, w, 1) == [b] by {
      DivModUnique(b, w, 0, b);
    }
    for j := 1 to t.d
      invariant m.idxs[..] == all[row := before + Walk(t.b, t.a, w, j)]
      invariant b == Stop(t.b, t.a, w, j - 1)
    {
      StopNext(t.b, t.a, w, j - 1);
      b := (b + t.a) % w;
      m.Push(row, b);
      assert before + Walk(t.b, t.a, w, j + 1) == before + Walk(t.b, t.a, w, j) + [b];
    }
  }

  /** The PI indices pushed so far are those of the walk up to its stop at pos. */
  ghost predicate PiSoFar(t: Tuple, p: nat, p1: nat, w: nat, b1: nat, pos: nat, out: seq<nat>) {
    && 0 < p1 && pos < p1 && b1 == Stop(t.b1, t.a1, p1, pos)
    && out == Shift(Kept(Walk(t.b1, t.a1, p1, p1)[..pos + 1], p), w)
  }

  lemma PiPush(t: Tuple, p: nat, p1: nat, w: nat, start: nat, b1: nat, pos: nat, out: seq<nat>)
    requires p1 > 0 && start <= pos < p1 && b1 == Stop(t.b1, t.a1, p1, pos) < p
    requires Kept(Walk(t.b1, t.a1, p1, p1)[..pos], p) == Kept(Walk(t.b1, t.a1, p1, p1)[..start], p)
    requires out == Shift(Kept(Walk(t.b1, t.a1, p1, p1)[..start], p), w)
    ensures PiSoFar(t, p, p1, w, b1, pos, out + [w + b1])
  {
    hide Stop, Kept;
    KeptStep(Walk(t.b1, t.a1, p1, p1), pos, p);
  }

  lemma PiFinish(t: Tuple, p: nat, p1: nat, w: nat, b1: nat, pos: nat, out: seq<nat>)
    requires PiSoFar(t, p, p1, w, b1, pos, out) && |out| == t.d1
    ensures t.d1 <= |Kept(Walk(t.b1, t.a1, p1, p1), p)| && out == PiIdxs(t, p, p1, w)
  {
    hide Stop, Kept;
    KeptPrefix(Walk(t.b1, t.a1, p1, p1), pos + 1, p);
  }

  /** The next PI index after the stop at pos. */
  method NextPi(t: Tuple, p: nat, p1: nat, w: nat, b1: nat, ghost pos: nat, ghost out: seq<nat>)
    returns (r: nat, ghost pos': nat)
    requires Prime(p1) && 0 < t.a1 < p1 && p <= p1 && PiSoFar(t, p, p1, w, b1, pos, out) && |out| < p
    ensures r < p && PiSoFar(t, p, p1, w, r, pos', out + [w + r])
  {
    hide Prime, Stop, Kept, Walk;
    MoreHits(t.b1, t.a1, p1, p, pos + 1);
    StopNext(t.b1, t.a1, p1, pos);
    r, pos' := SkipLarge((b1 + t.a1) % p1, t.a1, p, p1, t.b1, pos + 1);
    PiPush(t, p, p1, w, pos + 1, r, pos', out);
  }

  method PushPi(t: Tuple, p: nat, p1: nat, w: nat, m: Sparse, row: nat)
    requires Prime(p1) && 0 < t.a1 < p1 && t.b1 < p1 && p <= p1 && 1 <= t.d1 <= p && row < m.idxs.Length
    requires t.d1 <= |Kept(Walk(t.b1, t.a1, p1, p1), p)|
    modifies m.idxs
    ensures m.idxs[..] == old(m.idxs[..])[row := old(m.idxs[row]) + PiIdxs(t, p, p1, w)]
  {
    hide Prime, Stop, Kept, Walk, PiSoFar, PiIdxs;
    ghost var before, all, pos := m.idxs[row], m.idxs[..], 0;
    ghost var out: seq<nat>;
    var b1;
    b1, pos := FirstPi(t, p, p1, w);
    m.Push(row, w + b1);
    out := [w + b1];
    for j := 1 to t.d1
      invariant PiSoFar(t, p, p1, w, b1, pos, out) && |out| == j
      invariant m.idxs[..] == all[row := before + out]
    {
      b1, pos := NextPi(t, p, p1, w, b1, pos, out);
      m.Push(row, w + b1);
      assert before + out + [w + b1] == before + (out + [w + b1]);
      out := out + [w + b1];
    }
    PiFinish(t, p, p1, w, b1, pos, out);
  }

  /** The first PI index. */
  method FirstPi(t: Tuple, p: nat, p1: nat, w: nat) returns (r: nat, ghost pos: nat)
    requires Prime(p1) && 0 < t.a1 < p1 && t.b1 < p1 && 1 <= p <= p1
    ensures r < p && PiSoFar(t, p, p1, w, r, pos, [w + r])
  {
    hide Prime, Stop;
    StopStart(t.b1, t.a1, p1);
    assert Walk(t.b1, t.a1, p1, p1)[..0] == [];
    r, pos := SkipLarge(t.b1, t.a1, p, p1, t.b1, 0);
    PiPush(t, p, p1, w, 0, r, pos, []);
    assert [] + [w + r] == [w + r];
  }

  lemma StopStart(b: nat, a: nat, p: nat)
    requires b < p
    ensures Stop(b, a, p, 0) == b
  {
    DivModUnique(b, p, 0, b);
  }
}
