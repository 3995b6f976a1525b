/**
 Which rows the first phase of the solver can start with: those of symbols with one or two LT neighbours,
 sections 5.3.5.2 and 5.4.2.2 of RFC 6330 (raptorq/precode.c, lines 34-58 and 166-180).
 */
module Degrees {
  import opened SpMat
  import opened Primes
  import opened Scheduling
  import opened Preconditioning
  import opened Hdpc
  import opened Tuples
  import opened Generation
  import opened Symbols

  /** A list with exactly its first d entries below w. */
  lemma {:induction false} CountFirst(xs: seq<nat>, d: nat, w: nat)
    requires d <= |xs| && forall k :: 0 <= k < |xs| ==> (xs[k] < w <==> k < d)
    ensures Count(xs, 0, w) == d
    decreases |xs|
  {
    if xs != [] {
      CountFirst(xs[..|xs| - 1], if d == |xs| then d - 1 else d, w);
    }
  }

  /** Distinct entries in range count. */
  lemma {:induction false} CountAtLeast(xs: seq<nat>, vs: seq<nat>, w: nat)
    requires NoDup(vs) && Below(vs, w) && forall v :: v in vs ==> v in xs
    ensures Count(xs, 0, w) >= |vs|
    decreases |xs|
  {
    assert vs != [] ==> vs[0] in xs;
    if xs != [] {
      var init, y := xs[..|xs| - 1], xs[|xs| - 1];
      assert forall v :: v in xs <==> v in init || v == y;
      if y in vs {
        var k :| 0 <= k < |vs| && vs[k] == y;
        CountAtLeast(init, Without(vs, k), w);
      } else {
        CountAtLeast(init, vs, w);
      }
    }
  }

  /** The number of LT symbols in the symbol with internal id x. */
  function LtDegree(x: nat, pr: Params, rnd: Rnd): nat
    requires pr.w >= 2 && pr.p1 >= 2
  {
    TupleOf(x, pr, rnd).d
  }

  lemma SymbolLight(x: nat, pr: Params, rnd: Rnd)
    requires ValidParams(pr)
    ensures pr.w >= 2 && pr.p1 >= 2 && pr.p <= pr.l
    ensures Light(pr, Neighbours(x, pr, rnd)) <==> LtDegree(x, pr, rnd) <= 2
  {
    hide Prime, LeastPrime, TupleOf, Neighbours;
    NeighboursDistinct(x, pr, rnd);
    CountFirst(Neighbours(x, pr, rnd), LtDegree(x, pr, rnd), pr.w);
  }

  /** If there are at least S columns below B, every LDPC row has three of the first S. */
  lemma RelationHeavy(a: Lists, pr: Params, r: nat)
    requires ValidParams(pr) && pr.s > 0 && pr.p > 0 && Relations(a, pr) && r < pr.s + pr.h && pr.b >= pr.s
    ensures pr.p <= pr.l && !Light(pr, a[r])
  {
    hide Prime, LeastPrime;
    if r < pr.s {
      var x, y := Before(r, pr.s), Before(Before(r, pr.s), pr.s);
      LdpcBefore(r, pr.s);
      var vs := [r, x, y];
      assert forall v :: v in vs ==> LdpcEntry(pr, r, v);
      CountAtLeast(a[r], vs, pr.w);
    } else {
      assert a[r] == [];
    }
  }

  /** The place before r on a circle of s. */
  function Before(r: nat, s: nat): (x: nat)
    requires r < s
    ensures x < s && (x + 1) % s == r
  {
    var x := if r == 0 then s - 1 else r - 1;
    ModBelowTwice(x + 1, s);
    x
  }

  lemma LdpcBefore(r: nat, s: nat)
    requires r < s && s >= 3
    ensures InLdpc(r, r, s) && InLdpc(Before(r, s), r, s) && InLdpc(Before(Before(r, s), s), r, s)
    ensures NoDup([r, Before(r, s), Before(Before(r, s), s)])
  {
    var x := Before(r, s);
    var y := Before(x, s);
    LdpcFirst(r, s);
    LdpcFirst(x, s);
    LdpcFirst(y, s);
    hide Ldpc;
    assert r != x && x != y && r != y;
  }

  /** The LDPC rows of a column below S are its own and the two after it. */
  lemma LdpcFirst(x: nat, s: nat)
    requires x < s
    ensures Ldpc(x, s, 0) == x && Ldpc(x, s, 1) == (x + 1) % s && Ldpc(x, s, 2) == ((x + 1) % s + 1) % s
  {
    DivModUnique(x, s, 0, x);
    assert Ldpc(x, s, 2) == (Ldpc(x, s, 1) + x / s + 1) % s;
  }

  /** No row is light exactly if no symbol has one or two LT neighbours. */
  lemma NoneLightIff(a: Lists, pr: Params, rnd: Rnd, ids: seq<nat>)
    requires ValidParams(pr) && Encodes(a, pr, rnd, ids) && pr.b >= pr.s
    ensures pr.w >= 2 && pr.p1 >= 2 && pr.p <= pr.l
    ensures NoneLight(a, pr) <==> forall k :: 0 <= k < |ids| ==> LtDegree(ids[k], pr, rnd) >= 3
  {
    hide ValidParams, Relations, Light, Neighbours, LtDegree;
    SymbolLight(0, pr, rnd);
    var top := pr.s + pr.h;
    forall k | 0 <= k < |ids| ensures Light(pr, a[top + k]) <==> LtDegree(ids[k], pr, rnd) <= 2 {
      SymbolLight(ids[k], pr, rnd);
      assert a[top + k] == Neighbours(ids[k], pr, rnd);
    }
    forall r | 0 <= r < top ensures !Light(pr, a[r]) {
      RelationHeavy(a, pr, r);
    }
    if forall k :: 0 <= k < |ids| ==> LtDegree(ids[k], pr, rnd) >= 3 {
      forall r | 0 <= r < |a| ensures !Light(pr, a[r]) {
        if r >= top {
          assert a[top + (r - top)] == a[r] && LtDegree(ids[r - top], pr, rnd) >= 3;
        }
      }
    }
    if NoneLight(a, pr) {
      forall k | 0 <= k < |ids| ensures LtDegree(ids[k], pr, rnd) >= 3 {
        assert !Light(pr, a[top + k]);
      }
    }
  }
}
