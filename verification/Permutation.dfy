/**
 Permutations held as a pair of mutually inverse index vectors, and the in-place permutation of
 matrix rows along cycles.
 */
module Permutation {
  import opened GF256
  import opened Linear
  import opened Oblas
  import opened SpMat

  ghost predicate Inverse(p: seq<nat>, q: seq<nat>) {
    && |p| == |q|
    && (forall k :: 0 <= k < |p| ==> p[k] < |p| && q[p[k]] == k)
    && (forall k :: 0 <= k < |q| ==> q[k] < |q| && p[q[k]] == k)
  }

  /** Exchanging two entries and the entries of the inverse they name keeps the pair inverse. */
  lemma SwapInverse(p: seq<nat>, q: seq<nat>, a: nat, b: nat)
    requires Inverse(p, q) && a < |p| && b < |p|
    ensures Inverse(Swap(p, a, b), Swap(q, p[a], p[b]))
  {}

  method SwapEntries(p: array<nat>, q: array<nat>, a: nat, b: nat)
    requires p != q && Inverse(p[..], q[..]) && a < p.Length && b < p.Length
    modifies p, q
    ensures Inverse(p[..], q[..])
    ensures p[..] == Swap(old(p[..]), a, b)
    ensures q[..] == Swap(old(q[..]), old(p[a]), old(p[b]))
  {
    SwapInverse(p[..], q[..], a, b);
    p[a], p[b] := p[b], p[a];
    q[p[a]], q[p[b]] := q[p[b]], q[p[a]];
    assert p[..] == Swap(old(p[..]), a, b);
    assert q[..] == Swap(old(q[..]), old(p[a]), old(p[b]));
  }

  /** Row x of m is row p[x] of the result, and rows from |p| on stay. */
  ghost predicate Moved(p: seq<nat>, m: Mat, m': Mat)
    requires |p| <= |m|
  {
    && |m'| == |m|
    && (forall x :: 0 <= x < |p| ==> p[x] < |m| && m'[p[x]] == m[x])
    && (forall x :: |p| <= x < |m| ==> m'[x] == m[x])
  }

  lemma SubsetOfRange(s: set<nat>, n: nat)
    requires forall x :: x in s ==> x < n
    ensures |s| <= n
    decreases n
  {
    if n == 0 {
      assert s == {};
    } else {
      SubsetOfRange(s - {n - 1}, n - 1);
    }
  }

  ghost predicate Injective(p: seq<nat>) {
    Below(p, |p|) && NoDup(p)
  }

  /** Visited entries have moved to their places, and m agrees with m0 from |p| on. */
  ghost predicate MovedSoFar(p: seq<nat>, m0: Mat, m: Mat, done: set<nat>) {
    && |p| <= |m0| == |m|
    && (forall x :: x in done ==> x < |p| && p[x] < |p| && m[p[x]] == m0[x])
    && (forall x :: |p| <= x < |m| ==> m[x] == m0[x])
  }

  /** The visited set is a union of cycles. */
  ghost predicate Closed(p: seq<nat>, done: set<nat>) {
    forall x :: 0 <= x < |p| ==> (x in done <==> p[x] in done)
  }

  /** The visited set is a union of cycles and the part of the cycle of i from i up to before `at`. */
  ghost predicate Open(p: seq<nat>, done: set<nat>, i: nat, at: nat) {
    && i < |p| && at < |p|
    && (forall x :: 0 <= x < |p| && x in done ==> p[x] in done || p[x] == at)
    && (forall x :: 0 <= x < |p| && x !in done ==> p[x] !in done || (p[x] == i && at !in done))
    && (at in done ==> at == i)
    && (at !in done && at != i ==> i in done && forall x :: 0 <= x < |p| && x !in done ==> p[x] != at)
    && (at !in done ==> forall x :: 0 <= x < |p| && x in done ==> p[x] != i)
  }

  /** Row i of m holds the row displaced from place `at`; other unvisited rows are in place. */
  ghost predicate Carried(m0: Mat, m: Mat, done: set<nat>, i: nat, at: nat) {
    && |m0| == |m| && i < |m| && at < |m|
    && (forall x :: 0 <= x < |m| && x !in done && x != at ==> m[x] == m0[x])
    && (at !in done ==> m[i] == m0[at])
  }

  lemma OpenStep(p: seq<nat>, done: set<nat>, i: nat, at: nat)
    requires Injective(p) && Open(p, done, i, at) && at !in done
    ensures Open(p, done + {at}, i, p[at])
  {
    OpenExtended(p, done, i, at);
  }

  lemma OpenExtended(p: seq<nat>, done: set<nat>, i: nat, at: nat)
    requires Open(p, done, i, at) && at !in done && Below(p, |p|)
    requires forall x :: 0 <= x < |p| && x != at ==> p[x] != p[at]
    ensures Open(p, done + {at}, i, p[at])
  {}

  lemma CarriedStep(p: seq<nat>, m0: Mat, m: Mat, done: set<nat>, i: nat, at: nat)
    requires Injective(p) && Open(p, done, i, at) && at !in done
    requires MovedSoFar(p, m0, m, done) && Carried(m0, m, done, i, at)
    ensures MovedSoFar(p, m0, Swap(m, i, p[at]), done + {at})
    ensures Carried(m0, Swap(m, i, p[at]), done + {at}, i, p[at])
  {
    var b, m', done' := p[at], Swap(m, i, p[at]), done + {at};
    assert m'[b] == m0[at];
    forall x | x in done' ensures x < |p| && p[x] < |p| && m'[p[x]] == m0[x] {
      if x != at {
        assert p[x] != b && p[x] != i;
      }
    }
    assert b != i ==> b != at && b !in done;
    forall x | 0 <= x < |m| && x !in done' && x != b ensures m'[x] == m0[x] {
      assert x != i || at == i;
    }
  }

  /** The visited entries of the working copy p of p0 are -1. */
  ghost predicate Marked(p: seq<int>, p0: seq<nat>, done: set<nat>) {
    |p| == |p0| && forall x :: 0 <= x < |p| ==> p[x] == if x in done then -1 else p0[x]
  }

  /** The state inside the cycle of i: p and m are the current index vector and rows. */
  ghost predicate InCycle(p0: seq<nat>, m0: Mat, p: seq<int>, m: Mat, done: set<nat>, i: nat, at: nat) {
    && Injective(p0) && Marked(p, p0, done) && MovedSoFar(p0, m0, m, done)
    && Open(p0, done, i, at) && Carried(m0, m, done, i, at)
  }

  lemma CycleStep(p0: seq<nat>, m0: Mat, p: seq<int>, m: Mat, done: set<nat>, i: nat, at: nat)
    requires InCycle(p0, m0, p, m, done, i, at) && p[at] >= 0
    ensures p[at] < |p0| <= |m| && |p0| - |done| > |p0| - |done + {at}| >= 0
    ensures InCycle(p0, m0, p[at := -1], Swap(m, i, p[at]), done + {at}, i, p[at])
  {
    Bounds(p0, m0, m, done, i, at);
    MarkedStep(p0, p, done, at);
    hide MovedSoFar, Open, Carried, Injective, Marked;
    OpenStep(p0, done, i, at);
    CarriedStep(p0, m0, m, done, i, at);
    Grow(p0, m0, m, done, at);
  }

  lemma MarkedStep(p0: seq<nat>, p: seq<int>, done: set<nat>, at: nat)
    requires Marked(p, p0, done) && at < |p| && p[at] >= 0
    ensures at !in done && p[at] == p0[at] && Marked(p[at := -1], p0, done + {at})
  {}

  lemma Bounds(p0: seq<nat>, m0: Mat, m: Mat, done: set<nat>, i: nat, at: nat)
    requires MovedSoFar(p0, m0, m, done) && Open(p0, done, i, at)
    ensures i < |p0| && at < |p0| <= |m0| == |m|
  {}

  /** The inner loop: carries rows along the cycle through i, marking it visited. */
  method FollowCycle(d: array2<Octet>, p: array<int>, i: nat, ghost p0: seq<nat>, ghost m0: Mat, ghost done0: set<nat>)
    returns (ghost done: set<nat>)
    requires InCycle(p0, m0, p[..], RowsOf(d), done0, i, i)
    modifies d, p
    ensures Marked(p[..], p0, done) && MovedSoFar(p0, m0, RowsOf(d), done)
    ensures Closed(p0, done) && i in done && done0 <= done
    ensures forall x :: 0 <= x < |m0| && x !in done ==> RowsOf(d)[x] == m0[x]
  {
    done := done0;
    var at: nat := i;
    assert InCycle(p0, m0, p[..], RowsOf(d), done, i, at);
    assert i < |p0| && p.Length == |p0| <= d.Length0;
    hide InCycle, RowsOf;
    while p[at] >= 0
      invariant at < p.Length && done0 <= done
      invariant InCycle(p0, m0, p[..], RowsOf(d), done, i, at)
      decreases |p0| - |done|
    {
      CycleStep(p0, m0, p[..], RowsOf(d), done, i, at);
      OSwapRow(d, i, p[at]);
      var tmp := p[at];
      p[at] := -1;
      done := done + {at};
      at := tmp;
    }
    CycleEnd(p0, m0, p[..], RowsOf(d), done, i, at);
  }

  /**
   Follows each cycle of p, carrying the displaced row in the cycle's first place.  Visited
   entries of p are overwritten by -1.
   */
  method Permute(d: array2<Octet>, p: array<int>, n: nat)
    requires n == p.Length <= d.Length0
    requires forall x :: 0 <= x < n ==> 0 <= p[x] < n
    requires forall x, y :: 0 <= x < y < n ==> p[x] != p[y]
    modifies d, p
    ensures Moved(old(p[..]), old(RowsOf(d)), RowsOf(d))
  {
    ghost var p0: seq<nat> := p[..];
    ghost var m0 := RowsOf(d);
    ghost var done: set<nat> := {};
    assert Injective(p0);
    Start(p0, m0);
    hide MovedSoFar, Closed, InCycle, RowsOf;
    for i := 0 to n
      invariant Marked(p[..], p0, done) && MovedSoFar(p0, m0, RowsOf(d), done) && Closed(p0, done)
      invariant forall x :: 0 <= x < i ==> x in done
      invariant forall x :: 0 <= x < |m0| && x !in done ==> RowsOf(d)[x] == m0[x]
    {
      CycleStart(p0, m0, p[..], RowsOf(d), done, i);
      done := FollowCycle(d, p, i, p0, m0, done);
    }
    AllDone(p0, m0, RowsOf(d), done);
  }

  lemma Start(p: seq<nat>, m: Mat)
    requires |p| <= |m|
    ensures MovedSoFar(p, m, m, {}) && Closed(p, {})
  {}

  lemma CycleStart(p0: seq<nat>, m0: Mat, p: seq<int>, m: Mat, done: set<nat>, i: nat)
    requires Injective(p0) && Marked(p, p0, done) && MovedSoFar(p0, m0, m, done)
    requires Closed(p0, done) && i < |p0|
    requires forall x :: 0 <= x < |m| && x !in done ==> m[x] == m0[x]
    ensures InCycle(p0, m0, p, m, done, i, i)
  {}

  lemma Grow(p: seq<nat>, m0: Mat, m: Mat, done: set<nat>, at: nat)
    requires MovedSoFar(p, m0, m, done) && at < |p| && at !in done
    ensures |p| - |done| > |p| - |done + {at}| >= 0
  {
    SubsetOfRange(done + {at}, |p|);
  }

  lemma CycleEnd(p0: seq<nat>, m0: Mat, p: seq<int>, m: Mat, done: set<nat>, i: nat, at: nat)
    requires InCycle(p0, m0, p, m, done, i, at) && p[at] < 0
    ensures Marked(p, p0, done) && MovedSoFar(p0, m0, m, done)
    ensures Closed(p0, done) && i in done && |m0| == |m|
    ensures forall x :: 0 <= x < |m| && x !in done ==> m[x] == m0[x]
  {}

  lemma AllDone(p: seq<nat>, m0: Mat, m: Mat, done: set<nat>)
    requires MovedSoFar(p, m0, m, done) && forall x :: 0 <= x < |p| ==> x in done
    ensures Moved(p, m0, m)
  {}
}
