/** Sparse binary matrices as per-row index lists: raptorq/spmat.c. */
module SpMat {

  type Lists = seq<seq<nat>>

  ghost predicate NoDup(xs: seq<nat>) {
    forall j, k :: 0 <= j < k < |xs| ==> xs[j] != xs[k]
  }

  ghost predicate Below(xs: seq<nat>, n: nat) {
    forall k :: 0 <= k < |xs| ==> xs[k] < n
  }

  /** Every row lists distinct columns below cols. */
  ghost predicate WellFormed(a: Lists, cols: nat) {
    forall r :: 0 <= r < |a| ==> Below(a[r], cols) && NoDup(a[r])
  }

  /** b lists, for each column, the rows that list it. */
  ghost predicate Transposed(a: Lists, b: Lists) {
    && WellFormed(b, |a|)
    && (forall r :: 0 <= r < |a| ==> Below(a[r], |b|))
    && (forall r, j :: 0 <= r < |a| && 0 <= j < |b| ==> (r in b[j] <==> j in a[r]))
  }

  /** How many entries lie in [lo, hi). */
  function Count(xs: seq<nat>, lo: nat, hi: nat): nat {
    if xs == [] then 0
    else Count(xs[..|xs| - 1], lo, hi) + (if lo <= xs[|xs| - 1] < hi then 1 else 0)
  }

  lemma {:induction false} CountZero(xs: seq<nat>, lo: nat, hi: nat)
    ensures Count(xs, lo, hi) == 0 <==> forall k :: 0 <= k < |xs| ==> !(lo <= xs[k] < hi)
  {
    if xs != [] {
      CountZero(xs[..|xs| - 1], lo, hi);
    }
  }

  /** Lists that agree on which places hold entries in range have equal counts. */
  lemma {:induction false} CountAgree(xs: seq<nat>, ys: seq<nat>, lo: nat, hi: nat)
    requires |xs| == |ys|
    requires forall k :: 0 <= k < |xs| ==> (lo <= xs[k] < hi <==> lo <= ys[k] < hi)
    ensures Count(xs, lo, hi) == Count(ys, lo, hi)
  {
    if xs != [] {
      CountAgree(xs[..|xs| - 1], ys[..|ys| - 1], lo, hi);
    }
  }

  lemma {:induction false} CountSplit(xs: seq<nat>, lo: nat, mid: nat, hi: nat)
    requires lo <= mid <= hi
    ensures Count(xs, lo, hi) == Count(xs, lo, mid) + Count(xs, mid, hi)
  {
    if xs != [] {
      CountSplit(xs[..|xs| - 1], lo, mid, hi);
    }
  }

  /** Among distinct entries, a single value occurs once or not at all. */
  lemma {:induction false} CountOne(xs: seq<nat>, v: nat)
    requires NoDup(xs)
    ensures Count(xs, v, v + 1) == if v in xs then 1 else 0
  {
    if xs != [] {
      var init := xs[..|xs| - 1];
      CountOne(init, v);
      assert v in xs <==> v in init || v == xs[|xs| - 1];
    }
  }

  lemma {:induction false} CountPrefix(xs: seq<nat>, n: nat, lo: nat, hi: nat)
    requires n <= |xs|
    ensures Count(xs[..n], lo, hi) <= Count(xs, lo, hi)
    ensures Count(xs[..n], lo, hi) == Count(xs, lo, hi) ==> forall k :: n <= k < |xs| ==> !(lo <= xs[k] < hi)
    decreases |xs| - n
  {
    if n == |xs| {
      assert xs[..n] == xs;
    } else {
      CountPrefix(xs, n + 1, lo, hi);
      assert xs[..n + 1][..n] == xs[..n];
    }
  }

  function Without(xs: seq<nat>, k: nat): seq<nat>
    requires k < |xs|
  {
    xs[..k] + xs[k + 1..]
  }

  lemma WithoutHas(xs: seq<nat>, k: nat, v: nat)
    requires k < |xs| && v in xs && v != xs[k]
    ensures v in Without(xs, k)
  {
    var j :| 0 <= j < |xs| && xs[j] == v;
    assert Without(xs, k)[if j < k then j else j - 1] == v;
  }

  /** Distinct numbers below n: at most n of them, and all of them if there are n. */
  lemma {:induction false} Pigeonhole(xs: seq<nat>, n: nat)
    requires NoDup(xs) && Below(xs, n)
    ensures |xs| <= n
    ensures |xs| == n ==> forall v :: 0 <= v < n ==> v in xs
  {
    assert |xs| > 0 ==> xs[0] < n;
    if n != 0 {
      if n - 1 in xs {
        var k :| 0 <= k < |xs| && xs[k] == n - 1;
        Pigeonhole(Without(xs, k), n - 1);
        forall v | 0 <= v < n && |xs| == n ensures v in xs {
          assert v == n - 1 || v in Without(xs, k);
        }
      } else {
        Pigeonhole(xs, n - 1);
      }
    }
  }

  /** A list of all numbers below n has at least n entries. */
  lemma {:induction false} Covering(xs: seq<nat>, n: nat)
    requires forall v :: 0 <= v < n ==> v in xs
    ensures |xs| >= n
  {
    if n != 0 {
      assert n - 1 in xs;
      var k :| 0 <= k < |xs| && xs[k] == n - 1;
      forall v | 0 <= v < n - 1 ensures v in Without(xs, k) {
        WithoutHas(xs, k, v);
      }
      Covering(Without(xs, k), n - 1);
    }
  }

  class Sparse {
    const cols: nat
    const idxs: array<seq<nat>>

    constructor (rows: nat, cols: nat)
      ensures this.cols == cols && idxs.Length == rows && fresh(idxs)
      ensures forall r :: 0 <= r < rows ==> idxs[r] == []
    {
      this.cols := cols;
      this.idxs := new seq<nat>[rows](_ => []);
    }

    method Push(i: nat, j: nat)
      requires i < idxs.Length
      modifies idxs
      ensures idxs[..] == old(idxs[..])[i := old(idxs[i]) + [j]]
    {
      idxs[i] := idxs[i] + [j];
    }

    method ClearRow(i: nat)
      requires i < idxs.Length
      modifies idxs
      ensures idxs[..] == old(idxs[..])[i := []]
    {
      idxs[i] := [];
    }

    method Transpose() returns (t: Sparse)
      requires WellFormed(idxs[..], cols)
      ensures fresh(t) && fresh(t.idxs) && t.cols == idxs.Length && t.idxs.Length == cols
      ensures Transposed(idxs[..], t.idxs[..])
    {
      t := new Sparse(cols, idxs.Length);
      assert Partial(idxs[..], t.idxs[..], 0, 0);
      ghost var a := idxs[..];
      hide Partial;
      for i := 0 to idxs.Length
        invariant idxs[..] == a
        invariant t.idxs.Length == cols && Partial(a, t.idxs[..], i, 0)
      {
        for it := 0 to |idxs[i]|
          invariant idxs[..] == a
          invariant t.idxs.Length == cols && Partial(a, t.idxs[..], i, it)
        {
          PartialStep(a, t.idxs[..], i, it, cols);
          t.Push(idxs[i][it], i);
        }
        PartialRow(a, t.idxs[..], i);
      }
      PartialDone(a, t.idxs[..]);
    }

    /** The number of entries of a row in the column range [start, end). */
    method Nnz(row: nat, start: nat, end: nat) returns (nz: nat)
      requires row < idxs.Length
      ensures nz == Count(idxs[row], start, end)
    {
      nz := 0;
      var rs := idxs[row];
      for it := 0 to |rs|
        invariant nz == Count(rs[..it], start, end)
      {
        var col := rs[it];
        assert rs[..it + 1][..it] == rs[..it];
        if col >= start && col < end {
          nz := nz + 1;
        }
      }
      assert rs[..|rs|] == rs;
    }
  }

  /** Transposition progress: rows before i and the first `it` entries of row i are in b. */
  ghost predicate Partial(a: Lists, b: Lists, i: nat, it: nat) {
    && (forall j :: 0 <= j < |b| ==> Below(b[j], |a|) && NoDup(b[j]))
    && (forall j, r :: 0 <= j < |b| && r in b[j] ==> r <= i)
    && (forall j, r :: 0 <= j < |b| && 0 <= r < i && r < |a| ==> (r in b[j] <==> j in a[r]))
    && (i < |a| ==> it <= |a[i]| && forall j :: 0 <= j < |b| ==> (i in b[j] <==> j in a[i][..it]))
    && (i >= |a| ==> forall j :: 0 <= j < |b| ==> i !in b[j])
  }

  lemma PartialStep(a: Lists, b: Lists, i: nat, it: nat, cols: nat)
    requires WellFormed(a, cols) && |b| == cols && i < |a| && it < |a[i]| && Partial(a, b, i, it)
    ensures Partial(a, b[a[i][it] := b[a[i][it]] + [i]], i, it + 1)
  {
    var x := a[i][it];
    var b' := b[x := b[x] + [i]];
    assert Below(a[i], cols) && NoDup(a[i]);
    assert x !in a[i][..it];
    assert i !in b[x];
    assert NoDup(b'[x]);
    assert a[i][..it + 1] == a[i][..it] + [x];
  }

  lemma PartialRow(a: Lists, b: Lists, i: nat)
    requires i < |a| && Partial(a, b, i, |a[i]|)
    ensures Partial(a, b, i + 1, 0)
  {
    assert a[i][..|a[i]|] == a[i];
  }

  lemma PartialDone(a: Lists, b: Lists)
    requires Partial(a, b, |a|, 0) && WellFormed(a, |b|)
    ensures Transposed(a, b)
  {}
}
