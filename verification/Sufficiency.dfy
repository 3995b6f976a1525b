/**
 Which sets of received symbols determine a source block, whatever order they came in: the system of
 section 5.4.2.1 of RFC 6330 has full rank (raptorq/nanorq.c, lines 560-606 and 638-672).
 */
module Sufficiency {
  import opened GF256
  import opened Tables
  import opened Linear
  import opened SpMat
  import opened Scheduling
  import opened Elimination
  import opened Hdpc
  import opened Rank
  import opened Bitmasks
  import opened Tuples
  import opened Generation
  import opened Symbols
  import opened Reception

  /** v is the symbol with internal id x. */
  ghost predicate IsSymbol(c: Mat, x: nat, v: Vec, pr: Params, rnd: Rnd, t: nat) {
    ValidParams(pr) && IsMat(c, pr.l, t) && Symbol(c, x, pr, rnd, t) == v
  }

  /** The internal id of encoding symbol esi. */
  function Isi(esi: nat, k: nat, pr: Params): nat
    requires k <= pr.kprime
  {
    if esi < k then esi else esi + (pr.kprime - k)
  }

  type SymbolMap = map<nat, Vec>

  /** All received symbols are encoding symbols of one code c, whose padding symbols are zero. */
  ghost predicate Genuine(c: Mat, pr: Params, rnd: Rnd, t: nat, k: nat, got: SymbolMap) {
    && ValidParams(pr) && k <= pr.kprime && Precoded(pr, rnd, c, t)
    && (forall i: nat :: k <= i < pr.kprime ==> IsSymbol(c, i, Zeros(t), pr, rnd, t))
    && (forall e :: e in got ==> IsSymbol(c, Isi(e, k, pr), got[e], pr, rnd, t))
  }

  /** For intermediate symbols x, all relations, the padding symbols and the symbols with numbers in ids are zero. */
  ghost predicate Vanishes(x: Mat, pr: Params, rnd: Rnd, k: nat, ids: set<nat>) {
    && ValidParams(pr) && k <= pr.kprime && Precoded(pr, rnd, x, 1)
    && (forall i: nat :: k <= i < pr.kprime ==> IsSymbol(x, i, Zeros(1), pr, rnd, 1))
    && (forall e :: e in ids ==> IsSymbol(x, Isi(e, k, pr), Zeros(1), pr, rnd, 1))
  }

  /** Symbols with these numbers do not determine a block of k: a code that is not zero makes all of them zero. */
  ghost predicate Ambiguous(pr: Params, rnd: Rnd, k: nat, ids: set<nat>) {
    exists x: Mat :: Vanishes(x, pr, rnd, k, ids) && Nonzero(x)
  }

  /**
   Symbols with these numbers are enough for a block of k: all source symbols are among them, or they determine the
   block.
   */
  ghost predicate Sufficient(pr: Params, rnd: Rnd, k: nat, ids: set<nat>) {
    (forall e :: 0 <= e < k ==> e in ids) || !Ambiguous(pr, rnd, k, ids)
  }

  lemma SizeOfSubset(a: set<nat>, b: set<nat>)
    requires a <= b
    ensures |a| <= |b|
  {
    assert b == a + (b - a);
  }

  /** More symbols never hurt. */
  lemma SufficientMore(pr: Params, rnd: Rnd, k: nat, ids: set<nat>, more: set<nat>)
    requires Sufficient(pr, rnd, k, ids) && ids <= more
    ensures Sufficient(pr, rnd, k, more)
  {
    hide IsSymbol, Precoded, ValidParams;
    forall x: Mat | Vanishes(x, pr, rnd, k, more) ensures Vanishes(x, pr, rnd, k, ids) {}
  }

  // ---------- several codes for the same symbols ----------

  /** A combination of the sums of two columns is the sum of the combinations. */
  lemma {:induction false} DotSum(a: Vec, c: Mat, p: nat, d: Mat, q: nat, x: Mat, r: nat, n: nat)
    requires n <= |a| && n <= |c| && n <= |d| && n <= |x|
    requires forall j :: 0 <= j < n ==> p < |c[j]| && q < |d[j]| && r < |x[j]| && x[j][r] == Add(c[j][p], d[j][q])
    ensures Dot(a, x, r, n) == Add(Dot(a, c, p, n), Dot(a, d, q, n))
    decreases n
  {
    hide Add, Mul;
    if n == 0 {
      AddZero(0);
    } else {
      DotSum(a, c, p, d, q, x, r, n - 1);
      var j := n - 1;
      MulAddRight(a[j], c[j][p], d[j][q]);
      AddSwap(Dot(a, c, p, j), Dot(a, d, q, j), Mul(a[j], c[j][p]), Mul(a[j], d[j][q]));
    }
  }

  lemma AddSwap(a: Octet, b: Octet, c: Octet, d: Octet)
    ensures Add(Add(a, b), Add(c, d)) == Add(Add(a, c), Add(b, d))
  {
    hide Add;
    AddAssoc(a, b, Add(c, d));
    AddAssoc(b, c, d);
    AddComm(b, c);
    AddAssoc(c, b, d);
    AddAssoc(a, c, Add(b, d));
  }

  /** x has in column r the sum of column p of c and column q of d. */
  ghost predicate Summed(c: Mat, p: nat, d: Mat, q: nat, x: Mat, r: nat, l: nat) {
    && |c| == |d| == |x| == l
    && forall j :: 0 <= j < l ==> p < |c[j]| && q < |d[j]| && r < |x[j]| && x[j][r] == Add(c[j][p], d[j][q])
  }

  /** Then relations and symbols are summed there as well. */
  lemma SummedSymbol(c: Mat, t: nat, p: nat, d: Mat, u: nat, q: nat, x: Mat, v: nat, r: nat, id: nat,
                     pr: Params, rnd: Rnd)
    requires ValidParams(pr) && IsMat(c, pr.l, t) && IsMat(d, pr.l, u) && IsMat(x, pr.l, v) && p < t && q < u && r < v
    requires Summed(c, p, d, q, x, r, pr.l)
    ensures Symbol(x, id, pr, rnd, v)[r] == Add(Symbol(c, id, pr, rnd, t)[p], Symbol(d, id, pr, rnd, u)[q])
  {
    hide Add, Dot, Sum, Neighbours, Indicator, ValidParams;
    NeighboursDistinct(id, pr, rnd);
    var xs := Neighbours(id, pr, rnd);
    SumIsDot(c, xs, t, p);
    SumIsDot(d, xs, u, q);
    SumIsDot(x, xs, v, r);
    DotSum(Indicator(xs, pr.l), c, p, d, q, x, r, pr.l);
  }

  lemma SummedPrecoded(c: Mat, t: nat, p: nat, d: Mat, u: nat, q: nat, x: Mat, r: nat, pr: Params, rnd: Rnd, row: nat)
    requires ValidParams(pr) && Precoded(pr, rnd, c, t) && Precoded(pr, rnd, d, u) && p < t && q < u
    requires Summed(c, p, d, q, x, r, pr.l) && row < pr.s + pr.h
    ensures Dot(Relation(pr, rnd, row), x, r, pr.l) == 0
  {
    hide Add, Dot, Relation, ValidParams;
    DotSum(Relation(pr, rnd, row), c, p, d, q, x, r, pr.l);
    AddZero(0);
  }

  /** Two different codes of the same symbols: their difference vanishes. */
  lemma DifferenceVanishes(c: Mat, d: Mat, pr: Params, rnd: Rnd, t: nat, k: nat, got: SymbolMap)
    requires Genuine(c, pr, rnd, t, k, got) && Genuine(d, pr, rnd, t, k, got) && c != d
    ensures Ambiguous(pr, rnd, k, got.Keys)
  {
    hide Add, Dot, Symbol, Relation, ValidParams;
    assert IsMat(c, pr.l, t) && IsMat(d, pr.l, t);
    var j, p := Different(c, d, pr.l, t);
    var x: Mat := seq(pr.l, i requires 0 <= i < pr.l => [Add(c[i][p], d[i][p])]);
    assert Summed(c, p, d, p, x, 0, pr.l);
    forall row | 0 <= row < pr.s + pr.h ensures Dot(Relation(pr, rnd, row), x, 0, pr.l) == 0 {
      SummedPrecoded(c, t, p, d, t, p, x, 0, pr, rnd, row);
    }
    forall i: nat | k <= i < pr.kprime ensures IsSymbol(x, i, Zeros(1), pr, rnd, 1) {
      SameSymbol(c, d, p, x, pr, rnd, t, i, Zeros(t));
    }
    forall e | e in got.Keys ensures IsSymbol(x, Isi(e, k, pr), Zeros(1), pr, rnd, 1) {
      SameSymbol(c, d, p, x, pr, rnd, t, Isi(e, k, pr), got[e]);
    }
    assert Vanishes(x, pr, rnd, k, got.Keys);
    if x[j] == [0] {
      AddCancel(c[j][p], d[j][p]);
    }
  }

  /** A symbol on which two codes agree is zero for their difference. */
  lemma SameSymbol(c: Mat, d: Mat, p: nat, x: Mat, pr: Params, rnd: Rnd, t: nat, id: nat, v: Vec)
    requires IsSymbol(c, id, v, pr, rnd, t) && IsSymbol(d, id, v, pr, rnd, t) && p < t
    requires IsMat(x, pr.l, 1) && Summed(c, p, d, p, x, 0, pr.l)
    ensures IsSymbol(x, id, Zeros(1), pr, rnd, 1)
  {
    hide Add, Symbol, ValidParams;
    SummedSymbol(c, t, p, d, t, p, x, 1, 0, id, pr, rnd);
    AddSelf(v[p]);
    assert Symbol(x, id, pr, rnd, 1) == [Symbol(x, id, pr, rnd, 1)[0]];
  }

  /** Adding a vector that vanishes to every column of a code gives another code of the same symbols. */
  lemma AnotherCode(c: Mat, pr: Params, rnd: Rnd, t: nat, k: nat, got: SymbolMap, x: Mat) returns (d: Mat)
    requires Genuine(c, pr, rnd, t, k, got) && t > 0 && Vanishes(x, pr, rnd, k, got.Keys) && Nonzero(x)
    ensures Genuine(d, pr, rnd, t, k, got) && d != c
  {
    hide Add, Dot, Symbol, Relation, ValidParams;
    assert IsMat(c, pr.l, t) && IsMat(x, pr.l, 1);
    d := seq(pr.l, i requires 0 <= i < pr.l => seq(t, p requires 0 <= p < t => Add(c[i][p], x[i][0])));
    forall row, p | 0 <= row < pr.s + pr.h && 0 <= p < t ensures Dot(Relation(pr, rnd, row), d, p, pr.l) == 0 {
      SummedPrecoded(c, t, p, x, 1, 0, d, p, pr, rnd, row);
    }
    forall i: nat | k <= i < pr.kprime ensures IsSymbol(d, i, Zeros(t), pr, rnd, t) {
      KeptSymbol(c, d, x, pr, rnd, t, i, Zeros(t));
    }
    forall e | e in got ensures IsSymbol(d, Isi(e, k, pr), got[e], pr, rnd, t) {
      assert e in got.Keys;
      KeptSymbol(c, d, x, pr, rnd, t, Isi(e, k, pr), got[e]);
    }
    var j :| 0 <= j < |x| && x[j] != [0];
    if d[j][0] == c[j][0] {
      AddComm(c[j][0], x[j][0]);
      AddCancel(x[j][0], c[j][0]);
      AddSelf(c[j][0]);
    }
  }

  /** A symbol that is zero for x is the same for c with x added. */
  lemma KeptSymbol(c: Mat, d: Mat, x: Mat, pr: Params, rnd: Rnd, t: nat, id: nat, v: Vec)
    requires IsSymbol(c, id, v, pr, rnd, t) && IsSymbol(x, id, Zeros(1), pr, rnd, 1) && IsMat(d, pr.l, t)
    requires forall p :: 0 <= p < t ==> Summed(c, p, x, 0, d, p, pr.l)
    ensures IsSymbol(d, id, v, pr, rnd, t)
  {
    hide Add, Symbol, ValidParams, Summed;
    forall p | 0 <= p < t ensures Symbol(d, id, pr, rnd, t)[p] == v[p] {
      SummedSymbol(c, t, p, x, 1, 0, d, t, p, id, pr, rnd);
      AddZero(v[p]);
    }
  }

  /**
   What received symbols leave ambiguous: given one code they come from, there is another one if and only if
   a nonzero code makes all of them zero.
   */
  lemma AmbiguousIff(c: Mat, pr: Params, rnd: Rnd, t: nat, k: nat, got: SymbolMap)
    requires Genuine(c, pr, rnd, t, k, got) && t > 0
    ensures Ambiguous(pr, rnd, k, got.Keys) <==> exists d: Mat :: Genuine(d, pr, rnd, t, k, got) && d != c
  {
    hide Genuine, Vanishes;
    if Ambiguous(pr, rnd, k, got.Keys) {
      var x: Mat :| Vanishes(x, pr, rnd, k, got.Keys) && Nonzero(x);
      var d := AnotherCode(c, pr, rnd, t, k, got, x);
    }
    if d: Mat :| Genuine(d, pr, rnd, t, k, got) && d != c {
      DifferenceVanishes(c, d, pr, rnd, t, k, got);
    }
  }

  lemma Different(c: Mat, d: Mat, l: nat, t: nat) returns (j: nat, p: nat)
    requires IsMat(c, l, t) && IsMat(d, l, t) && c != d
    ensures j < l && p < t && c[j][p] != d[j][p]
  {
    j :| 0 <= j < l && c[j] != d[j];
    p :| 0 <= p < t && c[j][p] != d[j][p];
  }

  // ---------- the system of a list of symbols ----------

  /** A vector is in the kernel of a system exactly if, as intermediate symbols, it makes every listed symbol zero. */
  lemma KernelMeaning(pr: Params, rnd: Rnd, ids: seq<nat>, x: Mat)
    requires ValidParams(pr) && IsMat(x, pr.l, 1)
    ensures Kernel(SystemMatrix(pr, rnd, ids), x, pr.l) <==>
      Precoded(pr, rnd, x, 1) && forall i :: 0 <= i < |ids| ==> Symbol(x, ids[i], pr, rnd, 1) == Zeros(1)
  {
    hide Dot, Symbol, Relation, ValidParams, Neighbours, SystemRow;
    var m, top := SystemMatrix(pr, rnd, ids), pr.s + pr.h;
    forall r | 0 <= r < top ensures m[r] == Relation(pr, rnd, r) {
      SystemTop(pr, rnd, ids, r);
    }
    forall i | 0 <= i < |ids| ensures Dot(m[top + i], x, 0, pr.l) == Symbol(x, ids[i], pr, rnd, 1)[0] {
      SystemSymbol(pr, rnd, ids, i, x);
    }
    if Precoded(pr, rnd, x, 1) && forall i :: 0 <= i < |ids| ==> Symbol(x, ids[i], pr, rnd, 1) == Zeros(1) {
      forall r | 0 <= r < |m| ensures Dot(m[r], x, 0, pr.l) == 0 {
        if r < top {
          assert Dot(Relation(pr, rnd, r), x, 0, pr.l) == 0;
        } else {
          var i := r - top;
          assert m[top + i] == m[r] && Symbol(x, ids[i], pr, rnd, 1) == Zeros(1);
        }
      }
    }
    if Kernel(m, x, pr.l) {
      forall r | 0 <= r < |m| ensures Dot(m[r], x, 0, pr.l) == 0 {
        assert ZeroMat(|m|, 1)[r][0] == Dot(m[r], x, 0, |x|);
      }
      forall i | 0 <= i < |ids| ensures Symbol(x, ids[i], pr, rnd, 1) == Zeros(1) {
        assert Symbol(x, ids[i], pr, rnd, 1) == [Symbol(x, ids[i], pr, rnd, 1)[0]];
      }
    }
  }

  lemma SystemTop(pr: Params, rnd: Rnd, ids: seq<nat>, r: nat)
    requires ValidParams(pr) && r < pr.s + pr.h
    ensures SystemMatrix(pr, rnd, ids)[r] == Relation(pr, rnd, r)
  {
    hide Relation, ValidParams, Neighbours;
  }

  lemma SystemLow(pr: Params, rnd: Rnd, ids: seq<nat>, i: nat)
    requires ValidParams(pr) && i < |ids|
    ensures SystemMatrix(pr, rnd, ids)[pr.s + pr.h + i] == Indicator(Neighbours(ids[i], pr, rnd), pr.l)
  {
    hide Relation, ValidParams, Neighbours, Indicator;
  }

  lemma SystemSymbol(pr: Params, rnd: Rnd, ids: seq<nat>, i: nat, x: Mat)
    requires ValidParams(pr) && i < |ids| && IsMat(x, pr.l, 1)
    ensures Dot(SystemMatrix(pr, rnd, ids)[pr.s + pr.h + i], x, 0, pr.l) == Symbol(x, ids[i], pr, rnd, 1)[0]
  {
    hide ValidParams, Neighbours, Dot, Sum, Indicator, SystemMatrix;
    SystemLow(pr, rnd, ids, i);
    NeighboursDistinct(ids[i], pr, rnd);
    SumIsDot(x, Neighbours(ids[i], pr, rnd), 1, 0);
  }

  // ---------- the symbols a repair works with ----------

  /** Every number missing below k has its turn: the j-th of them comes after j others. */
  lemma {:induction false} MissingHit(s: set<nat>, k: nat, j: nat) returns (i: nat)
    requires j < Missing(s, k)
    ensures i < k && i !in s && Missing(s, i) == j
    decreases k
  {
    if k - 1 !in s && Missing(s, k - 1) == j {
      i := k - 1;
    } else {
      i := MissingHit(s, k - 1, j);
    }
  }

  /** A merge of all numbers below n with extra numbers holds those received below k, those from k on, and all extra. */
  lemma MergeCovers(s: set<nat>, n: nat, extra: seq<nat>, k: nat)
    requires k <= n && Missing(s, k) <= |extra|
    ensures forall i :: 0 <= i < n && (i in s || i >= k) ==> i in Merge(s, Range(n), extra, k)
    ensures forall j :: 0 <= j < |extra| ==> extra[j] in Merge(s, Range(n), extra, k)
  {
    hide Missing;
    var m := Merge(s, Range(n), extra, k);
    forall i | 0 <= i < n && (i in s || i >= k) ensures i in m {
      assert m[i] == Range(n)[i];
    }
    forall j | 0 <= j < |extra| ensures extra[j] in m {
      if j < Missing(s, k) {
        var i := MissingHit(s, k, j);
        assert m[i] == extra[j];
      } else {
        assert m[n + j - Missing(s, k)] == extra[j];
      }
    }
  }

  /** And nothing else. */
  lemma MergeOnly(s: set<nat>, n: nat, extra: seq<nat>, k: nat, v: nat)
    requires k <= n && Missing(s, k) <= |extra| && v in Merge(s, Range(n), extra, k)
    ensures (v < n && (v in s || v >= k)) || v in extra
  {
    hide Missing;
    var m := Merge(s, Range(n), extra, k);
    var q :| 0 <= q < |m| && m[q] == v;
    if q < k && q !in s {
      MissingOrder(s, q, k);
    }
  }

  /** The numbers of the stored repair symbols. */
  ghost predicate RepairNumbers(bin: seq<RepairSymbol>, ids: set<nat>, k: nat) {
    && NoDup(IdsIn(bin, 0)) && (forall j :: 0 <= j < |bin| ==> bin[j].esi >= k && bin[j].esi in ids)
    && (forall e :: e in ids && e >= k ==> e in IdsIn(bin, 0))
  }

  lemma PaddedId(bin: seq<RepairSymbol>, e: nat, pad: nat)
    ensures e in IdsIn(bin, 0) <==> e + pad in IdsIn(bin, pad)
  {
    if e in IdsIn(bin, 0) {
      var j :| 0 <= j < |bin| && IdsIn(bin, 0)[j] == e;
      assert IdsIn(bin, pad)[j] == e + pad;
    }
    if e + pad in IdsIn(bin, pad) {
      var j :| 0 <= j < |bin| && IdsIn(bin, pad)[j] == e + pad;
      assert IdsIn(bin, 0)[j] == e;
    }
  }

  /** The system a repair solves has dependent columns exactly if the received symbols do not determine the block. */
  lemma DeficientIff(pr: Params, rnd: Rnd, k: nat, ids: set<nat>, bin: seq<RepairSymbol>)
    requires ValidParams(pr) && k <= pr.kprime && Missing(ids, k) <= |bin| && RepairNumbers(bin, ids, k)
    ensures Deficient(SystemMatrix(pr, rnd, Merge(ids, Range(pr.kprime), IdsIn(bin, pr.kprime - k), k)), pr.l)
       <==> Ambiguous(pr, rnd, k, ids)
  {
    hide ValidParams, Merge, SystemMatrix, Kernel, Vanishes, Missing, RepairNumbers;
    var all := Merge(ids, Range(pr.kprime), IdsIn(bin, pr.kprime - k), k);
    forall x: Mat ensures Kernel(SystemMatrix(pr, rnd, all), x, pr.l) <==> Vanishes(x, pr, rnd, k, ids) {
      KernelVanishes(pr, rnd, k, ids, bin, x);
    }
  }

  lemma KernelVanishes(pr: Params, rnd: Rnd, k: nat, ids: set<nat>, bin: seq<RepairSymbol>, x: Mat)
    requires ValidParams(pr) && k <= pr.kprime && Missing(ids, k) <= |bin| && RepairNumbers(bin, ids, k)
    ensures Kernel(SystemMatrix(pr, rnd, Merge(ids, Range(pr.kprime), IdsIn(bin, pr.kprime - k), k)), x, pr.l)
       <==> Vanishes(x, pr, rnd, k, ids)
  {
    hide ValidParams, Merge, Symbol, Precoded, Missing, SystemMatrix, Solves;
    var pad, extra := pr.kprime - k, IdsIn(bin, pr.kprime - k);
    var all := Merge(ids, Range(pr.kprime), extra, k);
    MergeCovers(ids, pr.kprime, extra, k);
    if IsMat(x, pr.l, 1) {
      KernelMeaning(pr, rnd, all, x);
      if Kernel(SystemMatrix(pr, rnd, all), x, pr.l) {
        forall v | v in all ensures IsSymbol(x, v, Zeros(1), pr, rnd, 1) {}
        forall e | e in ids ensures IsSymbol(x, Isi(e, k, pr), Zeros(1), pr, rnd, 1) {
          PaddedId(bin, e, pad);
        }
      }
      if Vanishes(x, pr, rnd, k, ids) {
        forall i | 0 <= i < |all| ensures Symbol(x, all[i], pr, rnd, 1) == Zeros(1) {
          var v := all[i];
          MergeOnly(ids, pr.kprime, extra, k, v);
          assert IsSymbol(x, v, Zeros(1), pr, rnd, 1) by {
            if v in extra {
              var j :| 0 <= j < |bin| && extra[j] == v;
              assert Isi(bin[j].esi, k, pr) == v && bin[j].esi in ids;
            } else if v < k {
              assert Isi(v, k, pr) == v;
            }
          }
        }
      }
    } else {
      PrecodedShape(pr, rnd, x);
    }
  }

  lemma PrecodedShape(pr: Params, rnd: Rnd, x: Mat)
    requires ValidParams(pr)
    ensures Precoded(pr, rnd, x, 1) ==> IsMat(x, pr.l, 1)
  {}

  // ---------- counting ----------

  ghost function Entries(xs: seq<nat>): (s: set<nat>) {
    set x | x in xs
  }

  lemma {:induction false} EntriesSize(xs: seq<nat>)
    requires NoDup(xs)
    ensures |Entries(xs)| == |xs|
    decreases |xs|
  {
    if xs != [] {
      var init, y := xs[..|xs| - 1], xs[|xs| - 1];
      EntriesSize(init);
      assert xs == init + [y];
      assert y !in Entries(init) && Entries(xs) == Entries(init) + {y};
    }
  }

  /** The numbers below k in s, and how many they are. */
  lemma {:induction false} BelowSize(s: set<nat>, k: nat)
    ensures |set e | e in s && e < k| == k - Missing(s, k)
    decreases k
  {
    if k != 0 {
      BelowSize(s, k - 1);
      var a, b := (set e | e in s && e < k - 1), (set e | e in s && e < k);
      assert b == if k - 1 in s then a + {k - 1} else a;
    } else {
      assert (set e | e in s && e < k) == {};
    }
  }

  /** Received symbols are k less the missing ones, and the repair symbols. */
  lemma ReceivedSize(s: set<nat>, k: nat, bin: seq<RepairSymbol>)
    requires RepairNumbers(bin, s, k)
    ensures |s| == k - Missing(s, k) + |bin|
  {
    hide Missing;
    BelowSize(s, k);
    EntriesSize(IdsIn(bin, 0));
    var a, b := (set e | e in s && e < k), Entries(IdsIn(bin, 0));
    forall e ensures e in s <==> e in a || e in b {
      if e in b {
        var j :| 0 <= j < |bin| && IdsIn(bin, 0)[j] == e;
        assert bin[j].esi == e;
      }
    }
    assert forall e :: e in b ==> e >= k;
    assert s == a + b && a !! b;
  }

  // ---------- how many symbols it takes ----------

  lemma {:induction false} ListOf(s: set<nat>) returns (xs: seq<nat>)
    ensures |xs| == |s| && forall e :: e in s <==> e in xs
    decreases |s|
  {
    xs := [];
    if s != {} {
      var e :| e in s;
      xs := ListOf(s - {e});
      xs := xs + [e];
    }
  }

  /** The internal ids of the padding symbols and of the symbols listed. */
  function Listed(xs: seq<nat>, k: nat, pr: Params): (r: seq<nat>)
    requires k <= pr.kprime
    ensures |r| == pr.kprime - k + |xs|
    ensures forall i :: 0 <= i < pr.kprime - k ==> r[i] == k + i
    ensures forall j :: 0 <= j < |xs| ==> r[pr.kprime - k + j] == Isi(xs[j], k, pr)
  {
    Shift(Range(pr.kprime - k), k) + seq(|xs|, j requires 0 <= j < |xs| => Isi(xs[j], k, pr))
  }

  /** Fewer than k symbols never determine a block of k. */
  lemma FewAmbiguous(pr: Params, rnd: Rnd, k: nat, ids: set<nat>)
    requires ValidParams(pr) && k <= pr.kprime && |ids| < k
    ensures Ambiguous(pr, rnd, k, ids)
  {
    hide ValidParams, Symbol, Precoded, SystemMatrix, Isi, Kernel;
    var xs := ListOf(ids);
    var all := Listed(xs, k, pr);
    SomeParams(pr);
    FewRowsDeficient(SystemMatrix(pr, rnd, all), pr.l);
    var x :| Kernel(SystemMatrix(pr, rnd, all), x, pr.l) && Nonzero(x);
    KernelShape(SystemMatrix(pr, rnd, all), x, pr.l);
    KernelMeaning(pr, rnd, all, x);
    forall i: nat | k <= i < pr.kprime ensures IsSymbol(x, i, Zeros(1), pr, rnd, 1) {
      assert all[i - k] == i;
    }
    forall e | e in ids ensures IsSymbol(x, Isi(e, k, pr), Zeros(1), pr, rnd, 1) {
      var j :| 0 <= j < |xs| && xs[j] == e;
      assert all[pr.kprime - k + j] == Isi(e, k, pr);
    }
    assert Vanishes(x, pr, rnd, k, ids);
  }

  lemma KernelShape(a: Mat, x: Mat, l: nat)
    requires Kernel(a, x, l)
    ensures IsMat(x, l, 1)
  {}

  /** So a sufficient set has at least k symbols. */
  lemma AtLeastK(pr: Params, rnd: Rnd, k: nat, ids: set<nat>)
    requires ValidParams(pr) && k <= pr.kprime && Sufficient(pr, rnd, k, ids)
    ensures |ids| >= k
  {
    hide ValidParams, Ambiguous;
    if forall e :: 0 <= e < k ==> e in ids {
      ColumnsSize(k);
      SizeOfSubset(Columns(k), ids);
    } else if |ids| < k {
      FewAmbiguous(pr, rnd, k, ids);
    }
  }

  /** Every internal number belongs to one symbol: source, padding and repair symbols, without gap or overlap. */
  lemma IsiCovers(k: nat, pr: Params, x: nat)
    requires k <= pr.kprime
    ensures (exists e: nat :: Isi(e, k, pr) == x) <==> !(k <= x < pr.kprime)
    ensures forall e: nat, f: nat :: e < f ==> Isi(e, k, pr) < Isi(f, k, pr)
    ensures x < k ==> Isi(x, k, pr) == x
  {
    if x < k {
      assert Isi(x, k, pr) == x;
    } else if x >= pr.kprime {
      assert Isi(x - (pr.kprime - k), k, pr) == x;
    }
  }

  /** Short of repair symbols, or an undetermined system: the received symbols are not enough. */
  lemma ShortIff(pr: Params, rnd: Rnd, k: nat, s: set<nat>, bin: seq<RepairSymbol>)
    requires ValidParams(pr) && k <= pr.kprime && Missing(s, k) > 0 && RepairNumbers(bin, s, k)
    ensures Missing(s, k) > |bin|
        || Deficient(SystemMatrix(pr, rnd, Merge(s, Range(pr.kprime), IdsIn(bin, pr.kprime - k), k)), pr.l)
       <==> !Sufficient(pr, rnd, k, s)
  {
    hide Missing, ValidParams, RepairNumbers, Merge, SystemMatrix, Deficient, Ambiguous;
    NoneMissing(s, k);
    ReceivedSize(s, k, bin);
    if Missing(s, k) <= |bin| {
      DeficientIff(pr, rnd, k, s, bin);
    } else {
      FewAmbiguous(pr, rnd, k, s);
    }
  }
}
