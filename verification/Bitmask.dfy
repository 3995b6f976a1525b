/** The mask of received symbols: a growing vector of 32-bit words (raptorq/bitmask.c). */
module Bitmasks {
  import opened Bits

  type Word = x: nat | x < 0x1_0000_0000

  const IDXBITS: nat := 32

  // ---------- digits of a word ----------

  /** The number of zeros among the first n digits. */
  function ZeroBits(a: nat, n: nat): nat
    decreases n
  {
    if n == 0 then 0 else (if Odd(a) then 0 else 1) + ZeroBits(Half(a), n - 1)
  }

  lemma {:induction false} ZerosLast(a: nat, n: nat)
    ensures ZeroBits(a, n + 1) == ZeroBits(a, n) + (if Bit(a, n) then 0 else 1)
    decreases n
  {
    if n != 0 {
      ZerosLast(Half(a), n - 1);
    }
  }

  lemma {:induction false} PopCountNot(a: nat, n: nat)
    requires a < Pow2(n)
    ensures PopCount(Not(a, n)) == ZeroBits(a, n)
    decreases n
  {
    if n != 0 {
      assert Half(a) < Pow2(n - 1);
      PopCountNot(Half(a), n - 1);
      assert Half(Not(a, n)) == Not(Half(a), n - 1) && Odd(Not(a, n)) == !Odd(a);
    }
  }

  /** 2^m - 1 has exactly the first m digits set. */
  lemma {:induction false} BitLowMask(m: nat, k: nat)
    ensures Bit(Pow2(m) - 1, k) <==> k < m
    decreases m
  {
    if m == 0 {
      BitZero(k);
    } else {
      assert Half(Pow2(m) - 1) == Pow2(m - 1) - 1 && Odd(Pow2(m) - 1);
      if k != 0 {
        BitLowMask(m - 1, k - 1);
      }
    }
  }

  /** Up to digit n, b is a with every digit from m on set. */
  ghost predicate SetFrom(a: nat, b: nat, m: nat, n: nat) {
    forall k: nat :: k < n ==> (Bit(b, k) <==> k >= m || Bit(a, k))
  }

  lemma {:induction false} ZerosMasked(a: nat, b: nat, m: nat, n: nat)
    requires m <= n && SetFrom(a, b, m, n)
    ensures ZeroBits(b, n) == ZeroBits(a, m)
    decreases n
  {
    if n != 0 {
      ZerosLast(b, n - 1);
      assert Bit(b, n - 1) <==> n - 1 >= m || Bit(a, n - 1);
      if n == m {
        ZerosLast(a, m - 1);
        ZerosMasked(a, b, m - 1, n - 1);
      } else {
        ZerosMasked(a, b, m, n - 1);
      }
    }
  }

  lemma {:induction false} AndPow2(a: nat, k: nat)
    ensures And(a, Pow2(k)) != 0 <==> Bit(a, k)
    decreases k
  {
    if k == 0 {
      AndZero(Half(a));
    } else {
      AndPow2(Half(a), k - 1);
      AndDigits(a, Pow2(k));
      assert Half(Pow2(k)) == Pow2(k - 1);
    }
  }

  // ---------- the set of a mask ----------

  ghost predicate Has(words: seq<Word>, id: nat) {
    id / IDXBITS < |words| && Bit(words[id / IDXBITS], id % IDXBITS)
  }

  ghost function Ids(words: seq<Word>): (s: set<nat>)
    ensures forall id: nat :: id in s <==> Has(words, id)
  {
    set id: nat | id < IDXBITS * |words| && Has(words, id)
  }

  /** How many numbers below n are not in s. */
  ghost function Missing(s: set<nat>, n: nat): (m: nat)
    ensures m <= n
  {
    if n == 0 then 0 else Missing(s, n - 1) + (if n - 1 in s then 0 else 1)
  }

  lemma {:induction false} NoneMissing(s: set<nat>, n: nat)
    ensures Missing(s, n) == 0 <==> forall k: nat :: k < n ==> k in s
  {
    if n != 0 {
      NoneMissing(s, n - 1);
    }
  }

  /** Adding a number below n that was not there leaves one fewer missing; any other number changes nothing. */
  lemma {:induction false} MissingAdd(s: set<nat>, n: nat, x: nat)
    ensures Missing(s + {x}, n) == Missing(s, n) - (if x < n && x !in s then 1 else 0)
  {
    if n != 0 {
      MissingAdd(s, n - 1, x);
    }
  }

  lemma {:induction false} MissingWords(words: seq<Word>, idx: nat, k: nat)
    requires k <= IDXBITS && (k > 0 ==> idx < |words|)
    ensures Missing(Ids(words), IDXBITS * idx + k)
         == Missing(Ids(words), IDXBITS * idx) + if k > 0 then ZeroBits(words[idx], k) else 0
    decreases k
  {
    if k != 0 {
      MissingWords(words, idx, k - 1);
      ZerosLast(words[idx], k - 1);
      var id := IDXBITS * idx + k - 1;
      assert id / IDXBITS == idx && id % IDXBITS == k - 1;
    }
  }

  /** Words and digits set by bitmask_set. */
  lemma SetAdds(words: seq<Word>, words': seq<Word>, id: nat)
    requires |words| <= |words'| && id / IDXBITS < |words'|
    requires forall j :: 0 <= j < |words'| && j != id / IDXBITS ==> words'[j] == if j < |words| then words[j] else 0
    requires words'[id / IDXBITS] == Or(if id / IDXBITS < |words| then words[id / IDXBITS] else 0, Pow2(id % IDXBITS))
    ensures Ids(words') == Ids(words) + {id}
  {
    forall x: nat ensures Has(words', x) <==> Has(words, x) || x == id {
      var j, k := x / IDXBITS, x % IDXBITS;
      if j == id / IDXBITS {
        BitOr(if j < |words| then words[j] else 0, Pow2(id % IDXBITS), k);
        BitPow2(id % IDXBITS, k);
        BitZero(k);
        assert k == id % IDXBITS <==> x == id;
      } else if j >= |words| {
        BitZero(k);
      }
    }
  }

  class Bitmask {
    var words: seq<Word>

    ghost function Contents(): set<nat>
      reads this
    {
      Ids(words)
    }

    constructor (initialSize: nat)
      ensures Contents() == {} && initialSize / IDXBITS < |words|
    {
      var maxIdx := initialSize / IDXBITS + 1;
      words := [];
      new;
      while maxIdx >= |words|
        invariant |words| <= maxIdx + 1 && forall j :: 0 <= j < |words| ==> words[j] == 0
        decreases maxIdx + 1 - |words|
      {
        words := words + [0];
      }
      forall x: nat ensures x !in Contents() {
        BitZero(x % IDXBITS);
      }
    }

    /** bitmask_set. */
    method Set(id: nat)
      modifies this
      ensures Contents() == old(Contents()) + {id} && |words| >= old(|words|)
    {
      ghost var before := words;
      var idx := id / IDXBITS;
      while idx >= |words|
        invariant |before| <= |words| && (|words| <= idx + 1 || words == before)
        invariant forall j :: 0 <= j < |words| ==> words[j] == if j < |before| then before[j] else 0
        decreases idx + 1 - |words|
      {
        words := words + [0];
      }
      WordOr(words[idx], id % IDXBITS);
      words := words[idx := Or(words[idx], Pow2(id % IDXBITS))];
      SetAdds(before, words, id);
    }

    /** bitmask_check. */
    method Check(id: nat) returns (r: bool)
      ensures r <==> id in Contents()
    {
      var idx := id / IDXBITS;
      if idx >= |words| {
        return false;
      }
      AndPow2(words[idx], id % IDXBITS);
      return And(words[idx], Pow2(id % IDXBITS)) != 0;
    }

    /**
     bitmask_gaps.  Its last, partial word is read without a bounds check, so the mask must reach
     that far; whole words past the end of the mask are not counted.
     */
    method Gaps(until: nat) returns (gaps: nat)
      requires until % IDXBITS != 0 ==> until / IDXBITS < |words|
      ensures gaps == Missing(Contents(), if until / IDXBITS > |words| then IDXBITS * |words| else until)
    {
      hide Missing, Ids, PopCount, ZeroBits, Pow2, Not, PartialGaps;
      gaps := 0;
      var untilIdx := until / IDXBITS;
      if untilIdx > |words| {
        untilIdx := |words|;
      }
      Pow32();
      for idx := 0 to untilIdx
        invariant gaps == Missing(Contents(), IDXBITS * idx)
      {
        gaps := gaps + PopCount(Not(words[idx], 32));
        PopCountNot(words[idx], 32);
        MissingWords(words, idx, 32);
      }
      if until % IDXBITS != 0 {
        gaps := gaps + PartialGaps(words[untilIdx], until % IDXBITS);
        MissingWords(words, untilIdx, until % IDXBITS);
      }
    }

    /** bitmask_reset. */
    method Reset()
      modifies this
      ensures Contents() == {} && |words| == old(|words|)
    {
      for idx := 0 to |words|
        invariant |words| == old(|words|) && forall j :: 0 <= j < idx ==> words[j] == 0
      {
        words := words[idx := 0];
      }
      forall x: nat ensures x !in Contents() {
        BitZero(x % IDXBITS);
      }
    }
  }

  lemma WordOr(w: Word, k: nat)
    requires k < 32
    ensures Or(w, Pow2(k)) < 0x1_0000_0000
  {
    Pow32();
    Pow2Monotone(k + 1, 32);
    OrBound(w, Pow2(k), 32);
  }

  /** The zeros among the first m digits, counted by setting the others first. */
  function PartialGaps(w: Word, m: nat): (g: nat)
    requires 0 < m < 32
    ensures g == ZeroBits(w, m)
  {
    hide SetFrom, Or, PopCount, ZeroBits;
    Pow32();
    Pow2Monotone(m, 32);
    var mask := Not(Pow2(m) - 1, 32);
    OrBound(w, mask, 32);
    var target := Or(w, mask);
    PopCountNot(target, 32);
    MaskedDigits(w, m);
    ZerosMasked(w, target, m, 32);
    PopCount(Not(target, 32))
  }

  lemma MaskedDigits(w: Word, m: nat)
    requires 0 < m < 32 && Pow2(m) - 1 < Pow2(32)
    ensures SetFrom(w, Or(w, Not(Pow2(m) - 1, 32)), m, 32)
  {
    hide Or, Not, Bit;
    var mask := Not(Pow2(m) - 1, 32);
    forall k: nat | k < 32 ensures Bit(Or(w, mask), k) <==> k >= m || Bit(w, k) {
      BitOr(w, mask, k);
      BitNot(Pow2(m) - 1, 32, k);
      BitLowMask(m, k);
    }
  }
}
