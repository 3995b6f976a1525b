/**
 The parameters of a transfer: how the encoder chooses the number of source blocks, how it packs
 the parameters, and what a decoder makes of them (raptorq/nanorq.c, lines 60-81, 241-292 and
 318-415; daemon.c, lines 346-365).
 */
module TransferInfo {
  import opened Bits
  import opened GF256
  import opened Primes
  import opened Layout
  import opened Transfer

  // ---------- choosing the number of source blocks ----------

  lemma CeilLeast(a: nat, b: nat, c: nat)
    requires b > 0 && a <= b * c
    ensures DivCeil(a, b) <= c
  {
    var q := a / b;
    assert a == q * b + a % b;
    assert b * c == c * b;
    if a % b != 0 && q >= c {
      MulOrder(c, q, b);
    } else if a % b == 0 && q > c {
      MulOrder(c + 1, q, b);
    }
  }

  lemma CeilPositive(a: nat, b: nat)
    requires a > 0 && b > 0
    ensures DivCeil(a, b) > 0
  {
    CeilTimes(a, b);
  }

  /** Cutting kt symbols into blocks of at most DivCeil(kt, z) needs at most z blocks, none empty. */
  lemma Blocking(kt: nat, z: nat)
    requires kt > 0 && z > 0
    ensures DivCeil(kt, z) > 0
    ensures var z' := DivCeil(kt, DivCeil(kt, z)); 0 < z' <= z && z' <= kt && DivCeil(kt, z') <= DivCeil(kt, z)
  {
    CeilPositive(kt, z);
    var kn := DivCeil(kt, z);
    var z' := DivCeil(kt, kn);
    CeilTimes(kt, z);
    CeilLeast(kt, kn, z);
    CeilPositive(kt, kn);
    CeilTimes(kt, kn);
    CeilLeast(kt, z', kn);
    MulOrder(1, kn, kt);
    CeilLeast(kt, kn, kt);
  }

  /** The search for the number of blocks when neither K nor Z is asked for. */
  method CountBlocks(kt: nat) returns (z: nat)
    requires kt > 0
    ensures LeastBlocks(kt, z) && z >= 16
  {
    hide DivCeil;
    z := 16;
    while DivCeil(kt, z) > MAX_SYMBOLS
      invariant z >= 16 && forall y :: 16 <= y < z ==> DivCeil(kt, y) > MAX_SYMBOLS
      decreases kt - z
    {
      GrowsAway(kt, z);
      z := z + 1;
    }
  }

  /** n is the least number of groups of at most `size` that hold kt things. */
  ghost predicate Covers(kt: nat, size: nat, n: nat) {
    n * size >= kt && forall y: nat :: y * size >= kt ==> n <= y
  }

  /** The blocks are as many as it takes if none has more symbols than z blocks need. */
  ghost predicate Asked(kt: nat, z: nat, blocks: nat) {
    exists kn: nat :: Covers(kt, z, kn) && Covers(kt, kn, blocks)
  }

  /** Rounding up is the least number of groups. */
  lemma CeilCovers(kt: nat, size: nat)
    requires size > 0
    ensures Covers(kt, size, DivCeil(kt, size))
  {
    hide DivCeil;
    CeilTimes(kt, size);
    forall y: nat | y * size >= kt ensures DivCeil(kt, size) <= y {
      assert y * size == size * y;
      CeilLeast(kt, size, y);
    }
  }

  /** There is only one such number. */
  lemma CoversUnique(kt: nat, size: nat, n: nat)
    requires size > 0 && Covers(kt, size, n)
    ensures n == DivCeil(kt, size)
  {
    hide DivCeil;
    CeilCovers(kt, size);
  }

  /** Up to 16 blocks of K_max symbols, 16 blocks are asked for. */
  lemma AsksSixteen(kt: nat)
    ensures LeastBlocks(kt, 16) <==> kt <= 16 * 56403
  {}

  /** gen_scheme_specific: the number of source blocks for K symbols a block, or for Z blocks, or for neither. */
  method GenScheme(kt: nat, k: nat, z: nat) returns (blocks: nat, ghost asked: nat)
    requires kt > 0
    ensures k > 0 ==> Covers(kt, k, blocks)
    ensures k == 0 ==> 0 < asked && if z > 0 then asked == z else LeastBlocks(kt, asked)
    ensures k == 0 ==> Asked(kt, asked, blocks)
  {
    hide DivCeil, LeastBlocks, Covers;
    var kn, z := k, z;
    if k == 0 {
      kn := kt;
      if z == 0 {
        z := CountBlocks(kt);
      }
    }
    if z > 0 && k == 0 {
      Blocking(kt, z);
      kn := DivCeil(kt, z);
      assert kt * z >= kt by { MulOrder(1, z, kt); }
      CeilCovers(kt, z);
    }
    CeilCovers(kt, kn);
    blocks, asked := DivCeil(kt, kn), z;
  }

  lemma GrowsAway(kt: nat, z: nat)
    requires z > 0 && DivCeil(kt, z) > MAX_SYMBOLS
    ensures kt > z
  {
    if kt <= z {
      assert z * 1 == z;
      CeilLeast(kt, z, 1);
    }
  }

  /** z is the least number from 16 on that makes no block too large. */
  ghost predicate LeastBlocks(kt: nat, z: nat) {
    z >= 16 && DivCeil(kt, z) <= MAX_SYMBOLS && forall y :: 16 <= y < z ==> DivCeil(kt, y) > MAX_SYMBOLS
  }

  /** Every block has a symbol and none has more than the table of section 5.6 of RFC 6330 allows. */
  ghost predicate GoodBlocks(sh: Shape)
    requires sh.t > 0
  {
    forall b :: 0 <= b < sh.z ==> 1 <= Size(sh.Blocks(), b) <= MAX_SYMBOLS
  }

  lemma BlocksGood(sh: Shape)
    requires sh.Valid() && sh.z <= sh.Kt() && DivCeil(sh.Kt(), sh.z) <= MAX_SYMBOLS
    ensures GoodBlocks(sh)
  {
    FillSplits(sh.Kt(), sh.z);
    CeilAtLeast(sh.Kt(), sh.z);
  }

  lemma CeilAtLeast(a: nat, b: nat)
    requires 0 < b <= a
    ensures a / b >= 1
  {
    assert a == (a / b) * b + a % b;
  }

  /** The alignment used for a requested one: the largest of 1, 2, 4 and 8 that is not above it, or one. */
  function Alignment(al: nat): (r: nat)
    ensures (r == 1 || r == 2 || r == 4 || r == 8) && (r <= al || (r == 1 && al == 0)) && (al < 2 * r || r == 8)
  {
    if al >= 8 then 8 else if al >= 4 then 4 else if al >= 2 then 2 else 1
  }

  /** The symbol size used for a requested one: the largest positive multiple of the alignment not above it, or that. */
  function Aligned(t: nat, al: nat): (r: nat)
    requires al > 0
    ensures r >= al && r % al == 0
    ensures r <= t < r + al || t < al == r
  {
    if t < al then
      DivModUnique(al, al, 1, 0);
      al
    else
      assert t == (t / al) * al + t % al;
      MulOrder(1, t / al, al);
      DivModUnique(t - t % al, al, t / al, 0);
      t - t % al
  }

  lemma ChosenBlocks(kt: nat, k: nat, z: nat, blocks: nat, y: nat)
    requires 0 < kt <= MAX_BLOCKS * MAX_SYMBOLS
    requires k > 0 ==> Covers(kt, k, blocks)
    requires k == 0 ==> 0 < y && if z > 0 then y == z else LeastBlocks(kt, y)
    requires k == 0 ==> Asked(kt, y, blocks)
    ensures 0 < blocks <= kt
    ensures k == 0 && z == 0 ==> blocks <= MAX_BLOCKS && DivCeil(kt, blocks) <= MAX_SYMBOLS
    ensures k == 0 && 0 < z <= MAX_BLOCKS ==> blocks <= MAX_BLOCKS && DivCeil(kt, blocks) <= DivCeil(kt, z)
  {
    hide DivCeil, Covers;
    if k > 0 {
      CoversUnique(kt, k, blocks);
      CeilPositive(kt, k);
      MulOrder(1, k, kt);
      CeilLeast(kt, k, kt);
    } else {
      var kn: nat :| Covers(kt, y, kn) && Covers(kt, kn, blocks);
      CoversUnique(kt, y, kn);
      Blocking(kt, y);
      CoversUnique(kt, kn, blocks);
      if z == 0 {
        CeilLeast(kt, MAX_BLOCKS, MAX_SYMBOLS);
        assert y <= MAX_BLOCKS;
      }
    }
  }

  // ---------- growing the symbol size ----------

  /** The symbol size after i multiplications by the alignment, in 16 bits. */
  function Multiplied(t: nat, al: nat, i: nat): (r: nat)
    requires t < 0x1_0000
    ensures r < 0x1_0000
  {
    if i == 0 then t else (Multiplied(t, al, i - 1) * al) % 0x1_0000
  }

  /** Symbols of this size are large enough for the length: at most 256 blocks of K_max symbols. */
  predicate LargeEnough(len: nat, t: nat): (r: bool)
    ensures r ==> t > 0
  {
    t > 0 && DivCeil(len, t) <= MAX_BLOCKS * MAX_SYMBOLS
  }

  /** Symbols are large enough exactly if 256 * 56403 of them hold the file. */
  lemma LargeEnoughIff(len: nat, t: nat)
    ensures LargeEnough(len, t) <==> t > 0 && len <= 256 * 56403 * t
  {
    if t > 0 {
      hide DivCeil;
      var most := MAX_BLOCKS * MAX_SYMBOLS;
      assert most * t == t * most;
      CeilTimes(len, t);
      if DivCeil(len, t) <= most {
        MulOrder(DivCeil(len, t), most, t);
      }
      if len <= t * most {
        CeilLeast(len, t, most);
      }
    }
  }

  function Power(a: nat, n: nat): nat {
    if n == 0 then 1 else Power(a, n - 1) * a
  }

  /** Multiplying in 16 bits i times is multiplying by the i-th power in 16 bits. */
  lemma {:induction false} MultipliedPower(t: nat, al: nat, i: nat)
    requires t < 0x1_0000
    ensures Multiplied(t, al, i) == (t * Power(al, i)) % 0x1_0000
  {
    if i == 0 {
      DivModUnique(t, 0x1_0000, 0, t);
    } else {
      MultipliedPower(t, al, i - 1);
      ModTimes(t * Power(al, i - 1), al, 0x1_0000);
      assert t * (Power(al, i - 1) * al) == (t * Power(al, i - 1)) * al;
    }
  }

  lemma ModTimes(x: nat, a: nat, m: nat)
    requires m > 0
    ensures ((x % m) * a) % m == (x * a) % m
  {
    Recompose(x, m);
    var q, r := x / m, x % m;
    Distribute(q * m, r, a);
    assert (q * m) * a == (q * a) * m;
    AddMultiple(r * a, m, q * a);
  }

  /** No number of multiplications makes the symbols large enough. */
  ghost predicate NeverLarge(len: nat, t: nat, al: nat)
    requires t < 0x1_0000
  {
    forall j: nat :: !LargeEnough(len, Multiplied(t, al, j))
  }

  lemma ModScale(a: nat, b: nat, w: nat)
    requires b > 0 && w > 0
    ensures w * b > 0 && (a * b) % (w * b) == (a % w) * b
  {
    Recompose(a, w);
    MulOrder(1, w, b);
    var q, r := a / w, a % w;
    assert a * b == q * (w * b) + r * b by {
      Distribute(q * w, r, b);
      assert (q * w) * b == q * (w * b);
    }
    MulOrder(r + 1, w, b);
    Distribute(r, 1, b);
    DivModUnique(a * b, w * b, q, r * b);
  }

  /** Each multiplication by an even alignment adds a factor of two, so after sixteen nothing is left. */
  lemma {:induction false} Vanishes(t: nat, al: nat, i: nat, p: nat, w: nat) returns (q: nat)
    requires t < 0x1_0000 && al % 2 == 0 && p == Pow2(i) && p * w == 0x1_0000
    ensures Multiplied(t, al, i) == q * p
    decreases i
  {
    if i == 0 {
      q := t;
    } else {
      var half := Pow2(i - 1);
      assert half * (2 * w) == 0x1_0000;
      var q0 := Vanishes(t, al, i - 1, half, 2 * w);
      var x := q0 * (al / 2);
      assert (q0 * half) * al == x * p by {
        assert al == 2 * (al / 2);
        assert (q0 * half) * (2 * (al / 2)) == (q0 * (al / 2)) * (2 * half);
      }
      ModScale(x, p, w);
      assert w * p == 0x1_0000;
      q := x % w;
    }
  }

  lemma VanishesAt16(t: nat, al: nat)
    requires t < 0x1_0000 && al % 2 == 0
    ensures Multiplied(t, al, 16) == 0
  {
    assert Pow2(16) == 0x1_0000 by {
      assert Pow2(8) == 256 && Pow2(12) == 4096;
    }
    var q := Vanishes(t, al, 16, 0x1_0000, 1);
  }

  lemma {:induction false} SameForever(t: nat, i: nat)
    requires t < 0x1_0000
    ensures Multiplied(t, 1, i) == t
  {
    if i > 0 {
      SameForever(t, i - 1);
    }
  }

  lemma {:induction false} ZeroForever(t: nat, al: nat, i: nat, j: nat)
    requires t < 0x1_0000 && i <= j && Multiplied(t, al, i) == 0
    ensures Multiplied(t, al, j) == 0
    decreases j
  {
    if i < j {
      ZeroForever(t, al, i, j - 1);
    }
  }

  datatype Growth = Enough(t: nat) | NoEnd | Zero

  /**
   The loop that multiplies the symbol size by the alignment until it is large enough.  It has no end
   exactly if the alignment is one and the size is too small.  Otherwise it takes the first size that is
   large enough; if the 16 bits run out before there is one, the size becomes zero and is divided by.
   */
  method Grow(len: nat, t0: nat, al: nat) returns (r: Growth, ghost i: nat)
    requires 0 < t0 < 0x1_0000 && (al == 1 || al % 2 == 0)
    ensures r.NoEnd? <==> al == 1 && !LargeEnough(len, t0)
    ensures r.Enough? ==> r.t == Multiplied(t0, al, i) && LargeEnough(len, r.t)
    ensures r.Enough? ==> forall j :: 0 <= j < i ==> !LargeEnough(len, Multiplied(t0, al, j))
    ensures r.Zero? ==> NeverLarge(len, t0, al)
  {
    hide DivCeil;
    i := 0;
    if al == 1 && DivCeil(len, t0) > MAX_BLOCKS * MAX_SYMBOLS {
      return NoEnd, i;
    }
    var t := t0;
    while DivCeil(len, t) > MAX_BLOCKS * MAX_SYMBOLS
      invariant t > 0 && t == Multiplied(t0, al, i) && i <= 16
      invariant al == 1 ==> i == 0
      invariant forall j :: 0 <= j < i ==> !LargeEnough(len, Multiplied(t0, al, j))
      decreases 16 - i
    {
      if i == 16 {
        VanishesAt16(t0, al);
        assert false;
      }
      t := (t * al) % 0x1_0000;
      i := i + 1;
      if t == 0 {
        forall j: nat ensures !LargeEnough(len, Multiplied(t0, al, j)) {
          if j >= i {
            ZeroForever(t0, al, i, j);
          }
        }
        return Zero, i;
      }
    }
    r := Enough(t);
  }

  // ---------- creating an encoder ----------

  const MAX_TRANSFER: nat := 946270874880

  /** The maximum length is that of 256 blocks of K_max symbols of the largest 16-bit size. */
  lemma MaxTransfer(len: nat)
    ensures len <= MAX_TRANSFER <==> exists t :: 0 < t < 0x1_0000 && LargeEnough(len, t)
  {
    var most := MAX_BLOCKS * MAX_SYMBOLS;
    assert most * 0xFFFF == MAX_TRANSFER;
    hide DivCeil;
    if len <= MAX_TRANSFER {
      CeilLeast(len, 0xFFFF, most);
      assert LargeEnough(len, 0xFFFF);
    } else {
      forall t | 0 < t < 0x1_0000 ensures !LargeEnough(len, t) {
        CeilTimes(len, t);
        MulOrder(t, 0xFFFF, most);
        assert most * t == t * most;
        if LargeEnough(len, t) {
          MulOrder(DivCeil(len, t), most, t);
        }
      }
    }
  }

  /** An encoder, NULL, a loop without end, or a division by zero. */
  datatype Creation = Created(shape: Shape) | Rejected | NeverEnds | DividesByZero

  /**
   The number of blocks for kt symbols: the least number of blocks of at most K symbols, if K is asked for; and
   otherwise, of at most as many symbols as Z blocks need, or the least Z that makes no block too large.
   */
  ghost predicate Chosen(kt: nat, k: nat, z: nat, blocks: nat) {
    if k > 0 then Covers(kt, k, blocks)
    else exists y: nat :: 0 < y && (if z > 0 then y == z else LeastBlocks(kt, y)) && Asked(kt, y, blocks)
  }

  /**
   nanorq_encoder_new_ex.  An encoder's symbol size is the first large enough one, and its blocks all
   have between 1 and K_max symbols.  Without large enough symbols there is none, and none for an empty
   file.  When neither K nor Z is asked for, there is one for every other length up to the maximum; when
   they are, it is refused only if the chosen number of blocks is too large or leaves too many symbols in
   one.
   */
  method NewEncoder(len: nat, t0: nat, k: nat, z: nat, al0: nat) returns (r: Creation, ghost i: nat)
    requires t0 < 0x1_0000 && al0 < 0x100
    ensures r.Created? ==> r.shape.f == len && r.shape.al == Alignment(al0) && r.shape.n == 1
    ensures r.Created? ==> r.shape.t == SizeAfter(t0, al0, i)
    ensures r.Created? ==> forall j :: 0 <= j < i ==> !LargeEnough(len, SizeAfter(t0, al0, j))
    ensures r.Created? ==> r.shape.Valid() && GoodBlocks(r.shape) && Chosen(r.shape.Kt(), k, z, r.shape.z)
    ensures len > MAX_TRANSFER ==> r == Rejected
    ensures r == NeverEnds <==> len <= MAX_TRANSFER && Alignment(al0) == 1 && !LargeEnough(len, Aligned(t0, 1))
    ensures 0 < len <= MAX_TRANSFER && LargeEnough(len, Aligned(t0, Alignment(al0))) && k == 0 && z == 0 ==> r.Created?
    ensures 0 < len <= MAX_TRANSFER ==>
      (r == DividesByZero <==> Alignment(al0) != 1 && forall j: nat :: !LargeEnough(len, SizeAfter(t0, al0, j)))
    ensures len == 0 ==> r == if k > 0 then Rejected else DividesByZero
    ensures 0 < len <= MAX_TRANSFER && r == Rejected ==> Unfit(len, SizeAfter(t0, al0, i), k, z)
  {
    hide DivCeil, Multiplied, LargeEnough, GoodBlocks, LeastBlocks, Chosen, Unfit, Aligned;
    i := 0;
    if len > MAX_TRANSFER {
      return Rejected, i;
    }
    var al := Alignment(al0);
    var t1 := Aligned(t0, al);
    AlignedBound(t0, al);
    StartsLarge(len, t1, al);
    var grown;
    grown, i := Grow(len, t1, al);
    if grown.NoEnd? {
      return NeverEnds, i;
    }
    assert forall j: nat :: SizeAfter(t0, al0, j) == Multiplied(t1, al, j);
    if grown.Zero? {
      assert al != 1;
      return DividesByZero, i;
    }
    var t := grown.t;
    MultipliedAligned(t1, al, i);
    MultipleAtLeast(t, al);
    if len == 0 {
      return if k > 0 then Rejected else DividesByZero, i;
    }
    r := Choose(len, t, al, k, z);
  }

  /** The symbol size for a requested size and alignment, after i multiplications. */
  function SizeAfter(t0: nat, al0: nat, i: nat): (t: nat)
    requires t0 < 0x1_0000
    ensures t < 0x1_0000
  {
    AlignedBound(t0, Alignment(al0));
    Multiplied(Aligned(t0, Alignment(al0)), Alignment(al0), i)
  }

  /** No number of blocks that is asked for fits: it is too large, or leaves too many symbols in a block. */
  ghost predicate Unfit(len: nat, t: nat, k: nat, z: nat) {
    && t > 0 && (k > 0 || z > 0)
    && exists blocks: nat ::
      Chosen(DivCeil(len, t), k, z, blocks)
      && (blocks > MAX_BLOCKS || blocks == 0 || DivCeil(DivCeil(len, t), blocks) > MAX_SYMBOLS)
  }

  /** The rest of nanorq_encoder_new_ex, once the symbols are large enough. */
  method Choose(len: nat, t: nat, al: nat, k: nat, z: nat) returns (r: Creation)
    requires 0 < len && LargeEnough(len, t) && 0 < al <= t < 0x1_0000 && t % al == 0
    ensures r.Created? ==> r.shape.f == len && r.shape.al == al && r.shape.n == 1 && r.shape.t == t
    ensures r.Created? ==> r.shape.Valid() && GoodBlocks(r.shape) && Chosen(r.shape.Kt(), k, z, r.shape.z)
    ensures r.Created? || r == Rejected
    ensures r == Rejected ==> Unfit(len, t, k, z)
    ensures k == 0 && z == 0 ==> r.Created?
  {
    hide DivCeil;
    var kt := DivCeil(len, t);
    CeilPositive(len, t);
    var blocks;
    ghost var asked;
    blocks, asked := GenScheme(kt, k, z);
    ChosenBlocks(kt, k, z, blocks, asked);
    assert Chosen(kt, k, z, blocks);
    if blocks == 0 || blocks > MAX_BLOCKS || DivCeil(kt, blocks) > MAX_SYMBOLS {
      return Rejected;
    }
    var sh := Shape(len, t, al, blocks, 1);
    BlocksGood(sh);
    r := Created(sh);
  }

  lemma AlignedBound(t: nat, al: nat)
    requires t < 0x1_0000 && 0 < al < 0x1_0000
    ensures 0 < Aligned(t, al) < 0x1_0000
  {}

  lemma StartsLarge(len: nat, t: nat, al: nat)
    requires 0 < t < 0x1_0000
    ensures Multiplied(t, al, 0) == t && LargeEnough(0, t)
  {}

  lemma MultipleAtLeast(t: nat, al: nat)
    requires 0 < t && 0 < al && t % al == 0
    ensures t >= al
  {}

  lemma {:induction false} MultipliedAligned(t: nat, al: nat, i: nat)
    requires (al == 1 || al == 2 || al == 4 || al == 8) && t < 0x1_0000 && t % al == 0
    ensures Multiplied(t, al, i) % al == 0
  {
    if i > 0 {
      var x, w := Multiplied(t, al, i - 1), 0x1_0000 / al;
      ModScale(x, al, w);
      ProductMod(al, x % w);
      assert al * (x % w) == (x % w) * al;
    }
  }

  // ---------- packing and parsing ----------

  /** Byte i of a number, least significant first. */
  function ByteOf(x: nat, i: nat): Octet {
    if i == 0 then x % 0x100 else ByteOf(x / 0x100, i - 1)
  }

  /** The eight configuration bytes of a frame: nanorq_oti_common_reduced, nanorq_oti_scheme_specific_align1. */
  function PackConfig(sh: Shape): (c: seq<Octet>)
    requires sh.t > 0 && sh.z > 0 && sh.n > 0
    ensures |c| == 8
  {
    [ByteOf(sh.f, 0), ByteOf(sh.f, 1), ByteOf(sh.f, 2), ByteOf(sh.t - 1, 0), ByteOf(sh.t - 1, 1),
     ByteOf(sh.z - 1, 0), ByteOf(sh.n - 1, 0), ByteOf(sh.n - 1, 1)]
  }

  /** parse_oti_common_from_frame; the fields of the 64-bit word do not overlap. */
  function ParseCommon(c: seq<Octet>): nat
    requires |c| == 8
  {
    c[0] as nat * 0x100_0000 + c[1] as nat * 0x1_0000_0000 + c[2] as nat * 0x100_0000_0000
    + c[3] as nat + c[4] as nat * 0x100
  }

  /** parse_oti_scheme_from_frame. */
  function ParseScheme(c: seq<Octet>): nat
    requires |c| == 8
  {
    c[5] as nat * 0x100_0000 + c[6] as nat * 0x100 + c[7] as nat * 0x1_0000 + 1
  }

  /** What nanorq_decoder_new does: a decoder, NULL, or a division by a symbol size or alignment of zero. */
  datatype Opened = Accepted(shape: Shape) | Refused | Faulted

  /** nanorq_decoder_new, with its 16-bit symbol size. */
  function NewDecoder(common: nat, scheme: nat): Opened {
    var f, t := common / 0x100_0000, (common % 0x1_0000 + 1) % 0x1_0000;
    var z, n, al := (scheme / 0x100_0000) % 0x100 + 1, (scheme / 0x100) % 0x1_0000 + 1, scheme % 0x100;
    if f > MAX_TRANSFER then Refused
    else if t == 0 then Faulted
    else if t < al then Refused
    else if al == 0 then Faulted
    else if t % al != 0 || DivCeil(DivCeil(f, t), z) > MAX_SYMBOLS then Refused
    else Accepted(Shape(f, t, al, z, n))
  }

  /** A decoder that is accepted has a usable shape, unless it asks for 65536 sub-blocks. */
  lemma AcceptedShape(common: nat, scheme: nat)
    requires NewDecoder(common, scheme).Accepted?
    ensures var sh := NewDecoder(common, scheme).shape;
      (sh.n < 0x1_0000 <==> sh.Valid()) && DivCeil(sh.Kt(), sh.z) <= MAX_SYMBOLS
  {}

  lemma TwoBytes(x: nat)
    requires x < 0x1_0000
    ensures ByteOf(x, 0) + 0x100 * ByteOf(x, 1) == x
  {}

  lemma ThreeBytes(x: nat)
    requires x < 0x100_0000
    ensures ByteOf(x, 0) + 0x100 * ByteOf(x, 1) + 0x1_0000 * ByteOf(x, 2) == x
  {
    assert x / 0x100 / 0x100 < 0x100;
  }

  /** Two bytes as a number, low byte first. */
  function Word(lo: Octet, hi: Octet): nat {
    lo as nat + 0x100 * hi as nat
  }

  /** The configuration bytes: F in three bytes, T - 1 in two, Z - 1 in one and N - 1 in two, low bytes first. */
  lemma ConfigBytes(sh: Shape)
    requires sh.f < 0x100_0000 && 0 < sh.t <= 0x1_0000 && 0 < sh.z <= MAX_BLOCKS && 0 < sh.n <= 0x1_0000
    ensures var c := PackConfig(sh);
      && Word(c[0], c[1]) + 0x1_0000 * c[2] as nat == sh.f && Word(c[3], c[4]) == sh.t - 1
      && c[5] == sh.z - 1 && Word(c[6], c[7]) == sh.n - 1
  {
    hide ByteOf;
    ThreeBytes(sh.f);
    TwoBytes(sh.t - 1);
    TwoBytes(sh.n - 1);
    OneByte(sh.z - 1);
  }

  lemma OneByte(x: nat)
    requires x < 0x100
    ensures ByteOf(x, 0) == x
  {}

  lemma ParsedCommon(sh: Shape)
    requires sh.f < 0x100_0000 && 0 < sh.t < 0x1_0000 && sh.z > 0 && sh.n > 0
    ensures ParseCommon(PackConfig(sh)) == sh.f * 0x100_0000 + (sh.t - 1)
  {
    hide ByteOf;
    ThreeBytes(sh.f);
    TwoBytes(sh.t - 1);
  }

  lemma ParsedScheme(sh: Shape)
    requires 0 < sh.z <= MAX_BLOCKS && 0 < sh.n <= 0x1_0000 && sh.t > 0
    ensures ParseScheme(PackConfig(sh)) == (sh.z - 1) * 0x100_0000 + (sh.n - 1) * 0x100 + 1
  {
    TwoBytes(sh.n - 1);
    assert ByteOf(sh.z - 1, 0) == sh.z - 1;
  }

  lemma Fields(a: nat, b: nat, c: nat)
    requires b < 0x1_0000 && c < 0x100 && a < 0x100
    ensures var x := a * 0x100_0000 + b * 0x100 + c;
      (x / 0x100_0000) % 0x100 == a && (x / 0x100) % 0x1_0000 == b && x % 0x100 == c
  {}

  /**
   What an encoder sends, a receiver rebuilds: the same length, symbol size, numbers of blocks and
   sub-blocks, hence the same partitions, for every shape with byte alignment and a 24-bit length.
   */
  lemma ConfigAgrees(sh: Shape)
    requires sh.Valid() && sh.al == 1 && sh.f < 0x100_0000 && DivCeil(sh.Kt(), sh.z) <= MAX_SYMBOLS
    ensures NewDecoder(ParseCommon(PackConfig(sh)), ParseScheme(PackConfig(sh))) == Accepted(sh)
  {
    hide PackConfig, ParseCommon, ParseScheme, DivCeil;
    ParsedCommon(sh);
    ParsedScheme(sh);
    Fields(sh.z - 1, sh.n - 1, 1);
    var c := sh.f * 0x100_0000 + (sh.t - 1);
    assert c / 0x100_0000 == sh.f && c % 0x1_0000 == sh.t - 1;
    assert (sh.t - 1 + 1) % 0x1_0000 == sh.t;
  }

  /** No two configurations are accepted with the same shape. */
  lemma ConfigDetermined(c: seq<Octet>, sh: Shape)
    requires |c| == 8 && NewDecoder(ParseCommon(c), ParseScheme(c)) == Accepted(sh)
    ensures sh.al == 1 && sh.t > 0 && sh.z > 0 && sh.n > 0
    ensures ParseCommon(c) == sh.f * 0x100_0000 + (sh.t - 1)
    ensures ParseScheme(c) == (sh.z - 1) * 0x100_0000 + (sh.n - 1) * 0x100 + 1
  {
    hide DivCeil, NewDecoder;
    var f := c[0] as nat + c[1] as nat * 0x100 + c[2] as nat * 0x1_0000;
    var t := c[3] as nat + c[4] as nat * 0x100;
    var n := c[6] as nat + c[7] as nat * 0x100;
    AcceptedWords(f, t, c[5], n, sh);
  }

  /** The number of bytes that z blocks of K_max symbols hold decides whether the length fits. */
  lemma FitsIff(f: nat, t: nat, z: nat)
    requires t > 0 && z > 0
    ensures DivCeil(DivCeil(f, t), z) <= MAX_SYMBOLS <==> f <= MAX_SYMBOLS * z * t
  {
    hide DivCeil;
    var kt, k := DivCeil(f, t), MAX_SYMBOLS;
    CeilTimes(f, t);
    CeilTimes(kt, z);
    if DivCeil(kt, z) <= k {
      MulOrder(DivCeil(kt, z), k, z);
      MulOrder(kt, k * z, t);
    }
    if f <= k * z * t {
      assert k * z * t == t * (k * z) && k * z == z * k;
      CeilLeast(f, t, k * z);
      CeilLeast(kt, z, k);
    }
  }

  /**
   What a receiver makes of any eight configuration bytes: with a symbol size of 65536 it fails, with more bytes than
   Z blocks of K_max symbols hold it refuses, and otherwise it accepts the shape that the bytes say.
   */
  lemma ConfigVerdict(c: seq<Octet>)
    requires |c| == 8
    ensures var f, t, z, n := Word(c[0], c[1]) + 0x1_0000 * c[2] as nat, Word(c[3], c[4]) + 1, c[5] as nat + 1,
                              Word(c[6], c[7]) + 1;
      NewDecoder(ParseCommon(c), ParseScheme(c)) ==
      if t == 0x1_0000 then Faulted else if f > 56403 * z * t then Refused else Accepted(Shape(f, t, 1, z, n))
  {
    hide DivCeil;
    var f, t, z, n := Word(c[0], c[1]) + 0x1_0000 * c[2] as nat, Word(c[3], c[4]) + 1, c[5] as nat + 1,
                      Word(c[6], c[7]) + 1;
    assert ParseCommon(c) == f * 0x100_0000 + (t - 1);
    assert ParseScheme(c) == (z - 1) * 0x100_0000 + (n - 1) * 0x100 + 1;
    Fields(z - 1, n - 1, 1);
    DivModUnique(f * 0x100_0000 + (t - 1), 0x100_0000, f, t - 1);
    assert (f * 0x100_0000 + (t - 1)) % 0x1_0000 == t - 1;
    assert t < 0x1_0000 ==> t % 1 == 0 && t % 0x1_0000 == t;
    FitsIff(f, t, z);
  }

  lemma AcceptedWords(f: nat, t: nat, z: nat, n: nat, sh: Shape)
    requires t < 0x1_0000 && z < 0x100 && n < 0x1_0000
    requires NewDecoder(f * 0x100_0000 + t, z * 0x100_0000 + n * 0x100 + 1) == Accepted(sh)
    ensures sh.f == f && sh.t == t + 1 && sh.z == z + 1 && sh.n == n + 1 && sh.al == 1
  {
    hide DivCeil;
    Fields(z, n, 1);
    DivModUnique(f * 0x100_0000 + t, 0x100_0000, f, t);
    assert (f * 0x100_0000 + t) % 0x1_0000 == t;
  }

  // ---------- the symbol tag ----------

  /** nanorq_tag: 8 bits of block number, 24 bits of symbol number. */
  function Tag(sbn: nat, esi: nat): nat
    requires sbn < 0x100
  {
    sbn * 0x100_0000 + esi % 0x100_0000
  }

  /** nanorq_tag_reduced. */
  function PackTag(sbn: nat, esi: nat): (b: seq<Octet>)
    requires sbn < 0x100
    ensures |b| == 3
  {
    [sbn, ByteOf(esi, 0), ByteOf(esi, 1)]
  }

  /** A packed tag is the block number and the symbol number, low byte first. */
  lemma TagBytes(sbn: nat, esi: nat)
    requires sbn < 0x100 && esi < 0x1_0000
    ensures var b := PackTag(sbn, esi); b[0] == sbn && Word(b[1], b[2]) == esi
  {
    hide ByteOf;
    TwoBytes(esi);
  }

  /** The tag a receiver builds from the three bytes names the block and symbol that were sent. */
  lemma TagAgrees(sbn: nat, esi: nat)
    requires sbn < 0x100 && esi < 0x1_0000
    ensures var b := PackTag(sbn, esi);
      var tag := Tag(b[0], b[1] as nat + 0x100 * b[2] as nat);
      tag / 0x100_0000 == sbn && tag % 0x100_0000 == esi
  {
    hide ByteOf;
    TwoBytes(esi);
  }
}
