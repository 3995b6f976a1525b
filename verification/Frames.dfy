/**
 The frames of a broadcast: one header byte, the eight configuration bytes, the symbol tag and the
 symbol (daemon.c, lines 43-45, 303-338, 346-365 and 521-570).
 */
module Frames {
  import opened GF256
  import opened Linear
  import opened Primes
  import opened Layout
  import opened TransferInfo
  import opened Bits
  import opened Crc6

  const CONFIG_BODY_SIZE: nat := 8
  const TAG_BODY_SIZE: nat := 3
  const HEADER_SIZE: nat := 1 + CONFIG_BODY_SIZE + TAG_BODY_SIZE
  const PACKET_RQ_CONFIG: nat := 2
  const PACKET_RQ_PAYLOAD: nat := 3

  /** A frame but for its header byte. */
  function Body(sh: Shape, sbn: nat, esi: nat, symbol: Vec): (b: seq<Octet>)
    requires sh.t > 0 && sh.z > 0 && sh.n > 0 && sbn < 0x100
    ensures |b| == 11 + |symbol|
  {
    PackConfig(sh) + PackTag(sbn, esi) + symbol
  }

  /** The frame tx_send_one_frame sends: packet type and checksum in the header byte. */
  function FrameOf(sh: Shape, sbn: nat, esi: nat, symbol: Vec): (f: seq<Octet>)
    requires sh.t > 0 && sh.z > 0 && sh.n > 0 && sbn < 0x100
    ensures |f| == HEADER_SIZE + |symbol|
  {
    [PACKET_RQ_CONFIG * 64 + CrcOf(1, Body(sh, sbn, esi, symbol))] + Body(sh, sbn, esi, symbol)
  }

  /** A frame of the expected length, of the data type, with a fitting checksum. */
  predicate Passes(frame: seq<Octet>, frameSize: nat): (r: bool)
    ensures r ==> |frame| > HEADER_SIZE
  {
    && |frame| == frameSize && frameSize > HEADER_SIZE
    && frame[0] / 64 == PACKET_RQ_CONFIG && frame[0] % 64 == CrcOf(1, frame[1..])
  }

  function Config(frame: seq<Octet>): (c: seq<Octet>)
    requires |frame| > HEADER_SIZE
    ensures |c| == 8
  {
    frame[1..9]
  }

  function Sbn(frame: seq<Octet>): nat
    requires |frame| > HEADER_SIZE
  {
    frame[9] as nat
  }

  function Esi(frame: seq<Octet>): nat
    requires |frame| > HEADER_SIZE
  {
    frame[10] as nat + 0x100 * frame[11] as nat
  }

  /** The first t bytes of what a frame carries. */
  function Carried(frame: seq<Octet>, t: nat): (v: Vec)
    requires |frame| >= HEADER_SIZE + t
    ensures |v| == t
  {
    frame[HEADER_SIZE..HEADER_SIZE + t]
  }

  /** What is sent is what is read: the frame passes, and its fields are those of the transfer and the symbol. */
  lemma FrameAgrees(sh: Shape, sbn: nat, esi: nat, symbol: Vec)
    requires sh.Valid() && sh.al == 1 && sh.f < 0x100_0000 && DivCeil(sh.Kt(), sh.z) <= MAX_SYMBOLS
    requires sbn < 0x100 && esi < 0x1_0000 && |symbol| == sh.t
    ensures var frame := FrameOf(sh, sbn, esi, symbol);
      Passes(frame, HEADER_SIZE + sh.t) && Sbn(frame) == sbn && Esi(frame) == esi && Carried(frame, sh.t) == symbol
      && NewDecoder(ParseCommon(Config(frame)), ParseScheme(Config(frame))) == Accepted(sh)
  {
    hide PackConfig, PackTag, CrcOf, ParseCommon, ParseScheme, NewDecoder;
    var frame, body := FrameOf(sh, sbn, esi, symbol), Body(sh, sbn, esi, symbol);
    assert frame[1..] == body;
    assert frame[0] as nat == 128 + CrcOf(1, body);
    assert Config(frame) == PackConfig(sh);
    ConfigAgrees(sh);
    TagBytes(sbn, esi);
    assert frame[9] == PackTag(sbn, esi)[0] && frame[10] == PackTag(sbn, esi)[1] && frame[11] == PackTag(sbn, esi)[2];
    assert Carried(frame, sh.t) == symbol;
  }

  /**
   What the bytes of a frame say: type 2 with the remainder of the rest of the frame, seeded with one; length, symbol
   size, blocks and sub-blocks; block and symbol number; the symbol.
   */
  ghost predicate HasFields(f: seq<Octet>, sh: Shape, sbn: nat, esi: nat, symbol: Vec) {
    && |f| >= HEADER_SIZE && f[0] as nat == 128 + Divided(1, f[1..])
    && Word(f[1], f[2]) + 0x1_0000 * f[3] as nat == sh.f && Word(f[4], f[5]) == sh.t - 1
    && f[6] == sh.z - 1 && Word(f[7], f[8]) == sh.n - 1
    && f[9] == sbn && Word(f[10], f[11]) == esi && f[HEADER_SIZE..] == symbol
  }

  /** Every frame that is sent is of this form. */
  lemma FrameBytes(sh: Shape, sbn: nat, esi: nat, symbol: Vec)
    requires sh.f < 0x100_0000 && 0 < sh.t <= 0x1_0000 && 0 < sh.z <= MAX_BLOCKS && 0 < sh.n <= 0x1_0000
    requires sbn < 0x100 && esi < 0x1_0000
    ensures HasFields(FrameOf(sh, sbn, esi, symbol), sh, sbn, esi, symbol)
  {
    hide PackConfig, PackTag, CrcOf, Divided;
    var frame, body := FrameOf(sh, sbn, esi, symbol), Body(sh, sbn, esi, symbol);
    assert frame[1..] == body && frame[HEADER_SIZE..] == symbol;
    CrcIsDivision(1, body);
    ConfigBytes(sh);
    TagBytes(sbn, esi);
    assert forall k :: 0 <= k < 8 ==> frame[1 + k] == PackConfig(sh)[k];
    assert forall k :: 0 <= k < 3 ==> frame[9 + k] == PackTag(sbn, esi)[k];
  }

  // ---------- what the checks keep out ----------

  /** A frame passes exactly if it has the expected length and type 2 with the remainder of what follows it. */
  lemma PassesIff(frame: seq<Octet>, frameSize: nat)
    ensures Passes(frame, frameSize) <==>
      |frame| == frameSize > HEADER_SIZE && frame[0] as nat == 128 + Divided(1, frame[1..])
  {
    hide CrcOf, Divided;
    if |frame| == frameSize > HEADER_SIZE {
      CrcIsDivision(1, frame[1..]);
    }
  }

  lemma {:induction false} ParityAbove(q: nat, r: nat, n: nat)
    requires r < Pow2(n)
    ensures Parity(q * Pow2(n) + r) == (Parity(q) != Parity(r))
    decreases n
  {
    hide Parity;
    var x := q * Pow2(n) + r;
    if n == 0 {
      assert !Parity(0) by { NoParity(); }
    } else {
      var h := q * Pow2(n - 1);
      assert x == 2 * h + r by {
        assert q * (2 * Pow2(n - 1)) == 2 * (q * Pow2(n - 1));
      }
      ParityStep(x);
      ParityStep(r);
      assert Half(x) == h + Half(r) && Odd(x) == Odd(r);
      ParityAbove(q, Half(r), n - 1);
    }
  }

  /** A frame that passes has an even number of ones. */
  lemma PassesEven(frame: seq<Octet>, frameSize: nat)
    requires Passes(frame, frameSize)
    ensures !Odd(Ones(frame))
  {
    hide CrcOf, Value, Ones, Odd, PopCount;
    var body, crc := frame[1..], CrcOf(1, frame[1..]);
    CrcParity(1, body);
    ValueParity(body);
    assert frame[0] as nat == 2 * Pow2(6) + crc by { assert Pow2(6) == 64; }
    ParityAbove(2, crc, 6);
    SmallParities();
    assert frame == [frame[0]] + body;
    OnesHead(frame[0], body);
    OddSum(PopCount(frame[0]), Ones(body));
  }

  lemma SmallParities()
    ensures Parity(1) && Parity(2) && Pow2(6) == 64
  {}

  /** An odd number of bit errors anywhere in a frame makes it fail. */
  lemma FrameOddErrors(frame: seq<Octet>, damaged: seq<Octet>, frameSize: nat)
    requires Passes(frame, frameSize) && |damaged| == |frame| && Odd(Changed(frame, damaged))
    ensures !Passes(damaged, frameSize)
  {
    hide Passes, Odd, Ones, Changed;
    if Passes(damaged, frameSize) {
      PassesEven(frame, frameSize);
      PassesEven(damaged, frameSize);
      ChangedOnes(frame, damaged);
    }
  }

  /** So does any change behind the header byte that is confined to six consecutive bits. */
  lemma FrameBurst(frame: seq<Octet>, damaged: seq<Octet>, frameSize: nat, j: nat)
    requires Passes(frame, frameSize) && |damaged| == |frame| && frame[0] % 64 == damaged[0] % 64
    requires Burst(frame[1..], damaged[1..], j)
    ensures !Passes(damaged, frameSize)
  {
    hide CrcOf, Burst;
    BurstNoticed(1, frame[1..], damaged[1..], j);
  }

  /** The error pattern is one that the checksum does not see. */
  predicate Slips(errors: seq<Octet>) {
    errors != [] && errors[0] as nat == Divided(0, errors[1..])
  }

  /** A frame that passes still passes with errors if and only if they are of that kind. */
  lemma HitPassesIff(frame: seq<Octet>, errors: seq<Octet>, frameSize: nat)
    requires Passes(frame, frameSize) && |errors| == |frame|
    ensures Passes(Hit(frame, errors), frameSize) <==> Slips(errors)
  {
    hide CrcOf, Divided, Passes, Add;
    var hit, rest := Hit(frame, errors), frame[1..];
    PassesIff(frame, frameSize);
    PassesIff(hit, frameSize);
    assert hit[1..] == Hit(rest, errors[1..]);
    HitDivided(1, rest, errors[1..]);
    var c, r, e := Divided(1, rest), Divided(0, errors[1..]), errors[0];
    HighSum(c, r);
    assert hit[0] as nat == Xor(128 + c, e) by { AddIsXor(frame[0], e); }
    if Xor(128 + c, e) == Xor(128 + c, r) {
      XorCancel(128 + c, e, r);
    }
  }

  /** Such a pattern has an even number of ones, and is not a burst behind the header. */
  lemma SlipsNot(errors: seq<Octet>, j: nat)
    requires Slips(errors)
    ensures !Odd(Ones(errors))
    ensures errors[0] == 0 ==> !Burst(Nothing(|errors| - 1), errors[1..], j)
  {
    hide Value, Ones, Odd, PopCount, CrcOf, Divided, Burst;
    var rest, none := errors[1..], Nothing(|errors| - 1);
    CrcIsDivision(0, rest);
    CrcParity(0, rest);
    ValueParity(rest);
    assert !Parity(0) by { NoParity(); }
    assert errors == [errors[0]] + rest;
    OnesHead(errors[0], rest);
    OddSum(PopCount(errors[0]), Ones(rest));
    if errors[0] == 0 && Burst(none, rest, j) {
      BurstNoticed(0, none, rest, j);
      NothingLeft(|errors| - 1);
    }
  }

  function Nothing(n: nat): (r: seq<Octet>)
    ensures |r| == n && forall k :: 0 <= k < n ==> r[k] == 0
  {
    seq(n, k requires 0 <= k < n => 0)
  }

  lemma {:induction false} NothingLeft(n: nat)
    ensures CrcOf(0, Nothing(n)) == 0
  {
    hide Xor, Shift, Rem;
    if n != 0 {
      NothingLeft(n - 1);
      assert Nothing(n)[..n - 1] == Nothing(n - 1);
      ShiftNothing(8);
      ShiftNothing(6);
      XorZero(0);
      RemSmall(0);
    }
  }

  lemma AddIsXor(a: Octet, b: Octet)
    ensures Add(a, b) == Xor(a, b)
  {}

  lemma HighSum(c: nat, r: nat)
    requires c < 64 && r < 64
    ensures Xor(128 + c, r) == 128 + Xor(c, r)
  {
    assert Pow2(6) == 64 && Pow2(7) == 128;
    hide Xor, Pow2;
    XorHigh(c, 7);
    XorBound(c, r, 6);
    XorAssoc(128, c, r);
    XorHigh(Xor(c, r), 7);
  }

  lemma XorCancel(a: nat, x: nat, y: nat)
    requires Xor(a, x) == Xor(a, y)
    ensures x == y
  {
    hide Xor;
    XorAssoc(a, a, x);
    XorAssoc(a, a, y);
    XorSelf(a);
    XorZero(x);
    XorZero(y);
  }

  /** A frame is damaged in a way the checks are sure to notice: an odd number of bits, or a burst behind the header. */
  ghost predicate Damaged(frame: seq<Octet>, damaged: seq<Octet>) {
    && |damaged| == |frame| > 0
    && (Odd(Changed(frame, damaged))
        || (frame[0] == damaged[0] && exists j: nat :: Burst(frame[1..], damaged[1..], j)))
  }

  lemma DamageNoticed(frame: seq<Octet>, damaged: seq<Octet>, frameSize: nat)
    requires Passes(frame, frameSize) && Damaged(frame, damaged)
    ensures !Passes(damaged, frameSize)
  {
    hide Passes, Odd, Changed, Burst;
    if Odd(Changed(frame, damaged)) {
      FrameOddErrors(frame, damaged, frameSize);
    } else {
      var j: nat :| Burst(frame[1..], damaged[1..], j);
      FrameBurst(frame, damaged, frameSize, j);
    }
  }
}
