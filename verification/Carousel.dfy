/**
 The sending session: a carousel over the blocks of a file, one symbol number further each round
 (daemon.c, lines 242-343).
 */
module Sending {
  import opened GF256
  import opened Linear
  import opened Oblas
  import opened Scheduling
  import opened Hdpc
  import opened Rank
  import opened Generation
  import opened Primes
  import opened Tuples
  import opened Symbols
  import opened Layout
  import opened Transfer
  import opened TransferInfo
  import opened Encoding
  import opened Sufficiency
  import opened Decoding
  import opened FileDecoding
  import opened Crc6
  import opened Frames
  import opened Broadcast

  // ---------- the carousel ----------

  /** How many of the first n frames are for block b of z. */
  function Turns(n: nat, z: nat, b: nat): nat
    requires z > 0
  {
    n / z + if b < n % z then 1 else 0
  }

  /** The stored symbol number after c symbols of a block: one past the last one sent. */
  function Counter(c: nat): nat {
    if c == 0 then 0 else (c - 1) % 0x1_0000 + 1
  }

  lemma NextTurn(n: nat, z: nat)
    requires z > 0
    ensures Turns(n, z, n % z) == n / z
    ensures forall b :: 0 <= b < z ==> Turns(n + 1, z, b) == Turns(n, z, b) + if b == n % z then 1 else 0
  {
    var q, r := n / z, n % z;
    if r + 1 < z {
      DivModUnique(n + 1, z, q, r + 1);
    } else {
      assert (q + 1) * z == q * z + z;
      DivModUnique(n + 1, z, q + 1, 0);
    }
  }

  /** The symbol number sent is the number of rounds modulo 65536. */
  lemma StoredNext(c: nat)
    ensures (if Counter(c) > 65535 then 0 else Counter(c)) == c % 0x1_0000
    ensures Counter(c + 1) == c % 0x1_0000 + 1
  {
    if c != 0 {
      var q, r := (c - 1) / 0x1_0000, (c - 1) % 0x1_0000;
      if r == 65535 {
        DivModUnique(c, 0x1_0000, q + 1, 0);
      } else {
        DivModUnique(c, 0x1_0000, q, r + 1);
      }
    }
  }

  /** The counters after n frames. */
  ghost predicate Counters(esi: seq<nat>, n: nat) {
    |esi| > 0 && forall b :: 0 <= b < |esi| ==> esi[b] == Counter(Turns(n, |esi|, b))
  }

  lemma CountersStart(esi: seq<nat>)
    requires |esi| > 0 && forall b :: 0 <= b < |esi| ==> esi[b] == 0
    ensures Counters(esi, 0)
  {
    DivModUnique(0, |esi|, 0, 0);
  }

  lemma CountersStep(esi: seq<nat>, n: nat)
    requires Counters(esi, n)
    ensures var z := |esi|; var b := n % z;
      (if esi[b] > 65535 then 0 else esi[b]) == (n / z) % 0x1_0000
      && Counters(esi[b := (n / z) % 0x1_0000 + 1], n + 1)
  {
    hide Counter, Turns;
    var z := |esi|;
    NextTurn(n, z);
    StoredNext(n / z);
  }

  // ---------- the session ----------

  class TxSession {
    const sh: Shape
    const pr: Params
    const rnd: Rnd
    const file: array<Octet>
    const blocks: seq<BlockEncoder>
    const esi: array<nat>
    ghost const repr: set<object>
    var nextSbn: nat

    ghost predicate Built() {
      && sh.Valid() && sh.al == 1 && sh.f < 0x100_0000 && DivCeil(sh.Kt(), sh.z) <= MAX_SYMBOLS && ValidParams(pr)
      && file.Length == sh.f && |blocks| == esi.Length == sh.z
      && (forall i :: 0 <= i < |blocks| ==> (blocks[i] as object) in repr && (blocks[i].d as object) in repr)
      && (forall i :: 0 <= i < |blocks| ==> ForBlock(blocks[i], i, sh, pr, rnd, file))
      && (forall i, j :: 0 <= i < j < |blocks| ==> blocks[i] != blocks[j] && blocks[i].d != blocks[j].d)
      && (file as object) !in repr && (esi as object) !in repr && this !in repr && (file as object) != (esi as object)
    }

    ghost predicate Valid(): (r: bool)
      reads this, file, esi, repr
      ensures r ==> Built()
    {
      Encoders() && Counters(esi[..], nextSbn)
    }

    ghost predicate Encoders()
      reads file, repr
    {
      Built() && forall i :: 0 <= i < |blocks| ==> blocks[i].Valid(file[..])
    }

    /** The intermediate symbols of the first n blocks have been computed. */
    ghost predicate Generated(n: nat)
      reads repr
    {
      n <= |blocks| && forall i :: 0 <= i < n ==> (blocks[i] as object) in repr && blocks[i].inverted
    }

    /** Every block's intermediate symbols have been computed, by a replay whose late operation is harmless. */
    ghost predicate Ready()
      reads repr
    {
      && Generated(|blocks|)
      && forall i :: 0 <= i < |blocks| ==> (blocks[i] as object) in repr && blocks[i].used.Harmless()
    }

    /** For every block's schedule, elimination recorded an operation. */
    ghost predicate Eliminated()
      reads repr
    {
      && Generated(|blocks|)
      && forall i :: 0 <= i < |blocks| ==> (blocks[i] as object) in repr && blocks[i].used.Eliminated()
    }

    /** Then the session is ready. */
    lemma EliminatedReady()
      requires Valid() && Eliminated()
      ensures Ready()
    {
      hide BlockEncoder.Valid, ForBlock, DivCeil, ValidParams, Counters, Used.Eliminated, Used.Harmless;
      forall i | 0 <= i < |blocks| ensures blocks[i].used.Harmless() {
        assert blocks[i].Valid(file[..]);
        blocks[i].Eliminated(file[..]);
      }
    }

    /** The K' symbols of a whole block do not determine its intermediate symbols. */
    ghost predicate Undetermined() {
      ValidParams(pr) && Deficient(SystemMatrix(pr, rnd, Range(pr.kprime)), pr.l)
    }

    /** The schedule of some block overruns its list of operations when it is replayed. */
    ghost predicate Overrun()
      reads repr
    {
      && ValidParams(pr)
      && (exists i ::
            0 <= i < |blocks| && (blocks[i] as object) in repr
            && blocks[i].used.For(pr, rnd) && blocks[i].used.Overruns())
    }

    /** More than 2H rows of some block's constraint matrix were left outside the triangular block. */
    ghost predicate Crowded()
      reads repr
    {
      exists i :: 0 <= i < |blocks| && (blocks[i] as object) in repr && 2 * pr.h < pr.l - blocks[i].used.i
    }

    lemma NoneGenerated()
      ensures Generated(0)
    {}

    /** The code of every block. */
    ghost function Codes(): seq<Mat>
      requires Built()
      reads repr
    {
      seq(|blocks|, i requires 0 <= i < |blocks| reads repr => CodeRows(blocks[i], sh, pr))
    }

    /** The codes of a ready session are codes of its file. */
    lemma CodesReady()
      requires Valid() && Ready()
      ensures CodesOf(Codes(), file[..], sh, pr, rnd)
    {
      hide ValidParams, CodeOf, SourceSymbols, Size, FillPartition;
      forall b | 0 <= b < sh.z ensures CodeOf(Codes()[b], pr, rnd, sh.t, SourceSymbols(file[..], sh, b, pr)) {
        assert blocks[b].Valid(file[..]) && ForBlock(blocks[b], b, sh, pr, rnd, file);
      }
    }

    /** An encoder with the limit on symbol numbers set, and counters at zero. */
    constructor (table: Table, rnd: Rnd, sh: Shape, file: array<Octet>)
      requires GoodTable(table) && sh.Valid() && sh.al == 1 && sh.f < 0x100_0000
      requires DivCeil(sh.Kt(), sh.z) <= MAX_SYMBOLS
      requires file.Length == sh.f
      ensures Valid() && nextSbn == 0 && this.sh == sh && this.file == file && this.rnd == rnd
      ensures pr == ParamsFor(table, sh)
      ensures fresh(repr) && fresh(esi) && file[..] == old(file[..])
    {
      hide BlockEncoder.Valid, FillPartition, Size, ValidParams, DivCeil;
      FirstLargest(sh, 0);
      var p := table(Size(sh.Blocks(), 0));
      var bs;
      ghost var parts;
      bs, parts := MakeEncoders(sh, p, rnd, file);
      this.sh, this.rnd, this.file, pr, blocks := sh, rnd, file, p, bs;
      esi := new nat[sh.z](_ => 0);
      repr := parts;
      nextSbn := 0;
      new;
      CountersStart(esi[..]);
    }

    static method MakeEncoders(sh: Shape, pr: Params, rnd: Rnd, file: array<Octet>)
      returns (blocks: seq<BlockEncoder>, ghost parts: set<object>)
      requires sh.Valid() && ValidParams(pr) && DivCeil(sh.Kt(), sh.z) <= MAX_SYMBOLS
      requires file.Length == sh.f && Size(sh.Blocks(), 0) <= pr.kprime <= MAX_ESI
      ensures |blocks| == sh.z && fresh(parts) && file[..] == old(file[..])
      ensures forall i :: 0 <= i < |blocks| ==> (blocks[i] as object) in parts && (blocks[i].d as object) in parts
      ensures forall i, j :: 0 <= i < j < |blocks| ==> blocks[i] != blocks[j] && blocks[i].d != blocks[j].d
      ensures forall i :: 0 <= i < |blocks| ==> ForBlock(blocks[i], i, sh, pr, rnd, file) && blocks[i].Valid(file[..])
    {
      hide BlockEncoder.Valid, FillPartition, Size, ValidParams, DivCeil;
      blocks, parts := [], {};
      for sbn := 0 to sh.z
        invariant |blocks| == sbn && fresh(parts)
        invariant forall i :: 0 <= i < |blocks| ==> (blocks[i] as object) in parts && (blocks[i].d as object) in parts
        invariant forall i, j :: 0 <= i < j < |blocks| ==> blocks[i] != blocks[j] && blocks[i].d != blocks[j].d
        invariant forall i ::
          0 <= i < |blocks| ==> ForBlock(blocks[i], i, sh, pr, rnd, file) && blocks[i].Valid(file[..])
      {
        FirstLargest(sh, sbn);
        var b := new BlockEncoder(pr, rnd, sh, sbn, MAX_ESI, file[..]);
        blocks, parts := blocks + [b], parts + {b, b.d};
      }
    }

    /**
     The intermediate symbols of every block; a block for which that fails is left for later.  Anything
     but Done ends the program.
     */
    method GenerateAll() returns (st: Status)
      requires Valid()
      modifies repr
      ensures file[..] == old(file[..]) && nextSbn == old(nextSbn) && st != Failed
      ensures st == Done ==> Valid() && (Generated(|blocks|) || Undetermined())
      ensures (st == OutOfBounds ==> Overrun()) && (st == Aborted ==> Crowded())
    {
      hide ValidParams, Size, FillPartition, BlockEncoder.Valid, DivCeil, Counters, Encoders, Generated, Undetermined,
        Overrun, Crowded;
      ghost var counts := esi[..];
      NoneGenerated();
      for b := 0 to |blocks|
        invariant Encoders() && file[..] == old(file[..]) && esi[..] == counts && nextSbn == old(nextSbn)
        invariant Generated(b) || Undetermined()
      {
        st := Generate(b);
        if st == Aborted || st == OutOfBounds {
          return;
        }
      }
      st := Done;
    }

    method Generate(b: nat) returns (st: Status)
      requires Encoders() && b < |blocks|
      modifies repr
      ensures file[..] == old(file[..]) && esi[..] == old(esi[..]) && nextSbn == old(nextSbn)
      ensures st == Done || st == Failed ==> Encoders()
      ensures st == Done && old(Generated(b)) ==> Generated(b + 1)
      ensures st == Failed ==> Undetermined()
      ensures (st == OutOfBounds ==> Overrun()) && (st == Aborted ==> Crowded())
    {
      hide ValidParams, Size, FillPartition, BlockEncoder.Valid, DivCeil, SystemMatrix, Deficient, Used.For,
        Used.Overruns;
      st := blocks[b].GenerateSymbols(file, null, [], 0, 0, 0);
    }

    /** nanorq_encode; nothing is written when no symbol can be made. */
    method Encode(sbn: nat, e: nat) returns (written: nat, data: array<Octet>)
      requires Encoders() && sbn < |blocks| && e <= 65535
      modifies repr
      ensures fresh(data) && data.Length == sh.t && file[..] == old(file[..]) && esi[..] == old(esi[..])
      ensures written > 0 ==> written == sh.t && Encoders()
      ensures e < Size(sh.Blocks(), sbn) ==> written > 0
      ensures old(Ready()) ==> written > 0 && Ready() && Codes() == old(Codes())
      ensures old(Ready()) ==> Encoded(Entry(sbn, e, data[..]), Codes(), sh, pr, rnd)
    {
      hide ValidParams, CodeOf, SourceSymbols, Size, FillPartition, RowsOf, BlockEncoder.Valid, Symbol, DivCeil,
        Counters;
      data := new Octet[sh.t];
      ghost var codes := Codes();
      var b := blocks[sbn];
      assert b.Valid(file[..]) && ForBlock(b, sbn, sh, pr, rnd, file);
      if e < b.k {
        b.EncodeSource(file, e, data);
        written := sh.t;
      } else {
        var st;
        st, written := b.EncodeRepair(file, e, data, null, [], 0, 0, 0);
      }
      assert old(Ready()) ==> RowsOf(b.d) == old(RowsOf(b.d));
      assert old(Ready()) ==> data[..] == Symbol(RowsOf(b.d), Isi(e, b.k, pr), pr, rnd, sh.t);
      SymbolPrefix(RowsOf(b.d), Isi(e, b.k, pr), pr, rnd, sh.t);
      assert old(Ready()) ==> Codes() == codes;
    }

    /** The next symbol of the carousel. */
    method NextSymbol() returns (ok: bool, sbn: nat, e: nat, data: array<Octet>)
      requires Valid()
      modifies this`nextSbn, esi, repr
      ensures nextSbn == old(nextSbn) + 1 && file[..] == old(file[..]) && data.Length == sh.t
      ensures ok ==> Valid() && sbn == old(nextSbn) % sh.z && e == (old(nextSbn) / sh.z) % 0x1_0000
      ensures (old(nextSbn) / sh.z) % 0x1_0000 < Size(sh.Blocks(), old(nextSbn) % sh.z) ==> ok
      ensures old(Ready()) ==>
        ok && Ready() && Codes() == old(Codes()) && Encoded(Entry(sbn, e, data[..]), Codes(), sh, pr, rnd)
    {
      hide ValidParams, Counters, Counter, Turns, Encoded, Size, FillPartition, BlockEncoder.Valid, DivCeil, Codes,
        Ready, ForBlock;
      CountersStep(esi[..], nextSbn);
      ghost var before: seq<nat> := esi[..];
      sbn := nextSbn % sh.z;
      nextSbn := nextSbn + 1;
      e := esi[sbn];
      if e > 65535 {
        esi[sbn] := 0;
        e := 0;
      }
      var written;
      written, data := Encode(sbn, e);
      if written != sh.t {
        return false, sbn, e, data;
      }
      esi[sbn] := e + 1;
      assert forall b :: 0 <= b < |before| ==> esi[b] == if b == sbn then e + 1 else before[b];
      assert esi[..] == before[sbn := e + 1];
      ok := true;
    }

    /** tx_send_one_frame, up to the hand-over to the modem. */
    method SendOne() returns (ok: bool, frame: seq<Octet>)
      requires Valid() && nextSbn < 0x7FFF_FFFF
      modifies this`nextSbn, esi, repr
      ensures nextSbn == old(nextSbn) + 1 && file[..] == old(file[..])
      ensures ok ==> Valid() && |frame| == HEADER_SIZE + sh.t && Passes(frame, HEADER_SIZE + sh.t)
      ensures (old(nextSbn) / sh.z) % 0x1_0000 < Size(sh.Blocks(), old(nextSbn) % sh.z) ==> ok
      ensures ok ==> Sbn(frame) == old(nextSbn) % sh.z && Esi(frame) == (old(nextSbn) / sh.z) % 0x1_0000
      ensures old(Ready()) ==> ok && Ready() && Codes() == old(Codes()) && Sent(frame, Codes(), sh, pr, rnd)
    {
      hide ValidParams, Counters, Encoded, Passes, NewDecoder, ParseCommon, ParseScheme, Size, FillPartition,
        PackConfig, PackTag, BlockEncoder.Valid, DivCeil, CrcOf, Codes, Ready, ForBlock;
      var sbn, e, data;
      ok, sbn, e, data := NextSymbol();
      if !ok {
        return false, [];
      }
      var body := PackConfig(sh) + PackTag(sbn, e) + data[..];
      var crc := Crc6_0x6F(1, body);
      frame := [PACKET_RQ_CONFIG * 64 + crc] + body;
      FrameAgrees(sh, sbn, e, data[..]);
      if old(Ready()) {
        SentFrame(sh, pr, rnd, Codes(), sbn, e, data[..]);
      }
      assert frame == FrameOf(sh, sbn, e, data[..]);
    }
  }

  /**
   The file is too large for a 24-bit length; or creating the encoder divides by zero or does not end;
   or the intermediate symbols have been computed, where anything but Done ends the program.
   */
  datatype Opening = TooLarge | Faulty | Computed(st: Status)

  /** tx_session_open, once the file is at hand: a session with one frame counter for all blocks. */
  method OpenSession(table: Table, rnd: Rnd, file: array<Octet>, symbolSize: nat) returns (o: Opening, tx: TxSession?)
    requires GoodTable(table) && 0 < symbolSize < 0x1_0000
    ensures file[..] == old(file[..])
    ensures o == TooLarge <==> file.Length > 16777215
    ensures o == Faulty <==> file.Length <= 16777215 && (file.Length == 0 || !LargeEnough(file.Length, symbolSize))
    ensures o.Computed? ==>
      tx != null && tx.sh.t > 0 && tx.file == file && tx.nextSbn == 0 && tx.rnd == rnd && fresh(tx)
    ensures o.Computed? ==>
      tx.sh.f == file.Length && tx.sh.t == symbolSize && GoodBlocks(tx.sh) && tx.pr == ParamsFor(table, tx.sh)
    ensures o == Computed(Done) ==> tx.Valid() && (tx.Generated(|tx.blocks|) || tx.Undetermined())
    ensures o.Computed? ==>
      o.st != Failed && (o.st == OutOfBounds ==> tx.Overrun()) && (o.st == Aborted ==> tx.Crowded())
  {
    hide GoodTable, TxSession.Valid, GoodBlocks, Size, FillPartition, TxSession.Generated, TxSession.Undetermined,
      TxSession.Overrun, TxSession.Crowded, Multiplied, LargeEnough, Aligned, Chosen, DivCeil, Unfit;
    if file.Length > 16777215 {
      return TooLarge, null;
    }
    Unaligned(symbolSize);
    var made;
    ghost var i;
    made, i := NewEncoder(file.Length, symbolSize, 0, 0, 1);
    SameForever(symbolSize, i);
    if !made.Created? {
      SameForever(symbolSize, 0);
      return Faulty, null;
    }
    FewSymbols(made.shape);
    tx := new TxSession(table, rnd, made.shape, file);
    var st := tx.GenerateAll();
    o := Computed(st);
  }

  /** An alignment of one leaves every symbol size as it is. */
  lemma Unaligned(t: nat)
    requires 0 < t
    ensures Alignment(1) == 1 && Aligned(t, 1) == t
  {}

  lemma FewSymbols(sh: Shape)
    requires sh.Valid() && GoodBlocks(sh)
    ensures DivCeil(sh.Kt(), sh.z) <= MAX_SYMBOLS
  {
    hide Size, FillPartition, DivCeil;
    FirstSize(sh.Kt(), sh.z);
    assert Size(sh.Blocks(), 0) <= MAX_SYMBOLS;
  }

  /** Frame k of a session names block k mod Z and symbol (k div Z) mod 65536. */
  ghost predicate OnCarousel(frame: seq<Octet>, k: nat, sh: Shape)
    requires sh.Valid()
  {
    Passes(frame, HEADER_SIZE + sh.t) && Sbn(frame) == k % sh.z && Esi(frame) == (k / sh.z) % 0x1_0000
  }

  /** The frame that carries symbol e of block b for the r-th time. */
  lemma CarouselPlace(frame: seq<Octet>, k: nat, sh: Shape, b: nat, e: nat, r: nat)
    requires sh.Valid() && b < sh.z && e < 0x1_0000 && k == (e + 0x1_0000 * r) * sh.z + b && OnCarousel(frame, k, sh)
    ensures Sbn(frame) == b && Esi(frame) == e
  {
    hide Passes, Sbn, Esi;
    DivModUnique(k, sh.z, e + 0x1_0000 * r, b);
    DivModUnique(e + 0x1_0000 * r, 0x1_0000, r, e);
  }

  /** The sending loop of tx_thread_main for one file with a limit on its frames. */
  method SendFrames(tx: TxSession, limit: nat) returns (frames: seq<seq<Octet>>)
    requires tx.Valid() && tx.nextSbn == 0 && limit < 0x7FFF_FFFF
    modifies tx`nextSbn, tx.esi, tx.repr
    ensures tx.file[..] == old(tx.file[..]) && |frames| <= limit
    ensures forall k :: 0 <= k < |frames| ==> OnCarousel(frames[k], k, tx.sh)
    ensures old(tx.Ready()) ==> |frames| == limit
    ensures old(tx.Ready()) ==> forall k :: 0 <= k < |frames| ==> Sent(frames[k], old(tx.Codes()), tx.sh, tx.pr, tx.rnd)
  {
    hide TxSession.Valid, TxSession.Ready, TxSession.Codes, Passes, Sent, Sbn, Esi;
    frames := [];
    while |frames| < limit
      invariant tx.Valid() && tx.nextSbn == |frames| <= limit && tx.file[..] == old(tx.file[..])
      invariant forall k :: 0 <= k < |frames| ==> OnCarousel(frames[k], k, tx.sh)
      invariant old(tx.Ready()) ==> tx.Ready() && tx.Codes() == old(tx.Codes())
      invariant old(tx.Ready()) ==>
        forall k :: 0 <= k < |frames| ==> Sent(frames[k], old(tx.Codes()), tx.sh, tx.pr, tx.rnd)
    {
      var ok, frame := tx.SendOne();
      if !ok {
        return;
      }
      frames := frames + [frame];
    }
  }

  ghost predicate ForBlock(b: BlockEncoder, i: nat, sh: Shape, pr: Params, rnd: Rnd, file: array<Octet>)
    requires sh.t > 0
  {
    && b.sbn == i && b.sh == sh && b.pr == pr && b.rnd == rnd && (b.d as object) != (file as object)
    && b.k == Size(sh.Blocks(), i) <= pr.kprime && pr.l <= b.d.Length0 && b.d.Length1 == sh.t
  }

  ghost function CodeRows(b: BlockEncoder, sh: Shape, pr: Params): Mat
    requires pr.l <= b.d.Length0
    reads b.d
  {
    RowsOf(b.d)[..pr.l]
  }
}
