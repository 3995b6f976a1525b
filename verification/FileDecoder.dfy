/**
 Decoding a file: one decoder per source block, all writing to one output file, and what their
 symbols determine together (raptorq/nanorq.c, lines 48-58, 130-146, 375-415 and 517-550).
 */
module FileDecoding {
  import opened GF256
  import opened Linear
  import opened Oblas
  import opened Scheduling
  import opened Hdpc
  import opened Tuples
  import opened Symbols
  import opened Primes
  import opened Layout
  import opened Transfer
  import opened TransferInfo
  import opened Bitmasks
  import opened Encoding
  import opened Reception
  import opened Sufficiency
  import opened Decoding

  /** params_init: the parameters for a number of source symbols, section 5.6 of RFC 6330. */
  type Table = nat -> Params

  ghost predicate GoodTable(table: Table) {
    forall k: nat :: k <= MAX_SYMBOLS ==> ValidParams(table(k)) && k <= table(k).kprime <= MAX_SYMBOLS
  }

  /** Block 0 is a largest block, so the parameters for it serve every block. */
  lemma FirstLargest(sh: Shape, b: nat)
    requires sh.Valid() && DivCeil(sh.Kt(), sh.z) <= MAX_SYMBOLS
    ensures Size(sh.Blocks(), b) <= Size(sh.Blocks(), 0) <= MAX_SYMBOLS
    ensures Size(sh.Blocks(), b) > 0 ==> b < sh.z
  {
    FillSplits(sh.Kt(), sh.z);
  }

  // ---------- what the received symbols determine ----------

  /** One accepted symbol: block, symbol number, contents. */
  datatype Entry = Entry(sbn: nat, esi: nat, data: Vec)

  /** codes[b] are intermediate symbols of block b of file f. */
  ghost predicate CodesOf(codes: seq<Mat>, f: Vec, sh: Shape, pr: Params, rnd: Rnd) {
    && sh.Valid() && |f| == sh.f && ValidParams(pr) && |codes| == sh.z
    && forall b :: 0 <= b < sh.z ==> CodeOf(codes[b], pr, rnd, sh.t, SourceSymbols(f, sh, b, pr))
  }

  /** An accepted symbol is the encoding symbol of that number. */
  ghost predicate Encoded(x: Entry, codes: seq<Mat>, sh: Shape, pr: Params, rnd: Rnd)
    requires sh.Valid()
  {
    x.sbn < |codes| && Size(sh.Blocks(), x.sbn) <= pr.kprime
    && IsSymbol(codes[x.sbn], Isi(x.esi, Size(sh.Blocks(), x.sbn), pr), x.data, pr, rnd, sh.t)
  }

  /** A code of a block, with symbols made from it, is genuine: its padding symbols are zero. */
  lemma CodeGenuine(c: Mat, f: Vec, sh: Shape, b: nat, pr: Params, rnd: Rnd, got: SymbolMap)
    requires sh.Valid() && |f| == sh.f && ValidParams(pr) && Size(sh.Blocks(), b) <= pr.kprime
    requires CodeOf(c, pr, rnd, sh.t, SourceSymbols(f, sh, b, pr))
    requires forall e :: e in got ==> IsSymbol(c, Isi(e, Size(sh.Blocks(), b), pr), got[e], pr, rnd, sh.t)
    ensures Genuine(c, pr, rnd, sh.t, Size(sh.Blocks(), b), got)
  {
    hide ValidParams, Symbol, Precoded, FillPartition, Size;
    var src := SourceSymbols(f, sh, b, pr);
    forall i: nat | Size(sh.Blocks(), b) <= i < pr.kprime ensures IsSymbol(c, i, Symbols.Zeros(sh.t), pr, rnd, sh.t) {
      CodeShape(c, pr, rnd, sh.t);
      assert Symbol(c, i, pr, rnd, sh.t) == src[i];
    }
  }

  lemma CodeShape(c: Mat, pr: Params, rnd: Rnd, t: nat)
    requires ValidParams(pr) && Precoded(pr, rnd, c, t)
    ensures IsMat(c, pr.l, t)
  {}

  /** A source symbol of a code of the block is the symbol of the file. */
  lemma CodeSource(c: Mat, f: Vec, sh: Shape, b: nat, pr: Params, rnd: Rnd, e: nat, v: Vec)
    requires sh.Valid() && |f| == sh.f && ValidParams(pr) && e < Size(sh.Blocks(), b) <= pr.kprime
    requires CodeOf(c, pr, rnd, sh.t, SourceSymbols(f, sh, b, pr)) && IsSymbol(c, e, v, pr, rnd, sh.t)
    ensures v == SymbolIn(f, sh, b, e, Symbols.Zeros(sh.t))
  {
    hide ValidParams, Symbol, Precoded, FillPartition, Size, SymbolIn;
    assert Symbol(c, e, pr, rnd, sh.t) == SourceSymbols(f, sh, b, pr)[e];
  }

  /**
   The erasure round trip for a block: if every accepted symbol is an encoding symbol of file g's
   block b, then every source symbol the decoder has written, received or repaired, is g's, and
   it is in its place in the output file f.
   */
  lemma BlockRoundTrip(c: Mat, g: Vec, f: Vec, sh: Shape, b: nat, pr: Params, rnd: Rnd, got: SymbolMap,
                       written: SymbolMap, e: nat)
    requires sh.Valid() && |g| == |f| == sh.f && ValidParams(pr) && e < Size(sh.Blocks(), b) <= pr.kprime && b < sh.z
    requires CodeOf(c, pr, rnd, sh.t, SourceSymbols(g, sh, b, pr))
    requires forall x :: x in got ==> IsSymbol(c, Isi(x, Size(sh.Blocks(), b), pr), got[x], pr, rnd, sh.t)
    requires Faithful(pr, rnd, sh.t, Size(sh.Blocks(), b), got, written) && e in written && FileOk(f, sh, b, written)
    ensures written[e] == SymbolIn(g, sh, b, e, Symbols.Zeros(sh.t))
    ensures Stored(f, sh, b, e, SymbolIn(g, sh, b, e, Symbols.Zeros(sh.t)))
  {
    hide ValidParams, CodeOf, SymbolIn, FillPartition, Size, IsSymbol, Stored, Genuine;
    CodeGenuine(c, g, sh, b, pr, rnd, got);
    CodeSource(c, g, sh, b, pr, rnd, e, written[e]);
  }

  // ---------- the decoder of a file ----------

  const MAX_ESI: nat := 65535

  /** The state of a block: how many symbols it has accepted, which are there, and whether no repair is possible yet. */
  datatype Count = Count(seen: nat, ids: set<nat>, short: bool)

  /** The answer to a symbol, for a block of `size` source symbols. */
  function Answer(c: Count, size: nat, esi: nat): Verdict {
    if HasAll(c, size) then Ignored else if esi in c.ids then Duplicate else Added
  }

  predicate HasAll(c: Count, size: nat) {
    forall e :: 0 <= e < size ==> e in c.ids
  }

  /** One symbol more for block b. */
  function AfterSymbol(t: seq<Count>, b: nat, esi: nat, short: bool): seq<Count>
    requires b < |t|
  {
    t[b := Count(t[b].seen + 1, t[b].ids + {esi}, short)]
  }

  class FileDecoder {
    const sh: Shape
    const pr: Params
    const rnd: Rnd
    const file: array<Octet>
    const blocks: seq<BlockDecoder>
    ghost const repr: set<object>
    /** The symbols accepted, in order. */
    ghost var log: seq<Entry>

    /** The decoders are for the blocks of this transfer, and they and their parts are different objects. */
    ghost predicate Built() {
      && sh.Valid() && ValidParams(pr) && DivCeil(sh.Kt(), sh.z) <= MAX_SYMBOLS
      && file.Length == sh.f && |blocks| == MAX_BLOCKS
      && (file as object) in repr && this !in repr
      && (forall i :: 0 <= i < |blocks| ==>
        (blocks[i] as object) in repr && (blocks[i].d as object) in repr && (blocks[i].mask as object) in repr)
      && (forall i :: 0 <= i < |blocks| ==> NewBlock(blocks[i], i, sh, pr, rnd, file))
      && (forall i, j :: 0 <= i < j < |blocks| ==>
        blocks[i] != blocks[j] && blocks[i].d != blocks[j].d && blocks[i].mask != blocks[j].mask)
    }

    ghost predicate Logged(i: nat)
      requires i < |blocks|
      reads this, blocks[i]
    {
      InLog(i, blocks[i].got, log)
    }

    ghost predicate Valid()
      reads this, repr
    {
      && Built()
      && (forall i :: 0 <= i < |blocks| ==> blocks[i].Valid(file[..]))
      && (forall i :: 0 <= i < |blocks| ==> Logged(i))
    }

    /** How many source symbols block i misses. */
    ghost function Gaps(i: nat): nat
      requires i < |blocks|
      reads blocks[i], blocks[i].mask
    {
      blocks[i].Gaps()
    }

    ghost function CountOf(b: BlockDecoder): Count
      reads b, b.mask
    {
      Count(|b.got|, b.mask.Contents(), b.Short())
    }

    /** The state of every block. */
    ghost function Tally(): (t: seq<Count>)
      requires Built()
      reads repr
      ensures |t| == MAX_BLOCKS && forall i :: 0 <= i < |t| ==> t[i] == CountOf(blocks[i])
    {
      seq(MAX_BLOCKS, i requires 0 <= i < MAX_BLOCKS reads repr => CountOf(blocks[i]))
    }

    /** Block i misses no source symbol. */
    ghost predicate Whole(i: nat)
      requires Built() && i < MAX_BLOCKS
      reads repr
    {
      HasAll(Tally()[i], Sizes()[i])
    }

    /** For every block number, the number of its source symbols. */
    ghost function Sizes(): (s: seq<nat>)
      requires sh.t > 0
      ensures |s| == MAX_BLOCKS && forall i :: 0 <= i < |s| ==> s[i] == Size(sh.Blocks(), i)
    {
      seq(MAX_BLOCKS, i requires 0 <= i < MAX_BLOCKS => Size(sh.Blocks(), i))
    }

    /** No replay has run into the late operation. */
    ghost predicate Sound()
      reads repr
    {
      forall i :: 0 <= i < |blocks| ==> (blocks[i] as object) in repr && blocks[i].Sound()
    }

    /** For every replay, elimination had recorded an operation. */
    ghost predicate Eliminated()
      reads repr
    {
      forall i :: 0 <= i < |blocks| ==>
        (blocks[i] as object) in repr && (blocks[i].repaired ==> blocks[i].used.Eliminated())
    }

    /** Then no replay has run into the late operation. */
    lemma EliminatedSound()
      requires Valid() && Eliminated()
      ensures Sound()
    {
      hide BlockDecoder.Valid, NewBlock, DivCeil, ValidParams, Used.Eliminated, Used.Harmless, InLog;
      forall i | 0 <= i < |blocks| ensures blocks[i].Sound() {
        assert blocks[i].Valid(file[..]);
        blocks[i].EliminatedSound(file[..]);
      }
    }

    /** nanorq_decoder_new with the limit on symbol numbers set, and every block's state. */
    constructor (table: Table, rnd: Rnd, sh: Shape)
      requires GoodTable(table) && sh.Valid() && DivCeil(sh.Kt(), sh.z) <= MAX_SYMBOLS
      ensures Valid() && Built() && |blocks| == MAX_BLOCKS && fresh(repr) && this !in repr && log == [] && Sound()
      ensures this.sh == sh && this.rnd == rnd && pr == table(Size(sh.Blocks(), 0))
      ensures forall i :: 0 <= i < MAX_BLOCKS ==> Tally()[i].seen == 0 && Tally()[i].ids == {}
    {
      hide BlockDecoder.Valid, BlockDecoder.Gaps, FillPartition, Size, ValidParams, DivCeil, InLog, BlockDecoder.Short,
        Bitmask.Contents, NewBlock;
      FirstLargest(sh, 0);
      var p := table(Size(sh.Blocks(), 0));
      var f := new Octet[sh.f](_ => 0);
      var bs;
      ghost var parts;
      bs, parts := MakeBlocks(sh, p, rnd, f);
      this.sh, this.rnd, pr, file, blocks := sh, rnd, p, f, bs;
      repr := parts + {f};
      log := [];
      new;
      forall i | 0 <= i < |blocks| ensures Logged(i) {
        NothingLogged(i, log);
      }
    }

    static method MakeBlocks(sh: Shape, pr: Params, rnd: Rnd, file: array<Octet>)
      returns (blocks: seq<BlockDecoder>, ghost parts: set<object>)
      requires sh.Valid() && ValidParams(pr) && DivCeil(sh.Kt(), sh.z) <= MAX_SYMBOLS
      requires file.Length == sh.f && Size(sh.Blocks(), 0) <= pr.kprime <= MAX_ESI
      ensures |blocks| == MAX_BLOCKS && fresh(parts)
      ensures forall i :: 0 <= i < |blocks| ==>
        (blocks[i] as object) in parts && (blocks[i].d as object) in parts && (blocks[i].mask as object) in parts
      ensures forall i, j :: 0 <= i < j < |blocks| ==>
        blocks[i] != blocks[j] && blocks[i].d != blocks[j].d && blocks[i].mask != blocks[j].mask
      ensures forall i :: 0 <= i < |blocks| ==> NewBlock(blocks[i], i, sh, pr, rnd, file)
      ensures forall i :: 0 <= i < |blocks| ==> NothingReceived(blocks[i], file[..])
    {
      hide BlockDecoder.Valid, BlockDecoder.Gaps, FillPartition, Size, ValidParams, Bitmask.Contents;
      blocks, parts := [], {};
      for sbn := 0 to MAX_BLOCKS
        invariant |blocks| == sbn
        invariant fresh(parts) && forall i :: 0 <= i < |blocks| ==>
          (blocks[i] as object) in parts && (blocks[i].d as object) in parts && (blocks[i].mask as object) in parts
        invariant forall i, j :: 0 <= i < j < |blocks| ==>
          blocks[i] != blocks[j] && blocks[i].d != blocks[j].d && blocks[i].mask != blocks[j].mask
        invariant forall i :: 0 <= i < |blocks| ==> NewBlock(blocks[i], i, sh, pr, rnd, file)
        invariant forall i :: 0 <= i < |blocks| ==> NothingReceived(blocks[i], file[..])
      {
        FirstLargest(sh, sbn);
        var b := new BlockDecoder(pr, rnd, sh, sbn, MAX_ESI, file[..]);
        blocks, parts := blocks + [b], parts + {b, b.d, b.mask};
      }
    }

    lemma BlockCounts(i: nat)
      requires Built() && i < MAX_BLOCKS
      ensures Tally()[i] == Count(|blocks[i].got|, blocks[i].mask.Contents(), blocks[i].Short())
      ensures Whole(i) <==> Gaps(i) == 0
    {
      hide ValidParams, FillPartition, Size, DivCeil, Missing, BlockDecoder.Short, Bitmask.Contents;
      NoneMissing(blocks[i].mask.Contents(), blocks[i].k);
      assert NewBlock(blocks[i], i, sh, pr, rnd, file);
    }

    /** The block's part of accepting a symbol. */
    method Hand(sbn: nat, esi: nat, data: Vec) returns (v: Verdict)
      requires Valid() && sbn < MAX_BLOCKS && |data| == sh.t && esi <= MAX_ESI
      modifies repr
      ensures Built() && v == Answer(old(Tally())[sbn], Sizes()[sbn], esi)
      ensures forall i :: 0 <= i < |blocks| ==> blocks[i].Valid(file[..])
      ensures v == Added ==> !blocks[sbn].repaired && sbn < sh.z && Sizes()[sbn] > 0
      ensures Tally() == if v == Added then AfterSymbol(old(Tally()), sbn, esi, Tally()[sbn].short) else old(Tally())
      ensures forall i :: 0 <= i < |blocks| ==>
        blocks[i].got == if i == sbn && v == Added then old(blocks[i].got)[esi := data] else old(blocks[i].got)
    {
      hide BlockDecoder.Valid, FillPartition, Size, ValidParams, OnlyBlock, Written, InLog, DivCeil, Missing,
        BlockDecoder.Short, Bitmask.Contents, HasAll, CountOf, BlockDecoder.Gaps, Faithful;
      ghost var f0, t := file[..], Tally();
      BlockCounts(sbn);
      var b := blocks[sbn];
      v := b.AddSymbol(file, data, esi);
      OthersValid(f0, sbn);
      if v == Added {
        BlockInFile(b, file[..]);
      }
      BlockCounts(sbn);
      assert forall i :: 0 <= i < MAX_BLOCKS && i != sbn ==> CountOf(blocks[i]) == t[i];
    }

    /** nanorq_decoder_add_symbol. */
    method AddSymbol(sbn: nat, esi: nat, data: Vec) returns (v: Verdict)
      requires Valid() && sbn < MAX_BLOCKS && |data| == sh.t && esi <= MAX_ESI
      modifies this`log, repr
      ensures Valid() && v == Answer(old(Tally())[sbn], Sizes()[sbn], esi)
      ensures v == Added ==>
        log == old(log) + [Entry(sbn, esi, data)] && !blocks[sbn].repaired && sbn < sh.z && Sizes()[sbn] > 0
      ensures v == Added ==> Tally() == AfterSymbol(old(Tally()), sbn, esi, Tally()[sbn].short)
      ensures v != Added ==> log == old(log) && Tally() == old(Tally())
    {
      hide BlockDecoder.Valid, FillPartition, Size, ValidParams, InLog, DivCeil, HasAll, CountOf, Answer, AfterSymbol,
        NewBlock, Sizes;
      ghost var log0 := log;
      v := Hand(sbn, esi, data);
      if v == Added {
        log := log + [Entry(sbn, esi, data)];
      }
      forall i | 0 <= i < |blocks| ensures Logged(i) {
        assert old(Logged(i));
        InLogMore(i, old(blocks[i].got), log0, Entry(sbn, esi, data));
      }
    }

    /** A block that misses nothing and needed no repair has accepted at least as many symbols as it has. */
    lemma EnoughSeen(i: nat)
      requires Valid() && i < |blocks| && !blocks[i].repaired && Whole(i)
      ensures Tally()[i].seen >= Sizes()[i]
    {
      hide BlockDecoder.Valid, FillPartition, Size, ValidParams, DivCeil, Whole, BlockDecoder.Short, Missing;
      BlockCounts(i);
      assert NewBlock(blocks[i], i, sh, pr, rnd, file) && blocks[i].Valid(file[..]);
      blocks[i].EnoughSeen(file[..]);
    }

    /** A block that misses something is short exactly if what it has accepted is not enough. */
    lemma WaitsFor(i: nat)
      requires Valid() && i < |blocks| && !Whole(i)
      ensures Tally()[i].short <==> !Sufficient(pr, rnd, Sizes()[i], Tally()[i].ids)
      ensures Tally()[i].seen == |Tally()[i].ids|
      ensures Tally()[i].seen < Sizes()[i] ==> Tally()[i].short
    {
      hide BlockDecoder.Valid, FillPartition, Size, ValidParams, DivCeil, Whole, BlockDecoder.Short, Missing,
        Sufficient, BlockDecoder.Gaps;
      BlockCounts(i);
      assert NewBlock(blocks[i], i, sh, pr, rnd, file) && blocks[i].Valid(file[..]);
      blocks[i].ShortIff(file[..]);
      if Tally()[i].seen < Sizes()[i] {
        blocks[i].FewShort(file[..]);
      }
    }

    /** A block that misses nothing has accepted enough symbols. */
    lemma WholeEnough(i: nat)
      requires Valid() && i < |blocks| && Gaps(i) == 0
      ensures Sufficient(pr, rnd, Sizes()[i], NumbersIn(log, i))
    {
      hide BlockDecoder.Valid, FillPartition, Size, ValidParams, DivCeil, Missing, Sufficient, BlockDecoder.Gaps;
      assert NewBlock(blocks[i], i, sh, pr, rnd, file) && blocks[i].Valid(file[..]) && Logged(i);
      blocks[i].WholeEnough(file[..]);
      forall e | e in blocks[i].got ensures e in NumbersIn(log, i) {
        assert Entry(i, e, blocks[i].got[e]) in log;
      }
      SufficientMore(pr, rnd, Sizes()[i], blocks[i].got.Keys, NumbersIn(log, i));
    }

    /**
     What a repair that ends the program is due to: sparse rows that need the dense ones, or a replay out of
     bounds.
     */
    ghost predicate Broken(sbn: nat, st: Status)
      requires sbn < |blocks|
      reads blocks[sbn], blocks[sbn].mask
    {
      if st == Status.Aborted then blocks[sbn].Starved()
      else
        && st == OutOfBounds && blocks[sbn].Sized()
        && blocks[sbn].used.For(blocks[sbn].pr, rnd) && blocks[sbn].used.Overruns()
    }

    /** nanorq_repair_block. */
    method RepairBlock(sbn: nat) returns (st: Status)
      requires Valid() && sbn < MAX_BLOCKS
      modifies repr
      ensures st == Done || st == Failed ==> Valid()
      ensures st == Done ==>
        Tally() == old(Tally())[sbn := old(Tally()[sbn]).(ids := Tally()[sbn].ids, short := Tally()[sbn].short)]
      ensures st == Done ==> Whole(sbn) && old(Tally()[sbn]).ids <= Tally()[sbn].ids
      ensures st == Failed ==> Tally() == old(Tally())
      ensures !old(Whole(sbn)) && (st == Done || st == Failed) ==> (st == Failed <==> old(Tally()[sbn]).short)
      ensures old(Whole(sbn)) ==> st == Done
      ensures st != Done && st != Failed ==> Broken(sbn, st)
    {
      hide BlockDecoder.Valid, FillPartition, Size, ValidParams, OnlyBlock, InLog, DivCeil, Missing, BlockDecoder.Short,
        Whole, Bitmask.Contents, HasAll, BlockDecoder.Starved, BlockDecoder.RepairIds, Used.For, Used.Overruns, CountOf,
        BlockDecoder.Gaps;
      ghost var f0 := file[..];
      ghost var t := Tally();
      BlockCounts(sbn);
      st := blocks[sbn].RepairBlock(file);
      if st == Done || st == Failed {
        OthersValid(f0, sbn);
        BlockCounts(sbn);
        assert forall i :: 0 <= i < MAX_BLOCKS && i != sbn ==> CountOf(blocks[i]) == t[i];
      }
      forall i | 0 <= i < |blocks| ensures Logged(i) {
        assert old(Logged(i));
      }
    }

    lemma OthersValid(f0: Vec, sbn: nat)
      requires Built() && sbn < |blocks| && blocks[sbn].Valid(file[..]) && OnlyBlock(sh, sbn, f0, file[..])
      requires forall i :: 0 <= i < |blocks| && i != sbn ==> blocks[i].Valid(f0)
      ensures forall i :: 0 <= i < |blocks| ==> blocks[i].Valid(file[..])
    {
      hide BlockDecoder.Valid, FillPartition, Size, ValidParams, OnlyBlock;
      forall i | 0 <= i < |blocks| && i != sbn ensures blocks[i].Valid(file[..]) {
        blocks[i].OtherBlock(sbn, f0, file[..]);
      }
    }

    /**
     The erasure round trip for a file: when no block misses a source symbol and every accepted symbol
     is an encoding symbol of file f, the output file is f.
     */
    lemma WholeFile(f: Vec, codes: seq<Mat>)
      requires Valid() && Sound() && sh.z <= |blocks| && forall i :: 0 <= i < sh.z ==> Gaps(i) == 0
      requires CodesOf(codes, f, sh, pr, rnd) && forall x :: x in log ==> Encoded(x, codes, sh, pr, rnd)
      ensures file[..] == f
    {
      hide BlockDecoder.Valid, FillPartition, Size, ValidParams, DivCeil, CodeOf, SymbolIn, Stored, CodesOf, Encoded;
      CodesShape(codes, f, sh, pr, rnd);
      forall b, e | 0 <= b < sh.z && 0 <= e < Size(sh.Blocks(), b)
        ensures Stored(file[..], sh, b, e, SymbolIn(f, sh, b, e, Symbols.Zeros(sh.t)))
      {
        BlockDone(f, codes, b, e);
      }
      AllStored(sh, file[..], f);
    }

    lemma BlockDone(f: Vec, codes: seq<Mat>, b: nat, e: nat)
      requires Valid() && Sound() && b < sh.z <= |blocks| && Gaps(b) == 0 && e < Size(sh.Blocks(), b) && |f| == sh.f
      requires CodesOf(codes, f, sh, pr, rnd) && forall x :: x in log ==> Encoded(x, codes, sh, pr, rnd)
      ensures Stored(file[..], sh, b, e, SymbolIn(f, sh, b, e, Symbols.Zeros(sh.t)))
    {
      hide FillPartition, Size, ValidParams, DivCeil, CodeOf, SymbolIn, Stored, IsSymbol, Faithful, RowsOf, BinOk,
        MatrixOk, FileOk;
      var d := blocks[b];
      assert Logged(b) && d.Valid(file[..]);
      d.NoGaps(file[..], e);
      forall x | x in d.got ensures IsSymbol(codes[b], Isi(x, Size(sh.Blocks(), b), pr), d.got[x], pr, rnd, sh.t) {
        assert Encoded(Entry(b, x, d.got[x]), codes, sh, pr, rnd);
      }
      BlockRoundTrip(codes[b], f, file[..], sh, b, pr, rnd, d.got, d.written, e);
    }
  }

  lemma CodesShape(codes: seq<Mat>, f: Vec, sh: Shape, pr: Params, rnd: Rnd)
    requires CodesOf(codes, f, sh, pr, rnd)
    ensures |f| == sh.f
  {}

  /** Every symbol block i has accepted is in the log. */
  ghost predicate InLog(i: nat, got: SymbolMap, log: seq<Entry>) {
    forall e :: e in got ==> Entry(i, e, got[e]) in log
  }

  /** The numbers of the accepted symbols of block i. */
  ghost function NumbersIn(log: seq<Entry>, i: nat): set<nat> {
    set x | x in log && x.sbn == i :: x.esi
  }

  lemma NothingLogged(i: nat, log: seq<Entry>)
    ensures InLog(i, map[], log)
  {}

  lemma InLogMore(i: nat, got: SymbolMap, log: seq<Entry>, x: Entry)
    requires InLog(i, got, log)
    ensures InLog(i, got, log + [x]) && (x.sbn == i ==> InLog(i, got[x.esi := x.data], log + [x]))
  {}

  /** A block decoder as created. */
  ghost predicate NothingReceived(b: BlockDecoder, f: Vec)
    reads b, b.d, b.mask
  {
    b.Valid(f) && b.got == map[] && !b.repaired && b.mask.Contents() == {}
  }

  /** A decoder for block i. */
  ghost predicate NewBlock(b: BlockDecoder, i: nat, sh: Shape, pr: Params, rnd: Rnd, file: array<Octet>)
    requires sh.t > 0
  {
    && b.sbn == i && b.sh == sh && b.pr == pr && b.rnd == rnd && b.maxEsi == MAX_ESI
    && b.k == Size(sh.Blocks(), i) && (b.d as object) != (file as object)
  }

  lemma BlockInFile(b: BlockDecoder, f: Vec)
    requires b.Valid(f)
    ensures b.k > 0 ==> b.sbn < b.sh.z
  {}
}
