/**
 Decoding a source block: accepting symbols and repairing the missing ones (raptorq/nanorq.c, lines
 130-146, 517-558 and 608-672).
 */
module Decoding {
  import opened GF256
  import opened Linear
  import opened SpMat
  import opened Oblas
  import opened Scheduling
  import opened Preconditioning
  import opened Hdpc
  import opened Rank
  import opened Replaying
  import opened ReplayOrder
  import opened Inversion
  import opened IntermediateSymbols
  import opened Tuples
  import opened Generation
  import opened Symbols
  import opened Degrees
  import opened Layout
  import opened Transfer
  import opened Bitmasks
  import opened Encoding
  import opened Reception
  import opened Sufficiency

  // ---------- symbols in the file ----------

  /** The bytes of a symbol that lie in the file are in their places. */
  ghost predicate Stored(f: Vec, sh: Shape, sbn: nat, esi: nat, v: Vec)
    requires sh.Valid() && |f| == sh.f
  {
    |v| == sh.t && forall b :: 0 <= b < sh.t && ByteAt(sh, sbn, esi, b) < sh.f ==> f[ByteAt(sh, sbn, esi, b)] == v[b]
  }

  lemma WrittenStored(sh: Shape, sbn: nat, esi: nat, data: Vec, f0: Vec, f: Vec)
    requires sh.Valid() && sbn < sh.z && esi < Size(sh.Blocks(), sbn) && Written(sh, sbn, esi, data, f0, f, sh.t)
    ensures Stored(f, sh, sbn, esi, data)
  {
    hide FillPartition, Size, Owner, ByteAt;
    forall b | 0 <= b < sh.t && ByteAt(sh, sbn, esi, b) < sh.f ensures f[ByteAt(sh, sbn, esi, b)] == data[b] {
      OwnerByteAt(sh, sbn, esi, b);
    }
  }

  /** Writing one symbol leaves every other one in place. */
  lemma StoredKept(sh: Shape, sbn: nat, esi: nat, data: Vec, f0: Vec, f: Vec, b: nat, e: nat, v: Vec)
    requires sh.Valid() && b < sh.z && e < Size(sh.Blocks(), b) && (b, e) != (sbn, esi)
    requires Written(sh, sbn, esi, data, f0, f, sh.t) && Stored(f0, sh, b, e, v)
    ensures Stored(f, sh, b, e, v)
  {
    hide FillPartition, Size, Owner, ByteAt;
    forall x | 0 <= x < sh.t && ByteAt(sh, b, e, x) < sh.f ensures f[ByteAt(sh, b, e, x)] == v[x] {
      OwnerByteAt(sh, b, e, x);
    }
  }

  /** Nothing outside block sbn changes in the file. */
  ghost predicate OnlyBlock(sh: Shape, sbn: nat, f0: Vec, f: Vec)
    requires sh.Valid()
  {
    |f| == |f0| == sh.f && forall x :: 0 <= x < sh.f && Owner(sh, x).0 != sbn ==> f[x] == f0[x]
  }

  lemma WrittenOnly(sh: Shape, sbn: nat, esi: nat, data: Vec, f0: Vec, f: Vec)
    requires sh.Valid() && Written(sh, sbn, esi, data, f0, f, sh.t)
    ensures OnlyBlock(sh, sbn, f0, f)
  {}

  /** Symbols of other blocks stay in place. */
  lemma OthersStored(sh: Shape, sbn: nat, f0: Vec, f: Vec, b: nat, e: nat, v: Vec)
    requires sh.Valid() && OnlyBlock(sh, sbn, f0, f) && b != sbn && b < sh.z && e < Size(sh.Blocks(), b)
    requires Stored(f0, sh, b, e, v)
    ensures Stored(f, sh, b, e, v)
  {
    hide FillPartition, Size, Owner, ByteAt;
    forall x | 0 <= x < sh.t && ByteAt(sh, b, e, x) < sh.f ensures f[ByteAt(sh, b, e, x)] == v[x] {
      OwnerByteAt(sh, b, e, x);
    }
  }

  /** A file in which every symbol of another file is stored is that file. */
  lemma AllStored(sh: Shape, f: Vec, g: Vec)
    requires sh.Valid() && |f| == |g| == sh.f
    requires forall b, e ::
      0 <= b < sh.z && 0 <= e < Size(sh.Blocks(), b) ==> Stored(f, sh, b, e, SymbolIn(g, sh, b, e, Zeros(sh.t)))
    ensures f == g
  {
    hide FillPartition, Size, Owner, ByteAt;
    forall x | 0 <= x < sh.f ensures f[x] == g[x] {
      ByteAtOwner(sh, x);
      var o := Owner(sh, x);
      assert Stored(f, sh, o.0, o.1, SymbolIn(g, sh, o.0, o.1, Zeros(sh.t)));
    }
  }

  // ---------- what a decoder knows ----------

  /** Whatever code the received symbols come from, the source symbols written are those of that code. */
  ghost predicate Faithful(pr: Params, rnd: Rnd, t: nat, k: nat, got: SymbolMap, written: SymbolMap) {
    forall c: Mat, e :: Genuine(c, pr, rnd, t, k, got) && e in written ==> IsSymbol(c, e, written[e], pr, rnd, t)
  }

  /** The stored repair symbols are the received ones from K on, each once. */
  ghost predicate BinOk(bin: seq<RepairSymbol>, got: SymbolMap, k: nat, maxEsi: nat, t: nat) {
    && NoDup(IdsIn(bin, 0))
    && (forall j :: 0 <= j < |bin| ==> k <= bin[j].esi <= maxEsi && |bin[j].row| == t)
    && (forall j :: 0 <= j < |bin| ==> bin[j].esi in got && got[bin[j].esi] == bin[j].row)
    && (forall e :: e in got && e >= k ==> e in IdsIn(bin, 0))
  }

  /** The symbol matrix before a repair: received source symbols in place, zeros for relations and padding. */
  ghost predicate MatrixOk(m: Mat, pr: Params, t: nat, k: nat, got: SymbolMap) {
    && k <= pr.kprime && pr.s + pr.h + pr.kprime == pr.l <= |m|
    && (forall r :: 0 <= r < pr.s + pr.h ==> m[r] == Zeros(t))
    && (forall r :: pr.s + pr.h + k <= r < pr.l ==> m[r] == Zeros(t))
    && (forall e :: e in got && e < k ==> m[pr.s + pr.h + e] == got[e])
  }

  /** Received and written symbols: a received source symbol is written at once; a repaired block is complete. */
  ghost predicate LogOk(mask: set<nat>, got: SymbolMap, written: SymbolMap, k: nat, t: nat, repaired: bool) {
    && mask == got.Keys + written.Keys
    && (forall e :: e in got ==> |got[e]| == t)
    && (forall e :: e in written ==> e < k)
    && (forall e :: e in got && e < k ==> e in written && written[e] == got[e])
    && (if repaired then forall e: nat :: e < k ==> e in written else forall e :: e in written ==> e in got)
  }

  ghost predicate FileOk(f: Vec, sh: Shape, sbn: nat, written: SymbolMap)
    requires sh.Valid() && |f| == sh.f
  {
    forall e :: e in written ==> Stored(f, sh, sbn, e, written[e])
  }

  /** There are at most maxEsi + 1 - K different repair symbols, so D has room for all that a repair needs. */
  lemma Capacity(bin: seq<RepairSymbol>, got: SymbolMap, k: nat, maxEsi: nat, t: nat)
    requires BinOk(bin, got, k, maxEsi, t) && k <= maxEsi
    ensures |bin| <= maxEsi + 1 - k
  {
    var xs := seq(|bin|, j requires 0 <= j < |bin| => bin[j].esi - k);
    forall i, j | 0 <= i < j < |bin| ensures xs[i] != xs[j] {
      assert IdsIn(bin, 0)[i] != IdsIn(bin, 0)[j];
    }
    Pigeonhole(xs, maxEsi + 1 - k);
  }

  // ---------- accepting a symbol ----------

  lemma FaithfulAdd(pr: Params, rnd: Rnd, t: nat, k: nat, got: SymbolMap, written: SymbolMap, esi: nat, v: Vec)
    requires Faithful(pr, rnd, t, k, got, written) && esi !in got
    ensures Faithful(pr, rnd, t, k, got[esi := v], if esi < k then written[esi := v] else written)
  {
    hide IsSymbol, Precoded, ValidParams;
    var got' := got[esi := v];
    var written' := if esi < k then written[esi := v] else written;
    forall c: Mat, e | Genuine(c, pr, rnd, t, k, got') && e in written'
      ensures IsSymbol(c, e, written'[e], pr, rnd, t)
    {
      assert forall x :: x in got ==> got'[x] == got[x];
      assert Genuine(c, pr, rnd, t, k, got);
      assert esi in got';
    }
  }

  lemma BinAdd(bin: seq<RepairSymbol>, got: SymbolMap, k: nat, maxEsi: nat, t: nat, esi: nat, v: Vec)
    requires BinOk(bin, got, k, maxEsi, t) && esi !in got && esi <= maxEsi && |v| == t
    ensures BinOk(if esi < k then bin else bin + [RepairSymbol(esi, v)], got[esi := v], k, maxEsi, t)
  {
    if esi >= k {
      var bin' := bin + [RepairSymbol(esi, v)];
      assert IdsIn(bin', 0) == IdsIn(bin, 0) + [esi];
    }
  }

  lemma MatrixAdd(m: Mat, pr: Params, t: nat, k: nat, got: SymbolMap, esi: nat, v: Vec)
    requires MatrixOk(m, pr, t, k, got)
    ensures esi < k ==> MatrixOk(m[pr.s + pr.h + esi := v], pr, t, k, got[esi := v])
    ensures esi >= k ==> MatrixOk(m, pr, t, k, got[esi := v])
  {}

  lemma LogAdd(mask: set<nat>, got: SymbolMap, written: SymbolMap, k: nat, t: nat, esi: nat, v: Vec)
    requires LogOk(mask, got, written, k, t, false) && esi !in mask && |v| == t
    ensures LogOk(mask + {esi}, got[esi := v], if esi < k then written[esi := v] else written, k, t, false)
  {}

  lemma FileAdd(sh: Shape, sbn: nat, esi: nat, v: Vec, f0: Vec, f: Vec, written: SymbolMap)
    requires sh.Valid() && sbn < sh.z && |f0| == sh.f && FileOk(f0, sh, sbn, written)
    requires forall e :: e in written ==> e < Size(sh.Blocks(), sbn)
    requires esi < Size(sh.Blocks(), sbn) && esi !in written && Written(sh, sbn, esi, v, f0, f, sh.t)
    ensures |f| == sh.f && FileOk(f, sh, sbn, written[esi := v])
  {
    hide Stored, FillPartition, Size;
    WrittenStored(sh, sbn, esi, v, f0, f);
    forall e | e in written ensures Stored(f, sh, sbn, e, written[e]) {
      StoredKept(sh, sbn, esi, v, f0, f, sbn, e, written[e]);
    }
  }

  /** NANORQ_SYM_ADDED, IGN, DUP and ERR. */
  datatype Verdict = Added | Ignored | Duplicate | Error

  /** Decoder state of one source block. */
  class BlockDecoder {
    const pr: Params
    const rnd: Rnd
    const sh: Shape
    const sbn: nat
    const k: nat
    const maxEsi: nat
    const d: array2<Octet>
    const mask: Bitmask
    var bin: seq<RepairSymbol>
    /** The symbols accepted, and the source symbols written to the file. */
    ghost var got: SymbolMap
    ghost var written: SymbolMap
    ghost var repaired: bool
    /** The schedule that was replayed to repair the block. */
    ghost var used: Used

    ghost predicate Sized() {
      && ValidParams(pr) && sh.Valid() && k == Size(sh.Blocks(), sbn) <= pr.kprime && (k > 0 ==> sbn < sh.z)
      && k <= maxEsi && d.Length1 == sh.t && d.Length0 == pr.l + maxEsi - k
    }

    ghost predicate Valid(f: Vec)
      reads this, d, mask
    {
      && Sized() && |f| == sh.f && k / IDXBITS < |mask.words|
      && BinOk(bin, got, k, maxEsi, sh.t) && LogOk(mask.Contents(), got, written, k, sh.t, repaired)
      && (!repaired ==> MatrixOk(RowsOf(d), pr, sh.t, k, got))
      && FileOk(f, sh, sbn, written) && (Sound() ==> Faithful(pr, rnd, sh.t, k, got, written))
      && (repaired ==> used.For(pr, rnd) && !used.Overruns() && Sufficient(pr, rnd, k, got.Keys))
    }

    /** If the block was repaired, the late operation of that replay was harmless. */
    ghost predicate Sound()
      reads this
    {
      repaired ==> used.Harmless()
    }

    /** It was if elimination recorded an operation. */
    lemma EliminatedSound(f: Vec)
      requires Valid(f) && (repaired ==> used.Eliminated())
      ensures Sound()
    {
      hide ValidParams, BinOk, LogOk, MatrixOk, FileOk, Faithful, RowsOf, Bitmask.Contents, Used.For, Used.Overruns,
        Used.Eliminated, Used.Harmless;
      if repaired {
        used.HarmlessIff(pr, rnd);
      }
    }

    /** Valid, but for the symbol matrix, which holds intermediate symbols already. */
    ghost predicate Underway(f: Vec)
      reads this, d, mask
    {
      && Sized() && |f| == sh.f && k / IDXBITS < |mask.words|
      && BinOk(bin, got, k, maxEsi, sh.t) && LogOk(mask.Contents(), got, written, k, sh.t, false)
      && FileOk(f, sh, sbn, written) && Faithful(pr, rnd, sh.t, k, got, written)
    }

    /** How many source symbols are missing. */
    ghost function Gaps(): nat
      reads this, mask
    {
      Missing(mask.Contents(), k)
    }

    /** get_block_encoder, with a limit on symbol numbers set; a block that is not in the file has no symbols. */
    constructor (pr: Params, rnd: Rnd, sh: Shape, sbn: nat, maxEsi: nat, ghost f: Vec)
      requires ValidParams(pr) && sh.Valid() && |f| == sh.f && Size(sh.Blocks(), sbn) <= pr.kprime <= maxEsi
      requires Size(sh.Blocks(), sbn) > 0 ==> sbn < sh.z
      ensures Valid(f) && fresh(d) && fresh(mask) && got == map[] && !repaired && mask.Contents() == {} && Gaps() == k
      ensures this.pr == pr && this.rnd == rnd && this.sh == sh && this.sbn == sbn && this.maxEsi == maxEsi
      ensures k == Size(sh.Blocks(), sbn)
    {
      var kk := Size(sh.Blocks(), sbn);
      this.pr, this.rnd, this.sh, this.sbn, this.maxEsi := pr, rnd, sh, sbn, maxEsi;
      k := kk;
      mask := new Bitmask(maxEsi);
      d := new Octet[pr.l + (maxEsi - kk), sh.t]((_, _) => 0);
      bin := [];
      got, written, repaired := map[], map[], false;
      new;
      WordsOrder(kk, maxEsi);
      NothingYet(RowsOf(d), pr, rnd, sh.t, k, maxEsi);
      AllMissing(k);
    }

    /** Writing symbols of another block does not disturb this one. */
    lemma OtherBlock(other: nat, f0: Vec, f: Vec)
      requires Valid(f0) && sh.Valid() && OnlyBlock(sh, other, f0, f) && other != sbn
      ensures Valid(f)
    {
      hide Stored, FillPartition, Size, OnlyBlock, ValidParams, BinOk, MatrixOk, Faithful, RowsOf, Bitmask.Contents;
      WrittenBelow(mask.Contents(), got, written, k, sh.t, repaired);
      SameLength(sh, other, f0, f);
      forall e | e in written ensures Stored(f, sh, sbn, e, written[e]) {
        OthersStored(sh, other, f0, f, sbn, e, written[e]);
      }
    }

    /** A block that misses nothing and needed no repair has accepted at least K symbols. */
    lemma EnoughSeen(f: Vec)
      requires Valid(f) && !repaired && Gaps() == 0
      ensures |got| >= k
    {
      hide Missing, Bitmask.Contents, ValidParams, BinOk, MatrixOk, Faithful, RowsOf, FileOk;
      NoneMissing(mask.Contents(), k);
      EnoughKeys(got.Keys, k);
    }

    /** When nothing is missing, every source symbol has been written. */
    lemma NoGaps(f: Vec, e: nat)
      requires Valid(f) && Gaps() == 0 && e < k
      ensures e in written
    {
      hide Missing, Bitmask.Contents, ValidParams, BinOk, MatrixOk, Faithful, RowsOf, FileOk, LogOk, Size,
        FillPartition;
      LogComplete(mask.Contents(), got, written, k, sh.t, repaired, e);
    }

    /** nanorq_num_missing. */
    method NumMissing() returns (n: nat)
      requires k / IDXBITS < |mask.words|
      ensures n == Gaps()
    {
      n := mask.Gaps(k);
    }

    /** nanorq_decoder_add_symbol: the checks in the source's order, then the symbol is recorded. */
    method AddSymbol(file: array<Octet>, data: Vec, esi: nat) returns (v: Verdict)
      requires Valid(file[..]) && |data| == sh.t && (d as object) != (file as object)
      modifies this, d, mask, file
      ensures Valid(file[..]) && used == old(used) && repaired == old(repaired)
      ensures v == if esi > maxEsi then Error else if old(Gaps()) == 0 then Ignored
                   else if esi in old(mask.Contents()) then Duplicate else Added
      ensures v == Added ==> k > 0 && !repaired
      ensures v == Added ==>
        got == old(got)[esi := data] && esi !in old(got) && mask.Contents() == old(mask.Contents()) + {esi}
      ensures v == Added && esi < k ==> Written(sh, sbn, esi, data, old(file[..]), file[..], sh.t)
      ensures v != Added ==> got == old(got) && mask.Contents() == old(mask.Contents()) && Short() == old(Short())
      ensures bin == if v == Added && esi >= k then old(bin) + [RepairSymbol(esi, data)] else old(bin)
      ensures v != Added || esi >= k ==> file[..] == old(file[..])
      ensures OnlyBlock(sh, sbn, old(file[..]), file[..])
    {
      hide Missing, Bitmask.Contents, RowsOf, Written, ValidParams, Size, FillPartition, Faithful, BinOk, MatrixOk,
        FileOk;
      if esi > maxEsi {
        return Error;
      }
      var gaps := mask.Gaps(k);
      if gaps == 0 {
        return Ignored;
      }
      var have := mask.Check(esi);
      if have {
        return Duplicate;
      }
      NotRepaired(mask.Contents(), got, written, k, sh.t, repaired);
      assert k > 0 by { MissingNone(mask.Contents()); }
      ghost var s, f0, written0 := mask.Contents(), file[..], written;
      FaithfulIf(Sound(), pr, rnd, sh.t, k, got, written, esi, data);
      BinAdd(bin, got, k, maxEsi, sh.t, esi, data);
      MatrixAdd(RowsOf(d), pr, sh.t, k, got, esi, data);
      LogAdd(s, got, written, k, sh.t, esi, data);
      if esi < k {
        SolverReady(pr);
        PutRow(d, pr.s + pr.h + esi, data);
        TransferOut(file, sh, sbn, esi, data);
        FileAdd(sh, sbn, esi, data, f0, file[..], written);
        WrittenOnly(sh, sbn, esi, data, f0, file[..]);
        written := written[esi := data];
      } else {
        bin := bin + [RepairSymbol(esi, data)];
      }
      mask.Set(esi);
      got := got[esi := data];
      v := Added;
    }

    /** The internal ids of the symbols a repair works with, row by row. */
    ghost function RepairIds(): (ids: seq<nat>)
      requires k <= pr.kprime && Gaps() <= |bin|
      reads this, mask
      ensures |ids| == pr.kprime + |bin| - Gaps()
    {
      Merge(mask.Contents(), Range(pr.kprime), IdsIn(bin, pr.kprime - k), k)
    }

    /** What is received does not determine the block: the columns of its constraint matrix are dependent. */
    ghost predicate Undetermined()
      reads this, mask
    {
      ValidParams(pr) && k <= pr.kprime && Gaps() <= |bin| && Deficient(SystemMatrix(pr, rnd, RepairIds()), pr.l)
    }

    /** No repair is possible yet: too few repair symbols, or what is received does not determine the block. */
    ghost predicate Short()
      reads this, mask
    {
      Gaps() > |bin| || Undetermined()
    }

    /** What is received is enough to restore the block. */
    ghost predicate Enough()
      reads mask
    {
      Sufficient(pr, rnd, k, mask.Contents())
    }

    /** No repair is possible yet exactly if what is received is not enough. */
    lemma ShortIff(f: Vec)
      requires Valid(f) && Gaps() > 0
      ensures Short() <==> !Enough()
      ensures !repaired && |got| == |mask.Contents()| && got.Keys == mask.Contents()
    {
      hide Missing, Bitmask.Contents, RowsOf, ValidParams, MatrixOk, FileOk, Faithful, BinOk, LogOk, Merge,
        SystemMatrix, Deficient, Sufficiency.Sufficient, Used.For, Used.Overruns, RepairNumbers;
      NotRepaired(mask.Contents(), got, written, k, sh.t, repaired);
      Numbers(bin, got, written, mask.Contents(), k, maxEsi, sh.t);
      Sufficiency.ShortIff(pr, rnd, k, mask.Contents(), bin);
    }

    /** Fewer symbols than the block has are not enough. */
    lemma FewShort(f: Vec)
      requires Valid(f) && |mask.Contents()| < k
      ensures !Enough()
    {
      hide Missing, Bitmask.Contents, RowsOf, ValidParams, MatrixOk, FileOk, Faithful, BinOk, LogOk, Used.For,
        Used.Overruns, Sufficient;
      if Enough() {
        AtLeastK(pr, rnd, k, mask.Contents());
      }
    }

    /** A repaired block had a symbol with one or two LT neighbours, if there are S columns below B. */
    lemma RepairedLight(f: Vec)
      requires Valid(f) && repaired && pr.b >= pr.s
      ensures pr.w >= 2 && pr.p1 >= 2 && exists j :: 0 <= j < |used.ids| && LtDegree(used.ids[j], pr, rnd) <= 2
    {
      hide ValidParams, BinOk, LogOk, MatrixOk, FileOk, Faithful, RowsOf, Bitmask.Contents, Used.For, Used.Overruns,
        Sufficient, LtDegree;
      SymbolLight(0, pr, rnd);
      if forall j :: 0 <= j < |used.ids| ==> LtDegree(used.ids[j], pr, rnd) >= 3 {
        used.HeavyOverruns(pr, rnd);
      }
    }

    /** A block that misses nothing has accepted enough symbols. */
    lemma WholeEnough(f: Vec)
      requires Valid(f) && Gaps() == 0
      ensures Sufficient(pr, rnd, k, got.Keys)
    {
      hide Missing, Bitmask.Contents, RowsOf, ValidParams, MatrixOk, FileOk, Faithful, BinOk, Used.For, Used.Overruns,
        LogOk, Sufficient;
      if !repaired {
        AllSource(mask.Contents(), got, written, pr, rnd, k, sh.t);
      }
    }

    /**
     The sparse rows do not determine the block by themselves: there are fewer of them than unknowns, or
     they are dependent.  Only then can a repair run out of spare byte rows.
     */
    ghost predicate NeedsDense()
      reads this, mask
    {
      && ValidParams(pr) && k <= pr.kprime && Gaps() <= |bin|
      && (|RepairIds()| < pr.kprime + pr.h
          || Deficient(SparsePart(SystemMatrix(pr, rnd, RepairIds()), pr.s, pr.s + pr.h, pr.l), pr.l))
    }

    /** What an abort is due to: besides, more than 2H rows were left outside the triangular block. */
    ghost predicate Starved()
      reads this, mask
    {
      NeedsDense() && 2 * pr.h < pr.l + |bin| - Gaps() - used.i
    }

    /** The system of received symbols is in place: a is its matrix and the rows of D its right-hand side. */
    ghost predicate InPlace(a: Lists, gaps: nat, syms: seq<Vec>)
      reads this, mask, d
    {
      && Sized() && 0 < gaps == Gaps() <= |bin| && |a| == pr.l + |bin| - gaps <= d.Length0
      && Encodes(a, pr, rnd, RepairIds()) && |syms| == |RepairIds()| && Holds(RowsOf(d)[..|a|], pr, sh.t, syms)
      && Explained(pr, rnd, sh.t, k, got, RepairIds(), syms)
    }

    /** The constraint matrix, patched for the symbols that were received. */
    method BuildMatrix(gaps: nat) returns (a: Sparse)
      requires Sized() && 0 < gaps == Gaps() <= |bin| && k / IDXBITS < |mask.words|
      ensures fresh(a) && fresh(a.idxs) && a.cols == pr.l && a.idxs.Length == pr.l + |bin| - gaps
      ensures Encodes(a.idxs[..], pr, rnd, RepairIds())
    {
      hide Missing, Bitmask.Contents, ValidParams, Merge, Relations, SymbolRows, Neighbours, Size, FillPartition;
      SizedParams();
      SolverReady(pr);
      a := Generate(pr, rnd, |bin| - gaps);
      ghost var a0, s := a.idxs[..], mask.Contents();
      assert a.idxs[pr.s + pr.h..pr.l] == a0[pr.s + pr.h..pr.l] && a.idxs[..pr.s + pr.h] == a0[..pr.s + pr.h];
      PatchPrecodeMatrix(pr, rnd, a, k, gaps, mask, bin);
      assert a.idxs[pr.s + pr.h..] == a.idxs[..][pr.s + pr.h..] && a.idxs[..pr.s + pr.h] == a.idxs[..][..pr.s + pr.h];
      PatchedEncodes(a0, a.idxs[..], pr, rnd, s, bin, k);
    }

    /** Received symbols in the symbol matrix and in the constraint matrix, row for row. */
    method SetUp(gaps: nat) returns (a: Sparse, ghost syms: seq<Vec>)
      requires Sized() && BinOk(bin, got, k, maxEsi, sh.t) && MatrixOk(RowsOf(d), pr, sh.t, k, got)
      requires 0 < gaps == Gaps() <= |bin| && pr.l + |bin| - gaps <= d.Length0 && k / IDXBITS < |mask.words|
      requires LogOk(mask.Contents(), got, written, k, sh.t, false)
      modifies d
      ensures fresh(a) && fresh(a.idxs) && a.cols == pr.l && InPlace(a.idxs[..], gaps, syms)
      ensures MatrixOk(RowsOf(d), pr, sh.t, k, got)
    {
      hide Missing, Bitmask.Contents, RowsOf, ValidParams, BinOk, MatrixOk, Merge, Explained, Holds, LogOk, Size,
        FillPartition, Encodes;
      ghost var m := RowsOf(d);
      SizedParams();
      SolverReady(pr);
      BinRows(bin, got, k, maxEsi, sh.t);
      FillSymbolMatrixGaps(pr, d, k, mask, bin);
      ghost var m1 := RowsOf(d);
      syms := Merge(mask.Contents(), m[pr.s + pr.h..pr.l], RowsIn(bin), k);
      SetUpDone(m, m1, pr, rnd, sh.t, k, got, written, mask.Contents(), bin, maxEsi);
      a := BuildMatrix(gaps);
      assert RowsOf(d) == m1;
    }

    /** decode_repair_rows: the missing source symbols, in order. */
    method DecodeRepairRows(gaps: nat) returns (rows: seq<Vec>)
      requires Sized() && gaps == Gaps()
      ensures Restored(mask.Contents(), k, rows, RowsOf(d), pr, rnd, sh.t)
    {
      hide Missing, Bitmask.Contents, ValidParams, RowsOf, Symbol;
      ghost var s := mask.Contents();
      SizedParams();
      rows := [];
      assert Missing(s, 0) == 0 by { MissingNone(s); }
      var gap, numGaps := 0, gaps;
      while gap < k && numGaps > 0
        invariant gap <= k && numGaps == gaps - |rows| && |rows| == Missing(s, gap)
        invariant Restored(s, gap, rows, RowsOf(d), pr, rnd, sh.t)
      {
        MissingNext(s, gap);
        var have := mask.Check(gap);
        if !have {
          var ptr := new Octet[sh.t];
          DecodeRow(pr, rnd, d, gap, ptr);
          RestoredStep(s, gap, rows, RowsOf(d), pr, rnd, sh.t, ptr[..]);
          rows := rows + [ptr[..]];
          numGaps := numGaps - 1;
        }
        gap := gap + 1;
        MissingOrder(s, gap, k);
      }
      MissingOrder(s, gap, k);
    }

    lemma SizedParams()
      requires Sized()
      ensures ValidParams(pr) && pr.l <= d.Length0 && d.Length1 == sh.t && k <= pr.kprime <= pr.l
    {}

    /** write_repair_rows. */
    method WriteRepairRows(file: array<Octet>, rows: seq<Vec>)
      requires Sized() && |rows| == Gaps() && file.Length == sh.f && k / IDXBITS < |mask.words|
      requires (forall j :: 0 <= j < |rows| ==> |rows[j]| == sh.t)
      requires LogOk(mask.Contents(), got, written, k, sh.t, false)
      requires FileOk(file[..], sh, sbn, written)
      modifies mask, file, this`written
      ensures LogOk(mask.Contents(), got, written, k, sh.t, true) && FileOk(file[..], sh, sbn, written)
      ensures k / IDXBITS < |mask.words| && written == Completed(old(mask.Contents()), old(written), rows, k, k)
      ensures old(mask.Contents()) <= mask.Contents()
      ensures OnlyBlock(sh, sbn, old(file[..]), file[..])
    {
      hide Missing, Bitmask.Contents, ValidParams, Written, FileOk, LogOk, Size, FillPartition, Completed, Owner;
      ghost var s, written0, start := mask.Contents(), written, file[..];
      assert Missing(s, 0) == 0 by { MissingNone(s); }
      CompletedStart(s, got, written0, rows, k, sh.t);
      var row, missRow := 0, 0;
      while row < k && missRow < |rows|
        invariant row <= k && missRow == Missing(s, row) <= |rows| && k / IDXBITS < |mask.words|
        invariant Writing(s, mask.Contents(), got, written0, written, rows, k, row, sh.t)
        invariant FileOk(file[..], sh, sbn, written)
        invariant OnlyBlock(sh, sbn, start, file[..]) && s <= mask.Contents()
      {
        MissingNext(s, row);
        StillMissing(s, mask.Contents(), got, written0, written, rows, k, row, sh.t);
        var have := mask.Check(row);
        if have {
          WritingSkip(s, mask.Contents(), got, written0, written, rows, k, row, sh.t);
        } else {
          ghost var f0 := file[..];
          TransferOut(file, sh, sbn, row, rows[missRow]);
          WritingBelow(s, mask.Contents(), got, written0, written, rows, k, row, sh.t);
          FileAdd(sh, sbn, row, rows[missRow], f0, file[..], written);
          WrittenOnly(sh, sbn, row, rows[missRow], f0, file[..]);
          WritingStep(s, mask.Contents(), got, written0, written, rows, k, row, sh.t);
          mask.Set(row);
          written := written[row := rows[missRow]];
          missRow := missRow + 1;
        }
        row := row + 1;
        MissingOrder(s, row, k);
      }
      MissingOrder(s, row, k);
      WritingDone(s, mask.Contents(), got, written0, written, rows, k, row, sh.t);
    }

    /**
     nanorq_repair_block.  It succeeds if nothing is missing, and otherwise, barring the abort and a
     replay out of bounds, if and only if there are at least as many repair symbols as missing ones
     and the received symbols determine the block, that is, if and only if what was received is enough;
     the test for room in D never fails.  The abort takes sparse rows that do not determine the block by themselves.
     */
    method RepairBlock(file: array<Octet>) returns (st: Status)
      requires Valid(file[..]) && (d as object) != (file as object)
      modifies d, mask, file, this`written, this`repaired, this`used
      ensures st == Done || st == Failed ==> Valid(file[..]) && OnlyBlock(sh, sbn, old(file[..]), file[..])
      ensures old(Gaps()) == 0 ==> st == Done && file[..] == old(file[..]) && mask.Contents() == old(mask.Contents())
      ensures old(Gaps()) == 0 ==> used == old(used) && repaired == old(repaired)
      ensures old(Gaps()) > |bin| ==> st == Failed
      ensures old(Gaps()) > 0 && (st == Done || st == Failed) ==> (st == Failed <==> old(Short()))
      ensures st == Done || st == Failed ==> (st == Done <==> old(Enough()))
      ensures 0 < old(Gaps()) <= |bin| && st == Done ==> repaired && used.ids == old(RepairIds()) && !used.Overruns()
      ensures st == Done ==> Gaps() == 0 && old(mask.Contents()) <= mask.Contents()
      ensures st != Done ==> old(Gaps()) > 0 && mask.Contents() == old(mask.Contents())
      ensures st == Failed ==> file[..] == old(file[..]) && Short()
      ensures st == Failed ==> used == old(used) && repaired == old(repaired)
      ensures st == OutOfBounds ==>
        0 < Gaps() <= |bin| && Sized() && used.ids == RepairIds() && used.For(pr, rnd) && used.Overruns()
      ensures st == Status.Aborted ==> Starved()
    {
      hide Missing, Bitmask.Contents, RowsOf, ValidParams, Size, FillPartition, Faithful, BinOk, MatrixOk, FileOk,
        LogOk, Encodes, Holds, Explained, Restored, Merge, Deficient, Completed, SystemMatrix, LateHarmless,
        HoldsSolution, Complete, InPlace, Used.For, Used.Overruns, Sufficient;
      var gaps := mask.Gaps(k);
      if gaps == 0 {
        NothingMissing(pr, rnd, mask.Contents(), k);
        return Done;
      }
      ShortIff(file[..]);
      if |bin| < gaps {
        return Failed;
      }
      NotRepaired(mask.Contents(), got, written, k, sh.t, repaired);
      Capacity(bin, got, k, maxEsi, sh.t);
      if d.Length0 < pr.l + (|bin| - gaps) {
        assert false;
        return Failed;
      }
      var a;
      ghost var syms;
      a, syms := SetUp(gaps);
      st := Solve(file, a, gaps, syms);
    }

    /** Computing the missing symbols from the intermediate symbols and writing them. */
    method WriteMissing(file: array<Octet>, gaps: nat, ghost a: Lists, ghost ids: seq<nat>, ghost syms: seq<Vec>,
                        ghost d1: Mat)
      requires Underway(file[..]) && (d as object) != (file as object) && gaps == Gaps()
      requires |syms| == |ids| >= pr.kprime && Encodes(a, pr, rnd, ids) && SolverParams(pr)
      requires IsMat(Constraints(a, pr, rnd), |a|, pr.l)
      requires |a| <= |d1| == d.Length0 && IsMat(d1, |d1|, sh.t) && Holds(d1[..|a|], pr, sh.t, syms)
      requires Explained(pr, rnd, sh.t, k, got, ids, syms)
      requires used.For(pr, rnd) && !used.Overruns()
      requires (used.Harmless() ==> HoldsSolution(Constraints(a, pr, rnd), d1, RowsOf(d), pr.l, sh.t))
      requires Sufficient(pr, rnd, k, got.Keys)
      modifies mask, file, this`written, this`repaired
      ensures Valid(file[..]) && repaired && OnlyBlock(sh, sbn, old(file[..]), file[..])
      ensures old(mask.Contents()) <= mask.Contents()
    {
      hide Missing, Bitmask.Contents, RowsOf, ValidParams, Size, FillPartition, Faithful, BinOk, FileOk, LogOk, Encodes,
        Holds, Explained, Restored, Completed, HoldsSolution, Constraints, Used.For, Used.Harmless, Used.Overruns,
        Sufficient;
      SizedParams();
      ghost var s0, written0 := mask.Contents(), written;
      var rows := DecodeRepairRows(gaps);
      SizesRestored(s0, k, rows, RowsOf(d), pr, rnd, sh.t);
      WriteRepairRows(file, rows);
      repaired := true;
      if used.Harmless() {
        RepairFaithful(a, pr, rnd, sh.t, k, ids, syms, d1, RowsOf(d), got, written0, s0, rows);
      }
    }

    /** Solving for the block's symbols and writing the missing ones. */
    method Solve(file: array<Octet>, a: Sparse, gaps: nat, ghost syms: seq<Vec>) returns (st: Status)
      requires Valid(file[..]) && (d as object) != (file as object) && !repaired
      requires !Undetermined() ==> Sufficient(pr, rnd, k, got.Keys)
      requires a.cols == pr.l && InPlace(a.idxs[..], gaps, syms)
      modifies d, mask, file, this`written, this`repaired, this`used
      ensures st == Done || st == Failed ==> Valid(file[..]) && OnlyBlock(sh, sbn, old(file[..]), file[..])
      ensures st == Failed ==> old(Undetermined()) && Undetermined() && file[..] == old(file[..])
      ensures st == Done ==>
        !old(Undetermined()) && Gaps() == 0 && repaired && used.ids == old(RepairIds()) && !used.Overruns()
      ensures st == Done ==> old(mask.Contents()) <= mask.Contents()
      ensures st != Done ==> mask.Contents() == old(mask.Contents())
      ensures st == Failed ==> used == old(used) && repaired == old(repaired)
      ensures st == OutOfBounds ==>
        ValidParams(pr) && used.ids == old(RepairIds()) && used.For(pr, rnd) && used.Overruns()
      ensures st == Status.Aborted ==> Starved()
    {
      hide Missing, Bitmask.Contents, RowsOf, ValidParams, Size, FillPartition, Faithful, BinOk, MatrixOk, FileOk,
        LogOk, Encodes, Holds, Explained, Restored, Merge, Deficient, Completed, SystemMatrix, LateHarmless,
        HoldsSolution, Complete, Constraints, WellFormed, DenseRowsEmpty, Used.For, SparsePart, Traced, Sufficient;
      ghost var ids, al, d1 := RepairIds(), a.idxs[..], RowsOf(d);
      EncodesReady(al, pr, rnd, ids);
      var outcome, s;
      ghost var n0, e, n1;
      outcome, s, n0, e, n1 := Invert(pr, rnd, a);
      if outcome == Inversion.Aborted {
        used := UsedOf(s, ids, al, n0, e, n1);
        return Status.Aborted;
      }
      if outcome == Singular {
        return Failed;
      }
      UsedFor(s, al, pr, rnd, ids, n0, e, n1);
      used := UsedOf(s, ids, al, n0, e, n1);
      if |s.ops| >= 0x8000_0000 {
        return OutOfBounds;
      }
      var inBounds := Intermediate(d, s, Constraints(al, pr, rnd), n0, n1);
      if !inBounds {
        return OutOfBounds;
      }
      WriteMissing(file, gaps, al, ids, syms, d1);
      AllThere(mask.Contents(), got, written, k, sh.t);
      st := Done;
    }
  }

  /** rows are the missing symbols below g, computed from the intermediate symbols in d. */
  ghost predicate Restored(s: set<nat>, g: nat, rows: seq<Vec>, d: Mat, pr: Params, rnd: Rnd, t: nat)
    requires ValidParams(pr) && IsMat(d, |d|, t) && pr.l <= |d|
  {
    && |rows| == Missing(s, g) && (forall j :: 0 <= j < |rows| ==> |rows[j]| == t)
    && forall i: nat :: i < g && i !in s ==> Missing(s, i) < |rows| && rows[Missing(s, i)] == Symbol(d, i, pr, rnd, t)
  }

  lemma RestoredStep(s: set<nat>, g: nat, rows: seq<Vec>, d: Mat, pr: Params, rnd: Rnd, t: nat, v: Vec)
    requires ValidParams(pr) && IsMat(d, |d|, t) && pr.l <= |d| && Restored(s, g, rows, d, pr, rnd, t)
    requires g !in s && v == Symbol(d, g, pr, rnd, t)
    ensures Restored(s, g + 1, rows + [v], d, pr, rnd, t)
  {
    hide Missing, Symbol, ValidParams;
    MissingNext(s, g);
  }

  /** The source symbols written once those missing below g have been added. */
  ghost function Completed(s: set<nat>, written: SymbolMap, rows: seq<Vec>, k: nat, g: nat): SymbolMap
    requires |rows| == Missing(s, k) && g <= k
  {
    written + (map i: nat | i < g && i !in s :: (MissingOrder(s, i, k); rows[Missing(s, i)]))
  }

  /** Writing progress: missing symbols below g are written and marked. */
  ghost predicate Writing(s: set<nat>, mask: set<nat>, got: SymbolMap, written0: SymbolMap, written: SymbolMap,
                          rows: seq<Vec>, k: nat, g: nat, t: nat) {
    && g <= k && |rows| == Missing(s, k) && LogOk(s, got, written0, k, t, false)
    && written == Completed(s, written0, rows, k, g)
    && (forall x: nat :: x in mask <==> x in s || x < g)
  }

  lemma CompletedStart(s: set<nat>, got: SymbolMap, written: SymbolMap, rows: seq<Vec>, k: nat, t: nat)
    requires LogOk(s, got, written, k, t, false) && |rows| == Missing(s, k)
    ensures Writing(s, s, got, written, written, rows, k, 0, t)
  {
    hide Missing, LogOk;
  }

  lemma StillMissing(s: set<nat>, mask: set<nat>, got: SymbolMap, written0: SymbolMap, written: SymbolMap,
                     rows: seq<Vec>, k: nat, g: nat, t: nat)
    requires Writing(s, mask, got, written0, written, rows, k, g, t)
    ensures g in mask <==> g in s
  {}

  lemma WritingSkip(s: set<nat>, mask: set<nat>, got: SymbolMap, written0: SymbolMap, written: SymbolMap,
                    rows: seq<Vec>, k: nat, g: nat, t: nat)
    requires Writing(s, mask, got, written0, written, rows, k, g, t) && g in s && g < k
    ensures Writing(s, mask, got, written0, written, rows, k, g + 1, t)
  {
    hide Missing, LogOk;
    assert Completed(s, written0, rows, k, g + 1) == Completed(s, written0, rows, k, g);
  }

  lemma WritingStep(s: set<nat>, mask: set<nat>, got: SymbolMap, written0: SymbolMap, written: SymbolMap,
                    rows: seq<Vec>, k: nat, g: nat, t: nat)
    requires Writing(s, mask, got, written0, written, rows, k, g, t) && g !in s && g < k && Missing(s, g) < |rows|
    ensures Writing(s, mask + {g}, got, written0, written[g := rows[Missing(s, g)]], rows, k, g + 1, t)
  {
    hide Missing, LogOk, Completed;
    CompletedStep(s, written0, rows, k, g);
  }

  lemma CompletedStep(s: set<nat>, written: SymbolMap, rows: seq<Vec>, k: nat, g: nat)
    requires |rows| == Missing(s, k) && g < k && g !in s && Missing(s, g) < |rows|
    ensures Completed(s, written, rows, k, g + 1) == Completed(s, written, rows, k, g)[g := rows[Missing(s, g)]]
  {
    hide Missing;
    var a, b := Completed(s, written, rows, k, g + 1), Completed(s, written, rows, k, g)[g := rows[Missing(s, g)]];
    assert a.Keys == b.Keys;
    forall x | x in a ensures a[x] == b[x] {
      if x < g && x !in s {
        MissingOrder(s, x, k);
      }
    }
  }

  lemma WritingBelow(s: set<nat>, mask: set<nat>, got: SymbolMap, written0: SymbolMap, written: SymbolMap,
                     rows: seq<Vec>, k: nat, g: nat, t: nat)
    requires Writing(s, mask, got, written0, written, rows, k, g, t) && g !in s
    ensures g !in written && forall e :: e in written ==> e < k
  {
    hide Missing;
  }

  lemma WritingDone(s: set<nat>, mask: set<nat>, got: SymbolMap, written0: SymbolMap, written: SymbolMap,
                    rows: seq<Vec>, k: nat, g: nat, t: nat)
    requires Writing(s, mask, got, written0, written, rows, k, g, t) && Missing(s, g) == |rows|
    ensures LogOk(mask, got, written, k, t, true) && written == Completed(s, written0, rows, k, k)
  {
    hide Missing;
    MissingOrder(s, g, k);
    assert Completed(s, written0, rows, k, k) == Completed(s, written0, rows, k, g);
    forall x: nat ensures x in mask <==> x in got || x in written {
      if x < g && x !in s {
        assert x in written;
      }
    }
    assert mask == got.Keys + written.Keys;
  }

  lemma EncodesReady(a: Lists, pr: Params, rnd: Rnd, ids: seq<nat>)
    requires ValidParams(pr) && Encodes(a, pr, rnd, ids) && |ids| >= pr.kprime
    ensures SolverParams(pr) && SpMatReady(a, pr) && Constraints(a, pr, rnd) == SystemMatrix(pr, rnd, ids)
    ensures IsMat(Constraints(a, pr, rnd), |a|, pr.l) && pr.l <= |a|
  {
    SolverReady(pr);
    RowsWellFormed(a, pr, rnd, ids);
    EncodesSystem(a, pr, rnd, ids);
  }

  /** What precode_matrix_invert asks of its matrix. */
  ghost predicate SpMatReady(a: Lists, pr: Params) {
    Scheduling.Sized(pr, |a|) && WellFormed(a, pr.l) && DenseRowsEmpty(a, pr)
  }

  lemma SizesRestored(s: set<nat>, g: nat, rows: seq<Vec>, d: Mat, pr: Params, rnd: Rnd, t: nat)
    requires ValidParams(pr) && IsMat(d, |d|, t) && pr.l <= |d| && Restored(s, g, rows, d, pr, rnd, t)
    ensures |rows| == Missing(s, g) && forall j :: 0 <= j < |rows| ==> |rows[j]| == t
  {}

  lemma AllThere(mask: set<nat>, got: SymbolMap, written: SymbolMap, k: nat, t: nat)
    requires LogOk(mask, got, written, k, t, true)
    ensures Missing(mask, k) == 0
  {
    NoneMissing(mask, k);
  }

  /** A solved system gives back the code the received symbols come from, hence its missing symbols. */
  lemma RepairFaithful(a: Lists, pr: Params, rnd: Rnd, t: nat, k: nat, ids: seq<nat>, syms: seq<Vec>, d1: Mat, d2: Mat,
                       got: SymbolMap, written: SymbolMap, s: set<nat>, rows: seq<Vec>)
    requires ValidParams(pr) && Encodes(a, pr, rnd, ids) && |syms| == |ids| >= pr.kprime && SolverParams(pr)
    requires |a| <= |d1| == |d2| && IsMat(d1, |d1|, t) && IsMat(d2, |d2|, t) && Holds(d1[..|a|], pr, t, syms)
    requires pr.l <= |d2| && IsMat(Constraints(a, pr, rnd), |a|, pr.l)
    requires HoldsSolution(Constraints(a, pr, rnd), d1, d2, pr.l, t)
    requires Faithful(pr, rnd, t, k, got, written) && Restored(s, k, rows, d2, pr, rnd, t) && k <= pr.kprime
    requires |rows| == Missing(s, k)
    requires Explained(pr, rnd, t, k, got, ids, syms)
    ensures Faithful(pr, rnd, t, k, got, Completed(s, written, rows, k, k))
  {
    hide Missing, ValidParams, Encodes, Holds, Symbol, Precoded, Genuine, Constraints, SolverParams;
    var written' := Completed(s, written, rows, k, k);
    forall c: Mat, e | Genuine(c, pr, rnd, t, k, got) && e in written' ensures IsSymbol(c, e, written'[e], pr, rnd, t) {
      CodeRecovered(a, pr, rnd, t, ids, syms, d1, d2, c);
      if e < k && e !in s {
        MissingOrder(s, e, k);
        SymbolPrefix(d2, e, pr, rnd, t);
      } else {
        assert e in written && written'[e] == written[e];
      }
    }
  }

  lemma CodeRecovered(a: Lists, pr: Params, rnd: Rnd, t: nat, ids: seq<nat>, syms: seq<Vec>, d1: Mat, d2: Mat, c: Mat)
    requires ValidParams(pr) && Encodes(a, pr, rnd, ids) && |syms| == |ids| && SolverParams(pr)
    requires |a| <= |d1| == |d2| && IsMat(d1, |d1|, t) && Holds(d1[..|a|], pr, t, syms)
    requires pr.l <= |d2| && IsMat(Constraints(a, pr, rnd), |a|, pr.l)
    requires HoldsSolution(Constraints(a, pr, rnd), d1, d2, pr.l, t)
    requires MadeOf(c, pr, rnd, t, ids, syms)
    ensures IsMat(c, pr.l, t) && d2[..pr.l] == c
  {
    hide ValidParams, Encodes, Holds, Symbol, Constraints, SolverParams;
    SystemMeaning(a, pr, rnd, ids, d1[..|a|], c, t, syms);
    forall i | 0 <= i < |ids| ensures Symbol(c, ids[i], pr, rnd, t) == syms[i] {
      assert IsSymbol(c, ids[i], syms[i], pr, rnd, t);
    }
  }

  lemma {:induction false} AllMissing(n: nat)
    ensures Missing({}, n) == n
  {
    if n != 0 {
      AllMissing(n - 1);
    }
  }

  lemma WrittenBelow(mask: set<nat>, got: SymbolMap, written: SymbolMap, k: nat, t: nat, repaired: bool)
    requires LogOk(mask, got, written, k, t, repaired)
    ensures forall e :: e in written ==> e < k
  {}

  lemma SameLength(sh: Shape, b: nat, f0: Vec, f: Vec)
    requires sh.Valid() && OnlyBlock(sh, b, f0, f)
    ensures |f| == |f0|
  {}

  lemma {:induction false} EnoughKeys(s: set<nat>, k: nat)
    requires forall e: nat :: e < k ==> e in s
    ensures |s| >= k
    decreases k
  {
    if k != 0 {
      EnoughKeys(s - {k - 1}, k - 1);
    }
  }

  lemma LogComplete(mask: set<nat>, got: SymbolMap, written: SymbolMap, k: nat, t: nat, repaired: bool, e: nat)
    requires LogOk(mask, got, written, k, t, repaired) && Missing(mask, k) == 0 && e < k
    ensures e in written
  {
    NoneMissing(mask, k);
  }

  lemma FaithfulIf(sound: bool, pr: Params, rnd: Rnd, t: nat, k: nat, got: SymbolMap, written: SymbolMap, esi: nat,
                   v: Vec)
    requires sound ==> Faithful(pr, rnd, t, k, got, written)
    requires esi !in got
    ensures sound ==> Faithful(pr, rnd, t, k, got[esi := v], if esi < k then written[esi := v] else written)
  {
    if sound {
      FaithfulAdd(pr, rnd, t, k, got, written, esi, v);
    }
  }

  /** While something is missing, no repair has been completed. */
  lemma NotRepaired(mask: set<nat>, got: SymbolMap, written: SymbolMap, k: nat, t: nat, repaired: bool)
    requires LogOk(mask, got, written, k, t, repaired) && Missing(mask, k) > 0
    ensures !repaired
  {
    NoneMissing(mask, k);
  }

  /** Before a repair, the stored repair symbols are those received with numbers from K on. */
  lemma Numbers(bin: seq<RepairSymbol>, got: SymbolMap, written: SymbolMap, s: set<nat>, k: nat, maxEsi: nat, t: nat)
    requires BinOk(bin, got, k, maxEsi, t) && LogOk(s, got, written, k, t, false)
    ensures RepairNumbers(bin, s, k) && got.Keys == s && |got| == |s|
  {
    assert s == got.Keys;
  }

  lemma NothingMissing(pr: Params, rnd: Rnd, s: set<nat>, k: nat)
    requires Missing(s, k) == 0
    ensures Sufficient(pr, rnd, k, s)
  {
    hide Ambiguous;
    NoneMissing(s, k);
  }

  lemma AllSource(s: set<nat>, got: SymbolMap, written: SymbolMap, pr: Params, rnd: Rnd, k: nat, t: nat)
    requires LogOk(s, got, written, k, t, false) && Missing(s, k) == 0
    ensures Sufficient(pr, rnd, k, got.Keys)
  {
    hide Ambiguous, Missing;
    assert s == got.Keys;
    NothingMissing(pr, rnd, s, k);
  }

  lemma WordsOrder(k: nat, m: nat)
    requires k <= m
    ensures k / IDXBITS <= m / IDXBITS
  {}

  lemma NothingYet(m: Mat, pr: Params, rnd: Rnd, t: nat, k: nat, maxEsi: nat)
    requires k <= pr.kprime && pr.s + pr.h + pr.kprime == pr.l <= |m| && IsMat(m, |m|, t)
    requires forall r, x :: 0 <= r < |m| && 0 <= x < t ==> m[r][x] == 0
    ensures BinOk([], map[], k, maxEsi, t) && LogOk({}, map[], map[], k, t, false) && MatrixOk(m, pr, t, k, map[])
    ensures Faithful(pr, rnd, t, k, map[], map[])
  {
    forall r | 0 <= r < |m| ensures m[r] == Zeros(t) {}
  }

  // ---------- repairing ----------

  /** Every listed symbol of c is the one given for it. */
  ghost predicate MadeOf(c: Mat, pr: Params, rnd: Rnd, t: nat, ids: seq<nat>, syms: seq<Vec>) {
    && ValidParams(pr) && Precoded(pr, rnd, c, t) && |ids| == |syms|
    && forall i :: 0 <= i < |ids| ==> IsSymbol(c, ids[i], syms[i], pr, rnd, t)
  }

  /** Every code that explains the received symbols makes up the listed ones as well. */
  ghost predicate Explained(pr: Params, rnd: Rnd, t: nat, k: nat, got: SymbolMap, ids: seq<nat>, syms: seq<Vec>) {
    forall c: Mat :: Genuine(c, pr, rnd, t, k, got) ==> MadeOf(c, pr, rnd, t, ids, syms)
  }

  lemma BinRows(bin: seq<RepairSymbol>, got: SymbolMap, k: nat, maxEsi: nat, t: nat)
    requires BinOk(bin, got, k, maxEsi, t)
    ensures forall j :: 0 <= j < |bin| ==> |bin[j].row| == t
  {}

  lemma PatchedEncodes(a0: Lists, a: Lists, pr: Params, rnd: Rnd, s: set<nat>, bin: seq<RepairSymbol>, k: nat)
    requires ValidParams(pr) && pr.s > 0 && pr.p > 0 && k <= pr.kprime && Missing(s, k) <= |bin|
    requires Relations(a0, pr) && SymbolRows(a0, pr, rnd, Range(pr.kprime)) && pr.s + pr.h + pr.kprime == pr.l
    requires |a| == |a0| == pr.l + |bin| - Missing(s, k) && a[..pr.s + pr.h] == a0[..pr.s + pr.h]
    requires a[pr.s + pr.h..] == Merge(s, a0[pr.s + pr.h..pr.l], ListsIn(bin, pr.kprime - k, pr, rnd), k)
    ensures Encodes(a, pr, rnd, Merge(s, Range(pr.kprime), IdsIn(bin, pr.kprime - k), k))
  {
    hide Missing, ValidParams, Relations, Neighbours, Merge;
    RelationsKept(a0, a, pr);
    var skip, pad := pr.s + pr.h, pr.kprime - k;
    var own, ids, n := a0[skip..pr.l], Range(pr.kprime), pr.kprime + |bin| - Missing(s, k);
    assert ValidParams(pr);
    var pairs := (x: nat, xs: seq<nat>) => ValidParams(pr) && xs == Neighbours(x, pr, rnd);
    forall i | 0 <= i < |ids| ensures pairs(ids[i], own[i]) {
      assert a0[skip + i] == Neighbours(ids[i], pr, rnd);
    }
    MergePairs(s, ids, own, IdsIn(bin, pad), ListsIn(bin, pad, pr, rnd), k, pairs);
    var all := Merge(s, ids, IdsIn(bin, pad), k);
    forall i | 0 <= i < |all| ensures a[skip + i] == Neighbours(all[i], pr, rnd) {
      assert a[skip + i] == a[skip..][i];
      assert pairs(all[i], a[skip..][i]);
    }
  }

  lemma FilledHolds(m: Mat, d: Mat, pr: Params, t: nat, k: nat, got: SymbolMap, written: SymbolMap, s: set<nat>,
                    bin: seq<RepairSymbol>, maxEsi: nat)
    requires MatrixOk(m, pr, t, k, got) && BinOk(bin, got, k, maxEsi, t) && LogOk(s, got, written, k, t, false)
    requires Missing(s, k) <= |bin| && |d| == |m| && pr.l + |bin| - Missing(s, k) <= |d|
    requires d[..pr.s + pr.h] == m[..pr.s + pr.h]
    requires d[pr.s + pr.h..pr.l + |bin| - Missing(s, k)] == Merge(s, m[pr.s + pr.h..pr.l], RowsIn(bin), k)
    ensures Holds(d[..pr.l + |bin| - Missing(s, k)], pr, t, Merge(s, m[pr.s + pr.h..pr.l], RowsIn(bin), k))
  {
    hide Missing, LogOk, BinOk;
    BinRows(bin, got, k, maxEsi, t);
    var skip, own, n := pr.s + pr.h, m[pr.s + pr.h..pr.l], pr.l + |bin| - Missing(s, k);
    var syms := Merge(s, own, RowsIn(bin), k);
    assert forall r :: 0 <= r < skip ==> d[..n][r] == d[..skip][r] && m[r] == m[..skip][r];
    MergedSizes(m, pr, t, k, got, written, s, bin, maxEsi);
    forall i | 0 <= i < |syms| ensures d[..n][skip + i] == syms[i] {
      assert d[..n][skip + i] == d[skip..n][i];
    }
  }

  lemma MergedSizes(m: Mat, pr: Params, t: nat, k: nat, got: SymbolMap, written: SymbolMap, s: set<nat>,
                    bin: seq<RepairSymbol>, maxEsi: nat)
    requires MatrixOk(m, pr, t, k, got) && BinOk(bin, got, k, maxEsi, t) && LogOk(s, got, written, k, t, false)
    requires Missing(s, k) <= |bin|
    ensures var syms := Merge(s, m[pr.s + pr.h..pr.l], RowsIn(bin), k); forall i :: 0 <= i < |syms| ==> |syms[i]| == t
  {
    hide Missing;
    var own := m[pr.s + pr.h..pr.l];
    var syms := Merge(s, own, RowsIn(bin), k);
    forall i | 0 <= i < |syms| ensures |syms[i]| == t {
      if i < k && i !in s {
        MissingOrder(s, i, k);
      } else if i < |own| {
        assert own[i] == m[pr.s + pr.h + i];
      }
    }
  }

  lemma FilledOk(m: Mat, d: Mat, pr: Params, t: nat, k: nat, got: SymbolMap, s: set<nat>, bin: seq<RepairSymbol>)
    requires MatrixOk(m, pr, t, k, got) && got.Keys <= s
    requires Missing(s, k) <= |bin| && |d| == |m| && pr.l + |bin| - Missing(s, k) <= |d|
    requires d[..pr.s + pr.h] == m[..pr.s + pr.h]
    requires d[pr.s + pr.h..pr.l + |bin| - Missing(s, k)] == Merge(s, m[pr.s + pr.h..pr.l], RowsIn(bin), k)
    ensures MatrixOk(d, pr, t, k, got)
  {
    hide Missing;
    var skip, own, n := pr.s + pr.h, m[pr.s + pr.h..pr.l], pr.l + |bin| - Missing(s, k);
    forall r | 0 <= r < skip ensures d[r] == Zeros(t) {
      assert d[r] == d[..skip][r] && m[r] == m[..skip][r];
    }
    forall r | skip + k <= r < pr.l ensures d[r] == Zeros(t) {
      assert d[r] == d[skip..n][r - skip] && own[r - skip] == m[r];
    }
    forall e | e in got && e < k ensures d[skip + e] == got[e] {
      assert d[skip + e] == d[skip..n][e] && own[e] == m[skip + e] && e in s;
    }
  }

  lemma SetUpDone(m: Mat, d: Mat, pr: Params, rnd: Rnd, t: nat, k: nat, got: SymbolMap, written: SymbolMap,
                  s: set<nat>, bin: seq<RepairSymbol>, maxEsi: nat)
    requires k <= pr.kprime && Missing(s, k) <= |bin| && pr.s + pr.h + pr.kprime == pr.l
    requires MatrixOk(m, pr, t, k, got) && BinOk(bin, got, k, maxEsi, t) && LogOk(s, got, written, k, t, false)
    requires |d| == |m| && pr.l + |bin| - Missing(s, k) <= |d| && d[..pr.s + pr.h] == m[..pr.s + pr.h]
    requires d[pr.s + pr.h..pr.l + |bin| - Missing(s, k)] == Merge(s, m[pr.s + pr.h..pr.l], RowsIn(bin), k)
    ensures Holds(d[..pr.l + |bin| - Missing(s, k)], pr, t, Merge(s, m[pr.s + pr.h..pr.l], RowsIn(bin), k))
    ensures MatrixOk(d, pr, t, k, got)
    ensures Explained(pr, rnd, t, k, got, Merge(s, Range(pr.kprime), IdsIn(bin, pr.kprime - k), k),
                      Merge(s, m[pr.s + pr.h..pr.l], RowsIn(bin), k))
  {
    hide *;
    FilledHolds(m, d, pr, t, k, got, written, s, bin, maxEsi);
    GotMasked(s, got, written, k, t);
    FilledOk(m, d, pr, t, k, got, s, bin);
    AllMadeOf(m, pr, rnd, t, k, got, written, s, bin, maxEsi);
  }

  lemma AllMadeOf(m: Mat, pr: Params, rnd: Rnd, t: nat, k: nat, got: SymbolMap, written: SymbolMap, s: set<nat>,
                  bin: seq<RepairSymbol>, maxEsi: nat)
    requires k <= pr.kprime && Missing(s, k) <= |bin| && pr.s + pr.h + pr.kprime == pr.l <= |m|
    requires MatrixOk(m, pr, t, k, got) && BinOk(bin, got, k, maxEsi, t) && LogOk(s, got, written, k, t, false)
    ensures Explained(pr, rnd, t, k, got, Merge(s, Range(pr.kprime), IdsIn(bin, pr.kprime - k), k),
                      Merge(s, m[pr.s + pr.h..pr.l], RowsIn(bin), k))
  {
    hide Missing, Genuine, MadeOf, Merge, MatrixOk, BinOk, LogOk;
    forall c: Mat | Genuine(c, pr, rnd, t, k, got)
      ensures MadeOf(c, pr, rnd, t, Merge(s, Range(pr.kprime), IdsIn(bin, pr.kprime - k), k),
                     Merge(s, m[pr.s + pr.h..pr.l], RowsIn(bin), k))
    {
      GenuineMadeOf(c, m, pr, rnd, t, k, got, written, s, bin, maxEsi);
    }
  }

  lemma GotMasked(s: set<nat>, got: SymbolMap, written: SymbolMap, k: nat, t: nat)
    requires LogOk(s, got, written, k, t, false)
    ensures got.Keys <= s
  {}

  /** The received symbols and the padding symbols of a genuine code are what the system is made of. */
  lemma GenuineMadeOf(c: Mat, m: Mat, pr: Params, rnd: Rnd, t: nat, k: nat, got: SymbolMap, written: SymbolMap,
                      s: set<nat>, bin: seq<RepairSymbol>, maxEsi: nat)
    requires Genuine(c, pr, rnd, t, k, got) && MatrixOk(m, pr, t, k, got) && BinOk(bin, got, k, maxEsi, t)
    requires LogOk(s, got, written, k, t, false) && Missing(s, k) <= |bin|
    ensures MadeOf(c, pr, rnd, t, Merge(s, Range(pr.kprime), IdsIn(bin, pr.kprime - k), k),
                     Merge(s, m[pr.s + pr.h..pr.l], RowsIn(bin), k))
  {
    hide Missing, IsSymbol, ValidParams, Merge;
    var skip, own, ids, pad := pr.s + pr.h, m[pr.s + pr.h..pr.l], Range(pr.kprime), pr.kprime - k;
    var pairs := (x: nat, v: Vec) => IsSymbol(c, x, v, pr, rnd, t);
    forall i | 0 <= i < |ids| && (i in s || i >= k) ensures pairs(ids[i], own[i]) {
      assert own[i] == m[skip + i];
      if i < k {
        assert i in got && Isi(i, k, pr) == i;
      } else {
        assert own[i] == Zeros(t);
      }
    }
    forall j | 0 <= j < |bin| ensures pairs(IdsIn(bin, pad)[j], RowsIn(bin)[j]) {
      assert IsSymbol(c, Isi(bin[j].esi, k, pr), got[bin[j].esi], pr, rnd, t);
    }
    MergePairs(s, ids, own, IdsIn(bin, pad), RowsIn(bin), k, pairs);
    var a, b := Merge(s, ids, IdsIn(bin, pad), k), Merge(s, own, RowsIn(bin), k);
    forall i | 0 <= i < |a| ensures IsSymbol(c, a[i], b[i], pr, rnd, t) {
      assert pairs(a[i], b[i]);
    }
  }
}
