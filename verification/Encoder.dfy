/**
 Encoding a source block: loading its symbols, computing the intermediate symbols in place, and
 producing source and repair symbols (raptorq/nanorq.c, lines 130-146, 175-182, 206-232 and 442-474).
 */
module Encoding {
  import opened GF256
  import opened Linear
  import opened SpMat
  import opened Oblas
  import opened Scheduling
  import opened Preconditioning
  import opened Hdpc
  import opened Rank
  import opened Replaying
  import opened ReplayOrder
  import opened Inversion
  import opened IntermediateSymbols
  import opened Tuples
  import opened Generation
  import opened Symbols
  import opened Degrees
  import opened Layout
  import opened Transfer

  /** The K' symbols of a block: its K source symbols, padded with zeros to T bytes and to K' symbols. */
  ghost function SourceSymbols(f: Vec, sh: Shape, sbn: nat, pr: Params): (s: seq<Vec>)
    requires sh.Valid() && |f| == sh.f
    ensures |s| == pr.kprime && forall i :: 0 <= i < pr.kprime ==> |s[i]| == sh.t
  {
    seq(pr.kprime, i requires 0 <= i < pr.kprime =>
      if i < Size(sh.Blocks(), sbn) then SymbolIn(f, sh, sbn, i, Zeros(sh.t)) else Zeros(sh.t))
  }

  /** c are intermediate symbols of the block with symbols src: section 5.3.3.4 of RFC 6330. */
  ghost predicate CodeOf(c: Mat, pr: Params, rnd: Rnd, t: nat, src: seq<Vec>)
    requires ValidParams(pr) && |src| == pr.kprime
  {
    Precoded(pr, rnd, c, t) && forall i :: 0 <= i < pr.kprime ==> Symbol(c, i, pr, rnd, t) == src[i]
  }

  /**
   The outcome of a computation: Failed is the source's NULL or false, Aborted the abort of the
   working matrix, OutOfBounds a replay that leaves its list of operations.
   */
  datatype Status = Done | Failed | Aborted | OutOfBounds

  ghost predicate NoSymbols(m: Mat, t: nat) {
    forall r :: 0 <= r < |m| ==> m[r] == Zeros(t)
  }

  /** The rows of D once the source symbols are loaded. */
  ghost predicate Loaded(m: Mat, pr: Params, t: nat, src: seq<Vec>)
    requires |src| == pr.kprime
  {
    pr.l == pr.s + pr.h + pr.kprime <= |m| && Holds(m[..pr.l], pr, t, src)
  }

  lemma LoadStart(m: Mat, pr: Params, t: nat, src: seq<Vec>)
    requires NoSymbols(m, t) && |src| == pr.kprime
    ensures LoadedTo(m, pr, t, src, 0)
  {}

  /** Loading progress: the first n source symbols are in place, everything else is zero. */
  ghost predicate LoadedTo(m: Mat, pr: Params, t: nat, src: seq<Vec>, n: nat) {
    forall r :: 0 <= r < |m| ==>
      var i := r - pr.s - pr.h;
      m[r] == if 0 <= i < n && i < |src| then src[i] else Zeros(t)
  }

  lemma LoadDone(m: Mat, pr: Params, t: nat, k: nat, src: seq<Vec>)
    requires LoadedTo(m, pr, t, src, k) && |src| == pr.kprime && pr.l == pr.s + pr.h + pr.kprime <= |m|
    requires k <= pr.kprime
    requires forall i :: 0 <= i < pr.kprime ==> |src[i]| == t
    requires forall i :: k <= i < pr.kprime ==> src[i] == Zeros(t)
    ensures Loaded(m, pr, t, src)
  {
    forall i | 0 <= i < |src| ensures m[..pr.l][pr.s + pr.h + i] == src[i] {
      assert m[..pr.l][pr.s + pr.h + i] == m[pr.s + pr.h + i];
    }
  }

  /** Row S + H + i of a loaded block is symbol i. */
  lemma LoadedRow(m: Mat, pr: Params, t: nat, src: seq<Vec>, i: nat)
    requires |src| == pr.kprime && Loaded(m, pr, t, src) && i < pr.kprime
    ensures m[pr.s + pr.h + i] == src[i]
  {
    assert m[..pr.l][pr.s + pr.h + i] == src[i];
  }

  /** Computed intermediate symbols are a code of the block, for a square system. */
  lemma EncodedMeaning(a: Lists, pr: Params, rnd: Rnd, d0: Mat, d: Mat, t: nat, src: seq<Vec>)
    requires ValidParams(pr) && Encodes(a, pr, rnd, Range(pr.kprime)) && |src| == pr.kprime
    requires Loaded(d0, pr, t, src) && pr.l <= |d| && IsMat(d, |d|, t) && IsMat(d0, |d0|, t)
    requires SolverParams(pr) && Solves(Constraints(a, pr, rnd), d0[..pr.l], d[..pr.l], t)
    ensures CodeOf(d[..pr.l], pr, rnd, t, src)
  {
    hide Symbol, Precoded, Encodes, Constraints, Holds, ValidParams, SolverParams, Solves;
    SystemMeaning(a, pr, rnd, Range(pr.kprime), d0[..pr.l], d[..pr.l], t, src);
    forall i | 0 <= i < pr.kprime ensures Symbol(d[..pr.l], i, pr, rnd, t) == src[i] {
      assert Range(pr.kprime)[i] == i;
    }
  }

  /** Decoding row x of a matrix only looks at its first L rows. */
  lemma SymbolPrefix(m: Mat, x: nat, pr: Params, rnd: Rnd, t: nat)
    requires ValidParams(pr) && pr.l <= |m| && IsMat(m, |m|, t)
    ensures IsMat(m[..pr.l], pr.l, t) && Symbol(m, x, pr, rnd, t) == Symbol(m[..pr.l], x, pr, rnd, t)
  {
    hide Neighbours, ValidParams;
    NeighboursDistinct(x, pr, rnd);
    SumPrefix(m, Neighbours(x, pr, rnd), t, pr.l);
  }

  lemma SolverReady(pr: Params)
    requires ValidParams(pr)
    ensures SolverParams(pr) && Sized(pr, pr.l) && pr.l == pr.s + pr.h + pr.kprime && pr.s > 0 && pr.p > 0
  {}

  /**
   A replayed schedule, as values: the ids of the symbols whose system it is for and the sparse matrix of
   that system, its permutations, the size of its triangular block, its operations, the lengths its
   checkpoints stand for, and where between them the operations of Gaussian elimination begin.
   */
  datatype Used = Used(ids: seq<nat>, a: Lists, pm: Perms, i: nat, ops: seq<Op>, n0: nat, e: nat, n1: nat) {
    /** It inverts the constraint matrix of those symbols. */
    ghost predicate For(pr: Params, rnd: Rnd)
      requires ValidParams(pr)
    {
      && n0 <= n1 <= |ops|
      && Inverts(SystemMatrix(pr, rnd, ids), pm, i, ops[..n0], ops[n0..n1], ops[n1..])
      && Encodes(a, pr, rnd, ids) && Traced(a, pr, ops, pm, i, n0, e, n1)
    }

    /** Gaussian elimination recorded an operation. */
    ghost predicate Eliminated() {
      e < n1
    }

    /** Then the replay is correct; otherwise it is if the late operation, of a clearing pass, is spared. */
    lemma HarmlessIff(pr: Params, rnd: Rnd)
      requires ValidParams(pr) && For(pr, rnd) && !Overruns()
      ensures Harmless() <==> Eliminated() || LateSpared(ops, n0, n1, pm)
    {
      hide ValidParams, Inverts, SystemMatrix, Encodes, LateHarmless;
      LateHarmlessIff(SystemMatrix(pr, rnd, ids), pm, i, ops, n0, n1, e);
    }

    /** Its replay in the source's order is correct for every system: ReplayIsCorrectIff. */
    ghost predicate Harmless() {
      LateHarmless(ops, n0, n1, pm)
    }

    /** The first pass recorded nothing if no symbol of the system has one or two LT neighbours: the block is empty. */
    lemma HeavyOverruns(pr: Params, rnd: Rnd)
      requires ValidParams(pr) && For(pr, rnd) && pr.b >= pr.s && pr.w >= 2 && pr.p1 >= 2
      requires forall k :: 0 <= k < |ids| ==> LtDegree(ids[k], pr, rnd) >= 3
      ensures Overruns()
    {
      hide ValidParams, Inverts, SystemMatrix, Encodes, NoneLight, LtDegree;
      NoneLightIff(a, pr, rnd, ids);
    }

    /** Its replay leaves the list of operations: the first pass recorded none, or there are too many to count. */
    ghost predicate Overruns() {
      n0 == 0 || |ops| >= 0x8000_0000
    }
  }

  ghost function UsedOf(s: Schedule, ids: seq<nat>, a: Lists, n0: nat, e: nat, n1: nat): Used
    reads s, s.c, s.ci, s.d, s.di
  {
    Used(ids, a, s.Pm(), s.i, s.ops, n0, e, n1)
  }

  lemma UsedFor(s: Schedule, a: Lists, pr: Params, rnd: Rnd, ids: seq<nat>, n0: nat, e: nat, n1: nat)
    requires ValidParams(pr) && Encodes(a, pr, rnd, ids) && SolverParams(pr)
    requires Complete(Constraints(a, pr, rnd), s, n0, n1)
    requires Traced(a, pr, s.ops, s.Pm(), s.i, n0, e, n1)
    ensures UsedOf(s, ids, a, n0, e, n1).For(pr, rnd)
  {
    hide ValidParams, Encodes, Constraints, Inverts, SystemMatrix, Traced;
    EncodesSystem(a, pr, rnd, ids);
  }

  /** A schedule for the constraint matrix of a whole block, as nanorq_precalculate keeps one. */
  ghost predicate BlockSchedule(s: Schedule, a: Lists, pr: Params, rnd: Rnd, n0: nat, e: nat, n1: nat)
    requires ValidParams(pr)
    reads s, s.c, s.ci, s.d, s.di
  {
    && Encodes(a, pr, rnd, Range(pr.kprime)) && SolverParams(pr) && s.Distinct(pr.l, pr.l)
    && Complete(Constraints(a, pr, rnd), s, n0, n1) && Traced(a, pr, s.ops, s.Pm(), s.i, n0, e, n1)
  }

  /** precode_matrix_gen and precode_matrix_invert for a whole block. */
  method MakeSchedule(pr: Params, rnd: Rnd)
    returns (st: Status, s: Schedule, ghost a: Lists, ghost n0: nat, ghost e: nat, ghost n1: nat)
    requires ValidParams(pr)
    ensures fresh(s) && fresh(s.c) && fresh(s.ci) && fresh(s.d) && fresh(s.di) && st != OutOfBounds
    ensures st == Done ==> BlockSchedule(s, a, pr, rnd, n0, e, n1)
    ensures st == Status.Aborted ==> 2 * pr.h < pr.l - s.i
    ensures st == Failed ==> Deficient(SystemMatrix(pr, rnd, Range(pr.kprime)), pr.l)
  {
    hide ValidParams, Relations, SymbolRows, WellFormed, DenseRowsEmpty, Complete, Deficient, Constraints, Traced;
    SolverReady(pr);
    var m := Generate(pr, rnd, 0);
    a := m.idxs[..];
    RowsWellFormed(a, pr, rnd, Range(pr.kprime));
    EncodesSystem(a, pr, rnd, Range(pr.kprime));
    var outcome;
    outcome, s, n0, e, n1 := Invert(pr, rnd, m);
    st := if outcome == Inverted then Done else if outcome == Singular then Failed else Status.Aborted;
  }

  /** Encoder state of one source block. */
  class BlockEncoder {
    const pr: Params
    const rnd: Rnd
    const sh: Shape
    const sbn: nat
    const k: nat
    const d: array2<Octet>
    var loaded: bool
    var inverted: bool
    /** The schedule that was replayed. */
    ghost var used: Used

    ghost predicate Valid(f: Vec)
      reads this, d
    {
      && ValidParams(pr) && sh.Valid() && sbn < sh.z && |f| == sh.f && k == Size(sh.Blocks(), sbn) <= pr.kprime
      && d.Length1 == sh.t && pr.l <= d.Length0
      && (!loaded ==> !inverted && NoSymbols(RowsOf(d), sh.t))
      && (loaded && !inverted ==> Loaded(RowsOf(d), pr, sh.t, SourceSymbols(f, sh, sbn, pr)))
      && (inverted ==> used.ids == Range(pr.kprime) && used.For(pr, rnd) && !used.Overruns())
      && (inverted && used.Harmless() ==> CodeOf(Code(), pr, rnd, sh.t, SourceSymbols(f, sh, sbn, pr)))
    }

    /** The intermediate symbols. */
    ghost function Code(): Mat
      requires pr.l <= d.Length0
      reads d
    {
      RowsOf(d)[..pr.l]
    }

    /** get_block_encoder; maxEsi is 0 for an encoder that has no limit set. */
    constructor (pr: Params, rnd: Rnd, sh: Shape, sbn: nat, maxEsi: nat, ghost f: Vec)
      requires ValidParams(pr) && sh.Valid() && sbn < sh.z && |f| == sh.f
      requires Size(sh.Blocks(), sbn) <= pr.kprime && (maxEsi > 0 ==> maxEsi >= Size(sh.Blocks(), sbn))
      ensures Valid(f) && fresh(d) && !loaded && this.pr == pr && this.rnd == rnd && this.sh == sh && this.sbn == sbn
    {
      this.pr, this.rnd, this.sh, this.sbn := pr, rnd, sh, sbn;
      k := Size(sh.Blocks(), sbn);
      var spare := if maxEsi > 0 then maxEsi - Size(sh.Blocks(), sbn) else 0;
      d := new Octet[pr.l + spare, sh.t]((_, _) => 0);
      loaded, inverted := false, false;
    }

    /**
     The rows of D are a code of the block: they obey all relations
     of section 5.3.3.4 of RFC 6330 and make up its source symbols.  They are once elimination has recorded an
     operation for the schedule that was replayed.
     */
    ghost predicate IsCode(f: Vec)
      reads this, d
    {
      Valid(f) && used.Harmless() && CodeOf(Code(), pr, rnd, sh.t, SourceSymbols(f, sh, sbn, pr))
    }

    lemma Eliminated(f: Vec)
      requires Valid(f) && inverted && used.Eliminated()
      ensures IsCode(f)
    {
      hide RowsOf, ValidParams, CodeOf, NoSymbols, Loaded, SourceSymbols, Used.For, Used.Harmless, Used.Overruns,
        Used.Eliminated;
      used.HarmlessIff(pr, rnd);
    }

    lemma EliminatedIf(f: Vec)
      ensures Valid(f) && inverted && used.Eliminated() ==> IsCode(f)
    {
      hide Valid, IsCode;
      if Valid(f) && inverted && used.Eliminated() {
        Eliminated(f);
      }
    }

    /** load_symbol_matrix. */
    method Load(file: array<Octet>)
      requires Valid(file[..]) && !loaded && (d as object) != (file as object)
      modifies d, this`loaded
      ensures Valid(file[..]) && loaded && !inverted && file[..] == old(file[..])
    {
      hide RowsOf, NoSymbols, SymbolIn, ValidParams, Holds, Used.For, Used.Harmless, Used.Overruns;
      ghost var f := file[..];
      ghost var src := SourceSymbols(f, sh, sbn, pr);
      SolverReady(pr);
      LoadStart(RowsOf(d), pr, sh.t, src);
      for esi := 0 to k
        invariant file[..] == f && !loaded && !inverted && LoadedTo(RowsOf(d), pr, sh.t, src, esi)
      {
        var row := pr.s + pr.h + esi;
        TransferIn(file, sh, sbn, esi, d, row);
      }
      LoadDone(RowsOf(d), pr, sh.t, k, src);
      loaded := true;
    }

    /** nanorq_generate_symbols, with a schedule computed before or a new one. */
    method GenerateSymbols(file: array<Octet>, pre: Schedule?, ghost pa: Lists, ghost p0: nat, ghost pe: nat,
                           ghost p1: nat)
      returns (st: Status)
      requires Valid(file[..]) && (d as object) != (file as object)
      requires pre != null ==> BlockSchedule(pre, pa, pr, rnd, p0, pe, p1)
      modifies d, this`loaded, this`inverted, this`used
      ensures file[..] == old(file[..]) && (st == Done || st == Failed ==> Valid(file[..]))
      ensures st == Done <==> inverted
      ensures st == Done && used.Eliminated() ==> IsCode(file[..])
      ensures old(inverted) ==> st == Done && RowsOf(d) == old(RowsOf(d)) && used == old(used)
      ensures !old(inverted) && (st == Done || st == OutOfBounds) && pre != null ==>
        used == UsedOf(pre, Range(pr.kprime), pa, p0, pe, p1)
      ensures st == OutOfBounds ==> !old(inverted) && ValidParams(pr) && used.For(pr, rnd) && used.Overruns()
      ensures st == Failed ==>
        loaded && pre == null && ValidParams(pr) && Deficient(SystemMatrix(pr, rnd, Range(pr.kprime)), pr.l)
      ensures st == Status.Aborted ==> pre == null && 2 * pr.h < pr.l - used.i
    {
      hide RowsOf, ValidParams, Loaded, CodeOf, NoSymbols, SourceSymbols, Complete, Constraints, Encodes, Used.For,
        Used.Harmless, Used.Overruns, Used.Eliminated, SystemMatrix, Deficient, Traced;
      if inverted {
        EliminatedIf(file[..]);
        return Done;
      }
      if !loaded {
        Load(file);
      }
      var s: Schedule;
      ghost var a, n0, e, n1 := pa, p0, pe, p1;
      if pre != null {
        s := pre;
      } else {
        st, s, a, n0, e, n1 := MakeSchedule(pr, rnd);
        if st != Done {
          used := UsedOf(s, Range(pr.kprime), a, n0, e, n1);
          return;
        }
      }
      st := Replay(s, file[..], a, n0, e, n1);
      EliminatedIf(file[..]);
    }

    /** A schedule too long for 31-bit loop counters counts as out of bounds. */
    method Replay(s: Schedule, ghost f: Vec, ghost a: Lists, ghost n0: nat, ghost e: nat, ghost n1: nat)
      returns (st: Status)
      requires Valid(f) && loaded && !inverted && BlockSchedule(s, a, pr, rnd, n0, e, n1)
      modifies d, this`inverted, this`used
      ensures st == Done || st == OutOfBounds
      ensures used == UsedOf(s, Range(pr.kprime), a, n0, e, n1) && used.For(pr, rnd)
      ensures st == Done ==> Valid(f) && inverted
      ensures st == OutOfBounds <==> used.Overruns()
      ensures st == OutOfBounds ==> !inverted
    {
      hide RowsOf, ValidParams, Loaded, CodeOf, NoSymbols, SourceSymbols, Complete, Constraints, Encodes, LateHarmless,
        HoldsSolution, Solves, SystemMatrix, Used.For, Traced;
      ghost var m, src := RowsOf(d), SourceSymbols(f, sh, sbn, pr);
      SolverReady(pr);
      EncodesSize(a, pr, rnd);
      UsedFor(s, a, pr, rnd, Range(pr.kprime), n0, e, n1);
      used := UsedOf(s, Range(pr.kprime), a, n0, e, n1);
      if |s.ops| >= 0x8000_0000 {
        return OutOfBounds;
      }
      var inBounds := Intermediate(d, s, Constraints(a, pr, rnd), n0, n1);
      if !inBounds {
        return OutOfBounds;
      }
      inverted := true;
      if used.Harmless() {
        EncodedMeaning(a, pr, rnd, m, RowsOf(d), sh.t, src);
      }
      st := Done;
    }

    /** The source symbols a block's code was made from come out again. */
    ghost predicate Systematic(f: Vec, esi: nat, data: Vec)
      requires sh.Valid() && |f| == sh.f
      reads this
    {
      !inverted || used.Eliminated() || used.Harmless() ==> data == SymbolIn(f, sh, sbn, esi, Zeros(sh.t))
    }

    /** nanorq_encode, for a source symbol. */
    method EncodeSource(file: array<Octet>, esi: nat, data: array<Octet>)
      requires Valid(file[..]) && (d as object) != (file as object) && esi < k
      requires data.Length == sh.t && (data as object) != (file as object) && (data as object) != (d as object)
      modifies d, data, this`loaded
      ensures file[..] == old(file[..]) && Valid(file[..]) && inverted == old(inverted) && used == old(used)
      ensures Systematic(file[..], esi, data[..])
      ensures inverted ==> RowsOf(d) == old(RowsOf(d)) && data[..] == Symbol(RowsOf(d), esi, pr, rnd, sh.t)
    {
      hide RowsOf, ValidParams, Loaded, CodeOf, NoSymbols, Symbol, SymbolIn, Used.For, Used.Harmless, Used.Overruns,
        SystemMatrix;
      ghost var f := file[..];
      ghost var src := SourceSymbols(f, sh, sbn, pr);
      SolverReady(pr);
      if inverted {
        DecodeRow(pr, rnd, d, esi, data);
        SymbolPrefix(RowsOf(d), esi, pr, rnd, sh.t);
        EliminatedIf(f);
        if used.Harmless() {
          CodeSymbol(Code(), pr, rnd, sh.t, src, esi);
        }
      } else {
        if !loaded {
          Load(file);
        }
        LoadedSize(RowsOf(d), pr, sh.t, src);
        CopyRow(d, pr.s + pr.h + esi, data);
        LoadedRow(RowsOf(d), pr, sh.t, src, esi);
      }
    }

    /** nanorq_encode, for a repair symbol: symbol esi has internal id esi + K' - K. */
    method EncodeRepair(file: array<Octet>, esi: nat, data: array<Octet>, pre: Schedule?,
                        ghost pa: Lists, ghost p0: nat, ghost pe: nat, ghost p1: nat)
      returns (st: Status, written: nat)
      requires Valid(file[..]) && (d as object) != (file as object) && esi >= k
      requires data.Length == sh.t && (data as object) != (file as object) && (data as object) != (d as object)
      requires pre != null ==> BlockSchedule(pre, pa, pr, rnd, p0, pe, p1)
      modifies d, data, this`loaded, this`inverted, this`used
      ensures file[..] == old(file[..]) && (st == Done || st == Failed ==> Valid(file[..]))
      ensures esi >= 0x100_0000 ==> st == Failed
      ensures esi < 0x100_0000 && st == Failed ==>
        pre == null && ValidParams(pr) && Deficient(SystemMatrix(pr, rnd, Range(pr.kprime)), pr.l)
      ensures st == OutOfBounds ==> !old(inverted) && ValidParams(pr) && used.For(pr, rnd) && used.Overruns()
      ensures st == Status.Aborted ==> pre == null && 2 * pr.h < pr.l - used.i
      ensures old(inverted) ==> RowsOf(d) == old(RowsOf(d)) && used == old(used) && (esi < 0x100_0000 ==> st == Done)
      ensures st == Done ==>
        inverted && written == sh.t && data[..] == Symbol(RowsOf(d), esi + pr.kprime - k, pr, rnd, sh.t)
      ensures st != Done ==> written == 0
    {
      hide RowsOf, ValidParams, Loaded, CodeOf, NoSymbols, Symbol, SymbolIn, Used.For, Used.Harmless, Used.Overruns,
        SystemMatrix, Deficient;
      if esi > 0xFF_FFFF {
        return Failed, 0;
      }
      st := GenerateSymbols(file, pre, pa, p0, pe, p1);
      if st != Done {
        return st, 0;
      }
      DecodeRow(pr, rnd, d, esi + pr.kprime - k, data);
      written := sh.t;
    }
  }

  lemma LoadedSize(m: Mat, pr: Params, t: nat, src: seq<Vec>)
    requires |src| == pr.kprime && Loaded(m, pr, t, src)
    ensures pr.l <= |m| && pr.l == pr.s + pr.h + pr.kprime
  {}

  lemma CodeSymbol(c: Mat, pr: Params, rnd: Rnd, t: nat, src: seq<Vec>, i: nat)
    requires ValidParams(pr) && |src| == pr.kprime && CodeOf(c, pr, rnd, t, src) && i < pr.kprime
    ensures IsMat(c, pr.l, t) && Symbol(c, i, pr, rnd, t) == src[i]
  {
    hide ValidParams, Symbol;
  }

  /** memcpy of a row. */
  method CopyRow(d: array2<Octet>, r: nat, data: array<Octet>)
    requires r < d.Length0 && data.Length == d.Length1 && (data as object) != (d as object)
    modifies data
    ensures data[..] == RowsOf(d)[r]
  {
    for k := 0 to data.Length
      invariant forall x :: 0 <= x < k ==> data[x] == d[r, x]
    {
      data[k] := d[r, k];
    }
  }

  lemma EncodesSize(a: Lists, pr: Params, rnd: Rnd)
    requires ValidParams(pr) && Encodes(a, pr, rnd, Range(pr.kprime)) && SolverParams(pr)
    ensures |a| == pr.l && IsMat(Constraints(a, pr, rnd), pr.l, pr.l)
  {
    SolverReady(pr);
  }
}
