/**
 Gaussian elimination of the columns left outside the triangular block: first over GF(2) on the
 sparse rows alone, then over GF(256) with the dense rows (raptorq/precode.c, lines 232-315).
 */
module Gauss {
  import opened GF256
  import opened Tables
  import opened Linear
  import opened SpMat
  import opened Oblas
  import opened Permutation
  import opened Scheduling
  import opened Preconditioning
  import opened WorkMatrix
  import opened Elimination

  /**
   The solver after the first pass of operations f1: the working matrix is linked to the
   schedule, elimination has reached position `row` below lim, and later operations only change
   rows at positions from i on.
   */
  ghost predicate SolveState(full: Mat, f1: seq<Op>, ops: seq<Op>, v: Mat, pm: Perms, i: nat,
                             row: nat, lim: nat, lo: nat, hi: nat) {
    && Linked(full, ops, v, pm.c, i, lo, hi) && ValidOps(f1, |full|)
    && Solving(Run(full, ops, |pm.c|), pm, i, row, lim)
    && SameTop(Run(full, f1, |pm.c|), Run(full, ops, |pm.c|), pm, i)
    && TopIdentity(Run(full, f1, |pm.c|), pm, i)
    && f1 <= ops && LowTargets(ops[|f1|..], pm.di, i)
    && Additions(full, f1, pm, i, 0, i)
    && Spared(pm, i, lim, lo, hi)
  }

  /** The triangular block, cleared: positions below i hold the identity. */
  ghost predicate TopIdentity(m: Mat, pm: Perms, i: nat) {
    && Fits(m, pm) && i <= |pm.c| && i <= |pm.d|
    && forall k, j :: 0 <= k < i && 0 <= j < i ==> At(m, pm, k, j) == if j == k then 1 else 0
  }

  /** Operations change rows at positions from i on only. */
  ghost predicate LowTargets(ops: seq<Op>, di: seq<nat>, i: nat) {
    forall k :: 0 <= k < |ops| ==> ops[k].i < |di| && di[ops[k].i] >= i
  }

  /** ops extends ops0 by operations that scale a row, or that add a row at a position from i on. */
  ghost predicate Recorded(ops0: seq<Op>, ops: seq<Op>, di: seq<nat>, i: nat): (r: bool)
    ensures r ==> ops0 <= ops
  {
    && ops0 <= ops
    && forall k :: |ops0| <= k < |ops| ==> ops[k].beta == 0 || (ops[k].j < |di| && di[ops[k].j] >= i)
  }

  /** The operation adds a row of the triangular block, as those of the clearing passes do. */
  predicate AddsBlock(op: Op, di: seq<nat>, i: nat) {
    op.beta != 0 && op.j < |di| && di[op.j] < i
  }

  /** ops extends ops0 by nothing, or the last operation is one of a clearing pass. */
  ghost predicate Cleaned(ops0: seq<Op>, ops: seq<Op>, di: seq<nat>, i: nat) {
    ops0 <= ops && (ops == ops0 || AddsBlock(ops[|ops| - 1], di, i))
  }

  /** Of the operations from n0 on, those from e on are of the elimination, and the one before e is not. */
  ghost predicate Since(ops: seq<Op>, di: seq<nat>, i: nat, n0: nat, e: nat) {
    && n0 <= e <= |ops| && Recorded(ops[..e], ops, di, i)
    && (e == n0 || AddsBlock(ops[e - 1], di, i))
  }

  lemma SinceStart(ops: seq<Op>, di: seq<nat>, i: nat, n0: nat)
    requires n0 <= |ops| && Cleaned(ops[..n0], ops, di, i)
    ensures Since(ops, di, i, n0, |ops|)
  {
    assert ops[..|ops|] == ops;
  }

  lemma SinceMore(ops: seq<Op>, ops': seq<Op>, di: seq<nat>, i: nat, n0: nat, e: nat)
    requires Since(ops, di, i, n0, e) && Recorded(ops, ops', di, i)
    ensures Since(ops', di, i, n0, e)
  {
    assert ops'[..e] == ops[..e];
  }

  lemma SinceCleaned(ops: seq<Op>, ops': seq<Op>, di: seq<nat>, i: nat, n0: nat, e: nat) returns (e': nat)
    requires Since(ops, di, i, n0, e) && Cleaned(ops, ops', di, i)
    ensures Since(ops', di, i, n0, e')
  {
    if ops' == ops {
      e' := e;
    } else {
      e' := |ops'|;
      assert ops'[..e'] == ops';
    }
  }

  lemma SinceKept(ops: seq<Op>, pm: Perms, pm': Perms, i: nat, lim: nat, n0: nat, e: nat)
    requires Since(ops, pm.di, i, n0, e) && OtherRowsKept(pm, pm', i, lim) && i <= |pm.d|
    requires Inverse(pm.d, pm.di) && Inverse(pm'.d, pm'.di)
    ensures Since(ops, pm'.di, i, n0, e)
  {
    RecordedKept(ops[..e], ops, pm, pm', i, lim);
    if e != n0 {
      assert pm.d[pm.di[ops[e - 1].j]] == ops[e - 1].j;
    }
  }

  lemma RecordedNothing(ops: seq<Op>, di: seq<nat>, i: nat)
    ensures Recorded(ops, ops, di, i)
  {}

  lemma RecordedMore(ops0: seq<Op>, ops1: seq<Op>, ops2: seq<Op>, di: seq<nat>, i: nat)
    requires Recorded(ops0, ops1, di, i) && Recorded(ops1, ops2, di, i)
    ensures Recorded(ops0, ops2, di, i)
  {}

  lemma RecordedSwap(ops0: seq<Op>, ops: seq<Op>, pm: Perms, i: nat, a: nat, b: nat)
    requires Recorded(ops0, ops, pm.di, i) && Inverse(pm.d, pm.di) && i <= a < |pm.d| && i <= b < |pm.d|
    ensures Recorded(ops0, ops, pm.SwapRows(a, b).di, i)
  {
    SwapPositions(pm, a, b);
  }

  /** No row at a position below i or lim is excluded. */
  ghost predicate Spared(pm: Perms, i: nat, lim: nat, lo: nat, hi: nat) {
    forall k :: 0 <= k < |pm.d| && (k < i || k < lim) ==> !(lo <= pm.d[k] < hi)
  }

  lemma StateFacts(full: Mat, f1: seq<Op>, ops: seq<Op>, v: Mat, pm: Perms, i: nat,
                   row: nat, lim: nat, lo: nat, hi: nat)
    requires SolveState(full, f1, ops, v, pm, i, row, lim, lo, hi)
    ensures |full| == |pm.d| && pm.Valid(|pm.d|, |pm.c|) && Fits(Run(full, ops, |pm.c|), pm)
    ensures |Run(full, ops, |pm.c|)| == |pm.d|
    ensures i <= row <= |pm.c| && row <= lim <= |pm.d|
    ensures Linked(full, ops, v, pm.c, i, lo, hi)
    ensures |v| == |full| && forall k :: 0 <= k < lim ==> |v[pm.d[k]]| == |pm.c| - i
    ensures forall k :: 0 <= k < |pm.d| && (k < i || k < lim) ==> !(lo <= pm.d[k] < hi)
    ensures forall k, j :: 0 <= k < lim && i <= j < |pm.c| ==>
      v[pm.d[k]][j - i] == At(Run(full, ops, |pm.c|), pm, k, j)
  {
    hide Run, SameTop, TopIdentity, LowTargets, Additions;
  }

  // ---------- row exchanges ----------

  lemma SwapSolving(m: Mat, pm: Perms, i: nat, row: nat, lim: nat, p: nat)
    requires Solving(m, pm, i, row, lim) && row <= p < lim && row < lim
    ensures Solving(m, pm.SwapRows(row, p), i, row, lim)
  {
    var pm' := pm.SwapRows(row, p);
    SwapInverse(pm.d, pm.di, row, p);
    forall k, j | i <= k < lim && 0 <= j < k && j < row ensures At(m, pm', k, j) == 0 {
      var q := if k == row then p else if k == p then row else k;
      assert pm'.d[k] == pm.d[q];
      assert At(m, pm, q, j) == 0;
    }
    forall k | i <= k < row ensures At(m, pm', k, k) == 1 {
      assert At(m, pm, k, k) == 1;
    }
  }

  lemma SwapState(full: Mat, f1: seq<Op>, ops: seq<Op>, v: Mat, pm: Perms, i: nat,
                  row: nat, lim: nat, lo: nat, hi: nat, p: nat)
    requires SolveState(full, f1, ops, v, pm, i, row, lim, lo, hi) && row <= p < lim
    ensures SolveState(full, f1, ops, v, pm.SwapRows(row, p), i, row, lim, lo, hi)
  {
    StateFacts(full, f1, ops, v, pm, i, row, lim, lo, hi);
    var m1, m := Run(full, f1, |pm.c|), Run(full, ops, |pm.c|);
    SwapSolving(m, pm, i, row, lim, p);
    SwapInverse(pm.d, pm.di, row, p);
    SwapPositions(pm, row, p);
    hide Run, Linked, Solving, Inverse, SameTop, LowTargets, Additions, Spared, TopIdentity;
    SwapTop(m1, m, pm, i, row, p);
    SwapIdentity(m1, pm, i, row, p);
    SwapTargets(ops[|f1|..], pm, i, row, p);
    SwapAdditions(full, f1, pm, i, row, p);
    SwapSpared(pm, i, lim, lo, hi, row, p);
  }

  lemma SwapTop(m1: Mat, m: Mat, pm: Perms, i: nat, a: nat, b: nat)
    requires SameTop(m1, m, pm, i) && i <= a < |pm.d| && i <= b < |pm.d| && pm.d[a] < |pm.di| && pm.d[b] < |pm.di|
    ensures SameTop(m1, m, pm.SwapRows(a, b), i)
  {}

  lemma SwapIdentity(m: Mat, pm: Perms, i: nat, a: nat, b: nat)
    requires TopIdentity(m, pm, i) && i <= a < |pm.d| && i <= b < |pm.d|
    ensures TopIdentity(m, pm.SwapRows(a, b), i)
  {
    SwapInverse(pm.d, pm.di, a, b);
    forall k, j | 0 <= k < i && 0 <= j < i
      ensures At(m, pm.SwapRows(a, b), k, j) == if j == k then 1 else 0
    {
      assert At(m, pm.SwapRows(a, b), k, j) == At(m, pm, k, j);
    }
  }

  lemma SwapTargets(ops: seq<Op>, pm: Perms, i: nat, a: nat, b: nat)
    requires LowTargets(ops, pm.di, i) && Inverse(pm.d, pm.di) && i <= a < |pm.d| && i <= b < |pm.d|
    ensures LowTargets(ops, pm.SwapRows(a, b).di, i)
  {
    SwapPositions(pm, a, b);
    hide Inverse;
  }

  lemma SwapAdditions(full: Mat, ops: seq<Op>, pm: Perms, i: nat, a: nat, b: nat)
    requires Additions(full, ops, pm, i, 0, i) && Inverse(pm.d, pm.di) && i <= a < |pm.d| && i <= b < |pm.d|
    ensures Additions(full, ops, pm.SwapRows(a, b), i, 0, i)
  {
    SwapPositions(pm, a, b);
    hide Inverse;
    forall k | 0 <= k < |ops| ensures Addition(full, ops[k], pm.SwapRows(a, b), i, 0, i) {
      assert Addition(full, ops[k], pm, i, 0, i);
    }
    forall x, y | 0 <= x < y < |ops|
      ensures pm.SwapRows(a, b).di[ops[x].j] <= pm.SwapRows(a, b).di[ops[y].j]
    {
      assert Addition(full, ops[x], pm, i, 0, i) && Addition(full, ops[y], pm, i, 0, i);
    }
  }

  lemma SwapSpared(pm: Perms, i: nat, lim: nat, lo: nat, hi: nat, a: nat, b: nat)
    requires Spared(pm, i, lim, lo, hi) && i <= a < lim <= |pm.d| && i <= b < lim && pm.d[a] < |pm.di|
    requires pm.d[b] < |pm.di|
    ensures Spared(pm.SwapRows(a, b), i, lim, lo, hi)
  {}

  /** Rows at positions other than the two exchanged keep their positions. */
  lemma SwapPositions(pm: Perms, a: nat, b: nat)
    requires Inverse(pm.d, pm.di) && a < |pm.d| && b < |pm.d|
    ensures forall r :: 0 <= r < |pm.di| && pm.di[r] != a && pm.di[r] != b ==> pm.SwapRows(a, b).di[r] == pm.di[r]
    ensures forall r :: 0 <= r < |pm.di| && (pm.di[r] == a || pm.di[r] == b) ==>
      pm.SwapRows(a, b).di[r] == a || pm.SwapRows(a, b).di[r] == b
  {}

  // ---------- one column ----------

  /** The pivot at position `row` is one and the rows between it and `del` are cleared below it. */
  ghost predicate Pivoted(m: Mat, pm: Perms, i: nat, row: nat, lim: nat, del: nat) {
    && Solving(m, pm, i, row, lim) && row < lim && row < |pm.c| && row < del <= lim
    && At(m, pm, row, row) == 1
    && (forall k :: row < k < del ==> At(m, pm, k, row) == 0)
  }

  /** Changing one row at or below the pivot keeps the form if its cleared entries stay zero. */
  lemma SolvingChange(m: Mat, m': Mat, pm: Perms, i: nat, row: nat, lim: nat, p: nat)
    requires Solving(m, pm, i, row, lim) && Fits(m', pm) && row <= p < lim
    requires forall k :: 0 <= k < |pm.d| && k != p ==> m'[pm.d[k]] == m[pm.d[k]]
    requires forall j :: 0 <= j < row ==> At(m', pm, p, j) == 0
    ensures Solving(m', pm, i, row, lim)
    ensures forall k :: i <= k < lim && k != p && row < |pm.c| ==> At(m', pm, k, row) == At(m, pm, k, row)
  {
    forall k, j | i <= k < lim && 0 <= j < k && j < row ensures At(m', pm, k, j) == 0 {
      assert k != p ==> At(m', pm, k, j) == At(m, pm, k, j);
    }
    forall k | i <= k < row ensures At(m', pm, k, k) == 1 {
      assert At(m', pm, k, k) == At(m, pm, k, k);
    }
  }

  /** A row operation changes the row at one position only. */
  lemma OpAtPosition(m: Mat, pm: Perms, op: Op, p: nat)
    requires Fits(m, pm) && ValidOp(op, |m|) && p < |pm.d| && op.i == pm.d[p]
    ensures Fits(ApplyOp(m, op), pm)
    ensures forall k :: 0 <= k < |pm.d| && k != p ==> ApplyOp(m, op)[pm.d[k]] == m[pm.d[k]]
  {
    hide Add, Mul;
    assert forall k :: 0 <= k < |pm.d| ==> pm.di[pm.d[k]] == k;
    ApplyOpIsMat(m, op, |pm.c|);
  }

  lemma PivotAdd(m: Mat, pm: Perms, i: nat, row: nat, lim: nat, del: nat, beta: Octet)
    requires Pivoted(m, pm, i, row, lim, del) && del < lim && beta == At(m, pm, del, row) && beta != 0
    ensures ValidOp(Op(pm.d[del], pm.d[row], beta), |m|)
    ensures Pivoted(ApplyOp(m, Op(pm.d[del], pm.d[row], beta)), pm, i, row, lim, del + 1)
  {
    var op := Op(pm.d[del], pm.d[row], beta);
    assert pm.di[pm.d[del]] == del && pm.di[pm.d[row]] == row;
    OpAtPosition(m, pm, op, del);
    hide Add, Mul;
    var m' := ApplyOp(m, op);
    forall j | 0 <= j <= row ensures At(m', pm, del, j) == 0 {
      assert j < row ==> At(m, pm, row, j) == 0 && At(m, pm, del, j) == 0;
      assert At(m', pm, del, j) == Add(At(m, pm, del, j), Mul(beta, At(m, pm, row, j)));
      MulZero(beta);
      MulOneRight(beta);
      AddZero(0);
      AddSelf(beta);
    }
    SolvingChange(m, m', pm, i, row, lim, del);
  }

  lemma PivotDone(m: Mat, pm: Perms, i: nat, row: nat, lim: nat)
    requires Pivoted(m, pm, i, row, lim, lim)
    ensures Solving(m, pm, i, row + 1, lim)
  {
    forall k, j | i <= k < lim && 0 <= j < k && j < row + 1 ensures At(m, pm, k, j) == 0 {
      assert j == row || j < row;
    }
  }

  lemma PivotScale(m: Mat, pm: Perms, i: nat, row: nat, lim: nat, beta: Octet)
    requires Solving(m, pm, i, row, lim) && row < lim && row < |pm.c| && beta == At(m, pm, row, row) && beta > 1
    ensures Inv(beta) >= 2 && ValidOp(Op(pm.d[row], Inv(beta), 0), |m|)
    ensures Pivoted(ApplyOp(m, Op(pm.d[row], Inv(beta), 0)), pm, i, row, lim, row + 1)
  {
    InvCorrect(beta);
    MulOneLeft(beta);
    hide Add, Mul, Inv;
    var op := Op(pm.d[row], Inv(beta), 0);
    OpAtPosition(m, pm, op, row);
    var m' := ApplyOp(m, op);
    assert At(m', pm, row, row) == Mul(Inv(beta), At(m, pm, row, row));
    forall j | 0 <= j < row ensures At(m', pm, row, j) == 0 {
      assert At(m, pm, row, j) == 0;
      assert At(m', pm, row, j) == Mul(Inv(beta), At(m, pm, row, j));
      MulZero(Inv(beta));
    }
    SolvingChange(m, m', pm, i, row, lim, row);
  }

  ghost predicate PivotState(full: Mat, f1: seq<Op>, ops: seq<Op>, v: Mat, pm: Perms, i: nat,
                             row: nat, lim: nat, lo: nat, hi: nat, del: nat) {
    && SolveState(full, f1, ops, v, pm, i, row, lim, lo, hi)
    && Pivoted(Run(full, ops, |pm.c|), pm, i, row, lim, del)
  }

  /** An operation on a row at a position from i on keeps everything but the elimination progress. */
  lemma PushLow(full: Mat, f1: seq<Op>, ops: seq<Op>, v: Mat, v': Mat, pm: Perms, i: nat,
                row: nat, lim: nat, lo: nat, hi: nat, op: Op)
    requires SolveState(full, f1, ops, v, pm, i, row, lim, lo, hi)
    requires ValidOp(op, |full|) && pm.di[op.i] >= i
    requires Linked(full, ops + [op], v', pm.c, i, lo, hi)
    requires Run(full, ops + [op], |pm.c|) == ApplyOp(Run(full, ops, |pm.c|), op)
    requires Solving(ApplyOp(Run(full, ops, |pm.c|), op), pm, i, row, lim)
    ensures SolveState(full, f1, ops + [op], v', pm, i, row, lim, lo, hi)
  {
    hide Run, Linked, Solving, SameTop, TopIdentity, Additions, Spared, ApplyOp;
    StateDefined(full, f1, ops, v, pm, i, row, lim, lo, hi);
    StateFacts(full, f1, ops, v, pm, i, row, lim, lo, hi);
    SameTopStep(Run(full, f1, |pm.c|), Run(full, ops, |pm.c|), pm, i, op);
    assert (ops + [op])[|f1|..] == ops[|f1|..] + [op];
  }

  lemma SameTopStep(m1: Mat, m: Mat, pm: Perms, i: nat, op: Op)
    requires SameTop(m1, m, pm, i) && IsMat(m, |m|, |pm.c|) && Inverse(pm.d, pm.di)
    requires ValidOp(op, |m|) && pm.di[op.i] >= i
    ensures SameTop(m1, ApplyOp(m, op), pm, i)
  {
    hide Add, Mul;
    forall k | 0 <= k < i ensures ApplyOp(m, op)[pm.d[k]] == m1[pm.d[k]] {
      assert pm.di[pm.d[k]] == k;
    }
  }

  lemma StateAdd(full: Mat, f1: seq<Op>, ops: seq<Op>, v: Mat, v': Mat, pm: Perms, i: nat,
                 row: nat, lim: nat, lo: nat, hi: nat, del: nat, beta: Octet)
    requires PivotState(full, f1, ops, v, pm, i, row, lim, lo, hi, del) && del < lim
    requires |Run(full, ops, |pm.c|)| == |pm.d| && beta == At(Run(full, ops, |pm.c|), pm, del, row) && beta != 0
    requires Linked(full, ops + [Op(pm.d[del], pm.d[row], beta)], v', pm.c, i, lo, hi)
    requires ValidOp(Op(pm.d[del], pm.d[row], beta), |full|)
    requires Run(full, ops + [Op(pm.d[del], pm.d[row], beta)], |pm.c|)
          == ApplyOp(Run(full, ops, |pm.c|), Op(pm.d[del], pm.d[row], beta))
    ensures PivotState(full, f1, ops + [Op(pm.d[del], pm.d[row], beta)], v', pm, i, row, lim, lo, hi, del + 1)
  {
    StateFacts(full, f1, ops, v, pm, i, row, lim, lo, hi);
    PivotAdd(Run(full, ops, |pm.c|), pm, i, row, lim, del, beta);
    assert pm.di[pm.d[del]] == del;
    PivotIsSolving(ApplyOp(Run(full, ops, |pm.c|), Op(pm.d[del], pm.d[row], beta)), pm, i, row, lim, del + 1);
    hide Run, Linked, Solving, ApplyOp, SolveState, Pivoted;
    PushLow(full, f1, ops, v, v', pm, i, row, lim, lo, hi, Op(pm.d[del], pm.d[row], beta));
  }

  lemma PivotIsSolving(m: Mat, pm: Perms, i: nat, row: nat, lim: nat, del: nat)
    requires Pivoted(m, pm, i, row, lim, del)
    ensures Solving(m, pm, i, row, lim) && i <= row
  {}

  // ---------- spare byte rows ----------

  ghost function Typed(typ: seq<bool>): (s: set<nat>)
    ensures forall r: nat :: r in s <==> r < |typ| && typ[r]
  {
    set r: nat | r < |typ| && typ[r]
  }

  /** Byte rows are at positions from i on, and blkidx is their number. */
  ghost predicate Housed(typ: seq<bool>, blkidx: nat, di: seq<nat>, i: nat) {
    && |di| == |typ| && blkidx == |Typed(typ)|
    && forall r :: 0 <= r < |typ| && typ[r] ==> di[r] >= i
  }

  /** Adding to the row at a position from i on turns it into a byte row, or does not. */
  lemma HousedAdd(typ: seq<bool>, typ': seq<bool>, blkidx: nat, blkidx': nat, di: seq<nat>, i: nat, r: nat, src: bool)
    requires Housed(typ, blkidx, di, i) && r < |typ| && di[r] >= i && |typ'| == |typ|
    requires forall x :: 0 <= x < |typ| ==> typ'[x] == (typ[x] || (x == r && src))
    requires blkidx' == blkidx + if !typ[r] && src then 1 else 0
    ensures Housed(typ', blkidx', di, i)
  {
    assert Typed(typ') == if src then Typed(typ) + {r} else Typed(typ);
  }

  lemma HousedSwap(typ: seq<bool>, blkidx: nat, pm: Perms, i: nat, a: nat, b: nat)
    requires Housed(typ, blkidx, pm.di, i) && Inverse(pm.d, pm.di) && i <= a < |pm.d| && i <= b < |pm.d|
    ensures Housed(typ, blkidx, pm.SwapRows(a, b).di, i)
  {
    SwapPositions(pm, a, b);
  }

  /** The rows at positions from lo on. */
  ghost function Seats(d: seq<nat>, lo: nat): (s: set<nat>)
    requires lo <= |d|
    ensures forall k :: lo <= k < |d| ==> d[k] in s
    ensures |s| <= |d| - lo
    decreases |d| - lo
  {
    if lo == |d| then {} else Seats(d, lo + 1) + {d[lo]}
  }

  /** If a packed row at such a position is left, the byte rows are fewer than the positions. */
  lemma HousedRoom(typ: seq<bool>, blkidx: nat, pm: Perms, i: nat, t: nat)
    requires Housed(typ, blkidx, pm.di, i) && Inverse(pm.d, pm.di) && t < |typ| && !typ[t] && pm.di[t] >= i
    ensures blkidx < |pm.d| - i
  {
    var all, seats := Typed(typ) + {t}, Seats(pm.d, i);
    forall r | r in all ensures r in seats {
      assert pm.d[pm.di[r]] == r;
    }
    assert seats == all + (seats - all);
  }

  // ---------- the elimination loops ----------

  /** nzrow is the first position from `row` on with a nonzero entry, beta, in that column, or lim. */
  ghost predicate FirstNonzero(m: Mat, pm: Perms, row: nat, lim: nat, nzrow: nat, beta: Octet) {
    && Fits(m, pm) && row <= nzrow <= lim <= |pm.d| && row < |pm.c|
    && (forall k :: row <= k < nzrow ==> At(m, pm, k, row) == 0)
    && (nzrow < lim ==> beta != 0 && beta == At(m, pm, nzrow, row))
  }

  method FindPivot(u: WrkMat, s: Schedule, row: nat, lim: nat, ghost full: Mat, ghost f1: seq<Op>, ghost lo: nat,
                   ghost hi: nat)
    returns (nzrow: nat, beta: Octet)
    requires u.Valid() && s.Distinct(u.rows, s.i + u.cols) && u.rows == |full| && row < s.i + u.cols
    requires SolveState(full, f1, s.ops, u.View(), s.Pm(), s.i, row, lim, lo, hi)
    ensures SolveState(full, f1, s.ops, u.View(), s.Pm(), s.i, row, lim, lo, hi)
    ensures FirstNonzero(Run(full, s.ops, s.c.Length), s.Pm(), row, lim, nzrow, beta)
    ensures nzrow < lim && beta > 1 ==> nzrow < s.d.Length && s.d[nzrow] < u.typ.Length && u.typ[s.d[nzrow]]
  {
    hide Run, SolveState, Linked, FirstNonzero, Inverse, WrkMat.Valid, WrkMat.Get, WrkMat.View, Packed, SameTop,
      TopIdentity, LowTargets, Additions;
    ghost var pm := s.Pm();
    StateDefined(full, f1, s.ops, u.View(), pm, s.i, row, lim, lo, hi);
    ghost var m, v := Run(full, s.ops, s.c.Length), u.View();
    StateFacts(full, f1, s.ops, v, pm, s.i, row, lim, lo, hi);
    PivotColumn(m, v, pm, s.i, row, lim);
    NonzeroStart(m, pm, row, lim);
    var col := row - s.i;
    nzrow, beta := row, 0;
    while nzrow < lim
      invariant row <= nzrow <= lim && FirstNonzero(m, pm, row, nzrow, nzrow, 0)
    {
      beta := u.At(s.d[nzrow], col);
      NonzeroStep(m, pm, row, lim, nzrow, beta);
      if beta != 0 {
        TypedBound(u, s.d[nzrow]);
        return;
      }
      nzrow := nzrow + 1;
    }
    NonzeroNone(m, pm, row, lim, beta);
  }

  lemma TypedBound(u: WrkMat, r: nat)
    requires u.Valid() && r < u.rows
    ensures r < u.typ.Length
  {}

  lemma StateDefined(full: Mat, f1: seq<Op>, ops: seq<Op>, v: Mat, pm: Perms, i: nat,
                     row: nat, lim: nat, lo: nat, hi: nat)
    requires SolveState(full, f1, ops, v, pm, i, row, lim, lo, hi)
    ensures IsMat(full, |full|, |pm.c|) && ValidOps(ops, |full|)
  {}

  lemma NonzeroStart(m: Mat, pm: Perms, row: nat, lim: nat)
    requires Fits(m, pm) && row <= lim <= |pm.d| && row < |pm.c|
    ensures FirstNonzero(m, pm, row, row, row, 0)
  {}

  lemma NonzeroNone(m: Mat, pm: Perms, row: nat, lim: nat, beta: Octet)
    requires FirstNonzero(m, pm, row, lim, lim, 0)
    ensures FirstNonzero(m, pm, row, lim, lim, beta)
  {}

  lemma NonzeroStep(m: Mat, pm: Perms, row: nat, lim: nat, k: nat, beta: Octet)
    requires FirstNonzero(m, pm, row, k, k, 0)
    requires k < lim <= |pm.d| && beta == At(m, pm, k, row)
    ensures beta != 0 ==> FirstNonzero(m, pm, row, lim, k, beta)
    ensures beta == 0 ==> FirstNonzero(m, pm, row, k + 1, k + 1, 0)
  {}

  lemma PivotColumn(m: Mat, v: Mat, pm: Perms, i: nat, row: nat, lim: nat)
    requires Fits(m, pm) && i <= row < |pm.c| && lim <= |pm.d| == |v|
    requires forall k :: 0 <= k < lim ==> |v[pm.d[k]]| == |pm.c| - i
    requires forall k, j :: 0 <= k < lim && i <= j < |pm.c| ==> v[pm.d[k]][j - i] == At(m, pm, k, j)
    ensures forall k :: 0 <= k < lim ==> pm.d[k] < |v| && v[pm.d[k]][row - i] == At(m, pm, k, row)
  {}

  /** Clears one row below the pivot.  False is the working matrix's abort. */
  method EliminateRow(u: WrkMat, s: Schedule, row: nat, lim: nat, del: nat, ghost full: Mat, ghost f1: seq<Op>,
                      ghost lo: nat, ghost hi: nat) returns (ok: bool)
    requires Apart(u, s) && u.Valid() && s.Distinct(u.rows, s.i + u.cols) && u.rows == |full|
    requires PivotState(full, f1, s.ops, u.View(), s.Pm(), s.i, row, lim, lo, hi, del) && del < lim
    modifies u.bits, u.gf256, u.rowmap, u.typ, u`blkidx, s`ops
    ensures Recorded(old(s.ops), s.ops, s.di[..], s.i)
    ensures !ok ==> exists r, q :: 0 <= r < u.rows && 0 <= q < u.rows && !old(u.typ[r]) && old(u.typ[q])
    ensures !ok ==> u.blkidx == u.gf256.Length0
    ensures ok && old(Housed(u.typ[..], u.blkidx, s.di[..], s.i)) ==> Housed(u.typ[..], u.blkidx, s.di[..], s.i)
    ensures !ok && old(Housed(u.typ[..], u.blkidx, s.di[..], s.i)) ==> u.gf256.Length0 < u.rows - s.i
    ensures ok ==> u.Valid() && s.Pm() == old(s.Pm())
    ensures ok ==> PivotState(full, f1, s.ops, u.View(), s.Pm(), s.i, row, lim, lo, hi, del + 1)
    ensures ok && (forall r :: 0 <= r < u.rows ==> !old(u.typ[r])) ==> forall r :: 0 <= r < u.rows ==> !u.typ[r]
  {
    hide Run, SolveState, Linked, Pivoted, PivotState, Inverse, ApplyOp, IsMat, At, Housed;
    ghost var pm, ops, v := s.Pm(), s.ops, u.View();
    RecordedNothing(ops, pm.di, s.i);
    ghost var typ, blkidx := u.typ[..], u.blkidx;
    PivotPlace(full, f1, ops, v, pm, s.i, row, lim, lo, hi, del);
    StateDefined(full, f1, ops, v, pm, s.i, row, lim, lo, hi);
    StateFacts(full, f1, ops, v, pm, s.i, row, lim, lo, hi);
    var beta := u.At(s.d[del], row - s.i);
    if beta == 0 {
      StateSkip(full, f1, ops, v, pm, s.i, row, lim, lo, hi, del);
      return true;
    }
    ok := RowAdd(u, s, s.d[del], s.d[row], beta, full, lo, hi);
    if Housed(typ, blkidx, pm.di, s.i) {
      if ok {
        HousedAdd(typ, u.typ[..], blkidx, u.blkidx, pm.di, s.i, s.d[del], typ[s.d[row]]);
      } else {
        HousedRoom(typ, blkidx, pm, s.i, s.d[del]);
      }
    }
    if ok {
      StateAdd(full, f1, ops, v, u.View(), pm, s.i, row, lim, lo, hi, del, beta);
    }
  }

  lemma PivotPlace(full: Mat, f1: seq<Op>, ops: seq<Op>, v: Mat, pm: Perms, i: nat,
                   row: nat, lim: nat, lo: nat, hi: nat, del: nat)
    requires PivotState(full, f1, ops, v, pm, i, row, lim, lo, hi, del) && del < lim
    ensures i <= row < del < |pm.d| && row < |pm.c| && pm.d[del] != pm.d[row]
    ensures pm.d[del] < |full| && pm.d[row] < |full| && pm.Valid(|pm.d|, |pm.c|) && pm.di[pm.d[del]] == del
    ensures pm.di[pm.d[row]] == row
    ensures SolveState(full, f1, ops, v, pm, i, row, lim, lo, hi)
    ensures !(lo <= pm.d[del] < hi) && !(lo <= pm.d[row] < hi)
  {
    hide Run, Linked, SameTop, TopIdentity, LowTargets, Additions;
    assert pm.di[pm.d[del]] == del && pm.di[pm.d[row]] == row;
  }

  lemma StateSkip(full: Mat, f1: seq<Op>, ops: seq<Op>, v: Mat, pm: Perms, i: nat,
                  row: nat, lim: nat, lo: nat, hi: nat, del: nat)
    requires PivotState(full, f1, ops, v, pm, i, row, lim, lo, hi, del) && del < lim
    requires |Run(full, ops, |pm.c|)| == |pm.d| && At(Run(full, ops, |pm.c|), pm, del, row) == 0
    ensures PivotState(full, f1, ops, v, pm, i, row, lim, lo, hi, del + 1)
  {
    hide Run, SolveState;
  }

  lemma StateDone(full: Mat, f1: seq<Op>, ops: seq<Op>, v: Mat, pm: Perms, i: nat,
                  row: nat, lim: nat, lo: nat, hi: nat)
    requires PivotState(full, f1, ops, v, pm, i, row, lim, lo, hi, lim)
    ensures SolveState(full, f1, ops, v, pm, i, row + 1, lim, lo, hi)
  {
    PivotDone(Run(full, ops, |pm.c|), pm, i, row, lim);
    hide Run, Solving, Linked, SameTop, TopIdentity, LowTargets, Additions, Spared;
  }

  /** Clears the pivot's column in every row below it. */
  method EliminateColumn(u: WrkMat, s: Schedule, row: nat, lim: nat, ghost full: Mat, ghost f1: seq<Op>,
                         ghost lo: nat, ghost hi: nat) returns (ok: bool)
    requires Apart(u, s) && u.Valid() && s.Distinct(u.rows, s.i + u.cols) && u.rows == |full| && row < lim
    requires PivotState(full, f1, s.ops, u.View(), s.Pm(), s.i, row, lim, lo, hi, row + 1)
    modifies u.bits, u.gf256, u.rowmap, u.typ, u`blkidx, s`ops
    ensures Recorded(old(s.ops), s.ops, s.di[..], s.i)
    ensures (forall r :: 0 <= r < u.rows ==> !old(u.typ[r])) ==> ok
    ensures !ok ==> u.blkidx == u.gf256.Length0
    ensures ok && old(Housed(u.typ[..], u.blkidx, s.di[..], s.i)) ==> Housed(u.typ[..], u.blkidx, s.di[..], s.i)
    ensures !ok && old(Housed(u.typ[..], u.blkidx, s.di[..], s.i)) ==> u.gf256.Length0 < u.rows - s.i
    ensures ok ==> u.Valid() && s.Pm() == old(s.Pm())
    ensures ok ==> SolveState(full, f1, s.ops, u.View(), s.Pm(), s.i, row + 1, lim, lo, hi)
    ensures ok && (forall r :: 0 <= r < u.rows ==> !old(u.typ[r])) ==> forall r :: 0 <= r < u.rows ==> !u.typ[r]
  {
    hide PivotState, SolveState, Housed, Recorded;
    RecordedNothing(s.ops, s.di[..], s.i);
    ghost var pm, packed := s.Pm(), forall r :: 0 <= r < u.rows ==> !u.typ[r];
    for del := row + 1 to lim
      invariant u.Valid() && s.Pm() == pm && u.gf256 == old(u.gf256)
      invariant packed ==> forall r :: 0 <= r < u.rows ==> !u.typ[r]
      invariant old(Housed(u.typ[..], u.blkidx, s.di[..], s.i)) ==> Housed(u.typ[..], u.blkidx, s.di[..], s.i)
      invariant Recorded(old(s.ops), s.ops, s.di[..], s.i)
      invariant PivotState(full, f1, s.ops, u.View(), pm, s.i, row, lim, lo, hi, del)
    {
      ghost var ops := s.ops;
      ok := EliminateRow(u, s, row, lim, del, full, f1, lo, hi);
      RecordedMore(old(s.ops), ops, s.ops, s.di[..], s.i);
      if !ok {
        return;
      }
    }
    StateDone(full, f1, s.ops, u.View(), pm, s.i, row, lim, lo, hi);
    ok := true;
  }

  /** No row from position `row` on has an entry in that column: the system is short of rank there. */
  ghost predicate Stuck(m: Mat, pm: Perms, row: nat, lim: nat) {
    exists beta :: FirstNonzero(m, pm, row, lim, lim, beta)
  }

  /** With the pivot exchanged into place, its entry is one or can be scaled to one. */
  lemma PivotInPlace(full: Mat, f1: seq<Op>, ops: seq<Op>, v: Mat, pm: Perms, i: nat,
                     row: nat, lim: nat, lo: nat, hi: nat, p: nat, beta: Octet)
    requires SolveState(full, f1, ops, v, pm, i, row, lim, lo, hi)
    requires IsMat(full, |full|, |pm.c|) && ValidOps(ops, |full|)
    requires FirstNonzero(Run(full, ops, |pm.c|), pm, row, lim, p, beta) && p < lim
    ensures SolveState(full, f1, ops, v, pm.SwapRows(row, p), i, row, lim, lo, hi)
    ensures pm.Valid(|pm.d|, |pm.c|) && pm.SwapRows(row, p).d[row] == pm.d[p]
    ensures Fits(Run(full, ops, |pm.c|), pm.SwapRows(row, p))
    ensures At(Run(full, ops, |pm.c|), pm.SwapRows(row, p), row, row) == beta
    ensures beta == 1 ==> PivotState(full, f1, ops, v, pm.SwapRows(row, p), i, row, lim, lo, hi, row + 1)
  {
    hide Run, Linked, SameTop, TopIdentity, LowTargets, Additions, Spared;
    SwapState(full, f1, ops, v, pm, i, row, lim, lo, hi, p);
  }

  /** Brings the pivot to position `row`. */
  method TakePivot(u: WrkMat, s: Schedule, row: nat, lim: nat, p: nat, ghost beta: Octet, ghost full: Mat,
                   ghost f1: seq<Op>, ghost lo: nat, ghost hi: nat)
    requires Apart(u, s) && u.Valid() && s.Distinct(u.rows, s.i + u.cols) && u.rows == |full|
    requires SolveState(full, f1, s.ops, u.View(), s.Pm(), s.i, row, lim, lo, hi) && p < lim
    requires IsMat(full, |full|, s.c.Length) && ValidOps(s.ops, |full|)
    requires FirstNonzero(Run(full, s.ops, s.c.Length), s.Pm(), row, lim, p, beta)
    modifies s.d, s.di
    ensures u.Valid() && u.View() == old(u.View())
    ensures s.Pm() == old(s.Pm().SwapRows(row, p))
  {
    hide Run, SolveState, Linked, FirstNonzero, At, Inverse, PivotState, WrkMat.Valid, WrkMat.View, IsMat;
    PivotBounds(full, f1, s.ops, u.View(), s.Pm(), s.i, row, lim, lo, hi, p, beta);
    if row != p {
      s.SwapRows(row, p);
    } else {
      SwapSelf(s.Pm(), row);
    }
  }

  lemma PivotBounds(full: Mat, f1: seq<Op>, ops: seq<Op>, v: Mat, pm: Perms, i: nat,
                    row: nat, lim: nat, lo: nat, hi: nat, p: nat, beta: Octet)
    requires SolveState(full, f1, ops, v, pm, i, row, lim, lo, hi)
    requires IsMat(full, |full|, |pm.c|) && ValidOps(ops, |full|)
    requires FirstNonzero(Run(full, ops, |pm.c|), pm, row, lim, p, beta)
    ensures pm.Valid(|pm.d|, |pm.c|) && row <= p <= lim <= |pm.d| && row < |pm.c| && |full| == |pm.d|
    ensures p < lim ==> beta != 0
  {
    hide Run, Linked, SameTop, TopIdentity, LowTargets, Additions;
  }

  /**
   precode_matrix_solve_gf2: elimination over GF(2) on the sparse rows.  Returns the position
   reached: the number of columns, or that of the first column for which no row is left.
   */
  method SolveGF2(u: WrkMat, s: Schedule, lim: nat, ghost full: Mat, ghost f1: seq<Op>, ghost lo: nat, ghost hi: nat)
    returns (row: nat)
    requires Apart(u, s) && u.Valid() && s.Distinct(u.rows, s.i + u.cols) && u.rows == |full|
    requires forall r :: 0 <= r < u.rows ==> !u.typ[r]
    requires SolveState(full, f1, s.ops, u.View(), s.Pm(), s.i, s.i, lim, lo, hi) && s.c.Length <= lim
    modifies u.bits, u.gf256, u.rowmap, u.typ, u`blkidx, s`ops, s.d, s.di
    ensures u.Valid() && forall r :: 0 <= r < u.rows ==> !u.typ[r]
    ensures row <= s.c.Length && s.c[..] == old(s.c[..]) && s.ci[..] == old(s.ci[..])
    ensures SolveState(full, f1, s.ops, u.View(), s.Pm(), s.i, row, lim, lo, hi)
    ensures OtherRowsKept(old(s.Pm()), s.Pm(), s.i, lim)
    ensures Recorded(old(s.ops), s.ops, s.di[..], s.i)
    ensures row < s.c.Length ==> IsMat(full, |full|, s.c.Length) && ValidOps(s.ops, |full|)
    ensures row < s.c.Length ==> Stuck(Run(full, s.ops, s.c.Length), s.Pm(), row, lim)
  {
    hide Run, SolveState, Linked, FirstNonzero, At, Inverse, PivotState, WrkMat.View, IsMat, Stuck, OtherRowsKept,
      Recorded;
    StateStart(full, f1, s.ops, u.View(), s.Pm(), s.i, s.i, lim, lo, hi);
    RecordedNothing(s.ops, s.di[..], s.i);
    ghost var pm0 := s.Pm();
    row := s.i;
    while row < s.c.Length
      invariant u.Valid() && forall r :: 0 <= r < u.rows ==> !u.typ[r]
      invariant s.i <= row <= s.c.Length && s.c[..] == pm0.c && s.ci[..] == pm0.ci
      invariant SolveState(full, f1, s.ops, u.View(), s.Pm(), s.i, row, lim, lo, hi)
      invariant OtherRowsKept(pm0, s.Pm(), s.i, lim) && Recorded(old(s.ops), s.ops, s.di[..], s.i)
    {
      StateDefined(full, f1, s.ops, u.View(), s.Pm(), s.i, row, lim, lo, hi);
      var nzrow, beta := FindPivot(u, s, row, lim, full, f1, lo, hi);
      if nzrow == lim {
        IsStuck(Run(full, s.ops, s.c.Length), s.Pm(), row, lim, beta);
        return;
      }
      PivotBounds(full, f1, s.ops, u.View(), s.Pm(), s.i, row, lim, lo, hi, nzrow, beta);
      PivotInPlace(full, f1, s.ops, u.View(), s.Pm(), s.i, row, lim, lo, hi, nzrow, beta);
      KeptSwap(pm0, s.Pm(), s.i, lim, row, nzrow);
      RecordedSwap(old(s.ops), s.ops, s.Pm(), s.i, row, nzrow);
      TakePivot(u, s, row, lim, nzrow, beta, full, f1, lo, hi);
      ghost var ops := s.ops;
      var _ := EliminateColumn(u, s, row, lim, full, f1, lo, hi);
      RecordedMore(old(s.ops), ops, s.ops, s.di[..], s.i);
      row := row + 1;
    }
  }

  /** Rows at positions before i and from lim on keep their positions. */
  ghost predicate OtherRowsKept(pm: Perms, pm': Perms, i: nat, lim: nat) {
    && |pm.d| == |pm'.d| && pm.c == pm'.c
    && forall k :: 0 <= k < |pm.d| && (k < i || lim <= k) ==> pm'.d[k] == pm.d[k]
  }

  lemma KeptSwap(pm0: Perms, pm: Perms, i: nat, lim: nat, a: nat, b: nat)
    requires OtherRowsKept(pm0, pm, i, lim) && i <= a < lim <= |pm.d| && i <= b < lim && Inverse(pm.d, pm.di)
    ensures OtherRowsKept(pm0, pm.SwapRows(a, b), i, lim)
  {}

  /** Scales the pivot row so that its pivot becomes one. */
  method ScalePivot(u: WrkMat, s: Schedule, row: nat, lim: nat, beta: Octet, ghost full: Mat, ghost f1: seq<Op>,
                    ghost lo: nat, ghost hi: nat)
    requires Apart(u, s) && u.Valid() && s.Distinct(u.rows, s.i + u.cols) && u.rows == |full|
    requires SolveState(full, f1, s.ops, u.View(), s.Pm(), s.i, row, lim, lo, hi)
    requires IsMat(full, |full|, s.c.Length) && ValidOps(s.ops, |full|) && beta > 1
    requires FirstNonzero(Run(full, s.ops, s.c.Length), s.Pm(), row, lim, row, beta) && row < lim
    requires s.d[row] < u.typ.Length && u.typ[s.d[row]]
    modifies u.gf256, s`ops
    ensures u.Valid() && s.Pm() == old(s.Pm()) && Recorded(old(s.ops), s.ops, s.di[..], s.i)
    ensures PivotState(full, f1, s.ops, u.View(), s.Pm(), s.i, row, lim, lo, hi, row + 1)
  {
    hide Run, SolveState, Linked, FirstNonzero, At, Inverse, PivotState, WrkMat.View, IsMat, Pivoted, ApplyOp;
    ghost var pm, ops, v := s.Pm(), s.ops, u.View();
    PivotBounds(full, f1, ops, v, pm, s.i, row, lim, lo, hi, row, beta);
    StateScale(full, f1, ops, v, pm, s.i, row, lim, lo, hi, beta);
    u.Scal(s.d[row], Inv(beta));
    s.Push(s.d[row], Inv(beta), 0);
  }

  lemma StateScale(full: Mat, f1: seq<Op>, ops: seq<Op>, v: Mat, pm: Perms, i: nat,
                   row: nat, lim: nat, lo: nat, hi: nat, beta: Octet)
    requires SolveState(full, f1, ops, v, pm, i, row, lim, lo, hi) && row < lim && beta > 1
    requires IsMat(full, |full|, |pm.c|) && ValidOps(ops, |full|)
    requires FirstNonzero(Run(full, ops, |pm.c|), pm, row, lim, row, beta)
    ensures pm.Valid(|pm.d|, |pm.c|) && row < |pm.d| == |full| == |v| && row < |pm.c| && Inv(beta) >= 2
    ensures PivotState(full, f1, ops + [Op(pm.d[row], Inv(beta), 0)], ApplyOp(v, Op(pm.d[row], Inv(beta), 0)),
                       pm, i, row, lim, lo, hi, row + 1)
  {
    var m, op := Run(full, ops, |pm.c|), Op(pm.d[row], Inv(beta), 0);
    hide Run, SolveState, Linked, Solving, Pivoted, ApplyOp, Inv;
    StateFacts(full, f1, ops, v, pm, i, row, lim, lo, hi);
    StateSolving(full, f1, ops, v, pm, i, row, lim, lo, hi);
    PivotScale(m, pm, i, row, lim, beta);
    LinkedStep(full, ops, v, pm.c, i, lo, hi, op);
    PivotIsSolving(ApplyOp(m, op), pm, i, row, lim, row + 1);
    assert pm.di[op.i] == row;
    PushLow(full, f1, ops, v, ApplyOp(v, op), pm, i, row, lim, lo, hi, op);
  }

  lemma StateSolving(full: Mat, f1: seq<Op>, ops: seq<Op>, v: Mat, pm: Perms, i: nat,
                     row: nat, lim: nat, lo: nat, hi: nat)
    requires SolveState(full, f1, ops, v, pm, i, row, lim, lo, hi)
    requires IsMat(full, |full|, |pm.c|) && ValidOps(ops, |full|)
    ensures Solving(Run(full, ops, |pm.c|), pm, i, row, lim)
  {
    hide Run, Linked, Solving, SameTop, TopIdentity, LowTargets, Additions, Spared;
  }

  /** One pivot over GF(256): exchange, scale, clear.  False is the working matrix's abort. */
  method PivotGF256(u: WrkMat, s: Schedule, row: nat, lim: nat, p: nat, beta: Octet, ghost full: Mat, ghost f1: seq<Op>,
                    ghost lo: nat, ghost hi: nat) returns (ok: bool)
    requires Apart(u, s) && u.Valid() && s.Distinct(u.rows, s.i + u.cols) && u.rows == |full|
    requires SolveState(full, f1, s.ops, u.View(), s.Pm(), s.i, row, lim, lo, hi) && p < lim
    requires IsMat(full, |full|, s.c.Length) && ValidOps(s.ops, |full|)
    requires FirstNonzero(Run(full, s.ops, s.c.Length), s.Pm(), row, lim, p, beta)
    requires beta > 1 ==> p < s.d.Length && s.d[p] < u.typ.Length && u.typ[s.d[p]]
    modifies u.bits, u.gf256, u.rowmap, u.typ, u`blkidx, s`ops, s.d, s.di
    ensures s.c[..] == old(s.c[..]) && s.ci[..] == old(s.ci[..])
    ensures OtherRowsKept(old(s.Pm()), s.Pm(), s.i, lim) && Inverse(s.d[..], s.di[..])
    ensures Recorded(old(s.ops), s.ops, s.di[..], s.i)
    ensures !ok ==> u.blkidx == u.gf256.Length0
    ensures ok && old(Housed(u.typ[..], u.blkidx, s.di[..], s.i)) ==> Housed(u.typ[..], u.blkidx, s.di[..], s.i)
    ensures !ok && old(Housed(u.typ[..], u.blkidx, s.di[..], s.i)) ==> u.gf256.Length0 < u.rows - s.i
    ensures ok ==> u.Valid() && SolveState(full, f1, s.ops, u.View(), s.Pm(), s.i, row + 1, lim, lo, hi)
  {
    hide Run, SolveState, Linked, FirstNonzero, At, Inverse, PivotState, WrkMat.View, IsMat, Housed, Recorded;
    PivotBounds(full, f1, s.ops, u.View(), s.Pm(), s.i, row, lim, lo, hi, p, beta);
    PivotInPlace(full, f1, s.ops, u.View(), s.Pm(), s.i, row, lim, lo, hi, p, beta);
    StateStart(full, f1, s.ops, u.View(), s.Pm(), s.i, row, lim, lo, hi);
    KeptSwap(s.Pm(), s.Pm(), s.i, lim, row, p);
    if Housed(u.typ[..], u.blkidx, s.di[..], s.i) {
      HousedSwap(u.typ[..], u.blkidx, s.Pm(), s.i, row, p);
    }
    TakePivot(u, s, row, lim, p, beta, full, f1, lo, hi);
    RecordedNothing(s.ops, s.di[..], s.i);
    if beta > 1 {
      FirstIsPivot(Run(full, s.ops, s.c.Length), s.Pm(), row, lim, beta);
      ScalePivot(u, s, row, lim, beta, full, f1, lo, hi);
    }
    ghost var ops := s.ops;
    ok := EliminateColumn(u, s, row, lim, full, f1, lo, hi);
    RecordedMore(old(s.ops), ops, s.ops, s.di[..], s.i);
  }

  lemma StateStart(full: Mat, f1: seq<Op>, ops: seq<Op>, v: Mat, pm: Perms, i: nat,
                   row: nat, lim: nat, lo: nat, hi: nat)
    requires SolveState(full, f1, ops, v, pm, i, row, lim, lo, hi)
    ensures i <= row <= lim <= |pm.d| && Inverse(pm.d, pm.di) && OtherRowsKept(pm, pm, i, lim)
  {
    hide Run, Linked, SameTop, TopIdentity, LowTargets, Additions, Spared;
  }

  /** Rows at positions from i on stay there when the rows before them do. */
  lemma RecordedKept(ops0: seq<Op>, ops: seq<Op>, pm: Perms, pm': Perms, i: nat, lim: nat)
    requires Recorded(ops0, ops, pm.di, i) && OtherRowsKept(pm, pm', i, lim) && i <= |pm.d|
    requires Inverse(pm.d, pm.di) && Inverse(pm'.d, pm'.di)
    ensures Recorded(ops0, ops, pm'.di, i)
  {
    forall k | |ops0| <= k < |ops| && ops[k].beta != 0 ensures pm'.di[ops[k].j] >= i {
      assert pm.d[pm.di[ops[k].j]] == ops[k].j && pm'.d[pm'.di[ops[k].j]] == ops[k].j;
    }
  }

  lemma KeptTrans(pm0: Perms, pm1: Perms, pm2: Perms, i: nat, lim: nat)
    requires OtherRowsKept(pm0, pm1, i, lim) && OtherRowsKept(pm1, pm2, i, lim)
    ensures OtherRowsKept(pm0, pm2, i, lim)
  {}

  lemma FirstIsPivot(m: Mat, pm: Perms, row: nat, lim: nat, beta: Octet)
    requires Fits(m, pm) && row < lim <= |pm.d| && row < |pm.c| && At(m, pm, row, row) == beta && beta != 0
    ensures FirstNonzero(m, pm, row, lim, row, beta)
  {}

  /**
   precode_matrix_solve_gf256: elimination over GF(256) on all rows.  Not ok is the working
   matrix's abort, which takes more rows outside the triangular block than there are byte rows; a position
   short of the number of columns means no row had a pivot there.
   */
  method SolveGF256(u: WrkMat, s: Schedule, lim: nat, ghost full: Mat, ghost f1: seq<Op>, ghost lo: nat, ghost hi: nat)
    returns (ok: bool, row: nat)
    requires Apart(u, s) && u.Valid() && s.Distinct(u.rows, s.i + u.cols) && u.rows == |full|
    requires SolveState(full, f1, s.ops, u.View(), s.Pm(), s.i, s.i, lim, lo, hi) && s.c.Length <= lim
    modifies u.bits, u.gf256, u.rowmap, u.typ, u`blkidx, s`ops, s.d, s.di
    ensures s.c[..] == old(s.c[..]) && s.ci[..] == old(s.ci[..])
    ensures OtherRowsKept(old(s.Pm()), s.Pm(), s.i, lim)
    ensures Recorded(old(s.ops), s.ops, s.di[..], s.i)
    ensures !ok ==> u.blkidx == u.gf256.Length0
    ensures !ok && old(Housed(u.typ[..], u.blkidx, s.di[..], s.i)) ==> u.gf256.Length0 < u.rows - s.i
    ensures ok ==> u.Valid() && row <= s.c.Length
    ensures ok ==> SolveState(full, f1, s.ops, u.View(), s.Pm(), s.i, row, lim, lo, hi)
    ensures ok && row < s.c.Length ==> IsMat(full, |full|, s.c.Length) && ValidOps(s.ops, |full|)
    ensures ok && row < s.c.Length ==> Stuck(Run(full, s.ops, s.c.Length), s.Pm(), row, lim)
  {
    hide Run, SolveState, Linked, FirstNonzero, At, Inverse, PivotState, WrkMat.View, IsMat, Stuck, OtherRowsKept,
      Housed, Recorded;
    ghost var pm0 := s.Pm();
    StateStart(full, f1, s.ops, u.View(), s.Pm(), s.i, s.i, lim, lo, hi);
    RecordedNothing(s.ops, s.di[..], s.i);
    ok, row := true, s.i;
    while row < s.c.Length
      invariant ok && u.Valid() && u.gf256 == old(u.gf256)
      invariant old(Housed(u.typ[..], u.blkidx, s.di[..], s.i)) ==> Housed(u.typ[..], u.blkidx, s.di[..], s.i)
      invariant OtherRowsKept(pm0, s.Pm(), s.i, lim) && Recorded(old(s.ops), s.ops, s.di[..], s.i)
      invariant s.i <= row <= s.c.Length && s.c[..] == pm0.c && s.ci[..] == pm0.ci
      invariant SolveState(full, f1, s.ops, u.View(), s.Pm(), s.i, row, lim, lo, hi)
    {
      StateDefined(full, f1, s.ops, u.View(), s.Pm(), s.i, row, lim, lo, hi);
      var nzrow, beta := FindPivot(u, s, row, lim, full, f1, lo, hi);
      PivotBounds(full, f1, s.ops, u.View(), s.Pm(), s.i, row, lim, lo, hi, nzrow, beta);
      if nzrow == lim {
        IsStuck(Run(full, s.ops, s.c.Length), s.Pm(), row, lim, beta);
        return;
      }
      ghost var pm1, ops := s.Pm(), s.ops;
      StateStart(full, f1, s.ops, u.View(), s.Pm(), s.i, row, lim, lo, hi);
      ok := PivotGF256(u, s, row, lim, nzrow, beta, full, f1, lo, hi);
      RecordedKept(old(s.ops), ops, pm1, s.Pm(), s.i, lim);
      RecordedMore(old(s.ops), ops, s.ops, s.di[..], s.i);
      KeptTrans(pm0, pm1, s.Pm(), s.i, lim);
      if !ok {
        return;
      }
      row := row + 1;
    }
  }

  lemma IsStuck(m: Mat, pm: Perms, row: nat, lim: nat, beta: Octet)
    requires FirstNonzero(m, pm, row, lim, lim, beta)
    ensures Stuck(m, pm, row, lim)
  {}
}
