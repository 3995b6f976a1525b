/**
 Adding the dense rows to the working matrix: they are laid over their packed rows as bytes and
 their entries in the columns of the triangular block are cleared
 (precode_matrix_fill_HDPC, raptorq/precode.c, lines 232-252).
 */
module DenseRows {
  import opened GF256
  import opened Tables
  import opened Linear
  import opened SpMat
  import opened Oblas
  import opened Permutation
  import opened Scheduling
  import opened Preconditioning
  import opened WorkMatrix
  import opened Elimination
  import opened Gauss
  import opened Hdpc

  /** Columns at positions before L - P are among the first L - P columns. */
  lemma FrontColumns(pr: Params, pm: Perms, j: nat)
    requires Frozen(pr, pm) && Inverse(pm.c, pm.ci) && j < pr.l - pr.p
    ensures pm.c[j] < pr.l - pr.p
  {
    var v := pm.c[j];
    assert pm.ci[v] == j && pm.ci[pm.c[v]] == v;
  }

  /** Entry (x, y) of the byte block: dense row x at position i + y, then the identity. */
  ghost function BlockEntry(hd: Mat, pr: Params, c: seq<nat>, i: nat, x: nat, y: nat): Octet
    requires pr.h <= pr.l == |c| && IsMat(hd, pr.h, pr.l - pr.h) && x < pr.h && i + y < pr.l
  {
    if i + y < pr.l - pr.h then (if c[i + y] < pr.l - pr.h then hd[x][c[i + y]] else 0)
    else if i + y == pr.l - pr.h + x then 1 else 0
  }

  /** What the byte block of the dense rows holds, from position i on. */
  ghost predicate BlockFilled(block: Mat, hd: Mat, pr: Params, c: seq<nat>, i: nat) {
    && |c| == pr.l && i <= pr.l - pr.h && pr.h <= pr.l
    && IsMat(block, 2 * pr.h, pr.l - i) && IsMat(hd, pr.h, pr.l - pr.h)
    && (forall x, y :: 0 <= x < pr.h && 0 <= y < pr.l - i ==> block[x][y] == BlockEntry(hd, pr, c, i, x, y))
    && (forall x, y :: pr.h <= x < 2 * pr.h && 0 <= y < pr.l - i ==> block[x][y] == 0)
  }

  /** The working matrix with the block laid over it agrees with the full matrix everywhere. */
  lemma OverlayAgrees(full: Mat, ops: seq<Op>, v: Mat, v': Mat, a: Lists, pr: Params, hd: Mat, block: Mat, pm: Perms,
                      i: nat)
    requires Sized(pr, |a|) && Frozen(pr, pm) && pm.Valid(|a|, pr.l) && i <= pr.l - pr.p
    requires IsMat(hd, pr.h, pr.l - pr.h) && full == Full(a, pr, hd)
    requires Linked(full, ops, v, pm.c, i, pr.s, pr.s + pr.h)
    requires BlockFilled(block, hd, pr, pm.c, i) && |v'| == |v|
    requires forall r :: 0 <= r < |v| ==> v'[r] == if pr.s <= r < pr.s + pr.h then block[r - pr.s] else v[r]
    ensures Linked(full, ops, v', pm.c, i, 0, 0)
  {
    hide Run, Full, BlockFilled, Frozen, DenseRow, BlockEntry, Inverse;
    LinkedValid(full, ops, v, pm.c, i, pr.s, pr.s + pr.h);
    var m := Run(full, ops, pr.l);
    assert forall x :: i <= x < |pm.c| ==> pm.c[x] < |pm.c|;
    BlockSizes(block, hd, pr, pm.c, i);
    forall r, x | 0 <= r < |m| && i <= x < pr.l ensures v'[r][x - i] == m[r][pm.c[x]] {
      if pr.s <= r < pr.s + pr.h {
        OverlaidEntry(full, ops, a, pr, hd, block, pm, i, r, x);
      } else {
        assert v[r][x - i] == m[r][pm.c[x]];
      }
    }
  }

  lemma BlockSizes(block: Mat, hd: Mat, pr: Params, c: seq<nat>, i: nat)
    requires BlockFilled(block, hd, pr, c, i)
    ensures pr.h <= |block| && i <= |c| && forall r :: 0 <= r < pr.h ==> |block[r]| == |c| - i
  {}

  lemma OverlaidEntry(full: Mat, ops: seq<Op>, a: Lists, pr: Params, hd: Mat, block: Mat, pm: Perms, i: nat, r: nat,
                      x: nat)
    requires Sized(pr, |a|) && Frozen(pr, pm) && pm.Valid(|a|, pr.l) && i <= pr.l - pr.p
    requires IsMat(hd, pr.h, pr.l - pr.h) && full == Full(a, pr, hd) && ValidOps(ops, |full|)
    requires forall k :: 0 <= k < |ops| ==> !(pr.s <= ops[k].i < pr.s + pr.h)
    requires BlockFilled(block, hd, pr, pm.c, i) && pr.s <= r < pr.s + pr.h && i <= x < pr.l
    ensures r < |full| && r - pr.s < |block| && x - i < |block[r - pr.s]| && pm.c[x] < pr.l
    ensures block[r - pr.s][x - i] == Run(full, ops, pr.l)[r][pm.c[x]]
  {
    hide Run, BlockEntry, DenseRow, Frozen, Inverse, Full, BlockFilled, ValidOp, ApplyOp;
    RunKeepsRow(full, ops, pr.l, r);
    DenseRowOf(full, a, pr, hd, r);
    BlockAt(block, hd, pr, pm.c, i, r - pr.s, x - i);
    EntryMatches(hd, pr, pm, i, r - pr.s, x);
  }

  lemma DenseRowOf(full: Mat, a: Lists, pr: Params, hd: Mat, r: nat)
    requires pr.h <= pr.l && IsMat(hd, pr.h, pr.l - pr.h) && full == Full(a, pr, hd) && pr.s <= r < pr.s + pr.h <= |a|
    ensures r < |full| && full[r] == DenseRow(hd[r - pr.s], pr, r - pr.s)
  {}

  lemma BlockAt(block: Mat, hd: Mat, pr: Params, c: seq<nat>, i: nat, x: nat, y: nat)
    requires BlockFilled(block, hd, pr, c, i) && x < pr.h && y < pr.l - i
    ensures x < |block| && y < |block[x]| && block[x][y] == BlockEntry(hd, pr, c, i, x, y)
  {}

  lemma EntryMatches(hd: Mat, pr: Params, pm: Perms, i: nat, h: nat, x: nat)
    requires pr.h <= pr.p <= pr.l && Frozen(pr, pm) && |pm.c| == pr.l && Inverse(pm.c, pm.ci) && i <= pr.l - pr.p
    requires IsMat(hd, pr.h, pr.l - pr.h) && h < pr.h && i <= x < pr.l
    ensures pm.c[x] < pr.l && BlockEntry(hd, pr, pm.c, i, h, x - i) == DenseRow(hd[h], pr, h)[pm.c[x]]
  {
    if x < pr.l - pr.p {
      FrontColumns(pr, pm, x);
    }
  }

  /** Fills one row of the byte block, following the column order. */
  method FillBlockRow(pr: Params, hdpc: array2<Octet>, s: Schedule, ul: array2<Octet>, row: nat)
    requires hdpc != ul && hdpc.Length0 == pr.h && hdpc.Length1 == pr.l - pr.h && pr.h <= pr.l == s.c.Length
    requires s.i <= pr.l - pr.p && pr.h <= pr.p <= pr.l && Frozen(pr, s.Pm()) && Inverse(s.c[..], s.ci[..])
    requires ul.Length0 == 2 * pr.h && ul.Length1 == pr.l - s.i && row < pr.h
    requires forall y :: 0 <= y < pr.l - s.i ==> ul[row, y] == 0
    modifies ul
    ensures forall x, y :: 0 <= x < 2 * pr.h && x != row && 0 <= y < pr.l - s.i ==> ul[x, y] == old(ul[x, y])
    ensures forall y :: 0 <= y < pr.l - s.i ==> ul[row, y] == BlockEntry(RowsOf(hdpc), pr, s.c[..], s.i, row, y)
  {
    var u := pr.l - s.i;
    ghost var hd, c, pm := RowsOf(hdpc), s.c[..], s.Pm();
    for col := 0 to u - pr.h
      invariant forall x, y :: 0 <= x < 2 * pr.h && x != row && 0 <= y < u ==> ul[x, y] == old(ul[x, y])
      invariant forall y :: 0 <= y < u ==> ul[row, y] == if y < col then BlockEntry(hd, pr, c, s.i, row, y) else 0
    {
      BlockColumn(pr, pm, s.i + col);
      ul[row, col] := hdpc[row, s.c[pr.l - pr.h - (u - pr.h) + col]];
    }
    ul[row, row + (u - pr.h)] := 1;
  }

  /** Fills the byte block of twice H rows; the second half stays zero as spare space. */
  method FillBlock(pr: Params, hdpc: array2<Octet>, s: Schedule) returns (ul: array2<Octet>)
    requires hdpc.Length0 == pr.h && hdpc.Length1 == pr.l - pr.h && pr.h <= pr.l == s.c.Length
    requires s.i <= pr.l - pr.p && pr.h <= pr.p <= pr.l && Frozen(pr, s.Pm()) && Inverse(s.c[..], s.ci[..])
    ensures fresh(ul) && ul.Length0 == 2 * pr.h && ul.Length1 == pr.l - s.i
    ensures BlockFilled(RowsOf(ul), RowsOf(hdpc), pr, s.c[..], s.i)
  {
    hide Frozen, Inverse, BlockEntry;
    var u := pr.l - s.i;
    ghost var hd, c := RowsOf(hdpc), s.c[..];
    ul := new Octet[2 * pr.h, u]((i, j) => 0);
    for row := 0 to pr.h
      invariant forall x, y :: 0 <= x < row && 0 <= y < u ==> ul[x, y] == BlockEntry(hd, pr, c, s.i, x, y)
      invariant forall x, y :: row <= x < 2 * pr.h && 0 <= y < u ==> ul[x, y] == 0
    {
      FillBlockRow(pr, hdpc, s, ul, row);
    }
  }

  lemma BlockColumn(pr: Params, pm: Perms, j: nat)
    requires Frozen(pr, pm) && Inverse(pm.c, pm.ci) && pr.h <= pr.p && j < pr.l - pr.h
    ensures pm.c[j] < pr.l - pr.h
  {
    if j < pr.l - pr.p {
      FrontColumns(pr, pm, j);
    }
  }

  // ---------- clearing the block columns of the dense rows ----------

  /** Entries of the dense rows in the block columns: cleared up to column `row` and row x in it. */
  ghost predicate DenseCleared(m: Mat, pm: Perms, i: nat, hd: Mat, row: nat, x: nat) {
    && Fits(m, pm) && i <= |pm.c| && |hd| <= |pm.d| && i <= |pm.d| - |hd|
    && (forall y, j :: 0 <= y < |hd| && 0 <= j < i ==> pm.c[j] < |hd[y]|)
    && (forall k, j :: |pm.d| - |hd| <= k < |pm.d| && 0 <= j < i ==>
        At(m, pm, k, j)
          == if j < row || (j == row && k - (|pm.d| - |hd|) < x) then 0 else hd[k - (|pm.d| - |hd|)][pm.c[j]])
  }

  ghost predicate DenseState(full: Mat, f1: seq<Op>, ops: seq<Op>, v: Mat, pm: Perms, i: nat, hd: Mat, row: nat,
                             x: nat) {
    && |hd| <= |pm.d| && SolveState(full, f1, ops, v, pm, i, i, |pm.d| - |hd|, 0, 0)
    && DenseCleared(Run(full, ops, |pm.c|), pm, i, hd, row, x)
  }

  lemma DenseAdd(m: Mat, m1: Mat, pm: Perms, i: nat, hd: Mat, row: nat, x: nat)
    requires DenseCleared(m, pm, i, hd, row, x) && row < i && x < |hd| && hd[x][pm.c[row]] != 0
    requires TopIdentity(m1, pm, i) && SameTop(m1, m, pm, i)
    requires Solving(m, pm, i, i, |pm.d| - |hd|)
    ensures ValidOp(Op(pm.d[|pm.d| - |hd| + x], pm.d[row], hd[x][pm.c[row]]), |m|)
    ensures DenseCleared(ApplyOp(m, Op(pm.d[|pm.d| - |hd| + x], pm.d[row], hd[x][pm.c[row]])), pm, i, hd, row, x + 1)
    ensures Solving(ApplyOp(m, Op(pm.d[|pm.d| - |hd| + x], pm.d[row], hd[x][pm.c[row]])), pm, i, i, |pm.d| - |hd|)
  {
    var p, beta := |pm.d| - |hd| + x, hd[x][pm.c[row]];
    var op := Op(pm.d[p], pm.d[row], beta);
    assert pm.di[pm.d[p]] == p && pm.di[pm.d[row]] == row;
    OpAtPosition(m, pm, op, p);
    hide Add, Mul;
    var m' := ApplyOp(m, op);
    forall k, j | |pm.d| - |hd| <= k < |pm.d| && 0 <= j < i
      ensures At(m', pm, k, j)
           == if j < row || (j == row && k - (|pm.d| - |hd|) < x + 1) then 0 else hd[k - (|pm.d| - |hd|)][pm.c[j]]
    {
      if k == p {
        assert At(m', pm, p, j) == Add(At(m, pm, p, j), Mul(beta, At(m, pm, row, j)));
        assert At(m, pm, row, j) == At(m1, pm, row, j);
        MulZero(beta);
        MulOneRight(beta);
        AddZero(At(m, pm, p, j));
        AddSelf(beta);
      } else {
        assert At(m', pm, k, j) == At(m, pm, k, j);
      }
    }
    forall k, j | i <= k < |pm.d| - |hd| && 0 <= j < k && j < i ensures At(m', pm, k, j) == 0 {
      assert At(m', pm, k, j) == At(m, pm, k, j);
    }
  }

  lemma DenseStateAdd(full: Mat, f1: seq<Op>, ops: seq<Op>, v: Mat, v': Mat, pm: Perms, i: nat, hd: Mat, row: nat,
                      x: nat, beta: Octet)
    requires DenseState(full, f1, ops, v, pm, i, hd, row, x) && row < i && x < |hd| && i <= |pm.c|
    requires pm.c[row] < |hd[x]| && beta == hd[x][pm.c[row]] && beta != 0
    requires Linked(full, ops + [Op(pm.d[|pm.d| - |hd| + x], pm.d[row], beta)], v', pm.c, i, 0, 0)
    requires ValidOp(Op(pm.d[|pm.d| - |hd| + x], pm.d[row], beta), |full|)
    requires Run(full, ops + [Op(pm.d[|pm.d| - |hd| + x], pm.d[row], beta)], |pm.c|)
          == ApplyOp(Run(full, ops, |pm.c|), Op(pm.d[|pm.d| - |hd| + x], pm.d[row], beta))
    ensures DenseState(full, f1, ops + [Op(pm.d[|pm.d| - |hd| + x], pm.d[row], beta)], v', pm, i, hd, row, x + 1)
  {
    hide Run, Linked, Solving, ApplyOp, SameTop, TopIdentity, LowTargets, Additions, Spared;
    var p := |pm.d| - |hd| + x;
    StateDefined(full, f1, ops, v, pm, i, i, |pm.d| - |hd|, 0, 0);
    DenseAdd(Run(full, ops, |pm.c|), Run(full, f1, |pm.c|), pm, i, hd, row, x);
    assert pm.di[pm.d[p]] == p;
    PushLow(full, f1, ops, v, v', pm, i, i, |pm.d| - |hd|, 0, 0, Op(pm.d[p], pm.d[row], beta));
  }

  lemma DenseStateSkip(full: Mat, f1: seq<Op>, ops: seq<Op>, v: Mat, pm: Perms, i: nat, hd: Mat, row: nat, x: nat)
    requires DenseState(full, f1, ops, v, pm, i, hd, row, x) && row < i && x < |hd|
    requires row < |pm.c| && pm.c[row] < |hd[x]| && hd[x][pm.c[row]] == 0
    ensures DenseState(full, f1, ops, v, pm, i, hd, row, x + 1)
  {
    hide Run, SolveState;
    StateDefined(full, f1, ops, v, pm, i, i, |pm.d| - |hd|, 0, 0);
    DenseSkip(Run(full, ops, |pm.c|), pm, i, hd, row, x);
  }

  lemma DenseSkip(m: Mat, pm: Perms, i: nat, hd: Mat, row: nat, x: nat)
    requires DenseCleared(m, pm, i, hd, row, x)
    ensures row < i && x < |hd| && hd[x][pm.c[row]] == 0 ==> DenseCleared(m, pm, i, hd, row, x + 1)
    ensures x == |hd| ==> DenseCleared(m, pm, i, hd, row + 1, 0)
  {}

  lemma DenseStateNext(full: Mat, f1: seq<Op>, ops: seq<Op>, v: Mat, pm: Perms, i: nat, hd: Mat, row: nat)
    requires DenseState(full, f1, ops, v, pm, i, hd, row, |hd|)
    ensures DenseState(full, f1, ops, v, pm, i, hd, row + 1, 0)
  {
    hide Run, SolveState;
    StateDefined(full, f1, ops, v, pm, i, i, |pm.d| - |hd|, 0, 0);
    DenseSkip(Run(full, ops, |pm.c|), pm, i, hd, row, |hd|);
  }

  lemma DenseStateDone(full: Mat, f1: seq<Op>, ops: seq<Op>, v: Mat, pm: Perms, i: nat, hd: Mat)
    requires DenseState(full, f1, ops, v, pm, i, hd, i, 0)
    ensures SolveState(full, f1, ops, v, pm, i, i, |pm.d|, 0, 0)
  {
    hide Run, Linked, SameTop, TopIdentity, LowTargets, Additions;
    StateDefined(full, f1, ops, v, pm, i, i, |pm.d| - |hd|, 0, 0);
    var m := Run(full, ops, |pm.c|);
    assert forall k, j :: i <= k < |pm.d| && 0 <= j < k && j < i ==> At(m, pm, k, j) == 0;
  }

  lemma DenseStateStart(full: Mat, f1: seq<Op>, ops: seq<Op>, v: Mat, v': Mat, pm: Perms, i: nat, a: Lists, pr: Params,
                        hd: Mat, row: nat)
    requires Sized(pr, |a|) && Frozen(pr, pm) && pm.Valid(|a|, pr.l) && i <= pr.l - pr.p && i <= |a| - pr.h
    requires IsMat(hd, pr.h, pr.l - pr.h) && full == Full(a, pr, hd)
    requires SolveState(full, f1, ops, v, pm, i, row, |pm.d| - pr.h, pr.s, pr.s + pr.h)
    requires Linked(full, ops, v', pm.c, i, 0, 0)
    ensures DenseState(full, f1, ops, v', pm, i, hd, 0, 0)
  {
    hide Run, Linked, SameTop, TopIdentity, LowTargets, Additions, Full;
    StateDefined(full, f1, ops, v, pm, i, row, |pm.d| - pr.h, pr.s, pr.s + pr.h);
    var m := Run(full, ops, |pm.c|);
    DenseUntouched(full, ops, v, pm, i, pr, a, hd);
    forall j | 0 <= j < i ensures pm.c[j] < pr.l - pr.h {
      FrontColumns(pr, pm, j);
    }
    forall k, j | |pm.d| - |hd| <= k < |pm.d| && 0 <= j < i
      ensures At(m, pm, k, j) == hd[k - (|pm.d| - |hd|)][pm.c[j]]
    {
      var y := k - (|pm.d| - |hd|);
      assert m[pr.s + y] == DenseRow(hd[y], pr, y);
    }
  }

  lemma DenseUntouched(full: Mat, ops: seq<Op>, v: Mat, pm: Perms, i: nat, pr: Params, a: Lists, hd: Mat)
    requires Linked(full, ops, v, pm.c, i, pr.s, pr.s + pr.h) && |pm.c| == pr.l
    requires Sized(pr, |a|) && IsMat(hd, pr.h, pr.l - pr.h) && full == Full(a, pr, hd)
    ensures forall y :: 0 <= y < pr.h ==> Run(full, ops, |pm.c|)[pr.s + y] == DenseRow(hd[y], pr, y)
  {
    forall y | 0 <= y < pr.h ensures Run(full, ops, |pm.c|)[pr.s + y] == DenseRow(hd[y], pr, y) {
      RunKeepsRow(full, ops, |pm.c|, pr.s + y);
      assert full[pr.s + y] == DenseRow(hd[y], pr, y);
    }
  }

  /** The byte rows of the working matrix are exactly the dense rows. */
  ghost predicate DenseTyped(u: WrkMat, pr: Params)
    reads u, u.typ
  {
    u.typ.Length == u.rows && forall r :: 0 <= r < u.rows ==> u.typ[r] == (pr.s <= r < pr.s + pr.h)
  }

  /** Clears column `row` of the block in the dense rows. */
  method ClearDenseColumn(pr: Params, hdpc: array2<Octet>, u: WrkMat, s: Schedule, row: nat,
                          ghost full: Mat, ghost f1: seq<Op>)
    requires Apart(u, s) && u.Valid() && DenseTyped(u, pr) && u.rows == |full| && s.Distinct(u.rows, pr.l)
    requires (hdpc as object) != (u.bits as object) && hdpc != u.gf256
    requires hdpc.Length0 == pr.h <= pr.l && hdpc.Length1 == pr.l - pr.h && row < s.i <= pr.l - pr.p
    requires pr.h <= pr.p <= pr.l
    requires Sized(pr, u.rows) && Frozen(pr, s.Pm()) && s.i <= u.rows - pr.h
    requires DenseState(full, f1, s.ops, u.View(), s.Pm(), s.i, RowsOf(hdpc), row, 0)
    modifies u.bits, u.gf256, u.rowmap, u.typ, u`blkidx, s`ops
    ensures u.Valid() && DenseTyped(u, pr) && s.Pm() == old(s.Pm()) && RowsOf(hdpc) == old(RowsOf(hdpc))
    ensures u.blkidx == old(u.blkidx) && Cleaned(old(s.ops), s.ops, s.di[..], s.i)
    ensures DenseState(full, f1, s.ops, u.View(), s.Pm(), s.i, RowsOf(hdpc), row + 1, 0)
  {
    hide Run, DenseState, Linked, ApplyOp, Solving, SolveState, IsMat, WrkMat.View;
    ghost var pm, hd := s.Pm(), RowsOf(hdpc);
    DenseFacts(full, f1, s.ops, u.View(), pm, s.i, hd, row, 0);
    SparsePositions(pr, pm, u.rows);
    FrontColumns(pr, pm, row);
    assert pm.di[pm.d[row]] == row;
    hide Frozen, Inverse;
    for h := 0 to pr.h
      invariant u.Valid() && DenseTyped(u, pr) && s.Pm() == pm && RowsOf(hdpc) == hd && u.blkidx == old(u.blkidx)
      invariant Cleaned(old(s.ops), s.ops, pm.di, s.i)
      invariant DenseState(full, f1, s.ops, u.View(), pm, s.i, hd, row, h)
    {
      DenseFacts(full, f1, s.ops, u.View(), pm, s.i, hd, row, h);
      var beta := hdpc[h, s.c[row]];
      if beta != 0 {
        ghost var ops, v := s.ops, u.View();
        var _ := RowAdd(u, s, s.d[u.rows - pr.h + h], s.d[row], beta, full, 0, 0);
        DenseStateAdd(full, f1, ops, v, u.View(), pm, s.i, hd, row, h, beta);
      } else {
        DenseStateSkip(full, f1, s.ops, u.View(), pm, s.i, hd, row, h);
      }
    }
    DenseStateNext(full, f1, s.ops, u.View(), pm, s.i, hd, row);
  }

  lemma DenseFacts(full: Mat, f1: seq<Op>, ops: seq<Op>, v: Mat, pm: Perms, i: nat, hd: Mat, row: nat, x: nat)
    requires DenseState(full, f1, ops, v, pm, i, hd, row, x)
    ensures Linked(full, ops, v, pm.c, i, 0, 0) && pm.Valid(|pm.d|, |pm.c|)
    ensures |full| == |pm.d| && |hd| <= |pm.d| && i <= |pm.d| - |hd|
    ensures IsMat(full, |full|, |pm.c|) && ValidOps(ops, |full|)
    ensures forall k :: 0 <= k < |pm.d| ==> pm.d[k] < |full|
    ensures forall k, j :: 0 <= k < |pm.d| && 0 <= j < |pm.d| && k != j ==> pm.d[k] != pm.d[j]
  {
    hide Run, Linked, SameTop, TopIdentity, LowTargets, Additions, Solving, Spared;
    assert forall k :: 0 <= k < |pm.d| ==> pm.di[pm.d[k]] == k;
    LinkedValid(full, ops, v, pm.c, i, 0, 0);
  }

  /** Lays the dense rows over the working matrix as bytes. */
  method OverlayHDPC(pr: Params, hdpc: array2<Octet>, u: WrkMat, s: Schedule,
                     ghost full: Mat, ghost f1: seq<Op>, ghost row0: nat, ghost a: Lists)
    requires u.Valid() && u.rows == |full| == |a| && s.Distinct(u.rows, pr.l) && s.i + u.cols == pr.l
    requires hdpc.Length0 == pr.h <= pr.l && hdpc.Length1 == pr.l - pr.h && full == Full(a, pr, RowsOf(hdpc))
    requires forall r :: 0 <= r < u.rows ==> !u.typ[r]
    requires Sized(pr, u.rows) && Frozen(pr, s.Pm()) && s.i <= pr.l - pr.p && s.i <= u.rows - pr.h
    requires SolveState(full, f1, s.ops, u.View(), s.Pm(), s.i, row0, u.rows - pr.h, pr.s, pr.s + pr.h)
    modifies u`gf256, u`blkidx, u.rowmap, u.typ
    ensures Apart(u, s) ==> s.Pm() == old(s.Pm())
    ensures u.Valid() && fresh(u.gf256) && u.gf256.Length0 == 2 * pr.h && u.blkidx == pr.h && DenseTyped(u, pr)
    ensures DenseState(full, f1, s.ops, u.View(), old(s.Pm()), s.i, RowsOf(hdpc), 0, 0)
  {
    hide Run, DenseState, Linked, ApplyOp, Solving, SolveState, WrkMat.View, Frozen, Full, BlockFilled, Inverse, RowsOf;
    ghost var pm, v, hd := s.Pm(), u.View(), RowsOf(hdpc);
    StateValid(full, f1, s.ops, v, pm, s.i, row0, u.rows - pr.h, pr.s, pr.s + pr.h);
    var ul := FillBlock(pr, hdpc, s);
    BlockSpare(RowsOf(ul), hd, pr, s.c[..], s.i);
    u.AssignBlock(ul, pr.s, pr.h);
    OverlayAgrees(full, s.ops, v, u.View(), a, pr, hd, RowsOf(ul), pm, s.i);
    DenseStateStart(full, f1, s.ops, v, u.View(), pm, s.i, a, pr, hd, row0);
  }

  /** precode_matrix_fill_HDPC: after it, every row takes part in the elimination. */
  method FillHDPC(pr: Params, rnd: Rnd, u: WrkMat, s: Schedule, ghost full: Mat, ghost f1: seq<Op>, ghost row0: nat,
                  ghost a: Lists)
    requires Apart(u, s) && u.Valid() && u.rows == |full| == |a| && s.Distinct(u.rows, pr.l) && s.i + u.cols == pr.l
    requires forall r :: 0 <= r < u.rows ==> !u.typ[r]
    requires Sized(pr, u.rows) && pr.h >= 2 && pr.kprime + pr.s + pr.h == pr.l && pr.kprime + pr.s >= 1
    requires Frozen(pr, s.Pm()) && s.i <= pr.l - pr.p && s.i <= u.rows - pr.h
    requires full == Full(a, pr, HdpcMatrix(rnd, pr.h, pr.l - pr.h))
    requires SolveState(full, f1, s.ops, u.View(), s.Pm(), s.i, row0, u.rows - pr.h, pr.s, pr.s + pr.h)
    modifies u, u.bits, u.gf256, u.rowmap, u.typ, s`ops
    ensures u.Valid() && s.Pm() == old(s.Pm()) && fresh(u.gf256) && u.gf256.Length0 == 2 * pr.h && DenseTyped(u, pr)
    ensures Housed(u.typ[..], u.blkidx, s.di[..], s.i) && Cleaned(old(s.ops), s.ops, s.di[..], s.i)
    ensures SolveState(full, f1, s.ops, u.View(), s.Pm(), s.i, s.i, u.rows, 0, 0)
  {
    hide Run, DenseState, Linked, ApplyOp, Solving, SolveState, IsMat, WrkMat.View, Frozen, Full, HdpcMatrix, Inverse,
      Housed;
    ghost var pm := s.Pm();
    StateValid(full, f1, s.ops, u.View(), pm, s.i, row0, u.rows - pr.h, pr.s, pr.s + pr.h);
    var hdpc := MakeHDPC(pr, rnd);
    ghost var hd := RowsOf(hdpc);
    OverlayHDPC(pr, hdpc, u, s, full, f1, row0, a);
    for row := 0 to s.i
      invariant u.Valid() && DenseTyped(u, pr) && s.Pm() == pm && RowsOf(hdpc) == hd
      invariant fresh(u.gf256) && hdpc != u.gf256 && u.gf256.Length0 == 2 * pr.h && u.blkidx == pr.h
      invariant Cleaned(old(s.ops), s.ops, s.di[..], s.i)
      invariant DenseState(full, f1, s.ops, u.View(), pm, s.i, hd, row, 0)
    {
      ClearDenseColumn(pr, hdpc, u, s, row, full, f1);
    }
    DenseStateDone(full, f1, s.ops, u.View(), pm, s.i, hd);
    DenseHoused(u.typ[..], pr, pm, s.i);
  }

  /** To begin with, the byte rows are the dense rows, which are at the last positions. */
  lemma DenseHoused(typ: seq<bool>, pr: Params, pm: Perms, i: nat)
    requires |typ| == |pm.d| && pr.s + pr.h <= |typ|
    requires forall r :: 0 <= r < |typ| ==> typ[r] == (pr.s <= r < pr.s + pr.h)
    requires Frozen(pr, pm) && Inverse(pm.d, pm.di) && i <= |pm.d| - pr.h
    ensures Housed(typ, pr.h, pm.di, i)
  {
    IntervalSize(pr.s, pr.h);
    assert Typed(typ) == Interval(pr.s, pr.h);
    forall r | pr.s <= r < pr.s + pr.h ensures pm.di[r] >= i {
      assert pm.d[|pm.d| - pr.h + (r - pr.s)] == r;
    }
  }

  ghost function Interval(lo: nat, n: nat): (s: set<nat>)
    ensures forall r: nat :: r in s <==> lo <= r < lo + n
  {
    if n == 0 then {} else Interval(lo, n - 1) + {lo + n - 1}
  }

  lemma {:induction false} IntervalSize(lo: nat, n: nat)
    ensures |Interval(lo, n)| == n
  {
    if n > 0 {
      IntervalSize(lo, n - 1);
    }
  }

  lemma StateValid(full: Mat, f1: seq<Op>, ops: seq<Op>, v: Mat, pm: Perms, i: nat,
                   row: nat, lim: nat, lo: nat, hi: nat)
    requires SolveState(full, f1, ops, v, pm, i, row, lim, lo, hi)
    ensures pm.Valid(|pm.d|, |pm.c|) && Inverse(pm.c, pm.ci) && |pm.d| == |full|
    ensures Linked(full, ops, v, pm.c, i, lo, hi)
  {
    hide Run, Linked, SameTop, TopIdentity, LowTargets, Additions, Spared;
    LinkedValid(full, ops, v, pm.c, i, lo, hi);
  }

  lemma BlockSpare(block: Mat, hd: Mat, pr: Params, c: seq<nat>, i: nat)
    requires BlockFilled(block, hd, pr, c, i)
    ensures IsMat(block, 2 * pr.h, pr.l - i) && IsMat(hd, pr.h, pr.l - pr.h)
    ensures forall x, y :: pr.h <= x < 2 * pr.h && 0 <= y < pr.l - i ==> block[x][y] == 0
  {}
}
