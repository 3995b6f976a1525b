/**
 The solver's working matrix: rows start bit-packed over GF(2) and are promoted in place to byte
 rows over GF(256) when a byte row is added to them (raptorq/wrkmat.c, oblas/gf2.c).
 */
module WorkMatrix {
  import opened Bits
  import opened GF256
  import opened Tables
  import opened Linear
  import opened Oblas

  /** Words of a packed row and their bits. */
  const WORD: nat := 32

  /** Bit j of packed row r. */
  ghost predicate BitAt(bits: array2<nat>, r: nat, j: nat)
    requires r < bits.Length0 && j < WORD * bits.Length1
    reads bits
  {
    Bit(bits[r, j / 32], j % 32)
  }

  /** Words fit 32 bits and no bit at or beyond cols is set. */
  ghost predicate Packed(bits: array2<nat>, cols: nat)
    reads bits
  {
    && cols <= WORD * bits.Length1
    && (forall r, w :: 0 <= r < bits.Length0 && 0 <= w < bits.Length1 ==> bits[r, w] < Pow2(32))
    && (forall r, w, k: nat ::
        0 <= r < bits.Length0 && 0 <= w < bits.Length1 && Bit(bits[r, w], k) ==> 32 * w + k < cols)
  }

  function Value(b: bool): Octet { if b then 1 else 0 }

  /** m with another entry in row i, column j. */
  function WithEntry(m: Mat, i: nat, j: nat, b: Octet): (r: Mat)
    requires i < |m| && j < |m[i]|
    ensures |r| == |m| && |r[i]| == |m[i]| && r[i][j] == b
  {
    var row: Vec := m[i];
    m[i := row[j := b]]
  }

  /** A word with bit k set or cleared by a mask. */
  function WordWith(word: nat, k: nat, b: bool): nat
    requires k < 32
  {
    Pow2Strict(k);
    if b then Or(word, Pow2(k)) else And(word, Not(Pow2(k), 32))
  }

  lemma WordBit(word: nat, k: nat, b: bool)
    requires word < Pow2(32) && k < 32
    ensures WordWith(word, k, b) < Pow2(32)
    ensures forall x: nat :: Bit(WordWith(word, k, b), x) <==> if x == k then b else Bit(word, x)
  {
    hide Bit, Or, And, Pow2, Not;
    Pow2Strict(k);
    var r := WordWith(word, k, b);
    OrBound(word, Pow2(k), 32);
    AndBound(word, Not(Pow2(k), 32), 32);
    forall x: nat ensures Bit(r, x) <==> if x == k then b else Bit(word, x) {
      BitPow2(k, x);
      if b {
        BitOr(word, Pow2(k), x);
      } else {
        BitAnd(word, Not(Pow2(k), 32), x);
        if x < 32 {
          BitNot(Pow2(k), 32, x);
        } else {
          BitBound(word, 32, x);
        }
      }
    }
  }

  /** gf2mat_xor: row i ^= row j, word by word. */
  method XorWords(bits: array2<nat>, i: nat, j: nat, ghost cols: nat)
    requires i < bits.Length0 && j < bits.Length0 && i != j && Packed(bits, cols)
    modifies bits
    ensures Packed(bits, cols)
    ensures forall r, w :: 0 <= r < bits.Length0 && r != i && 0 <= w < bits.Length1 ==> bits[r, w] == old(bits[r, w])
    ensures forall w :: 0 <= w < bits.Length1 ==> bits[i, w] == Xor(old(bits[i, w]), old(bits[j, w]))
  {
    hide Xor, Pow2, Bit;
    for p := 0 to bits.Length1
      invariant forall r, w ::
        0 <= r < bits.Length0 && r != i && 0 <= w < bits.Length1 ==> bits[r, w] == old(bits[r, w])
      invariant forall w :: 0 <= w < p ==> bits[i, w] == Xor(old(bits[i, w]), old(bits[j, w]))
      invariant forall w :: p <= w < bits.Length1 ==> bits[i, w] == old(bits[i, w])
    {
      bits[i, p] := Xor(bits[i, p], bits[j, p]);
    }
    forall w | 0 <= w < bits.Length1
      ensures bits[i, w] < Pow2(32) && forall k: nat :: Bit(bits[i, w], k) ==> 32 * w + k < cols
    {
      XorBound(old(bits[i, w]), old(bits[j, w]), 32);
      forall k: nat | Bit(bits[i, w], k) ensures 32 * w + k < cols {
        BitXor(old(bits[i, w]), old(bits[j, w]), k);
      }
    }
  }

  /** Adds u to the byte of every set bit of one word; the inner loop of oaxpy_b32. */
  method AddWord(g: array2<Octet>, x: nat, base: nat, word: nat, u: Octet)
    requires x < g.Length0 && forall k: nat :: Bit(word, k) ==> base + k < g.Length1
    modifies g
    ensures forall r, c :: 0 <= r < g.Length0 && r != x && 0 <= c < g.Length1 ==> g[r, c] == old(g[r, c])
    ensures forall c :: 0 <= c < base && c < g.Length1 ==> g[x, c] == old(g[x, c])
    ensures forall c :: base <= c < g.Length1 ==>
      g[x, c] == if Bit(word, c - base) then Add(old(g[x, c]), u) else old(g[x, c])
  {
    hide And, Bit, Add;
    var tmp := word;
    while tmp > 0
      invariant forall k: nat :: Bit(tmp, k) ==> Bit(word, k)
      invariant forall r, c :: 0 <= r < g.Length0 && r != x && 0 <= c < g.Length1 ==> g[r, c] == old(g[r, c])
      invariant forall c :: 0 <= c < base && c < g.Length1 ==> g[x, c] == old(g[x, c])
      invariant forall c :: base <= c < g.Length1 ==>
        g[x, c] == if Bit(word, c - base) && !Bit(tmp, c - base) then Add(old(g[x, c]), u) else old(g[x, c])
    {
      var tz := Ctz(tmp);
      forall k: nat ensures Bit(And(tmp, tmp - 1), k) <==> Bit(tmp, k) && k != tz {
        ClearLowest(tmp, k);
      }
      ClearLowest(tmp, 0);
      tmp := And(tmp, tmp - 1);
      g[x, tz + base] := Add(g[x, tz + base], u);
    }
    forall k: nat ensures !Bit(0, k) {
      BitZero(k);
    }
  }

  lemma WordIndex(c: nat, p: nat)
    requires 32 * p <= c < 32 * p + 32
    ensures c / 32 == p && c % 32 == c - 32 * p
  {}

  /** oaxpy_b32: adds u to byte row x of g wherever packed row i has a bit. */
  method AxpyPacked(g: array2<Octet>, bits: array2<nat>, x: nat, i: nat, cols: nat, u: Octet)
    requires (g as object) != (bits as object)
    requires x < g.Length0 && g.Length1 == cols && i < bits.Length0 && Packed(bits, cols)
    modifies g
    ensures forall r, c :: 0 <= r < g.Length0 && r != x && 0 <= c < cols ==> g[r, c] == old(g[r, c])
    ensures forall c :: 0 <= c < cols ==> g[x, c] == if BitAt(bits, i, c) then Add(old(g[x, c]), u) else old(g[x, c])
  {
    hide Bit, Add;
    var idx, p := 0, 0;
    while idx < cols
      invariant idx == 32 * p
      invariant forall r, c :: 0 <= r < g.Length0 && r != x && 0 <= c < cols ==> g[r, c] == old(g[r, c])
      invariant forall c :: 0 <= c < cols ==>
        g[x, c] == if c < idx && BitAt(bits, i, c) then Add(old(g[x, c]), u) else old(g[x, c])
    {
      var word := bits[i, p];
      ghost var before := RowsOf(g)[x];
      AddWord(g, x, idx, word, u);
      forall c | idx <= c < cols
        ensures g[x, c] == if c < idx + 32 && BitAt(bits, i, c) then Add(before[c], u) else before[c]
      {
        if c < idx + 32 {
          WordIndex(c, p);
        } else {
          BitBound(word, 32, c - idx);
        }
      }
      idx, p := idx + 32, p + 1;
    }
  }

  /** The inner loop of gf2mat_fill: a one in every byte whose bit is set. */
  method FillWord(g: array2<Octet>, x: nat, base: nat, word: nat)
    requires x < g.Length0 && forall k: nat :: Bit(word, k) ==> base + k < g.Length1
    modifies g
    ensures forall r, c :: 0 <= r < g.Length0 && r != x && 0 <= c < g.Length1 ==> g[r, c] == old(g[r, c])
    ensures forall c :: 0 <= c < base && c < g.Length1 ==> g[x, c] == old(g[x, c])
    ensures forall c :: base <= c < g.Length1 ==> g[x, c] == if Bit(word, c - base) then 1 else old(g[x, c])
  {
    hide And, Bit;
    var tmp := word;
    while tmp > 0
      invariant forall k: nat :: Bit(tmp, k) ==> Bit(word, k)
      invariant forall r, c :: 0 <= r < g.Length0 && r != x && 0 <= c < g.Length1 ==> g[r, c] == old(g[r, c])
      invariant forall c :: 0 <= c < base && c < g.Length1 ==> g[x, c] == old(g[x, c])
      invariant forall c :: base <= c < g.Length1 ==>
        g[x, c] == if Bit(word, c - base) && !Bit(tmp, c - base) then 1 else old(g[x, c])
    {
      var tz := Ctz(tmp);
      forall k: nat ensures Bit(And(tmp, tmp - 1), k) <==> Bit(tmp, k) && k != tz {
        ClearLowest(tmp, k);
      }
      ClearLowest(tmp, 0);
      tmp := And(tmp, tmp - 1);
      g[x, tz + base] := 1;
    }
    forall k: nat ensures !Bit(0, k) {
      BitZero(k);
    }
  }

  /** gf2mat_fill: unpacks packed row i into the zero byte row x of g. */
  method Fill(g: array2<Octet>, bits: array2<nat>, x: nat, i: nat, cols: nat)
    requires (g as object) != (bits as object)
    requires x < g.Length0 && g.Length1 == cols && i < bits.Length0 && Packed(bits, cols)
    requires forall c :: 0 <= c < cols ==> g[x, c] == 0
    modifies g
    ensures forall r, c :: 0 <= r < g.Length0 && r != x && 0 <= c < cols ==> g[r, c] == old(g[r, c])
    ensures forall c :: 0 <= c < cols ==> g[x, c] == Value(BitAt(bits, i, c))
  {
    hide Bit;
    for p := 0 to bits.Length1
      invariant forall r, c :: 0 <= r < g.Length0 && r != x && 0 <= c < cols ==> g[r, c] == old(g[r, c])
      invariant forall c :: 0 <= c < cols ==> g[x, c] == Value(c < 32 * p && BitAt(bits, i, c))
    {
      var word := bits[i, p];
      FillWord(g, x, 32 * p, word);
      forall c | 32 * p <= c < cols
        ensures g[x, c] == Value(c < 32 * p + 32 && BitAt(bits, i, c))
      {
        if c < 32 * p + 32 {
          WordIndex(c, p);
        } else {
          BitBound(word, 32, c - 32 * p);
        }
      }
    }
  }

  class WrkMat {
    const rows: nat
    const cols: nat
    const bits: array2<nat>
    var gf256: array2<Octet>
    var blkidx: nat
    const rowmap: array<nat>
    const typ: array<bool>

    /** Byte rows have distinct places below blkidx; places from blkidx on are spare and zero. */
    ghost predicate Valid()
      reads this, bits, gf256, rowmap, typ
    {
      && bits.Length0 == rows && Packed(bits, cols)
      && rowmap.Length == rows && typ.Length == rows
      && (gf256 as object) != (bits as object)
      && gf256.Length1 == cols && blkidx <= gf256.Length0
      && (forall r :: 0 <= r < rows && typ[r] ==> rowmap[r] < blkidx)
      && (forall r, q :: 0 <= r < rows && 0 <= q < rows && r != q && typ[r] && typ[q] ==> rowmap[r] != rowmap[q])
      && (forall x, c :: blkidx <= x < gf256.Length0 && 0 <= c < cols ==> gf256[x, c] == 0)
    }

    /** wrkmat_get. */
    ghost function Get(r: nat, c: nat): Octet
      requires Valid() && r < rows && c < cols
      reads this, bits, gf256, rowmap, typ
    {
      if typ[r] then gf256[rowmap[r], c] else Value(BitAt(bits, r, c))
    }

    /** The dense matrix this working matrix stands for. */
    ghost function View(): (m: Mat)
      requires Valid()
      reads this, bits, gf256, rowmap, typ
      ensures IsMat(m, rows, cols)
      ensures forall r, c :: 0 <= r < rows && 0 <= c < cols ==> m[r][c] == Get(r, c)
    {
      seq(rows, r requires 0 <= r < rows && Valid() reads this, bits, gf256, rowmap, typ =>
        seq(cols, c requires 0 <= c < cols && Valid() reads this, bits, gf256, rowmap, typ => Get(r, c)))
    }

    lemma ViewIs(m: Mat)
      requires Valid() && IsMat(m, rows, cols)
      requires forall r, c :: 0 <= r < rows && 0 <= c < cols ==> Get(r, c) == m[r][c]
      ensures View() == m
    {
      forall r | 0 <= r < rows ensures View()[r] == m[r] {}
    }

    constructor (rows: nat, cols: nat)
      ensures this.rows == rows && this.cols == cols && Valid()
      ensures fresh(bits) && fresh(gf256) && fresh(rowmap) && fresh(typ)
      ensures forall r, c :: 0 <= r < rows && 0 <= c < cols ==> View()[r][c] == 0
      ensures forall r :: 0 <= r < rows ==> !typ[r]
    {
      hide Bit, Pow2;
      this.rows, this.cols := rows, cols;
      bits := new nat[rows, (cols + 31) / 32]((i, j) => 0);
      gf256 := new Octet[0, cols];
      rowmap := new nat[rows](i => 0);
      typ := new bool[rows](i => false);
      blkidx := 0;
      new;
      forall k: nat ensures !Bit(0, k) {
        BitZero(k);
      }
    }

    /** wrkmat_at. */
    method At(r: nat, c: nat) returns (v: Octet)
      requires Valid() && r < rows && c < cols
      ensures v == View()[r][c]
      ensures !typ[r] ==> v <= 1
    {
      if typ[r] {
        v := gf256[rowmap[r], c];
      } else {
        v := if Bit(bits[r, c / 32], c % 32) then 1 else 0;
      }
    }

    /** gf2mat_set on a packed row: bit j % 32 of word j / 32 is set or cleared. */
    method SetBit(i: nat, j: nat, b: bool)
      requires Valid() && i < rows && j < cols && !typ[i]
      modifies bits
      ensures Valid()
      ensures View() == WithEntry(old(View()), i, j, Value(b))
    {
      hide Bit, Pow2, WordWith;
      ghost var m := WithEntry(View(), i, j, Value(b));
      var w, k := j / 32, j % 32;
      ghost var before := bits[i, w];
      WordBit(before, k, b);
      bits[i, w] := WordWith(bits[i, w], k, b);
      forall r, c | 0 <= r < rows && 0 <= c < cols ensures Get(r, c) == m[r][c] {}
      ViewIs(m);
    }

    /** wrkmat_set; not ok is the abort for a value above 1 in a packed row. */
    method Set(i: nat, j: nat, b: Octet) returns (ok: bool)
      requires Valid() && i < rows && j < cols
      modifies bits, gf256
      ensures Valid() && ok == (typ[i] || b <= 1)
      ensures View() == if ok then WithEntry(old(View()), i, j, b) else old(View())
    {
      hide Bit, Packed;
      if typ[i] {
        ghost var m := WithEntry(View(), i, j, b);
        PackedWidth();
        gf256[rowmap[i], j] := b;
        ViewIs(m);
      } else if b <= 1 {
        SetBit(i, j, b == 1);
      } else {
        return false;
      }
      ok := true;
    }

    lemma PackedWidth()
      requires Valid()
      ensures cols <= 32 * bits.Length1
    {}

    /** Both rows packed, beta 1: the words are xored. */
    method AxpyBits(i: nat, j: nat)
      requires Valid() && i < rows && j < rows && i != j && !typ[i] && !typ[j]
      modifies bits
      ensures Valid()
      ensures View() == ApplyOp(old(View()), Op(i, j, 1))
    {
      assert cols <= 32 * bits.Length1;
      hide Bit, Xor, Add, Mul, Packed;
      ghost var m := ApplyOp(View(), Op(i, j, 1));
      XorWords(bits, i, j, cols);
      forall r, c | 0 <= r < rows && 0 <= c < cols ensures Get(r, c) == m[r][c] {
        if r == i {
          ValueXor(old(bits[i, c / 32]), old(bits[j, c / 32]), c % 32);
        }
      }
      ViewIs(m);
    }

    /** Both rows byte rows; the stale packed rows are xored as well. */
    method AxpyBytes(i: nat, j: nat, beta: Octet)
      requires Valid() && i < rows && j < rows && i != j && typ[i] && typ[j] && beta != 0
      modifies bits, gf256
      ensures Valid()
      ensures View() == ApplyOp(old(View()), Op(i, j, beta))
    {
      assert cols <= 32 * bits.Length1;
      hide Bit, Xor, Add, Mul, Packed;
      ghost var m := ApplyOp(View(), Op(i, j, beta));
      ghost var g := RowsOf(gf256);
      OAxpy(gf256, rowmap[i], rowmap[j], beta);
      assert RowsOf(gf256) == ApplyOp(g, Op(rowmap[i], rowmap[j], beta));
      XorWords(bits, i, j, cols);
      forall r, c | 0 <= r < rows && 0 <= c < cols ensures Get(r, c) == m[r][c] {
        if typ[r] {
          assert gf256[rowmap[r], c] == RowsOf(gf256)[rowmap[r]][c];
        }
      }
      ViewIs(m);
    }

    /** A packed row added into a byte row. */
    method AxpyIntoBytes(i: nat, j: nat, beta: Octet)
      requires Valid() && i < rows && j < rows && typ[i] && !typ[j] && beta != 0
      modifies gf256
      ensures Valid()
      ensures View() == ApplyOp(old(View()), Op(i, j, beta))
    {
      assert cols <= 32 * bits.Length1;
      hide Bit, Xor, Add, Mul, Packed;
      ghost var m := ApplyOp(View(), Op(i, j, beta));
      AxpyPacked(gf256, bits, rowmap[i], j, cols, beta);
      forall r, c | 0 <= r < rows && 0 <= c < cols ensures Get(r, c) == m[r][c] {
        if r == i {
          MulOneRight(beta);
          MulZero(beta);
          AddZero(old(Get(i, c)));
        }
      }
      ViewIs(m);
    }

    /** Promotion of a packed row: it is unpacked into the next spare byte row. */
    method Promote(i: nat)
      requires Valid() && i < rows && !typ[i] && blkidx < gf256.Length0
      modifies gf256, rowmap, typ, this`blkidx
      ensures Valid() && View() == old(View())
      ensures blkidx == old(blkidx) + 1 && gf256 == old(gf256)
      ensures forall r :: 0 <= r < rows ==> typ[r] == (old(typ[r]) || r == i)
    {
      hide Bit, Packed;
      ghost var m := View();
      Fill(gf256, bits, blkidx, i, cols);
      typ[i] := true;
      rowmap[i] := blkidx;
      blkidx := blkidx + 1;
      forall r, c | 0 <= r < rows && 0 <= c < cols ensures Get(r, c) == m[r][c] {}
      ViewIs(m);
    }

    /**
     wrkmat_axpy: adds beta times row j to row i.  False is the source's abort, which happens
     exactly when a packed row needs promotion and no spare byte row is left.
     */
    method Axpy(i: nat, j: nat, beta: Octet) returns (ok: bool)
      requires Valid() && i < rows && j < rows && i != j && beta != 0
      requires !typ[i] && !typ[j] ==> beta == 1
      modifies bits, gf256, rowmap, typ, this`blkidx
      ensures ok == !(!old(typ[i]) && old(typ[j]) && old(blkidx) == gf256.Length0)
      ensures !ok ==> blkidx == gf256.Length0
      ensures ok ==> blkidx == old(blkidx) + if !old(typ[i]) && old(typ[j]) then 1 else 0
      ensures ok ==> Valid() && View() == ApplyOp(old(View()), Op(i, j, beta))
      ensures ok ==> forall r :: 0 <= r < rows ==> typ[r] == (old(typ[r]) || (r == i && old(typ[j])))
    {
      if typ[i] == typ[j] {
        if typ[i] {
          AxpyBytes(i, j, beta);
        } else {
          AxpyBits(i, j);
        }
      } else {
        if typ[i] {
          AxpyIntoBytes(i, j, beta);
        } else {
          if blkidx >= gf256.Length0 {
            return false;
          }
          Promote(i);
          AxpyBytes(i, j, beta);
        }
      }
      ok := true;
    }

    /** wrkmat_scal: multiplies a byte row. */
    method Scal(i: nat, beta: Octet)
      requires Valid() && i < rows && typ[i] && beta >= 2
      modifies gf256
      ensures Valid()
      ensures View() == ApplyOp(old(View()), Op(i, beta, 0))
    {
      assert cols <= 32 * bits.Length1;
      hide Bit, Xor, Add, Mul, Packed;
      ghost var m := ApplyOp(View(), Op(i, beta, 0));
      ghost var g := RowsOf(gf256);
      OScal(gf256, rowmap[i], beta);
      assert RowsOf(gf256) == ApplyOp(g, Op(rowmap[i], beta, 0));
      forall r, c | 0 <= r < rows && 0 <= c < cols ensures Get(r, c) == m[r][c] {
        if typ[r] {
          assert gf256[rowmap[r], c] == RowsOf(gf256)[rowmap[r]][c];
        }
      }
      ViewIs(m);
    }

    /** wrkmat_assign_block: rows i .. i + m become the first m rows of a byte matrix. */
    method AssignBlock(block: array2<Octet>, i: nat, m: nat)
      requires Valid() && forall r :: 0 <= r < rows ==> !typ[r]
      requires i + m <= rows && block.Length1 == cols && m <= block.Length0
      requires (block as object) != (bits as object)
      requires forall x, c :: m <= x < block.Length0 && 0 <= c < cols ==> block[x, c] == 0
      modifies this`gf256, this`blkidx, rowmap, typ
      ensures Valid() && gf256 == block && blkidx == m
      ensures forall r :: 0 <= r < rows ==> typ[r] == (i <= r < i + m)
      ensures forall r :: 0 <= r < rows ==>
        View()[r] == if i <= r < i + m then RowsOf(block)[r - i] else old(View())[r]
    {
      hide Bit, Packed;
      ghost var v := View();
      gf256 := block;
      for row := i to i + m
        invariant gf256 == block && Packed(bits, cols)
        invariant forall r :: 0 <= r < rows ==> typ[r] == (i <= r < row)
        invariant forall r :: i <= r < row ==> rowmap[r] == r - i
      {
        typ[row] := true;
        rowmap[row] := row - i;
      }
      blkidx := m;
      forall r | 0 <= r < rows
        ensures View()[r] == if i <= r < i + m then RowsOf(block)[r - i] else v[r]
      {}
    }
  }

  lemma ValueXor(a: nat, b: nat, k: nat)
    ensures Value(Bit(Xor(a, b), k)) == Add(Value(Bit(a, k)), Mul(1, Value(Bit(b, k))))
  {
    BitXor(a, b, k);
    hide Bit, Xor, Mul, Add;
    MulOneLeft(Value(Bit(b, k)));
    AddZero(0);
    AddZero(1);
    AddSelf(1);
  }

  lemma Pow2Strict(k: nat)
    requires k < 32
    ensures Pow2(k) < Pow2(32)
  {
    Pow2Monotone(k + 1, 32);
  }
}
