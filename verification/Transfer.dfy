/**
 Reading and writing symbols of a file: raptorq/nanorq.c, lines 114-128 and 148-173.  The file is an
 array of F bytes.
 */
module Transfer {
  import opened Primes
  import opened GF256
  import opened Linear
  import opened Oblas
  import opened Layout

  // ---------- bytes of the file ----------

  /** Where byte b of a symbol is in the file. */
  function ByteAt(sh: Shape, sbn: nat, esi: nat, b: nat): nat
    requires sh.Valid() && b < sh.t
  {
    hide FillPartition, SymbolOffset;
    ShapeParts(sh);
    Quotient(b, sh.al, sh.Units());
    SymbolOffset(sh.Blocks(), sh.Subs(), sbn, esi, b / sh.al) * sh.al + b % sh.al
  }

  /** The symbol, and the byte of it, that place x of the file belongs to. */
  function Owner(sh: Shape, x: nat): (nat, nat, nat)
    requires sh.Valid() && x < sh.f
  {
    hide FillPartition, Locate, DivCeil, Total;
    InFile(sh, x);
    var r := Locate(sh.Blocks(), sh.Subs(), x / sh.al);
    (r.0, r.1, r.2 * sh.al + x % sh.al)
  }

  lemma CeilTimes(a: nat, b: nat)
    requires b > 0
    ensures DivCeil(a, b) * b >= a
  {
    assert a == (a / b) * b + a % b;
    Distribute(a / b, 1, b);
  }

  lemma InFile(sh: Shape, x: nat)
    requires sh.Valid() && x < sh.f
    ensures Total(sh.Subs()) > 0 && x / sh.al < Total(sh.Blocks()) * Total(sh.Subs())
  {
    hide FillPartition;
    ShapeParts(sh);
    CeilTimes(sh.f, sh.t);
    var k, u := sh.Kt(), sh.Units();
    assert k * sh.t == (k * u) * sh.al by { assert sh.t == u * sh.al; }
    Quotient(x, sh.al, k * u);
  }

  /** Every byte of the file belongs to one byte of one symbol. */
  lemma ByteAtOwner(sh: Shape, x: nat)
    requires sh.Valid() && x < sh.f
    ensures var o := Owner(sh, x);
      o.0 < sh.z && o.1 < Size(sh.Blocks(), o.0) && o.2 < sh.t && ByteAt(sh, o.0, o.1, o.2) == x
  {
    hide FillPartition, SymbolOffset, Locate, Size;
    InFile(sh, x);
    ShapeParts(sh);
    PlaceLocate(sh.Blocks(), sh.Subs(), x / sh.al);
    var r := Locate(sh.Blocks(), sh.Subs(), x / sh.al);
    JoinUnit(r.2, x % sh.al, sh.al, sh.Units());
    assert x == (x / sh.al) * sh.al + x % sh.al;
  }

  lemma JoinUnit(u: nat, c: nat, al: nat, n: nat)
    requires c < al && u < n
    ensures u * al + c < n * al && (u * al + c) / al == u && (u * al + c) % al == c
  {
    MulOrder(u + 1, n, al);
    Distribute(u, 1, al);
    DivModUnique(u * al + c, al, u, c);
  }

  /** No two bytes of symbols share a place of the file. */
  lemma OwnerByteAt(sh: Shape, sbn: nat, esi: nat, b: nat)
    requires sh.Valid() && sbn < sh.z && esi < Size(sh.Blocks(), sbn) && b < sh.t && ByteAt(sh, sbn, esi, b) < sh.f
    ensures Owner(sh, ByteAt(sh, sbn, esi, b)) == (sbn, esi, b)
  {
    hide FillPartition, SymbolOffset, Locate, Size;
    ShapeParts(sh);
    Quotient(b, sh.al, sh.Units());
    var o := SymbolOffset(sh.Blocks(), sh.Subs(), sbn, esi, b / sh.al);
    LocatePlace(sh.Blocks(), sh.Subs(), sbn, esi, b / sh.al);
    JoinUnit(o, b % sh.al, sh.al, o + 1);
    assert b == (b / sh.al) * sh.al + b % sh.al;
  }

  /** With one sub-block, the padded file is its symbols in order: block by block, symbol by symbol, byte by byte. */
  lemma SymbolsInOrder(sh: Shape, sbn: nat, esi: nat, b: nat)
    requires sh.Valid() && sh.n == 1 && sbn < sh.z && b < sh.t
    ensures ByteAt(sh, sbn, esi, b) == (Start(sh.Blocks(), sbn) + esi) * sh.t + b
  {
    hide SymbolOffset, Size, Start, Find, FillPartition;
    ShapeParts(sh);
    var p, q, u, al := sh.Blocks(), sh.Subs(), sh.Units(), sh.al;
    Quotient(b, al, u);
    var s, x := Start(p, sbn), b / al;
    OffsetIsPlace(p, q, sbn, esi, x);
    OnePart(u, x);
    assert Place(p, q, sbn, esi, x) == s * u + esi * u + x by {
      assert Size(p, sbn) * 0 == 0;
    }
    Distribute(s, esi, u);
    Distribute((s + esi) * u, x, al);
    assert ((s + esi) * u) * al == (s + esi) * (u * al);
    Recompose(b, al);
  }

  /** A single part starts at 0 and holds everything. */
  lemma OnePart(u: nat, x: nat)
    requires x < u
    ensures var q := FillPartition(u, 1);
      x < Total(q) && Find(q, x) == 0 && Start(q, 0) == 0 && Size(q, 0) == u && Total(q) == u
  {
    FillSplits(u, 1);
    assert u / 1 == u && u % 1 == 0;
    DivModUnique(x, u, 0, x);
  }

  // ---------- runs of bytes ----------

  /** The units of one sub-block of a symbol follow one another in the file. */
  lemma RunOfUnits(p: Part, q: Part, sbn: nat, esi: nat, i: nat, r: nat)
    requires sbn < Parts(p) && i < Total(q) && Start(q, Find(q, i)) == i && r < Size(q, Find(q, i))
    ensures i + r < Total(q) && SymbolOffset(p, q, sbn, esi, i + r) == SymbolOffset(p, q, sbn, esi, i) + r
  {
    hide SymbolOffset, Start, Size, Find, Total;
    StartFind(q, i);
    FindStart(q, Find(q, i), r);
    OffsetIsPlace(p, q, sbn, esi, i);
    OffsetIsPlace(p, q, sbn, esi, i + r);
  }

  /** The next sub-block's units of the same symbol come later in the file. */
  lemma RunsAscend(p: Part, q: Part, sbn: nat, esi: nat, i: nat)
    requires sbn < Parts(p) && esi < Size(p, sbn) && Even(q) && i < Total(q) && Start(q, Find(q, i)) == i
    requires i + Size(q, Find(q, i)) < Total(q)
    ensures var n := i + Size(q, Find(q, i));
      Start(q, Find(q, n)) == n
      && SymbolOffset(p, q, sbn, esi, n) >= SymbolOffset(p, q, sbn, esi, i) + Size(q, Find(q, i))
  {
    hide SymbolOffset, Start, Find, Total;
    StartFind(q, i);
    var j := Find(q, i);
    var z, n, k := Size(q, j), i + Size(q, j), Size(p, sbn);
    StartNext(q, j);
    SizePositive(q, j, n);
    FindStart(q, j + 1, 0);
    OffsetIsPlace(p, q, sbn, esi, i);
    OffsetIsPlace(p, q, sbn, esi, n);
    Ahead(k, esi, i, z, Size(q, j + 1));
  }

  lemma SizePositive(q: Part, j: nat, n: nat)
    requires j < Parts(q) && Start(q, j + 1) == n < Total(q) && Even(q)
    ensures j + 1 < Parts(q) && Size(q, j + 1) > 0
  {
    if q.short == 0 {
      assert q.shorts * q.short == 0 && (j - q.longs) * q.short == 0;
    }
    if j + 1 == Parts(q) {
      StartEnd(q);
    }
  }

  lemma Ahead(k: nat, esi: nat, i: nat, z: nat, z': nat)
    requires esi < k && z > 0 && (z' == z || z' + 1 == z)
    ensures k * (i + z) + esi * z' >= k * i + esi * z + z
  {
    assert k * (i + z) == k * i + k * z;
    MulOrder(esi + 1, k, z);
    Distribute(esi, 1, z);
    if z' + 1 == z {
      assert esi * z == esi * z' + esi;
      assert k * z - esi * z == (k - esi) * z;
      assert (k - esi) * z + esi * z' >= z + esi * z' by { MulOrder(1, k - esi, z); }
      assert k * z == k * z' + k;
      MulOrder(esi + 1, k, z');
      Distribute(esi, 1, z');
    }
  }

  lemma SplitByte(i: nat, d: nat, al: nat, z: nat, n: nat)
    requires d < z * al && i + z <= n && al > 0
    ensures d / al < z && i * al + d < n * al && (i * al + d) / al == i + d / al && (i * al + d) % al == d % al
  {
    Quotient(d, al, z);
    assert d == (d / al) * al + d % al;
    Distribute(i, d / al, al);
    JoinUnit(i + d / al, d % al, al, n);
  }

  lemma SplitPlace(o: nat, d: nat, al: nat)
    requires al > 0
    ensures (o + d / al) * al + d % al == o * al + d
  {
    Distribute(o, d / al, al);
  }

  lemma ByteRun(sh: Shape, sbn: nat, esi: nat, i: nat, d: nat)
    requires sh.Valid() && sbn < sh.z && AtRun(sh, i) && i < sh.Units() && d < RunSize(sh, i) * sh.al
    ensures i * sh.al + d < sh.t && ByteAt(sh, sbn, esi, i * sh.al + d) == RunOffset(sh, sbn, esi, i) + d
  {
    hide FillPartition, SymbolOffset, Size, Start, Find, Total;
    ShapeParts(sh);
    StartFind(sh.Subs(), i);
    RunFits(sh, i);
    SplitByte(i, d, sh.al, RunSize(sh, i), sh.Units());
    RunOfUnits(sh.Blocks(), sh.Subs(), sbn, esi, i, d / sh.al);
    SplitPlace(SymbolOffset(sh.Blocks(), sh.Subs(), sbn, esi, i), d, sh.al);
  }

  lemma RunFits(sh: Shape, i: nat)
    requires sh.Valid() && AtRun(sh, i) && i < sh.Units()
    ensures i + RunSize(sh, i) <= sh.Units()
  {
    hide FillPartition, Size, Start, Find, Total;
    ShapeParts(sh);
    StartFind(sh.Subs(), i);
    FindStart(sh.Subs(), Find(sh.Subs(), i), RunSize(sh, i) - 1);
  }

  /** Unit i starts the part of a symbol that lies in one sub-block, or ends the symbol. */
  ghost predicate AtRun(sh: Shape, i: nat)
    requires sh.Valid()
  {
    ShapeParts(sh);
    i == sh.Units() || (i < sh.Units() && Start(sh.Subs(), Find(sh.Subs(), i)) == i)
  }

  /** How many units that part has. */
  ghost function RunSize(sh: Shape, i: nat): nat
    requires sh.Valid() && i < sh.Units()
  {
    ShapeParts(sh);
    Size(sh.Subs(), Find(sh.Subs(), i))
  }

  /** Where the part starts in the file. */
  function RunOffset(sh: Shape, sbn: nat, esi: nat, i: nat): nat
    requires sh.Valid() && i < sh.Units()
  {
    ShapeParts(sh);
    SymbolOffset(sh.Blocks(), sh.Subs(), sbn, esi, i) * sh.al
  }

  lemma FirstRun(sh: Shape)
    requires sh.Valid()
    ensures AtRun(sh, 0) && sh.Units() > 0
  {
    hide FillPartition;
    ShapeParts(sh);
    var q := sh.Subs();
    StartFind(q, 0);
    StartMonotone(q, 0, Find(q, 0));
    StartNext(q, 0);
  }

  lemma NextRun(sh: Shape, sbn: nat, esi: nat, i: nat)
    requires sh.Valid() && sbn < sh.z && esi < Size(sh.Blocks(), sbn) && i < sh.Units() && AtRun(sh, i)
    ensures RunSize(sh, i) == (if i < sh.Subs().long * sh.Subs().longs then sh.Subs().long else sh.Subs().short)
    ensures 0 < RunSize(sh, i) && i + RunSize(sh, i) <= sh.Units() && AtRun(sh, i + RunSize(sh, i))
    ensures (i + RunSize(sh, i)) * sh.al == i * sh.al + RunSize(sh, i) * sh.al <= sh.t
    ensures i + RunSize(sh, i) < sh.Units() ==>
      RunOffset(sh, sbn, esi, i + RunSize(sh, i)) >= RunOffset(sh, sbn, esi, i) + RunSize(sh, i) * sh.al
  {
    hide FillPartition, SymbolOffset, Start, Find, Total;
    ShapeParts(sh);
    var p, q := sh.Blocks(), sh.Subs();
    StartFind(q, i);
    SizeAt(q, i);
    FindStart(q, Find(q, i), RunSize(sh, i) - 1);
    Distribute(i, RunSize(sh, i), sh.al);
    MulOrder(i + RunSize(sh, i), sh.Units(), sh.al);
    if i + RunSize(sh, i) < sh.Units() {
      RunsAscend(p, q, sbn, esi, i);
      var a, b := SymbolOffset(p, q, sbn, esi, i), SymbolOffset(p, q, sbn, esi, i + RunSize(sh, i));
      Distribute(a, RunSize(sh, i), sh.al);
      MulOrder(a + RunSize(sh, i), b, sh.al);
    }
  }

  // ---------- writing a symbol ----------

  /** f is f0 with the first lim bytes of the symbol written. */
  ghost predicate Written(sh: Shape, sbn: nat, esi: nat, data: Vec, f0: Vec, f: Vec, lim: nat)
    requires sh.Valid()
  {
    && |f| == |f0| == sh.f && |data| == sh.t
    && forall x :: 0 <= x < sh.f ==>
      var o := Owner(sh, x);
      f[x] == if o.0 == sbn && o.1 == esi && o.2 < lim && o.2 < |data| then data[o.2] else f0[x]
  }

  /** f' is f with n bytes from data[from..] at place to. */
  ghost predicate Copied(f: Vec, f': Vec, to: nat, data: Vec, from: nat, n: nat) {
    && |f'| == |f| && to + n <= |f| && from + n <= |data|
    && forall x :: 0 <= x < |f| ==> f'[x] == if to <= x < to + n then data[from + (x - to)] else f[x]
  }

  /** The places of a part hold exactly its bytes of the symbol. */
  lemma RunOwner(sh: Shape, sbn: nat, esi: nat, i: nat, x: nat)
    requires sh.Valid() && sbn < sh.z && esi < Size(sh.Blocks(), sbn) && i < sh.Units() && AtRun(sh, i) && x < sh.f
    ensures var o, off, lo, stride := Owner(sh, x), RunOffset(sh, sbn, esi, i), i * sh.al, RunSize(sh, i) * sh.al;
      (off <= x < off + stride <==> o.0 == sbn && o.1 == esi && lo <= o.2 < lo + stride)
      && (off <= x < off + stride ==> o.2 == lo + (x - off))
  {
    hide FillPartition, Size, Owner, ByteAt, AtRun, RunOffset, RunSize;
    var o, off, lo, stride := Owner(sh, x), RunOffset(sh, sbn, esi, i), i * sh.al, RunSize(sh, i) * sh.al;
    ByteAtOwner(sh, x);
    if o.0 == sbn && o.1 == esi && lo <= o.2 < lo + stride {
      ByteRun(sh, sbn, esi, i, o.2 - lo);
    }
    if off <= x < off + stride {
      ByteRun(sh, sbn, esi, i, x - off);
      OwnerByteAt(sh, sbn, esi, lo + (x - off));
    }
  }

  lemma WriteRun(sh: Shape, sbn: nat, esi: nat, data: Vec, f0: Vec, f: Vec, f': Vec, i: nat, n: nat)
    requires sh.Valid() && sbn < sh.z && esi < Size(sh.Blocks(), sbn) && i < sh.Units() && AtRun(sh, i)
    requires Written(sh, sbn, esi, data, f0, f, i * sh.al)
    requires var off, stride := RunOffset(sh, sbn, esi, i), RunSize(sh, i) * sh.al;
      n == if off >= sh.f then 0 else if off + stride >= sh.f then sh.f - off else stride
    requires n > 0 ==> Copied(f, f', RunOffset(sh, sbn, esi, i), data, i * sh.al, n)
    requires n == 0 ==> f' == f
    ensures Written(sh, sbn, esi, data, f0, f', (i + RunSize(sh, i)) * sh.al)
  {
    hide FillPartition, Size, Owner, ByteAt, AtRun, RunOffset, RunSize;
    NextRun(sh, sbn, esi, i);
    var off, lo, stride := RunOffset(sh, sbn, esi, i), i * sh.al, RunSize(sh, i) * sh.al;
    forall x | 0 <= x < sh.f
      ensures var o := Owner(sh, x);
        f'[x] == if o.0 == sbn && o.1 == esi && o.2 < lo + stride && o.2 < |data| then data[o.2] else f0[x]
    {
      RunOwner(sh, sbn, esi, i, x);
    }
  }

  /** One write: n bytes of data from place `from` to place `to` of the file. */
  method WriteBytes(file: array<Octet>, to: nat, data: Vec, from: nat, n: nat)
    requires to + n <= file.Length && from + n <= |data|
    modifies file
    ensures Copied(old(file[..]), file[..], to, data, from, n)
  {
    for m := 0 to n
      invariant Copied(old(file[..]), file[..], to, data, from, m)
    {
      file[to + m] := data[from + m];
    }
  }

  /** The write position is that of unit i, unless the file has ended. */
  ghost predicate InStep(sh: Shape, sbn: nat, esi: nat, i: nat, col: nat)
    requires sh.Valid()
  {
    i < sh.Units() ==> col == i * sh.al || RunOffset(sh, sbn, esi, i) >= sh.f
  }

  /**
   transfer_esi, writing: the bytes of the symbol that lie in the file are written to their places
   and nothing else changes.  A part that starts past the end does not advance the position in the
   symbol; no part after it is in the file.
   */
  method TransferOut(file: array<Octet>, sh: Shape, sbn: nat, esi: nat, data: Vec)
    requires sh.Valid() && sbn < sh.z && esi < Size(sh.Blocks(), sbn) && file.Length == sh.f && |data| == sh.t
    modifies file
    ensures Written(sh, sbn, esi, data, old(file[..]), file[..], sh.t)
  {
    hide FillPartition, SymbolOffset, Start, Find, Total, Owner, AtRun, RunSize, Written, Copied, Size;
    ghost var f0 := file[..];
    var col: nat, i: nat := 0, 0;
    FirstRun(sh);
    ShapeParts(sh);
    NothingWritten(sh, sbn, esi, data, f0);
    while i < sh.Units()
      invariant i <= sh.Units() && AtRun(sh, i) && InStep(sh, sbn, esi, i, col)
      invariant Written(sh, sbn, esi, data, f0, file[..], i * sh.al)
    {
      NextRun(sh, sbn, esi, i);
      ghost var before := file[..];
      var offset := RunOffset(sh, sbn, esi, i);
      var sublen := if i < sh.Subs().long * sh.Subs().longs then sh.Subs().long else sh.Subs().short;
      var stride := sublen * sh.al;
      ghost var at := i;
      i := i + sublen;
      if offset >= sh.f {
        WriteRun(sh, sbn, esi, data, f0, before, file[..], at, 0);
        continue;
      }
      if offset + stride >= sh.f {
        stride := sh.f - offset;
      }
      WriteBytes(file, offset, data, col, stride);
      col := col + stride;
      WriteRun(sh, sbn, esi, data, f0, before, file[..], at, stride);
    }
  }

  lemma NothingWritten(sh: Shape, sbn: nat, esi: nat, data: Vec, f: Vec)
    requires sh.Valid() && |f| == sh.f && |data| == sh.t
    ensures Written(sh, sbn, esi, data, f, f, 0)
  {}

  // ---------- reading a symbol ----------

  /** A symbol of the file; bytes past the end of the file are taken from `pad`. */
  ghost function SymbolIn(f: Vec, sh: Shape, sbn: nat, esi: nat, pad: Vec): (v: Vec)
    requires sh.Valid() && |f| == sh.f && |pad| == sh.t
    ensures |v| == sh.t
  {
    seq(sh.t, b requires 0 <= b < sh.t =>
      if ByteAt(sh, sbn, esi, b) < sh.f then f[ByteAt(sh, sbn, esi, b)] else pad[b])
  }

  /** The first lim bytes of v have been read. */
  ghost predicate ReadSoFar(f: Vec, sh: Shape, sbn: nat, esi: nat, pad: Vec, v: Vec, lim: nat)
    requires sh.Valid() && |f| == sh.f && |pad| == sh.t
  {
    |v| == sh.t && forall b :: 0 <= b < sh.t ==> v[b] == if b < lim then SymbolIn(f, sh, sbn, esi, pad)[b] else pad[b]
  }

  lemma ReadRun(f: Vec, sh: Shape, sbn: nat, esi: nat, pad: Vec, v: Vec, v': Vec, i: nat, n: nat)
    requires sh.Valid() && sbn < sh.z && esi < Size(sh.Blocks(), sbn) && i < sh.Units() && AtRun(sh, i)
    requires |f| == sh.f && |pad| == sh.t && ReadSoFar(f, sh, sbn, esi, pad, v, i * sh.al)
    requires var off, stride := RunOffset(sh, sbn, esi, i), RunSize(sh, i) * sh.al;
      n == if off >= sh.f then 0 else if off + stride >= sh.f then sh.f - off else stride
    requires n > 0 ==> Copied(v, v', i * sh.al, f, RunOffset(sh, sbn, esi, i), n)
    requires n == 0 ==> v' == v
    ensures ReadSoFar(f, sh, sbn, esi, pad, v', (i + RunSize(sh, i)) * sh.al)
  {
    hide FillPartition, SymbolOffset, Start, Find, Size, Total, ByteAt, AtRun;
    NextRun(sh, sbn, esi, i);
    var lo, stride := i * sh.al, RunSize(sh, i) * sh.al;
    forall b | 0 <= b < sh.t
      ensures v'[b] == if b < lo + stride then SymbolIn(f, sh, sbn, esi, pad)[b] else pad[b]
    {
      if lo <= b < lo + stride {
        ByteRun(sh, sbn, esi, i, b - lo);
      }
    }
  }

  /** One read: n bytes of the file from place `from` into row r of d, from byte `to` on. */
  method ReadBytes(d: array2<Octet>, r: nat, to: nat, file: array<Octet>, from: nat, n: nat)
    requires r < d.Length0 && to + n <= d.Length1 && from + n <= file.Length && (d as object) != (file as object)
    modifies d
    ensures file[..] == old(file[..])
    ensures RowsOf(d) == old(RowsOf(d))[r := RowsOf(d)[r]]
    ensures Copied(old(RowsOf(d))[r], RowsOf(d)[r], to, file[..], from, n)
  {
    for m := 0 to n
      invariant file[..] == old(file[..])
      invariant forall x, k :: 0 <= x < d.Length0 && x != r && 0 <= k < d.Length1 ==> d[x, k] == old(RowsOf(d))[x][k]
      invariant Copied(old(RowsOf(d))[r], RowsOf(d)[r], to, file[..], from, m)
    {
      d[r, to + m] := file[from + m];
    }
    SameRows(d, old(RowsOf(d))[r := RowsOf(d)[r]]);
  }

  /** transfer_esi, reading: row r of d becomes the symbol, keeping what it held past the end of the file. */
  method TransferIn(file: array<Octet>, sh: Shape, sbn: nat, esi: nat, d: array2<Octet>, r: nat)
    requires sh.Valid() && sbn < sh.z && esi < Size(sh.Blocks(), sbn) && file.Length == sh.f
    requires r < d.Length0 && d.Length1 == sh.t && (d as object) != (file as object)
    modifies d
    ensures file[..] == old(file[..])
    ensures RowsOf(d) == old(RowsOf(d))[r := SymbolIn(file[..], sh, sbn, esi, old(RowsOf(d))[r])]
  {
    hide FillPartition, SymbolOffset, Start, Find, Total, AtRun, RunSize, ReadSoFar, Copied, Size, RowsOf, SymbolIn;
    ghost var f, m := file[..], RowsOf(d);
    var col: nat, i: nat := 0, 0;
    FirstRun(sh);
    ShapeParts(sh);
    NothingRead(f, sh, sbn, esi, m[r]);
    while i < sh.Units()
      invariant i <= sh.Units() && AtRun(sh, i) && InStep(sh, sbn, esi, i, col) && file[..] == f
      invariant RowsOf(d) == m[r := RowsOf(d)[r]] && ReadSoFar(f, sh, sbn, esi, m[r], RowsOf(d)[r], i * sh.al)
    {
      NextRun(sh, sbn, esi, i);
      ghost var before := RowsOf(d)[r];
      var offset := RunOffset(sh, sbn, esi, i);
      var sublen := if i < sh.Subs().long * sh.Subs().longs then sh.Subs().long else sh.Subs().short;
      var stride := sublen * sh.al;
      ghost var at := i;
      i := i + sublen;
      if offset >= sh.f {
        ReadRun(f, sh, sbn, esi, m[r], before, before, at, 0);
        continue;
      }
      if offset + stride >= sh.f {
        stride := sh.f - offset;
      }
      ReadBytes(d, r, col, file, offset, stride);
      col := col + stride;
      ReadRun(f, sh, sbn, esi, m[r], before, RowsOf(d)[r], at, stride);
    }
    AllRead(f, sh, sbn, esi, m[r], RowsOf(d)[r]);
  }

  lemma NothingRead(f: Vec, sh: Shape, sbn: nat, esi: nat, pad: Vec)
    requires sh.Valid() && |f| == sh.f && |pad| == sh.t
    ensures ReadSoFar(f, sh, sbn, esi, pad, pad, 0)
  {}

  lemma AllRead(f: Vec, sh: Shape, sbn: nat, esi: nat, pad: Vec, v: Vec)
    requires sh.Valid() && |f| == sh.f && |pad| == sh.t && ReadSoFar(f, sh, sbn, esi, pad, v, sh.t)
    ensures v == SymbolIn(f, sh, sbn, esi, pad)
  {
    hide ByteAt;
  }
}
