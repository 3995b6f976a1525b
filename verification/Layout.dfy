/**
 How a file is cut into source blocks, sub-blocks and symbols: section 4.4.1.2 of RFC 6330
 (raptorq/nanorq.c, lines 83-128 and 418-430).
 */
module Layout {
  import opened Primes

  function DivCeil(a: nat, b: nat): nat
    requires b > 0
  {
    a / b + if a % b != 0 then 1 else 0
  }

  // ---------- partitions ----------

  /** `longs` parts of size `long` followed by `shorts` parts of size `short`. */
  datatype Part = Part(long: nat, short: nat, longs: nat, shorts: nat)

  /** fill_partition, with its 16-bit number of parts. */
  function FillPartition(i: nat, j: nat): Part {
    var j := j % 0x1_0000;
    if j == 0 then Part(0, 0, 0, 0)
    else
      var short := i / j;
      var longs := i - short * j;
      Part(if longs == 0 then 0 else DivCeil(i, j), short, longs, j - longs)
  }

  function Parts(p: Part): nat { p.longs + p.shorts }

  function Total(p: Part): nat { p.longs * p.long + p.shorts * p.short }

  /** nanorq_block_symbols. */
  function Size(p: Part, b: nat): nat {
    if b < p.longs then p.long else if b - p.longs < p.shorts then p.short else 0
  }

  /** Sizes differ by at most one, the longer ones first. */
  ghost predicate Even(p: Part) {
    (p.longs > 0 ==> p.long == p.short + 1)
  }

  /** I things in J parts: all of them, in exactly J parts of nearly equal size. */
  lemma FillSplits(i: nat, j: nat)
    requires 0 < j < 0x1_0000
    ensures var p := FillPartition(i, j);
      && Total(p) == i && Parts(p) == j && Even(p) && p.short == i / j
      && (forall b :: 0 <= b < j ==> Size(p, b) <= DivCeil(i, j))
  {
    assert j % 0x1_0000 == j;
    var p, q := FillPartition(i, j), i / j;
    assert i == q * j + i % j;
    assert p.longs == i % j && p.shorts == j - i % j;
    assert p.longs * (q + 1) + p.shorts * q == i by {
      assert p.longs * (q + 1) == p.longs * q + p.longs;
      assert p.longs * q + p.shorts * q == (p.longs + p.shorts) * q == q * j;
    }
    if p.longs == 0 {
      assert p.longs * p.long == 0;
    }
  }

  /** Part b has i / j things, and the first i % j parts one more; it starts where these add up to. */
  lemma PartSizes(i: nat, j: nat, b: nat)
    requires 0 < j < 0x1_0000 && b < j
    ensures var p, r := FillPartition(i, j), i % j;
      && Size(p, b) == i / j + (if b < r then 1 else 0)
      && Start(p, b) == b * (i / j) + (if b < r then b else r)
  {
    PartFields(i, j);
    hide FillPartition;
    PartStart(FillPartition(i, j), i / j, i % j, b);
  }

  lemma PartFields(i: nat, j: nat)
    requires 0 < j < 0x1_0000
    ensures FillPartition(i, j) == Part(if i % j == 0 then 0 else i / j + 1, i / j, i % j, j - i % j)
  {
    Recompose(i, j);
    assert j % 0x1_0000 == j;
  }

  lemma PartStart(p: Part, q: nat, r: nat, b: nat)
    requires p.long == (if r == 0 then 0 else q + 1) && p.short == q && p.longs == r && b < r + p.shorts
    ensures Size(p, b) == q + (if b < r then 1 else 0)
    ensures Start(p, b) == b * q + (if b < r then b else r)
  {
    if b < r {
      assert b * (q + 1) == b * q + b;
    } else {
      assert r * (q + 1) == r * q + r;
      Distribute(r, b - r, q);
    }
  }

  lemma Recompose(v: nat, z: nat)
    requires z > 0
    ensures v == (v / z) * z + v % z && v % z < z
  {}

  /** The first part is a largest one. */
  lemma FirstSize(i: nat, j: nat)
    requires 0 < j < 0x1_0000
    ensures Size(FillPartition(i, j), 0) == DivCeil(i, j)
  {
    assert j % 0x1_0000 == j;
    Recompose(i, j);
  }

  /** Where part b starts. */
  function Start(p: Part, b: nat): nat {
    if b < p.longs then b * p.long else p.longs * p.long + (b - p.longs) * p.short
  }

  /** The part that position x is in. */
  function Find(p: Part, x: nat): nat
    requires x < Total(p)
  {
    if x < p.longs * p.long then
      (if p.long == 0 then 0 else x / p.long)
    else
      p.longs + (if p.short == 0 then 0 else (x - p.longs * p.long) / p.short)
  }

  lemma MulOrder(a: nat, b: nat, d: nat)
    requires a <= b
    ensures a * d <= b * d
  {}

  lemma Distribute(a: nat, b: nat, u: nat)
    ensures a * u + b * u == (a + b) * u
  {}

  lemma Quotient(x: nat, u: nat, n: nat)
    requires u > 0 && x < n * u
    ensures x / u < n
  {
    var q := x / u;
    assert x == q * u + x % u;
    if q >= n {
      MulOrder(n, q, u);
    }
  }

  lemma PlaceInSub(esi: nat, k: nat, z: nat, r: nat)
    requires esi < k && r < z
    ensures esi * z + r < k * z && (esi * z + r) / z == esi && (esi * z + r) % z == r
  {
    MulOrder(esi + 1, k, z);
    Distribute(esi, 1, z);
    DivModUnique(esi * z + r, z, esi, r);
  }

  /** Position r of part b is in part b. */
  lemma FindStart(p: Part, b: nat, r: nat)
    requires b < Parts(p) && r < Size(p, b)
    ensures Start(p, b) + r < Total(p) && Find(p, Start(p, b) + r) == b
  {
    if b < p.longs {
      PlaceInSub(b, p.longs, p.long, r);
    } else {
      PlaceInSub(b - p.longs, p.shorts, p.short, r);
    }
  }

  /** Every position is in the part that is found for it. */
  lemma StartFind(p: Part, x: nat)
    requires x < Total(p)
    ensures var b := Find(p, x); b < Parts(p) && Start(p, b) <= x < Start(p, b) + Size(p, b)
  {
    if x < p.longs * p.long {
      Quotient(x, p.long, p.longs);
      Recompose(x, p.long);
    } else {
      var y := x - p.longs * p.long;
      Quotient(y, p.short, p.shorts);
      Recompose(y, p.short);
    }
  }

  lemma StartNext(p: Part, b: nat)
    requires b < Parts(p)
    ensures Start(p, b + 1) == Start(p, b) + Size(p, b)
    ensures Start(p, 0) == 0
  {
    if b < p.longs {
      assert (b + 1) * p.long == b * p.long + p.long;
    } else {
      var c := b - p.longs;
      assert (c + 1) * p.short == c * p.short + p.short;
    }
  }

  lemma StartEnd(p: Part)
    ensures Start(p, Parts(p)) == Total(p)
  {}

  lemma {:induction false} StartMonotone(p: Part, a: nat, b: nat)
    requires a <= b <= Parts(p)
    ensures Start(p, a) <= Start(p, b)
    decreases b
  {
    if a < b {
      StartMonotone(p, a, b - 1);
      StartNext(p, b - 1);
    }
  }

  // ---------- where the symbols are ----------

  const MAX_BLOCKS: nat := 256
  const MAX_SYMBOLS: nat := 56403

  /** Transfer length F, symbol size T, alignment Al, source blocks Z, sub-blocks N. */
  datatype Shape = Shape(f: nat, t: nat, al: nat, z: nat, n: nat) {
    ghost predicate Valid() {
      && 0 < al <= t && t % al == 0 && t < 0x1_0000
      && 0 < z <= MAX_BLOCKS && 0 < n < 0x1_0000
    }

    function Kt(): nat
      requires t > 0
    {
      DivCeil(f, t)
    }

    /** (KL, KS, ZL, ZS). */
    function Blocks(): Part
      requires t > 0
    {
      FillPartition(Kt(), z)
    }

    /** (TL, TS, NL, NS). */
    function Subs(): Part
      requires al > 0
    {
      FillPartition(t / al, n)
    }

    function Units(): nat
      requires al > 0
    {
      t / al
    }
  }

  lemma ShapeParts(sh: Shape)
    requires sh.Valid()
    ensures Total(sh.Blocks()) == sh.Kt() && Parts(sh.Blocks()) == sh.z && Even(sh.Blocks())
    ensures Total(sh.Subs()) == sh.Units() && Parts(sh.Subs()) == sh.n && Even(sh.Subs())
    ensures sh.Units() * sh.al == sh.t && sh.Units() > 0
  {
    FillSplits(sh.Kt(), sh.z);
    FillSplits(sh.Units(), sh.n);
    assert sh.t == (sh.t / sh.al) * sh.al + sh.t % sh.al;
  }

  /** get_source_block: where block sbn starts, in alignment units. */
  function SourceBlock(p: Part, q: Part, sbn: nat): nat {
    var u := Total(q);
    if sbn < p.longs then sbn * p.long * u
    else if sbn - p.longs < p.shorts then (p.long * p.longs) * u + (sbn - p.longs) * p.short * u
    else 0
  }

  lemma SubDivisors(q: Part, pos: nat)
    requires pos < Total(q)
    ensures if pos < q.long * q.longs then q.long > 0 else q.short > 0
  {
    if q.long == 0 {
      assert q.long * q.longs == 0;
    }
    if q.short == 0 {
      assert q.shorts * q.short == 0;
    }
  }

  /** Unit pos of symbol esi among k symbols cut into sub-blocks of l units. */
  function InSubs(k: nat, l: nat, esi: nat, pos: nat): nat
    requires l > 0
  {
    (pos / l) * k * l + esi * l + pos % l
  }

  /** get_symbol_offset: where unit pos of symbol esi of block sbn is in the file, in alignment units. */
  function SymbolOffset(p: Part, q: Part, sbn: nat, esi: nat, pos: nat): nat
    requires pos < Total(q)
  {
    hide SourceBlock, InSubs, Size, Total;
    SubDivisors(q, pos);
    var k, sbloc, partTot := Size(p, sbn), SourceBlock(p, q, sbn), q.long * q.longs;
    if pos < partTot then
      sbloc + InSubs(k, q.long, esi, pos)
    else
      sbloc + partTot * k + InSubs(k, q.short, esi, pos - partTot)
  }

  /** Sub-block by sub-block: K symbols' worth of each sub-block follow one another. */
  function Place(p: Part, q: Part, sbn: nat, esi: nat, pos: nat): int
    requires pos < Total(q)
  {
    var j := Find(q, pos);
    Start(p, sbn) * Total(q) + Size(p, sbn) * Start(q, j) + esi * Size(q, j) + (pos - Start(q, j))
  }

  lemma SourceBlockStart(p: Part, q: Part, sbn: nat)
    requires sbn < Parts(p)
    ensures SourceBlock(p, q, sbn) == Start(p, sbn) * Total(q)
  {
    var u := Total(q);
    if sbn >= p.longs {
      var c := sbn - p.longs;
      Distribute(p.long * p.longs, c * p.short, u);
    }
  }

  lemma Reorder(j: nat, k: nat, l: nat)
    ensures j * k * l == k * (j * l)
  {
    assert j * k * l == j * (k * l);
    assert k * (j * l) == (k * j) * l;
  }

  lemma OffsetIsPlace(p: Part, q: Part, sbn: nat, esi: nat, pos: nat)
    requires pos < Total(q) && sbn < Parts(p)
    ensures SymbolOffset(p, q, sbn, esi, pos) == Place(p, q, sbn, esi, pos)
  {
    hide SourceBlock, Size;
    SubDivisors(q, pos);
    SourceBlockStart(p, q, sbn);
    var k := Size(p, sbn);
    var b := Start(p, sbn) * Total(q);
    SizeAt(q, pos);
    if pos < q.long * q.longs {
      OffsetLong(q, k, pos);
    } else {
      OffsetShort(q, k, pos - q.long * q.longs);
    }
  }

  /** The next symbol of a block lies right behind: one sub-block's worth further on. */
  lemma NextSymbolPlace(p: Part, q: Part, sbn: nat, esi: nat, pos: nat)
    requires pos < Total(q) && sbn < Parts(p)
    ensures SymbolOffset(p, q, sbn, esi + 1, pos) == SymbolOffset(p, q, sbn, esi, pos) + Size(q, Find(q, pos))
  {
    hide SymbolOffset, Size, Start, Find, Total;
    OffsetIsPlace(p, q, sbn, esi, pos);
    OffsetIsPlace(p, q, sbn, esi + 1, pos);
    Distribute(esi, 1, Size(q, Find(q, pos)));
  }

  /** The next unit of a symbol in the same sub-block is the next unit of the file. */
  lemma NextUnitPlace(p: Part, q: Part, sbn: nat, esi: nat, pos: nat)
    requires pos + 1 < Total(q) && sbn < Parts(p) && Find(q, pos + 1) == Find(q, pos)
    ensures SymbolOffset(p, q, sbn, esi, pos + 1) == SymbolOffset(p, q, sbn, esi, pos) + 1
  {
    hide SymbolOffset, Size, Start, Find, Total;
    OffsetIsPlace(p, q, sbn, esi, pos);
    OffsetIsPlace(p, q, sbn, esi, pos + 1);
  }

  /** A sub-block starts behind all the symbols' units of the sub-blocks before it, and a block behind all blocks. */
  lemma FirstPlace(p: Part, q: Part, sbn: nat, j: nat)
    requires sbn < Parts(p) && j < Parts(q) && Size(q, j) > 0
    ensures Start(q, j) < Total(q)
    ensures SymbolOffset(p, q, sbn, 0, Start(q, j)) == Start(p, sbn) * Total(q) + Size(p, sbn) * Start(q, j)
  {
    hide SymbolOffset, Size, Start, Find, Total;
    FindStart(q, j, 0);
    OffsetIsPlace(p, q, sbn, 0, Start(q, j));
    assert 0 * Size(q, j) == 0;
  }

  lemma SizeAt(q: Part, pos: nat)
    requires pos < Total(q)
    ensures Size(q, Find(q, pos)) == if pos < q.long * q.longs then q.long else q.short
  {
    StartFind(q, pos);
    SubDivisors(q, pos);
    if pos >= q.long * q.longs {
      assert Find(q, pos) >= q.longs;
    } else {
      Quotient(pos, q.long, q.longs);
    }
  }

  lemma OffsetLong(q: Part, k: nat, pos: nat)
    requires pos < Total(q) && pos < q.long * q.longs && q.long > 0
    ensures (pos / q.long) * k * q.long + pos % q.long == k * Start(q, Find(q, pos)) + (pos - Start(q, Find(q, pos)))
  {
    var j := pos / q.long;
    Quotient(pos, q.long, q.longs);
    Reorder(j, k, q.long);
    assert pos == j * q.long + pos % q.long;
  }

  lemma OffsetShort(q: Part, k: nat, rest: nat)
    requires q.long * q.longs + rest < Total(q) && q.short > 0
    ensures var pos := q.long * q.longs + rest;
      q.long * q.longs * k + (rest / q.short) * k * q.short + rest % q.short
        == k * Start(q, Find(q, pos)) + (pos - Start(q, Find(q, pos)))
  {
    var j := rest / q.short;
    Reorder(j, k, q.short);
    Distribute(q.long * q.longs, j * q.short, k);
    assert rest == j * q.short + rest % q.short;
  }

  lemma InBlock(x: nat, u: nat, s: nat, k: nat)
    requires u > 0 && s <= x / u < s + k
    ensures k > 0 && s * u <= x && x - s * u < k * u && (x - s * u) / k < u
  {
    var q := x / u;
    assert x == q * u + x % u;
    MulOrder(s, q, u);
    MulOrder(q + 1, s + k, u);
    Distribute(q, 1, u);
    Distribute(s, k, u);
    assert k * u == u * k;
    Quotient(x - s * u, k, u);
  }

  lemma InSub(v: nat, k: nat, s: nat, z: nat)
    requires k > 0 && s <= v / k < s + z
    ensures z > 0 && k * s <= v && v - k * s < k * z && (v - k * s) / z < k
  {
    InBlock(v, k, s, z);
    assert k * s == s * k && k * z == z * k;
  }

  /** The block that a place in the file belongs to, and where in it. */
  function LocateBlock(p: Part, u: nat, x: nat): (r: (nat, nat))
    requires u > 0 && x < Total(p) * u
    ensures r.0 < Parts(p) && Size(p, r.0) > 0 && r.1 < Size(p, r.0) * u && x == Start(p, r.0) * u + r.1
  {
    Quotient(x, u, Total(p));
    StartFind(p, x / u);
    var b := Find(p, x / u);
    InBlock(x, u, Start(p, b), Size(p, b));
    (b, x - Start(p, b) * u)
  }

  /** The sub-block that offset v in a block of k symbols lies in, and the offset in it. */
  function SubOf(q: Part, k: nat, v: nat): (r: (nat, nat))
    requires k > 0 && v < k * Total(q)
    ensures Size(q, r.0) > 0 && r.0 < Parts(q) && v == k * Start(q, r.0) + r.1 && r.1 / Size(q, r.0) < k
  {
    hide Start, Size, Find, Total;
    assert k * Total(q) == Total(q) * k;
    Quotient(v, k, Total(q));
    StartFind(q, v / k);
    var j := Find(q, v / k);
    InSub(v, k, Start(q, j), Size(q, j));
    (j, v - k * Start(q, j))
  }

  /** The symbol of a block of k symbols that a place in it belongs to, and the unit in the symbol. */
  function LocateSymbol(q: Part, k: nat, v: nat): (r: (nat, nat))
    requires k > 0 && v < k * Total(q)
    ensures r.0 < k && r.1 < Total(q)
    ensures v == k * Start(q, Find(q, r.1)) + r.0 * Size(q, Find(q, r.1)) + (r.1 - Start(q, Find(q, r.1)))
  {
    hide Start, Size, Find, Total, SubOf;
    var s := SubOf(q, k, v);
    var w, z := s.1, Size(q, s.0);
    Recompose(w, z);
    FindStart(q, s.0, w % z);
    (w / z, Start(q, s.0) + w % z)
  }

  /** The block, symbol and unit that a place in the file belongs to. */
  function Locate(p: Part, q: Part, x: nat): (r: (nat, nat, nat))
    requires Total(q) > 0 && x < Total(p) * Total(q)
  {
    var b := LocateBlock(p, Total(q), x);
    var s := LocateSymbol(q, Size(p, b.0), b.1);
    (b.0, s.0, s.1)
  }

  /** Placing undoes locating: together, symbols and the units in them cover the padded file. */
  lemma PlaceLocate(p: Part, q: Part, x: nat)
    requires Total(q) > 0 && x < Total(p) * Total(q)
    ensures var r := Locate(p, q, x);
      r.0 < Parts(p) && r.1 < Size(p, r.0) && r.2 < Total(q) && SymbolOffset(p, q, r.0, r.1, r.2) == x
  {
    hide Start, Size, Find, SymbolOffset, LocateBlock, LocateSymbol, Total;
    var r := Locate(p, q, x);
    OffsetIsPlace(p, q, r.0, r.1, r.2);
  }

  /** Offset w into n stretches of length k from stretch s on lies in one of them. */
  lemma Stretch(s: nat, w: nat, n: nat, k: nat)
    requires k > 0 && w < n * k
    ensures s <= (s * k + w) / k < s + n && s * k + w < (s + n) * k
  {
    Quotient(w, k, n);
    assert w == (w / k) * k + w % k;
    Distribute(s, w / k, k);
    DivModUnique(s * k + w, k, s + w / k, w % k);
    Distribute(s, n, k);
  }

  lemma LocateSymbolPlace(q: Part, k: nat, esi: nat, pos: nat)
    requires esi < k && pos < Total(q)
    ensures var j := Find(q, pos);
      var v := k * Start(q, j) + esi * Size(q, j) + (pos - Start(q, j));
      0 <= v < k * Total(q) && LocateSymbol(q, k, v) == (esi, pos)
  {
    hide Start, Size, Find, Total;
    StartFind(q, pos);
    var j := Find(q, pos);
    var s, z := Start(q, j), Size(q, j);
    var r := pos - s;
    var w := esi * z + r;
    PlaceInSub(esi, k, z, r);
    assert k * z == z * k && k * s == s * k;
    Stretch(s, w, z, k);
    var v := k * s + w;
    FindStart(q, j, z - 1);
    MulOrder(s + z, Total(q), k);
    FindStart(q, j, v / k - s);
  }

  lemma LocateBlockPlace(p: Part, u: nat, b: nat, v: nat)
    requires u > 0 && b < Parts(p) && v < Size(p, b) * u
    ensures Start(p, b) * u + v < Total(p) * u && LocateBlock(p, u, Start(p, b) * u + v) == (b, v)
  {
    hide Start, Size, Find, Total;
    var s, k := Start(p, b), Size(p, b);
    Stretch(s, v, k, u);
    FindStart(p, b, k - 1);
    MulOrder(s + k, Total(p), u);
    FindStart(p, b, (s * u + v) / u - s);
  }

  /** Locating undoes placing: no two units of symbols share a place. */
  lemma LocatePlace(p: Part, q: Part, sbn: nat, esi: nat, pos: nat)
    requires sbn < Parts(p) && esi < Size(p, sbn) && pos < Total(q)
    ensures SymbolOffset(p, q, sbn, esi, pos) < Total(p) * Total(q)
    ensures Locate(p, q, SymbolOffset(p, q, sbn, esi, pos)) == (sbn, esi, pos)
  {
    hide Start, Size, Find, Total, SymbolOffset, LocateBlock, LocateSymbol;
    OffsetIsPlace(p, q, sbn, esi, pos);
    LocateSymbolPlace(q, Size(p, sbn), esi, pos);
    var j := Find(q, pos);
    LocateBlockPlace(p, Total(q), sbn, Size(p, sbn) * Start(q, j) + esi * Size(q, j) + (pos - Start(q, j)));
  }
}
