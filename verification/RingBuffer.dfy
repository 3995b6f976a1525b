/**
 The byte queue between the threads: a ring buffer with a full flag (ring_buffer_posix.c, lines
 30-121, 307-365 and 393-506).  A call holds the lock from its test to its signal, so each attempt is
 one step; an attempt that would wait is a step that does nothing.
 */
module Ring {
  import opened Primes
  import opened GF256
  import opened Linear
  import opened Transfer

  /** A position less than twice around, brought back into the buffer. */
  function Wrap(x: nat, max: nat): (r: nat)
    requires x < 2 * max
    ensures r < max
  {
    if x < max then x else x - max
  }

  /** The n bytes from place tail on, around the end. */
  function Window(b: Vec, tail: nat, n: nat): (w: Vec)
    requires tail < |b| && n <= |b|
    ensures |w| == n
  {
    seq(n, i requires 0 <= i < n => b[Wrap(tail + i, |b|)])
  }

  /** A window is its part before the end of the buffer and its part from the start on. */
  lemma WindowParts(b: Vec, tail: nat, n: nat)
    requires tail < |b| && n <= |b|
    ensures Window(b, tail, n) == if tail + n <= |b| then b[tail..tail + n] else b[tail..] + b[..n - (|b| - tail)]
  {
    var parts := if tail + n <= |b| then b[tail..tail + n] else b[tail..] + b[..n - (|b| - tail)];
    assert |parts| == n;
    forall i | 0 <= i < n ensures Window(b, tail, n)[i] == parts[i] {
      assert Window(b, tail, n)[i] == b[Wrap(tail + i, |b|)];
      if tail + i < |b| {
        assert parts[i] == b[tail + i];
      } else {
        assert parts[i] == b[tail + i - |b|];
      }
    }
  }

  lemma WindowSplit(b: Vec, tail: nat, n: nat, k: nat)
    requires tail < |b| && k <= n <= |b|
    ensures Window(b, tail, k) == Window(b, tail, n)[..k]
    ensures Window(b, Wrap(tail + k, |b|), n - k) == Window(b, tail, n)[k..]
  {
    var t := Wrap(tail + k, |b|);
    forall i | 0 <= i < n - k ensures Window(b, t, n - k)[i] == Window(b, tail, n)[k..][i] {
      assert Wrap(t + i, |b|) == Wrap(tail + (k + i), |b|);
    }
  }

  /** b' is b with data from place `at` on, around the end. */
  ghost predicate Laid(b: Vec, b': Vec, at: nat, data: Vec)
    requires at < |b| && |data| <= |b|
  {
    && |b'| == |b|
    && (forall j :: 0 <= j < |data| ==> b'[Wrap(at + j, |b|)] == data[j])
    && (forall x :: 0 <= x < |b| && !(at <= x < at + |data|) && !(at <= x + |b| < at + |data|) ==> b'[x] == b[x])
  }

  /** Laying data behind a window extends it. */
  lemma WindowExtends(b: Vec, b': Vec, tail: nat, n: nat, data: Vec)
    requires tail < |b| && n + |data| <= |b| && Laid(b, b', Wrap(tail + n, |b|), data)
    ensures Window(b', tail, n + |data|) == Window(b, tail, n) + data
  {
    var h := Wrap(tail + n, |b|);
    forall i | 0 <= i < n + |data| ensures Window(b', tail, n + |data|)[i] == (Window(b, tail, n) + data)[i] {
      if i < n {
        assert b'[Wrap(tail + i, |b|)] == b[Wrap(tail + i, |b|)];
      } else {
        assert Wrap(h + (i - n), |b|) == Wrap(tail + i, |b|);
      }
    }
  }

  lemma FirstByte(b: Vec, tail: nat, n: nat)
    requires tail < |b| && 0 < n <= |b|
    ensures Window(b, tail, n) == [b[tail]] + Window(b, tail, n)[1..]
  {
    assert Wrap(tail + 0, |b|) == tail;
  }

  class RingBuffer {
    const buffer: array<Octet>
    var head: nat
    var tail: nat
    var full: bool
    /** All bytes ever written and ever read. */
    ghost var written: Vec
    ghost var read: Vec

    ghost predicate Placed()
      reads this
    {
      buffer.Length > 0 && head < buffer.Length && tail < buffer.Length && (full ==> head == tail)
    }

    /** circular_buf_size_internal. */
    function Size(): (n: nat)
      requires Placed()
      reads this
      ensures n <= buffer.Length && Wrap(tail + n, buffer.Length) == head
      ensures n == buffer.Length <==> full
      ensures n == 0 <==> head == tail && !full
    {
      if full then buffer.Length else if head >= tail then head - tail else buffer.Length + head - tail
    }

    /** circular_buf_free_size_internal. */
    function FreeSize(): (n: nat)
      requires Placed()
      reads this
      ensures Size() + n == buffer.Length
    {
      if full then 0 else if head >= tail then buffer.Length - (head - tail) else tail - head
    }

    ghost function Contents(): (c: Vec)
      requires Placed()
      reads this, buffer
      ensures |c| == Size()
    {
      Window(buffer[..], tail, Size())
    }

    /** First in, first out: what has been read and what is held, in this order, is what has been written. */
    ghost predicate Valid()
      reads this, buffer
    {
      Placed() && written == read + Contents()
    }

    /** circular_buf_init. */
    constructor (buffer: array<Octet>)
      requires buffer.Length > 0
      ensures Valid() && this.buffer == buffer && Contents() == [] && written == [] && read == []
    {
      this.buffer := buffer;
      head, tail, full := 0, 0, false;
      written, read := [], [];
    }

    /** advance_pointer_n; a full buffer would lose its oldest bytes. */
    method Advance(len: nat)
      requires Placed() && 0 < len <= buffer.Length && (full || len <= FreeSize())
      modifies this`head, this`tail, this`full
      ensures Placed() && head == Wrap(old(head) + len, buffer.Length)
      ensures !old(full) ==> tail == old(tail) && Size() == old(Size()) + len
      ensures old(full) ==> tail == head && full
    {
      if full {
        ModBelowTwice(tail + len, buffer.Length);
        tail := (tail + len) % buffer.Length;
      }
      ModBelowTwice(head + len, buffer.Length);
      head := (head + len) % buffer.Length;
      full := head == tail;
    }

    /** retreat_pointer_n. */
    method Retreat(len: nat)
      requires Placed() && 0 < len <= Size()
      modifies this`tail, this`full
      ensures Placed() && head == old(head) && tail == Wrap(old(tail) + len, buffer.Length)
      ensures Size() == old(Size()) - len
    {
      full := false;
      ModBelowTwice(tail + len, buffer.Length);
      tail := (tail + len) % buffer.Length;
    }

    /** One attempt of write_buffer: all of data, or nothing while there is too little room. */
    method Write(data: Vec) returns (ok: bool)
      requires Valid() && 0 < |data|
      modifies this, buffer
      ensures Valid() && ok == (old(FreeSize()) >= |data|)
      ensures Contents() == if ok then old(Contents()) + data else old(Contents())
      ensures written == (if ok then old(written) + data else old(written)) && read == old(read)
    {
      hide Window, Laid;
      var len := |data|;
      if FreeSize() < len {
        return false;
      }
      ghost var b, n := buffer[..], Size();
      Lay(buffer, head, data);
      WindowExtends(b, buffer[..], tail, n, data);
      Advance(len);
      written := written + data;
      ok := true;
    }

    /** One attempt of read_buffer: the oldest len bytes, or nothing while there are fewer. */
    method Read(len: nat) returns (ok: bool, data: Vec)
      requires Valid() && 0 < len
      modifies this
      ensures Valid() && ok == (old(Size()) >= len)
      ensures ok ==> data == old(Contents())[..len] && Contents() == old(Contents())[len..]
      ensures !ok ==> data == [] && Contents() == old(Contents())
      ensures written == old(written) && read == old(read) + data
    {
      hide Window;
      if Size() < len {
        return false, [];
      }
      ghost var n := Size();
      data := Fetch(buffer, tail, len);
      WindowSplit(buffer[..], tail, n, len);
      Retreat(len);
      read := read + data;
      ok := true;
    }

    /** One attempt of read_buffer_all: everything held, or nothing while it is empty. */
    method ReadAll() returns (ok: bool, data: Vec)
      requires Valid()
      modifies this
      ensures Valid() && ok == (old(Size()) > 0)
      ensures data == old(Contents()) && Contents() == []
      ensures written == old(written) && read == old(read) + data
    {
      var len := Size();
      if len == 0 {
        return false, [];
      }
      ok, data := Read(len);
    }

    /** One attempt of circular_buf_put. */
    method Put(x: Octet) returns (ok: bool)
      requires Valid()
      modifies this, buffer
      ensures Valid() && ok == !old(full)
      ensures Contents() == if ok then old(Contents()) + [x] else old(Contents())
      ensures written == (if ok then old(written) + [x] else old(written)) && read == old(read)
    {
      if full {
        return false;
      }
      ghost var b, n := buffer[..], Size();
      buffer[head] := x;
      WindowExtends(b, buffer[..], tail, n, [x]);
      Advance(1);
      written := written + [x];
      ok := true;
    }

    /** One attempt of circular_buf_get. */
    method Get() returns (ok: bool, x: Octet)
      requires Valid()
      modifies this
      ensures Valid() && ok == (old(Size()) > 0)
      ensures ok ==> old(Contents()) == [x] + Contents() && read == old(read) + [x]
      ensures !ok ==> Contents() == old(Contents()) && read == old(read)
      ensures written == old(written)
    {
      hide Window;
      if !full && head == tail {
        return false, 0;
      }
      ghost var c, n := Contents(), Size();
      x := buffer[tail];
      FirstByte(buffer[..], tail, n);
      WindowSplit(buffer[..], tail, n, 1);
      Retreat(1);
      assert Contents() == c[1..];
      read := read + [x];
      ok := true;
    }
  }

  /** The two copies of write_buffer. */
  method Lay(buffer: array<Octet>, at: nat, data: Vec)
    requires at < buffer.Length && 0 < |data| <= buffer.Length
    modifies buffer
    ensures Laid(old(buffer[..]), buffer[..], at, data)
  {
    var size, len := buffer.Length, |data|;
    if (at + len) % size > at {
      Straight(at, len, size);
      WriteBytes(buffer, at, data, 0, len);
    } else {
      Around(at, len, size);
      WriteBytes(buffer, at, data, 0, size - at);
      WriteBytes(buffer, 0, data, size - at, len - (size - at));
    }
  }

  /** The two copies of read_buffer. */
  method Fetch(buffer: array<Octet>, at: nat, len: nat) returns (data: Vec)
    requires at < buffer.Length && 0 < len <= buffer.Length
    ensures data == Window(buffer[..], at, len)
  {
    var size := buffer.Length;
    WindowParts(buffer[..], at, len);
    if (at + len) % size > at {
      Straight(at, len, size);
      data := buffer[at..at + len];
    } else {
      Around(at, len, size);
      data := buffer[at..] + buffer[..len - (size - at)];
    }
  }

  /** The test of the source for a run that does not reach the end of the buffer. */
  lemma Straight(at: nat, len: nat, size: nat)
    requires at < size && 0 < len <= size && (at + len) % size > at
    ensures at + len < size
  {
    ModBelowTwice(at + len, size);
  }

  lemma Around(at: nat, len: nat, size: nat)
    requires at < size && 0 < len <= size && (at + len) % size <= at
    ensures at + len >= size && 0 <= len - (size - at) <= at
  {
    ModBelowTwice(at + len, size);
  }
}
