/**
 KISS framing over a byte stream cut into arbitrary pieces (kiss.c, lines 16-93; tcp_interface.c,
 lines 133-196).
 */
module Kiss {
  import opened GF256

  const FEND: Octet := 0xC0
  const FESC: Octet := 0xDB
  const TFEND: Octet := 0xDC
  const TFESC: Octet := 0xDD
  const CMD_UNKNOWN: Octet := 0xFE
  const CMD_DATA: Octet := 0x02
  const MAX_PAYLOAD: nat := 756

  type Bytes = seq<Octet>

  // ---------- encoding ----------

  function Escaped(b: Octet): Bytes {
    if b == FEND then [FESC, TFEND] else if b == FESC then [FESC, TFESC] else [b]
  }

  function EscapedAll(data: Bytes): (r: Bytes)
    ensures |data| <= |r| <= 2 * |data|
    ensures forall k :: 0 <= k < |r| ==> r[k] != FEND
  {
    if data == [] then [] else EscapedAll(data[..|data| - 1]) + Escaped(data[|data| - 1])
  }

  /** On the wire: 0xC0 becomes 0xDB 0xDC, 0xDB becomes 0xDB 0xDD, and every other byte stays. */
  lemma EscapedBytes(a: Bytes, b: Octet)
    ensures EscapedAll([]) == []
    ensures EscapedAll(a + [b]) ==
      EscapedAll(a) + (if b == 0xC0 then [0xDB, 0xDC] else if b == 0xDB then [0xDB, 0xDD] else [b])
    ensures Encode(a) == [0xC0, 0x02] + EscapedAll(a) + [0xC0]
  {
    assert (a + [b])[..|a|] == a;
  }

  /** A data frame on the wire. */
  function Encode(data: Bytes): (r: Bytes)
    ensures |r| <= 2 * |data| + 3
  {
    [FEND, CMD_DATA] + EscapedAll(data) + [FEND]
  }

  lemma EscapedNext(data: Bytes, i: nat)
    requires i < |data|
    ensures EscapedAll(data[..i + 1]) == EscapedAll(data[..i]) + Escaped(data[i])
    ensures |EscapedAll(data[..i + 1])| <= 2 * |data|
  {
    assert data[..i + 1][..i] == data[..i];
  }

  /** One byte of the payload, escaped if need be. */
  method WriteByte(byte: Octet, out: array<Octet>, len: nat) returns (writeLen: nat)
    requires len + 2 <= out.Length
    modifies out
    ensures writeLen <= out.Length && out[..writeLen] == old(out[..len]) + Escaped(byte)
  {
    writeLen := len;
    if byte == FEND {
      out[writeLen], out[writeLen + 1] := FESC, TFEND;
      writeLen := writeLen + 2;
    } else if byte == FESC {
      out[writeLen], out[writeLen + 1] := FESC, TFESC;
      writeLen := writeLen + 2;
    } else {
      out[writeLen] := byte;
      writeLen := writeLen + 1;
    }
  }

  /** kiss_write_frame. */
  method WriteFrame(data: Bytes, out: array<Octet>) returns (writeLen: nat)
    requires out.Length >= 2 * |data| + 3
    modifies out
    ensures writeLen <= 2 * |data| + 3 && out[..writeLen] == Encode(data)
  {
    hide EscapedAll, Escaped;
    out[0], out[1] := FEND, CMD_DATA;
    writeLen := 2;
    assert EscapedAll(data[..0]) == [] by { EscapedNone(data); }
    for i := 0 to |data|
      invariant 2 <= writeLen <= 2 * i + 2 && out[..writeLen] == [FEND, CMD_DATA] + EscapedAll(data[..i])
    {
      EscapedNext(data, i);
      writeLen := WriteByte(data[i], out, writeLen);
    }
    assert data[..|data|] == data;
    out[writeLen] := FEND;
    writeLen := writeLen + 1;
  }

  lemma EscapedNone(data: Bytes)
    ensures EscapedAll(data[..0]) == []
  {}

  // ---------- decoding ----------

  /** The framer's state: inside a frame or not, escape seen, command, bytes of the frame so far. */
  datatype State = State(inFrame: bool, escape: bool, command: Octet, frame: Bytes)

  const START := State(false, false, CMD_UNKNOWN, [])

  function Unescaped(b: Octet, escape: bool): Octet {
    if escape && b == TFEND then FEND else if escape && b == TFESC then FESC else b
  }

  /** One byte. */
  function Step(s: State, b: Octet): (r: State)
    ensures |s.frame| <= MAX_PAYLOAD ==> |r.frame| <= MAX_PAYLOAD
  {
    if s.inFrame && b == FEND && s.command == CMD_DATA then s.(inFrame := false)
    else if b == FEND then State(true, s.escape, CMD_UNKNOWN, [])
    else if s.inFrame && |s.frame| < MAX_PAYLOAD then
      if s.frame == [] && s.command == CMD_UNKNOWN then s.(command := b % 16)
      else if s.command == CMD_DATA then
        if b == FESC then s.(escape := true)
        else s.(escape := false, frame := s.frame + [Unescaped(b, s.escape)])
      else s
    else s
  }

  /** The frame, if any, that this byte completes; a frame without bytes is none. */
  function Done(s: State, b: Octet): seq<Bytes> {
    if s.inFrame && b == FEND && s.command == CMD_DATA && s.frame != [] then [s.frame] else []
  }

  function Run(s: State, bytes: Bytes): State {
    if bytes == [] then s else Step(Run(s, bytes[..|bytes| - 1]), bytes[|bytes| - 1])
  }

  /** The frames completed by a stretch of bytes. */
  function Frames(s: State, bytes: Bytes): seq<Bytes> {
    if bytes == [] then []
    else Frames(s, bytes[..|bytes| - 1]) + Done(Run(s, bytes[..|bytes| - 1]), bytes[|bytes| - 1])
  }

  /** The cut of the stream does not matter. */
  lemma {:induction false} RunSplit(s: State, a: Bytes, b: Bytes)
    ensures Run(s, a + b) == Run(Run(s, a), b) && Frames(s, a + b) == Frames(s, a) + Frames(Run(s, a), b)
    decreases |b|
  {
    hide Step, Done;
    if b == [] {
      assert a + b == a;
    } else {
      var b' := b[..|b| - 1];
      RunSplit(s, a, b');
      assert (a + b)[..|a + b| - 1] == a + b';
    }
  }

  lemma RunOne(s: State, b: Octet)
    ensures Run(s, [b]) == Step(s, b) && Frames(s, [b]) == Done(s, b)
  {
    assert [b][..0] == [];
  }

  // ---------- round trip ----------

  /** Between frames: outside any, or after a frame start without a command. */
  ghost predicate Idle(s: State) {
    !s.escape && (s.inFrame ==> s.command == CMD_UNKNOWN && s.frame == [])
  }

  lemma RunTwo(s: State, a: Octet, b: Octet)
    ensures Run(s, [a, b]) == Step(Step(s, a), b) && Frames(s, [a, b]) == Done(s, a) + Done(Step(s, a), b)
  {
    hide Step, Done, Run, Frames;
    RunOne(s, a);
    RunOne(Step(s, a), b);
    RunSplit(s, [a], [b]);
    assert [a] + [b] == [a, b];
  }

  lemma OneEscaped(s: State, b: Octet)
    requires s.inFrame && !s.escape && s.command == CMD_DATA && |s.frame| < MAX_PAYLOAD
    ensures Run(s, Escaped(b)) == s.(frame := s.frame + [b]) && Frames(s, Escaped(b)) == []
  {
    hide Run, Frames;
    if b == FEND {
      RunTwo(s, FESC, TFEND);
    } else if b == FESC {
      RunTwo(s, FESC, TFESC);
    } else {
      RunOne(s, b);
    }
  }

  lemma {:induction false} BodyDecoded(s: State, data: Bytes)
    requires s.inFrame && !s.escape && s.command == CMD_DATA && |s.frame| + |data| <= MAX_PAYLOAD
    ensures Run(s, EscapedAll(data)) == s.(frame := s.frame + data) && Frames(s, EscapedAll(data)) == []
  {
    hide Step, Done, Escaped;
    if data == [] {
      assert s.frame + data == s.frame;
    } else {
      var init, b := data[..|data| - 1], data[|data| - 1];
      BodyDecoded(s, init);
      OneEscaped(s.(frame := s.frame + init), b);
      RunSplit(s, EscapedAll(init), Escaped(b));
      assert s.frame + init + [b] == s.frame + data;
    }
  }

  /** Once 756 bytes have been collected, the rest of the frame is ignored. */
  lemma {:induction false} RestIgnored(s: State, bytes: Bytes)
    requires s.inFrame && s.command == CMD_DATA && |s.frame| == MAX_PAYLOAD
    requires forall k :: 0 <= k < |bytes| ==> bytes[k] != FEND
    ensures Run(s, bytes) == s && Frames(s, bytes) == []
  {
    if bytes != [] {
      RestIgnored(s, bytes[..|bytes| - 1]);
    }
  }

  lemma {:induction false} EscapedSplit(a: Bytes, b: Bytes)
    ensures EscapedAll(a + b) == EscapedAll(a) + EscapedAll(b)
    decreases |b|
  {
    hide Escaped;
    if b == [] {
      assert a + b == a;
    } else {
      EscapedSplit(a, b[..|b| - 1]);
      assert (a + b)[..|a + b| - 1] == a + b[..|b| - 1];
    }
  }

  /** As much of a frame as the framer keeps. */
  function Kept(data: Bytes): (r: Bytes)
    ensures |r| <= MAX_PAYLOAD
  {
    if |data| <= MAX_PAYLOAD then data else data[..MAX_PAYLOAD]
  }

  lemma PayloadDecoded(s: State, data: Bytes)
    requires s.inFrame && !s.escape && s.command == CMD_DATA && |s.frame| <= MAX_PAYLOAD
    ensures Run(s, EscapedAll(data)) == s.(frame := Kept(s.frame + data)) && Frames(s, EscapedAll(data)) == []
  {
    hide Run, Frames, EscapedAll;
    var n := MAX_PAYLOAD - |s.frame|;
    if |data| <= n {
      BodyDecoded(s, data);
    } else {
      var rest := data[n..];
      BodyDecoded(s, data[..n]);
      assert s.frame + data[..n] == Kept(s.frame + data);
      RestIgnored(s.(frame := Kept(s.frame + data)), EscapedAll(rest));
      EscapedSplit(data[..n], rest);
      RunSplit(s, EscapedAll(data[..n]), EscapedAll(rest));
      assert data[..n] + rest == data;
    }
  }

  /** What the framer makes of a frame: nothing of an empty one, the first 756 bytes of a longer one. */
  function Delivered(data: Bytes): seq<Bytes> {
    if data == [] then [] else [Kept(data)]
  }

  /** A frame comes out, up to its first 756 bytes, and the framer is between frames again. */
  lemma FrameDecoded(s: State, data: Bytes)
    requires Idle(s)
    ensures Frames(s, Encode(data)) == Delivered(data) && Idle(Run(s, Encode(data)))
  {
    hide EscapedAll, Run, Frames;
    DataDecoded(s, CMD_DATA, data);
  }

  /** So it does with any port number in the high half of the command byte. */
  lemma DataDecoded(s: State, c: Octet, data: Bytes)
    requires Idle(s) && c % 16 == 2
    ensures var wire := [FEND, c] + EscapedAll(data) + [FEND]; Frames(s, wire) == Delivered(data) && Idle(Run(s, wire))
  {
    hide EscapedAll, Run, Frames;
    RunTwo(s, FEND, c);
    var s2 := Step(Step(s, FEND), c);
    PayloadDecoded(s2, data);
    assert [] + data == data;
    var head, body := [FEND, c], EscapedAll(data);
    RunSplit(s, head, body);
    var s3 := s2.(frame := Kept(data));
    RunOne(s3, FEND);
    RunSplit(s, head + body, [FEND]);
  }

  /** Of a frame longer than 756 bytes, the first 756 come out. */
  lemma LongFrameCut(s: State, data: Bytes)
    requires Idle(s) && |data| >= 756
    ensures Frames(s, Encode(data)) == [data[..756]]
  {
    hide Frames, Encode, Idle, Run;
    FrameDecoded(s, data);
    assert |data| == 756 ==> data[..756] == data;
  }

  // ---------- other commands and stale escapes ----------

  /** A frame of another command is not delivered, and the framer is between frames again. */
  lemma OtherIgnored(s: State, c: Octet, body: Bytes)
    requires Idle(s) && c != FEND && c % 16 != 2 && forall k :: 0 <= k < |body| ==> body[k] != FEND
    ensures Frames(s, [FEND, c] + body + [FEND]) == [] && Idle(Run(s, [FEND, c] + body + [FEND]))
  {
    hide Run, Frames;
    RunTwo(s, FEND, c);
    var s2 := Step(Step(s, FEND), c);
    assert s2.inFrame && !s2.escape && s2.command == c % 16 && s2.frame == [];
    OtherBody(s2, body);
    RunOne(s2, FEND);
    RunSplit(s, [FEND, c], body);
    RunSplit(s, [FEND, c] + body, [FEND]);
  }

  lemma {:induction false} OtherBody(s: State, body: Bytes)
    requires s.inFrame && s.command < 16 && s.command != 2 && s.frame == []
    requires forall k :: 0 <= k < |body| ==> body[k] != FEND
    ensures Run(s, body) == s && Frames(s, body) == []
  {
    if body != [] {
      OtherBody(s, body[..|body| - 1]);
    }
  }

  /**
   An escape at the very end of a frame is remembered.  It changes the next frame if and only if that begins with one
   of the two bytes that stand for escaped ones, and is forgotten with the first byte.
   */
  lemma StaleEscape(s: State, data: Bytes)
    requires s.escape && (s.inFrame ==> s.command == CMD_UNKNOWN && s.frame == []) && data != []
    ensures Frames(s, Encode(data)) == [Kept([Unescaped(data[0], true)] + data[1..])] && Idle(Run(s, Encode(data)))
    ensures Frames(s, Encode(data)) == Delivered(data) <==> data[0] != TFEND && data[0] != TFESC
  {
    hide EscapedAll, Run, Frames;
    RunTwo(s, FEND, CMD_DATA);
    var s2 := Step(Step(s, FEND), CMD_DATA);
    var b, rest, head := data[0], data[1..], [FEND, CMD_DATA];
    FirstStale(s2, b);
    var s3 := State(true, false, CMD_DATA, [Unescaped(b, true)]);
    PayloadDecoded(s3, rest);
    assert data == [b] + rest;
    EscapedSplit([b], rest);
    EscapedOne(b);
    RunSplit(s2, Escaped(b), EscapedAll(rest));
    RunSplit(s, head, EscapedAll(data));
    RunOne(s3.(frame := Kept([Unescaped(b, true)] + rest)), FEND);
    RunSplit(s, head + EscapedAll(data), [FEND]);
    assert Encode(data) == head + EscapedAll(data) + [FEND];
    assert Kept([Unescaped(b, true)] + rest)[0] == Unescaped(b, true) && Kept(data)[0] == b;
  }

  lemma EscapedOne(b: Octet)
    ensures EscapedAll([b]) == Escaped(b)
  {
    assert [b][..0] == [];
    assert [] + Escaped(b) == Escaped(b);
  }

  lemma FirstStale(s: State, b: Octet)
    requires s.inFrame && s.escape && s.command == CMD_DATA && s.frame == []
    ensures Run(s, Escaped(b)) == State(true, false, CMD_DATA, [Unescaped(b, true)]) && Frames(s, Escaped(b)) == []
  {
    hide Run, Frames;
    if b == FEND {
      RunTwo(s, FESC, TFEND);
    } else if b == FESC {
      RunTwo(s, FESC, TFESC);
    } else {
      RunOne(s, b);
    }
  }

  /** What is on the wire: frames of data, and frames of other commands. */
  datatype Item = DataFrame(command: Octet, data: Bytes) | OtherFrame(command: Octet, body: Bytes)

  /** The low half of the command byte says which; a frame of another command has no delimiter inside it. */
  predicate Proper(x: Item) {
    match x
    case DataFrame(command, _) => command % 16 == 2
    case OtherFrame(command, body) =>
      command != FEND && command % 16 != 2 && forall k :: 0 <= k < |body| ==> body[k] != FEND
  }

  predicate AllProper(items: seq<Item>) {
    forall k :: 0 <= k < |items| ==> Proper(items[k])
  }

  function ItemBytes(x: Item): Bytes {
    match x
    case DataFrame(command, data) => [FEND, command] + EscapedAll(data) + [FEND]
    case OtherFrame(command, body) => [FEND, command] + body + [FEND]
  }

  function Wire(items: seq<Item>): Bytes {
    if items == [] then [] else Wire(items[..|items| - 1]) + ItemBytes(items[|items| - 1])
  }

  /** The data frames among the items, in order. */
  function DataIn(items: seq<Item>): seq<Bytes> {
    if items == [] then []
    else
      var x := items[|items| - 1];
      DataIn(items[..|items| - 1]) + if x.DataFrame? then [x.data] else []
  }

  lemma ItemDecoded(s: State, x: Item)
    requires Idle(s) && Proper(x)
    ensures Frames(s, ItemBytes(x)) == (if x.DataFrame? then Delivered(x.data) else []) && Idle(Run(s, ItemBytes(x)))
  {
    hide Run, Frames, EscapedAll, Delivered, Idle;
    match x
    case DataFrame(command, data) => DataDecoded(s, command, data);
    case OtherFrame(command, body) => OtherIgnored(s, command, body);
  }

  /** Of any sequence of frames, those of data come out, in order, and no others. */
  lemma {:induction false} WireDecoded(s: State, items: seq<Item>)
    requires Idle(s) && AllProper(items)
    ensures Frames(s, Wire(items)) == AllDelivered(DataIn(items)) && Idle(Run(s, Wire(items)))
    decreases |items|
  {
    hide Run, Frames, Idle, ItemBytes, Proper;
    if items == [] {
      RunNothing(s);
    } else {
      var init, last := items[..|items| - 1], items[|items| - 1];
      WireDecoded(s, init);
      ItemDecoded(Run(s, Wire(init)), last);
      RunSplit(s, Wire(init), ItemBytes(last));
      DeliveredNext(DataIn(init), last);
    }
  }

  lemma DeliveredNext(frames: seq<Bytes>, x: Item)
    ensures AllDelivered(frames + (if x.DataFrame? then [x.data] else [])) ==
      AllDelivered(frames) + (if x.DataFrame? then Delivered(x.data) else [])
  {
    if x.DataFrame? {
      assert (frames + [x.data])[..|frames|] == frames;
    } else {
      assert frames + [] == frames;
    }
  }

  function AllDelivered(frames: seq<Bytes>): seq<Bytes> {
    if frames == [] then [] else AllDelivered(frames[..|frames| - 1]) + Delivered(frames[|frames| - 1])
  }

  /** Frames of 1 to 756 bytes. */
  predicate Fitting(frames: seq<Bytes>) {
    forall k :: 0 <= k < |frames| ==> 1 <= |frames[k]| <= MAX_PAYLOAD
  }

  /** They are delivered as they are. */
  lemma {:induction false} DeliveredWhole(frames: seq<Bytes>)
    requires Fitting(frames)
    ensures AllDelivered(frames) == frames
  {
    if frames != [] {
      DeliveredWhole(frames[..|frames| - 1]);
    }
  }

  lemma RunNothing(s: State)
    ensures Run(s, []) == s && Frames(s, []) == []
  {}

  lemma {:induction false} Skipped(bytes: Bytes)
    requires forall k :: 0 <= k < |bytes| ==> bytes[k] != FEND
    ensures Run(START, bytes) == START && Frames(START, bytes) == []
  {
    if bytes != [] {
      Skipped(bytes[..|bytes| - 1]);
    }
  }

  /** A receiver that joins in the middle of a frame loses that frame and no other. */
  lemma JoinedLate(joined: Bytes, k: nat, items: seq<Item>)
    requires 0 < k <= |Encode(joined)| && AllProper(items)
    ensures Frames(START, Encode(joined)[k..] + Wire(items)) == AllDelivered(DataIn(items))
  {
    hide Run, Frames, Wire, EscapedAll, AllDelivered, AllProper, DataIn;
    var rest := Encode(joined)[k..];
    if rest == [] {
      assert rest + Wire(items) == Wire(items);
      WireDecoded(START, items);
    } else {
      var body := rest[..|rest| - 1];
      forall i | 0 <= i < |body| ensures body[i] != FEND {
        assert body[i] == ([FEND, CMD_DATA] + EscapedAll(joined))[k + i];
      }
      Skipped(body);
      RunOne(START, FEND);
      RunSplit(START, body, [FEND]);
      assert rest == body + [FEND];
      WireDecoded(Run(START, rest), items);
      RunSplit(START, rest, Wire(items));
    }
  }

  // ---------- the framer in place ----------

  class Framer {
    var frameLen: nat
    var inFrame: bool
    var escape: bool
    var command: Octet

    /** The state, with the bytes collected in the frame buffer. */
    ghost function View(buf: array<Octet>): State
      requires frameLen <= buf.Length
      reads this, buf
    {
      State(inFrame, escape, command, buf[..frameLen])
    }

    ghost predicate Valid(buf: array<Octet>)
      reads this
    {
      buf.Length >= MAX_PAYLOAD && frameLen <= MAX_PAYLOAD
    }

    /** kiss_init. */
    constructor (ghost buf: array<Octet>)
      requires buf.Length >= MAX_PAYLOAD
      ensures Valid(buf) && View(buf) == START
    {
      frameLen, inFrame, escape, command := 0, false, false, CMD_UNKNOWN;
    }

    /** kiss_read: the length of the frame this byte completes, or 0. */
    method Read(b: Octet, buf: array<Octet>) returns (n: nat)
      requires Valid(buf)
      modifies this, buf
      ensures Valid(buf) && View(buf) == Step(old(View(buf)), b)
      ensures Done(old(View(buf)), b) == if n > 0 then [buf[..frameLen]] else []
      ensures n > 0 ==> n == frameLen
    {
      if inFrame && b == FEND && command == CMD_DATA {
        inFrame := false;
        return frameLen;
      }
      if b == FEND {
        inFrame, command, frameLen := true, CMD_UNKNOWN, 0;
        return 0;
      }
      if inFrame && frameLen < MAX_PAYLOAD {
        if frameLen == 0 && command == CMD_UNKNOWN {
          command := b % 16;
          return 0;
        }
        if command == CMD_DATA {
          if b == FESC {
            escape := true;
            return 0;
          }
          var byte := b;
          if escape {
            if byte == TFEND {
              byte := FEND;
            }
            if byte == TFESC {
              byte := FESC;
            }
            escape := false;
          }
          if frameLen < MAX_PAYLOAD {
            buf[frameLen] := byte;
            frameLen := frameLen + 1;
          }
        }
      }
      return 0;
    }
  }

  // ---------- receiving from a socket ----------

  /** What a read of the socket returns: bytes, none if the connection is closed; nothing for now; or an error. */
  datatype Reading = Data(bytes: Bytes) | WouldBlock | Failure

  /** A connection as a list of what successive reads will return; after that there is nothing for now. */
  class Socket {
    var connected: bool
    var incoming: seq<Reading>

    constructor (incoming: seq<Reading>)
      ensures connected && this.incoming == incoming
    {
      connected := true;
      this.incoming := incoming;
    }
  }

  /** All bytes up to the end of the connection. */
  function Stream(incoming: seq<Reading>): Bytes {
    if incoming == [] then []
    else match incoming[0]
      case Data(bytes) => if bytes == [] then [] else bytes + Stream(incoming[1..])
      case WouldBlock => Stream(incoming[1..])
      case Failure => []
  }

  class Receiver {
    const framer: Framer
    /** Bytes left over from an earlier read: recv_partial_buffer and recv_partial_len. */
    var partial: Bytes

    ghost predicate Valid(buf: array<Octet>)
      reads this, framer
    {
      framer.Valid(buf)
    }

    /** The frames still to come, from the bytes left over and from the connection. */
    ghost function ToCome(buf: array<Octet>, sock: Socket): seq<Bytes>
      requires Valid(buf)
      reads this, framer, buf, sock
    {
      Frames(framer.View(buf), partial + if sock.connected then Stream(sock.incoming) else [])
    }

    constructor (buf: array<Octet>)
      requires buf.Length >= MAX_PAYLOAD
      ensures Valid(buf) && framer.View(buf) == START && partial == [] && fresh(framer)
    {
      framer := new Framer(buf);
      partial := [];
    }

    /** The framer is fed until a frame is complete; the bytes after it are returned. */
    method Feed(bytes: Bytes, buf: array<Octet>) returns (n: nat, rest: Bytes)
      requires Valid(buf)
      modifies framer, buf
      ensures Valid(buf) && (n == 0 ==> rest == []) && |rest| <= |bytes|
      ensures n > 0 ==> n == framer.frameLen && |rest| < |bytes|
      ensures framer.View(buf) == Run(old(framer.View(buf)), bytes[..|bytes| - |rest|])
      ensures Frames(old(framer.View(buf)), bytes[..|bytes| - |rest|]) == if n > 0 then [buf[..n]] else []
      ensures rest == bytes[|bytes| - |rest|..]
    {
      hide Step, Done, Run, Frames;
      ghost var s := framer.View(buf);
      assert bytes[..0] == [];
      RunNothing(s);
      for i := 0 to |bytes|
        invariant Valid(buf) && framer.View(buf) == Run(s, bytes[..i]) && Frames(s, bytes[..i]) == []
      {
        RunSplit(s, bytes[..i], [bytes[i]]);
        RunOne(Run(s, bytes[..i]), bytes[i]);
        assert bytes[..i] + [bytes[i]] == bytes[..i + 1];
        n := framer.Read(bytes[i], buf);
        if n > 0 {
          rest := bytes[i + 1..];
          return;
        }
      }
      assert bytes[..|bytes|] == bytes;
      return 0, [];
    }

    /**
     tcp_interface_recv_kiss, called with the same frame buffer throughout.  A positive result is the
     next frame of the stream, whatever pieces it came in; zero loses nothing.  A negative one means the
     connection is closed or has failed, and no frame is left to come unless it was closed before.
     */
    method RecvKiss(sock: Socket, buf: array<Octet>) returns (n: int)
      requires Valid(buf)
      modifies this`partial, framer, buf, sock
      ensures Valid(buf)
      ensures n > 0 ==> n <= MAX_PAYLOAD && old(ToCome(buf, sock)) == [buf[..n]] + ToCome(buf, sock)
      ensures n <= 0 ==> old(ToCome(buf, sock)) == ToCome(buf, sock)
      ensures n < 0 ==> !sock.connected && (old(sock.connected) ==> ToCome(buf, sock) == [])
      ensures n >= 0 ==> sock.connected && old(sock.connected)
      ensures n == 0 ==>
        partial == [] && sock.incoming == if old(sock.incoming) == [] then [] else old(sock.incoming)[1..]
    {
      hide Step, Done, Run, Frames;
      if !sock.connected {
        return -1;
      }
      ghost var s, stream := framer.View(buf), Stream(sock.incoming);
      ghost var before := partial;
      var rest;
      n, rest := Feed(partial, buf);
      partial := rest;
      FeedFrames(s, before, rest, stream, if n > 0 then [buf[..n]] else []);
      if n > 0 {
        return;
      }
      if sock.incoming == [] {
        return 0;
      }
      var reading := sock.incoming[0];
      sock.incoming := sock.incoming[1..];
      assert [] + stream == stream;
      RunNothing(framer.View(buf));
      match reading {
        case WouldBlock =>
          return 0;
        case Failure =>
          sock.connected := false;
          return -1;
        case Data(received) =>
          if received == [] {
            sock.connected := false;
            return -1;
          }
          ghost var s1 := framer.View(buf);
          n, rest := Feed(received, buf);
          partial := rest;
          FeedFrames(s1, received, rest, Stream(sock.incoming), if n > 0 then [buf[..n]] else []);
      }
    }

    /**
     The receiving thread's calls, up to the end of the connection or until nothing more will come: they return
     the frames of the stream in order; if the stream is that of frames sent, those of data, whatever frames of other
     commands are between them, and exactly as they were if all have 1 to 756 bytes.
     */
    method ReceiveAll(sock: Socket, buf: array<Octet>, ghost sent: seq<Item>) returns (frames: seq<Bytes>)
      requires Valid(buf) && sock.connected
      modifies this`partial, framer, buf, sock
      ensures Valid(buf) && frames == old(ToCome(buf, sock)) && ToCome(buf, sock) == []
      ensures old(partial) == [] && Idle(old(framer.View(buf))) && Stream(old(sock.incoming)) == Wire(sent) ==>
        (AllProper(sent) ==> frames == AllDelivered(DataIn(sent)))
      ensures old(partial) == [] && Idle(old(framer.View(buf))) && Stream(old(sock.incoming)) == Wire(sent) ==>
        (AllProper(sent) && Fitting(DataIn(sent)) ==> frames == DataIn(sent))
    {
      hide Step, Done, Run, Frames, Wire, AllDelivered, Idle, Stream, DataIn, AllProper, Fitting;
      ghost var s, stream, due := framer.View(buf), Stream(sock.incoming), ToCome(buf, sock);
      if partial == [] && Idle(s) && stream == Wire(sent) && AllProper(sent) {
        WireDecoded(s, sent);
        assert [] + stream == stream;
        if Fitting(DataIn(sent)) {
          DeliveredWhole(DataIn(sent));
        }
      }
      frames := [];
      while true
        invariant Valid(buf) && sock.connected && due == frames + ToCome(buf, sock)
        decreases |ToCome(buf, sock)|, |sock.incoming|
      {
        var n := RecvKiss(sock, buf);
        if n < 0 {
          return;
        }
        if n > 0 {
          frames := frames + [buf[..n]];
        } else if sock.incoming == [] {
          NothingToCome(framer.View(buf));
          return;
        }
      }
    }
  }

  lemma NothingToCome(s: State)
    ensures Frames(s, [] + Stream([])) == []
  {
    assert [] + Stream([]) == [];
  }

  /** After part of a stretch of bytes has been fed, the frames to come are those of the rest. */
  lemma FeedFrames(s: State, bytes: Bytes, rest: Bytes, more: Bytes, out: seq<Bytes>)
    requires |rest| <= |bytes| && rest == bytes[|bytes| - |rest|..]
    requires Frames(s, bytes[..|bytes| - |rest|]) == out
    ensures Frames(s, bytes + more) == out + Frames(Run(s, bytes[..|bytes| - |rest|]), rest + more)
  {
    hide Run, Frames;
    RunSplit(s, bytes[..|bytes| - |rest|], rest + more);
    assert bytes + more == bytes[..|bytes| - |rest|] + (rest + more);
  }
}
