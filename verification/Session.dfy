/**
 The receiving session: opening a session for a new set of transfer parameters, feeding symbols to
 the blocks, and declaring the file complete (daemon.c, lines 95-108, 367-418 and 521-619).
 */
module Receiving {
  import opened GF256
  import opened Linear
  import opened Hdpc
  import opened Tuples
  import opened Layout
  import opened TransferInfo
  import opened Encoding
  import opened Sufficiency
  import opened Decoding
  import opened FileDecoding
  import opened Crc6
  import opened Frames

  /** The two words that identify a transfer. */
  datatype Oti = Oti(common: nat, scheme: nat)

  function OtiOf(frame: seq<Octet>): Oti
    requires |frame| > HEADER_SIZE
  {
    Oti(ParseCommon(Config(frame)), ParseScheme(Config(frame)))
  }

  /**
   What the source does not survive: transfer parameters with a symbol size of 65536 or an alignment of
   zero (a division by zero) or with 65536 sub-blocks, a frame shorter than the symbol it should hold,
   and the abort of the working matrix or a replay out of bounds.
   */
  datatype Reason = BadShape | ShortFrame | Solver(st: Status)

  datatype Event =
    | Dropped
    | Refused
    | Reported(verdict: Verdict)
    | FileReceived(last: Verdict)
    | Crashed(reason: Reason)

  /** Parameters that a session cannot be opened with, but that are not refused either. */
  predicate Bad(o: Oti) {
    var answer := NewDecoder(o.common, o.scheme);
    answer.Faulted? || (answer.Accepted? && answer.shape.n >= 0x1_0000)
  }

  predicate AllDecoded(decoded: seq<bool>) {
    forall i :: 0 <= i < |decoded| ==> decoded[i]
  }

  /** What happens to transfers in the course of a run. */
  datatype Milestone = Opened(oti: Oti) | Completed(oti: Oti)

  /** After a transfer is complete, the next thing to happen is that a different one is opened. */
  ghost predicate NoRestart(trace: seq<Milestone>) {
    forall i :: 0 <= i && i + 1 < |trace| && trace[i].Completed? ==>
      trace[i + 1].Opened? && trace[i + 1].oti != trace[i].oti
  }

  class RxSession {
    const table: Table
    const rnd: Rnd
    const frameSize: nat
    var active: bool
    var completedLast: bool
    var lastCompleted: Oti
    var oti: Oti
    var rq: FileDecoder?
    var blockDecoded: array<bool>
    var blockSymbolsSeen: array<nat>
    ghost var trace: seq<Milestone>

    /** The objects of an open session. */
    ghost function Parts(): set<object>
      reads this
    {
      {blockDecoded as object, blockSymbolsSeen as object} + if rq == null then {} else {rq as object} + rq.repr
    }

    ghost predicate Separate()
      reads this
    {
      && rq != null && rq !in rq.repr && this !in rq.repr
      && (blockDecoded as object) !in rq.repr && (blockSymbolsSeen as object) !in rq.repr
      && (blockDecoded as object) != (blockSymbolsSeen as object)
    }

    /** A decoder for the transfer with these parameters. */
    ghost predicate DecoderFor(d: FileDecoder, o: Oti) {
      && NewDecoder(o.common, o.scheme) == Accepted(d.sh) && d.sh.t > 0
      && d.pr == table(Size(d.sh.Blocks(), 0)) && d.rnd == rnd
    }

    /** An open session: decoders in order, and the bookkeeping agrees with them for every block. */
    ghost predicate Running(): (r: bool)
      reads this, Parts()
      ensures r ==> Separate() && DecoderFor(rq, oti) && rq.Built()
    {
      Decoding() && Agrees(blockSymbolsSeen[..], blockDecoded[..], rq.Tally(), rq.Sizes())
    }

    ghost predicate Decoding()
      reads this, Parts()
    {
      && Separate() && rq.Valid() && rq.Built() && DecoderFor(rq, oti)
      && blockDecoded.Length == blockSymbolsSeen.Length == rq.sh.z <= |rq.blocks| == MAX_BLOCKS && rq.sh.t > 0
    }

    /** A session is open only while some block is not decoded. */
    ghost predicate Valid()
      reads this, Parts()
    {
      Kept() && (active ==> !AllDecoded(blockDecoded[..]))
    }

    ghost predicate Kept()
      reads this, Parts()
    {
      && GoodTable(table) && frameSize > HEADER_SIZE
      && (active ==> Running() && trace != [] && trace[|trace| - 1] == Opened(oti))
      && (completedLast ==> !active && trace != [] && trace[|trace| - 1] == Completed(lastCompleted))
      && (!completedLast ==> trace == [] || trace[|trace| - 1].Opened?) && NoRestart(trace)
    }

    constructor (table: Table, rnd: Rnd, frameSize: nat)
      requires GoodTable(table) && frameSize > HEADER_SIZE
      ensures Valid() && !active && !completedLast && trace == [] && fresh(Parts())
      ensures this.table == table && this.rnd == rnd && this.frameSize == frameSize
    {
      this.table, this.rnd, this.frameSize := table, rnd, frameSize;
      active, completedLast, lastCompleted, oti := false, false, Oti(0, 0), Oti(0, 0);
      rq := null;
      blockDecoded, blockSymbolsSeen := new bool[0], new nat[0];
      trace := [];
    }

    /** The decoder and the bookkeeping for a transfer of the given shape. */
    method Prepare(o: Oti, sh: Shape) returns (d: FileDecoder, decoded: array<bool>, seen: array<nat>)
      requires GoodTable(table) && NewDecoder(o.common, o.scheme) == Accepted(sh) && sh.n < 0x1_0000
      ensures fresh(d) && fresh(d.repr) && fresh(decoded) && fresh(seen) && d !in d.repr
      ensures (decoded as object) !in d.repr && (seen as object) !in d.repr && (decoded as object) != (seen as object)
      ensures d.Valid() && d.Built() && DecoderFor(d, o) && d.log == [] && d.Sound()
      ensures decoded.Length == seen.Length == d.sh.z <= |d.blocks| == MAX_BLOCKS
      ensures Agrees(seen[..], decoded[..], d.Tally(), d.Sizes()) && !AllDecoded(decoded[..])
    {
      hide FileDecoder.Valid, FileDecoder.Built, FillPartition, Size, GoodTable, FileDecoder.Sound, NewDecoder, DivCeil,
        FileDecoder.Tally, FileDecoder.Sizes, Agrees;
      AcceptedShape(o.common, o.scheme);
      decoded, seen := new bool[sh.z](_ => false), new nat[sh.z](_ => 0);
      d := new FileDecoder(table, rnd, sh);
      FreshAgrees(seen[..], decoded[..], d.Tally(), d.Sizes());
      assert !decoded[..][0];
    }

    /** A session for a transfer of the given shape. */
    method Open(o: Oti, sh: Shape)
      requires GoodTable(table) && NewDecoder(o.common, o.scheme) == Accepted(sh) && sh.n < 0x1_0000
      modifies this`active, this`oti, this`rq, this`blockDecoded, this`blockSymbolsSeen
      ensures Running() && active && oti == o && rq.log == [] && rq.Sound() && !AllDecoded(blockDecoded[..])
      ensures fresh(rq) && fresh(rq.repr) && fresh(blockDecoded) && fresh(blockSymbolsSeen)
    {
      hide FileDecoder.Valid, FileDecoder.Built, FillPartition, Size, GoodTable, FileDecoder.Sound, NewDecoder, DivCeil,
        FileDecoder.Tally, FileDecoder.Sizes, Agrees, AllDecoded;
      active, oti := true, o;
      rq, blockDecoded, blockSymbolsSeen := Prepare(o, sh);
    }

    /** rx_session_start. */
    method Start(o: Oti) returns (ok: bool, crashed: bool)
      requires Valid() && (active ==> oti != o) && (completedLast ==> lastCompleted != o)
      modifies this
      ensures Valid() && active == ok && !(ok && crashed)
      ensures ok ==> fresh(rq) && fresh(rq.repr) && fresh(blockDecoded) && fresh(blockSymbolsSeen)
      ensures ok ==> oti == o && rq.log == [] && rq.Sound() && !completedLast && trace == old(trace) + [Opened(o)]
      ensures !ok ==> completedLast == old(completedLast) && lastCompleted == old(lastCompleted) && trace == old(trace)
      ensures crashed == Bad(o) && (ok <==> NewDecoder(o.common, o.scheme).Accepted? && !crashed)
      ensures !ok ==> rq == old(rq) && blockDecoded == old(blockDecoded) && blockSymbolsSeen == old(blockSymbolsSeen)
    {
      hide Running, GoodTable, FileDecoder.Sound, NewDecoder, NoRestart, Parts, AllDecoded;
      active := false;
      var answer := NewDecoder(o.common, o.scheme);
      if answer.Refused? {
        return false, false;
      }
      if answer.Faulted? || answer.shape.n >= 0x1_0000 {
        return false, true;
      }
      OpenNext(trace, o);
      completedLast := false;
      trace := trace + [Opened(o)];
      Open(o, answer.shape);
      return true, false;
    }

    /** Symbol esi of block b has arrived, or block b is complete without it. */
    ghost predicate Holds(b: nat, esi: nat): (r: bool)
      reads this, Parts()
      ensures r ==> active
    {
      active && Separate() && rq.Built() && b < MAX_BLOCKS && Taken(rq.Tally()[b], rq.Sizes()[b], esi)
    }

    /** The symbol is handed to its block; if it is new it is counted, and a repair may be tried. */
    method Accept(sbn: nat, esi: nat, data: Vec) returns (v: Verdict, st: Status)
      requires Running() && sbn < MAX_BLOCKS && |data| == rq.sh.t && esi <= MAX_ESI
      modifies rq`log, rq.repr, blockSymbolsSeen, blockDecoded
      ensures v == Answer(old(rq.Tally())[sbn], rq.Sizes()[sbn], esi)
      ensures rq.log == if v == Added then old(rq.log) + [Entry(sbn, esi, data)] else old(rq.log)
      ensures st == Done ==>
        Running() && Growing(old(rq.Tally()), rq.Tally()) && Taken(rq.Tally()[sbn], rq.Sizes()[sbn], esi)
      ensures st != Done ==> rq.Broken(sbn, st)
    {
      hide FileDecoder.Valid, FileDecoder.Built, FileDecoder.Tally, FileDecoder.Sizes, FileDecoder.Gaps, FillPartition,
        Size, NewDecoder, Agrees, Growing, HasAll, AfterSymbol, FileDecoder.Broken, Pending, FileDecoder.Whole, Taken,
        DecoderFor, Answer;
      v := rq.AddSymbol(sbn, esi, data);
      ghost var t := old(rq.Tally());
      st := Done;
      if v == Added {
        ghost var seen, t1 := blockSymbolsSeen[..], rq.Tally();
        blockSymbolsSeen[sbn] := blockSymbolsSeen[sbn] + 1;
        BeforeRepair(seen, blockSymbolsSeen[..], blockDecoded[..], t, t1, rq.Sizes(), sbn, esi);
        st := TryRepair(sbn);
        SymbolGrows(t, t1, rq.Tally(), rq.Sizes(), sbn, esi);
      } else {
        GrowingRefl(t);
        NotAdded(t[sbn], rq.Sizes()[sbn], esi);
      }
    }

    /** Once a block has accepted as many symbols as it has, a repair is tried. */
    method TryRepair(sbn: nat) returns (st: Status)
      requires Decoding() && sbn < rq.sh.z && !rq.blocks[sbn].repaired
      requires Pending(blockSymbolsSeen[..], blockDecoded[..], rq.Tally(), rq.Sizes(), sbn)
      modifies rq.repr, blockDecoded
      ensures st == Done ==> Running() && Growing(old(rq.Tally()), rq.Tally())
      ensures st != Done ==> rq.Broken(sbn, st)
    {
      hide FileDecoder.Valid, FileDecoder.Built, FileDecoder.Tally, FileDecoder.Sizes, FileDecoder.Gaps, FillPartition,
        NewDecoder, Agrees, Pending, HasAll, Growing, FileDecoder.Broken, Size, DecoderFor;
      ghost var seen, decoded, t := blockSymbolsSeen[..], blockDecoded[..], rq.Tally();
      PendingSizes(seen, decoded, t, rq.Sizes(), sbn);
      st := Done;
      if blockSymbolsSeen[sbn] >= Size(rq.sh.Blocks(), sbn) {
        st := rq.RepairBlock(sbn);
        if st == Done {
          blockDecoded[sbn] := true;
        } else if st == Failed {
          st := Done;
        } else {
          return;
        }
      } else {
        Unfinished(sbn);
      }
      Settled(seen, decoded, t, rq.Sizes(), sbn, blockDecoded[..], rq.Tally());
    }

    /** A block that has accepted fewer symbols than it has still misses some. */
    lemma Unfinished(i: nat)
      requires rq != null && rq.Valid() && rq.Built() && i < MAX_BLOCKS == |rq.blocks| && rq.sh.t > 0
      requires !rq.blocks[i].repaired && rq.Tally()[i].seen < rq.Sizes()[i]
      ensures !rq.Whole(i)
    {
      hide FileDecoder.Valid, FileDecoder.Built, FileDecoder.Tally, FileDecoder.Sizes, FileDecoder.Whole;
      if rq.Whole(i) {
        rq.EnoughSeen(i);
      }
    }

    /** An open session decodes for the transfer it was opened for. */
    lemma OpenFacts()
      requires Valid() && active
      ensures rq != null && DecoderFor(rq, oti)
    {
      hide Running, GoodTable, NoRestart;
    }

    /** rx_session_is_complete. */
    method IsComplete() returns (r: bool)
      ensures r == AllDecoded(blockDecoded[..])
    {
      for i := 0 to blockDecoded.Length
        invariant forall k :: 0 <= k < i ==> blockDecoded[k]
      {
        if !blockDecoded[i] {
          assert !blockDecoded[..][i];
          return false;
        }
      }
      return true;
    }

    /** One frame for the open session; false if it ends the program. */
    method Take(frame: seq<Octet>) returns (v: Verdict, ok: bool, reason: Reason)
      requires Running() && |frame| > HEADER_SIZE
      modifies rq`log, rq.repr, blockSymbolsSeen, blockDecoded
      ensures unchanged(this)
      ensures ok ==> Running() && |frame| >= HEADER_SIZE + rq.sh.t && rq.log == Grown(old(rq.log), frame, v, rq.sh.t)
      ensures ok ==> v == Answer(old(rq.Tally())[Sbn(frame)], rq.Sizes()[Sbn(frame)], Esi(frame))
      ensures ok ==>
        Growing(old(rq.Tally()), rq.Tally()) && Taken(rq.Tally()[Sbn(frame)], rq.Sizes()[Sbn(frame)], Esi(frame))
      ensures !ok ==> WentWrong(rq, frame, reason)
    {
      hide FileDecoder.Valid, NewBlock, FileDecoder.Tally, FileDecoder.Sizes, NewDecoder, Agrees, Growing, HasAll,
        FileDecoder.Broken, Taken, Answer;
      var sbn, esi := Sbn(frame), Esi(frame);
      if |frame| < HEADER_SIZE + rq.sh.t {
        return Error, false, ShortFrame;
      }
      var st;
      v, st := Accept(sbn, esi, Carried(frame, rq.sh.t));
      ok, reason := st == Done, Solver(st);
    }

    /** The session ends with a complete file. */
    method Finish() returns (out: FileDecoder)
      requires Kept() && active && AllDecoded(blockDecoded[..])
      modifies this
      ensures Valid() && !active && completedLast && lastCompleted == old(oti)
      ensures trace == old(trace) + [Completed(old(oti))]
      ensures out == old(rq) && out.Valid() && out.log == old(rq.log) && Received(out) && DecoderFor(out, old(oti))
      ensures rq == null && blockDecoded == old(blockDecoded) && blockSymbolsSeen == old(blockSymbolsSeen)
    {
      hide FileDecoder.Valid, FileDecoder.Tally, FileDecoder.Sizes, NewDecoder, NoRestart, FillPartition, Size;
      out := rq;
      assert Received(out) by {
        forall i | 0 <= i < rq.sh.z && i < |rq.blocks| ensures rq.Gaps(i) == 0 {
          assert blockDecoded[..][i];
          rq.BlockCounts(i);
        }
      }
      CompleteNext(trace, oti);
      active, completedLast, lastCompleted, rq := false, true, oti, null;
      trace := trace + [Completed(oti)];
    }

    /** This frame belongs to the transfer that was completed last, and no other has been opened since. */
    ghost predicate Stale(frame: seq<Octet>)
      requires |frame| > HEADER_SIZE
      reads this
    {
      !active && completedLast && lastCompleted == OtiOf(frame)
    }

    /** The symbols accepted so far for the transfer of a frame. */
    ghost function LogFor(o: Oti): seq<FileDecoding.Entry>
      reads this, rq
    {
      if active && oti == o && rq != null then rq.log else []
    }

    /** A frame of the open session's transfer: its symbol is taken, and the session may end. */
    method Process(frame: seq<Octet>) returns (e: Event, out: FileDecoder?)
      requires Valid() && active && |frame| > HEADER_SIZE
      modifies this, Parts()
      ensures e.Crashed? || e.Reported? || e.FileReceived?
      ensures !e.Crashed? ==> Valid()
      ensures e.Crashed? ==> rq != null && DecoderFor(rq, old(oti)) && WentWrong(rq, frame, e.reason)
      ensures e.Reported? ==> active && oti == old(oti) && |frame| >= HEADER_SIZE + rq.sh.t
      ensures e.Reported? ==> rq.log == Grown(old(rq.log), frame, e.verdict, rq.sh.t)
      ensures e.Reported? ==> Holds(Sbn(frame), Esi(frame)) && forall b: nat, x: nat :: old(Holds(b, x)) ==> Holds(b, x)
      ensures e.FileReceived? ==>
        !active && completedLast && lastCompleted == old(oti) && out != null && DecoderFor(out, old(oti))
      ensures fresh(Parts() - old(Parts()))
      ensures e.FileReceived? ==> out != null && out.Valid() && Received(out) && |frame| >= HEADER_SIZE + out.sh.t
      ensures e.FileReceived? ==> out.log == Grown(old(rq.log), frame, e.last, out.sh.t)
    {
      hide FileDecoder.Valid, NewDecoder, NoRestart, FillPartition, Size, GoodTable, Running, Grown, WentWrong, Growing,
        Taken, AllDecoded, Answer, FileDecoder.Tally, FileDecoder.Sizes, FileDecoder.Built;
      out := null;
      var v, ok, reason := Take(frame);
      if !ok {
        return Crashed(reason), null;
      }
      assert Kept();
      forall b: nat, x: nat | old(Holds(b, x)) ensures Holds(b, x) {
        StillTaken(old(rq.Tally()), rq.Tally(), rq.Sizes(), b, x);
      }
      var complete := IsComplete();
      if complete {
        out := Finish();
        return FileReceived(v), out;
      }
      e := Reported(v);
    }

    /** The session for a transfer: the open one, or a new one. */
    method Admit(o: Oti) returns (ok: bool, crashed: bool)
      requires Valid() && !(!active && completedLast && lastCompleted == o)
      modifies this
      ensures Valid() && active == ok && !(ok && crashed)
      ensures ok ==> oti == o && rq != null && rq.log == old(LogFor(o)) && fresh(Parts() - old(Parts()))
      ensures !ok ==> trace == old(trace) && completedLast == old(completedLast) && Parts() == old(Parts())
      ensures !ok ==> crashed == Bad(o) && (!crashed ==> NewDecoder(o.common, o.scheme).Refused?)
      ensures ok && old(active) && old(oti) == o ==> forall b: nat, x: nat :: old(Holds(b, x)) ==> Holds(b, x)
    {
      hide Running, GoodTable, FileDecoder.Sound, NewDecoder, NoRestart, AllDecoded, Holds;
      ok, crashed := true, false;
      if !active || oti != o {
        ok, crashed := Start(o);
      }
    }

    /** The checks on length, type and checksum. */
    method Screen(frame: seq<Octet>) returns (pass: bool)
      requires frameSize > HEADER_SIZE
      ensures pass == Passes(frame, frameSize) && (pass ==> |frame| > HEADER_SIZE)
      ensures pass <==> |frame| == frameSize && frame[0] as nat == 128 + Divided(1, frame[1..])
      ensures forall f :: Passes(f, frameSize) && Damaged(f, frame) ==> !pass
    {
      hide CrcOf, Divided, Damaged;
      PassesIff(frame, frameSize);
      forall f | Passes(f, frameSize) && Damaged(f, frame) ensures !Passes(frame, frameSize) {
        DamageNoticed(f, frame, frameSize);
      }
      if |frame| != frameSize {
        return false;
      }
      var packetType := frame[0] / 64;
      if packetType == PACKET_RQ_PAYLOAD {
        return false;
      }
      if packetType != PACKET_RQ_CONFIG {
        return false;
      }
      var crcCalc := Crc6_0x6F(1, frame[1..]);
      return frame[0] % 64 == crcCalc;
    }

    /** A frame that passes the checks, of a transfer that is not the one completed last. */
    method Deliver(frame: seq<Octet>) returns (e: Event, out: FileDecoder?)
      requires Valid() && |frame| > HEADER_SIZE && !Stale(frame)
      modifies this, Parts()
      ensures e != Dropped && (!e.Crashed? ==> Valid())
      ensures e == Event.Refused ==> !active && trace == old(trace) && completedLast == old(completedLast)
      ensures e == Event.Refused ==> NewDecoder(OtiOf(frame).common, OtiOf(frame).scheme).Refused?
      ensures e == Crashed(BadShape) ==> Bad(OtiOf(frame))
      ensures e.Crashed? && e.reason != BadShape ==>
        rq != null && DecoderFor(rq, OtiOf(frame)) && WentWrong(rq, frame, e.reason)
      ensures e.Reported? ==> active && oti == OtiOf(frame) && |frame| >= HEADER_SIZE + rq.sh.t
      ensures e.Reported? ==> rq.log == Grown(old(LogFor(OtiOf(frame))), frame, e.verdict, rq.sh.t)
      ensures e.Reported? ==> Holds(Sbn(frame), Esi(frame))
      ensures e.Reported? && old(active) && old(oti) == OtiOf(frame) ==>
        forall b: nat, x: nat :: old(Holds(b, x)) ==> Holds(b, x)
      ensures e.FileReceived? ==>
        !active && completedLast && lastCompleted == OtiOf(frame) && out != null && DecoderFor(out, OtiOf(frame))
      ensures fresh(Parts() - old(Parts()))
      ensures e.FileReceived? ==> out != null && out.Valid() && Received(out) && |frame| >= HEADER_SIZE + out.sh.t
      ensures e.FileReceived? ==> out.log == Grown(old(LogFor(OtiOf(frame))), frame, e.last, out.sh.t)
    {
      hide Valid, FileDecoder.Valid, FileDecoder.Built, NewDecoder, NoRestart, FillPartition, Size, GoodTable, Running,
        Grown, WentWrong, Holds, AllDecoded, Answer, Bad, FileDecoder.Tally, FileDecoder.Sizes, Received, DecoderFor;
      out := null;
      var ok, crashed := Admit(OtiOf(frame));
      if !ok {
        return if crashed then Crashed(BadShape) else Event.Refused, null;
      }
      e, out := Process(frame);
    }

    /** One iteration of rx_thread_main: what a frame does to the session. */
    method Receive(frame: seq<Octet>) returns (e: Event, out: FileDecoder?)
      requires Valid()
      modifies this, Parts()
      ensures !e.Crashed? ==> Valid()
      ensures !Passes(frame, frameSize) || old(Stale(frame)) <==> e == Dropped
      ensures e == Dropped ==> active == old(active) && completedLast == old(completedLast) && trace == old(trace)
      ensures e == Dropped ==> lastCompleted == old(lastCompleted)
      ensures e == Dropped ==> rq == old(rq) && oti == old(oti) && LogFor(oti) == old(LogFor(oti))
      ensures e == Dropped ==> forall b: nat, x: nat :: old(Holds(b, x)) ==> Holds(b, x)
      ensures e == Event.Refused ==> !active && trace == old(trace) && completedLast == old(completedLast)
      ensures e == Event.Refused ==> NewDecoder(OtiOf(frame).common, OtiOf(frame).scheme).Refused?
      ensures e == Crashed(BadShape) ==> Bad(OtiOf(frame))
      ensures e.Crashed? && e.reason != BadShape ==>
        rq != null && DecoderFor(rq, OtiOf(frame)) && WentWrong(rq, frame, e.reason)
      ensures e.Reported? ==> active && oti == OtiOf(frame) && |frame| >= HEADER_SIZE + rq.sh.t
      ensures e.Reported? ==> rq.log == Grown(old(LogFor(OtiOf(frame))), frame, e.verdict, rq.sh.t)
      ensures e.Reported? ==> Holds(Sbn(frame), Esi(frame))
      ensures e.Reported? && old(active) && old(oti) == OtiOf(frame) ==>
        forall b: nat, x: nat :: old(Holds(b, x)) ==> Holds(b, x)
      ensures e.FileReceived? ==>
        !active && completedLast && lastCompleted == OtiOf(frame) && out != null && DecoderFor(out, OtiOf(frame))
      ensures fresh(Parts() - old(Parts()))
      ensures e.FileReceived? ==> out != null && out.Valid() && Received(out) && |frame| >= HEADER_SIZE + out.sh.t
      ensures e.FileReceived? ==> out.log == Grown(old(LogFor(OtiOf(frame))), frame, e.last, out.sh.t)
    {
      hide Valid, FileDecoder.Valid, FileDecoder.Built, NewDecoder, NoRestart, FillPartition, Size, Passes, GoodTable,
        Running, Grown, WentWrong, Holds, AllDecoded, Answer, Bad, FileDecoder.Tally, FileDecoder.Sizes, Received,
        DecoderFor;
      out := null;
      FrameBound();
      var pass := Screen(frame);
      if !pass {
        return Dropped, null;
      }
      if completedLast && lastCompleted == OtiOf(frame) && !active {
        return Dropped, null;
      }
      e, out := Deliver(frame);
    }

    /**
     An open session waits for some block: it has accepted fewer symbols than the block has, or they do not
     determine it.  Then every symbol of the block that has arrived has been accepted, and they are not enough.
     */
    lemma Waiting() returns (b: nat)
      requires Valid() && active
      ensures Running() && b < rq.sh.z <= MAX_BLOCKS && !blockDecoded[..][b]
      ensures rq.Sizes()[b] > 0 ==> !Sufficient(rq.pr, rnd, rq.Sizes()[b], rq.Tally()[b].ids)
      ensures rq.Sizes()[b] > 0 ==> forall esi: nat :: Holds(b, esi) ==> esi in rq.Tally()[b].ids
    {
      hide FileDecoder.Valid, FileDecoder.Built, FileDecoder.Tally, FileDecoder.Sizes, NewDecoder, NoRestart, GoodTable,
        Ambiguous;
      b :| 0 <= b < |blockDecoded[..]| && !blockDecoded[..][b];
      assert AgreesAt(blockSymbolsSeen[..][b], blockDecoded[..][b], rq.Tally()[b], rq.Sizes()[b]);
      if rq.Sizes()[b] > 0 {
        assert !HasAll(rq.Tally()[b], rq.Sizes()[b]);
        rq.WaitsFor(b);
      }
    }

    lemma FrameBound()
      requires Valid()
      ensures frameSize > HEADER_SIZE
    {
      hide Running, GoodTable, NoRestart;
    }
  }

  /** The words that identify a transfer of this shape. */
  function OtiFor(sh: Shape): Oti
    requires sh.t > 0 && sh.z > 0 && sh.n > 0
  {
    Oti(sh.f * 0x100_0000 + (sh.t - 1), (sh.z - 1) * 0x100_0000 + (sh.n - 1) * 0x100 + 1)
  }

  lemma OtiDetermined(frame: seq<Octet>, sh: Shape)
    requires |frame| > HEADER_SIZE && NewDecoder(OtiOf(frame).common, OtiOf(frame).scheme) == Accepted(sh)
    ensures sh.t > 0 && sh.z > 0 && sh.n > 0 && OtiOf(frame) == OtiFor(sh)
    ensures sh.n < 0x1_0000 ==> !Bad(OtiOf(frame))
  {
    hide NewDecoder, ParseCommon, ParseScheme;
    ConfigDetermined(Config(frame), sh);
  }

  /** The symbol is among those of the block, or the block is complete without it. */
  predicate Taken(c: Count, size: nat, esi: nat) {
    esi in c.ids || HasAll(c, size)
  }

  lemma StillTaken(t: seq<Count>, t': seq<Count>, sizes: seq<nat>, b: nat, esi: nat)
    requires Growing(t, t') && b < |t| == |sizes| && Taken(t[b], sizes[b], esi)
    ensures Taken(t'[b], sizes[b], esi)
  {}

  /** Why a frame of an open session ends the program. */
  ghost predicate WentWrong(d: FileDecoder, frame: seq<Octet>, reason: Reason): (r: bool)
    requires |frame| > HEADER_SIZE
    reads d, d.repr
    ensures r ==> reason != BadShape
  {
    match reason
    case BadShape => false
    case ShortFrame => |frame| < HEADER_SIZE + d.sh.t
    case Solver(st) => Sbn(frame) < |d.blocks| && Inside(d, Sbn(frame)) && d.Broken(Sbn(frame), st)
  }

  /** A repair of block b has ended the program. */
  ghost predicate SolverFailed(d: FileDecoder, b: nat)
    reads d.repr
  {
    b < |d.blocks| && Inside(d, b) && exists st :: d.Broken(b, st)
  }

  ghost predicate Inside(d: FileDecoder, b: nat)
    requires b < |d.blocks|
  {
    (d.blocks[b] as object) in d.repr && (d.blocks[b].mask as object) in d.repr
  }

  /** The log once a frame has been reported on. */
  function Grown(log: seq<FileDecoding.Entry>, frame: seq<Octet>, v: Verdict, t: nat): seq<FileDecoding.Entry>
    requires |frame| >= HEADER_SIZE + t && |frame| > HEADER_SIZE
  {
    if v == Added then log + [Entry(Sbn(frame), Esi(frame), Carried(frame, t))] else log
  }

  /** No block misses a source symbol. */
  ghost predicate Received(d: FileDecoder)
    requires d.Built()
    reads d, d.repr
  {
    forall i :: 0 <= i < d.sh.z && i < |d.blocks| ==> d.Gaps(i) == 0
  }

  /**
   The bookkeeping for a block is right: the symbols it has accepted are counted, it is decoded if and
   only if it has symbols and misses none, and if it is not, then because it has accepted fewer symbols
   than it has or because those it has accepted do not determine it.
   */
  predicate AgreesAt(seen: nat, decoded: bool, c: Count, size: nat) {
    && seen == c.seen && (decoded <==> size > 0 && HasAll(c, size))
    && (!decoded && seen >= size > 0 ==> c.short)
  }

  ghost predicate Agrees(seen: seq<nat>, decoded: seq<bool>, tally: seq<Count>, sizes: seq<nat>) {
    && |seen| == |decoded| <= |tally| == |sizes|
    && forall i :: 0 <= i < |seen| ==> AgreesAt(seen[i], decoded[i], tally[i], sizes[i])
  }

  /** As Agrees, but block s has accepted a symbol and a repair has not been tried yet. */
  ghost predicate Pending(seen: seq<nat>, decoded: seq<bool>, tally: seq<Count>, sizes: seq<nat>, s: nat) {
    && |seen| == |decoded| <= |tally| == |sizes| && s < |seen|
    && seen[s] == tally[s].seen && !decoded[s] && sizes[s] > 0
    && forall i :: 0 <= i < |seen| && i != s ==> AgreesAt(seen[i], decoded[i], tally[i], sizes[i])
  }

  /** No symbol that is there disappears. */
  ghost predicate Growing(t: seq<Count>, t': seq<Count>) {
    |t| == |t'| && forall i :: 0 <= i < |t| ==> t[i].ids <= t'[i].ids
  }

  lemma GrowingRefl(t: seq<Count>)
    ensures Growing(t, t)
  {}

  lemma FreshAgrees(seen: seq<nat>, decoded: seq<bool>, tally: seq<Count>, sizes: seq<nat>)
    requires |seen| == |decoded| <= |tally| == |sizes|
    requires forall i :: 0 <= i < |tally| ==> tally[i].seen == 0 && tally[i].ids == {}
    requires forall i :: 0 <= i < |seen| ==> seen[i] == 0 && !decoded[i]
    ensures Agrees(seen, decoded, tally, sizes)
  {
    forall i | 0 <= i < |seen| ensures AgreesAt(seen[i], decoded[i], tally[i], sizes[i]) {
      if sizes[i] > 0 {
        assert 0 !in tally[i].ids;
      }
    }
  }

  lemma PendingSizes(seen: seq<nat>, decoded: seq<bool>, tally: seq<Count>, sizes: seq<nat>, s: nat)
    requires Pending(seen, decoded, tally, sizes, s)
    ensures |seen| == |decoded| <= |tally| == |sizes| && s < |seen| && seen[s] == tally[s].seen && !decoded[s]
    ensures sizes[s] > 0
  {}

  /** A symbol that was missing has been counted. */
  lemma BeforeRepair(seen: seq<nat>, seen': seq<nat>, decoded: seq<bool>, t: seq<Count>, t': seq<Count>,
                     sizes: seq<nat>, s: nat, esi: nat)
    requires Agrees(seen, decoded, t, sizes) && s < |seen| && Answer(t[s], sizes[s], esi) == Added && sizes[s] > 0
    requires seen' == seen[s := seen[s] + 1] && |t'| == |t| && t' == AfterSymbol(t, s, esi, t'[s].short)
    ensures Pending(seen', decoded, t', sizes, s)
  {
    assert AgreesAt(seen[s], decoded[s], t[s], sizes[s]);
  }

  /** After the repair was tried, or was not due: the bookkeeping is right again. */
  lemma Settled(seen: seq<nat>, decoded: seq<bool>, t: seq<Count>, sizes: seq<nat>, s: nat, decoded': seq<bool>,
                t': seq<Count>)
    requires Pending(seen, decoded, t, sizes, s) && |t'| == |t|
    requires t' == t[s := t[s].(ids := t'[s].ids, short := t'[s].short)]
    requires decoded' == decoded[s := HasAll(t'[s], sizes[s])] && t[s].ids <= t'[s].ids
    requires !HasAll(t'[s], sizes[s]) && seen[s] >= sizes[s] ==> t'[s].short
    ensures Agrees(seen, decoded', t', sizes) && Growing(t, t')
  {
    forall i | 0 <= i < |seen| ensures AgreesAt(seen[i], decoded'[i], t'[i], sizes[i]) {
      if i != s {
        assert AgreesAt(seen[i], decoded[i], t[i], sizes[i]);
      }
    }
  }

  lemma SymbolGrows(t: seq<Count>, t1: seq<Count>, t2: seq<Count>, sizes: seq<nat>, s: nat, esi: nat)
    requires s < |t| == |t1| == |t2| == |sizes| && t1 == AfterSymbol(t, s, esi, t1[s].short)
    ensures Growing(t1, t2) ==> Growing(t, t2) && Taken(t2[s], sizes[s], esi)
  {}

  lemma NotAdded(c: Count, size: nat, esi: nat)
    requires Answer(c, size, esi) != Added
    ensures Taken(c, size, esi)
  {}

  lemma OpenNext(trace: seq<Milestone>, o: Oti)
    requires NoRestart(trace) && (trace != [] && trace[|trace| - 1].Completed? ==> trace[|trace| - 1].oti != o)
    ensures NoRestart(trace + [Opened(o)])
  {
    var t := trace + [Opened(o)];
    forall i | 0 <= i && i + 1 < |t| && t[i].Completed? ensures t[i + 1].Opened? && t[i + 1].oti != t[i].oti {}
  }

  lemma CompleteNext(trace: seq<Milestone>, o: Oti)
    requires NoRestart(trace) && (trace == [] || trace[|trace| - 1].Opened?)
    ensures NoRestart(trace + [Completed(o)])
  {
    var t := trace + [Completed(o)];
    forall i | 0 <= i && i + 1 < |t| && t[i].Completed? ensures t[i + 1].Opened? && t[i + 1].oti != t[i].oti {
      assert t[i] == trace[i];
    }
  }
}
