/**
 From sender to receiver: whatever part of a broadcast arrives, in whatever order and however
 often, a receiver reports a complete file exactly if enough symbols of every block have arrived, and
 the file is the one that was sent (daemon.c, lines 303-338 and 500-619).
 */
module Broadcast {
  import opened GF256
  import opened Linear
  import opened Hdpc
  import opened Scheduling
  import opened Tuples
  import opened Symbols
  import opened Layout
  import opened TransferInfo
  import opened Encoding
  import opened Sufficiency
  import opened Decoding
  import opened FileDecoding
  import opened Frames
  import opened Receiving

  /** The parameters that encoder and decoder use for every block of a transfer: those for block 0. */
  function ParamsFor(table: Table, sh: Shape): Params
    requires sh.t > 0
  {
    table(Size(sh.Blocks(), 0))
  }

  /** A frame carries an encoding symbol of a file's code. */
  ghost predicate Sent(frame: seq<Octet>, codes: seq<Mat>, sh: Shape, pr: Params, rnd: Rnd) {
    && sh.Valid() && |frame| >= HEADER_SIZE + sh.t
    && NewDecoder(OtiOf(frame).common, OtiOf(frame).scheme) == Accepted(sh)
    && Encoded(Entry(Sbn(frame), Esi(frame), Carried(frame, sh.t)), codes, sh, pr, rnd)
  }

  /** Every frame the sender makes from a code is one. */
  lemma SentFrame(sh: Shape, pr: Params, rnd: Rnd, codes: seq<Mat>, sbn: nat, esi: nat, symbol: Vec)
    requires sh.Valid() && sh.al == 1 && sh.f < 0x100_0000 && DivCeil(sh.Kt(), sh.z) <= MAX_SYMBOLS && esi < 0x1_0000
    requires sbn < 0x100 && |symbol| == sh.t && Encoded(Entry(sbn, esi, symbol), codes, sh, pr, rnd)
    ensures Passes(FrameOf(sh, sbn, esi, symbol), HEADER_SIZE + sh.t)
    ensures Sent(FrameOf(sh, sbn, esi, symbol), codes, sh, pr, rnd)
  {
    hide Encoded, NewDecoder, ParseCommon, ParseScheme;
    FrameAgrees(sh, sbn, esi, symbol);
  }

  /** Blocks and numbers of symbols. */
  type Numbers = set<(nat, nat)>

  function NumbersOf(arrived: Numbers, b: nat): set<nat> {
    set x | x in arrived && x.0 == b :: x.1
  }

  /** The symbols that frames passing the checks are for. */
  ghost function Arrived(frames: seq<seq<Octet>>, frameSize: nat): Numbers {
    set k | 0 <= k < |frames| && Passes(frames[k], frameSize) :: (Sbn(frames[k]), Esi(frames[k]))
  }

  /** What has arrived is enough to restore every block. */
  ghost predicate EnoughFor(arrived: Numbers, sh: Shape, pr: Params, rnd: Rnd)
    requires sh.t > 0
  {
    forall b :: 0 <= b < sh.z ==> Sufficient(pr, rnd, Size(sh.Blocks(), b), NumbersOf(arrived, b))
  }

  /** All symbols an open session has accepted are encoding symbols that have arrived. */
  ghost predicate Fed(rx: RxSession, codes: seq<Mat>, sh: Shape, pr: Params, arrived: Numbers)
    reads rx, rx.Parts()
  {
    rx.active && rx.rq != null ==>
      rx.rq.sh == sh && rx.rq.pr == pr && AllEncoded(rx.rq.log, codes, sh, pr, rx.rnd, arrived)
  }

  ghost predicate AllEncoded(log: seq<FileDecoding.Entry>, codes: seq<Mat>, sh: Shape, pr: Params, rnd: Rnd,
                             arrived: Numbers) {
    sh.Valid() && forall x :: x in log ==> Encoded(x, codes, sh, pr, rnd) && (x.sbn, x.esi) in arrived
  }

  lemma GrownEncoded(log: seq<FileDecoding.Entry>, frame: seq<Octet>, v: Verdict, codes: seq<Mat>, sh: Shape,
                     pr: Params, rnd: Rnd, arrived: Numbers)
    requires AllEncoded(log, codes, sh, pr, rnd, arrived) && Sent(frame, codes, sh, pr, rnd)
    requires |frame| > HEADER_SIZE && (Sbn(frame), Esi(frame)) in arrived
    ensures AllEncoded(Grown(log, frame, v, sh.t), codes, sh, pr, rnd, arrived)
  {
    hide Encoded;
  }

  lemma NothingEncoded(codes: seq<Mat>, sh: Shape, pr: Params, rnd: Rnd, arrived: Numbers)
    requires sh.Valid()
    ensures AllEncoded([], codes, sh, pr, rnd, arrived)
  {}

  /** A decoder for the transfer of a sent frame is one for the file that was sent. */
  lemma SentDecoder(rx: RxSession, d: FileDecoder, frame: seq<Octet>, codes: seq<Mat>, sh: Shape, pr: Params)
    requires sh.Valid() && pr == ParamsFor(rx.table, sh) && Sent(frame, codes, sh, pr, rx.rnd)
    requires rx.DecoderFor(d, OtiOf(frame))
    ensures d.sh == sh && d.pr == pr && d.rnd == rx.rnd
  {
    hide Encoded, NewDecoder;
  }

  lemma SentOti(frame: seq<Octet>, codes: seq<Mat>, sh: Shape, pr: Params, rnd: Rnd)
    requires Sent(frame, codes, sh, pr, rnd) && |frame| > HEADER_SIZE
    ensures sh.Valid() && OtiOf(frame) == OtiFor(sh) && !Bad(OtiOf(frame)) && |frame| >= HEADER_SIZE + sh.t
    ensures NewDecoder(OtiOf(frame).common, OtiOf(frame).scheme) == Accepted(sh)
  {
    hide Encoded, NewDecoder, OtiOf, OtiFor;
    OtiDetermined(frame, sh);
  }

  /** The receiver has a session for the transfer, or it would open one: the transfer is not the one completed last. */
  ghost predicate Listening(rx: RxSession, sh: Shape)
    requires sh.Valid()
    reads rx
  {
    if rx.active then rx.oti == OtiFor(sh) else !(rx.completedLast && rx.lastCompleted == OtiFor(sh))
  }

  /** One frame of the broadcast. */
  method ReceiveOne(rx: RxSession, frame: seq<Octet>, ghost codes: seq<Mat>, ghost sh: Shape, ghost pr: Params,
                    ghost arrived: Numbers)
    returns (e: Event, out: FileDecoder?)
    requires rx.Valid() && Fed(rx, codes, sh, pr, arrived) && sh.Valid() && pr == ParamsFor(rx.table, sh)
    requires Passes(frame, rx.frameSize) ==> Sent(frame, codes, sh, pr, rx.rnd) && (Sbn(frame), Esi(frame)) in arrived
    modifies rx, rx.Parts()
    ensures !e.Crashed? ==> rx.Valid() && Fed(rx, codes, sh, pr, arrived)
    ensures fresh(rx.Parts() - old(rx.Parts()))
    ensures e.FileReceived? ==>
      out != null && out.Valid() && Received(out) && out.sh == sh && out.pr == pr && out.rnd == rx.rnd
    ensures e.FileReceived? ==> AllEncoded(out.log, codes, sh, pr, rx.rnd, arrived)
    ensures !Passes(frame, rx.frameSize) ==> e.Dropped?
    ensures old(Listening(rx, sh)) && Passes(frame, rx.frameSize) ==> e.Reported? || e.FileReceived? || e.Crashed?
    ensures old(Listening(rx, sh)) && (e.Dropped? || e.Reported?) ==> Listening(rx, sh)
    ensures old(Listening(rx, sh)) && (e.Dropped? || e.Reported?) ==>
      forall b: nat, x: nat :: old(rx.Holds(b, x)) ==> rx.Holds(b, x)
    ensures e.Reported? ==> |frame| > HEADER_SIZE && rx.Holds(Sbn(frame), Esi(frame))
    ensures e.Crashed? ==> rx.rq != null && rx.rq.sh == sh && |frame| > HEADER_SIZE && SolverFailed(rx.rq, Sbn(frame))
  {
    hide RxSession.Valid, Sent, FileDecoder.Valid, FileDecoder.Built, Size, FillPartition, Passes, Grown, AllEncoded,
      RxSession.DecoderFor, RxSession.Parts, RxSession.Holds, Received, OtiFor, OtiOf, Bad, NewDecoder, WentWrong,
      SolverFailed, Sbn, Esi;
    NothingEncoded(codes, sh, pr, rx.rnd, arrived);
    ghost var log: seq<FileDecoding.Entry> := if |frame| > HEADER_SIZE then rx.LogFor(OtiOf(frame)) else [];
    assert AllEncoded(log, codes, sh, pr, rx.rnd, arrived);
    if Passes(frame, rx.frameSize) {
      SentOti(frame, codes, sh, pr, rx.rnd);
    }
    e, out := rx.Receive(frame);
    if e.Reported? {
      rx.OpenFacts();
      SentDecoder(rx, rx.rq, frame, codes, sh, pr);
      GrownEncoded(log, frame, e.verdict, codes, sh, pr, rx.rnd, arrived);
    }
    if e.FileReceived? {
      SentDecoder(rx, out, frame, codes, sh, pr);
      GrownEncoded(log, frame, e.last, codes, sh, pr, rx.rnd, arrived);
    }
    if e.Crashed? {
      SentDecoder(rx, rx.rq, frame, codes, sh, pr);
      SolverAtFault(rx.rq, frame, e.reason);
    }
  }

  /** A frame long enough for its symbol only goes wrong in the solver. */
  lemma SolverAtFault(d: FileDecoder, frame: seq<Octet>, reason: Reason)
    requires |frame| > HEADER_SIZE && WentWrong(d, frame, reason) && |frame| >= HEADER_SIZE + d.sh.t
    ensures SolverFailed(d, Sbn(frame))
  {
    hide FileDecoder.Broken;
    assert d.Broken(Sbn(frame), reason.st);
  }

  /** The session holds every symbol that the first n frames are for. */
  ghost predicate HoldsAll(rx: RxSession, frames: seq<seq<Octet>>, n: nat)
    reads rx, rx.Parts()
  {
    && n <= |frames|
    && forall k :: 0 <= k < n && Passes(frames[k], rx.frameSize) ==> rx.Holds(Sbn(frames[k]), Esi(frames[k]))
  }

  /**
   The receiver's loop over the frames that arrive; other traffic is dropped as long as it does not pass the
   frame checks.  Let every frame that passes them carry an encoding symbol of file f.  Unless the solver ends
   the program, a file is reported complete if and only if the symbols that arrived are enough for every
   block.  It is f if elimination recorded an operation for every repair, or the late operation of every
   replay was harmless for another reason.
   */
  method ReceiveFile(rx: RxSession, frames: seq<seq<Octet>>, ghost f: Vec, ghost codes: seq<Mat>, ghost sh: Shape,
                     ghost pr: Params)
    returns (received: bool, crashed: bool, out: FileDecoder?)
    requires rx.Valid() && !rx.active && sh.Valid() && pr == ParamsFor(rx.table, sh)
    requires CodesOf(codes, f, sh, pr, rx.rnd)
    requires forall k :: 0 <= k < |frames| && Passes(frames[k], rx.frameSize) ==> Sent(frames[k], codes, sh, pr, rx.rnd)
    modifies rx, rx.Parts()
    ensures received ==> out != null && out.Valid() && out.sh == sh && !crashed
    ensures received && (out.Eliminated() || out.Sound()) ==> out.file[..] == f
    ensures received ==> EnoughFor(Arrived(frames, rx.frameSize), sh, pr, rx.rnd)
    ensures !received && !crashed ==> rx.Valid()
    ensures !crashed && old(Listening(rx, sh)) && GoodBlocks(sh) ==>
      (received <==> EnoughFor(Arrived(frames, rx.frameSize), sh, pr, rx.rnd))
    ensures crashed ==> rx.rq != null && rx.rq.sh == sh
    ensures crashed ==> exists x :: x in Arrived(frames, rx.frameSize) && SolverFailed(rx.rq, x.0)
  {
    hide RxSession.Valid, CodesOf, Sent, FileDecoder.Valid, FileDecoder.Built, FileDecoder.Sound,
      FileDecoder.Eliminated, Size, FillPartition, Passes, AllEncoded, RxSession.Parts, Received, Fed, Listening,
      RxSession.Holds, GoodBlocks, SolverFailed, EnoughFor, Sbn, Esi;
    received, crashed, out := false, false, null;
    ghost var arrived := Arrived(frames, rx.frameSize);
    assert Fed(rx, codes, sh, pr, arrived) by { NotFed(rx, codes, sh, pr, arrived); }
    for k := 0 to |frames|
      invariant rx.Valid() && Fed(rx, codes, sh, pr, arrived) && fresh(rx.Parts() - old(rx.Parts()))
      invariant old(Listening(rx, sh)) ==> Listening(rx, sh) && HoldsAll(rx, frames, k)
    {
      var e;
      ghost var parts := rx.Parts();
      assert Passes(frames[k], rx.frameSize) ==> (Sbn(frames[k]), Esi(frames[k])) in arrived;
      label before:
      e, out := ReceiveOne(rx, frames[k], codes, sh, pr, arrived);
      ghost var now := rx.Parts();
      assert fresh@before(now - parts);
      forall o | o in now && o !in parts ensures fresh({o}) {
        assert !old@before(allocated(o));
        assert !old(allocated(o));
      }
      Between(now, parts, old(rx.Parts()));
      if e.Crashed? {
        assert (Sbn(frames[k]), Esi(frames[k])) in arrived;
        return false, true, null;
      }
      if e.FileReceived? {
        Whole(out, f, codes, pr, arrived);
        return true, false, out;
      }
    }
    if old(Listening(rx, sh)) && GoodBlocks(sh) {
      StillWaiting(rx, frames, codes, sh, pr);
    }
  }

  /** A session that is still open has not been sent enough. */
  lemma StillWaiting(rx: RxSession, frames: seq<seq<Octet>>, codes: seq<Mat>, sh: Shape, pr: Params)
    requires rx.Valid() && Fed(rx, codes, sh, pr, Arrived(frames, rx.frameSize)) && sh.Valid()
    requires HoldsAll(rx, frames, |frames|) && GoodBlocks(sh) && pr == ParamsFor(rx.table, sh)
    ensures !EnoughFor(Arrived(frames, rx.frameSize), sh, pr, rx.rnd)
  {
    hide RxSession.Valid, Size, FillPartition, Passes, AllEncoded, RxSession.Parts, RxSession.Holds, RxSession.Running,
      Sufficient, Sbn, Esi;
    var arrived, b := Arrived(frames, rx.frameSize), 0;
    if rx.active {
      b := rx.Waiting();
      var size, ids := Size(sh.Blocks(), b), rx.rq.Tally()[b].ids;
      forall x | x in NumbersOf(arrived, b) ensures x in ids {
        var k :| 0 <= k < |frames| && Passes(frames[k], rx.frameSize) && Sbn(frames[k]) == b && Esi(frames[k]) == x;
        assert rx.Holds(b, x);
      }
      if Sufficient(pr, rx.rnd, size, NumbersOf(arrived, b)) {
        SufficientMore(pr, rx.rnd, size, NumbersOf(arrived, b), ids);
      }
    } else {
      NothingHeld(rx, frames);
      TableGood(rx);
      NothingEnough(rx.table, rx.rnd, Size(sh.Blocks(), 0));
    }
    assert b < sh.z && !Sufficient(pr, rx.rnd, Size(sh.Blocks(), b), NumbersOf(arrived, b));
  }

  lemma NothingHeld(rx: RxSession, frames: seq<seq<Octet>>)
    requires !rx.active && HoldsAll(rx, frames, |frames|)
    ensures Arrived(frames, rx.frameSize) == {} && NumbersOf(Arrived(frames, rx.frameSize), 0) == {}
  {
    hide Passes, Sbn, Esi;
  }

  lemma TableGood(rx: RxSession)
    requires rx.Valid()
    ensures GoodTable(rx.table)
  {}

  lemma NothingEnough(table: Table, rnd: Rnd, k: nat)
    requires GoodTable(table) && 1 <= k <= MAX_SYMBOLS
    ensures !Sufficient(table(k), rnd, k, {})
  {
    hide Sufficient, ValidParams;
    if Sufficient(table(k), rnd, k, {}) {
      AtLeastK(table(k), rnd, k, {});
    }
  }

  /** What is in a and not in c is in a and not in b, or in b and not in c. */
  lemma Between(a: set<object>, b: set<object>, c: set<object>)
    ensures a - c <= (a - b) + (b - c)
  {}

  lemma NotFed(rx: RxSession, codes: seq<Mat>, sh: Shape, pr: Params, arrived: Numbers)
    requires !rx.active
    ensures Fed(rx, codes, sh, pr, arrived)
  {}

  /** A complete file is the one sent, and enough has arrived for each of its blocks. */
  lemma Whole(d: FileDecoder, f: Vec, codes: seq<Mat>, pr: Params, arrived: Numbers)
    requires d.Valid() && Received(d) && d.pr == pr && CodesOf(codes, f, d.sh, pr, d.rnd)
    requires AllEncoded(d.log, codes, d.sh, pr, d.rnd, arrived)
    ensures d.Eliminated() || d.Sound() ==> d.file[..] == f
    ensures EnoughFor(arrived, d.sh, pr, d.rnd)
  {
    hide CodesOf, FileDecoder.Sound, FileDecoder.Eliminated, Size, FillPartition, Encoded, Sufficient;
    if d.Eliminated() {
      d.EliminatedSound();
    }
    if d.Sound() {
      d.WholeFile(f, codes);
    }
    forall b | 0 <= b < d.sh.z ensures Sufficient(pr, d.rnd, Size(d.sh.Blocks(), b), NumbersOf(arrived, b)) {
      d.WholeEnough(b);
      assert NumbersIn(d.log, b) <= NumbersOf(arrived, b);
      SufficientMore(pr, d.rnd, Size(d.sh.Blocks(), b), NumbersIn(d.log, b), NumbersOf(arrived, b));
    }
  }
}
