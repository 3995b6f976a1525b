/** A whole broadcast: one session that sends a file and one that receives it. */
module EndToEnd {
  import opened GF256
  import opened Linear
  import opened Hdpc
  import opened Primes
  import opened Layout
  import opened Tuples
  import opened Scheduling
  import opened Sufficiency
  import opened TransferInfo
  import opened FileDecoding
  import opened Crc6
  import opened Frames
  import opened Receiving
  import opened Broadcast
  import opened Sending

  /** The symbols that the frames with these numbers are for. */
  function Delivered(arrivals: set<nat>, z: nat): Numbers
    requires z > 0
  {
    set n | n in arrivals :: (n % z, (n / z) % 0x1_0000)
  }

  /** If the first K rounds arrive, K being the size of the largest block, all source symbols are there. */
  lemma FirstRoundsEnough(arrivals: set<nat>, sh: Shape, pr: Params, rnd: Rnd)
    requires sh.Valid() && GoodBlocks(sh)
    requires forall n: nat :: n < Size(sh.Blocks(), 0) * sh.z ==> n in arrivals
    ensures EnoughFor(Delivered(arrivals, sh.z), sh, pr, rnd)
  {
    hide Size, FillPartition, Ambiguous, Delivered;
    forall b, e | 0 <= b < sh.z && 0 <= e < Size(sh.Blocks(), b) ensures (b, e) in Delivered(arrivals, sh.z) {
      FewSymbols(sh);
      FirstLargest(sh, b);
      RoundPlace(e, b, Size(sh.Blocks(), 0), sh.z);
      DeliveredAt(arrivals, sh.z, b, e, e * sh.z + b, e);
    }
    AllSourceEnough(Delivered(arrivals, sh.z), sh, pr, rnd);
  }

  /** If any 65536 rounds in a row arrive, wherever they start, that is enough as well. */
  lemma AnyTurnEnough(arrivals: set<nat>, start: nat, sh: Shape, pr: Params, rnd: Rnd)
    requires sh.Valid() && GoodBlocks(sh)
    requires forall n: nat :: start <= n < start + 0x1_0000 * sh.z ==> n in arrivals
    ensures EnoughFor(Delivered(arrivals, sh.z), sh, pr, rnd)
  {
    hide Size, FillPartition, Ambiguous, Delivered;
    forall b, e | 0 <= b < sh.z && 0 <= e < Size(sh.Blocks(), b) ensures (b, e) in Delivered(arrivals, sh.z) {
      var n, q := NextTurn(start, sh.z, b, e);
      DeliveredAt(arrivals, sh.z, b, e, n, q);
    }
    AllSourceEnough(Delivered(arrivals, sh.z), sh, pr, rnd);
  }

  lemma AllSourceEnough(arrived: Numbers, sh: Shape, pr: Params, rnd: Rnd)
    requires sh.t > 0 && forall b, e :: 0 <= b < sh.z && 0 <= e < Size(sh.Blocks(), b) ==> (b, e) in arrived
    ensures EnoughFor(arrived, sh, pr, rnd)
  {
    hide Size, FillPartition, Ambiguous;
    forall b, e | 0 <= b < sh.z && 0 <= e < Size(sh.Blocks(), b) ensures e in NumbersOf(arrived, b) {
      assert (b, e) in arrived;
    }
  }

  lemma RoundPlace(e: nat, b: nat, k: nat, z: nat)
    requires e < k && b < z
    ensures e * z + b < k * z
  {
    MulOrder(e + 1, k, z);
    Layout.Distribute(e, 1, z);
  }

  /** Frame q * z + b carries symbol q mod 65536 of block b. */
  lemma DeliveredAt(arrivals: set<nat>, z: nat, b: nat, e: nat, n: nat, q: nat)
    requires b < z && e < 0x1_0000 && n == q * z + b && q % 0x1_0000 == e && n in arrivals
    ensures (b, e) in Delivered(arrivals, z)
  {
    DivModUnique(n, z, q, b);
  }

  /** The first frame from `start` on that carries symbol e of block b. */
  lemma NextTurn(start: nat, z: nat, b: nat, e: nat) returns (n: nat, q: nat)
    requires b < z && e < 0x1_0000
    ensures start <= n < start + 0x1_0000 * z && n == q * z + b && q % 0x1_0000 == e
  {
    Recompose(start, z);
    var first := start / z + if b >= start % z then 0 else 1;
    var d := (e - first) % 0x1_0000;
    q := first + d;
    n := q * z + b;
    FirstTurn(start / z, start % z, z, b, first);
    LaterTurn(first, d, z);
    TurnNumber(first, e);
  }

  lemma FirstTurn(s: nat, r: nat, z: nat, b: nat, first: nat)
    requires r < z && b < z && first == s + if b >= r then 0 else 1
    ensures s * z + r <= first * z + b < s * z + r + z
  {
    if b < r {
      Layout.Distribute(s, 1, z);
    }
  }

  lemma LaterTurn(first: nat, d: nat, z: nat)
    requires d <= 0xFFFF
    ensures first * z <= (first + d) * z <= first * z + 0xFFFF * z
  {
    Layout.Distribute(first, d, z);
    MulOrder(d, 0xFFFF, z);
  }

  lemma TurnNumber(first: nat, e: nat)
    requires e < 0x1_0000
    ensures (first + (e - first) % 0x1_0000) % 0x1_0000 == e
  {}

  /** A frame on its way: its number, and the error pattern that is added to its bytes. */
  datatype Arrival = Arrival(n: nat, errors: seq<Octet>)

  /** The numbers of the frames that arrive without errors. */
  function Intact(arrivals: seq<Arrival>): set<nat> {
    set a | a in arrivals && Clean(a.errors) :: a.n
  }

  predicate Clean(errors: seq<Octet>) {
    forall k :: 0 <= k < |errors| ==> errors[k] == 0
  }

  /** No error pattern is one that the checksum does not see, other than none at all. */
  predicate Seen(arrivals: seq<Arrival>, frameSize: nat) {
    forall a :: a in arrivals ==> |a.errors| == frameSize && (Slips(a.errors) ==> Clean(a.errors))
  }

  lemma CleanHit(frame: seq<Octet>, errors: seq<Octet>)
    requires |errors| == |frame| && Clean(errors)
    ensures Hit(frame, errors) == frame
  {
    hide Add;
    forall k | 0 <= k < |frame| ensures Hit(frame, errors)[k] == frame[k] {
      AddZero(frame[k]);
    }
  }

  /** A frame that was sent passes on arrival if and only if it has no errors, and then it is as it was sent. */
  lemma ArrivesIff(frame: seq<Octet>, errors: seq<Octet>, frameSize: nat)
    requires Passes(frame, frameSize) && |errors| == frameSize == |frame| && (Slips(errors) ==> Clean(errors))
    ensures Passes(Hit(frame, errors), frameSize) <==> Clean(errors)
    ensures Clean(errors) ==> Hit(frame, errors) == frame
  {
    hide Passes, Slips;
    HitPassesIff(frame, errors, frameSize);
    if Clean(errors) {
      CleanHit(frame, errors);
    }
  }

  lemma DeliveredArrived(frames: seq<seq<Octet>>, arrivals: seq<Arrival>, delivered: seq<seq<Octet>>, frameSize: nat,
                         sh: Shape)
    requires sh.Valid() && frameSize == HEADER_SIZE + sh.t && |delivered| == |arrivals| && Seen(arrivals, frameSize)
    requires forall k :: 0 <= k < |frames| ==> OnCarousel(frames[k], k, sh) && |frames[k]| == frameSize
    requires forall i :: 0 <= i < |arrivals| ==>
      arrivals[i].n < |frames| && delivered[i] == Hit(frames[arrivals[i].n], arrivals[i].errors)
    ensures forall i :: 0 <= i < |arrivals| ==> (Passes(delivered[i], frameSize) <==> Clean(arrivals[i].errors))
    ensures forall i :: 0 <= i < |arrivals| && Clean(arrivals[i].errors) ==> delivered[i] == frames[arrivals[i].n]
    ensures Arrived(delivered, frameSize) == Delivered(Intact(arrivals), sh.z)
  {
    hide Passes, Sbn, Esi, Slips, Clean, Hit;
    forall i | 0 <= i < |arrivals|
      ensures Passes(delivered[i], frameSize) <==> Clean(arrivals[i].errors)
      ensures Clean(arrivals[i].errors) ==> delivered[i] == frames[arrivals[i].n]
    {
      assert arrivals[i] in arrivals && OnCarousel(frames[arrivals[i].n], arrivals[i].n, sh);
      ArrivesIff(frames[arrivals[i].n], arrivals[i].errors, frameSize);
    }
    forall x ensures x in Arrived(delivered, frameSize) <==> x in Delivered(Intact(arrivals), sh.z) {
      if x in Arrived(delivered, frameSize) {
        var k :| 0 <= k < |delivered| && Passes(delivered[k], frameSize) && x == (Sbn(delivered[k]), Esi(delivered[k]));
        assert arrivals[k] in arrivals && arrivals[k].n in Intact(arrivals);
        assert OnCarousel(frames[arrivals[k].n], arrivals[k].n, sh);
      }
      if x in Delivered(Intact(arrivals), sh.z) {
        var n :| n in Intact(arrivals) && x == (n % sh.z, (n / sh.z) % 0x1_0000);
        var a :| a in arrivals && Clean(a.errors) && a.n == n;
        var k :| 0 <= k < |arrivals| && arrivals[k] == a;
        assert OnCarousel(frames[n], n, sh) && Passes(delivered[k], frameSize);
      }
    }
  }

  /**
   Any of the frames of a sent file may arrive, in any order and any number of times, and with any errors that
   the checksum sees.  Unless the solver ends the program or the receiver has just completed this very transfer, a
   file is reported complete if and only if the symbols that arrived without errors are enough for every block.  It
   is the file that was sent if elimination recorded an operation for every repair.
   */
  method SendAndReceive(tx: TxSession, rx: RxSession, limit: nat, arrivals: seq<Arrival>)
    returns (received: bool, crashed: bool, out: FileDecoder?)
    requires tx.Valid() && (tx.Eliminated() || tx.Ready()) && tx.nextSbn == 0 && limit < 0x7FFF_FFFF
    requires Seen(arrivals, rx.frameSize) && forall i :: 0 <= i < |arrivals| ==> arrivals[i].n < limit
    requires rx.Valid() && !rx.active && rx.rnd == tx.rnd && rx.frameSize == HEADER_SIZE + tx.sh.t
    requires tx.pr == ParamsFor(rx.table, tx.sh)
    requires ({tx as object, tx.esi as object, tx.file as object} + tx.repr) !! ({rx as object} + rx.Parts())
    modifies tx`nextSbn, tx.esi, tx.repr, rx, rx.Parts()
    ensures received ==> out != null && out.sh == tx.sh && !crashed
    ensures received && (out.Eliminated() || out.Sound()) ==> out.file[..] == old(tx.file[..])
    ensures received ==> EnoughFor(Delivered(Intact(arrivals), tx.sh.z), tx.sh, tx.pr, tx.rnd)
    ensures !crashed && GoodBlocks(tx.sh) && old(Listening(rx, tx.sh)) ==>
      (received <==> EnoughFor(Delivered(Intact(arrivals), tx.sh.z), tx.sh, tx.pr, tx.rnd))
    ensures crashed ==> rx.rq != null && rx.rq.sh == tx.sh
    ensures crashed ==> exists n :: n in Intact(arrivals) && SolverFailed(rx.rq, n % tx.sh.z)
  {
    hide TxSession.Valid, TxSession.Ready, TxSession.Eliminated, TxSession.Codes, RxSession.Valid, Passes, Sent,
      CodesOf, Size, FillPartition, OnCarousel, Listening, GoodBlocks, EnoughFor, SolverFailed, Arrived,
      FileDecoder.Sound, FileDecoder.Eliminated, Clean, Hit, Seen, Intact;
    if tx.Eliminated() {
      tx.EliminatedReady();
    }
    ghost var codes, f := tx.Codes(), tx.file[..];
    tx.CodesReady();
    var frames := SendFrames(tx, limit);
    FrameSizes(frames, tx.sh);
    SeenSizes(arrivals, rx.frameSize);
    var delivered := seq(|arrivals|, i requires 0 <= i < |arrivals| => Hit(frames[arrivals[i].n], arrivals[i].errors));
    DeliveredArrived(frames, arrivals, delivered, rx.frameSize, tx.sh);
    received, crashed, out := ReceiveFile(rx, delivered, f, codes, tx.sh, tx.pr);
  }

  lemma FrameSizes(frames: seq<seq<Octet>>, sh: Shape)
    requires sh.Valid() && forall k :: 0 <= k < |frames| ==> OnCarousel(frames[k], k, sh)
    ensures forall k :: 0 <= k < |frames| ==> |frames[k]| == HEADER_SIZE + sh.t
  {}

  lemma SeenSizes(arrivals: seq<Arrival>, frameSize: nat)
    requires Seen(arrivals, frameSize)
    ensures forall i :: 0 <= i < |arrivals| ==> |arrivals[i].errors| == frameSize
  {}
}
