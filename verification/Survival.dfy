/** What an established session survives, and what ends it; and the stream theorems told by the events alone. */
module Survival {
  import opened Bytes
  import opened Sending
  import opened Receiving
  import opened Connections
  import opened Lifecycle
  import opened Sessions

  /** The answers of send while an event is handled in an established session. */
  function AnswersTo(e: Event): seq<SendResult> {
    match e
    case FlushCall(io) => io.script
    case WriteReady(io) => io.script
    case _ => []
  }

  /** The caller does not close, no send reports an error, and no recv an error or the end of the stream. */
  ghost predicate Undisturbed(e: Event) {
    !e.CloseCall? && Refused !in AnswersTo(e) &&
    (e.ReadReady? ==> forall r | r in e.recvs :: !r.RecvFailed? && r != Data([]))
  }

  ghost predicate AllUndisturbed(es: seq<Event>) {
    forall e | e in es :: Undisturbed(e)
  }

  // --- receiving ------------------------------------------------------------------------------

  /** recv has nothing more for now, or ends the session. */
  predicate Stops(r: Recv) {
    !r.RecvInterrupted? && (r.Data? ==> r.bs == [])
  }

  /** Everything before the first recv that stops the loop. */
  function AllData(recvs: seq<Recv>): bytes {
    if recvs == [] then [] else (if recvs[0].Data? then recvs[0].bs else []) + AllData(recvs[1..])
  }

  /** The recv loop takes all data before the first recv that stops it, and ends the session exactly when
      that one is an error or the end of the stream. */
  lemma {:induction false} ReceiveStops(a: seq<Recv>, b: seq<Recv>)
    requires (forall r | r in a :: !Stops(r)) && (b != [] ==> Stops(b[0]))
    ensures var r := ReceiveAll(a + b);
            r.bs == AllData(a) && (r.Ended? <==> b != [] && !b[0].NoMore?)
    decreases |a|
  {
    if a == [] {
      assert a + b == b;
    } else {
      assert a[0] in a && forall r | r in a[1..] :: r in a;
      assert (a + b)[0] == a[0] && (a + b)[1..] == a[1..] + b;
      ReceiveStops(a[1..], b);
    }
  }

  lemma {:induction false} NothingEnds(recvs: seq<Recv>)
    requires forall r | r in recvs :: !r.RecvFailed? && r != Data([])
    ensures ReceiveAll(recvs).Arrived?
    decreases |recvs|
  {
    if recvs != [] {
      assert recvs[0] in recvs && forall r | r in recvs[1..] :: r in recvs;
      NothingEnds(recvs[1..]);
    }
  }

  // --- one event ------------------------------------------------------------------------------

  /** An established session ends at exactly these events: the caller closes it; a read comes upon an error
      or the end of the stream; or a write, of what stands in the send buffer or of what a flush puts there,
      fails. */
  lemma SessionEndsExactly(c: Conn, e: Event)
    requires Inv(c) && c.stage.Connected?
    ensures !Next(c, e).stage.Connected? <==>
            match e
            case CloseCall(_) => true
            case ReadReady(recvs, _, _, _) => ReceiveAll(recvs).Ended?
            case WriteReady(io) => SendLoop(c.snd, io.script).stop.Failed?
            case FlushCall(io) =>
              c.snd.out != [] && Unsent(c.snd) == [] && SendLoop(SwapAll(c.snd), io.script).stop.Failed?
            case _ => false
    ensures !Next(c, e).stage.Connected? ==>
              Next(c, e).stage.Disconnected? && !Next(c, e).socket && (!e.CloseCall? ==> Next(c, e).ticks == 0)
  {
    hide SendLoop, ReceiveAll, Scan;
    match e
    case ReadReady(recvs, _, _, _) => ScanBounds(c.rcv.(recv := c.rcv.recv + ReceiveAll(recvs).bs));
    case _ =>
  }

  lemma UndisturbedStep(c: Conn, e: Event)
    requires Inv(c) && c.stage.Connected? && Undisturbed(e)
    ensures Next(c, e).stage.Connected?
  {
    SessionEndsExactly(c, e);
    match e
    case ReadReady(recvs, _, _, _) => NothingEnds(recvs);
    case WriteReady(io) => FailureIsReported(c.snd, io.script);
    case FlushCall(io) => if Unsent(c.snd) == [] { FailureIsReported(SwapAll(c.snd), io.script); }
    case _ =>
    hide Next, Inv, SendLoop;
  }

  /** A session that is not disturbed stays established, whatever else happens: short sends, EAGAIN, EINTR,
      arrivals of any kind, appends, flushes, ticks. */
  lemma {:induction false} UndisturbedStays(c: Conn, es: seq<Event>)
    requires Inv(c) && c.stage.Connected? && AllUndisturbed(es)
    ensures StaysConnected(c, es) && Run(c, es).stage.Connected?
    decreases |es|
  {
    hide Next, Inv, Undisturbed;
    Sanity(c);
    if es != [] {
      assert es[0] in es && forall e | e in es[1..] :: e in es;
      NextInv(c, es[0]);
      UndisturbedStep(c, es[0]);
      UndisturbedStays(Next(c, es[0]), es[1..]);
    }
  }

  /** EAGAIN on the spot changes nothing at all: the bytes stay, and so does the watch for writing. */
  lemma BlockedWriteWaits(c: Conn, io: Io)
    requires Inv(c) && c.stage.Connected? && Unsent(c.snd) != [] && io.script != [] && io.script[0].WouldBlock?
    ensures Next(c, WriteReady(io)) == c && c.watch == WatchReadWrite
  {
  }

  // --- the request numbers --------------------------------------------------------------------

  function NumbersTaken(es: seq<Event>): nat {
    if es == [] then 0 else (if es[0].TakeRequestId? then 1 else 0) + NumbersTaken(es[1..])
  }

  lemma NumberStep(c: Conn, e: Event)
    requires Inv(c) && c.stage.Connected? && Next(c, e).stage.Connected?
    ensures Next(c, e).nextId ==
            if !e.TakeRequestId? then c.nextId else if c.nextId == 0xffff_ffff_ffff_ffff then 0 else c.nextId + 1
  {
    hide SendLoop, ReceiveAll, Scan, Searched, Shaken, Watched;
    if e.ReadReady? { ScanBounds(c.rcv.(recv := c.rcv.recv + ReceiveAll(e.recvs).bs)); }
  }

  /** In a session request numbers are given out one after the other, and none twice among 2^64. */
  lemma {:induction false} NumbersCountUp(c: Conn, es: seq<Event>)
    requires Inv(c) && c.stage.Connected? && AllUndisturbed(es)
    ensures Run(c, es).nextId == (c.nextId + NumbersTaken(es)) % 0x1_0000_0000_0000_0000
    decreases |es|
  {
    hide Next, Inv, Undisturbed;
    Sanity(c);
    if es != [] {
      assert es[0] in es && forall e | e in es[1..] :: e in es;
      NextInv(c, es[0]);
      UndisturbedStep(c, es[0]);
      NumberStep(c, es[0]);
      NumbersCountUp(Next(c, es[0]), es[1..]);
    }
  }

  // --- the streams ----------------------------------------------------------------------------

  /** Conservation and progress over every undisturbed run in which the tails fit: the session stays; accepted
      ++ unsent ++ output is everything appended, in order; nothing past the last flush mark is out; and once
      the socket has answered as many write events as there were bytes to send, everything that was flushed
      at the start is. */
  lemma UndisturbedStream(c: Conn, es: seq<Event>)
    requires Inv(c) && c.stage.Connected? && AllUndisturbed(es) && !c.snd.corrupt && TailsFit(c, es)
    ensures var d := Run(c, es);
            var t := TapeRun(Tape(Stream(c.snd), |Flushed(c.snd)|), c, es);
            d.stage.Connected? && t.mark <= |t.given| &&
            d.snd.wire + Unsent(d.snd) + d.snd.out == t.given &&
            c.snd.wire <= d.snd.wire <= t.given[..t.mark] &&
            BytesToSend(d.snd) == t.mark - |d.snd.wire| &&
            (Answered(es) >= BytesToSend(c.snd) ==> Flushed(c.snd) <= d.snd.wire)
  {
    hide Run, TapeRun, TailsFit, Stream, Flushed, BytesToSend, AllUndisturbed, StaysConnected;
    UndisturbedStays(c, es);
    NothingLostInOrder(c, es);
    if Answered(es) >= BytesToSend(c.snd) { FlushedIsAccepted(c, es); }
  }
}
