/** From the writer on one end to the caller on the other. */
module EndToEnd {
  import opened Bytes
  import opened Frames
  import opened Sending
  import opened Receiving
  import opened Connections
  import opened Lifecycle
  import opened Sessions
  import opened Survival
  import W = Writer
  import WT = WriterTheorems
  import WR = WriterResults

  // --- receiving ------------------------------------------------------------------------------

  /** What an established connection's receiver sees of the events. */
  function Inputs(es: seq<Event>): seq<Input> {
    if es == [] then []
    else
      (match es[0]
       case ReadReady(recvs, _, reaction, _) => [Chunk(ReceiveAll(recvs).bs, reaction)]
       case InputProcessed(reaction) => [Input.InputProcessed(reaction)]
       case _ => []) + Inputs(es[1..])
  }

  lemma StepIsInput(c: Conn, e: Event)
    requires Inv(c) && c.stage.Connected? && Next(c, e).stage.Connected?
    ensures match e
            case ReadReady(recvs, _, reaction, _) =>
              Next(c, e).rcv == Step(c.rcv, Chunk(ReceiveAll(recvs).bs, reaction))
            case InputProcessed(reaction) => Next(c, e).rcv == Step(c.rcv, Input.InputProcessed(reaction))
            case _ => Next(c, e).rcv == c.rcv
  {
    hide SendLoop, ReceiveAll, Scan, Handshake;
    match e
    case ReadReady(recvs, _, _, _) => ScanBounds(c.rcv.(recv := c.rcv.recv + ReceiveAll(recvs).bs));
    case _ =>
  }

  lemma {:induction false} SessionIsInputs(c: Conn, es: seq<Event>)
    requires Inv(c) && StaysConnected(c, es)
    ensures c.rcv.head <= |c.rcv.recv| && Run(c, es).rcv == RunInputs(c.rcv, Inputs(es))
    decreases |es|
  {
    hide Next, Inv, Step, ReceiveAll;
    Sanity(c);
    if es != [] {
      NextInv(c, es[0]);
      NowConnected(Next(c, es[0]), es[1..]);
      StepIsInput(c, es[0]);
      SessionIsInputs(Next(c, es[0]), es[1..]);
      var rest := Inputs(es[1..]);
      match es[0]
      case ReadReady(recvs, _, reaction, _) => assert ([Chunk(ReceiveAll(recvs).bs, reaction)] + rest)[1..] == rest;
      case InputProcessed(reaction) => assert ([Input.InputProcessed(reaction)] + rest)[1..] == rest;
      case _ => assert [] + rest == rest;
    }
  }

  lemma NowConnected(c: Conn, es: seq<Event>)
    requires Inv(c) && StaysConnected(c, es)
    ensures c.stage.Connected?
  {
    hide Inv;
  }

  /** In one established session, with the peer sending the messages ps: whatever the reads, the other
      events and the caller's timing, the caller takes the first messages in order, and while idle
      exactly those complete in the bytes received. */
  lemma ResponsesArriveInOrder(c: Conn, es: seq<Event>, ps: seq<bytes>)
    requires Inv(c) && StaysConnected(c, es) && Fresh(c.rcv)
    requires Sendable(ps) && Received(Inputs(es)) <= Wire(ps)
    ensures var d := Run(c, es).rcv;
            |c.rcv.delivered| <= |d.delivered| &&
            var u := PayloadsOf(d.delivered[|c.rcv.delivered|..]);
            u.whole && u.payloads <= ps && |u.payloads| <= Complete(ps, |Received(Inputs(es))|) &&
            (d.idle ==> |u.payloads| == Complete(ps, |Received(Inputs(es))|))
  {
    hide Wire, Inputs, Received, RunInputs, StaysConnected, Run, PayloadsOf, Complete;
    SessionIsInputs(c, es);
    ChunkingDoesNotMatter(c.rcv, Inputs(es), ps);
  }

  /** So it is from the step that establishes the connection, even if the caller is still busy then. */
  lemma SessionDeliversInOrder(c: Conn, e: Event, es: seq<Event>, ps: seq<bytes>)
    requires Inv(c) && c.rcv.handler && !c.stage.Connected? && Inv(Next(c, e)) && StaysConnected(Next(c, e), es)
    requires Sendable(ps) && Received(Inputs(es)) <= Wire(ps)
    ensures var d := Run(Next(c, e), es).rcv;
            var before := |Next(c, e).rcv.delivered|;
            before <= |d.delivered| &&
            var u := PayloadsOf(d.delivered[before..]);
            u.whole && u.payloads <= ps && |u.payloads| <= Complete(ps, |Received(Inputs(es))|) &&
            (d.idle ==> |u.payloads| == Complete(ps, |Received(Inputs(es))|))
  {
    hide Wire, Inputs, Received, Run, PayloadsOf, Complete, Next, Fresh;
    NowConnected(Next(c, e), es);
    hide StaysConnected;
    ConnectedIsFresh(c, e);
    ResponsesArriveInOrder(Next(c, e), es, ps);
  }

  /** Told by the events alone: from the step that establishes the connection and for as long as the session
      is not disturbed, the caller takes the peer's messages in order, and while idle all that are complete. */
  lemma UndisturbedDelivery(c: Conn, e: Event, es: seq<Event>, ps: seq<bytes>)
    requires Inv(c) && c.rcv.handler && !c.stage.Connected? && Inv(Next(c, e)) && Next(c, e).stage.Connected?
    requires AllUndisturbed(es) && Sendable(ps) && Received(Inputs(es)) <= Wire(ps)
    ensures var d := Run(Next(c, e), es);
            var before := |Next(c, e).rcv.delivered|;
            d.stage.Connected? && before <= |d.rcv.delivered| &&
            var u := PayloadsOf(d.rcv.delivered[before..]);
            u.whole && u.payloads <= ps && |u.payloads| <= Complete(ps, |Received(Inputs(es))|) &&
            (d.rcv.idle ==> |u.payloads| == Complete(ps, |Received(Inputs(es))|))
  {
    hide Wire, Inputs, Received, Run, PayloadsOf, Complete, Next, StaysConnected, AllUndisturbed, Inv;
    Sanity(c);
    UndisturbedStays(Next(c, e), es);
    SessionDeliversInOrder(c, e, es, ps);
  }

  /** Messages composed by any run of iproto_writer on the peer, sent whole, cut and timed in any way:
      the idle caller has taken exactly those messages, each payload being the lead and the items the
      peer's calls put between. */
  lemma ComposedIsReceived(ops: seq<W.Op>, c: Conn, es: seq<Event>)
    requires WT.WellUsed(WR.EMPTY, ops) && W.Run(W.State([], []), ops).outcome == W.Done
    requires W.BuildAll(WR.EMPTY, ops).open == [] && WR.AllMessages(W.BuildAll(WR.EMPTY, ops).done)
    requires Inv(c) && StaysConnected(c, es) && Fresh(c.rcv) && Run(c, es).rcv.idle
    requires Received(Inputs(es)) == W.Run(W.State([], []), ops).state.buf
    ensures var d := Run(c, es).rcv;
            |c.rcv.delivered| <= |d.delivered| &&
            var u := PayloadsOf(d.delivered[|c.rcv.delivered|..]);
            u.whole && WR.Carries(u.payloads, W.BuildAll(WR.EMPTY, ops).done)
  {
    hide Wire, Inputs, Received, RunInputs, StaysConnected, Run, PayloadsOf, Unpack, Inv, Fresh;
    hide W.Run, W.BuildAll, WT.WellUsed, WR.Carries;
    WR.MessagesAreFrames([], ops);
    var buf := W.Run(W.State([], []), ops).state.buf;
    assert buf[0..] == buf;
    var u := Unpack(buf);
    SessionIsInputs(c, es);
    EveryMessageArrives(c.rcv, Inputs(es), u.payloads);
  }

  /** The same told by the events alone. */
  lemma UndisturbedComposedIsReceived(ops: seq<W.Op>, c: Conn, es: seq<Event>)
    requires WT.WellUsed(WR.EMPTY, ops) && W.Run(W.State([], []), ops).outcome == W.Done
    requires W.BuildAll(WR.EMPTY, ops).open == [] && WR.AllMessages(W.BuildAll(WR.EMPTY, ops).done)
    requires Inv(c) && c.stage.Connected? && AllUndisturbed(es) && Fresh(c.rcv) && Run(c, es).rcv.idle
    requires Received(Inputs(es)) == W.Run(W.State([], []), ops).state.buf
    ensures var d := Run(c, es).rcv;
            |c.rcv.delivered| <= |d.delivered| &&
            var u := PayloadsOf(d.delivered[|c.rcv.delivered|..]);
            u.whole && WR.Carries(u.payloads, W.BuildAll(WR.EMPTY, ops).done)
  {
    hide Inputs, Received, StaysConnected, AllUndisturbed, Run, PayloadsOf, Inv, Fresh;
    hide W.Run, W.BuildAll, WT.WellUsed, WR.Carries;
    UndisturbedStays(c, es);
    ComposedIsReceived(ops, c, es);
  }

  // --- sending --------------------------------------------------------------------------------

  function Appended(es: seq<Event>): bytes {
    if es == [] then [] else (if es[0].Append? then es[0].bs else []) + Appended(es[1..])
  }

  lemma {:induction false} TapeGivesAppended(t: Tape, c: Conn, es: seq<Event>)
    requires Inv(c)
    ensures TapeRun(t, c, es).given == t.given + Appended(es)
    decreases |es|
  {
    hide Next, Inv, Flushes;
    if es != [] {
      Sanity(c);
      NextInv(c, es[0]);
      var t' := TapeNext(t, c, es[0]);
      TapeGivesAppended(t', Next(c, es[0]), es[1..]);
      var head := if es[0].Append? then es[0].bs else [];
      assert t'.given == t.given + head;
      assert t.given + head + Appended(es[1..]) == t.given + (head + Appended(es[1..]));
    }
  }

  /** Requests composed by any run of iproto_writer, appended and flushed piece by piece in one session:
      once nothing is left to send, the socket has accepted exactly their frames, and the peer's
      repeated iproto_message() finds exactly those requests. */
  lemma ComposedIsSent(ops: seq<W.Op>, c: Conn, es: seq<Event>)
    requires WT.WellUsed(WR.EMPTY, ops) && W.Run(W.State([], []), ops).outcome == W.Done
    requires W.BuildAll(WR.EMPTY, ops).open == [] && WR.AllMessages(W.BuildAll(WR.EMPTY, ops).done)
    requires Inv(c) && StaysConnected(c, es) && !c.snd.corrupt && TailsFit(c, es)
    requires BytesToSend(c.snd) == 0 && c.snd.out == []
    requires Appended(es) == W.Run(W.State([], []), ops).state.buf
    requires BytesToSend(Run(c, es).snd) == 0 && Run(c, es).snd.out == []
    ensures c.snd.wire <= Run(c, es).snd.wire
    ensures var u := Unpack(Run(c, es).snd.wire[|c.snd.wire|..]);
            u.whole && WR.Carries(u.payloads, W.BuildAll(WR.EMPTY, ops).done)
  {
    var s := c.snd;
    assert Stream(s) == s.wire && |Flushed(s)| == |s.wire| by { assert Unsent(s) == []; }
    hide Appended, StaysConnected, TailsFit, Run, Unpack, Inv, TapeRun, Stream, Flushed;
    hide W.Run, W.BuildAll, WT.WellUsed, WR.Carries;
    var t := Tape(Stream(s), |Flushed(s)|);
    NothingLostInOrder(c, es);
    TapeGivesAppended(t, c, es);
    WR.MessagesAreFrames([], ops);
    var d := Run(c, es).snd;
    var buf := W.Run(W.State([], []), ops).state.buf;
    assert buf[0..] == buf;
    assert Unsent(d) == [];
    assert d.wire + Unsent(d) + d.out == d.wire;
    assert d.wire == s.wire + buf;
    assert d.wire[|s.wire|..] == buf;
  }

  /** The same told by the events alone. */
  lemma UndisturbedComposedIsSent(ops: seq<W.Op>, c: Conn, es: seq<Event>)
    requires WT.WellUsed(WR.EMPTY, ops) && W.Run(W.State([], []), ops).outcome == W.Done
    requires W.BuildAll(WR.EMPTY, ops).open == [] && WR.AllMessages(W.BuildAll(WR.EMPTY, ops).done)
    requires Inv(c) && c.stage.Connected? && AllUndisturbed(es) && !c.snd.corrupt && TailsFit(c, es)
    requires BytesToSend(c.snd) == 0 && c.snd.out == []
    requires Appended(es) == W.Run(W.State([], []), ops).state.buf
    requires BytesToSend(Run(c, es).snd) == 0 && Run(c, es).snd.out == []
    ensures c.snd.wire <= Run(c, es).snd.wire
    ensures var u := Unpack(Run(c, es).snd.wire[|c.snd.wire|..]);
            u.whole && WR.Carries(u.payloads, W.BuildAll(WR.EMPTY, ops).done)
  {
    hide Appended, StaysConnected, AllUndisturbed, TailsFit, Run, Unpack, Inv, BytesToSend;
    hide W.Run, W.BuildAll, WT.WellUsed, WR.Carries;
    UndisturbedStays(c, es);
    ComposedIsSent(ops, c, es);
  }
}
