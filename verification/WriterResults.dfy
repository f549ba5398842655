/** The writers' promises over whole runs, stated without the simulation relation. */
module WriterResults {
  import opened Bytes
  import opened MsgPack
  import opened Frames
  import opened Writer
  import opened WriterTheorems
  import opened Spellings

  const EMPTY: Forest := Forest([], [])

  lemma StartSimulates(start: bytes)
    ensures Simulates(State(start, []), EMPTY, start, start) && Honest(State(start, []), EMPTY, start, start)
  {
    assert start[|start|..] == [];
  }

  /** mp_writer: after any run that throws nothing and leaves nothing open, whatever the guesses, the
      bytes added are an encoding of exactly the values the calls describe, exactly when no container was
      closed after its 32-bit counter had wrapped. */
  lemma ClosedRunParsesBack(start: bytes, ops: seq<Op>, vs: seq<Value>)
    requires WellUsed(EMPTY, ops) && Run(State(start, []), ops).outcome == Done
    requires BuildAll(EMPTY, ops) == Forest(Tops(vs), [])
    ensures var w := Run(State(start, []), ops).state;
            w.stack == [] && start <= w.buf && (Encodes(w.buf[|start|..], vs) <==> CountsHold(EMPTY, ops))
  {
    hide Simulates, Honest, HonestTops, Run, BuildAll, WellUsed, CountsHold, Encodes, ReadAll, Tops;
    StartSimulates(start);
    var base := RunSimulates(State(start, []), EMPTY, start, start, ops);
    Depth(Run(State(start, []), ops).state, BuildAll(EMPTY, ops), start, base);
    TopsOfItems(base[|start|..], vs);
    EncodesHonestly(base[|start|..], vs);
  }

  /** A payload is the message's lead and then an encoding of exactly the items put after it. */
  ghost predicate CarriesOne(payload: bytes, top: Top) {
    top.Msg? && top.lead <= payload && Encodes(payload[|top.lead|..], top.items)
  }

  /** The payloads of finished messages. */
  ghost predicate Carries(payloads: seq<bytes>, done: seq<Top>) {
    |payloads| == |done| &&
    forall i | 0 <= i < |done| :: CarriesOne(payloads[i], done[i])
  }

  ghost predicate AllMessages(done: seq<Top>) {
    forall t | t in done :: t.Msg?
  }

  lemma {:induction false} TopsAreMessages(s: bytes, done: seq<Top>)
    requires TopsIn(s, done) && AllMessages(done)
    ensures Unpack(s).whole && Carries(Unpack(s).payloads, done)
    decreases |done|
  {
    hide TakeMessage, Encodes;
    if done != [] {
      var t := TakeMessage(s);
      assert done[0] in done;
      assert t.Message? && CarriesOne(t.payload, done[0]);
      TopsAreMessages(t.rest, done[1..]);
      var ps := Unpack(t.rest).payloads;
      assert s != [] by { hide TopsIn, TakeTop; NonEmpty(s); }
      forall i | 0 <= i < |done| ensures CarriesOne(([t.payload] + ps)[i], done[i]) {
        if i > 0 { assert done[i] == done[1..][i - 1]; }
      }
    }
  }

  lemma NonEmpty(s: bytes)
    requires TakeMessage(s).Message?
    ensures s != []
  {
  }

  /** iproto_writer: any sequence of messages, each closed by finalize, finalize_all or the next
      start_message, is a concatenation of frames 0xce + 32-bit length + payload, and each payload is
      what was put between. */
  lemma MessagesAreFrames(start: bytes, ops: seq<Op>)
    requires WellUsed(EMPTY, ops) && Run(State(start, []), ops).outcome == Done
    requires BuildAll(EMPTY, ops).open == [] && AllMessages(BuildAll(EMPTY, ops).done)
    ensures var w := Run(State(start, []), ops).state;
            start <= w.buf && var u := Unpack(w.buf[|start|..]);
            u.whole && Sendable(u.payloads) && w.buf[|start|..] == Wire(u.payloads) &&
            Carries(u.payloads, BuildAll(EMPTY, ops).done)
  {
    hide Simulates, Honest, CountsHold, Run, BuildAll, WellUsed, Encodes, Unpack, Carries, AllMessages;
    StartSimulates(start);
    var base := RunSimulates(State(start, []), EMPTY, start, start, ops);
    Depth(Run(State(start, []), ops).state, BuildAll(EMPTY, ops), start, base);
    TopsAreMessages(base[|start|..], BuildAll(EMPTY, ops).done);
    UnpackedIsWire(base[|start|..]);
  }
}
