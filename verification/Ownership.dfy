/** Who owns the received bytes: the caller's buffer, and the greeting of the next session. */
module Ownership {
  import opened Bytes
  import opened MsgPack
  import opened Frames
  import opened Options
  import opened Iproto
  import opened Sending
  import opened Receiving
  import opened Connections
  import opened Lifecycle
  import opened Sessions
  import Reader

  // --- ownership of the input buffer ----------------------------------------------------------

  /** Between on_response and input_processed() nothing the connection does, not even closing and
      reconnecting, touches the buffer the caller works on or hands it another. */
  lemma CallerOwnsInput(c: Conn, e: Event)
    requires Inv(c) && !c.rcv.idle && !e.InputProcessed?
    ensures var r := Next(c, e).rcv;
            r.input == c.rcv.input && r.delivered == c.rcv.delivered && !r.idle
  {
    hide SendLoop, Read, TryAddresses, Watched, Shaken, NoJam, Searched, Heard, Emptied, Place;
    match e
    case ReadReady(recvs, io, reaction, scramble) => ReadKeepsInput(c, recvs, io, reaction, scramble);
    case AddressesFound(addrs) => TryKeepsInput(c.(resolver := None), addrs);
    case _ =>
  }

  /** So it is over any run in which the caller does not call input_processed(). */
  lemma {:induction false} CallerOwnsInputThroughout(c: Conn, es: seq<Event>)
    requires Inv(c) && !c.rcv.idle && forall e | e in es :: !e.InputProcessed?
    ensures var r := Run(c, es).rcv;
            r.input == c.rcv.input && r.delivered == c.rcv.delivered && !r.idle
    decreases |es|
  {
    hide Run, Next, Inv;
    if es == [] {
      RunNone(c);
    } else {
      assert es[0] in es && forall e | e in es[1..] :: e in es;
      RunOne(c, es);
      CallerOwnsInput(c, es[0]);
      CallerOwnsInputThroughout(Next(c, es[0]), es[1..]);
    }
  }

  ghost predicate SameInput(r: Receiver, s: Receiver) {
    r.input == s.input && r.delivered == s.delivered && r.idle == s.idle
  }

  lemma {:induction false} TryKeepsInput(c: Conn, addrs: seq<ConnectResult>)
    ensures SameInput(TryAddresses(c, addrs).rcv, c.rcv)
    decreases |addrs|
  {
    if addrs != [] && addrs[0].NoSocket? { TryKeepsInput(c, addrs[1..]); }
  }

  lemma DrainKeepsInput(c: Conn, script: seq<SendResult>)
    requires c.snd.next <= |c.snd.send| && c.snd.uncorked <= |c.snd.out|
    ensures SameInput(Drain(c, script).rcv, c.rcv)
  {
    hide SendLoop;
  }

  lemma ProceedKeepsInput(c: Conn, io: Io, scramble: bytes)
    requires c.nextId < U64 && c.snd.uncorked <= |c.snd.out|
    ensures SameInput(Proceed(c, io, scramble).rcv, c.rcv)
  {
    hide Drain;
    var request := AuthRequest(c.nextId, c.parts.user, c.serverProto.auth, scramble);
    hide AuthRequest;
    if request.Some? {
      DrainKeepsInput(c.(rcv := Cleared(c.rcv), stage := Authentication, nextId := (c.nextId + 1) % U64,
                         snd := Place(c.snd, request.value)), io.script);
    }
  }

  lemma HandshakeKeepsInput(c: Conn, io: Io, scramble: bytes)
    requires Sane(c)
    ensures SameInput(Handshake(c, io, scramble).rcv, c.rcv)
  {
    hide Proceed, ReplyOf, ProtoOf;
    var r := ReplyOf(c.rcv.recv);
    if r.Some? {
      var d := c.(replies := c.replies + [Reply(c.stage, r.value.0)]);
      ProceedKeepsInput(d, io, scramble);
      var p := ProtoOf(r.value.1, c.serverProto);
      if p.Some? { ProceedKeepsInput(d.(serverProto := p.value), io, scramble); }
    }
  }

  lemma ReadKeepsInput(c: Conn, recvs: seq<Recv>, io: Io, reaction: Reaction, scramble: bytes)
    requires Inv(c) && !c.rcv.idle
    ensures SameInput(Read(c, recvs, io, reaction, scramble).rcv, c.rcv)
  {
    hide SendLoop, Handshake, IdRequest, Scan, ReceiveAll;
    var d := c.(rcv := c.rcv.(recv := c.rcv.recv + ReceiveAll(recvs).bs));
    ScanBounds(d.rcv);
    HandshakeKeepsInput(d.(rcv := Scan(d.rcv)), io, scramble);
  }

  /** A read() that ends with the peer's close or an error looks at nothing it received: no response
      among the arrived bytes is handed over, and none of those bytes is kept. */
  lemma ClosingReadDropsArrivals(c: Conn, recvs: seq<Recv>, io: Io, reaction: Reaction, scramble: bytes)
    requires Inv(c) && c.socket && ReceiveAll(recvs).Ended?
    ensures var d := Read(c, recvs, io, reaction, scramble);
            d.stage.Disconnected? && d.ticks == 0 && d.rcv.delivered == c.rcv.delivered &&
            d.rcv.recv == c.rcv.recv[..c.rcv.head]
  {
    hide ReceiveAll, Shaken, NoJam;
    assert (c.rcv.recv + ReceiveAll(recvs).bs)[..c.rcv.head] == c.rcv.recv[..c.rcv.head];
  }

  // --- the greeting ---------------------------------------------------------------------------

  /** The reference: all bytes read from the socket in use, `t` being those before this event. */
  function ReadOn(c: Conn, e: Event, t: bytes): bytes
    requires Sane(c)
  {
    if c.socket then (if e.ReadReady? then t + ReceiveAll(e.recvs).bs else t)
    else if Next(c, e).socket then []
    else t
  }

  function SocketBytes(c: Conn, es: seq<Event>, t: bytes): bytes
    requires Inv(c)
    decreases |es|
  {
    if es == [] then t
    else
      NextInv(c, es[0]);
      SocketBytes(Next(c, es[0]), es[1..], ReadOn(c, es[0], t))
  }

  /** While connecting, what follows the whole responses in the buffer is what this socket has given. */
  ghost predicate HoldsSocketBytes(c: Conn, t: bytes) {
    c.stage.Connecting? ==> c.rcv.head <= |c.rcv.recv| && c.rcv.recv[c.rcv.head..] == t
  }

  lemma {:induction false} TryKeepsReceiver(c: Conn, addrs: seq<ConnectResult>)
    ensures var d := TryAddresses(c, addrs); d.stage.Connecting? && !c.stage.Connecting? ==> d.rcv == c.rcv && d.socket
    decreases |addrs|
  {
    if addrs != [] && addrs[0].NoSocket? { TryKeepsReceiver(c, addrs[1..]); }
  }

  lemma StepHoldsSocketBytes(c: Conn, e: Event, t: bytes)
    requires Inv(c) && HoldsSocketBytes(c, t)
    ensures HoldsSocketBytes(Next(c, e), ReadOn(c, e, t))
  {
    hide SendLoop, TryAddresses, Read;
    match e
    case AddressesFound(addrs) => TryKeepsReceiver(c.(resolver := None), addrs);
    case ReadReady(recvs, io, reaction, scramble) =>
      if c.socket { ReadHoldsSocketBytes(c, recvs, io, reaction, scramble); }
      else { NothingToRead(c, recvs, io, reaction, scramble); }
    case InputProcessed(reaction) =>
      if c.stage.Connecting? { assert c.rcv.recv[c.rcv.head..][0..] == c.rcv.recv[c.rcv.head..]; }
    case _ =>
  }

  lemma ReadHoldsSocketBytes(c: Conn, recvs: seq<Recv>, io: Io, reaction: Reaction, scramble: bytes)
    requires Inv(c) && c.socket
    ensures var d := Read(c, recvs, io, reaction, scramble);
            d.stage.Connecting? ==>
              c.stage.Connecting? && d.rcv == c.rcv.(recv := c.rcv.recv + ReceiveAll(recvs).bs) &&
              d.rcv.recv[d.rcv.head..] == c.rcv.recv[c.rcv.head..] + ReceiveAll(recvs).bs
  {
    hide ReceiveAll, Process, Greet;
    var d := c.(rcv := c.rcv.(recv := c.rcv.recv + ReceiveAll(recvs).bs));
    GreetMoves(d, io);
    if InSession(c.stage) { ProcessNeverDials(d, io, reaction, scramble); }
  }

  lemma ProcessNeverDials(c: Conn, io: Io, reaction: Reaction, scramble: bytes)
    requires Sane(c) && c.socket && InSession(c.stage)
    ensures !Process(c, io, reaction, scramble).stage.Connecting?
  {
    hide Scan, Handshake, Pass;
    ScanBounds(c.rcv);
    if !c.stage.Connected? { HandshakeMoves(c.(rcv := Scan(c.rcv)), io, scramble); }
  }

  lemma {:induction false} RunHoldsSocketBytes(c: Conn, es: seq<Event>, t: bytes)
    requires Inv(c) && HoldsSocketBytes(c, t)
    ensures HoldsSocketBytes(Run(c, es), SocketBytes(c, es, t))
    decreases |es|
  {
    hide Next, Inv, HoldsSocketBytes, ReadOn;
    if es != [] {
      Sanity(c);
      NextInv(c, es[0]);
      StepHoldsSocketBytes(c, es[0], t);
      RunHoldsSocketBytes(Next(c, es[0]), es[1..], ReadOn(c, es[0], t));
    }
  }

  lemma GreetingIsBuffer(c: Conn, e: Event)
    requires Inv(c) && c.stage.Connecting? && e.ReadReady? && Next(c, e).stage.FeaturesRequest?
    ensures var d := Next(c, e);
            d.greeting == c.rcv.recv + ReceiveAll(e.recvs).bs && d.rcv.recv == [] && d.rcv.delivered == c.rcv.delivered
  {
    hide SendLoop, IdRequest, ReceiveAll;
  }

  /** Over every run from creation, when a read completes the greeting: it is whatever whole responses of
      the previous session still wait for a busy caller, then exactly the bytes read from this socket. So
      it holds only those bytes exactly when nothing was waiting; and waiting responses are lost, as they
      were never handed over and the receive buffer is empty now. */
  lemma GreetingIsPureExactly(target: Target, room: nat, handler: bool, es: seq<Event>, e: Event)
    requires Inv(Created(target, room, handler))
    requires var c := Run(Created(target, room, handler), es);
             c.stage.Connecting? && e.ReadReady? && Inv(c) && Next(c, e).stage.FeaturesRequest?
    ensures var c := Run(Created(target, room, handler), es);
            var d := Next(c, e);
            var read := ReadOn(c, e, SocketBytes(Created(target, room, handler), es, []));
            c.rcv.head <= |c.rcv.recv| && d.greeting == c.rcv.recv[..c.rcv.head] + read &&
            (d.greeting == read <==> c.rcv.head == 0) &&
            d.rcv.recv == [] && d.rcv.delivered == c.rcv.delivered
  {
    var start := Created(target, room, handler);
    hide Run, SocketBytes, Next;
    var c := Run(start, es);
    var t := SocketBytes(start, es, []);
    RunHoldsSocketBytes(start, es, []);
    GreetingIsBuffer(c, e);
    Sanity(c);
    var bs := ReceiveAll(e.recvs).bs;
    assert c.rcv.recv == c.rcv.recv[..c.rcv.head] + t;
    assert c.rcv.recv[..c.rcv.head] + t + bs == c.rcv.recv[..c.rcv.head] + (t + bs);
    assert c.socket by { hide Sane; }
  }

  /** No session is entered. */
  ghost predicate StaysOutside(c: Conn, es: seq<Event>)
    requires Inv(c)
    decreases |es|
  {
    !InSession(c.stage) && (es != [] ==> (NextInv(c, es[0]); StaysOutside(Next(c, es[0]), es[1..])))
  }

  lemma IdleStep(c: Conn, e: Event)
    requires Inv(c) && c.rcv.idle && !InSession(c.stage) && !InSession(Next(c, e).stage)
    ensures Next(c, e).rcv.idle
  {
    hide SendLoop, TryAddresses, Read;
    match e
    case AddressesFound(addrs) => TryKeepsIdle(c.(resolver := None), addrs);
    case ReadReady(recvs, io, reaction, scramble) => ReadKeepsIdle(c, recvs, io, reaction, scramble);
    case _ =>
  }

  lemma {:induction false} TryKeepsIdle(c: Conn, addrs: seq<ConnectResult>)
    ensures TryAddresses(c, addrs).rcv.idle == c.rcv.idle
    decreases |addrs|
  {
    if addrs != [] && addrs[0].NoSocket? { TryKeepsIdle(c, addrs[1..]); }
  }

  lemma ReadKeepsIdle(c: Conn, recvs: seq<Recv>, io: Io, reaction: Reaction, scramble: bytes)
    requires Inv(c) && c.rcv.idle && !InSession(c.stage)
    ensures Read(c, recvs, io, reaction, scramble).rcv.idle
  {
    hide SendLoop, IdRequest, ReceiveAll, Process;
  }

  lemma {:induction false} IdleStays(c: Conn, es: seq<Event>)
    requires Inv(c) && c.rcv.idle && StaysOutside(c, es)
    ensures Run(c, es).rcv.idle && Run(c, es).rcv.head == 0
    decreases |es|
  {
    hide Next, InSession;
    if es != [] {
      NextInv(c, es[0]);
      OutsideNow(Next(c, es[0]), es[1..]);
      IdleStep(c, es[0]);
      IdleStays(Next(c, es[0]), es[1..]);
    }
  }

  lemma OutsideNow(c: Conn, es: seq<Event>)
    requires Inv(c) && StaysOutside(c, es)
    ensures !InSession(c.stage)
  {
    hide Inv, InSession;
  }

  /** In particular: if the caller is idle when the connection is closed, then however many attempts fail
      in between, the next greeting holds exactly the bytes read from the socket it came on. */
  lemma IdleAtCloseGetsPureGreeting(c: Conn, es: seq<Event>, e: Event)
    requires Inv(c) && !c.socket && c.rcv.idle && StaysOutside(c, es)
    requires var d := Run(c, es); d.stage.Connecting? && e.ReadReady? && Inv(d) && Next(d, e).stage.FeaturesRequest?
    ensures Next(Run(c, es), e).greeting == ReadOn(Run(c, es), e, SocketBytes(c, es, []))
  {
    hide Run, SocketBytes, Next, StaysOutside;
    RunHoldsSocketBytes(c, es, []);
    IdleStays(c, es);
    var d := Run(c, es);
    GreetingIsBuffer(d, e);
    assert d.rcv.recv[0..] == d.rcv.recv;
  }

  // --- it happens -----------------------------------------------------------------------------

  const SILENT := Io([], false)
  const EMPTY_MESSAGE: bytes := [0xce, 0, 0, 0, 0]
  const FEATURES_REPLY: bytes := [0xce, 0, 0, 0, 4, 0x81, 0, 0, 0x80] // {CODE: 0} and an empty body

  function Arrives(bs: bytes): Event {
    ReadReady([Data(bs)], SILENT, Keep, [])
  }

  lemma {:induction false} RunThen(c: Conn, es: seq<Event>, e: Event)
    requires Inv(c)
    ensures Inv(Run(c, es)) && Sane(Run(c, es)) && Inv(Next(Run(c, es), e)) && Run(c, es + [e]) == Next(Run(c, es), e)
    decreases |es|
  {
    hide Next, Inv;
    Sanity(c);
    if es == [] {
      NextInv(c, e);
      assert [] + [e] == [e] && [e][1..] == [];
      RunOne(c, [e]);
      RunNone(Next(c, e));
    } else {
      NextInv(c, es[0]);
      assert (es + [e])[1..] == es[1..] + [e];
      RunThen(Next(c, es[0]), es[1..], e);
    }
  }

  lemma OneChunk(bs: bytes)
    requires bs != []
    ensures ReceiveAll([Data(bs)]) == Arrived(bs)
  {
    assert [Data(bs)][1..] == [] && bs + [] == bs;
  }

  lemma OpensUnix(c: Conn)
    requires Inv(c) && c.stage.Disconnected? && c.resolver.None? && c.target.host == [] && c.target.unixPath != []
    ensures var d := Next(c, OpenCall(0, Established));
            d.stage.Connecting? && d.rcv == c.rcv && d.target == c.target && d.parts == c.target
  {
  }

  lemma TakesGreeting(c: Conn, g: bytes)
    requires Inv(c) && c.stage.Connecting? && |g| >= GREETING_SIZE
    ensures var d := Next(c, Arrives(g));
            d.stage.FeaturesRequest? && d.greeting == c.rcv.recv + g && d.rcv == Cleared(c.rcv) &&
            d.target == c.target && d.parts == c.parts
  {
    hide SendLoop, ReceiveAll;
    OneChunk(g);
    var request := IdRequest(c.nextId, c.required);
    assert request != [];
    hide IdRequest;
    NothingLeaves(Place(c.snd, request));
  }

  const FEATURES_PAYLOAD: bytes := [0x81, 0, 0, 0x80]

  lemma PayloadParses()
    ensures Parse(FEATURES_PAYLOAD, 1) == Good([Map([Int(0), Int(0)])], [0x80])
    ensures Parse([0x80], 1) == Good([Map([])], [])
  {
    var s, empty: bytes := FEATURES_PAYLOAD, [0x80];
    HeaderParses(true, 1, 1, [0, 0, 0x80]);
    HeaderParses(true, 1, 0, []);
    assert [0x81] + [0, 0, 0x80] == s && empty + [] == empty;
    assert Header(true, 1, 1) == [0x81] && Header(true, 1, 0) == empty;
    hide HeadOf, Header;
    PairParses();
    assert s[1..] == [0, 0, 0x80] && empty[1..] == [];
    UnfoldContainer(s, 1, true, 1, 2);
    UnfoldContainer(empty, 1, true, 1, 0);
    Zero([0x80]);
    Zero([]);
  }

  lemma FeaturesMessage()
    ensures TakeMessage(FEATURES_REPLY) == Message(FEATURES_PAYLOAD, [])
  {
    SmallNumber(4);
    hide BigEndian, TakeMessage;
    assert MessageBytes(FEATURES_PAYLOAD) == FEATURES_REPLY;
    MessageParts(FEATURES_PAYLOAD, []);
    assert FEATURES_REPLY + [] == FEATURES_REPLY;
  }

  lemma FeaturesReplyIs(acc: ProtoId)
    ensures ReplyOf(FEATURES_REPLY) == Some((0, [0x80])) && ProtoOf([0x80], acc) == Some(acc)
  {
    hide Parse, Walk, TakeMessage, HeadOf;
    PayloadParses();
    FeaturesMessage();
    WalkAgreesWithParse(FEATURES_PAYLOAD, 1);
    CodeIsFound();
    hide Reader.FindIn, Reader.ReadInteger;
    assert HeadOf(FEATURES_PAYLOAD) == Container(true, 1, 2);
    assert FEATURES_PAYLOAD[1..] == [0, 0, 0x80];
  }

  lemma CodeIsFound()
    ensures HeadOf(FEATURES_PAYLOAD) == Container(true, 1, 2)
    ensures Reader.FindIn([0, 0, 0x80], 1, Reader.IntKey(CODE)) == Reader.Found.Value([0])
    ensures Reader.ReadInteger(UINT32, [0]) == Some(0)
  {
    ZeroIsRead();
    hide Reader.ReadInteger;
    var s: bytes := [0, 0, 0x80];
    var t: bytes := [0, 0x80];
    assert s[1..] == t && t[1..] == [0x80];
    SmallNumberParses(s);
    SmallNumberParses(t);
    WalkAgreesWithParse(t, 1);
    hide Parse, Walk;
  }

  lemma ZeroIsRead()
    ensures Reader.ReadInteger(UINT32, [0]) == Some(0)
  {
    SmallNumberParses([0]);
    Pow256Widths();
    hide Parse, Pow256;
  }

  lemma SmallNumberParses(s: bytes)
    requires s != [] && s[0] <= 0x7f
    ensures Parse(s, 1) == Good([Int(s[0])], s[1..])
  {
    assert HeadOf(s) == Scalar(1) && ScalarValue(s[..1]) == Int(s[0]);
    Zero(s[1..]);
  }

  lemma Zero(s: bytes)
    ensures Parse(s, 0) == Good([], s)
  {
  }

  lemma SmallNumber(v: byte)
    ensures BigEndian(v, 4) == [0, 0, 0, v]
  {
    assert BigEndian(0, 1) == [0];
    assert BigEndian(0, 2) == [0, 0];
    assert BigEndian(0, 3) == [0, 0, 0];
  }

  lemma PairParses()
    ensures Parse([0, 0, 0x80], 2) == Good([Int(0), Int(0)], [0x80])
  {
    var s: bytes := [0, 0, 0x80];
    assert s[1..] == [0, 0x80] && s[1..][1..] == [0x80];
    assert HeadOf(s) == Scalar(1) && HeadOf(s[1..]) == Scalar(1);
    assert ScalarValue(s[..1]) == Int(0) && ScalarValue(s[1..][..1]) == Int(0);
    hide HeadOf, ScalarValue;
    UnfoldScalar(s, 2, 1);
    UnfoldScalar(s[1..], 1, 1);
    Zero([0x80]);
  }

  lemma ScanFinds(r: Receiver, frame: bytes)
    requires r.recv == frame && r.head == 0 && r.detected == 0 && |frame| >= 5 && HeadSize(frame) == Some(|frame|)
    ensures Scan(r) == r.(head := |frame|)
  {
    hide HeadSize;
    assert frame[0..] == frame;
  }

  lemma GuestConnects(c: Conn)
    requires Sane(c) && c.stage.FeaturesRequest? && c.rcv.recv == FEATURES_REPLY && !NeedsAuth(c.parts)
    ensures var d := Handshake(c, SILENT, []);
            d.stage.Connected? && d.rcv == Cleared(c.rcv) && d.target == c.target
  {
    FeaturesReplyIs(c.serverProto);
    hide ReplyOf, ProtoOf, SendAuth, Reject;
  }

  lemma BecomesConnected(c: Conn)
    requires Inv(c) && c.stage.FeaturesRequest? && c.rcv == Cleared(c.rcv) && !NeedsAuth(c.parts)
    ensures var d := Next(c, Arrives(FEATURES_REPLY));
            d.stage.Connected? && d.rcv == Cleared(c.rcv) && d.target == c.target
  {
    hide ReceiveAll, Scan, Handshake, HeadSize, NeedsAuth;
    OneChunk(FEATURES_REPLY);
    var r := c.rcv.(recv := FEATURES_REPLY);
    GuestConnects(c.(rcv := r.(head := 9)));
    FeaturesSize();
    assert c.rcv.recv + FEATURES_REPLY == FEATURES_REPLY;
    ScanFinds(r, FEATURES_REPLY);
  }

  lemma FeaturesSize()
    ensures HeadSize(FEATURES_REPLY) == Some(9) && HeadSize(EMPTY_MESSAGE) == Some(5)
  {
    assert FEATURES_REPLY[1..5] == [0, 0, 0, 4] && EMPTY_MESSAGE[1..5] == [0, 0, 0, 0];
    FourBytes(4);
    FourBytes(0);
  }

  lemma FourBytes(v: byte)
    ensures FromBigEndian([0, 0, 0, v]) == v
  {
    SmallNumber(v);
    BigEndianRoundTrip(v, 4);
    Pow256Widths();
  }

  lemma EmptyMessageArrives(c: Conn)
    requires Inv(c) && c.stage.Connected? && c.rcv.recv == [] && c.rcv.detected == 0 && c.rcv.handler
    ensures var d := Next(c, Arrives(EMPTY_MESSAGE));
            d.stage.Connected? && d.target == c.target && d.rcv.handler && !d.rcv.idle && d.rcv.detected == 0 &&
            d.rcv.recv == (if c.rcv.idle then [] else EMPTY_MESSAGE) &&
            d.rcv.head == if c.rcv.idle then 0 else 5
  {
    hide Inv, Next, Arrive;
    ArrivesConnected(c, EMPTY_MESSAGE);
    assert c.rcv.recv + EMPTY_MESSAGE == EMPTY_MESSAGE;
    EmptyArrives(c.rcv);
    Idle(c);
  }

  lemma Idle(c: Conn)
    requires Inv(c)
    ensures c.rcv.head <= |c.rcv.recv|
  {
  }

  lemma EmptyArrives(r: Receiver)
    requires r.recv == [] && r.head == 0 && r.detected == 0 && r.handler
    ensures var t := Arrive(r, EMPTY_MESSAGE, Keep);
            t.handler && !t.idle && t.detected == 0 &&
            t.recv == (if r.idle then [] else EMPTY_MESSAGE) && t.head == if r.idle then 0 else 5
  {
    hide Scan, HeadSize;
    FeaturesSize();
    assert r.recv + EMPTY_MESSAGE == EMPTY_MESSAGE;
    ScanFinds(r.(recv := EMPTY_MESSAGE), EMPTY_MESSAGE);
  }

  lemma ArrivesConnected(c: Conn, bs: bytes)
    requires Inv(c) && c.stage.Connected? && bs != []
    ensures c.rcv.head <= |c.rcv.recv| && Next(c, Arrives(bs)) == c.(rcv := Arrive(c.rcv, bs, Keep))
  {
    hide ReceiveAll, Scan, Pass, Handshake, Greet, Fail, SenderOk, Watched, Shaken, NoJam, Quiet;
    OneChunk(bs);
    ScanBounds(c.rcv.(recv := c.rcv.recv + bs));
  }

  lemma ClosesWaiting(c: Conn)
    requires Inv(c) && c.stage.Connected?
    ensures var d := Next(c, CloseCall(0));
            d.stage.Disconnected? && d.resolver.None? && d.target == c.target && d.rcv == Trimmed(c.rcv)
  {
  }

  /** A guest session over a unix socket, a response the caller keeps, another one behind it, a close and
      a second session: the waiting response is the start of the second session's greeting. */
  lemma BusyGreetingReached(path: bytes, room: nat, first: bytes, second: bytes) returns (es: seq<Event>)
    requires path != [] && |first| >= GREETING_SIZE && |second| >= GREETING_SIZE
    ensures Inv(Created(Target(path, [], []), room, true))
    ensures var d := Run(Created(Target(path, [], []), room, true), es);
            d.stage.FeaturesRequest? && d.greeting == EMPTY_MESSAGE + second
  {
    hide Run, Next, Inv, Trimmed;
    var c := Created(Target(path, [], []), room, true);
    CreatedInv(Target(path, [], []), room, true);
    RunNone(c);
    es := [];
    RunThen(c, es, OpenCall(0, Established));
    OpensUnix(c);
    es := es + [OpenCall(0, Established)];
    RunThen(c, es, Arrives(first));
    TakesGreeting(Run(c, es), first);
    es := es + [Arrives(first)];
    RunThen(c, es, Arrives(FEATURES_REPLY));
    BecomesConnected(Run(c, es));
    es := es + [Arrives(FEATURES_REPLY)];
    RunThen(c, es, Arrives(EMPTY_MESSAGE));
    EmptyMessageArrives(Run(c, es));
    es := es + [Arrives(EMPTY_MESSAGE)];
    RunThen(c, es, Arrives(EMPTY_MESSAGE));
    EmptyMessageArrives(Run(c, es));
    es := es + [Arrives(EMPTY_MESSAGE)];
    RunThen(c, es, CloseCall(0));
    ClosesWaiting(Run(c, es));
    assert Trimmed(Run(c, es).rcv).recv == EMPTY_MESSAGE by { TrimsAtHead(Run(c, es).rcv); }
    es := es + [CloseCall(0)];
    RunThen(c, es, OpenCall(0, Established));
    OpensUnix(Run(c, es));
    es := es + [OpenCall(0, Established)];
    RunThen(c, es, Arrives(second));
    TakesGreeting(Run(c, es), second);
    es := es + [Arrives(second)];
  }

  lemma TrimsAtHead(r: Receiver)
    requires r.head == |r.recv|
    ensures Trimmed(r).recv == r.recv
  {
    assert r.recv[..|r.recv|] == r.recv;
  }
}
