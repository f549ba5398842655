/** The handshake, event by event: what goes out, how each reply is read, and where it leads. */
module Handshakes {
  import opened Bytes
  import opened MsgPack
  import opened Frames
  import opened Options
  import opened Iproto
  import opened Sending
  import opened Receiving
  import opened Connections
  import opened Lifecycle
  import opened Sessions
  import opened Dialing
  import opened Ownership
  import R = Reader

  // --- what the requests say ------------------------------------------------------------------

  /** The request for the features is a whole message: the header {0: 0x49, 1: sync} and a map that holds the
      version when there is one, the features known, and the name of the scheme when there is one. */
  lemma IdRequestSays(sync: nat, p: Required) returns (payload: bytes, fs: seq<byte>)
    requires sync < U64
    ensures TakeMessage(IdRequest(sync, p)) == Message(payload, [])
    ensures var version := if p.version != 0 then [Int(0x54), Int(p.version)] else [];
            var auth := if p.auth != [] then [Int(0x5b), Str(p.auth)] else [];
            Encodes(payload, [Map([Int(0), Int(0x49), Int(1), Int(sync)]),
                              Map(version + [Int(0x55), Arr(Ints(fs))] + auth)])
    ensures forall f :: f in fs <==> f in p.features && f < 5
  {
    IdFits(sync, p);
    payload := IdMessage(sync, p);
    hide IdMessage, Encodes, MessageBytes, TakeMessage, Ints;
    fs := IdMessageSays(sync, p);
    MessageParts(payload, []);
    assert MessageBytes(payload) + [] == MessageBytes(payload);
  }

  /** The request for the authentication, when it is a message at all: the header {0: 7, 1: sync} and a body with
      the user under 0x23 and, under 0x21, the scheme and the scramble. */
  lemma AuthRequestSays(sync: nat, user: bytes, scheme: bytes, scramble: bytes) returns (payload: bytes)
    requires sync < U64 && AuthRequest(sync, user, scheme, scramble).Some?
    ensures TakeMessage(AuthRequest(sync, user, scheme, scramble).value) == Message(payload, [])
    ensures Encodes(payload, [Map([Int(0), Int(7), Int(1), Int(sync)]),
                              Map([Int(0x23), Str(user), Int(0x21), Arr([Str(scheme), Str(scramble)])])])
  {
    RequestHeadEncodes(REQUEST_AUTH, sync);
    AuthBodyEncodes(user, scheme, scramble);
    hide RequestHead, AuthBody, Encodes, MessageBytes, TakeMessage;
    payload := RequestHead(REQUEST_AUTH, sync) + AuthBody(user, scheme, scramble);
    MessageParts(payload, []);
    assert MessageBytes(payload) + [] == MessageBytes(payload);
    EncodesAppend(RequestHead(REQUEST_AUTH, sync), [Map([Int(0), Int(7), Int(1), Int(sync)])],
                  AuthBody(user, scheme, scramble),
                  [Map([Int(0x23), Str(user), Int(0x21), Arr([Str(scheme), Str(scramble)])])]);
  }

  /** It is a message unless 32 bits do not hold its size. */
  lemma AuthRequestMade(sync: nat, user: bytes, scheme: bytes, scramble: bytes)
    requires sync < U64 && |user| + |scheme| + |scramble| + 64 < U32
    ensures AuthRequest(sync, user, scheme, scramble).Some?
  {
    RequestHeadFits(REQUEST_AUTH, sync);
    AuthBodySize(user, scheme, scramble);
    hide RequestHead, AuthBody;
  }

  // --- how a reply is read --------------------------------------------------------------------

  /** A reply counts when it is a message that starts with a map; its code is the value of the first pair with
      the key 0, if that is a number of 32 bits without sign. What follows the map is its body. */
  lemma ReplyIsRead(recv: bytes)
    ensures var t := TakeMessage(recv);
            ReplyOf(recv) ==
              if !t.Message? || Parse(t.payload, 1).Bad? || !Parse(t.payload, 1).items[0].Map? then None
              else
                var items := Parse(t.payload, 1).items[0].items;
                if |items| % 2 == 1 then None
                else
                  var i := R.FirstPair(items, R.IntKey(0));
                  if i == |items| / 2 || !items[2 * i + 1].Int? || !(0 <= items[2 * i + 1].i < U32) then None
                  else Some((items[2 * i + 1].i, Parse(t.payload, 1).rest))
  {
    hide TakeMessage, R.FindIn, R.ReadInteger, Walk, Parse, HeadOf;
    var t := TakeMessage(recv);
    if t.Message? {
      var s := t.payload;
      WalkAgreesWithParse(s, 1);
      if Parse(s, 1).Good? {
        R.FirstItem(s);
        match HeadOf(s)
        case Container(isMap, w, c) => if isMap { CodeIsRead(s, w, c); } else { NotAMap(s, w, c); }
        case _ => ScalarIsNoMap(s);
      }
    }
  }

  lemma ScalarIsNoMap(s: bytes)
    requires Parse(s, 1).Good? && HeadOf(s).Scalar?
    ensures !Parse(s, 1).items[0].Map?
  {
    R.FirstItem(s);
    hide Parse, HeadOf;
  }

  lemma NotAMap(s: bytes, w: nat, c: nat)
    requires Parse(s, 1).Good? && HeadOf(s) == Container(false, w, c)
    ensures !Parse(s, 1).items[0].Map?
  {
    hide HeadOf;
    UnfoldContainer(s, 1, false, w, c);
    hide Parse;
  }

  /** The search goes through exactly the map's pairs, though more bytes follow. */
  lemma CodeIsRead(s: bytes, w: nat, c: nat)
    requires Parse(s, 1).Good? && HeadOf(s) == Container(true, w, c) && w <= |s|
    ensures Parse(s, 1).items[0].Map?
    ensures var items := Parse(s, 1).items[0].items;
            var found := R.FindIn(s[w..], c / 2, R.IntKey(0));
            |items| % 2 == 0 &&
            var i := R.FirstPair(items, R.IntKey(0));
            if i == |items| / 2 then found == R.Found.Absent
            else found.Value? && R.ReadInteger(UINT32, found.item) ==
                   if items[2 * i + 1].Int? && 0 <= items[2 * i + 1].i < U32 then Some(items[2 * i + 1].i) else None
  {
    EvenCount(s);
    hide HeadOf, Parse, Walk, R.FindIn, R.ReadInteger;
    UnfoldContainer(s, 1, true, w, c);
    var inner := s[w..];
    var p := Parse(inner, c);
    assert Parse(s, 1).items[0] == Map(p.items);
    R.ParseConsumes(inner, c);
    var n := |inner| - |p.rest|;
    assert inner == inner[..n] + inner[n..];
    R.FindIsFirst(inner[..n], p.items, R.IntKey(0));
    R.FindInExtends(inner[..n], c / 2, R.IntKey(0), inner[n..]);
    var i := R.FirstPair(p.items, R.IntKey(0));
    if i < |p.items| / 2 { ValueIsRead(R.FindIn(inner, c / 2, R.IntKey(0)).item, p.items[2 * i + 1]); }
  }

  lemma EvenCount(s: bytes)
    ensures HeadOf(s).Container? && HeadOf(s).isMap ==> HeadOf(s).count % 2 == 0
  {
  }

  lemma ValueIsRead(item: bytes, v: Value)
    requires Encodes(item, [v])
    ensures R.ReadInteger(UINT32, item) == if v.Int? && 0 <= v.i < U32 then Some(v.i) else None
  {
    hide Parse, R.ReadInteger, R.Cast, Pow256;
    R.ReadIntegerByValue(UINT32, item);
    Pow256Widths();
    if v.Int? && 0 <= v.i < U32 { R.UnsignedIsRead(4, v.i); }
  }

  // --- where a reply leads --------------------------------------------------------------------

  /** Closed, with a reconnect counted from now. */
  predicate ClosedForRetry(d: Conn) {
    d.stage.Disconnected? && d.ticks == 0 && !d.socket
  }

  /** The request follows what the socket has accepted, and what was flushed of the output buffer follows it. */
  ghost predicate GoesOut(c: Conn, d: Conn, request: bytes)
    requires SenderOk(c.snd)
  {
    !d.snd.corrupt ==> Flushed(d.snd) == c.snd.wire + request + c.snd.out[..c.snd.uncorked]
  }

  lemma PlacedIsSent(s: Sender, request: bytes, script: seq<SendResult>)
    requires SenderOk(s) && request != [] && Refused !in script
    ensures var e := SendLoop(Place(s, request), script);
            !e.stop.Failed? && (!e.s.corrupt ==> Flushed(e.s) == s.wire + request + s.out[..s.uncorked])
  {
    var t := Place(s, request);
    FailureIsReported(t, script);
    assert Unsent(t) == request;
    assert Flushed(t) == s.wire + request + s.out[..s.uncorked];
    if !SendLoop(t, script).s.corrupt { SendLoopKeeps(t, script); }
  }

  /** With nothing flushed behind it, sending a request runs past a buffer exactly when it is longer than the
      buffer: start_message has made sure of 1024 bytes, by adding as many to a smaller buffer. */
  lemma RequestOverrunsExactly(s: Sender, request: bytes, script: seq<SendResult>)
    requires SenderOk(s) && s.uncorked == 0 && !s.corrupt
    ensures SendLoop(Place(s, request), script).s.corrupt <==>
            |request| > s.sendRoom && (s.sendRoom < 1024 ==> |request| > s.sendRoom + 1024)
    ensures |request| <= 1024 ==> !SendLoop(Place(s, request), script).s.corrupt
    ensures Place(s, request).sendRoom == if s.sendRoom < 1024 then s.sendRoom + 1024 else s.sendRoom
  {
    var t := Place(s, request);
    if t.corrupt { CorruptStays(t, script); } else { NoMarkNoOverrun(t, script); }
  }

  /** Who is neither unnamed nor "guest" authenticates. */
  predicate Named(t: Target) {
    t.user != [] && t.user != [103, 117, 101, 115, 116]
  }

  /** The features are settled: a named user's authentication is requested, of the scheme the server prefers
      and with the next request number; anyone else is connected. */
  ghost predicate AfterFeatures(c: Conn, d: Conn, proto: ProtoId, scramble: bytes)
    requires SenderOk(c.snd) && c.nextId < U64
  {
    if !Named(c.target) then
      d.stage.Connected? && d.ticks == -1 && d.snd == c.snd && d.nextId == c.nextId && d.serverProto == proto &&
      d.rcv.recv == [] && d.target == c.target
    else
      var request := AuthRequest(c.nextId, c.target.user, proto.auth, scramble);
      if request.None? then ClosedForRetry(d)
      else d.stage.Authentication? && d.ticks == c.ticks && d.nextId == (c.nextId + 1) % U64 &&
           d.serverProto == proto && d.rcv.recv == [] && d.target == c.target && GoesOut(c, d, request.value)
  }

  lemma ProceedLeads(c: Conn, io: Io, scramble: bytes)
    requires Sane(c) && c.socket && c.stage.FeaturesRequest? && c.parts == c.target && Refused !in io.script
    ensures AfterFeatures(c, Proceed(c, io, scramble), c.serverProto, scramble)
  {
    hide SendLoop, Flushed;
    RequestsAreNotEmpty(c.nextId, c.parts.user, c.serverProto.auth, scramble);
    var r := AuthRequest(c.nextId, c.parts.user, c.serverProto.auth, scramble);
    hide AuthRequest;
    if r.Some? { PlacedIsSent(c.snd, r.value, io.script); }
  }

  lemma SameStart(c: Conn, f: Conn, d: Conn, proto: ProtoId, scramble: bytes)
    requires SenderOk(c.snd) && c.nextId < U64
    requires f.snd == c.snd && f.nextId == c.nextId && f.target == c.target && f.ticks == c.ticks
    ensures AfterFeatures(f, d, proto, scramble) <==> AfterFeatures(c, d, proto, scramble)
  {
  }

  /** Where the handshake goes from a whole reply, by its code. */
  lemma HandshakeLeads(c: Conn, io: Io, scramble: bytes)
    requires Sane(c) && c.socket && (c.stage.FeaturesRequest? || c.stage.Authentication?) && c.parts == c.target
    requires Refused !in io.script
    ensures var r := ReplyOf(c.rcv.recv);
            var d := Handshake(c, io, scramble);
            if r.None? then ClosedForRetry(d)
            else if c.stage.Authentication? then
              if r.value.0 == 0 then d.stage.Connected? && d.ticks == -1 && d.snd == c.snd && d.rcv.recv == []
              else ClosedForRetry(d)
            else if r.value.0 == 0 then
              var p := ProtoOf(r.value.1, c.serverProto);
              if p.None? then ClosedForRetry(d) else AfterFeatures(c, d, p.value, scramble)
            else if r.value.0 % 0x8000 == 0x30 then AfterFeatures(c, d, c.serverProto, scramble)
            else ClosedForRetry(d)
  {
    hide ReplyOf, ProtoOf, Proceed, AfterFeatures;
    var r := ReplyOf(c.rcv.recv);
    if r.Some? && c.stage.FeaturesRequest? {
      var d := c.(replies := c.replies + [Reply(c.stage, r.value.0)]);
      if r.value.0 == 0 {
        var p := ProtoOf(r.value.1, c.serverProto);
        if p.Some? {
          var f := d.(serverProto := p.value);
          ProceedLeads(f, io, scramble);
          SameStart(c, f, Handshake(c, io, scramble), p.value, scramble);
        }
      } else if r.value.0 % 0x8000 == 0x30 {
        ProceedLeads(d, io, scramble);
        SameStart(c, d, Handshake(c, io, scramble), c.serverProto, scramble);
      }
    }
  }

  /** A message that is whole in the buffer is found by the scan, and is what the handshake then reads. */
  lemma WholeIsFound(r: Receiver)
    requires Remembered(r) && r.head == 0 && TakeMessage(r.recv).Message?
    ensures Scan(r).head > 0 && ReplyOf(Scan(r).recv) == ReplyOf(r.recv)
  {
    TakenIsWire(r.recv);
    var t := TakeMessage(r.recv);
    assert r.recv[0..] == r.recv;
    assert r.recv + [] == r.recv;
    HeadSizeOfFrame(r.recv, [], t.payload, t.rest);
    MessageParts(t.payload, t.rest);
    ScanBounds(r);
    hide TakeMessage, MessageBytes, HeadSize, ReplyOf;
    var size := |t.payload| + 5;
    var u := r.(head := size, detected := 0);
    assert Scan(r) == Scan(u) by { FirstRound(r, size); }
    ScanBounds(u);
    var cut := Scan(r).recv;
    var frame := MessageBytes(t.payload);
    assert cut == frame + cut[|frame|..];
    MessageParts(t.payload, cut[|frame|..]);
    SamePayload(cut, r.recv);
  }

  lemma FirstRound(r: Receiver, size: nat)
    requires r.head == 0 && 5 <= size <= |r.recv| && HeadSize(r.recv) == Some(size)
    requires r.detected == 0 || r.detected == size
    ensures Scan(r) == Scan(r.(head := size, detected := 0))
  {
    hide HeadSize;
    assert r.recv[0..] == r.recv;
  }

  lemma SamePayload(a: bytes, b: bytes)
    requires TakeMessage(a).Message? && TakeMessage(b).Message? && TakeMessage(a).payload == TakeMessage(b).payload
    ensures ReplyOf(a) == ReplyOf(b)
  {
    hide TakeMessage, Walk, HeadOf, R.FindIn, R.ReadInteger;
  }

  // --- the events -----------------------------------------------------------------------------

  /** The receive buffer after a read. */
  function Filled(c: Conn, e: Event): bytes
    requires e.ReadReady?
  {
    c.rcv.recv + ReceiveAll(e.recvs).bs
  }

  /** A read that reaches neither an error nor the end of the stream, while no send fails. */
  ghost predicate QuietRead(e: Event) {
    e.ReadReady? && ReceiveAll(e.recvs).Arrived? && Refused !in e.io.script
  }

  /** The greeting has 128 bytes at least; until then the connection goes on connecting. Then it is kept, and
      the request for the features goes out, with the next request number. */
  lemma GreetingLeads(c: Conn, e: Event)
    requires Inv(c) && c.stage.Connecting? && QuietRead(e)
    ensures var d := Next(c, e);
            if |Filled(c, e)| < 128 then d == c.(rcv := c.rcv.(recv := Filled(c, e)))
            else d.stage.FeaturesRequest? && d.greeting == Filled(c, e) && d.rcv.recv == [] && d.replies == [] &&
                 d.ticks == c.ticks && d.nextId == (c.nextId + 1) % U64 && d.target == c.target &&
                 d.serverProto == c.serverProto && GoesOut(c, d, IdRequest(c.nextId, c.required))
  {
    var request := IdRequest(c.nextId, c.required);
    assert request != [];
    hide IdRequest, SendLoop, ReceiveAll, Flushed;
    PlacedIsSent(c.snd, request, e.io.script);
  }

  /** A whole reply during the handshake: the code decides. To the features request, 0 with a readable body or
      the error 0x30 settles the features; to the authentication request, 0 connects; everything else, and
      whatever is no reply, closes the connection and counts a reconnect. */
  lemma ReplyLeads(c: Conn, e: Event)
    requires Inv(c) && (c.stage.FeaturesRequest? || c.stage.Authentication?) && QuietRead(e)
    requires TakeMessage(Filled(c, e)).Message?
    ensures var r := ReplyOf(Filled(c, e));
            var d := Next(c, e);
            if r.None? then ClosedForRetry(d)
            else if c.stage.Authentication? then
              if r.value.0 == 0 then d.stage.Connected? && d.ticks == -1 && d.snd == c.snd && d.rcv.recv == []
              else ClosedForRetry(d)
            else if r.value.0 == 0 then
              var p := ProtoOf(r.value.1, c.serverProto);
              if p.None? then ClosedForRetry(d) else AfterFeatures(c, d, p.value, e.scramble)
            else if r.value.0 % 0x8000 == 0x30 then AfterFeatures(c, d, c.serverProto, e.scramble)
            else ClosedForRetry(d)
  {
    hide ReceiveAll, Scan, Handshake, ReplyOf, ProtoOf, AfterFeatures, TakeMessage, HeadSize;
    var r := c.rcv.(recv := Filled(c, e));
    ArrivalRemembers(c.rcv, ReceiveAll(e.recvs).bs);
    WholeIsFound(r);
    ScanBounds(r);
    var f := c.(rcv := Scan(r));
    HandshakeLeads(f, e.io, e.scramble);
    var d := Handshake(f, e.io, e.scramble);
    assert Next(c, e) == d;
    forall proto: ProtoId | AfterFeatures(f, d, proto, e.scramble) ensures AfterFeatures(c, d, proto, e.scramble) {
      SameStart(c, f, d, proto, e.scramble);
    }
  }

  /** Less than a whole reply is waited for. */
  lemma PartialReplyWaits(c: Conn, e: Event)
    requires Inv(c) && (c.stage.FeaturesRequest? || c.stage.Authentication?) && QuietRead(e)
    requires TakeMessage(Filled(c, e)).Nothing? || TakeMessage(Filled(c, e)).Partial?
    ensures var d := Next(c, e);
            d.stage == c.stage && d.rcv.recv == Filled(c, e) && d.snd == c.snd && d.ticks == c.ticks
  {
    hide ReceiveAll, Handshake;
    var r := c.rcv.(recv := Filled(c, e));
    ArrivalRemembers(c.rcv, ReceiveAll(e.recvs).bs);
    NothingWhole(r);
    hide Scan, TakeMessage, Remembered;
  }

  lemma NothingWhole(r: Receiver)
    requires Remembered(r) && r.head == 0
    requires TakeMessage(r.recv).Nothing? || TakeMessage(r.recv).Partial?
    ensures Scan(r).head == 0 && Scan(r).recv == r.recv
  {
    hide FromBigEndian;
    assert r.recv[0..] == r.recv;
  }

  // --- what has gone out ----------------------------------------------------------------------

  /** The step into the features stage puts the features request on the wire, or among the unsent bytes: what
      is accepted and unsent is what had been accepted, then that request, then what was flushed meanwhile. */
  lemma FeaturesAreRequested(c: Conn, e: Event) returns (request: bytes, payload: bytes, fs: seq<byte>)
    requires Inv(c) && c.stage.Connecting? && QuietRead(e) && Next(c, e).stage.FeaturesRequest?
    ensures GoesOut(c, Next(c, e), request) && TakeMessage(request) == Message(payload, [])
    ensures var p := c.required;
            var version := if p.version != 0 then [Int(0x54), Int(p.version)] else [];
            var auth := if p.auth != [] then [Int(0x5b), Str(p.auth)] else [];
            Encodes(payload, [Map([Int(0), Int(0x49), Int(1), Int(c.nextId)]),
                              Map(version + [Int(0x55), Arr(Ints(fs))] + auth)])
    ensures forall f :: f in fs <==> f in c.required.features && f < 5
  {
    hide Next, GoesOut, IdRequest, TakeMessage, Encodes, Inv;
    GreetingLeads(c, e);
    Sanity(c);
    Shorter(c, e);
    request := IdRequest(c.nextId, c.required);
    payload, fs := IdRequestSays(c.nextId, c.required);
  }

  lemma Shorter(c: Conn, e: Event)
    requires Inv(c) && c.stage.Connecting? && QuietRead(e) && Next(c, e).stage.FeaturesRequest?
    ensures |Filled(c, e)| >= 128
  {
    hide ReceiveAll, SendLoop;
  }

  /** The step into authentication puts out the request for the user of the connection string in force and the
      scheme in the server's proto_id. */
  lemma AuthenticationIsRequested(c: Conn, e: Event) returns (request: bytes, payload: bytes)
    requires Inv(c) && c.stage.FeaturesRequest? && QuietRead(e) && TakeMessage(Filled(c, e)).Message?
    requires Next(c, e).stage.Authentication?
    ensures GoesOut(c, Next(c, e), request) && TakeMessage(request) == Message(payload, [])
    ensures Encodes(payload, [Map([Int(0), Int(7), Int(1), Int(c.nextId)]),
                              Map([Int(0x23), Str(c.target.user),
                                   Int(0x21), Arr([Str(Next(c, e).serverProto.auth), Str(e.scramble)])])])
  {
    hide Next, GoesOut, AuthRequest, TakeMessage, Encodes, Inv, ReplyOf, ProtoOf;
    ReplyLeads(c, e);
    Sanity(c);
    var d := Next(c, e);
    request := AuthRequest(c.nextId, c.target.user, d.serverProto.auth, e.scramble).value;
    payload := AuthRequestSays(c.nextId, c.target.user, d.serverProto.auth, e.scramble);
  }

  // --- from creation to connected -------------------------------------------------------------

  lemma Arrived(c: Conn, bs: bytes)
    requires bs != []
    ensures QuietRead(Arrives(bs)) && Filled(c, Arrives(bs)) == c.rcv.recv + bs
  {
    OneChunk(bs);
    hide ReceiveAll;
  }

  /** A reply with code 0, and to the features request with a body that can be read. */
  predicate Agrees(reply: bytes, features: bool) {
    TakeMessage(reply).Message? && ReplyOf(reply).Some? && ReplyOf(reply).value.0 == 0 &&
    (features ==> ProtoOf(ReplyOf(reply).value.1, NO_PROTO).Some?)
  }

  /** Up to the greeting: a new connection is opened, its name resolved, one of the addresses is dialled, the
      socket becomes writable without an error, and the greeting arrives. */
  lemma GreetingReached(target: Target, room: nat, handler: bool, none: seq<ConnectResult>, greeting: bytes)
    returns (es: seq<Event>)
    requires target.host != [] && AllNoSocket(none) && |greeting| >= 128
    ensures Inv(Created(target, room, handler))
    ensures es == [OpenCall(0, NoSocket), AddressesFound(none + [InProgress]), WriteReady(SILENT), Arrives(greeting)]
    ensures var c := Run(Created(target, room, handler), es);
            c.stage.FeaturesRequest? && c.greeting == greeting && c.rcv.recv == [] && c.target == target &&
            c.serverProto == NO_PROTO && c.ticks == 0
  {
    hide Run, Next, Inv, AllNoSocket, GoesOut, Filled;
    var c := Created(target, room, handler);
    CreatedInv(target, room, handler);
    RunNone(c);
    es := [];
    RunThen(c, es, OpenCall(0, NoSocket));
    ResolvesName(c);
    es := es + [OpenCall(0, NoSocket)];
    RunThen(c, es, AddressesFound(none + [InProgress]));
    AddressesDial(Run(c, es), none, [InProgress]);
    es := es + [AddressesFound(none + [InProgress])];
    RunThen(c, es, WriteReady(SILENT));
    ConnectOutcome(Run(c, es), SILENT);
    es := es + [WriteReady(SILENT)];
    RunThen(c, es, Arrives(greeting));
    Arrived(Run(c, es), greeting);
    GreetingLeads(Run(c, es), Arrives(greeting));
    assert [] + greeting == greeting;
    es := es + [Arrives(greeting)];
  }

  lemma ResolvesName(c: Conn)
    requires Inv(c) && c.stage.Disconnected? && c.resolver.None? && c.target.host != []
    ensures var d := Next(c, OpenCall(0, NoSocket));
            d.stage.AddressResolving? && d.target == c.target && d.rcv == c.rcv && d.serverProto == c.serverProto
  {
  }

  /** And on: with replies of code 0 the connection is established, for a named user after the second one, for
      anyone else after the first. */
  lemma ConnectionCompletes(target: Target, room: nat, handler: bool, none: seq<ConnectResult>, greeting: bytes,
                            first: bytes, second: bytes)
    returns (es: seq<Event>)
    requires target.host != [] && AllNoSocket(none) && |greeting| >= 128 && Agrees(first, true) && Agrees(second, false)
    requires |target.user| + |ProtoOf(ReplyOf(first).value.1, NO_PROTO).value.auth| + 64 < U32
    ensures Inv(Created(target, room, handler))
    ensures es == [OpenCall(0, NoSocket), AddressesFound(none + [InProgress]), WriteReady(SILENT), Arrives(greeting),
                   Arrives(first)] + if Named(target) then [Arrives(second)] else []
    ensures Run(Created(target, room, handler), es).stage.Connected?
    ensures Named(target) ==> Run(Created(target, room, handler), es[..5]).stage.Authentication?
  {
    hide Run, Next, Inv, AllNoSocket, GoesOut, Filled, TakeMessage, ReplyOf, ProtoOf, AuthRequest;
    var c := Created(target, room, handler);
    es := GreetingReached(target, room, handler, none, greeting);
    RunThen(c, es, Arrives(first));
    Arrived(Run(c, es), first);
    assert [] + first == first && [] + second == second;
    ReplyLeads(Run(c, es), Arrives(first));
    AuthRequestMade(Run(c, es).nextId, target.user, ProtoOf(ReplyOf(first).value.1, NO_PROTO).value.auth, []);
    es := es + [Arrives(first)];
    if Named(target) {
      RunThen(c, es, Arrives(second));
      Arrived(Run(c, es), second);
      ReplyLeads(Run(c, es), Arrives(second));
      var five := es;
      es := es + [Arrives(second)];
      assert es[..5] == five;
    }
  }
}
