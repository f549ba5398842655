/**
 The connection as a state machine on values: every public method, every notification and every timer
 tick is a function from one connection value to the next. System calls, name resolution and the
 caller's reactions are arguments. ConnectionClass.dfy proves the class against these functions.
 */
module Connections {
  import opened Bytes
  import opened MsgPack
  import opened Frames
  import opened Options
  import opened Iproto
  import opened Sending
  import opened Receiving
  import CsParser
  import Reader

  const GENERAL_TIMEOUT := 10
  const GREETING_SIZE := 128
  const RESERVE := 1024
  const ER_UNKNOWN_REQUEST_TYPE := 0x30

  datatype Stage = Disconnected | AddressResolving | Connecting | FeaturesRequest | Authentication | Connected

  datatype Watch = WatchNone | WatchRead | WatchWrite | WatchReadWrite

  /** What parse_cs makes of the connection string, as far as the connection looks at it. */
  datatype Target = Target(unixPath: bytes, user: bytes, host: bytes)

  /** A handshake reply that was looked at, and in which stage. */
  datatype Reply = Reply(stage: Stage, code: nat)

  /** The two reports of stuck data. */
  datatype Jam = JamInWrite | JamInTick(unsent: nat, uncorked: nat, watch: Watch)

  /** A proto_id whose request is a message: shorter than 2^32 bytes. */
  predicate Requestable(p: ProtoId) {
    p.version < U64 && |p.auth| < U32 - 64
  }

  type Required = p: ProtoId | Requestable(p) witness NO_PROTO

  /** `resolver` is the running resolver thread, named by the attempt that started it; `attempt`,
      `replies` and `jams` are history. */
  datatype Conn = Conn(
    stage: Stage, socket: bool, watch: Watch,
    resolver: Option<nat>, attempt: nat,
    ticks: int, timeout: int,
    target: Target, parts: Target,
    greeting: bytes, required: Required, serverProto: ProtoId, nextId: nat,
    snd: Sender, rcv: Receiver,
    replies: seq<Reply>, jams: seq<Jam>)

  /** One connect() of a fresh socket; NoSocket is a failed socket(). */
  datatype ConnectResult = NoSocket | Established | InProgress | ConnectFails

  /** What the socket answers while write() runs, and whether SO_ERROR reports a failed connect. */
  datatype Io = Io(script: seq<SendResult>, soError: bool)

  /** One return of recv(); an empty Data is the peer's end of stream. */
  datatype Recv = Data(bs: bytes) | NoMore | RecvInterrupted | RecvFailed

  // --- closing --------------------------------------------------------------------------------

  /** close() clears all sending buffers. */
  function Emptied(s: Sender): Sender {
    s.(out := [], send := [], next := 0, uncorked := 0, wire := [])
  }

  /** close() removes a partial response; whole ones stay for a busy caller. */
  function Trimmed(r: Receiver): Receiver {
    r.(detected := 0, recv := if r.head <= |r.recv| then r.recv[..r.head] else r.recv)
  }

  /** close() */
  function Close(c: Conn, delay: int): Conn {
    var d := c.(greeting := [], serverProto := NO_PROTO, stage := Disconnected, nextId := 0,
                ticks := if delay > 0 then 0 else -1, timeout := if delay > 0 then delay else c.timeout);
    if !c.socket then d
    else d.(watch := WatchNone, socket := false, snd := Emptied(c.snd), rcv := Trimmed(c.rcv))
  }

  /** close() on an error, with a reconnect scheduled. */
  function Fail(c: Conn): Conn {
    Close(c, 0).(ticks := 0)
  }

  // --- sending --------------------------------------------------------------------------------

  /** write() outside the connecting stage. A send on a closed socket fails. */
  function Drain(c: Conn, script: seq<SendResult>): Conn
    requires c.snd.next <= |c.snd.send| && c.snd.uncorked <= |c.snd.out|
  {
    var jammed := c.snd.next == |c.snd.send| && c.snd.uncorked > 0;
    var d := if jammed then c.(jams := c.jams + [JamInWrite]) else c;
    var e := SendLoop(c.snd, if c.socket then script else [Refused]);
    if e.stop.Failed? then Fail(d.(snd := e.s))
    else d.(snd := e.s, watch := if e.stop.Drained? then WatchRead else WatchReadWrite)
  }

  function Write(c: Conn, io: Io): Conn
    requires c.snd.next <= |c.snd.send| && c.snd.uncorked <= |c.snd.out|
  {
    if c.stage.Connecting? then (if io.soError then Fail(c) else c.(watch := WatchRead))
    else Drain(c, io.script)
  }

  function Flush(c: Conn, io: Io): Conn
    requires c.snd.next <= |c.snd.send| && c.snd.uncorked <= |c.snd.out|
  {
    if c.snd.out == [] then c
    else if c.snd.next == |c.snd.send| then Write(c.(snd := SwapAll(c.snd)), io)
    else c.(snd := c.snd.(uncorked := |c.snd.out|))
  }

  // --- handshake ------------------------------------------------------------------------------

  /** What start_message finds in a cleared buffer of this capacity, or reserves. */
  function Reserved(room: nat): nat {
    if room < RESERVE then room + RESERVE else room
  }

  /** A request composed into the cleared send buffer, past the output buffer. Its parts are stored without
      looking for space again, so one longer than what start_message leaves runs past the buffer. */
  function Place(s: Sender, request: bytes): Sender {
    var room := Reserved(s.sendRoom);
    s.(send := request, next := 0, sendRoom := room, corrupt := s.corrupt || |request| > room)
  }

  function IdRequest(sync: nat, p: Required): (r: bytes)
    requires sync < U64
    ensures |r| <= 42 + |p.auth|
  {
    IdFits(sync, p);
    MessageBytes(IdMessage(sync, p))
  }

  lemma IdFits(sync: nat, p: Required)
    requires sync < U64
    ensures |RequestHead(REQUEST_ID, sync)| <= 13 && |IdBody(p)| <= 24 + |p.auth|
  {
    hide RequestHead, Below, VersionPart, FeaturePart, AuthPart, Header;
    RequestHeadFits(REQUEST_ID, sync);
    PartsFit(p);
  }

  lemma PartsFit(p: Required)
    ensures |VersionPart(p)| <= 10 && |AuthPart(p)| <= 6 + |p.auth|
    ensures |FeaturePart(Below(p.features, FEATURE_INVALID))| <= 7
  {
    hide Below, Numbers;
    var fs := Below(p.features, FEATURE_INVALID);
    BelowLists(p.features, FEATURE_INVALID);
    assert forall f | f in fs :: f <= 0x7f;
    NumbersFit(fs);
  }

  lemma RequestHeadFits(code: byte, sync: nat)
    requires sync < U64 && code <= 0x7f
    ensures |RequestHead(code, sync)| <= 13
  {
  }

  lemma {:induction false} NumbersFit(fs: seq<byte>)
    requires forall f | f in fs :: f <= 0x7f
    ensures |Numbers(fs)| == |fs|
  {
    if fs != [] {
      var k := |fs| - 1;
      assert fs[k] in fs && forall f | f in fs[..k] :: f in fs;
      NumbersFit(fs[..k]);
    }
  }

  /** None when the request would not fit a message: encode_auth_request throws. */
  function AuthRequest(sync: nat, user: bytes, scheme: bytes, scramble: bytes): Option<bytes>
    requires sync < U64
  {
    if |user| >= U32 || |scheme| >= U32 || |scramble| >= U32 then None
    else
      var payload := RequestHead(REQUEST_AUTH, sync) + AuthBody(user, scheme, scramble);
      if |payload| + 5 >= U32 then None else Some(MessageBytes(payload))
  }

  predicate NeedsAuth(t: Target) {
    t.user != [] && t.user != CsParser.GUEST
  }

  /** The reply's code and what follows the header; None stands for any mp_reader_error. */
  function ReplyOf(recv: bytes): Option<(nat, bytes)> {
    var t := TakeMessage(recv);
    if !t.Message? || Walk(t.payload, 1).Lost? then None
    else match HeadOf(t.payload)
      case Container(true, w, c) =>
        (match Reader.FindIn(t.payload[w..], c / 2, Reader.IntKey(CODE))
         case Value(item) =>
           (match Reader.ReadInteger(UINT32, item)
            case None => None
            case Some(code) => Some((code, Walk(t.payload, 1).rest)))
         case _ => None)
      case _ => None
  }

  function SetConnected(c: Conn): Conn {
    c.(rcv := Cleared(c.rcv), stage := Connected, ticks := -1)
  }

  function Reject(c: Conn): Conn {
    Fail(c.(rcv := Cleared(c.rcv)))
  }

  /** The authentication request goes out alone; whatever was in the send buffer is dropped. */
  function SendAuth(c: Conn, io: Io, scramble: bytes): Conn
    requires c.nextId < U64 && c.snd.uncorked <= |c.snd.out|
  {
    match AuthRequest(c.nextId, c.parts.user, c.serverProto.auth, scramble)
    case None => Reject(c)
    case Some(request) =>
      Drain(c.(rcv := Cleared(c.rcv), stage := Authentication, nextId := (c.nextId + 1) % U64,
               snd := Place(c.snd, request)), io.script)
  }

  /** A successful or tolerated features reply: authenticate, or stay a guest. */
  function Proceed(c: Conn, io: Io, scramble: bytes): Conn
    requires c.nextId < U64 && c.snd.uncorked <= |c.snd.out|
  {
    if NeedsAuth(c.parts) then SendAuth(c, io, scramble) else SetConnected(c)
  }

  /** A whole reply during the handshake. */
  function Handshake(c: Conn, io: Io, scramble: bytes): Conn
    requires c.nextId < U64 && c.snd.uncorked <= |c.snd.out|
  {
    match ReplyOf(c.rcv.recv)
    case None => Reject(c)
    case Some(r) =>
      var code := r.0;
      var d := c.(replies := c.replies + [Reply(c.stage, code)]);
      if code == 0 then
        if c.stage.Authentication? then SetConnected(d)
        else match ProtoOf(r.1, c.serverProto)
          case None => Reject(d)
          case Some(p) => Proceed(d.(serverProto := p), io, scramble)
      else if c.stage.FeaturesRequest? && code % 0x8000 == ER_UNKNOWN_REQUEST_TYPE then Proceed(d, io, scramble)
      else Reject(d)
  }

  // --- receiving ------------------------------------------------------------------------------

  datatype Arrival = Arrived(bs: bytes) | Ended(bs: bytes)

  /** The recv loop of read(): everything up to EAGAIN, or up to an end of stream or an error. */
  function ReceiveAll(recvs: seq<Recv>): Arrival
    decreases |recvs|
  {
    if recvs == [] then Arrived([])
    else match recvs[0]
      case NoMore => Arrived([])
      case RecvInterrupted => ReceiveAll(recvs[1..])
      case RecvFailed => Ended([])
      case Data(bs) =>
        if bs == [] then Ended([])
        else match ReceiveAll(recvs[1..])
          case Arrived(more) => Arrived(bs + more)
          case Ended(more) => Ended(bs + more)
  }

  /** A complete greeting: the feature request goes out. */
  function Greet(c: Conn, io: Io): Conn
    requires c.nextId < U64 && c.snd.uncorked <= |c.snd.out|
  {
    Drain(c.(greeting := c.rcv.recv, rcv := Cleared(c.rcv), stage := FeaturesRequest,
             nextId := (c.nextId + 1) % U64, snd := Place(c.snd, IdRequest(c.nextId, c.required)), replies := []),
          io.script)
  }

  /** process_receive_buffer */
  function Process(c: Conn, io: Io, reaction: Reaction, scramble: bytes): Conn
    requires c.rcv.head <= |c.rcv.recv| && c.nextId < U64 && c.snd.uncorked <= |c.snd.out|
  {
    var s := Scan(c.rcv);
    ScanBounds(c.rcv);
    if s.head == 0 then c.(rcv := s)
    else if c.stage.FeaturesRequest? || c.stage.Authentication? then Handshake(c.(rcv := s), io, scramble)
    else if s.idle then c.(rcv := Pass(s, reaction))
    else c.(rcv := s)
  }

  function Read(c: Conn, recvs: seq<Recv>, io: Io, reaction: Reaction, scramble: bytes): Conn
    requires c.rcv.head <= |c.rcv.recv| && c.nextId < U64 && c.snd.uncorked <= |c.snd.out|
  {
    if !c.socket then c
    else
      var a := ReceiveAll(recvs);
      var d := c.(rcv := c.rcv.(recv := c.rcv.recv + a.bs));
      if a.Ended? then Fail(d)
      else if c.stage.Connecting? then (if |d.rcv.recv| < GREETING_SIZE then d else Greet(d, io))
      else Process(d, io, reaction, scramble)
  }

  function InputDone(c: Conn, reaction: Reaction): Conn
    requires c.rcv.head <= |c.rcv.recv|
  {
    c.(rcv := Processed(c.rcv, reaction))
  }

  // --- opening --------------------------------------------------------------------------------

  /** A socket that connect() has accepted: at once, or in progress. */
  function Dial(c: Conn, result: ConnectResult): Conn
    requires result.Established? || result.InProgress?
  {
    var d := c.(stage := Connecting, socket := true, snd := c.snd.(wire := []));
    if result.Established? then d.(watch := WatchRead) else d.(watch := WatchWrite, ticks := 0)
  }

  /** address_resolved: the first address that gives a socket decides. */
  function TryAddresses(c: Conn, addrs: seq<ConnectResult>): Conn
    decreases |addrs|
  {
    if addrs == [] then c.(stage := Disconnected, ticks := 0)
    else match addrs[0]
      case NoSocket => TryAddresses(c, addrs[1..])
      case ConnectFails => Fail(c)
      case r => Dial(c, r)
  }

  /** The resolver's notification with addresses. */
  function Resolved(c: Conn, addrs: seq<ConnectResult>): Conn {
    if c.resolver.None? then c
    else
      var d := c.(resolver := None);
      if c.stage.AddressResolving? then TryAddresses(d, addrs) else d
  }

  /** The resolver's notification of a failure. */
  function ResolveFailed(c: Conn): Conn {
    if c.resolver.None? then c else c.(resolver := None, stage := Disconnected, ticks := 0)
  }

  function DialUnix(c: Conn, result: ConnectResult): Conn {
    match result
    case NoSocket => c
    case ConnectFails => Fail(c)
    case _ => Dial(c, result)
  }

  function Open(c: Conn, delay: int, unix: ConnectResult): Conn {
    if !c.stage.Disconnected? then c
    else if delay > 0 then c.(ticks := 0, timeout := delay)
    else if c.resolver.Some? then c
    else
      var d := c.(timeout := GENERAL_TIMEOUT, ticks := -1, parts := c.target, attempt := c.attempt + 1);
      if c.target.host != [] then d.(stage := AddressResolving, resolver := Some(d.attempt))
      else if c.target.unixPath != [] then DialUnix(d, unix)
      else d
  }

  // --- the timer ------------------------------------------------------------------------------

  /** tick_1sec; `stuck` says that the last write is more than ten seconds ago. */
  function Tick(c: Conn, stuck: bool, unix: ConnectResult, io: Io): Conn
    requires c.snd.next <= |c.snd.send| && c.snd.uncorked <= |c.snd.out|
  {
    if c.ticks >= 0 && c.ticks + 1 >= c.timeout then
      var d := c.(ticks := c.ticks + 1);
      if c.stage.Disconnected? then Open(d, 0, unix) else Fail(d)
    else
      var d := if c.ticks >= 0 then c.(ticks := c.ticks + 1) else c;
      if c.stage.Connected? && c.snd.uncorked > 0 && stuck then
        Flush(d.(jams := d.jams + [JamInTick(|c.snd.send| - c.snd.next, c.snd.uncorked, c.watch)]), io)
      else d
  }

  // --- runs -----------------------------------------------------------------------------------

  datatype Event =
    | Append(bs: bytes)
    | FlushCall(io: Io)
    | WriteReady(io: Io)
    | ReadReady(recvs: seq<Recv>, io: Io, reaction: Reaction, scramble: bytes)
    | InputProcessed(reaction: Reaction)
    | OpenCall(delay: int, unix: ConnectResult)
    | CloseCall(delay: int)
    | AddressesFound(addrs: seq<ConnectResult>)
    | AddressesFailed
    | TimerTick(stuck: bool, unix: ConnectResult, io: Io)
    | Retarget(t: Target)
    | Require(p: Required)
    | TakeRequestId

  /** The buffers' own consistency, kept by every step. */
  ghost predicate Sane(c: Conn) {
    SenderOk(c.snd) && c.rcv.head <= |c.rcv.recv| && c.nextId < U64
  }

  function Next(c: Conn, e: Event): Conn
    requires Sane(c)
  {
    match e
    case Append(bs) => c.(snd := Sending.Append(c.snd, bs))
    case FlushCall(io) => Flush(c, io)
    case WriteReady(io) => Write(c, io)
    case ReadReady(recvs, io, reaction, scramble) => Read(c, recvs, io, reaction, scramble)
    case InputProcessed(reaction) => InputDone(c, reaction)
    case OpenCall(delay, unix) => Open(c, delay, unix)
    case CloseCall(delay) => Close(c, delay)
    case AddressesFound(addrs) => Resolved(c, addrs)
    case AddressesFailed => ResolveFailed(c)
    case TimerTick(stuck, unix, io) => Tick(c, stuck, unix, io)
    case Retarget(t) => if c.stage.Disconnected? then c.(target := t) else c
    case Require(p) => c.(required := p)
    case TakeRequestId => c.(nextId := (c.nextId + 1) % U64)
  }
}
