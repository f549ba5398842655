/** Theorems over whole runs of a connection: what is sent, and how a session comes about. */
module Sessions {
  import opened Bytes
  import opened Options
  import opened Frames
  import opened Iproto
  import opened Sending
  import opened Receiving
  import opened Connections
  import opened Lifecycle

  /** A new connection object. */
  function Created(target: Target, room: nat, handler: bool): Conn {
    Conn(Disconnected, false, WatchNone, None, 0, -1, GENERAL_TIMEOUT, target, Target([], [], []),
         [], NO_PROTO, NO_PROTO, 0,
         Sender([], room, 0, [], room, 0, [], false), Receiver([], 0, 0, [], true, handler, []), [], [])
  }

  lemma CreatedInv(target: Target, room: nat, handler: bool)
    ensures Inv(Created(target, room, handler))
  {
  }

  // --- sending --------------------------------------------------------------------------------

  /** The connection is established and stays so after every event. */
  ghost predicate StaysConnected(c: Conn, es: seq<Event>)
    requires Inv(c)
    decreases |es|
  {
    c.stage.Connected? &&
    (es != [] ==> (NextInv(c, es[0]); StaysConnected(Next(c, es[0]), es[1..])))
  }

  /** The reference: all bytes the caller has appended, and how many of them have been flushed. */
  datatype Tape = Tape(given: bytes, mark: nat)

  /** flush() is called, by the caller or by the timer on behalf of stuck data. */
  predicate Flushes(c: Conn, e: Event) {
    e.FlushCall? || (e.TimerTick? && e.stuck && c.snd.uncorked > 0)
  }

  function TapeNext(t: Tape, c: Conn, e: Event): Tape {
    if e.Append? then t.(given := t.given + e.bs)
    else if Flushes(c, e) then t.(mark := |t.given|)
    else t
  }

  function TapeRun(t: Tape, c: Conn, es: seq<Event>): Tape
    requires Inv(c)
    decreases |es|
  {
    if es == [] then t
    else
      NextInv(c, es[0]);
      TapeRun(TapeNext(t, c, es[0]), Next(c, es[0]), es[1..])
  }

  /** bytes accepted by the socket ++ unsent send buffer ++ output buffer is everything appended, and
      its flushed prefix is what may leave. */
  ghost predicate OnTape(s: Sender, t: Tape) {
    t.mark <= |t.given| && Stream(s) == t.given && Flushed(s) == t.given[..t.mark]
  }

  lemma FlushOnTape(c: Conn, io: Io, t: Tape)
    requires Inv(c) && c.stage.Connected? && Flush(c, io).stage.Connected? && !Flush(c, io).snd.corrupt
    requires OnTape(c.snd, t)
    ensures OnTape(Flush(c, io).snd, t.(mark := |t.given|)) && !c.snd.corrupt && c.snd.wire <= Flush(c, io).snd.wire
  {
    hide SendLoop;
    var s := c.snd;
    assert t.given[..|t.given|] == t.given;
    if s.out == [] {
      assert s.out[..s.uncorked] == [];
      assert Stream(s) == Flushed(s);
    } else if s.next == |s.send| {
      SwapAllKeeps(s);
      var script := if c.socket then io.script else [Refused];
      assert !SendLoop(SwapAll(s), script).s.corrupt;
      SendLoopKeeps(SwapAll(s), script);
    } else {
      assert s.out[..|s.out|] == s.out;
    }
  }

  lemma StepOnTape(c: Conn, e: Event, t: Tape)
    requires Inv(c) && c.stage.Connected? && Next(c, e).stage.Connected? && !Next(c, e).snd.corrupt
    requires OnTape(c.snd, t)
    ensures OnTape(Next(c, e).snd, TapeNext(t, c, e)) && !c.snd.corrupt && c.snd.wire <= Next(c, e).snd.wire
  {
    hide SendLoop, Stream, Flushed, Handshake, Scan, ReceiveAll, Flush;
    match e
    case Append(bs) =>
      AppendKeeps(c.snd, bs);
      assert (t.given + bs)[..t.mark] == t.given[..t.mark];
    case FlushCall(io) => FlushOnTape(c, io, t);
    case WriteReady(io) => SendLoopKeeps(c.snd, if c.socket then io.script else [Refused]);
    case TimerTick(stuck, unix, io) =>
      if c.snd.uncorked > 0 && stuck {
        var d := c.(jams := c.jams + [JamInTick(|c.snd.send| - c.snd.next, c.snd.uncorked, c.watch)]);
        assert Next(c, e) == Flush(d, io);
        FlushOnTape(d, io, t);
      }
    case ReadReady(recvs, io, reaction, scramble) => ScanBounds(c.rcv.(recv := c.rcv.recv + ReceiveAll(recvs).bs));
    case _ =>
  }

  lemma FlushedIsPrefix(s: Sender)
    requires SenderOk(s)
    ensures |Flushed(s)| <= |Stream(s)| && OnTape(s, Tape(Stream(s), |Flushed(s)|))
  {
    var f, g := Flushed(s), Stream(s);
    assert g[..|f|] == f;
  }

  /** The event makes the connection send from the send buffer as it stands. */
  predicate Sends(c: Conn, e: Event) {
    e.WriteReady? || (e.ReadReady? && !c.stage.Connected?)
  }

  /** Before every event that sends, nothing is marked behind the send buffer, or the tail that would
      stay corked fits the room of the send buffer. */
  ghost predicate TailsFit(c: Conn, es: seq<Event>)
    requires Inv(c)
    decreases |es|
  {
    es != [] ==>
      (Sends(c, es[0]) ==> c.snd.uncorked == 0 || TailFits(c.snd)) &&
      (NextInv(c, es[0]); TailsFit(Next(c, es[0]), es[1..]))
  }

  lemma DrainNoOverrun(c: Conn, script: seq<SendResult>)
    requires SenderOk(c.snd) && !c.snd.corrupt && (c.snd.uncorked == 0 || TailFits(c.snd))
    ensures !Drain(c, script).snd.corrupt
  {
    hide SendLoop;
    LoopNoOverrun(c.snd, if c.socket then script else [Refused]);
  }

  lemma FlushNoOverrun(c: Conn, io: Io)
    requires SenderOk(c.snd) && !c.snd.corrupt
    ensures !Flush(c, io).snd.corrupt
  {
    hide Drain;
    if c.snd.next == |c.snd.send| { DrainNoOverrun(c.(snd := SwapAll(c.snd)), io.script); }
  }

  /** The request that goes out when the features are known. */
  function AuthComposed(c: Conn, scramble: bytes): Option<bytes>
    requires c.nextId < U64
  {
    if NeedsAuth(c.parts) then AuthRequest(c.nextId, c.parts.user, c.serverProto.auth, scramble) else None
  }

  /** The request that a reply to the features request leads to. */
  function ReplyComposed(c: Conn, scramble: bytes): Option<bytes>
    requires c.nextId < U64
  {
    match ReplyOf(c.rcv.recv)
    case None => None
    case Some(r) =>
      if r.0 == 0 then
        match ProtoOf(r.1, c.serverProto)
        case None => None
        case Some(p) => AuthComposed(c.(serverProto := p), scramble)
      else if r.0 % 0x8000 == ER_UNKNOWN_REQUEST_TYPE then AuthComposed(c, scramble)
      else None
  }

  /** The request a read() composes during the handshake. */
  function Composed(c: Conn, recvs: seq<Recv>, scramble: bytes): Option<bytes>
    requires c.rcv.head <= |c.rcv.recv| && c.nextId < U64
  {
    var a := ReceiveAll(recvs);
    var d := c.(rcv := c.rcv.(recv := c.rcv.recv + a.bs));
    if !c.socket || a.Ended? then None
    else if c.stage.Connecting? then
      if |d.rcv.recv| < GREETING_SIZE then None else Some(IdRequest(c.nextId, c.required))
    else if c.stage.FeaturesRequest? && Scan(d.rcv).head != 0 then ReplyComposed(d.(rcv := Scan(d.rcv)), scramble)
    else None
  }

  /** It is no longer than the space start_message finds or reserves for it. */
  predicate RequestFits(c: Conn, e: Event)
    requires Inv(c)
  {
    e.ReadReady? ==>
      var r := Composed(c, e.recvs, e.scramble);
      r.Some? ==> |r.value| <= Reserved(c.snd.sendRoom)
  }

  ghost predicate RequestsFit(c: Conn, es: seq<Event>)
    requires Inv(c)
    decreases |es|
  {
    es != [] ==> RequestFits(c, es[0]) && (NextInv(c, es[0]); RequestsFit(Next(c, es[0]), es[1..]))
  }

  lemma NoRequest(c: Conn, e: Event)
    requires Inv(c) && c.stage.Connected?
    ensures RequestFits(c, e)
  {
    if e.ReadReady? { NothingComposed(c, e.recvs, e.scramble); }
    hide Composed;
  }

  /** The sizes: the request for the features fits for every authentication name of up to 982 bytes, that for
      the authentication when user, scheme and scramble have no more than 987 bytes together. */
  lemma RequestSizes(c: Conn, scramble: bytes)
    requires c.nextId < U64
    ensures |IdRequest(c.nextId, c.required)| <= 42 + |c.required.auth|
    ensures var r := AuthComposed(c, scramble);
            r.Some? ==> |r.value| <= 37 + |c.parts.user| + |c.serverProto.auth| + |scramble|
  {
    hide IdRequest, RequestHead, AuthBody, BigEndian;
    RequestHeadFits(REQUEST_AUTH, c.nextId);
    if |c.parts.user| < U32 && |c.serverProto.auth| < U32 && |scramble| < U32 {
      AuthBodySize(c.parts.user, c.serverProto.auth, scramble);
    }
  }

  lemma AuthBodySize(user: bytes, scheme: bytes, scramble: bytes)
    requires |user| < U32 && |scheme| < U32 && |scramble| < U32
    ensures |AuthBody(user, scheme, scramble)| <= 19 + |user| + |scheme| + |scramble|
  {
    hide BigEndian;
  }

  /** What read() does to the sending half: nothing, or one request past the output buffer, sent as far
      as the socket takes it; and closing empties it. */
  lemma ReadSends(c: Conn, recvs: seq<Recv>, io: Io, reaction: Reaction, scramble: bytes) returns (s: Sender)
    requires Inv(c)
    ensures var r := Composed(c, recvs, scramble);
            s == if r.Some? then SendLoop(Place(c.snd, r.value), io.script).s else c.snd
    ensures Composed(c, recvs, scramble) != Some([])
    ensures var d := Read(c, recvs, io, reaction, scramble).snd; d == s || d == Emptied(s)
  {
    hide SendLoop, ReceiveAll, Scan, Proceed, ReplyOf, ProtoOf, ReplyComposed;
    var d := c.(rcv := c.rcv.(recv := c.rcv.recv + ReceiveAll(recvs).bs));
    s := c.snd;
    if c.stage.Connecting? {
      if ReceiveAll(recvs).Arrived? && |d.rcv.recv| >= GREETING_SIZE {
        s := SendLoop(Place(c.snd, IdRequest(c.nextId, c.required)), io.script).s;
      }
    } else if c.socket && ReceiveAll(recvs).Arrived? {
      ScanBounds(d.rcv);
      var f := d.(rcv := Scan(d.rcv));
      if !c.stage.Connected? && f.rcv.head != 0 { s := HandshakeSends(f, io, scramble); }
    }
  }

  lemma HandshakeSends(c: Conn, io: Io, scramble: bytes) returns (s: Sender)
    requires Sane(c) && c.socket
    ensures var r := if c.stage.FeaturesRequest? then ReplyComposed(c, scramble) else None;
            c.stage.FeaturesRequest? || c.stage.Authentication? ==>
              r != Some([]) && s == if r.Some? then SendLoop(Place(c.snd, r.value), io.script).s else c.snd
    ensures var d := Handshake(c, io, scramble).snd;
            c.stage.FeaturesRequest? || c.stage.Authentication? ==> d == s || d == Emptied(s)
  {
    hide SendLoop, Proceed, ReplyOf, ProtoOf, AuthComposed;
    s := c.snd;
    var r := ReplyOf(c.rcv.recv);
    if r.Some? && c.stage.FeaturesRequest? {
      var d := c.(replies := c.replies + [Reply(c.stage, r.value.0)]);
      if r.value.0 == 0 {
        var p := ProtoOf(r.value.1, c.serverProto);
        if p.Some? {
          s := ProceedSends(d.(serverProto := p.value), io, scramble);
          SameRequest(d.(serverProto := p.value), c.(serverProto := p.value), scramble);
        }
      } else if r.value.0 % 0x8000 == ER_UNKNOWN_REQUEST_TYPE {
        s := ProceedSends(d, io, scramble);
        SameRequest(d, c, scramble);
      }
    }
  }

  lemma SameRequest(c: Conn, d: Conn, scramble: bytes)
    requires c.nextId == d.nextId < U64 && c.parts == d.parts && c.serverProto == d.serverProto
    ensures AuthComposed(c, scramble) == AuthComposed(d, scramble)
  {
  }

  lemma ProceedSends(c: Conn, io: Io, scramble: bytes) returns (s: Sender)
    requires Sane(c) && c.socket
    ensures var r := AuthComposed(c, scramble);
            r != Some([]) && s == if r.Some? then SendLoop(Place(c.snd, r.value), io.script).s else c.snd
    ensures var d := Proceed(c, io, scramble).snd; d == s || d == Emptied(s)
  {
    hide SendLoop;
    var r := AuthRequest(c.nextId, c.parts.user, c.serverProto.auth, scramble);
    RequestsAreNotEmpty(c.nextId, c.parts.user, c.serverProto.auth, scramble);
    hide AuthRequest;
    s := if NeedsAuth(c.parts) && r.Some? then SendLoop(Place(c.snd, r.value), io.script).s else c.snd;
  }

  lemma LoopNoOverrun(s: Sender, script: seq<SendResult>)
    requires SenderOk(s) && !s.corrupt && (s.uncorked == 0 || TailFits(s))
    ensures !SendLoop(s, script).s.corrupt
  {
    if s.uncorked == 0 { NoMarkNoOverrun(s, script); } else { FittingTailNoOverrun(s, script); }
  }

  lemma StepNoOverrun(c: Conn, e: Event)
    requires Inv(c) && !c.snd.corrupt && RequestFits(c, e) && (Sends(c, e) ==> c.snd.uncorked == 0 || TailFits(c.snd))
    ensures !Next(c, e).snd.corrupt
  {
    hide Drain, Flush, Read, TryAddresses, Composed;
    match e
    case FlushCall(io) => FlushNoOverrun(c, io);
    case WriteReady(io) => DrainNoOverrun(c, io.script);
    case ReadReady(recvs, io, reaction, scramble) => ReadNoOverrun(c, recvs, io, reaction, scramble);
    case AddressesFound(addrs) => TryKeepsCorrupt(c.(resolver := None), addrs);
    case TimerTick(stuck, unix, io) =>
      var d := if c.ticks >= 0 then c.(ticks := c.ticks + 1) else c;
      FlushNoOverrun(d.(jams := d.jams + [JamInTick(|c.snd.send| - c.snd.next, c.snd.uncorked, c.watch)]), io);
    case _ =>
  }

  lemma ReadNoOverrun(c: Conn, recvs: seq<Recv>, io: Io, reaction: Reaction, scramble: bytes)
    requires Inv(c) && !c.snd.corrupt && RequestFits(c, ReadReady(recvs, io, reaction, scramble))
    requires c.stage.Connected? || c.snd.uncorked == 0 || TailFits(c.snd)
    ensures !Read(c, recvs, io, reaction, scramble).snd.corrupt
  {
    hide Read, SendLoop;
    var s := ReadSends(c, recvs, io, reaction, scramble);
    var r := Composed(c, recvs, scramble);
    if c.stage.Connected? { NothingComposed(c, recvs, scramble); }
    hide Composed;
    if r.Some? { LoopNoOverrun(Place(c.snd, r.value), io.script); }
  }

  lemma NothingComposed(c: Conn, recvs: seq<Recv>, scramble: bytes)
    requires Inv(c) && c.stage.Connected?
    ensures Composed(c, recvs, scramble).None?
  {
    hide ReceiveAll;
  }

  lemma {:induction false} TryKeepsCorrupt(c: Conn, addrs: seq<ConnectResult>)
    ensures TryAddresses(c, addrs).snd.corrupt == c.snd.corrupt
    decreases |addrs|
  {
    if addrs != [] && addrs[0].NoSocket? { TryKeepsCorrupt(c, addrs[1..]); }
  }

  /** Nothing ever runs past a sending buffer, over any run in which the tails and the requests of the
      handshake fit. */
  lemma {:induction false} NoOverrun(c: Conn, es: seq<Event>)
    requires Inv(c) && !c.snd.corrupt && TailsFit(c, es) && RequestsFit(c, es)
    ensures !Run(c, es).snd.corrupt
    decreases |es|
  {
    hide Next, Inv, Sends, TailFits, RequestFits;
    if es != [] {
      Sanity(c);
      NextInv(c, es[0]);
      StepNoOverrun(c, es[0]);
      NoOverrun(Next(c, es[0]), es[1..]);
    }
  }

  /** Every append is followed at once by a flush. */
  predicate FlushesAppends(es: seq<Event>) {
    if es == [] then true
    else if es[0].Append? then |es| >= 2 && es[1].FlushCall? && FlushesAppends(es[2..])
    else FlushesAppends(es[1..])
  }

  /** Nothing is corked: the mark is at the end of the output buffer. */
  predicate Uncorked(s: Sender) {
    s.uncorked == |s.out|
  }

  lemma {:induction false} LoopUncorked(s: Sender, script: seq<SendResult>)
    requires s.next <= |s.send| && Uncorked(s)
    ensures Uncorked(SendLoop(s, script).s)
    decreases |script|
  {
    if s.next < |s.send| && script != [] {
      match script[0]
      case Interrupted => LoopUncorked(s, script[1..]);
      case Sent(n) =>
        var t := Accept(s, Portion(n, |s.send| - s.next));
        LoopUncorked(if t.next == |t.send| && t.uncorked > 0 then SwapFlushed(t) else t, script[1..]);
      case _ =>
    }
  }

  lemma DrainUncorked(c: Conn, script: seq<SendResult>)
    requires c.snd.next <= |c.snd.send| && Uncorked(c.snd)
    ensures Uncorked(Drain(c, script).snd)
  {
    LoopUncorked(c.snd, if c.socket then script else [Refused]);
    hide SendLoop;
  }

  lemma FlushUncorks(c: Conn, io: Io)
    requires SenderOk(c.snd)
    ensures Uncorked(Flush(c, io).snd)
  {
    hide Drain;
    if c.snd.next == |c.snd.send| { DrainUncorked(c.(snd := SwapAll(c.snd)), io.script); }
  }

  lemma StepUncorked(c: Conn, e: Event)
    requires Inv(c) && Uncorked(c.snd) && !e.Append?
    ensures Uncorked(Next(c, e).snd)
  {
    hide Drain, Flush, Read, TryAddresses;
    match e
    case FlushCall(io) => FlushUncorks(c, io);
    case WriteReady(io) => DrainUncorked(c, io.script);
    case ReadReady(recvs, io, reaction, scramble) =>
      hide SendLoop;
      var s := ReadSends(c, recvs, io, reaction, scramble);
      var r := Composed(c, recvs, scramble);
      hide Composed;
      if r.Some? { LoopUncorked(Place(c.snd, r.value), io.script); }
    case AddressesFound(addrs) => TryUncorked(c.(resolver := None), addrs);
    case TimerTick(stuck, unix, io) =>
      var d := if c.ticks >= 0 then c.(ticks := c.ticks + 1) else c;
      FlushUncorks(d.(jams := d.jams + [JamInTick(|c.snd.send| - c.snd.next, c.snd.uncorked, c.watch)]), io);
    case _ =>
  }

  lemma {:induction false} TryUncorked(c: Conn, addrs: seq<ConnectResult>)
    ensures Uncorked(c.snd) ==> Uncorked(TryAddresses(c, addrs).snd)
    decreases |addrs|
  {
    if addrs != [] && addrs[0].NoSocket? { TryUncorked(c, addrs[1..]); }
  }

  /** A caller who flushes after every append leaves no tail that could fail to fit. */
  lemma {:induction false} FlushingCallerNeverOverruns(c: Conn, es: seq<Event>)
    requires Inv(c) && Uncorked(c.snd) && FlushesAppends(es)
    ensures TailsFit(c, es)
    decreases |es|
  {
    hide Next, Inv, Uncorked;
    if es != [] {
      Sanity(c);
      NextInv(c, es[0]);
      UncorkedFits(c);
      var d := Next(c, es[0]);
      if es[0].Append? {
        var rest := es[1..];
        assert rest[0] == es[1] && rest[1..] == es[2..];
        NextInv(d, es[1]);
        Sanity(d);
        FlushUncorks(d, es[1].io);
        FlushIs(d, es[1]);
        FlushingCallerNeverOverruns(Next(d, es[1]), es[2..]);
      } else {
        StepUncorked(c, es[0]);
        FlushingCallerNeverOverruns(d, es[1..]);
      }
    }
  }

  lemma FlushIs(c: Conn, e: Event)
    requires Inv(c) && e.FlushCall?
    ensures Next(c, e) == Flush(c, e.io) && !Sends(c, e)
  {
    hide Flush;
  }

  lemma UncorkedFits(c: Conn)
    requires Uncorked(c.snd)
    ensures TailFits(c.snd)
  {
  }

  lemma {:induction false} RunOnTape(c: Conn, es: seq<Event>, t: Tape)
    requires Inv(c) && StaysConnected(c, es) && !c.snd.corrupt && TailsFit(c, es) && OnTape(c.snd, t)
    ensures OnTape(Run(c, es).snd, TapeRun(t, c, es)) && c.snd.wire <= Run(c, es).snd.wire
    decreases |es|
  {
    hide Next, Inv, OnTape, Sends, TailFits;
    Sanity(c);
    if es != [] {
      NextInv(c, es[0]);
      NoRequest(c, es[0]);
      StepNoOverrun(c, es[0]);
      StepOnTape(c, es[0], t);
      RunOnTape(Next(c, es[0]), es[1..], TapeNext(t, c, es[0]));
    }
  }

  /** Conservation. Over any run inside one established session in which the tails fit - appends,
      flushes, write readiness with every pattern of short sends, EAGAIN and EINTR, arrivals and ticks -
      the bytes accepted by the socket, the unsent bytes and the output buffer are together exactly
      everything appended, in order; the socket never gets a byte past the last flush mark; and
      bytes_to_send() is the number of flushed bytes not yet accepted. */
  lemma NothingLostInOrder(c: Conn, es: seq<Event>)
    requires Inv(c) && StaysConnected(c, es) && !c.snd.corrupt && TailsFit(c, es)
    ensures var s := Run(c, es).snd;
            var t := TapeRun(Tape(Stream(c.snd), |Flushed(c.snd)|), c, es);
            t.mark <= |t.given| &&
            s.wire + Unsent(s) + s.out == t.given &&
            c.snd.wire <= s.wire <= t.given[..t.mark] &&
            BytesToSend(s) == t.mark - |s.wire|
  {
    hide Run, StaysConnected, TapeRun, TailsFit;
    FlushedIsPrefix(c.snd);
    RunOnTape(c, es, Tape(Stream(c.snd), |Flushed(c.snd)|));
    RunInv(c, es);
    var s := Run(c, es).snd;
    assert s.wire <= Flushed(s);
  }

  /** Write events in which the socket takes something at once. */
  function Answered(es: seq<Event>): nat {
    if es == [] then 0 else (if Answers(es[0]) then 1 else 0) + Answered(es[1..])
  }

  predicate Answers(e: Event) {
    e.WriteReady? && e.io.script != [] && e.io.script[0].Sent?
  }

  lemma {:induction false} LoopOnlyAdds(s: Sender, script: seq<SendResult>)
    requires s.next <= |s.send| && s.uncorked <= |s.out|
    ensures |s.wire| <= |SendLoop(s, script).s.wire|
    ensures s.next < |s.send| && script != [] && script[0].Sent? ==> |s.wire| < |SendLoop(s, script).s.wire|
    decreases |script|
  {
    if s.next < |s.send| && script != [] {
      match script[0]
      case Interrupted => LoopOnlyAdds(s, script[1..]);
      case Sent(n) =>
        var t := Accept(s, Portion(n, |s.send| - s.next));
        LoopOnlyAdds(if t.next == |t.send| && t.uncorked > 0 then SwapFlushed(t) else t, script[1..]);
      case _ =>
    }
  }

  /** Such an event lowers bytes_to_send as long as there is anything to send. */
  lemma AnsweredWriteSends(c: Conn, e: Event)
    requires Inv(c) && c.stage.Connected? && Next(c, e).stage.Connected? && Answers(e) && BytesToSend(c.snd) > 0
    ensures |c.snd.wire| < |Next(c, e).snd.wire|
    ensures !Next(c, e).snd.corrupt ==> BytesToSend(Next(c, e).snd) < BytesToSend(c.snd)
  {
    LoopOnlyAdds(c.snd, e.io.script);
    var s := SendLoop(c.snd, e.io.script).s;
    SendLoopNeverJams(c.snd, e.io.script);
    if !s.corrupt { SendLoopKeeps(c.snd, e.io.script); }
    FlushedCounts(c.snd);
    FlushedCounts(s);
    hide SendLoop, Flushed, Stream, BytesToSend;
  }

  lemma FlushedCounts(s: Sender)
    requires SenderOk(s)
    ensures |Flushed(s)| == |s.wire| + BytesToSend(s)
  {
  }

  lemma {:induction false} SendingAdvances(c: Conn, es: seq<Event>, f: nat)
    requires Inv(c) && StaysConnected(c, es) && !c.snd.corrupt && TailsFit(c, es) && f <= |Flushed(c.snd)|
    ensures |Run(c, es).snd.wire| >= f || |Run(c, es).snd.wire| >= |c.snd.wire| + Answered(es)
    decreases |es|
  {
    hide Next, Inv, Sends, TailFits, Flushed, Stream, Answers, BytesToSend;
    Sanity(c);
    if es != [] {
      var e := es[0];
      var d := Next(c, e);
      NextInv(c, e);
      Sanity(d);
      NoRequest(c, e);
      StepNoOverrun(c, e);
      FlushedIsPrefix(c.snd);
      StepOnTape(c, e, Tape(Stream(c.snd), |Flushed(c.snd)|));
      FlushedCounts(c.snd);
      if Answers(e) && BytesToSend(c.snd) > 0 { AnsweredWriteSends(c, e); }
      SendingAdvances(d, es[1..], f);
    }
  }

  /** Everything flushed gets out: over any run in one established session in which the tails fit, once the
      socket has answered as many write events as there were bytes to send, it has accepted all that was
      flushed at the start, whatever has been appended and flushed meanwhile. */
  lemma FlushedIsAccepted(c: Conn, es: seq<Event>)
    requires Inv(c) && StaysConnected(c, es) && !c.snd.corrupt && TailsFit(c, es)
    requires Answered(es) >= BytesToSend(c.snd)
    ensures Flushed(c.snd) <= Run(c, es).snd.wire
  {
    hide Run, StaysConnected, TapeRun, TailsFit, Flushed, Stream, BytesToSend;
    Sanity(c);
    FlushedCounts(c.snd);
    FlushedIsPrefix(c.snd);
    SendingAdvances(c, es, |Flushed(c.snd)|);
    NothingLostInOrder(c, es);
    var t := Tape(Stream(c.snd), |Flushed(c.snd)|);
    TapeGrows(t, c, es);
    var wire, given := Run(c, es).snd.wire, TapeRun(t, c, es).given;
    assert Flushed(c.snd) == given[..|Flushed(c.snd)|];
    assert wire == given[..|wire|];
  }

  lemma {:induction false} TapeGrows(t: Tape, c: Conn, es: seq<Event>)
    requires Inv(c)
    ensures t.given <= TapeRun(t, c, es).given
    decreases |es|
  {
    hide Next, Inv, Flushes;
    if es != [] {
      Sanity(c);
      NextInv(c, es[0]);
      TapeGrows(TapeNext(t, c, es[0]), Next(c, es[0]), es[1..]);
    }
  }

  /** No jam, over every run from creation: flushed bytes always have unsent bytes before them, write()
      never reports stuck data, every report of the timer is about bytes the watcher is waiting to
      send, and in a session the watcher waits for writability exactly while there are unsent bytes. */
  lemma NeverJams(target: Target, room: nat, handler: bool, es: seq<Event>)
    ensures Inv(Created(target, room, handler))
    ensures var c := Run(Created(target, room, handler), es);
            (c.snd.uncorked > 0 ==> Unsent(c.snd) != []) &&
            (forall j | j in c.jams :: j.JamInTick? && j.unsent > 0 && j.watch == WatchReadWrite) &&
            (InSession(c.stage) ==> (c.watch == WatchReadWrite <==> Unsent(c.snd) != []))
  {
    CreatedInv(target, room, handler);
    RunInv(Created(target, room, handler), es);
  }

  /** The timer's report is reachable, though: it means a slow peer, not a lost wake-up. */
  lemma SlowPeerIsReported(c: Conn, a: bytes, b: bytes, unix: ConnectResult)
    requires Inv(c) && c.stage.Connected? && BytesToSend(c.snd) == 0 && c.snd.out == [] && a != [] && b != []
    ensures var silent := Io([], false);
            var es := [Append(a), FlushCall(silent), Append(b), FlushCall(silent), TimerTick(true, unix, silent)];
            Run(c, es).jams == c.jams + [JamInTick(|a|, |b|, WatchReadWrite)]
  {
    var silent := Io([], false);
    hide Inv, Run, Sending.Append, Tick;
    Sanity(c);
    var c1 := Next(c, Append(a));
    BlockedFlush(c, a);
    NextInv(c, Append(a));
    var c2 := Next(c1, FlushCall(silent));
    NextInv(c1, FlushCall(silent));
    var c3 := Next(c2, Append(b));
    MarkedFlush(c2, b);
    NextInv(c2, Append(b));
    var c4 := Next(c3, FlushCall(silent));
    NextInv(c3, FlushCall(silent));
    StuckTick(c4, unix);
    Five(c, Append(a), FlushCall(silent), Append(b), FlushCall(silent), TimerTick(true, unix, silent));
  }

  lemma BlockedFlush(c: Conn, a: bytes)
    requires Inv(c) && c.stage.Connected? && BytesToSend(c.snd) == 0 && c.snd.out == [] && a != []
    ensures var d := Flush(c.(snd := Sending.Append(c.snd, a)), Io([], false));
            d.stage.Connected? && d.snd.send == a && d.snd.next == 0 && d.snd.out == [] && d.snd.uncorked == 0 &&
            d.watch == WatchReadWrite && d.jams == c.jams && d.ticks == -1
  {
    hide Shaken, NoJam, SendLoop;
    assert [] + a == a;
    NothingLeaves(SwapAll(Sending.Append(c.snd, a)));
  }

  lemma NothingLeaves(s: Sender)
    requires s.next < |s.send| && s.uncorked <= |s.out|
    ensures SendLoop(s, []) == SendOutcome(s, Blocked)
  {
  }

  lemma MarkedFlush(c: Conn, b: bytes)
    requires Sane(c) && c.snd.next < |c.snd.send| && c.snd.out == [] && b != []
    ensures Flush(c.(snd := Sending.Append(c.snd, b)), Io([], false)).(snd := c.snd) == c
    ensures var s := Flush(c.(snd := Sending.Append(c.snd, b)), Io([], false)).snd;
            s.send == c.snd.send && s.next == c.snd.next && s.out == b && s.uncorked == |b|
  {
    assert [] + b == b;
  }

  lemma StuckTick(c: Conn, unix: ConnectResult)
    requires Sane(c) && c.stage.Connected? && c.ticks == -1 && c.snd.uncorked > 0
    ensures Tick(c, true, unix, Io([], false)).jams ==
            c.jams + [JamInTick(|c.snd.send| - c.snd.next, c.snd.uncorked, c.watch)]
  {
  }

  lemma Five(c: Conn, e1: Event, e2: Event, e3: Event, e4: Event, e5: Event)
    requires Inv(c)
    ensures (Sanity(c); NextInv(c, e1); var c1 := Next(c, e1);
             NextInv(c1, e2); var c2 := Next(c1, e2);
             NextInv(c2, e3); var c3 := Next(c2, e3);
             NextInv(c3, e4); var c4 := Next(c3, e4);
             NextInv(c4, e5); Run(c, [e1, e2, e3, e4, e5]) == Next(c4, e5))
  {
    hide Next, Inv;
    Sanity(c);
    NextInv(c, e1);
    var c1 := Next(c, e1);
    NextInv(c1, e2);
    var c2 := Next(c1, e2);
    NextInv(c2, e3);
    var c3 := Next(c2, e3);
    NextInv(c3, e4);
    var c4 := Next(c3, e4);
    NextInv(c4, e5);
    var s1, s2, s3, s4, s5 := [e1, e2, e3, e4, e5], [e2, e3, e4, e5], [e3, e4, e5], [e4, e5], [e5];
    assert s1[1..] == s2 && s2[1..] == s3 && s3[1..] == s4 && s4[1..] == s5 && s5[1..] == [];
    RunOne(c, s1);
    RunOne(c1, s2);
    RunOne(c2, s3);
    RunOne(c3, s4);
    RunOne(c4, s5);
    assert Run(Next(c4, e5), []) == Next(c4, e5);
  }

  lemma RunOne(c: Conn, es: seq<Event>)
    requires Inv(c) && es != []
    ensures Sane(c) && Inv(Next(c, es[0])) && Run(c, es) == Run(Next(c, es[0]), es[1..])
  {
    hide Next;
    NextInv(c, es[0]);
  }

  lemma RunNone(c: Conn)
    requires Inv(c)
    ensures Run(c, []) == c
  {
  }

  // --- handshake ------------------------------------------------------------------------------

  /** Over every run from creation, of the connection string in force: an established connection of a user
      who is neither unnamed nor "guest" has had an authentication reply with code 0 in this session, and
      every other one has consumed a single reply. The first reply, to the features request, had code 0 or
      was the error of a server that does not know the request. */
  lemma ConnectedMeansAuthenticated(target: Target, room: nat, handler: bool, es: seq<Event>)
    ensures Inv(Created(target, room, handler))
    ensures var c := Run(Created(target, room, handler), es);
            c.stage.Connected? ==>
              c.replies != [] && c.replies[0].stage.FeaturesRequest? &&
              (c.replies[0].code == 0 || c.replies[0].code % 0x8000 == 0x30) &&
              if c.target.user != [] && c.target.user != [103, 117, 101, 115, 116]
              then |c.replies| == 2 && c.replies[1] == Reply(Authentication, 0)
              else |c.replies| == 1
  {
    CreatedInv(target, room, handler);
    RunInv(Created(target, room, handler), es);
  }

  /** How a connection that is not established yet can go on: closed with a reconnect scheduled, one stage
      further and still timed, or established with an empty receive buffer. */
  ghost predicate Moves(c: Conn, d: Conn) {
    d.timeout == c.timeout && d.attempt == c.attempt && d.resolver == c.resolver && d.rcv.handler == c.rcv.handler &&
    match d.stage
    case Disconnected => d.ticks == 0 && d.snd.next == |d.snd.send| && !d.socket
    case FeaturesRequest => d.ticks == c.ticks
    case Authentication => d.ticks == c.ticks
    case Connected => d.ticks == -1 && d.rcv.recv == [] && d.rcv.head == 0 && d.rcv.detected == 0
    case _ => false
  }

  lemma DrainMoves(c: Conn, script: seq<SendResult>)
    requires c.snd.next <= |c.snd.send| && c.snd.uncorked <= |c.snd.out| && c.socket
    requires c.stage.FeaturesRequest? || c.stage.Authentication?
    ensures Moves(c, Drain(c, script))
  {
    hide SendLoop;
  }

  lemma ProceedMoves(c: Conn, io: Io, scramble: bytes)
    requires Sane(c) && c.socket && c.stage.FeaturesRequest?
    ensures Moves(c, Proceed(c, io, scramble))
  {
    hide Drain;
    var r := AuthRequest(c.nextId, c.parts.user, c.serverProto.auth, scramble);
    hide AuthRequest;
    if NeedsAuth(c.parts) && r.Some? {
      DrainMoves(c.(rcv := Cleared(c.rcv), stage := Authentication, nextId := (c.nextId + 1) % U64,
                    snd := Place(c.snd, r.value)), io.script);
    }
  }

  lemma HandshakeMoves(c: Conn, io: Io, scramble: bytes)
    requires Sane(c) && c.socket && (c.stage.FeaturesRequest? || c.stage.Authentication?)
    ensures Moves(c, Handshake(c, io, scramble))
  {
    hide ReplyOf, ProtoOf, Proceed;
    var r := ReplyOf(c.rcv.recv);
    if r.Some? && c.stage.FeaturesRequest? {
      var d := c.(replies := c.replies + [Reply(c.stage, r.value.0)]);
      ProceedMoves(d, io, scramble);
      var p := ProtoOf(r.value.1, c.serverProto);
      if p.Some? { ProceedMoves(d.(serverProto := p.value), io, scramble); }
    }
  }

  lemma GreetMoves(c: Conn, io: Io)
    requires Sane(c) && c.socket
    ensures Moves(c, Greet(c, io))
  {
    hide Drain, IdRequest;
    DrainMoves(c.(greeting := c.rcv.recv, rcv := Cleared(c.rcv), stage := FeaturesRequest,
                  nextId := (c.nextId + 1) % U64, snd := Place(c.snd, IdRequest(c.nextId, c.required)), replies := []),
               io.script);
  }

  lemma ReadMoves(c: Conn, recvs: seq<Recv>, io: Io, reaction: Reaction, scramble: bytes)
    requires Inv(c) && c.socket && !c.stage.Connected?
    ensures var d := Read(c, recvs, io, reaction, scramble);
            Moves(c, d) || (d.stage == c.stage && d == c.(rcv := d.rcv))
  {
    hide ReceiveAll, Scan, Handshake, Greet;
    var d := c.(rcv := c.rcv.(recv := c.rcv.recv + ReceiveAll(recvs).bs));
    GreetMoves(d, io);
    ScanBounds(d.rcv);
    if InSession(c.stage) { HandshakeMoves(d.(rcv := Scan(d.rcv)), io, scramble); }
  }

  /** Over every run from creation: there is a socket exactly from connecting on; resolving means that
      this attempt's resolver, and no other, is outstanding; an established connection is not timed;
      in a session no complete message is ever left unfound; and while the caller of an established
      connection is idle, no complete message is in the receive buffer at all. */
  lemma StageOwnsResources(target: Target, room: nat, handler: bool, es: seq<Event>)
    ensures Inv(Created(target, room, handler))
    ensures var c := Run(Created(target, room, handler), es);
            (c.socket <==> c.stage.Connecting? || InSession(c.stage)) &&
            (c.stage.AddressResolving? ==> c.resolver == Some(c.attempt)) &&
            (c.resolver.Some? ==> !c.socket) &&
            (c.stage.Connected? ==> c.ticks == -1) &&
            c.rcv.head <= |c.rcv.recv| &&
            (InSession(c.stage) ==> !TakeMessage(c.rcv.recv[c.rcv.head..]).Message?) &&
            (c.stage.Connected? && c.rcv.idle ==> !TakeMessage(c.rcv.recv).Message?)
  {
    hide Run, Searched, TakeMessage;
    CreatedInv(target, room, handler);
    RunInv(Created(target, room, handler), es);
    var c := Run(Created(target, room, handler), es);
    if InSession(c.stage) {
      SearchedHoldsNone(c.rcv);
      assert c.rcv.recv[0..] == c.rcv.recv;
    }
  }

  lemma NothingToRead(c: Conn, recvs: seq<Recv>, io: Io, reaction: Reaction, scramble: bytes)
    requires Sane(c) && !c.socket
    ensures Read(c, recvs, io, reaction, scramble) == c
  {
    hide SendLoop, Handshake;
  }

  /** The step that establishes a connection leaves the receiver as a session starts with it. */
  lemma ConnectedIsFresh(c: Conn, e: Event)
    requires Inv(c) && c.rcv.handler && !c.stage.Connected? && Next(c, e).stage.Connected?
    ensures Fresh(Next(c, e).rcv)
  {
    hide SendLoop, TryAddresses, Read;
    match e
    case AddressesFound(addrs) => TryNeverConnects(c.(resolver := None), addrs);
    case ReadReady(recvs, io, reaction, scramble) =>
      if c.socket {
        ReadMoves(c, recvs, io, reaction, scramble);
      } else {
        NothingToRead(c, recvs, io, reaction, scramble);
      }
    case _ =>
  }

  lemma {:induction false} TryNeverConnects(c: Conn, addrs: seq<ConnectResult>)
    ensures !TryAddresses(c, addrs).stage.Connected?
    decreases |addrs|
  {
    if addrs != [] && addrs[0].NoSocket? { TryNeverConnects(c, addrs[1..]); }
  }

  function Rank(s: Stage): nat {
    match s
    case FeaturesRequest => 1
    case Authentication => 2
    case Connected => 3
    case _ => 0
  }

  lemma RejectCloses(c: Conn)
    requires c.socket
    ensures Reject(c).stage.Disconnected? && Reject(c).ticks == 0 && !Reject(c).socket && Reject(c).rcv.recv == []
  {
  }

  lemma ProceedAdvances(c: Conn, io: Io, scramble: bytes)
    requires c.nextId < U64 && c.snd.uncorked <= |c.snd.out| && c.socket
    ensures var d := Proceed(c, io, scramble);
            (d.stage.Authentication? || d.stage.Connected? || (d.stage.Disconnected? && d.ticks == 0 && !d.socket)) &&
            d.rcv.recv == []
  {
    hide AuthRequest, SendLoop, Reject;
    RejectCloses(c);
  }

  /** Every whole reply moves the handshake strictly on, or closes the connection. */
  lemma ReplyAdvances(c: Conn, io: Io, scramble: bytes)
    requires Sane(c) && c.socket && (c.stage.FeaturesRequest? || c.stage.Authentication?)
    ensures var d := Handshake(c, io, scramble);
            (Rank(d.stage) > Rank(c.stage) || d.stage.Disconnected?) &&
            (d.stage.Disconnected? ==> d.ticks == 0 && !d.socket) &&
            d.rcv.recv == []
  {
    hide ReplyOf, ProtoOf, Proceed, Reject;
    RejectCloses(c);
    var r := ReplyOf(c.rcv.recv);
    if r.Some? {
      var d := c.(replies := c.replies + [Reply(c.stage, r.value.0)]);
      RejectCloses(d);
      ProceedAdvances(d, io, scramble);
      var p := ProtoOf(r.value.1, c.serverProto);
      if p.Some? { ProceedAdvances(d.(serverProto := p.value), io, scramble); }
    }
  }
}
