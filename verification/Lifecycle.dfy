/** What every reachable connection satisfies, whatever the network, the resolver, the timer and the
    caller do. */
module Lifecycle {
  import opened Bytes
  import opened Options
  import opened Iproto
  import opened Sending
  import opened Receiving
  import opened Connections

  predicate InSession(s: Stage) {
    s.FeaturesRequest? || s.Authentication? || s.Connected?
  }

  /** The socket, the resolver thread, the reconnect counter and the connection string belong to the stage. */
  ghost predicate Staged(c: Conn) {
    (c.socket <==> c.stage.Connecting? || InSession(c.stage)) &&
    (c.stage.AddressResolving? ==> c.resolver == Some(c.attempt) && c.ticks == -1) &&
    (c.resolver.Some? ==> c.stage.Disconnected? || c.stage.AddressResolving?) &&
    (c.stage.Connected? ==> c.ticks == -1) &&
    (!c.stage.Disconnected? ==> c.parts == c.target && c.timeout == GENERAL_TIMEOUT) &&
    c.timeout >= 1 && c.ticks >= -1 &&
    (c.stage.Connecting? || InSession(c.stage) ==> c.ticks < c.timeout)
  }

  /** The watcher waits for the socket to become writable exactly while there are bytes to send. */
  ghost predicate Watched(c: Conn) {
    InSession(c.stage) ==> c.watch == if c.snd.next < |c.snd.send| then WatchReadWrite else WatchRead
  }

  /** Whether a features reply lets the handshake go on. */
  predicate Tolerated(code: nat) {
    code == 0 || code % 0x8000 == ER_UNKNOWN_REQUEST_TYPE
  }

  /** The replies seen in this session are exactly those the stage needs. */
  ghost predicate Shaken(c: Conn) {
    match c.stage
    case FeaturesRequest => c.replies == []
    case Authentication => NeedsAuth(c.parts) && FeaturesAnswered(c.replies) && |c.replies| == 1
    case Connected =>
      FeaturesAnswered(c.replies) &&
      if NeedsAuth(c.parts) then |c.replies| == 2 && c.replies[1] == Reply(Authentication, 0) else |c.replies| == 1
    case _ => true
  }

  ghost predicate FeaturesAnswered(rs: seq<Reply>) {
    |rs| > 0 && rs[0].stage.FeaturesRequest? && Tolerated(rs[0].code)
  }

  /** write() never reports stuck data; the timer does so only about a socket that is being watched. */
  ghost predicate NoJam(c: Conn) {
    forall j | j in c.jams :: j.JamInTick? && j.unsent > 0 && j.watch == WatchReadWrite
  }

  /** An idle caller and the handshake have nothing found whole waiting, and in a session nothing is left to find;
      without a session nothing partial is kept, and the size of a response is known only inside one. */
  ghost predicate Quiet(c: Conn) {
    (c.rcv.idle || c.stage.FeaturesRequest? || c.stage.Authentication? ==> c.rcv.head == 0) &&
    (InSession(c.stage) ==> Searched(c.rcv)) &&
    (InSession(c.stage) || c.rcv.detected == 0) &&
    (InSession(c.stage) || c.stage.Connecting? || |c.rcv.recv| == c.rcv.head)
  }

  /** What the server has said is kept as long as its session lasts: the greeting, and its features once it
      has sent them. */
  ghost predicate Heard(c: Conn) {
    (if InSession(c.stage) then |c.greeting| >= GREETING_SIZE else c.greeting == []) &&
    (!InSession(c.stage) || c.stage.FeaturesRequest? ==> c.serverProto == NO_PROTO)
  }

  ghost predicate Inv(c: Conn) {
    Sane(c) && Staged(c) && Watched(c) && Shaken(c) && NoJam(c) && Quiet(c) && Heard(c)
  }

  /** The part of the invariant that closing establishes or keeps. */
  lemma CloseInv(c: Conn, delay: int)
    requires SenderOk(c.snd) && c.rcv.head <= |c.rcv.recv| && NoJam(c) && c.timeout >= 1
    requires !c.socket ==> c.resolver.None? || c.stage.Disconnected? || c.stage.AddressResolving?
    requires c.socket ==> c.resolver.None?
    requires (c.rcv.idle ==> c.rcv.head == 0) && (!c.socket ==> c.rcv.detected == 0 && |c.rcv.recv| == c.rcv.head)
    ensures Inv(Close(c, delay)) && Inv(Fail(c))
    ensures Close(c, delay).stage.Disconnected? && Fail(c).stage.Disconnected?
  {
  }

  lemma DrainInv(c: Conn, script: seq<SendResult>)
    requires Sane(c) && NoJam(c) && Staged(c) && Shaken(c) && Quiet(c) && Heard(c) && !c.stage.Connecting?
    ensures Inv(Drain(c, script))
  {
    var ss := if c.socket then script else [Refused];
    SendLoopNeverJams(c.snd, ss);
    var e := SendLoop(c.snd, ss);
    hide SendLoop;
    if e.stop.Failed? { CloseInv(c.(snd := e.s), 0); }
  }

  lemma WriteInv(c: Conn, io: Io)
    requires Sane(c) && NoJam(c) && Staged(c) && Shaken(c) && Quiet(c) && Heard(c)
    ensures Inv(Write(c, io))
  {
    hide SendLoop;
    if c.stage.Connecting? {
      CloseInv(c, 0);
    } else {
      DrainInv(c, io.script);
    }
  }

  lemma FlushInv(c: Conn, io: Io)
    requires Inv(c)
    ensures Inv(Flush(c, io))
  {
    hide Write, SendLoop;
    if c.snd.out != [] && c.snd.next == |c.snd.send| { WriteInv(c.(snd := SwapAll(c.snd)), io); }
  }

  lemma RejectInv(c: Conn)
    requires SenderOk(c.snd) && NoJam(c) && c.timeout >= 1 && c.socket && c.resolver.None?
    ensures Inv(Reject(c)) && Reject(c).stage.Disconnected?
  {
    CloseInv(c.(rcv := Cleared(c.rcv)), 0);
  }

  lemma ProceedInv(c: Conn, io: Io, scramble: bytes)
    requires Sane(c) && NoJam(c) && Staged(c) && c.stage.FeaturesRequest?
    requires FeaturesAnswered(c.replies) && |c.replies| == 1
    requires Watched(c) && |c.greeting| >= GREETING_SIZE
    ensures Inv(Proceed(c, io, scramble))
  {
    hide Drain;
    if NeedsAuth(c.parts) {
      var request := AuthRequest(c.nextId, c.parts.user, c.serverProto.auth, scramble);
      RequestsAreNotEmpty(c.nextId, c.parts.user, c.serverProto.auth, scramble);
      hide AuthRequest;
      RejectInv(c);
      if request.Some? {
        DrainInv(c.(rcv := Cleared(c.rcv), stage := Authentication, nextId := (c.nextId + 1) % U64,
                    snd := Place(c.snd, request.value)), io.script);
      }
    }
  }

  lemma RequestsAreNotEmpty(sync: nat, user: bytes, scheme: bytes, scramble: bytes)
    requires sync < U64
    ensures var r := AuthRequest(sync, user, scheme, scramble); r.Some? ==> r.value != []
  {
    hide RequestHead, AuthBody;
  }

  lemma HandshakeInv(c: Conn, io: Io, scramble: bytes)
    requires Sane(c) && Staged(c) && Watched(c) && Shaken(c) && NoJam(c) && Heard(c)
    requires c.stage.FeaturesRequest? || c.stage.Authentication?
    ensures Inv(Handshake(c, io, scramble))
  {
    hide ReplyOf, ProtoOf, Proceed, Reject;
    var r := ReplyOf(c.rcv.recv);
    RejectInv(c);
    if r.Some? {
      var d := c.(replies := c.replies + [Reply(c.stage, r.value.0)]);
      RejectInv(d);
      if c.stage.FeaturesRequest? {
        if r.value.0 == 0 {
          var p := ProtoOf(r.value.1, c.serverProto);
          if p.Some? { ProceedInv(d.(serverProto := p.value), io, scramble); }
        } else if r.value.0 % 0x8000 == ER_UNKNOWN_REQUEST_TYPE {
          ProceedInv(d, io, scramble);
        }
      }
    }
  }

  lemma GreetInv(c: Conn, io: Io)
    requires Inv(c) && c.stage.Connecting? && |c.rcv.recv| >= GREETING_SIZE
    ensures Inv(Greet(c, io))
  {
    hide Drain;
    var request := IdRequest(c.nextId, c.required);
    assert request != [];
    hide IdRequest;
    DrainInv(c.(greeting := c.rcv.recv, rcv := Cleared(c.rcv), stage := FeaturesRequest, nextId := (c.nextId + 1) % U64,
                snd := Place(c.snd, request), replies := []), io.script);
  }

  lemma ReadInv(c: Conn, recvs: seq<Recv>, io: Io, reaction: Reaction, scramble: bytes)
    requires Inv(c)
    ensures Inv(Read(c, recvs, io, reaction, scramble))
  {
    hide ReceiveAll, Scan, Handshake, Greet, HeadSize;
    if c.socket {
      var a := ReceiveAll(recvs);
      var d := c.(rcv := c.rcv.(recv := c.rcv.recv + a.bs));
      if a.Ended? {
        CloseInv(d, 0);
      } else if c.stage.Connecting? {
        if |d.rcv.recv| >= GREETING_SIZE { GreetInv(d, io); }
      } else {
        var s := Scan(d.rcv);
        ScanBounds(d.rcv);
        ArrivalRemembers(c.rcv, a.bs);
        ScanSearches(d.rcv);
        PassSearched(s, reaction);
        if s.head != 0 && (c.stage.FeaturesRequest? || c.stage.Authentication?) {
          HandshakeInv(d.(rcv := s), io, scramble);
        }
      }
    }
  }

  lemma {:induction false} TryAddressesInv(c: Conn, addrs: seq<ConnectResult>)
    requires Sane(c) && NoJam(c) && !c.socket && c.resolver.None? && c.timeout >= 1 && c.ticks == -1
    requires c.parts == c.target && c.timeout == GENERAL_TIMEOUT && c.greeting == [] && c.serverProto == NO_PROTO
    requires (c.rcv.idle ==> c.rcv.head == 0) && c.rcv.detected == 0 && |c.rcv.recv| == c.rcv.head
    ensures Inv(TryAddresses(c, addrs))
    decreases |addrs|
  {
    if addrs != [] {
      match addrs[0]
      case NoSocket => TryAddressesInv(c, addrs[1..]);
      case ConnectFails => CloseInv(c, 0);
      case _ =>
    }
  }

  lemma OpenInv(c: Conn, delay: int, unix: ConnectResult)
    requires Inv(c)
    ensures Inv(Open(c, delay, unix))
  {
    if c.stage.Disconnected? && delay <= 0 && c.resolver.None? && unix.ConnectFails? {
      CloseInv(c.(timeout := GENERAL_TIMEOUT, ticks := -1, parts := c.target, attempt := c.attempt + 1), 0);
    }
  }

  lemma TickInv(c: Conn, stuck: bool, unix: ConnectResult, io: Io)
    requires Inv(c)
    ensures Inv(Tick(c, stuck, unix, io))
  {
    hide Flush, Open;
    if c.ticks >= 0 && c.ticks + 1 >= c.timeout {
      var d := c.(ticks := c.ticks + 1);
      if c.stage.Disconnected? { OpenInv(d, 0, unix); } else { CloseInv(d, 0); }
    } else {
      var d := if c.ticks >= 0 then c.(ticks := c.ticks + 1) else c;
      if c.stage.Connected? && c.snd.uncorked > 0 && stuck {
        FlushInv(d.(jams := d.jams + [JamInTick(|c.snd.send| - c.snd.next, c.snd.uncorked, c.watch)]), io);
      }
    }
  }

  lemma InputDoneInv(c: Conn, reaction: Reaction)
    requires Inv(c)
    ensures Inv(InputDone(c, reaction))
  {
    hide HeadSize;
    if InSession(c.stage) { PassSearched(c.rcv.(idle := true), reaction); }
  }

  /** Every step keeps every invariant. */
  lemma NextInv(c: Conn, e: Event)
    requires Inv(c)
    ensures Inv(Next(c, e)) && Sane(Next(c, e))
  {
    match e
    case Append(bs) => hide Stream;
    case FlushCall(io) => FlushInv(c, io);
    case WriteReady(io) => WriteInv(c, io);
    case ReadReady(recvs, io, reaction, scramble) => ReadInv(c, recvs, io, reaction, scramble);
    case InputProcessed(reaction) => hide Searched; InputDoneInv(c, reaction);
    case OpenCall(delay, unix) => OpenInv(c, delay, unix);
    case CloseCall(delay) => CloseInv(c, delay);
    case AddressesFound(addrs) =>
      if c.resolver.Some? && c.stage.AddressResolving? { TryAddressesInv(c.(resolver := None), addrs); }
    case AddressesFailed =>
    case TimerTick(stuck, unix, io) => TickInv(c, stuck, unix, io);
    case Retarget(t) =>
    case Require(p) =>
    case TakeRequestId =>
  }

  lemma Sanity(c: Conn)
    requires Inv(c)
    ensures Sane(c)
  {
  }

  function Run(c: Conn, es: seq<Event>): (d: Conn)
    requires Inv(c)
    decreases |es|
  {
    if es == [] then c
    else
      NextInv(c, es[0]);
      Run(Next(c, es[0]), es[1..])
  }

  lemma {:induction false} RunInv(c: Conn, es: seq<Event>)
    requires Inv(c)
    ensures Inv(Run(c, es))
    decreases |es|
  {
    if es != [] {
      hide Next, Inv;
      Sanity(c);
      NextInv(c, es[0]);
      RunInv(Next(c, es[0]), es[1..]);
    }
  }
}
