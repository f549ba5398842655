/** How a connection is opened, event by event: the attempt, the addresses, the outcome of connect(), delays. */
module Dialing {
  import opened Bytes
  import opened Options
  import opened Iproto
  import opened Sending
  import opened Receiving
  import opened Connections
  import opened Lifecycle
  import opened Sessions
  import opened Timing

  // --- the attempt ----------------------------------------------------------------------------

  /** What the caller has set, and what closing has left of the last session. */
  predicate SameSettings(c: Conn, d: Conn) {
    d.target == c.target && d.required == c.required && d.greeting == c.greeting && d.serverProto == c.serverProto &&
    d.nextId == c.nextId && d.replies == c.replies && d.jams == c.jams
  }

  /** Connecting on a fresh socket that connect() has left in progress: timed from now, and watched until it
      becomes writable. */
  ghost predicate DialedInProgress(c: Conn, d: Conn) {
    d.stage.Connecting? && d.socket && d.watch == WatchWrite && d.ticks == 0 && d.snd == c.snd.(wire := []) &&
    d.rcv == c.rcv && d.timeout == 10 && SameSettings(c, d)
  }

  /** Connecting on a fresh socket that is established already: the greeting is waited for, untimed. */
  ghost predicate DialedAtOnce(c: Conn, d: Conn) {
    d.stage.Connecting? && d.socket && d.watch == WatchRead && d.ticks == -1 && d.snd == c.snd.(wire := []) &&
    d.rcv == c.rcv && d.timeout == 10 && SameSettings(c, d)
  }

  /** open() starts an attempt exactly on a closed connection without delay and with no resolver running. It
      reads the connection string now in force. A host name is resolved; a unix path is dialled on the spot,
      and a failed connect() counts a reconnect; a failed socket() and a string without an address do
      nothing more. */
  lemma OpenStartsAttempt(c: Conn, delay: int, unix: ConnectResult)
    requires Inv(c)
    ensures var d := Next(c, OpenCall(delay, unix));
            if !c.stage.Disconnected? || delay > 0 || c.resolver.Some? then d.attempt == c.attempt
            else
              d.attempt == c.attempt + 1 && d.parts == c.target && d.timeout == 10 &&
              if c.target.host != [] then d.stage.AddressResolving? && d.resolver == Some(d.attempt) && d.ticks == -1
              else if c.target.unixPath == [] || unix.NoSocket? then
                d.stage.Disconnected? && d.ticks == -1 && d.resolver.None? && !d.socket
              else
                match unix
                case InProgress => DialedInProgress(c, d)
                case Established => DialedAtOnce(c, d)
                case _ => d.stage.Disconnected? && d.ticks == 0 && !d.socket
  {
  }

  /** On a connection that is not closed, or waits for its resolver, open() does nothing. */
  lemma OpenWhileBusy(c: Conn, delay: int, unix: ConnectResult)
    requires Inv(c) && (!c.stage.Disconnected? || (delay <= 0 && c.resolver.Some?))
    ensures Next(c, OpenCall(delay, unix)) == c
  {
  }

  /** An attempt is made with the connection string and the proto_id set last; while one is under way, another
      connection string is refused. */
  lemma LastSettingsCount(c: Conn, t: Target, p: Required, unix: ConnectResult, later: Target)
    requires Inv(c) && c.stage.Disconnected? && c.resolver.None? && t.host != []
    ensures var d := Run(c, [Retarget(t), Require(p), OpenCall(0, unix), Retarget(later)]);
            d.stage.AddressResolving? && d.parts == d.target == t && d.required == p
  {
    hide Inv, Next, Run;
    var last := [Retarget(later)];
    var open := [OpenCall(0, unix)] + last;
    var require := [Require(p)] + open;
    var es := [Retarget(t), Require(p), OpenCall(0, unix), Retarget(later)];
    assert es[1..] == require && require[1..] == open && open[1..] == last && last[1..] == [];
    var c1 := c.(target := t);
    var c2 := c1.(required := p);
    SettingsStep(c, t, p, unix);
    RunOne(c, es);
    SettingsStep(c1, t, p, unix);
    RunOne(c1, require);
    SettingsStep(c2, t, p, unix);
    RunOne(c2, open);
    var c3 := Next(c2, OpenCall(0, unix));
    OpenStartsAttempt(c2, 0, unix);
    SettingsStep(c3, later, p, unix);
    RunOne(c3, last);
    RunNone(c3);
  }

  lemma SettingsStep(c: Conn, t: Target, p: Required, unix: ConnectResult)
    requires Inv(c)
    ensures Inv(Next(c, Retarget(t))) && Inv(Next(c, Require(p))) && Inv(Next(c, OpenCall(0, unix)))
    ensures Next(c, Retarget(t)) == if c.stage.Disconnected? then c.(target := t) else c
    ensures Next(c, Require(p)) == c.(required := p)
    ensures Next(c, OpenCall(0, unix)).required == c.required && Next(c, OpenCall(0, unix)).target == c.target
  {
    NextInv(c, Retarget(t));
    NextInv(c, Require(p));
    NextInv(c, OpenCall(0, unix));
    hide Inv;
  }

  ghost predicate AllNoSocket(addrs: seq<ConnectResult>) {
    forall a | a in addrs :: a.NoSocket?
  }

  lemma {:induction false} SkipNoSocket(c: Conn, none: seq<ConnectResult>, rest: seq<ConnectResult>)
    requires AllNoSocket(none)
    ensures TryAddresses(c, none + rest) == TryAddresses(c, rest)
    decreases |none|
  {
    if none == [] {
      assert none + rest == rest;
    } else {
      assert none[0] in none && forall a | a in none[1..] :: a in none;
      assert (none + rest)[1..] == none[1..] + rest;
      SkipNoSocket(c, none[1..], rest);
    }
  }

  /** The addresses come in while the name is being resolved: the first one that gives a socket decides. In
      progress it is timed and watched for writing; established at once it is watched for reading; a connect()
      that fails, like a list without any socket, closes the connection and counts a reconnect. */
  lemma AddressesDial(c: Conn, none: seq<ConnectResult>, rest: seq<ConnectResult>)
    requires Inv(c) && c.stage.AddressResolving?
    requires AllNoSocket(none) && (rest != [] ==> !rest[0].NoSocket?)
    ensures var d := Next(c, AddressesFound(none + rest));
            d.resolver.None? && d.attempt == c.attempt &&
            if rest == [] || rest[0].ConnectFails? then d.stage.Disconnected? && d.ticks == 0 && !d.socket
            else if rest[0].InProgress? then DialedInProgress(c, d) && Pending(d)
            else DialedAtOnce(c, d)
  {
    SkipNoSocket(c.(resolver := None), none, rest);
    assert none + [] == none;
    if rest != [] { hide Fail; }
  }

  /** The name cannot be resolved: closed, with a reconnect counted from now. */
  lemma NameFails(c: Conn)
    requires Inv(c) && c.stage.AddressResolving?
    ensures Next(c, AddressesFailed) == c.(resolver := None, stage := Disconnected, ticks := 0)
  {
  }

  // --- the outcome of connect() ---------------------------------------------------------------

  /** A connecting socket has become writable: without an error the greeting is waited for, and with one the
      connection is closed and a reconnect counted. */
  lemma ConnectOutcome(c: Conn, io: Io)
    requires Inv(c) && c.stage.Connecting?
    ensures var d := Next(c, WriteReady(io));
            if io.soError then Waiting(d) && d.ticks == 0 && !d.socket && d.attempt == c.attempt
            else d == c.(watch := WatchRead)
  {
  }

  // --- delays ---------------------------------------------------------------------------------

  /** open() and close() with a delay count from zero to it. */
  lemma DelayStarts(c: Conn, delay: int, unix: ConnectResult)
    requires Inv(c) && delay > 0
    ensures var d := Next(c, CloseCall(delay));
            d.stage.Disconnected? && d.ticks == 0 && d.timeout == delay && (c.socket ==> Waiting(d))
    ensures c.stage.Disconnected? ==> Next(c, OpenCall(delay, unix)) == c.(ticks := 0, timeout := delay)
  {
  }

  /** Without a socket close() leaves alone what was appended and received, and a resolver goes on. */
  lemma CloseWithoutSocket(c: Conn, delay: int)
    requires Inv(c) && !c.socket
    ensures var d := Next(c, CloseCall(delay));
            d.snd == c.snd && d.rcv == c.rcv && d.resolver == c.resolver && d.attempt == c.attempt &&
            d.stage.Disconnected? && !d.socket && d.nextId == 0 && d.target == c.target
  {
  }

  /** close() without a delay calls off any reconnect. */
  lemma CloseCallsOff(c: Conn, delay: int)
    requires Inv(c) && delay <= 0
    ensures var d := Next(c, CloseCall(delay)); d.stage.Disconnected? && d.ticks == -1
  {
  }

  /** A wait is exactly as long as its limit: with fewer ticks the connection is still waiting. */
  lemma {:induction false} WaitLasts(c: Conn, es: seq<Event>)
    requires Inv(c) && Waiting(c) && c.ticks + Ticks(es) < c.timeout && forall e | e in es :: Passive(e)
    ensures var d := Run(c, es); Waiting(d) && d.attempt == c.attempt && d.ticks == c.ticks + Ticks(es)
    decreases |es|
  {
    hide Run, Next, Inv, Waiting, Passive;
    if es == [] {
      RunNone(c);
    } else {
      assert es[0] in es && forall e | e in es[1..] :: e in es;
      RunOne(c, es);
      WaitingStep(c, es[0]);
      WaitLasts(Next(c, es[0]), es[1..]);
    }
  }

  /** A counter that stands still starts nothing. */
  lemma NothingCounted(c: Conn, e: Event)
    requires Inv(c) && c.stage.Disconnected? && c.ticks == -1 && e.TimerTick?
    ensures Next(c, e) == c
  {
  }

  /** close(delay) of an open connection: the next attempt is made by the tick number `delay`, and not by an
      earlier one, unless the caller opens, closes or flushes. */
  lemma ClosedReopens(c: Conn, delay: int, es: seq<Event>) returns (n: nat)
    requires Inv(c) && c.socket && delay > 0 && forall e | e in es :: Passive(e)
    ensures Inv(Next(c, CloseCall(delay)))
    ensures Ticks(es) < delay ==> Run(Next(c, CloseCall(delay)), es).attempt == c.attempt
    ensures Ticks(es) >= delay ==> n <= |es| && Run(Next(c, CloseCall(delay)), es[..n]).attempt == c.attempt + 1
  {
    hide Run, Passive;
    NextInv(c, CloseCall(delay));
    DelayStarts(c, delay, NoSocket);
    var d := Next(c, CloseCall(delay));
    n := 0;
    if Ticks(es) < delay { WaitLasts(d, es); } else { n := RetryFollows(d, es); }
  }

  // --- the end of a session -------------------------------------------------------------------

  /** Nothing is left of the server's greeting and features, of the request numbers, of what was to be sent and
      of partial responses, and no socket is watched. The caller keeps its buffer and, if it is busy, the
      responses found whole. */
  ghost predicate GivenUp(c: Conn, d: Conn) {
    d.stage.Disconnected? && !d.socket && d.watch == WatchNone &&
    d.greeting == [] && d.serverProto == ProtoId(0, [], {}) && d.nextId == 0 && d.snd.wire == d.snd.out == [] &&
    d.snd.send == [] && d.snd.next == d.snd.uncorked == 0 &&
    d.rcv.detected == 0 && |d.rcv.recv| == d.rcv.head && (c.rcv.idle ==> d.rcv.recv == []) &&
    d.rcv.input == c.rcv.input && d.rcv.idle == c.rcv.idle && d.rcv.delivered == c.rcv.delivered &&
    d.attempt == c.attempt && d.target == c.target && d.required == c.required
  }

  lemma CloseGivesUp(c: Conn, delay: int)
    requires c.socket && c.rcv.head <= |c.rcv.recv| && (c.rcv.idle ==> c.rcv.head == 0)
    ensures GivenUp(c, Close(c, delay)) && GivenUp(c, Fail(c))
  {
  }

  lemma WriteGivesUp(c: Conn, io: Io)
    requires c.socket && c.rcv.head <= |c.rcv.recv| && (c.rcv.idle ==> c.rcv.head == 0)
    requires c.snd.next <= |c.snd.send| && c.snd.uncorked <= |c.snd.out|
    ensures !Write(c, io).socket ==> GivenUp(c, Write(c, io))
    ensures !Drain(c, io.script).socket ==> GivenUp(c, Drain(c, io.script))
  {
    hide Close, SendLoop;
    CloseGivesUp(c, 0);
    CloseGivesUp(c.(snd := SendLoop(c.snd, io.script).s), 0);
    CloseGivesUp(c.(jams := c.jams + [JamInWrite], snd := SendLoop(c.snd, io.script).s), 0);
  }

  lemma FlushGivesUp(c: Conn, io: Io)
    requires c.socket && c.rcv.head <= |c.rcv.recv| && (c.rcv.idle ==> c.rcv.head == 0)
    requires c.snd.next <= |c.snd.send| && c.snd.uncorked <= |c.snd.out|
    ensures !Flush(c, io).socket ==> GivenUp(c, Flush(c, io))
  {
    hide Write;
    if c.snd.next == |c.snd.send| { WriteGivesUp(c.(snd := SwapAll(c.snd)), io); }
  }

  lemma RequestGivesUp(c: Conn, stage: Stage, greeting: bytes, replies: seq<Reply>, id: nat, request: bytes,
                       script: seq<SendResult>)
    requires c.socket && c.snd.uncorked <= |c.snd.out|
    ensures var d := Drain(c.(rcv := Cleared(c.rcv), stage := stage, greeting := greeting, replies := replies,
                              nextId := id, snd := Place(c.snd, request)), script);
            !d.socket ==> GivenUp(c, d)
  {
    hide Drain, GivenUp;
    var x := c.(rcv := Cleared(c.rcv), stage := stage, greeting := greeting, replies := replies,
                nextId := id, snd := Place(c.snd, request));
    WriteGivesUp(x, Io(script, false));
    SameGivenUp(x, c, Drain(x, script));
  }

  lemma SameGivenUp(x: Conn, c: Conn, d: Conn)
    requires x.rcv.input == c.rcv.input && x.rcv.idle == c.rcv.idle && x.rcv.delivered == c.rcv.delivered
    requires x.attempt == c.attempt && x.target == c.target && x.required == c.required
    ensures GivenUp(x, d) ==> GivenUp(c, d)
  {
  }

  lemma RejectGivesUp(c: Conn)
    requires c.socket
    ensures GivenUp(c, Reject(c))
  {
    hide Close, Fail, GivenUp;
    var x := c.(rcv := Cleared(c.rcv));
    CloseGivesUp(x, 0);
    SameGivenUp(x, c, Fail(x));
  }

  lemma ProceedGivesUp(c: Conn, io: Io, scramble: bytes)
    requires c.socket && c.nextId < U64 && c.snd.uncorked <= |c.snd.out|
    ensures !Proceed(c, io, scramble).socket ==> GivenUp(c, Proceed(c, io, scramble))
  {
    hide AuthRequest, Drain, Reject, GivenUp, Place, Cleared;
    RejectGivesUp(c);
    var request := AuthRequest(c.nextId, c.parts.user, c.serverProto.auth, scramble);
    if request.Some? {
      RequestGivesUp(c, Authentication, c.greeting, c.replies, (c.nextId + 1) % U64, request.value, io.script);
    }
  }

  lemma HandshakeGivesUp(c: Conn, io: Io, scramble: bytes)
    requires c.socket && c.nextId < U64 && c.snd.uncorked <= |c.snd.out|
    ensures !Handshake(c, io, scramble).socket ==> GivenUp(c, Handshake(c, io, scramble))
  {
    hide ReplyOf, ProtoOf, Proceed, Reject, GivenUp;
    RejectGivesUp(c);
    var r := ReplyOf(c.rcv.recv);
    if r.Some? {
      var d := c.(replies := c.replies + [Reply(c.stage, r.value.0)]);
      RejectGivesUp(d);
      SameGivenUp(d, c, Reject(d));
      ProceedGivesUp(d, io, scramble);
      SameGivenUp(d, c, Proceed(d, io, scramble));
      var p := ProtoOf(r.value.1, c.serverProto);
      if p.Some? {
        var f := d.(serverProto := p.value);
        ProceedGivesUp(f, io, scramble);
        SameGivenUp(f, c, Proceed(f, io, scramble));
      }
    }
  }

  lemma ReadGivesUp(c: Conn, recvs: seq<Recv>, io: Io, reaction: Reaction, scramble: bytes)
    requires Sane(c) && c.socket && (c.rcv.idle ==> c.rcv.head == 0)
    ensures var d := Read(c, recvs, io, reaction, scramble); !d.socket ==> GivenUp(c, d)
  {
    hide ReceiveAll, Scan, Handshake, Fail, Drain, Place, GivenUp, Pass, IdRequest;
    var a := ReceiveAll(recvs);
    var d := c.(rcv := c.rcv.(recv := c.rcv.recv + a.bs));
    if a.Ended? {
      CloseGivesUp(d, 0);
      SameGivenUp(d, c, Fail(d));
    } else if c.stage.Connecting? {
      RequestGivesUp(d, FeaturesRequest, d.rcv.recv, [], (c.nextId + 1) % U64, IdRequest(c.nextId, c.required),
                     io.script);
      SameGivenUp(d, c, Read(c, recvs, io, reaction, scramble));
    } else {
      var s := Scan(d.rcv);
      ScanBounds(d.rcv);
      HandshakeGivesUp(d.(rcv := s), io, scramble);
      SameGivenUp(d.(rcv := s), c, Handshake(d.(rcv := s), io, scramble));
    }
  }

  /** Whatever event gives up a socket, in whatever stage. */
  lemma SocketGivenUp(c: Conn, e: Event)
    requires Inv(c) && c.socket && !Next(c, e).socket
    ensures GivenUp(c, Next(c, e))
  {
    hide Read, Write, Flush, Close, Fail, GivenUp;
    match e
    case FlushCall(io) => FlushGivesUp(c, io);
    case WriteReady(io) => WriteGivesUp(c, io);
    case ReadReady(recvs, io, reaction, scramble) => ReadGivesUp(c, recvs, io, reaction, scramble);
    case CloseCall(delay) => CloseGivesUp(c, delay);
    case TimerTick(stuck, unix, io) => TickGivesUp(c, stuck, unix, io);
    case _ =>
  }

  lemma TickGivesUp(c: Conn, stuck: bool, unix: ConnectResult, io: Io)
    requires Inv(c) && c.socket
    ensures var d := Tick(c, stuck, unix, io); !d.socket ==> GivenUp(c, d)
  {
    hide Flush, Fail, GivenUp;
    var d := c.(ticks := c.ticks + 1);
    CloseGivesUp(d, 0);
    SameGivenUp(d, c, Fail(d));
    var f := if c.ticks >= 0 then d else c;
    var g := f.(jams := f.jams + [JamInTick(|c.snd.send| - c.snd.next, c.snd.uncorked, c.watch)]);
    FlushGivesUp(g, io);
    SameGivenUp(g, c, Flush(g, io));
  }

  /** An established session leaves the responses it had found whole, and nothing else it received. */
  lemma WholeOnesStay(c: Conn, e: Event)
    requires Inv(c) && c.stage.Connected? && !Next(c, e).socket
    ensures Next(c, e).rcv.recv == c.rcv.recv[..c.rcv.head]
  {
    hide Scan, SendLoop, ReceiveAll, Searched, Shaken, Watched;
    if e.ReadReady? {
      var bs := ReceiveAll(e.recvs).bs;
      ScanBounds(c.rcv.(recv := c.rcv.recv + bs));
      assert (c.rcv.recv + bs)[..c.rcv.head] == c.rcv.recv[..c.rcv.head];
    }
  }
}
