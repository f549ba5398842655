/** The resolver, the timer and the reconnect, over whole runs. */
module Timing {
  import opened Bytes
  import opened Options
  import opened Iproto
  import opened Sending
  import opened Receiving
  import opened Connections
  import opened Lifecycle
  import opened Sessions

  // --- the resolver ---------------------------------------------------------------------------

  /** Addresses are used only by the attempt that asked for them; for any other stage their arrival
      changes nothing but that the resolver thread is gone. */
  lemma StaleAddressesAreIgnored(c: Conn, addrs: seq<ConnectResult>)
    requires Inv(c)
    ensures Resolved(c, addrs) != c.(resolver := None) ==> c.stage.AddressResolving? && c.resolver == Some(c.attempt)
  {
  }

  /** A stale failure is different: it schedules a reconnect that the caller's close() had called off.
      It leaves the connection alone exactly when the counter was running at zero already. */
  lemma StaleFailureReschedules(c: Conn)
    requires Inv(c) && c.resolver.Some? && !c.stage.AddressResolving?
    ensures ResolveFailed(c) == c.(resolver := None, ticks := 0)
    ensures ResolveFailed(c) == c.(resolver := None) <==> c.ticks == 0
  {
  }

  /** It happens: open, close while the name is being resolved, and the failure comes in. Nobody asked for
      the reconnect that is now being counted. */
  lemma StaleFailureReached(target: Target, room: nat, handler: bool, unix: ConnectResult)
    requires target.host != []
    ensures Inv(Created(target, room, handler))
    ensures var es := [OpenCall(0, unix), CloseCall(0), AddressesFailed];
            Run(Created(target, room, handler), es[..2]).ticks == -1 &&
            Run(Created(target, room, handler), es).ticks == 0
  {
    hide Run;
    var c := Created(target, room, handler);
    CreatedInv(target, room, handler);
    var e1, e2, e3 := OpenCall(0, unix), CloseCall(0), AddressesFailed;
    var es := [e1, e2, e3];
    var two := es[..2];
    assert es[1..] == [e2, e3] && es[1..][1..] == [e3] && es[1..][1..][1..] == [];
    assert two[1..] == [e2] && two[1..][1..] == [];
    RunOne(c, es);
    RunOne(c, two);
    var c1 := Next(c, e1);
    RunOne(c1, es[1..]);
    RunOne(c1, two[1..]);
    var c2 := Next(c1, e2);
    RunOne(c2, [e3]);
    RunNone(c2);
    RunNone(Next(c2, e3));
  }

  // --- the timer ------------------------------------------------------------------------------

  /** What a tick does to an established connection: nothing, unless flushed bytes have been waiting and the last
      write was long ago. Then it reports the unsent and the flushed bytes and the watch mode, and flushes; and
      as there are unsent bytes, that only moves the mark. */
  lemma TickOfEstablished(c: Conn, stuck: bool, unix: ConnectResult, io: Io)
    requires Inv(c) && c.stage.Connected?
    ensures Next(c, TimerTick(stuck, unix, io)) ==
            if !stuck || c.snd.uncorked == 0 then c
            else c.(jams := c.jams + [JamInTick(|Unsent(c.snd)|, c.snd.uncorked, WatchReadWrite)],
                    snd := c.snd.(uncorked := |c.snd.out|))
  {
  }

  /** The timer never closes an established connection. */
  lemma TimerSparesConnected(c: Conn, stuck: bool, unix: ConnectResult, io: Io)
    requires Inv(c) && c.stage.Connected?
    ensures Tick(c, stuck, unix, io).stage.Connected? && Tick(c, stuck, unix, io).socket
  {
  }

  /** A connect that went in progress and is being timed. */
  ghost predicate Pending(c: Conn) {
    (c.stage.Connecting? || c.stage.FeaturesRequest? || c.stage.Authentication?) && c.ticks >= 0
  }

  predicate Decided(s: Stage) {
    s.Connected? || s.Disconnected?
  }

  function Ticks(es: seq<Event>): nat {
    if es == [] then 0 else (if es[0].TimerTick? then 1 else 0) + Ticks(es[1..])
  }

  /** timeout - ticks ranks a pending connect: ticks lower it by one, nothing raises it. */
  lemma PendingStep(c: Conn, e: Event)
    requires Inv(c) && Pending(c)
    ensures var d := Next(c, e);
            Decided(d.stage) ||
            (Pending(d) && d.timeout == c.timeout && d.ticks == c.ticks + if e.TimerTick? then 1 else 0)
  {
    hide SendLoop, Read;
    if e.ReadReady? { ReadMoves(c, e.recvs, e.io, e.reaction, e.scramble); }
  }

  /** Whatever else happens, a pending connect is decided within the remaining ticks. */
  lemma {:induction false} ConnectIsDecided(c: Conn, es: seq<Event>) returns (n: nat)
    requires Inv(c) && Pending(c) && c.ticks + Ticks(es) >= c.timeout
    ensures n <= |es| && Decided(Run(c, es[..n]).stage)
    decreases |es|
  {
    hide Next, Inv, Decided, Pending;
    Sanity(c);
    assert es != [] by { StillTiming(c); }
    NextInv(c, es[0]);
    PendingStep(c, es[0]);
    var d := Next(c, es[0]);
    if Decided(d.stage) {
      n := 1;
      var first := es[..1];
      assert first[1..] == [];
      assert Run(d, []) == d;
    } else {
      n := ConnectIsDecided(d, es[1..]);
      n := n + 1;
      assert es[..n][1..] == es[1..][..n - 1];
    }
  }

  lemma StillTiming(c: Conn)
    requires Inv(c) && Pending(c)
    ensures 0 <= c.ticks < c.timeout
  {
  }

  /** Waiting for the reconnect: closed, no resolver, nothing left to send. */
  ghost predicate Waiting(c: Conn) {
    c.stage.Disconnected? && c.resolver.None? && c.ticks >= 0 && c.snd.next == |c.snd.send|
  }

  /** A tick that reaches the limit while a connect is pending closes it and starts the wait anew. */
  lemma TimeoutStartsWait(c: Conn, stuck: bool, unix: ConnectResult, io: Io)
    requires Inv(c) && Pending(c) && c.ticks + 1 >= c.timeout
    ensures var d := Tick(c, stuck, unix, io);
            Waiting(d) && d.ticks == 0 && d.timeout == c.timeout && d.attempt == c.attempt
  {
  }

  /** Events that are not the caller opening, closing or flushing. */
  predicate Passive(e: Event) {
    !e.OpenCall? && !e.CloseCall? && !e.FlushCall?
  }

  lemma WaitingStep(c: Conn, e: Event)
    requires Inv(c) && Waiting(c) && Passive(e)
    ensures var d := Next(c, e);
            if e.TimerTick? && c.ticks + 1 >= c.timeout then d.attempt == c.attempt + 1
            else Waiting(d) && d.timeout == c.timeout && d.attempt == c.attempt &&
                 d.ticks == c.ticks + if e.TimerTick? then 1 else 0
  {
    hide ReplyOf, ProtoOf, AuthRequest, IdRequest, Scan, ReceiveAll;
  }

  /** Once the wait has begun, a new attempt is made within `timeout` ticks, unless the caller opens,
      closes or flushes in between. */
  lemma {:induction false} RetryFollows(c: Conn, es: seq<Event>) returns (n: nat)
    requires Inv(c) && Waiting(c) && c.ticks < c.timeout && c.ticks + Ticks(es) >= c.timeout
    requires forall e | e in es :: Passive(e)
    ensures n <= |es| && Run(c, es[..n]).attempt == c.attempt + 1
    decreases |es|
  {
    hide Next, Inv, Waiting, Passive;
    Sanity(c);
    assert es[0] in es;
    NextInv(c, es[0]);
    WaitingStep(c, es[0]);
    var d := Next(c, es[0]);
    if es[0].TimerTick? && c.ticks + 1 >= c.timeout {
      n := 1;
      var first := es[..1];
      assert first[1..] == [];
      assert Run(d, []) == d;
    } else {
      assert forall e | e in es[1..] :: e in es;
      n := RetryFollows(d, es[1..]);
      n := n + 1;
      assert es[..n][1..] == es[1..][..n - 1];
    }
  }

  /** A pending connect that a passive event ends without connecting is waiting for the reconnect,
      however it failed: refused, reset, a bad or unwelcome reply, a failed send, or the timeout. */
  lemma PendingEndsWaiting(c: Conn, e: Event)
    requires Inv(c) && Pending(c) && Passive(e)
    ensures var d := Next(c, e);
            d.timeout == c.timeout && d.attempt == c.attempt &&
            (d.stage.Connected? || (Waiting(d) && d.ticks == 0) ||
             (Pending(d) && d.ticks == c.ticks + if e.TimerTick? then 1 else 0))
  {
    hide SendLoop, Read;
    if e.ReadReady? { ReadMoves(c, e.recvs, e.io, e.reaction, e.scramble); }
  }

  /** A connect in progress is established within the ticks left to it, or a new attempt is made within
      `timeout` ticks after it failed, whatever made it fail, as long as the caller does not open, close
      or flush meanwhile. */
  lemma {:induction false} ConnectedOrRetried(c: Conn, es: seq<Event>) returns (n: nat)
    requires Inv(c) && Pending(c) && Ticks(es) >= (c.timeout - c.ticks) + c.timeout
    requires forall e | e in es :: Passive(e)
    ensures n <= |es|
    ensures var d := Run(c, es[..n]); d.stage.Connected? || d.attempt == c.attempt + 1
    decreases |es|
  {
    hide Next, Inv, Waiting, Passive, Pending;
    Sanity(c);
    StillTiming(c);
    assert es != [];
    assert es[0] in es;
    assert forall e | e in es[1..] :: e in es;
    NextInv(c, es[0]);
    PendingEndsWaiting(c, es[0]);
    var d := Next(c, es[0]);
    n := 0;
    if d.stage.Connected? {
      RunNone(d);
    } else if Pending(d) && d.ticks == c.ticks + (if es[0].TimerTick? then 1 else 0) {
      n := ConnectedOrRetried(d, es[1..]);
    } else {
      assert Ticks(es) == (if es[0].TimerTick? then 1 else 0) + Ticks(es[1..]);
      n := RetryFollows(d, es[1..]);
    }
    n := n + 1;
    assert es[..n][1..] == es[1..][..n - 1];
    RunOne(c, es[..n]);
  }

  /** From the moment connect() reports that it is in progress. */
  lemma DialedConnectsOrRetries(c: Conn, es: seq<Event>) returns (n: nat)
    requires Inv(Dial(c, InProgress)) && Ticks(es) >= 2 * c.timeout
    requires forall e | e in es :: Passive(e)
    ensures n <= |es|
    ensures var d := Run(Dial(c, InProgress), es[..n]); d.stage.Connected? || d.attempt == c.attempt + 1
  {
    n := ConnectedOrRetried(Dial(c, InProgress), es);
  }

  // --- flush() without a socket ---------------------------------------------------------------

  /** Without a socket flush() does nothing but move the mark while the output buffer is empty or the send
      buffer is not. Otherwise it sends on no socket, which counts as a failed write: whatever the
      connection was doing, resolving included, it is closed and a reconnect is counted from now. */
  lemma FlushWithoutSocket(c: Conn, io: Io)
    requires Inv(c) && !c.socket
    ensures var d := Flush(c, io);
            if c.snd.out == [] || c.snd.next < |c.snd.send| then d.(snd := c.snd) == c
            else d.stage.Disconnected? && d.ticks == 0 && !d.socket &&
                 d.timeout == c.timeout && d.attempt == c.attempt && d.resolver == c.resolver
  {
    var s := SwapAll(c.snd);
    if c.snd.out != [] && c.snd.next == |c.snd.send| {
      assert SendLoop(s, [Refused]) == SendOutcome(s, Failed);
    }
    hide SendLoop;
  }

  /** So a connection that was never opened dials by itself: an append, a flush, and ten ticks later the
      first attempt is made. */
  lemma FlushDialsUnasked(target: Target, room: nat, handler: bool, bs: bytes, io: Io, es: seq<Event>)
    requires bs != [] && |es| == GENERAL_TIMEOUT && forall e | e in es :: e.TimerTick?
    ensures Inv(Created(target, room, handler))
    ensures var c := Created(target, room, handler);
            Run(c, [Append(bs)]).ticks == -1 &&
            Run(c, [Append(bs), FlushCall(io)]).ticks == 0 &&
            Run(c, [Append(bs), FlushCall(io)] + es).attempt == c.attempt + 1
  {
    hide Run, Flush;
    var c := Created(target, room, handler);
    CreatedInv(target, room, handler);
    var e1, e2 := Append(bs), FlushCall(io);
    var two, all := [e1, e2], [e1, e2] + es;
    assert [e1][1..] == [] && two[1..] == [e2] && all[1..] == [e2] + es && ([e2] + es)[1..] == es && [e2][1..] == [];
    RunOne(c, [e1]);
    RunOne(c, two);
    RunOne(c, all);
    var c1 := Next(c, e1);
    RunNone(c1);
    RunOne(c1, [e2]);
    RunOne(c1, [e2] + es);
    FlushWithoutSocket(c1, io);
    var c2 := Next(c1, e2);
    RunNone(c2);
    TicksDial(c2, es);
  }

  /** Nothing but ticks: the attempt is made when the counter reaches its limit. */
  lemma {:induction false} TicksDial(c: Conn, es: seq<Event>)
    requires Inv(c) && c.stage.Disconnected? && c.resolver.None? && 0 <= c.ticks < c.timeout
    requires |es| == c.timeout - c.ticks && forall e | e in es :: e.TimerTick?
    ensures Run(c, es).attempt == c.attempt + 1
    decreases |es|
  {
    hide Run, Inv;
    var e := es[0];
    assert e in es;
    assert forall e | e in es[1..] :: e in es;
    TickCounts(c, e);
    RunOne(c, es);
    if |es| == 1 { RunNone(Next(c, e)); } else { TicksDial(Next(c, e), es[1..]); }
  }

  lemma TickCounts(c: Conn, e: Event)
    requires Inv(c) && c.stage.Disconnected? && c.resolver.None? && 0 <= c.ticks < c.timeout && e.TimerTick?
    ensures Sane(c)
    ensures var d := Next(c, e);
            if c.ticks + 1 == c.timeout then d.attempt == c.attempt + 1
            else d == c.(ticks := c.ticks + 1)
  {
  }
}
