/** The two buffers of the send half keep within their memory, and trade it only with each other. */
module Capacities {
  import opened Bytes
  import opened Options
  import opened Sending
  import opened Receiving
  import opened Connections
  import opened Lifecycle
  import opened Sessions

  /** What each buffer holds fits its capacity. */
  ghost predicate Within(s: Sender) {
    |s.send| <= s.sendRoom && |s.out| <= s.outRoom
  }

  /** The capacities of the two buffers, whichever of them is the send buffer at the moment. */
  ghost function Rooms(s: Sender): multiset<nat> {
    multiset{s.sendRoom, s.outRoom}
  }

  /** Sending moves bytes between the two buffers and swaps them, but neither grows nor shrinks. */
  lemma {:induction false} SendLoopWithin(s: Sender, script: seq<SendResult>)
    requires s.next <= |s.send| && s.uncorked <= |s.out|
    ensures Rooms(SendLoop(s, script).s) == Rooms(s)
    ensures Within(s) && !SendLoop(s, script).s.corrupt ==> Within(SendLoop(s, script).s)
    decreases |script|
  {
    if s.next < |s.send| && script != [] {
      match script[0]
      case Interrupted => SendLoopWithin(s, script[1..]);
      case Sent(n) =>
        hide Within, Rooms, Portion;
        var t := Accept(s, Portion(n, |s.send| - s.next));
        TradeWithin(s, t);
        if t.next == |t.send| && t.uncorked > 0 {
          SendLoopWithin(SwapFlushed(t), script[1..]);
          CorruptStays(SwapFlushed(t), script[1..]);
        } else {
          SendLoopWithin(t, script[1..]);
        }
      case _ =>
    }
  }

  lemma TradeWithin(s: Sender, t: Sender)
    requires t == s.(wire := t.wire, next := t.next) && t.uncorked <= |t.out|
    ensures Within(t) == Within(s) && Rooms(t) == Rooms(s) && Rooms(SwapFlushed(t)) == Rooms(s)
    ensures Within(s) && !SwapFlushed(t).corrupt ==> Within(SwapFlushed(t))
  {
  }

  /** A caller's reservation grows the output buffer exactly when it has to, and to no more than is needed; flush
      swaps the two. */
  lemma OutputWithin(s: Sender, bs: bytes)
    requires Within(s)
    ensures var t := Sending.Append(s, bs);
            Within(t) && t.sendRoom == s.sendRoom && s.outRoom <= t.outRoom &&
            (|s.out| + |bs| <= s.outRoom ==> t.outRoom == s.outRoom) && (t.outRoom > s.outRoom ==> t.outRoom == |t.out|)
    ensures var t := SwapAll(s);
            Within(t) && t.sendRoom == s.outRoom && t.outRoom == s.sendRoom && t.send == s.out && t.out == []
  {
  }

  lemma PlaceWithin(s: Sender, request: bytes)
    ensures Within(s) && !Place(s, request).corrupt ==> Within(Place(s, request))
  {
  }

  lemma DrainWithin(c: Conn, script: seq<SendResult>)
    requires c.snd.next <= |c.snd.send| && c.snd.uncorked <= |c.snd.out| && Within(c.snd)
    ensures !Drain(c, script).snd.corrupt ==> Within(Drain(c, script).snd)
  {
    SendLoopWithin(c.snd, if c.socket then script else [Refused]);
    hide SendLoop;
  }

  lemma WriteWithin(c: Conn, io: Io)
    requires c.snd.next <= |c.snd.send| && c.snd.uncorked <= |c.snd.out| && Within(c.snd)
    ensures !Write(c, io).snd.corrupt ==> Within(Write(c, io).snd)
  {
    hide Drain;
    DrainWithin(c, io.script);
  }

  lemma FlushWithin(c: Conn, io: Io)
    requires c.snd.next <= |c.snd.send| && c.snd.uncorked <= |c.snd.out| && Within(c.snd)
    ensures !Flush(c, io).snd.corrupt ==> Within(Flush(c, io).snd)
  {
    hide Write;
    if c.snd.next == |c.snd.send| { WriteWithin(c.(snd := SwapAll(c.snd)), io); }
  }

  lemma ReadWithin(c: Conn, recvs: seq<Recv>, io: Io, reaction: Reaction, scramble: bytes)
    requires Inv(c) && Within(c.snd)
    ensures var s := Read(c, recvs, io, reaction, scramble).snd; !s.corrupt ==> Within(s)
  {
    Sanity(c);
    hide Read, Composed, SendLoop, Inv, Place;
    var s := ReadSends(c, recvs, io, reaction, scramble);
    var r := Composed(c, recvs, scramble);
    if r.Some? {
      PlacedOk(c, r.value);
      PlaceWithin(c.snd, r.value);
      CorruptStays(Place(c.snd, r.value), io.script);
      SendLoopWithin(Place(c.snd, r.value), io.script);
    }
  }

  lemma PlacedOk(c: Conn, request: bytes)
    requires Inv(c)
    ensures Place(c.snd, request).next <= |Place(c.snd, request).send|
    ensures Place(c.snd, request).uncorked <= |Place(c.snd, request).out|
  {
  }

  lemma {:induction false} TryWithin(c: Conn, addrs: seq<ConnectResult>)
    requires Within(c.snd)
    ensures Within(TryAddresses(c, addrs).snd)
    decreases |addrs|
  {
    if addrs != [] && addrs[0].NoSocket? { TryWithin(c, addrs[1..]); }
  }

  lemma StepWithin(c: Conn, e: Event)
    requires Inv(c) && Within(c.snd)
    ensures !Next(c, e).snd.corrupt ==> Within(Next(c, e).snd)
  {
    hide Write, Flush, Read, TryAddresses;
    match e
    case FlushCall(io) => FlushWithin(c, io);
    case WriteReady(io) => WriteWithin(c, io);
    case ReadReady(recvs, io, reaction, scramble) => ReadWithin(c, recvs, io, reaction, scramble);
    case AddressesFound(addrs) => TryWithin(c.(resolver := None), addrs);
    case TimerTick(stuck, unix, io) =>
      var d := if c.ticks >= 0 then c.(ticks := c.ticks + 1) else c;
      FlushWithin(d.(jams := d.jams + [JamInTick(|c.snd.send| - c.snd.next, c.snd.uncorked, c.watch)]), io);
    case _ =>
  }

  /** Over any run in which the tails and the requests of the handshake fit, both buffers hold no more than they
      have memory for. */
  lemma {:induction false} RunWithin(c: Conn, es: seq<Event>)
    requires Inv(c) && Within(c.snd) && !c.snd.corrupt && TailsFit(c, es) && RequestsFit(c, es)
    ensures Within(Run(c, es).snd)
    decreases |es|
  {
    hide Next, Inv, Within, Sends, TailFits, RequestFits;
    if es != [] {
      RunOne(c, es);
      StepNoOverrun(c, es[0]);
      StepWithin(c, es[0]);
      RunWithin(Next(c, es[0]), es[1..]);
    }
  }
}
