/**
 The send half of the connection: the output buffer callers append to, the send buffer the socket
 drains, the cursor into it and the flush mark.
 */
module Sending {
  import opened Bytes

  /** `send` and `out` are the two buffers with their capacities, `next` the cursor _next_to_send,
      `uncorked` the flush mark in `out`. `wire` is history: every byte the socket has accepted.
      `corrupt` is set once a copy has run past a buffer. */
  datatype Sender = Sender(send: bytes, sendRoom: nat, next: nat, out: bytes, outRoom: nat, uncorked: nat,
                           wire: bytes, corrupt: bool)

  /** One return of send(): some bytes taken (at least one, at most all), EAGAIN, EINTR, an error. */
  datatype SendResult = Sent(n: nat) | WouldBlock | Interrupted | Refused

  datatype Stop = Drained | Blocked | Failed

  datatype SendOutcome = SendOutcome(s: Sender, stop: Stop)

  ghost predicate SenderOk(s: Sender) {
    s.next <= |s.send| && s.uncorked <= |s.out| && (s.uncorked > 0 ==> s.next < |s.send|)
  }

  function Unsent(s: Sender): bytes {
    if s.next <= |s.send| then s.send[s.next..] else []
  }

  /** bytes_to_send */
  function BytesToSend(s: Sender): nat {
    |Unsent(s)| + s.uncorked
  }

  /** Everything the session was given to send, in order. */
  function Stream(s: Sender): bytes {
    s.wire + Unsent(s) + s.out
  }

  /** The part of it that may leave: what was flushed. */
  function Flushed(s: Sender): bytes {
    s.wire + Unsent(s) + (if s.uncorked <= |s.out| then s.out[..s.uncorked] else s.out)
  }

  /** The send buffer is empty and trades places with the output buffer. */
  function SwapAll(s: Sender): Sender {
    s.(send := s.out, sendRoom := s.outRoom, out := [], outRoom := s.sendRoom, next := 0, uncorked := 0)
  }

  /** The same inside write(): only the flushed prefix moves, the corked tail is copied back. The copy
      precedes the resize, so a tail longer than the old send buffer's room runs past it. */
  function SwapFlushed(s: Sender): Sender
    requires s.uncorked <= |s.out|
  {
    var tail := s.out[s.uncorked..];
    var fits := |tail| <= s.sendRoom;
    s.(send := s.out[..s.uncorked], sendRoom := s.outRoom, out := if fits then tail else [], outRoom := s.sendRoom,
       next := 0, uncorked := 0, corrupt := s.corrupt || !fits)
  }

  function Portion(n: nat, available: nat): (r: nat)
    requires available > 0
    ensures 1 <= r <= available
  {
    if n == 0 then 1 else if n <= available then n else available
  }

  /** The loop of write(). The script is what send() answers; a script that has run out is EAGAIN. */
  function SendLoop(s: Sender, script: seq<SendResult>): SendOutcome
    requires s.next <= |s.send| && s.uncorked <= |s.out|
    decreases |script|
  {
    if s.next == |s.send| then SendOutcome(s, Drained)
    else if script == [] then SendOutcome(s, Blocked)
    else match script[0]
      case WouldBlock => SendOutcome(s, Blocked)
      case Interrupted => SendLoop(s, script[1..])
      case Refused => SendOutcome(s, Failed)
      case Sent(n) =>
        var t := Accept(s, Portion(n, |s.send| - s.next));
        SendLoop(if t.next == |t.send| && t.uncorked > 0 then SwapFlushed(t) else t, script[1..])
  }

  /** The socket takes r bytes. */
  function Accept(s: Sender, r: nat): Sender
    requires s.next + r <= |s.send|
  {
    s.(wire := s.wire + s.send[s.next..s.next + r], next := s.next + r)
  }

  /** A caller appends requests to the output buffer, having reserved the space. */
  function Append(s: Sender, bs: bytes): Sender {
    s.(out := s.out + bs, outRoom := if s.outRoom < |s.out| + |bs| then |s.out| + |bs| else s.outRoom)
  }

  // --- conservation ---------------------------------------------------------------------------

  lemma AcceptKeeps(s: Sender, r: nat)
    requires s.next + r <= |s.send|
    ensures Stream(Accept(s, r)) == Stream(s) && Flushed(Accept(s, r)) == Flushed(s)
    ensures s.wire <= Accept(s, r).wire
  {
    var t := Accept(s, r);
    assert s.send[s.next..s.next + r] + s.send[s.next + r..] == s.send[s.next..];
    assert t.wire + Unsent(t) == s.wire + Unsent(s);
  }

  lemma SwapFlushedKeeps(s: Sender)
    requires s.next == |s.send| && s.uncorked <= |s.out|
    ensures var t := SwapFlushed(s);
            !t.corrupt ==> Stream(t) == Stream(s) && Flushed(t) == Flushed(s)
  {
    var t := SwapFlushed(s);
    assert s.out[..s.uncorked] + s.out[s.uncorked..] == s.out;
    assert Unsent(s) == [] && Unsent(t) == s.out[..s.uncorked];
    assert Flushed(t) == s.wire + s.out[..s.uncorked];
    assert s.wire + s.out[..s.uncorked] + s.out[s.uncorked..] == s.wire + (s.out[..s.uncorked] + s.out[s.uncorked..]);
  }

  lemma SwapAllKeeps(s: Sender)
    requires SenderOk(s) && s.next == |s.send|
    ensures Stream(SwapAll(s)) == Stream(s) == Flushed(SwapAll(s)) && SenderOk(SwapAll(s))
  {
    assert Unsent(s) == [] && Unsent(SwapAll(s)) == s.out;
  }

  lemma AppendKeeps(s: Sender, bs: bytes)
    requires SenderOk(s)
    ensures Stream(Append(s, bs)) == Stream(s) + bs && Flushed(Append(s, bs)) == Flushed(s) && SenderOk(Append(s, bs))
  {
    var t := Append(s, bs);
    assert t.out[..s.uncorked] == s.out[..s.uncorked];
    assert s.wire + Unsent(s) + (s.out + bs) == s.wire + Unsent(s) + s.out + bs;
  }

  /** Whatever the socket answers, flushed bytes never wait behind an empty send buffer: the loop ends
      drained only with nothing flushed left, and blocked only with bytes to send. */
  lemma {:induction false} SendLoopNeverJams(s: Sender, script: seq<SendResult>)
    requires SenderOk(s)
    ensures SenderOk(SendLoop(s, script).s)
    ensures SendLoop(s, script).stop == Drained ==> BytesToSend(SendLoop(s, script).s) == 0
    ensures SendLoop(s, script).stop == Blocked ==> Unsent(SendLoop(s, script).s) != []
    decreases |script|
  {
    if s.next < |s.send| && script != [] {
      match script[0]
      case Interrupted => SendLoopNeverJams(s, script[1..]);
      case Sent(n) =>
        var t := Accept(s, Portion(n, |s.send| - s.next));
        SendLoopNeverJams(if t.next == |t.send| && t.uncorked > 0 then SwapFlushed(t) else t, script[1..]);
      case _ =>
    }
  }

  /** Whatever the socket answers: nothing is lost, duplicated or reordered, nothing past the flush
      mark moves, and the wire only grows. */
  lemma {:induction false} SendLoopKeeps(s: Sender, script: seq<SendResult>)
    requires SenderOk(s) && !SendLoop(s, script).s.corrupt
    ensures var e := SendLoop(s, script);
            !s.corrupt && Stream(e.s) == Stream(s) && Flushed(e.s) == Flushed(s) && s.wire <= e.s.wire
    decreases |script|
  {
    if s.next < |s.send| && script != [] {
      match script[0]
      case Interrupted => SendLoopKeeps(s, script[1..]);
      case Sent(n) =>
        var r := Portion(n, |s.send| - s.next);
        var t := Accept(s, r);
        AcceptKeeps(s, r);
        hide Stream, Flushed, Portion;
        if t.next == |t.send| && t.uncorked > 0 {
          CorruptStays(SwapFlushed(t), script[1..]);
          SwapFlushedKeeps(t);
          SendLoopKeeps(SwapFlushed(t), script[1..]);
        } else {
          SendLoopKeeps(t, script[1..]);
        }
      case _ =>
    }
  }

  lemma {:induction false} CorruptStays(s: Sender, script: seq<SendResult>)
    requires s.next <= |s.send| && s.uncorked <= |s.out|
    ensures s.corrupt ==> SendLoop(s, script).s.corrupt
    decreases |script|
  {
    if s.next < |s.send| && script != [] {
      match script[0]
      case Interrupted => CorruptStays(s, script[1..]);
      case Sent(n) =>
        var t := Accept(s, Portion(n, |s.send| - s.next));
        CorruptStays(if t.next == |t.send| && t.uncorked > 0 then SwapFlushed(t) else t, script[1..]);
      case _ =>
    }
  }

  /** The corked tail fits the buffer it may be copied into. */
  predicate TailFits(s: Sender) {
    s.uncorked <= |s.out| && |s.out| - s.uncorked <= s.sendRoom
  }

  lemma {:induction false} NoMarkNoOverrun(s: Sender, script: seq<SendResult>)
    requires s.next <= |s.send| && s.uncorked == 0 && !s.corrupt
    ensures !SendLoop(s, script).s.corrupt
    decreases |script|
  {
    if s.next < |s.send| && script != [] {
      match script[0]
      case Interrupted => NoMarkNoOverrun(s, script[1..]);
      case Sent(n) => NoMarkNoOverrun(Accept(s, Portion(n, |s.send| - s.next)), script[1..]);
      case _ =>
    }
  }

  lemma {:induction false} FittingTailNoOverrun(s: Sender, script: seq<SendResult>)
    requires SenderOk(s) && !s.corrupt && TailFits(s)
    ensures !SendLoop(s, script).s.corrupt
    decreases |script|
  {
    if s.next < |s.send| && script != [] {
      match script[0]
      case Interrupted => FittingTailNoOverrun(s, script[1..]);
      case Sent(n) =>
        var t := Accept(s, Portion(n, |s.send| - s.next));
        if t.next == |t.send| && t.uncorked > 0 { NoMarkNoOverrun(SwapFlushed(t), script[1..]); }
        else { FittingTailNoOverrun(t, script[1..]); }
      case _ =>
    }
  }

  /** No behaviour of the socket makes write() copy past a buffer exactly when nothing is flushed behind
      the send buffer, or the unflushed tail fits the send buffer's room. */
  lemma OverrunExactly(s: Sender)
    requires SenderOk(s) && !s.corrupt
    ensures (forall script :: !SendLoop(s, script).s.corrupt) <==> s.uncorked == 0 || TailFits(s)
  {
    if s.uncorked == 0 || TailFits(s) {
      forall script: seq<SendResult> ensures !SendLoop(s, script).s.corrupt {
        if s.uncorked == 0 { NoMarkNoOverrun(s, script); } else { FittingTailNoOverrun(s, script); }
      }
    } else {
      var n := |s.send| - s.next;
      var script := [Sent(n)];
      assert Portion(n, n) == n;
      var t := SwapFlushed(Accept(s, n));
      assert t.corrupt;
      CorruptStays(t, script[1..]);
      assert SendLoop(s, script).s.corrupt;
    }
  }

  // --- how the loop ends ----------------------------------------------------------------------

  /** An answer after which the loop goes on if there is anything left. */
  predicate GoesOn(r: SendResult) {
    r.Sent? || r.Interrupted?
  }

  ghost predicate AllGoOn(script: seq<SendResult>) {
    forall r | r in script :: GoesOn(r)
  }

  /** The answers one after the other: what the loop does on more of them it does from where it stood. */
  lemma {:induction false} SendLoopContinues(s: Sender, a: seq<SendResult>, b: seq<SendResult>)
    requires SenderOk(s) && AllGoOn(a)
    ensures SenderOk(SendLoop(s, a).s) && SendLoop(s, a + b) == SendLoop(SendLoop(s, a).s, b)
    ensures !SendLoop(s, a).stop.Failed?
    decreases |a|
  {
    SendLoopNeverJams(s, a);
    if a == [] {
      assert a + b == b;
    } else if s.next < |s.send| {
      assert a[0] in a && forall r | r in a[1..] :: r in a;
      assert (a + b)[1..] == a[1..] + b;
      match a[0]
      case Interrupted => SendLoopContinues(s, a[1..], b);
      case Sent(n) =>
        var t := Accept(s, Portion(n, |s.send| - s.next));
        SendLoopContinues(if t.next == |t.send| && t.uncorked > 0 then SwapFlushed(t) else t, a[1..], b);
    }
  }

  /** Each single answer. EAGAIN ends the loop and an error fails it, with nothing changed; EINTR does
      nothing; otherwise the socket takes the front of the unsent bytes, at least one. */
  lemma OneAnswer(s: Sender, r: SendResult)
    requires SenderOk(s) && Unsent(s) != []
    ensures var e := SendLoop(s, [r]);
            match r
            case WouldBlock => e == SendOutcome(s, Blocked)
            case Refused => e == SendOutcome(s, Failed)
            case Interrupted => e == SendOutcome(s, Blocked)
            case Sent(n) =>
              var m := if n == 0 then 1 else if n < |Unsent(s)| then n else |Unsent(s)|;
              e.s.wire == s.wire + Unsent(s)[..m] && !e.stop.Failed? && (e.stop.Drained? <==> Unsent(e.s) == [])
  {
    assert [r][1..] == [];
  }

  /** What comes after the first EAGAIN or error is not asked for. */
  lemma SendLoopStops(s: Sender, a: seq<SendResult>, r: SendResult, b: seq<SendResult>)
    requires SenderOk(s) && AllGoOn(a) && !GoesOn(r)
    ensures var t := SendLoop(s, a).s;
            SendLoop(s, a + [r] + b) == SendOutcome(t, if Unsent(t) == [] then Drained
                                                       else if r.WouldBlock? then Blocked else Failed)
  {
    assert a + [r] + b == a + ([r] + b);
    SendLoopContinues(s, a, [r] + b);
  }

  /** The loop fails only if the socket reports an error. */
  lemma {:induction false} FailureIsReported(s: Sender, script: seq<SendResult>)
    requires SenderOk(s) && Refused !in script
    ensures !SendLoop(s, script).stop.Failed?
    decreases |script|
  {
    SendLoopNeverJams(s, script);
    if s.next < |s.send| && script != [] {
      assert script[0] in script && forall r | r in script[1..] :: r in script;
      match script[0]
      case Interrupted => FailureIsReported(s, script[1..]);
      case Sent(n) =>
        var t := Accept(s, Portion(n, |s.send| - s.next));
        FailureIsReported(if t.next == |t.send| && t.uncorked > 0 then SwapFlushed(t) else t, script[1..]);
      case _ =>
    }
  }
}
