/**
 The receive half of the connection: an incremental scanner that finds whole responses in what has
 arrived so far, and the hand-over of whole responses to a caller that processes them at its own pace.
 */
module Receiving {
  import opened Bytes
  import opened MsgPack
  import opened Frames
  import opened Options

  /** `recv` is _receive_buffer, `head` _last_received_head_offset, `detected` _detected_response_size,
      `input` _input_buffer, `idle` _caller_idle. `handler` says whether on_response is set.
      `delivered` is history: every buffer handed to on_response. */
  datatype Receiver = Receiver(recv: bytes, head: nat, detected: nat, input: bytes, idle: bool, handler: bool,
                               delivered: seq<bytes>)

  /** What on_response does with the buffer: keep it for later, or be done with it before returning
      (input_processed() inside the callback, or an exception, after which the connector calls it). */
  datatype Reaction = Keep | Release

  /** The size of the response whose head starts s: any MP_UINT head is accepted, and size_t wraps.
      A 64-bit head is decoded from nine bytes though only five have arrived; missing ones read as 0. */
  function HeadSize(s: bytes): (d: Option<nat>)
    requires |s| >= 5
  {
    if s[0] <= 0x7f then Some(s[0] + 5)
    else if s[0] == 0xcc then Some(LenField(s, 1) + 5)
    else if s[0] == 0xcd then Some(LenField(s, 2) + 5)
    else if s[0] == 0xce then Some(LenField(s, 4) + 5)
    else if s[0] == 0xcf then Some((LenField(s + [0, 0, 0, 0], 8) + 5) % U64)
    else None
  }

  /** Of a number written the shortest way it takes the value. */
  lemma HeadSizeOfNumber(n: nat, t: bytes)
    requires n < U64 && |EncodeUInt(n) + t| >= 5
    ensures HeadSize(EncodeUInt(n) + t) == Some((n + 5) % U64)
  {
    hide FromBigEndian, BigEndian, Pow256;
    var head := EncodeUInt(n);
    var s := head + t;
    Pow256Widths();
    if n > 0x7f {
      var k := |head| - 1;
      BigEndianRoundTrip(n, k);
      assert s[1..1 + k] == BigEndian(n, k);
      assert (s + [0, 0, 0, 0])[1..1 + k] == BigEndian(n, k);
    }
  }

  /** Of anything but a number without sign it takes nothing. */
  lemma HeadSizeOfOther(s: bytes)
    requires |s| >= 5
    ensures HeadSize(s).None? <==> 0x80 <= s[0] <= 0xcb || s[0] >= 0xd0
  {
    hide FromBigEndian;
  }

  /** The scan loop of process_receive_buffer. On a bad head everything after it is dropped. */
  function Scan(r: Receiver): Receiver
    requires r.head <= |r.recv|
    decreases |r.recv| - r.head
  {
    var orphaned := |r.recv| - r.head;
    if r.detected == 0 && orphaned >= 5 && HeadSize(r.recv[r.head..]).None? then r.(recv := r.recv[..r.head])
    else
      var size := if r.detected == 0 && orphaned >= 5 then HeadSize(r.recv[r.head..]).value else r.detected;
      if size != 0 && orphaned >= size then Scan(r.(head := r.head + size, detected := 0))
      else r.(detected := size)
  }

  /** pass_response_to_caller */
  function Pass(r: Receiver, reaction: Reaction): Receiver
    requires r.head <= |r.recv|
  {
    if r.head == 0 then r
    else
      var whole := r.recv[..r.head];
      var t := r.(input := whole, recv := r.recv[r.head..], head := 0);
      if r.handler then t.(delivered := r.delivered + [whole], idle := reaction.Release?)
      else t.(input := [])
  }

  /** input_processed */
  function Processed(r: Receiver, reaction: Reaction): Receiver
    requires r.head <= |r.recv|
  {
    Pass(r.(idle := true), reaction)
  }

  /** clear_receive_buffer */
  function Cleared(r: Receiver): Receiver {
    r.(recv := [], head := 0, detected := 0)
  }

  /** process_receive_buffer of an established connection after `chunk` has been received. */
  function Arrive(r: Receiver, chunk: bytes, reaction: Reaction): Receiver
    requires r.head <= |r.recv|
  {
    var s := Scan(r.(recv := r.recv + chunk));
    ScanBounds(r.(recv := r.recv + chunk));
    if s.head != 0 && s.idle then Pass(s, reaction) else s
  }

  lemma {:induction false} ScanBounds(r: Receiver)
    requires r.head <= |r.recv|
    ensures var s := Scan(r);
            r.head <= s.head <= |s.recv| && s.recv <= r.recv &&
            s == r.(recv := s.recv, head := s.head, detected := s.detected)
    decreases |r.recv| - r.head
  {
    hide HeadSize;
    var orphaned := |r.recv| - r.head;
    if r.detected == 0 && orphaned >= 5 && HeadSize(r.recv[r.head..]).None? {
    } else {
      var size := if r.detected == 0 && orphaned >= 5 then HeadSize(r.recv[r.head..]).value else r.detected;
      if size != 0 && orphaned >= size { ScanBounds(r.(head := r.head + size, detected := 0)); }
    }
  }

  /** A remembered size belongs to the head it was read from. Of a 64-bit head less may have been seen. */
  ghost predicate Remembered(r: Receiver) {
    r.head <= |r.recv| &&
    (r.detected != 0 ==>
       var s := r.recv[r.head..];
       |s| >= 5 && (s[0] == 0xcf || HeadSize(s) == Some(r.detected)))
  }

  /** The scan has nothing more to find: what is left is shorter than a head, or than the response the
      head announces, or its size has wrapped to the zero that means unknown. */
  ghost predicate Searched(r: Receiver) {
    Remembered(r) &&
    var s := r.recv[r.head..];
    if r.detected == 0 then |s| < 5 || HeadSize(s) == Some(0) else |s| < r.detected
  }

  lemma {:induction false} ScanSearches(r: Receiver)
    requires Remembered(r)
    ensures Searched(Scan(r))
    decreases |r.recv| - r.head
  {
    hide HeadSize;
    var s := r.recv[r.head..];
    if r.detected == 0 && |s| >= 5 && HeadSize(s).None? {
      assert r.recv[..r.head][r.head..] == [];
    } else {
      var size := if r.detected == 0 && |s| >= 5 then HeadSize(s).value else r.detected;
      if size != 0 && |s| >= size { ScanSearches(r.(head := r.head + size, detected := 0)); }
    }
  }

  lemma ArrivalRemembers(r: Receiver, chunk: bytes)
    requires Remembered(r)
    ensures Remembered(r.(recv := r.recv + chunk))
  {
    hide HeadSize;
    var s := r.recv[r.head..];
    assert (r.recv + chunk)[r.head..] == s + chunk;
    if |s| >= 5 && s[0] != 0xcf { LongerHead(s, chunk); }
  }

  lemma LongerHead(s: bytes, t: bytes)
    requires |s| >= 5 && s[0] != 0xcf
    ensures HeadSize(s + t) == HeadSize(s)
  {
    hide FromBigEndian;
    assert (s + t)[1..2] == s[1..2] && (s + t)[1..3] == s[1..3] && (s + t)[1..5] == s[1..5];
  }

  lemma PassSearched(r: Receiver, reaction: Reaction)
    requires Searched(r)
    ensures Searched(Pass(r, reaction))
  {
    hide HeadSize;
    assert r.recv[r.head..][0..] == r.recv[r.head..];
  }

  /** After a scan no complete iproto message is left. */
  lemma SearchedHoldsNone(r: Receiver)
    requires Searched(r)
    ensures !TakeMessage(r.recv[r.head..]).Message?
  {
  }

  // --- what is inside the buffers, when the peer sends whole frames ---------------------------

  /** The payloads a caller takes from the buffers handed to it with repeated iproto_message(). */
  function PayloadsOf(bufs: seq<bytes>): Unpacked {
    if bufs == [] then Unpacked([], true)
    else
      var k := |bufs| - 1;
      var u, v := PayloadsOf(bufs[..k]), Unpack(bufs[k]);
      Unpacked(u.payloads + v.payloads, u.whole && v.whole)
  }

  /** The peer sends the messages ps; `future` is what has not arrived yet. The first a messages have
      been handed over, those up to b are found whole, and a known size is the size of message b. */
  ghost predicate Tracks(r: Receiver, skip: nat, ps: seq<bytes>, a: nat, b: nat, future: bytes) {
    a <= b <= |ps| && Sendable(ps) && r.handler && skip <= |r.delivered| && r.head <= |r.recv| &&
    PayloadsOf(r.delivered[skip..]) == Unpacked(ps[..a], true) &&
    r.recv[..r.head] == Wire(ps[a..b]) &&
    r.recv[r.head..] + future == Wire(ps[b..]) &&
    (r.detected != 0 ==> b < |ps| && r.detected == 5 + |ps[b]|)
  }

  /** What is left after the last whole response is less than one response. */
  ghost predicate Scanned(r: Receiver, ps: seq<bytes>, b: nat)
    requires b <= |ps|
  {
    r.head <= |r.recv| && if b == |ps| then |r.recv| == r.head else |r.recv| - r.head < 5 + |ps[b]|
  }

  lemma SendableSlice(ps: seq<bytes>, i: nat, j: nat)
    requires Sendable(ps) && i <= j <= |ps|
    ensures Sendable(ps[i..j])
  {
  }

  lemma WireStep(ps: seq<bytes>, b: nat)
    requires Sendable(ps) && b < |ps|
    ensures Sendable(ps[b..]) && Sendable(ps[b + 1..]) && |ps[b]| < U32
    ensures Wire(ps[b..]) == MessageBytes(ps[b]) + Wire(ps[b + 1..])
  {
    assert ps[b] in ps && ps[b..][0] == ps[b] && ps[b..][1..] == ps[b + 1..];
  }

  /** With five bytes of a frame at hand the scanner knows its true size. */
  lemma HeadSizeOfFrame(s: bytes, future: bytes, payload: bytes, tail: bytes)
    requires |s| >= 5 && |payload| < U32 && s + future == MessageBytes(payload) + tail
    ensures HeadSize(s) == Some(5 + |payload|)
  {
    hide MessageBytes;
    MessageParts(payload, tail);
    assert (s + future)[0] == s[0] && (s + future)[1..5] == s[1..5];
  }

  lemma CutFrame(recv: bytes, head: nat, frame: bytes, future: bytes, tail: bytes)
    requires head + |frame| <= |recv| && recv[head..] + future == frame + tail
    ensures recv[head + |frame|..] + future == tail
    ensures recv[..head + |frame|] == recv[..head] + frame
  {
    var s, n := recv[head..], |frame|;
    assert s[..n] == frame by { assert (s + future)[..n] == s[..n]; }
    assert (s + future)[n..] == s[n..] + future;
    assert recv[head + n..] == s[n..];
  }

  lemma WireGrows(ps: seq<bytes>, a: nat, b: nat)
    requires Sendable(ps) && a <= b < |ps|
    ensures Sendable(ps[a..b]) && Sendable(ps[a..b + 1]) && |ps[b]| < U32
    ensures Wire(ps[a..b + 1]) == Wire(ps[a..b]) + MessageBytes(ps[b])
  {
    hide Wire, MessageBytes;
    OneOnTheWire(ps, b);
    WireAppend(ps[a..b], ps[b..b + 1]);
    assert ps[a..b] + ps[b..b + 1] == ps[a..b + 1];
  }

  lemma OneOnTheWire(ps: seq<bytes>, b: nat)
    requires Sendable(ps) && b < |ps|
    ensures Sendable(ps[b..b + 1]) && |ps[b]| < U32 && Wire(ps[b..b + 1]) == MessageBytes(ps[b])
  {
    var one := [ps[b]];
    assert ps[b] in ps && ps[b..b + 1] == one && one[1..] == [];
    assert MessageBytes(ps[b]) + [] == MessageBytes(ps[b]);
  }

  lemma ScanRound(r: Receiver, skip: nat, ps: seq<bytes>, a: nat, b: nat, future: bytes)
    requires Tracks(r, skip, ps, a, b, future)
    requires b < |ps| && |r.recv| - r.head >= 5 + |ps[b]|
    ensures Tracks(r.(head := r.head + 5 + |ps[b]|, detected := 0), skip, ps, a, b + 1, future)
  {
    hide MessageBytes, Wire, Unpack, PayloadsOf;
    WireStep(ps, b);
    WireGrows(ps, a, b);
    CutFrame(r.recv, r.head, MessageBytes(ps[b]), future, Wire(ps[b + 1..]));
  }

  /** One round of the scan loop on a stream of frames. */
  lemma ScanUnfolds(r: Receiver, skip: nat, ps: seq<bytes>, a: nat, b: nat, future: bytes)
    requires Tracks(r, skip, ps, a, b, future) && b < |ps|
    ensures var n := 5 + |ps[b]|;
            if |r.recv| - r.head >= n then Scan(r) == Scan(r.(head := r.head + n, detected := 0))
            else Scan(r) == r.(detected := if r.detected != 0 || |r.recv| - r.head < 5 then r.detected else n)
  {
    hide MessageBytes, Wire, Unpack, PayloadsOf, HeadSize;
    WireStep(ps, b);
    var s := r.recv[r.head..];
    if |s| >= 5 { HeadSizeOfFrame(s, future, ps[b], Wire(ps[b + 1..])); }
  }

  /** The scan keeps all of this and leaves less than one response behind; a remembered size may come
      from any earlier read. */
  lemma {:induction false} ScanTracks(r: Receiver, skip: nat, ps: seq<bytes>, a: nat, b: nat, future: bytes)
    returns (b': nat)
    requires Tracks(r, skip, ps, a, b, future)
    ensures Tracks(Scan(r), skip, ps, a, b', future) && Scanned(Scan(r), ps, b')
    decreases |r.recv| - r.head
  {
    hide Scan, Wire, PayloadsOf;
    b' := b;
    if b < |ps| {
      ScanUnfolds(r, skip, ps, a, b, future);
      var n := 5 + |ps[b]|;
      if |r.recv| - r.head >= n {
        ScanRound(r, skip, ps, a, b, future);
        hide Tracks, Scanned;
        b' := ScanTracks(r.(head := r.head + n, detected := 0), skip, ps, a, b + 1, future);
      }
    } else {
      ScanOfNothing(r, skip, ps, a, future);
    }
  }

  lemma ScanOfNothing(r: Receiver, skip: nat, ps: seq<bytes>, a: nat, future: bytes)
    requires Tracks(r, skip, ps, a, |ps|, future)
    ensures |r.recv| == r.head && Scan(r) == r
  {
    hide Unpack, PayloadsOf, HeadSize;
    assert ps[|ps|..] == [];
    assert |r.recv[r.head..] + future| == 0;
  }

  lemma PayloadsOfOneMore(bufs: seq<bytes>, buf: bytes)
    ensures var u, v := PayloadsOf(bufs), Unpack(buf);
            PayloadsOf(bufs + [buf]) == Unpacked(u.payloads + v.payloads, u.whole && v.whole)
  {
    hide Unpack;
    assert (bufs + [buf])[..|bufs|] == bufs;
  }

  lemma PassTracks(r: Receiver, reaction: Reaction, skip: nat, ps: seq<bytes>, a: nat, b: nat, future: bytes)
    requires Tracks(r, skip, ps, a, b, future)
    ensures Tracks(Pass(r, reaction), skip, ps, b, b, future)
    ensures Scanned(r, ps, b) ==> Scanned(Pass(r, reaction), ps, b)
  {
    hide MessageBytes, Unpack, PayloadsOf, Wire;
    SendableSlice(ps, a, b);
    NothingOnTheWire(ps[a..b]);
    NothingOnTheWire(ps[b..b]);
    var t := Pass(r, reaction);
    if r.head == 0 {
      assert r.recv[..0] == [];
      assert a == b;
    } else {
      var whole := r.recv[..r.head];
      UnpackWire(ps[a..b]);
      PayloadsOfOneMore(r.delivered[skip..], whole);
      assert t.delivered[skip..] == r.delivered[skip..] + [whole];
      assert ps[..a] + ps[a..b] == ps[..b];
      assert t.recv[..0] == [] && t.recv[0..] == t.recv;
    }
  }

  lemma NothingOnTheWire(ps: seq<bytes>)
    requires Sendable(ps)
    ensures Wire(ps) == [] <==> ps == []
  {
    hide MessageBytes;
  }

  // --- whole sessions -------------------------------------------------------------------------

  /** What happens to the receiver of an established connection. */
  datatype Input = Chunk(bs: bytes, reaction: Reaction) | InputProcessed(reaction: Reaction)

  function Step(r: Receiver, e: Input): Receiver
    requires r.head <= |r.recv|
  {
    match e
    case Chunk(bs, reaction) => Arrive(r, bs, reaction)
    case InputProcessed(reaction) => Processed(r, reaction)
  }

  lemma StepBounds(r: Receiver, e: Input)
    requires r.head <= |r.recv|
    ensures Step(r, e).head <= |Step(r, e).recv|
  {
    hide Scan;
    if e.Chunk? { ScanBounds(r.(recv := r.recv + e.bs)); }
  }

  function RunInputs(r: Receiver, es: seq<Input>): Receiver
    requires r.head <= |r.recv|
    decreases |es|
  {
    if es == [] then r
    else
      StepBounds(r, es[0]);
      RunInputs(Step(r, es[0]), es[1..])
  }

  function Received(es: seq<Input>): bytes {
    if es == [] then [] else (if es[0].Chunk? then es[0].bs else []) + Received(es[1..])
  }

  /** An idle caller has been given everything whole. */
  ghost predicate Settled(r: Receiver, ps: seq<bytes>, a: nat, b: nat)
    requires b <= |ps|
  {
    Scanned(r, ps, b) && (r.idle ==> a == b)
  }

  lemma StepTracks(r: Receiver, e: Input, skip: nat, ps: seq<bytes>, a: nat, b: nat, future: bytes)
    returns (a': nat, b': nat, future': bytes)
    requires Tracks(r, skip, ps, a, b, future) && Settled(r, ps, a, b)
    requires e.Chunk? ==> e.bs <= future
    ensures Tracks(Step(r, e), skip, ps, a', b', future') && Settled(Step(r, e), ps, a', b')
    ensures future == (if e.Chunk? then e.bs else []) + future'
  {
    hide Scan, Wire, Unpack, PayloadsOf;
    match e {
      case Chunk(bs, reaction) =>
        future' := future[|bs|..];
        var t := r.(recv := r.recv + bs);
        assert t.recv[..t.head] == r.recv[..r.head];
        assert t.recv[t.head..] + future' == r.recv[r.head..] + future by {
          assert t.recv[t.head..] == r.recv[r.head..] + bs;
          assert bs + future' == future;
        }
        a' := a;
        b' := ScanTracks(t, skip, ps, a, b, future');
        var s := Scan(t);
        ScanBounds(t);
        if s.idle {
          PassTracks(s, reaction, skip, ps, a, b', future');
          if s.head == 0 { assert Pass(s, reaction) == s; }
          a' := b';
        }
      case InputProcessed(reaction) =>
        PassTracks(r.(idle := true), reaction, skip, ps, a, b, future);
        a', b', future' := b, b, future;
    }
  }

  lemma {:induction false} RunTracks(r: Receiver, es: seq<Input>, skip: nat, ps: seq<bytes>, a: nat, b: nat,
                                     future: bytes)
    returns (a': nat, b': nat, future': bytes)
    requires Tracks(r, skip, ps, a, b, future) && Settled(r, ps, a, b)
    requires Received(es) <= future
    ensures Tracks(RunInputs(r, es), skip, ps, a', b', future') && Settled(RunInputs(r, es), ps, a', b')
    ensures future == Received(es) + future'
    decreases |es|
  {
    hide Tracks, Settled, Step;
    a', b', future' := a, b, future;
    if es != [] {
      TracksBounds(r, skip, ps, a, b, future);
      StepBounds(r, es[0]);
      var head, tail := if es[0].Chunk? then es[0].bs else [], Received(es[1..]);
      PrefixOfPrefix(head, tail, future);
      a', b', future' := StepTracks(r, es[0], skip, ps, a, b, future);
      assert future' == future[|head|..];
      a', b', future' := RunTracks(Step(r, es[0]), es[1..], skip, ps, a', b', future');
      assert head + (tail + future') == head + tail + future';
    }
  }

  lemma PrefixOfPrefix(head: bytes, tail: bytes, s: bytes)
    requires head + tail <= s
    ensures head <= s && tail <= s[|head|..]
  {
    assert s[..|head|] == (head + tail)[..|head|];
    assert s[|head|..][..|tail|] == (head + tail)[|head|..];
  }

  lemma TracksBounds(r: Receiver, skip: nat, ps: seq<bytes>, a: nat, b: nat, future: bytes)
    requires Tracks(r, skip, ps, a, b, future)
    ensures r.head <= |r.recv|
  {
    hide Wire, PayloadsOf;
  }

  /** How many leading messages n received bytes complete. */
  function Complete(ps: seq<bytes>, n: nat): (m: nat)
    ensures m <= |ps|
    decreases |ps|
  {
    if ps == [] || n < 5 + |ps[0]| then 0 else 1 + Complete(ps[1..], n - 5 - |ps[0]|)
  }

  lemma {:induction false} CompleteIs(ps: seq<bytes>, b: nat, k: nat)
    requires Sendable(ps) && b <= |ps| && (if b == |ps| then k == 0 else k < 5 + |ps[b]|)
    ensures Sendable(ps[..b]) && Complete(ps, |Wire(ps[..b])| + k) == b
    decreases b
  {
    if b > 0 {
      hide MessageBytes;
      assert ps[0] in ps && ps[..b][0] == ps[0] && ps[..b][1..] == ps[1..][..b - 1];
      CompleteIs(ps[1..], b - 1, k);
    }
  }

  /** Where a session starts; the caller may still be busy with the previous one. */
  ghost predicate Fresh(r: Receiver) {
    r.recv == [] && r.head == 0 && r.detected == 0 && r.handler
  }

  lemma FreshTracks(r: Receiver, ps: seq<bytes>)
    requires Fresh(r) && Sendable(ps)
    ensures Tracks(r, |r.delivered|, ps, 0, 0, Wire(ps)) && Settled(r, ps, 0, 0)
  {
    hide Unpack;
    assert r.delivered[|r.delivered|..] == [];
    assert ps[0..0] == [] && ps[0..] == ps && r.recv[0..] + Wire(ps) == Wire(ps) && ps[..0] == [];
    assert Wire([]) == [];
  }

  lemma TracksLeft(r: Receiver, skip: nat, ps: seq<bytes>, a: nat, b: nat, future: bytes)
    requires Tracks(r, skip, ps, a, b, future)
    ensures Sendable(ps[b..]) && |r.recv| - r.head + |future| == |Wire(ps[b..])|
  {
    hide Wire, PayloadsOf, Unpack;
    var s := r.recv[r.head..];
    assert |s + future| == |s| + |future|;
  }

  lemma CountsReceived(ps: seq<bytes>, b: nat, left: nat, received: nat, future: nat)
    requires b <= |ps| && Sendable(ps) && Sendable(ps[b..])
    requires if b == |ps| then left == 0 else left < 5 + |ps[b]|
    requires |Wire(ps)| == received + future && left + future == |Wire(ps[b..])|
    ensures Complete(ps, received) == b
  {
    hide Wire, Complete;
    WireCut(ps, b);
    CompleteIs(ps, b, left);
  }

  lemma WireCut(ps: seq<bytes>, b: nat)
    requires Sendable(ps) && b <= |ps|
    ensures Sendable(ps[..b]) && Sendable(ps[b..]) && |Wire(ps)| == |Wire(ps[..b])| + |Wire(ps[b..])|
  {
    hide Wire;
    WireAppend(ps[..b], ps[b..]);
    assert ps[..b] + ps[b..] == ps;
  }

  /** For every list of messages, every way the network cuts their bytes into chunks and every timing
      of the caller's input_processed(): the payloads taken from the buffers handed over are the first
      messages, in order, none lost, split or repeated; and while the caller is idle they are exactly
      the messages complete in the bytes received, however those were cut. */
  lemma ChunkingDoesNotMatter(r: Receiver, es: seq<Input>, ps: seq<bytes>)
    requires Fresh(r) && Sendable(ps) && Received(es) <= Wire(ps)
    ensures var t := RunInputs(r, es);
            |r.delivered| <= |t.delivered| &&
            var u := PayloadsOf(t.delivered[|r.delivered|..]);
            u.whole && u.payloads <= ps && |u.payloads| <= Complete(ps, |Received(es)|) &&
            (t.idle ==> |u.payloads| == Complete(ps, |Received(es)|))
  {
    hide Wire, PayloadsOf, Unpack, Complete, RunInputs, Received;
    FreshTracks(r, ps);
    var a, b, future := RunTracks(r, es, |r.delivered|, ps, 0, 0, Wire(ps));
    var t := RunInputs(r, es);
    TracksLeft(t, |r.delivered|, ps, a, b, future);
    CountsReceived(ps, b, |t.recv| - t.head, |Received(es)|, |future|);
  }

  /** When all has arrived and the caller is idle, it has taken exactly the messages sent. */
  lemma EveryMessageArrives(r: Receiver, es: seq<Input>, ps: seq<bytes>)
    requires Fresh(r) && Sendable(ps) && Received(es) == Wire(ps) && RunInputs(r, es).idle
    ensures var t := RunInputs(r, es);
            |r.delivered| <= |t.delivered| && PayloadsOf(t.delivered[|r.delivered|..]) == Unpacked(ps, true)
  {
    hide Wire, PayloadsOf, Unpack, RunInputs, Received;
    ChunkingDoesNotMatter(r, es, ps);
    assert ps[..|ps|] == ps;
    CompleteIs(ps, |ps|, 0);
  }

  // --- ownership and progress -----------------------------------------------------------------

  /** Between on_response and input_processed() no arrival touches the caller's buffer or hands over
      another one. */
  lemma BusyCallerOwnsInput(r: Receiver, chunk: bytes, reaction: Reaction)
    requires r.head <= |r.recv| && !r.idle
    ensures var t := Arrive(r, chunk, reaction);
            t.input == r.input && t.delivered == r.delivered && !t.idle
  {
    hide Scan;
    ScanBounds(r.(recv := r.recv + chunk));
  }

  /** A hand-over, when there is one, ends with the caller's buffer: it is what on_response was given last, and
      the caller is busy with it exactly if it keeps it. Without on_response nothing is handed over. */
  lemma HandedOver(r: Receiver, e: Input)
    requires r.head <= |r.recv|
    ensures var t := Step(r, e);
            t.handler == r.handler &&
            if t.delivered == r.delivered then t.idle == (r.idle || e.InputProcessed?)
            else r.handler && (r.idle || e.InputProcessed?) && t.head == 0 && t.input != [] &&
                 t.delivered == r.delivered + [t.input] && (t.idle <==> e.reaction.Release?)
    ensures !r.handler ==> var t := Step(r, e); t.delivered == r.delivered && (r.input == [] ==> t.input == [])
  {
    hide Scan;
    if e.Chunk? { ScanBounds(r.(recv := r.recv + e.bs)); }
    var t := Step(r, e);
    if t.delivered != r.delivered { assert |t.delivered| == |r.delivered| + 1; }
  }

  /** While the caller is busy its buffer is the one handed over last. */
  ghost predicate Holds(r: Receiver) {
    !r.idle ==> r.delivered != [] && r.input == r.delivered[|r.delivered| - 1]
  }

  lemma StepHolds(r: Receiver, e: Input)
    requires r.head <= |r.recv| && Holds(r)
    ensures Holds(Step(r, e))
  {
    if e.Chunk? && !r.idle { BusyCallerOwnsInput(r, e.bs, e.reaction); }
    HandedOver(r, e);
    hide Step;
  }

  lemma {:induction false} RunHolds(r: Receiver, es: seq<Input>)
    requires r.head <= |r.recv| && Holds(r)
    ensures Holds(RunInputs(r, es))
    decreases |es|
  {
    hide Step, Holds;
    if es != [] {
      StepBounds(r, es[0]);
      StepHolds(r, es[0]);
      RunHolds(Step(r, es[0]), es[1..]);
    }
  }

  /** Every buffer is done with before on_response returns. */
  ghost predicate Prompt(es: seq<Input>) {
    forall e | e in es :: e.reaction.Release?
  }

  lemma {:induction false} PromptCallerIsIdle(r: Receiver, es: seq<Input>)
    requires r.head <= |r.recv| && r.idle && Prompt(es)
    ensures RunInputs(r, es).idle
    decreases |es|
  {
    hide Step;
    if es != [] {
      assert es[0] in es && forall e | e in es[1..] :: e in es;
      StepBounds(r, es[0]);
      HandedOver(r, es[0]);
      PromptCallerIsIdle(Step(r, es[0]), es[1..]);
    }
  }

  /** So a prompt caller has been given every message as soon as it has arrived; and a caller of any kind, once
      it has said input_processed() and is prompt about what that hands over. */
  lemma PromptCallerGetsAll(r: Receiver, es: seq<Input>, ps: seq<bytes>)
    requires Fresh(r) && Sendable(ps) && Received(es) == Wire(ps)
    requires (r.idle && Prompt(es)) || (es != [] && es[|es| - 1] == InputProcessed(Release))
    ensures var t := RunInputs(r, es);
            t.idle && |r.delivered| <= |t.delivered| && PayloadsOf(t.delivered[|r.delivered|..]) == Unpacked(ps, true)
  {
    hide Wire, PayloadsOf, Unpack, RunInputs, Received;
    if r.idle && Prompt(es) { PromptCallerIsIdle(r, es); } else { LastReleases(r, es); }
    EveryMessageArrives(r, es, ps);
  }

  lemma {:induction false} LastReleases(r: Receiver, es: seq<Input>)
    requires r.head <= |r.recv| && es != [] && es[|es| - 1] == InputProcessed(Release)
    ensures RunInputs(r, es).idle
    decreases |es|
  {
    hide Step;
    StepBounds(r, es[0]);
    if |es| == 1 {
      HandedOver(r, es[0]);
      assert es[1..] == [];
    } else {
      LastReleases(Step(r, es[0]), es[1..]);
    }
  }

  /** A round of the scan advances by at least five bytes, except past a 64-bit head so large that
      adding the five wraps around. */
  lemma RoundAdvances(s: bytes)
    requires |s| >= 5 && HeadSize(s).Some?
    ensures HeadSize(s).value >= 5 <==> !(s[0] == 0xcf && LenField(s + [0, 0, 0, 0], 8) >= U64 - 5)
  {
    hide FromBigEndian;
    Pow256Widths();
  }

  /** A 64-bit head whose announced size wraps to zero. */
  ghost predicate Wraps(s: bytes) {
    |s| >= 9 && s[0] == 0xcf && LenField(s, 8) == U64 - 5
  }

  lemma WrapsToZero(s: bytes, t: bytes)
    requires Wraps(s)
    ensures Wraps(s + t) && HeadSize(s) == Some(0)
  {
    hide FromBigEndian;
    assert (s + t)[1..9] == s[1..9] && (s + [0, 0, 0, 0])[1..9] == s[1..9];
  }

  /** Zero means "size unknown" to the scanner. Whatever follows such a head, whatever arrives later and
      whatever the caller does, it stays where it is and all later bytes pile up behind it: nothing is
      found whole again, and no error is raised. */
  lemma {:induction false} WrappedSizeStalls(r: Receiver, es: seq<Input>)
    requires r.head <= |r.recv| && r.detected == 0 && Wraps(r.recv[r.head..])
    ensures var t := RunInputs(r, es);
            t.head <= |t.recv| && t.detected == 0 && t.recv[t.head..] == r.recv[r.head..] + Received(es) &&
            (t.delivered == r.delivered || t.delivered == r.delivered + [r.recv[..r.head]])
    decreases |es|
  {
    hide Wraps, Step;
    if es == [] {
      assert r.recv[r.head..] + [] == r.recv[r.head..];
    } else {
      StepBounds(r, es[0]);
      var t := Step(r, es[0]);
      StalledStep(r, es[0]);
      WrappedSizeStalls(t, es[1..]);
      var bs := if es[0].Chunk? then es[0].bs else [];
      assert r.recv[r.head..] + bs + Received(es[1..]) == r.recv[r.head..] + (bs + Received(es[1..]));
      if t.head == 0 { StalledAtFront(t, es[1..]); }
    }
  }

  lemma StalledStep(r: Receiver, e: Input)
    requires r.head <= |r.recv| && r.detected == 0 && Wraps(r.recv[r.head..])
    ensures var t := Step(r, e);
            t.head <= |t.recv| && t.detected == 0 && Wraps(t.recv[t.head..]) &&
            t.recv[t.head..] == r.recv[r.head..] + (if e.Chunk? then e.bs else []) &&
            ((t.head == r.head && t.delivered == r.delivered && t.recv[..t.head] == r.recv[..r.head]) ||
             (t.head == 0 && t.delivered == r.delivered + [r.recv[..r.head]]) ||
             (t.head == 0 && t.delivered == r.delivered))
  {
    hide HeadSize, Wraps;
    var s := r.recv[r.head..];
    var bs := if e.Chunk? then e.bs else [];
    var u := r.(recv := r.recv + bs);
    assert u.recv[u.head..] == s + bs && u.recv[..u.head] == r.recv[..r.head];
    WrapsToZero(s, bs);
    WrapsToZero(s + bs, []);
    assert |s + bs| >= 9 by { LongEnough(s + bs); }
    assert Scan(u) == u;
    assert u.recv[u.head..][0..] == u.recv[u.head..];
    assert r.recv + [] == r.recv && s + [] == s;
  }

  lemma LongEnough(s: bytes)
    requires Wraps(s)
    ensures |s| >= 9
  {
  }

  /** With nothing whole before it, nothing is delivered at all. */
  lemma {:induction false} StalledAtFront(r: Receiver, es: seq<Input>)
    requires r.head == 0 && r.detected == 0 && Wraps(r.recv)
    ensures RunInputs(r, es).delivered == r.delivered
    decreases |es|
  {
    hide Wraps, Step;
    assert r.recv[0..] == r.recv;
    if es != [] {
      StepBounds(r, es[0]);
      StalledStep(r, es[0]);
      StillNothing(r, es[0]);
      var t := Step(r, es[0]);
      assert t.recv[0..] == t.recv;
      StalledAtFront(t, es[1..]);
    }
  }

  lemma StillNothing(r: Receiver, e: Input)
    requires r.head == 0 && r.detected == 0 && Wraps(r.recv)
    ensures Step(r, e).head == 0 && Step(r, e).delivered == r.delivered
  {
    hide HeadSize, Wraps;
    var bs := if e.Chunk? then e.bs else [];
    var u := r.(recv := r.recv + bs);
    WrapsToZero(r.recv, bs);
    WrapsToZero(u.recv, []);
    LongEnough(u.recv);
    assert u.recv[0..] == u.recv;
    assert Scan(u) == u;
  }

  /** There is such a head. */
  lemma WrappingHead()
    ensures Wraps([0xcf, 255, 255, 255, 255, 255, 255, 255, 251])
  {
    var head: bytes := [0xcf, 255, 255, 255, 255, 255, 255, 255, 251];
    var s: bytes := [255, 255, 255, 255, 255, 255, 255, 251];
    assert head[1..9] == s;
    assert FromBigEndian([]) == 0;
    hide FromBigEndian;
    Last(s, 7, 251);
    Last(s, 6, 255);
    Last(s, 5, 255);
    Last(s, 4, 255);
    Last(s, 3, 255);
    Last(s, 2, 255);
    Last(s, 1, 255);
    Last(s, 0, 255);
    assert s[..8] == s && s[..0] == [];
  }

  lemma Last(s: bytes, i: nat, v: byte)
    requires i < |s| && s[i] == v
    ensures FromBigEndian(s[..i + 1]) == 256 * FromBigEndian(s[..i]) + v
  {
    assert s[..i + 1][..i] == s[..i];
  }

  /** A known head stalls, however many bytes may follow, exactly when its size wraps to zero. */
  lemma StallsExactly(r: Receiver)
    requires r.head + 9 <= |r.recv| && r.detected == 0 && HeadSize(r.recv[r.head..]).Some?
    ensures (forall chunk :: Scan(r.(recv := r.recv + chunk)).head == r.head) <==> Wraps(r.recv[r.head..])
  {
    hide HeadSize;
    var s := r.recv[r.head..];
    var n := HeadSize(s).value;
    ZeroOnlyWrapped(s);
    hide Wraps;
    forall chunk: bytes ensures HeadSize((r.recv + chunk)[r.head..]) == Some(n) && |(r.recv + chunk)[r.head..]| >= 9 {
      assert (r.recv + chunk)[r.head..] == s + chunk;
      HeadSizeKnown(s, chunk);
    }
    if n != 0 {
      var chunk: bytes := seq(n, i => 0);
      var u := r.(recv := r.recv + chunk);
      assert |u.recv| - u.head >= n;
      assert Scan(u) == Scan(u.(head := u.head + n, detected := 0));
      ScanBounds(u.(head := u.head + n, detected := 0));
    }
  }

  /** Nine bytes hold every head. */
  lemma HeadSizeKnown(s: bytes, t: bytes)
    requires |s| >= 9
    ensures HeadSize(s + t) == HeadSize(s)
  {
    hide FromBigEndian;
    if s[0] == 0xcf {
      assert (s + t + [0, 0, 0, 0])[1..9] == s[1..9] == (s + [0, 0, 0, 0])[1..9];
    } else {
      LongerHead(s, t);
    }
  }

  lemma ZeroOnlyWrapped(s: bytes)
    requires |s| >= 9 && HeadSize(s).Some?
    ensures HeadSize(s) == Some(0) <==> Wraps(s)
  {
    hide FromBigEndian;
    Pow256Widths();
    assert (s + [0, 0, 0, 0])[1..9] == s[1..9];
  }
}
