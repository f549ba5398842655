/** iproto messages on the wire, and mp_reader::iproto_message, which takes them off again. */
module Frames {
  import opened Bytes
  import opened MsgPack

  /** An iproto message: 0xce, the payload's length in 32 bits, the payload. */
  function MessageBytes(payload: bytes): (b: bytes)
    requires |payload| < U32
    ensures |b| == 5 + |payload|
  {
    [0xce] + BigEndian(|payload|, 4) + payload
  }

  ghost predicate Sendable(ps: seq<bytes>) {
    forall p | p in ps :: |p| < U32
  }

  /** The wire image of a list of messages. */
  function Wire(ps: seq<bytes>): bytes
    requires Sendable(ps)
  {
    if ps == [] then [] else MessageBytes(ps[0]) + Wire(ps[1..])
  }

  datatype Taken =
    | Nothing                              // fewer than five bytes: an empty reader
    | WrongHead                            // mp_reader_error: the head is not 0xce
    | Partial                              // mp_reader_error: the payload is not complete
    | Message(payload: bytes, rest: bytes)

  /** mp_reader::iproto_message */
  function TakeMessage(s: bytes): (t: Taken)
    ensures t.Message? ==> |t.rest| < |s|
  {
    if |s| < 5 then Nothing
    else if s[0] != 0xce then WrongHead
    else
      var n := LenField(s, 4);
      if |s| - 5 < n then Partial else Message(s[5..5 + n], s[5 + n..])
  }

  /** Payloads taken one after another, and whether that used up every byte. */
  datatype Unpacked = Unpacked(payloads: seq<bytes>, whole: bool)

  function Unpack(s: bytes): (u: Unpacked)
    decreases |s|
  {
    if s == [] then Unpacked([], true)
    else match TakeMessage(s)
      case Message(p, rest) => var u := Unpack(rest); Unpacked([p] + u.payloads, u.whole)
      case _ => Unpacked([], false)
  }

  lemma MessageParts(payload: bytes, t: bytes)
    requires |payload| < U32
    ensures var s := MessageBytes(payload) + t;
            s[0] == 0xce && LenField(s, 4) == |payload| &&
            s[5..5 + |payload|] == payload && s[5 + |payload|..] == t
    ensures TakeMessage(MessageBytes(payload) + t) == Message(payload, t)
  {
    hide BigEndian, FromBigEndian, Pow256;
    var s := MessageBytes(payload) + t;
    assert s[1..5] == BigEndian(|payload|, 4);
    Pow256Widths();
    BigEndianRoundTrip(|payload|, 4);
  }

  /** A complete message is the same message whatever follows it. */
  lemma TakeMessageExtend(s: bytes, t: bytes)
    requires TakeMessage(s).Message?
    ensures TakeMessage(s + t) == Message(TakeMessage(s).payload, TakeMessage(s).rest + t)
  {
    hide FromBigEndian;
    var n := LenField(s, 4);
    assert (s + t)[1..5] == s[1..5];
    assert (s + t)[5..5 + n] == s[5..5 + n];
    assert (s + t)[5 + n..] == s[5 + n..] + t;
  }

  lemma {:induction false} WireAppend(ps: seq<bytes>, qs: seq<bytes>)
    requires Sendable(ps) && Sendable(qs)
    ensures Sendable(ps + qs) && Wire(ps + qs) == Wire(ps) + Wire(qs)
  {
    if ps == [] {
      assert ps + qs == qs;
      assert Wire(ps) + Wire(qs) == Wire(qs);
    } else {
      hide MessageBytes;
      assert (ps + qs)[1..] == ps[1..] + qs;
      WireAppend(ps[1..], qs);
      assert MessageBytes(ps[0]) + Wire(ps[1..]) + Wire(qs) == MessageBytes(ps[0]) + (Wire(ps[1..]) + Wire(qs));
    }
  }

  /** Taking messages off the wire gives back exactly the payloads put on it. */
  lemma {:induction false} UnpackWire(ps: seq<bytes>)
    requires Sendable(ps)
    ensures Unpack(Wire(ps)) == Unpacked(ps, true)
  {
    if ps != [] {
      hide MessageBytes, TakeMessage;
      MessageParts(ps[0], Wire(ps[1..]));
      assert |MessageBytes(ps[0])| >= 5;
      assert Wire(ps) != [];
      UnpackWire(ps[1..]);
    }
  }

  lemma TakenIsWire(s: bytes)
    requires TakeMessage(s).Message?
    ensures var t := TakeMessage(s); |t.payload| < U32 && s == MessageBytes(t.payload) + t.rest
  {
    hide BigEndian, FromBigEndian, Pow256;
    var t := TakeMessage(s);
    Pow256Widths();
    BigEndianInverse(s[1..5]);
    assert s == [s[0]] + s[1..5] + s[5..5 + |t.payload|] + s[5 + |t.payload|..];
  }

  /** Only wire images unpack completely. */
  lemma {:induction false} UnpackedIsWire(s: bytes)
    requires Unpack(s).whole
    ensures Sendable(Unpack(s).payloads) && Wire(Unpack(s).payloads) == s
    decreases |s|
  {
    if s != [] {
      hide TakeMessage, MessageBytes;
      TakenIsWire(s);
      UnpackedIsWire(TakeMessage(s).rest);
      var u := Unpack(TakeMessage(s).rest);
      assert Unpack(s).payloads[1..] == u.payloads;
    }
  }
}
