/** class iproto_writer: requests are messages whose length is stored when they are finalized. */
module IprotoWriters {
  import opened Bytes
  import opened MsgPack
  import opened Frames
  import opened Writer
  import opened MpWriters
  import opened Iproto

  class IprotoWriter {
    const mp: MpWriter
    var nextId: nat

    ghost predicate Valid()
      reads this, mp, mp.buf, mp.buf.store
    {
      mp.Valid() && nextId < U64
    }

    ghost function Abs(): State
      requires mp.buf.Valid()
      reads mp, mp.buf, mp.buf.store
    {
      mp.Abs()
    }

    constructor (mp: MpWriter, nextId: nat)
      requires mp.Valid() && nextId < U64
      ensures Valid() && this.mp == mp && this.nextId == nextId
    {
      this.mp := mp;
      this.nextId := nextId;
    }

    /** finalize: a message gets the exact number of bytes after its head, a container its count. */
    method Finalize() returns (outcome: Outcome)
      requires Valid()
      modifies mp`stack, mp.buf.store
      ensures Valid() && mp.buf.store == old(mp.buf.store) && mp.buf.size == old(mp.buf.size)
      ensures Writer.Finalize(old(Abs())) == Result(Abs(), outcome)
    {
      if mp.stack == [] { return NothingOpen; }
      hide FinalizeContainer;
      var c := mp.stack[|mp.stack| - 1];
      assert c in mp.stack;
      if c.head < mp.buf.size && mp.buf.store[c.head] == 0xce {
        outcome := FinalizeMessage();
      } else {
        outcome := mp.Finalize();
      }
    }

    method FinalizeMessage() returns (outcome: Outcome)
      requires Valid() && mp.stack != []
      requires var c := mp.stack[|mp.stack| - 1]; c.head < mp.buf.size && mp.buf.store[c.head] == 0xce
      modifies mp`stack, mp.buf.store
      ensures Valid() && mp.buf.store == old(mp.buf.store) && mp.buf.size == old(mp.buf.size)
      ensures Writer.Finalize(old(Abs())) == Result(Abs(), outcome)
    {
      hide FinalizeContainer, BigEndian, HeaderWidth, Splice;
      var c := mp.stack[|mp.stack| - 1];
      ghost var was := Abs();
      mp.stack := mp.stack[..|mp.stack| - 1];
      var size := mp.buf.size - c.head;
      assert Sound(Abs()) by { PopSound(was, was.buf); }
      if size > c.guess { return SizeExceeded; }
      if size < 5 { return Done; }
      mp.buf.Overwrite(c.head + 1, BigEndian(size - 5, 4));
      PopSound(was, Abs().buf);
      return Done;
    }

    method FinalizeAll() returns (outcome: Outcome)
      requires Valid()
      modifies mp`stack, mp.buf.store
      ensures Valid() && mp.buf.store == old(mp.buf.store) && mp.buf.size == old(mp.buf.size)
      ensures Writer.FinalizeAll(old(Abs())) == Result(Abs(), outcome)
    {
      hide Writer.Finalize;
      while mp.stack != []
        invariant Valid() && mp.buf.size == old(mp.buf.size)
        invariant Writer.FinalizeAll(old(Abs())) == Writer.FinalizeAll(Abs())
        decreases |mp.stack|
      {
        ghost var w := Abs();
        var o := Finalize();
        if o != Done { return o; }
        FinalizePops(w);
      }
      return Done;
    }

    /** The kilobyte start_message wants is there or can be had. */
    ghost predicate HasRoom()
      requires mp.buf.Valid()
      reads mp.buf
    {
      mp.buf.growable || mp.buf.Available() >= 1024
    }

    /** start_message: whatever is open is finalized, a kilobyte is reserved, the head is placed. */
    method StartMessage() returns (outcome: Outcome, ghost junk: bytes)
      requires Valid()
      modifies mp`stack, mp.buf, mp.buf.store
      ensures Valid() && (mp.buf.store == old(mp.buf.store) || fresh(mp.buf.store))
      ensures |junk| == 4 && StartIn(old(Abs()), junk, old(HasRoom())) == Result(Abs(), outcome)
      ensures outcome == Done ==> mp.buf.Available() + 5 >= 1024 && mp.buf.Available() + 5 >= old(mp.buf.Available())
    {
      hide Writer.FinalizeAll;
      junk := [0, 0, 0, 0];
      outcome := FinalizeAll();
      if outcome != Done { return; }
      assert mp.stack == [] by { Emptied(old(Abs())); }
      if mp.buf.Capacity() - mp.buf.size < 1024 {
        var ok := mp.buf.Reserve(mp.buf.Capacity() + 1024);
        if !ok { return NoSpace, junk; }
      }
      ghost var was := mp.buf.Contents();
      mp.stack := [Meta(mp.buf.size, U32 - 1, 0)];
      mp.buf.Append([0xce]);
      junk := mp.buf.store[mp.buf.size..mp.buf.size + 4];
      mp.buf.size := mp.buf.size + 4;
      assert mp.buf.Contents() == was + [0xce] + junk;
    }

    /** Bytes msgpuck stores at the end without counting items. */
    method Raw(bs: bytes)
      requires Valid() && |bs| <= mp.buf.Available()
      modifies mp.buf, mp.buf.store
      ensures Valid() && mp.buf.store == old(mp.buf.store)
      ensures Abs() == State(old(Abs()).buf + bs, old(mp.stack))
    {
      ghost var was := Abs();
      mp.buf.Append(bs);
      assert Sound(Abs()) by { assert forall m | m in was.stack :: m.head + HeaderWidth(m.guess) <= |was.buf|; }
    }

    method NextRequestId() returns (id: nat)
      requires nextId < U64
      modifies this`nextId
      ensures id == old(nextId) && nextId == (id + 1) % U64
    {
      id := nextId;
      nextId := (nextId + 1) % U64;
    }

    /** encode_request_header: the message is left open for its body. */
    method EncodeRequestHeader(code: byte) returns (outcome: Outcome, ghost junk: bytes)
      requires Valid()
      modifies this`nextId, mp`stack, mp.buf, mp.buf.store
      ensures Valid() && (mp.buf.store == old(mp.buf.store) || fresh(mp.buf.store)) && |junk| == 4
      ensures var r := StartIn(old(Abs()), junk, old(HasRoom()));
              outcome == r.outcome &&
              Abs() == if outcome != Done then r.state
                       else State(r.state.buf + RequestHead(code, old(nextId)), r.state.stack)
      ensures outcome == Done ==> mp.buf.Available() + 5 + |RequestHead(code, old(nextId))| >= 1024 &&
                                  mp.buf.Available() + 5 + |RequestHead(code, old(nextId))| >= old(mp.buf.Available())
    {
      hide StartIn, EncodeUInt, RequestHead;
      outcome, junk := StartMessage();
      if outcome != Done { return; }
      HeadFits(code, nextId);
      ghost var w := Abs();
      var id := NextRequestId();
      assert Valid() && Abs() == w;
      Raw(RequestHead(code, id));
      assert Abs() == State(w.buf + RequestHead(code, id), w.stack);
    }

    /** finalize of a request whose header and body are complete. */
    method Finish(ghost start: bytes, ghost junk: bytes, ghost payload: bytes) returns (outcome: Outcome)
      requires Valid() && |junk| == 4 && |payload| + 5 < U32
      requires Abs() == State(start + [0xce] + junk + payload, [Meta(|start|, U32 - 1, 0)])
      modifies mp`stack, mp.buf.store
      ensures Valid() && mp.buf.store == old(mp.buf.store)
      ensures outcome == Done && Abs() == State(start + MessageBytes(payload), [])
    {
      Seal(start, junk, payload, 0);
      hide Writer.Finalize, MessageBytes;
      outcome := Finalize();
    }

    /** The map encode_id_request writes after the header, piece by piece. */
    method WriteIdBody(p: ProtoId)
      requires Valid() && p.version < U64 && |p.auth| < U32 && |IdBody(p)| <= mp.buf.Available()
      modifies mp.buf, mp.buf.store
      ensures Valid() && mp.buf.store == old(mp.buf.store)
      ensures Abs() == State(old(Abs()).buf + IdBody(p), old(mp.stack))
    {
      ghost var was := Abs().buf;
      var features := ListFeatures(p);
      IdBodyParts(p);
      hide EncodeUInt, EncodeStr, Header, FeaturePart, Sound, IdBody, Pair, Below;
      Raw(Header(true, 1, DeclaredPairs(p)));
      ghost var b1 := Abs().buf;
      if p.version != 0 { Raw(Pair(VERSION, EncodeUInt(p.version))); }
      assert Abs().buf == b1 + VersionPart(p) by { assert b1 + [] == b1; }
      WriteFeatures(features, |AuthPart(p)|);
      ghost var b3 := Abs().buf;
      if p.auth != [] { Raw(Pair(AUTH_TYPE, EncodeStr(p.auth))); }
      assert Abs().buf == b3 + AuthPart(p) by { assert b3 + [] == b3; }
      hide VersionPart, AuthPart;
      Assemble(was, Header(true, 1, DeclaredPairs(p)), VersionPart(p), FeaturePart(features), AuthPart(p));
    }

    method WriteFeatures(features: seq<byte>, ghost spare: nat)
      requires Valid() && |features| <= FEATURE_INVALID && |FeaturePart(features)| + spare <= mp.buf.Available()
      modifies mp.buf, mp.buf.store
      ensures Valid() && mp.buf.store == old(mp.buf.store)
      ensures Abs() == State(old(Abs()).buf + FeaturePart(features), old(mp.stack))
    {
      hide EncodeUInt, Header, Sound;
      ghost var was := Abs().buf;
      var h := EncodeUInt(FEATURES) + Header(false, 1, |features|);
      assert FeaturePart(features) == h + Numbers(features);
      Raw(h);
      assert features[..|features|] == features;
      for i := 0 to |features|
        invariant Valid() && mp.buf.store == old(mp.buf.store)
        invariant Abs() == State(was + h + Numbers(features[..i]), old(mp.stack))
      {
        NumbersGrow(features, i);
        assert was + h + (Numbers(features[..i]) + EncodeUInt(features[i])) ==
               was + h + Numbers(features[..i]) + EncodeUInt(features[i]);
        Raw(EncodeUInt(features[i]));
      }
      assert was + h + Numbers(features) == was + (h + Numbers(features));
    }

    /** encode_id_request, the first request of every session. */
    method EncodeIdRequest(p: ProtoId) returns (outcome: Outcome)
      requires Valid() && p.version < U64 && |p.auth| < U32
      requires |IdMessage(nextId, p)| + 5 <= 1024 ||
               (|IdMessage(nextId, p)| + 5 <= mp.buf.Available() && |IdMessage(nextId, p)| + 5 < U32)
      modifies this`nextId, mp`stack, mp.buf, mp.buf.store
      ensures Valid() && (mp.buf.store == old(mp.buf.store) || fresh(mp.buf.store))
      ensures outcome == StartIn(old(Abs()), [], old(HasRoom())).outcome
      ensures outcome != Done ==> Abs() == Writer.FinalizeAll(old(Abs())).state
      ensures outcome == Done ==>
        Abs() == State(Writer.FinalizeAll(old(Abs())).state.buf + MessageBytes(IdMessage(old(nextId), p)), [])
    {
      hide Writer.FinalizeAll, MessageBytes, RequestHead, IdBody;
      ghost var start := Writer.FinalizeAll(Abs()).state.buf;
      ghost var id := nextId;
      ghost var junk;
      outcome, junk := EncodeRequestHeader(REQUEST_ID);
      if outcome != Done { return; }
      WriteIdBody(p);
      assert start + [0xce] + junk + RequestHead(REQUEST_ID, id) + IdBody(p) ==
             start + [0xce] + junk + IdMessage(id, p);
      outcome := Finish(start, junk, IdMessage(id, p));
    }

    /** encode_ping_request */
    method EncodePing() returns (outcome: Outcome)
      requires Valid()
      modifies this`nextId, mp`stack, mp.buf, mp.buf.store
      ensures Valid() && (mp.buf.store == old(mp.buf.store) || fresh(mp.buf.store))
      ensures outcome == StartIn(old(Abs()), [], old(HasRoom())).outcome
      ensures outcome != Done ==> Abs() == Writer.FinalizeAll(old(Abs())).state
      ensures outcome == Done ==>
        Abs() == State(Writer.FinalizeAll(old(Abs())).state.buf + MessageBytes(PingMessage(old(nextId))), [])
    {
      HeadFits(REQUEST_PING, nextId);
      hide Writer.FinalizeAll, MessageBytes, RequestHead;
      ghost var start := Writer.FinalizeAll(Abs()).state.buf;
      ghost var id := nextId;
      ghost var junk;
      outcome, junk := EncodeRequestHeader(REQUEST_PING);
      if outcome != Done { return; }
      Raw(Header(true, 1, 0));
      assert start + [0xce] + junk + RequestHead(REQUEST_PING, id) + Header(true, 1, 0) ==
             start + [0xce] + junk + PingMessage(id);
      outcome := Finish(start, junk, PingMessage(id));
    }

    /** begin_call and begin_eval: everything but the argument array, message left open. */
    method BeginInvocation(code: byte, key: nat, name: bytes) returns (outcome: Outcome, ghost junk: bytes)
      requires Valid() && key < U64 && |name| < U32
      requires |InvocationPrefix(code, nextId, key, name)| + 5 <= 1024 ||
               |InvocationPrefix(code, nextId, key, name)| + 5 <= mp.buf.Available()
      modifies this`nextId, mp`stack, mp.buf, mp.buf.store
      ensures Valid() && (mp.buf.store == old(mp.buf.store) || fresh(mp.buf.store)) && |junk| == 4
      ensures var r := StartIn(old(Abs()), junk, old(HasRoom()));
              outcome == r.outcome &&
              Abs() == if outcome != Done then r.state
                       else State(r.state.buf + InvocationPrefix(code, old(nextId), key, name), r.state.stack)
    {
      hide StartIn, RequestHead, Pair, EncodeUInt, EncodeStr;
      ghost var id := nextId;
      outcome, junk := EncodeRequestHeader(code);
      if outcome != Done { return; }
      ghost var head := Abs().buf;
      var body := Header(true, 1, 2) + (Pair(key, EncodeStr(name)) + EncodeUInt(TUPLE));
      Raw(body);
      ghost var start := StartIn(old(Abs()), junk, old(HasRoom())).state.buf;
      assert start + RequestHead(code, id) + body == start + (RequestHead(code, id) + body);
    }

    method BeginCall(name: bytes) returns (outcome: Outcome, ghost junk: bytes)
      requires Valid() && |name| < U32
      requires |InvocationPrefix(REQUEST_CALL, nextId, FUNCTION_NAME, name)| + 5 <= 1024 ||
               |InvocationPrefix(REQUEST_CALL, nextId, FUNCTION_NAME, name)| + 5 <= mp.buf.Available()
      modifies this`nextId, mp`stack, mp.buf, mp.buf.store
      ensures Valid() && (mp.buf.store == old(mp.buf.store) || fresh(mp.buf.store)) && |junk| == 4
      ensures var r := StartIn(old(Abs()), junk, old(HasRoom()));
              outcome == r.outcome &&
              Abs() == if outcome != Done then r.state
                       else State(r.state.buf + InvocationPrefix(REQUEST_CALL, old(nextId), FUNCTION_NAME, name),
                                  r.state.stack)
    {
      outcome, junk := BeginInvocation(REQUEST_CALL, FUNCTION_NAME, name);
    }

    method BeginEval(script: bytes) returns (outcome: Outcome, ghost junk: bytes)
      requires Valid() && |script| < U32
      requires |InvocationPrefix(REQUEST_EVAL, nextId, EXPRESSION, script)| + 5 <= 1024 ||
               |InvocationPrefix(REQUEST_EVAL, nextId, EXPRESSION, script)| + 5 <= mp.buf.Available()
      modifies this`nextId, mp`stack, mp.buf, mp.buf.store
      ensures Valid() && (mp.buf.store == old(mp.buf.store) || fresh(mp.buf.store)) && |junk| == 4
      ensures var r := StartIn(old(Abs()), junk, old(HasRoom()));
              outcome == r.outcome &&
              Abs() == if outcome != Done then r.state
                       else State(r.state.buf + InvocationPrefix(REQUEST_EVAL, old(nextId), EXPRESSION, script),
                                  r.state.stack)
    {
      outcome, junk := BeginInvocation(REQUEST_EVAL, EXPRESSION, script);
    }
  }

  lemma Assemble(was: bytes, h: bytes, v: bytes, f: bytes, a: bytes)
    ensures was + h + v + f + a == was + (h + (v + f + a))
  {
  }

  lemma IdBodyParts(p: ProtoId)
    requires p.version < U64 && |p.auth| < U32
    ensures IdBody(p) == Header(true, 1, DeclaredPairs(p)) +
                         (VersionPart(p) + FeaturePart(Below(p.features, FEATURE_INVALID)) + AuthPart(p))
    ensures |IdBody(p)| == 1 + |VersionPart(p)| + |FeaturePart(Below(p.features, FEATURE_INVALID))| + |AuthPart(p)|
  {
    hide VersionPart, FeaturePart, AuthPart;
  }

  lemma NumbersGrow(fs: seq<byte>, i: nat)
    requires i < |fs|
    ensures Numbers(fs[..i + 1]) == Numbers(fs[..i]) + EncodeUInt(fs[i])
    ensures |Numbers(fs[..i + 1])| <= |Numbers(fs)|
    decreases |fs| - i
  {
    hide EncodeUInt;
    assert fs[..i + 1][..i] == fs[..i];
    if i + 1 < |fs| { NumbersGrow(fs, i + 1); } else { assert fs[..i + 1] == fs; }
  }

  /** What begin_call and begin_eval leave in the message: a body map waiting for its second value. */
  function InvocationPrefix(code: byte, sync: nat, key: nat, name: bytes): bytes
    requires sync < U64 && key < U64 && |name| < U32
  {
    RequestHead(code, sync) + (Header(true, 1, 2) + (Pair(key, EncodeStr(name)) + EncodeUInt(TUPLE)))
  }

  lemma HeadFits(code: byte, sync: nat)
    requires sync < U64
    ensures |RequestHead(code, sync)| <= 14
  {
  }

  lemma FinalizePops(w: State)
    requires w.stack != []
    ensures |Writer.Finalize(w).state.stack| == |w.stack| - 1
  {
    hide FinalizeContainer;
    Popped(w);
  }

  lemma Emptied(w: State)
    requires Writer.FinalizeAll(w).outcome == Done
    ensures Writer.FinalizeAll(w).state.stack == []
  {
  }

  /** Finalizing an open message with nothing open inside turns it into its wire image. */
  lemma Seal(start: bytes, junk: bytes, payload: bytes, items: u32)
    requires |junk| == 4
    ensures var r := Writer.Finalize(State(start + [0xce] + junk + payload, [Meta(|start|, U32 - 1, items)]));
            if |payload| + 5 < U32 then r == Result(State(start + MessageBytes(payload), []), Done)
            else r.outcome == SizeExceeded
  {
    hide FinalizeContainer, BigEndian;
    var buf := start + [0xce] + junk + payload;
    assert buf[|start|] == 0xce;
    if |payload| + 5 < U32 {
      var n := BigEndian(|payload|, 4);
      assert buf[..|start| + 1] == start + [0xce];
      assert buf[|start| + 5..] == payload;
      assert Splice(buf, |start| + 1, n) == start + [0xce] + n + payload;
      assert start + [0xce] + n + payload == start + ([0xce] + n + payload);
    }
  }
}
