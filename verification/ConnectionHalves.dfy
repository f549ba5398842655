/**
 The two halves of class connection, fields updated in place: what it sends and what it receives. `model`
 is the value of the fields with the history the theorems look at; the receiving capacities are kept here.
 */
module ConnectionHalves {
  import opened Bytes
  import opened Sending
  import opened Receiving
  import opened Connections

  /** The send buffer, the output buffer, the cursor and the flush mark. */
  class SendSide {
    var sendBuffer: bytes
    var sendRoom: nat
    var nextToSend: nat
    var outputBuffer: bytes
    var outputRoom: nat
    var uncorkedSize: nat
    ghost var model: Sender

    ghost predicate Valid()
      reads this
    {
      sendBuffer == model.send && sendRoom == model.sendRoom && nextToSend == model.next &&
      outputBuffer == model.out && outputRoom == model.outRoom && uncorkedSize == model.uncorked
    }

    constructor (room: nat)
      ensures Valid() && model == Sender([], room, 0, [], room, 0, [], false)
    {
      sendBuffer, sendRoom, nextToSend, outputBuffer, outputRoom, uncorkedSize := [], room, 0, [], room, 0;
      model := Sender([], room, 0, [], room, 0, [], false);
    }

    /** bytes_to_send */
    method BytesToSend() returns (n: nat)
      requires Valid() && nextToSend <= |sendBuffer|
      ensures n == Sending.BytesToSend(model)
    {
      n := |sendBuffer| - nextToSend + uncorkedSize;
    }

    /** The caller's append through output_buffer(), space reserved. */
    method Append(bs: bytes)
      requires Valid()
      modifies this
      ensures Valid() && model == Sending.Append(old(model), bs)
    {
      if outputRoom < |outputBuffer| + |bs| { outputRoom := |outputBuffer| + |bs|; }
      outputBuffer := outputBuffer + bs;
      model := Sending.Append(model, bs);
    }

    /** The flush mark moves to the end of the output buffer. */
    method Uncork()
      requires Valid()
      modifies this
      ensures Valid() && model == old(model).(uncorked := |old(model).out|)
    {
      uncorkedSize := |outputBuffer|;
      model := model.(uncorked := |model.out|);
    }

    /** In flush(): the drained send buffer and the output buffer trade places. */
    method SwapBuffers()
      requires Valid()
      modifies this
      ensures Valid() && model == SwapAll(old(model))
    {
      sendBuffer, outputBuffer, sendRoom, outputRoom := outputBuffer, [], outputRoom, sendRoom;
      nextToSend, uncorkedSize := 0, 0;
      model := SwapAll(model);
    }

    /** In write(): the flushed part becomes the send buffer, the corked tail is copied back. */
    method SwapFlushedPart()
      requires Valid() && uncorkedSize <= |outputBuffer|
      modifies this
      ensures Valid() && model == SwapFlushed(old(model))
    {
      sendBuffer, outputBuffer, sendRoom, outputRoom := outputBuffer, [], outputRoom, sendRoom;
      var bytesToSend := uncorkedSize;
      nextToSend, uncorkedSize := 0, 0;
      var tail := sendBuffer[bytesToSend..];
      if |tail| <= outputRoom { outputBuffer := tail; }
      sendBuffer := sendBuffer[..bytesToSend];
      model := SwapFlushed(model);
    }

    /** The loop of write(): send until nothing is left, the socket would block, or it fails. */
    method SendPending(script: seq<SendResult>) returns (stop: Stop)
      requires Valid() && nextToSend <= |sendBuffer| && uncorkedSize <= |outputBuffer|
      modifies this
      ensures Valid() && SendLoop(old(model), script) == SendOutcome(model, stop)
    {
      var i := 0;
      assert script[0..] == script;
      while nextToSend < |sendBuffer|
        invariant Valid() && nextToSend <= |sendBuffer| && uncorkedSize <= |outputBuffer| && i <= |script|
        invariant SendLoop(old(model), script) == SendLoop(model, script[i..])
        decreases |script| - i
      {
        if i == |script| { return Blocked; }
        var r := script[i];
        assert script[i..][1..] == script[i + 1..];
        i := i + 1;
        match r {
          case WouldBlock => return Blocked;
          case Interrupted => continue;
          case Refused => return Failed;
          case Sent(n) =>
            var taken := Portion(n, |sendBuffer| - nextToSend);
            model := Accept(model, taken);
            nextToSend := nextToSend + taken;
            if nextToSend == |sendBuffer| && uncorkedSize > 0 { SwapFlushedPart(); }
        }
      }
      return Drained;
    }

    /** A request goes to the cleared send buffer, past the output buffer. */
    method PlaceRequest(request: bytes)
      requires Valid()
      modifies this
      ensures Valid() && model == Place(old(model), request)
    {
      if sendRoom < RESERVE { sendRoom := sendRoom + RESERVE; }
      sendBuffer, nextToSend := request, 0;
      model := Place(model, request);
    }

    method Clear()
      requires Valid()
      modifies this
      ensures Valid() && model == Emptied(old(model))
    {
      outputBuffer, sendBuffer, nextToSend, uncorkedSize := [], [], 0, 0;
      model := Emptied(model);
    }

    /** A fresh socket has accepted nothing yet. */
    ghost method NewSession()
      requires Valid()
      modifies this
      ensures Valid() && model == old(model).(wire := [])
    {
      model := model.(wire := []);
    }
  }

  /** The receive buffer with its scanner, and the buffer in the caller's hands, each with its capacity. */
  class ReceiveSide {
    var receiveBuffer: bytes
    var receiveRoom: nat
    var lastReceivedHeadOffset: nat
    var detectedResponseSize: nat
    var inputBuffer: bytes
    var inputRoom: nat
    var callerIdle: bool
    const handler: bool
    ghost var model: Receiver

    ghost predicate Valid()
      reads this
    {
      receiveBuffer == model.recv && lastReceivedHeadOffset == model.head && detectedResponseSize == model.detected &&
      inputBuffer == model.input && callerIdle == model.idle && handler == model.handler &&
      |receiveBuffer| <= receiveRoom && |inputBuffer| <= inputRoom && ENOUGH <= receiveRoom && ENOUGH <= inputRoom
    }

    constructor (handler: bool)
      ensures Valid() && model == Receiver([], 0, 0, [], true, handler, [])
      ensures receiveRoom == inputRoom == BUFFER_SIZE
    {
      receiveBuffer, lastReceivedHeadOffset, detectedResponseSize, inputBuffer, callerIdle := [], 0, 0, [], true;
      receiveRoom, inputRoom := BUFFER_SIZE, BUFFER_SIZE;
      this.handler := handler;
      model := Receiver([], 0, 0, [], true, handler, []);
    }

    /** clear_receive_buffer */
    method Clear()
      requires Valid()
      modifies this
      ensures Valid() && model == Cleared(old(model))
    {
      receiveBuffer, lastReceivedHeadOffset, detectedResponseSize := [], 0, 0;
      model := Cleared(model);
    }

    /** In close(): the partial response goes. */
    method Trim()
      requires Valid()
      modifies this
      ensures Valid() && model == Trimmed(old(model))
    {
      detectedResponseSize := 0;
      if lastReceivedHeadOffset <= |receiveBuffer| { receiveBuffer := receiveBuffer[..lastReceivedHeadOffset]; }
      model := Trimmed(model);
    }

    /** In read(): the space recv is offered, never less than 512 bytes. A recv into no space would
        return 0, which means the end of the stream. */
    method MakeRoom() returns (rest: nat)
      requires Valid()
      modifies this`receiveRoom
      ensures Valid() && receiveRoom == Grown(|receiveBuffer|, old(receiveRoom)) >= old(receiveRoom)
      ensures rest == receiveRoom - |receiveBuffer| && rest >= 512
    {
      rest := receiveRoom - |receiveBuffer|;
      if rest < ENOUGH {
        receiveRoom := receiveRoom * 3 / 2;
        rest := receiveRoom - |receiveBuffer|;
      }
    }

    /** What recv writes at the end of the content. */
    method Store(bs: bytes)
      requires Valid() && |receiveBuffer| + |bs| <= receiveRoom
      modifies this`receiveBuffer, this`model
      ensures Valid() && receiveBuffer == old(receiveBuffer) + bs && model == old(model).(recv := receiveBuffer)
    {
      receiveBuffer := receiveBuffer + bs;
      model := model.(recv := receiveBuffer);
    }

    /** The recv loop of read(): appends what arrives; ended means end of stream or an error. */
    method Receive(recvs: seq<Recv>) returns (ended: bool)
      requires Valid() && Offered(recvs, |receiveBuffer|, receiveRoom)
      modifies this
      ensures Valid() && model == old(model).(recv := old(model).recv + ReceiveAll(recvs).bs)
      ensures ended == ReceiveAll(recvs).Ended? && old(receiveRoom) <= receiveRoom && inputRoom == old(inputRoom)
    {
      hide ReceiveAll, Offered, Prefixed, Grown;
      ghost var got: bytes := [];
      var i := 0;
      assert recvs[0..] == recvs;
      NothingYet(ReceiveAll(recvs));
      while i < |recvs|
        invariant i <= |recvs|
        invariant Valid() && model == old(model).(recv := old(model).recv + got)
        invariant ReceiveAll(recvs) == Prefixed(got, ReceiveAll(recvs[i..]))
        invariant Offered(recvs[i..], |receiveBuffer|, receiveRoom)
        invariant old(receiveRoom) <= receiveRoom && inputRoom == old(inputRoom)
      {
        var r := recvs[i];
        NextRecv(recvs[i..], got, |receiveBuffer|, receiveRoom);
        assert recvs[i..][1..] == recvs[i + 1..];
        i := i + 1;
        var _ := MakeRoom();
        match r {
          case NoMore => return false;
          case RecvInterrupted => continue;
          case RecvFailed => return true;
          case Data(bs) =>
            if bs == [] { return true; }
            Store(bs);
            got := got + bs;
        }
      }
      NextRecv(recvs[i..], got, |receiveBuffer|, receiveRoom);
      return false;
    }

    /** The scan loop of process_receive_buffer. */
    method DetectResponses()
      requires Valid() && lastReceivedHeadOffset <= |receiveBuffer|
      modifies this
      ensures Valid() && model == Scan(old(model))
    {
      hide HeadSize;
      while true
        invariant Valid() && lastReceivedHeadOffset <= |receiveBuffer|
        invariant Scan(model) == Scan(old(model))
        decreases |receiveBuffer| - lastReceivedHeadOffset
      {
        var orphaned := |receiveBuffer| - lastReceivedHeadOffset;
        if detectedResponseSize == 0 && orphaned >= 5 {
          var size := HeadSize(receiveBuffer[lastReceivedHeadOffset..]);
          if size.None? {
            receiveBuffer := receiveBuffer[..lastReceivedHeadOffset];
            model := model.(recv := receiveBuffer);
            return;
          }
          detectedResponseSize := size.value;
        }
        if detectedResponseSize == 0 || orphaned < detectedResponseSize {
          model := model.(detected := detectedResponseSize);
          return;
        }
        lastReceivedHeadOffset := lastReceivedHeadOffset + detectedResponseSize;
        detectedResponseSize := 0;
        model := model.(head := lastReceivedHeadOffset, detected := 0);
      }
    }

    /** pass_response_to_caller: whole responses go to the caller, the rest is moved to the front. */
    method PassToCaller(reaction: Reaction)
      requires Valid() && lastReceivedHeadOffset <= |receiveBuffer|
      modifies this
      ensures Valid() && model == Pass(old(model), reaction)
    {
      model := Pass(model, reaction);
      if lastReceivedHeadOffset == 0 { return; }
      inputBuffer, receiveBuffer := receiveBuffer[..lastReceivedHeadOffset], receiveBuffer[lastReceivedHeadOffset..];
      inputRoom, receiveRoom := receiveRoom, if inputRoom < |receiveBuffer| then |receiveBuffer| else inputRoom;
      lastReceivedHeadOffset := 0;
      if handler {
        callerIdle := false;
        if reaction.Release? { callerIdle := true; }
      } else {
        inputBuffer := [];
      }
    }

    /** input_processed */
    method InputProcessed(reaction: Reaction)
      requires Valid() && lastReceivedHeadOffset <= |receiveBuffer|
      modifies this
      ensures Valid() && model == Processed(old(model), reaction)
    {
      hide Pass;
      callerIdle := true;
      model := model.(idle := true);
      PassToCaller(reaction);
    }
  }

  /** What a buffer is constructed with. */
  const BUFFER_SIZE := 1024 * 1024

  /** The receive buffer grows when less than this is free. */
  const ENOUGH := 1024

  /** The capacity recv is offered the rest of. */
  function Grown(size: nat, room: nat): (r: nat)
    requires size <= room
    ensures room <= r
  {
    if room - size < ENOUGH then room * 3 / 2 else room
  }

  /** recv never returns more than it is offered. */
  ghost predicate Offered(recvs: seq<Recv>, size: nat, room: nat)
    requires size <= room
  {
    recvs == [] ||
    match recvs[0]
    case Data(bs) =>
      |bs| <= Grown(size, room) - size && (bs == [] || Offered(recvs[1..], size + |bs|, Grown(size, room)))
    case RecvInterrupted => Offered(recvs[1..], size, Grown(size, room))
    case _ => true
  }

  /** What had arrived before the rest of the loop. */
  function Prefixed(got: bytes, a: Arrival): Arrival {
    match a
    case Arrived(bs) => Arrived(got + bs)
    case Ended(bs) => Ended(got + bs)
  }

  lemma NothingYet(a: Arrival)
    ensures Prefixed([], a) == a
  {
  }

  /** One round of the recv loop. */
  lemma NextRecv(recvs: seq<Recv>, got: bytes, size: nat, room: nat)
    requires size <= room && Offered(recvs, size, room)
    ensures var rest := Prefixed(got, ReceiveAll(recvs));
            if recvs == [] || recvs[0].NoMore? then rest == Arrived(got)
            else match recvs[0]
              case Data(bs) =>
                |bs| <= Grown(size, room) - size &&
                if bs == [] then rest == Ended(got)
                else rest == Prefixed(got + bs, ReceiveAll(recvs[1..])) &&
                     Offered(recvs[1..], size + |bs|, Grown(size, room))
              case RecvInterrupted =>
                size <= Grown(size, room) && Offered(recvs[1..], size, Grown(size, room)) &&
                rest == Prefixed(got, ReceiveAll(recvs[1..]))
              case _ => rest == Ended(got)
  {
    hide Grown;
    if recvs != [] && recvs[0].Data? && recvs[0].bs != [] { PrefixedTwice(got, recvs[0].bs, ReceiveAll(recvs[1..])); }
    assert got + [] == got;
  }

  lemma PrefixedTwice(got: bytes, bs: bytes, a: Arrival)
    ensures Prefixed(got, Prefixed(bs, a)) == Prefixed(got + bs, a)
  {
    assert got + (bs + a.bs) == got + bs + a.bs;
  }
}
