/**
 class connection. Its fields are updated in place by the methods below; those of the two halves are kept
 in the objects `tx` and `rx`. `model` is the value of all fields, with the history the theorems look at:
 every method is proved to take it to the function of the same name in Connections.
 */
module ConnectionClass {
  import opened Bytes
  import opened Frames
  import opened Options
  import opened Iproto
  import opened Sending
  import opened Receiving
  import Conns = Connections
  import opened Connections
  import opened ConnectionHalves
  import opened Lifecycle
  import opened Sessions
  import opened Timing
  import opened Ownership
  import Dialing
  import Survival

  class Connection {
    // the socket, the resolver thread and the timer
    var stage: Stage
    var socket: bool
    var watch: Watch
    var resolving: bool
    var ticks: int
    var timeout: int

    // parameters and session data
    var target: Target
    var parts: Target
    var greeting: bytes
    var required: Required
    var serverProto: ProtoId
    var requestId: nat

    const tx: SendSide
    const rx: ReceiveSide
    ghost var model: Conn

    ghost predicate Valid()
      reads this, tx, rx
    {
      stage == model.stage && socket == model.socket && watch == model.watch && resolving == model.resolver.Some? &&
      ticks == model.ticks && timeout == model.timeout && target == model.target && parts == model.parts &&
      greeting == model.greeting && required == model.required && serverProto == model.serverProto &&
      requestId == model.nextId && tx.Valid() && tx.model == model.snd && rx.Valid() && rx.model == model.rcv
    }

    // --- closing ------------------------------------------------------------------------------

    method CloseConnection(delay: int)
      requires Valid()
      modifies this, tx, rx
      ensures Valid() && model == Conns.Close(old(model), delay)
    {
      hide Emptied, Trimmed;
      greeting, serverProto, requestId := [], NO_PROTO, 0;
      model := model.(greeting := [], serverProto := NO_PROTO, nextId := 0);
      Idle(delay);
      if socket { CloseSocket(); }
    }

    /** In close(): disconnected, with a reconnect counted from now when a delay is given. */
    method Idle(delay: int)
      requires Valid()
      modifies this
      ensures Valid()
      ensures model == old(model).(stage := Disconnected, ticks := if delay > 0 then 0 else -1,
                                   timeout := if delay > 0 then delay else old(model).timeout)
    {
      stage, ticks := Disconnected, -1;
      if delay > 0 { ticks, timeout := 0, delay; }
      model := model.(stage := Disconnected, ticks := ticks, timeout := timeout);
    }

    /** In close(): the part that runs only with a socket. */
    method CloseSocket()
      requires Valid()
      modifies this, tx, rx
      ensures Valid()
      ensures model == old(model).(watch := WatchNone, socket := false, snd := Emptied(old(model).snd),
                                   rcv := Trimmed(old(model).rcv))
    {
      hide Emptied, Trimmed;
      watch, socket := WatchNone, false;
      tx.Clear();
      rx.Trim();
      model := model.(watch := WatchNone, socket := false, snd := tx.model, rcv := rx.model);
    }

    /** close() on an error, with a reconnect scheduled. */
    method Fail()
      requires Valid()
      modifies this, tx, rx
      ensures Valid() && model == Conns.Fail(old(model))
    {
      hide Conns.Close;
      CloseConnection(0);
      ticks := 0;
      model := model.(ticks := 0);
    }

    // --- sending ------------------------------------------------------------------------------

    /** write() outside the connecting stage. */
    method Drain(script: seq<SendResult>)
      requires Valid() && tx.nextToSend <= |tx.sendBuffer| && tx.uncorkedSize <= |tx.outputBuffer|
      modifies this, tx, rx
      ensures Valid() && model == Conns.Drain(old(model), script)
    {
      hide SendLoop, Conns.Fail;
      var answers := if socket then script else [Refused];
      SendStops(model.snd, answers);
      ReportStuck();
      var stop := tx.SendPending(answers);
      model := model.(snd := tx.model);
      if stop.Failed? { Fail(); } else { Rewatch(); }
    }

    /** In write(): the report of flushed data behind an empty send buffer. */
    ghost method ReportStuck()
      requires Valid()
      modifies this`model
      ensures Valid()
      ensures model == if old(model).snd.next == |old(model).snd.send| && old(model).snd.uncorked > 0
                       then old(model).(jams := old(model).jams + [JamInWrite]) else old(model)
    {
      if tx.nextToSend == |tx.sendBuffer| && tx.uncorkedSize > 0 { model := model.(jams := model.jams + [JamInWrite]); }
    }

    /** In write(): what to watch the socket for from now on. */
    method Rewatch()
      requires Valid() && tx.nextToSend <= |tx.sendBuffer|
      modifies this`watch, this`model
      ensures Valid()
      ensures var s := old(model).snd;
              model == old(model).(watch := if s.next < |s.send| then WatchReadWrite else WatchRead)
    {
      watch := if tx.nextToSend < |tx.sendBuffer| then WatchReadWrite else WatchRead;
      model := model.(watch := watch);
    }

    method WriteSocket(io: Io)
      requires Valid() && tx.nextToSend <= |tx.sendBuffer| && tx.uncorkedSize <= |tx.outputBuffer|
      modifies this, tx, rx
      ensures Valid() && model == Conns.Write(old(model), io)
    {
      hide Conns.Drain, Conns.Fail;
      if !stage.Connecting? {
        Drain(io.script);
      } else if io.soError {
        Fail();
      } else {
        watch := WatchRead;
        model := model.(watch := WatchRead);
      }
    }

    method FlushOutput(io: Io) returns (nothingWaits: bool)
      requires Valid() && tx.nextToSend <= |tx.sendBuffer| && tx.uncorkedSize <= |tx.outputBuffer|
      modifies this, tx, rx
      ensures Valid() && model == Conns.Flush(old(model), io)
      ensures nothingWaits == (old(tx.outputBuffer) == [] || old(tx.nextToSend) == old(|tx.sendBuffer|))
    {
      hide Conns.Write;
      if tx.outputBuffer == [] { return true; }
      if tx.nextToSend == |tx.sendBuffer| {
        tx.SwapBuffers();
        model := model.(snd := tx.model);
        WriteSocket(io);
        return true;
      }
      tx.Uncork();
      model := model.(snd := tx.model);
      return false;
    }

    // --- the handshake ------------------------------------------------------------------------

    method TakeNextId() returns (id: nat)
      requires Valid() && requestId < U64
      modifies this
      ensures Valid() && id == old(model).nextId && model == old(model).(nextId := (id + 1) % U64)
    {
      id := requestId;
      requestId := (requestId + 1) % U64;
      model := model.(nextId := (id + 1) % U64);
    }

    method SetConnected()
      requires Valid()
      modifies this, rx
      ensures Valid() && model == Conns.SetConnected(old(model))
    {
      hide Cleared;
      rx.Clear();
      stage, ticks := Connected, -1;
      model := Conns.SetConnected(model);
    }

    method Reject()
      requires Valid()
      modifies this, tx, rx
      ensures Valid() && model == Conns.Reject(old(model))
    {
      hide Conns.Fail, Cleared;
      rx.Clear();
      model := model.(rcv := rx.model);
      Fail();
    }

    /** A handshake request takes the place of whatever the send buffer holds. */
    method Request(next: Stage, request: bytes)
      requires Valid()
      modifies this, tx, rx
      ensures Valid()
      ensures model == old(model).(stage := next, rcv := Cleared(old(model).rcv), snd := Place(old(model).snd, request))
    {
      hide Cleared, Place;
      rx.Clear();
      tx.PlaceRequest(request);
      stage := next;
      model := model.(stage := next, rcv := rx.model, snd := tx.model);
    }

    method SendAuth(io: Io, scramble: bytes)
      requires Valid() && requestId < U64 && tx.uncorkedSize <= |tx.outputBuffer|
      modifies this, tx, rx
      ensures Valid() && model == Conns.SendAuth(old(model), io, scramble)
    {
      hide AuthRequest, Conns.Drain, Conns.Reject, Cleared;
      var request := AuthRequest(requestId, parts.user, serverProto.auth, scramble);
      if request.None? {
        Reject();
        return;
      }
      var _ := TakeNextId();
      Request(Authentication, request.value);
      Drain(io.script);
    }

    method Proceed(io: Io, scramble: bytes)
      requires Valid() && requestId < U64 && tx.uncorkedSize <= |tx.outputBuffer|
      modifies this, tx, rx
      ensures Valid() && model == Conns.Proceed(old(model), io, scramble)
    {
      hide Conns.SendAuth, Conns.SetConnected;
      if NeedsAuth(parts) { SendAuth(io, scramble); } else { SetConnected(); }
    }

    /** The part of process_receive_buffer that runs before the connection is established. */
    method Handshake(io: Io, scramble: bytes)
      requires Valid() && requestId < U64 && tx.uncorkedSize <= |tx.outputBuffer|
      modifies this, tx, rx
      ensures Valid() && model == Conns.Handshake(old(model), io, scramble)
    {
      hide ReplyOf, ProtoOf, Conns.Proceed, Conns.SetConnected, Conns.Reject;
      var reply := ReplyOf(rx.receiveBuffer);
      if reply.None? {
        Reject();
        return;
      }
      var code := reply.value.0;
      model := model.(replies := model.replies + [Reply(model.stage, code)]);
      if code == 0 {
        if stage.Authentication? {
          SetConnected();
          return;
        }
        var proto := ProtoOf(reply.value.1, serverProto);
        if proto.None? {
          Reject();
          return;
        }
        serverProto := proto.value;
        model := model.(serverProto := proto.value);
        Proceed(io, scramble);
      } else if stage.FeaturesRequest? && code % 0x8000 == ER_UNKNOWN_REQUEST_TYPE {
        Proceed(io, scramble);
      } else {
        Reject();
      }
    }

    /** A complete greeting: the feature request goes out. */
    method Greet(io: Io)
      requires Valid() && requestId < U64 && tx.uncorkedSize <= |tx.outputBuffer|
      modifies this, tx, rx
      ensures Valid() && model == Conns.Greet(old(model), io)
    {
      hide Conns.Drain, IdRequest, Cleared;
      greeting := rx.receiveBuffer;
      model := model.(greeting := greeting, replies := []);
      var id := TakeNextId();
      Request(FeaturesRequest, IdRequest(id, required));
      Drain(io.script);
    }

    // --- receiving ----------------------------------------------------------------------------

    method ProcessReceiveBuffer(io: Io, reaction: Reaction, scramble: bytes)
      requires Valid() && rx.lastReceivedHeadOffset <= |rx.receiveBuffer|
      requires requestId < U64 && tx.uncorkedSize <= |tx.outputBuffer|
      modifies this, tx, rx
      ensures Valid() && model == Process(old(model), io, reaction, scramble)
    {
      hide Scan, Pass, Conns.Handshake;
      ScanBounds(model.rcv);
      rx.DetectResponses();
      model := model.(rcv := rx.model);
      if rx.lastReceivedHeadOffset == 0 { return; }
      if stage.FeaturesRequest? || stage.Authentication? {
        Handshake(io, scramble);
      } else if rx.callerIdle {
        rx.PassToCaller(reaction);
        model := model.(rcv := rx.model);
      }
    }

    method ReadSocket(recvs: seq<Recv>, io: Io, reaction: Reaction, scramble: bytes)
      requires Valid() && rx.lastReceivedHeadOffset <= |rx.receiveBuffer|
      requires Offered(recvs, |rx.receiveBuffer|, rx.receiveRoom)
      requires requestId < U64 && tx.uncorkedSize <= |tx.outputBuffer|
      modifies this, tx, rx
      ensures Valid() && model == Conns.Read(old(model), recvs, io, reaction, scramble)
    {
      hide ReceiveAll, Process, Conns.Greet, Conns.Fail;
      if !socket { return; }
      var ended := rx.Receive(recvs);
      model := model.(rcv := rx.model);
      if ended {
        Fail();
        return;
      }
      if stage.Connecting? {
        if |rx.receiveBuffer| < GREETING_SIZE { return; }
        Greet(io);
        return;
      }
      ProcessReceiveBuffer(io, reaction, scramble);
    }

    /** input_processed */
    method PassNext(reaction: Reaction)
      requires Valid() && rx.lastReceivedHeadOffset <= |rx.receiveBuffer|
      modifies this, rx
      ensures Valid() && model == InputDone(old(model), reaction)
    {
      hide Processed;
      rx.InputProcessed(reaction);
      model := InputDone(model, reaction);
    }

    // --- opening ------------------------------------------------------------------------------

    /** A socket that connect() has accepted: at once, or in progress. */
    method Dial(result: ConnectResult)
      requires Valid() && (result.Established? || result.InProgress?)
      modifies this, tx
      ensures Valid() && model == Conns.Dial(old(model), result)
    {
      tx.NewSession();
      stage, socket := Connecting, true;
      if result.Established? {
        watch := WatchRead;
      } else {
        watch, ticks := WatchWrite, 0;
      }
      model := Conns.Dial(model, result);
    }

    /** The resolver thread has finished with addresses. */
    method HandleAddresses(addrs: seq<ConnectResult>)
      requires Valid() && resolving
      modifies this, tx, rx
      ensures Valid() && model == Conns.Resolved(old(model), addrs)
    {
      hide TryAddresses;
      resolving := false;
      model := model.(resolver := None);
      if stage.AddressResolving? { AddressResolved(addrs); }
    }

    /** address_resolved */
    method AddressResolved(addrs: seq<ConnectResult>)
      requires Valid()
      modifies this, tx, rx
      ensures Valid() && model == TryAddresses(old(model), addrs)
    {
      hide Conns.Dial, Conns.Fail;
      var i := 0;
      assert addrs[0..] == addrs;
      while i < |addrs|
        invariant i <= |addrs| && Valid() && model == old(model)
        invariant TryAddresses(model, addrs) == TryAddresses(model, addrs[i..])
      {
        var result := addrs[i];
        assert addrs[i..][1..] == addrs[i + 1..];
        i := i + 1;
        match result {
          case NoSocket =>
          case ConnectFails =>
            Fail();
            return;
          case _ =>
            Dial(result);
            return;
        }
      }
      stage, ticks := Disconnected, 0;
      model := model.(stage := Disconnected, ticks := 0);
    }

    /** The resolver thread has failed. */
    method HandleFailure()
      requires Valid() && resolving
      modifies this
      ensures Valid() && model == Conns.ResolveFailed(old(model))
    {
      resolving, stage, ticks := false, Disconnected, 0;
      model := Conns.ResolveFailed(model);
    }

    method OpenConnection(delay: int, unix: ConnectResult)
      requires Valid()
      modifies this, tx, rx
      ensures Valid() && model == Conns.Open(old(model), delay, unix)
    {
      hide DialUnix;
      if !stage.Disconnected? { return; }
      if delay > 0 {
        Delay(delay);
      } else if !resolving {
        StartAttempt();
        Attempt(unix);
      }
    }

    /** In open(): the reconnect is counted from now. */
    method Delay(delay: int)
      requires Valid()
      modifies this`ticks, this`timeout, this`model
      ensures Valid() && model == old(model).(ticks := 0, timeout := delay)
    {
      ticks, timeout := 0, delay;
      model := model.(ticks := 0, timeout := delay);
    }

    /** In open(): the name is resolved, or the unix socket dialled. */
    method Attempt(unix: ConnectResult)
      requires Valid()
      modifies this, tx, rx
      ensures Valid()
      ensures model == if old(model).parts.host != []
                       then old(model).(stage := AddressResolving, resolver := Some(old(model).attempt))
                       else if old(model).parts.unixPath != [] then DialUnix(old(model), unix) else old(model)
    {
      hide DialUnix;
      if parts.host != [] {
        stage, resolving := AddressResolving, true;
        model := model.(stage := AddressResolving, resolver := Some(model.attempt));
      } else if parts.unixPath != [] {
        OpenUnix(unix);
      }
    }

    /** In open(): the connection string in force is read, and the counter stands still. */
    method StartAttempt()
      requires Valid()
      modifies this
      ensures Valid()
      ensures model == old(model).(timeout := GENERAL_TIMEOUT, ticks := -1, parts := old(model).target,
                                   attempt := old(model).attempt + 1)
    {
      timeout, ticks, parts := GENERAL_TIMEOUT, -1, target;
      model := model.(timeout := GENERAL_TIMEOUT, ticks := -1, parts := target, attempt := model.attempt + 1);
    }

    /** connect() to a unix socket. */
    method OpenUnix(unix: ConnectResult)
      requires Valid()
      modifies this, tx, rx
      ensures Valid() && model == DialUnix(old(model), unix)
    {
      hide Conns.Dial, Conns.Fail;
      match unix {
        case NoSocket =>
        case ConnectFails => Fail();
        case _ => Dial(unix);
      }
    }

    // --- the timer ----------------------------------------------------------------------------

    /** tick_1sec */
    method CountTick(stuck: bool, unix: ConnectResult, io: Io)
      requires Valid() && tx.nextToSend <= |tx.sendBuffer| && tx.uncorkedSize <= |tx.outputBuffer|
      modifies this, tx, rx
      ensures Valid() && model == Conns.Tick(old(model), stuck, unix, io)
    {
      hide Conns.Flush, Conns.Open, Conns.Fail;
      var counting := ticks >= 0;
      if counting {
        ticks := ticks + 1;
        model := model.(ticks := ticks);
      }
      if counting && ticks >= timeout {
        if stage.Disconnected? { OpenConnection(0, unix); } else { Fail(); }
      } else if stage.Connected? {
        if tx.uncorkedSize > 0 && stuck {
          model := model.(jams := model.jams + [JamInTick(|tx.sendBuffer| - tx.nextToSend, tx.uncorkedSize, watch)]);
          var _ := FlushOutput(io);
        }
      }
    }

    // --- the public interface -----------------------------------------------------------------

    /** What every public call may rely on and leaves behind. */
    ghost predicate Ready()
      reads this, tx, rx
    {
      Valid() && Inv(model)
    }

    /** The buffers of a ready connection are consistent; flushed bytes never wait behind an empty send
        buffer; and in a session the socket is watched for writing exactly while there are unsent bytes. */
    lemma NoJam()
      requires Ready()
      ensures tx.nextToSend <= |tx.sendBuffer| && tx.uncorkedSize <= |tx.outputBuffer| && requestId < U64
      ensures rx.lastReceivedHeadOffset <= |rx.receiveBuffer|
      ensures tx.uncorkedSize > 0 ==> tx.nextToSend < |tx.sendBuffer|
      ensures InSession(stage) ==> (watch == WatchReadWrite <==> tx.nextToSend < |tx.sendBuffer|)
    {
    }

    /** In a session no complete message is left unfound, and while the caller of an established connection
        is idle the receive buffer holds none at all. */
    lemma NothingWaits()
      requires Ready()
      ensures rx.lastReceivedHeadOffset <= |rx.receiveBuffer|
      ensures InSession(stage) ==> !TakeMessage(rx.receiveBuffer[rx.lastReceivedHeadOffset..]).Message?
      ensures stage.Connected? && rx.callerIdle ==> !TakeMessage(rx.receiveBuffer).Message?
    {
      hide Searched;
      if InSession(stage) { SearchedHoldsNone(model.rcv); }
      if rx.callerIdle { assert rx.receiveBuffer[0..] == rx.receiveBuffer; }
    }

    constructor (target: Target, room: nat, handler: bool)
      ensures Ready() && fresh(tx) && fresh(rx) && model == Created(target, room, handler)
    {
      stage, socket, watch, resolving, ticks, timeout := Disconnected, false, WatchNone, false, -1, GENERAL_TIMEOUT;
      this.target, parts, greeting := target, Target([], [], []), [];
      required, serverProto, requestId := NO_PROTO, NO_PROTO, 0;
      tx := new SendSide(room);
      rx := new ReceiveSide(handler);
      model := Created(target, room, handler);
      new;
      CreatedInv(target, room, handler);
    }

    method Open(delay: int, unix: ConnectResult)
      requires Ready()
      modifies this, tx, rx
      ensures Ready() && model == Next(old(model), OpenCall(delay, unix))
    {
      hide Inv, Conns.Open;
      Sanity(model);
      NextInv(model, OpenCall(delay, unix));
      OpenConnection(delay, unix);
    }

    method Close(delay: int)
      requires Ready()
      modifies this, tx, rx
      ensures Ready() && model == Next(old(model), CloseCall(delay))
      ensures stage.Disconnected? && !socket
      ensures !old(rx.callerIdle) ==> !rx.callerIdle && rx.inputBuffer == old(rx.inputBuffer)
    {
      hide Inv, Conns.Close;
      Sanity(model);
      if !rx.callerIdle { CallerOwnsInput(model, CloseCall(delay)); }
      ClosedState(model, delay);
      NextInv(model, CloseCall(delay));
      CloseConnection(delay);
    }

    /** set_connection_string, which throws (ok is false) on a busy connection. */
    method SetTarget(t: Target) returns (ok: bool)
      requires Ready()
      modifies this`target, this`model
      ensures Ready() && model == Next(old(model), Retarget(t)) && ok == stage.Disconnected?
      ensures target == if ok then t else old(target)
    {
      hide Inv;
      Sanity(model);
      NextInv(model, Retarget(t));
      ok := stage.Disconnected?;
      if ok {
        target := t;
        model := model.(target := t);
      }
    }

    method SetRequiredProto(p: Required)
      requires Ready()
      modifies this`required, this`model
      ensures Ready() && model == Next(old(model), Require(p)) && required == p
    {
      hide Inv;
      Sanity(model);
      NextInv(model, Require(p));
      required := p;
      model := model.(required := p);
    }

    method NextRequestId() returns (id: nat)
      requires Ready()
      modifies this
      ensures Ready() && model == Next(old(model), Event.TakeRequestId) && id == old(requestId)
      ensures requestId == if id == 0xffff_ffff_ffff_ffff then 0 else id + 1
    {
      NoJam();
      hide Inv;
      Sanity(model);
      NextInv(model, Event.TakeRequestId);
      id := TakeNextId();
    }

    /** bytes_to_send: the flushed bytes the socket has not accepted yet. */
    method BytesToSend() returns (n: nat)
      requires Ready()
      ensures n == |Flushed(model.snd)| - |model.snd.wire|
      ensures n == 0 <==> Unsent(model.snd) == [] && model.snd.uncorked == 0
    {
      NoJam();
      n := tx.BytesToSend();
    }

    /** What the caller puts into output_buffer(). */
    method AppendOutput(bs: bytes)
      requires Ready()
      modifies this, tx
      ensures Ready() && model == Next(old(model), Event.Append(bs))
      ensures Stream(model.snd) == Stream(old(model).snd) + bs && Flushed(model.snd) == Flushed(old(model).snd)
    {
      hide Inv, Stream, Flushed;
      Sanity(model);
      AppendKeeps(model.snd, bs);
      NextInv(model, Event.Append(bs));
      tx.Append(bs);
      model := model.(snd := tx.model);
    }

    /** flush: everything appended so far is marked for sending, and in one established session nothing of
        it is lost, duplicated or reordered. The result is true as well when the output buffer was empty and
        nothing moved, and only then is it true of a call that does nothing. */
    method Flush(io: Io) returns (nothingWaits: bool)
      requires Ready()
      modifies this, tx, rx
      ensures Ready() && model == Next(old(model), FlushCall(io))
      ensures nothingWaits == (old(tx.outputBuffer) == [] || old(tx.nextToSend) == old(|tx.sendBuffer|))
      ensures nothingWaits && model == old(model) <==> old(tx.outputBuffer) == []
      ensures old(stage).Connected? && stage.Connected? && !old(model).snd.corrupt ==>
                Stream(model.snd) == Stream(old(model).snd) == Flushed(model.snd) && !model.snd.corrupt
      ensures old(stage).Connected? && Refused !in io.script ==> stage.Connected?
    {
      NoJam();
      StaysEstablished(model, FlushCall(io));
      hide Inv, Conns.Flush, Stream, Flushed;
      Sanity(model);
      FlushConserves(model, io);
      FlushMoves(model, io);
      NextInv(model, FlushCall(io));
      nothingWaits := FlushOutput(io);
    }

    /** write: a report of stuck data is unreachable. A connect that has succeeded goes on, one that has failed
        counts a reconnect; and an established connection survives every answer of the socket but an error. */
    method Write(io: Io)
      requires Ready()
      modifies this, tx, rx
      ensures Ready() && model == Next(old(model), WriteReady(io)) && model.jams == old(model).jams
      ensures old(stage).Connecting? ==>
                if io.soError then stage.Disconnected? && !socket && ticks == 0
                else stage.Connecting? && socket && watch == WatchRead && ticks == old(ticks)
      ensures old(stage).Connected? && Refused !in io.script ==> stage.Connected?
    {
      NoJam();
      WriteReportsNothing(model, io);
      WriteOutcome(model, io);
      hide Inv, Conns.Write;
      Sanity(model);
      NextInv(model, WriteReady(io));
      WriteSocket(io);
    }

    /** read, for all that recv can return into the space it is offered. A busy caller's buffer is left
        alone, and an established connection survives everything but an error and the end of the stream. */
    method Read(recvs: seq<Recv>, io: Io, reaction: Reaction, scramble: bytes)
      requires Ready() && Offered(recvs, |rx.receiveBuffer|, rx.receiveRoom)
      modifies this, tx, rx
      ensures Ready() && model == Next(old(model), ReadReady(recvs, io, reaction, scramble))
      ensures !old(rx.callerIdle) ==> !rx.callerIdle && rx.inputBuffer == old(rx.inputBuffer)
      ensures old(stage).Connected? && (forall r | r in recvs :: !r.RecvFailed? && r != Data([])) ==> stage.Connected?
    {
      NoJam();
      StaysEstablished(model, ReadReady(recvs, io, reaction, scramble));
      hide Inv, Conns.Read;
      Sanity(model);
      if !rx.callerIdle { CallerOwnsInput(model, ReadReady(recvs, io, reaction, scramble)); }
      NextInv(model, ReadReady(recvs, io, reaction, scramble));
      ReadSocket(recvs, io, reaction, scramble);
    }

    method InputProcessed(reaction: Reaction)
      requires Ready()
      modifies this, rx
      ensures Ready() && model == Next(old(model), Event.InputProcessed(reaction))
    {
      NoJam();
      hide Inv, InputDone;
      Sanity(model);
      NextInv(model, Event.InputProcessed(reaction));
      PassNext(reaction);
    }

    /** acquire_notifications, when the resolver has queued addresses. Those of an attempt that was given
        up change nothing. */
    method AddressesArrived(addrs: seq<ConnectResult>)
      requires Ready()
      modifies this, tx, rx
      ensures Ready() && model == Next(old(model), AddressesFound(addrs))
      ensures !old(stage).AddressResolving? ==> model == old(model).(resolver := None) && stage == old(stage)
    {
      hide Inv, TryAddresses;
      Sanity(model);
      NoResolver(model);
      NextInv(model, AddressesFound(addrs));
      if resolving { HandleAddresses(addrs); }
    }

    /** acquire_notifications, when the resolver has queued a failure. */
    method ResolverFailed()
      requires Ready()
      modifies this
      ensures Ready() && model == Next(old(model), AddressesFailed)
    {
      hide Inv;
      Sanity(model);
      NextInv(model, AddressesFailed);
      if resolving { HandleFailure(); }
    }

    /** tick_1sec: an established connection survives every tick. */
    method Tick(stuck: bool, unix: ConnectResult, io: Io)
      requires Ready()
      modifies this, tx, rx
      ensures Ready() && model == Next(old(model), TimerTick(stuck, unix, io))
      ensures old(stage).Connected? ==> stage.Connected? && socket
    {
      hide Inv, Conns.Tick;
      NoJam();
      TickSpares(model, stuck, unix, io);
      Sanity(model);
      NextInv(model, TimerTick(stuck, unix, io));
      CountTick(stuck, unix, io);
    }
  }

  lemma WriteOutcome(c: Conn, io: Io)
    requires Inv(c)
    ensures Sane(c)
    ensures var d := Conns.Write(c, io);
            (c.stage.Connecting? ==>
               if io.soError then d.stage.Disconnected? && !d.socket && d.ticks == 0
               else d == c.(watch := WatchRead) && d.socket) &&
            (c.stage.Connected? && Refused !in io.script ==> d.stage.Connected?)
  {
    hide Conns.Write;
    if c.stage.Connecting? { Dialing.ConnectOutcome(c, io); }
    StaysEstablished(c, WriteReady(io));
  }

  lemma StaysEstablished(c: Conn, e: Event)
    requires Inv(c)
    ensures Sane(c)
    ensures c.stage.Connected? && Survival.Undisturbed(e) ==> Next(c, e).stage.Connected?
  {
    hide Next;
    if c.stage.Connected? && Survival.Undisturbed(e) { Survival.UndisturbedStep(c, e); }
  }

  lemma TickSpares(c: Conn, stuck: bool, unix: ConnectResult, io: Io)
    requires Inv(c)
    ensures Sane(c)
    ensures var d := Conns.Tick(c, stuck, unix, io); c.stage.Connected? ==> d.stage.Connected? && d.socket
  {
    hide Conns.Tick;
    if c.stage.Connected? { TimerSparesConnected(c, stuck, unix, io); }
  }

  lemma NoResolver(c: Conn)
    requires Inv(c)
    ensures c.resolver.None? ==> c.(resolver := None) == c
  {
  }

  lemma ClosedState(c: Conn, delay: int)
    requires Inv(c)
    ensures Conns.Close(c, delay).stage.Disconnected? && !Conns.Close(c, delay).socket
  {
  }

  lemma WriteReportsNothing(c: Conn, io: Io)
    requires Inv(c)
    ensures c.snd.next <= |c.snd.send| && c.snd.uncorked <= |c.snd.out| && Conns.Write(c, io).jams == c.jams
  {
    hide SendLoop;
  }

  lemma FlushMoves(c: Conn, io: Io)
    requires Inv(c)
    ensures c.snd.next <= |c.snd.send| && c.snd.uncorked <= |c.snd.out|
    ensures c.snd.out == [] ==> Conns.Flush(c, io) == c
    ensures c.snd.out != [] && c.snd.next == |c.snd.send| ==> Conns.Flush(c, io).snd.out == []
  {
    NothingLeftBehind(SwapAll(c.snd), if c.socket then io.script else [Refused]);
    hide SendLoop;
  }

  lemma {:induction false} NothingLeftBehind(s: Sender, script: seq<SendResult>)
    requires s.next <= |s.send| && s.out == [] && s.uncorked == 0
    ensures SendLoop(s, script).s.out == []
    decreases |script|
  {
    if s.next < |s.send| && script != [] {
      match script[0]
      case Interrupted => NothingLeftBehind(s, script[1..]);
      case Sent(n) => NothingLeftBehind(Accept(s, Portion(n, |s.send| - s.next)), script[1..]);
      case _ =>
    }
  }

  lemma FlushConserves(c: Conn, io: Io)
    requires Inv(c)
    ensures c.snd.next <= |c.snd.send| && c.snd.uncorked <= |c.snd.out|
    ensures var d := Conns.Flush(c, io);
            c.stage.Connected? && d.stage.Connected? && !c.snd.corrupt ==>
              Stream(d.snd) == Stream(c.snd) == Flushed(d.snd) && !d.snd.corrupt
  {
    hide Stream, Flushed, Conns.Flush, OnTape;
    var t := Tape(Stream(c.snd), |Flushed(c.snd)|);
    if c.stage.Connected? && Conns.Flush(c, io).stage.Connected? && !c.snd.corrupt {
      FlushNoOverrun(c, io);
      FlushedIsPrefix(c.snd);
      FlushOnTape(c, io, t);
      WholeTape(Conns.Flush(c, io).snd, t.given);
    }
  }

  lemma WholeTape(s: Sender, given: bytes)
    requires OnTape(s, Tape(given, |given|))
    ensures Stream(s) == given == Flushed(s)
  {
    assert given[..|given|] == given;
  }

  lemma SendStops(s: Sender, script: seq<SendResult>)
    requires s.next <= |s.send| && s.uncorked <= |s.out|
    ensures var e := SendLoop(s, script);
            e.s.next <= |e.s.send| && (e.stop.Drained? ==> e.s.next == |e.s.send|) &&
            (e.stop.Blocked? ==> e.s.next < |e.s.send|)
    decreases |script|
  {
    if s.next < |s.send| && script != [] {
      match script[0]
      case Interrupted => SendStops(s, script[1..]);
      case Sent(n) =>
        var t := Accept(s, Portion(n, |s.send| - s.next));
        SendStops(if t.next == |t.send| && t.uncorked > 0 then SwapFlushed(t) else t, script[1..]);
      case _ =>
    }
  }
}
