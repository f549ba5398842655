/** Whole requests: the bytes of call and eval, from their arguments to the wire. */
module Requests {
  import opened Bytes
  import opened MsgPack
  import opened Frames
  import opened Writer
  import opened WriterTheorems
  import opened Plans
  import opened Iproto
  import opened IprotoWriters

  /** iproto_writer::call and eval: begin_call or begin_eval, an array of the arguments, finalize_all. */
  ghost function Invocation(junk: bytes, prefix: bytes, args: seq<Plan>): seq<Op>
    requires |args| < U32 && forall p | p in args :: Legal(p)
  {
    [NewMessage(junk), Lead(prefix)] + ([Open(false, |args|)] + (CallsAll(args) + [CloseAll]))
  }

  /** The argument array: begin_array with the true number of arguments. */
  ghost function Arguments(args: seq<Plan>): Plan
    requires |args| < U32
  {
    Branch(false, |args|, args)
  }

  /** Up to the arguments the message is open with the prefix in it. */
  lemma BeginsMessage(start: bytes, junk: bytes, prefix: bytes)
    ensures Run(State(start, []), [NewMessage(junk), Lead(prefix)]) ==
            Result(State(start + [0xce] + junk + prefix, [Meta(|start|, U32 - 1, 0)]), Done)
  {
    hide Run;
    var w := State(start, []);
    assert [NewMessage(junk)] + [Lead(prefix)] == [NewMessage(junk), Lead(prefix)];
    RunConcat(w, [NewMessage(junk)], [Lead(prefix)]);
    RunOne(w, NewMessage(junk));
    RunOne(Step(w, NewMessage(junk)).state, Lead(prefix));
  }

  /** finalize_all with nothing but the message open seals it. */
  lemma SealsMessage(start: bytes, junk: bytes, payload: bytes, items: u32)
    requires |junk| == 4
    ensures var r := FinalizeAll(State(start + [0xce] + junk + payload, [Meta(|start|, U32 - 1, items)]));
            (r.outcome == Done <==> 5 + |payload| < U32) &&
            (5 + |payload| < U32 ==> r.state == State(start + MessageBytes(payload), []))
  {
    hide Finalize, MessageBytes;
    Seal(start, junk, payload, items);
    if 5 + |payload| < U32 {
      var sealed := State(start + MessageBytes(payload), []);
      assert FinalizeAll(sealed) == Result(sealed, Done);
    }
  }

  /** With CloseAll in place of its own Close, the argument array is closed all the same. */
  lemma ClosedByAll(w: State, args: seq<Plan>)
    requires |w.stack| == 1 && |args| < U32 && forall p | p in args :: Legal(p)
    ensures var r := Run(w, [Open(false, |args|)] + (CallsAll(args) + [CloseAll]));
            var p := Arguments(args);
            if Fitting(p, MAX_DEPTH - 1)
            then r == FinalizeAll(State(w.buf + PlanBytes(p, MAX_DEPTH - 1), Count(w.stack, 1)))
            else r.outcome != Done
  {
    hide Run, CallsAll, Begin, Finalize, FinalizeAll, PlanBytes, PlansBytes, FittingAll, Fits, Calls, Count;
    hide Header, HeaderWidth, Cardinality, Legal;
    var p := Arguments(args);
    ArgumentCalls(args);
    RunAround(w, Open(false, |args|), CallsAll(args), CloseAll);
    RunAround(w, Open(false, |args|), CallsAll(args), Close);
    LegalArguments(args);
    PlanWrites(w, p, MAX_DEPTH - 1);
    OpenedAndClosed(w, false, |args|, [], Full(p));
    PlansWrite(Begin(w, false, |args|).state, args, MAX_DEPTH - 2);
    TopFirst(Run(Begin(w, false, |args|).state, CallsAll(args)).state);
  }

  lemma LegalArguments(args: seq<Plan>)
    requires |args| < U32 && forall p | p in args :: Legal(p)
    ensures Legal(Arguments(args))
  {
  }

  /** From the open message on: the array, and finalize_all closing both. */
  lemma WritesArguments(start: bytes, junk: bytes, prefix: bytes, args: seq<Plan>)
    requires |junk| == 4 && |args| < U32 && forall p | p in args :: Legal(p)
    ensures var w := State(start + [0xce] + junk + prefix, [Meta(|start|, U32 - 1, 0)]);
            var r := Run(w, [Open(false, |args|)] + (CallsAll(args) + [CloseAll]));
            var p := Arguments(args);
            (r.outcome == Done <==> Fitting(p, MAX_DEPTH - 1) && 5 + |prefix + PlanBytes(p, MAX_DEPTH - 1)| < U32) &&
            (r.outcome == Done ==> r.state == State(start + MessageBytes(prefix + PlanBytes(p, MAX_DEPTH - 1)), []))
  {
    hide Run, CallsAll, FinalizeAll, PlanBytes, Fitting, MessageBytes, Count, Legal;
    var w := State(start + [0xce] + junk + prefix, [Meta(|start|, U32 - 1, 0)]);
    var p := Arguments(args);
    LegalArguments(args);
    OneCounted(start);
    ClosedByAll(w, args);
    if Fitting(p, MAX_DEPTH - 1) {
      Associates(start + [0xce] + junk, prefix, PlanBytes(p, MAX_DEPTH - 1));
      SealsMessage(start, junk, prefix + PlanBytes(p, MAX_DEPTH - 1), 1);
    }
  }

  /** The unfinished body map of begin_call is completed by one array of arguments. */
  lemma PrefixEncodes(code: byte, sync: nat, key: nat, name: bytes, b: bytes, arg: Value)
    requires sync < U64 && key < U64 && |name| < U32 && Encodes(b, [arg])
    ensures Encodes(InvocationPrefix(code, sync, key, name) + b,
                    [Map([Int(0), Int(code), Int(1), Int(sync)]), Map([Int(key), Str(name), Int(0x21), arg])])
  {
    hide Encodes, Pair, Header, EncodeStr, EncodeUInt, RequestHead;
    StrEncodes(name);
    PairEncodes(key, EncodeStr(name), Str(name));
    UIntEncodes(TUPLE);
    EncodesAppend(EncodeUInt(TUPLE), [Int(TUPLE)], b, [arg]);
    var x, y := Pair(key, EncodeStr(name)), EncodeUInt(TUPLE);
    EncodesAppend(x, [Int(key), Str(name)], y + b, [Int(TUPLE)] + [arg]);
    var items := [Int(key), Str(name), Int(TUPLE), arg];
    assert [Int(key), Str(name)] + ([Int(TUPLE)] + [arg]) == items;
    HeaderEncodes(true, 1, 2, x + (y + b), items);
    RequestHeadEncodes(code, sync);
    var h, m := Header(true, 1, 2), RequestHead(code, sync);
    var head := Map([Int(CODE), Int(code), Int(SYNC), Int(sync)]);
    EncodesAppend(m, [head], h + (x + (y + b)), [Map(items)]);
    assert [head] + [Map(items)] == [head, Map(items)];
    assert m + (h + (x + y)) + b == m + (h + (x + (y + b)));
  }

  lemma ArgumentCalls(args: seq<Plan>)
    requires |args| < U32 && forall p | p in args :: Legal(p)
    ensures Calls(Arguments(args)) == [Open(false, |args|)] + (CallsAll(args) + [Close])
  {
    hide CallsAll;
  }

  lemma OneCounted(start: bytes)
    ensures Count([Meta(|start|, U32 - 1, 0)], 1) == [Meta(|start|, U32 - 1, 1)]
  {
  }

  lemma TopFirst(w: State)
    ensures w.stack != [] ==>
              FinalizeAll(w) == if Finalize(w).outcome != Done then Finalize(w) else FinalizeAll(Finalize(w).state)
  {
    hide Finalize;
  }

  /** call and eval, for every name, every argument tree and every request number: they throw nothing
      exactly when the arguments fit their guesses, nest no deeper than the message and the argument
      array leave room for, and the message stays below 2^32 bytes; and then one frame is appended, whose
      payload is the request header and the body map holding the name and exactly the arguments. */
  lemma InvocationOnTheWire(start: bytes, junk: bytes, code: byte, sync: nat, key: nat, name: bytes, args: seq<Plan>)
    requires |junk| == 4 && |args| < U32 && (forall p | p in args :: Legal(p))
    requires sync < U64 && key < U64 && |name| < U32
    ensures var prefix := InvocationPrefix(code, sync, key, name);
            var p := Arguments(args);
            var r := Run(State(start, []), Invocation(junk, prefix, args));
            (r.outcome == Done <==> Fitting(p, MAX_DEPTH - 1) && 5 + |prefix + PlanBytes(p, MAX_DEPTH - 1)| < U32) &&
            (r.outcome == Done ==>
               var payload := prefix + PlanBytes(p, MAX_DEPTH - 1);
               r.state == State(start + MessageBytes(payload), []) &&
               Encodes(payload, [Map([Int(0), Int(code), Int(1), Int(sync)]),
                                 Map([Int(key), Str(name), Int(0x21), Arr(Trees(args))])]))
  {
    var prefix := InvocationPrefix(code, sync, key, name);
    var p := Arguments(args);
    assert Tree(p) == Arr(Trees(args)) && Legal(p);
    hide Run, InvocationPrefix, CallsAll, PlanBytes, Fitting, Encodes, Trees, Legal, MessageBytes;
    BeginsMessage(start, junk, prefix);
    RunConcat(State(start, []), [NewMessage(junk), Lead(prefix)],
              [Open(false, |args|)] + (CallsAll(args) + [CloseAll]));
    WritesArguments(start, junk, prefix, args);
    if Fitting(p, MAX_DEPTH - 1) && 5 + |prefix + PlanBytes(p, MAX_DEPTH - 1)| < U32 {
      ShortIsBounded(p, MAX_DEPTH - 1);
      PlanEncodes(p, MAX_DEPTH - 1);
      PrefixEncodes(code, sync, key, name, PlanBytes(p, MAX_DEPTH - 1), Arr(Trees(args)));
    }
  }

  /** So a call says {0: 0x0a} and the function's name under 0x22, an eval {0: 8} and the script under 0x27. */
  lemma CallAndEvalSay(start: bytes, junk: bytes, eval: bool, sync: nat, name: bytes, args: seq<Plan>)
    requires |junk| == 4 && |args| < U32 && (forall p | p in args :: Legal(p)) && sync < U64 && |name| < U32
    ensures var prefix := if eval then InvocationPrefix(REQUEST_EVAL, sync, EXPRESSION, name)
                          else InvocationPrefix(REQUEST_CALL, sync, FUNCTION_NAME, name);
            var p := Arguments(args);
            var r := Run(State(start, []), Invocation(junk, prefix, args));
            (r.outcome == Done <==> Fitting(p, MAX_DEPTH - 1) && 5 + |prefix + PlanBytes(p, MAX_DEPTH - 1)| < U32) &&
            (r.outcome == Done ==>
               var payload := prefix + PlanBytes(p, MAX_DEPTH - 1);
               r.state == State(start + MessageBytes(payload), []) &&
               Encodes(payload, [Map([Int(0), Int(if eval then 8 else 10), Int(1), Int(sync)]),
                                 Map([Int(if eval then 0x27 else 0x22), Str(name), Int(0x21), Arr(Trees(args))])]))
  {
    hide Run, InvocationPrefix, CallsAll, PlanBytes, Fitting, Encodes, Trees, Legal, MessageBytes, Invocation;
    if eval {
      InvocationOnTheWire(start, junk, REQUEST_EVAL, sync, EXPRESSION, name, args);
    } else {
      InvocationOnTheWire(start, junk, REQUEST_CALL, sync, FUNCTION_NAME, name, args);
    }
  }
}
