/**
 mp_writer and iproto_writer as functions on values: the bytes written so far and the stack of open
 containers. The classes MpWriter and IprotoWriter are proved against these functions;
 WriterTheorems.dfy proves what the functions promise.
 */
module Writer {
  import opened Bytes
  import opened MsgPack
  import opened Options

  const MAX_DEPTH: nat := 16

  /** container_meta; an open iproto message is an entry too. */
  datatype Meta = Meta(head: nat, guess: u32, items: u32)

  datatype State = State(buf: bytes, stack: seq<Meta>)

  /** The exceptions the two writers throw. */
  datatype Outcome =
    | Done
    | NothingOpen      // range_error
    | HeaderExceeded   // overflow_error: the count needs a wider header than the guess
    | OddMap           // runtime_error
    | BadHeader        // runtime_error: the first byte opens no container
    | SizeExceeded     // overflow_error: message longer than 2^32 - 1
    | BadItems         // mp_reader_error while counting raw items
    | NoSpace          // runtime_error: a buffer over raw memory cannot grow
    | TooDeep          // a 17th entry on the fixed-size stack: undefined behaviour in C++
    | Stale            // bytes copied to where the buffer was before it moved: undefined behaviour in C++

  datatype Result = Result(state: State, outcome: Outcome)

  /** increment_container_counter */
  function Count(stack: seq<Meta>, n: nat): (r: seq<Meta>)
    ensures |r| == |stack|
  {
    if stack == [] then []
    else
      var top := stack[|stack| - 1];
      stack[..|stack| - 1] + [top.(items := (top.items + n) % U32)]
  }

  /** Every item of s, or None when s is not a whole number of items. */
  function ItemsOf(s: bytes): (r: Parsed)
    ensures r.Good? ==> r.rest == []
    decreases |s|
  {
    if s == [] then Good([], [])
    else match Parse(s, 1)
      case Bad => Bad
      case Good(vs, rest) => Cons(vs[0], ItemsOf(rest))
  }

  /** mp_writer::write: `card` is the declared number of items, 0 asks the writer to count them. */
  function Put(w: State, bs: bytes, card: nat): Result {
    var buf := w.buf + bs;
    if w.stack == [] then Result(State(buf, []), Done)
    else if card != 0 then Result(State(buf, Count(w.stack, card)), Done)
    else if ItemsOf(bs).Bad? then Result(State(buf, w.stack), BadItems)
    else Result(State(buf, Count(w.stack, |ItemsOf(bs).items|)), Done)
  }

  /** What a number of rounds of a loop has come to: no outcome means that it would go on. */
  datatype Filled = Filled(state: State, outcome: Option<Outcome>)

  /** fill: copies of `item`, declared as `card` items each, while the count is below `target` and a copy
      would not take it past. The loop need not end, so it is given a number of rounds. */
  function Fill(w: State, item: bytes, card: nat, target: u32, rounds: nat): (r: Filled)
    requires w.stack != []
    ensures r.state.stack != [] && |w.buf| <= |r.state.buf|
    decreases rounds
  {
    var n := w.stack[|w.stack| - 1].items;
    if n >= target || n + card > target then Filled(w, Some(Done))
    else if rounds == 0 then Filled(w, None)
    else
      var r := Put(w, item, card);
      if r.outcome != Done then Filled(r.state, Some(r.outcome)) else Fill(r.state, item, card, target, rounds - 1)
  }

  /** begin_array and begin_map */
  function Begin(w: State, isMap: bool, guess: u32): Result
  {
    if |w.stack| >= MAX_DEPTH then Result(w, TooDeep)
    else Result(State(w.buf + Header(isMap, HeaderWidth(guess), guess),
                      Count(w.stack, 1) + [Meta(|w.buf|, guess, 0)]), Done)
  }

  function Splice(s: bytes, at: nat, bs: bytes): (r: bytes)
    ensures |r| == |s|
  {
    if at + |bs| <= |s| then s[..at] + bs + s[at + |bs|..] else s
  }

  predicate ArrayHead(b: byte) { 0x90 <= b <= 0x9f || b == 0xdc || b == 0xdd }

  predicate MapHead(b: byte) { 0x80 <= b <= 0x8f || b == 0xde || b == 0xdf }

  function Pop(w: State): State
    requires w.stack != []
  {
    State(w.buf, w.stack[..|w.stack| - 1])
  }

  /** Write the cardinality n into the header at `head`, whose width the guess fixed. */
  function PatchCount(buf: bytes, head: nat, isMap: bool, width: nat, n: nat): bytes
    requires n < U32
  {
    if width == 1 && n <= 15 then Splice(buf, head, [(if isMap then 0x80 else 0x90) + n])
    else if width == 3 then Splice(buf, head + 1, BigEndian(n, 2))
    else Splice(buf, head + 1, BigEndian(n, 4))
  }

  /** mp_writer::finalize. The entry is popped before anything is thrown. */
  function FinalizeContainer(w: State): Result {
    if w.stack == [] then Result(w, NothingOpen)
    else
      var m := w.stack[|w.stack| - 1];
      var p := Pop(w);
      if m.head >= |w.buf| || (!ArrayHead(w.buf[m.head]) && !MapHead(w.buf[m.head])) then Result(p, BadHeader)
      else
        var isMap := MapHead(w.buf[m.head]);
        if isMap && m.items % 2 == 1 then Result(p, OddMap)
        else
          var n: u32 := if isMap then m.items / 2 else m.items;
          if n == m.guess then Result(p, Done)
          else if n > m.guess && HeaderWidth(n) > HeaderWidth(m.guess) then Result(p, HeaderExceeded)
          else Result(p.(buf := PatchCount(w.buf, m.head, isMap, HeaderWidth(m.guess), n)), Done)
  }

  /** iproto_writer::finalize: an open message gets its length, anything else is a container. */
  function Finalize(w: State): Result {
    if w.stack == [] then Result(w, NothingOpen)
    else
      var m := w.stack[|w.stack| - 1];
      if m.head < |w.buf| && w.buf[m.head] == 0xce then
        var size := |w.buf| - m.head;
        if size > m.guess then Result(Pop(w), SizeExceeded)
        else if size < 5 then Result(Pop(w), Done)  // never: an open message has its whole head
        else Result(Pop(w).(buf := Splice(w.buf, m.head + 1, BigEndian(size - 5, 4))), Done)
      else FinalizeContainer(w)
  }

  /** iproto_writer::finalize_all */
  function FinalizeAll(w: State): (r: Result)
    ensures r.outcome == Done ==> r.state.stack == []
    decreases |w.stack|
  {
    if w.stack == [] then Result(w, Done)
    else
      var r := Finalize(w);
      if r.outcome != Done then r else FinalizeAll(r.state)
  }

  /** mp_writer::finalize_all, which knows containers only. */
  function FinalizeContainers(w: State): (r: Result)
    ensures r.outcome == Done ==> r.state.stack == []
    decreases |w.stack|
  {
    if w.stack == [] then Result(w, Done)
    else
      var r := FinalizeContainer(w);
      if r.outcome != Done then r else FinalizeContainers(r.state)
  }

  /** start_message; `junk` is what the four length bytes happen to hold until finalize. */
  function Start(w: State, junk: bytes): Result {
    var r := FinalizeAll(w);
    if r.outcome != Done then r
    else Result(State(r.state.buf + [0xce] + junk, [Meta(|r.state.buf|, U32 - 1, 0)]), Done)
  }

  /** The same where the kilobyte to reserve may not be there. */
  function StartIn(w: State, junk: bytes, room: bool): Result {
    var r := FinalizeAll(w);
    if r.outcome == Done && !room then Result(r.state, NoSpace) else Start(w, junk)
  }

  /** get_state keeps the length and the stack; set_state goes back to them. */
  datatype Saved = Saved(len: nat, stack: seq<Meta>)

  function GetState(w: State): Saved { Saved(|w.buf|, w.stack) }

  function SetState(w: State, s: Saved): State
    requires s.len <= |w.buf|
  {
    State(w.buf[..s.len], s.stack)
  }

  /** One call a user of the writers makes. Lead is what iproto_writer itself stores at the start of a
      message without counting items: the request header, and for call and eval an unfinished body map. */
  datatype Op =
    | Items(bs: bytes, card: nat)
    | Lead(bs: bytes)
    | Open(isMap: bool, guess: u32)
    | Close
    | CloseAll
    | NewMessage(junk: bytes)

  function Step(w: State, op: Op): Result
  {
    match op
    case Items(bs, card) => Put(w, bs, card)
    case Lead(bs) => Result(w.(buf := w.buf + bs), Done)
    case Open(isMap, guess) => Begin(w, isMap, guess)
    case Close => Finalize(w)
    case CloseAll => FinalizeAll(w)
    case NewMessage(junk) => Start(w, junk)
  }

  /** A run of calls, up to the first exception. */
  function Run(w: State, ops: seq<Op>): Result
    decreases |ops|
  {
    if ops == [] then Result(w, Done)
    else
      var r := Step(w, ops[0]);
      if r.outcome != Done then r else Run(r.state, ops[1..])
  }

  // --- the reference: trees built with no bytes at all ----------------------------------------

  datatype Kind = ArrKind | MapKind | MsgKind

  datatype Node = Node(kind: Kind, guess: u32, lead: bytes, items: seq<Value>)

  datatype Top = Item(v: Value) | Msg(lead: bytes, items: seq<Value>)

  datatype Forest = Forest(done: seq<Top>, open: seq<Node>)

  function TreeOf(nd: Node): Value {
    if nd.kind.MapKind? then Map(nd.items) else Arr(nd.items)
  }

  function Tops(vs: seq<Value>): (r: seq<Top>)
    ensures |r| == |vs|
  {
    seq(|vs|, i requires 0 <= i < |vs| => Item(vs[i]))
  }

  function Add(f: Forest, vs: seq<Value>): Forest {
    if f.open == [] then f.(done := f.done + Tops(vs))
    else
      var k := |f.open| - 1;
      f.(open := f.open[..k] + [f.open[k].(items := f.open[k].items + vs)])
  }

  function AddLead(f: Forest, bs: bytes): Forest
    requires f.open != []
  {
    var k := |f.open| - 1;
    f.(open := f.open[..k] + [f.open[k].(lead := f.open[k].lead + bs)])
  }

  function CloseTop(f: Forest): Forest
    requires f.open != []
  {
    var k := |f.open| - 1;
    var rest := f.(open := f.open[..k]);
    if f.open[k].kind.MsgKind? then rest.(done := f.done + [Msg(f.open[k].lead, f.open[k].items)])
    else Add(rest, [TreeOf(f.open[k])])
  }

  function CloseEvery(f: Forest): (g: Forest)
    ensures g.open == []
    decreases |f.open|
  {
    if f.open == [] then f else CloseEvery(CloseTop(f))
  }

  function Build(f: Forest, op: Op): Forest
  {
    match op
    case Items(bs, _) => if ItemsOf(bs).Good? then Add(f, ItemsOf(bs).items) else f
    case Lead(bs) => if f.open == [] then f else AddLead(f, bs)
    case Open(isMap, guess) => f.(open := f.open + [Node(if isMap then MapKind else ArrKind, guess, [], [])])
    case Close => if f.open == [] then f else CloseTop(f)
    case CloseAll => CloseEvery(f)
    case NewMessage(_) => var g := CloseEvery(f); g.(open := [Node(MsgKind, U32 - 1, [], [])])
  }

  function BuildAll(f: Forest, ops: seq<Op>): Forest
    decreases |ops|
  {
    if ops == [] then f else BuildAll(Build(f, ops[0]), ops[1..])
  }
}
