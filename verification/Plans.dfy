/** Writing a value tree: the calls a user makes for it, with any guessed cardinalities. */
module Plans {
  import opened Bytes
  import opened MsgPack
  import opened Writer
  import opened WriterTheorems

  /** A value tree annotated with the cardinality each container is opened with. */
  datatype Plan = Leaf(v: Value) | Branch(isMap: bool, guess: u32, kids: seq<Plan>)

  /** nil, bool, integers and strings, which operator<< writes in one piece. */
  predicate Writable(v: Value) {
    match v
    case Nil => true
    case Bool(_) => true
    case Int(i) => Int64(i)
    case Str(s) => |s| < U32
    case _ => false
  }

  function EncodeLeaf(v: Value): bytes
    requires Writable(v)
  {
    match v
    case Nil => [0xc0]
    case Bool(b) => [if b then 0xc3 else 0xc2]
    case Int(i) => EncodeInt(i)
    case Str(s) => EncodeStr(s)
  }

  lemma LeafEncodes(v: Value)
    requires Writable(v)
    ensures Encodes(EncodeLeaf(v), [v])
  {
    match v
    case Nil => ScalarEncodes([0xc0]);
    case Bool(b) => ScalarEncodes([if b then 0xc3 else 0xc2]);
    case Int(i) => IntEncodes(i);
    case Str(s) => StrEncodes(s);
  }

  ghost predicate Legal(p: Plan) {
    match p
    case Leaf(v) => Writable(v)
    case Branch(_, _, kids) => forall k | k in kids :: Legal(k)
  }

  ghost function Tree(p: Plan): Value {
    match p
    case Leaf(v) => v
    case Branch(isMap, _, kids) => if isMap then Map(Trees(kids)) else Arr(Trees(kids))
  }

  ghost function Trees(ps: seq<Plan>): (vs: seq<Value>)
    ensures |vs| == |ps|
  {
    if ps == [] then [] else [Tree(ps[0])] + Trees(ps[1..])
  }

  /** begin_array or begin_map, the items in order, finalize. */
  ghost function Calls(p: Plan): seq<Op>
    requires Legal(p)
  {
    match p
    case Leaf(v) => [Items(EncodeLeaf(v), 1)]
    case Branch(isMap, guess, kids) => [Open(isMap, guess)] + (CallsAll(kids) + [Close])
  }

  ghost function CallsAll(ps: seq<Plan>): seq<Op>
    requires forall p | p in ps :: Legal(p)
  {
    if ps == [] then [] else Calls(ps[0]) + CallsAll(ps[1..])
  }

  /** A branch as the forest sees it once its items are in. */
  ghost function Full(p: Plan): Node
    requires p.Branch?
  {
    Node(if p.isMap then MapKind else ArrKind, p.guess, [], Trees(p.kids))
  }

  /** The plan can be written with `room` free stack entries: every cardinality fits its guessed header. */
  ghost predicate Fitting(p: Plan, room: nat) {
    p.Branch? ==> room > 0 && Fits(Full(p)) && FittingAll(p.kids, room - 1)
  }

  ghost predicate FittingAll(ps: seq<Plan>, room: nat) {
    ps != [] ==> Fitting(ps[0], room) && FittingAll(ps[1..], room)
  }

  /** What the writer leaves in the buffer: each header as wide as guessed, holding the cardinality. */
  ghost function PlanBytes(p: Plan, room: nat): bytes
    requires Legal(p) && Fitting(p, room)
  {
    match p
    case Leaf(v) => EncodeLeaf(v)
    case Branch(isMap, guess, kids) =>
      Header(isMap, HeaderWidth(guess), Cardinality(Full(p))) + PlansBytes(kids, room - 1)
  }

  ghost function PlansBytes(ps: seq<Plan>, room: nat): bytes
    requires (forall p | p in ps :: Legal(p)) && FittingAll(ps, room)
  {
    if ps == [] then [] else PlanBytes(ps[0], room) + PlansBytes(ps[1..], room)
  }

  // --- writing --------------------------------------------------------------------------------

  lemma {:induction false} RunConcat(w: State, a: seq<Op>, b: seq<Op>)
    ensures Run(w, a + b) == if Run(w, a).outcome == Done then Run(Run(w, a).state, b) else Run(w, a)
    decreases |a|
  {
    hide Step;
    if a == [] {
      assert a + b == b;
    } else {
      assert (a + b)[1..] == a[1..] + b;
      if Step(w, a[0]).outcome == Done { RunConcat(Step(w, a[0]).state, a[1..], b); }
    }
  }

  lemma RunOne(w: State, op: Op)
    ensures Run(w, [op]) == Step(w, op)
  {
    hide Step;
    assert [op][1..] == [];
    var r := Step(w, op);
    assert Run(r.state, []) == Result(r.state, Done);
  }

  lemma CountTwice(stack: seq<Meta>, a: nat, b: nat)
    ensures Count(Count(stack, a), b) == Count(stack, a + b)
  {
    if stack != [] {
      var k := |stack| - 1;
      ModAdd(stack[k].items + a, b);
      assert Count(stack, a)[..k] == stack[..k];
    }
  }

  /** begin_*, items and finalize around finished bytes: the header gets the cardinality. */
  lemma OpenedAndClosed(w: State, isMap: bool, guess: u32, body: bytes, nd: Node)
    requires |w.stack| < MAX_DEPTH && nd.guess == guess && nd.kind == if isMap then MapKind else ArrKind
    ensures var begun := Begin(w, isMap, guess).state;
            var r := Finalize(State(begun.buf + body, Count(begun.stack, |nd.items|)));
            Begin(w, isMap, guess).outcome == Done && |begun.stack| == |w.stack| + 1 &&
            (r.outcome == Done <==> Fits(nd)) &&
            (Fits(nd) ==>
               r.state == State(w.buf + (Header(isMap, HeaderWidth(guess), Cardinality(nd)) + body), Count(w.stack, 1)))
  {
    hide Header, HeaderWidth, Finalize, Fits, Cardinality;
    OpenedStack(Count(w.stack, 1), Meta(|w.buf|, guess, 0), |nd.items|);
    FinalizeBody(Count(w.stack, 1), w.buf, isMap, guess, body, nd);
  }

  lemma FinalizeBody(below: seq<Meta>, base: bytes, isMap: bool, guess: u32, body: bytes, nd: Node)
    requires nd.guess == guess && nd.kind == if isMap then MapKind else ArrKind
    ensures var h := Header(isMap, HeaderWidth(guess), guess);
            var r := Finalize(State(base + h + body, below + [Meta(|base|, guess, Counted(nd))]));
            (r.outcome == Done <==> Fits(nd)) &&
            (Fits(nd) ==> r.state == State(base + (Header(isMap, HeaderWidth(guess), Cardinality(nd)) + body), below))
  {
    hide Header, HeaderWidth, PatchCount, MapHead, ArrayHead, FinalizeContainer, Splice, BigEndian;
    var h, n := Header(isMap, HeaderWidth(guess), guess), Cardinality(nd);
    var head, width := |base|, HeaderWidth(guess);
    var full := State(base + h + body, below + [Meta(head, guess, Counted(nd))]);
    HeadKind(isMap, guess);
    Around(base, h, body);
    PushPop(below, full.stack[|below|]);
    ContainerIsFinalized(full);
    hide Finalize, Fits, Cardinality;
    ContainerVerdict(full, nd);
    if Fits(nd) {
      FitsWide(nd);
      Associates(base, Header(isMap, width, n), body);
      PatchIsHeader(full.buf, head, isMap, guess, n);
    }
  }

  lemma ContainerIsFinalized(w: State)
    requires w.stack != [] && w.stack[|w.stack| - 1].head < |w.buf| && w.buf[w.stack[|w.stack| - 1].head] != 0xce
    ensures Finalize(w) == FinalizeContainer(w)
  {
  }

  lemma Associates(a: bytes, b: bytes, c: bytes)
    ensures a + b + c == a + (b + c)
  {
  }

  lemma PushPop(below: seq<Meta>, m: Meta)
    ensures (below + [m])[..|below|] == below
  {
  }

  lemma Around(a: bytes, h: bytes, b: bytes)
    requires h != []
    ensures var s := a + h + b;
            s[..|a|] == a && s[|a|] == h[0] && s[|a|..|a| + |h|] == h && s[|a| + |h|..] == b
  {
  }

  lemma OpenedStack(below: seq<Meta>, m: Meta, n: nat)
    requires m.items == 0
    ensures Count(below + [m], n) == below + [m.(items := n % U32)]
  {
    assert (below + [m])[..|below|] == below;
  }

  lemma HeadKind(isMap: bool, guess: u32)
    ensures var b := Header(isMap, HeaderWidth(guess), guess)[0];
            MapHead(b) == isMap && ArrayHead(b) == !isMap && b != 0xce
  {
    hide BigEndian;
  }

  lemma {:induction false} PlanWrites(w: State, p: Plan, room: nat)
    requires Legal(p) && |w.stack| + room == MAX_DEPTH
    ensures var r := Run(w, Calls(p));
            (r.outcome == Done <==> Fitting(p, room)) &&
            (Fitting(p, room) ==> r.state == State(w.buf + PlanBytes(p, room), Count(w.stack, 1)))
    decreases p, 0
  {
    match p
    case Leaf(v) =>
      hide EncodeLeaf;
      RunOne(w, Items(EncodeLeaf(v), 1));
    case Branch(_, _, _) => BranchWrites(w, p, room);
  }

  lemma RunAround(w: State, op: Op, mid: seq<Op>, last: Op)
    ensures var a := Step(w, op);
            var b := Run(a.state, mid);
            Run(w, [op] + (mid + [last])) ==
              if a.outcome != Done then a else if b.outcome != Done then b else Step(b.state, last)
  {
    hide Run, Step;
    RunOne(w, op);
    RunConcat(w, [op], mid + [last]);
    RunConcat(Step(w, op).state, mid, [last]);
    RunOne(Run(Step(w, op).state, mid).state, last);
  }

  lemma {:induction false} BranchWrites(w: State, p: Plan, room: nat)
    requires Legal(p) && p.Branch? && |w.stack| + room == MAX_DEPTH
    ensures var r := Run(w, Calls(p));
            (r.outcome == Done <==> Fitting(p, room)) &&
            (Fitting(p, room) ==> r.state == State(w.buf + PlanBytes(p, room), Count(w.stack, 1)))
    decreases p.kids, 1
  {
    hide Run, Begin, Finalize, Fits, Header, HeaderWidth, Cardinality, Trees, FittingAll, PlansBytes, CallsAll, Count;
    RunAround(w, Open(p.isMap, p.guess), CallsAll(p.kids), Close);
    if room == 0 {
      NoRoom(w, p.isMap, p.guess);
    } else {
      OpenedAndClosed(w, p.isMap, p.guess, [], Full(p));
      PlansWrite(Begin(w, p.isMap, p.guess).state, p.kids, room - 1);
      if FittingAll(p.kids, room - 1) {
        OpenedAndClosed(w, p.isMap, p.guess, PlansBytes(p.kids, room - 1), Full(p));
      }
    }
  }

  lemma NoRoom(w: State, isMap: bool, guess: u32)
    requires |w.stack| == MAX_DEPTH
    ensures Begin(w, isMap, guess).outcome == TooDeep
  {
  }

  lemma {:induction false} PlansWrite(w: State, ps: seq<Plan>, room: nat)
    requires (forall p | p in ps :: Legal(p)) && |w.stack| + room == MAX_DEPTH && w.stack != []
    requires w.stack[|w.stack| - 1].items < U32
    ensures var r := Run(w, CallsAll(ps));
            (r.outcome == Done <==> FittingAll(ps, room)) &&
            (FittingAll(ps, room) ==> r.state == State(w.buf + PlansBytes(ps, room), Count(w.stack, |ps|)))
    decreases ps, 0
  {
    hide Fitting, Calls, PlanBytes, Legal, Run, Count;
    if ps == [] {
      RunNothing(w);
      NothingCounted(w.stack);
      assert w.buf + [] == w.buf;
    } else {
      RunConcat(w, Calls(ps[0]), CallsAll(ps[1..]));
      PlanWrites(w, ps[0], room);
      if Fitting(ps[0], room) {
        var w1 := State(w.buf + PlanBytes(ps[0], room), Count(w.stack, 1));
        PlansWrite(w1, ps[1..], room);
        CountTwice(w.stack, 1, |ps| - 1);
        if FittingAll(ps[1..], room) { Associates(w.buf, PlanBytes(ps[0], room), PlansBytes(ps[1..], room)); }
      }
    }
  }

  lemma RunNothing(w: State)
    ensures Run(w, []) == Result(w, Done)
  {
  }

  lemma NothingCounted(stack: seq<Meta>)
    ensures Count(stack, 0) == stack
  {
    if stack != [] {
      var k := |stack| - 1;
      ModAdd(stack[k].items, 0);
      assert stack[..k] + [stack[k]] == stack;
    }
  }

  // --- reading back ---------------------------------------------------------------------------

  /** No container has 2^32 items or more. */
  ghost predicate Bounded(p: Plan) {
    p.Branch? ==> |p.kids| < U32 && forall k | k in p.kids :: Bounded(k)
  }

  lemma {:induction false} PlanEncodes(p: Plan, room: nat)
    requires Legal(p) && Fitting(p, room) && Bounded(p)
    ensures Encodes(PlanBytes(p, room), [Tree(p)])
    decreases p, 0
  {
    hide Encodes, Header, HeaderWidth, EncodeLeaf;
    match p
    case Leaf(v) => LeafEncodes(v);
    case Branch(isMap, guess, kids) =>
      FitsWide(Full(p));
      PlansEncode(kids, room - 1);
      HeaderEncodes(isMap, HeaderWidth(guess), Cardinality(Full(p)), PlansBytes(kids, room - 1), Trees(kids));
  }

  lemma {:induction false} PlansEncode(ps: seq<Plan>, room: nat)
    requires (forall p | p in ps :: Legal(p) && Bounded(p)) && FittingAll(ps, room)
    ensures Encodes(PlansBytes(ps, room), Trees(ps))
    decreases ps, 0
  {
    if ps == [] {
      assert Parse([], 0) == Good([], []);
    } else {
      hide Encodes, PlanBytes, Fitting, Tree;
      PlanEncodes(ps[0], room);
      PlansEncode(ps[1..], room);
      EncodesAppend(PlanBytes(ps[0], room), [Tree(ps[0])], PlansBytes(ps[1..], room), Trees(ps[1..]));
    }
  }

  /** Every item takes a byte at least, so what is shorter than 2^32 bytes has no larger container. */
  lemma {:induction false} ShortIsBounded(p: Plan, room: nat)
    requires Legal(p) && Fitting(p, room) && |PlanBytes(p, room)| < U32
    ensures Bounded(p)
    decreases p, 0
  {
    hide Header, HeaderWidth, Fits, EncodeLeaf;
    if p.Branch? {
      FitsWide(Full(p));
      ShortAreBounded(p.kids, room - 1);
    }
  }

  lemma {:induction false} ShortAreBounded(ps: seq<Plan>, room: nat)
    requires (forall p | p in ps :: Legal(p)) && FittingAll(ps, room)
    requires |PlansBytes(ps, room)| < U32
    ensures |ps| <= |PlansBytes(ps, room)| && forall p | p in ps :: Bounded(p)
    decreases ps, 0
  {
    hide PlanBytes, Bounded;
    if ps != [] {
      NotEmpty(ps[0], room);
      ShortIsBounded(ps[0], room);
      ShortAreBounded(ps[1..], room);
      assert forall p | p in ps :: p == ps[0] || p in ps[1..];
    }
  }

  lemma NotEmpty(p: Plan, room: nat)
    requires Legal(p) && Fitting(p, room)
    ensures PlanBytes(p, room) != []
  {
    match p
    case Leaf(v) => LeafNotEmpty(v);
    case Branch(_, _, _) => hide Header, HeaderWidth; FitsWide(Full(p));
  }

  lemma LeafNotEmpty(v: Value)
    requires Writable(v)
    ensures EncodeLeaf(v) != []
  {
    hide BigEndian;
  }

  /** Whatever follows: if the bytes are read as the tree, every header in them told the truth. */
  lemma {:induction false} ReadAsTree(p: Plan, room: nat, t: bytes)
    requires Legal(p) && Fitting(p, room)
    requires var q := Parse(PlanBytes(p, room) + t, 1); q.Good? && q.items == [Tree(p)]
    ensures Bounded(p)
    decreases p, 0
  {
    hide Header, HeaderWidth, HeadOf, Fits, Parse;
    if p.Branch? {
      var n, w := Cardinality(Full(p)), HeaderWidth(p.guess);
      FitsWide(Full(p));
      var h, body := Header(p.isMap, w, n), PlansBytes(p.kids, room - 1);
      assert h + body + t == h + (body + t) && (h + (body + t))[w..] == body + t;
      HeaderParses(p.isMap, w, n, body + t);
      ReadCount(h + (body + t), p.isMap, w, if p.isMap then 2 * n else n, Trees(p.kids));
      ReadAsTrees(p.kids, room - 1, t);
    }
  }

  lemma FitsWide(nd: Node)
    requires Fits(nd) && !nd.kind.MsgKind?
    ensures HeaderWidth(Cardinality(nd)) <= HeaderWidth(nd.guess)
  {
  }

  /** A container read from its header has as many items as the header declares. */
  lemma ReadCount(s: bytes, isMap: bool, w: nat, c: nat, vs: seq<Value>)
    requires HeadOf(s) == Container(isMap, w, c) && w <= |s|
    requires Parse(s, 1).Good? && Parse(s, 1).items == [if isMap then Map(vs) else Arr(vs)]
    ensures |vs| == c && Parse(s[w..], c).Good? && Parse(s[w..], c).items == vs
  {
    hide HeadOf, Parse;
    UnfoldContainer(s, 1, isMap, w, c);
    var inner := Parse(s[w..], c);
    assert Parse(s, 1).items[0] == if isMap then Map(inner.items) else Arr(inner.items);
  }

  lemma {:induction false} ReadAsTrees(ps: seq<Plan>, room: nat, t: bytes)
    requires (forall p | p in ps :: Legal(p)) && FittingAll(ps, room)
    requires var q := Parse(PlansBytes(ps, room) + t, |ps|); q.Good? && q.items == Trees(ps)
    ensures forall p | p in ps :: Bounded(p)
    decreases ps, 0
  {
    hide Parse, PlanBytes, Fitting, Tree, Bounded;
    if ps != [] {
      var a, b := PlanBytes(ps[0], room), PlansBytes(ps[1..], room);
      assert a + b + t == a + (b + t);
      hide PlansBytes;
      assert Trees(ps)[0] == Tree(ps[0]) && Trees(ps)[1..] == Trees(ps[1..]);
      ParseFirst(a + (b + t), |ps|);
      ReadAsTree(ps[0], room, b + t);
      PlanEncodes(ps[0], room);
      ParseExtend(a, 1, b + t);
      assert [] + (b + t) == b + t;
      ReadAsTrees(ps[1..], room, t);
      assert forall p | p in ps :: p == ps[0] || p in ps[1..];
    }
  }

  /** For every value tree and all guesses: writing it throws nothing exactly when every cardinality fits
      its guessed header, map items are even and nesting is at most 16; and then the bytes appended parse
      back to exactly that tree exactly when no container in it has 2^32 items or more. */
  lemma TreeRoundTrip(start: bytes, p: Plan)
    requires Legal(p)
    ensures var r := Run(State(start, []), Calls(p));
            (r.outcome == Done <==> Fitting(p, MAX_DEPTH)) &&
            (r.outcome == Done ==> r.state.stack == [] && start <= r.state.buf &&
                                   (Encodes(r.state.buf[|start|..], [Tree(p)]) <==> Bounded(p)))
  {
    hide Run, Calls, Fitting, Bounded, PlanBytes, Parse;
    PlanWrites(State(start, []), p, MAX_DEPTH);
    if Fitting(p, MAX_DEPTH) {
      var b := PlanBytes(p, MAX_DEPTH);
      assert (start + b)[|start|..] == b && b + [] == b;
      if Bounded(p) { PlanEncodes(p, MAX_DEPTH); }
      if Encodes(b, [Tree(p)]) { ReadAsTree(p, MAX_DEPTH, []); }
    }
  }

  /** The size operator<< passes for a vector, a map or a tuple: the true one, cut to 32 bits. */
  ghost predicate Exact(p: Plan) {
    p.Branch? ==>
      (p.isMap ==> |p.kids| % 2 == 0) &&
      p.guess == (if p.isMap then |p.kids| / 2 else |p.kids|) % U32 &&
      forall k | k in p.kids :: Exact(k)
  }

  ghost predicate Nesting(p: Plan, room: nat) {
    p.Branch? ==> room > 0 && forall k | k in p.kids :: Nesting(k, room - 1)
  }

  /** So for these only nesting can fail. */
  lemma {:induction false} ExactSizesFit(p: Plan, room: nat)
    requires Exact(p)
    ensures Fitting(p, room) <==> Nesting(p, room)
    decreases p, 0
  {
    if p.Branch? && room > 0 {
      HalfOfWrapped(|p.kids|);
      WidthGrows(Cardinality(Full(p)), p.guess);
      hide HeaderWidth;
      AllExactSizesFit(p.kids, room - 1);
    }
  }

  lemma HalfOfWrapped(n: nat)
    ensures n % U32 / 2 <= n / 2 % U32
  {
    var q, r := n / U32, n % U32;
    assert n == q * U32 + r;
    assert n / 2 == q * (U32 / 2) + r / 2;
    if q % 2 == 0 {
      assert n / 2 == (q / 2) * U32 + r / 2;
    } else {
      assert n / 2 == (q / 2) * U32 + (U32 / 2 + r / 2);
    }
  }

  lemma {:induction false} AllExactSizesFit(ps: seq<Plan>, room: nat)
    requires forall p | p in ps :: Exact(p)
    ensures FittingAll(ps, room) <==> forall p | p in ps :: Nesting(p, room)
    decreases ps, 0
  {
    if ps != [] {
      ExactSizesFit(ps[0], room);
      AllExactSizesFit(ps[1..], room);
      assert forall p | p in ps :: p == ps[0] || p in ps[1..];
    }
  }
}
