/**
 What the writers promise: header patching under a stack of open containers always yields bytes
 that parse back to the trees the calls describe.
 */
module WriterTheorems {
  import opened Bytes
  import opened MsgPack
  import opened Writer
  import opened Frames
  import opened Spellings

  // --- the simulation relation ----------------------------------------------------------------

  function HeaderLen(nd: Node): (n: nat)
    ensures n >= 1
  {
    if nd.kind.MsgKind? then 5 + |nd.lead| else HeaderWidth(nd.guess)
  }

  /** The header of an open entry still holds the guess; a message's length bytes hold anything
      and its lead stands before the items. */
  ghost predicate HeaderOk(nd: Node, h: bytes) {
    match nd.kind
    case ArrKind => h == Header(false, HeaderWidth(nd.guess), nd.guess)
    case MapKind => h == Header(true, HeaderWidth(nd.guess), nd.guess)
    case MsgKind => |h| == 5 + |nd.lead| && h[0] == 0xce && h[5..] == nd.lead && nd.guess == U32 - 1
  }

  /** buf is base followed by the open entries, each a header and whole items; a container open
      inside an entry is already counted (`pending`) though its bytes are not complete. */
  ghost predicate Represents(buf: bytes, stack: seq<Meta>, open: seq<Node>, base: bytes, pending: nat)
    decreases |open|
  {
    if open == [] then stack == [] && buf == base
    else
      var k := |open| - 1;
      |stack| == |open| && EntryOk(buf, stack[k], open[k], pending) &&
      (open[k].kind.MsgKind? ==> k == 0) &&
      Represents(buf[..stack[k].head], stack[..k], open[..k], base, 1)
  }

  ghost predicate EntryOk(buf: bytes, m: Meta, nd: Node, pending: nat) {
    m.guess == nd.guess &&
    m.head + HeaderLen(nd) <= |buf| &&
    HeaderOk(nd, buf[m.head..m.head + HeaderLen(nd)]) &&
    Spelled(buf[m.head + HeaderLen(nd)..], nd.items) &&
    m.items == (|nd.items| + pending) % U32
  }

  /** The bytes after one finished top-level item, a bare value or a whole iproto message. */
  ghost function TakeTop(s: bytes, top: Top): Walked {
    match top
    case Item(v) => if ReadOne(s, v).Read? then At(ReadOne(s, v).rest) else Lost
    case Msg(lead, items) =>
      var t := TakeMessage(s);
      if t.Message? && lead <= t.payload && Encodes(t.payload[|lead|..], items) then At(t.rest) else Lost
  }

  /** s is exactly the finished top-level items. */
  ghost predicate TopsIn(s: bytes, done: seq<Top>)
    decreases |done|
  {
    if done == [] then s == []
    else TakeTop(s, done[0]).At? && TopsIn(TakeTop(s, done[0]).rest, done[1..])
  }

  /** No header of the finished items declares fewer than there are. */
  ghost predicate HonestTops(s: bytes, done: seq<Top>)
    decreases |done|
  {
    done == [] ||
    (HonestTop(s, done[0]) && TakeTop(s, done[0]).At? && HonestTops(TakeTop(s, done[0]).rest, done[1..]))
  }

  ghost predicate HonestTop(s: bytes, top: Top) {
    top.Item? ==> ReadOne(s, top.v).Read? && ReadOne(s, top.v).honest
  }

  /** Nor does one among the items of the open entries. */
  ghost predicate HonestOpen(buf: bytes, stack: seq<Meta>, open: seq<Node>)
    decreases |open|
  {
    open == [] ||
    (var k := |open| - 1;
     |stack| == |open| && stack[k].head + HeaderLen(open[k]) <= |buf| &&
     Encodes(buf[stack[k].head + HeaderLen(open[k])..], open[k].items) &&
     HonestOpen(buf[..stack[k].head], stack[..k], open[..k]))
  }

  ghost predicate Honest(w: State, f: Forest, start: bytes, base: bytes) {
    HonestOpen(w.buf, w.stack, f.open) && start <= base && HonestTops(base[|start|..], f.done)
  }

  ghost predicate Simulates(w: State, f: Forest, start: bytes, base: bytes) {
    Represents(w.buf, w.stack, f.open, base, 0) && start <= base && TopsIn(base[|start|..], f.done)
  }

  // --- whole numbers of items -----------------------------------------------------------------

  lemma EncodesCons(s: bytes, vs: seq<Value>)
    requires Parse(s, 1).Good? && Encodes(Parse(s, 1).rest, vs)
    ensures Encodes(s, [Parse(s, 1).items[0]] + vs)
  {
    hide Parse;
    ParseSplit(s, 1, |vs|);
    assert Parse(s, 1).items == [Parse(s, 1).items[0]];
  }

  lemma {:induction false} ItemsOfEncodes(s: bytes)
    requires ItemsOf(s).Good?
    ensures Encodes(s, ItemsOf(s).items)
    decreases |s|
  {
    if s != [] {
      hide Parse, HeadOf, ScalarValue;
      var p := Parse(s, 1);
      ItemsOfEncodes(p.rest);
      EncodesCons(s, ItemsOf(p.rest).items);
    } else {
      assert Parse([], 0) == Good([], []);
    }
  }

  lemma EncodesFirst(s: bytes, vs: seq<Value>)
    requires vs != [] && Encodes(s, vs)
    ensures Parse(s, 1).Good? && Parse(s, 1).items == [vs[0]] && Encodes(Parse(s, 1).rest, vs[1..])
  {
    hide Parse;
    ParseFirst(s, |vs|);
  }

  lemma {:induction false} EncodesItemsOf(s: bytes, vs: seq<Value>)
    requires Encodes(s, vs)
    ensures ItemsOf(s) == Good(vs, [])
    decreases |s|
  {
    if vs != [] {
      EncodesFirst(s, vs);
      assert s != [] by { ParseEmpty(|vs|); }
      hide Parse, Encodes;
      EncodesItemsOf(Parse(s, 1).rest, vs[1..]);
      assert vs == [vs[0]] + vs[1..];
    }
  }

  lemma ParseFirst(s: bytes, k: nat)
    requires k > 0 && Parse(s, k).Good?
    ensures Parse(s, 1).Good? && Parse(s, 1).items == [Parse(s, k).items[0]]
    ensures Parse(Parse(s, 1).rest, k - 1) == Good(Parse(s, k).items[1..], Parse(s, k).rest)
  {
    hide HeadOf, ScalarValue;
    match HeadOf(s)
    case Scalar(n) =>
      assert Parse(s[n..], 0) == Good([], s[n..]);
    case Container(isMap, w, c) =>
      var r := Parse(s[w..], c).rest;
      assert Parse(r, 0) == Good([], r);
  }

  /** Counting raw items by walking them is right: the count is the number of items encoded. */
  lemma CountingIsParsing(s: bytes, vs: seq<Value>)
    ensures Encodes(s, vs) <==> ItemsOf(s) == Good(vs, [])
  {
    if Encodes(s, vs) { EncodesItemsOf(s, vs); }
    if ItemsOf(s).Good? { ItemsOfEncodes(s); }
  }

  lemma SliceAppend(s: bytes, t: bytes, i: nat, j: nat)
    requires i <= j <= |s|
    ensures (s + t)[i..j] == s[i..j]
    ensures (s + t)[j..] == s[j..] + t
    ensures (s + t)[..i] == s[..i]
  {
  }

  // --- top level ------------------------------------------------------------------------------

  lemma TakeTopExtend(s: bytes, t: bytes, top: Top)
    requires TakeTop(s, top).At?
    ensures TakeTop(s + t, top) == At(TakeTop(s, top).rest + t)
    ensures HonestTop(s + t, top) <==> HonestTop(s, top)
  {
    hide ReadOne, Encodes;
    match top
    case Item(v) => ReadOneExtends(s, v, t);
    case Msg(_, _) => TakeMessageExtend(s, t);
  }

  lemma {:induction false} TopsAppend(s: bytes, a: seq<Top>, t: bytes, b: seq<Top>)
    requires TopsIn(s, a) && TopsIn(t, b)
    ensures TopsIn(s + t, a + b)
    ensures HonestTops(s + t, a + b) <==> HonestTops(s, a) && HonestTops(t, b)
    decreases |a|
  {
    hide TakeTop, HonestTop;
    if a == [] {
      assert s + t == t && a + b == b;
    } else {
      assert (a + b)[1..] == a[1..] + b;
      TakeTopExtend(s, t, a[0]);
      TopsAppend(TakeTop(s, a[0]).rest, a[1..], t, b);
    }
  }

  /** Top-level values in s are a spelling of them, and honest together. */
  lemma {:induction false} TopsOfItems(s: bytes, vs: seq<Value>)
    ensures TopsIn(s, Tops(vs)) <==> Spelled(s, vs)
    ensures Spelled(s, vs) ==> (HonestTops(s, Tops(vs)) <==> ReadAll(s, vs).honest)
    decreases |vs|
  {
    if vs != [] {
      hide ReadOne;
      assert Tops(vs)[1..] == Tops(vs[1..]) && Tops(vs)[0] == Item(vs[0]);
      hide Tops;
      if ReadOne(s, vs[0]).Read? { TopsOfItems(ReadOne(s, vs[0]).rest, vs[1..]); }
    }
  }

  lemma TopsOfMessage(payload: bytes, lead: bytes, items: seq<Value>)
    requires |payload| < U32 && lead <= payload && Encodes(payload[|lead|..], items)
    ensures TopsIn(MessageBytes(payload), [Msg(lead, items)]) && HonestTops(MessageBytes(payload), [Msg(lead, items)])
  {
    hide Encodes, TakeMessage, MessageBytes;
    MessageParts(payload, []);
    assert MessageBytes(payload) + [] == MessageBytes(payload);
    assert [Msg(lead, items)][1..] == [];
    assert TopsIn([], []) && HonestTops([], []);
  }

  // --- one call at a time ---------------------------------------------------------------------

  lemma EntryAbsorbs(buf: bytes, m: Meta, nd: Node, p: nat, bs: bytes, vs: seq<Value>, n: nat, q: nat)
    requires EntryOk(buf, m, nd, p) && Spelled(bs, vs)
    requires p + n == |vs| + q
    ensures EntryOk(buf + bs, m.(items := (m.items + n) % U32), nd.(items := nd.items + vs), q)
    ensures var h := m.head + HeaderLen(nd);
            Encodes((buf + bs)[h..], nd.items + vs) <==> Encodes(buf[h..], nd.items) && Encodes(bs, vs)
  {
    hide Encodes, Spelled, HeaderOk;
    var h := m.head + HeaderLen(nd);
    var nd' := nd.(items := nd.items + vs);
    SliceAppend(buf, bs, m.head, h);
    SpelledAppend(buf[h..], nd.items, bs, vs);
    SameHeader(nd, nd', buf[m.head..h]);
    ModAdd(|nd.items| + p, n);
  }

  lemma Push(buf: bytes, stack: seq<Meta>, m: Meta, open: seq<Node>, nd: Node, base: bytes, p: nat)
    requires EntryOk(buf, m, nd, p) && (nd.kind.MsgKind? ==> open == [])
    requires m.head <= |buf| && Represents(buf[..m.head], stack, open, base, 1)
    ensures Represents(buf, stack + [m], open + [nd], base, p)
    ensures m.head + HeaderLen(nd) <= |buf|
    ensures HonestOpen(buf, stack + [m], open + [nd]) <==>
            Encodes(buf[m.head + HeaderLen(nd)..], nd.items) && HonestOpen(buf[..m.head], stack, open)
  {
    assert m.head + HeaderLen(nd) <= |buf|;
    hide EntryOk, Encodes;
    var s, o := stack + [m], open + [nd];
    assert |s| == |o| by { SameDepth(buf[..m.head], stack, open, base, 1); }
    assert s[|s| - 1] == m && s[..|s| - 1] == stack;
    assert o[|o| - 1] == nd && o[..|o| - 1] == open;
  }

  lemma SameDepth(buf: bytes, stack: seq<Meta>, open: seq<Node>, base: bytes, p: nat)
    requires Represents(buf, stack, open, base, p)
    ensures |stack| == |open|
    ensures open != [] ==>
      var k := |open| - 1;
      EntryOk(buf, stack[k], open[k], p) && stack[k].head + HeaderLen(open[k]) <= |buf| &&
      (open[k].kind.MsgKind? ==> k == 0) &&
      Represents(buf[..stack[k].head], stack[..k], open[..k], base, 1) &&
      (HonestOpen(buf, stack, open) <==>
         Encodes(buf[stack[k].head + HeaderLen(open[k])..], open[k].items) &&
         HonestOpen(buf[..stack[k].head], stack[..k], open[..k]))
  {
    hide HeaderOk, Encodes, Spelled;
  }

  /** Whole items appended to the innermost entry. */
  lemma Absorb(buf: bytes, stack: seq<Meta>, open: seq<Node>, base: bytes, p: nat,
               bs: bytes, vs: seq<Value>, n: nat, q: nat)
    requires open != [] && Represents(buf, stack, open, base, p) && Spelled(bs, vs)
    requires p + n == |vs| + q
    ensures var k := |open| - 1;
            var open' := open[..k] + [open[k].(items := open[k].items + vs)];
            Represents(buf + bs, Count(stack, n), open', base, q) &&
            (HonestOpen(buf + bs, Count(stack, n), open') <==> HonestOpen(buf, stack, open) && Encodes(bs, vs))
  {
    hide EntryOk, Encodes, Spelled, Represents, HonestOpen;
    SameDepth(buf, stack, open, base, p);
    var k := |open| - 1;
    EntryAbsorbs(buf, stack[k], open[k], p, bs, vs, n, q);
    assert (buf + bs)[..stack[k].head] == buf[..stack[k].head];
    Push(buf + bs, stack[..k], stack[k].(items := (stack[k].items + n) % U32),
         open[..k], open[k].(items := open[k].items + vs), base, q);
  }

  lemma SameHeader(nd: Node, nd': Node, h: bytes)
    requires nd'.kind == nd.kind && nd'.guess == nd.guess && nd'.lead == nd.lead && HeaderOk(nd, h)
    ensures HeaderOk(nd', h)
  {
  }

  lemma ModAdd(a: nat, n: nat)
    ensures (a % U32 + n) % U32 == (a + n) % U32
  {
  }

  /** Raw items are declared with their true number; a lead comes first in its message. */
  predicate Declared(f: Forest, op: Op) {
    (op.Items? ==> ItemsOf(op.bs).Good? && (op.card == 0 || op.card == |ItemsOf(op.bs).items|)) &&
    (op.Lead? ==> f.open != [] && f.open[|f.open| - 1].kind.MsgKind? && f.open[|f.open| - 1].items == [])
  }

  /** Where the finished bytes end once one more item or message closes. */
  lemma AddSimulates(w: State, stack: seq<Meta>, f: Forest, start: bytes, base: bytes, p: nat,
                     bs: bytes, vs: seq<Value>, n: nat) returns (base': bytes)
    requires Represents(w.buf, stack, f.open, base, p) && start <= base && TopsIn(base[|start|..], f.done)
    requires Spelled(bs, vs)
    requires f.open != [] ==> p + n == |vs|
    requires w.stack == Count(stack, n)
    ensures Simulates(State(w.buf + bs, w.stack), Add(f, vs), start, base')
    ensures Honest(State(w.buf + bs, w.stack), Add(f, vs), start, base') <==>
            HonestOpen(w.buf, stack, f.open) && HonestTops(base[|start|..], f.done) && Encodes(bs, vs)
  {
    if f.open == [] {
      hide TopsIn, HonestTops, ReadAll, Encodes;
      base' := base + bs;
      TopsOfItems(bs, vs);
      EncodesHonestly(bs, vs);
      TopsAppend(base[|start|..], f.done, bs, Tops(vs));
      assert base'[|start|..] == base[|start|..] + bs;
    } else {
      hide Represents, TopsIn, HonestTops, HonestOpen, Spelled, Encodes;
      base' := base;
      Absorb(w.buf, stack, f.open, base, p, bs, vs, n, 0);
    }
  }

  lemma ItemsStep(w: State, f: Forest, start: bytes, base: bytes, op: Op) returns (base': bytes)
    requires Simulates(w, f, start, base) && op.Items? && Declared(f, op)
    ensures Step(w, op).outcome == Done
    ensures Simulates(Step(w, op).state, Build(f, op), start, base')
    ensures Honest(Step(w, op).state, Build(f, op), start, base') <==> Honest(w, f, start, base)
  {
    hide Encodes, Spelled, Represents, TopsIn, HonestTops, HonestOpen;
    var vs := ItemsOf(op.bs).items;
    ItemsOfEncodes(op.bs);
    EncodesSpells(op.bs, vs);
    SameDepth(w.buf, w.stack, f.open, base, 0);
    base' := AddSimulates(State(w.buf, Count(w.stack, |vs|)), w.stack, f, start, base, 0, op.bs, vs, |vs|);
    if op.card == 0 {} else {}
  }

  lemma EntryOpens(buf: bytes, h: bytes, nd: Node)
    requires nd.items == [] && HeaderOk(nd, h) && |h| == HeaderLen(nd)
    ensures EntryOk(buf + h, Meta(|buf|, nd.guess, 0), nd, 0)
    ensures |buf| + HeaderLen(nd) == |buf + h| && Encodes((buf + h)[|buf| + HeaderLen(nd)..], nd.items)
  {
    hide HeaderOk;
    var b := buf + h;
    assert b[|buf|..|buf| + |h|] == h;
    assert b[|buf| + |h|..] == [];
    NoItems();
  }

  lemma ContainerHeader(nd: Node)
    requires !nd.kind.MsgKind?
    ensures HeaderOk(nd, Header(nd.kind.MapKind?, HeaderWidth(nd.guess), nd.guess))
  {
  }

  lemma OpenStep(w: State, f: Forest, start: bytes, base: bytes, op: Op)
    requires Simulates(w, f, start, base) && op.Open?
    ensures Step(w, op).outcome == if |f.open| < MAX_DEPTH then Done else TooDeep
    ensures |f.open| < MAX_DEPTH ==>
              Simulates(Step(w, op).state, Build(f, op), start, base) &&
              (Honest(Step(w, op).state, Build(f, op), start, base) <==> Honest(w, f, start, base))
  {
    hide Represents, TopsIn, EntryOk, HeaderOk, HonestTops, HonestOpen, Encodes;
    SameDepth(w.buf, w.stack, f.open, base, 0);
    if |f.open| < MAX_DEPTH {
      if f.open != [] {
        CountedAhead(w, f, base);
      } else {
        Bottom(w.buf, w.stack, base);
      }
      var nd := Node(if op.isMap then MapKind else ArrKind, op.guess, [], []);
      var h := Header(op.isMap, HeaderWidth(op.guess), op.guess);
      assert HeaderOk(nd, h) by { ContainerHeader(nd); }
      EntryOpens(w.buf, h, nd);
      assert (w.buf + h)[..|w.buf|] == w.buf;
      hide Header, HeaderWidth;
      Push(w.buf + h, Count(w.stack, 1), Meta(|w.buf|, op.guess, 0), f.open, nd, base, 0);
    }
  }

  /** The container about to be opened counts in the one around it. */
  lemma CountedAhead(w: State, f: Forest, base: bytes)
    requires f.open != [] && Represents(w.buf, w.stack, f.open, base, 0)
    ensures Represents(w.buf, Count(w.stack, 1), f.open, base, 1)
    ensures HonestOpen(w.buf, Count(w.stack, 1), f.open) <==> HonestOpen(w.buf, w.stack, f.open)
  {
    NoItems();
    hide Represents, HonestOpen, Encodes, Spelled;
    Absorb(w.buf, w.stack, f.open, base, 0, [], [], 1, 1);
    var k := |f.open| - 1;
    assert w.buf + [] == w.buf;
    assert f.open[k].items + [] == f.open[k].items;
    assert f.open[..k] + [f.open[k]] == f.open;
  }

  lemma NoItems()
    ensures Encodes([], []) && Spelled([], [])
  {
    assert Parse([], 0) == Good([], []);
    EncodesSpells([], []);
  }

  lemma Bottom(buf: bytes, stack: seq<Meta>, base: bytes)
    requires Represents(buf, stack, [], base, 0)
    ensures stack == [] && base == buf && Represents(buf, Count(stack, 1), [], base, 1)
    ensures HonestOpen(buf, Count(stack, 1), []) && HonestOpen(buf, stack, [])
  {
  }

  // --- closing --------------------------------------------------------------------------------

  /** items_count is 32 bits wide. */
  function Counted(nd: Node): u32 {
    |nd.items| % U32
  }

  /** The cardinality finalize has for the header: the count, for a map half of it. */
  function Cardinality(nd: Node): u32 {
    if nd.kind.MapKind? then Counted(nd) / 2 else Counted(nd)
  }

  /** What the caller may check before finalize: an even number of map items, and a cardinality that the
      header reserved by the guess can hold. */
  predicate Fits(nd: Node) {
    nd.kind.MsgKind? ||
    ((nd.kind.MapKind? ==> |nd.items| % 2 == 0) && HeaderWidth(Cardinality(nd)) <= HeaderWidth(nd.guess))
  }

  lemma PatchIsHeader(buf: bytes, head: nat, isMap: bool, g: u32, n: u32)
    requires HeaderWidth(n) <= HeaderWidth(g)
    requires var w := HeaderWidth(g); head + w <= |buf| && buf[head..head + w] == Header(isMap, w, g)
    ensures var w := HeaderWidth(g);
            PatchCount(buf, head, isMap, w, n) == buf[..head] + Header(isMap, w, n) + buf[head + w..]
  {
    hide BigEndian;
    var w := HeaderWidth(g);
    var r := PatchCount(buf, head, isMap, w, n);
    assert buf[head] == Header(isMap, w, g)[0];
    if w > 1 {
      assert buf[..head + 1] == buf[..head] + [Header(isMap, w, n)[0]];
      assert r == buf[..head + 1] + BigEndian(n, w - 1) + buf[head + w..];
      assert Header(isMap, w, n) == [Header(isMap, w, n)[0]] + BigEndian(n, w - 1);
    }
  }

  lemma HeaderKind(buf: bytes, m: Meta, nd: Node)
    requires EntryOk(buf, m, nd, 0) && !nd.kind.MsgKind?
    ensures m.head + HeaderLen(nd) <= |buf| && m.guess == nd.guess && m.items == Counted(nd)
    ensures buf[m.head..m.head + HeaderLen(nd)] == Header(nd.kind.MapKind?, HeaderLen(nd), nd.guess)
    ensures MapHead(buf[m.head]) == nd.kind.MapKind? && ArrayHead(buf[m.head]) == nd.kind.ArrKind?
    ensures buf[m.head] != 0xce
  {
    hide Encodes, BigEndian;
    assert buf[m.head] == buf[m.head..m.head + HeaderLen(nd)][0];
  }

  /** finalize throws exactly when the 32-bit count does not fit the reserved header, or a map has an odd
      number of items; thrown or not, the entry is popped. */
  lemma FinalizeThrows(w: State, nd: Node)
    requires w.stack != [] && !nd.kind.MsgKind?
    requires EntryOk(w.buf, w.stack[|w.stack| - 1], nd, 0)
    ensures Finalize(w) == FinalizeContainer(w) && Finalize(w).state.stack == Pop(w).stack
    ensures Finalize(w).outcome == Done <==> Fits(nd)
    ensures !Fits(nd) ==> Finalize(w).state.buf == w.buf
  {
    var m := w.stack[|w.stack| - 1];
    HeaderKind(w.buf, m, nd);
    hide EntryOk, PatchCount, Header, MapHead, ArrayHead, HeaderWidth, FinalizeContainer, HeaderLen, Fits, Cardinality;
    ContainerVerdict(w, nd);
  }

  /** A finalize that does not throw rewrites exactly the header: the count becomes the cardinality, its
      width and every other byte stay. */
  lemma FinalizePatchesHeader(w: State, nd: Node)
    requires w.stack != [] && !nd.kind.MsgKind? && Fits(nd)
    requires EntryOk(w.buf, w.stack[|w.stack| - 1], nd, 0)
    ensures var m := w.stack[|w.stack| - 1];
            HeaderWidth(Cardinality(nd)) <= HeaderWidth(nd.guess) &&
            m.head + HeaderLen(nd) <= |w.buf| &&
            Finalize(w).state.buf == w.buf[..m.head] +
                                     Header(nd.kind.MapKind?, HeaderWidth(nd.guess), Cardinality(nd)) +
                                     w.buf[m.head + HeaderLen(nd)..]
  {
    var m := w.stack[|w.stack| - 1];
    var isMap, n := nd.kind.MapKind?, Cardinality(nd);
    HeaderKind(w.buf, m, nd);
    assert HeaderWidth(n) <= HeaderWidth(nd.guess);
    assert Finalize(w) == FinalizeContainer(w);
    hide EntryOk, PatchCount, Header, MapHead, ArrayHead, HeaderWidth, FinalizeContainer, Finalize, Fits;
    FinalizeThrows(w, nd);
    ContainerVerdict(w, nd);
    if n == nd.guess {
      ThreeParts(w.buf, m.head, m.head + HeaderLen(nd));
    } else {
      PatchIsHeader(w.buf, m.head, isMap, nd.guess, n);
    }
  }

  lemma ThreeParts(s: bytes, i: nat, j: nat)
    requires i <= j <= |s|
    ensures s == s[..i] + s[i..j] + s[j..]
  {
  }

  lemma ContainerResult(w: State, isMap: bool, count: nat, n: u32)
    requires w.stack != []
    requires var m := w.stack[|w.stack| - 1];
             m.head < |w.buf| && m.items == count &&
             MapHead(w.buf[m.head]) == isMap && ArrayHead(w.buf[m.head]) == !isMap
    requires n == if isMap then count / 2 else count
    ensures var m := w.stack[|w.stack| - 1];
            FinalizeContainer(w) ==
              if isMap && count % 2 == 1 then Result(Pop(w), OddMap)
              else if n == m.guess then Result(Pop(w), Done)
              else if n > m.guess && HeaderWidth(n) > HeaderWidth(m.guess) then Result(Pop(w), HeaderExceeded)
              else Result(Pop(w).(buf := PatchCount(w.buf, m.head, isMap, HeaderWidth(m.guess), n)), Done)
  {
    hide MapHead, ArrayHead, HeaderWidth, PatchCount;
  }

  /** finalize decided: what `nd` amounts to either fits and is patched, unless it equals the guess, or throws. */
  lemma ContainerVerdict(w: State, nd: Node)
    requires w.stack != [] && !nd.kind.MsgKind?
    requires var m := w.stack[|w.stack| - 1];
             m.head < |w.buf| && m.items == Counted(nd) && m.guess == nd.guess &&
             MapHead(w.buf[m.head]) == nd.kind.MapKind? && ArrayHead(w.buf[m.head]) == nd.kind.ArrKind?
    ensures var m := w.stack[|w.stack| - 1];
            var r := FinalizeContainer(w);
            var n := Cardinality(nd);
            (r.outcome == Done <==> Fits(nd)) &&
            r.state.stack == Pop(w).stack &&
            r.state.buf == if Fits(nd) && n != nd.guess
                           then PatchCount(w.buf, m.head, nd.kind.MapKind?, HeaderWidth(nd.guess), n) else w.buf
  {
    hide HeaderWidth, PatchCount, MapHead, ArrayHead, FinalizeContainer;
    ContainerResult(w, nd.kind.MapKind?, Counted(nd), Cardinality(nd));
    WidthGrows(Cardinality(nd), nd.guess);
  }

  lemma WidthGrows(n: nat, g: nat)
    ensures n <= g ==> HeaderWidth(n) <= HeaderWidth(g)
  {
  }

  /** The header the writer patches declares the items modulo 2^32. */
  lemma ClosedSpells(buf: bytes, m: Meta, nd: Node)
    requires EntryOk(buf, m, nd, 0) && !nd.kind.MsgKind? && Fits(nd)
    ensures m.head + HeaderLen(nd) <= |buf| && HeaderWidth(Cardinality(nd)) <= HeaderWidth(nd.guess)
    ensures var body := buf[m.head + HeaderLen(nd)..];
            var s := Header(nd.kind.MapKind?, HeaderWidth(nd.guess), Cardinality(nd)) + body;
            Spelled(s, [TreeOf(nd)]) &&
            (Encodes(s, [TreeOf(nd)]) <==> Encodes(body, nd.items) && |nd.items| < U32)
  {
    hide Encodes, Spelled, HeaderOk, Header, HeaderWidth;
    HeaderSpells(nd.kind.MapKind?, HeaderWidth(nd.guess), Cardinality(nd), buf[m.head + HeaderLen(nd)..], nd.items);
  }

  /** With that header in front, the bytes encode the container exactly when those of the items encode them
      and there are fewer than 2^32: beyond that the count has wrapped, and the header declares too few. */
  lemma FinalizeEncodesExactly(w: State, nd: Node)
    requires w.stack != [] && !nd.kind.MsgKind? && Fits(nd)
    requires EntryOk(w.buf, w.stack[|w.stack| - 1], nd, 0)
    ensures var m := w.stack[|w.stack| - 1];
            m.head + HeaderLen(nd) <= |w.buf| == |Finalize(w).state.buf| && Finalize(w).outcome == Done &&
            (Encodes(Finalize(w).state.buf[m.head..], [TreeOf(nd)]) <==>
             Encodes(w.buf[m.head + HeaderLen(nd)..], nd.items) && |nd.items| < U32)
  {
    hide Finalize, EntryOk, Encodes, Spelled, Header, HeaderWidth, Fits;
    var m := w.stack[|w.stack| - 1];
    FinalizeThrows(w, nd);
    FinalizePatchesHeader(w, nd);
    ClosedSpells(w.buf, m, nd);
    var h := Header(nd.kind.MapKind?, HeaderWidth(nd.guess), Cardinality(nd));
    assert Finalize(w).state.buf[m.head..] == h + w.buf[m.head + HeaderLen(nd)..];
  }

  /** The wrap is real: an array opened for 0 items that has got 2^32 of them is finalized without an
      exception, its header left at 0. */
  lemma CountWraps(body: bytes, vs: seq<Value>)
    requires |vs| == U32 && Encodes(body, vs)
    ensures var w := State([0x90] + body, [Meta(0, 0, 0)]);
            var nd := Node(ArrKind, 0, [], vs);
            EntryOk(w.buf, w.stack[0], nd, 0) && Finalize(w) == Result(State(w.buf, []), Done) &&
            !Encodes(w.buf, [Arr(vs)])
  {
    EncodesSpells(body, vs);
    var w := State([0x90] + body, [Meta(0, 0, 0)]);
    var nd := Node(ArrKind, 0, [], vs);
    assert Header(false, 1, 0) == [0x90];
    assert w.buf[0..1] == [0x90] && w.buf[1..] == body && w.buf[0..] == w.buf;
    assert EntryOk(w.buf, w.stack[0], nd, 0);
    FinalizePatchesHeader(w, nd);
    FinalizeEncodesExactly(w, nd);
    assert w.buf[..0] + [0x90] + w.buf[1..] == w.buf;
  }

  lemma CloseContainerStep(w: State, f: Forest, start: bytes, base: bytes) returns (base': bytes)
    requires Simulates(w, f, start, base) && f.open != [] && !f.open[|f.open| - 1].kind.MsgKind?
    ensures Finalize(w).outcome == Done <==> Fits(f.open[|f.open| - 1])
    ensures Finalize(w).outcome == Done ==>
              Simulates(Finalize(w).state, CloseTop(f), start, base') &&
              (Honest(Finalize(w).state, CloseTop(f), start, base') <==>
               Honest(w, f, start, base) && |f.open[|f.open| - 1].items| < U32)
  {
    hide Represents, TopsIn, Encodes, Spelled, EntryOk, Finalize, FinalizeContainer, Fits, Header, HeaderWidth;
    hide HonestOpen, HonestTops;
    SameDepth(w.buf, w.stack, f.open, base, 0);
    var k := |f.open| - 1;
    var m, nd := w.stack[k], f.open[k];
    FinalizeThrows(w, nd);
    base' := base;
    if Fits(nd) {
      FinalizePatchesHeader(w, nd);
      ClosedSpells(w.buf, m, nd);
      var bs := Header(nd.kind.MapKind?, HeaderWidth(nd.guess), Cardinality(nd)) + w.buf[m.head + HeaderLen(nd)..];
      var below := f.(open := f.open[..k]);
      assert Finalize(w).state.buf == w.buf[..m.head] + bs;
      CountNone(w.stack[..k], w.buf[..m.head], f.open[..k], base);
      base' := AddSimulates(State(w.buf[..m.head], w.stack[..k]), w.stack[..k], below, start, base, 1,
                            bs, [TreeOf(nd)], 0);
    }
  }

  lemma CountNone(stack: seq<Meta>, buf: bytes, open: seq<Node>, base: bytes)
    requires Represents(buf, stack, open, base, 1)
    ensures Count(stack, 0) == stack
  {
    hide Represents, EntryOk;
    SameDepth(buf, stack, open, base, 1);
    if open != [] {
      var k := |open| - 1;
      assert stack == stack[..k] + [stack[k]];
      ModAdd(stack[k].items, 0);
    }
  }

  /** The length of the iproto message being closed, head included. */
  function MessageSize(w: State): nat
    requires w.stack != []
  {
    if w.stack[|w.stack| - 1].head <= |w.buf| then |w.buf| - w.stack[|w.stack| - 1].head else 0
  }

  lemma ShortEncodes(s: bytes, vs: seq<Value>)
    requires Spelled(s, vs)
    ensures |s| < U32 ==> Encodes(s, vs)
  {
    EncodesHonestly(s, vs);
    if |s| < U32 { ShortIsHonest(s, vs); }
  }

  /** finalize on a message stores the exact number of bytes that follow the five-byte head, and throws when
      32 bits cannot. A message that it seals is too short for a container whose counter could wrap. */
  lemma FinalizeSealsMessage(w: State, nd: Node)
    requires w.stack != [] && nd.kind.MsgKind?
    requires EntryOk(w.buf, w.stack[|w.stack| - 1], nd, 0)
    ensures var m := w.stack[|w.stack| - 1];
            var r := Finalize(w);
            var payload := w.buf[m.head + 5..];
            m.head + HeaderLen(nd) <= |w.buf| && nd.lead <= payload &&
            payload[|nd.lead|..] == w.buf[m.head + HeaderLen(nd)..] &&
            r.outcome == (if 5 + |payload| < U32 then Done else SizeExceeded) &&
            r.state.stack == w.stack[..|w.stack| - 1] &&
            (5 + |payload| < U32 ==>
               r.state.buf == w.buf[..m.head] + MessageBytes(payload) && Encodes(payload[|nd.lead|..], nd.items))
  {
    hide Encodes, Spelled, BigEndian, FinalizeContainer;
    ShortEncodes(w.buf[w.stack[|w.stack| - 1].head + HeaderLen(nd)..], nd.items);
    var m := w.stack[|w.stack| - 1];
    var payload := w.buf[m.head + 5..];
    var h := w.buf[m.head..m.head + HeaderLen(nd)];
    assert w.buf[m.head] == h[0];
    assert payload[..|nd.lead|] == h[5..];
    assert payload[|nd.lead|..] == w.buf[m.head + HeaderLen(nd)..];
    if 5 + |payload| < U32 {
      var r := Splice(w.buf, m.head + 1, BigEndian(|payload|, 4));
      assert r == w.buf[..m.head + 1] + BigEndian(|payload|, 4) + payload;
      assert w.buf[..m.head + 1] == w.buf[..m.head] + [0xce];
    }
  }

  lemma CloseMessageStep(w: State, f: Forest, start: bytes, base: bytes) returns (base': bytes)
    requires Simulates(w, f, start, base) && f.open != [] && f.open[|f.open| - 1].kind.MsgKind?
    ensures w.stack != [] && (Finalize(w).outcome == Done <==> MessageSize(w) < U32)
    ensures Finalize(w).outcome == Done ==>
              Simulates(Finalize(w).state, CloseTop(f), start, base') &&
              (Honest(Finalize(w).state, CloseTop(f), start, base') <==> Honest(w, f, start, base))
  {
    hide Represents, TopsIn, Encodes, Spelled, Finalize, MessageBytes, HonestOpen, HonestTops;
    SameDepth(w.buf, w.stack, f.open, base, 0);
    var m, nd := w.stack[0], f.open[0];
    FinalizeSealsMessage(w, nd);
    var payload := w.buf[m.head + 5..];
    base' := base;
    if 5 + |payload| < U32 {
      Bottom1(w.buf[..m.head], w.stack[..0], base);
      base' := base + MessageBytes(payload);
      TopsOfMessage(payload, nd.lead, nd.items);
      TopsAppend(base[|start|..], f.done, MessageBytes(payload), [Msg(nd.lead, nd.items)]);
      assert base'[|start|..] == base[|start|..] + MessageBytes(payload);
      Floor(base');
      assert f.open[..0] == [] && w.stack[..0] == [];
    }
  }

  lemma Floor(base: bytes)
    ensures Represents(base, [], [], base, 0) && HonestOpen(base, [], [])
  {
  }

  lemma Bottom1(buf: bytes, stack: seq<Meta>, base: bytes)
    requires Represents(buf, stack, [], base, 1)
    ensures stack == [] && base == buf && HonestOpen(buf, stack, [])
  {
  }

  /** The 32-bit counter has not wrapped. Messages count nothing. */
  predicate Countable(nd: Node, more: nat) {
    nd.kind.MsgKind? || |nd.items| + more < U32
  }

  /** Nor will it when everything open is closed, each container then being one item of the one around it. */
  ghost predicate AllCountable(f: Forest) {
    forall i | 0 <= i < |f.open| :: Countable(f.open[i], if i < |f.open| - 1 then 1 else 0)
  }

  /** What a call closes holds fewer than 2^32 items. */
  ghost predicate ClosesCountable(f: Forest, op: Op) {
    (op.Close? && f.open != [] ==> Countable(f.open[|f.open| - 1], 0)) &&
    (op.CloseAll? || op.NewMessage? ==> AllCountable(f))
  }

  lemma CloseStep(w: State, f: Forest, start: bytes, base: bytes) returns (base': bytes)
    requires Simulates(w, f, start, base) && f.open != []
    ensures w.stack != []
    ensures Finalize(w).outcome == Done <==>
            if f.open[|f.open| - 1].kind.MsgKind? then MessageSize(w) < U32 else Fits(f.open[|f.open| - 1])
    ensures Finalize(w).outcome == Done ==>
              Simulates(Finalize(w).state, CloseTop(f), start, base') &&
              (Honest(Finalize(w).state, CloseTop(f), start, base') <==>
               Honest(w, f, start, base) && Countable(f.open[|f.open| - 1], 0))
  {
    hide Simulates, Honest, Fits, Finalize;
    if f.open[|f.open| - 1].kind.MsgKind? {
      base' := CloseMessageStep(w, f, start, base);
    } else {
      base' := CloseContainerStep(w, f, start, base);
      Depth(w, f, start, base);
    }
  }

  lemma StillCountable(f: Forest)
    requires f.open != [] && (f.open[|f.open| - 1].kind.MsgKind? ==> |f.open| == 1)
    ensures AllCountable(f) <==> Countable(f.open[|f.open| - 1], 0) && AllCountable(CloseTop(f))
  {
    var k := |f.open| - 1;
    var g := CloseTop(f);
    if Countable(f.open[k], 0) && AllCountable(g) {
      forall i | 0 <= i < |f.open| ensures Countable(f.open[i], if i < |f.open| - 1 then 1 else 0) {
        if i < k { assert Countable(g.open[i], if i < |g.open| - 1 then 1 else 0); }
      }
    }
  }

  lemma Depth(w: State, f: Forest, start: bytes, base: bytes)
    requires Simulates(w, f, start, base)
    ensures |w.stack| == |f.open| && (f.open == [] ==> w.buf == base)
    ensures f.open != [] && f.open[|f.open| - 1].kind.MsgKind? ==> |f.open| == 1
    ensures start <= base && TopsIn(base[|start|..], f.done)
    ensures f.open == [] ==> (Honest(w, f, start, base) <==> HonestTops(base[|start|..], f.done))
  {
    hide TopsIn, EntryOk, HonestTops;
    SameDepth(w.buf, w.stack, f.open, base, 0);
  }

  lemma {:induction false} CloseAllStep(w: State, f: Forest, start: bytes, base: bytes) returns (base': bytes)
    requires Simulates(w, f, start, base)
    ensures FinalizeAll(w).outcome == Done ==>
              Simulates(FinalizeAll(w).state, CloseEvery(f), start, base') &&
              (Honest(FinalizeAll(w).state, CloseEvery(f), start, base') <==>
               Honest(w, f, start, base) && AllCountable(f))
    decreases |f.open|
  {
    hide Simulates, Honest, Fits, Finalize, CloseTop, Countable;
    base' := base;
    Depth(w, f, start, base);
    if f.open != [] {
      StillCountable(f);
      base' := CloseStep(w, f, start, base);
      if Finalize(w).outcome == Done {
        assert |CloseTop(f).open| == |f.open| - 1 by { Shallower(f); }
        hide AllCountable;
        base' := CloseAllStep(Finalize(w).state, CloseTop(f), start, base');
      }
    }
  }

  lemma Shallower(f: Forest)
    requires f.open != []
    ensures |CloseTop(f).open| == |f.open| - 1
  {
  }

  lemma MessageStep(w: State, f: Forest, start: bytes, base: bytes, op: Op) returns (base': bytes)
    requires Simulates(w, f, start, base) && op.NewMessage? && |op.junk| == 4
    ensures Step(w, op).outcome == Done ==>
              Simulates(Step(w, op).state, Build(f, op), start, base') &&
              (Honest(Step(w, op).state, Build(f, op), start, base') <==> Honest(w, f, start, base) && AllCountable(f))
  {
    hide Simulates, Honest, FinalizeAll, AllCountable;
    base' := CloseAllStep(w, f, start, base);
    var r := FinalizeAll(w);
    if r.outcome == Done {
      var g := CloseEvery(f);
      Depth(r.state, g, start, base');
      Opens(r.state, g, start, base', op.junk);
    }
  }

  lemma Opens(w: State, f: Forest, start: bytes, base: bytes, junk: bytes)
    requires Simulates(w, f, start, base) && f.open == [] && w.stack == [] && |junk| == 4
    ensures var w' := State(w.buf + [0xce] + junk, [Meta(|w.buf|, U32 - 1, 0)]);
            var f' := f.(open := [Node(MsgKind, U32 - 1, [], [])]);
            Simulates(w', f', start, base) && (Honest(w', f', start, base) <==> Honest(w, f, start, base))
  {
    hide TopsIn, EntryOk, HonestTops, Encodes;
    var nd := Node(MsgKind, U32 - 1, [], []);
    var h := [0xce] + junk;
    EntryOpens(w.buf, h, nd);
    assert w.buf + [0xce] + junk == w.buf + h;
    assert (w.buf + h)[..|w.buf|] == w.buf;
    assert Represents(w.buf, [], [], base, 1);
    Push(w.buf + h, [], Meta(|w.buf|, U32 - 1, 0), [], nd, base, 0);
  }

  // --- whole runs -----------------------------------------------------------------------------

  /** Raw items are declared with their true number. */
  ghost predicate WellUsed(f: Forest, ops: seq<Op>)
    decreases |ops|
  {
    ops != [] ==>
      Declared(f, ops[0]) && (ops[0].NewMessage? ==> |ops[0].junk| == 4) && WellUsed(Build(f, ops[0]), ops[1..])
  }

  /** No container is closed after its counter has wrapped. */
  ghost predicate CountsHold(f: Forest, ops: seq<Op>)
    decreases |ops|
  {
    ops != [] ==> ClosesCountable(f, ops[0]) && CountsHold(Build(f, ops[0]), ops[1..])
  }

  /** Every call keeps the bytes and the stack a picture of the forest, and keeps it honest exactly when what
      it closes has fewer than 2^32 items. */
  lemma StepSimulates(w: State, f: Forest, start: bytes, base: bytes, op: Op) returns (base': bytes)
    requires Simulates(w, f, start, base)
    requires Declared(f, op) && (op.NewMessage? ==> |op.junk| == 4)
    ensures Step(w, op).outcome == Done ==>
              Simulates(Step(w, op).state, Build(f, op), start, base') &&
              (Honest(Step(w, op).state, Build(f, op), start, base') <==>
               Honest(w, f, start, base) && ClosesCountable(f, op))
  {
    hide Simulates, Honest, Put, Begin, Start, FinalizeAll, Finalize, CloseEvery, CloseTop, Add, AddLead;
    hide AllCountable, Countable;
    match op
    case Items(_, _) => base' := ItemsStep(w, f, start, base, op);
    case Lead(_) => LeadStep(w, f, start, base, op); base' := base;
    case Open(_, _) => OpenStep(w, f, start, base, op); base' := base;
    case Close =>
      base' := base;
      Depth(w, f, start, base);
      if f.open != [] { base' := CloseStep(w, f, start, base); } else { NothingToClose(w); }
    case CloseAll => base' := CloseAllStep(w, f, start, base);
    case NewMessage(_) => base' := MessageStep(w, f, start, base, op);
  }

  lemma LeadEntry(buf: bytes, m: Meta, nd: Node, bs: bytes)
    requires EntryOk(buf, m, nd, 0) && nd.kind.MsgKind? && nd.items == []
    ensures EntryOk(buf + bs, m, nd.(lead := nd.lead + bs), 0)
    ensures var nd' := nd.(lead := nd.lead + bs);
            m.head + HeaderLen(nd') <= |buf + bs| && Encodes((buf + bs)[m.head + HeaderLen(nd')..], []) &&
            Encodes(buf[m.head + HeaderLen(nd)..], [])
  {
    var h := m.head + HeaderLen(nd);
    assert buf[h..] == [] && h == |buf|;
    NoItems();
    hide Header, Encodes, Spelled;
    assert (buf + bs)[m.head..h + |bs|] == buf[m.head..h] + bs;
    assert (buf + bs)[h + |bs|..] == [];
  }

  lemma LeadStep(w: State, f: Forest, start: bytes, base: bytes, op: Op)
    requires Simulates(w, f, start, base) && op.Lead? && Declared(f, op)
    ensures Simulates(Step(w, op).state, Build(f, op), start, base)
    ensures Honest(Step(w, op).state, Build(f, op), start, base) <==> Honest(w, f, start, base)
  {
    hide Represents, TopsIn, EntryOk, HonestOpen, HonestTops, Encodes;
    SameDepth(w.buf, w.stack, f.open, base, 0);
    var k := |f.open| - 1;
    LeadEntry(w.buf, w.stack[k], f.open[k], op.bs);
    assert (w.buf + op.bs)[..w.stack[k].head] == w.buf[..w.stack[k].head];
    Push(w.buf + op.bs, w.stack[..k], w.stack[k], f.open[..k], f.open[k].(lead := f.open[k].lead + op.bs), base, 0);
    assert w.stack == w.stack[..k] + [w.stack[k]];
  }

  lemma NothingToClose(w: State)
    requires w.stack == []
    ensures Finalize(w).outcome == NothingOpen
  {
  }

  /** Any run of calls that throws nothing, with any guesses: the bytes represent exactly the forest that
      the same calls build without bytes, and they do it honestly exactly when no container was closed
      after its counter had wrapped. */
  lemma {:induction false} RunSimulates(w: State, f: Forest, start: bytes, base: bytes, ops: seq<Op>)
    returns (base': bytes)
    requires Simulates(w, f, start, base) && WellUsed(f, ops) && Run(w, ops).outcome == Done
    ensures Simulates(Run(w, ops).state, BuildAll(f, ops), start, base')
    ensures Honest(Run(w, ops).state, BuildAll(f, ops), start, base') <==>
            Honest(w, f, start, base) && CountsHold(f, ops)
    decreases |ops|
  {
    hide Simulates, Honest, Step, Build, ClosesCountable;
    base' := base;
    if ops != [] {
      base' := StepSimulates(w, f, start, base, ops[0]);
      base' := RunSimulates(Step(w, ops[0]).state, Build(f, ops[0]), start, base', ops[1..]);
    }
  }

  /** start_message first finalizes whatever is open, and an exception of that comes first; only then does it
      miss the room, having written nothing more. With the room, the new message is the only open entry. */
  lemma StartClosesFirst(w: State, junk: bytes, room: bool)
    ensures var closed := FinalizeAll(w);
            var r := StartIn(w, junk, room);
            if closed.outcome != Done then r == closed
            else
              closed.state.stack == [] && (r.outcome == NoSpace <==> !room) && (r.outcome == Done <==> room) &&
              (!room ==> r.state == closed.state) &&
              (room ==> r.state.buf == closed.state.buf + [0xce] + junk && |r.state.stack| == 1 &&
                        r.state.stack[0] == Meta(|closed.state.buf|, 0xffff_ffff, 0))
    ensures FinalizeAll(w).outcome != NoSpace
  {
    NeverSpace(w);
    hide Finalize;
  }

  lemma {:induction false} NeverSpace(w: State)
    ensures FinalizeAll(w).outcome != NoSpace
    decreases |w.stack|
  {
    if w.stack != [] && Finalize(w).outcome == Done { NeverSpace(Finalize(w).state); }
  }
}
