/** get_state and set_state: undoing the last writes. */
module Undo {
  import opened Bytes
  import opened MsgPack
  import opened Writer
  import opened WriterTheorems

  /** Containers open at the snapshot (the first d entries) are not finalized by these calls. */
  ghost predicate KeepsOpen(w: State, d: nat, ops: seq<Op>)
    decreases |ops|
  {
    ops == [] ||
    ((ops[0].Close? ==> |w.stack| > d) &&
     (ops[0].CloseAll? || ops[0].NewMessage? ==> d == 0) &&
     (Step(w, ops[0]).outcome == Done ==> KeepsOpen(Step(w, ops[0]).state, d, ops[1..])))
  }

  /** The snapshot's bytes are still there and everything opened since lies after them. */
  ghost predicate Extends(w: State, buf: bytes, d: nat) {
    buf <= w.buf && d <= |w.stack| &&
    forall i | d <= i < |w.stack| :: |buf| <= w.stack[i].head
  }

  lemma SpliceAbove(s: bytes, at: nat, bs: bytes, buf: bytes)
    requires buf <= s && |buf| <= at
    ensures buf <= Splice(s, at, bs)
  {
    var r := Splice(s, at, bs);
    assert r[..|buf|] == s[..|buf|];
  }

  lemma FinalizeExtends(w: State, buf: bytes, d: nat)
    requires Extends(w, buf, d) && |w.stack| > d
    ensures Extends(Finalize(w).state, buf, d) && |Finalize(w).state.stack| == |w.stack| - 1
  {
    var m := w.stack[|w.stack| - 1];
    forall at: nat, bs: bytes | |buf| <= at ensures buf <= Splice(w.buf, at, bs) { SpliceAbove(w.buf, at, bs, buf); }
    hide Splice, BigEndian, MapHead, ArrayHead, HeaderWidth;
  }

  lemma {:induction false} FinalizeAllExtends(w: State, buf: bytes)
    requires Extends(w, buf, 0)
    ensures Extends(FinalizeAll(w).state, buf, 0)
    decreases |w.stack|
  {
    if w.stack != [] {
      hide Finalize, Extends;
      FinalizeExtends(w, buf, 0);
      FinalizeAllExtends(Finalize(w).state, buf);
    }
  }

  lemma StepExtends(w: State, buf: bytes, d: nat, op: Op)
    requires Extends(w, buf, d)
    requires op.Close? ==> |w.stack| > d
    requires op.CloseAll? || op.NewMessage? ==> d == 0
    ensures Extends(Step(w, op).state, buf, d)
  {
    hide Finalize, FinalizeAll, ItemsOf;
    match op
    case Items(_, _) =>
    case Lead(_) =>
    case Open(_, _) =>
    case Close => FinalizeExtends(w, buf, d);
    case CloseAll => FinalizeAllExtends(w, buf);
    case NewMessage(_) => FinalizeAllExtends(w, buf);
  }

  lemma {:induction false} RunExtends(w: State, buf: bytes, d: nat, ops: seq<Op>)
    requires Extends(w, buf, d) && KeepsOpen(w, d, ops)
    ensures Extends(Run(w, ops).state, buf, d)
    decreases |ops|
  {
    if ops != [] {
      hide Step, Extends;
      StepExtends(w, buf, d, ops[0]);
      if Step(w, ops[0]).outcome == Done { RunExtends(Step(w, ops[0]).state, buf, d, ops[1..]); }
    }
  }

  /** set_state(get_state()) after any further calls, thrown or not, gives back exactly the writer of
      the snapshot, provided no container open at the snapshot was finalized in between. */
  lemma UndoRestores(w: State, ops: seq<Op>)
    requires KeepsOpen(w, |w.stack|, ops)
    ensures var later := Run(w, ops).state;
            |w.buf| <= |later.buf| && SetState(later, GetState(w)) == w
  {
    hide Run, KeepsOpen;
    RunExtends(w, w.buf, |w.stack|, ops);
  }

  // --- exactly when undoing works -------------------------------------------------------------

  /** The bytes finalize may rewrite: a container's header, a message's head. */
  function Span(buf: bytes, m: Meta): nat {
    if m.head < |buf| && buf[m.head] == 0xce then 5 else HeaderWidth(m.guess)
  }

  /** An open entry's first bytes are what it was opened with: the header of the guess, or a message's head. */
  ghost predicate Held(buf: bytes, m: Meta) {
    m.head + Span(buf, m) <= |buf| &&
    (buf[m.head] == 0xce ||
     buf[m.head..m.head + HeaderWidth(m.guess)] == Header(MapHead(buf[m.head]), HeaderWidth(m.guess), m.guess))
  }

  lemma SameHeld(buf: bytes, m: Meta, other: bytes, n: Meta)
    requires Held(buf, m) && n.head == m.head && n.guess == m.guess && m.head + Span(buf, m) <= |other|
    requires forall x | m.head <= x < m.head + Span(buf, m) :: other[x] == buf[x]
    ensures Held(other, n) && Span(other, n) == Span(buf, m)
  {
    hide HeaderWidth, Header, MapHead;
    var w := HeaderWidth(m.guess);
    if buf[m.head] != 0xce { assert other[m.head..m.head + w] == buf[m.head..m.head + w]; }
  }

  /** Open entries hold what they were opened with, one after the other. */
  ghost predicate Laid(w: State) {
    (forall i | 0 <= i < |w.stack| :: Held(w.buf, w.stack[i])) &&
    (forall i, j | 0 <= i < j < |w.stack| :: w.stack[i].head + Span(w.buf, w.stack[i]) <= w.stack[j].head)
  }

  lemma SpliceLocal(s: bytes, at: nat, bs: bytes, x: nat)
    requires x < |s| && !(at <= x < at + |bs|)
    ensures Splice(s, at, bs)[x] == s[x]
  {
  }

  lemma PatchLocal(buf: bytes, head: nat, isMap: bool, g: nat, n: u32, x: nat)
    requires x < |buf| && !(head <= x < head + HeaderWidth(g)) && HeaderWidth(n) <= HeaderWidth(g)
    ensures var r := PatchCount(buf, head, isMap, HeaderWidth(g), n); |r| == |buf| && r[x] == buf[x]
  {
    hide Splice, BigEndian;
    SpliceLocal(buf, head, [(if isMap && n <= 15 then 0x80 + n else if n <= 15 then 0x90 + n else 0)], x);
    if HeaderWidth(g) == 3 { SpliceLocal(buf, head + 1, BigEndian(n, 2), x); }
    if HeaderWidth(g) == 5 { SpliceLocal(buf, head + 1, BigEndian(n, 4), x); }
  }

  lemma PatchSize(buf: bytes, head: nat, isMap: bool, w: nat, n: u32)
    ensures |PatchCount(buf, head, isMap, w, n)| == |buf|
  {
    hide Splice, BigEndian;
  }

  /** finalize changes no byte outside the span of the entry it pops. */
  lemma FinalizeLocal(w: State)
    requires w.stack != []
    ensures var m := w.stack[|w.stack| - 1];
            var r := Finalize(w).state;
            |r.buf| == |w.buf| && r.stack == w.stack[..|w.stack| - 1] &&
            forall x | 0 <= x < |w.buf| && !(m.head <= x < m.head + Span(w.buf, m)) :: r.buf[x] == w.buf[x]
  {
    hide BigEndian, MapHead, ArrayHead, HeaderWidth, PatchCount, Splice;
    var m := w.stack[|w.stack| - 1];
    var r := Finalize(w).state;
    if m.head < |w.buf| && w.buf[m.head] == 0xce {
      hide FinalizeContainer;
      forall x | 0 <= x < |w.buf| && !(m.head <= x < m.head + 5) ensures r.buf[x] == w.buf[x] {
        if |w.buf| - m.head >= 5 { SpliceLocal(w.buf, m.head + 1, BigEndian(|w.buf| - m.head - 5, 4), x); }
      }
    } else {
      assert Finalize(w) == FinalizeContainer(w);
      hide Finalize;
      var isMap := m.head < |w.buf| && MapHead(w.buf[m.head]);
      var n: u32 := if isMap then m.items / 2 else m.items;
      WidthGrows(n, m.guess);
      PatchSize(w.buf, m.head, isMap, HeaderWidth(m.guess), n);
      forall x | 0 <= x < |w.buf| && !(m.head <= x < m.head + HeaderWidth(m.guess)) ensures r.buf[x] == w.buf[x] {
        if HeaderWidth(n) <= HeaderWidth(m.guess) { PatchLocal(w.buf, m.head, isMap, m.guess, n, x); }
      }
    }
  }

  /** Appending bytes and counting items leave the entries as they are. */
  lemma AppendLaid(w: State, bs: bytes, n: nat)
    requires Laid(w)
    ensures Laid(State(w.buf + bs, Count(w.stack, n)))
  {
    KeepsLaid(w, State(w.buf + bs, Count(w.stack, n)));
  }

  lemma KeepsLaid(w: State, v: State)
    requires Laid(w) && w.buf <= v.buf && |v.stack| == |w.stack|
    requires forall i | 0 <= i < |w.stack| :: v.stack[i].head == w.stack[i].head && v.stack[i].guess == w.stack[i].guess
    ensures Laid(v)
  {
    hide Held, Span;
    forall i | 0 <= i < |w.stack|
      ensures Held(v.buf, v.stack[i]) && Span(v.buf, v.stack[i]) == Span(w.buf, w.stack[i])
    {
      HeldFits(w.buf, w.stack[i]);
      SameHeld(w.buf, w.stack[i], v.buf, v.stack[i]);
    }
  }

  lemma HeldFits(buf: bytes, m: Meta)
    requires Held(buf, m)
    ensures m.head + Span(buf, m) <= |buf| && Span(buf, m) >= 1
  {
  }

  lemma FinalizeLaid(w: State)
    requires Laid(w) && w.stack != []
    ensures Laid(Finalize(w).state)
  {
    FinalizeLocal(w);
    hide Held, Span, Finalize;
    var k := |w.stack| - 1;
    var v := Finalize(w).state;
    forall i | 0 <= i < k ensures Held(v.buf, v.stack[i]) && Span(v.buf, v.stack[i]) == Span(w.buf, w.stack[i]) {
      HeldFits(w.buf, w.stack[i]);
      SameHeld(w.buf, w.stack[i], v.buf, v.stack[i]);
    }
  }

  lemma {:induction false} FinalizeAllLaid(w: State)
    requires Laid(w)
    ensures Laid(FinalizeAll(w).state)
    decreases |w.stack|
  {
    hide Laid, Finalize;
    if w.stack != [] {
      FinalizeLaid(w);
      FinalizeLocal(w);
      if Finalize(w).outcome == Done { FinalizeAllLaid(Finalize(w).state); }
    }
  }

  lemma PushLaid(w: State, h: bytes, m: Meta)
    requires Laid(w) && m.head == |w.buf| && Held(w.buf + h, m)
    ensures Laid(State(w.buf + h, w.stack + [m]))
  {
    hide Held, Span;
    var v := State(w.buf + h, w.stack + [m]);
    forall i | 0 <= i < |w.stack|
      ensures Held(v.buf, v.stack[i]) && Span(v.buf, v.stack[i]) == Span(w.buf, w.stack[i])
      ensures w.stack[i].head + Span(w.buf, w.stack[i]) <= m.head
    {
      HeldFits(w.buf, w.stack[i]);
      SameHeld(w.buf, w.stack[i], v.buf, v.stack[i]);
    }
  }

  lemma OpenLaid(w: State, isMap: bool, guess: u32)
    requires Laid(w)
    ensures Laid(Begin(w, isMap, guess).state)
  {
    var h := Header(isMap, HeaderWidth(guess), guess);
    var m := Meta(|w.buf|, guess, 0);
    AppendLaid(w, [], 1);
    assert w.buf + [] == w.buf;
    HeaderHeld(w.buf, isMap, guess);
    hide Header, HeaderWidth, Laid, Held;
    PushLaid(State(w.buf, Count(w.stack, 1)), h, m);
  }

  lemma HeaderHeld(buf: bytes, isMap: bool, guess: u32)
    ensures Held(buf + Header(isMap, HeaderWidth(guess), guess), Meta(|buf|, guess, 0))
  {
    hide BigEndian;
    var w := HeaderWidth(guess);
    var h := Header(isMap, w, guess);
    assert |h| == w && (buf + h)[|buf|] == h[0];
    var all := buf + h;
    assert all[|buf|..] == h && all[|buf|..|buf| + |h|] == h;
  }

  /** Every call keeps them so. */
  lemma StepLaid(w: State, op: Op)
    requires Laid(w) && (op.NewMessage? ==> |op.junk| == 4)
    ensures Laid(Step(w, op).state)
  {
    hide Laid, Begin, Finalize, FinalizeAll, ItemsOf;
    match op
    case Items(bs, card) => PutLaid(w, bs, card);
    case Lead(bs) => LeadLaid(w, bs);
    case Open(isMap, guess) => OpenLaid(w, isMap, guess);
    case Close => if w.stack != [] { FinalizeLaid(w); } else { NothingToClose(w); NothingPopped(w); }
    case CloseAll => FinalizeAllLaid(w);
    case NewMessage(junk) =>
      FinalizeAllLaid(w);
      var r := FinalizeAll(w);
      if r.outcome == Done { MessageLaid(r.state.buf, junk); }
  }

  /** So they lie in every writer that any run leaves behind. */
  lemma {:induction false} RunLaid(w: State, ops: seq<Op>)
    requires Laid(w) && forall op | op in ops :: op.NewMessage? ==> |op.junk| == 4
    ensures Laid(Run(w, ops).state)
    decreases |ops|
  {
    hide Laid, Step;
    if ops != [] {
      assert ops[0] in ops && forall op | op in ops[1..] :: op in ops;
      StepLaid(w, ops[0]);
      if Step(w, ops[0]).outcome == Done { RunLaid(Step(w, ops[0]).state, ops[1..]); }
    }
  }

  lemma NothingPopped(w: State)
    requires w.stack == []
    ensures Finalize(w).state == w
  {
  }

  lemma PutLaid(w: State, bs: bytes, card: nat)
    requires Laid(w)
    ensures Laid(Put(w, bs, card).state)
  {
    hide ItemsOf, Laid;
    AppendLaid(w, bs, card);
    if ItemsOf(bs).Good? { AppendLaid(w, bs, |ItemsOf(bs).items|); }
    LeadLaid(w, bs);
  }

  lemma LeadLaid(w: State, bs: bytes)
    requires Laid(w)
    ensures Laid(w.(buf := w.buf + bs))
  {
    KeepsLaid(w, w.(buf := w.buf + bs));
  }

  lemma MessageLaid(buf: bytes, junk: bytes)
    requires |junk| == 4
    ensures Laid(State(buf + [0xce] + junk, [Meta(|buf|, U32 - 1, 0)]))
  {
    assert (buf + [0xce] + junk)[|buf|] == 0xce;
  }

  /** The count finalize compares with the guess. */
  function CountNow(v: State): u32
    requires v.stack != []
  {
    var m := v.stack[|v.stack| - 1];
    if m.head < |v.buf| && MapHead(v.buf[m.head]) then m.items / 2 else m.items
  }

  /** What a caller can check before finalize: the innermost container's count differs from its guess, and
      finalize does not throw; or the innermost message's length is not the one stored already. */
  ghost predicate Patches(v: State) {
    v.stack != [] &&
    var m := v.stack[|v.stack| - 1];
    m.head < |v.buf| &&
    if v.buf[m.head] == 0xce then
      var size := |v.buf| - m.head;
      5 <= size <= m.guess && v.buf[m.head + 1..m.head + 5] != BigEndian(size - 5, 4)
    else
      CountNow(v) != m.guess && HeaderWidth(CountNow(v)) <= HeaderWidth(m.guess) &&
      !(MapHead(v.buf[m.head]) && m.items % 2 == 1)
  }

  /** finalize rewrites something exactly then. */
  lemma FinalizeRewrites(v: State)
    requires v.stack != [] && Held(v.buf, v.stack[|v.stack| - 1])
    ensures Finalize(v).state.buf != v.buf <==> Patches(v)
  {
    var m := v.stack[|v.stack| - 1];
    if v.buf[m.head] == 0xce { MessageRewrites(v); } else { ContainerRewrites(v); }
  }

  lemma MessageRewrites(v: State)
    requires v.stack != [] && v.stack[|v.stack| - 1].head + 5 <= |v.buf| && v.buf[v.stack[|v.stack| - 1].head] == 0xce
    ensures Finalize(v).state.buf != v.buf <==> Patches(v)
  {
    hide BigEndian, FinalizeContainer;
    var at := v.stack[|v.stack| - 1].head + 1;
    var bs := BigEndian(|v.buf| - at - 4, 4);
    var r := Splice(v.buf, at, bs);
    assert r[at..at + 4] == bs;
    ThreeParts(v.buf, at, at + 4);
  }

  lemma ContainerRewrites(v: State)
    requires v.stack != [] && Held(v.buf, v.stack[|v.stack| - 1]) && v.buf[v.stack[|v.stack| - 1].head] != 0xce
    ensures Finalize(v).state.buf != v.buf <==> Patches(v)
  {
    var m := v.stack[|v.stack| - 1];
    var isMap, n, w := MapHead(v.buf[m.head]), CountNow(v), HeaderWidth(m.guess);
    HeldHead(v.buf, m);
    ContainerResult(v, isMap, m.items, n);
    WidthGrows(n, m.guess);
    assert Finalize(v) == FinalizeContainer(v);
    hide Finalize, FinalizeContainer, HeaderWidth, Header, PatchCount, BigEndian, MapHead, ArrayHead;
    if HeaderWidth(n) <= w {
      PatchIsHeader(v.buf, m.head, isMap, m.guess, n);
      HeaderInjective(isMap, w, n, m.guess);
      ThreeParts(v.buf, m.head, m.head + w);
      Middles(v.buf[..m.head], Header(isMap, w, n), Header(isMap, w, m.guess), v.buf[m.head + w..]);
    }
  }

  lemma HeldHead(buf: bytes, m: Meta)
    requires Held(buf, m) && buf[m.head] != 0xce
    ensures ArrayHead(buf[m.head]) == !MapHead(buf[m.head])
    ensures m.head + HeaderWidth(m.guess) <= |buf|
    ensures buf[m.head..m.head + HeaderWidth(m.guess)] == Header(MapHead(buf[m.head]), HeaderWidth(m.guess), m.guess)
  {
    hide BigEndian;
    assert buf[m.head] == buf[m.head..m.head + HeaderWidth(m.guess)][0];
  }

  lemma Middles(a: bytes, b: bytes, c: bytes, d: bytes)
    requires |b| == |c|
    ensures a + b + d == a + c + d <==> b == c
  {
    assert (a + b + d)[|a|..|a| + |b|] == b && (a + c + d)[|a|..|a| + |c|] == c;
  }

  lemma HeaderInjective(isMap: bool, w: nat, a: u32, b: u32)
    requires (w == 1 || w == 3 || w == 5) && HeaderWidth(a) <= w && HeaderWidth(b) <= w
    ensures Header(isMap, w, a) == Header(isMap, w, b) <==> a == b
  {
    hide HeaderWidth, Header, HeadOf;
    HeaderParses(isMap, w, a, []);
    HeaderParses(isMap, w, b, []);
  }

  function Less(a: nat, b: nat): nat {
    if a < b then a else b
  }

  /** No entry open at the snapshot, of which the first e are left, is finalized where that guard holds. */
  ghost predicate Untouched(v: State, e: nat, ops: seq<Op>)
    decreases |ops|
  {
    ops == [] ||
    (var op := ops[0];
     (op.Close? && |v.stack| <= e ==> !Patches(v)) &&
     (op.CloseAll? || op.NewMessage? ==> AllUntouched(v, e)) &&
     (Step(v, op).outcome == Done ==> Untouched(Step(v, op).state, Left(v, e, op), ops[1..])))
  }

  ghost predicate AllUntouched(v: State, e: nat)
    decreases |v.stack|
  {
    v.stack == [] ||
    ((|v.stack| <= e ==> !Patches(v)) &&
     (Finalize(v).outcome == Done ==>
        (FinalizeLocal(v); AllUntouched(Finalize(v).state, Less(e, |v.stack| - 1)))))
  }

  /** How many entries of the snapshot are left after a call. */
  function Left(v: State, e: nat, op: Op): nat {
    if op.Close? && v.stack != [] then Less(e, |v.stack| - 1)
    else if op.CloseAll? || op.NewMessage? then 0
    else e
  }

  /** Up to here no entry that has been popped could change the snapshot's bytes. */
  function Edge(w: State, e: nat): nat {
    if e < |w.stack| then w.stack[e].head else |w.buf|
  }

  /** v has come from the snapshot w, of whose entries the first e are left. */
  ghost predicate Since(w: State, v: State, e: nat) {
    |w.buf| <= |v.buf| && e <= |w.stack| && e <= |v.stack| &&
    (forall i | 0 <= i < e :: v.stack[i].head == w.stack[i].head && v.stack[i].guess == w.stack[i].guess) &&
    (forall i | e <= i < |v.stack| :: |w.buf| <= v.stack[i].head) &&
    (forall x | 0 <= x < Edge(w, e) && x < |w.buf| :: v.buf[x] == w.buf[x])
  }

  ghost predicate Dirty(w: State, v: State, e: nat)
    requires |w.buf| <= |v.buf|
  {
    exists x :: Edge(w, e) <= x < |w.buf| && v.buf[x] != w.buf[x]
  }

  lemma FinalizeSince(w: State, v: State, e: nat)
    requires Laid(w) && Since(w, v, e) && v.stack != []
    ensures var t := Finalize(v).state;
            var e' := Less(e, |v.stack| - 1);
            Since(w, t, e') &&
            (Dirty(w, v, e) ==> Dirty(w, t, e')) &&
            (!Dirty(w, v, e) ==> (Dirty(w, t, e') <==> |v.stack| <= e && Patches(v)))
  {
    FinalizeLocal(v);
    hide Finalize, Laid, Span, Held, Patches;
    StillSince(w, v, e, Finalize(v).state);
    if |v.stack| > e {
      Above(w, v, e, Finalize(v).state);
    } else {
      SnapshotSpan(w, v, e);
      FinalizeRewrites(v);
      Within(w, v, e, Finalize(v).state);
    }
  }

  lemma StillSince(w: State, v: State, e: nat, t: State)
    requires Laid(w) && Since(w, v, e) && v.stack != []
    requires var m := v.stack[|v.stack| - 1];
             |t.buf| == |v.buf| && t.stack == v.stack[..|v.stack| - 1] &&
             forall x | 0 <= x < |v.buf| && !(m.head <= x < m.head + Span(v.buf, m)) :: t.buf[x] == v.buf[x]
    ensures Since(w, t, Less(e, |v.stack| - 1))
  {
    hide Span;
    if |v.stack| <= e { SnapshotSpan(w, v, e); }
  }

  /** An entry opened since lies after all the snapshot's bytes. */
  lemma Above(w: State, v: State, e: nat, t: State)
    requires Since(w, v, e) && |v.stack| > e
    requires var m := v.stack[|v.stack| - 1];
             |t.buf| == |v.buf| &&
             forall x | 0 <= x < |v.buf| && !(m.head <= x < m.head + Span(v.buf, m)) :: t.buf[x] == v.buf[x]
    ensures Dirty(w, t, e) <==> Dirty(w, v, e)
  {
    hide Span;
    assert forall x | 0 <= x < |w.buf| :: t.buf[x] == v.buf[x];
  }

  /** An entry of the snapshot lies within them, before all that has been popped already. */
  lemma Within(w: State, v: State, e: nat, t: State)
    requires Laid(w) && Since(w, v, e) && v.stack != [] && |v.stack| <= e
    requires var m := v.stack[|v.stack| - 1];
             |t.buf| == |v.buf| &&
             forall x | 0 <= x < |v.buf| && !(m.head <= x < m.head + Span(v.buf, m)) :: t.buf[x] == v.buf[x]
    ensures Dirty(w, v, e) ==> Dirty(w, t, e - 1)
    ensures !Dirty(w, v, e) ==> (Dirty(w, t, e - 1) <==> t.buf != v.buf)
  {
    SnapshotSpan(w, v, e);
    hide Span, Laid;
    if Dirty(w, v, e) {
      var x :| Edge(w, e) <= x < |w.buf| && v.buf[x] != w.buf[x];
      assert t.buf[x] == v.buf[x];
    } else if t.buf != v.buf {
      var x :| 0 <= x < |v.buf| && t.buf[x] != v.buf[x];
      assert Edge(w, e - 1) <= x < Edge(w, e) <= |w.buf|;
    }
  }

  lemma SnapshotSpan(w: State, v: State, e: nat)
    requires Laid(w) && Since(w, v, e) && |v.stack| == e && e > 0
    ensures var m := w.stack[e - 1];
            Span(v.buf, v.stack[e - 1]) == Span(w.buf, m) && v.stack[e - 1].head == m.head &&
            m.head + Span(w.buf, m) <= Edge(w, e) <= |w.buf| && Edge(w, e - 1) == m.head
    ensures Held(v.buf, v.stack[e - 1])
  {
    hide Held, Span;
    var m := w.stack[e - 1];
    HeldFits(w.buf, m);
    if e < |w.stack| { HeldFits(w.buf, w.stack[e]); }
    assert m.head + Span(w.buf, m) <= Edge(w, e);
    SameHeld(w.buf, m, v.buf, v.stack[e - 1]);
  }

  lemma {:induction false} FinalizeAllSince(w: State, v: State, e: nat) returns (e': nat)
    requires Laid(w) && Since(w, v, e)
    ensures var t := FinalizeAll(v);
            Since(w, t.state, e') && (t.outcome == Done ==> e' == 0) &&
            (Dirty(w, v, e) ==> Dirty(w, t.state, e')) &&
            (!Dirty(w, v, e) ==> (Dirty(w, t.state, e') <==> !AllUntouched(v, e)))
    decreases |v.stack|
  {
    hide Laid, Since, Dirty, Finalize, Patches;
    e' := e;
    if v.stack == [] {
      NoneLeft(w, v, e);
    } else {
      FinalizeSince(w, v, e);
      FinalizeLocal(v);
      e' := Less(e, |v.stack| - 1);
      if Finalize(v).outcome == Done { e' := FinalizeAllSince(w, Finalize(v).state, e'); }
    }
  }

  lemma NoneLeft(w: State, v: State, e: nat)
    requires Since(w, v, e) && v.stack == []
    ensures e == 0
  {
  }

  /** Calls that open and write touch nothing of the snapshot. */
  lemma GrowsSince(w: State, v: State, e: nat, bs: bytes, stack: seq<Meta>)
    requires Since(w, v, e) && |stack| >= |v.stack|
    requires forall i | 0 <= i < |v.stack| :: stack[i].head == v.stack[i].head && stack[i].guess == v.stack[i].guess
    requires forall i | |v.stack| <= i < |stack| :: stack[i].head >= |v.buf|
    ensures Since(w, State(v.buf + bs, stack), e)
    ensures Dirty(w, State(v.buf + bs, stack), e) <==> Dirty(w, v, e)
  {
    var t := State(v.buf + bs, stack);
    assert forall x | 0 <= x < |w.buf| :: t.buf[x] == v.buf[x];
  }

  lemma StepSince(w: State, v: State, e: nat, op: Op) returns (e': nat)
    requires Laid(w) && Since(w, v, e)
    ensures var t := Step(v, op);
            Since(w, t.state, e') && (t.outcome == Done ==> e' == Left(v, e, op)) &&
            (Dirty(w, v, e) ==> Dirty(w, t.state, e')) &&
            (!Dirty(w, v, e) ==>
               (Dirty(w, t.state, e') <==>
                 (op.Close? && |v.stack| <= e && Patches(v)) ||
                 ((op.CloseAll? || op.NewMessage?) && !AllUntouched(v, e))))
  {
    hide Laid, Since, Dirty, Finalize, FinalizeAll, ItemsOf, Patches, AllUntouched, HeaderWidth, Header;
    e' := e;
    assert v.buf + [] == v.buf;
    match op
    case Items(bs, card) => ItemsSince(w, v, e, bs, card);
    case Lead(bs) => GrowsSince(w, v, e, bs, v.stack);
    case Open(isMap, guess) =>
      OpensSince(w, v, e, isMap, guess);
    case Close =>
      if v.stack != [] {
        FinalizeSince(w, v, e);
        e' := Less(e, |v.stack| - 1);
      } else {
        NothingToClose(v);
        NothingPopped(v);
        NotPatched(v);
      }
    case CloseAll => e' := FinalizeAllSince(w, v, e);
    case NewMessage(junk) =>
      e' := FinalizeAllSince(w, v, e);
      var r := FinalizeAll(v);
      if r.outcome == Done {
        assert r.state.buf + ([0xce] + junk) == r.state.buf + [0xce] + junk;
        GrowsSince(w, r.state, e', [0xce] + junk, [Meta(|r.state.buf|, U32 - 1, 0)]);
      }
  }

  lemma NotPatched(v: State)
    requires v.stack == []
    ensures !Patches(v)
  {
  }

  lemma ItemsSince(w: State, v: State, e: nat, bs: bytes, card: nat)
    requires Since(w, v, e)
    ensures var t := Put(v, bs, card).state;
            Since(w, t, e) && (Dirty(w, t, e) <==> Dirty(w, v, e))
  {
    hide ItemsOf, Since, Dirty;
    GrowsSince(w, v, e, bs, v.stack);
    GrowsSince(w, v, e, bs, Count(v.stack, card));
    if ItemsOf(bs).Good? { GrowsSince(w, v, e, bs, Count(v.stack, |ItemsOf(bs).items|)); }
  }

  lemma OpensSince(w: State, v: State, e: nat, isMap: bool, guess: u32)
    requires Since(w, v, e)
    ensures var t := Begin(v, isMap, guess).state;
            Since(w, t, e) && (Dirty(w, t, e) <==> Dirty(w, v, e))
  {
    hide Since, Dirty, Header, HeaderWidth;
    GrowsSince(w, v, e, Header(isMap, HeaderWidth(guess), guess), Count(v.stack, 1) + [Meta(|v.buf|, guess, 0)]);
  }

  lemma {:induction false} RunSince(w: State, v: State, e: nat, ops: seq<Op>) returns (e': nat)
    requires Laid(w) && Since(w, v, e)
    ensures var t := Run(v, ops).state;
            Since(w, t, e') &&
            (Dirty(w, v, e) ==> Dirty(w, t, e')) &&
            (!Dirty(w, v, e) ==> (Dirty(w, t, e') <==> !Untouched(v, e, ops)))
    decreases |ops|
  {
    hide Laid, Since, Dirty, Step, Left, Patches, AllUntouched;
    e' := e;
    if ops != [] {
      e' := StepSince(w, v, e, ops[0]);
      if Step(v, ops[0]).outcome == Done { e' := RunSince(w, Step(v, ops[0]).state, e', ops[1..]); }
    }
  }

  /** set_state(get_state()) after any further calls, thrown or not, gives back the writer of the snapshot
      exactly when no entry open at the snapshot was finalized with a count that differs from its guess and
      fits its header, or with a message length other than the one stored. */
  lemma UndoExactly(w: State, ops: seq<Op>)
    requires Laid(w)
    ensures var later := Run(w, ops).state;
            |w.buf| <= |later.buf| &&
            (SetState(later, GetState(w)) == w <==> Untouched(w, |w.stack|, ops))
  {
    hide Laid, Run, Untouched;
    assert Since(w, w, |w.stack|);
    var e := RunSince(w, w, |w.stack|, ops);
    var later := Run(w, ops).state;
    if !Dirty(w, later, e) {
      assert later.buf[..|w.buf|] == w.buf;
    } else {
      var x :| Edge(w, e) <= x < |w.buf| && later.buf[x] != w.buf[x];
      assert later.buf[..|w.buf|][x] != w.buf[x];
    }
  }

  /** Finalizing a container that was open at the snapshot is undone exactly when its count equalled
      the guess, that is, when finalize took its early return and patched nothing. */
  lemma UndoOfFinalize(w: State, nd: Node)
    requires w.stack != [] && !nd.kind.MsgKind? && Fits(nd)
    requires EntryOk(w.buf, w.stack[|w.stack| - 1], nd, 0)
    ensures |Finalize(w).state.buf| == |w.buf|
    ensures SetState(Finalize(w).state, GetState(w)) == w <==> Cardinality(nd) == nd.guess
    ensures Patches(w) <==> Cardinality(nd) != nd.guess
  {
    var m := w.stack[|w.stack| - 1];
    HeaderKind(w.buf, m, nd);
    FinalizePatchesHeader(w, nd);
    var n, isMap, i, j := Cardinality(nd), nd.kind.MapKind?, m.head, m.head + HeaderLen(nd);
    var h := Header(isMap, HeaderWidth(nd.guess), n);
    HeaderInjective(isMap, HeaderWidth(nd.guess), n, nd.guess);
    hide Finalize, EntryOk, Header, HeaderWidth;
    var r := Finalize(w).state.buf;
    assert r[i..j] == h;
    ThreeParts(w.buf, i, j);
    assert r[..|w.buf|] == r;
  }

  /** The early returns do not re-patch: with a container opened for 2, snapshotted with one item,
      finalized, restored and filled to 2, the bytes declare one item. */
  lemma UndoAfterFinalizeCorrupts()
    ensures var w := Run(State([], []), [Open(false, 2), Items([7], 1)]).state;
            var closed := Finalize(w).state;
            |w.buf| <= |closed.buf| &&
            var r := Run(SetState(closed, GetState(w)), [Items([8], 1), Close]);
            r.outcome == Done && r.state == State([0x91, 7, 8], []) &&
            !Encodes(r.state.buf, [Arr([Int(7), Int(8)])])
  {
    Opened();
    Sealed();
    Refilled();
    Truncated();
    hide Run, Finalize, Encodes;
    assert SetState(State([0x91, 7], []), Saved(2, [Meta(0, 2, 1)])) == State([0x91, 7], [Meta(0, 2, 1)]);
  }

  lemma Opened()
    ensures Run(State([], []), [Open(false, 2), Items([7], 1)]) == Result(State([0x92, 7], [Meta(0, 2, 1)]), Done)
  {
    hide Run;
    RunTwo(State([], []), Open(false, 2), Items([7], 1));
    assert Header(false, 1, 2) == [0x92];
  }

  lemma Sealed()
    ensures Finalize(State([0x92, 7], [Meta(0, 2, 1)])) == Result(State([0x91, 7], []), Done)
  {
    hide BigEndian;
    assert Splice([0x92, 7], 0, [0x91]) == [0x91, 7];
  }

  lemma Refilled()
    ensures Run(State([0x91, 7], [Meta(0, 2, 1)]), [Items([8], 1), Close]) == Result(State([0x91, 7, 8], []), Done)
  {
    hide Run, PatchCount;
    RunTwo(State([0x91, 7], [Meta(0, 2, 1)]), Items([8], 1), Close);
  }

  lemma RunTwo(w: State, a: Op, b: Op)
    requires Step(w, a).outcome == Done
    ensures Run(w, [a, b]) == Step(Step(w, a).state, b)
  {
    hide Step;
    assert [a, b][1..] == [b] && [b][1..] == [];
    var r := Step(Step(w, a).state, b);
    assert Run(Step(w, a).state, [b]) == if r.outcome != Done then r else Run(r.state, []);
  }

  lemma Truncated()
    ensures !Encodes([0x91, 7, 8], [Arr([Int(7), Int(8)])])
  {
    var s: bytes := [0x91, 7, 8];
    assert HeadOf(s) == Container(false, 1, 1);
    assert s[1..] == [7, 8];
    assert HeadOf(s[1..]) == Scalar(1);
    assert s[1..][1..] == [8];
    assert Parse(s[1..], 1).Good? ==> |Parse(s[1..], 1).items| == 1;
  }
}
