/**
 Which runs of calls throw: decided by book-keeping alone, with no bytes but their number.
 */
module Ledgers {
  import opened Bytes
  import opened MsgPack
  import opened Writer
  import opened WriterTheorems

  /** An open container or message: what it was opened with, the items put into it, where it starts. */
  datatype Account = Account(kind: Kind, guess: u32, count: nat, from: nat)

  datatype Ledger = Ledger(size: nat, open: seq<Account>)

  function Booked(open: seq<Account>, n: nat): seq<Account> {
    if open == [] then []
    else
      var top := open[|open| - 1];
      open[..|open| - 1] + [top.(count := top.count + n)]
  }

  function Book(l: Ledger, op: Op): Ledger {
    match op
    case Items(bs, card) =>
      Ledger(l.size + |bs|, Booked(l.open, if card != 0 || ItemsOf(bs).Bad? then card else |ItemsOf(bs).items|))
    case Lead(bs) => l.(size := l.size + |bs|)
    case Open(isMap, guess) =>
      Ledger(l.size + HeaderWidth(guess),
             Booked(l.open, 1) + [Account(if isMap then MapKind else ArrKind, guess, 0, l.size)])
    case Close => if l.open == [] then l else l.(open := l.open[..|l.open| - 1])
    case CloseAll => l.(open := [])
    case NewMessage(junk) => Ledger(l.size + 1 + |junk|, [Account(MsgKind, U32 - 1, 0, l.size)])
  }

  /** A message closes while its size fits 32 bits, a container while its cardinality, counted in 32
      bits, fits the header it was opened with, and a map needs an even number of items. */
  predicate Closes(a: Account, size: nat) {
    match a.kind
    case MsgKind => size - a.from < U32
    case ArrKind => HeaderWidth(a.count % U32) <= HeaderWidth(a.guess)
    case MapKind => a.count % 2 == 0 && HeaderWidth(a.count % U32 / 2) <= HeaderWidth(a.guess)
  }

  ghost predicate AllClose(open: seq<Account>, size: nat) {
    forall i | 0 <= i < |open| :: Closes(open[i], size)
  }

  ghost predicate Allowed(l: Ledger, op: Op) {
    match op
    case Items(bs, card) => l.open == [] || card != 0 || ItemsOf(bs).Good?
    case Lead(_) => true
    case Open(_, _) => |l.open| < 16
    case Close => l.open != [] && Closes(l.open[|l.open| - 1], l.size)
    case CloseAll => AllClose(l.open, l.size)
    case NewMessage(_) => AllClose(l.open, l.size)
  }

  ghost predicate AllowedAll(l: Ledger, ops: seq<Op>)
    decreases |ops|
  {
    ops != [] ==> Allowed(l, ops[0]) && AllowedAll(Book(l, ops[0]), ops[1..])
  }

  // --- the ledger describes the writer --------------------------------------------------------

  ghost predicate EntryMatches(buf: bytes, m: Meta, a: Account) {
    m == Meta(a.from, a.guess, a.count % U32) && a.from < |buf| &&
    match a.kind
    case MsgKind => buf[a.from] == 0xce && a.guess == U32 - 1
    case ArrKind => ArrayHead(buf[a.from])
    case MapKind => MapHead(buf[a.from])
  }

  ghost predicate Matches(w: State, l: Ledger) {
    |w.buf| == l.size && |w.stack| == |l.open| &&
    (forall i | 0 <= i < |l.open| :: EntryMatches(w.buf, w.stack[i], l.open[i])) &&
    (forall i, j | 0 <= i < j < |l.open| :: l.open[i].from < l.open[j].from)
  }

  /** Bytes appended and items counted in the innermost entry. */
  lemma AppendMatches(w: State, l: Ledger, bs: bytes, n: nat)
    requires Matches(w, l)
    ensures Matches(State(w.buf + bs, Count(w.stack, n)), Ledger(l.size + |bs|, Booked(l.open, n)))
  {
    var k := |l.open| - 1;
    if l.open != [] { ModAdd(l.open[k].count, n); }
    forall i | 0 <= i < |l.open| ensures EntryMatches(w.buf + bs, Count(w.stack, n)[i], Booked(l.open, n)[i]) {
      assert EntryMatches(w.buf, w.stack[i], l.open[i]);
    }
  }

  /** Patching writes nothing before the header it patches. */
  lemma PatchAbove(buf: bytes, head: nat, isMap: bool, width: nat, n: u32, x: nat)
    requires x < head && x < |buf|
    ensures var r := PatchCount(buf, head, isMap, width, n); |r| == |buf| && r[x] == buf[x]
  {
    hide BigEndian;
  }

  /** A node of the same kind, guess and number of items. */
  ghost function Standing(a: Account): Node {
    Node(a.kind, a.guess, [], seq(a.count, i => Nil))
  }

  /** finalize on its own entry. */
  lemma FinalizeTop(w: State, a: Account)
    requires w.stack != [] && EntryMatches(w.buf, w.stack[|w.stack| - 1], a)
    ensures var r := Finalize(w);
            (r.outcome == Done <==> Closes(a, |w.buf|)) && r.state.stack == Pop(w).stack && |r.state.buf| == |w.buf| &&
            forall x | 0 <= x < a.from :: r.state.buf[x] == w.buf[x]
    ensures !a.kind.MsgKind? ==> Finalize(w) == FinalizeContainer(w)
  {
    hide HeaderWidth, BigEndian, PatchCount;
    if a.kind.MsgKind? {
      hide FinalizeContainer;
    } else {
      var nd := Standing(a);
      assert Fits(nd) <==> Closes(a, |w.buf|);
      assert MapHead(w.buf[a.from]) == nd.kind.MapKind? && ArrayHead(w.buf[a.from]) == nd.kind.ArrKind?;
      assert w.buf[a.from] != 0xce;
      assert Finalize(w) == FinalizeContainer(w);
      hide Finalize, FinalizeContainer, MapHead, ArrayHead, Fits, Cardinality;
      ContainerVerdict(w, nd);
      PatchKeepsSize(w.buf, a.from, nd.kind.MapKind?, HeaderWidth(nd.guess), Cardinality(nd));
      forall x | 0 <= x < a.from ensures Finalize(w).state.buf[x] == w.buf[x] {
        PatchAbove(w.buf, a.from, nd.kind.MapKind?, HeaderWidth(nd.guess), Cardinality(nd), x);
      }
    }
  }

  lemma FinalizeMatches(w: State, l: Ledger)
    requires Matches(w, l) && l.open != []
    ensures var r := Finalize(w);
            (r.outcome == Done <==> Closes(l.open[|l.open| - 1], l.size)) &&
            Matches(r.state, Book(l, Close))
    ensures !l.open[|l.open| - 1].kind.MsgKind? ==> Finalize(w) == FinalizeContainer(w)
  {
    hide Finalize, FinalizeContainer, Closes;
    var k := |l.open| - 1;
    assert EntryMatches(w.buf, w.stack[k], l.open[k]);
    FinalizeTop(w, l.open[k]);
    forall i | 0 <= i < k ensures EntryMatches(Finalize(w).state.buf, w.stack[i], l.open[i]) {
      assert EntryMatches(w.buf, w.stack[i], l.open[i]);
    }
  }

  lemma PatchKeepsSize(buf: bytes, head: nat, isMap: bool, width: nat, n: u32)
    ensures |PatchCount(buf, head, isMap, width, n)| == |buf|
  {
    hide BigEndian, Splice;
  }

  lemma {:induction false} FinalizeAllMatches(w: State, l: Ledger)
    requires Matches(w, l)
    ensures var r := FinalizeAll(w);
            (r.outcome == Done <==> AllClose(l.open, l.size)) &&
            (r.outcome == Done ==> r.state.stack == [] && |r.state.buf| == l.size)
    decreases |l.open|
  {
    hide Matches, Closes, Finalize, AllClose;
    Depths(w, l);
    AllCloseSplit(l.open, l.size);
    if l.open != [] {
      FinalizeMatches(w, l);
      Depths(Finalize(w).state, Book(l, Close));
      if Finalize(w).outcome == Done { FinalizeAllMatches(Finalize(w).state, Book(l, Close)); }
    }
  }

  lemma AllCloseSplit(open: seq<Account>, size: nat)
    ensures AllClose(open, size) <==>
            (open != [] ==> Closes(open[|open| - 1], size) && AllClose(open[..|open| - 1], size))
  {
    hide Closes;
  }

  lemma Depths(w: State, l: Ledger)
    requires Matches(w, l)
    ensures |w.buf| == l.size && |w.stack| == |l.open|
  {
    hide EntryMatches;
  }

  lemma OpenMatches(w: State, l: Ledger, isMap: bool, guess: u32)
    requires Matches(w, l) && |l.open| < MAX_DEPTH
    ensures Matches(Begin(w, isMap, guess).state, Book(l, Open(isMap, guess)))
  {
    var h := Header(isMap, HeaderWidth(guess), guess);
    AppendMatches(w, l, h, 1);
    HeadByte(isMap, guess);
    hide Header, HeaderWidth;
    var d := Ledger(l.size + |h|, Booked(l.open, 1));
    assert (w.buf + h)[|w.buf|] == h[0];
    forall i | 0 <= i < |l.open| ensures d.open[i].from < l.size {
      assert EntryMatches(w.buf, w.stack[i], l.open[i]);
    }
  }

  lemma HeadByte(isMap: bool, guess: u32)
    ensures var h := Header(isMap, HeaderWidth(guess), guess);
            |h| == HeaderWidth(guess) && if isMap then MapHead(h[0]) else ArrayHead(h[0])
  {
    hide BigEndian;
  }

  lemma ItemsMatch(w: State, l: Ledger, bs: bytes, card: nat)
    requires Matches(w, l)
    ensures Put(w, bs, card).outcome == Done <==> Allowed(l, Items(bs, card))
    ensures Put(w, bs, card).outcome == Done ==> Matches(Put(w, bs, card).state, Book(l, Items(bs, card)))
  {
    hide ItemsOf, Matches;
    Depths(w, l);
    AppendMatches(w, l, bs, card);
    if ItemsOf(bs).Good? { AppendMatches(w, l, bs, |ItemsOf(bs).items|); }
  }

  lemma LeadMatches(w: State, l: Ledger, bs: bytes)
    requires Matches(w, l)
    ensures Matches(w.(buf := w.buf + bs), Book(l, Lead(bs)))
  {
    hide Matches;
    AppendMatches(w, l, bs, 0);
    NothingCounted(w, l);
  }

  lemma StartMatches(w: State, l: Ledger, junk: bytes)
    requires Matches(w, l)
    ensures Start(w, junk).outcome == Done <==> AllClose(l.open, l.size)
    ensures Start(w, junk).outcome == Done ==> Matches(Start(w, junk).state, Book(l, NewMessage(junk)))
  {
    hide FinalizeAll, AllClose;
    FinalizeAllMatches(w, l);
  }

  lemma StepMatches(w: State, l: Ledger, op: Op)
    requires Matches(w, l)
    ensures Step(w, op).outcome == Done <==> Allowed(l, op)
    ensures Step(w, op).outcome == Done ==> Matches(Step(w, op).state, Book(l, op))
  {
    hide ItemsOf, Put, Begin, Start, Finalize, FinalizeAll, Closes, AllClose, EntryMatches;
    Depths(w, l);
    match op
    case Items(bs, card) => ItemsMatch(w, l, bs, card);
    case Lead(bs) => LeadMatches(w, l, bs);
    case Open(isMap, guess) =>
      TooDeepOnly(w, isMap, guess);
      if |l.open| < MAX_DEPTH { OpenMatches(w, l, isMap, guess); }
    case Close => if l.open != [] { FinalizeMatches(w, l); } else { NothingToClose(w); }
    case CloseAll => FinalizeAllMatches(w, l);
    case NewMessage(junk) => StartMatches(w, l, junk);
  }

  lemma TooDeepOnly(w: State, isMap: bool, guess: u32)
    ensures Begin(w, isMap, guess).outcome == if |w.stack| < MAX_DEPTH then Done else TooDeep
  {
    hide Header, HeaderWidth;
  }

  lemma NothingCounted(w: State, l: Ledger)
    requires Matches(w, l)
    ensures Count(w.stack, 0) == w.stack && Booked(l.open, 0) == l.open
  {
    if l.open != [] {
      var k := |l.open| - 1;
      assert EntryMatches(w.buf, w.stack[k], l.open[k]);
      ModAdd(w.stack[k].items, 0);
      assert w.stack[..k] + [w.stack[k]] == w.stack && l.open[..k] + [l.open[k]] == l.open;
    }
  }

  /** Any run of calls throws nothing exactly when the ledger allows every one of them: messages and
      containers in any nesting, raw items with any declared number, counts past 2^32 included. */
  lemma {:induction false} RunThrows(w: State, l: Ledger, ops: seq<Op>)
    requires Matches(w, l)
    ensures Run(w, ops).outcome == Done <==> AllowedAll(l, ops)
    decreases |ops|
  {
    if ops != [] {
      hide Matches, Step, Book, Allowed;
      StepMatches(w, l, ops[0]);
      if Step(w, ops[0]).outcome == Done { RunThrows(Step(w, ops[0]).state, Book(l, ops[0]), ops[1..]); }
    }
  }

  /** In particular from a writer with nothing open. */
  lemma RunThrowsFromStart(start: bytes, ops: seq<Op>)
    ensures Run(State(start, []), ops).outcome == Done <==> AllowedAll(Ledger(|start|, []), ops)
  {
    hide Run, AllowedAll;
    RunThrows(State(start, []), Ledger(|start|, []), ops);
  }

  /** With containers only, mp_writer::finalize_all is iproto_writer::finalize_all. */
  lemma {:induction false} SameFinalizeAll(w: State, l: Ledger)
    requires Matches(w, l) && forall a | a in l.open :: !a.kind.MsgKind?
    ensures FinalizeContainers(w) == FinalizeAll(w)
    decreases |l.open|
  {
    Depths(w, l);
    if l.open != [] {
      var k := |l.open| - 1;
      assert l.open[k] in l.open;
      FinalizeMatches(w, l);
      assert forall a | a in l.open[..k] :: a in l.open;
      hide Matches, Finalize, FinalizeContainer, Closes;
      if Finalize(w).outcome == Done { SameFinalizeAll(Finalize(w).state, Book(l, Close)); }
    }
  }
}
