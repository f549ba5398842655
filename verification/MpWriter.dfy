/** class mp_writer: containers are opened with a guess and their headers patched in place. */
module MpWriters {
  import opened Bytes
  import opened MsgPack
  import opened Options
  import opened Writer
  import opened WtfBuffers

  /** Every open header lies inside the bytes written. */
  ghost predicate Sound(w: State) {
    |w.stack| <= MAX_DEPTH && forall m | m in w.stack :: m.head + HeaderWidth(m.guess) <= |w.buf|
  }

  lemma CountSound(w: State, n: nat, bs: bytes)
    requires Sound(w)
    ensures Sound(State(w.buf + bs, Count(w.stack, n)))
  {
    if w.stack != [] { assert w.stack[|w.stack| - 1] in w.stack; }
  }

  lemma PopSound(w: State, buf: bytes)
    requires Sound(w) && w.stack != [] && |buf| == |w.buf|
    ensures Sound(State(buf, Pop(w).stack))
  {
  }

  class MpWriter {
    const buf: WtfBuffer
    var stack: seq<Meta>

    ghost predicate Valid()
      reads this, buf, buf.store
    {
      buf.Valid() && Sound(Abs())
    }

    ghost function Abs(): State
      requires buf.Valid()
      reads this, buf, buf.store
    {
      State(buf.Contents(), stack)
    }

    constructor (buf: WtfBuffer)
      requires buf.Valid()
      ensures Valid() && this.buf == buf && Abs() == State(buf.Contents(), [])
    {
      this.buf := buf;
      stack := [];
    }

    /** increment_container_counter */
    method Increment(n: nat)
      modifies this`stack
      ensures stack == Count(old(stack), n)
    {
      if stack != [] {
        var k := |stack| - 1;
        stack := stack[..k] + [stack[k].(items := (stack[k].items + n) % U32)];
      }
    }

    /** The caller keeps nesting within the fixed stack and enough free space. */
    method BeginContainer(isMap: bool, guess: u32)
      requires Valid() && |stack| < MAX_DEPTH && HeaderWidth(guess) <= buf.Available()
      modifies this`stack, buf, buf.store
      ensures Valid() && buf.store == old(buf.store)
      ensures Begin(old(Abs()), isMap, guess) == Result(Abs(), Done)
    {
      var h := Header(isMap, HeaderWidth(guess), guess);
      ghost var was := Abs();
      Increment(1);
      stack := stack + [Meta(buf.size, guess, 0)];
      buf.Append(h);
      CountSound(was, 1, h);
    }

    method BeginArray(maxCardinality: u32)
      requires Valid() && |stack| < MAX_DEPTH && HeaderWidth(maxCardinality) <= buf.Available()
      modifies this`stack, buf, buf.store
      ensures Valid() && buf.store == old(buf.store)
      ensures Begin(old(Abs()), false, maxCardinality) == Result(Abs(), Done)
    {
      BeginContainer(false, maxCardinality);
    }

    method BeginMap(maxCardinality: u32)
      requires Valid() && |stack| < MAX_DEPTH && HeaderWidth(maxCardinality) <= buf.Available()
      modifies this`stack, buf, buf.store
      ensures Valid() && buf.store == old(buf.store)
      ensures Begin(old(Abs()), true, maxCardinality) == Result(Abs(), Done)
    {
      BeginContainer(true, maxCardinality);
    }

    /** finalize: only the header is written, in place. */
    method Finalize() returns (outcome: Outcome)
      requires Valid()
      modifies this`stack, buf.store
      ensures Valid() && buf.store == old(buf.store) && buf.size == old(buf.size)
      ensures FinalizeContainer(old(Abs())) == Result(Abs(), outcome)
    {
      if stack == [] { return NothingOpen; }
      hide PatchCount, MapHead, ArrayHead;
      ghost var was := Abs();
      var c := stack[|stack| - 1];
      assert c in stack;
      stack := stack[..|stack| - 1];
      assert Sound(Abs()) by { PopSound(was, was.buf); }
      if c.head >= buf.size { return BadHeader; }
      var head := buf.store[c.head];
      var isMap := MapHead(head);
      if !ArrayHead(head) && !isMap { return BadHeader; }
      if isMap && c.items % 2 == 1 { return OddMap; }
      var actual: u32 := if isMap then c.items / 2 else c.items;
      if actual == c.guess { return Done; }
      if actual > c.guess && HeaderWidth(actual) > HeaderWidth(c.guess) { return HeaderExceeded; }
      WidthOrder(actual, c.guess);
      PatchHeader(c.head, isMap, HeaderWidth(c.guess), actual);
      PopSound(was, Abs().buf);
      return Done;
    }

    method PatchHeader(head: nat, isMap: bool, width: nat, n: u32)
      requires buf.Valid() && (width == 1 || width == 3 || width == 5)
      requires head + width <= buf.size && HeaderWidth(n) <= width
      modifies buf.store
      ensures buf.Valid() && buf.store == old(buf.store) && buf.size == old(buf.size)
      ensures buf.Contents() == PatchCount(old(buf.Contents()), head, isMap, width, n)
    {
      if width == 1 {
        buf.Overwrite(head, [(if isMap then 0x80 else 0x90) + n]);
      } else if width == 3 {
        buf.Overwrite(head + 1, BigEndian(n, 2));
      } else {
        buf.Overwrite(head + 1, BigEndian(n, 4));
      }
    }

    method FinalizeAll() returns (outcome: Outcome)
      requires Valid()
      modifies this`stack, buf.store
      ensures Valid() && buf.store == old(buf.store) && buf.size == old(buf.size)
      ensures FinalizeContainers(old(Abs())) == Result(Abs(), outcome)
    {
      hide FinalizeContainer;
      while stack != []
        invariant Valid() && buf.size == old(buf.size)
        invariant FinalizeContainers(old(Abs())) == FinalizeContainers(Abs())
        decreases |stack|
      {
        ghost var d := |stack|;
        ghost var w := Abs();
        var o := Finalize();
        if o != Done { return o; }
        assert |stack| < d by { Popped(w); }
      }
      return Done;
    }

    /** operator<< for one item whose encoding is known to fit the free space. */
    method PutItem(bs: bytes)
      requires Valid() && |bs| <= buf.Available()
      modifies this`stack, buf, buf.store
      ensures Valid() && buf.store == old(buf.store)
      ensures Put(old(Abs()), bs, 1) == Result(Abs(), Done)
    {
      ghost var was := Abs();
      buf.Append(bs);
      Increment(1);
      CountSound(was, 1, bs);
    }

    method PutNil()
      requires Valid() && 1 <= buf.Available()
      modifies this`stack, buf, buf.store
      ensures Valid() && buf.store == old(buf.store)
      ensures Put(old(Abs()), [0xc0], 1) == Result(Abs(), Done)
    {
      PutItem([0xc0]);
    }

    method PutInt(v: int)
      requires Valid() && Int64(v) && |EncodeInt(v)| <= buf.Available()
      modifies this`stack, buf, buf.store
      ensures Valid() && buf.store == old(buf.store)
      ensures Put(old(Abs()), EncodeInt(v), 1) == Result(Abs(), Done)
    {
      PutItem(EncodeInt(v));
    }

    /** A null view is written as nil; a string longer than 2^32 - 1 bytes is refused. */
    method PutStr(view: Option<bytes>) returns (outcome: Outcome)
      requires Valid()
      requires (if view.Some? then if |view.value| < U32 then |EncodeStr(view.value)| else 0 else 1) <= buf.Available()
      modifies this`stack, buf, buf.store
      ensures Valid() && buf.store == old(buf.store)
      ensures match view
              case None => outcome == Done && Put(old(Abs()), [0xc0], 1) == Result(Abs(), Done)
              case Some(s) =>
                if |s| < U32 then outcome == Done && Put(old(Abs()), EncodeStr(s), 1) == Result(Abs(), Done)
                else outcome == SizeExceeded && Abs() == old(Abs())
    {
      hide EncodeStr, Put;
      if view.None? {
        PutNil();
      } else if |view.value| >= U32 {
        return SizeExceeded;
      } else {
        PutItem(EncodeStr(view.value));
      }
      return Done;
    }

    /** write: append raw MessagePack; without a declared cardinality the items are counted. The
        destination is taken before the buffer is resized: a buffer that has to grow either cannot,
        or moves away from under it. */
    method Write(bs: bytes, cardinality: nat) returns (outcome: Outcome)
      requires Valid()
      modifies this`stack, buf, buf.store
      ensures Valid()
      ensures |bs| <= old(buf.Available()) ==>
                buf.store == old(buf.store) && Put(old(Abs()), bs, cardinality) == Result(Abs(), outcome)
      ensures |bs| > old(buf.Available()) && !buf.growable ==>
                outcome == NoSpace && buf.store == old(buf.store) && Abs() == old(Abs())
      ensures |bs| > old(buf.Available()) && buf.growable ==>
                outcome == Stale && fresh(buf.store) && stack == old(stack) &&
                |Abs().buf| == |old(Abs()).buf| + |bs| && old(Abs()).buf <= Abs().buf
    {
      if |bs| > buf.Available() {
        ghost var was := Abs();
        var ok := buf.Resize(buf.size + |bs|);
        assert Sound(Abs()) by { assert forall m | m in was.stack :: m.head + HeaderWidth(m.guess) <= |was.buf|; }
        return if ok then Stale else NoSpace;
      }
      outcome := Store(bs, cardinality);
    }

    /** write() with the space at hand. */
    method Store(bs: bytes, cardinality: nat) returns (outcome: Outcome)
      requires Valid() && |bs| <= buf.Available()
      modifies this`stack, buf, buf.store
      ensures Valid() && buf.store == old(buf.store)
      ensures Put(old(Abs()), bs, cardinality) == Result(Abs(), outcome)
    {
      ghost var was := Abs();
      CountSound(was, 0, bs);
      buf.Append(bs);
      if stack == [] { return Done; }
      var n := cardinality;
      if cardinality == 0 {
        var ok;
        ok, n := CountItems(bs);
        if !ok { return BadItems; }
      }
      Increment(n);
      CountSound(was, n, bs);
      return Done;
    }

    /** fill, for as many rounds: each copy is one write, which needs its space like any other. */
    method Fill(item: bytes, cardinality: nat, target: u32, rounds: nat) returns (outcome: Option<Outcome>)
      requires Valid()
      modifies this`stack, buf, buf.store
      ensures Valid()
      ensures old(stack) == [] ==> outcome == Some(NothingOpen) && buf.store == old(buf.store) && Abs() == old(Abs())
      ensures old(stack) != [] ==>
                var r := Writer.Fill(old(Abs()), item, cardinality, target, rounds);
                if |r.state.buf| <= old(buf.Capacity())
                then buf.store == old(buf.store) && Abs() == r.state && outcome == r.outcome
                else outcome == Some(if buf.growable then Stale else NoSpace)
    {
      if stack == [] { return Some(NothingOpen); }
      hide Writer.Fill, Sound;
      outcome := Repeatedly(item, cardinality, target, rounds);
    }

    /** The loop of fill. */
    method Repeatedly(item: bytes, cardinality: nat, target: u32, rounds: nat) returns (outcome: Option<Outcome>)
      requires Valid() && stack != []
      modifies this`stack, buf, buf.store
      ensures Valid()
      ensures var r := Writer.Fill(old(Abs()), item, cardinality, target, rounds);
              if |r.state.buf| <= old(buf.Capacity())
              then buf.store == old(buf.store) && Abs() == r.state && outcome == r.outcome
              else outcome == Some(if buf.growable then Stale else NoSpace)
    {
      hide Put, Sound, ItemsOf, Writer.Fill;
      ghost var f := Writer.Fill(Abs(), item, cardinality, target, rounds);
      var left: nat := rounds;
      while true
        invariant Valid() && stack != [] && buf.store == old(buf.store)
        invariant Writer.Fill(Abs(), item, cardinality, target, left) == f
        decreases left
      {
        FillRound(Abs(), item, cardinality, target, left);
        var n := stack[|stack| - 1].items;
        if n >= target || n + cardinality > target { return Some(Done); }
        if left == 0 { return None; }
        left := left - 1;
        var room := buf.Available();
        var o := Write(item, cardinality);
        if |item| > room || o != Done { return Some(o); }
      }
    }

    method GetState() returns (s: Saved)
      requires Valid()
      ensures s == Writer.GetState(Abs()) && Sound(State(Abs().buf[..s.len], s.stack))
    {
      s := Saved(buf.size, stack);
    }

    /** Throws (ok is false) when the buffer no longer has the room. */
    method SetState(s: Saved) returns (ok: bool)
      requires Valid()
      requires s.len <= buf.Capacity() ==> Sound(State(buf.store[..s.len], s.stack))
      modifies this`stack, buf`size
      ensures Valid() && ok == (s.len <= buf.Capacity())
      ensures Abs() == if ok then State(buf.store[..s.len], s.stack) else old(Abs())
      ensures s.len <= old(buf.size) ==> Abs() == Writer.SetState(old(Abs()), s)
    {
      if buf.Capacity() < s.len { return false; }
      buf.size := s.len;
      stack := s.stack;
      return true;
    }
  }

  lemma WidthOrder(a: u32, g: u32)
    requires !(a > g && HeaderWidth(a) > HeaderWidth(g))
    ensures HeaderWidth(a) <= HeaderWidth(g)
  {
  }

  lemma Popped(w: State)
    requires w.stack != []
    ensures |FinalizeContainer(w).state.stack| == |w.stack| - 1
  {
    hide MapHead, ArrayHead, HeaderWidth, PatchCount;
  }

  /** One round of fill. */
  lemma FillRound(w: State, item: bytes, card: nat, target: u32, rounds: nat)
    requires w.stack != []
    ensures var n := w.stack[|w.stack| - 1].items;
            var f := Writer.Fill(w, item, card, target, rounds);
            var r := Put(w, item, card);
            r.state.stack != [] &&
            if n >= target || n + card > target then f == Filled(w, Some(Done))
            else if rounds == 0 then f == Filled(w, None)
            else |w.buf| + |item| <= |f.state.buf| &&
                 f == if r.outcome != Done then Filled(r.state, Some(r.outcome))
                      else Writer.Fill(r.state, item, card, target, rounds - 1)
  {
    PutAppends(w, item, card);
    hide ItemsOf;
  }

  lemma PutAppends(w: State, bs: bytes, card: nat)
    ensures Put(w, bs, card).state.buf == w.buf + bs
    ensures Put(w, bs, card).outcome == Done || Put(w, bs, card).outcome == BadItems
  {
    hide ItemsOf;
  }

  /** The counting loop of write: skip items until the end. */
  method CountItems(bs: bytes) returns (ok: bool, n: nat)
    ensures ok == ItemsOf(bs).Good?
    ensures ok ==> n == |ItemsOf(bs).items|
  {
    hide Walk, Parse;
    var rest := bs;
    n := 0;
    while rest != []
      invariant ItemsOf(bs).Good? <==> ItemsOf(rest).Good?
      invariant ItemsOf(bs).Good? ==> |ItemsOf(bs).items| == n + |ItemsOf(rest).items|
      decreases |rest|
    {
      WalkAgreesWithParse(rest, 1);
      var w := Walk(rest, 1);
      if w.Lost? { return false, n; }
      rest := w.rest;
      n := n + 1;
    }
    return true, n;
  }
}
