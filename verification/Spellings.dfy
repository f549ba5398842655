/**
 Bytes read against the values they should hold. It is like parsing, except that a container's header may
 declare the number of items modulo 2^32, as the writer's counter does; `honest` says that none does so
 wrongly.
 */
module Spellings {
  import opened Bytes
  import opened MsgPack

  datatype Reading = Unread | Read(rest: bytes, honest: bool)

  predicate Declares(c: nat, n: nat) {
    c == n || c == n % U32
  }

  ghost function ReadOne(s: bytes, v: Value): (r: Reading)
    ensures r.Read? ==> |r.rest| < |s|
    decreases v, 0
  {
    match HeadOf(s)
    case Broken => Unread
    case Scalar(n) => if n <= |s| && ScalarValue(s[..n]) == v then Read(s[n..], true) else Unread
    case Container(isMap, w, c) =>
      if (if isMap then v.Map? else v.Arr?) && Declares(c, |v.items|) then
        match ReadAll(s[w..], v.items)
        case Unread => Unread
        case Read(rest, honest) => Read(rest, honest && c == |v.items|)
      else Unread
  }

  ghost function ReadAll(s: bytes, vs: seq<Value>): (r: Reading)
    ensures r.Read? ==> |r.rest| + |vs| <= |s|
    decreases vs, 0
  {
    if vs == [] then Read(s, true)
    else match ReadOne(s, vs[0])
      case Unread => Unread
      case Read(rest, honest) =>
        match ReadAll(rest, vs[1..])
        case Unread => Unread
        case Read(end, more) => Read(end, honest && more)
  }

  /** s is exactly the values, with headers that may lie. */
  ghost predicate Spelled(s: bytes, vs: seq<Value>) {
    ReadAll(s, vs).Read? && ReadAll(s, vs).rest == []
  }

  lemma {:induction false} ReadOneExtends(s: bytes, v: Value, t: bytes)
    requires ReadOne(s, v).Read?
    ensures ReadOne(s + t, v) == Read(ReadOne(s, v).rest + t, ReadOne(s, v).honest)
    decreases v, 0
  {
    HeadExtend(s, t);
    hide HeadOf, ScalarValue;
    match HeadOf(s)
    case Scalar(n) => assert (s + t)[..n] == s[..n] && (s + t)[n..] == s[n..] + t;
    case Container(_, w, _) =>
      assert (s + t)[w..] == s[w..] + t;
      ReadAllExtends(s[w..], v.items, t);
  }

  lemma {:induction false} ReadAllExtends(s: bytes, vs: seq<Value>, t: bytes)
    requires ReadAll(s, vs).Read?
    ensures ReadAll(s + t, vs) == Read(ReadAll(s, vs).rest + t, ReadAll(s, vs).honest)
    decreases vs, 0
  {
    hide ReadOne;
    if vs != [] {
      ReadOneExtends(s, vs[0], t);
      ReadAllExtends(ReadOne(s, vs[0]).rest, vs[1..], t);
    }
  }

  lemma {:induction false} ReadAllSplit(s: bytes, a: seq<Value>, b: seq<Value>)
    requires ReadAll(s, a).Read?
    ensures var p := ReadAll(s, a);
            var q := ReadAll(p.rest, b);
            ReadAll(s, a + b) == if q.Unread? then Unread else Read(q.rest, p.honest && q.honest)
    decreases |a|
  {
    hide ReadOne;
    if a == [] {
      assert a + b == b;
    } else {
      assert (a + b)[1..] == a[1..] + b;
      ReadAllSplit(ReadOne(s, a[0]).rest, a[1..], b);
    }
  }

  /** Spellings are put together, and are honest together. */
  lemma SpelledAppend(a: bytes, vs: seq<Value>, b: bytes, ws: seq<Value>)
    requires Spelled(a, vs) && Spelled(b, ws)
    ensures Spelled(a + b, vs + ws)
    ensures Encodes(a + b, vs + ws) <==> Encodes(a, vs) && Encodes(b, ws)
  {
    EncodesHonestly(a, vs);
    EncodesHonestly(b, ws);
    EncodesHonestly(a + b, vs + ws);
    hide ReadAll, Encodes;
    ReadAllExtends(a, vs, b);
    assert [] + b == b;
    ReadAllSplit(a + b, vs, ws);
  }

  lemma {:induction false} ParsedIsRead(s: bytes, k: nat)
    requires Parse(s, k).Good?
    ensures ReadAll(s, Parse(s, k).items) == Read(Parse(s, k).rest, true)
    decreases |s|, k
  {
    hide HeadOf, ScalarValue, Parse;
    if k == 0 {
      assert Parse(s, 0) == Good([], s) by { ParseNone(s); }
    } else {
      match HeadOf(s)
      case Broken => NotParsed(s, k);
      case Scalar(n) =>
        UnfoldScalar(s, k, n);
        var p := Parse(s[n..], k - 1);
        ParsedIsRead(s[n..], k - 1);
        assert Parse(s, k).items[1..] == p.items;
      case Container(isMap, w, c) =>
        UnfoldContainer(s, k, isMap, w, c);
        var inner := Parse(s[w..], c);
        var p := Parse(inner.rest, k - 1);
        ParsedIsRead(s[w..], c);
        ParsedIsRead(inner.rest, k - 1);
        assert Parse(s, k).items[1..] == p.items;
    }
  }

  lemma ParseNone(s: bytes)
    ensures Parse(s, 0) == Good([], s)
  {
  }

  lemma NotParsed(s: bytes, k: nat)
    requires k > 0 && HeadOf(s).Broken?
    ensures Parse(s, k).Bad?
  {
  }

  lemma {:induction false} HonestOneParses(s: bytes, v: Value)
    requires ReadOne(s, v).Read? && ReadOne(s, v).honest
    ensures Parse(s, 1) == Good([v], ReadOne(s, v).rest)
    decreases v, 0
  {
    hide HeadOf, ScalarValue, Parse;
    match HeadOf(s)
    case Scalar(n) =>
      UnfoldScalar(s, 1, n);
      ParseNone(s[n..]);
    case Container(isMap, w, c) =>
      HonestAllParse(s[w..], v.items);
      UnfoldContainer(s, 1, isMap, w, c);
      ParseNone(Parse(s[w..], c).rest);
  }

  lemma {:induction false} HonestAllParse(s: bytes, vs: seq<Value>)
    requires ReadAll(s, vs).Read? && ReadAll(s, vs).honest
    ensures Parse(s, |vs|) == Good(vs, ReadAll(s, vs).rest)
    decreases vs, 0
  {
    hide ReadOne, Parse;
    if vs == [] {
      ParseNone(s);
    } else {
      HonestOneParses(s, vs[0]);
      HonestAllParse(ReadOne(s, vs[0]).rest, vs[1..]);
      ParseSplit(s, 1, |vs| - 1);
      assert [vs[0]] + vs[1..] == vs;
    }
  }

  /** What an honest spelling is: an encoding. */
  lemma EncodesHonestly(s: bytes, vs: seq<Value>)
    ensures Encodes(s, vs) <==> ReadAll(s, vs) == Read([], true)
  {
    hide ReadAll, Parse;
    if Encodes(s, vs) { ParsedIsRead(s, |vs|); }
    if ReadAll(s, vs) == Read([], true) { HonestAllParse(s, vs); }
  }

  lemma EncodesSpells(s: bytes, vs: seq<Value>)
    requires Encodes(s, vs)
    ensures Spelled(s, vs)
  {
    EncodesHonestly(s, vs);
  }

  /** Every item takes a byte at least, so fewer than 2^32 bytes hold no container that large. */
  lemma {:induction false} ShortOneIsHonest(s: bytes, v: Value)
    requires ReadOne(s, v).Read? && |s| < U32
    ensures ReadOne(s, v).honest
    decreases v, 0
  {
    hide HeadOf, ScalarValue;
    match HeadOf(s)
    case Scalar(_) =>
    case Container(_, w, _) => ShortIsHonest(s[w..], v.items);
  }

  lemma {:induction false} ShortIsHonest(s: bytes, vs: seq<Value>)
    requires ReadAll(s, vs).Read? && |s| < U32
    ensures ReadAll(s, vs).honest
    decreases vs, 0
  {
    hide ReadOne;
    if vs != [] {
      ShortOneIsHonest(s, vs[0]);
      ShortIsHonest(ReadOne(s, vs[0]).rest, vs[1..]);
    }
  }

  /** A header that declares the items so, then the items, is the container: honestly exactly when they are
      and the header does not cut their number. */
  lemma HeaderSpells(isMap: bool, w: nat, n: u32, body: bytes, vs: seq<Value>)
    requires w == 1 || w == 3 || w == 5
    requires HeaderWidth(n) <= w
    requires Declares(if isMap then 2 * n else n, |vs|) && Spelled(body, vs)
    ensures var s, v := Header(isMap, w, n) + body, if isMap then Map(vs) else Arr(vs);
            Spelled(s, [v]) &&
            (Encodes(s, [v]) <==> Encodes(body, vs) && |vs| == if isMap then 2 * n else n)
  {
    var s, v := Header(isMap, w, n) + body, if isMap then Map(vs) else Arr(vs);
    EncodesHonestly(body, vs);
    EncodesHonestly(s, [v]);
    HeaderParses(isMap, w, n, body);
    hide HeadOf, Header, HeaderWidth, Encodes;
    assert s[w..] == body;
    assert [v][1..] == [];
    hide ReadAll;
    assert ReadAll([], []) == Read([], true) by { ReadNone([]); }
    ReadFirst(s, v);
  }

  lemma ReadNone(s: bytes)
    ensures ReadAll(s, []) == Read(s, true)
  {
  }

  lemma ReadFirst(s: bytes, v: Value)
    ensures ReadAll(s, [v]) == ReadOne(s, v)
  {
    hide ReadOne;
    assert [v][1..] == [];
  }
}
