/**
 MessagePack as the connector uses it: the layout of every format family of the MessagePack
 specification ("Formats"), a tree parser, the flat item walk that mp_reader::skip relies on, and
 the encoders that mp_writer and iproto_writer call.
 */
module MsgPack {
  import opened Bytes

  /** A decoded item. A map keeps its keys and values alternating; Raw is a bin, float or ext item. */
  datatype Value =
    | Nil
    | Bool(b: bool)
    | Int(i: int)
    | Str(s: bytes)
    | Raw(item: bytes)
    | Arr(items: seq<Value>)
    | Map(items: seq<Value>)

  /** What the first byte of an item says about its layout. */
  datatype Shape =
    | Invalid
    | Fixed(size: nat)                     // an item of `size` bytes
    | Sized(lenBytes: nat, extra: nat)     // a length field, `extra` type bytes, the payload
    | FixedSeq(isMap: bool, n: nat)        // the cardinality sits in the first byte
    | SizedSeq(isMap: bool, lenBytes: nat) // a cardinality field follows

  function ShapeOf(b: byte): Shape {
    if b <= 0x7f then Fixed(1)
    else if b <= 0x8f then FixedSeq(true, b - 0x80)
    else if b <= 0x9f then FixedSeq(false, b - 0x90)
    else if b <= 0xbf then Fixed(1 + (b - 0xa0))
    else if b == 0xc0 then Fixed(1)
    else if b == 0xc1 then Invalid
    else if b <= 0xc3 then Fixed(1)
    else if b == 0xc4 then Sized(1, 0)
    else if b == 0xc5 then Sized(2, 0)
    else if b == 0xc6 then Sized(4, 0)
    else if b == 0xc7 then Sized(1, 1)
    else if b == 0xc8 then Sized(2, 1)
    else if b == 0xc9 then Sized(4, 1)
    else if b == 0xca then Fixed(5)
    else if b == 0xcb then Fixed(9)
    else if b == 0xcc || b == 0xd0 then Fixed(2)
    else if b == 0xcd || b == 0xd1 then Fixed(3)
    else if b == 0xce || b == 0xd2 then Fixed(5)
    else if b == 0xcf || b == 0xd3 then Fixed(9)
    else if b == 0xd4 then Fixed(3)
    else if b == 0xd5 then Fixed(4)
    else if b == 0xd6 then Fixed(6)
    else if b == 0xd7 then Fixed(10)
    else if b == 0xd8 then Fixed(18)
    else if b == 0xd9 then Sized(1, 0)
    else if b == 0xda then Sized(2, 0)
    else if b == 0xdb then Sized(4, 0)
    else if b == 0xdc then SizedSeq(false, 2)
    else if b == 0xdd then SizedSeq(false, 4)
    else if b == 0xde then SizedSeq(true, 2)
    else if b == 0xdf then SizedSeq(true, 4)
    else Fixed(1)
  }

  /** The head of the item that starts s: how long a scalar is, or how wide a container's header is
      and how many items follow it (twice the cardinality for a map). */
  datatype Head =
    | Broken
    | Scalar(size: nat)
    | Container(isMap: bool, width: nat, count: nat)

  function LenField(s: bytes, n: nat): nat
    requires 1 + n <= |s|
  {
    FromBigEndian(s[1..1 + n])
  }

  function HeadOf(s: bytes): (h: Head)
    ensures h.Scalar? ==> h.size >= 1
    ensures h.Container? ==> 1 <= h.width <= |s|
    ensures !h.Broken? ==> s != []
  {
    if s == [] then Broken
    else match ShapeOf(s[0])
      case Invalid => Broken
      case Fixed(n) => Scalar(n)
      case Sized(lb, extra) => if |s| < 1 + lb then Broken else Scalar(1 + lb + extra + LenField(s, lb))
      case FixedSeq(isMap, n) => Container(isMap, 1, if isMap then 2 * n else n)
      case SizedSeq(isMap, lb) =>
        if |s| < 1 + lb then Broken
        else Container(isMap, 1 + lb, if isMap then 2 * LenField(s, lb) else LenField(s, lb))
  }

  function Signed(v: nat, k: nat): int {
    if 2 * v >= Pow256(k) then v - Pow256(k) else v
  }

  /** The value of a complete scalar item. */
  function ScalarValue(x: bytes): Value
    requires |x| >= 1
  {
    var b: int := x[0];
    if b <= 0x7f then Int(b)
    else if 0xa0 <= b <= 0xbf then Str(x[1..])
    else if b == 0xc0 then Nil
    else if b == 0xc2 then Bool(false)
    else if b == 0xc3 then Bool(true)
    else if 0xcc <= b <= 0xcf then Int(FromBigEndian(x[1..]))
    else if 0xd0 <= b <= 0xd3 then Int(Signed(FromBigEndian(x[1..]), |x| - 1))
    else if b == 0xd9 && |x| >= 2 then Str(x[2..])
    else if b == 0xda && |x| >= 3 then Str(x[3..])
    else if b == 0xdb && |x| >= 5 then Str(x[5..])
    else if b >= 0xe0 then Int(b - 256)
    else Raw(x)
  }

  datatype Parsed = Bad | Good(items: seq<Value>, rest: bytes)

  /** The first k items of s as trees, and the bytes after them. */
  function Parse(s: bytes, k: nat): (p: Parsed)
    ensures p.Good? ==> |p.items| == k
    ensures p.Good? ==> |p.rest| <= |s| - k
    decreases |s|, k
  {
    if k == 0 then Good([], s)
    else match HeadOf(s)
      case Broken => Bad
      case Scalar(n) =>
        if n > |s| then Bad
        else Cons(ScalarValue(s[..n]), Parse(s[n..], k - 1))
      case Container(isMap, w, c) =>
        match Parse(s[w..], c)
        case Bad => Bad
        case Good(inner, rest) => Cons(if isMap then Map(inner) else Arr(inner), Parse(rest, k - 1))
  }

  function Cons(v: Value, p: Parsed): Parsed {
    if p.Bad? then Bad else Good([v] + p.items, p.rest)
  }

  lemma UnfoldScalar(s: bytes, k: nat, n: nat)
    requires k > 0 && HeadOf(s) == Scalar(n)
    ensures Parse(s, k) == if n > |s| then Bad else Cons(ScalarValue(s[..n]), Parse(s[n..], k - 1))
  {
  }

  lemma UnfoldContainer(s: bytes, k: nat, isMap: bool, w: nat, c: nat)
    requires k > 0 && HeadOf(s) == Container(isMap, w, c) && w <= |s|
    ensures var p := Parse(s[w..], c);
            Parse(s, k) == if p.Bad? then Bad
                           else Cons(if isMap then Map(p.items) else Arr(p.items), Parse(p.rest, k - 1))
  {
  }

  datatype Walked = Lost | At(rest: bytes)

  /** msgpuck's mp_next over k items: one loop with a counter of items still to pass. */
  function Walk(s: bytes, k: nat): (w: Walked)
    ensures w.At? ==> |w.rest| <= |s| && (k > 0 ==> |w.rest| < |s|)
    decreases |s|
  {
    if k == 0 then At(s)
    else match HeadOf(s)
      case Broken => Lost
      case Scalar(n) => if n > |s| then Lost else Walk(s[n..], k - 1)
      case Container(_, w, c) => Walk(s[w..], c + k - 1)
  }

  lemma {:induction false} WalkSplit(s: bytes, a: nat, b: nat)
    ensures Walk(s, a + b) == if Walk(s, a).Lost? then Lost else Walk(Walk(s, a).rest, b)
    decreases |s|
  {
    hide HeadOf, ScalarValue;
    if a > 0 {
      match HeadOf(s)
      case Broken =>
      case Scalar(n) => if n <= |s| { WalkSplit(s[n..], a - 1, b); }
      case Container(_, w, c) => WalkSplit(s[w..], c + a - 1, b);
    }
  }

  /** The flat walk passes exactly the items the tree parser reads, and fails exactly when it does. */
  lemma {:induction false} WalkAgreesWithParse(s: bytes, k: nat)
    ensures Walk(s, k) == if Parse(s, k).Bad? then Lost else At(Parse(s, k).rest)
    decreases |s|, k
  {
    hide HeadOf, ScalarValue;
    if k > 0 {
      match HeadOf(s)
      case Broken =>
      case Scalar(n) => if n <= |s| { WalkAgreesWithParse(s[n..], k - 1); }
      case Container(_, w, c) =>
        WalkNested(s[w..], c, k - 1);
    }
  }

  /** The container case: passing c + k items in one count is parsing c, then k. */
  lemma {:induction false} WalkNested(s: bytes, c: nat, k: nat)
    ensures Walk(s, c + k) ==
      if Parse(s, c).Bad? || Parse(Parse(s, c).rest, k).Bad? then Lost
      else At(Parse(Parse(s, c).rest, k).rest)
    decreases |s|, c + k + 1
  {
    hide HeadOf, Walk, Parse;
    WalkSplit(s, c, k);
    WalkAgreesWithParse(s, c);
    if Parse(s, c).Good? { WalkAgreesWithParse(Parse(s, c).rest, k); }
  }

  lemma HeadExtend(s: bytes, t: bytes)
    requires !HeadOf(s).Broken?
    ensures HeadOf(s + t) == HeadOf(s)
  {
    match ShapeOf(s[0])
    case Sized(lb, _) => assert (s + t)[1..1 + lb] == s[1..1 + lb];
    case SizedSeq(_, lb) => assert (s + t)[1..1 + lb] == s[1..1 + lb];
    case _ =>
  }

  /** Items are self-delimiting: bytes after them change nothing. */
  lemma {:induction false} ParseExtend(s: bytes, k: nat, t: bytes)
    requires Parse(s, k).Good?
    ensures Parse(s + t, k) == Good(Parse(s, k).items, Parse(s, k).rest + t)
    decreases |s|, k
  {
    hide HeadOf, ScalarValue;
    if k > 0 {
      HeadExtend(s, t);
      match HeadOf(s)
      case Scalar(n) =>
        assert (s + t)[..n] == s[..n];
        assert (s + t)[n..] == s[n..] + t;
        ParseExtend(s[n..], k - 1, t);
      case Container(_, w, c) =>
        assert (s + t)[w..] == s[w..] + t;
        ParseExtend(s[w..], c, t);
        ParseExtend(Parse(s[w..], c).rest, k - 1, t);
    }
  }

  /** The inductive step of ParseSplit: the item v stands in front of tail. */
  lemma {:induction false} ConsSplit(v: Value, tail: bytes, a: nat, b: nat)
    requires a > 0 && Parse(tail, a - 1).Good?
    ensures var p := Parse(tail, a - 1); var q := Parse(p.rest, b);
            Cons(v, Parse(tail, a + b - 1)) == if q.Bad? then Bad else Good([v] + p.items + q.items, q.rest)
    decreases |tail|, a, 0
  {
    hide Parse, HeadOf;
    ParseSplit(tail, a - 1, b);
    var p := Parse(tail, a - 1);
    var q := Parse(p.rest, b);
    if q.Good? { assert [v] + p.items + q.items == [v] + (p.items + q.items); }
  }

  lemma {:induction false} ParseSplit(s: bytes, a: nat, b: nat)
    requires Parse(s, a).Good?
    ensures var p := Parse(s, a); var q := Parse(p.rest, b);
            Parse(s, a + b) == if q.Bad? then Bad else Good(p.items + q.items, q.rest)
    decreases |s|, a, 1
  {
    hide HeadOf, ScalarValue;
    if a == 0 {
      var q := Parse(s, b);
      if q.Good? { assert [] + q.items == q.items; }
    } else {
      match HeadOf(s)
      case Scalar(n) => ConsSplit(ScalarValue(s[..n]), s[n..], a, b);
      case Container(isMap, w, c) =>
        var p := Parse(s[w..], c);
        ConsSplit(if isMap then Map(p.items) else Arr(p.items), p.rest, a, b);
    }
  }

  /** b is exactly an encoding of vs, with any permitted header widths. */
  ghost predicate Encodes(b: bytes, vs: seq<Value>) {
    Parse(b, |vs|) == Good(vs, [])
  }

  lemma EncodesAppend(a: bytes, vs: seq<Value>, b: bytes, ws: seq<Value>)
    requires Encodes(a, vs) && Encodes(b, ws)
    ensures Encodes(a + b, vs + ws)
  {
    hide Parse, HeadOf;
    ParseExtend(a, |vs|, b);
    assert [] + b == b;
    ParseSplit(a + b, |vs|, |ws|);
  }

  lemma ParseEmpty(k: nat)
    requires k > 0
    ensures Parse([], k).Bad?
  {
  }

  /** The same bytes never encode two different lists of items. */
  lemma EncodesUnique(b: bytes, vs: seq<Value>, ws: seq<Value>)
    requires Encodes(b, vs) && Encodes(b, ws)
    ensures vs == ws
  {
    hide Parse, HeadOf;
    if |vs| < |ws| {
      ParseSplit(b, |vs|, |ws| - |vs|);
      ParseEmpty(|ws| - |vs|);
    } else if |ws| < |vs| {
      ParseSplit(b, |ws|, |vs| - |ws|);
      ParseEmpty(|vs| - |ws|);
    }
  }

  // --- encoders -------------------------------------------------------------------------------

  /** mp_encode_uint */
  function EncodeUInt(v: nat): (s: bytes)
    requires v < U64
  {
    if v <= 0x7f then [v]
    else if v < 256 then [0xcc] + BigEndian(v, 1)
    else if v < U16 then [0xcd] + BigEndian(v, 2)
    else if v < U32 then [0xce] + BigEndian(v, 4)
    else [0xcf] + BigEndian(v, 8)
  }

  /** mp_encode_int */
  function EncodeNegative(v: int): (s: bytes)
    requires -0x8000_0000_0000_0000 <= v < 0
  {
    if v >= -0x20 then [v + 256]
    else if v >= -0x80 then [0xd0] + BigEndian(v + 256, 1)
    else if v >= -0x8000 then [0xd1] + BigEndian(v + U16, 2)
    else if v >= -0x8000_0000 then [0xd2] + BigEndian(v + U32, 4)
    else [0xd3] + BigEndian(v + U64, 8)
  }

  predicate Int64(v: int) {
    -0x8000_0000_0000_0000 <= v < U64
  }

  /** How mp_writer writes an integer. */
  function EncodeInt(v: int): bytes
    requires Int64(v)
  {
    if v >= 0 then EncodeUInt(v) else EncodeNegative(v)
  }

  /** mp_encode_strl */
  function StrHeader(n: nat): bytes
    requires n < U32
  {
    if n <= 31 then [0xa0 + n]
    else if n < 256 then [0xd9] + BigEndian(n, 1)
    else if n < U16 then [0xda] + BigEndian(n, 2)
    else [0xdb] + BigEndian(n, 4)
  }

  function EncodeStr(s: bytes): bytes
    requires |s| < U32
  {
    StrHeader(|s|) + s
  }

  /** mp_sizeof_array and mp_sizeof_map: the header width a cardinality needs. */
  function HeaderWidth(n: nat): (w: nat)
    ensures w == 1 || w == 3 || w == 5
  {
    if n <= 15 then 1 else if n < U16 then 3 else 5
  }

  /** A container header of a given width. */
  function Header(isMap: bool, w: nat, n: nat): (h: bytes)
    requires n < U32
    requires w == 1 || w == 3 || w == 5
    requires HeaderWidth(n) <= w
    ensures |h| == w
  {
    if w == 1 then [(if isMap then 0x80 else 0x90) + n]
    else if w == 3 then [if isMap then 0xde else 0xdc] + BigEndian(n, 2)
    else [if isMap then 0xdf else 0xdd] + BigEndian(n, 4)
  }

  lemma HeaderParses(isMap: bool, w: nat, n: nat, t: bytes)
    requires n < U32
    requires w == 1 || w == 3 || w == 5
    requires HeaderWidth(n) <= w
    ensures HeadOf(Header(isMap, w, n) + t) == Container(isMap, w, if isMap then 2 * n else n)
  {
    hide FromBigEndian, BigEndian, Pow256;
    var s := Header(isMap, w, n) + t;
    Pow256Widths();
    if w == 1 {
    } else {
      assert s[1..w] == BigEndian(n, w - 1);
      BigEndianRoundTrip(n, w - 1);
      assert LenField(s, w - 1) == n;
    }
  }

  /** A header of the right count followed by an encoding of the items is an encoding of the container. */
  lemma HeaderEncodes(isMap: bool, w: nat, n: nat, body: bytes, vs: seq<Value>)
    requires n < U32
    requires w == 1 || w == 3 || w == 5
    requires HeaderWidth(n) <= w
    requires |vs| == if isMap then 2 * n else n
    requires Encodes(body, vs)
    ensures Encodes(Header(isMap, w, n) + body, [if isMap then Map(vs) else Arr(vs)])
  {
    HeaderParses(isMap, w, n, body);
    assert (Header(isMap, w, n) + body)[w..] == body;
    assert Parse([], 0) == Good([], []);
  }

  lemma ScalarEncodes(x: bytes)
    requires HeadOf(x) == Scalar(|x|)
    ensures Encodes(x, [ScalarValue(x)])
  {
    assert x[..|x|] == x && x[|x|..] == [];
    assert Parse([], 0) == Good([], []);
  }

  lemma WideIntEncodes(b: byte, v: nat, k: nat)
    requires 0xcc <= b <= 0xd3 && ShapeOf(b) == Fixed(1 + k)
    requires v < Pow256(k)
    ensures Encodes([b] + BigEndian(v, k), [Int(if b <= 0xcf then v else Signed(v, k))])
  {
    hide BigEndian, FromBigEndian, Encodes, Signed;
    var x := [b] + BigEndian(v, k);
    assert x[1..] == BigEndian(v, k);
    BigEndianRoundTrip(v, k);
    ScalarEncodes(x);
  }

  lemma UIntEncodes(v: nat)
    requires v < U64
    ensures Encodes(EncodeUInt(v), [Int(v)])
  {
    hide BigEndian, FromBigEndian, Encodes, Pow256;
    Pow256Widths();
    if v <= 0x7f { ScalarEncodes([v]); }
    else if v < 256 { WideIntEncodes(0xcc, v, 1); }
    else if v < U16 { WideIntEncodes(0xcd, v, 2); }
    else if v < U32 { WideIntEncodes(0xce, v, 4); }
    else { WideIntEncodes(0xcf, v, 8); }
  }

  lemma NegativeEncodes(v: int)
    requires -0x8000_0000_0000_0000 <= v < 0
    ensures Encodes(EncodeNegative(v), [Int(v)])
  {
    hide BigEndian, FromBigEndian, Encodes, Pow256;
    Pow256Widths();
    if v >= -0x20 { ScalarEncodes([v + 256]); }
    else if v >= -0x80 { WideIntEncodes(0xd0, v + 256, 1); }
    else if v >= -0x8000 { WideIntEncodes(0xd1, v + U16, 2); }
    else if v >= -0x8000_0000 { WideIntEncodes(0xd2, v + U32, 4); }
    else { WideIntEncodes(0xd3, v + U64, 8); }
  }

  /** What the writer writes for an integer, the parser reads as that integer. */
  lemma IntEncodes(v: int)
    requires Int64(v)
    ensures Encodes(EncodeInt(v), [Int(v)])
  {
    if v >= 0 { UIntEncodes(v); } else { NegativeEncodes(v); }
  }

  lemma StrHeaderParses(s: bytes)
    requires |s| < U32
    ensures var x := EncodeStr(s);
            HeadOf(x) == Scalar(|x|) && ScalarValue(x) == Str(s)
  {
    hide FromBigEndian, BigEndian, Pow256;
    var n := |s|;
    var x := EncodeStr(s);
    var w := |StrHeader(n)|;
    assert x[w..] == s;
    Pow256Widths();
    if n > 31 {
      assert x[1..w] == BigEndian(n, w - 1);
      BigEndianRoundTrip(n, w - 1);
      assert LenField(x, w - 1) == n;
    }
  }

  lemma StrEncodes(s: bytes)
    requires |s| < U32
    ensures Encodes(EncodeStr(s), [Str(s)])
  {
    StrHeaderParses(s);
    ScalarEncodes(EncodeStr(s));
  }

  // --- every other format ---------------------------------------------------------------------

  lemma NilAndBools()
    ensures Encodes([0xc0], [Nil]) && Encodes([0xc2], [Bool(false)]) && Encodes([0xc3], [Bool(true)])
  {
    hide Encodes;
    ScalarEncodes([0xc0]);
    ScalarEncodes([0xc2]);
    ScalarEncodes([0xc3]);
  }

  /** The one byte that starts nothing. */
  lemma NeverUsed(t: bytes, k: nat)
    requires k > 0
    ensures Parse([0xc1] + t, k).Bad?
  {
  }

  /** A str, a bin or an ext with a length field of 1, 2 or 4 bytes, however short its payload is. */
  lemma LengthsAreRead(b: byte, k: nat, kind: bytes, p: bytes)
    requires k in {1, 2, 4} && |p| < Pow256(k) && b in {0xd9, 0xc4, 0xc7} && |kind| == if b == 0xc7 then 1 else 0
    ensures var x := [b + k / 2] + BigEndian(|p|, k) + kind + p;
            Encodes(x, [if b == 0xd9 then Str(p) else Raw(x)])
  {
    hide BigEndian, FromBigEndian, Encodes, Pow256, LenField, HeadOf, ScalarValue, ShapeOf;
    var head := b + k / 2;
    LengthShape(b, k);
    var len, rest := BigEndian(|p|, k), kind + p;
    var x := [head] + len + kind + p;
    assert x == [head] + (len + rest);
    LengthField(head, len, rest);
    BigEndianRoundTrip(|p|, k);
    SizedHead(x, k, |kind|);
    ScalarEncodes(x);
    SizedValue(x, k);
    assert b == 0xd9 ==> x[1 + k..] == p;
  }

  lemma LengthShape(b: byte, k: nat)
    requires k in {1, 2, 4} && b in {0xd9, 0xc4, 0xc7}
    ensures ShapeOf(b + k / 2) == Sized(k, if b == 0xc7 then 1 else 0)
    ensures if b == 0xd9 then b + k / 2 >= 0xd9 else 0xc4 <= b + k / 2 <= 0xc9
  {
  }

  lemma LengthField(head: byte, len: bytes, rest: bytes)
    ensures var x := [head] + (len + rest);
            x[0] == head && LenField(x, |len|) == FromBigEndian(len) && x[1 + |len|..] == rest
  {
    hide FromBigEndian;
    var x := [head] + (len + rest);
    assert x[1..] == len + rest;
    assert x[1..1 + |len|] == x[1..][..|len|] == len;
  }

  lemma SizedHead(x: bytes, k: nat, extra: nat)
    requires |x| > k && ShapeOf(x[0]) == Sized(k, extra)
    ensures HeadOf(x) == Scalar(1 + k + extra + LenField(x, k))
  {
    hide LenField;
  }

  lemma SizedValue(x: bytes, k: nat)
    requires |x| > k && k in {1, 2, 4} && (0xc4 <= x[0] <= 0xc9 || x[0] == 0xd9 + k / 2)
    ensures ScalarValue(x) == if x[0] >= 0xd9 then Str(x[1 + k..]) else Raw(x)
  {
  }

  /** A float or double, and an ext of 1, 2, 4, 8 or 16 bytes after its type. */
  lemma FixedSizes(b: byte, p: bytes)
    requires match |p|
             case 4 => b == 0xca
             case 8 => b == 0xcb
             case 2 => b == 0xd4
             case 3 => b == 0xd5
             case 5 => b == 0xd6
             case 9 => b == 0xd7
             case 17 => b == 0xd8
             case _ => false
    ensures Encodes([b] + p, [Raw([b] + p)])
  {
    hide Encodes;
    ScalarEncodes([b] + p);
  }
}
