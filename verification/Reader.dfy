/** mp_reader, mp_span and mp_map: walking, indexing and searching encoded items. */
module Reader {
  import opened Bytes
  import opened MsgPack
  import opened Options

  // --- items and where they stand -------------------------------------------------------------

  lemma Slices(s: bytes, a: nat, b: nat, c: nat)
    requires a <= b <= c <= |s|
    ensures s[a..][..b - a] == s[a..b] && s[a..][b - a..] == s[b..]
    ensures s[..c][a..] == s[a..c] && s[..c][..a] == s[..a]
    ensures s[a..b] + s[b..c] == s[a..c]
  {
  }

  /** Parsing looks at no byte beyond the items: the bytes consumed alone encode them. */
  lemma {:induction false} ParseConsumes(s: bytes, k: nat)
    requires Parse(s, k).Good?
    ensures var p := Parse(s, k); var n := |s| - |p.rest|;
            p.rest == s[n..] && Parse(s[..n], k) == Good(p.items, [])
    decreases |s|, k, 1
  {
    if k == 0 {
      assert s[..0] == [] && s[0..] == s;
    } else {
      hide HeadOf, ScalarValue;
      match HeadOf(s)
      case Scalar(m) => ScalarConsumes(s, k, m);
      case Container(isMap, w, c) => ContainerConsumes(s, k, isMap, w, c);
    }
  }

  lemma {:induction false} ScalarConsumes(s: bytes, k: nat, m: nat)
    requires k > 0 && HeadOf(s) == Scalar(m) && Parse(s, k).Good?
    ensures var p := Parse(s, k); var n := |s| - |p.rest|;
            p.rest == s[n..] && Parse(s[..n], k) == Good(p.items, [])
    decreases |s|, k, 0
  {
    hide HeadOf, ScalarValue, Parse;
    UnfoldScalar(s, k, m);
    ParseConsumes(s[m..], k - 1);
    var n := |s| - |Parse(s, k).rest|;
    Slices(s, m, n, n);
    HeadCut(s, n);
    UnfoldScalar(s[..n], k, m);
  }

  lemma {:induction false} ContainerConsumes(s: bytes, k: nat, isMap: bool, w: nat, c: nat)
    requires k > 0 && HeadOf(s) == Container(isMap, w, c) && w <= |s| && Parse(s, k).Good?
    ensures var p := Parse(s, k); var n := |s| - |p.rest|;
            p.rest == s[n..] && Parse(s[..n], k) == Good(p.items, [])
    decreases |s|, k, 0
  {
    hide HeadOf, Parse;
    UnfoldContainer(s, k, isMap, w, c);
    var inner := Parse(s[w..], c);
    var j := |s| - |inner.rest|;
    var n := |s| - |Parse(s, k).rest|;
    ParseConsumes(s[w..], c);
    ParseConsumes(inner.rest, k - 1);
    HeadCut(s, n);
    Slices(s, w, j, n);
    Slices(s, j, n, n);
    ParseExtend(s[w..j], c, s[j..n]);
    assert [] + s[j..n] == s[j..n];
    UnfoldContainer(s[..n], k, isMap, w, c);
  }

  /** A head reads the same when cut to its item. */
  lemma HeadCut(s: bytes, n: nat)
    requires n <= |s| && !HeadOf(s).Broken?
    requires match HeadOf(s) case Scalar(m) => m <= n case Container(_, w, _) => w <= n
    ensures HeadOf(s[..n]) == HeadOf(s)
  {
    match ShapeOf(s[0])
    case Sized(lb, _) => assert s[..n][1..1 + lb] == s[1..1 + lb];
    case SizedSeq(_, lb) => assert s[..n][1..1 + lb] == s[1..1 + lb];
    case _ =>
  }

  /** Where the item number i starts, counted from the first. */
  function Offset(data: bytes, i: nat): Option<nat> {
    match Walk(data, i)
    case Lost => None
    case At(rest) => Some(|data| - |rest|)
  }

  /** The i-th item of data lies between two offsets and encodes the i-th value. */
  lemma ItemAtOffsets(data: bytes, vs: seq<Value>, i: nat)
    requires Encodes(data, vs) && i < |vs|
    ensures Offset(data, i).Some? && Offset(data, i + 1).Some?
    ensures var a, b := Offset(data, i).value, Offset(data, i + 1).value;
            a < b <= |data| && Walk(data, i).rest == data[a..] && Encodes(data[a..b], [vs[i]])
  {
    hide Walk, Parse, HeadOf;
    PrefixParses(data, vs, i);
    PrefixParses(data, vs, i + 1);
    WalkAgreesWithParse(data, i);
    WalkAgreesWithParse(data, i + 1);
    ParseConsumes(data, i);
    var p := Parse(data, i);
    ParseSplit(data, i, 1);
    PrefixParses(p.rest, vs[i..], 1);
    assert vs[i..][..1] == [vs[i]];
    var q := Parse(p.rest, 1);
    ParseConsumes(p.rest, 1);
    Slices(data, |data| - |p.rest|, |data| - |q.rest|, |data| - |q.rest|);
  }

  lemma ShorterParses(s: bytes, i: nat, n: nat)
    requires i <= n && Parse(s, n).Good?
    ensures Parse(s, i).Good?
  {
    hide Parse, Walk;
    WalkSplit(s, i, n - i);
    WalkAgreesWithParse(s, i);
    WalkAgreesWithParse(s, n);
  }

  lemma PrefixParses(data: bytes, vs: seq<Value>, i: nat)
    requires Encodes(data, vs) && i <= |vs|
    ensures Parse(data, i).Good? && Parse(data, i).items == vs[..i]
    ensures Parse(Parse(data, i).rest, |vs| - i) == Good(vs[i..], [])
  {
    hide Parse;
    ShorterParses(data, i, |vs|);
    ParseSplit(data, i, |vs| - i);
    var p := Parse(data, i);
    var q := Parse(p.rest, |vs| - i);
    assert (p.items + q.items)[..i] == p.items && (p.items + q.items)[i..] == q.items;
  }

  // --- the reader -----------------------------------------------------------------------------

  /** skip() at position pos with ind items passed: the new position, or None for mp_reader_error. */
  function SkipAt(data: bytes, limit: Option<nat>, pos: nat, ind: nat): (r: Option<nat>)
    requires pos <= |data|
    ensures r.Some? ==> pos < r.value <= |data|
  {
    if pos >= |data| then None
    else if limit.Some? && ind >= limit.value then None
    else match Walk(data[pos..], 1)
      case Lost => None
      case At(rest) => Some(|data| - |rest|)
  }

  /** The bytes of item i for a reader over data limited to `limit` items. */
  function ItemBytes(data: bytes, limit: Option<nat>, i: nat): Option<bytes> {
    if limit.Some? && i >= limit.value then None
    else match (Walk(data, i), Walk(data, i + 1))
      case (At(a), At(b)) => if |b| < |a| then Some(a[..|a| - |b|]) else None
      case _ => None
  }

  lemma SkipReaches(data: bytes, limit: Option<nat>, pos: nat, ind: nat)
    requires pos <= |data| && Walk(data, ind) == At(data[pos..]) && (limit.Some? ==> ind <= limit.value)
    ensures var next := SkipAt(data, limit, pos, ind);
            if next.None? then ItemBytes(data, limit, ind).None?
            else ItemBytes(data, limit, ind) == Some(data[pos..next.value]) &&
                 Walk(data, ind + 1) == At(data[next.value..]) && (limit.Some? ==> ind + 1 <= limit.value)
  {
    hide Walk;
    WalkSplit(data, ind, 1);
    WalkSuffix(data[pos..], 1);
    WalkShrinks(data[pos..]);
    NoItemInNothing();
    if Walk(data[pos..], 1).At? {
      var b := |data| - |Walk(data[pos..], 1).rest|;
      Slices(data, pos, b, b);
    }
  }

  lemma NoItemInNothing()
    ensures Walk([], 1).Lost?
  {
  }

  /** mp_reader over a right-bounded span; `limit` is an array's cardinality or twice a map's. */
  class MpReader {
    const data: bytes
    const limit: Option<nat>
    var pos: nat
    var ind: nat

    /** The cursor is exactly `ind` items past the beginning. */
    ghost predicate Valid()
      reads this
    {
      pos <= |data| && Walk(data, ind) == At(data[pos..]) && (limit.Some? ==> ind <= limit.value)
    }

    constructor (data: bytes, limit: Option<nat>)
      ensures Valid() && this.data == data && this.limit == limit && pos == 0 && ind == 0
    {
      this.data := data;
      this.limit := limit;
      pos, ind := 0, 0;
      new;
      assert data[0..] == data;
    }

    /** has_next of a right-bounded reader. */
    method HasNext() returns (r: bool)
      ensures r == (pos < |data|)
    {
      r := pos < |data|;
    }

    method Rewind()
      modifies this
      ensures Valid() && pos == 0 && ind == 0
    {
      pos, ind := 0, 0;
      assert data[0..] == data;
    }

    /** A failing skip leaves the position where it was. */
    method Skip() returns (ok: bool)
      requires Valid()
      modifies this
      ensures Valid() && old(pos) <= pos
      ensures ok == ItemBytes(data, limit, old(ind)).Some?
      ensures if ok then ind == old(ind) + 1 && ItemBytes(data, limit, old(ind)) == Some(data[old(pos)..pos])
              else ind == old(ind) && pos == old(pos)
    {
      hide Walk, SkipAt, ItemBytes, HeadOf;
      SkipReaches(data, limit, pos, ind);
      var next := SkipAt(data, limit, pos, ind);
      ok := next.Some?;
      if ok { pos, ind := next.value, ind + 1; }
    }

    /** operator[]: from the current position when it can, else from the beginning on a copy. */
    method ItemAt(i: nat) returns (r: Option<bytes>)
      requires Valid()
      ensures r == ItemBytes(data, limit, i)
    {
      hide Walk, ItemBytes;
      var tmp := new MpReader(data, limit);
      if ind <= i {
        tmp.pos, tmp.ind := pos, ind;
      }
      while tmp.ind < i
        invariant tmp.Valid() && fresh(tmp) && tmp.data == data && tmp.limit == limit && tmp.ind <= i
        decreases i - tmp.ind
      {
        ghost var k := tmp.ind;
        var ok := tmp.Skip();
        if !ok {
          NoLaterItem(data, limit, k, i);
          return None;
        }
      }
      var begin := tmp.pos;
      var ok := tmp.Skip();
      if !ok { return None; }
      return Some(data[begin..tmp.pos]);
    }

    /** operator>> into an mp_span. */
    method ReadSpan(dst: MpSpan) returns (ok: bool)
      requires Valid()
      modifies this, dst, dst.rbounds
      ensures Valid() && old(ind) <= ind
      ensures ReadInto(data, limit, old(pos), old(ind), old(dst.Abs())) == SpanRead(dst.Abs(), pos, ok)
      ensures dst.cardinality == old(dst.cardinality) + ind - old(ind)
    {
      hide Walk, SkipAt, HeadOf, ItemBytes;
      dst.data, dst.begin := data, pos;
      var i := 0;
      while i < dst.rbounds.Length && pos < |data|
        invariant Valid() && i <= dst.rbounds.Length && ind == old(ind) + i
        invariant dst.data == data && dst.begin == old(pos) && dst.cardinality == old(dst.cardinality) + i
        invariant ReadOn(data, limit, pos, ind, i, dst.Abs()) ==
                  ReadInto(data, limit, old(pos), old(ind), old(dst.Abs()))
        decreases dst.rbounds.Length - i
      {
        ghost var was := dst.Abs();
        ghost var at := pos;
        SkipReaches(data, limit, pos, ind);
        var next := SkipAt(data, limit, pos, ind);
        if next.None? { return false; }
        pos, ind := next.value, ind + 1;
        dst.rbounds[i] := (pos - dst.begin) % U32;
        dst.cardinality := dst.cardinality + 1;
        i := i + 1;
        assert dst.Abs() == Bounded(was, i - 1, pos);
      }
      dst.end := pos;
      return true;
    }
  }

  /** mp_span: a stretch of items and the right bound of each, relative to its beginning. The number of
      items is kept beside the array of bounds. */
  class MpSpan {
    const rbounds: array<u32>
    var data: bytes
    var begin: nat
    var end: nat
    var cardinality: nat

    ghost function Abs(): Span
      reads this, rbounds
    {
      Span(data, begin, end, cardinality, rbounds[..])
    }

    constructor (maxN: nat)
      ensures fresh(rbounds) && rbounds.Length == maxN && cardinality == 0
    {
      rbounds := new u32[maxN];
      data, begin, end, cardinality := [], 0, 0, 0;
    }

    /** operator[] */
    method At(i: nat) returns (r: Element)
      ensures r == SpanAt(Abs(), i)
    {
      if cardinality <= i { return NilItem; }
      if i >= rbounds.Length { return Beyond; }
      return Range(begin + (if i > 0 then rbounds[i - 1] else 0), begin + rbounds[i]);
    }
  }

  /** One step of the walk: past a scalar, or past a container's head with its items still to come. */
  lemma WalkStep(s: bytes, k: nat)
    requires k > 0
    ensures Walk(s, k) == match HeadOf(s)
                          case Broken => Lost
                          case Scalar(n) => if n > |s| then Lost else Walk(s[n..], k - 1)
                          case Container(_, w, c) => Walk(s[w..], c + k - 1)
  {
    hide HeadOf;
  }

  lemma NoStep(s: bytes)
    ensures Walk(s, 0) == At(s)
  {
  }

  lemma {:induction false} WalkSuffix(s: bytes, k: nat)
    ensures Walk(s, k).At? ==> Walk(s, k).rest == s[|s| - |Walk(s, k).rest|..]
    decreases |s|, 1
  {
    hide HeadOf, Walk;
    if k == 0 {
      NoStep(s);
    } else {
      WalkStep(s, k);
      match HeadOf(s)
      case Broken =>
      case Scalar(n) => if n <= |s| { SuffixStep(s, n, Walk(s, k), k - 1); }
      case Container(_, w, c) => SuffixStep(s, w, Walk(s, k), c + k - 1);
    }
  }

  lemma SuffixStep(s: bytes, n: nat, w: Walked, k: nat)
    requires 0 < n <= |s| && w == Walk(s[n..], k)
    ensures w.At? ==> w.rest == s[|s| - |w.rest|..]
    decreases |s|, 0
  {
    hide Walk;
    WalkSuffix(s[n..], k);
    if w.At? { SuffixOfSuffix(s, n, w.rest); }
  }

  lemma SuffixOfSuffix(s: bytes, n: nat, t: bytes)
    requires n <= |s| && |t| <= |s| - n && t == s[n..][|s| - n - |t|..]
    ensures t == s[|s| - |t|..]
  {
  }

  lemma NoLaterItem(data: bytes, limit: Option<nat>, k: nat, i: nat)
    requires k <= i && Walk(data, k).At? && ItemBytes(data, limit, k).None?
    ensures ItemBytes(data, limit, i).None?
  {
    hide Walk;
    WalkSplit(data, k, 1);
    WalkSplit(data, k + 1, i - k);
    WalkSuffix(data, k);
    WalkShrinks(Walk(data, k).rest);
  }

  lemma WalkShrinks(s: bytes)
    ensures Walk(s, 1).At? ==> |Walk(s, 1).rest| < |s|
  {
  }

  /** operator[] returns exactly the i-th encoded value, whatever has been read before, and throws
      exactly when there is none or the reader is limited to fewer. */
  lemma IndexIsItem(data: bytes, vs: seq<Value>, limit: Option<nat>, i: nat)
    requires Encodes(data, vs)
    ensures ItemBytes(data, limit, i).Some? <==> i < |vs| && (limit.Some? ==> i < limit.value)
    ensures var r := ItemBytes(data, limit, i); r.Some? ==> i < |vs| && Encodes(r.value, [vs[i]])
  {
    hide Walk, Parse, HeadOf;
    if i < |vs| {
      ItemAtOffsets(data, vs, i);
      var a, b := Offset(data, i).value, Offset(data, i + 1).value;
      WalkSuffix(data, i + 1);
      Slices(data, a, b, b);
    } else {
      WalkAgreesWithParse(data, |vs|);
      WalkSplit(data, |vs|, i - |vs|);
      if i > |vs| { WalkSplit([], 1, i - |vs| - 1); }
      WalkSplit(data, |vs|, i + 1 - |vs|);
      WalkSplit([], 1, i - |vs|);
      NoItemInNothing();
    }
  }

  // --- mp_span --------------------------------------------------------------------------------

  datatype Span = Span(data: bytes, begin: nat, end: nat, cardinality: nat, bounds: seq<u32>)

  /** What indexing gives: the static nil, a pair of positions, or a look past the array of bounds. */
  datatype Element = NilItem | Range(from: nat, to: nat) | Beyond

  function SpanAt(s: Span, i: nat): Element {
    if s.cardinality <= i then NilItem
    else if i >= |s.bounds| then Beyond
    else Range(s.begin + (if i > 0 then s.bounds[i - 1] else 0), s.begin + s.bounds[i])
  }

  datatype SpanRead = SpanRead(s: Span, pos: nat, ok: bool)

  /** The next bound, cut to 32 bits, and one more item: what the span held before still counts. */
  function Bounded(s: Span, i: nat, next: nat): Span
    requires i < |s.bounds|
  {
    s.(bounds := s.bounds[i := (next - s.begin) % U32], cardinality := s.cardinality + 1)
  }

  /** operator>> into a span, from its first item on. */
  function ReadInto(data: bytes, limit: Option<nat>, pos: nat, ind: nat, s: Span): SpanRead
    requires pos <= |data|
  {
    ReadOn(data, limit, pos, ind, 0, s.(data := data, begin := pos))
  }

  function ReadOn(data: bytes, limit: Option<nat>, pos: nat, ind: nat, i: nat, s: Span): SpanRead
    requires pos <= |data| && i <= |s.bounds|
    decreases |s.bounds| - i
  {
    if i >= |s.bounds| || pos >= |data| then SpanRead(s.(end := pos), pos, true)
    else match SkipAt(data, limit, pos, ind)
      case None => SpanRead(s, pos, false)
      case Some(next) => ReadOn(data, limit, next, ind + 1, i + 1, Bounded(s, i, next))
  }

  /** The first n bounds are where as many skips end, counted from `begin` and cut to 32 bits. */
  ghost predicate SpanOf(data: bytes, begin: nat, first: nat, n: nat, bounds: seq<u32>) {
    n <= |bounds| &&
    forall j | 0 <= j < n ::
      EndOf(data, first, j).Some? && bounds[j] == (EndOf(data, first, j).value - begin) % U32
  }

  /** Where j items past the first `first` another one ends. */
  function EndOf(data: bytes, first: nat, j: nat): Option<nat> {
    Offset(data, first + j + 1)
  }

  /** What has been read when the loop stands at item i, and stays as it is from there on. */
  lemma {:induction false} ReadOnFills(data: bytes, limit: Option<nat>, pos: nat, ind: nat, i: nat, s: Span)
    requires pos <= |data| && i <= |s.bounds| && i <= ind
    requires Walk(data, ind) == At(data[pos..]) && (limit.Some? ==> ind <= limit.value)
    requires SpanOf(data, s.begin, ind - i, i, s.bounds)
    ensures var r := ReadOn(data, limit, pos, ind, i, s);
            var n := i + r.s.cardinality - s.cardinality;
            i <= n <= |s.bounds| == |r.s.bounds| && r.s.data == s.data && r.s.begin == s.begin && r.pos <= |data| &&
            SpanOf(data, s.begin, ind - i, n, r.s.bounds) && r.s.bounds[n..] == s.bounds[n..] &&
            Offset(data, ind - i + n) == Some(r.pos) &&
            (r.ok ==> r.s.end == r.pos && (n == |s.bounds| || r.pos == |data|)) &&
            (!r.ok ==> ItemBytes(data, limit, ind - i + n).None?)
    decreases |s.bounds| - i
  {
    hide Walk, ItemBytes, SkipAt, HeadOf, SpanOf;
    SkipReaches(data, limit, pos, ind);
    var next := SkipAt(data, limit, pos, ind);
    if i < |s.bounds| && pos < |data| && next.Some? {
      assert Offset(data, ind + 1) == Some(next.value);
      var t := Bounded(s, i, next.value);
      var first := ind - i;
      OneMoreBound(data, first, i, s, next.value);
      assert ind + 1 - (i + 1) == first;
      ReadOnFills(data, limit, next.value, ind + 1, i + 1, t);
    }
  }

  lemma OneMoreBound(data: bytes, first: nat, i: nat, s: Span, next: nat)
    requires i < |s.bounds| && SpanOf(data, s.begin, first, i, s.bounds) && EndOf(data, first, i) == Some(next)
    ensures SpanOf(data, s.begin, first, i + 1, Bounded(s, i, next).bounds)
    ensures Bounded(s, i, next).bounds[i + 1..] == s.bounds[i + 1..]
  {
    hide EndOf;
  }

  /** One fill of a span: the items read are counted on top of what it held, their bounds take the place
      of the first ones, and the others stay. */
  lemma ReadIntoFills(data: bytes, limit: Option<nat>, pos: nat, ind: nat, s: Span)
    requires pos <= |data| && Walk(data, ind) == At(data[pos..]) && (limit.Some? ==> ind <= limit.value)
    ensures var r := ReadInto(data, limit, pos, ind, s);
            var n := r.s.cardinality - s.cardinality;
            0 <= n <= |s.bounds| == |r.s.bounds| && r.s.data == data && r.s.begin == pos &&
            SpanOf(data, pos, ind, n, r.s.bounds) && r.s.bounds[n..] == s.bounds[n..] &&
            Offset(data, ind + n) == Some(r.pos) &&
            (r.ok ==> r.s.end == r.pos && (n == |s.bounds| || r.pos == |data|)) &&
            (!r.ok ==> ItemBytes(data, limit, ind + n).None?)
  {
    hide Walk, ItemBytes, SkipAt, HeadOf, ReadOn;
    ReadOnFills(data, limit, pos, ind, 0, s.(data := data, begin := pos));
  }

  /** Indexing a span that has just been filled agrees with linear walking: element i of those read is the
      item that `ind + i` skips reach, exactly when it ends less than 2^32 bytes after the span begins. */
  lemma SpanAgreesWithWalk(data: bytes, limit: Option<nat>, pos: nat, ind: nat, s: Span, i: nat)
    requires pos <= |data| && Walk(data, ind) == At(data[pos..]) && (limit.Some? ==> ind <= limit.value)
    requires i < ReadInto(data, limit, pos, ind, s).s.cardinality - s.cardinality
    ensures var e := SpanAt(ReadInto(data, limit, pos, ind, s).s, i);
            Offset(data, ind + i).Some? && Offset(data, ind + i + 1).Some? &&
            var a, b := Offset(data, ind + i).value, Offset(data, ind + i + 1).value;
            pos <= a < b <= |data| && ItemBytes(data, None, ind + i) == Some(data[a..b]) &&
            (e == Range(a, b) <==> b - pos < U32)
  {
    hide ReadInto, ItemBytes, Walk;
    ReadIntoFills(data, limit, pos, ind, s);
    var bounds := ReadInto(data, limit, pos, ind, s).s.bounds;
    assert EndOf(data, ind, i).Some?;
    ItemWalked(data, pos, ind, i);
    if i > 0 {
      assert EndOf(data, ind, i - 1).Some?;
      ItemWalked(data, pos, ind, i - 1);
    }
  }

  /** The item number k + i, when k items reach position pos and it is there. */
  lemma ItemWalked(data: bytes, pos: nat, k: nat, i: nat)
    requires pos <= |data| && Walk(data, k) == At(data[pos..]) && Offset(data, k + i + 1).Some?
    ensures Offset(data, k + i).Some?
    ensures var a, b := Offset(data, k + i).value, Offset(data, k + i + 1).value;
            pos <= a < b <= |data| && ItemBytes(data, None, k + i) == Some(data[a..b])
  {
    hide Walk, ItemBytes;
    WalkSplit(data, k, i);
    WalkSplit(data, k + i, 1);
    WalkSuffix(data, k + i);
    WalkSuffix(data, k + i + 1);
    WalkShrinks(Walk(data, k + i).rest);
    ItemBetween(data, k + i, Offset(data, k + i).value, Offset(data, k + i + 1).value);
  }

  /** It gives nil for every index past the items read exactly when the span held nothing before: the
      count of a span that is filled again goes on from the old one. */
  lemma NilPastTheEnd(data: bytes, limit: Option<nat>, pos: nat, ind: nat, s: Span)
    requires pos <= |data| && Walk(data, ind) == At(data[pos..]) && (limit.Some? ==> ind <= limit.value)
    ensures var r := ReadInto(data, limit, pos, ind, s).s;
            (forall i: nat | i >= r.cardinality - s.cardinality :: SpanAt(r, i).NilItem?) <==> s.cardinality == 0
  {
    hide ReadInto, Walk;
    ReadIntoFills(data, limit, pos, ind, s);
    var r := ReadInto(data, limit, pos, ind, s).s;
    var n: nat := r.cardinality - s.cardinality;
    if s.cardinality > 0 { assert !SpanAt(r, n).NilItem?; }
  }

  /** A span filled from two items and then from one: index 1 gives the stale bound of the first fill, not
      nil, and index 2 looks past the bounds. */
  lemma RefilledSpanIsStale()
    ensures var once := ReadInto([7, 8], None, 0, 0, Span([], 0, 0, 0, [0, 0])).s;
            var again := ReadInto([9], None, 0, 0, once).s;
            SpanAt(again, 0) == Range(0, 1) && SpanAt(again, 1) == Range(1, 2) && SpanAt(again, 2) == Beyond
  {
    var empty := Span([], 0, 0, 0, [0, 0]);
    OneByteSkips([7, 8], 0, 0);
    OneByteSkips([7, 8], 1, 1);
    OneByteSkips([9], 0, 0);
    hide SkipAt;
    var once := ReadInto([7, 8], None, 0, 0, empty).s;
    assert once == Span([7, 8], 0, 2, 2, [1, 2]);
    var again := ReadInto([9], None, 0, 0, once).s;
    assert again == Span([9], 0, 1, 3, [1, 2]);
  }

  lemma OneByteSkips(data: bytes, pos: nat, ind: nat)
    requires pos < |data| && data[pos] <= 0x7f
    ensures SkipAt(data, None, pos, ind) == Some(pos + 1)
  {
    var s := data[pos..];
    assert HeadOf(s) == Scalar(1);
    NoStep(s[1..]);
  }

  /** A string of 2^32 - 1 bytes, five bytes of head before it: the bound of the only item is cut to 4. */
  lemma LongItemIsCut(s: bytes)
    requires |s| == U32 - 1
    ensures SpanAt(ReadInto(EncodeStr(s), None, 0, 0, Span([], 0, 0, 0, [0])).s, 0) == Range(0, 4)
  {
    hide Walk, Parse, BigEndian;
    var data := EncodeStr(s);
    assert |data| == U32 + 4 && data[0..] == data;
    StrEncodes(s);
    WalkAgreesWithParse(data, 1);
    hide EncodeStr;
    assert SkipAt(data, None, 0, 0) == Some(|data|);
    hide SkipAt;
    var empty := Span(data, 0, 0, 0, [0]);
    var full := Bounded(empty, 0, |data|);
    assert full == Span(data, 0, 0, 1, [4]);
    assert ReadOn(data, None, |data|, 1, 1, full) == SpanRead(full.(end := |data|), |data|, true);
    assert ReadInto(data, None, 0, 0, Span([], 0, 0, 0, [0])) == ReadOn(data, None, 0, 0, 0, empty);
    assert ReadOn(data, None, 0, 0, 0, empty) == ReadOn(data, None, |data|, 1, 1, full);
  }

  lemma ItemBetween(data: bytes, k: nat, a: nat, b: nat)
    requires a <= b <= |data| && Walk(data, k) == At(data[a..]) && Walk(data, k + 1) == At(data[b..])
    ensures ItemBytes(data, None, k) == Some(data[a..b])
  {
    hide Walk;
    WalkSplit(data, k, 1);
    WalkShrinks(data[a..]);
    Slices(data, a, b, b);
  }

  // --- mp_map::find ---------------------------------------------------------------------------

  /** A null view or pointer is the null key. */
  datatype Key = IntKey(i: int) | StrKey(s: bytes) | BoolKey(b: bool) | NullKey

  /** mp_reader::equals: numbers by value, strings by content, the null key with nil. */
  predicate Equals(v: Value, key: Key) {
    match key
    case IntKey(i) => v == Int(i)
    case StrKey(s) => v == Str(s)
    case BoolKey(b) => v == Bool(b)
    case NullKey => v == Nil
  }

  predicate Writable(key: Key) {
    (key.IntKey? ==> Int64(key.i)) && (key.StrKey? ==> |key.s| < U32)
  }

  /** What the writer writes for a key. */
  function Written(key: Key): bytes
    requires Writable(key)
  {
    match key
    case IntKey(i) => EncodeInt(i)
    case StrKey(s) => EncodeStr(s)
    case BoolKey(b) => [if b then 0xc3 else 0xc2]
    case NullKey => [0xc0]
  }

  /** A key equals exactly the value that the writer would write for it. */
  lemma EqualsWritten(v: Value, key: Key)
    requires Writable(key)
    ensures Equals(v, key) <==> Encodes(Written(key), [v])
  {
    hide Encodes, EncodeInt, EncodeStr;
    NilAndBools();
    match key
    case IntKey(i) => IntEncodes(i); OnlyEncodes(Written(key), v, Int(i));
    case StrKey(s) => StrEncodes(s); OnlyEncodes(Written(key), v, Str(s));
    case BoolKey(b) => OnlyEncodes(Written(key), v, Bool(b));
    case NullKey => OnlyEncodes(Written(key), v, Nil);
  }

  lemma OnlyEncodes(b: bytes, v: Value, w: Value)
    requires Encodes(b, [w])
    ensures Encodes(b, [v]) <==> v == w
  {
    if Encodes(b, [v]) {
      EncodesUnique(b, [v], [w]);
      assert [v][0] == [w][0];
    }
  }

  datatype Found = Absent | Value(item: bytes) | Broken

  function FindIn(data: bytes, n: nat, key: Key): (r: Found)
    decreases n
  {
    if n == 0 then Absent
    else match Parse(data, 1)
      case Bad => Found.Broken
      case Good(k, rest) =>
        match Walk(rest, 1)
        case Lost => Found.Broken
        case At(after) =>
          if Equals(k[0], key) then Found.Value(rest[..|rest| - |after|]) else FindIn(after, n - 1, key)
  }

  /** find: pair after pair, the first equal key wins. Broken stands for mp_reader_error. */
  method Find(data: bytes, cardinality: nat, key: Key) returns (r: Found)
    ensures r == FindIn(data, cardinality, key)
  {
    hide Walk, Parse;
    var rest := data;
    var n := cardinality;
    while n > 0
      invariant FindIn(data, cardinality, key) == FindIn(rest, n, key)
    {
      n := n - 1;
      var k := Parse(rest, 1);
      if k.Bad? { return Found.Broken; }
      var found := Equals(k.items[0], key);
      var w := Walk(k.rest, 1);
      if w.Lost? { return Found.Broken; }
      if found { return Found.Value(k.rest[..|k.rest| - |w.rest|]); }
      rest := w.rest;
    }
    return Absent;
  }

  /** The position of the first pair whose key matches. */
  function FirstPair(items: seq<Value>, key: Key): (i: nat)
    requires |items| % 2 == 0
    ensures i <= |items| / 2
    ensures i < |items| / 2 ==> Equals(items[2 * i], key)
    ensures forall j | 0 <= j < i :: !Equals(items[2 * j], key)
    decreases |items|
  {
    if items == [] then 0
    else if Equals(items[0], key) then 0
    else
      var i := FirstPair(items[2..], key);
      assert forall j | 1 <= j < |items| / 2 :: items[2 * j] == items[2..][2 * (j - 1)];
      1 + i
  }

  lemma TakeTwo(data: bytes, items: seq<Value>)
    requires |items| >= 2 && Encodes(data, items)
    ensures Parse(data, 1).Good? && Parse(data, 1).items == [items[0]]
    ensures var r := Parse(data, 1).rest;
            var w := Walk(r, 1);
            w.At? && |w.rest| < |r| && Encodes(r[..|r| - |w.rest|], [items[1]]) && Encodes(w.rest, items[2..])
  {
    hide Parse, Walk;
    PrefixParses(data, items, 1);
    assert items[..1] == [items[0]];
    var r := Parse(data, 1).rest;
    PrefixParses(r, items[1..], 1);
    assert items[1..][..1] == [items[1]] && items[1..][1..] == items[2..];
    WalkAgreesWithParse(r, 1);
    ParseConsumes(r, 1);
    WalkShrinks(r);
  }

  /** find returns the value of the first pair whose key equals the one sought, and nothing exactly
      when no key does. */
  lemma {:induction false} FindIsFirst(data: bytes, items: seq<Value>, key: Key)
    requires |items| % 2 == 0 && Encodes(data, items)
    ensures var i := FirstPair(items, key);
            if i == |items| / 2 then FindIn(data, |items| / 2, key) == Absent
            else var r := FindIn(data, |items| / 2, key);
                 r.Value? && Encodes(r.item, [items[2 * i + 1]])
    decreases |items|
  {
    hide Parse, Walk, Encodes;
    if items != [] {
      TakeTwo(data, items);
      if !Equals(items[0], key) {
        var rest := Walk(Parse(data, 1).rest, 1).rest;
        FindIsFirst(rest, items[2..], key);
        var i := FirstPair(items[2..], key);
        if i < |items[2..]| / 2 { assert items[2..][2 * i + 1] == items[2 * (i + 1) + 1]; }
      }
    }
  }

  /** All pairs can be read and no key is equal; or everything up to pair k can be read and its key is the first
      equal one; or no key before pair k is equal and that pair cannot be read. */
  ghost predicate Settles(data: bytes, n: nat, key: Key, found: Found, k: nat) {
    match found
    case Absent => Parse(data, 2 * n).Good? && FirstPair(Parse(data, 2 * n).items, key) == n
    case Value(item) =>
      k < n && Parse(data, 2 * k + 2).Good? &&
      var items := Parse(data, 2 * k + 2).items;
      FirstPair(items, key) == k && Encodes(item, [items[2 * k + 1]])
    case Broken =>
      k < n && Parse(data, 2 * k + 2).Bad? && Parse(data, 2 * k).Good? &&
      FirstPair(Parse(data, 2 * k).items, key) == k
  }

  /** find in any bytes at all ends in one of these ways: with nothing, with that pair's value, or by throwing. */
  lemma {:induction false} FindStops(data: bytes, n: nat, key: Key) returns (k: nat)
    ensures Settles(data, n, key, FindIn(data, n, key), k)
    decreases n
  {
    hide Parse, Walk;
    k := 0;
    NoItems(data);
    if n > 0 {
      OnePair(data);
      if Parse(data, 2).Good? && !Equals(Parse(data, 2).items[0], key) {
        hide Settles;
        var after := Parse(data, 2).rest;
        k := FindStops(after, n - 1, key);
        SettlesLater(data, n - 1, key, FindIn(after, n - 1, key), k);
        k := k + 1;
      } else if Parse(data, 2).Good? {
        assert FirstPair(Parse(data, 2).items, key) == 0;
      }
    }
  }

  lemma SettlesLater(data: bytes, n: nat, key: Key, found: Found, k: nat)
    requires Parse(data, 2).Good? && !Equals(Parse(data, 2).items[0], key)
    requires Settles(Parse(data, 2).rest, n, key, found, k)
    ensures Settles(data, n + 1, key, found, k + 1)
  {
    hide Parse;
    match found
    case Absent => MorePairs(data, n, key);
    case Value(item) => MorePairs(data, k + 1, key);
    case Broken => MorePairs(data, k, key); MorePairs(data, k + 1, key);
  }

  lemma NoItems(data: bytes)
    ensures Parse(data, 0) == Good([], data)
  {
  }

  /** A pair is read as find reads it. */
  lemma OnePair(data: bytes)
    ensures var k := Parse(data, 1);
            if k.Bad? || Walk(k.rest, 1).Lost? then Parse(data, 2).Bad?
            else
              var after := Walk(k.rest, 1).rest;
              Parse(data, 2).Good? && Parse(data, 2).items[0] == k.items[0] && Parse(data, 2).rest == after &&
              |after| <= |k.rest| && Encodes(k.rest[..|k.rest| - |after|], [Parse(data, 2).items[1]])
  {
    hide Parse, Walk;
    var k := Parse(data, 1);
    if k.Bad? {
      if Parse(data, 2).Good? { ShorterParses(data, 1, 2); }
    } else {
      WalkAgreesWithParse(k.rest, 1);
      ParseSplit(data, 1, 1);
      if Walk(k.rest, 1).At? { ParseConsumes(k.rest, 1); OneItem(k.rest); }
    }
  }

  lemma OneItem(s: bytes)
    ensures Parse(s, 1).Good? ==> Parse(s, 1).items == [Parse(s, 1).items[0]]
  {
    hide Parse;
  }

  /** The pairs after the first one. */
  lemma MorePairs(data: bytes, m: nat, key: Key)
    requires Parse(data, 2).Good? && !Equals(Parse(data, 2).items[0], key)
    ensures var more := Parse(Parse(data, 2).rest, 2 * m);
            if more.Bad? then Parse(data, 2 * m + 2).Bad?
            else Parse(data, 2 * m + 2).Good? && Parse(data, 2 * m + 2).items == Parse(data, 2).items + more.items &&
                 FirstPair(Parse(data, 2 * m + 2).items, key) == 1 + FirstPair(more.items, key)
  {
    hide Parse;
    ParseSplit(data, 2, 2 * m);
    var more := Parse(Parse(data, 2).rest, 2 * m);
    if more.Good? { assert (Parse(data, 2).items + more.items)[2..] == more.items; }
  }

  /** Bytes after the pairs change nothing found. */
  lemma {:induction false} FindInExtends(data: bytes, n: nat, key: Key, t: bytes)
    requires !FindIn(data, n, key).Broken?
    ensures FindIn(data + t, n, key) == FindIn(data, n, key)
    decreases n
  {
    hide Parse, Walk;
    if n > 0 {
      ParseExtend(data, 1, t);
      var rest := Parse(data, 1).rest;
      WalkAgreesWithParse(rest, 1);
      WalkAgreesWithParse(rest + t, 1);
      ParseExtend(rest, 1, t);
      var after := Walk(rest, 1).rest;
      assert (rest + t)[..|rest| - |after|] == rest[..|rest| - |after|];
      if !Equals(Parse(data, 1).items[0], key) { FindInExtends(after, n - 1, key, t); }
    }
  }

  // --- integers -------------------------------------------------------------------------------

  /** A built-in integer type of 8, 16, 32 or 64 bits. */
  datatype IntType = IntType(signed: bool, bytes: nat)

  predicate Builtin(t: IntType) {
    t.bytes == 1 || t.bytes == 2 || t.bytes == 4 || t.bytes == 8
  }

  function Lowest(t: IntType): int {
    if t.signed then -(Pow256(t.bytes) / 2) else 0
  }

  function Highest(t: IntType): int {
    if t.signed then Pow256(t.bytes) / 2 - 1 else Pow256(t.bytes) - 1
  }

  /** A 64-bit signed number where it is compared with a limit of type t: a 64-bit unsigned limit makes
      the comparison unsigned, any smaller type is widened to it. */
  function AsCompared(t: IntType, res: int): int {
    if !t.signed && t.bytes == 8 then res % U64 else res
  }

  /** static_cast to t. */
  function Cast(t: IntType, res: int): int {
    var m := res % Pow256(t.bytes);
    if t.signed && 2 * m >= Pow256(t.bytes) then m - Pow256(t.bytes) else m
  }

  predicate UIntHead(b: byte) { b <= 0x7f || 0xcc <= b <= 0xcf }

  predicate IntHead(b: byte) { 0xd0 <= b <= 0xd3 || b >= 0xe0 }

  /** operator>> into an integer of type t; None stands for the exceptions. */
  function ReadInteger(t: IntType, s: bytes): (r: Option<int>)
    ensures r.Some? && !t.signed ==> r.value >= 0
  {
    var p := Parse(s, 1);
    if p.Bad? || !p.items[0].Int? || s == [] then None
    else
      var res := p.items[0].i;
      if UIntHead(s[0]) && res <= Highest(t) then Some(Cast(t, res))
      else if IntHead(s[0]) && Lowest(t) <= AsCompared(t, res) <= Highest(t) then Some(Cast(t, res))
      else None
  }

  /** The same for an item that has been parsed. */
  function ReadValue(t: IntType, v: Value): (r: Option<int>)
    ensures r.Some? && !t.signed ==> r.value >= 0
  {
    if v.Int? && Lowest(t) <= AsCompared(t, v.i) <= Highest(t) then Some(Cast(t, v.i)) else None
  }

  /** Which of the two branches an integer takes makes no difference: its value decides. */
  lemma ReadIntegerByValue(t: IntType, s: bytes)
    requires Builtin(t) && Parse(s, 1).Good?
    ensures ReadInteger(t, s) == ReadValue(t, Parse(s, 1).items[0])
  {
    Pow256Widths();
    hide Cast, Pow256, HeadOf, ScalarValue, FromBigEndian;
    FirstItem(s);
    match HeadOf(s)
    case Scalar(n) => if ScalarValue(s[..n]).Int? { ScalarRange(s, n); }
    case _ =>
  }

  lemma FirstItem(s: bytes)
    requires Parse(s, 1).Good?
    ensures var h := HeadOf(s);
            !h.Broken? && (h.Container? ==> !Parse(s, 1).items[0].Int?) &&
            (h.Scalar? ==> h.size <= |s| && Parse(s, 1).items[0] == ScalarValue(s[..h.size]))
  {
    hide HeadOf, ScalarValue;
  }

  lemma ScalarRange(s: bytes, n: nat)
    requires HeadOf(s) == Scalar(n) && n <= |s| && ScalarValue(s[..n]).Int?
    ensures var i := ScalarValue(s[..n]).i;
            (UIntHead(s[0]) && 0 <= i < U64) || (IntHead(s[0]) && !UIntHead(s[0]) && i < U64)
  {
    Pow256Widths();
    hide FromBigEndian, Pow256;
    assert s[..n][0] == s[0];
  }

  /** An unsigned number its type can hold is itself. */
  lemma UnsignedIsRead(k: nat, v: nat)
    requires Builtin(IntType(false, k)) && v < Pow256(k)
    ensures ReadValue(IntType(false, k), Int(v)) == Some(v)
  {
    Pow256Widths();
    hide Cast, Pow256;
    CastKeeps(IntType(false, k), v);
  }

  /** An integer written by the writer is read back exactly when the type can hold it. Otherwise the read
      throws, except into an unsigned 64-bit type: there a negative number comes out 2^64 larger. */
  lemma IntegerReadsBack(t: IntType, v: int)
    requires Builtin(t) && Int64(v)
    ensures ReadInteger(t, EncodeInt(v)) ==
            if Lowest(t) <= v <= Highest(t) then Some(v)
            else if v < 0 && t == IntType(false, 8) then Some(v + U64)
            else None
  {
    hide EncodeInt, Parse, Cast, Pow256;
    IntEncodes(v);
    IntegerHead(v);
    Pow256Widths();
    if Lowest(t) <= v <= Highest(t) {
      CastKeeps(t, v);
    } else if v < 0 && t == IntType(false, 8) {
      CastWraps(v);
      ModShift(v, U64);
    }
  }

  lemma IntegerHead(v: int)
    requires Int64(v)
    ensures var s := EncodeInt(v); s != [] && UIntHead(s[0]) == (v >= 0) && IntHead(s[0]) == (v < 0)
  {
    hide BigEndian;
  }

  lemma CastKeeps(t: IntType, v: int)
    requires Builtin(t) && Lowest(t) <= v <= Highest(t)
    ensures Cast(t, v) == v
  {
    Pow256Widths();
    if v < 0 { ModShift(v, Pow256(t.bytes)); }
  }

  lemma ModShift(v: int, p: nat)
    requires 0 < p && 0 <= v + p < p
    ensures v % p == v + p
  {
  }

  lemma CastWraps(v: int)
    requires -0x8000_0000_0000_0000 <= v < 0
    ensures Cast(IntType(false, 8), v) == v + U64
  {
    Pow256Widths();
    ModShift(v, U64);
  }
}
