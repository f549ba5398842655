/** proto_id and the requests iproto_writer composes, as bytes and as the items they encode. */
module Iproto {
  import opened Bytes
  import opened MsgPack
  import opened Options
  import opened Reader

  /** proto_id; the features are a bitset<32>. */
  datatype ProtoId = ProtoId(version: nat, auth: bytes, features: set<nat>)

  const NO_PROTO := ProtoId(0, [], {})
  const FEATURE_BITS: nat := 32
  const FEATURE_INVALID: nat := 5

  const CODE: nat := 0x00
  const SYNC: nat := 0x01
  const REQUEST_AUTH: nat := 0x07
  const REQUEST_EVAL: nat := 0x08
  const REQUEST_CALL: nat := 0x0a
  const REQUEST_PING: nat := 0x40
  const REQUEST_ID: nat := 0x49
  const TUPLE: nat := 0x21
  const FUNCTION_NAME: nat := 0x22
  const USER_NAME: nat := 0x23
  const EXPRESSION: nat := 0x27
  const VERSION: nat := 0x54
  const FEATURES: nat := 0x55
  const AUTH_TYPE: nat := 0x5b

  const UINT8: IntType := IntType(false, 1)
  const UINT32: IntType := IntType(false, 4)
  const UINT64: IntType := IntType(false, 8)

  // --- proto_id -------------------------------------------------------------------------------

  /** The constructor: features outside the bitset are dropped. */
  method MakeProtoId(features: seq<byte>, version: nat, auth: bytes) returns (p: ProtoId)
    ensures p == ProtoId(version, auth, set f | f in features && f < 32)
  {
    var bits: set<nat> := {};
    for i := 0 to |features|
      invariant bits == set f | f in features[..i] && f < FEATURE_BITS
    {
      if features[i] < FEATURE_BITS { bits := bits + {features[i]}; }
      assert features[..i + 1] == features[..i] + [features[i]];
    }
    p := ProtoId(version, auth, bits);
  }

  /** The members of fs below n, ascending. */
  function Below(fs: set<nat>, n: nat): (r: seq<byte>)
    requires n <= FEATURE_BITS
    ensures |r| <= n
  {
    if n == 0 then [] else Below(fs, n - 1) + (if n - 1 in fs then [n - 1] else [])
  }

  lemma {:induction false} BelowLists(fs: set<nat>, n: nat)
    requires n <= FEATURE_BITS
    ensures forall f :: f in Below(fs, n) <==> 0 <= f < n && f in fs
    ensures forall i, j | 0 <= i < j < |Below(fs, n)| :: Below(fs, n)[i] < Below(fs, n)[j]
  {
    if n > 0 {
      BelowLists(fs, n - 1);
      var r := Below(fs, n - 1);
      forall i | 0 <= i < |r| ensures r[i] < n - 1 { assert r[i] in r; }
    }
  }

  /** list_features */
  method ListFeatures(p: ProtoId) returns (res: seq<byte>)
    ensures res == Below(p.features, FEATURE_INVALID)
  {
    res := [];
    for i := 0 to FEATURE_BITS
      invariant res == Below(p.features, if i <= FEATURE_INVALID then i else FEATURE_INVALID)
    {
      if i in p.features && i < FEATURE_INVALID { res := res + [i]; }
    }
  }

  // --- requests -------------------------------------------------------------------------------

  function Pair(key: nat, value: bytes): bytes
    requires key < U64
  {
    EncodeUInt(key) + value
  }

  lemma PairEncodes(key: nat, value: bytes, v: Value)
    requires key < U64 && Encodes(value, [v])
    ensures Encodes(Pair(key, value), [Int(key), v])
  {
    UIntEncodes(key);
    hide Encodes, EncodeUInt;
    EncodesAppend(EncodeUInt(key), [Int(key)], value, [v]);
    assert [Int(key)] + [v] == [Int(key), v];
  }

  /** encode_request_header after start_message: {CODE: code, SYNC: sync} */
  function RequestHead(code: byte, sync: nat): bytes
    requires sync < U64
  {
    Header(true, 1, 2) + (Pair(CODE, EncodeUInt(code)) + Pair(SYNC, EncodeUInt(sync)))
  }

  lemma RequestHeadEncodes(code: byte, sync: nat)
    requires sync < U64
    ensures Encodes(RequestHead(code, sync), [Map([Int(CODE), Int(code), Int(SYNC), Int(sync)])])
  {
    hide Encodes, Pair, Header, EncodeUInt;
    UIntEncodes(code);
    UIntEncodes(sync);
    PairEncodes(CODE, EncodeUInt(code), Int(code));
    PairEncodes(SYNC, EncodeUInt(sync), Int(sync));
    var a, b := [Int(CODE), Int(code)], [Int(SYNC), Int(sync)];
    EncodesAppend(Pair(CODE, EncodeUInt(code)), a, Pair(SYNC, EncodeUInt(sync)), b);
    assert a + b == [Int(CODE), Int(code), Int(SYNC), Int(sync)];
    HeaderEncodes(true, 1, 2, Pair(CODE, EncodeUInt(code)) + Pair(SYNC, EncodeUInt(sync)), a + b);
  }

  function Numbers(fs: seq<byte>): bytes {
    if fs == [] then [] else Numbers(fs[..|fs| - 1]) + EncodeUInt(fs[|fs| - 1])
  }

  function Ints(fs: seq<byte>): (vs: seq<Value>)
    ensures |vs| == |fs|
  {
    seq(|fs|, i requires 0 <= i < |fs| => Int(fs[i]))
  }

  lemma {:induction false} NumbersEncode(fs: seq<byte>)
    ensures Encodes(Numbers(fs), Ints(fs))
  {
    if fs == [] {
      assert Parse([], 0) == Good([], []);
    } else {
      var k := |fs| - 1;
      assert Ints(fs) == Ints(fs[..k]) + [Int(fs[k])];
      hide Encodes, EncodeUInt, Ints;
      NumbersEncode(fs[..k]);
      UIntEncodes(fs[k]);
      EncodesAppend(Numbers(fs[..k]), Ints(fs[..k]), EncodeUInt(fs[k]), [Int(fs[k])]);
    }
  }

  function VersionPart(p: ProtoId): bytes
    requires p.version < U64
  {
    if p.version != 0 then Pair(VERSION, EncodeUInt(p.version)) else []
  }

  function FeaturePart(fs: seq<byte>): bytes
    requires |fs| <= FEATURE_INVALID
  {
    Pair(FEATURES, Header(false, 1, |fs|) + Numbers(fs))
  }

  function AuthPart(p: ProtoId): bytes
    requires |p.auth| < U32
  {
    if p.auth != [] then Pair(AUTH_TYPE, EncodeStr(p.auth)) else []
  }

  function DeclaredPairs(p: ProtoId): nat {
    1 + (if p.version != 0 then 1 else 0) + (if p.auth != [] then 1 else 0)
  }

  /** The body encode_id_request writes. */
  function IdBody(p: ProtoId): bytes
    requires p.version < U64 && |p.auth| < U32
  {
    Header(true, 1, DeclaredPairs(p)) + (VersionPart(p) + FeaturePart(Below(p.features, FEATURE_INVALID)) + AuthPart(p))
  }

  function VersionItems(p: ProtoId): seq<Value> {
    if p.version != 0 then [Int(VERSION), Int(p.version)] else []
  }

  function FeatureItems(fs: seq<byte>): seq<Value> {
    [Int(FEATURES), Arr(Ints(fs))]
  }

  function AuthItems(p: ProtoId): seq<Value> {
    if p.auth != [] then [Int(AUTH_TYPE), Str(p.auth)] else []
  }

  function IdItems(p: ProtoId): seq<Value> {
    VersionItems(p) + FeatureItems(Below(p.features, FEATURE_INVALID)) + AuthItems(p)
  }

  lemma PartsEncode(p: ProtoId)
    requires p.version < U64 && |p.auth| < U32
    ensures Encodes(VersionPart(p), VersionItems(p)) && Encodes(AuthPart(p), AuthItems(p))
  {
    assert Encodes([], []) by { assert Parse([], 0) == Good([], []); }
    hide Encodes, Pair, EncodeUInt, EncodeStr;
    if p.version != 0 {
      UIntEncodes(p.version);
      PairEncodes(VERSION, EncodeUInt(p.version), Int(p.version));
    }
    if p.auth != [] {
      StrEncodes(p.auth);
      PairEncodes(AUTH_TYPE, EncodeStr(p.auth), Str(p.auth));
    }
  }

  lemma FeaturePartEncodes(fs: seq<byte>)
    requires |fs| <= FEATURE_INVALID
    ensures Encodes(FeaturePart(fs), FeatureItems(fs))
  {
    hide Encodes, Pair, Header, Numbers, Ints;
    NumbersEncode(fs);
    HeaderEncodes(false, 1, |fs|, Numbers(fs), Ints(fs));
    PairEncodes(FEATURES, Header(false, 1, |fs|) + Numbers(fs), Arr(Ints(fs)));
  }

  /** The body declares exactly the pairs it writes. */
  lemma IdBodyEncodes(p: ProtoId)
    requires p.version < U64 && |p.auth| < U32
    ensures Encodes(IdBody(p), [Map(IdItems(p))])
  {
    var fs := Below(p.features, FEATURE_INVALID);
    assert |IdItems(p)| == 2 * DeclaredPairs(p);
    PartsEncode(p);
    FeaturePartEncodes(fs);
    hide Encodes, Header, VersionPart, FeaturePart, AuthPart, VersionItems, FeatureItems, AuthItems, Below;
    EncodesAppend(VersionPart(p), VersionItems(p), FeaturePart(fs), FeatureItems(fs));
    EncodesAppend(VersionPart(p) + FeaturePart(fs), VersionItems(p) + FeatureItems(fs), AuthPart(p), AuthItems(p));
    HeaderEncodes(true, 1, DeclaredPairs(p), VersionPart(p) + FeaturePart(fs) + AuthPart(p), IdItems(p));
  }

  /** Header and body of encode_id_request. */
  function IdMessage(sync: nat, p: ProtoId): bytes
    requires sync < U64 && p.version < U64 && |p.auth| < U32
  {
    RequestHead(REQUEST_ID, sync) + IdBody(p)
  }

  lemma IdItemsAre(p: ProtoId)
    ensures var version := if p.version != 0 then [Int(0x54), Int(p.version)] else [];
            var auth := if p.auth != [] then [Int(0x5b), Str(p.auth)] else [];
            IdItems(p) == version + [Int(0x55), Arr(Ints(Below(p.features, 5)))] + auth
  {
    hide Below, Ints;
  }

  /** It says: the header {0: 0x49, 1: sync} and a map with the version when there is one, the known features in
      ascending order, and the name of the scheme when there is one. */
  lemma IdMessageSays(sync: nat, p: ProtoId) returns (fs: seq<byte>)
    requires sync < U64 && p.version < U64 && |p.auth| < U32
    ensures var version := if p.version != 0 then [Int(0x54), Int(p.version)] else [];
            var auth := if p.auth != [] then [Int(0x5b), Str(p.auth)] else [];
            Encodes(IdMessage(sync, p), [Map([Int(0), Int(0x49), Int(1), Int(sync)]),
                                         Map(version + [Int(0x55), Arr(Ints(fs))] + auth)])
    ensures forall f :: f in fs <==> 0 <= f < 5 && f in p.features
    ensures forall i, j | 0 <= i < j < |fs| :: fs[i] < fs[j]
  {
    hide RequestHead, IdBody, Encodes, Below, Ints, IdItems;
    fs := Below(p.features, FEATURE_INVALID);
    BelowLists(p.features, FEATURE_INVALID);
    IdItemsAre(p);
    RequestHeadEncodes(REQUEST_ID, sync);
    IdBodyEncodes(p);
    var head := Map([Int(0), Int(0x49), Int(1), Int(sync)]);
    EncodesAppend(RequestHead(REQUEST_ID, sync), [head], IdBody(p), [Map(IdItems(p))]);
    assert [head] + [Map(IdItems(p))] == [head, Map(IdItems(p))];
  }

  /** Header and body of encode_ping_request. */
  function PingMessage(sync: nat): bytes
    requires sync < U64
  {
    RequestHead(REQUEST_PING, sync) + Header(true, 1, 0)
  }

  /** It says: the header {0: 0x40, 1: sync} and an empty map. */
  lemma PingMessageSays(sync: nat)
    requires sync < U64
    ensures Encodes(PingMessage(sync), [Map([Int(0), Int(0x40), Int(1), Int(sync)]), Map([])])
  {
    RequestHeadEncodes(REQUEST_PING, sync);
    assert Encodes([], []) by { assert Parse([], 0) == Good([], []); }
    hide RequestHead, Encodes, Header;
    HeaderEncodes(true, 1, 0, [], []);
    assert Header(true, 1, 0) + [] == Header(true, 1, 0);
    EncodesAppend(RequestHead(REQUEST_PING, sync), [Map([Int(0), Int(0x40), Int(1), Int(sync)])],
                  Header(true, 1, 0), [Map([])]);
  }

  /** encode_auth_request; the 20-byte scramble is computed outside the model. */
  function AuthBody(user: bytes, scheme: bytes, scramble: bytes): bytes
    requires |user| < U32 && |scheme| < U32 && |scramble| < U32
  {
    Header(true, 1, 2) +
    (Pair(USER_NAME, EncodeStr(user)) + Pair(TUPLE, Header(false, 1, 2) + (EncodeStr(scheme) + EncodeStr(scramble))))
  }

  lemma AuthBodyEncodes(user: bytes, scheme: bytes, scramble: bytes)
    requires |user| < U32 && |scheme| < U32 && |scramble| < U32
    ensures Encodes(AuthBody(user, scheme, scramble),
                    [Map([Int(USER_NAME), Str(user), Int(TUPLE), Arr([Str(scheme), Str(scramble)])])])
  {
    hide Encodes, Pair, Header, EncodeStr;
    StrEncodes(user);
    StrEncodes(scheme);
    StrEncodes(scramble);
    EncodesAppend(EncodeStr(scheme), [Str(scheme)], EncodeStr(scramble), [Str(scramble)]);
    var t := [Str(scheme)] + [Str(scramble)];
    assert t == [Str(scheme), Str(scramble)];
    HeaderEncodes(false, 1, 2, EncodeStr(scheme) + EncodeStr(scramble), t);
    PairEncodes(TUPLE, Header(false, 1, 2) + (EncodeStr(scheme) + EncodeStr(scramble)), Arr(t));
    PairEncodes(USER_NAME, EncodeStr(user), Str(user));
    var a, b := [Int(USER_NAME), Str(user)], [Int(TUPLE), Arr(t)];
    EncodesAppend(Pair(USER_NAME, EncodeStr(user)), a,
                  Pair(TUPLE, Header(false, 1, 2) + (EncodeStr(scheme) + EncodeStr(scramble))), b);
    assert a + b == [Int(USER_NAME), Str(user), Int(TUPLE), Arr(t)];
    HeaderEncodes(true, 1, 2, Pair(USER_NAME, EncodeStr(user)) +
                  Pair(TUPLE, Header(false, 1, 2) + (EncodeStr(scheme) + EncodeStr(scramble))), a + b);
  }

  // --- the client's reading of a proto_id body (connection::process_receive_buffer) -----------

  function ReadFeatures(vs: seq<Value>, acc: set<nat>): Option<set<nat>>
    decreases |vs|
  {
    if vs == [] then Some(acc)
    else match ReadValue(UINT8, vs[0])
      case None => None
      case Some(f) => ReadFeatures(vs[1..], if f < FEATURE_BITS then acc + {f} else acc)
  }

  /** The loop over the body's pairs; None stands for the exception. */
  function ReadProto(items: seq<Value>, acc: ProtoId): Option<ProtoId>
    decreases |items|
  {
    if items == [] then Some(acc)
    else if |items| == 1 then None
    else match ReadValue(UINT32, items[0])
      case None => None
      case Some(key) =>
        var v := items[1];
        if key == VERSION then
          match ReadValue(UINT64, v)
          case None => None
          case Some(n) => ReadProto(items[2..], acc.(version := n))
        else if key == AUTH_TYPE then
          if v.Str? then ReadProto(items[2..], acc.(auth := v.s)) else None
        else if key == FEATURES then
          if !v.Arr? then None
          else match ReadFeatures(v.items, acc.features)
            case None => None
            case Some(fs) => ReadProto(items[2..], acc.(features := fs))
        else ReadProto(items[2..], acc)
  }

  predicate AllBytes(vs: seq<Value>) {
    forall v | v in vs :: v.Int? && 0 <= v.i < 256
  }

  lemma {:induction false} FeaturesAreRead(vs: seq<Value>, acc: set<nat>)
    ensures ReadFeatures(vs, acc).Some? <==> AllBytes(vs)
    ensures AllBytes(vs) ==>
              forall f: nat :: f in ReadFeatures(vs, acc).value <==> f in acc || (f < 32 && Int(f) in vs)
    decreases |vs|
  {
    hide ReadValue;
    if vs != [] {
      ReadByte(vs[0]);
      assert vs == [vs[0]] + vs[1..];
      var r := ReadValue(UINT8, vs[0]);
      if r.Some? { FeaturesAreRead(vs[1..], if r.value < FEATURE_BITS then acc + {r.value} else acc); }
    }
  }

  lemma ReadByte(v: Value)
    ensures ReadValue(UINT8, v) == if v.Int? && 0 <= v.i < 256 then Some(v.i) else None
  {
    Pow256Widths();
    hide Cast, Pow256;
    if v.Int? && 0 <= v.i < 256 { UnsignedIsRead(1, v.i); }
  }

  lemma ReadFeaturesOfInts(fs: seq<byte>, acc: set<nat>)
    ensures ReadFeatures(Ints(fs), acc) == Some(acc + set f | f in fs && f < FEATURE_BITS)
  {
    hide ReadFeatures;
    FeaturesAreRead(Ints(fs), acc);
    forall f: nat | f < FEATURE_BITS ensures Int(f) in Ints(fs) <==> f in fs {
      if f in fs {
        var i :| 0 <= i < |fs| && fs[i] == f;
        assert Ints(fs)[i] == Int(f);
      }
    }
    var found := set f | f in fs && f < FEATURE_BITS;
    assert ReadFeatures(Ints(fs), acc).value == acc + found;
  }

  lemma ReadOnePair(key: nat, v: Value, rest: seq<Value>, acc: ProtoId)
    requires key < U32
    ensures ReadProto([Int(key), v] + rest, acc) ==
            if key == VERSION then 
              (if ReadValue(UINT64, v).None? then None
               else ReadProto(rest, acc.(version := ReadValue(UINT64, v).value)))
            else if key == AUTH_TYPE then (if v.Str? then ReadProto(rest, acc.(auth := v.s)) else None)
            else if key == FEATURES then
              (if !v.Arr? || ReadFeatures(v.items, acc.features).None? then None
               else ReadProto(rest, acc.(features := ReadFeatures(v.items, acc.features).value)))
            else ReadProto(rest, acc)
  {
    var items := [Int(key), v] + rest;
    assert items[2..] == rest;
    UnsignedIsRead(4, key);
    hide ReadFeatures, ReadValue;
  }

  /** The values with this key, in order. */
  function ValuesOf(items: seq<Value>, key: nat): seq<Value>
    decreases |items|
  {
    if |items| < 2 then [] else (if items[0] == Int(key) then [items[1]] else []) + ValuesOf(items[2..], key)
  }

  /** A pair the loop accepts: keys are 32-bit numbers without sign, versions are integers, schemes strings, and
      features arrays of bytes; under other keys anything may stand. */
  predicate Acceptable(key: Value, v: Value) {
    key.Int? && 0 <= key.i < 0x1_0000_0000 &&
    (key.i == 0x54 ==> v.Int?) &&
    (key.i == 0x5b ==> v.Str?) &&
    (key.i == 0x55 ==> v.Arr? && AllBytes(v.items))
  }

  predicate AllAcceptable(items: seq<Value>) {
    |items| % 2 == 0 && forall i | 0 <= i < |items| / 2 :: Acceptable(items[2 * i], items[2 * i + 1])
  }

  /** What the loop over a body comes to: the last version, modulo 2^64, and the last scheme, if there are any,
      and of all features named those below 32, besides what was known; and the exception exactly when some
      pair is not acceptable. */
  lemma {:induction false} ProtoIsRead(items: seq<Value>, acc: ProtoId)
    ensures ReadProto(items, acc).Some? <==> AllAcceptable(items)
    ensures AllAcceptable(items) ==>
              var p := ReadProto(items, acc).value;
              var versions, schemes, lists := ValuesOf(items, 0x54), ValuesOf(items, 0x5b), ValuesOf(items, 0x55);
              (versions == [] ==> p.version == acc.version) &&
              (versions != [] ==> var v := versions[|versions| - 1]; v.Int? && p.version == v.i % U64) &&
              (schemes == [] ==> p.auth == acc.auth) &&
              (schemes != [] ==> schemes[|schemes| - 1] == Str(p.auth)) &&
              (forall f: nat :: f in p.features <==> f in acc.features || (f < 32 && Named(lists, f)))
    decreases |items|
  {
    hide ReadFeatures, ReadValue, AllBytes;
    if |items| >= 2 {
      var key, v, rest := items[0], items[1], items[2..];
      SplitPairs(items);
      ReadKey(key);
      ReadVersion(v);
      if v.Arr? { FeaturesAreRead(v.items, acc.features); }
      if Acceptable(key, v) {
        var next := if key.i == 0x54 then acc.(version := v.i % U64)
                    else if key.i == 0x5b then acc.(auth := v.s)
                    else if key.i == 0x55 then acc.(features := ReadFeatures(v.items, acc.features).value)
                    else acc;
        ProtoIsRead(rest, next);
      }
    }
  }

  /** Some list names the feature f. */
  ghost predicate Named(lists: seq<Value>, f: nat) {
    exists l | l in lists :: l.Arr? && Int(f) in l.items
  }

  lemma SplitPairs(items: seq<Value>)
    requires |items| >= 2
    ensures AllAcceptable(items) <==> Acceptable(items[0], items[1]) && AllAcceptable(items[2..])
  {
    hide Acceptable;
    var rest := items[2..];
    if AllAcceptable(items) {
      assert Acceptable(items[2 * 0], items[2 * 0 + 1]);
      forall i | 0 <= i < |rest| / 2 ensures Acceptable(rest[2 * i], rest[2 * i + 1]) {
        assert Acceptable(items[2 * (i + 1)], items[2 * (i + 1) + 1]);
      }
    }
    if Acceptable(items[0], items[1]) && AllAcceptable(rest) {
      forall i | 0 <= i < |items| / 2 ensures Acceptable(items[2 * i], items[2 * i + 1]) {
        if i > 0 { assert Acceptable(rest[2 * (i - 1)], rest[2 * (i - 1) + 1]); }
      }
    }
  }

  lemma ReadKey(key: Value)
    ensures ReadValue(UINT32, key) == if key.Int? && 0 <= key.i < 0x1_0000_0000 then Some(key.i) else None
  {
    Pow256Widths();
    hide Cast, Pow256;
    if key.Int? && 0 <= key.i < 0x1_0000_0000 { UnsignedIsRead(4, key.i); }
  }

  lemma ReadVersion(v: Value)
    ensures ReadValue(UINT64, v) == if v.Int? then Some(v.i % U64) else None
  {
    Pow256Widths();
    hide Pow256;
  }

  /** proto_id round trip: whatever encode_id_request writes, the client's loop reads back, with the
      features that list_features passes on. */
  lemma ProtoIdRoundTrip(p: ProtoId)
    requires p.version < U64
    ensures ReadProto(IdItems(p), NO_PROTO) == Some(p.(features := set f | f in p.features && f < FEATURE_INVALID))
  {
    hide ReadProto, ReadFeatures, Ints;
    var fs := Below(p.features, FEATURE_INVALID);
    BelowLists(p.features, FEATURE_INVALID);
    var found := set f | f in p.features && f < FEATURE_INVALID;
    assert {} + (set f | f in fs && f < FEATURE_BITS) == found;
    ReadFeaturesOfInts(fs, {});
    var v := NO_PROTO.(version := p.version);
    var tail := FeatureItems(fs) + AuthItems(p);
    if p.version != 0 {
      ReadOnePair(VERSION, Int(p.version), tail, NO_PROTO);
      assert IdItems(p) == [Int(VERSION), Int(p.version)] + tail;
    } else {
      assert IdItems(p) == tail;
    }
    ReadOnePair(FEATURES, Arr(Ints(fs)), AuthItems(p), v);
    var w := v.(features := found);
    ReadAuth(p, w);
  }

  /** The server's proto_id from the body of a successful reply. */
  function ProtoOf(body: bytes, acc: ProtoId): Option<ProtoId> {
    var p := Parse(body, 1);
    if p.Bad? || !p.items[0].Map? then None else ReadProto(p.items[0].items, acc)
  }

  /** A body is read exactly when it starts with a map of acceptable pairs. */
  lemma BodyIsRead(body: bytes, acc: ProtoId)
    ensures ProtoOf(body, acc).Some? <==>
            Parse(body, 1).Good? && Parse(body, 1).items[0].Map? && AllAcceptable(Parse(body, 1).items[0].items)
    ensures ProtoOf(body, acc).Some? ==> ProtoOf(body, acc) == ReadProto(Parse(body, 1).items[0].items, acc)
  {
    hide Parse, ReadProto, AllAcceptable;
    var p := Parse(body, 1);
    if p.Good? && p.items[0].Map? { ProtoIsRead(p.items[0].items, acc); }
  }

  /** The same from the bytes: parsing the body of encode_id_request. */
  lemma ProtoIdFromBytes(p: ProtoId)
    requires p.version < U64 && |p.auth| < U32
    ensures ProtoOf(IdBody(p), NO_PROTO) == Some(p.(features := set f | f in p.features && f < FEATURE_INVALID))
  {
    IdBodyEncodes(p);
    hide IdBody, Parse, ReadProto, IdItems;
    ProtoIdRoundTrip(p);
  }

  lemma ReadAuth(p: ProtoId, w: ProtoId)
    requires w.auth == []
    ensures ReadProto(AuthItems(p), w) == Some(w.(auth := p.auth))
  {
    if p.auth != [] {
      assert AuthItems(p) == [Int(AUTH_TYPE), Str(p.auth)] + [];
      ReadOnePair(AUTH_TYPE, Str(p.auth), [], w);
    }
    assert forall a: ProtoId :: ReadProto([], a) == Some(a);
  }
}
