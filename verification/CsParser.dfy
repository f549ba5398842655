/**
 parse_cs: the connection string parser. A string is a run of logins `user[:password]@`, the last of which
 counts, followed by an address. Reading just past the view yields the terminating NUL.
 */
module CsParser {
  import opened Bytes
  import opened Options

  const SLASH: byte := 47
  const COLON: byte := 58
  const AT: byte := 64
  const OPEN: byte := 91
  const CLOSE: byte := 93
  const SEPARATORS: set<byte> := {COLON, SLASH, AT, OPEN}

  const ENV: bytes := [101, 110, 118]
  const UNIX: bytes := [117, 110, 105, 120]
  const GUEST: bytes := [103, 117, 101, 115, 116]
  const LOCALHOST: bytes := [108, 111, 99, 97, 108, 104, 111, 115, 116]

  /** cs_parts; Environment is a string whose real connection string is in this environment variable. */
  datatype Parsed =
    | Parts(unixPath: bytes, user: bytes, password: bytes, host: bytes, port: bytes)
    | Environment(name: bytes)

  const NOTHING := Parts([], [], [], [], [])

  predicate Free(s: bytes, seps: set<byte>) {
    forall b | b in s :: b !in seps
  }

  /** get_chunk: everything up to the first separator. */
  function Until(s: bytes, seps: set<byte>): (r: bytes)
    ensures r <= s && Free(r, seps) && (|r| < |s| ==> s[|r|] in seps)
  {
    if s == [] || s[0] in seps then [] else [s[0]] + Until(s[1..], seps)
  }

  function Front(s: bytes): byte {
    if s == [] then 0 else s[0]
  }

  function Decimal(s: bytes): int {
    if s == [] then 0 else 10 * Decimal(s[..|s| - 1]) + (s[|s| - 1] as int - 48)
  }

  /** chunk2port: what from_chars takes for a 16-bit unsigned number, at most five digits long. */
  predicate ValidPort(s: bytes): (r: bool)
    ensures r ==> s != []
  {
    0 < |s| <= 5 && (forall b | b in s :: 48 <= b <= 57) && Decimal(s) <= 0xffff
  }

  // --- logins and addresses -------------------------------------------------------------------

  datatype Login = Login(user: bytes, password: Option<bytes>)

  /** The login the tail starts with, and what follows it. */
  function NextLogin(tail: bytes): (r: Option<(Login, bytes)>)
    ensures r.Some? ==> |r.value.1| < |tail|
  {
    var chunk := Until(tail, SEPARATORS);
    var rest := tail[|chunk|..];
    if Front(rest) == AT then Some((Login(chunk, None), rest[1..]))
    else if Front(rest) == COLON then
      var chunk2 := Until(rest[1..], SEPARATORS);
      var rest2 := rest[1..][|chunk2|..];
      if Front(rest2) == AT then Some((Login(chunk, Some(chunk2)), rest2[1..])) else None
    else None
  }

  function Tcp(user: bytes, password: bytes, host: bytes, port: bytes): Parsed {
    Parts([], if user == [] then GUEST else user, password, if host == [] then LOCALHOST else host, port)
  }

  /** A tail that does not start with a login. */
  function Address(tail: bytes, first: bool, user: bytes, password: bytes): Parsed {
    var chunk := Until(tail, SEPARATORS);
    var rest := tail[|chunk|..];
    if rest == [] then if first && ValidPort(chunk) then Tcp(user, password, [], chunk) else NOTHING
    else if rest[0] == COLON then
      if Front(rest[1..]) == SLASH then Parts(rest[1..], user, password, [], [])
      else if Free(rest[1..], SEPARATORS) && ValidPort(rest[1..]) then Tcp(user, password, chunk, rest[1..])
      else NOTHING
    else if rest[0] == SLASH then Path(chunk, rest, user, password)
    else if chunk != [] then NOTHING
    else Bracketed(rest[1..], user, password)
  }

  function Path(chunk: bytes, rest: bytes, user: bytes, password: bytes): Parsed
    requires rest != []
  {
    if |rest| > 1 && rest[1] == COLON then
      if chunk == ENV then Environment(rest[2..])
      else if chunk != UNIX || user != [] then NOTHING
      else Parts(rest[2..], [], password, [], [])
    else if user != [] then NOTHING
    else Parts(rest, [], password, [], [])
  }

  /** An IPv6 address, past its opening bracket. */
  function Bracketed(tail: bytes, user: bytes, password: bytes): Parsed {
    var host := Until(tail, {CLOSE});
    var rest := tail[|host|..];
    if host == [] || Front(rest) != CLOSE || Front(rest[1..]) != COLON || !ValidPort(rest[2..]) then NOTHING
    else Tcp(user, password, host, rest[2..])
  }

  /** The loop, from a tail and the credentials read so far. */
  function Continue(tail: bytes, first: bool, user: bytes, password: bytes): Parsed
    decreases |tail|
  {
    match NextLogin(tail)
    case None => Address(tail, first, user, password)
    case Some(l) => Continue(l.1, false, l.0.user, if l.0.password.Some? then l.0.password.value else password)
  }

  function Parse(cs: bytes): Parsed {
    Continue(cs, true, [], [])
  }

  lemma UntilAll(s: bytes, seps: set<byte>)
    ensures Free(s, seps) ==> Until(s, seps) == s
    ensures s[|Until(s, seps)|..] == [] <==> Free(s, seps)
  {
    if Free(s, seps) { UntilStops(s, [], seps); }
    assert s + [] == s;
    hide Until;
    var u := Until(s, seps);
    if s[|u|..] == [] { assert u == s; }
  }

  lemma {:induction false} UntilStops(p: bytes, q: bytes, seps: set<byte>)
    requires Free(p, seps) && (q == [] || q[0] in seps)
    ensures Until(p + q, seps) == p && (p + q)[|p|..] == q
  {
    if p == [] {
      assert p + q == q;
    } else {
      UntilStops(p[1..], q, seps);
      assert (p + q)[1..] == p[1..] + q;
    }
  }

  lemma UntilNone(s: bytes, seps: set<byte>)
    ensures s != [] && s[0] in seps ==> Until(s, seps) == []
  {
  }

  lemma ContinueStep(tail: bytes, first: bool, user: bytes, password: bytes)
    ensures Continue(tail, first, user, password) ==
            match NextLogin(tail)
            case None => Address(tail, first, user, password)
            case Some(l) => Continue(l.1, false, l.0.user, if l.0.password.Some? then l.0.password.value else password)
  {
    hide NextLogin, Address;
  }

  /** One round of the loop in front of a colon. */
  lemma ColonRound(tail: bytes, first: bool, user: bytes, password: bytes)
    requires Front(tail[|Until(tail, SEPARATORS)|..]) == COLON
    ensures var chunk := Until(tail, SEPARATORS);
            var rest := tail[|chunk|..][1..];
            var chunk2 := Until(rest, SEPARATORS);
            var rest2 := rest[|chunk2|..];
            Continue(tail, first, user, password) ==
              if Front(rest) == SLASH then Parts(rest, user, password, [], [])
              else if rest2 == [] then if ValidPort(chunk2) then Tcp(user, password, chunk, chunk2) else NOTHING
              else if rest2[0] == AT then Continue(rest2[1..], false, chunk, chunk2)
              else NOTHING
  {
    hide ValidPort, Until, Free, Tcp, Path, Bracketed, Continue;
    ContinueStep(tail, first, user, password);
    var rest := tail[|Until(tail, SEPARATORS)|..][1..];
    UntilNone(rest, SEPARATORS);
    UntilAll(rest, SEPARATORS);
  }

  /** One round of the loop in front of anything else. */
  lemma OtherRound(tail: bytes, first: bool, user: bytes, password: bytes)
    requires Front(tail[|Until(tail, SEPARATORS)|..]) != COLON
    ensures var chunk := Until(tail, SEPARATORS);
            var rest := tail[|chunk|..];
            Continue(tail, first, user, password) ==
              if rest == [] then if first && ValidPort(chunk) then Tcp(user, password, [], chunk) else NOTHING
              else if rest[0] == SLASH then Path(chunk, rest, user, password)
              else if rest[0] == AT then Continue(rest[1..], false, chunk, password)
              else if chunk != [] then NOTHING
              else Bracketed(rest[1..], user, password)
  {
    hide ValidPort, Until, Free, Tcp, Path, Bracketed, Continue;
    ContinueStep(tail, first, user, password);
  }

  lemma NothingToParse()
    ensures Parse([]) == NOTHING
  {
  }

  /** parse_cs. The tail shrinks in every round. */
  method ParseCs(cs: bytes) returns (res: Parsed)
    ensures res == Parse(cs)
  {
    hide ValidPort, Until, Free, Path, Tcp, NextLogin, Address, Continue;
    if cs == [] {
      NothingToParse();
      return NOTHING;
    }
    var tail := cs;
    var user: bytes, password: bytes, host: bytes, port: bytes := [], [], [], [];
    while port == []
      invariant |tail| <= |cs|
      invariant Parse(cs) == if port == [] then Continue(tail, |tail| == |cs|, user, password)
                             else Tcp(user, password, host, port)
      decreases |tail|
    {
      var first := |tail| == |cs|;
      var chunk := Until(tail, SEPARATORS);
      var rest := tail[|chunk|..];
      if Front(rest) == COLON {
        ColonRound(tail, first, user, password);
      } else {
        OtherRound(tail, first, user, password);
      }
      if rest == [] {
        if !first || !ValidPort(chunk) { return NOTHING; }
        return Tcp(user, password, [], chunk);
      }
      if rest[0] == COLON {
        rest := rest[1..];
        if Front(rest) == SLASH { return Parts(rest, user, password, [], []); }
        var chunk2 := Until(rest, SEPARATORS);
        rest := rest[|chunk2|..];
        if rest == [] {
          if !ValidPort(chunk2) { return NOTHING; }
          host, port, tail := chunk, chunk2, rest;
        } else if rest[0] == AT {
          user, password, tail := chunk, chunk2, rest[1..];
        } else {
          return NOTHING;
        }
      } else if rest[0] == SLASH {
        return Path(chunk, rest, user, password);
      } else if rest[0] == OPEN {
        if chunk != [] { return NOTHING; }
        chunk := Until(rest[1..], {CLOSE});
        rest := rest[1..][|chunk|..];
        if chunk == [] || Front(rest) != CLOSE { return NOTHING; }
        rest := rest[1..];
        if Front(rest) != COLON { return NOTHING; }
        tail := rest[1..];
        if !ValidPort(tail) { return NOTHING; }
        host, port := chunk, tail;
      } else {
        user, tail := chunk, rest[1..];
      }
    }
    return Tcp(user, password, host, port);
  }

  // --- the language ---------------------------------------------------------------------------

  predicate Clean(l: Login) {
    Free(l.user, SEPARATORS) && (l.password.Some? ==> Free(l.password.value, SEPARATORS))
  }

  function Printed(l: Login): bytes {
    l.user + (if l.password.Some? then [COLON] + l.password.value else []) + [AT]
  }

  function PrintAll(ls: seq<Login>): bytes {
    if ls == [] then [] else Printed(ls[0]) + PrintAll(ls[1..])
  }

  ghost predicate AllClean(ls: seq<Login>) {
    forall l | l in ls :: Clean(l)
  }

  /** The user of the last login. */
  function UserAfter(ls: seq<Login>, user: bytes): bytes {
    if ls == [] then user else UserAfter(ls[1..], ls[0].user)
  }

  /** The password of the last login that has one. */
  function PasswordAfter(ls: seq<Login>, password: bytes): bytes {
    if ls == [] then password
    else PasswordAfter(ls[1..], if ls[0].password.Some? then ls[0].password.value else password)
  }

  /** NextLogin finds a printed login, and nothing else. */
  lemma LoginIsFound(l: Login, rest: bytes)
    requires Clean(l)
    ensures NextLogin(Printed(l) + rest) == Some((l, rest))
  {
    hide Until;
    var after := [AT] + rest;
    if l.password.Some? {
      var p := l.password.value;
      var tail := [COLON] + (p + after);
      assert Printed(l) + rest == l.user + tail;
      UntilStops(l.user, tail, SEPARATORS);
      assert tail[1..] == p + after;
      UntilStops(p, after, SEPARATORS);
    } else {
      assert Printed(l) + rest == l.user + after;
      UntilStops(l.user, after, SEPARATORS);
    }
    assert after[1..] == rest;
  }

  lemma FoundIsLogin(tail: bytes)
    ensures NextLogin(tail).Some? ==>
              Clean(NextLogin(tail).value.0) && tail == Printed(NextLogin(tail).value.0) + NextLogin(tail).value.1
  {
    hide Until, Free;
    var chunk := Until(tail, SEPARATORS);
    var rest := tail[|chunk|..];
    Whole(tail, chunk);
    if Front(rest) == AT {
      Whole(rest, [AT]);
    } else if Front(rest) == COLON {
      Whole(rest, [COLON]);
      var chunk2 := Until(rest[1..], SEPARATORS);
      var rest2 := rest[1..][|chunk2|..];
      Whole(rest[1..], chunk2);
      if Front(rest2) == AT {
        Whole(rest2, [AT]);
        assert chunk + ([COLON] + (chunk2 + ([AT] + rest2[1..]))) == chunk + ([COLON] + chunk2) + [AT] + rest2[1..];
      }
    }
  }

  lemma Whole(s: bytes, p: bytes)
    requires p <= s
    ensures s == p + s[|p|..]
  {
  }

  /** What the loop makes of logins before an address. */
  lemma {:induction false} LoginsThenAddress(ls: seq<Login>, a: bytes, first: bool, user: bytes, password: bytes)
    requires AllClean(ls) && NextLogin(a).None?
    ensures Continue(PrintAll(ls) + a, first, user, password) ==
            Address(a, first && ls == [], UserAfter(ls, user), PasswordAfter(ls, password))
  {
    hide NextLogin, Address, Printed, Continue, Clean;
    ContinueStep(PrintAll(ls) + a, first, user, password);
    if ls == [] {
      assert PrintAll(ls) + a == a;
    } else {
      var l := ls[0];
      assert PrintAll(ls) + a == Printed(l) + (PrintAll(ls[1..]) + a);
      LoginIsFound(l, PrintAll(ls[1..]) + a);
      LoginsThenAddress(ls[1..], a, false, l.user, if l.password.Some? then l.password.value else password);
    }
  }

  /** Every string is a run of logins and an address, and is read that way. */
  lemma {:induction false} Decompose(cs: bytes) returns (ls: seq<Login>, a: bytes)
    ensures cs == PrintAll(ls) + a && AllClean(ls) && NextLogin(a).None?
    decreases |cs|
  {
    hide NextLogin, Printed, Clean;
    ls, a := [], cs;
    assert PrintAll([]) + cs == cs;
    if NextLogin(cs).Some? {
      FoundIsLogin(cs);
      var l, rest := NextLogin(cs).value.0, NextLogin(cs).value.1;
      var more;
      more, a := Decompose(rest);
      ls := [l] + more;
      assert ls[1..] == more;
      assert Printed(l) + (PrintAll(more) + a) == PrintAll(ls) + a;
    }
  }

  lemma ReadAs(cs: bytes) returns (ls: seq<Login>, a: bytes)
    ensures cs == PrintAll(ls) + a && AllClean(ls) && NextLogin(a).None?
    ensures Parse(cs) == Address(a, ls == [], UserAfter(ls, []), PasswordAfter(ls, []))
  {
    hide NextLogin, Address, PrintAll, Continue, AllClean;
    ls, a := Decompose(cs);
    LoginsThenAddress(ls, a, true, [], []);
  }

  // --- the kinds of result --------------------------------------------------------------------

  predicate IsUnix(r: Parsed) {
    r.Parts? && r.unixPath != [] && r.host == [] && r.port == []
  }

  predicate IsTcp(r: Parsed) {
    r.Parts? && r.unixPath == [] && ValidPort(r.port) && r.host != [] && r.user != []
  }

  const UNIX_NOWHERE: bytes := UNIX + [SLASH, COLON]

  /** `unix/:` with an empty path, after logins that leave no user but a password. */
  ghost predicate StrayPassword(cs: bytes, ls: seq<Login>) {
    AllClean(ls) && cs == PrintAll(ls) + UNIX_NOWHERE && UserAfter(ls, []) == [] && PasswordAfter(ls, []) != []
  }

  lemma AddressShape(a: bytes, first: bool, user: bytes, password: bytes)
    ensures var r := Address(a, first, user, password);
            r.Environment? || r == NOTHING || IsUnix(r) || IsTcp(r) ||
            (a == UNIX_NOWHERE && user == [] && password != [])
  {
    hide ValidPort, Until, Free;
    var chunk := Until(a, SEPARATORS);
    Whole(a, chunk);
    var rest := a[|chunk|..];
    if rest != [] && rest[0] == SLASH && |rest| == 2 && rest[1] == COLON && chunk == UNIX {
      assert rest == [SLASH, COLON];
    }
  }

  lemma NowhereShape(first: bool, password: bytes)
    ensures NextLogin(UNIX_NOWHERE).None?
    ensures Address(UNIX_NOWHERE, first, [], password) == Parts([], [], password, [], [])
  {
    hide Until;
    UntilStops(UNIX, [SLASH, COLON], SEPARATORS);
  }

  /** A result is nothing, a unix path without host and port, or a whole TCP address with a valid port,
      a host and a user, exactly when the string is not a stray password. */
  lemma ResultShape(cs: bytes)
    ensures var r := Parse(cs);
            (r.Environment? || r == NOTHING || IsUnix(r) || IsTcp(r)) <==> !exists ls :: StrayPassword(cs, ls)
  {
    hide NextLogin, Address, PrintAll, Continue, AllClean, Parse, UserAfter, PasswordAfter, ValidPort;
    var ls, a := ReadAs(cs);
    AddressShape(a, ls == [], UserAfter(ls, []), PasswordAfter(ls, []));
    forall ms | StrayPassword(cs, ms) ensures Parse(cs) == Parts([], [], PasswordAfter(ms, []), [], []) {
      StrayIsRead(cs, ms);
    }
    if a == UNIX_NOWHERE && UserAfter(ls, []) == [] && PasswordAfter(ls, []) != [] { assert StrayPassword(cs, ls); }
  }

  /** Such a string: ":p@unix/:". */
  lemma StrayExample()
    ensures var cs: bytes := [58, 112, 64, 117, 110, 105, 120, 47, 58];
            StrayPassword(cs, [Login([], Some([112]))]) && Parse(cs) == Parts([], [], [112], [], [])
  {
    var l := Login([], Some([112]));
    assert [l][1..] == [];
    var cs: bytes := [58, 112, 64, 117, 110, 105, 120, 47, 58];
    assert PrintAll([l]) + UNIX_NOWHERE == cs;
    assert Clean(l);
    OneLogin(l);
    StrayIsRead(cs, [l]);
  }

  lemma StrayIsRead(cs: bytes, ls: seq<Login>)
    requires StrayPassword(cs, ls)
    ensures Parse(cs) == Parts([], [], PasswordAfter(ls, []), [], [])
  {
    hide NextLogin, Address, PrintAll, Continue, AllClean;
    NowhereShape(ls == [], PasswordAfter(ls, []));
    LoginsThenAddress(ls, UNIX_NOWHERE, true, [], []);
  }

  // --- unix paths and environment variables ---------------------------------------------------

  /** Logins, and then one of three forms: anything free and a path that starts with a slash, but not `/:`;
      `unix/:` and any path but none; a colon and a path that starts with a slash. The first two are for logins
      that leave no user. */
  ghost predicate UnixString(cs: bytes, ls: seq<Login>, chunk: bytes, path: bytes) {
    AllClean(ls) && Free(chunk, SEPARATORS) && path != [] &&
    ((UserAfter(ls, []) == [] && path[0] == SLASH && Front(path[1..]) != COLON &&
      cs == PrintAll(ls) + (chunk + path)) ||
     (UserAfter(ls, []) == [] && chunk == UNIX && cs == PrintAll(ls) + (UNIX_NOWHERE + path)) ||
     (path[0] == SLASH && cs == PrintAll(ls) + (chunk + ([COLON] + path))))
  }

  lemma SlashPathReads(chunk: bytes, path: bytes, first: bool, password: bytes)
    requires Free(chunk, SEPARATORS) && path != [] && path[0] == SLASH && Front(path[1..]) != COLON
    ensures NextLogin(chunk + path).None?
    ensures Address(chunk + path, first, [], password) == Parts(path, [], password, [], [])
  {
    hide Until, Free, ValidPort;
    UntilStops(chunk, path, SEPARATORS);
  }

  lemma MarkedPathReads(path: bytes, first: bool, password: bytes)
    requires path != []
    ensures NextLogin(UNIX_NOWHERE + path).None?
    ensures Address(UNIX_NOWHERE + path, first, [], password) == Parts(path, [], password, [], [])
  {
    hide Until, ValidPort;
    var rest := [SLASH, COLON] + path;
    assert UNIX_NOWHERE + path == UNIX + rest;
    assert Free(UNIX, SEPARATORS);
    hide Free;
    UntilStops(UNIX, rest, SEPARATORS);
    assert rest[2..] == path;
  }

  lemma ColonPathReads(chunk: bytes, path: bytes, first: bool, user: bytes, password: bytes)
    requires Free(chunk, SEPARATORS) && path != [] && path[0] == SLASH
    ensures NextLogin(chunk + ([COLON] + path)).None?
    ensures Address(chunk + ([COLON] + path), first, user, password) == Parts(path, user, password, [], [])
  {
    hide Until, Free, ValidPort;
    var rest := [COLON] + path;
    UntilStops(chunk, rest, SEPARATORS);
    assert rest[1..] == path;
    UntilNone(path, SEPARATORS);
  }

  /** Such a string gives exactly that path, with the user and the password of its logins. */
  lemma UnixReads(cs: bytes, ls: seq<Login>, chunk: bytes, path: bytes)
    requires UnixString(cs, ls, chunk, path)
    ensures Parse(cs) == Parts(path, UserAfter(ls, []), PasswordAfter(ls, []), [], [])
  {
    hide NextLogin, Address, PrintAll, Continue, AllClean, ValidPort, UserAfter, PasswordAfter, Free;
    var user, password := UserAfter(ls, []), PasswordAfter(ls, []);
    if user == [] && path[0] == SLASH && Front(path[1..]) != COLON && cs == PrintAll(ls) + (chunk + path) {
      SlashPathReads(chunk, path, ls == [], password);
      LoginsThenAddress(ls, chunk + path, true, [], []);
    } else if user == [] && cs == PrintAll(ls) + (UNIX_NOWHERE + path) {
      MarkedPathReads(path, ls == [], password);
      LoginsThenAddress(ls, UNIX_NOWHERE + path, true, [], []);
    } else {
      ColonPathReads(chunk, path, ls == [], user, password);
      LoginsThenAddress(ls, chunk + ([COLON] + path), true, [], []);
    }
  }

  lemma AddressIsUnix(a: bytes, first: bool, user: bytes, password: bytes) returns (chunk: bytes, path: bytes)
    requires NextLogin(a).None? && IsUnix(Address(a, first, user, password))
    ensures Free(chunk, SEPARATORS) && path != []
    ensures Address(a, first, user, password) == Parts(path, user, password, [], [])
    ensures (user == [] && path[0] == SLASH && Front(path[1..]) != COLON && a == chunk + path) ||
            (user == [] && chunk == UNIX && a == UNIX_NOWHERE + path) ||
            (path[0] == SLASH && a == chunk + ([COLON] + path))
  {
    hide ValidPort, Until, Free, Tcp, Bracketed;
    chunk := Until(a, SEPARATORS);
    Whole(a, chunk);
    var rest := a[|chunk|..];
    BracketedIsNoUnix(rest, user, password);
    TcpIsNoUnix(a, rest, user, password, chunk);
    if rest[0] == COLON {
      path := rest[1..];
      Whole(rest, [COLON]);
    } else if |rest| > 1 && rest[1] == COLON {
      path := rest[2..];
      Whole(rest, [SLASH, COLON]);
      assert chunk + ([SLASH, COLON] + path) == UNIX_NOWHERE + path;
    } else {
      path := rest;
    }
  }

  lemma BracketedIsNoUnix(rest: bytes, user: bytes, password: bytes)
    ensures rest != [] ==> !IsUnix(Bracketed(rest[1..], user, password))
  {
    hide ValidPort, Until;
  }

  lemma TcpIsNoUnix(a: bytes, rest: bytes, user: bytes, password: bytes, chunk: bytes)
    ensures !IsUnix(Tcp(user, password, [], chunk)) && (rest != [] ==> !IsUnix(Tcp(user, password, chunk, rest[1..])))
  {
  }

  /** Only such strings give a unix path. */
  lemma UnixIsRead(cs: bytes) returns (ls: seq<Login>, chunk: bytes, path: bytes)
    requires IsUnix(Parse(cs))
    ensures UnixString(cs, ls, chunk, path)
    ensures Parse(cs) == Parts(path, UserAfter(ls, []), PasswordAfter(ls, []), [], [])
  {
    hide NextLogin, Address, PrintAll, Continue, AllClean, ValidPort, UserAfter, PasswordAfter, Free, Parse, IsUnix;
    var a;
    ls, a := ReadAs(cs);
    chunk, path := AddressIsUnix(a, ls == [], UserAfter(ls, []), PasswordAfter(ls, []));
  }

  /** A variable's name: logins of whatever kind, `env/:` and the name. They count for nothing. */
  ghost predicate EnvironmentString(cs: bytes, ls: seq<Login>, name: bytes) {
    AllClean(ls) && cs == PrintAll(ls) + (ENV + ([SLASH, COLON] + name))
  }

  lemma EnvironmentReads(cs: bytes, ls: seq<Login>, name: bytes)
    requires EnvironmentString(cs, ls, name)
    ensures Parse(cs) == Environment(name)
  {
    hide PrintAll, Continue, AllClean, ValidPort, UserAfter, PasswordAfter;
    var rest := [SLASH, COLON] + name;
    assert rest[2..] == name && Free(ENV, SEPARATORS);
    hide Until, Free;
    UntilStops(ENV, rest, SEPARATORS);
    assert NextLogin(ENV + rest).None?;
    assert Address(ENV + rest, ls == [], UserAfter(ls, []), PasswordAfter(ls, [])) == Environment(name);
    hide NextLogin, Address;
    LoginsThenAddress(ls, ENV + rest, true, [], []);
  }

  /** Only such strings name a variable. */
  lemma EnvironmentIsRead(cs: bytes) returns (ls: seq<Login>)
    requires Parse(cs).Environment?
    ensures EnvironmentString(cs, ls, Parse(cs).name)
  {
    hide NextLogin, Address, PrintAll, Continue, AllClean, UserAfter, PasswordAfter, Parse;
    var a;
    ls, a := ReadAs(cs);
    AddressIsEnvironment(a, ls == [], UserAfter(ls, []), PasswordAfter(ls, []));
  }

  lemma AddressIsEnvironment(a: bytes, first: bool, user: bytes, password: bytes)
    ensures var r := Address(a, first, user, password);
            r.Environment? ==> a == ENV + ([SLASH, COLON] + r.name)
  {
    hide ValidPort, Until, Free, Tcp, Bracketed;
    var chunk := Until(a, SEPARATORS);
    Whole(a, chunk);
    var rest := a[|chunk|..];
    NoEnvironment(rest, user, password, chunk);
    if |rest| > 1 { Whole(rest, rest[..2]); }
  }

  lemma NoEnvironment(rest: bytes, user: bytes, password: bytes, chunk: bytes)
    ensures Tcp(user, password, [], chunk).Parts?
    ensures rest != [] ==>
              Tcp(user, password, chunk, rest[1..]).Parts? && Bracketed(rest[1..], user, password).Parts?
  {
    hide ValidPort, Until;
  }

  // --- the environment ------------------------------------------------------------------------

  /** The variable that holds the real connection string. getenv sees its name up to the first NUL. */
  function Variable(env: map<bytes, bytes>, cs: bytes): (v: Option<bytes>)
    ensures v.Some? ==> v.value in env
  {
    match Parse(cs)
    case Environment(name) => (var v := Until(name, {0}); if v in env then Some(v) else None)
    case _ => None
  }

  /** parse_cs in an environment, on a stack that holds `depth` nested calls; None when it runs out. */
  function ParseIn(env: map<bytes, bytes>, cs: bytes, depth: nat): Option<Parsed>
    decreases depth
  {
    var v := Variable(env, cs);
    if v.None? then Some(if Parse(cs).Environment? then NOTHING else Parse(cs))
    else if depth == 0 then None
    else ParseIn(env, env[v.value], depth - 1)
  }

  method ParseCsIn(env: map<bytes, bytes>, cs: bytes, depth: nat) returns (res: Option<Parsed>)
    ensures res == ParseIn(env, cs, depth)
    decreases depth
  {
    hide Parse, Until;
    var r := ParseCs(cs);
    if !r.Environment? { return Some(r); }
    var v := Until(r.name, {0});
    if v !in env { return Some(NOTHING); }
    if depth == 0 { return None; }
    res := ParseCsIn(env, env[v], depth - 1);
  }

  /** The variable is named up to the first NUL. If it is not set there is nothing, and if it is, its value counts
      instead of the whole string, logins included. Every other string counts for itself. */
  lemma VariableCounts(env: map<bytes, bytes>, cs: bytes, ls: seq<Login>, v: bytes, rest: bytes, depth: nat)
    requires EnvironmentString(cs, ls, v + rest) && (forall b | b in v :: b != 0) && (rest == [] || rest[0] == 0)
    ensures ParseIn(env, cs, depth) ==
            if v !in env then Some(Parts([], [], [], [], []))
            else if depth == 0 then None
            else ParseIn(env, env[v], depth - 1)
    ensures forall s | !Parse(s).Environment? :: ParseIn(env, s, depth) == Some(Parse(s))
  {
    hide Parse, Until, EnvironmentString;
    EnvironmentReads(cs, ls, v + rest);
    UntilStops(v, rest, {0});
  }

  /** The first n variables looked up. */
  function Trail(env: map<bytes, bytes>, cs: bytes, n: nat): seq<bytes>
    decreases n
  {
    var v := Variable(env, cs);
    if n == 0 || v.None? then [] else [v.value] + Trail(env, env[v.value], n - 1)
  }

  ghost predicate NoRepeat(s: seq<bytes>) {
    s == [] || (s[0] !in s[1..] && NoRepeat(s[1..]))
  }

  /** The recursion ends exactly when no variable is looked up twice; then a stack as deep as there are
      variables is enough, and a deeper one changes nothing. */
  lemma EnvironmentEnds(env: map<bytes, bytes>, cs: bytes)
    ensures (exists depth: nat :: ParseIn(env, cs, depth).Some?) <==> NoRepeat(Trail(env, cs, |env| + 1))
    ensures forall depth: nat :: ParseIn(env, cs, depth).Some? ==> ParseIn(env, cs, |env|) == ParseIn(env, cs, depth)
  {
    hide ParseIn, Trail, NoRepeat;
    forall depth: nat | ParseIn(env, cs, depth).Some? ensures NoRepeat(Trail(env, cs, |env| + 1)) {
      EndingTrail(env, cs, depth, |env| + 1);
    }
    if NoRepeat(Trail(env, cs, |env| + 1)) {
      TrailLength(env, cs, |env|);
      DistinctFit(Trail(env, cs, |env| + 1), env.Keys);
      forall depth: nat | ParseIn(env, cs, depth).Some? ensures ParseIn(env, cs, |env|) == ParseIn(env, cs, depth) {
        if depth <= |env| { Deeper(env, cs, depth, |env|); } else { Deeper(env, cs, |env|, depth); }
      }
    }
  }

  /** A variable that holds `env/:` and its own name: parse_cs never returns. */
  lemma {:induction false} SelfReference(depth: nat)
    ensures var self: bytes := ENV + [SLASH, COLON, 65];
            ParseIn(map[[65] := self], self, depth).None?
  {
    hide Variable, Parse;
    SelfVariable();
    if depth > 0 { SelfReference(depth - 1); }
  }

  lemma SelfVariable()
    ensures var self: bytes := ENV + [SLASH, COLON, 65];
            Variable(map[[65] := self], self) == Some([65])
  {
    hide Until;
    UntilStops(ENV, [SLASH, COLON, 65], SEPARATORS);
    assert [SLASH, COLON, 65][2..] == [65];
    UntilAll([65], {0});
  }

  lemma {:induction false} Deeper(env: map<bytes, bytes>, cs: bytes, depth: nat, more: nat)
    requires depth <= more && ParseIn(env, cs, depth).Some?
    ensures ParseIn(env, cs, more) == ParseIn(env, cs, depth)
    decreases depth
  {
    hide Variable, Parse;
    var v := Variable(env, cs);
    if v.Some? { Deeper(env, env[v.value], depth - 1, more - 1); }
  }

  /** The recursion is still going after as many calls as the trail is long. */
  lemma {:induction false} TrailLength(env: map<bytes, bytes>, cs: bytes, n: nat)
    ensures ParseIn(env, cs, n).Some? <==> |Trail(env, cs, n + 1)| <= n
    ensures forall v | v in Trail(env, cs, n + 1) :: v in env.Keys
    decreases n
  {
    hide Variable, Parse;
    var v := Variable(env, cs);
    if v.Some? && n > 0 { TrailLength(env, env[v.value], n - 1); }
  }

  lemma {:induction false} DistinctFit(s: seq<bytes>, keys: set<bytes>)
    requires NoRepeat(s) && forall v | v in s :: v in keys
    ensures |s| <= |keys|
  {
    if s != [] {
      assert s[0] in s;
      DistinctFit(s[1..], keys - {s[0]});
    }
  }

  /** Looking a variable up again means going round for ever. */
  lemma {:induction false} EndingTrail(env: map<bytes, bytes>, cs: bytes, depth: nat, n: nat)
    requires ParseIn(env, cs, depth).Some?
    ensures NoRepeat(Trail(env, cs, n))
    decreases n
  {
    hide Variable, Parse;
    var v := Variable(env, cs);
    if n > 0 && v.Some? {
      var next := env[v.value];
      EndingTrail(env, next, depth - 1, n - 1);
      if v.value in Trail(env, next, n - 1) {
        RoundTrip(env, v.value, n - 1, depth - 1);
        assert false;
      }
    }
  }

  lemma {:induction false} RoundTrip(env: map<bytes, bytes>, v: bytes, n: nat, depth: nat)
    requires v in env && v in Trail(env, env[v], n)
    ensures ParseIn(env, env[v], depth).None?
    decreases depth
  {
    if ParseIn(env, env[v], depth).Some? {
      ReachAgain(env, env[v], v, n, depth);
      RoundTrip(env, v, n, depth - 1);
    }
  }

  lemma {:induction false} ReachAgain(env: map<bytes, bytes>, cs: bytes, v: bytes, n: nat, depth: nat)
    requires v in env && v in Trail(env, cs, n) && ParseIn(env, cs, depth).Some?
    ensures depth > 0 && ParseIn(env, env[v], depth - 1).Some?
    decreases n
  {
    hide Variable, Parse;
    var w := Variable(env, cs).value;
    if w != v {
      ReachAgain(env, env[w], v, n - 1, depth - 1);
      Deeper(env, env[v], depth - 2, depth - 1);
    }
  }

  // --- TCP addresses --------------------------------------------------------------------------

  function Plain(host: bytes, port: bytes): bytes {
    host + ([COLON] + port)
  }

  function InBrackets(host: bytes, port: bytes): bytes {
    [OPEN] + (host + ([CLOSE, COLON] + port))
  }

  /** Logins and host:port, [host]:port, or nothing but a port. */
  ghost predicate TcpString(cs: bytes, ls: seq<Login>, host: bytes, port: bytes) {
    AllClean(ls) && ValidPort(port) &&
    ((Free(host, SEPARATORS) && cs == PrintAll(ls) + Plain(host, port)) ||
     (host != [] && Free(host, {CLOSE}) && cs == PrintAll(ls) + InBrackets(host, port)) ||
     (host == [] && ls == [] && cs == PrintAll(ls) + port))
  }

  function Tens(k: nat): nat {
    if k == 0 then 1 else 10 * Tens(k - 1)
  }

  /** n in decimal with k digits, leading zeros included. */
  function Digits(n: nat, k: nat): (s: bytes)
    ensures |s| == k
  {
    if k == 0 then [] else Digits(n / 10, k - 1) + [48 + n % 10]
  }

  lemma {:induction false} DigitsRead(n: nat, k: nat)
    requires n < Tens(k)
    ensures (forall b | b in Digits(n, k) :: 48 <= b <= 57) && Decimal(Digits(n, k)) == n
    decreases k
  {
    if k > 0 {
      DigitsRead(n / 10, k - 1);
      assert Digits(n, k)[..k - 1] == Digits(n / 10, k - 1);
    }
  }

  lemma {:induction false} DigitsWritten(s: bytes)
    requires forall b | b in s :: 48 <= b <= 57
    ensures 0 <= Decimal(s) < Tens(|s|) && Digits(Decimal(s), |s|) == s
  {
    if s != [] {
      var k := |s| - 1;
      assert s[k] in s && s == s[..k] + [s[k]];
      assert forall b | b in s[..k] :: b in s;
      DigitsWritten(s[..k]);
      assert Decimal(s) / 10 == Decimal(s[..k]) && Decimal(s) % 10 == s[k] - 48;
    }
  }

  /** The valid ports are the numbers up to 65535, written with one to five digits. */
  lemma PortsAreNumbers(port: bytes)
    ensures ValidPort(port) <==>
            1 <= |port| <= 5 && exists n: nat :: n <= 65535 && n < Tens(|port|) && port == Digits(n, |port|)
  {
    hide Digits, Decimal, Tens;
    if forall b | b in port :: 48 <= b <= 57 { DigitsWritten(port); }
    forall n: nat | n < Tens(|port|) && port == Digits(n, |port|)
      ensures (forall b | b in port :: 48 <= b <= 57) && Decimal(port) == n
    {
      DigitsRead(n, |port|);
    }
  }

  lemma PortIsFree(port: bytes)
    requires ValidPort(port)
    ensures Free(port, SEPARATORS)
  {
  }

  lemma PlainReads(host: bytes, port: bytes, first: bool, user: bytes, password: bytes)
    requires Free(host, SEPARATORS) && ValidPort(port)
    ensures NextLogin(Plain(host, port)).None?
    ensures Address(Plain(host, port), first, user, password) == Tcp(user, password, host, port)
  {
    PortIsFree(port);
    hide ValidPort, Until, Free;
    UntilStops(host, [COLON] + port, SEPARATORS);
    assert ([COLON] + port)[1..] == port;
    UntilAll(port, SEPARATORS);
    SlashIsNoDigit(port);
  }

  lemma SlashIsNoDigit(port: bytes)
    requires ValidPort(port)
    ensures Front(port) != SLASH && Front(port) != COLON
  {
    assert port[0] in port;
  }

  lemma BracketsRead(host: bytes, port: bytes, first: bool, user: bytes, password: bytes)
    requires host != [] && Free(host, {CLOSE}) && ValidPort(port)
    ensures NextLogin(InBrackets(host, port)).None?
    ensures Address(InBrackets(host, port), first, user, password) == Tcp(user, password, host, port)
  {
    hide ValidPort, Until, Free;
    var a := InBrackets(host, port);
    var tail := [CLOSE, COLON] + port;
    UntilNone(a, SEPARATORS);
    assert a[0..] == a && a[1..] == host + tail;
    UntilStops(host, tail, {CLOSE});
    assert Front(tail[1..]) == COLON && tail[2..] == port;
  }

  lemma PortReads(port: bytes, user: bytes, password: bytes)
    requires ValidPort(port)
    ensures NextLogin(port).None? && Address(port, true, user, password) == Tcp(user, password, [], port)
  {
    PortIsFree(port);
    hide ValidPort, Until, Free;
    UntilAll(port, SEPARATORS);
  }

  /** Printing and parsing: the last user, the last password, the host and the port come back, with "guest"
      for no user and "localhost" for no host. */
  lemma TcpReads(cs: bytes, ls: seq<Login>, host: bytes, port: bytes)
    requires TcpString(cs, ls, host, port)
    ensures var user := UserAfter(ls, []);
            Parse(cs) == Parts([], if user == [] then [103, 117, 101, 115, 116] else user, PasswordAfter(ls, []),
                               if host == [] then [108, 111, 99, 97, 108, 104, 111, 115, 116] else host, port)
  {
    hide NextLogin, Address, PrintAll, Continue, AllClean, ValidPort, Plain, InBrackets, UserAfter, PasswordAfter;
    hide Free;
    var user, password := UserAfter(ls, []), PasswordAfter(ls, []);
    if Free(host, SEPARATORS) && cs == PrintAll(ls) + Plain(host, port) {
      PlainReads(host, port, ls == [], user, password);
      LoginsThenAddress(ls, Plain(host, port), true, [], []);
    } else if host != [] && Free(host, {CLOSE}) && cs == PrintAll(ls) + InBrackets(host, port) {
      BracketsRead(host, port, ls == [], user, password);
      LoginsThenAddress(ls, InBrackets(host, port), true, [], []);
    } else {
      PortReads(port, user, password);
      LoginsThenAddress(ls, port, true, [], []);
    }
  }

  lemma AddressIsTcp(a: bytes, first: bool, user: bytes, password: bytes) returns (host: bytes, port: bytes)
    requires NextLogin(a).None? && IsTcp(Address(a, first, user, password))
    ensures ValidPort(port) && Address(a, first, user, password) == Tcp(user, password, host, port)
    ensures (Free(host, SEPARATORS) && a == Plain(host, port)) ||
            (host != [] && Free(host, {CLOSE}) && a == InBrackets(host, port)) ||
            (host == [] && first && a == port)
  {
    hide ValidPort, Until, Free, Tcp, Bracketed;
    var chunk := Until(a, SEPARATORS);
    Whole(a, chunk);
    var rest := a[|chunk|..];
    PathIsNoTcp(chunk, rest, user, password);
    if rest == [] {
      host, port := [], chunk;
    } else if rest[0] == COLON {
      host, port := chunk, rest[1..];
      Whole(rest, [COLON]);
    } else {
      Whole(rest, [OPEN]);
      host, port := BracketedIsTcp(rest[1..], user, password);
    }
  }

  lemma PathIsNoTcp(chunk: bytes, rest: bytes, user: bytes, password: bytes)
    ensures rest != [] ==> !IsTcp(Path(chunk, rest, user, password))
  {
  }

  lemma BracketedIsTcp(tail: bytes, user: bytes, password: bytes) returns (host: bytes, port: bytes)
    requires IsTcp(Bracketed(tail, user, password))
    ensures ValidPort(port) && Bracketed(tail, user, password) == Tcp(user, password, host, port)
    ensures host != [] && Free(host, {CLOSE}) && tail == host + ([CLOSE, COLON] + port)
  {
    hide ValidPort, Until, Free, Tcp;
    host := Until(tail, {CLOSE});
    var after := tail[|host|..];
    port := after[2..];
    Whole(tail, host);
    Whole(after, [CLOSE, COLON]);
  }

  /** Only such strings give a TCP address. */
  lemma TcpIsRead(cs: bytes) returns (ls: seq<Login>, host: bytes, port: bytes)
    requires IsTcp(Parse(cs))
    ensures TcpString(cs, ls, host, port)
    ensures Parse(cs) == Tcp(UserAfter(ls, []), PasswordAfter(ls, []), host, port)
  {
    hide NextLogin, Address, PrintAll, Continue, AllClean, ValidPort, Plain, InBrackets, UserAfter, PasswordAfter;
    hide Tcp, Free, Parse, IsTcp;
    var a;
    ls, a := ReadAs(cs);
    host, port := AddressIsTcp(a, ls == [], UserAfter(ls, []), PasswordAfter(ls, []));
  }

  /** The same address written in one way: in brackets only when the host needs them. */
  function Canonical(r: Parsed): bytes
    requires r.Parts?
  {
    Printed(Login(r.user, if r.password == [] then None else Some(r.password))) +
    (if Free(r.host, SEPARATORS) then Plain(r.host, r.port) else InBrackets(r.host, r.port))
  }

  lemma {:induction false} CleanAfter(ls: seq<Login>, user: bytes, password: bytes)
    requires AllClean(ls) && Free(user, SEPARATORS) && Free(password, SEPARATORS)
    ensures Free(UserAfter(ls, user), SEPARATORS) && Free(PasswordAfter(ls, password), SEPARATORS)
  {
    hide Free;
    if ls != [] {
      assert Clean(ls[0]);
      CleanAfter(ls[1..], ls[0].user, if ls[0].password.Some? then ls[0].password.value else password);
    }
  }

  /** Parsing, writing canonically and parsing again changes nothing. */
  lemma CanonicalParses(cs: bytes)
    requires IsTcp(Parse(cs))
    ensures Parse(Canonical(Parse(cs))) == Parse(cs)
  {
    hide Continue, ValidPort, Plain, InBrackets, UserAfter, PasswordAfter, Parse, Printed;
    var r := Parse(cs);
    var ls, host, port := TcpIsRead(cs);
    CleanAfter(ls, [], []);
    var l := Login(r.user, if r.password == [] then None else Some(r.password));
    assert PrintAll([l]) == Printed(l) by { assert [l][1..] == []; }
    OneLogin(l);
    TcpReads(Canonical(r), [l], r.host, r.port);
  }

  lemma OneLogin(l: Login)
    ensures UserAfter([l], []) == l.user
    ensures PasswordAfter([l], []) == if l.password.Some? then l.password.value else []
  {
    assert [l][1..] == [];
  }
}
