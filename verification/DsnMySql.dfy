/** MySQL data source names, with the address in parentheses or without. */
module DsnMySql {
  import opened Common
  import opened Utf8
  import opened GoBytes
  import opened DsnAddress

  const AT: byte := 0x40
  const QUERY: byte := 0x3F
  const LPAREN: byte := 0x28
  const RPAREN: byte := 0x29
  /** "unix", "tcp", "udp" and "pipe" */
  const UNIX: Bytes := [0x75, 0x6E, 0x69, 0x78]
  const TCP: Bytes := [0x74, 0x63, 0x70]
  const UDP: Bytes := [0x75, 0x64, 0x70]
  const PIPE: Bytes := [0x70, 0x69, 0x70, 0x65]

  // ---- MySQL names ----

  /** `mysqlDBName` */
  function MySqlDbName(part: Bytes): Bytes {
    var s := if part != [] && part[0] == SLASH then part[1..] else part;
    var query := IndexByte(s, QUERY);
    if query >= 0 then s[..query] else s
  }

  predicate AllDigits(s: Bytes) { forall b :: b in s ==> 0x30 <= b <= 0x39 }

  /** `mysqlStripProtocol` */
  function StripProtocol(addr: Bytes): Bytes {
    var colon := IndexByte(addr, COLON);
    if colon < 0 || addr[..colon] !in [TCP, UNIX, UDP, PIPE] then addr
    else
      var rest := addr[colon + 1..];
      if rest != [] && AllDigits(rest) then LOCALHOST + [COLON] + rest else rest
  }

  predicate IsUnixAddr(addr: Bytes) {
    var colon := IndexByte(addr, COLON);
    colon >= 0 && addr[..colon] == UNIX
  }

  /** The last '@' before the first '('. */
  function AtIndex(dsn: Bytes): (i: int)
    ensures -1 <= i < |dsn|
  {
    var paren := IndexByte(dsn, LPAREN);
    LastIndexByte(if paren < 0 then dsn else dsn[..paren], AT)
  }

  /** The address and what follows it, where the address stands in parentheses or not. */
  function AddressAndRest(rest: Bytes): (Bytes, Bytes) {
    var lp := IndexByte(rest, LPAREN);
    if lp >= 0 then
      var rp := IndexByte(rest[lp..], RPAREN);
      if rp >= 0 then (rest[lp + 1..lp + rp], rest[lp + rp + 1..]) else ([], [])
    else
      var query := IndexByte(rest, QUERY);
      var slash :=
        if !IsUnixAddr(rest) then IndexByte(rest, SLASH)
        else LastIndexByte(if query >= 0 then rest[..query] else rest, SLASH);
      if slash >= 0 then (StripProtocol(rest[..slash]), rest[slash..]) else (StripProtocol(rest), [])
  }

  /** `parseMySQLDSN` */
  function MySqlInfo(dsn: Bytes): Info {
    var (addr, part) := AddressAndRest(dsn[AtIndex(dsn) + 1..]);
    var (host, port) := MySqlSplitAddr(addr);
    Info(host, port, MySqlDbName(part))
  }

  /** The scan for the '@' that ends the credentials. */
  method FindAt(dsn: Bytes) returns (atIdx: int)
    ensures atIdx == AtIndex(dsn)
  {
    assert AT != LPAREN;
    hide *;
    atIdx := -1;
    var i := 0;
    while i < |dsn|
      invariant 0 <= i <= |dsn| && forall j :: 0 <= j < i ==> dsn[j] != LPAREN
      invariant -1 <= atIdx < i && (atIdx >= 0 ==> dsn[atIdx] == AT)
      invariant forall j :: atIdx < j < i ==> dsn[j] != AT
    {
      if dsn[i] == AT {
        atIdx := i;
      }
      if dsn[i] == LPAREN {
        break;
      }
      i := i + 1;
    }
    AtFound(dsn, i, atIdx);
  }

  /** The address, in parentheses or not, and what follows it. */
  method ReadAddress(rest: Bytes) returns (addrStr: Bytes, dbPart: Bytes)
    ensures (addrStr, dbPart) == AddressAndRest(rest)
  {
    hide IndexByte, LastIndexByte, StripProtocol, IsUnixAddr;
    addrStr, dbPart := [], [];
    var lp := IndexByte(rest, LPAREN);
    if lp >= 0 {
      var rp := IndexByte(rest[lp..], RPAREN);
      if rp >= 0 {
        addrStr := rest[lp + 1..lp + rp];
        dbPart := rest[lp + rp + 1..];
      }
    } else {
      var slash := IndexByte(rest, SLASH);
      if IsUnixAddr(rest) {
        var query := IndexByte(rest, QUERY);
        slash := LastIndexByte(if query >= 0 then rest[..query] else rest, SLASH);
      }
      addrStr := rest;
      if slash >= 0 {
        addrStr := rest[..slash];
        dbPart := rest[slash..];
      }
      addrStr := MySqlStripProtocol(addrStr);
    }
  }

  method ParseMySql(dsn: Bytes) returns (info: Info)
    ensures info == MySqlInfo(dsn)
  {
    hide AddressAndRest, MySqlSplitAddr, MySqlDbName, AtIndex;
    var atIdx := FindAt(dsn);
    var rest := if atIdx >= 0 then dsn[atIdx + 1..] else dsn;
    assert rest == dsn[AtIndex(dsn) + 1..];
    var addrStr, dbPart := ReadAddress(rest);
    var (host, port) := MySqlSplitAddr(addrStr);
    info := Info(host, port, MySqlDbName(dbPart));
  }

  method MySqlStripProtocol(addr: Bytes) returns (r: Bytes)
    ensures r == StripProtocol(addr)
  {
    hide IndexByte;
    var colon := IndexByte(addr, COLON);
    if colon < 0 || addr[..colon] !in [TCP, UNIX, UDP, PIPE] {
      return addr;
    }
    var rest := addr[colon + 1..];
    if rest == [] {
      return [];
    }
    var allDigits := true;
    for i := 0 to |rest|
      invariant forall j :: 0 <= j < i ==> 0x30 <= rest[j] <= 0x39
    {
      if rest[i] < 0x30 || rest[i] > 0x39 {
        assert rest[i] in rest;
        allDigits := false;
        break;
      }
    }
    return if allDigits then LOCALHOST + [COLON] + rest else rest;
  }

  lemma AtFound(dsn: Bytes, n: nat, at: int)
    requires n <= |dsn| && (forall j :: 0 <= j < n ==> dsn[j] != LPAREN) && (n < |dsn| ==> dsn[n] == LPAREN)
    requires -1 <= at < n && (at >= 0 ==> dsn[at] == AT) && forall j :: at < j < n ==> dsn[j] != AT
    ensures AtIndex(dsn) == at
  {
    hide IndexByte, LastIndexByte;
    var paren := IndexByte(dsn, LPAREN);
    if n < |dsn| {
      assert dsn == dsn[..n] + [LPAREN] + dsn[n + 1..];
      FirstIs(dsn[..n], LPAREN, dsn[n + 1..]);
    } else {
      assert dsn[..n] == dsn;
    }
    var front := dsn[..n];
    var k := LastIndexByte(front, AT);
    assert at >= 0 ==> front[at] == AT;
    assert k >= 0 ==> dsn[k] == AT;
  }

  function DbPart(db: Bytes, params: Option<Bytes>): Bytes {
    [SLASH] + (db + if params.Some? then [QUERY] + params.value else [])
  }

  /** `creds@proto(addr)/db?params`, with or without the credentials and the parameters. */
  function PrintMySql(creds: Option<Bytes>, proto: Bytes, addr: Bytes, db: Bytes, params: Option<Bytes>): Bytes {
    (if creds.Some? then creds.value + [AT] else [])
    + (proto + [LPAREN] + (addr + [RPAREN] + DbPart(db, params)))
  }

  lemma DbNameIsRead(db: Bytes, params: Option<Bytes>)
    requires QUERY !in db
    ensures MySqlDbName(DbPart(db, params)) == db
  {
    hide IndexByte;
    var s := db + if params.Some? then [QUERY] + params.value else [];
    assert ([SLASH] + s)[1..] == s;
    if params.Some? {
      assert s == db + [QUERY] + params.value;
      FirstIs(db, QUERY, params.value);
      assert s[..|db|] == db;
    } else {
      assert s == db;
    }
  }

  lemma AddressIsRead(proto: Bytes, addr: Bytes, tail: Bytes)
    requires LPAREN !in proto && RPAREN !in addr
    ensures AddressAndRest(proto + [LPAREN] + (addr + [RPAREN] + tail)) == (addr, tail)
  {
    hide IndexByte, LastIndexByte, StripProtocol, IsUnixAddr;
    var more := addr + [RPAREN] + tail;
    var rest := proto + [LPAREN] + more;
    FirstIs(proto, LPAREN, more);
    var lp := |proto|;
    assert rest[lp..] == ([LPAREN] + addr) + [RPAREN] + tail;
    FirstIs([LPAREN] + addr, RPAREN, tail);
    var rp := |addr| + 1;
    assert rest[lp + 1..lp + rp] == addr && rest[lp + rp + 1..] == tail;
  }

  /** Where a name has a '(', only what it and the first ')' behind it enclose is read as the
      address, whatever stands in front. */
  lemma ParenthesisCounts(front: Bytes, addr: Bytes, tail: Bytes)
    requires LPAREN !in front && RPAREN !in addr
    ensures MySqlInfo(front + [LPAREN] + (addr + [RPAREN] + tail))
         == Info(MySqlSplitAddr(addr).0, MySqlSplitAddr(addr).1, MySqlDbName(tail))
  {
    hide IndexByte, LastIndexByte, AddressAndRest, MySqlDbName, MySqlSplitAddr, AtIndex;
    var more := addr + [RPAREN] + tail;
    var k := BehindLastAt(front, more);
    AddressIsRead(front[k..], addr, tail);
  }

  /** One that is never closed leaves nothing to read. */
  lemma OpenParenthesisReadsNothing(front: Bytes, inside: Bytes)
    requires LPAREN !in front && RPAREN !in inside
    ensures MySqlInfo(front + [LPAREN] + inside) == Info([], [], [])
  {
    hide IndexByte, LastIndexByte, AtIndex, StripProtocol, IsUnixAddr;
    var k := BehindLastAt(front, inside);
    var proto := front[k..];
    var rest := proto + [LPAREN] + inside;
    FirstIs(proto, LPAREN, inside);
    assert rest[|proto|..] == [LPAREN] + inside;
    assert RPAREN !in [LPAREN] + inside;
  }

  /** What is read is behind the last '@' in front of the parenthesis. */
  lemma BehindLastAt(front: Bytes, inside: Bytes) returns (k: nat)
    requires LPAREN !in front
    ensures k <= |front| && LPAREN !in front[k..]
    ensures var dsn := front + [LPAREN] + inside; AtIndex(dsn) + 1 == k && dsn[k..] == front[k..] + [LPAREN] + inside
  {
    hide IndexByte, LastIndexByte;
    var dsn := front + [LPAREN] + inside;
    FirstIs(front, LPAREN, inside);
    assert dsn[..|front|] == front;
    k := LastIndexByte(front, AT) + 1;
    assert dsn[k..] == front[k..] + [LPAREN] + inside;
  }

  /** Parsing a printed name recovers the address and the database, whatever '@', ':' and '/'
      stand in front of the parenthesis. */
  lemma MySqlRoundTrip(creds: Option<Bytes>, proto: Bytes, addr: Bytes, db: Bytes, params: Option<Bytes>)
    requires (creds.Some? ==> LPAREN !in creds.value) && LPAREN !in proto && RPAREN !in addr && QUERY !in db
    ensures MySqlInfo(PrintMySql(creds, proto, addr, db, params))
         == Info(MySqlSplitAddr(addr).0, MySqlSplitAddr(addr).1, db)
  {
    hide MySqlInfo, MySqlDbName, MySqlSplitAddr, DbPart;
    var tail := DbPart(db, params);
    var lead := if creds.Some? then creds.value + [AT] else [];
    assert PrintMySql(creds, proto, addr, db, params) == (lead + proto) + [LPAREN] + (addr + [RPAREN] + tail);
    ParenthesisCounts(lead + proto, addr, tail);
    DbNameIsRead(db, params);
  }

  /** With a joined host and port as the address, the three parts come back. */
  lemma MySqlAddressRoundTrip(creds: Option<Bytes>, proto: Bytes, host: Bytes, port: Bytes, db: Bytes, params: Option<Bytes>)
    requires (creds.Some? ==> LPAREN !in creds.value) && LPAREN !in proto && QUERY !in db
    requires host != [] && BracketFree(host) && RPAREN !in host && BracketFree(port) && RPAREN !in port && COLON !in port
    ensures MySqlInfo(PrintMySql(creds, proto, JoinHostPort(host, port), db, params)) == Info(host, port, db)
  {
    hide MySqlInfo, PrintMySql, MySqlSplitAddr, IndexByte, LastIndexByte;
    MySqlRoundTrip(creds, proto, JoinHostPort(host, port), db, params);
    DialectsInvertJoinIff(host, port);
  }

  // ---- MySQL names without parentheses ----

  const PROTOCOLS: seq<Bytes> := [TCP, UNIX, UDP, PIPE]

  /** `creds@address/db?params`, with or without the credentials and the parameters. */
  function PrintPlain(creds: Option<Bytes>, addr: Bytes, db: Bytes, params: Option<Bytes>): Bytes {
    (if creds.Some? then creds.value + [AT] else []) + (addr + DbPart(db, params))
  }

  /** No byte of these starts another part of the name. */
  predicate Plain(s: Bytes) { LPAREN !in s && AT !in s }

  predicate PlainParts(creds: Option<Bytes>, addr: Bytes, db: Bytes, params: Option<Bytes>) {
    && (creds.Some? ==> LPAREN !in creds.value)
    && Plain(addr) && Plain(db) && QUERY !in db && (params.Some? ==> Plain(params.value))
  }

  /** Everything up to the last '@' of a name without a '(' is dropped, wherever it stands. */
  lemma LastAtCuts(front: Bytes, rest: Bytes)
    requires LPAREN !in front && Plain(rest)
    ensures MySqlInfo(front + [AT] + rest) == MySqlInfo(rest)
  {
    hide IndexByte, LastIndexByte, AddressAndRest, MySqlDbName, MySqlSplitAddr, AtIndex;
    var head := front + [AT];
    var dsn := head + rest;
    assert dsn[|head|..] == rest && rest[0..] == rest;
    AbsentBehind(head, rest, AT);
    AbsentBehind(head, rest, LPAREN);
    assert forall j :: 0 <= j < |head| ==> head[j] == if j < |front| then front[j] else AT;
    AtFound(dsn, |dsn|, |front|);
    AtFound(rest, |rest|, -1);
  }

  /** `u:p@h:1/db?x=@y/z`: an '@' in the parameters cuts off what stands in front of it. */
  lemma AtInParametersCuts()
    ensures var front, rest := [0x75, COLON, 0x70, AT, 0x68, COLON, 0x31, SLASH, 0x64, 0x62, QUERY, 0x78, 0x3D], [0x79, SLASH, 0x7A];
      MySqlInfo(front + [AT] + rest) == Info([0x79], MYSQL_PORT, [0x7A])
  {
    var front, host, db := [0x75, COLON, 0x70, AT, 0x68, COLON, 0x31, SLASH, 0x64, 0x62, QUERY, 0x78, 0x3D], [0x79], [0x7A];
    var rest := [0x79, SLASH, 0x7A];
    assert PrintPlain(None, host, db, None) == rest;
    assert BracketFree(host) && COLON !in host && SLASH !in host && PlainParts(None, host, db, None);
    assert LPAREN !in front && Plain(rest);
    hide *;
    LastAtCuts(front, rest);
    MySqlHostAlone(None, host, db, None);
  }

  /** The credentials are skipped, whatever they hold but a '('. */
  lemma PlainIsCut(creds: Option<Bytes>, addr: Bytes, db: Bytes, params: Option<Bytes>)
    requires PlainParts(creds, addr, db, params)
    ensures var rest := addr + DbPart(db, params);
      LPAREN !in rest && MySqlInfo(PrintPlain(creds, addr, db, params))
         == Info(MySqlSplitAddr(AddressAndRest(rest).0).0, MySqlSplitAddr(AddressAndRest(rest).0).1, MySqlDbName(AddressAndRest(rest).1))
  {
    var rest := addr + DbPart(db, params);
    RestIsPlain(addr, db, params);
    assert PrintPlain(creds, addr, db, params) == if creds.Some? then creds.value + [AT] + rest else [] + rest;
    assert [] + rest == rest;
    hide *;
    if creds.Some? { LastAtCuts(creds.value, rest); }
    PlainIsRead(rest);
  }

  lemma PlainIsRead(rest: Bytes)
    requires Plain(rest)
    ensures var (addr, part) := AddressAndRest(rest);
      LPAREN !in rest && MySqlInfo(rest) == Info(MySqlSplitAddr(addr).0, MySqlSplitAddr(addr).1, MySqlDbName(part))
  {
    hide AddressAndRest, MySqlDbName, MySqlSplitAddr, AtIndex;
    assert rest[0..] == rest;
    AtFound(rest, |rest|, -1);
  }

  lemma RestIsPlain(addr: Bytes, db: Bytes, params: Option<Bytes>)
    requires Plain(addr) && Plain(db) && (params.Some? ==> Plain(params.value))
    ensures Plain(addr + DbPart(db, params))
  {
    if params.Some? { MembersOf3(db, [QUERY], params.value); }
    MembersOf3(addr, [SLASH], db + if params.Some? then [QUERY] + params.value else []);
  }

  lemma AbsentBehind(front: Bytes, rest: Bytes, b: byte)
    requires b !in rest
    ensures forall j :: |front| <= j < |front + rest| ==> (front + rest)[j] != b
    ensures forall j :: 0 <= j < |front| ==> (front + rest)[j] == front[j]
  {
    forall j | |front| <= j < |front + rest|
      ensures (front + rest)[j] != b
    {
      assert (front + rest)[j] == rest[j - |front|];
    }
  }

  /** Outside the socket form the address ends at the first '/'. */
  lemma PlainAddressIsRead(addr: Bytes, db: Bytes, params: Option<Bytes>)
    requires SLASH !in addr && !IsUnixAddr(addr) && LPAREN !in addr + DbPart(db, params)
    ensures AddressAndRest(addr + DbPart(db, params)) == (StripProtocol(addr), DbPart(db, params))
  {
    hide IndexByte, LastIndexByte, StripProtocol;
    var tail := DbPart(db, params);
    var rest := addr + tail;
    NotUnix(addr, tail);
    assert rest == addr + [SLASH] + tail[1..];
    FirstIs(addr, SLASH, tail[1..]);
    assert rest[..|addr|] == addr && rest[|addr|..] == tail;
  }

  lemma NotUnix(addr: Bytes, tail: Bytes)
    requires SLASH !in addr && !IsUnixAddr(addr) && tail != [] && tail[0] == SLASH
    ensures !IsUnixAddr(addr + tail)
  {
    hide IndexByte;
    var rest := addr + tail;
    var colon := IndexByte(rest, COLON);
    if colon >= 0 {
      if colon < |addr| {
        assert addr == addr[..colon] + [COLON] + addr[colon + 1..];
        assert forall j :: 0 <= j < colon ==> addr[j] == rest[j];
        FirstIs(addr[..colon], COLON, addr[colon + 1..]);
        assert rest[..colon] == addr[..colon];
      } else {
        assert rest[|addr|] == SLASH;
        assert SLASH in rest[..colon] by { assert colon > |addr| && rest[..colon][|addr|] == SLASH; }
        assert SLASH !in UNIX;
      }
    }
  }

  lemma JoinedPrefix(host: Bytes, port: Bytes)
    requires host != [] && BracketFree(host) && SLASH !in host && SLASH !in port
    ensures var addr := JoinHostPort(host, port);
      && SLASH !in addr && addr != [] && COLON in addr
      && (COLON !in host ==> IndexByte(addr, COLON) == |host| && addr[..|host|] == host && addr[|host| + 1..] == port)
      && (COLON in host ==> addr[..IndexByte(addr, COLON)] !in PROTOCOLS)
  {
    hide IndexByte;
    var addr := JoinHostPort(host, port);
    if COLON in host {
      assert addr[0] == LBRACKET && addr[|host| + 2] == COLON;
      assert addr[..IndexByte(addr, COLON)][0] == LBRACKET;
    } else {
      FirstIs(host, COLON, port);
      assert addr[|host|] == COLON;
    }
  }

  /** A joined host and port come back with the database exactly when the host is none of the
      protocol words, which the parser takes for the protocol. */
  lemma MySqlPlainRoundTripIff(creds: Option<Bytes>, host: Bytes, port: Bytes, db: Bytes, params: Option<Bytes>)
    requires host != [] && BracketFree(host) && SLASH !in host && BracketFree(port) && COLON !in port && SLASH !in port
    requires PlainParts(creds, JoinHostPort(host, port), db, params)
    ensures MySqlInfo(PrintPlain(creds, JoinHostPort(host, port), db, params)) == Info(host, port, db) <==> host !in PROTOCOLS
  {
    hide MySqlInfo, PrintPlain, IndexByte, LastIndexByte;
    PlainIsCut(creds, JoinHostPort(host, port), db, params);
    JoinedPrefix(host, port);
    if host !in PROTOCOLS {
      HostIsRead(host, port, db, params);
    } else {
      ProtocolIsNoHost(host, port, db, params);
    }
  }

  lemma HostIsRead(host: Bytes, port: Bytes, db: Bytes, params: Option<Bytes>)
    requires host != [] && BracketFree(host) && SLASH !in host && BracketFree(port) && COLON !in port && SLASH !in port
    requires host !in PROTOCOLS && QUERY !in db && LPAREN !in JoinHostPort(host, port) + DbPart(db, params)
    ensures var (addr, part) := AddressAndRest(JoinHostPort(host, port) + DbPart(db, params));
      MySqlSplitAddr(addr) == (host, port) && MySqlDbName(part) == db
  {
    hide IndexByte, LastIndexByte, MySqlSplitAddr, MySqlDbName, AddressAndRest;
    JoinedPrefix(host, port);
    var addr := JoinHostPort(host, port);
    PlainAddressIsRead(addr, db, params);
    assert StripProtocol(addr) == addr;
    DialectsInvertJoinIff(host, port);
    DbNameIsRead(db, params);
  }

  lemma ProtocolIsNoHost(host: Bytes, port: Bytes, db: Bytes, params: Option<Bytes>)
    requires host in PROTOCOLS && BracketFree(port) && COLON !in port && SLASH !in port && SLASH !in host && BracketFree(host)
    requires LPAREN !in JoinHostPort(host, port) + DbPart(db, params)
    ensures MySqlSplitAddr(AddressAndRest(JoinHostPort(host, port) + DbPart(db, params)).0) != (host, port)
  {
    hide IndexByte, LastIndexByte, AddressAndRest, MySqlSplitAddr, StripProtocol;
    assert COLON !in host && host != [];
    JoinedPrefix(host, port);
    var addr := JoinHostPort(host, port);
    if host != UNIX {
      PlainAddressIsRead(addr, db, params);
      StrippedIs(addr, host, port);
      if port != [] && AllDigits(port) {
        LocalhostPort(port);
      } else {
        assert port + [] == port;
        NoHostFromPort(port, [], host);
      }
    } else {
      UnixIsNoHost(port, db, params);
    }
  }

  lemma StrippedIs(addr: Bytes, proto: Bytes, rest: Bytes)
    requires proto in PROTOCOLS && IndexByte(addr, COLON) == |proto| && addr[..|proto|] == proto && addr[|proto| + 1..] == rest
    ensures StripProtocol(addr) == if rest != [] && AllDigits(rest) then LOCALHOST + [COLON] + rest else rest
  {
  }

  lemma LocalhostPort(port: Bytes)
    requires port != [] && AllDigits(port)
    ensures MySqlSplitAddr(LOCALHOST + [COLON] + port) == (LOCALHOST, port) && LOCALHOST !in PROTOCOLS
    ensures BracketFree(port) && COLON !in port && SLASH !in port && QUERY !in port
  {
    hide IndexByte, LastIndexByte, MySqlSplitAddr;
    assert BracketFree(LOCALHOST) && COLON !in LOCALHOST;
    assert JoinHostPort(LOCALHOST, port) == LOCALHOST + [COLON] + port;
    DialectsInvertJoinIff(LOCALHOST, port);
  }

  /** Text that begins with the port, with a path behind it or not, is never split into a
      protocol word and that port. */
  lemma NoHostFromPort(port: Bytes, path: Bytes, proto: Bytes)
    requires SLASH !in proto && (proto in PROTOCOLS || path != []) && BracketFree(port) && COLON !in port && SLASH !in port && (path != [] ==> path[0] == SLASH)
    ensures MySqlSplitAddr(port + path) != (proto, port)
  {
    hide IndexByte;
    var s := port + path;
    if s != [] {
      assert port != [] ==> s[0] == port[0] && port[0] in port;
      var colon := LastIndexByte(s, COLON);
      if colon >= 0 {
        assert s[colon] == COLON && colon >= |port|;
        assert path != [] && s[|port|] == SLASH && colon > |port|;
        assert SLASH in s[..colon] by { assert s[..colon][|port|] == SLASH; }
        assert SLASH !in proto;
      } else if path != [] {
        assert s[|port|] == SLASH && SLASH !in proto;
      } else {
        assert s == port && MYSQL_PORT[0] == 0x33;
        assert proto[0] != 0x33;
      }
    }
  }

  lemma UnixPrefix(rest: Bytes)
    ensures IsUnixAddr(UNIX + [COLON] + rest) && IndexByte(UNIX + [COLON] + rest, COLON) == 4
    ensures (UNIX + [COLON] + rest)[..4] == UNIX && (UNIX + [COLON] + rest)[5..] == rest
  {
    hide IndexByte;
    assert COLON !in UNIX && |UNIX| == 4;
    FirstIs(UNIX, COLON, rest);
    assert (UNIX + [COLON] + rest)[..4] == UNIX;
  }

  /** In the socket form the address ends at the last '/' before the query. */
  lemma UnixAddressIs(rest: Bytes)
    requires LPAREN !in rest && IsUnixAddr(rest)
    ensures var query := IndexByte(rest, QUERY);
      var slash := LastIndexByte(if query >= 0 then rest[..query] else rest, SLASH);
      AddressAndRest(rest) == if slash >= 0 then (StripProtocol(rest[..slash]), rest[slash..]) else (StripProtocol(rest), [])
  {
    hide IndexByte, LastIndexByte, StripProtocol, IsUnixAddr;
  }

  lemma SlashBehind(front: Bytes, tail: Bytes, k: nat)
    requires SLASH !in front && k < |front + tail| && (front + tail)[k] == SLASH
    ensures k >= |front|
  {
    assert forall j :: 0 <= j < |front| ==> (front + tail)[j] == front[j] && front[j] in front;
  }

  lemma UnixIsNoHost(port: Bytes, db: Bytes, params: Option<Bytes>)
    requires BracketFree(port) && COLON !in port && SLASH !in port
    requires LPAREN !in JoinHostPort(UNIX, port) + DbPart(db, params)
    ensures MySqlSplitAddr(AddressAndRest(JoinHostPort(UNIX, port) + DbPart(db, params)).0) != (UNIX, port)
  {
    assert DbPart(db, params) != [] && DbPart(db, params)[0] == SLASH;
    hide IndexByte, LastIndexByte, MySqlSplitAddr, StripProtocol, AllDigits, IsUnixAddr, AddressAndRest, DbPart, BracketFree;
    assert COLON !in UNIX && SLASH !in UNIX;
    var front := UNIX + [COLON] + port;
    var tail := DbPart(db, params);
    assert front == JoinHostPort(UNIX, port);
    assert SLASH !in front by { MembersOf3(UNIX, [COLON], port); }
    UnixFront(front, tail, port);
  }

  lemma UnixFront(front: Bytes, tail: Bytes, port: Bytes)
    requires BracketFree(port) && COLON !in port && SLASH !in port && front == UNIX + [COLON] + port && SLASH !in front
    requires tail != [] && tail[0] == SLASH && LPAREN !in front + tail
    ensures MySqlSplitAddr(AddressAndRest(front + tail).0) != (UNIX, port)
  {
    assert UNIX in PROTOCOLS && SLASH !in UNIX;
    hide *;
    var rest := front + tail;
    var n := |front|;
    assert rest == UNIX + [COLON] + (port + tail);
    UnixPrefix(port + tail);
    UnixAddressIs(rest);
    var query := IndexByte(rest, QUERY);
    var before := if query >= 0 then rest[..query] else rest;
    var slash := LastIndexByte(before, SLASH);
    assert rest[n] == SLASH && rest[..n] == front;
    var addr := if slash >= 0 then rest[..slash] else rest;
    if slash >= 0 {
      assert rest[slash] == before[slash] == SLASH;
      SlashBehind(front, tail, slash);
    }
    UnixStripped(addr, rest, port, n, UNIX);
  }

  lemma UnixStripped(addr: Bytes, rest: Bytes, port: Bytes, n: nat, word: Bytes)
    requires BracketFree(port) && COLON !in port && SLASH !in port && n == 5 + |port|
    requires n < |rest| && rest[..n] == UNIX + [COLON] + port && rest[n] == SLASH
    requires n <= |addr| <= |rest| && addr == rest[..|addr|]
    requires SLASH !in word && (word in PROTOCOLS || n < |addr|)
    ensures MySqlSplitAddr(StripProtocol(addr)) != (word, port)
  {
    hide IndexByte, LastIndexByte, MySqlSplitAddr, StripProtocol;
    var path := rest[n..|addr|];
    assert addr[..n] == rest[..n];
    assert addr == UNIX + [COLON] + (port + path);
    FirstIs(UNIX, COLON, port + path);
    assert addr[..4] == UNIX && addr[5..] == port + path;
    StrippedIs(addr, UNIX, port + path);
    if port + path != [] && AllDigits(port + path) {
      assert path != [] ==> (port + path)[|port|] == SLASH;
      LocalhostPort(port + path);
    } else {
      NoHostFromPort(port, path, word);
    }
  }

  /** A protocol word and a bare port stand for that port on localhost, except that a socket's
      address goes on to the last '/', into a database with one. */
  lemma MySqlProtocolPortIff(creds: Option<Bytes>, proto: Bytes, port: Bytes, db: Bytes, params: Option<Bytes>)
    requires proto in PROTOCOLS && port != [] && AllDigits(port)
    requires PlainParts(creds, proto + [COLON] + port, db, params)
    ensures MySqlInfo(PrintPlain(creds, proto + [COLON] + port, db, params)) == Info(LOCALHOST, port, db)
       <==> proto != UNIX || SLASH !in db
  {
    hide MySqlInfo, PrintPlain, IndexByte, LastIndexByte, MySqlSplitAddr, StripProtocol, AddressAndRest, MySqlDbName;
    var addr := proto + [COLON] + port;
    assert COLON !in proto && BracketFree(proto) && SLASH !in proto;
    LocalhostPort(port);
    PlainIsCut(creds, addr, db, params);
    DbNameIsRead(db, params);
    if proto != UNIX {
      assert addr == JoinHostPort(proto, port);
      JoinedPrefix(proto, port);
      PlainAddressIsRead(addr, db, params);
      StrippedIs(addr, proto, port);
    } else if SLASH !in db {
      UnixAddressIsRead(port, db, params);
      UnixPrefix(port);
      StrippedIs(addr, UNIX, port);
    } else {
      UnixPortGoesOn(port, db, params);
    }
  }

  /** In front of a database without a '/' the socket form's address is all of it. */
  lemma UnixAddressIsRead(what: Bytes, db: Bytes, params: Option<Bytes>)
    requires QUERY !in what && SLASH !in db && QUERY !in db && LPAREN !in UNIX + [COLON] + what + DbPart(db, params)
    ensures AddressAndRest(UNIX + [COLON] + what + DbPart(db, params)) == (StripProtocol(UNIX + [COLON] + what), DbPart(db, params))
  {
    hide IndexByte, LastIndexByte, StripProtocol, IsUnixAddr, AddressAndRest, AllDigits, DbPart;
    var addr, tail := UNIX + [COLON] + what, DbPart(db, params);
    var rest := addr + tail;
    assert rest == UNIX + [COLON] + (what + tail);
    UnixPrefix(what + tail);
    UnixAddressIs(rest);
    LastSlash(what, db, params);
    assert rest[..|addr|] == addr && rest[|addr|..] == tail;
  }

  /** With a '/' in the database, the address goes on into it. */
  lemma AddressIntoDb(what: Bytes, db: Bytes, params: Option<Bytes>) returns (slash: nat)
    requires QUERY !in what && SLASH in db && QUERY !in db && LPAREN !in UNIX + [COLON] + what + DbPart(db, params)
    ensures var addr := UNIX + [COLON] + what;
      var rest := addr + DbPart(db, params);
      && |addr| < slash <= |addr| + |db| && slash < |rest| && db[slash - |addr| - 1] == SLASH
      && AddressAndRest(rest) == (StripProtocol(rest[..slash]), rest[slash..])
  {
    hide *;
    var addr, tail := UNIX + [COLON] + what, DbPart(db, params);
    assert addr + tail == UNIX + [COLON] + (what + tail);
    UnixPrefix(what + tail);
    UnixAddressIs(addr + tail);
    slash := LastSlashInDb(what, db, params);
  }

  lemma UnixPortGoesOn(port: Bytes, db: Bytes, params: Option<Bytes>)
    requires BracketFree(port) && COLON !in port && SLASH !in port && QUERY !in port
    requires SLASH in db && QUERY !in db && LPAREN !in UNIX + [COLON] + port + DbPart(db, params)
    ensures MySqlSplitAddr(AddressAndRest(UNIX + [COLON] + port + DbPart(db, params)).0) != (LOCALHOST, port)
  {
    assert SLASH !in LOCALHOST && |UNIX| == 4;
    hide *;
    var front, tail := UNIX + [COLON] + port, DbPart(db, params);
    TailStarts(db, params);
    var slash := AddressIntoDb(port, db, params);
    var rest := front + tail;
    assert rest[..|front|] == front && rest[|front|] == SLASH;
    UnixStripped(rest[..slash], rest, port, |front|, LOCALHOST);
  }

  lemma TailStarts(db: Bytes, params: Option<Bytes>)
    ensures DbPart(db, params) != [] && DbPart(db, params)[0] == SLASH
  {
  }

  /** A host alone gets the default port. */
  lemma MySqlHostAlone(creds: Option<Bytes>, host: Bytes, db: Bytes, params: Option<Bytes>)
    requires host != [] && BracketFree(host) && COLON !in host && SLASH !in host && PlainParts(creds, host, db, params)
    ensures MySqlInfo(PrintPlain(creds, host, db, params)) == Info(host, MYSQL_PORT, db)
  {
    hide MySqlInfo, PrintPlain, LastIndexByte, MySqlSplitAddr, AddressAndRest, MySqlDbName;
    PlainIsCut(creds, host, db, params);
    assert IndexByte(host, COLON) < 0 && StripProtocol(host) == host;
    PlainAddressIsRead(host, db, params);
    DefaultPorts(host);
    DbNameIsRead(db, params);
  }

  /** A socket's path comes back without a port, and the database behind it, exactly when the path
      holds no colon and no '?' and the database no '/'. */
  lemma MySqlSocketRoundTripIff(creds: Option<Bytes>, path: Bytes, db: Bytes, params: Option<Bytes>)
    requires path != [] && path[0] == SLASH && PlainParts(creds, UNIX + [COLON] + path, db, params)
    ensures MySqlInfo(PrintPlain(creds, UNIX + [COLON] + path, db, params)) == Info(path, [], db)
       <==> COLON !in path && QUERY !in path && SLASH !in db
  {
    SocketAddr(path);
    hide MySqlInfo, PrintPlain, IndexByte, LastIndexByte, MySqlSplitAddr, StripProtocol, AddressAndRest, MySqlDbName;
    PlainIsCut(creds, UNIX + [COLON] + path, db, params);
    if QUERY in path {
      PathIsCut(path, DbPart(db, params));
    } else if SLASH in db {
      DbIsCut(path, db, params);
    } else {
      SocketIsRead(path, db, params);
      DbNameIsRead(db, params);
    }
  }

  lemma SocketAddr(path: Bytes)
    requires path != [] && path[0] == SLASH
    ensures MySqlSplitAddr(path) == (path, []) <==> COLON !in path
  {
    hide IndexByte;
    if COLON in path {
      var colon := LastIndexByte(path, COLON);
      assert |path[..colon]| < |path|;
    }
  }

  lemma HostIsNoLonger(addr: Bytes)
    ensures |MySqlSplitAddr(addr).0| <= |addr|
  {
    hide LastIndexByte;
  }

  /** With a '?' in the path, the address ends before it. */
  lemma PathIsCut(path: Bytes, tail: Bytes)
    requires path != [] && path[0] == SLASH && QUERY in path && LPAREN !in UNIX + [COLON] + path + tail
    ensures MySqlSplitAddr(AddressAndRest(UNIX + [COLON] + path + tail).0).0 != path
  {
    hide IndexByte, LastIndexByte, StripProtocol, IsUnixAddr, AddressAndRest, MySqlSplitAddr, AllDigits;
    var rest := UNIX + [COLON] + path + tail;
    assert rest == UNIX + [COLON] + (path + tail);
    UnixPrefix(path + tail);
    UnixAddressIs(rest);
    var q := IndexByte(path, QUERY);
    QueryInPath(path, tail, q);
    var before := rest[..5 + q];
    assert before[5] == SLASH by { assert q > 0 && rest[5] == path[0]; }
    var slash := LastIndexByte(before, SLASH);
    assert 5 <= slash < 5 + q;
    assert rest[..slash] == UNIX + [COLON] + path[..slash - 5];
    UnixPrefix(path[..slash - 5]);
    StrippedIs(rest[..slash], UNIX, path[..slash - 5]);
    if slash > 5 {
      assert path[..slash - 5][0] == SLASH;
      PathIsNoNumber(path[..slash - 5]);
    }
    HostIsNoLonger(path[..slash - 5]);
  }

  lemma QueryInPath(path: Bytes, tail: Bytes, q: nat)
    requires q < |path| && q == IndexByte(path, QUERY)
    ensures IndexByte(UNIX + [COLON] + path + tail, QUERY) == 5 + q
  {
    assert QUERY !in UNIX;
    hide IndexByte;
    var rest := UNIX + [COLON] + path + tail;
    assert forall j :: 0 <= j < q ==> path[j] != QUERY;
    assert forall j :: 5 <= j < 5 + |path| ==> rest[j] == path[j - 5];
    assert forall j :: 0 <= j < 4 ==> rest[j] == UNIX[j];
    FirstAt(rest, QUERY, 5 + q);
  }

  /** With a '/' in the database, only what is behind its last one is left of it. */
  lemma DbIsCut(path: Bytes, db: Bytes, params: Option<Bytes>)
    requires SLASH in db && QUERY !in db && QUERY !in path && LPAREN !in UNIX + [COLON] + path + DbPart(db, params)
    ensures MySqlDbName(AddressAndRest(UNIX + [COLON] + path + DbPart(db, params)).1) != db
  {
    hide *;
    var slash := AddressIntoDb(path, db, params);
    var front, tail := UNIX + [COLON] + path, DbPart(db, params);
    NameFrom(db, slash - |front| - 1, params);
    Behind(front, tail, slash - |front|);
  }

  lemma Behind(front: Bytes, tail: Bytes, k: nat)
    requires k <= |tail|
    ensures (front + tail)[|front| + k..] == tail[k..]
  {
  }

  lemma NameFrom(db: Bytes, k: nat, params: Option<Bytes>)
    requires k < |db| && db[k] == SLASH && QUERY !in db
    ensures k < |DbPart(db, params)| && MySqlDbName(DbPart(db, params)[k + 1..]) != db
  {
    var p := if params.Some? then [QUERY] + params.value else [];
    var left := db[k + 1..];
    assert DbPart(db, params)[k + 1..] == db[k..] + p;
    assert db[k..] == [SLASH] + left && [SLASH] + left + p == DbPart(left, params);
    assert forall b :: b in left ==> b in db;
    hide MySqlDbName, DbPart;
    DbNameIsRead(left, params);
  }

  lemma SocketIsRead(path: Bytes, db: Bytes, params: Option<Bytes>)
    requires path != [] && path[0] == SLASH && QUERY !in path && SLASH !in db && QUERY !in db
    requires LPAREN !in UNIX + [COLON] + path + DbPart(db, params)
    ensures AddressAndRest(UNIX + [COLON] + path + DbPart(db, params)) == (path, DbPart(db, params))
  {
    assert UNIX in PROTOCOLS;
    hide IndexByte, StripProtocol, IsUnixAddr, AddressAndRest, AllDigits, DbPart;
    UnixAddressIsRead(path, db, params);
    UnixPrefix(path);
    StrippedIs(UNIX + [COLON] + path, UNIX, path);
    PathIsNoNumber(path);
  }

  lemma PathIsNoNumber(path: Bytes)
    requires path != [] && path[0] == SLASH
    ensures !AllDigits(path)
  {
    assert path[0] in path;
  }

  /** Behind the socket's protocol word, the text in front of the parameters. */
  lemma BeforeQuery(what: Bytes, db: Bytes, params: Option<Bytes>)
    requires QUERY !in what && QUERY !in db
    ensures var addr := UNIX + [COLON] + what;
      var rest := addr + DbPart(db, params);
      var query := IndexByte(rest, QUERY);
      (if query >= 0 then rest[..query] else rest) == addr + [SLASH] + db
  {
    assert QUERY !in UNIX;
    hide IndexByte;
    var addr := UNIX + [COLON] + what;
    var rest, before := addr + DbPart(db, params), addr + [SLASH] + db;
    MembersOf3(UNIX, [COLON], what);
    MembersOf3(addr, [SLASH], db);
    if params.Some? {
      assert rest == before + [QUERY] + params.value;
      FirstIs(before, QUERY, params.value);
      assert rest[..|before|] == before;
    } else {
      assert rest == before;
    }
  }

  lemma LastSlash(what: Bytes, db: Bytes, params: Option<Bytes>)
    requires QUERY !in what && SLASH !in db && QUERY !in db
    ensures var addr := UNIX + [COLON] + what;
      var rest := addr + DbPart(db, params);
      var query := IndexByte(rest, QUERY);
      LastIndexByte(if query >= 0 then rest[..query] else rest, SLASH) == |addr|
  {
    hide IndexByte, LastIndexByte, DbPart;
    BeforeQuery(what, db, params);
    LastIs(UNIX + [COLON] + what, SLASH, db);
  }

  lemma LastSlashInDb(what: Bytes, db: Bytes, params: Option<Bytes>) returns (slash: nat)
    requires QUERY !in what && SLASH in db && QUERY !in db
    ensures var addr := UNIX + [COLON] + what;
      var rest := addr + DbPart(db, params);
      var query := IndexByte(rest, QUERY);
      && slash == LastIndexByte(if query >= 0 then rest[..query] else rest, SLASH)
      && |addr| < slash <= |addr| + |db| && slash < |rest| && db[slash - |addr| - 1] == SLASH
  {
    BeforeQuery(what, db, params);
    hide *;
    var addr := UNIX + [COLON] + what;
    slash := LastOfTwo(addr, db);
  }

  lemma LastOfTwo(addr: Bytes, db: Bytes) returns (slash: nat)
    requires SLASH in db
    ensures slash == LastIndexByte(addr + [SLASH] + db, SLASH)
    ensures |addr| < slash <= |addr| + |db| && db[slash - |addr| - 1] == SLASH
  {
    hide LastIndexByte;
    var before := addr + [SLASH] + db;
    var k :| 0 <= k < |db| && db[k] == SLASH;
    assert before[|addr| + 1..] == db;
    assert before[|addr| + 1 + k] == db[k];
    slash := LastIndexByte(before, SLASH);
    assert before[slash] == before[|addr| + 1..][slash - |addr| - 1];
  }
}
