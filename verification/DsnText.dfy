/** Data source names and endpoints, stated on their bytes. */
module DsnText {
  import opened Common
  import opened Utf8
  import opened GoBytes
  import opened DsnAddress
  import opened DsnMySql

  // ---- endpoints ----

  lemma BracketsAreTrimmed(host: Bytes)
    ensures TrimHostBrackets([0x5B] + host + [0x5D]) == host
    ensures |host| <= 1 || host[0] != 0x5B || host[|host| - 1] != 0x5D ==> TrimHostBrackets(host) == host
  {
    var s := [0x5B] + host + [0x5D];
    assert s[1..|s| - 1] == host;
  }

  /** The endpoint of a host, stored in brackets or bare, and a port: the two with a colon between
      them, the host in brackets when it holds a colon itself; the bare host when there is no port,
      and nothing without a host. */
  lemma EndpointLooks(host: Bytes, port: Bytes, db: Bytes)
    requires |host| <= 1 || host[0] != 0x5B || host[|host| - 1] != 0x5D
    ensures Addr(Info([0x5B] + host + [0x5D], port, db)) == Addr(Info(host, port, db))
    ensures Addr(Info(host, port, db)) ==
      if host == [] then []
      else if port == [] then host
      else if 0x3A in host then [0x5B] + host + [0x5D, 0x3A] + port
      else host + [0x3A] + port
  {
    BracketsAreTrimmed(host);
    hide TrimHostBrackets;
  }

  /** Such an endpoint is reported as that host and that port. */
  lemma EndpointIsSplit(host: Bytes, port: Bytes)
    requires 0x5B !in host && 0x5D !in host && 0x5B !in port && 0x5D !in port && 0x3A !in port
    ensures ServerOf([0x5B] + host + [0x5D, 0x3A] + port) == (host, Some(port))
    ensures 0x3A !in host ==> ServerOf(host + [0x3A] + port) == (host, Some(port))
  {
    hide SplitHostPort;
    SplitIffJoined([0x5B] + host + [0x5D, 0x3A] + port, host, port);
    SplitIffJoined(host + [0x3A] + port, host, port);
  }

  // ---- MySQL ----

  /** The database name is what follows the address, without one '/' in front and up to the first '?'. */
  lemma DatabaseLooks(name: Bytes, params: Bytes)
    requires 0x3F !in name
    ensures MySqlDbName([0x2F] + name) == name && MySqlDbName([0x2F] + (name + [0x3F] + params)) == name
    ensures name == [] || name[0] != 0x2F ==> MySqlDbName(name) == name && MySqlDbName(name + [0x3F] + params) == name
  {
    hide IndexByte;
    var s := name + [0x3F] + params;
    FirstIs(name, QUERY, params);
    assert s[..|name|] == name && ([0x2F] + s)[1..] == s && ([0x2F] + name)[1..] == name;
    assert s != [] && (name != [] ==> s[0] == name[0]);
  }

  /** How both dialects split an address: what the first '[' and the last ']' enclose is the host,
      and a colon right behind them is followed by the port; in any other address the last colon
      separates host and port. Without one, the port is the dialect's own. */
  lemma ColonLooks(host: Bytes, port: Bytes, rest: Bytes, otherwise: Bytes)
    ensures 0x5D !in port ==> SplitColon([0x5B] + host + [0x5D, 0x3A] + port, otherwise) == (host, port)
    ensures 0x5D !in rest && (rest == [] || rest[0] != 0x3A) ==>
              SplitColon([0x5B] + host + [0x5D] + rest, otherwise) == (host, otherwise)
    ensures 0x3A !in port && (host == [] || host[0] != 0x5B || 0x5D !in host + port) ==>
              SplitColon(host + [0x3A] + port, otherwise) == (host, port)
    ensures host != [] && 0x3A !in host && (host[0] != 0x5B || 0x5D !in host) ==> SplitColon(host, otherwise) == (host, otherwise)
  {
    hide IndexByte, LastIndexByte;
    if 0x5D !in port { BracketedLooks(host, [0x3A] + port, otherwise); }
    if 0x5D !in rest { BracketedLooks(host, rest, otherwise); }
    assert [0x5B] + host + [0x5D] + ([0x3A] + port) == [0x5B] + host + [0x5D, 0x3A] + port;
    assert ([0x3A] + port)[1..] == port;
    if 0x3A !in port && (host == [] || host[0] != 0x5B || 0x5D !in host + port) { LastColonLooks(host, port, otherwise); }
  }

  lemma BracketedLooks(host: Bytes, rest: Bytes, otherwise: Bytes)
    requires 0x5D !in rest
    ensures SplitColon([0x5B] + host + [0x5D] + rest, otherwise) == (host, if rest != [] && rest[0] == 0x3A then rest[1..] else otherwise)
  {
    hide IndexByte, LastIndexByte;
    var front := [0x5B] + host;
    var s := front + [0x5D] + rest;
    LastIs(front, 0x5D, rest);
    assert s[1..|front|] == host && s[|front| + 1..] == rest;
  }

  lemma LastColonLooks(host: Bytes, port: Bytes, otherwise: Bytes)
    requires 0x3A !in port && (host == [] || host[0] != 0x5B || 0x5D !in host + port)
    ensures SplitColon(host + [0x3A] + port, otherwise) == (host, port)
  {
    hide IndexByte, LastIndexByte;
    var s := host + [0x3A] + port;
    LastIs(host, 0x3A, port);
    MembersOf3(host, [0x3A], port);
    assert forall x :: x in host + port <==> x in host || x in port;
    assert s[0] == if host == [] then 0x3A else host[0];
    assert s[..|host|] == host && s[|host| + 1..] == port;
  }

  /** A MySQL address is split so, with port 3306, except that a path without a colon is a socket,
      which has no port; an Oracle address with port 1521. */
  lemma AddressLooks(addr: Bytes)
    ensures MySqlSplitAddr([]) == ([], []) && OracleSplitHostPort([]) == ([], [0x31, 0x35, 0x32, 0x31])
    ensures addr != [] ==> OracleSplitHostPort(addr) == SplitColon(addr, [0x31, 0x35, 0x32, 0x31])
    ensures addr != [] && (addr[0] != 0x5B || 0x5D !in addr) && 0x3A !in addr && 0x2F in addr ==> MySqlSplitAddr(addr) == (addr, [])
    ensures addr != [] && !((addr[0] != 0x5B || 0x5D !in addr) && 0x3A !in addr && 0x2F in addr) ==>
              MySqlSplitAddr(addr) == SplitColon(addr, [0x33, 0x33, 0x30, 0x36])
  {
    hide SplitColon;
  }

  /** Hosts and ports as they are usually written. */
  lemma HostLooks(host: Bytes, port: Bytes)
    requires host != [] && 0x5B !in host && 0x5D !in host && 0x5D !in port && 0x3A !in port
    ensures MySqlSplitAddr([0x5B] + host + [0x5D, 0x3A] + port) == (host, port)
    ensures MySqlSplitAddr([0x5B] + host + [0x5D]) == (host, [0x33, 0x33, 0x30, 0x36])
    ensures 0x3A !in host ==> MySqlSplitAddr(host + [0x3A] + port) == (host, port)
    ensures 0x3A !in host && 0x2F !in host ==> MySqlSplitAddr(host) == (host, [0x33, 0x33, 0x30, 0x36])
    ensures 0x3A !in host && 0x2F in host ==> MySqlSplitAddr(host) == (host, [])
  {
    ColonLooks(host, port, [], [0x33, 0x33, 0x30, 0x36]);
    AddressLooks([0x5B] + host + [0x5D, 0x3A] + port);
    AddressLooks([0x5B] + host + [0x5D]);
    AddressLooks(host + [0x3A] + port);
    AddressLooks(host);
    assert host[0] in host && [0x5B] + host + [0x5D] + [] == [0x5B] + host + [0x5D];
    HoldsColon(host, port);
    hide SplitColon, IndexByte, LastIndexByte, MySqlSplitAddr;
  }

  lemma HoldsColon(host: Bytes, port: Bytes)
    ensures var s := [0x5B] + host + [0x5D, 0x3A] + port; s[0] == 0x5B && 0x5D in s
    ensures var s := [0x5B] + host + [0x5D]; s[0] == 0x5B && 0x5D in s
    ensures 0x3A in host + [0x3A] + port
  {
    var a, b, c := [0x5B] + host + [0x5D, 0x3A] + port, [0x5B] + host + [0x5D], host + [0x3A] + port;
    assert a[|host| + 1] == 0x5D && b[|host| + 1] == 0x5D && c[|host|] == 0x3A;
  }

  /** A name with its address in parentheses, whatever credentials and protocol stand in front. */
  lemma NameLooks(front: Bytes, host: Bytes, port: Bytes, db: Bytes, params: Bytes)
    requires 0x28 !in front && 0x3F !in db && host != []
    requires 0x5B !in host && 0x5D !in host && 0x29 !in host && 0x5D !in port && 0x3A !in port && 0x29 !in port
    ensures MySqlInfo(front + [0x28] + ([0x5B] + host + [0x5D, 0x3A] + port + [0x29] + ([0x2F] + (db + [0x3F] + params))))
         == Info(host, port, db)
    ensures 0x3A !in host ==>
      MySqlInfo(front + [0x28] + (host + [0x3A] + port + [0x29] + ([0x2F] + (db + [0x3F] + params)))) == Info(host, port, db)
    ensures 0x3A !in host && 0x2F !in host ==>
      MySqlInfo(front + [0x28] + (host + [0x29] + ([0x2F] + db))) == Info(host, [0x33, 0x33, 0x30, 0x36], db)
    ensures 0x3A !in host && 0x2F in host ==> MySqlInfo(front + [0x28] + (host + [0x29] + ([0x2F] + db))) == Info(host, [], db)
    ensures MySqlInfo(front + [0x28] + host) == Info([], [], [])
  {
    var tail := [0x2F] + (db + [0x3F] + params);
    assert 0x29 !in [0x5B] + host + [0x5D, 0x3A] + port;
    assert 0x29 !in host + [0x3A] + port by { MembersOf3(host, [0x3A], port); }
    DatabaseLooks(db, params);
    HostLooks(host, port);
    hide *;
    ParenthesisCounts(front, [0x5B] + host + [0x5D, 0x3A] + port, tail);
    ParenthesisCounts(front, host + [0x3A] + port, tail);
    ParenthesisCounts(front, host, [0x2F] + db);
    OpenParenthesisReadsNothing(front, host);
  }

  /** "tcp", "unix", "udp" and "pipe" */
  predicate IsWord(word: Bytes) {
    word in [[0x74, 0x63, 0x70], [0x75, 0x6E, 0x69, 0x78], [0x75, 0x64, 0x70], [0x70, 0x69, 0x70, 0x65]]
  }

  /** A protocol word and its colon are taken off, and a number behind them stands for that port on
      "localhost"; any other text in front of the first colon stays. */
  lemma ProtocolLooks(word: Bytes, rest: Bytes)
    requires 0x3A !in word
    ensures StripProtocol(word) == word
    ensures StripProtocol(word + [0x3A] + rest) ==
      if !IsWord(word) then word + [0x3A] + rest
      else if rest != [] && (forall b :: b in rest ==> 0x30 <= b <= 0x39)
      then [0x6C, 0x6F, 0x63, 0x61, 0x6C, 0x68, 0x6F, 0x73, 0x74, 0x3A] + rest
      else rest
  {
    hide IndexByte;
    var addr := word + [0x3A] + rest;
    FirstIs(word, COLON, rest);
    assert addr[..|word|] == word && addr[|word| + 1..] == rest;
    assert LOCALHOST + [COLON] == [0x6C, 0x6F, 0x63, 0x61, 0x6C, 0x68, 0x6F, 0x73, 0x74, 0x3A];
  }

  /** In a name without a '(' the address ends at the first '/' and the database follows. */
  lemma PlainAddressLooks(addr: Bytes, tail: Bytes)
    requires 0x28 !in addr && 0x28 !in tail && 0x2F !in addr && !([0x75, 0x6E, 0x69, 0x78, 0x3A] <= addr)
    ensures AddressAndRest(addr + ([0x2F] + tail)) == (StripProtocol(addr), [0x2F] + tail)
    ensures AddressAndRest(addr) == (StripProtocol(addr), [])
  {
    var rest := addr + ([0x2F] + tail);
    assert 0x28 !in rest by { MembersOf3(addr, [0x2F], tail); assert addr + [0x2F] + tail == rest; }
    NotSocket(addr, [0x2F] + tail);
    NotSocket(addr, []);
    assert addr + [] == addr;
    assert rest == addr + [SLASH] + tail;
    FirstIs(addr, SLASH, tail);
    assert rest[..|addr|] == addr && rest[|addr|..] == [0x2F] + tail;
    hide IndexByte, LastIndexByte, StripProtocol, IsUnixAddr;
  }

  lemma SocketStarts(s: Bytes)
    ensures IsUnixAddr(s) <==> [0x75, 0x6E, 0x69, 0x78, 0x3A] <= s
  {
    hide IndexByte;
    var word: Bytes := [0x75, 0x6E, 0x69, 0x78, 0x3A];
    assert word == UNIX + [COLON];
    if word <= s {
      assert s == UNIX + [COLON] + s[5..];
      FirstIs(UNIX, COLON, s[5..]);
      assert s[..4] == UNIX;
    }
    if IsUnixAddr(s) {
      var colon := IndexByte(s, COLON);
      assert s == s[..colon] + [COLON] + s[colon + 1..];
    }
  }

  lemma PrefixInFront(word: Bytes, front: Bytes, back: Bytes)
    requires back == [] || back[0] !in word
    ensures word <= front + back <==> word <= front
  {
    var s := front + back;
    assert back != [] ==> s[|front|] == back[0];
    assert |front| < |word| ==> word[|front|] in word;
  }

  lemma NotSocket(addr: Bytes, tail: Bytes)
    requires !([0x75, 0x6E, 0x69, 0x78, 0x3A] <= addr) && (tail == [] || tail[0] == 0x2F)
    ensures !IsUnixAddr(addr + tail)
  {
    SocketStarts(addr + tail);
    PrefixInFront([0x75, 0x6E, 0x69, 0x78, 0x3A], addr, tail);
    hide IsUnixAddr;
  }

  /** With "unix:" in front, it ends at the last '/' before the first '?'. */
  lemma SocketAddressLooks(path: Bytes, db: Bytes, params: Bytes)
    requires 0x28 !in path && 0x28 !in db && 0x28 !in params && 0x3F !in path && 0x3F !in db && 0x2F !in db
    ensures AddressAndRest([0x75, 0x6E, 0x69, 0x78, 0x3A] + path + ([0x2F] + (db + [0x3F] + params)))
         == (StripProtocol([0x75, 0x6E, 0x69, 0x78, 0x3A] + path), [0x2F] + (db + [0x3F] + params))
  {
    assert UNIX + [COLON] == [0x75, 0x6E, 0x69, 0x78, 0x3A];
    assert DbPart(db, Some(params)) == [0x2F] + (db + [0x3F] + params);
    assert 0x28 !in UNIX + [COLON] + path + DbPart(db, Some(params)) by {
      MembersOf3(db, [0x3F], params);
      MembersOf3(UNIX + [COLON] + path, [0x2F], db + [0x3F] + params);
      MembersOf3(UNIX, [COLON], path);
      assert UNIX + [COLON] + path + DbPart(db, Some(params)) == UNIX + [COLON] + path + [0x2F] + (db + [0x3F] + params);
    }
    hide *;
    UnixAddressIsRead(path, db, Some(params));
  }

  /** In a name without a '(' everything up to the last '@' is dropped; what follows is the address
      and the database. */
  lemma PlainNameLooks(front: Bytes, rest: Bytes)
    requires 0x28 !in front && 0x28 !in rest && 0x40 !in rest
    ensures MySqlInfo(front + [0x40] + rest) == MySqlInfo(rest)
    ensures MySqlInfo(rest)
         == Info(MySqlSplitAddr(AddressAndRest(rest).0).0, MySqlSplitAddr(AddressAndRest(rest).0).1, MySqlDbName(AddressAndRest(rest).1))
  {
    assert Plain(rest);
    hide *;
    LastAtCuts(front, rest);
    PlainIsRead(rest);
  }

  /** Host, port and database of such a name. */
  lemma PlainHostLooks(front: Bytes, host: Bytes, port: Bytes, db: Bytes)
    requires 0x28 !in front && 0x3F !in db
    requires 0x28 !in host && 0x40 !in host && 0x28 !in port && 0x40 !in port && 0x28 !in db && 0x40 !in db
    requires host != [] && 0x5B !in host && 0x5D !in host && 0x3A !in host && 0x2F !in host && !IsWord(host)
    requires 0x5D !in port && 0x3A !in port && 0x2F !in port
    ensures MySqlInfo(front + [0x40] + (host + [0x3A] + port + ([0x2F] + db))) == Info(host, port, db)
    ensures MySqlInfo(front + [0x40] + (host + ([0x2F] + db))) == Info(host, [0x33, 0x33, 0x30, 0x36], db)
  {
    WithoutBytes(host, port, db);
    NoSocketHost(host, port);
    DatabaseLooks(db, []);
    HostLooks(host, port);
    ProtocolLooks(host, port);
    hide *;
    PlainNameLooks(front, host + [0x3A] + port + ([0x2F] + db));
    PlainNameLooks(front, host + ([0x2F] + db));
    PlainAddressLooks(host + [0x3A] + port, db);
    PlainAddressLooks(host, db);
  }

  lemma WithoutBytes(host: Bytes, port: Bytes, db: Bytes)
    ensures forall x :: x in host + [0x3A] + port <==> x in host || x == 0x3A || x in port
    ensures forall x :: x in host + [0x3A] + port + ([0x2F] + db) <==> x in host || x == 0x3A || x in port || x == 0x2F || x in db
    ensures forall x :: x in host + ([0x2F] + db) <==> x in host || x == 0x2F || x in db
  {
    MembersOf3(host, [0x3A], port);
    MembersOf3(host + [0x3A] + port, [0x2F], db);
    MembersOf3(host, [0x2F], db);
    assert host + [0x3A] + port + ([0x2F] + db) == host + [0x3A] + port + [0x2F] + db;
    assert host + ([0x2F] + db) == host + [0x2F] + db;
  }

  lemma SameWord(word: Bytes, host: Bytes, port: Bytes)
    requires 0x3A !in host && 0x3A !in word && word + [0x3A] <= host + [0x3A] + port
    ensures word == host
  {
    hide IndexByte;
    var s := host + [0x3A] + port;
    FirstIs(host, 0x3A, port);
    assert s == word + [0x3A] + s[|word| + 1..];
    FirstIs(word, 0x3A, s[|word| + 1..]);
    assert s[..|host|] == host && s[..|word|] == word;
  }

  lemma NoSocketHost(host: Bytes, port: Bytes)
    requires 0x3A !in host && !IsWord(host)
    ensures !([0x75, 0x6E, 0x69, 0x78, 0x3A] <= host) && !([0x75, 0x6E, 0x69, 0x78, 0x3A] <= host + [0x3A] + port)
  {
    var word: Bytes := [0x75, 0x6E, 0x69, 0x78];
    var start: Bytes := [0x75, 0x6E, 0x69, 0x78, 0x3A];
    assert word + [0x3A] == start && start[4] == 0x3A;
    if start <= host + [0x3A] + port { SameWord(word, host, port); }
    assert |host| > 4 ==> host[4] in host;
  }
}
