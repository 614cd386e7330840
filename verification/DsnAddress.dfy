/** The host and port of a data source name: the endpoint they are joined to, its splitting, and
    the splitters of the MySQL and Oracle dialects. */
module DsnAddress {
  import opened Common
  import opened Utf8
  import opened GoBytes

  const COLON: byte := 0x3A
  const SLASH: byte := 0x2F
  const LBRACKET: byte := 0x5B
  const RBRACKET: byte := 0x5D

  /** "3306" and "1521" */
  const MYSQL_PORT: Bytes := [0x33, 0x33, 0x30, 0x36]
  const ORACLE_PORT: Bytes := [0x31, 0x35, 0x32, 0x31]
  /** "localhost" */
  const LOCALHOST: Bytes := [0x6C, 0x6F, 0x63, 0x61, 0x6C, 0x68, 0x6F, 0x73, 0x74]

  datatype Info = Info(host: Bytes, port: Bytes, dbName: Bytes)

  // ---- host and port ----

  function TrimHostBrackets(host: Bytes): Bytes {
    if |host| > 1 && host[0] == LBRACKET && host[|host| - 1] == RBRACKET then host[1..|host| - 1] else host
  }

  /** `net.JoinHostPort` */
  function JoinHostPort(host: Bytes, port: Bytes): Bytes {
    if COLON in host then [LBRACKET] + host + [RBRACKET, COLON] + port else host + [COLON] + port
  }

  /** `net.SplitHostPort`; None stands for its errors. */
  function SplitHostPort(s: Bytes): Option<(Bytes, Bytes)> {
    var colon := LastIndexByte(s, COLON);
    if colon < 0 then None
    else if s[0] == LBRACKET then
      var end := IndexByte(s, RBRACKET);
      if end < 0 || end + 1 != colon then None
      else if LBRACKET in s[1..] || RBRACKET in s[end + 1..] then None
      else Some((s[1..end], s[colon + 1..]))
    else if COLON in s[..colon] || LBRACKET in s || RBRACKET in s then None
    else Some((s[..colon], s[colon + 1..]))
  }

  /** `DSNInfo.Addr` */
  function Addr(info: Info): Bytes {
    var host := TrimHostBrackets(info.host);
    if host == [] then []
    else if info.port == [] then host
    else JoinHostPort(host, info.port)
  }

  /** `server.address` as the span attributes report it, and the port text when there is one. */
  function ServerOf(endpoint: Bytes): (Bytes, Option<Bytes>) {
    match SplitHostPort(endpoint)
    case None => (endpoint, None)
    case Some((host, port)) => (host, Some(port))
  }

  predicate BracketFree(s: Bytes) { LBRACKET !in s && RBRACKET !in s }

  lemma MembersOf3(a: Bytes, b: Bytes, c: Bytes)
    ensures forall x :: x in a + b + c <==> x in a || x in b || x in c
  {
  }

  /** A host and a port joined by a colon, the host in brackets or without a colon of its own. */
  predicate IsJoined(s: Bytes, host: Bytes, port: Bytes) {
    && BracketFree(host) && BracketFree(port) && COLON !in port
    && (s == [LBRACKET] + host + [RBRACKET, COLON] + port || (COLON !in host && s == host + [COLON] + port))
  }

  /** Exactly such texts are split, and into exactly these parts. */
  lemma SplitIffJoined(s: Bytes, host: Bytes, port: Bytes)
    ensures SplitHostPort(s) == Some((host, port)) <==> IsJoined(s, host, port)
  {
    if IsJoined(s, host, port) { JoinedIsSplit(s, host, port); }
    if SplitHostPort(s) == Some((host, port)) { SplitIsJoined(s, host, port); }
  }

  lemma JoinedIsSplit(s: Bytes, host: Bytes, port: Bytes)
    requires IsJoined(s, host, port)
    ensures SplitHostPort(s) == Some((host, port))
  {
    hide IndexByte, LastIndexByte;
    if s == [LBRACKET] + host + [RBRACKET, COLON] + port {
      BracketsSplit(s, host, port);
    } else {
      LastIs(host, COLON, port);
      MembersOf3(host, [COLON], port);
      assert s[..|host|] == host && s[|host| + 1..] == port;
      assert host != [] ==> s[0] == host[0] && host[0] in host;
    }
  }

  lemma BracketsSplit(s: Bytes, host: Bytes, port: Bytes)
    requires BracketFree(host) && BracketFree(port) && COLON !in port && s == [LBRACKET] + host + [RBRACKET, COLON] + port
    ensures SplitHostPort(s) == Some((host, port))
  {
    hide IndexByte, LastIndexByte;
    var front := [LBRACKET] + host;
    assert s == front + [RBRACKET] + ([COLON] + port);
    assert s == (front + [RBRACKET]) + [COLON] + port;
    FirstIs(front, RBRACKET, [COLON] + port);
    LastIs(front + [RBRACKET], COLON, port);
    assert s[1..] == host + [RBRACKET, COLON] + port;
    assert s[1..|front|] == host && s[|front| + 2..] == port && s[|front| + 1..] == [COLON] + port;
  }

  lemma PartMembers(s: Bytes, i: nat, j: nat, part: Bytes)
    requires i <= j <= |s| && part == s[i..j]
    ensures forall x :: x in part ==> exists k :: i <= k < j && s[k] == x
  {
    forall x | x in part
      ensures exists k :: i <= k < j && s[k] == x
    {
      var m :| 0 <= m < |part| && part[m] == x;
      assert s[i + m] == x;
    }
  }

  lemma BracketsJoined(s: Bytes, end: nat, colon: nat)
    requires 0 < end < |s| && colon == end + 1 < |s| && s[0] == LBRACKET && s[end] == RBRACKET && s[colon] == COLON
    requires forall j :: 0 <= j < end ==> s[j] != RBRACKET
    requires forall j :: end < j < |s| ==> s[j] != RBRACKET
    requires forall j :: 0 < j < |s| ==> s[j] != LBRACKET
    requires forall j :: colon < j < |s| ==> s[j] != COLON
    ensures IsJoined(s, s[1..end], s[colon + 1..])
  {
    PartMembers(s, 1, end, s[1..end]);
    PartMembers(s, colon + 1, |s|, s[colon + 1..]);
    assert s == [LBRACKET] + s[1..end] + [RBRACKET, COLON] + s[colon + 1..];
  }

  lemma PlainJoined(s: Bytes, colon: nat)
    requires colon < |s| && s[colon] == COLON && BracketFree(s)
    requires forall j :: 0 <= j < |s| && j != colon ==> s[j] != COLON
    ensures IsJoined(s, s[..colon], s[colon + 1..])
  {
    PartMembers(s, 0, colon, s[..colon]);
    PartMembers(s, colon + 1, |s|, s[colon + 1..]);
    assert s == s[..colon] + [COLON] + s[colon + 1..];
  }

  lemma SplitIsJoined(s: Bytes, host: Bytes, port: Bytes)
    requires SplitHostPort(s) == Some((host, port))
    ensures IsJoined(s, host, port)
  {
    hide IndexByte, LastIndexByte, IsJoined;
    var colon := LastIndexByte(s, COLON);
    if s[0] == LBRACKET {
      var end := IndexByte(s, RBRACKET);
      assert forall j :: 0 < j < |s| ==> s[j] == s[1..][j - 1];
      assert forall j :: end < j < |s| ==> s[j] == s[end + 1..][j - end - 1];
      BracketsJoined(s, end, colon);
    } else {
      assert forall j :: 0 <= j < colon ==> s[j] == s[..colon][j];
      PlainJoined(s, colon);
    }
  }

  /** Splitting a joined pair gives the pair back exactly when the host holds no bracket,
      and the port neither a bracket nor a colon. */
  lemma JoinSplitIff(host: Bytes, port: Bytes)
    ensures SplitHostPort(JoinHostPort(host, port)) == Some((host, port)) <==> BracketFree(host) && BracketFree(port) && COLON !in port
  {
    hide SplitHostPort;
    SplitIffJoined(JoinHostPort(host, port), host, port);
  }

  /** The endpoint of a parsed name reports its host and port again exactly when the pair
      can be told apart; a bracketed host is stored bare first. */
  lemma AddrRoundTripIff(info: Info)
    requires TrimHostBrackets(info.host) != [] && info.port != []
    ensures var host := TrimHostBrackets(info.host);
      ServerOf(Addr(info)) == (host, Some(info.port)) <==> BracketFree(host) && BracketFree(info.port) && COLON !in info.port
  {
    JoinSplitIff(TrimHostBrackets(info.host), info.port);
  }

  /** Without a port the whole endpoint is reported as the host, except when it looks like a host
      and a port joined, as no IPv6 literal does. */
  lemma HostAloneIff(info: Info)
    requires info.port == [] && TrimHostBrackets(info.host) != []
    ensures var host := TrimHostBrackets(info.host);
      ServerOf(Addr(info)) == (host, None) <==> forall h, p :: !IsJoined(host, h, p)
  {
    hide SplitHostPort, IsJoined;
    var host := TrimHostBrackets(info.host);
    forall h, p
      ensures SplitHostPort(host) == Some((h, p)) <==> IsJoined(host, h, p)
    {
      SplitIffJoined(host, h, p);
    }
    if SplitHostPort(host).Some? {
      var (h, p) := SplitHostPort(host).value;
      assert IsJoined(host, h, p);
    }
  }

  // ---- MySQL and Oracle addresses ----

  /** Splits at the colon behind the brackets, or at the last colon. */
  function SplitColon(addr: Bytes, port: Bytes): (Bytes, Bytes)
    requires addr != []
  {
    var close, colon := LastIndexByte(addr, RBRACKET), LastIndexByte(addr, COLON);
    if addr[0] == LBRACKET && close >= 0 then
      var rest := addr[close + 1..];
      (addr[1..close], if rest != [] && rest[0] == COLON then rest[1..] else port)
    else if colon >= 0 then (addr[..colon], addr[colon + 1..])
    else (addr, port)
  }

  /** `mysqlSplitAddr`: a path without a colon is a socket, which has no port. */
  function MySqlSplitAddr(addr: Bytes): (Bytes, Bytes) {
    if addr == [] then ([], [])
    else if !(addr[0] == LBRACKET && RBRACKET in addr) && COLON !in addr && SLASH in addr then (addr, [])
    else SplitColon(addr, MYSQL_PORT)
  }

  /** `oracleSplitHostPort` */
  function OracleSplitHostPort(addr: Bytes): (Bytes, Bytes) {
    if addr == [] then ([], ORACLE_PORT) else SplitColon(addr, ORACLE_PORT)
  }

  lemma SplitColonInvertsJoinIff(host: Bytes, port: Bytes, otherwise: Bytes)
    requires host != [] && BracketFree(host) && RBRACKET !in port
    ensures JoinHostPort(host, port) != []
    ensures SplitColon(JoinHostPort(host, port), otherwise) == (host, port) <==> COLON in host || COLON !in port
  {
    hide IndexByte, LastIndexByte;
    var s := JoinHostPort(host, port);
    if COLON in host {
      var front := [LBRACKET] + host;
      assert s == front + [RBRACKET] + ([COLON] + port);
      LastIs(front, RBRACKET, [COLON] + port);
      assert s[|front| + 1..] == [COLON] + port && s[1..|front|] == host;
    } else {
      MembersOf3(host, [COLON], port);
      assert s[0] == host[0] && host[0] in host && s[|host|] == COLON;
      if COLON !in port {
        LastIs(host, COLON, port);
        assert s[..|host|] == host && s[|host| + 1..] == port;
      } else {
        var k :| 0 <= k < |port| && port[k] == COLON;
        assert s[|host| + 1 + k] == COLON;
      }
    }
  }

  /** Both dialects read a joined host and port back, an IPv6 host included, exactly when the
      colon that separates them can be told: the host is bracketed or the port holds none. */
  lemma DialectsInvertJoinIff(host: Bytes, port: Bytes)
    requires host != [] && BracketFree(host) && RBRACKET !in port
    ensures MySqlSplitAddr(JoinHostPort(host, port)) == (host, port) <==> COLON in host || COLON !in port
    ensures OracleSplitHostPort(JoinHostPort(host, port)) == (host, port) <==> COLON in host || COLON !in port
  {
    hide IndexByte, LastIndexByte, SplitColon;
    var s := JoinHostPort(host, port);
    SplitColonInvertsJoinIff(host, port, MYSQL_PORT);
    SplitColonInvertsJoinIff(host, port, ORACLE_PORT);
    assert COLON in s by {
      if COLON in host { assert s[|host| + 2] == COLON; } else { assert s[|host|] == COLON; }
    }
  }

  lemma SplitBrackets(host: Bytes, port: Bytes)
    requires BracketFree(host)
    ensures SplitColon([LBRACKET] + host + [RBRACKET], port) == (host, port)
  {
    hide IndexByte, LastIndexByte;
    var front := [LBRACKET] + host;
    var s := front + [RBRACKET];
    assert s == front + [RBRACKET] + [];
    LastIs(front, RBRACKET, []);
    assert s[1..|front|] == host && s[|front| + 1..] == [];
  }

  /** Without a port the dialect's own is taken, except for a MySQL socket path. */
  lemma DefaultPorts(host: Bytes)
    requires host != [] && BracketFree(host)
    ensures COLON !in host ==> MySqlSplitAddr(host) == (host, if SLASH in host then [] else MYSQL_PORT)
    ensures COLON !in host ==> OracleSplitHostPort(host) == (host, ORACLE_PORT)
    ensures MySqlSplitAddr([LBRACKET] + host + [RBRACKET]) == (host, MYSQL_PORT)
    ensures OracleSplitHostPort([LBRACKET] + host + [RBRACKET]) == (host, ORACLE_PORT)
  {
    assert host[0] in host;
    assert COLON !in host ==> SplitColon(host, MYSQL_PORT) == (host, MYSQL_PORT) && SplitColon(host, ORACLE_PORT) == (host, ORACLE_PORT);
    hide SplitColon, IndexByte, LastIndexByte;
    SplitBrackets(host, MYSQL_PORT);
    SplitBrackets(host, ORACLE_PORT);
    var s := [LBRACKET] + host + [RBRACKET];
    assert s[|host| + 1] == RBRACKET && s[0] == LBRACKET;
  }
}
