/** libpq names, stated on their bytes: what one setting is, and what is read of it. */
module LibpqText {
  import opened Common
  import opened Utf8
  import opened GoBytes
  import opened DsnAddress
  import opened DsnLibpq

  // ---- quoted values ----

  /** A byte of a quoted value as it is written: itself, when it is neither quote nor backslash, or
      any byte behind a backslash. */
  datatype Written = AsIs(b: byte) | Escaped(b: byte)

  function Text(body: seq<Written>): Bytes {
    if body == [] then []
    else (if body[0].Escaped? then [0x5C, body[0].b] else [body[0].b]) + Text(body[1..])
  }

  function Meaning(body: seq<Written>): (r: Bytes)
    ensures |r| == |body| && forall i :: 0 <= i < |r| ==> r[i] == body[i].b
  {
    seq(|body|, i requires 0 <= i < |body| => body[i].b)
  }

  ghost predicate WellWritten(body: seq<Written>) {
    forall i :: 0 <= i < |body| && body[i].AsIs? ==> body[i].b != 0x27 && body[i].b != 0x5C
  }

  /** Each written byte is read as the byte it stands for. */
  lemma {:induction false} BodyIsRead(body: seq<Written>, behind: Bytes)
    requires WellWritten(body)
    ensures ReadQuoted(Text(body) + behind) == (Meaning(body) + ReadQuoted(behind).0, ReadQuoted(behind).1)
  {
    hide ReadQuoted;
    if body == [] {
      assert Text(body) + behind == behind && Meaning(body) + ReadQuoted(behind).0 == ReadQuoted(behind).0;
    } else {
      var w, rest := body[0], body[1..];
      BodyIsRead(rest, behind);
      FirstWritten(body);
      hide *;
      WrittenIsRead(w, Text(rest) + behind);
      Grouped(if w.Escaped? then [0x5C, w.b] else [w.b], Text(rest), behind);
      Grouped([w.b], Meaning(rest), ReadQuoted(behind).0);
    }
  }

  lemma FirstWritten(body: seq<Written>)
    requires body != []
    ensures Text(body) == (if body[0].Escaped? then [0x5C, body[0].b] else [body[0].b]) + Text(body[1..])
    ensures Meaning(body) == [body[0].b] + Meaning(body[1..])
    ensures WellWritten(body) ==> WellWritten(body[1..]) && (body[0].AsIs? ==> body[0].b != 0x27 && body[0].b != 0x5C)
  {
  }

  lemma Grouped(a: Bytes, b: Bytes, c: Bytes)
    ensures (a + b) + c == a + (b + c)
  {
  }

  lemma WrittenIsRead(w: Written, more: Bytes)
    requires w.AsIs? ==> w.b != 0x27 && w.b != 0x5C
    ensures ReadQuoted((if w.Escaped? then [0x5C, w.b] else [w.b]) + more) == ([w.b] + ReadQuoted(more).0, ReadQuoted(more).1)
  {
    var s := (if w.Escaped? then [0x5C, w.b] else [w.b]) + more;
    if w.Escaped? {
      assert s[0] == 0x5C && s[1] == w.b && s[2..] == more;
    } else {
      assert s[0] == w.b && s[1..] == more;
    }
  }

  /** A quoted value ends at the first quote that is not escaped, and what follows is left; without
      one it is all of the text, and a backslash at its very end stands for itself. */
  lemma QuotedLooks(body: seq<Written>, behind: Bytes)
    requires WellWritten(body)
    ensures ReadQuoted(Text(body) + ([0x27] + behind)) == (Meaning(body), behind)
    ensures ReadQuoted(Text(body)) == (Meaning(body), [])
    ensures ReadQuoted(Text(body) + [0x5C]) == (Meaning(body) + [0x5C], [])
  {
    BodyIsRead(body, [0x27] + behind);
    BodyIsRead(body, []);
    BodyIsRead(body, [0x5C]);
    assert ReadQuoted([0x27] + behind) == ([], behind) by { assert ([0x27] + behind)[1..] == behind; }
    var last: Bytes := [0x5C];
    assert last[1..] == [] && ReadQuoted(last[1..]) == ([], []) && [0x5C] + last[1..] == last;
    assert ReadQuoted(last) == (last, []);
    assert Text(body) + [] == Text(body) && Meaning(body) + [] == Meaning(body);
  }

  /** Every text is one of these three. */
  lemma {:induction false} EveryTextIsWritten(text: Bytes) returns (body: seq<Written>, end: Bytes)
    ensures WellWritten(body) && text == Text(body) + end && (end == [] || end == [0x5C] || end[0] == 0x27)
    decreases |text|
  {
    if text == [] || text == [0x5C] || text[0] == 0x27 {
      body, end := [], text;
      assert [] + text == text;
    } else {
      var first := if text[0] == 0x5C then Escaped(text[1]) else AsIs(text[0]);
      var n := if text[0] == 0x5C then 2 else 1;
      var rest;
      rest, end := EveryTextIsWritten(text[n..]);
      body := [first] + rest;
      assert body[1..] == rest;
      assert text == text[..n] + text[n..];
      assert Text(body) == text[..n] + Text(rest);
    }
  }

  // ---- one setting ----

  ghost predicate IsSeparator(b: byte) { b == 0x20 || b == 0x09 || b == 0x0A || b == 0x0D }

  /** What a key, without the white space around it, and a value do to what was read before. */
  function AfterSetting(info: Info, key: Bytes, value: Bytes): Info {
    if key == [0x68, 0x6F, 0x73, 0x74] then
      info.(host := if |value| > 1 && value[0] == 0x5B && value[|value| - 1] == 0x5D then value[1..|value| - 1] else value)
    else if key == [0x70, 0x6F, 0x72, 0x74] then info.(port := value)
    else if key == [0x64, 0x62, 0x6E, 0x61, 0x6D, 0x65] then info.(dbName := value)
    else info
  }

  lemma SettingIsAssigned(info: Info, key: Bytes, value: Bytes)
    ensures Assign(info, key, value) == AfterSetting(info, key, value)
  {
  }

  /** Where the first setting begins and its key ends. */
  lemma KeyIsFound(lead: Bytes, key: Bytes, behind: Bytes, info: Info)
    requires (forall b :: b in lead ==> IsSeparator(b)) && 0x3D !in key && (key == [] || !IsSeparator(key[0]))
    ensures ReadSettings(lead + (key + [0x3D] + behind), info)
         == ReadSettings(ReadValue(behind).1, AfterSetting(info, TrimSpace(key), ReadValue(behind).0))
  {
    var s := key + [0x3D] + behind;
    LeadIsTrimmed(lead, s);
    FirstIs(key, EQUALS, behind);
    assert s[..|key|] == key && s[|key| + 1..] == behind;
    ReadStep(lead + s, info);
    SettingIsAssigned(info, TrimSpace(key), ReadValue(behind).0);
    hide IndexByte, ReadValue, TrimSpace, Assign, AfterSetting, TrimBlanks, ReadSettings;
  }

  lemma {:induction false} LeadIsTrimmed(lead: Bytes, s: Bytes)
    requires (forall b :: b in lead ==> IsSeparator(b)) && s != [] && !IsSeparator(s[0])
    ensures TrimBlanks(lead + s) == s
  {
    if lead == [] {
      assert lead + s == s;
    } else {
      assert lead[0] in lead && (lead + s)[0] == lead[0] && (lead + s)[1..] == lead[1..] + s;
      LeadIsTrimmed(lead[1..], s);
    }
  }

  /** A setting without quotes: its value ends at the next space, tab or line end. */
  lemma SettingLooks(lead: Bytes, key: Bytes, value: Bytes, behind: Bytes, info: Info)
    requires (forall b :: b in lead ==> IsSeparator(b)) && 0x3D !in key && (key == [] || !IsSeparator(key[0]))
    requires (forall b :: b in value ==> !IsSeparator(b)) && (behind == [] || IsSeparator(behind[0]))
    requires value == [] || value[0] != 0x27
    ensures ReadSettings(lead + (key + [0x3D] + (value + behind)), info)
         == ReadSettings(behind, AfterSetting(info, TrimSpace(key), value))
  {
    KeyIsFound(lead, key, value + behind, info);
    ValueEnds(value, behind);
    hide ReadSettings, AfterSetting, TrimSpace, ReadValue;
  }

  lemma ValueEnds(value: Bytes, behind: Bytes)
    requires (forall b :: b in value ==> !IsSeparator(b)) && (behind == [] || IsSeparator(behind[0]))
    requires value == [] || value[0] != 0x27
    ensures ReadValue(value + behind) == (value, behind)
  {
    hide BlankIndex;
    var s := value + behind;
    forall j | 0 <= j < |value|
      ensures !IsBlank(s[j])
    {
      assert s[j] == value[j] && value[j] in value;
    }
    assert behind != [] ==> s[|value|] == behind[0];
    assert BlankIndex(s) == |value|;
    assert s[..|value|] == value && s[|value|..] == behind;
  }

  /** A setting with quotes. */
  lemma QuotedSettingLooks(lead: Bytes, key: Bytes, body: seq<Written>, behind: Bytes, info: Info)
    requires (forall b :: b in lead ==> IsSeparator(b)) && 0x3D !in key && (key == [] || !IsSeparator(key[0]))
    requires WellWritten(body)
    ensures ReadSettings(lead + (key + [0x3D] + ([0x27] + (Text(body) + ([0x27] + behind)))), info)
         == ReadSettings(behind, AfterSetting(info, TrimSpace(key), Meaning(body)))
  {
    var value := [0x27] + (Text(body) + ([0x27] + behind));
    KeyIsFound(lead, key, value, info);
    QuotedLooks(body, behind);
    assert value[1..] == Text(body) + ([0x27] + behind);
    assert ReadValue(value) == (Meaning(body), behind);
    hide *;
  }

  /** What holds no '=' sets nothing. */
  lemma RestIsIgnored(text: Bytes, info: Info)
    requires 0x3D !in text
    ensures ReadSettings(text, info) == info
  {
    TrimmedHolds(text);
    hide ReadValue, Assign, TrimSpace;
  }

  lemma {:induction false} TrimmedHolds(s: Bytes)
    ensures forall b :: b in TrimBlanks(s) ==> b in s
  {
    if s != [] && IsBlank(s[0]) {
      TrimmedHolds(s[1..]);
      assert forall b :: b in s[1..] ==> b in s;
    }
  }

  // ---- a whole name ----

  /** Host "localhost", port "5432" and no database. */
  const START: Info := Info([0x6C, 0x6F, 0x63, 0x61, 0x6C, 0x68, 0x6F, 0x73, 0x74], [0x35, 0x34, 0x33, 0x32], [])

  /** Reading starts behind the white space in front of the name, from these. */
  lemma NameStarts(dsn: Bytes)
    ensures LibpqInfo(dsn)
         == ReadSettings(TrimSpace(dsn), START)
  {
    hide ReadSettings, TrimSpace;
  }

  /** Host, port and database, one behind the other; a host in brackets is stored without them. */
  lemma NameLooks(host: Bytes, port: Bytes, db: Bytes)
    requires forall b :: b in host + port + db ==> 0x21 <= b <= 0x7E && b != 0x27
    requires db != []
    ensures LibpqInfo([0x68, 0x6F, 0x73, 0x74, 0x3D] + host + ([0x20, 0x70, 0x6F, 0x72, 0x74, 0x3D] + port
                      + ([0x20, 0x64, 0x62, 0x6E, 0x61, 0x6D, 0x65, 0x3D] + db)))
         == Info(if |host| > 1 && host[0] == 0x5B && host[|host| - 1] == 0x5D then host[1..|host| - 1] else host, port, db)
  {
    assert forall b :: b in host || b in port || b in db ==> b in host + port + db;
    PrintableValue(host);
    PrintableValue(port);
    PrintableValue(db);
    assert db[|db| - 1] in db;
    NamePrinted(host, port, db);
    ThreeSettings(host, port, db);
    ThreeAssigned(host, port, db);
    hide *;
  }

  ghost predicate IsValue(value: Bytes) {
    (forall b :: b in value ==> !IsSeparator(b)) && (value == [] || value[0] != 0x27)
  }

  lemma PrintableValue(value: Bytes)
    requires forall b :: b in value ==> 0x21 <= b <= 0x7E && b != 0x27
    ensures IsValue(value)
  {
    assert value != [] ==> value[0] in value;
  }

  lemma ThreeAssigned(host: Bytes, port: Bytes, db: Bytes)
    ensures AfterSetting(AfterSetting(AfterSetting(START, HOST, host), PORT, port), DBNAME, db)
         == Info(if |host| > 1 && host[0] == 0x5B && host[|host| - 1] == 0x5D then host[1..|host| - 1] else host, port, db)
  {
    assert HOST != PORT && HOST != DBNAME && PORT[0] != DBNAME[0];
  }

  lemma ThreeSettings(host: Bytes, port: Bytes, db: Bytes)
    requires IsValue(host) && IsValue(port) && IsValue(db) && db != [] && 0x21 <= db[|db| - 1] <= 0x7E
    ensures LibpqInfo([] + (HOST + [0x3D] + (host + ([0x20] + (PORT + [0x3D] + (port + ([0x20] + (DBNAME + [0x3D] + (db + [])))))))))
         == AfterSetting(AfterSetting(AfterSetting(START, HOST, host), PORT, port), DBNAME, db)
  {
    KeysAreClean();
    BehindValues(port, db);
    var one, two := AfterSetting(START, HOST, host), AfterSetting(AfterSetting(START, HOST, host), PORT, port);
    var third := [0x20] + (DBNAME + [0x3D] + (db + []));
    var second := [0x20] + (PORT + [0x3D] + (port + third));
    hide *;
    NameIsTrimmed(host, second, db);
    NameStarts([] + (HOST + [0x3D] + (host + second)));
    OneSetting([], HOST, host, second, START);
    OneSetting([0x20], PORT, port, third, one);
    OneSetting([0x20], DBNAME, db, [], two);
    NothingLeft(AfterSetting(two, DBNAME, db));
  }

  lemma BehindValues(port: Bytes, db: Bytes)
    requires db != []
    ensures var third := [0x20] + (DBNAME + [0x3D] + (db + []));
      var second := [0x20] + (PORT + [0x3D] + (port + third));
      && third[0] == 0x20 && second[0] == 0x20 && second[|second| - 1] == db[|db| - 1]
      && HOST != [] && PORT != [] && DBNAME != []
  {
  }

  lemma OneSetting(lead: Bytes, key: Bytes, value: Bytes, behind: Bytes, info: Info)
    requires (lead == [] || lead == [0x20]) && TrimSpace(key) == key && 0x3D !in key && key != [] && key[0] > 0x20
    requires IsValue(value) && (behind == [] || behind[0] == 0x20)
    ensures ReadSettings(lead + (key + [0x3D] + (value + behind)), info) == ReadSettings(behind, AfterSetting(info, key, value))
  {
    hide ReadSettings, TrimSpace, AfterSetting;
    SettingLooks(lead, key, value, behind, info);
  }

  lemma NothingLeft(info: Info)
    ensures ReadSettings([], info) == info
  {
    RestIsIgnored([], info);
  }

  lemma NamePrinted(host: Bytes, port: Bytes, db: Bytes)
    ensures [0x68, 0x6F, 0x73, 0x74, 0x3D] + host + ([0x20, 0x70, 0x6F, 0x72, 0x74, 0x3D] + port
            + ([0x20, 0x64, 0x62, 0x6E, 0x61, 0x6D, 0x65, 0x3D] + db))
         == [] + (HOST + [0x3D] + (host + ([0x20] + (PORT + [0x3D] + (port + ([0x20] + (DBNAME + [0x3D] + (db + []))))))))
  {
  }

  lemma KeysAreClean()
    ensures TrimSpace(HOST) == HOST && TrimSpace(PORT) == PORT && TrimSpace(DBNAME) == DBNAME
    ensures 0x3D !in HOST && 0x3D !in PORT && 0x3D !in DBNAME
    ensures HOST[0] == 0x68 && PORT[0] == 0x70 && DBNAME[0] == 0x64
  {
    TrimmedIsSame(HOST);
    TrimmedIsSame(PORT);
    TrimmedIsSame(DBNAME);
    hide TrimSpace;
  }

  lemma NameIsTrimmed(host: Bytes, behind: Bytes, db: Bytes)
    requires behind != [] && db != [] && behind[|behind| - 1] == db[|db| - 1] && 0x21 <= db[|db| - 1] <= 0x7E
    ensures var all := [] + (HOST + [0x3D] + (host + behind)); TrimSpace(all) == all
  {
    var all := HOST + [0x3D] + (host + behind);
    assert [] + all == all && all[|all| - 1] == behind[|behind| - 1];
    KeyStartsClean(HOST, host + behind);
    EndsClean(all);
    TrimmedIsSame(all);
    hide TrimSpace;
  }
}
