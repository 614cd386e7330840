/** libpq data source names: keyword and value settings with quotes and escapes. */
module DsnLibpq {
  import opened Common
  import opened Utf8
  import opened GoBytes
  import opened DsnAddress

  const EQUALS: byte := 0x3D
  const QUOTE: byte := 0x27
  const BACKSLASH: byte := 0x5C
  const SPACE: byte := 0x20
  /** "5432" */
  const POSTGRES_PORT: Bytes := [0x35, 0x34, 0x33, 0x32]
  /** "host", "port" and "dbname" */
  const HOST: Bytes := [0x68, 0x6F, 0x73, 0x74]
  const PORT: Bytes := [0x70, 0x6F, 0x72, 0x74]
  const DBNAME: Bytes := [0x64, 0x62, 0x6E, 0x61, 0x6D, 0x65]

  // ---- libpq names ----

  /** What `TrimLeft` with the cutset of the parser removes. */
  predicate IsBlank(b: byte) { b == 0x20 || b == 0x09 || b == 0x0A || b == 0x0D }

  function TrimBlanks(s: Bytes): (r: Bytes)
    ensures |r| <= |s| && (r != [] ==> !IsBlank(r[0]))
  {
    if s == [] || !IsBlank(s[0]) then s else TrimBlanks(s[1..])
  }

  /** The position of the first blank, or the length. */
  function BlankIndex(s: Bytes): (i: nat)
    ensures i <= |s| && (i < |s| ==> IsBlank(s[i])) && forall j :: 0 <= j < i ==> !IsBlank(s[j])
  {
    if s == [] || IsBlank(s[0]) then 0 else 1 + BlankIndex(s[1..])
  }

  /** The text behind an opening quote: the value, and what follows the closing one. */
  function ReadQuoted(s: Bytes): (r: (Bytes, Bytes))
    ensures |r.1| <= |s|
    decreases |s|
  {
    if s == [] then ([], [])
    else if s[0] == BACKSLASH && |s| > 1 then
      var (value, rest) := ReadQuoted(s[2..]);
      ([s[1]] + value, rest)
    else if s[0] == QUOTE then ([], s[1..])
    else
      var (value, rest) := ReadQuoted(s[1..]);
      ([s[0]] + value, rest)
  }

  function ReadValue(s: Bytes): (r: (Bytes, Bytes))
    ensures |r.1| <= |s|
  {
    if s != [] && s[0] == QUOTE then ReadQuoted(s[1..]) else (s[..BlankIndex(s)], s[BlankIndex(s)..])
  }

  function Assign(info: Info, key: Bytes, value: Bytes): Info {
    if key == HOST then info.(host := TrimHostBrackets(value))
    else if key == PORT then info.(port := value)
    else if key == DBNAME then info.(dbName := value)
    else info
  }

  function ReadSettings(text: Bytes, info: Info): Info
    decreases |text|
  {
    var s := TrimBlanks(text);
    var eq := IndexByte(s, EQUALS);
    if eq < 0 then info
    else
      var (value, rest) := ReadValue(s[eq + 1..]);
      ReadSettings(rest, Assign(info, TrimSpace(s[..eq]), value))
  }

  const LIBPQ_DEFAULT: Info := Info(LOCALHOST, POSTGRES_PORT, [])

  function LibpqInfo(dsn: Bytes): Info { ReadSettings(TrimSpace(dsn), LIBPQ_DEFAULT) }

  lemma ReadStep(text: Bytes, info: Info)
    ensures ReadSettings([], info) == info
    ensures var s := TrimBlanks(text);
      var eq := IndexByte(s, EQUALS);
      ReadSettings(text, info)
      == if eq < 0 then info
         else ReadSettings(ReadValue(s[eq + 1..]).1, Assign(info, TrimSpace(s[..eq]), ReadValue(s[eq + 1..]).0))
    ensures TrimBlanks(text) == [] ==> ReadSettings(text, info) == info
  {
    hide ReadValue, Assign, TrimSpace;
  }

  lemma ValueCases(s: Bytes)
    ensures ReadValue(s) == if s != [] && s[0] == QUOTE then ReadQuoted(s[1..]) else (s[..BlankIndex(s)], s[BlankIndex(s)..])
  {
  }

  /** The nested loops: the text that remains gets shorter with every turn of either. */
  method ParseLibpq(dsn: Bytes) returns (info: Info)
    ensures info == LibpqInfo(dsn)
  {
    hide *;
    StartIs(dsn);
    info := LIBPQ_DEFAULT;
    var rest := TrimSpace(dsn);
    while |rest| > 0
      invariant ReadSettings(rest, info) == LibpqInfo(dsn)
      decreases |rest|
    {
      ReadStep(rest, info);
      rest := TrimBlanks(rest);
      if rest == [] {
        return;
      }
      var eqIdx := IndexByte(rest, EQUALS);
      if eqIdx < 0 {
        return;
      }
      var key := TrimSpace(rest[..eqIdx]);
      rest := rest[eqIdx + 1..];
      ValueCases(rest);
      var value: Bytes;
      if rest != [] && rest[0] == QUOTE {
        value, rest := ParseQuoted(rest[1..]);
      } else {
        var end := BlankIndex(rest);
        value := rest[..end];
        rest := rest[end..];
      }
      AssignCases(info, key, value);
      if key == HOST {
        info := info.(host := TrimHostBrackets(value));
      } else if key == PORT {
        info := info.(port := value);
      } else if key == DBNAME {
        info := info.(dbName := value);
      }
    }
    ReadStep([], info);
  }

  lemma StartIs(dsn: Bytes)
    ensures LibpqInfo(dsn) == ReadSettings(TrimSpace(dsn), LIBPQ_DEFAULT)
  {
  }

  lemma AssignCases(info: Info, key: Bytes, value: Bytes)
    ensures key == HOST ==> Assign(info, key, value) == info.(host := TrimHostBrackets(value))
    ensures key != HOST && key == PORT ==> Assign(info, key, value) == info.(port := value)
    ensures key != HOST && key != PORT && key == DBNAME ==> Assign(info, key, value) == info.(dbName := value)
    ensures key != HOST && key != PORT && key != DBNAME ==> Assign(info, key, value) == info
  {
  }

  lemma NextQuoted(value: Bytes, rest: Bytes)
    requires rest != []
    ensures rest[0] == BACKSLASH && |rest| > 1 ==>
              value + ReadQuoted(rest).0 == value + [rest[1]] + ReadQuoted(rest[2..]).0 && ReadQuoted(rest).1 == ReadQuoted(rest[2..]).1
    ensures !(rest[0] == BACKSLASH && |rest| > 1) && rest[0] != QUOTE ==>
              value + ReadQuoted(rest).0 == value + [rest[0]] + ReadQuoted(rest[1..]).0 && ReadQuoted(rest).1 == ReadQuoted(rest[1..]).1
  {
    if rest[0] == BACKSLASH && |rest| > 1 {
      assert ReadQuoted(rest).0 == [rest[1]] + ReadQuoted(rest[2..]).0;
    } else if rest[0] != QUOTE {
      assert ReadQuoted(rest).0 == [rest[0]] + ReadQuoted(rest[1..]).0;
    }
  }

  method ParseQuoted(text: Bytes) returns (value: Bytes, rest: Bytes)
    ensures (value, rest) == ReadQuoted(text)
  {
    value, rest := [], text;
    while |rest| > 0
      invariant ReadQuoted(text).0 == value + ReadQuoted(rest).0 && ReadQuoted(text).1 == ReadQuoted(rest).1
      decreases |rest|
    {
      NextQuoted(value, rest);
      if rest[0] == BACKSLASH && |rest| > 1 {
        value, rest := value + [rest[1]], rest[2..];
      } else if rest[0] == QUOTE {
        assert value + [] == value;
        rest := rest[1..];
        return;
      } else {
        value, rest := value + [rest[0]], rest[1..];
      }
    }
    assert value + [] == value;
  }

  // ---- printing settings ----

  datatype Setting = Setting(key: Bytes, value: Bytes, quoted: bool)

  /** Quotes and backslashes are preceded by a backslash. */
  function EscapeQuoted(value: Bytes): Bytes {
    if value == [] then []
    else EscapedByte(value[0]) + EscapeQuoted(value[1..])
  }

  function PrintValue(s: Setting): Bytes {
    if s.quoted then [QUOTE] + (EscapeQuoted(s.value) + [QUOTE]) else s.value
  }

  /** `key=value` pairs with a space between. */
  function Print(settings: seq<Setting>): Bytes
    decreases |settings|, 0
  {
    if settings == [] then []
    else settings[0].key + [EQUALS] + (PrintValue(settings[0]) + More(settings[1..]))
  }

  function More(settings: seq<Setting>): Bytes
    decreases |settings|, 1
  {
    if settings == [] then [] else [SPACE] + Print(settings)
  }

  /** A key has no equals sign and no white space around it; a value without quotes is
      printable ASCII other than space, quote and backslash. */
  predicate Printable(s: Setting) {
    && s.key != [] && EQUALS !in s.key && SpaceAtStart(s.key) == 0 && SpaceAtEnd(s.key) == 0
    && (!s.quoted ==> forall b :: b in s.value ==> 0x21 <= b < 0x7F && b != QUOTE && b != BACKSLASH)
  }

  predicate AllPrintable(settings: seq<Setting>) { forall s :: s in settings ==> Printable(s) }

  function EscapedByte(b: byte): Bytes { if b == QUOTE || b == BACKSLASH then [BACKSLASH, b] else [b] }

  lemma EscapedByteIsRead(b: byte, more: Bytes)
    ensures ReadQuoted(EscapedByte(b) + more) == ([b] + ReadQuoted(more).0, ReadQuoted(more).1)
  {
    var s := EscapedByte(b) + more;
    if b == QUOTE || b == BACKSLASH {
      assert s[0] == BACKSLASH && s[1] == b && s[2..] == more;
    } else {
      assert s[0] == b && s[1..] == more;
    }
  }

  lemma {:induction false} QuotedIsRead(value: Bytes, rest: Bytes)
    ensures ReadQuoted(EscapeQuoted(value) + ([QUOTE] + rest)) == (value, rest)
    decreases |value|
  {
    if value == [] {
      assert ([QUOTE] + rest)[1..] == rest;
      assert EscapeQuoted(value) + ([QUOTE] + rest) == [QUOTE] + rest;
    } else {
      hide ReadQuoted;
      var more := EscapeQuoted(value[1..]) + ([QUOTE] + rest);
      QuotedIsRead(value[1..], rest);
      EscapedByteIsRead(value[0], more);
      assert EscapeQuoted(value) + ([QUOTE] + rest) == EscapedByte(value[0]) + more;
      assert [value[0]] + value[1..] == value;
    }
  }

  lemma ValueIsRead(s: Setting, rest: Bytes)
    requires Printable(s) && (rest == [] || rest[0] == SPACE)
    ensures ReadValue(PrintValue(s) + rest) == (s.value, rest)
  {
    var text := PrintValue(s) + rest;
    if s.quoted {
      assert text[1..] == EscapeQuoted(s.value) + ([QUOTE] + rest);
      QuotedIsRead(s.value, rest);
    } else {
      hide BlankIndex;
      forall j | 0 <= j < |s.value|
        ensures text[j] == s.value[j] && !IsBlank(text[j]) && text[j] != QUOTE
      {
        assert s.value[j] in s.value;
      }
      assert rest != [] ==> text[|s.value|] == SPACE;
      assert text != [] ==> text[0] != QUOTE;
      assert BlankIndex(text) == |s.value|;
    }
  }

  lemma TrimmedIsSame(s: Bytes)
    requires SpaceAtStart(s) == 0 && SpaceAtEnd(s) == 0
    ensures TrimSpace(s) == s
  {
  }

  /** A printed setting does not start with white space, nor, when it is the last, end with it. */
  lemma KeyStartsClean(key: Bytes, rest: Bytes)
    requires key != [] && SpaceAtStart(key) == 0
    ensures SpaceAtStart(key + [EQUALS] + rest) == 0
    ensures !IsBlank((key + [EQUALS] + rest)[0]) && TrimBlanks(key + [EQUALS] + rest) == key + [EQUALS] + rest
  {
    var s := key + [EQUALS] + rest;
    assert s[0] == key[0];
    assert |key| >= 2 ==> s[1] == key[1];
    assert |key| == 1 ==> s[1] == EQUALS;
    assert |key| >= 3 ==> s[2] == key[2];
    assert |key| == 2 ==> s[2] == EQUALS;
  }

  /** Settings applied in order. */
  function Applied(settings: seq<Setting>, info: Info): Info {
    if settings == [] then info else Applied(settings[1..], Assign(info, settings[0].key, settings[0].value))
  }

  /** One printed setting is applied before the text behind it is read. */
  lemma FirstIsRead(s: Setting, behind: Bytes, info: Info)
    requires Printable(s) && (behind == [] || behind[0] == SPACE)
    ensures ReadSettings(s.key + [EQUALS] + (PrintValue(s) + behind), info) == ReadSettings(behind, Assign(info, s.key, s.value))
  {
    hide IndexByte, ReadValue, Assign, PrintValue;
    var tail := PrintValue(s) + behind;
    var text := s.key + [EQUALS] + tail;
    KeyStartsClean(s.key, tail);
    FirstIs(s.key, EQUALS, tail);
    assert text[..|s.key|] == s.key && text[|s.key| + 1..] == tail;
    TrimmedIsSame(s.key);
    ValueIsRead(s, behind);
  }

  /** So are all of a list. */
  lemma {:induction false} FrontIsRead(settings: seq<Setting>, more: Bytes, info: Info)
    requires AllPrintable(settings) && (more == [] || more[0] == SPACE)
    ensures ReadSettings(Print(settings) + more, info) == ReadSettings(more, Applied(settings, info))
    ensures ReadSettings(More(settings) + more, info) == ReadSettings(more, Applied(settings, info))
    decreases |settings|
  {
    PrintUnfolds(settings, info);
    hide *;
    if settings == [] {
      assert [] + more == more;
    } else {
      var s, rest := settings[0], settings[1..];
      Grouped(s.key + [EQUALS], PrintValue(s), More(rest), more);
      FirstIsRead(s, More(rest) + more, info);
      FrontIsRead(rest, more, Assign(info, s.key, s.value));
      BlankInFront(Print(settings) + more, info);
      Grouped([SPACE], [], Print(settings), more);
    }
  }

  lemma Grouped(a: Bytes, b: Bytes, c: Bytes, d: Bytes)
    ensures (a + (b + c)) + d == a + (b + (c + d))
    ensures b == [] ==> (a + c) + d == a + (c + d)
    ensures c + d == [] || (c + d)[0] == if c != [] then c[0] else d[0]
  {
  }

  lemma PrintUnfolds(settings: seq<Setting>, info: Info)
    requires AllPrintable(settings)
    ensures settings == [] ==> Print(settings) == [] && More(settings) == [] && Applied(settings, info) == info
    ensures settings != [] ==>
      var s, rest := settings[0], settings[1..];
      && Printable(s) && AllPrintable(rest) && (More(rest) == [] || More(rest)[0] == SPACE)
      && Print(settings) == s.key + [EQUALS] + (PrintValue(s) + More(rest)) && More(settings) == [SPACE] + Print(settings)
      && Applied(settings, info) == Applied(rest, Assign(info, s.key, s.value))
  {
    hide Printable, PrintValue, Assign;
  }

  lemma SettingsAreRead(settings: seq<Setting>, info: Info)
    requires AllPrintable(settings)
    ensures ReadSettings(Print(settings), info) == Applied(settings, info)
    ensures ReadSettings(More(settings), info) == Applied(settings, info)
  {
    hide Print, More, AllPrintable, Applied, Assign;
    FrontIsRead(settings, [], info);
    assert Print(settings) + [] == Print(settings) && More(settings) + [] == More(settings);
    EmptyText(Applied(settings, info));
  }

  lemma BlankInFront(text: Bytes, info: Info)
    ensures ReadSettings([SPACE] + text, info) == ReadSettings(text, info)
  {
    assert ([SPACE] + text)[1..] == text;
    assert TrimBlanks([SPACE] + text) == TrimBlanks(text);
  }

  /** The last value given for a key. */
  function LastValue(settings: seq<Setting>, key: Bytes): Option<Bytes> {
    if settings == [] then None
    else
      var later := LastValue(settings[1..], key);
      if later.Some? then later else if settings[0].key == key then Some(settings[0].value) else None
  }

  function Or(value: Option<Bytes>, otherwise: Bytes): Bytes { if value.Some? then value.value else otherwise }

  lemma {:induction false} AppliedKeepsLast(settings: seq<Setting>, info: Info)
    ensures var r, host := Applied(settings, info), LastValue(settings, HOST);
      && r.host == (if host.Some? then TrimHostBrackets(host.value) else info.host)
      && r.port == Or(LastValue(settings, PORT), info.port)
      && r.dbName == Or(LastValue(settings, DBNAME), info.dbName)
    decreases |settings|
  {
    if settings != [] {
      assert HOST != PORT && HOST != DBNAME && PORT[0] != DBNAME[0];
      AppliedKeepsLast(settings[1..], Assign(info, settings[0].key, settings[0].value));
    }
  }

  lemma {:induction false} PrintEndsClean(settings: seq<Setting>)
    requires settings != [] && forall s :: s in settings ==> Printable(s)
    ensures var text := Print(settings); text != [] && 0x20 < text[|text| - 1] < 0x80
    decreases |settings|
  {
    var s := settings[0];
    assert s in settings;
    if |settings| > 1 {
      PrintEndsClean(settings[1..]);
    } else {
      var text, v := Print(settings), PrintValue(s);
      assert settings[1..] == [] && More(settings[1..]) == [] && v + [] == v;
      assert text == s.key + [EQUALS] + v;
      assert v != [] ==> text[|text| - 1] == v[|v| - 1] && (!s.quoted ==> v[|v| - 1] in s.value);
    }
  }

  /** Parsing printed settings yields, for the host, the port and the database, the last value
      given, and the default where none was. */
  lemma LibpqRoundTrip(settings: seq<Setting>)
    requires AllPrintable(settings)
    ensures var info, host := LibpqInfo(Print(settings)), LastValue(settings, HOST);
      && info.host == (if host.Some? then TrimHostBrackets(host.value) else LOCALHOST)
      && info.port == Or(LastValue(settings, PORT), POSTGRES_PORT)
      && info.dbName == Or(LastValue(settings, DBNAME), [])
  {
    PrintedIsRead(settings);
    AppliedKeepsLast(settings, LIBPQ_DEFAULT);
  }

  // ---- blanks behind the equals sign ----

  /** A setting with blanks in front of its value, as section 34.1.1.1 of the PostgreSQL 16
      documentation allows, and what follows it. */
  function BlankSetting(blanks: Bytes, s: Setting, rest: seq<Setting>): Bytes {
    s.key + [EQUALS] + (blanks + (PrintValue(s) + More(rest)))
  }

  /** Settings with a space behind the last of them. */
  function Lead(front: seq<Setting>): Bytes { if front == [] then [] else Print(front) + [SPACE] }

  /** A name whose settings are all printed as they should be, but for blanks in one of them. */
  function BlankText(front: seq<Setting>, blanks: Bytes, s: Setting, rest: seq<Setting>): Bytes {
    Lead(front) + BlankSetting(blanks, s, rest)
  }

  predicate AllBlank(blanks: Bytes) { forall b :: b in blanks ==> IsBlank(b) }

  lemma {:induction false} BlanksAreTrimmed(blanks: Bytes, text: Bytes)
    requires AllBlank(blanks)
    ensures TrimBlanks(blanks + text) == TrimBlanks(text)
    decreases |blanks|
  {
    if blanks == [] {
      assert blanks + text == text;
    } else {
      assert blanks[0] in blanks && (blanks + text)[1..] == blanks[1..] + text;
      BlanksAreTrimmed(blanks[1..], text);
    }
  }

  /** The key is read, its value is empty, and everything behind the blanks is read on its own. */
  lemma BlanksEndValue(blanks: Bytes, s: Setting, more: Bytes, info: Info)
    requires Printable(s) && AllBlank(blanks) && blanks != []
    ensures ReadSettings(s.key + [EQUALS] + (blanks + more), info) == ReadSettings(more, Assign(info, s.key, []))
  {
    hide IndexByte, Assign, ReadQuoted;
    var tail := blanks + more;
    var text := s.key + [EQUALS] + tail;
    KeyStartsClean(s.key, tail);
    FirstIs(s.key, EQUALS, tail);
    assert text[..|s.key|] == s.key && text[|s.key| + 1..] == tail;
    TrimmedIsSame(s.key);
    assert tail[0] == blanks[0] && blanks[0] in blanks;
    assert ReadValue(tail) == ([], tail) by { assert tail[..0] == [] && tail[0..] == tail; }
    BlanksAreTrimmed(blanks, more);
  }

  lemma {:induction false} TrailingBlanks(front: Bytes, blanks: Bytes)
    requires AllBlank(blanks) && SpaceAtEnd(front) == 0
    ensures TrimRight(front + blanks) == front
    decreases |blanks|
  {
    if blanks == [] {
      assert front + blanks == front;
    } else {
      var n := |blanks| - 1;
      assert blanks[n] in blanks;
      var text := front + blanks;
      assert text[|text| - 1] == blanks[n] && text[..|text| - 1] == front + blanks[..n];
      assert SpaceAtEnd(text) == 1;
      TrailingBlanks(front, blanks[..n]);
    }
  }

  lemma EndsClean(text: Bytes)
    requires text != [] && 0x20 < text[|text| - 1] < 0x80
    ensures SpaceAtEnd(text) == 0
  {
  }

  lemma ValueEndsClean(s: Setting)
    requires Printable(s) && PrintValue(s) != []
    ensures var v := PrintValue(s); 0x20 < v[|v| - 1] < 0x80 && 0x20 < v[0] < 0x80
  {
    if !s.quoted {
      assert s.value[0] in s.value && s.value[|s.value| - 1] in s.value;
    }
  }

  lemma LeadIsRead(front: seq<Setting>, text: Bytes, info: Info)
    requires AllPrintable(front)
    ensures ReadSettings(Lead(front) + text, info) == ReadSettings(text, Applied(front, info))
  {
    hide ReadSettings, Print, AllPrintable, Assign;
    if front == [] {
      assert [] + text == text;
    } else {
      FrontIsRead(front, [SPACE] + text, info);
      assert Lead(front) + text == Print(front) + ([SPACE] + text);
      BlankInFront(text, Applied(front, info));
    }
  }

  /** The name starts with a key, the first of the settings in front or the one with the blanks. */
  lemma LeadStartsClean(front: seq<Setting>, key: Bytes, tail: Bytes)
    requires AllPrintable(front) && key != [] && SpaceAtStart(key) == 0
    ensures SpaceAtStart(Lead(front) + (key + [EQUALS] + tail)) == 0
  {
    hide SpaceAtStart, SpaceAtEnd, PrintValue;
    var text := Lead(front) + (key + [EQUALS] + tail);
    if front == [] {
      assert text == key + [EQUALS] + tail;
      KeyStartsClean(key, tail);
    } else {
      var first := front[0];
      assert Printable(first);
      var behind := PrintValue(first) + More(front[1..]) + [SPACE] + (key + [EQUALS] + tail);
      assert text == first.key + [EQUALS] + behind;
      KeyStartsClean(first.key, behind);
    }
  }

  /** Unless it ends in the blanks, the name is read as it stands. */
  lemma BlankTextIsTrimmed(front: seq<Setting>, blanks: Bytes, s: Setting, rest: seq<Setting>)
    requires AllPrintable(front) && Printable(s) && AllPrintable(rest) && AllBlank(blanks)
    requires blanks == [] || PrintValue(s) != [] || rest != []
    ensures TrimSpace(BlankText(front, blanks, s, rest)) == BlankText(front, blanks, s, rest)
  {
    var text, tail := BlankText(front, blanks, s, rest), BlankSetting(blanks, s, rest);
    LeadStartsClean(front, s.key, blanks + (PrintValue(s) + More(rest)));
    TailEndsClean(blanks, s, rest);
    hide BlankSetting, Lead, SpaceAtStart, SpaceAtEnd;
    assert text[|text| - 1] == tail[|tail| - 1];
    EndsClean(text);
    TrimmedIsSame(text);
  }

  lemma TailEndsClean(blanks: Bytes, s: Setting, rest: seq<Setting>)
    requires Printable(s) && AllPrintable(rest) && (blanks == [] || PrintValue(s) != [] || rest != [])
    ensures var tail := BlankSetting(blanks, s, rest); tail != [] && 0x20 < tail[|tail| - 1] < 0x80
  {
    hide PrintValue, Print, SpaceAtStart, SpaceAtEnd;
    var tail := BlankSetting(blanks, s, rest);
    if rest != [] {
      PrintEndsClean(rest);
      assert tail[|tail| - 1] == Print(rest)[|Print(rest)| - 1];
    } else if PrintValue(s) != [] {
      ValueEndsClean(s);
      assert tail[|tail| - 1] == PrintValue(s)[|PrintValue(s)| - 1];
    } else {
      assert tail == s.key + [EQUALS];
    }
  }

  /** Without a value behind them, blanks at the end of the name are trimmed. */
  lemma TrailingBlanksGo(front: seq<Setting>, blanks: Bytes, s: Setting)
    requires AllPrintable(front) && Printable(s) && AllBlank(blanks) && PrintValue(s) == []
    ensures TrimSpace(BlankText(front, blanks, s, [])) == BlankText(front, [], s, [])
  {
    LeadStartsClean(front, s.key, blanks);
    assert blanks + (PrintValue(s) + More([])) == blanks && [] + (PrintValue(s) + More([])) == [];
    hide SpaceAtStart, SpaceAtEnd, PrintValue, TrimRight, TrimLeft, TrimSpace, Printable, AllPrintable, Lead, More;
    var lead, last := Lead(front), s.key + [EQUALS];
    assert last + [] == last && lead + (last + blanks) == (lead + last) + blanks;
    BlanksGo(lead + last, blanks);
  }

  lemma BlanksGo(clean: Bytes, blanks: Bytes)
    requires clean != [] && clean[|clean| - 1] == EQUALS && AllBlank(blanks) && SpaceAtStart(clean + blanks) == 0
    ensures TrimSpace(clean + blanks) == clean
  {
    hide SpaceAtStart, SpaceAtEnd, TrimRight;
    EndsClean(clean);
    TrailingBlanks(clean, blanks);
  }

  /** The settings in front are applied, and then the one with the blanks is read. */
  lemma BlankTextIsRead(front: seq<Setting>, blanks: Bytes, s: Setting, rest: seq<Setting>)
    requires AllPrintable(front) && Printable(s) && AllPrintable(rest) && AllBlank(blanks)
    ensures LibpqInfo(BlankText(front, blanks, s, rest)) == ReadSettings(BlankSetting(blanks, s, rest), Applied(front, LIBPQ_DEFAULT))
  {
    var info := Applied(front, LIBPQ_DEFAULT);
    hide ReadSettings, Assign, Lead, PrintValue, Printable, AllPrintable, TrimSpace;
    if blanks == [] || PrintValue(s) != [] || rest != [] {
      BlankTextIsTrimmed(front, blanks, s, rest);
      LeadIsRead(front, BlankSetting(blanks, s, rest), LIBPQ_DEFAULT);
    } else {
      TrailingBlanksGo(front, blanks, s);
      LeadIsRead(front, BlankSetting([], s, []), LIBPQ_DEFAULT);
      EmptyValueIsRead(blanks, s, info);
    }
  }

  lemma EmptyValueIsRead(blanks: Bytes, s: Setting, info: Info)
    requires Printable(s) && AllBlank(blanks) && PrintValue(s) == [] && blanks != []
    ensures ReadSettings(BlankSetting(blanks, s, []), info) == ReadSettings(BlankSetting([], s, []), info)
  {
    hide ReadSettings, Assign, SpaceAtStart, SpaceAtEnd;
    var all := [s];
    assert all[1..] == [] && s.value == [];
    assert BlankSetting([], s, []) == Print(all);
    SettingsAreRead(all, info);
    assert PrintValue(s) + More([]) == [];
    BlanksEndValue(blanks, s, [], info);
    EmptyText(Assign(info, s.key, []));
  }

  lemma {:induction false} AppliedConcat(a: seq<Setting>, b: seq<Setting>, info: Info)
    ensures Applied(a + b, info) == Applied(b, Applied(a, info))
    decreases |a|
  {
    hide Assign;
    if a == [] {
      assert a + b == b;
    } else {
      assert (a + b)[0] == a[0] && (a + b)[1..] == a[1..] + b;
      AppliedConcat(a[1..], b, Assign(info, a[0].key, a[0].value));
    }
  }

  /** All settings of the name applied, as they should be. */
  lemma AllApplied(front: seq<Setting>, s: Setting, rest: seq<Setting>)
    ensures Applied(front + [s] + rest, LIBPQ_DEFAULT) == Applied([s] + rest, Applied(front, LIBPQ_DEFAULT))
  {
    hide Applied;
    assert front + [s] + rest == front + ([s] + rest);
    AppliedConcat(front, [s] + rest, LIBPQ_DEFAULT);
  }

  /** What blanks do to a value that is printed as something without an equals sign: it is lost, and
      its text becomes part of the next key, so that setting is lost too. */
  lemma BlanksLose(front: seq<Setting>, blanks: Bytes, s: Setting, rest: seq<Setting>)
    requires AllPrintable(front) && Printable(s) && AllPrintable(rest) && AllBlank(blanks) && blanks != []
    requires PrintValue(s) != [] && EQUALS !in PrintValue(s)
    ensures var lost := Assign(Applied(front, LIBPQ_DEFAULT), s.key, []);
      LibpqInfo(BlankText(front, blanks, s, rest)) == if rest == [] then lost else Applied(rest[1..], lost)
  {
    var info := Applied(front, LIBPQ_DEFAULT);
    var lost, v := Assign(info, s.key, []), PrintValue(s);
    hide LibpqInfo, BlankText, Assign, PrintValue, Print, IndexByte, TrimSpace, AllPrintable;
    BlankTextIsRead(front, blanks, s, rest);
    BlanksEndValue(blanks, s, v + More(rest), info);
    ValueEndsClean(s);
    if rest == [] {
      assert v + More(rest) == v;
    } else {
      MergedKeyIsLost(v, rest, lost);
    }
  }

  lemma MergedKeyIsLost(v: Bytes, rest: seq<Setting>, info: Info)
    requires v != [] && EQUALS !in v && (0x20 < v[0] < 0x80 || (!IsBlank(v[0]) && QUOTE in v)) && rest != [] && AllPrintable(rest)
    ensures ReadSettings(v + More(rest), info) == Applied(rest[1..], info)
  {
    hide Assign, PrintValue, ReadValue, IndexByte, TrimSpace;
    var next := rest[0];
    assert Printable(next);
    var key, tail := v + [SPACE] + next.key, PrintValue(next) + More(rest[1..]);
    var text := v + More(rest);
    assert More(rest) == [SPACE] + Print(rest) && Print(rest) == next.key + [EQUALS] + tail;
    assert text == key + [EQUALS] + tail;
    assert text[0] == v[0] && TrimBlanks(text) == text;
    MembersOf3(v, [SPACE], next.key);
    FirstIs(key, EQUALS, tail);
    assert text[..|key|] == key && text[|key| + 1..] == tail;
    if QUOTE in v {
      QuoteInKey(key, info, next.value);
    } else {
      MergedKeyIsOther(v, next.key, info, next.value);
    }
    ValueIsRead(next, More(rest[1..]));
    SettingsAreRead(rest[1..], info);
  }

  lemma MergedKeyIsOther(v: Bytes, key: Bytes, info: Info, value: Bytes)
    requires v != [] && 0x20 < v[0] < 0x80 && key != [] && SpaceAtEnd(key) == 0
    ensures Assign(info, TrimSpace(v + [SPACE] + key), value) == info
  {
    var k := v + [SPACE] + key;
    assert k[0] == v[0] && SpaceAtStart(k) == 0;
    assert k[|v|] == SPACE;
    assert forall j :: |v| < j < |k| ==> k[j] == key[j - |v| - 1];
    assert SpaceAtEnd(k) == 0;
    TrimmedIsSame(k);
    assert SPACE in k && SPACE !in HOST && SPACE !in PORT && SPACE !in DBNAME;
  }

  lemma {:induction false} TrimLeftKeepsQuote(s: Bytes)
    requires QUOTE in s
    ensures QUOTE in TrimLeft(s)
    decreases |s|
  {
    var n := SpaceAtStart(s);
    if n > 0 {
      var j :| 0 <= j < |s| && s[j] == QUOTE;
      assert s[n..][j - n] == QUOTE;
      TrimLeftKeepsQuote(s[n..]);
    }
  }

  lemma {:induction false} TrimRightKeepsQuote(s: Bytes)
    requires QUOTE in s
    ensures QUOTE in TrimRight(s)
    decreases |s|
  {
    var n := |s| - SpaceAtEnd(s);
    if n < |s| {
      var j :| 0 <= j < |s| && s[j] == QUOTE;
      assert s[..n][j] == QUOTE;
      TrimRightKeepsQuote(s[..n]);
    }
  }

  /** A key with a quote in it is none that is recorded. */
  lemma QuoteInKey(key: Bytes, info: Info, value: Bytes)
    requires QUOTE in key
    ensures Assign(info, TrimSpace(key), value) == info
  {
    TrimLeftKeepsQuote(key);
    TrimRightKeepsQuote(TrimLeft(key));
    assert QUOTE !in HOST && QUOTE !in PORT && QUOTE !in DBNAME;
  }

  /** A value that is printed as nothing, or no blanks: everything is read as printed. */
  lemma BlanksAreHarmless(blanks: Bytes, s: Setting, rest: seq<Setting>, info: Info)
    requires Printable(s) && AllPrintable(rest) && AllBlank(blanks) && (blanks == [] || PrintValue(s) == [])
    ensures ReadSettings(BlankSetting(blanks, s, rest), info) == Applied([s] + rest, info)
  {
    hide ReadSettings, Assign, Print;
    var all := [s] + rest;
    assert all[0] == s && all[1..] == rest;
    if blanks == [] {
      PrintStarts(all);
      assert blanks + (PrintValue(s) + More(rest)) == PrintValue(s) + More(rest);
      SettingsAreRead(all, info);
    } else {
      assert PrintValue(s) + More(rest) == More(rest) && s.value == [];
      BlanksEndValue(blanks, s, More(rest), info);
      SettingsAreRead(rest, Assign(info, s.key, []));
    }
  }

  lemma PrintStarts(all: seq<Setting>)
    requires all != []
    ensures Print(all) == all[0].key + [EQUALS] + (PrintValue(all[0]) + More(all[1..]))
  {
  }

  lemma PrintedIsRead(settings: seq<Setting>)
    requires AllPrintable(settings)
    ensures LibpqInfo(Print(settings)) == Applied(settings, LIBPQ_DEFAULT)
  {
    var text := Print(settings);
    if settings != [] {
      var s := settings[0];
      assert s in settings;
      KeyStartsClean(s.key, PrintValue(s) + More(settings[1..]));
      PrintEndsClean(settings);
      TrimmedIsSame(text);
    }
    SettingsAreRead(settings, LIBPQ_DEFAULT);
  }

  // ---- the exact condition ----

  predicate Recorded(key: Bytes) { key == HOST || key == PORT || key == DBNAME }

  function Field(info: Info, key: Bytes): Bytes {
    if key == HOST then info.host else if key == PORT then info.port else info.dbName
  }

  /** What a recorded key's value is stored as. */
  function Stored(key: Bytes, value: Bytes): Bytes { if key == HOST then TrimHostBrackets(value) else value }

  lemma AssignedField(info: Info, key: Bytes, value: Bytes, field: Bytes)
    requires Recorded(field)
    ensures Field(Assign(info, key, value), field) == if key == field then Stored(field, value) else Field(info, field)
  {
    assert HOST != PORT && HOST != DBNAME && PORT[0] != DBNAME[0];
  }

  predicate BlankFree(s: Bytes) { forall b :: b in s ==> !IsBlank(b) }

  /** A quote is the last byte, or stands behind a backslash. */
  predicate ClosedQuotes(s: Bytes) {
    forall i :: 0 <= i < |s| - 1 && s[i] == QUOTE ==> i > 0 && s[i - 1] == BACKSLASH
  }

  lemma ClosedSuffix(s: Bytes, k: nat)
    requires ClosedQuotes(s) && k <= |s| && (k == 0 || s[k - 1] != BACKSLASH || (k < |s| && s[k] != QUOTE))
    ensures ClosedQuotes(s[k..])
  {
    var t := s[k..];
    forall i | 0 <= i < |t| - 1 && t[i] == QUOTE
      ensures i > 0 && t[i - 1] == BACKSLASH
    {
      assert s[k + i] == QUOTE;
      assert i > 0 ==> t[i - 1] == s[k + i - 1];
    }
  }

  lemma {:induction false} EscapedIsClosed(value: Bytes)
    ensures ClosedQuotes(EscapeQuoted(value) + [QUOTE])
    decreases |value|
  {
    if value != [] {
      EscapedIsClosed(value[1..]);
      var rest := EscapeQuoted(value[1..]) + [QUOTE];
      var e := EscapedByte(value[0]);
      var s := EscapeQuoted(value) + [QUOTE];
      assert s == e + rest;
      forall i | 0 <= i < |s| - 1 && s[i] == QUOTE
        ensures i > 0 && s[i - 1] == BACKSLASH
      {
        if i >= |e| {
          assert s[i] == rest[i - |e|];
          assert i > |e| ==> s[i - 1] == rest[i - 1 - |e|];
        }
      }
    }
  }

  lemma {:induction false} TrimmedIsSuffix(s: Bytes) returns (k: nat)
    ensures k <= |s| && TrimBlanks(s) == s[k..] && (k == 0 || IsBlank(s[k - 1]))
    decreases |s|
  {
    if s == [] || !IsBlank(s[0]) {
      k := 0;
    } else {
      var j := TrimmedIsSuffix(s[1..]);
      k := j + 1;
      assert s[1..][j..] == s[k..] && (j > 0 ==> s[1..][j - 1] == s[k - 1]);
    }
  }

  /** In such text a value is free of blanks, and what follows it is such text again. */
  lemma ClosedValue(s: Bytes)
    requires ClosedQuotes(s)
    ensures BlankFree(ReadValue(s).0) && ClosedQuotes(ReadValue(s).1)
  {
    if s != [] && s[0] == QUOTE {
      assert |s| == 1 && s[1..] == [];
    } else {
      var k := BlankIndex(s);
      assert forall b :: b in s[..k] ==> exists j :: 0 <= j < k && s[j] == b;
      if k == |s| {
        assert s[k..] == [];
      } else {
        ClosedSuffix(s, k);
      }
    }
  }

  lemma StoredIsBlankFree(key: Bytes, value: Bytes)
    requires BlankFree(value)
    ensures BlankFree(Stored(key, value))
  {
  }

  /** Reading such text leaves a field as it was or stores something free of blanks. */
  lemma {:induction false} LaterValues(text: Bytes, info: Info, field: Bytes)
    requires ClosedQuotes(text) && Recorded(field)
    ensures var r := ReadSettings(text, info); Field(r, field) == Field(info, field) || BlankFree(Field(r, field))
    decreases |text|
  {
    hide ReadValue, Assign, TrimSpace, IndexByte, ClosedQuotes, BlankFree, Stored, Field;
    var k := TrimmedIsSuffix(text);
    var s := TrimBlanks(text);
    ClosedSuffix(text, k);
    var eq := IndexByte(s, EQUALS);
    if eq >= 0 {
      var u := s[eq + 1..];
      ClosedSuffix(s, eq + 1);
      ClosedValue(u);
      var (value, rest) := ReadValue(u);
      var key := TrimSpace(s[..eq]);
      AssignedField(info, key, value, field);
      StoredIsBlankFree(field, value);
      LaterValues(rest, Assign(info, key, value), field);
    }
  }

  lemma {:induction false} TrimKeepsFirst(s: Bytes)
    requires s != [] && s[0] == QUOTE
    ensures TrimRight(s) != [] && TrimRight(s)[0] == QUOTE
    decreases |s|
  {
    var n := SpaceAtEnd(s);
    if n > 0 {
      assert n < |s|;
      TrimKeepsFirst(s[..|s| - n]);
    }
  }

  lemma QuotedKeyIsOther(k: Bytes)
    requires k != [] && k[0] == QUOTE
    ensures !Recorded(TrimSpace(k))
  {
    assert TrimLeft(k) == k;
    TrimKeepsFirst(k);
  }

  lemma StoredKeepsContents(key: Bytes, value: Bytes)
    requires EQUALS in value
    ensures Stored(key, value) != []
    ensures !BlankFree(value) ==> !BlankFree(Stored(key, value))
  {
    var i :| 0 <= i < |value| && value[i] == EQUALS;
    var t := TrimHostBrackets(value);
    if t != value {
      assert t[i - 1] == EQUALS;
      if !BlankFree(value) {
        var b :| b in value && IsBlank(b);
        var j :| 0 <= j < |value| && value[j] == b;
        assert t[j - 1] == b;
      }
    }
  }

  lemma {:induction false} EscapeKeepsBlankFree(value: Bytes)
    ensures BlankFree(value) ==> BlankFree(EscapeQuoted(value))
    ensures EQUALS in value ==> EQUALS in EscapeQuoted(value)
    decreases |value|
  {
    if value != [] {
      EscapeKeepsBlankFree(value[1..]);
      assert value == [value[0]] + value[1..];
      assert value[0] in value;
    }
  }

  /** The text of a quoted value with an equals sign never restores that value. */
  lemma QuotedIsNotRestored(value: Bytes, info: Info, field: Bytes)
    requires EQUALS in value && Recorded(field) && Field(info, field) == []
    ensures Field(ReadSettings([QUOTE] + (EscapeQuoted(value) + [QUOTE]), info), field) != Stored(field, value)
  {
    hide Assign, TrimSpace, IndexByte, ClosedQuotes, Stored, Field, ReadValue;
    var body := EscapeQuoted(value) + [QUOTE];
    var text := [QUOTE] + body;
    EscapeKeepsBlankFree(value);
    var eq := IndexByte(text, EQUALS);
    assert exists j :: 0 <= j < |body| && body[j] == EQUALS;
    assert eq > 0 by { var j :| 0 <= j < |body| && body[j] == EQUALS; assert text[j + 1] == EQUALS; }
    assert body[eq - 1] == EQUALS && text[eq + 1..] == body[eq..];
    EscapedIsClosed(value);
    ClosedSuffix(body, eq);
    ClosedValue(body[eq..]);
    assert text[..eq][0] == QUOTE;
    QuotedKeyIsOther(text[..eq]);
    var (w, rest) := ReadValue(body[eq..]);
    AssignedField(info, TrimSpace(text[..eq]), w, field);
    var after := Assign(info, TrimSpace(text[..eq]), w);
    assert !IsBlank(QUOTE) && TrimBlanks(text) == text;
    assert ReadSettings(text, info) == ReadSettings(rest, after);
    StoredKeepsContents(field, value);
    LaterValues(rest, after, field);
    if BlankFree(value) {
      BlankFreeIsOneValue(EscapeQuoted(value), eq);
      EmptyText(after);
    }
  }

  lemma EmptyText(info: Info)
    ensures ReadSettings([], info) == info && BlankFree([])
  {
  }

  lemma BlankFreeIsOneValue(e: Bytes, k: nat)
    requires k <= |e| && ClosedQuotes((e + [QUOTE])[k..]) && BlankFree(e)
    ensures ReadValue((e + [QUOTE])[k..]).1 == []
  {
    hide BlankIndex, ReadQuoted;
    var u := (e + [QUOTE])[k..];
    forall j | 0 <= j < |u|
      ensures !IsBlank(u[j])
    {
      if k + j < |e| { assert u[j] == e[k + j] && e[k + j] in e; }
    }
    if u[0] == QUOTE {
      assert |u| == 1 && u[1..] == [];
    } else {
      assert BlankIndex(u) == |u|;
    }
  }

  /** Nor does that of a value without quotes. */
  lemma UnquotedIsNotRestored(s: Setting, info: Info)
    requires Printable(s) && !s.quoted && EQUALS in s.value && Recorded(s.key) && Field(info, s.key) == []
    ensures Field(ReadSettings(s.value, info), s.key) != Stored(s.key, s.value)
  {
    hide Assign, Stored, Field, ReadSettings, SpaceAtStart, SpaceAtEnd, IndexByte;
    var v := s.value;
    forall j | 0 <= j < |v|
      ensures 0x21 <= v[j] < 0x7F && v[j] != QUOTE
    {
      assert v[j] in v;
    }
    ReadsOnce(v, info);
    hide *;
    var eq := IndexByte(v, EQUALS);
    var key, u := v[..eq], v[eq + 1..];
    AssignedField(info, key, u, s.key);
    StoredKeepsContents(s.key, v);
    if key == s.key { SelfNamedIsKept(v, eq, s.key); }
  }

  /** Such a value is read as one setting of what stands before its first equals sign. */
  lemma ReadsOnce(v: Bytes, info: Info)
    requires EQUALS in v && forall j :: 0 <= j < |v| ==> 0x21 <= v[j] < 0x7F && v[j] != QUOTE
    ensures var eq := IndexByte(v, EQUALS); ReadSettings(v, info) == Assign(info, v[..eq], v[eq + 1..])
  {
    assert !IsBlank(v[0]);
    hide *;
    var eq := IndexByte(v, EQUALS);
    var key, u := v[..eq], v[eq + 1..];
    assert forall j :: 0 <= j < |u| ==> u[j] == v[eq + 1 + j];
    OneValue(u);
    AlreadyTrimmed(v);
    ReadStep(v, info);
    ReadStep([], Assign(info, TrimSpace(key), u));
    NoSpaceAround(key);
    TrimmedIsSame(key);
  }

  lemma OneValue(u: Bytes)
    requires forall j :: 0 <= j < |u| ==> 0x21 <= u[j] && u[j] != QUOTE
    ensures ReadValue(u) == (u, [])
  {
    hide BlankIndex, ReadQuoted;
    assert BlankIndex(u) == |u| && u[..|u|] == u && u[|u|..] == [];
  }

  lemma NoSpaceAround(v: Bytes)
    requires forall j :: 0 <= j < |v| ==> 0x21 <= v[j] < 0x7F
    ensures SpaceAtStart(v) == 0 && SpaceAtEnd(v) == 0
  {
  }

  lemma SelfNamedIsKept(v: Bytes, eq: nat, key: Bytes)
    requires eq < |v| && Recorded(key) && v[..eq] == key
    ensures Stored(key, v[eq + 1..]) != Stored(key, v)
  {
    assert v[0] == key[0] && key[0] != LBRACKET;
    assert |Stored(key, v[eq + 1..])| < |v| && Stored(key, v) == v;
  }

  /** The text of a value reads as settings with nothing left over: none of them lacks an equals
      sign, and none begins with the quote that ends the value. */
  predicate Complete(v: Bytes)
    decreases |v|
  {
    var s := TrimBlanks(v);
    s == [] || (
      var eq := IndexByte(s, EQUALS);
      eq >= 0 && Starts(s, eq) && Complete(AfterValue(s, eq)))
  }

  /** The value behind the equals sign has no opening quote. */
  predicate Starts(s: Bytes, eq: nat)
    requires eq < |s|
  {
    eq + 1 < |s| ==> s[eq + 1] != QUOTE
  }

  function AfterValue(s: Bytes, eq: nat): (r: Bytes)
    requires eq < |s|
    ensures |r| < |s|
  {
    s[eq + 1..][BlankIndex(s[eq + 1..])..]
  }

  lemma TrimInFront(v: Bytes, more: Bytes)
    ensures TrimBlanks(v + more) == if TrimBlanks(v) == [] then TrimBlanks(more) else TrimBlanks(v) + more
  {
    if v == [] {
      assert v + more == more;
    } else {
      assert (v + more)[1..] == v[1..] + more && (v + more)[0] == v[0];
      if IsBlank(v[0]) { TrimInFront(v[1..], more); }
    }
  }

  lemma BlankInFrontOf(u: Bytes, more: Bytes)
    requires more == [] || more[0] == SPACE
    ensures BlankIndex(u + more) == BlankIndex(u)
    ensures (u + more)[..BlankIndex(u)] == u[..BlankIndex(u)] && (u + more)[BlankIndex(u)..] == u[BlankIndex(u)..] + more
  {
    hide BlankIndex;
    var k, k' := BlankIndex(u), BlankIndex(u + more);
    assert forall j :: 0 <= j < |u| ==> (u + more)[j] == u[j];
    assert k < |u| ==> IsBlank((u + more)[k]);
    assert k == |u| && more != [] ==> (u + more)[k] == SPACE;
  }

  /** One setting of the value's text is read, whatever settings follow. */
  lemma FirstSetting(v: Bytes, more: Bytes, info: Info)
    requires more == [] || more[0] == SPACE
    requires var s := TrimBlanks(v); var eq := IndexByte(s, EQUALS); eq >= 0 && Starts(s, eq)
    ensures var s := TrimBlanks(v);
      var eq := IndexByte(s, EQUALS);
      var u := s[eq + 1..];
      ReadSettings(v + more, info) == ReadSettings(AfterValue(s, eq) + more, Assign(info, TrimSpace(s[..eq]), u[..BlankIndex(u)]))
  {
    hide IndexByte, TrimSpace, Assign, BlankIndex, TrimBlanks;
    var s := TrimBlanks(v);
    var eq := IndexByte(s, EQUALS);
    var u := s[eq + 1..];
    TrimInFront(v, more);
    var text := s + more;
    assert text == s[..eq] + [EQUALS] + (u + more);
    FirstIs(s[..eq], EQUALS, u + more);
    assert text[..eq] == s[..eq] && text[eq + 1..] == u + more;
    BlankInFrontOf(u, more);
    assert u + more != [] ==> (u + more)[0] != QUOTE;
  }

  lemma BlankTextIsNothing(v: Bytes, more: Bytes, info: Info)
    requires TrimBlanks(v) == []
    ensures ReadSettings(v + more, info) == ReadSettings(more, info) && ReadSettings(v, info) == info
  {
    hide ReadValue, Assign, TrimSpace;
    TrimInFront(v, more);
  }

  lemma CompleteGoesOn(v: Bytes)
    requires Complete(v) && TrimBlanks(v) != []
    ensures var s := TrimBlanks(v); var eq := IndexByte(s, EQUALS); eq >= 0 && Starts(s, eq) && Complete(AfterValue(s, eq))
  {
    hide IndexByte, TrimBlanks, AfterValue;
  }

  lemma {:induction false} CompleteIsRead(v: Bytes, more: Bytes, info: Info)
    requires Complete(v) && (more == [] || more[0] == SPACE)
    ensures ReadSettings(v + more, info) == ReadSettings(more, ReadSettings(v, info))
    decreases |v|
  {
    hide *;
    var s := TrimBlanks(v);
    if s == [] {
      BlankTextIsNothing(v, more, info);
    } else {
      CompleteGoesOn(v);
      var eq := IndexByte(s, EQUALS);
      var u, rest := s[eq + 1..], AfterValue(s, eq);
      var next := Assign(info, TrimSpace(s[..eq]), u[..BlankIndex(u)]);
      FirstSetting(v, more, info);
      FirstSetting(v, [], info);
      assert v + [] == v && rest + [] == rest;
      CompleteIsRead(rest, more, next);
    }
  }

  predicate EndsWell(v: Bytes) { v != [] && (v[|v| - 1] == QUOTE || forall b :: b in v ==> 0x20 < b < 0x80) }

  /** What is left of a printed value somewhere in it: quotes are escaped or at its end, or it has
      none and no blanks either. */
  predicate EndOfValue(v: Bytes) {
    EndsWell(v) && (ClosedQuotes(v) || (v[0] == QUOTE && ClosedQuotes(v[1..])))
  }

  lemma PrintedIsEnd(s: Setting)
    requires Printable(s) && PrintValue(s) != []
    ensures EndOfValue(PrintValue(s))
  {
    var v := PrintValue(s);
    if s.quoted {
      EscapedIsClosed(s.value);
      assert v[1..] == EscapeQuoted(s.value) + [QUOTE];
    } else {
      assert forall i :: 0 <= i < |v| ==> v[i] in s.value;
    }
  }

  lemma TrimmedEnd(v: Bytes)
    requires EndOfValue(v) && TrimBlanks(v) != []
    ensures EndOfValue(TrimBlanks(v))
  {
    var k := TrimmedIsSuffix(v);
    if k > 0 {
      assert IsBlank(v[0]) && !IsBlank(QUOTE);
      ClosedSuffix(v, k);
      EndOfEnd(v, k);
    } else {
      assert v[0..] == v;
    }
  }

  lemma EndOfEnd(v: Bytes, k: nat)
    requires EndsWell(v) && k < |v|
    ensures EndsWell(v[k..])
  {
    var r := v[k..];
    assert r[|r| - 1] == v[|v| - 1];
    forall b | b in r
      ensures b in v
    {
      var j :| 0 <= j < |r| && r[j] == b;
      assert v[k + j] == b;
    }
  }

  lemma BehindEquals(s: Bytes, eq: nat)
    requires EndOfValue(s) && eq + 1 < |s| && s[eq] == EQUALS
    ensures ClosedQuotes(s[eq + 1..]) && EndsWell(s[eq + 1..])
  {
    EndOfEnd(s, eq + 1);
    if ClosedQuotes(s) {
      ClosedSuffix(s, eq + 1);
    } else {
      assert s[1..][eq - 1] == EQUALS && s[1..][eq..] == s[eq + 1..];
      ClosedSuffix(s[1..], eq);
    }
  }

  lemma BehindValue(u: Bytes)
    requires ClosedQuotes(u) && EndsWell(u) && u[BlankIndex(u)..] != []
    ensures EndOfValue(u[BlankIndex(u)..])
  {
    hide BlankIndex, ClosedQuotes, EndsWell;
    var k := BlankIndex(u);
    assert !IsBlank(QUOTE);
    ClosedSuffix(u, k);
    EndOfEnd(u, k);
  }

  /** `dbname=x` with the given byte for the name. */
  function Named(name: byte): seq<Setting> { [Setting(DBNAME, [name], false)] }

  lemma NamedIs(name: byte, info: Info)
    requires name == 0x78 || name == 0x79
    ensures AllPrintable(Named(name)) && Applied(Named(name), info) == Assign(info, DBNAME, [name])
    ensures Assign(info, DBNAME, [name]).dbName == [name]
    ensures var more := More(Named(name)); |more| > 1 && more[0] == SPACE && QUOTE !in more && BACKSLASH !in more
  {
    var all := Named(name);
    assert DBNAME[0] != HOST[0] && DBNAME[0] != PORT[0];
    assert all[1..] == [] && More([]) == [];
    assert Print(all) == DBNAME + [EQUALS] + ([name] + []);
  }

  lemma {:induction false} UnclosedTakesAll(s: Bytes)
    requires QUOTE !in s && BACKSLASH !in s
    ensures ReadQuoted(s) == (s, [])
    decreases |s|
  {
    if s != [] {
      assert s[0] in s;
      UnclosedTakesAll(s[1..]);
      assert [s[0]] + s[1..] == s;
    }
  }

  /** With something left over, one of two database names that follow is not read. */
  lemma {:induction false} IncompleteLoses(v: Bytes, info: Info)
    requires EndOfValue(v) && !Complete(v)
    ensures ReadSettings(v + More(Named(0x78)), info).dbName != [0x78] || ReadSettings(v + More(Named(0x79)), info).dbName != [0x79]
    decreases |v|
  {
    hide ReadSettings, Assign, TrimSpace, EndOfValue, AfterValue, More, Named, Applied, Starts;
    var s := TrimBlanks(v);
    TrimmedEnd(v);
    NamedIs(0x78, info);
    NamedIs(0x79, info);
    var eq := IndexByte(s, EQUALS);
    if eq < 0 {
      LeftoverLoses(v, 0x78, info);
      LeftoverLoses(v, 0x79, info);
    } else if !Starts(s, eq) {
      OpenQuoteLoses(v, 0x78, info);
      OpenQuoteLoses(v, 0x79, info);
    } else {
      var u, rest := s[eq + 1..], AfterValue(s, eq);
      var next := Assign(info, TrimSpace(s[..eq]), u[..BlankIndex(u)]);
      FirstSetting(v, More(Named(0x78)), info);
      FirstSetting(v, More(Named(0x79)), info);
      TailOfValue(s, eq);
      IncompleteLoses(rest, next);
    }
  }

  lemma TailOfValue(s: Bytes, eq: nat)
    requires EndOfValue(s) && eq < |s| && s[eq] == EQUALS
    ensures AfterValue(s, eq) != [] ==> EndOfValue(AfterValue(s, eq))
  {
    hide BlankIndex, EndOfValue;
    if AfterValue(s, eq) != [] {
      BehindEquals(s, eq);
      BehindValue(s[eq + 1..]);
    }
  }

  /** A key without an equals sign swallows the next one. */
  lemma LeftoverLoses(v: Bytes, name: byte, info: Info)
    requires EndOfValue(v) && TrimBlanks(v) != [] && IndexByte(TrimBlanks(v), EQUALS) < 0 && (name == 0x78 || name == 0x79)
    ensures ReadSettings(v + More(Named(name)), info) == info
  {
    assert Applied(Named(name)[1..], info) == info && Named(name) != [];
    hide *;
    var s, more := TrimBlanks(v), More(Named(name));
    NamedIs(name, info);
    TrimmedEnd(v);
    TrimInFront(v, more);
    AlreadyTrimmed(s);
    TrimInFront(s, more);
    TrimmedTextReadsSame(v + more, s + more, info);
    EndStarts(s);
    MergedKeyIsLost(s, Named(name), info);
  }

  lemma TrimmedTextReadsSame(text: Bytes, text': Bytes, info: Info)
    requires TrimBlanks(text) == TrimBlanks(text')
    ensures ReadSettings(text, info) == ReadSettings(text', info)
  {
    hide ReadValue, Assign, TrimSpace, TrimBlanks;
  }

  lemma EndStarts(s: Bytes)
    requires EndOfValue(s)
    ensures s != [] && (0x20 < s[0] < 0x80 || QUOTE in s)
  {
    assert s[0] in s && s[|s| - 1] in s;
  }

  lemma AlreadyTrimmed(s: Bytes)
    requires s != [] && !IsBlank(s[0])
    ensures TrimBlanks(s) == s
  {
  }

  /** A quote that is never closed takes everything behind it as the value. */
  lemma OpenQuoteLoses(v: Bytes, name: byte, info: Info)
    requires EndOfValue(v) && TrimBlanks(v) != [] && (name == 0x78 || name == 0x79)
    requires var s := TrimBlanks(v); var eq := IndexByte(s, EQUALS); eq >= 0 && !Starts(s, eq)
    ensures var r := ReadSettings(v + More(Named(name)), info); r.dbName != [name] || r.dbName == info.dbName
  {
    hide IndexByte, TrimSpace, More, TrimBlanks, EndOfValue, Named, Assign, ReadQuoted;
    var s, more := TrimBlanks(v), More(Named(name));
    var eq := IndexByte(s, EQUALS);
    NamedIs(name, info);
    TrimmedEnd(v);
    TrimInFront(v, more);
    BehindEquals(s, eq);
    var text := s + more;
    assert s == s[..eq] + [EQUALS] + [QUOTE];
    assert text == s[..eq] + [EQUALS] + ([QUOTE] + more);
    FirstIs(s[..eq], EQUALS, [QUOTE] + more);
    assert text[..eq] == s[..eq] && text[eq + 1..] == [QUOTE] + more && ([QUOTE] + more)[1..] == more;
    UnclosedTakesAll(more);
    var key := TrimSpace(s[..eq]);
    EmptyText(Assign(info, key, more));
    AssignedField(info, key, more, DBNAME);
    assert Recorded(DBNAME) && DBNAME[0] != HOST[0] && DBNAME[0] != PORT[0];
  }

  /** Blanks in front of a value are harmless, whatever settings follow, exactly when there are none,
      or nothing is printed, or the key is none that is recorded and the value's own text is a
      complete list of settings that changes nothing of what was read before. */
  lemma BlanksIff(blanks: Bytes, s: Setting, info: Info)
    requires Printable(s) && AllBlank(blanks)
    ensures (forall rest :: AllPrintable(rest) ==> ReadSettings(BlankSetting(blanks, s, rest), info) == Applied([s] + rest, info))
      <==> || blanks == [] || PrintValue(s) == []
           || (!Recorded(s.key) && Complete(PrintValue(s)) && ReadSettings(PrintValue(s), info) == info)
  {
    hide *;
    var v := PrintValue(s);
    if blanks == [] || v == [] {
      forall rest | AllPrintable(rest)
        ensures ReadSettings(BlankSetting(blanks, s, rest), info) == Applied([s] + rest, info)
      {
        BlanksAreHarmless(blanks, s, rest, info);
      }
    } else if !Recorded(s.key) && Complete(v) && ReadSettings(v, info) == info {
      forall rest | AllPrintable(rest)
        ensures ReadSettings(BlankSetting(blanks, s, rest), info) == Applied([s] + rest, info)
      {
        ReadBehindBlanks(blanks, s, rest, info);
        ValueRecovers(s, rest, info);
      }
    } else {
      var rest := SettingThatFails(s, info);
      ReadBehindBlanks(blanks, s, rest, info);
    }
  }

  /** So it is in a name, wherever in it the setting stands. */
  lemma BlanksBeforeValueIff(front: seq<Setting>, blanks: Bytes, s: Setting)
    requires AllPrintable(front) && Printable(s) && AllBlank(blanks)
    ensures var info := Applied(front, LIBPQ_DEFAULT);
      (forall rest :: AllPrintable(rest) ==> LibpqInfo(BlankText(front, blanks, s, rest)) == Applied(front + [s] + rest, LIBPQ_DEFAULT))
      <==> || blanks == [] || PrintValue(s) == []
           || (!Recorded(s.key) && Complete(PrintValue(s)) && ReadSettings(PrintValue(s), info) == info)
  {
    hide *;
    var info := Applied(front, LIBPQ_DEFAULT);
    forall rest | AllPrintable(rest)
      ensures LibpqInfo(BlankText(front, blanks, s, rest)) == ReadSettings(BlankSetting(blanks, s, rest), info)
      ensures Applied(front + [s] + rest, LIBPQ_DEFAULT) == Applied([s] + rest, info)
    {
      BlankTextIsRead(front, blanks, s, rest);
      AllApplied(front, s, rest);
    }
    BlanksIff(blanks, s, info);
  }

  lemma ReadBehindBlanks(blanks: Bytes, s: Setting, rest: seq<Setting>, info: Info)
    requires Printable(s) && AllPrintable(rest) && AllBlank(blanks) && blanks != []
    ensures ReadSettings(BlankSetting(blanks, s, rest), info) == ReadSettings(PrintValue(s) + More(rest), Assign(info, s.key, []))
    ensures Applied([s] + rest, info) == Applied(rest, Assign(info, s.key, s.value))
  {
    hide ReadSettings, Assign, PrintValue;
    BlanksEndValue(blanks, s, PrintValue(s) + More(rest), info);
    var all := [s] + rest;
    assert all[0] == s && all[1..] == rest;
  }

  lemma OtherKeyIsIgnored(info: Info, key: Bytes, value: Bytes)
    requires !Recorded(key)
    ensures Assign(info, key, value) == info
  {
  }

  lemma ValueRecovers(s: Setting, rest: seq<Setting>, info: Info)
    requires AllPrintable(rest)
    requires !Recorded(s.key) && Complete(PrintValue(s)) && ReadSettings(PrintValue(s), info) == info
    ensures ReadSettings(PrintValue(s) + More(rest), Assign(info, s.key, [])) == Applied(rest, Assign(info, s.key, s.value))
  {
    assert More(rest) == [] || More(rest)[0] == SPACE;
    hide *;
    OtherKeyIsIgnored(info, s.key, []);
    OtherKeyIsIgnored(info, s.key, s.value);
    CompleteIsRead(PrintValue(s), More(rest), info);
    SettingsAreRead(rest, info);
  }

  lemma SettingThatFails(s: Setting, info: Info) returns (rest: seq<Setting>)
    requires Printable(s) && PrintValue(s) != []
    requires Recorded(s.key) || !Complete(PrintValue(s)) || ReadSettings(PrintValue(s), info) != info
    ensures AllPrintable(rest)
    ensures ReadSettings(PrintValue(s) + More(rest), Assign(info, s.key, [])) != Applied(rest, Assign(info, s.key, s.value))
  {
    var nothing: seq<Setting> := [];
    assert AllPrintable(nothing);
    assert PrintValue(s) + More(nothing) == PrintValue(s) && forall i :: Applied(nothing, i) == i;
    hide *;
    rest := nothing;
    if !Complete(PrintValue(s)) {
      rest := NameThatIsLost(s, info);
    } else if Recorded(s.key) {
      CompleteHasEquals(s);
      ValueIsNotRestored(s, info);
    } else {
      OtherKeyIsIgnored(info, s.key, []);
      OtherKeyIsIgnored(info, s.key, s.value);
    }
  }

  lemma CompleteHasEquals(s: Setting)
    requires Printable(s) && PrintValue(s) != [] && Complete(PrintValue(s))
    ensures EQUALS in s.value
  {
    hide IndexByte;
    var v := PrintValue(s);
    ValueEndsClean(s);
    AlreadyTrimmed(v);
    assert EQUALS in v;
    if EQUALS !in s.value { PrintedHasNoEquals(s); }
  }

  lemma NameThatIsLost(s: Setting, info: Info) returns (rest: seq<Setting>)
    requires Printable(s) && PrintValue(s) != [] && !Complete(PrintValue(s))
    ensures AllPrintable(rest)
    ensures ReadSettings(PrintValue(s) + More(rest), Assign(info, s.key, [])) != Applied(rest, Assign(info, s.key, s.value))
  {
    hide *;
    var v, start := PrintValue(s), Assign(info, s.key, []);
    PrintedIsEnd(s);
    IncompleteLoses(v, start);
    var name: byte := if ReadSettings(v + More(Named(0x78)), start).dbName != [0x78] then 0x78 else 0x79;
    rest := Named(name);
    NamedIs(name, Assign(info, s.key, s.value));
  }

  lemma ValueIsNotRestored(s: Setting, info: Info)
    requires Printable(s) && Recorded(s.key) && EQUALS in s.value
    ensures ReadSettings(PrintValue(s), Assign(info, s.key, [])) != Assign(info, s.key, s.value)
  {
    assert Stored(s.key, []) == [];
    hide Assign, Field, Stored, TrimSpace;
    AssignedField(info, s.key, [], s.key);
    AssignedField(info, s.key, s.value, s.key);
    if s.quoted {
      QuotedIsNotRestored(s.value, Assign(info, s.key, []), s.key);
    } else {
      UnquotedIsNotRestored(s, Assign(info, s.key, []));
    }
  }

  lemma {:induction false} EscapeAddsNoEquals(value: Bytes)
    requires EQUALS !in value
    ensures EQUALS !in EscapeQuoted(value)
    decreases |value|
  {
    if value != [] {
      assert value == [value[0]] + value[1..];
      EscapeAddsNoEquals(value[1..]);
    }
  }

  lemma PrintedHasNoEquals(s: Setting)
    requires EQUALS !in s.value
    ensures EQUALS !in PrintValue(s)
  {
    EscapeAddsNoEquals(s.value);
  }

  /** `port= '' dbname=x`: the value is empty as it should be, and the database is lost. */
  lemma BlankLosesDatabase()
    ensures var s, rest := Setting(PORT, [], true), [Setting(DBNAME, [0x78], false)];
      && LibpqInfo(BlankText([], [SPACE], s, rest)) == Info(LOCALHOST, [], [])
      && Applied([s] + rest, LIBPQ_DEFAULT) == Info(LOCALHOST, [], [0x78])
  {
    var s, rest := Setting(PORT, [], true), [Setting(DBNAME, [0x78], false)];
    assert Printable(s) && AllPrintable(rest) && AllBlank([SPACE]);
    PrintedHasNoEquals(s);
    BlanksLose([], [SPACE], s, rest);
    var all := [s] + rest;
    assert all[0] == s && all[1..] == rest && rest[1..] == [];
    assert PORT[0] != HOST[0] && DBNAME[0] != PORT[0] && DBNAME[0] != HOST[0];
    var given := Assign(LIBPQ_DEFAULT, s.key, s.value);
    assert Applied(rest, given) == Assign(given, DBNAME, [0x78]);
  }

  /** `host=h o= host=localhost`: the value of a key that is not recorded is read as a setting that
      would change no default, and so overwrites the host set in front of it. */
  lemma BlankOverwritesHost()
    ensures var front, s := [Setting(HOST, [0x68], false)], Setting([0x6F], HOST + [EQUALS] + LOCALHOST, false);
      && LibpqInfo(BlankText(front, [SPACE], s, [])).host == LOCALHOST
      && Applied(front + [s] + [], LIBPQ_DEFAULT).host == [0x68]
  {
    var front, s := [Setting(HOST, [0x68], false)], Setting([0x6F], HOST + [EQUALS] + LOCALHOST, false);
    var info := LIBPQ_DEFAULT.(host := [0x68]);
    HostsArePrintable(front, s);
    assert front[1..] == [] && Applied(front, LIBPQ_DEFAULT) == info;
    assert PrintValue(s) + More([]) == s.value && Applied([], info) == info;
    HostIsRead(info);
    hide *;
    OtherKeyIsIgnored(info, s.key, []);
    OtherKeyIsIgnored(info, s.key, s.value);
    BlankTextIsRead(front, [SPACE], s, []);
    AllApplied(front, s, []);
    ReadBehindBlanks([SPACE], s, [], info);
  }

  lemma HostsArePrintable(front: seq<Setting>, s: Setting)
    requires front == [Setting(HOST, [0x68], false)] && s == Setting([0x6F], HOST + [EQUALS] + LOCALHOST, false)
    ensures Printable(s) && AllPrintable(front) && AllPrintable([]) && AllBlank([SPACE]) && !Recorded(s.key)
  {
    MembersOf3(HOST, [EQUALS], LOCALHOST);
  }

  lemma HostIsRead(info: Info)
    ensures ReadSettings(HOST + [EQUALS] + LOCALHOST, info) == info.(host := LOCALHOST)
  {
    hide IndexByte, ReadSettings;
    var v := HOST + [EQUALS] + LOCALHOST;
    FirstIs(HOST, EQUALS, LOCALHOST);
    assert v[..4] == HOST && v[5..] == LOCALHOST;
    ReadsOnce(v, info);
  }
}
