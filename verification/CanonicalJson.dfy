/** The key that the comparison sorts by: a value's JSON text, as `json.dumps` prints it
    with its defaults. The text determines the value, and texts are totally ordered. */
module CanonicalJson {

  datatype Json =
    | Null
    | Bool(b: bool)
    | Number(n: int)
    | Text(s: string)
    | Array(items: seq<Json>)
    | Object(members: seq<Member>)  // in the order of their keys

  datatype Member = Member(key: string, value: Json)

  // ---- strings ----

  function HexDigit(d: nat): char
    requires d < 16
  {
    "0123456789abcdef"[d]
  }

  /** The last `width` hexadecimal digits. */
  function Hex(n: nat, width: nat): (r: string)
    ensures |r| == width
  {
    if width == 0 then "" else Hex(n / 16, width - 1) + [HexDigit(n % 16)]
  }

  function Hex4(n: nat): (r: string)
    ensures |r| == 4
  {
    Hex(n, 4)
  }

  /** One character of a string; what is not printable ASCII becomes UTF-16 escapes. */
  function Escape(c: char): string {
    if c == '\"' then "\\\""
    else if c == '\\' then "\\\\"
    else if c == '\n' then "\\n"
    else if c == '\r' then "\\r"
    else if c == '\t' then "\\t"
    else if c as int == 0x08 then "\\b"
    else if c as int == 0x0C then "\\f"
    else if ' ' <= c <= '~' then [c]
    else if c as int < 0x10000 then "\\u" + Hex4(c as int)
    else
      var v := c as int - 0x10000;
      "\\u" + Hex4(0xD800 + v / 0x400) + "\\u" + Hex4(0xDC00 + v % 0x400)
  }

  /** The rest of a quoted string, with the closing quote. */
  function Quoted(s: string): string {
    if s == [] then "\"" else Escape(s[0]) + Quoted(s[1..])
  }

  function Quote(s: string): string { "\"" + Quoted(s) }

  // ---- numbers ----

  function Digit(d: nat): char
    requires d < 10
  {
    "0123456789"[d]
  }

  function Digits(n: nat): string {
    if n < 10 then [Digit(n)] else Digits(n / 10) + [Digit(n % 10)]
  }

  function Decimal(n: int): string { if n < 0 then "-" + Digits(-n) else Digits(n) }

  // ---- values ----

  function Dump(v: Json): string {
    match v
    case Null => "null"
    case Bool(b) => if b then "true" else "false"
    case Number(n) => Decimal(n)
    case Text(s) => Quote(s)
    case Array(items) => if items == [] then "[]" else "[" + Dump(items[0]) + MoreItems(items[1..])
    case Object(members) => if members == [] then "{}" else "{" + DumpMember(members[0]) + MoreMembers(members[1..])
  }

  function DumpMember(m: Member): string { Quote(m.key) + ": " + Dump(m.value) }

  function MoreItems(items: seq<Json>): string {
    if items == [] then "]" else ", " + Dump(items[0]) + MoreItems(items[1..])
  }

  function MoreMembers(members: seq<Member>): string {
    if members == [] then "}" else ", " + DumpMember(members[0]) + MoreMembers(members[1..])
  }

  // ---- the text determines the value ----

  predicate Fits(n: nat, width: nat) { if width == 0 then n == 0 else Fits(n / 16, width - 1) }

  lemma {:induction false} HexDetermines(m: nat, n: nat, width: nat)
    requires Fits(m, width) && Fits(n, width) && Hex(m, width) == Hex(n, width)
    ensures m == n
    decreases width
  {
    if width > 0 {
      var a, b := Hex(m, width), Hex(n, width);
      assert a[..width - 1] == Hex(m / 16, width - 1) && b[..width - 1] == Hex(n / 16, width - 1);
      assert a[width - 1] == HexDigit(m % 16) && b[width - 1] == HexDigit(n % 16);
      HexDetermines(m / 16, n / 16, width - 1);
    }
  }

  lemma CodeFits(n: nat)
    requires n < 0x10000
    ensures Fits(n, 4)
  {
    assert n / 16 < 0x1000 && n / 16 / 16 < 0x100 && n / 16 / 16 / 16 < 0x10;
    assert Fits(n / 16 / 16 / 16 / 16, 0);
    assert Fits(n / 16 / 16, 2);
  }

  /** The escape is one plain character, or a backslash with one letter, or one or two UTF-16 units. */
  datatype Escaped = Plain(c: char) | Letter(c: char) | Unit(code: nat) | Pair(high: nat, low: nat)

  function FormOf(c: char): (e: Escaped)
    ensures e.Plain? ==> e.c == c && ' ' <= c <= '~' && c != '\"' && c != '\\'
    ensures e.Letter? ==> e.c != 'u'
    ensures e.Unit? ==> e.code == c as int < 0x10000 && !(0xD800 <= e.code < 0xE000)
    ensures e.Pair? ==> 0xD800 <= e.high < 0xDC00 <= e.low < 0xE000
    ensures e.Pair? ==> c as int == 0x10000 + (e.high - 0xD800) * 0x400 + (e.low - 0xDC00)
    ensures Escape(c) == match e
                         case Plain(p) => [p]
                         case Letter(l) => ['\\', l]
                         case Unit(n) => "\\u" + Hex4(n)
                         case Pair(h, l) => "\\u" + Hex4(h) + "\\u" + Hex4(l)
  {
    if c == '\"' || c == '\\' then Letter(c)
    else if c == '\n' then Letter('n')
    else if c == '\r' then Letter('r')
    else if c == '\t' then Letter('t')
    else if c as int == 0x08 then Letter('b')
    else if c as int == 0x0C then Letter('f')
    else if ' ' <= c <= '~' then Plain(c)
    else if c as int < 0x10000 then Unit(c as int)
    else Pair(0xD800 + (c as int - 0x10000) / 0x400, 0xDC00 + (c as int - 0x10000) % 0x400)
  }

  lemma UnitPrefix(m: nat, n: nat, r: string, q: string)
    requires m < 0x10000 && n < 0x10000 && "\\u" + Hex4(m) + r == "\\u" + Hex4(n) + q
    ensures m == n && r == q
  {
    var a, b := "\\u" + Hex4(m), "\\u" + Hex4(n);
    assert (a + r)[2..6] == Hex4(m) && (b + q)[2..6] == Hex4(n);
    CodeFits(m);
    CodeFits(n);
    HexDetermines(m, n, 4);
    assert (a + r)[6..] == r && (b + q)[6..] == q;
  }

  /** An escape can be read off the front of any text. */
  lemma EscapePrefix(c: char, d: char, r: string, q: string)
    requires Escape(c) + r == Escape(d) + q
    ensures c == d && r == q
  {
    hide Escape, Hex4;
    var e, f := FormOf(c), FormOf(d);
    var x, y := Escape(c) + r, Escape(d) + q;
    assert x[0] == y[0] && Escape(c)[0] == x[0] && Escape(d)[0] == y[0];
    match e
    case Plain(_) =>
      assert f == e && x[1..] == r && y[1..] == q;
    case Letter(_) =>
      assert x[1] == Escape(c)[1] && y[1] == Escape(d)[1];
      assert f == e && x[2..] == r && y[2..] == q;
    case Unit(n) =>
      assert x[1] == Escape(c)[1] && y[1] == Escape(d)[1];
      UnitsPrefix(e, f, r, q);
    case Pair(h, l) =>
      assert x[1] == Escape(c)[1] && y[1] == Escape(d)[1];
      UnitsPrefix(e, f, r, q);
  }

  predicate IsUnits(e: Escaped) {
    match e
    case Unit(n) => n < 0x10000 && !(0xD800 <= n < 0xE000)
    case Pair(h, l) => 0xD800 <= h < 0xDC00 <= l < 0xE000
    case _ => false
  }

  function Units(e: Escaped): string
    requires IsUnits(e)
  {
    match e
    case Unit(n) => "\\u" + Hex4(n)
    case Pair(h, l) => "\\u" + Hex4(h) + "\\u" + Hex4(l)
  }

  /** What follows the first unit of an escape. */
  lemma UnitsSplit(e: Escaped, r: string)
    requires IsUnits(e)
    ensures e.Unit? ==> Units(e) + r == "\\u" + Hex4(e.code) + r
    ensures e.Pair? ==> Units(e) + r == "\\u" + Hex4(e.high) + ("\\u" + Hex4(e.low) + r)
  {
    hide Hex4;
    if e.Pair? {
      var a, b := "\\u" + Hex4(e.high), "\\u" + Hex4(e.low);
      assert Units(e) == a + b by { assert "\\u" + Hex4(e.high) + "\\u" + Hex4(e.low) == a + b; }
      assert a + b + r == a + (b + r);
    }
  }

  lemma UnitsPrefix(e: Escaped, f: Escaped, r: string, q: string)
    requires IsUnits(e) && IsUnits(f) && Units(e) + r == Units(f) + q
    ensures e == f && r == q
  {
    hide Hex4;
    var m := if e.Unit? then e.code else e.high;
    var n := if f.Unit? then f.code else f.high;
    var r' := if e.Unit? then r else "\\u" + Hex4(e.low) + r;
    var q' := if f.Unit? then q else "\\u" + Hex4(f.low) + q;
    UnitsSplit(e, r);
    UnitsSplit(f, q);
    hide Units;
    UnitPrefix(m, n, r', q');
    if e.Pair? {
      UnitPrefix(e.low, f.low, r, q);
    }
  }

  lemma {:induction false} QuotedPrefix(s: string, t: string, r: string, q: string)
    requires Quoted(s) + r == Quoted(t) + q
    ensures s == t && r == q
    decreases |s|
  {
    hide Escape;
    var x, y := Quoted(s) + r, Quoted(t) + q;
    if s != [] { EscapeIsNoQuote(s[0]); assert x[0] == Escape(s[0])[0]; }
    if t != [] { EscapeIsNoQuote(t[0]); assert y[0] == Escape(t[0])[0]; }
    if s == [] {
      assert x[1..] == r && y[1..] == q;
    } else {
      assert x == Escape(s[0]) + (Quoted(s[1..]) + r) && y == Escape(t[0]) + (Quoted(t[1..]) + q);
      EscapePrefix(s[0], t[0], Quoted(s[1..]) + r, Quoted(t[1..]) + q);
      QuotedPrefix(s[1..], t[1..], r, q);
    }
  }

  lemma EscapeIsNoQuote(c: char)
    ensures |Escape(c)| >= 1 && Escape(c)[0] != '\"'
  {
    hide Escape, Hex4;
    var e := FormOf(c);
  }

  // ---- numbers ----

  predicate IsDigit(c: char) { '0' <= c <= '9' }

  /** What may follow a value: nothing, or what closes or separates. */
  predicate Stops(r: string) { r == [] || r[0] in {',', ']', '}'} }

  lemma {:induction false} DigitsShape(n: nat)
    ensures |Digits(n)| >= 1 && forall i :: 0 <= i < |Digits(n)| ==> IsDigit(Digits(n)[i])
    decreases n
  {
    if n >= 10 { DigitsShape(n / 10); }
  }

  lemma {:induction false} DigitsDetermine(m: nat, n: nat)
    requires Digits(m) == Digits(n)
    ensures m == n
    decreases m
  {
    LastDigit(m);
    LastDigit(n);
    DigitIsItself(m % 10, n % 10);
    hide Digits, Digit;
    if m >= 10 {
      DigitsDetermine(m / 10, n / 10);
    }
  }

  lemma LastDigit(n: nat)
    ensures var a := Digits(n); |a| >= 1 && a[|a| - 1] == Digit(n % 10)
    ensures |Digits(n)| > 1 <==> n >= 10
    ensures n >= 10 ==> Digits(n)[..|Digits(n)| - 1] == Digits(n / 10)
  {
    DigitsShape(n / 10);
  }

  lemma DigitIsItself(d: nat, e: nat)
    requires d < 10 && e < 10
    ensures Digit(d) == Digit(e) ==> d == e
  {
  }

  lemma DigitsGoOn(a: string, b: string, r: string, q: string)
    requires a + r == b + q && forall i :: 0 <= i < |b| ==> IsDigit(b[i])
    ensures |b| <= |a| || (r != [] && IsDigit(r[0]))
  {
    if |b| > |a| {
      assert (b + q)[|a|] == b[|a|] && (a + r)[|a|] == r[0];
    }
  }

  lemma DigitsPrefix(m: nat, n: nat, r: string, q: string)
    requires Digits(m) + r == Digits(n) + q && Stops(r) && Stops(q)
    ensures m == n && r == q
  {
    hide Digits;
    DigitsShape(m);
    DigitsShape(n);
    var a, b := Digits(m), Digits(n);
    DigitsGoOn(a, b, r, q);
    DigitsGoOn(b, a, q, r);
    assert a == (a + r)[..|a|] && b == (b + q)[..|b|];
    CancelFront(a, r, q);
    DigitsDetermine(m, n);
  }

  lemma CancelFront(front: string, r: string, q: string)
    requires front + r == front + q
    ensures r == q
  {
    assert (front + r)[|front|..] == r && (front + q)[|front|..] == q;
  }

  lemma Regroup(a: string, b: string, c: string, r: string)
    ensures a + b + c + r == a + (b + (c + r))
    ensures a + b + r == a + (b + r)
  {
  }

  // ---- values ----

  /** The first character tells the kind of value. */
  function Kind(c: char): nat {
    if c == 'n' then 0 else if c == 't' || c == 'f' then 1 else if c == '-' || IsDigit(c) then 2
    else if c == '\"' then 3 else if c == '[' then 4 else 5
  }

  function KindOf(v: Json): nat {
    match v
    case Null => 0
    case Bool(_) => 1
    case Number(_) => 2
    case Text(_) => 3
    case Array(_) => 4
    case Object(_) => 5
  }

  lemma DumpShape(v: Json)
    ensures |Dump(v)| >= 1 && Kind(Dump(v)[0]) == KindOf(v)
    ensures !Stops(Dump(v))
  {
    if v.Number? { DigitsShape(if v.n < 0 then -v.n else v.n); }
  }

  lemma SameFront(a: string, b: string, r: string, q: string)
    requires a + r == b + q && |a| >= 1 && |b| >= 1
    ensures a[0] == b[0]
  {
    assert a[0] == (a + r)[0] && b[0] == (b + q)[0];
  }

  /** A value's text can be read off the front of any text, so no value's text
      continues another's, and equal texts mean equal values. */
  lemma {:induction false} DumpPrefix(v: Json, w: Json, r: string, q: string)
    requires Dump(v) + r == Dump(w) + q && Stops(r) && Stops(q)
    ensures v == w && r == q
    decreases v, 1
  {
    DumpShape(v);
    DumpShape(w);
    SameFront(Dump(v), Dump(w), r, q);
    match v
    case Null =>
      CancelFront("null", r, q);
    case Bool(b) =>
      assert w.b == b;
      CancelFront(Dump(v), r, q);
    case Number(n) =>
      NumberPrefix(n, w.n, r, q);
    case Text(s) =>
      TextPrefix(s, w.s, r, q);
    case Array(items) =>
      ArrayPrefix(items, w.items, r, q);
    case Object(members) =>
      ObjectPrefix(members, w.members, r, q);
  }

  lemma NumberPrefix(m: int, n: int, r: string, q: string)
    requires Decimal(m) + r == Decimal(n) + q && Stops(r) && Stops(q)
    ensures m == n && r == q
  {
    hide Digits, Stops;
    DigitsShape(if m < 0 then -m else m);
    DigitsShape(if n < 0 then -n else n);
    SameFront(Decimal(m), Decimal(n), r, q);
    assert m < 0 ==> Decimal(m)[0] == '-';
    assert n < 0 ==> Decimal(n)[0] == '-';
    assert m < 0 <==> n < 0;
    if m < 0 {
      Regroup("-", Digits(-m), "", r);
      Regroup("-", Digits(-n), "", q);
      CancelFront("-", Digits(-m) + r, Digits(-n) + q);
      DigitsPrefix(-m, -n, r, q);
    } else {
      DigitsPrefix(m, n, r, q);
    }
  }

  lemma TextPrefix(s: string, t: string, r: string, q: string)
    requires Quote(s) + r == Quote(t) + q
    ensures s == t && r == q
  {
    hide Quoted;
    Regroup("\"", Quoted(s), "", r);
    Regroup("\"", Quoted(t), "", q);
    CancelFront("\"", Quoted(s) + r, Quoted(t) + q);
    QuotedPrefix(s, t, r, q);
  }

  lemma ArrayShape(a: seq<Json>, r: string)
    ensures a == [] ==> Dump(Array(a)) + r == "[" + ("]" + r)
    ensures a != [] ==> Dump(Array(a)) + r == "[" + (Dump(a[0]) + (MoreItems(a[1..]) + r))
    ensures a != [] ==> !Stops(Dump(a[0]) + (MoreItems(a[1..]) + r))
    ensures a != [] ==> Stops(MoreItems(a[1..]) + r)
    ensures a == [] ==> MoreItems(a) + r == "]" + r
    ensures a != [] ==> MoreItems(a) + r == "," + (" " + (Dump(a[0]) + (MoreItems(a[1..]) + r)))
  {
    if a != [] {
      hide Dump, MoreItems;
      DumpShape(a[0]);
      var d, m := Dump(a[0]), MoreItems(a[1..]);
      Regroup("[", d, m, r);
      Regroup(", ", d, m, r);
      assert "," + (" " + (d + (m + r))) == ", " + (d + (m + r));
    }
  }

  lemma {:induction false} ArrayPrefix(a: seq<Json>, b: seq<Json>, r: string, q: string)
    requires Dump(Array(a)) + r == Dump(Array(b)) + q && Stops(r) && Stops(q)
    ensures a == b && r == q
    decreases Array(a), 0
  {
    hide Dump, MoreItems, Stops;
    ArrayShape(a, r);
    ArrayShape(b, q);
    var x := if a == [] then "]" + r else Dump(a[0]) + (MoreItems(a[1..]) + r);
    var y := if b == [] then "]" + q else Dump(b[0]) + (MoreItems(b[1..]) + q);
    CancelFront("[", x, y);
    BracketStops(r);
    BracketStops(q);
    if a == [] {
      CancelFront("]", r, q);
    } else {
      DumpPrefix(a[0], b[0], MoreItems(a[1..]) + r, MoreItems(b[1..]) + q);
      MoreItemsPrefix(a[1..], b[1..], r, q);
      assert a == [a[0]] + a[1..] && b == [b[0]] + b[1..];
    }
  }

  lemma BracketStops(r: string)
    ensures Stops("]" + r) && Stops("}" + r)
  {
  }

  lemma {:induction false} MoreItemsPrefix(a: seq<Json>, b: seq<Json>, r: string, q: string)
    requires MoreItems(a) + r == MoreItems(b) + q && Stops(r) && Stops(q)
    ensures a == b && r == q
    decreases a, 0
  {
    hide Dump, MoreItems, Stops;
    ArrayShape(a, r);
    ArrayShape(b, q);
    assert (MoreItems(a) + r)[0] == (MoreItems(b) + q)[0];
    if a == [] {
      CancelFront("]", r, q);
    } else {
      var x, y := Dump(a[0]) + (MoreItems(a[1..]) + r), Dump(b[0]) + (MoreItems(b[1..]) + q);
      CancelFront(",", " " + x, " " + y);
      CancelFront(" ", x, y);
      DumpPrefix(a[0], b[0], MoreItems(a[1..]) + r, MoreItems(b[1..]) + q);
      MoreItemsPrefix(a[1..], b[1..], r, q);
      assert a == [a[0]] + a[1..] && b == [b[0]] + b[1..];
    }
  }

  lemma {:induction false} MemberPrefix(m: Member, n: Member, r: string, q: string)
    requires DumpMember(m) + r == DumpMember(n) + q && Stops(r) && Stops(q)
    ensures m == n && r == q
    decreases m, 2
  {
    hide Dump, Quote, Stops;
    var x, y := Dump(m.value) + r, Dump(n.value) + q;
    Regroup(Quote(m.key), ": ", Dump(m.value), r);
    Regroup(Quote(n.key), ": ", Dump(n.value), q);
    TextPrefix(m.key, n.key, ": " + x, ": " + y);
    CancelFront(": ", x, y);
    DumpPrefix(m.value, n.value, r, q);
  }

  lemma ObjectShape(a: seq<Member>, r: string)
    ensures a == [] ==> Dump(Object(a)) + r == "{" + ("}" + r)
    ensures a != [] ==> Dump(Object(a)) + r == "{" + (DumpMember(a[0]) + (MoreMembers(a[1..]) + r))
    ensures a != [] ==> !Stops(DumpMember(a[0]) + (MoreMembers(a[1..]) + r))
    ensures a != [] ==> Stops(MoreMembers(a[1..]) + r)
    ensures a == [] ==> MoreMembers(a) + r == "}" + r
    ensures a != [] ==> MoreMembers(a) + r == "," + (" " + (DumpMember(a[0]) + (MoreMembers(a[1..]) + r)))
  {
    if a != [] {
      hide Dump, DumpMember, MoreMembers;
      var d, m := DumpMember(a[0]), MoreMembers(a[1..]);
      Regroup("{", d, m, r);
      Regroup(", ", d, m, r);
      assert "," + (" " + (d + (m + r))) == ", " + (d + (m + r));
    }
  }

  lemma {:induction false} ObjectPrefix(a: seq<Member>, b: seq<Member>, r: string, q: string)
    requires Dump(Object(a)) + r == Dump(Object(b)) + q && Stops(r) && Stops(q)
    ensures a == b && r == q
    decreases Object(a), 0
  {
    hide Dump, DumpMember, MoreMembers, Stops;
    ObjectShape(a, r);
    ObjectShape(b, q);
    var x := if a == [] then "}" + r else DumpMember(a[0]) + (MoreMembers(a[1..]) + r);
    var y := if b == [] then "}" + q else DumpMember(b[0]) + (MoreMembers(b[1..]) + q);
    CancelFront("{", x, y);
    BracketStops(r);
    BracketStops(q);
    if a == [] {
      CancelFront("}", r, q);
    } else {
      MemberPrefix(a[0], b[0], MoreMembers(a[1..]) + r, MoreMembers(b[1..]) + q);
      MoreMembersPrefix(a[1..], b[1..], r, q);
      assert a == [a[0]] + a[1..] && b == [b[0]] + b[1..];
    }
  }

  lemma {:induction false} MoreMembersPrefix(a: seq<Member>, b: seq<Member>, r: string, q: string)
    requires MoreMembers(a) + r == MoreMembers(b) + q && Stops(r) && Stops(q)
    ensures a == b && r == q
    decreases a, 0
  {
    hide DumpMember, MoreMembers, Stops;
    ObjectShape(a, r);
    ObjectShape(b, q);
    assert (MoreMembers(a) + r)[0] == (MoreMembers(b) + q)[0];
    if a == [] {
      CancelFront("}", r, q);
    } else {
      var x, y := DumpMember(a[0]) + (MoreMembers(a[1..]) + r), DumpMember(b[0]) + (MoreMembers(b[1..]) + q);
      CancelFront(",", " " + x, " " + y);
      CancelFront(" ", x, y);
      MemberPrefix(a[0], b[0], MoreMembers(a[1..]) + r, MoreMembers(b[1..]) + q);
      MoreMembersPrefix(a[1..], b[1..], r, q);
      assert a == [a[0]] + a[1..] && b == [b[0]] + b[1..];
    }
  }

  lemma DumpDetermines(v: Json, w: Json)
    requires Dump(v) == Dump(w)
    ensures v == w
  {
    assert Dump(v) + [] == Dump(w) + [];
    DumpPrefix(v, w, [], []);
  }

  // ---- the order of texts, and sorting by it ----

  /** Strings compare character by character, a prefix first. */
  predicate LexLe(a: string, b: string) {
    a == [] || (b != [] && (a[0] < b[0] || (a[0] == b[0] && LexLe(a[1..], b[1..]))))
  }

  lemma {:induction false} LexTotal(a: string, b: string)
    ensures LexLe(a, b) || LexLe(b, a)
    ensures LexLe(a, b) && LexLe(b, a) ==> a == b
    decreases |a|
  {
    if a != [] && b != [] {
      LexTotal(a[1..], b[1..]);
      assert a == [a[0]] + a[1..] && b == [b[0]] + b[1..];
    }
  }

  lemma {:induction false} LexTransitive(a: string, b: string, c: string)
    requires LexLe(a, b) && LexLe(b, c)
    ensures LexLe(a, c)
    decreases |a|
  {
    if a != [] && a[0] == b[0] == c[0] {
      LexTransitive(a[1..], b[1..], c[1..]);
    }
  }

  predicate Before(v: Json, w: Json) { LexLe(Dump(v), Dump(w)) }

  function Insert(v: Json, sorted: seq<Json>): seq<Json> {
    if sorted == [] || Before(v, sorted[0]) then [v] + sorted else [sorted[0]] + Insert(v, sorted[1..])
  }

  /** `sort(key=canon_key)` */
  function Sorted(items: seq<Json>): seq<Json> {
    if items == [] then [] else Insert(items[0], Sorted(items[1..]))
  }

  predicate IsSorted(s: seq<Json>) { forall i, j :: 0 <= i <= j < |s| ==> Before(s[i], s[j]) }

  lemma {:induction false} InsertSorts(v: Json, s: seq<Json>)
    requires IsSorted(s)
    ensures IsSorted(Insert(v, s)) && multiset(Insert(v, s)) == multiset(s) + multiset{v}
    decreases |s|
  {
    hide Before;
    BeforeIsTotal(v, v);
    if s != [] {
      BeforeIsTotal(v, s[0]);
      assert s == [s[0]] + s[1..];
      if Before(v, s[0]) {
        forall i | 0 <= i < |s| ensures Before(v, s[i]) { BeforeIsTransitive(v, s[0], s[i]); }
      } else {
        InsertSorts(v, s[1..]);
        var rest := Insert(v, s[1..]);
        forall i | 0 <= i < |rest| ensures Before(s[0], rest[i]) {
          assert rest[i] in multiset(rest);
          if rest[i] != v { assert rest[i] in multiset(s[1..]); }
        }
      }
    }
  }

  lemma BeforeIsTotal(v: Json, w: Json)
    ensures Before(v, w) || Before(w, v)
    ensures Before(v, w) && Before(w, v) ==> v == w
  {
    LexTotal(Dump(v), Dump(w));
    if Before(v, w) && Before(w, v) { DumpDetermines(v, w); }
  }

  lemma BeforeIsTransitive(u: Json, v: Json, w: Json)
    requires Before(u, v) && Before(v, w)
    ensures Before(u, w)
  {
    LexTransitive(Dump(u), Dump(v), Dump(w));
  }

  lemma {:induction false} SortedSorts(items: seq<Json>)
    ensures IsSorted(Sorted(items)) && multiset(Sorted(items)) == multiset(items)
    decreases |items|
  {
    assert IsSorted([]);
    hide Before, Insert, IsSorted;
    if items == [] {
    } else {
      SortedSorts(items[1..]);
      InsertSorts(items[0], Sorted(items[1..]));
      assert items == [items[0]] + items[1..];
    }
  }

  lemma FirstIsBefore(s: seq<Json>, v: Json)
    requires IsSorted(s) && v in s
    ensures Before(s[0], v)
  {
    hide Before;
  }

  lemma TailIsSorted(s: seq<Json>)
    requires IsSorted(s) && s != []
    ensures IsSorted(s[1..])
  {
    hide Before;
  }

  lemma {:induction false} SortedIsUnique(a: seq<Json>, b: seq<Json>)
    requires IsSorted(a) && IsSorted(b) && multiset(a) == multiset(b)
    ensures a == b
    decreases |a|
  {
    hide Before, IsSorted;
    if a == [] {
      assert |multiset(b)| == 0;
    } else {
      assert a[0] in multiset(b) && b != [];
      assert b[0] in multiset(a);
      FirstIsBefore(a, b[0]);
      FirstIsBefore(b, a[0]);
      BeforeIsTotal(a[0], b[0]);
      assert a == [a[0]] + a[1..] && b == [b[0]] + b[1..];
      assert multiset(a[1..]) == multiset(a) - multiset{a[0]};
      assert multiset(b[1..]) == multiset(b) - multiset{b[0]};
      TailIsSorted(a);
      TailIsSorted(b);
      SortedIsUnique(a[1..], b[1..]);
    }
  }

  /** Sorting by the key gives the same list exactly for the same collection of values. */
  lemma SortedIsCanonical(a: seq<Json>, b: seq<Json>)
    ensures Sorted(a) == Sorted(b) <==> multiset(a) == multiset(b)
  {
    SortedSorts(a);
    SortedSorts(b);
    if multiset(a) == multiset(b) { SortedIsUnique(Sorted(a), Sorted(b)); }
  }

  // ---- what the texts look like ----

  /** Printable text stands between quotes as it is. */
  lemma {:induction false} PlainText(s: string)
    requires forall c :: c in s ==> ' ' <= c <= '~' && c != '\"' && c != '\\'
    ensures Quoted(s) == s + "\"" && Dump(Text(s)) == "\"" + s + "\""
  {
    if s != [] {
      assert s[0] in s && Escape(s[0]) == [s[0]] && forall c :: c in s[1..] ==> c in s;
      PlainText(s[1..]);
      assert s == [s[0]] + s[1..];
      assert Quoted(s) == s + "\"";
    }
    assert "\"" + (s + "\"") == "\"" + s + "\"";
  }

  /** The characters with an escape of their own. */
  lemma ShortEscapes(c: char)
    ensures c == '\"' ==> Escape(c) == "\\\""
    ensures c == '\\' ==> Escape(c) == "\\\\"
    ensures c == '\n' ==> Escape(c) == "\\n"
    ensures c == '\r' ==> Escape(c) == "\\r"
    ensures c == '\t' ==> Escape(c) == "\\t"
    ensures c as int == 8 ==> Escape(c) == "\\b"
    ensures c as int == 12 ==> Escape(c) == "\\f"
  {
  }

  /** Any other character that is not printable ASCII is escaped by its one or two units of UTF-16,
      in four hexadecimal digits each. */
  lemma OtherEscapes(c: char)
    requires !(' ' <= c <= '~') && c as int !in [8, 9, 10, 12, 13]
    ensures c as int < 0x10000 ==> Escape(c) == UnitEscape(c as int)
    ensures c as int >= 0x10000 ==>
              Escape(c) == UnitEscape(0xD800 + (c as int - 0x10000) / 0x400) + UnitEscape(0xDC00 + (c as int - 0x10000) % 0x400)
  {
    EscapeIsUnits(c);
    hide *;
    if c as int < 0x10000 {
      HexIs(c as int);
    } else {
      var v := c as int - 0x10000;
      HexIs(0xD800 + v / 0x400);
      HexIs(0xDC00 + v % 0x400);
      FourParts("\\u", Hex4(0xD800 + v / 0x400), "\\u", Hex4(0xDC00 + v % 0x400));
    }
  }

  lemma EscapeIsUnits(c: char)
    requires !(' ' <= c <= '~') && c as int !in [8, 9, 10, 12, 13]
    ensures c as int < 0x10000 ==> Escape(c) == "\\u" + Hex4(c as int)
    ensures c as int >= 0x10000 ==>
              Escape(c) == "\\u" + Hex4(0xD800 + (c as int - 0x10000) / 0x400) + "\\u" + Hex4(0xDC00 + (c as int - 0x10000) % 0x400)
  {
    hide Hex4;
  }

  lemma FourParts(a: string, b: string, c: string, d: string)
    ensures a + b + c + d == (a + b) + (c + d)
  {
  }

  /** Backslash, `u` and the four hexadecimal digits of a unit. */
  function UnitEscape(n: nat): string
    requires n < 0x10000
  {
    var digits := "0123456789abcdef";
    ['\\', 'u', digits[n / 4096], digits[n / 256 % 16], digits[n / 16 % 16], digits[n % 16]]
  }

  lemma HexIs(n: nat)
    requires n < 0x10000
    ensures "\\u" + Hex4(n) == UnitEscape(n)
  {
    assert n / 16 / 16 == n / 256 && n / 256 / 16 == n / 4096;
    assert Hex(n / 4096, 1) == [HexDigit(n / 4096)];
    assert Hex(n / 256, 2) == [HexDigit(n / 4096), HexDigit(n / 256 % 16)];
    assert Hex(n / 16, 3) == [HexDigit(n / 4096), HexDigit(n / 256 % 16), HexDigit(n / 16 % 16)];
  }

  /** The number that decimal digits stand for. */
  function ValueOf(digits: string): int {
    if digits == [] then 0 else 10 * ValueOf(digits[..|digits| - 1]) + (digits[|digits| - 1] as int - 48)
  }

  lemma {:induction false} DigitsLook(n: nat)
    ensures ValueOf(Digits(n)) == n && (forall c :: c in Digits(n) ==> '0' <= c <= '9') && (n > 0 ==> Digits(n)[0] != '0')
  {
    var text := Digits(n);
    if n < 10 {
      assert text[..0] == [];
      DigitIs(n);
    } else {
      DigitsLook(n / 10);
      DigitIs(n % 10);
      hide Digit;
      assert text[..|text| - 1] == Digits(n / 10);
    }
  }

  lemma DigitIs(d: nat)
    requires d < 10
    ensures Digit(d) as int == 48 + d
  {
  }

  /** Numbers are printed in decimal digits, without zeros in front. */
  lemma NumbersLook(n: nat)
    ensures ValueOf(Dump(Number(n))) == n && (forall c :: c in Dump(Number(n)) ==> '0' <= c <= '9')
    ensures n > 0 ==> Dump(Number(n))[0] != '0' && Dump(Number(0 - n)) == "-" + Dump(Number(n))
  {
    DigitsLook(n);
    hide ValueOf, Digits;
  }

  /** Lists and objects are printed with ", " between their parts and ": " behind a name. */
  lemma ListsLook(v: Json, w: Json, k: string, l: string)
    ensures Dump(Null) == "null" && Dump(Bool(true)) == "true" && Dump(Bool(false)) == "false"
    ensures Dump(Array([])) == "[]" && Dump(Array([v])) == "[" + Dump(v) + "]"
    ensures Dump(Array([v, w])) == "[" + Dump(v) + (", " + Dump(w) + "]")
    ensures Dump(Object([])) == "{}" && Dump(Object([Member(k, v)])) == "{" + (Quote(k) + ": " + Dump(v)) + "}"
    ensures Dump(Object([Member(k, v), Member(l, w)])) == "{" + (Quote(k) + ": " + Dump(v)) + (", " + (Quote(l) + ": " + Dump(w)) + "}")
  {
    assert [v][1..] == [] && [v, w][1..] == [w] && [w][1..] == [];
    var m, n := Member(k, v), Member(l, w);
    assert [m][1..] == [] && [m, n][1..] == [n] && [n][1..] == [];
    assert MoreMembers([n]) == ", " + DumpMember(n) + "}";
  }
}
