/** The functions of Go's `bytes` and `strings` packages that the parsers use. */
module GoBytes {
  import opened Utf8

  // ---- IndexByte and LastIndexByte ----

  function IndexByte(s: Bytes, b: byte): (i: int)
    ensures -1 <= i < |s|
    ensures i < 0 ==> b !in s
    ensures i >= 0 ==> s[i] == b && forall j :: 0 <= j < i ==> s[j] != b
  {
    if s == [] then -1
    else if s[0] == b then 0
    else
      var i := IndexByte(s[1..], b);
      if i < 0 then -1 else i + 1
  }

  function LastIndexByte(s: Bytes, b: byte): (i: int)
    ensures -1 <= i < |s|
    ensures i < 0 ==> b !in s
    ensures i >= 0 ==> s[i] == b && forall j :: i < j < |s| ==> s[j] != b
  {
    if s == [] then -1
    else if s[|s| - 1] == b then |s| - 1
    else LastIndexByte(s[..|s| - 1], b)
  }

  lemma FirstAt(s: Bytes, b: byte, k: nat)
    requires k < |s| && s[k] == b && forall j :: 0 <= j < k ==> s[j] != b
    ensures IndexByte(s, b) == k
  {
    hide IndexByte;
    var i := IndexByte(s, b);
    assert s[k] in s;
    assert i <= k;
  }

  lemma LastAt(s: Bytes, b: byte, k: nat)
    requires k < |s| && s[k] == b && forall j :: k < j < |s| ==> s[j] != b
    ensures LastIndexByte(s, b) == k
  {
    hide LastIndexByte;
    var i := LastIndexByte(s, b);
    assert s[k] in s;
    assert k <= i;
  }

  /** The first of the byte is found where nothing before it holds one. */
  lemma FirstIs(front: Bytes, b: byte, rest: Bytes)
    requires b !in front
    ensures IndexByte(front + [b] + rest, b) == |front|
  {
    hide IndexByte;
    var s := front + [b] + rest;
    forall j | 0 <= j < |front|
      ensures s[j] != b
    {
      assert s[j] == front[j] && front[j] in front;
    }
    FirstAt(s, b, |front|);
  }

  lemma LastIs(front: Bytes, b: byte, rest: Bytes)
    requires b !in rest
    ensures LastIndexByte(front + [b] + rest, b) == |front|
  {
    hide LastIndexByte;
    var s := front + [b] + rest;
    var n := |front|;
    assert forall k :: 0 <= k < |rest| ==> rest[k] != b;
    assert s[n] == b;
    assert s[n + 1..] == rest;
    assert forall j :: n < j < |s| ==> s[j] == s[n + 1..][j - n - 1];
    LastAt(s, b, n);
  }

  // ---- TrimSpace ----

  /** Length of the white-space character at the start, 0 when there is none. */
  function SpaceAtStart(s: Bytes): (n: nat)
    ensures n <= |s|
  {
    if s == [] then 0
    else if 0x09 <= s[0] <= 0x0D || s[0] == 0x20 then 1
    else if |s| >= 2 && s[0] == 0xC2 && (s[1] == 0x85 || s[1] == 0xA0) then 2
    else if |s| >= 3 && WideSpace(s[0], s[1], s[2]) then 3
    else 0
  }

  /** U+1680, U+2000 to U+200A, U+2028, U+2029, U+202F, U+205F and U+3000. */
  predicate WideSpace(a: byte, b: byte, c: byte) {
    || (a == 0xE1 && b == 0x9A && c == 0x80)
    || (a == 0xE2 && b == 0x80 && (0x80 <= c <= 0x8A || c == 0xA8 || c == 0xA9 || c == 0xAF))
    || (a == 0xE2 && b == 0x81 && c == 0x9F)
    || (a == 0xE3 && b == 0x80 && c == 0x80)
  }

  function SpaceAtEnd(s: Bytes): (n: nat)
    ensures n <= |s|
  {
    var n := |s|;
    if n >= 1 && (0x09 <= s[n - 1] <= 0x0D || s[n - 1] == 0x20) then 1
    else if n >= 2 && s[n - 2] == 0xC2 && (s[n - 1] == 0x85 || s[n - 1] == 0xA0) then 2
    else if n >= 3 && WideSpace(s[n - 3], s[n - 2], s[n - 1]) then 3
    else 0
  }

  function TrimLeft(s: Bytes): Bytes
    decreases |s|
  {
    if SpaceAtStart(s) == 0 then s else TrimLeft(s[SpaceAtStart(s)..])
  }

  function TrimRight(s: Bytes): Bytes
    decreases |s|
  {
    if SpaceAtEnd(s) == 0 then s else TrimRight(s[..|s| - SpaceAtEnd(s)])
  }

  function TrimSpace(s: Bytes): Bytes { TrimRight(TrimLeft(s)) }
}
