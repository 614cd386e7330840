/** What trimming removes, stated on the encodings of the white-space characters themselves. */
module WhiteSpace {
  import opened Utf8
  import opened GoBytes

  /** The encodings of the 25 characters with the Unicode property White_Space. */
  predicate IsSpace(w: Bytes) {
    || w in [[0x09], [0x0A], [0x0B], [0x0C], [0x0D], [0x20]]
    || w in [[0xC2, 0x85], [0xC2, 0xA0], [0xE1, 0x9A, 0x80]]
    || w in [[0xE2, 0x80, 0x80], [0xE2, 0x80, 0x81], [0xE2, 0x80, 0x82], [0xE2, 0x80, 0x83]]
    || w in [[0xE2, 0x80, 0x84], [0xE2, 0x80, 0x85], [0xE2, 0x80, 0x86], [0xE2, 0x80, 0x87]]
    || w in [[0xE2, 0x80, 0x88], [0xE2, 0x80, 0x89], [0xE2, 0x80, 0x8A]]
    || w in [[0xE2, 0x80, 0xA8], [0xE2, 0x80, 0xA9], [0xE2, 0x80, 0xAF], [0xE2, 0x81, 0x9F], [0xE3, 0x80, 0x80]]
  }

  /** White space only. */
  ghost predicate IsBlank(s: Bytes)
    decreases |s|
  {
    s == [] || exists w :: IsSpace(w) && w != [] && w <= s && IsBlank(s[|w|..])
  }

  /** No white space at either end. */
  ghost predicate IsTrimmed(t: Bytes) {
    && (forall w :: IsSpace(w) ==> !(w <= t))
    && (forall w :: IsSpace(w) && |w| <= |t| ==> t[|t| - |w|..] != w)
  }

  lemma SpaceShape(w: Bytes)
    requires IsSpace(w)
    ensures 1 <= |w| <= 3
    ensures w[0] in [0x09, 0x0A, 0x0B, 0x0C, 0x0D, 0x20, 0xC2, 0xE1, 0xE2, 0xE3]
    ensures forall i :: 1 <= i < |w| ==> 0x80 <= w[i] <= 0xAF
    ensures |w| > 1 ==> w[0] >= 0xC2
  {
  }

  lemma StartIs(s: Bytes, w: Bytes)
    requires IsSpace(w) && w <= s
    ensures SpaceAtStart(s) == |w|
  {
    assert s[..|w|] == w;
    assert forall i :: 0 <= i < |w| ==> s[i] == w[i];
  }

  lemma StartFound(s: Bytes)
    ensures SpaceAtStart(s) > 0 ==> IsSpace(s[..SpaceAtStart(s)])
  {
    var n := SpaceAtStart(s);
    if n == 1 {
      assert s[..1] == [s[0]];
    } else if n == 2 {
      assert s[..2] == [s[0], s[1]];
    } else if n == 3 {
      assert s[..3] == [s[0], s[1], s[2]];
    }
  }

  lemma EndIs(s: Bytes, w: Bytes)
    requires IsSpace(w)
    ensures SpaceAtEnd(s + w) == |w|
  {
    SpaceShape(w);
    var t := s + w;
    assert t[|t| - 1] == w[|w| - 1];
    assert |w| >= 2 ==> t[|t| - 2] == w[|w| - 2];
    assert |w| >= 3 ==> t[|t| - 3] == w[|w| - 3];
    SpaceByLength(w);
    hide IsSpace;
  }

  lemma SpaceByLength(w: Bytes)
    requires IsSpace(w)
    ensures |w| == 1 ==> 0x09 <= w[0] <= 0x0D || w[0] == 0x20
    ensures |w| == 2 ==> w[0] == 0xC2 && (w[1] == 0x85 || w[1] == 0xA0)
    ensures |w| == 3 ==> WideSpace(w[0], w[1], w[2])
  {
  }

  lemma EndFound(s: Bytes)
    ensures SpaceAtEnd(s) > 0 ==> IsSpace(s[|s| - SpaceAtEnd(s)..])
  {
    var n, m := SpaceAtEnd(s), |s|;
    if n == 1 {
      assert s[m - 1..] == [s[m - 1]];
    } else if n == 2 {
      assert s[m - 2..] == [s[m - 2], s[m - 1]];
    } else if n == 3 {
      assert s[m - 3..] == [s[m - 3], s[m - 2], s[m - 1]];
    }
  }

  // ---- blanks can be read from either end ----

  lemma BlankFront(w: Bytes, rest: Bytes)
    requires IsSpace(w) && IsBlank(rest)
    ensures IsBlank(w + rest)
  {
    SpaceShape(w);
    hide IsSpace;
    assert w <= w + rest && (w + rest)[|w|..] == rest;
  }

  lemma BlankSplits(b: Bytes) returns (w: Bytes, rest: Bytes)
    requires IsBlank(b) && b != []
    ensures b == w + rest && w != [] && IsSpace(w) && IsBlank(rest)
  {
    hide IsSpace;
    w :| IsSpace(w) && w != [] && w <= b && IsBlank(b[|w|..]);
    rest := b[|w|..];
  }

  lemma OneBlank(w: Bytes)
    requires IsSpace(w)
    ensures IsBlank(w)
  {
    NoBlank();
    BlankFront(w, []);
    Grouped([], [], w);
  }

  lemma NoBlank()
    ensures IsBlank([])
  {
  }

  lemma Grouped(a: Bytes, b: Bytes, c: Bytes)
    ensures a + b + c == a + (b + c) && [] + c == c && c + [] == c
  {
  }

  lemma {:induction false} BlankConcat(a: Bytes, b: Bytes)
    requires IsBlank(a) && IsBlank(b)
    ensures IsBlank(a + b)
    decreases |a|
  {
    hide *;
    if a == [] {
      Grouped([], [], b);
    } else {
      var w, rest := BlankSplits(a);
      BlankConcat(rest, b);
      BlankFront(w, rest + b);
      Grouped(w, rest, b);
    }
  }

  /** The last white-space character of a blank text. */
  lemma {:induction false} LastBlank(b: Bytes) returns (front: Bytes, w: Bytes)
    requires IsBlank(b) && b != []
    ensures b == front + w && IsBlank(front) && IsSpace(w) && w != []
    decreases |b|
  {
    NoBlank();
    hide *;
    var first, rest := BlankSplits(b);
    if rest == [] {
      front, w := [], first;
      Grouped([], [], first);
    } else {
      front, w := LastBlank(rest);
      Grouped(first, front, w);
      BlankFront(first, front);
      front := first + front;
    }
  }

  // ---- trimming ----

  lemma TrimLeftIs(s: Bytes)
    ensures TrimLeft(s) == if SpaceAtStart(s) == 0 then s else TrimLeft(s[SpaceAtStart(s)..])
  {
    hide SpaceAtStart;
  }

  lemma TrimRightIs(s: Bytes)
    ensures TrimRight(s) == if SpaceAtEnd(s) == 0 then s else TrimRight(s[..|s| - SpaceAtEnd(s)])
  {
    hide SpaceAtEnd;
  }

  lemma CutAt(s: Bytes, k: nat)
    requires k <= |s|
    ensures s == s[..k] + s[k..]
  {
  }

  lemma {:induction false} TrimLeftDrops(s: Bytes) returns (a: Bytes)
    ensures IsBlank(a) && s == a + TrimLeft(s)
    ensures SpaceAtStart(TrimLeft(s)) == 0
    decreases |s|
  {
    var n := SpaceAtStart(s);
    NoBlank();
    hide *;
    TrimLeftIs(s);
    if n == 0 {
      a := [];
      Grouped([], [], s);
    } else {
      var rest := TrimLeftDrops(s[n..]);
      StartFound(s);
      OneBlank(s[..n]);
      BlankConcat(s[..n], rest);
      a := s[..n] + rest;
      Grouped(s[..n], rest, TrimLeft(s));
      CutAt(s, n);
    }
  }

  lemma {:induction false} TrimRightDrops(s: Bytes) returns (b: Bytes)
    ensures IsBlank(b) && s == TrimRight(s) + b
    ensures SpaceAtEnd(TrimRight(s)) == 0
    decreases |s|
  {
    var n := SpaceAtEnd(s);
    NoBlank();
    hide *;
    TrimRightIs(s);
    if n == 0 {
      b := [];
      Grouped([], [], s);
    } else {
      var front := TrimRightDrops(s[..|s| - n]);
      var w := s[|s| - n..];
      EndFound(s);
      OneBlank(w);
      BlankConcat(front, w);
      b := front + w;
      Grouped(TrimRight(s), front, w);
      CutAt(s, |s| - n);
    }
  }

  lemma {:induction false} TrimLeftSkips(a: Bytes, x: Bytes)
    requires IsBlank(a)
    ensures TrimLeft(a + x) == TrimLeft(x)
    decreases |a|
  {
    hide IsSpace, SpaceAtStart;
    if a == [] {
      assert a + x == x;
    } else {
      var w :| IsSpace(w) && w != [] && w <= a && IsBlank(a[|w|..]);
      StartIs(a + x, w);
      assert (a + x)[|w|..] == a[|w|..] + x;
      TrimLeftSkips(a[|w|..], x);
    }
  }

  lemma {:induction false} TrimRightSkips(x: Bytes, b: Bytes)
    requires IsBlank(b)
    ensures TrimRight(x + b) == TrimRight(x)
    decreases |b|
  {
    hide *;
    if b == [] {
      Grouped(x, [], x);
    } else {
      var front, w := LastBlank(b);
      Grouped(x, front, w);
      EndIs(x + front, w);
      TrimRightIs(x + b);
      assert (x + front + w)[..|x + front|] == x + front;
      TrimRightSkips(x, front);
    }
  }

  lemma BlankStarts(b: Bytes)
    requires IsBlank(b) && b != []
    ensures b[0] in [0x09, 0x0A, 0x0B, 0x0C, 0x0D, 0x20, 0xC2, 0xE1, 0xE2, 0xE3]
  {
    hide IsSpace;
    var w :| IsSpace(w) && w != [] && w <= b && IsBlank(b[|w|..]);
    SpaceShape(w);
  }

  /** No white-space character begins in a text and ends in the white space behind it. */
  lemma NoneStraddles(t: Bytes, b: Bytes, w: Bytes)
    requires t != [] && IsBlank(b) && IsSpace(w) && w <= t + b
    ensures w <= t
  {
    hide IsSpace, IsBlank;
    SpaceShape(w);
    if b != [] { BlankStarts(b); }
    assert b != [] ==> (t + b)[|t|] == b[0];
  }

  lemma TrimmedStart(t: Bytes, b: Bytes)
    requires t != [] && IsBlank(b) && forall w :: IsSpace(w) ==> !(w <= t)
    ensures SpaceAtStart(t + b) == 0
  {
    hide *;
    var n := SpaceAtStart(t + b);
    if n > 0 {
      StartFound(t + b);
      NoneStraddles(t, b, (t + b)[..n]);
    }
  }

  lemma NoneAtStart(t: Bytes)
    ensures (forall w :: IsSpace(w) ==> !(w <= t)) <==> SpaceAtStart(t) == 0
  {
    hide *;
    var n := SpaceAtStart(t);
    StartFound(t);
    assert t[..n] <= t;
    forall w | IsSpace(w) && w <= t
      ensures n > 0
    {
      SpaceShape(w);
      StartIs(t, w);
    }
  }

  lemma NoneAtEnd(t: Bytes)
    ensures (forall w :: IsSpace(w) && |w| <= |t| ==> t[|t| - |w|..] != w) <==> SpaceAtEnd(t) == 0
  {
    hide *;
    var n := SpaceAtEnd(t);
    EndFound(t);
    assert |t[|t| - n..]| == n;
    forall w | IsSpace(w) && |w| <= |t| && t[|t| - |w|..] == w
      ensures n > 0
    {
      SpaceShape(w);
      assert t == t[..|t| - |w|] + w;
      EndIs(t[..|t| - |w|], w);
    }
  }

  lemma TrimmedEnds(t: Bytes)
    ensures IsTrimmed(t) <==> SpaceAtStart(t) == 0 && SpaceAtEnd(t) == 0
  {
    NoneAtStart(t);
    NoneAtEnd(t);
    hide IsSpace, SpaceAtStart, SpaceAtEnd;
  }

  lemma TrimSpaceDrops(s: Bytes) returns (a: Bytes, b: Bytes)
    ensures IsBlank(a) && IsBlank(b) && s == a + TrimSpace(s) + b && IsTrimmed(TrimSpace(s))
  {
    assert TrimSpace(s) == TrimRight(TrimLeft(s));
    hide *;
    a := TrimLeftDrops(s);
    var u := TrimLeft(s);
    b := TrimRightDrops(u);
    Grouped(a, TrimRight(u), b);
    FrontStaysTrimmed(TrimRight(u), b);
    TrimmedEnds(TrimRight(u));
  }

  lemma FrontStaysTrimmed(t: Bytes, b: Bytes)
    requires SpaceAtStart(t + b) == 0
    ensures SpaceAtStart(t) == 0
  {
    hide IsSpace, SpaceAtStart;
    StartFound(t);
    var n := SpaceAtStart(t);
    if n > 0 {
      assert t[..n] <= t + b;
      StartIs(t + b, t[..n]);
    }
  }

  lemma TrimSpaceStops(a: Bytes, t: Bytes, b: Bytes)
    requires IsBlank(a) && IsBlank(b) && IsTrimmed(t)
    ensures TrimSpace(a + t + b) == t
  {
    assert TrimSpace(a + t + b) == TrimRight(TrimLeft(a + t + b));
    assert forall w :: IsSpace(w) ==> !(w <= t);
    TrimmedEnds(t);
    hide *;
    Grouped(a, t, b);
    TrimLeftSkips(a, t + b);
    if t == [] {
      Grouped(b, [], b);
      TrimLeftSkips(b, []);
      TrimLeftIs([]);
      TrimRightIs([]);
    } else {
      TrimmedStart(t, b);
      TrimLeftIs(t + b);
      TrimRightSkips(t, b);
      TrimRightIs(t);
    }
  }

  /** `TrimSpace` gives the one text without white space at either end that is left when
      white space alone is taken off both ends. */
  lemma TrimSpaceIff(s: Bytes, t: Bytes)
    ensures TrimSpace(s) == t <==> exists a, b :: IsBlank(a) && IsBlank(b) && s == a + t + b && IsTrimmed(t)
  {
    hide *;
    if TrimSpace(s) == t {
      var a, b := TrimSpaceDrops(s);
    }
    forall a, b | IsBlank(a) && IsBlank(b) && s == a + t + b && IsTrimmed(t)
      ensures TrimSpace(s) == t
    {
      TrimSpaceStops(a, t, b);
    }
  }
}
