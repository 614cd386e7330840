/** Byte strings and the UTF-8 encoding of section 4 of RFC 3629. */
module Utf8 {

  type byte = b: int | 0 <= b < 256

  type Bytes = seq<byte>

  /** `b & 0xc0 == 0x80`: the top two bits of a continuation byte are 10. */
  predicate IsContinuation(b: byte) { b / 0x40 == 2 }

  /** Length of the well-formed encoded character at the start, 0 when there is none. */
  function RuneLength(s: Bytes): (n: nat)
    ensures n <= |s|
  {
    if s == [] then 0
    else if s[0] < 0x80 then 1
    else if 0xC2 <= s[0] <= 0xDF then
      if |s| >= 2 && IsContinuation(s[1]) then 2 else 0
    else if 0xE0 <= s[0] <= 0xEF then
      if |s| >= 3 && SecondOfThree(s[0], s[1]) && IsContinuation(s[2]) then 3 else 0
    else if 0xF0 <= s[0] <= 0xF4 then
      if |s| >= 4 && SecondOfFour(s[0], s[1]) && IsContinuation(s[2]) && IsContinuation(s[3]) then 4 else 0
    else 0
  }

  predicate SecondOfThree(a: byte, b: byte) {
    (if a == 0xE0 then 0xA0 else 0x80) <= b <= (if a == 0xED then 0x9F else 0xBF)
  }

  predicate SecondOfFour(a: byte, b: byte) {
    (if a == 0xF0 then 0x90 else 0x80) <= b <= (if a == 0xF4 then 0x8F else 0xBF)
  }

  predicate ValidUtf8(s: Bytes)
    decreases |s|
  {
    s == [] || (RuneLength(s) > 0 && ValidUtf8(s[RuneLength(s)..]))
  }

  /** Only the first byte of a character is not a continuation byte. */
  lemma RuneShape(s: Bytes)
    requires RuneLength(s) > 0
    ensures !IsContinuation(s[0]) && RuneLength(s) <= 4
    ensures forall i :: 1 <= i < RuneLength(s) ==> IsContinuation(s[i])
  {
  }

  lemma RuneExtends(s: Bytes, t: Bytes)
    requires RuneLength(s) > 0
    ensures RuneLength(s + t) == RuneLength(s)
    ensures RuneLength(s[..RuneLength(s)]) == RuneLength(s)
  {
  }

  lemma {:induction false} ValidConcat(s: Bytes, t: Bytes)
    requires ValidUtf8(s) && ValidUtf8(t)
    ensures ValidUtf8(s + t)
    decreases |s|
  {
    if s == [] {
      assert s + t == t;
    } else {
      var n := RuneLength(s);
      RuneExtends(s, t);
      ValidConcat(s[n..], t);
      assert (s + t)[n..] == s[n..] + t;
    }
  }

  /** Cutting valid text where no continuation byte follows gives two valid texts. */
  lemma {:induction false} ValidSplit(s: Bytes, i: nat)
    requires ValidUtf8(s) && i <= |s| && (i < |s| ==> !IsContinuation(s[i]))
    ensures ValidUtf8(s[..i]) && ValidUtf8(s[i..])
    decreases |s|
  {
    hide RuneLength, IsContinuation;
    if i == 0 {
      assert s[..i] == [] && s[i..] == s;
    } else {
      var n := RuneLength(s);
      RuneShape(s);
      assert i >= n;
      ValidSplit(s[n..], i - n);
      assert s[n..][i - n..] == s[i..];
      assert s[n..][..i - n] == s[n..i];
      RuneExtends(s, []);
      RuneExtends(s[..n], s[n..i]);
      assert s[..n] + s[n..i] == s[..i];
      assert s[..i][n..] == s[n..i];
    }
  }

  /** Length of the longest prefix that is valid. */
  function ValidLength(s: Bytes): (n: nat)
    ensures n <= |s|
    decreases |s|
  {
    var n := RuneLength(s);
    if n == 0 then 0 else n + ValidLength(s[n..])
  }

  /** That prefix is valid, and no longer one is. */
  lemma {:induction false} ValidLengthIsLongest(s: Bytes)
    ensures ValidUtf8(s[..ValidLength(s)])
    ensures forall i :: 0 <= i <= |s| && ValidUtf8(s[..i]) ==> i <= ValidLength(s)
    decreases |s|
  {
    hide RuneLength;
    var n := RuneLength(s);
    if n > 0 {
      var rest, k := s[n..], ValidLength(s[n..]);
      ValidLengthIsLongest(rest);
      RuneExtends(s, []);
      RuneExtends(s[..n], rest[..k]);
      assert s[..n + k] == s[..n] + rest[..k];
      assert s[..n + k][n..] == rest[..k];
    }
    forall i | 0 <= i <= |s| && ValidUtf8(s[..i])
      ensures i <= ValidLength(s)
    {
      if i > 0 {
        RuneExtends(s[..i], s[i..]);
        assert s[..i] + s[i..] == s;
        assert s[..i][n..] == s[n..][..i - n];
      }
    }
  }

  lemma WholeIsValidIff(s: Bytes)
    ensures ValidUtf8(s) <==> ValidLength(s) == |s|
  {
    hide ValidUtf8, ValidLength;
    ValidLengthIsLongest(s);
    assert s[..|s|] == s;
  }

  /** A prefix that ends between characters is valid exactly when the text is valid that far. */
  lemma ValidPrefixIff(s: Bytes, i: nat)
    requires i < |s| && (i == 0 || !IsContinuation(s[i]))
    ensures ValidUtf8(s[..i]) <==> i <= ValidLength(s)
  {
    ValidLengthIsLongest(s);
    var n := ValidLength(s);
    if 0 < i <= n {
      var front := s[..n];
      assert i < n ==> front[i] == s[i];
      ValidSplit(front, i);
      assert front[..i] == s[..i];
    }
  }

  /** The position a cut at `limit` is moved back to. */
  function Boundary(s: Bytes, limit: nat): (i: nat)
    requires limit < |s|
    ensures i <= limit && (i == 0 || !IsContinuation(s[i]))
    ensures forall j :: i < j <= limit ==> IsContinuation(s[j])
  {
    if limit > 0 && IsContinuation(s[limit]) then Boundary(s, limit - 1) else limit
  }

  /** In valid text a cut moves back by at most three bytes, and lands between characters. */
  lemma {:induction false} BoundaryIsNear(s: Bytes, limit: nat)
    requires ValidUtf8(s) && limit < |s|
    ensures !IsContinuation(s[Boundary(s, limit)])
    ensures limit - 3 <= Boundary(s, limit)
    decreases |s|
  {
    var n := RuneLength(s);
    RuneShape(s);
    if n <= limit {
      BoundaryIsNear(s[n..], limit - n);
      BoundaryShift(s[..n], s[n..], limit - n);
      assert s[..n] + s[n..] == s;
    }
  }

  /** Text in front of a piece that does not start inside a character does not move its boundaries. */
  lemma {:induction false} BoundaryShift(front: Bytes, s: Bytes, limit: nat)
    requires limit < |s| && !IsContinuation(s[0])
    ensures Boundary(front + s, |front| + limit) == |front| + Boundary(s, limit)
    decreases limit
  {
    assert (front + s)[|front| + limit] == s[limit];
    if limit > 0 && IsContinuation(s[limit]) {
      BoundaryShift(front, s, limit - 1);
    }
  }

  /** Text behind a cut does not move it. */
  lemma {:induction false} BoundaryPrefix(s: Bytes, back: Bytes, limit: nat)
    requires limit < |s|
    ensures Boundary(s + back, limit) == Boundary(s, limit)
    decreases limit
  {
    assert (s + back)[limit] == s[limit];
    if limit > 0 && IsContinuation(s[limit]) {
      BoundaryPrefix(s, back, limit - 1);
    }
  }
}
