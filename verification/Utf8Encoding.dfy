/** The well-formed characters of Utf8 are the encodings of the Unicode scalar values, as the table
    in section 3 of RFC 3629 gives them. */
module Utf8Encoding {
  import opened Utf8

  /** No surrogate, and not beyond the last code point. */
  predicate IsScalar(cp: nat) { cp < 0xD800 || 0xE000 <= cp < 0x11_0000 }

  function Encode(cp: nat): Bytes
    requires IsScalar(cp)
  {
    if cp < 0x80 then [cp]
    else if cp < 0x800 then [0xC0 + cp / 0x40, 0x80 + cp % 0x40]
    else if cp < 0x1_0000 then [0xE0 + cp / 0x1000, 0x80 + cp / 0x40 % 0x40, 0x80 + cp % 0x40]
    else [0xF0 + cp / 0x4_0000, 0x80 + cp / 0x1000 % 0x40, 0x80 + cp / 0x40 % 0x40, 0x80 + cp % 0x40]
  }

  lemma EncodedLongIsRead(cp: nat)
    requires 0x1_0000 <= cp < 0x11_0000
    ensures RuneLength(Encode(cp)) == 4
  {
    var a, b := cp / 0x4_0000, cp / 0x1000 % 0x40;
    assert cp / 0x1000 == a * 0x40 + b && a <= 4 && (a == 0 ==> b >= 0x10) && (a == 4 ==> b < 0x10);
    hide IsScalar;
  }

  lemma EncodedShortIsRead(cp: nat)
    requires IsScalar(cp) && cp < 0x1_0000
    ensures RuneLength(Encode(cp)) == |Encode(cp)|
  {
    var a, b := cp / 0x1000, cp / 0x40 % 0x40;
    assert cp / 0x40 == a * 0x40 + b && a <= 15;
  }

  lemma EncodedIsRead(cp: nat, rest: Bytes)
    requires IsScalar(cp)
    ensures RuneLength(Encode(cp) + rest) == |Encode(cp)|
  {
    if cp < 0x1_0000 { EncodedShortIsRead(cp); } else { EncodedLongIsRead(cp); }
    EncodedIsSome(cp);
    hide *;
    RuneExtends(Encode(cp), rest);
  }

  lemma EncodedIsSome(cp: nat)
    requires IsScalar(cp)
    ensures 1 <= |Encode(cp)| <= 4 && (cp >= 0x1_0000 ==> |Encode(cp)| == 4)
  {
  }

  lemma TwoBytes(s: Bytes) returns (cp: nat)
    requires RuneLength(s) == 2
    ensures IsScalar(cp) && s[..2] == Encode(cp)
  {
    var a: int, b: int := s[0] - 0xC0, s[1] - 0x80;
    cp := a * 0x40 + b;
    assert cp / 0x40 == s[0] - 0xC0 && cp % 0x40 == s[1] - 0x80;
    assert s[..2] == [s[0], s[1]];
  }

  lemma ThreeBytes(s: Bytes) returns (cp: nat)
    requires RuneLength(s) == 3
    ensures IsScalar(cp) && s[..3] == Encode(cp)
  {
    var a: int, b: int, c: int := s[0] - 0xE0, s[1] - 0x80, s[2] - 0x80;
    var front := a * 0x40 + b;
    cp := front * 0x40 + c;
    assert cp / 0x40 == front && cp % 0x40 == s[2] - 0x80;
    assert front / 0x40 == s[0] - 0xE0 && front % 0x40 == s[1] - 0x80 && cp / 0x1000 == front / 0x40;
    assert s[..3] == [s[0], s[1], s[2]];
  }

  lemma FourBytes(s: Bytes) returns (cp: nat)
    requires RuneLength(s) == 4
    ensures IsScalar(cp) && s[..4] == Encode(cp)
  {
    var a: int, b: int, c: int, d: int := s[0] - 0xF0, s[1] - 0x80, s[2] - 0x80, s[3] - 0x80;
    var first := a * 0x40 + b;
    var front := first * 0x40 + c;
    cp := front * 0x40 + d;
    assert cp / 0x40 == front && cp % 0x40 == s[3] - 0x80;
    assert front / 0x40 == first && front % 0x40 == s[2] - 0x80 && cp / 0x1000 == first;
    assert first / 0x40 == s[0] - 0xF0 && first % 0x40 == s[1] - 0x80 && cp / 0x4_0000 == first / 0x40;
    assert s[..4] == [s[0], s[1], s[2], s[3]];
  }

  /** A text begins with a well-formed character of n bytes exactly when these bytes are the encoding
      of a scalar value. */
  lemma RuneIff(s: Bytes, n: nat)
    requires 0 < n <= |s|
    ensures RuneLength(s) == n <==> exists cp :: IsScalar(cp) && s[..n] == Encode(cp)
  {
    forall cp: nat | IsScalar(cp) && s[..n] == Encode(cp)
      ensures RuneLength(s) == n
    {
      EncodedIsRead(cp, s[n..]);
      assert s == Encode(cp) + s[n..];
    }
    if RuneLength(s) == n {
      var cp: nat;
      if n == 1 { cp := s[0]; assert s[..1] == [s[0]]; }
      else if n == 2 { cp := TwoBytes(s); }
      else if n == 3 { cp := ThreeBytes(s); }
      else { cp := FourBytes(s); }
      assert IsScalar(cp) && s[..n] == Encode(cp);
    }
  }
}
