/** Server-sent event lines as the reader cuts and reads them. */
module SseLines {
  import opened Utf8
  import opened GoBytes

  const LF: byte := 0x0A
  /** "data: " */
  const DATA_PREFIX: Bytes := [0x64, 0x61, 0x74, 0x61, 0x3A, 0x20]
  /** "[DONE]" */
  const DONE_MARKER: Bytes := [0x5B, 0x44, 0x4F, 0x4E, 0x45, 0x5D]

  // ---- bytes.Split(data, "\n") ----

  function SplitLines(s: Bytes): (r: seq<Bytes>)
    ensures r != []
  {
    if s == [] then [[]] else InFront(s[0], SplitLines(s[1..]))
  }

  /** The lines of the data that has one more byte in front. */
  function InFront(b: byte, lines: seq<Bytes>): (r: seq<Bytes>)
    requires lines != []
    ensures r != []
  {
    if b == LF then [[]] + lines else [[b] + lines[0]] + lines[1..]
  }

  /** The terminated lines of the data. */
  function CompleteLines(s: Bytes): seq<Bytes> {
    var lines := SplitLines(s);
    lines[..|lines| - 1]
  }

  /** What follows the last line feed. */
  function Tail(s: Bytes): Bytes {
    var lines := SplitLines(s);
    lines[|lines| - 1]
  }

  /** Splitting is joining undone: no line holds a line feed, and the lines joined give the data. */
  function JoinLines(lines: seq<Bytes>): Bytes
    requires lines != []
  {
    if |lines| == 1 then lines[0] else lines[0] + [LF] + JoinLines(lines[1..])
  }

  lemma {:induction false} SplitIsUnjoin(s: Bytes)
    ensures JoinLines(SplitLines(s)) == s
    ensures forall line :: line in SplitLines(s) ==> LF !in line
  {
    if s != [] {
      SplitIsUnjoin(s[1..]);
      var rest := SplitLines(s[1..]);
      if s[0] == LF {
        assert SplitLines(s)[1..] == rest;
        assert [] + [LF] + s[1..] == s;
      } else {
        assert SplitLines(s)[1..] == rest[1..];
        if |rest| > 1 {
          assert ([s[0]] + rest[0]) + [LF] + JoinLines(rest[1..]) == [s[0]] + (rest[0] + [LF] + JoinLines(rest[1..]));
        }
      }
    }
  }

  /** Data that arrives later only extends the unterminated line. */
  lemma {:induction false} SplitConcat(s: Bytes, t: Bytes)
    ensures CompleteLines(s + t) == CompleteLines(s) + CompleteLines(Tail(s) + t)
    ensures Tail(s + t) == Tail(Tail(s) + t)
    ensures SplitLines(s + t) == CompleteLines(s) + SplitLines(Tail(s) + t)
  {
    SplitConcatLines(s, t);
    var front, back := CompleteLines(s), SplitLines(Tail(s) + t);
    assert (front + back)[..|front| + |back| - 1] == front + back[..|back| - 1];
  }

  lemma InFrontOfFirst(b: byte, front: seq<Bytes>, back: seq<Bytes>)
    requires front != [] && back != []
    ensures InFront(b, front + back) == InFront(b, front) + back
  {
    assert (front + back)[1..] == front[1..] + back;
  }

  lemma SplitParts(s: Bytes)
    ensures SplitLines(s) == CompleteLines(s) + [Tail(s)]
  {
  }

  /** One more byte in front of data whose first line is terminated. */
  lemma InFrontOfLines(b: byte, rest: Bytes)
    requires CompleteLines(rest) != []
    ensures CompleteLines([b] + rest) == InFront(b, CompleteLines(rest)) && Tail([b] + rest) == Tail(rest)
  {
    assert ([b] + rest)[1..] == rest;
    SplitParts(rest);
    var front, tail := CompleteLines(rest), Tail(rest);
    hide CompleteLines, Tail;
    InFrontOfFirst(b, front, [tail]);
    var lines := SplitLines([b] + rest);
    assert lines == InFront(b, front) + [tail];
    SplitParts([b] + rest);
    LastApart(CompleteLines([b] + rest), Tail([b] + rest), InFront(b, front), tail);
  }

  lemma LastApart(a: seq<Bytes>, x: Bytes, b: seq<Bytes>, y: Bytes)
    requires a + [x] == b + [y]
    ensures a == b && x == y
  {
    assert |a| == |b|;
    assert a == (a + [x])[..|a|] && b == (b + [y])[..|b|];
    assert (a + [x])[|a|] == x && (b + [y])[|b|] == y;
  }

  /** One more byte in front of data that holds no line feed. */
  lemma InFrontOfTail(b: byte, rest: Bytes)
    requires CompleteLines(rest) == []
    ensures Tail(rest) == rest
    ensures if b == LF then CompleteLines([b] + rest) == [[]] && Tail([b] + rest) == rest
            else CompleteLines([b] + rest) == [] && Tail([b] + rest) == [b] + rest
  {
    SplitIsUnjoin(rest);
    assert ([b] + rest)[1..] == rest;
  }

  lemma {:induction false} SplitConcatLines(s: Bytes, t: Bytes)
    ensures SplitLines(s + t) == CompleteLines(s) + SplitLines(Tail(s) + t)
  {
    if s == [] {
      assert s + t == t && Tail(s) + t == t;
    } else {
      var b, rest := s[0], s[1..];
      SplitConcatLines(rest, t);
      assert s == [b] + rest && (s + t)[1..] == rest + t && (s + t)[0] == b;
      assert SplitLines(s + t) == InFront(b, SplitLines(rest + t));
      var front, back := CompleteLines(rest), SplitLines(Tail(rest) + t);
      if front != [] {
        InFrontOfLines(b, rest);
        InFrontOfFirst(b, front, back);
      } else {
        InFrontOfTail(b, rest);
      }
      hide CompleteLines, Tail;
    }
  }

  // ---- one line ----

  datatype Line = Ignored | Done | Payload(data: Bytes)

  /** `parseSSELine`, for a line that was trimmed and is not empty. */
  function ParseLine(line: Bytes): Line {
    if !(DATA_PREFIX <= line) then Ignored
    else if line[|DATA_PREFIX|..] == DONE_MARKER then Done
    else Payload(line[|DATA_PREFIX|..])
  }

  /** What a raw line means to the reader. */
  function ReadLine(raw: Bytes): Line {
    var line := TrimSpace(raw);
    if line == [] then Ignored else ParseLine(line)
  }
}
