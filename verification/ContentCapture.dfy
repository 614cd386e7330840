/** The bounded content accumulator: what is retained of a streamed text. */
module ContentCapture {
  import opened Utf8

  const CONTENT_CAPTURE_LIMIT: nat := 16 * 1024

  /** "... [truncated]" */
  const SUFFIX: Bytes :=
    [0x2E, 0x2E, 0x2E, 0x20, 0x5B, 0x74, 0x72, 0x75, 0x6E, 0x63, 0x61, 0x74, 0x65, 0x64, 0x5D]

  function ClampContentLimit(limit: int): (r: nat)
    ensures |SUFFIX| <= r
    ensures 15 <= limit <= 16384 ==> r == limit
    ensures 0 < limit < 15 ==> r == 15
    ensures limit <= 0 || limit > 16384 ==> r == 16384
  {
    if limit <= 0 || limit > CONTENT_CAPTURE_LIMIT then CONTENT_CAPTURE_LIMIT
    else if limit < |SUFFIX| then |SUFFIX|
    else limit
  }

  /** What an accumulator holds. */
  datatype Captured = Captured(content: Bytes, limit: nat, truncated: bool) {
    predicate Valid() { limit >= |SUFFIX| }
  }

  function Fresh(limit: nat): Captured { Captured([], limit, false) }

  /** At most `limit` bytes of the text, cut between characters. */
  function CutAt(content: Bytes, limit: nat): Bytes {
    if |content| <= limit then content else content[..Boundary(content, limit)]
  }

  function AppendOf(c: Captured, content: Bytes): Captured
    requires c.Valid()
  {
    if content == [] || c.truncated then c
    else
      var remaining := c.limit - |SUFFIX| - |c.content|;
      if remaining >= |content| then c.(content := c.content + content)
      else c.(content := c.content + (if remaining > 0 then CutAt(content, remaining) else []) + SUFFIX, truncated := true)
  }

  function AppendAll(c: Captured, chunks: seq<Bytes>): (r: Captured)
    requires c.Valid()
    ensures r.Valid() && r.limit == c.limit
    decreases |chunks|
  {
    if chunks == [] then c else AppendAll(AppendOf(c, chunks[0]), chunks[1..])
  }

  function Concat(chunks: seq<Bytes>): Bytes {
    if chunks == [] then [] else chunks[0] + Concat(chunks[1..])
  }

  /** The part of the text that is kept; the text fits when its length is within the budget. */
  function Kept(text: Bytes, limit: nat): Bytes
    requires limit >= |SUFFIX|
  {
    CutAt(text, limit - |SUFFIX|)
  }

  /** What is captured of a text seen at once. */
  function Whole(text: Bytes, limit: nat): Captured
    requires limit >= |SUFFIX|
  {
    if |text| <= limit - |SUFFIX| then Captured(text, limit, false)
    else Captured(Kept(text, limit) + SUFFIX, limit, true)
  }

  /** Appending a chunk that starts between characters continues the one-shot capture. */
  lemma AppendContinues(text: Bytes, chunk: Bytes, limit: nat)
    requires limit >= |SUFFIX| && (chunk != [] ==> !IsContinuation(chunk[0]))
    ensures AppendOf(Whole(text, limit), chunk) == Whole(text + chunk, limit)
  {
    hide Boundary, IsContinuation;
    var budget := limit - |SUFFIX|;
    var all := text + chunk;
    if chunk == [] {
      assert all == text;
    } else if |text| > budget {
      BoundaryPrefix(text, chunk, budget);
      assert all[..Boundary(all, budget)] == text[..Boundary(text, budget)];
    } else if |all| > budget {
      CutContinues(text, chunk, limit);
    }
  }

  /** A chunk that no longer fits is cut where the whole text is. */
  lemma CutContinues(text: Bytes, chunk: Bytes, limit: nat)
    requires limit >= |SUFFIX| && |text| <= limit - |SUFFIX| < |text + chunk| && !IsContinuation(chunk[0])
    ensures AppendOf(Whole(text, limit), chunk) == Whole(text + chunk, limit)
  {
    hide Boundary, IsContinuation;
    var remaining := limit - |SUFFIX| - |text|;
    var all := text + chunk;
    BoundaryShift(text, chunk, remaining);
    var cut := chunk[..Boundary(chunk, remaining)];
    assert all[..Boundary(all, limit - |SUFFIX|)] == text + cut;
    assert remaining == 0 ==> cut == [];
    assert CutAt(chunk, remaining) == cut;
  }

  lemma {:induction false} AppendAllContinues(text: Bytes, chunks: seq<Bytes>, limit: nat)
    requires limit >= |SUFFIX| && forall c :: c in chunks ==> ValidUtf8(c)
    ensures AppendAll(Whole(text, limit), chunks) == Whole(text + Concat(chunks), limit)
    decreases |chunks|
  {
    if chunks == [] {
      assert text + Concat(chunks) == text;
    } else {
      assert ValidUtf8(chunks[0]);
      if chunks[0] != [] { RuneShape(chunks[0]); }
      AppendContinues(text, chunks[0], limit);
      AppendAllContinues(text + chunks[0], chunks[1..], limit);
      assert text + chunks[0] + Concat(chunks[1..]) == text + Concat(chunks);
    }
  }

  /** However a text is cut into valid chunks, the accumulator ends as if it had seen it whole. */
  lemma TruncationIsSplitIndependent(chunks: seq<Bytes>, limit: nat)
    requires limit >= |SUFFIX| && forall c :: c in chunks ==> ValidUtf8(c)
    ensures AppendAll(Fresh(limit), chunks) == Whole(Concat(chunks), limit)
    ensures AppendAll(Fresh(limit), chunks) == AppendAll(Fresh(limit), [Concat(chunks)])
  {
    AppendAllContinues([], chunks, limit);
    assert [] + Concat(chunks) == Concat(chunks);
    OneAppend(Concat(chunks), limit);
  }

  lemma OneAppend(text: Bytes, limit: nat)
    requires limit >= |SUFFIX|
    ensures AppendAll(Fresh(limit), [text]) == Whole(text, limit)
  {
    assert [text][1..] == [];
    assert AppendOf(Fresh(limit), text) == Whole(text, limit);
  }

  /** Whatever bytes are appended, at most `limit` of them are retained, and
      they are a prefix of the text, followed by the suffix when text was lost. */
  lemma {:induction false} RetainedIsBoundedPrefix(chunks: seq<Bytes>, limit: nat)
    requires limit >= |SUFFIX|
    ensures var r := AppendAll(Fresh(limit), chunks);
      var text := Concat(chunks);
      && |r.content| <= limit
      && (r.truncated <==> |text| > limit - |SUFFIX|)
      && (!r.truncated ==> r.content == text)
      && (r.truncated ==> |r.content| >= |SUFFIX| && r.content[|r.content| - |SUFFIX|..] == SUFFIX)
      && (r.truncated ==> r.content[..|r.content| - |SUFFIX|] <= text)
    decreases |chunks|
  {
    if chunks != [] {
      var last := |chunks| - 1;
      RetainedIsBoundedPrefix(chunks[..last], limit);
      AppendAllLast(Fresh(limit), chunks);
      ConcatLast(chunks);
      var before := AppendAll(Fresh(limit), chunks[..last]);
      var remaining := limit - |SUFFIX| - |before.content|;
      if !before.truncated && remaining < |chunks[last]| {
        var kept := before.content + if remaining > 0 then CutAt(chunks[last], remaining) else [];
        var after := AppendOf(before, chunks[last]);
        assert after.content == kept + SUFFIX;
        assert after.content[..|after.content| - |SUFFIX|] == kept;
      }
    }
  }

  lemma {:induction false} AppendAllLast(c: Captured, chunks: seq<Bytes>)
    requires c.Valid() && chunks != []
    ensures AppendAll(c, chunks) == AppendOf(AppendAll(c, chunks[..|chunks| - 1]), chunks[|chunks| - 1])
    decreases |chunks|
  {
    if |chunks| > 1 {
      AppendAllLast(AppendOf(c, chunks[0]), chunks[1..]);
      assert chunks[1..][..|chunks| - 2] == chunks[..|chunks| - 1][1..];
    } else {
      assert chunks[1..] == [] && chunks[..0] == [];
    }
  }

  lemma {:induction false} ConcatLast(chunks: seq<Bytes>)
    requires chunks != []
    ensures Concat(chunks) == Concat(chunks[..|chunks| - 1]) + chunks[|chunks| - 1]
    decreases |chunks|
  {
    if |chunks| > 1 {
      var front, last := chunks[..|chunks| - 1], chunks[|chunks| - 1];
      ConcatLast(chunks[1..]);
      assert chunks[1..][..|chunks| - 2] == front[1..];
      assert chunks[0] + (Concat(front[1..]) + last) == (chunks[0] + Concat(front[1..])) + last;
    } else {
      assert chunks[1..] == [] && chunks[..0] == [];
    }
  }

  /** Where the text is cut when it does not fit. */
  function CutPosition(text: Bytes, limit: nat): nat
    requires |SUFFIX| <= limit && |text| > limit - |SUFFIX|
  {
    Boundary(text, limit - |SUFFIX|)
  }

  /** The captured text is valid UTF-8 exactly when the input is valid as a whole and fits, or
      valid at least up to where it is cut. */
  lemma CapturedIsValidIff(text: Bytes, limit: nat)
    requires limit >= |SUFFIX|
    ensures ValidUtf8(Whole(text, limit).content)
       <==> if |text| <= limit - |SUFFIX| then ValidLength(text) == |text| else CutPosition(text, limit) <= ValidLength(text)
  {
    hide ValidUtf8, ValidLength, Boundary;
    if |text| <= limit - |SUFFIX| {
      WholeIsValidIff(text);
    } else {
      var cut := CutPosition(text, limit);
      KeptIsValidIff(text, limit);
      ValidPrefixIff(text, cut);
    }
  }

  /** With the suffix, which is valid, the result is valid when the kept part is. */
  lemma KeptIsValidIff(text: Bytes, limit: nat)
    requires limit >= |SUFFIX| && |text| > limit - |SUFFIX|
    ensures ValidUtf8(Whole(text, limit).content) <==> ValidUtf8(Kept(text, limit))
  {
    SuffixIsValid();
    var kept := Kept(text, limit);
    if ValidUtf8(kept) {
      ValidConcat(kept, SUFFIX);
    }
    if ValidUtf8(kept + SUFFIX) {
      assert (kept + SUFFIX)[|kept|] == SUFFIX[0];
      ValidSplit(kept + SUFFIX, |kept|);
      assert (kept + SUFFIX)[..|kept|] == kept;
    }
  }

  /** Valid text stays valid, and when cut it loses at most three bytes of the budget. */
  lemma ValidTextLosesLittle(text: Bytes, limit: nat)
    requires limit >= |SUFFIX| && ValidUtf8(text)
    ensures ValidUtf8(Whole(text, limit).content)
    ensures |text| > limit - |SUFFIX| ==> |Kept(text, limit)| >= limit - |SUFFIX| - 3
  {
    if |text| > limit - |SUFFIX| {
      BoundaryIsNear(text, limit - |SUFFIX|);
      ValidSplit(text, Boundary(text, limit - |SUFFIX|));
      KeptIsValidIff(text, limit);
    }
  }

  /** The result is not always valid UTF-8: a stray byte within the budget is returned as it is. */
  lemma InvalidTextStaysInvalid()
    ensures !ValidUtf8(Whole([0xFF], CONTENT_CAPTURE_LIMIT).content)
  {
  }

  lemma SuffixIsValid()
    ensures ValidUtf8(SUFFIX)
  {
    hide ValidUtf8;
    AsciiIsValid(SUFFIX);
  }

  lemma {:induction false} AsciiIsValid(s: Bytes)
    requires forall i :: 0 <= i < |s| ==> s[i] < 0x80
    ensures ValidUtf8(s)
    decreases |s|
  {
    if s != [] {
      AsciiIsValid(s[1..]);
    }
  }

  lemma OneAppendIs(text: Bytes, limit: nat)
    requires limit >= |SUFFIX|
    ensures AppendOf(Fresh(limit), text) == Whole(text, limit) && |Whole(text, limit).content| <= limit
  {
    OneAppend(text, limit);
    var one := [text];
    assert one[1..] == [] && AppendAll(Fresh(limit), one) == AppendOf(Fresh(limit), text);
  }

  // ---- the accumulator as the program keeps it ----

  method TruncateToUtf8Boundary(content: Bytes, limit: nat) returns (r: Bytes)
    ensures r == CutAt(content, limit)
  {
    if |content| <= limit {
      return content;
    }
    var i: nat := limit;
    while i > 0 && IsContinuation(content[i])
      invariant 0 <= i <= limit && Boundary(content, i) == Boundary(content, limit)
    {
      i := i - 1;
    }
    return content[..i];
  }

  class ContentAccumulator {
    var content: Bytes  // the string builder's bytes
    const limit: nat
    var truncated: bool
    ghost const home: int

    ghost function State(): Captured
      reads this
    {
      Captured(content, limit, truncated)
    }

    constructor (limit: nat, ghost home: int)
      ensures State() == Fresh(limit) && this.home == home
    {
      this.content, this.limit, this.truncated, this.home := [], limit, false, home;
    }

    method String() returns (r: Bytes)
      ensures r == State().content
    {
      r := content;
    }

    method Append(chunk: Bytes)
      requires State().Valid()
      modifies this
      ensures State() == AppendOf(old(State()), chunk)
    {
      if chunk == [] || truncated {
        return;
      }
      var contentLimit := limit - |SUFFIX|;
      var remaining: int := contentLimit - |content|;
      if remaining >= |chunk| {
        content := content + chunk;
        return;
      }
      if remaining > 0 {
        var cut := TruncateToUtf8Boundary(chunk, remaining);
        content := content + cut;
      }
      content := content + SUFFIX;
      truncated := true;
    }
  }

  method TruncateContent(content: Bytes, limit: int) returns (r: Bytes)
    ensures r == Whole(content, ClampContentLimit(limit)).content
    ensures |r| <= ClampContentLimit(limit)
    ensures ValidUtf8(content) ==> ValidUtf8(r)
  {
    hide ValidUtf8, AppendOf, CutAt, Kept;
    var captured := new ContentAccumulator(ClampContentLimit(limit), 0);
    OneAppendIs(content, ClampContentLimit(limit));
    captured.Append(content);
    r := captured.String();
    if ValidUtf8(content) {
      ValidTextLosesLittle(content, ClampContentLimit(limit));
    }
  }
}
