/** What a stream says, stated on its bytes: which lines carry a payload, how a printed stream
    is read, and which counts and names the span reports. */
module StreamText {
  import opened Common
  import opened Utf8
  import opened GoBytes
  import opened WhiteSpace
  import opened ContentCapture
  import opened SseLines
  import opened StreamModel
  import opened StreamTheorems

  // ---- one line ----

  /** Within the white space at its ends the line is the given text. */
  ghost predicate Carries(raw: Bytes, text: Bytes) {
    exists a, b :: IsBlank(a) && IsBlank(b) && raw == a + text + b && IsTrimmed(text)
  }

  /** A line is a payload exactly when it is, between white space, the six bytes "data: " and that
      payload, which is not "[DONE]"; it is the end marker exactly when it is "data: [DONE]"; and
      it is ignored exactly when it does not begin with the six bytes. */
  lemma ReadLineIff(raw: Bytes, data: Bytes)
    ensures ReadLine(raw) == Payload(data) <==>
      Carries(raw, [0x64, 0x61, 0x74, 0x61, 0x3A, 0x20] + data) && data != [0x5B, 0x44, 0x4F, 0x4E, 0x45, 0x5D]
    ensures ReadLine(raw) == Done <==>
      Carries(raw, [0x64, 0x61, 0x74, 0x61, 0x3A, 0x20, 0x5B, 0x44, 0x4F, 0x4E, 0x45, 0x5D])
    ensures ReadLine(raw) == Ignored <==>
      exists text :: Carries(raw, text) && !([0x64, 0x61, 0x74, 0x61, 0x3A, 0x20] <= text)
  {
    PayloadIff(raw, data);
    DoneIff(raw);
    IgnoredIff(raw);
  }

  lemma CarriesTrimmed(raw: Bytes, text: Bytes)
    ensures Carries(raw, text) <==> TrimSpace(raw) == text
  {
    hide TrimSpace, IsBlank, IsTrimmed;
    if Carries(raw, text) {
      var a, b :| IsBlank(a) && IsBlank(b) && raw == a + text + b && IsTrimmed(text);
      TrimSpaceStops(a, text, b);
    }
    var a, b := TrimSpaceDrops(raw);
  }

  lemma PayloadIff(raw: Bytes, data: Bytes)
    ensures ReadLine(raw) == Payload(data) <==>
      Carries(raw, [0x64, 0x61, 0x74, 0x61, 0x3A, 0x20] + data) && data != [0x5B, 0x44, 0x4F, 0x4E, 0x45, 0x5D]
  {
    CarriesTrimmed(raw, DATA_PREFIX + data);
    LineIs(TrimSpace(raw), data);
    LineMeans(raw);
    hide *;
  }

  lemma DoneIff(raw: Bytes)
    ensures ReadLine(raw) == Done <==>
      Carries(raw, [0x64, 0x61, 0x74, 0x61, 0x3A, 0x20, 0x5B, 0x44, 0x4F, 0x4E, 0x45, 0x5D])
  {
    assert DATA_PREFIX + DONE_MARKER == [0x64, 0x61, 0x74, 0x61, 0x3A, 0x20, 0x5B, 0x44, 0x4F, 0x4E, 0x45, 0x5D];
    CarriesTrimmed(raw, DATA_PREFIX + DONE_MARKER);
    LineIs(TrimSpace(raw), DONE_MARKER);
    LineMeans(raw);
    hide *;
  }

  lemma IgnoredIff(raw: Bytes)
    ensures ReadLine(raw) == Ignored <==>
      exists text :: Carries(raw, text) && !([0x64, 0x61, 0x74, 0x61, 0x3A, 0x20] <= text)
  {
    LineIs([], []);
    LineMeans(raw);
    CarriesTrimmed(raw, TrimSpace(raw));
    hide *;
    forall text | Carries(raw, text)
      ensures text == TrimSpace(raw)
    {
      CarriesTrimmed(raw, text);
    }
  }

  lemma LineIs(line: Bytes, data: Bytes)
    ensures DATA_PREFIX == [0x64, 0x61, 0x74, 0x61, 0x3A, 0x20] && DONE_MARKER == [0x5B, 0x44, 0x4F, 0x4E, 0x45, 0x5D]
    ensures line == DATA_PREFIX + data <==> DATA_PREFIX <= line && line[|DATA_PREFIX|..] == data
  {
  }

  lemma LineMeans(raw: Bytes)
    ensures var line := TrimSpace(raw);
      ReadLine(raw) == if !(DATA_PREFIX <= line) then Ignored
                       else if line[|DATA_PREFIX|..] == DONE_MARKER then Done
                       else Payload(line[|DATA_PREFIX|..])
  {
    hide TrimSpace;
  }

  // ---- what reading it does ----

  /** A text that white space may follow without being taken for a part of it. */
  ghost predicate EndsPlain(text: Bytes) {
    text != [] && forall w :: IsSpace(w) && |w| <= |text| ==> text[|text| - |w|..] != w
  }

  lemma DataIsTrimmed(text: Bytes)
    requires EndsPlain(text)
    ensures IsTrimmed([0x64, 0x61, 0x74, 0x61, 0x3A, 0x20] + text)
  {
    hide IsSpace;
    var line: Bytes := [0x64, 0x61, 0x74, 0x61, 0x3A, 0x20] + text;
    forall w | IsSpace(w)
      ensures !(w <= line)
      ensures |w| <= |line| ==> line[|line| - |w|..] != w
    {
      SpaceShape(w);
      var k := |line| - |w|;
      if |w| <= |text| {
        assert line[k..] == text[|text| - |w|..];
      } else {
        assert |w| <= |line| ==> line[k..][|w| - |text| - 1] == 0x20;
      }
    }
  }

  /** Reading a line that is, between white space, "data: " and a text: the text is handed on as it
      is, and the fields of what it decodes to are taken over; "[DONE]" completes the stream. */
  lemma DataLineIsRead(cfg: Config, p: Parsed, before: Bytes, text: Bytes, after: Bytes)
    requires cfg.Valid() && IsBlank(before) && IsBlank(after) && EndsPlain(text)
    ensures var r := LineStep(cfg, p, before + ([0x64, 0x61, 0x74, 0x61, 0x3A, 0x20] + text) + after);
      if text == [0x5B, 0x44, 0x4F, 0x4E, 0x45, 0x5D] then r == p.(completed := true)
      else
        && r.payloads == p.payloads + [text] && r.completed == p.completed
        && (cfg.decode(text) == None ==> r == p.(payloads := p.payloads + [text]))
        && (cfg.decode(text).Some? ==>
              var c := cfg.decode(text).value;
              && r.inputTokens == (if c.promptTokens > 0 then c.promptTokens else p.inputTokens)
              && r.outputTokens == (if c.completionTokens > 0 then c.completionTokens else p.outputTokens)
              && r.totalTokens == (if c.totalTokens > 0 then c.totalTokens else p.totalTokens)
              && r.id == (if c.id != [] then c.id else p.id)
              && r.responseModel == (if c.model != [] then c.model else p.responseModel)
              && r.reasons == p.reasons + ReasonsFrom(c.choices, 0))
  {
    var raw := before + ([0x64, 0x61, 0x74, 0x61, 0x3A, 0x20] + text) + after;
    DataLineMeans(before, text, after);
    StepOfLine(cfg, p, raw);
    StepOfPayload(cfg, p, text);
    hide *;
  }

  lemma DataLineMeans(before: Bytes, text: Bytes, after: Bytes)
    requires IsBlank(before) && IsBlank(after) && EndsPlain(text)
    ensures ReadLine(before + ([0x64, 0x61, 0x74, 0x61, 0x3A, 0x20] + text) + after)
         == if text == [0x5B, 0x44, 0x4F, 0x4E, 0x45, 0x5D] then Done else Payload(text)
  {
    DataIsTrimmed(text);
    LineIs([], []);
    MeansData(before, text, after);
    hide *;
  }

  lemma MeansData(before: Bytes, text: Bytes, after: Bytes)
    requires IsBlank(before) && IsBlank(after) && IsTrimmed(DATA_PREFIX + text)
    ensures ReadLine(before + (DATA_PREFIX + text) + after) == if text == DONE_MARKER then Done else Payload(text)
  {
    hide *;
    TrimSpaceStops(before, DATA_PREFIX + text, after);
    LineMeans(before + (DATA_PREFIX + text) + after);
    Behind(DATA_PREFIX, text);
  }

  lemma Behind(front: Bytes, text: Bytes)
    ensures front <= front + text && (front + text)[|front|..] == text
  {
  }

  lemma ItCarries(before: Bytes, text: Bytes, after: Bytes)
    requires IsBlank(before) && IsBlank(after) && IsTrimmed(text)
    ensures Carries(before + text + after, text)
  {
  }

  lemma StepOfLine(cfg: Config, p: Parsed, raw: Bytes)
    requires cfg.Valid()
    ensures ReadLine(raw) == Ignored ==> LineStep(cfg, p, raw) == p
    ensures ReadLine(raw) == Done ==> LineStep(cfg, p, raw) == p.(completed := true)
    ensures ReadLine(raw).Payload? ==> LineStep(cfg, p, raw) == PayloadStep(cfg, p, ReadLine(raw).data)
  {
    hide ReadLine, PayloadStep;
  }

  lemma StepOfPayload(cfg: Config, p: Parsed, text: Bytes)
    requires cfg.Valid()
    ensures var r := PayloadStep(cfg, p, text);
      && r.payloads == p.payloads + [text] && r.completed == p.completed
      && (cfg.decode(text) == None ==> r == p.(payloads := p.payloads + [text]))
      && (cfg.decode(text).Some? ==>
            var c := cfg.decode(text).value;
            && r.inputTokens == (if c.promptTokens > 0 then c.promptTokens else p.inputTokens)
            && r.outputTokens == (if c.completionTokens > 0 then c.completionTokens else p.outputTokens)
            && r.totalTokens == (if c.totalTokens > 0 then c.totalTokens else p.totalTokens)
            && r.id == (if c.id != [] then c.id else p.id)
            && r.responseModel == (if c.model != [] then c.model else p.responseModel)
            && r.reasons == p.reasons + ReasonsFrom(c.choices, 0))
  {
    hide ChoicesStep;
    var noted := p.(payloads := p.payloads + [text]);
    if cfg.decode(text).Some? {
      var c := cfg.decode(text).value;
      ChoicesGiveReasons(cfg, FieldsStep(noted, c), c.choices, 0);
      ChoicesKeepFields(cfg, FieldsStep(noted, c), c.choices, 0);
    }
  }

  lemma {:induction false} ChoicesKeepFields(cfg: Config, p: Parsed, choices: seq<Choice>, position: nat)
    requires cfg.Valid() && position <= |choices|
    ensures var r := ChoicesStep(cfg, p, choices, position);
      && r.inputTokens == p.inputTokens && r.outputTokens == p.outputTokens && r.totalTokens == p.totalTokens
      && r.id == p.id && r.responseModel == p.responseModel
    decreases |choices| - position
  {
    hide CaptureOf;
    if position < |choices| {
      ChoicesKeepFields(cfg, ChoiceStep(cfg, p, choices[position], position), choices, position + 1);
    }
  }

  /** The line as servers print it, with or without a carriage return. */
  lemma PrintedLineIsRead(cfg: Config, p: Parsed, payload: Bytes, return_: bool)
    requires cfg.Valid() && payload != [] && IsTrimmed(payload)
    ensures var r := LineStep(cfg, p, [0x64, 0x61, 0x74, 0x61, 0x3A, 0x20] + payload + if return_ then [0x0D] else []);
      if payload == [0x5B, 0x44, 0x4F, 0x4E, 0x45, 0x5D] then r == p.(completed := true)
      else r.payloads == p.payloads + [payload] && r.completed == p.completed
  {
    var end: Bytes := if return_ then [0x0D] else [];
    NoBlank();
    CarriageReturn();
    TrimmedEndsPlain(payload);
    hide *;
    NoFront([0x64, 0x61, 0x74, 0x61, 0x3A, 0x20] + payload, end);
    DataLineIsRead(cfg, p, [], payload, end);
  }

  lemma TrimmedEndsPlain(text: Bytes)
    requires text != [] && IsTrimmed(text)
    ensures EndsPlain(text)
  {
    hide IsSpace;
  }

  lemma CarriageReturn()
    ensures IsBlank([0x0D])
  {
    assert IsSpace([0x0D]);
    OneBlank([0x0D]);
  }

  lemma NoFront(line: Bytes, end: Bytes)
    ensures [] + line + end == line + end
  {
  }

  /** A line that, within its white space, does not begin with "data: " changes nothing. */
  lemma OtherLinesChangeNothing(cfg: Config, p: Parsed, before: Bytes, text: Bytes, after: Bytes)
    requires cfg.Valid() && IsBlank(before) && IsBlank(after) && IsTrimmed(text)
    requires !([0x64, 0x61, 0x74, 0x61, 0x3A, 0x20] <= text)
    ensures LineStep(cfg, p, before + text + after) == p
  {
    ItCarries(before, text, after);
    ReadLineIff(before + text + after, []);
    StepOfLine(cfg, p, before + text + after);
    hide *;
  }

  // ---- whole streams ----

  /** A line ends at the first line feed and nowhere else. */
  lemma {:induction false} FirstLine(line: Bytes, rest: Bytes)
    requires 0x0A !in line
    ensures SplitLines(line + [0x0A] + rest) == [line] + SplitLines(rest)
    ensures SplitLines(line) == [line]
  {
    var all := line + [0x0A] + rest;
    if line == [] {
      assert all[0] == LF && all[1..] == rest;
    } else {
      FirstLine(line[1..], rest);
      assert all[0] == line[0] && all[1..] == line[1..] + [0x0A] + rest;
      assert [line[0]] + line[1..] == line;
    }
  }

  /** The unterminated last line counts exactly when the stream was closed or reached its end of
      file. */
  lemma LastLineCounts(front: Bytes, line: Bytes, end: Call)
    requires 0x0A !in line && Ends(end)
    ensures LinesRead(front + [0x0A] + line, end)
         == SplitLines(front) + if end.Close? || end.err == Some(EOF) then [line] else []
  {
    SplitConcat(front + [0x0A], line);
    TerminatedLines(front);
    FirstLine(line, []);
    assert [] + line == line;
    SplitParts(line);
    var front', all := SplitLines(front), SplitLines(front + [0x0A] + line);
    assert all == front' + [line];
    assert all[..|all| - 1] == front';
    hide SplitLines;
  }

  lemma TerminatedLines(front: Bytes)
    ensures CompleteLines(front + [0x0A]) == SplitLines(front) && Tail(front + [0x0A]) == []
  {
    SplitConcat(front, [0x0A]);
    SplitIsUnjoin(front);
    SplitParts(front);
    var last := Tail(front);
    assert last in SplitLines(front);
    FirstLine(last, []);
    assert last + [0x0A] + [] == last + [0x0A];
    hide SplitLines;
    assert CompleteLines(last + [0x0A]) == [last] && Tail(last + [0x0A]) == [];
  }

  /** A stream of payloads as servers print it. */
  function Printed(texts: seq<Bytes>): Bytes {
    if texts == [] then []
    else [0x64, 0x61, 0x74, 0x61, 0x3A, 0x20] + texts[0] + [0x0A, 0x0A] + Printed(texts[1..])
  }

  /** One line without a line feed in it, and no end marker. */
  ghost predicate IsPayload(text: Bytes) {
    EndsPlain(text) && 0x0A !in text && text != [0x5B, 0x44, 0x4F, 0x4E, 0x45, 0x5D]
  }

  function PrintedLines(texts: seq<Bytes>): seq<Bytes> {
    if texts == [] then [] else [[0x64, 0x61, 0x74, 0x61, 0x3A, 0x20] + texts[0]] + ([[]] + PrintedLines(texts[1..]))
  }

  lemma Regroup(line: Bytes, a: Bytes, b: Bytes)
    ensures line + [0x0A, 0x0A] + a + b == line + [0x0A] + ([] + [0x0A] + (a + b))
  {
  }

  lemma RegroupLines(x: Bytes, y: Bytes, a: seq<Bytes>, b: seq<Bytes>)
    ensures [x] + ([y] + (a + b)) == [x] + ([y] + a) + b
  {
  }

  lemma {:induction false} PrintedSplit(texts: seq<Bytes>, rest: Bytes)
    requires forall t :: t in texts ==> 0x0A !in t
    ensures SplitLines(Printed(texts) + rest) == PrintedLines(texts) + SplitLines(rest)
  {
    hide SplitLines;
    if texts == [] {
      assert [] + rest == rest && [] + SplitLines(rest) == SplitLines(rest);
    } else {
      var line: Bytes := [0x64, 0x61, 0x74, 0x61, 0x3A, 0x20] + texts[0];
      var more := Printed(texts[1..]) + rest;
      assert texts[0] in texts && forall t :: t in texts[1..] ==> t in texts;
      PrintedSplit(texts[1..], rest);
      FirstLine([], more);
      FirstLine(line, [] + [0x0A] + more);
      Regroup(line, Printed(texts[1..]), rest);
      RegroupLines(line, [], PrintedLines(texts[1..]), SplitLines(rest));
    }
  }

  lemma {:induction false} PayloadsConcat(a: seq<Bytes>, b: seq<Bytes>)
    ensures PayloadsIn(a + b) == PayloadsIn(a) + PayloadsIn(b)
  {
    hide ReadLine;
    if a == [] {
      assert a + b == b;
    } else {
      assert (a + b)[1..] == a[1..] + b;
      PayloadsConcat(a[1..], b);
    }
  }

  lemma Alone(line: Bytes)
    ensures [] + line + [] == line
  {
  }

  lemma PayloadMeans(text: Bytes)
    requires IsPayload(text)
    ensures ReadLine([0x64, 0x61, 0x74, 0x61, 0x3A, 0x20] + text) == Payload(text)
  {
    NoBlank();
    Alone([0x64, 0x61, 0x74, 0x61, 0x3A, 0x20] + text);
    hide EndsPlain, IsBlank, ReadLine;
    DataLineMeans([], text, []);
  }

  lemma EmptyMeans()
    ensures ReadLine([]) == Ignored
  {
  }

  lemma MarkerMeans()
    ensures ReadLine([0x64, 0x61, 0x74, 0x61, 0x3A, 0x20, 0x5B, 0x44, 0x4F, 0x4E, 0x45, 0x5D]) == Done
  {
    LineIs([], []);
    assert DATA_PREFIX + DONE_MARKER == [0x64, 0x61, 0x74, 0x61, 0x3A, 0x20, 0x5B, 0x44, 0x4F, 0x4E, 0x45, 0x5D];
    assert DONE_MARKER[|DONE_MARKER| - 1] == 0x5D;
    NoBlank();
    Alone(DATA_PREFIX + DONE_MARKER);
    PlainEnd(DONE_MARKER);
    DataIsTrimmed(DONE_MARKER);
    hide *;
    MeansData([], DONE_MARKER, []);
  }

  lemma SpaceEnds(w: Bytes)
    requires IsSpace(w)
    ensures w != [] && (w[|w| - 1] <= 0x20 || w[|w| - 1] >= 0x80)
  {
  }

  lemma PlainEnd(text: Bytes)
    requires text != [] && 0x20 < text[|text| - 1] < 0x80
    ensures EndsPlain(text)
  {
    hide IsSpace;
    forall w | IsSpace(w) && |w| <= |text|
      ensures text[|text| - |w|..] != w
    {
      SpaceEnds(w);
      assert text[|text| - |w|..][|w| - 1] == text[|text| - 1];
    }
  }

  /** A payload and an empty line in front of others. */
  lemma FrontSays(line: Bytes, text: Bytes, rest: seq<Bytes>)
    requires ReadLine(line) == Payload(text) && ReadLine([]) == Ignored
    ensures PayloadsIn([line] + ([[]] + rest)) == [text] + PayloadsIn(rest)
    ensures HasMarker([line] + ([[]] + rest)) <==> HasMarker(rest)
  {
    hide ReadLine;
    var none: seq<Bytes> := [[]];
    assert ([line] + (none + rest))[1..] == none + rest && (none + rest)[1..] == rest;
    assert forall l :: l in [line] + (none + rest) <==> l == line || l == [] || l in rest;
  }

  lemma {:induction false} PrintedSays(texts: seq<Bytes>)
    requires forall t :: t in texts ==> IsPayload(t)
    ensures PayloadsIn(PrintedLines(texts)) == texts && !HasMarker(PrintedLines(texts))
  {
    hide ReadLine, IsPayload;
    if texts != [] {
      var line: Bytes := [0x64, 0x61, 0x74, 0x61, 0x3A, 0x20] + texts[0];
      assert texts[0] in texts && forall t :: t in texts[1..] ==> t in texts;
      PayloadMeans(texts[0]);
      EmptyMeans();
      PrintedSays(texts[1..]);
      FrontSays(line, texts[0], PrintedLines(texts[1..]));
      hide PayloadsIn, HasMarker;
    }
  }

  lemma MarkerConcat(a: seq<Bytes>, b: seq<Bytes>)
    ensures HasMarker(a + b) <==> HasMarker(a) || HasMarker(b)
  {
    hide ReadLine;
    assert forall l :: l in a + b <==> l in a || l in b;
  }

  /** A printed stream that ends with the end marker: the payloads are read as they were printed,
      and only a read that fails otherwise than by an end of file makes it an error. */
  lemma PrintedStreamIsRead(cfg: Config, texts: seq<Bytes>, end: Call)
    requires cfg.Valid() && Ends(end) && forall t :: t in texts ==> IsPayload(t)
    ensures var span := Outcome(cfg, Printed(texts)
        + [0x64, 0x61, 0x74, 0x61, 0x3A, 0x20, 0x5B, 0x44, 0x4F, 0x4E, 0x45, 0x5D, 0x0A, 0x0A], end);
      && span.attributes.Some? && span.attributes.value.payloads == texts && span.attributes.value.completed
      && (span.error <==> end.Read? && (end.err.value.Hard? || end.err.value.Aborted?))
  {
    MarkerMeans();
    var marker: Bytes := [0x64, 0x61, 0x74, 0x61, 0x3A, 0x20, 0x5B, 0x44, 0x4F, 0x4E, 0x45, 0x5D];
    assert marker + [0x0A] + ([] + [0x0A] + [])
        == [0x64, 0x61, 0x74, 0x61, 0x3A, 0x20, 0x5B, 0x44, 0x4F, 0x4E, 0x45, 0x5D, 0x0A, 0x0A];
    hide *;
    MarkedStream(cfg, texts, marker, end);
  }

  lemma MarkedStream(cfg: Config, texts: seq<Bytes>, marker: Bytes, end: Call)
    requires cfg.Valid() && Ends(end) && (forall t :: t in texts ==> IsPayload(t))
    requires ReadLine(marker) == Done && 0x0A !in marker
    ensures var span := Outcome(cfg, Printed(texts) + (marker + [0x0A] + ([] + [0x0A] + [])), end);
      && span.attributes.Some? && span.attributes.value.payloads == texts && span.attributes.value.completed
      && (span.error <==> end.Read? && (end.err.value.Hard? || end.err.value.Aborted?))
  {
    assert forall t :: t in texts ==> 0x0A !in t;
    hide *;
    var stream := Printed(texts) + (marker + [0x0A] + ([] + [0x0A] + []));
    MarkedLines(texts, marker, end);
    EmptyMeans();
    MarkedSays(texts, marker, LinesRead(stream, end));
    ErrorStatusIff(cfg, stream, end);
    CompletedIff(cfg, stream, end);
  }

  lemma LinesReadAre(stream: Bytes, lines: seq<Bytes>, line: Bytes, end: Call)
    requires Ends(end) && SplitLines(stream) == lines + [line]
    ensures LinesRead(stream, end) == if end.Close? || end.err == Some(EOF) then lines + [line] else lines
  {
    hide SplitLines;
    assert (lines + [line])[..|lines|] == lines;
  }

  lemma MarkedLines(texts: seq<Bytes>, marker: Bytes, end: Call)
    requires Ends(end) && 0x0A !in marker && forall t :: t in texts ==> 0x0A !in t
    ensures var lines := LinesRead(Printed(texts) + (marker + [0x0A] + ([] + [0x0A] + [])), end);
      lines == PrintedLines(texts) + [marker] + [[]] || lines == PrintedLines(texts) + [marker] + [[]] + [[]]
  {
    hide *;
    var stream := Printed(texts) + (marker + [0x0A] + ([] + [0x0A] + []));
    FirstLine([], []);
    FirstLine(marker, [] + [0x0A] + []);
    PrintedSplit(texts, marker + [0x0A] + ([] + [0x0A] + []));
    RegroupFour(PrintedLines(texts), marker);
    LinesReadAre(stream, PrintedLines(texts) + [marker] + [[]], [], end);
  }

  lemma RegroupFour(front: seq<Bytes>, marker: Bytes)
    ensures front + ([marker] + ([[]] + [[]])) == front + [marker] + [[]] + [[]]
  {
  }

  lemma MarkedSays(texts: seq<Bytes>, marker: Bytes, lines: seq<Bytes>)
    requires ReadLine(marker) == Done && ReadLine([]) == Ignored && forall t :: t in texts ==> IsPayload(t)
    requires lines == PrintedLines(texts) + [marker] + [[]] || lines == PrintedLines(texts) + [marker] + [[]] + [[]]
    ensures PayloadsIn(lines) == texts && HasMarker(lines)
  {
    hide ReadLine, IsPayload, PrintedLines;
    var front := PrintedLines(texts);
    PrintedSays(texts);
    PayloadsConcat(front, [marker]);
    PayloadsConcat(front + [marker], [[]]);
    PayloadsConcat(front + [marker] + [[]], [[]]);
    var none: seq<Bytes> := [[]];
    assert [marker][1..] == [] && none[1..] == [];
    assert marker in lines;
  }

  lemma CompletedIff(cfg: Config, stream: Bytes, end: Call)
    requires cfg.Valid() && Ends(end)
    ensures var span := Outcome(cfg, stream, end);
      span.attributes.Some? && (span.attributes.value.completed <==> HasMarker(LinesRead(stream, end)))
  {
    LinesGive(cfg, NOTHING, LinesRead(stream, end));
    hide LinesStep, LinesRead, HasMarker;
  }

  /** A printed stream whose last payload has no line feed behind it: that payload is read too when
      the stream was closed or reached its end of file, and left out after any other failure. */
  lemma UnfinishedStreamIsRead(cfg: Config, texts: seq<Bytes>, last: Bytes, end: Call)
    requires cfg.Valid() && Ends(end) && IsPayload(last) && forall t :: t in texts ==> IsPayload(t)
    ensures var span := Outcome(cfg, Printed(texts) + ([0x64, 0x61, 0x74, 0x61, 0x3A, 0x20] + last), end);
      && span.attributes.Some? && !span.attributes.value.completed
      && span.attributes.value.payloads == texts + if end.Close? || end.err == Some(EOF) then [last] else []
  {
    PayloadMeans(last);
    NoFeed(last);
    hide *;
    UnfinishedStream(cfg, texts, last, [0x64, 0x61, 0x74, 0x61, 0x3A, 0x20] + last, end);
  }

  lemma NoFeed(text: Bytes)
    requires IsPayload(text)
    ensures 0x0A !in [0x64, 0x61, 0x74, 0x61, 0x3A, 0x20] + text
  {
    hide EndsPlain;
  }

  lemma UnfinishedStream(cfg: Config, texts: seq<Bytes>, last: Bytes, line: Bytes, end: Call)
    requires cfg.Valid() && Ends(end) && (forall t :: t in texts ==> IsPayload(t))
    requires ReadLine(line) == Payload(last) && 0x0A !in line
    ensures var span := Outcome(cfg, Printed(texts) + line, end);
      && span.attributes.Some? && !span.attributes.value.completed
      && span.attributes.value.payloads == texts + if end.Close? || end.err == Some(EOF) then [last] else []
  {
    assert forall t :: t in texts ==> 0x0A !in t;
    hide *;
    var stream := Printed(texts) + line;
    FirstLine(line, []);
    PrintedSplit(texts, line);
    LinesReadAre(stream, PrintedLines(texts), line, end);
    LastSays(texts, last, line);
    ErrorStatusIff(cfg, stream, end);
    CompletedIff(cfg, stream, end);
    assert texts + [] == texts;
  }

  lemma LastSays(texts: seq<Bytes>, last: Bytes, line: Bytes)
    requires ReadLine(line) == Payload(last) && forall t :: t in texts ==> IsPayload(t)
    ensures PayloadsIn(PrintedLines(texts)) == texts && !HasMarker(PrintedLines(texts))
    ensures PayloadsIn(PrintedLines(texts) + [line]) == texts + [last] && !HasMarker(PrintedLines(texts) + [line])
  {
    hide ReadLine, IsPayload, PrintedLines;
    PrintedSays(texts);
    PayloadsConcat(PrintedLines(texts), [line]);
    MarkerConcat(PrintedLines(texts), [line]);
    assert [line][1..] == [];
  }

  // ---- the counts and names reported ----

  /** The chunks that the payloads decode to, in order. */
  function Decoded(cfg: Config, payloads: seq<Bytes>): seq<Chunk> {
    if payloads == [] then []
    else (if cfg.decode(payloads[0]).Some? then [cfg.decode(payloads[0]).value] else []) + Decoded(cfg, payloads[1..])
  }

  /** The last positive count, or zero. */
  ghost predicate IsLastPositive(counts: seq<int>, n: int) {
    || (n == 0 && forall k :: 0 <= k < |counts| ==> counts[k] <= 0)
    || (n > 0 && exists k :: 0 <= k < |counts| && counts[k] == n && forall j :: k < j < |counts| ==> counts[j] <= 0)
  }

  /** The last text that is not empty, or none. */
  ghost predicate IsLastText(texts: seq<Bytes>, text: Bytes) {
    || (text == [] && forall k :: 0 <= k < |texts| ==> texts[k] == [])
    || (text != [] && exists k :: 0 <= k < |texts| && texts[k] == text && forall j :: k < j < |texts| ==> texts[j] == [])
  }

  ghost predicate Reports(chunks: seq<Chunk>, p: Parsed) {
    && IsLastPositive(seq(|chunks|, k requires 0 <= k < |chunks| => chunks[k].promptTokens), p.inputTokens)
    && IsLastPositive(seq(|chunks|, k requires 0 <= k < |chunks| => chunks[k].completionTokens), p.outputTokens)
    && IsLastPositive(seq(|chunks|, k requires 0 <= k < |chunks| => chunks[k].totalTokens), p.totalTokens)
    && IsLastText(seq(|chunks|, k requires 0 <= k < |chunks| => chunks[k].id), p.id)
    && IsLastText(seq(|chunks|, k requires 0 <= k < |chunks| => chunks[k].model), p.responseModel)
  }

  lemma OneMoreCount(counts: seq<int>, n: int, x: int)
    requires IsLastPositive(counts, n)
    ensures IsLastPositive(counts + [x], if x > 0 then x else n)
  {
    var all := counts + [x];
    assert all[|counts|] == x;
    if x <= 0 && n > 0 {
      var k :| 0 <= k < |counts| && counts[k] == n && forall j :: k < j < |counts| ==> counts[j] <= 0;
      assert all[k] == n;
    }
  }

  lemma OneMoreText(texts: seq<Bytes>, text: Bytes, x: Bytes)
    requires IsLastText(texts, text)
    ensures IsLastText(texts + [x], if x != [] then x else text)
  {
    var all := texts + [x];
    assert all[|texts|] == x;
    if x == [] && text != [] {
      var k :| 0 <= k < |texts| && texts[k] == text && forall j :: k < j < |texts| ==> texts[j] == [];
      assert all[k] == text;
    }
  }

  lemma OneMoreChunk(chunks: seq<Chunk>, p: Parsed, c: Chunk, r: Parsed)
    requires Reports(chunks, p)
    requires r.inputTokens == if c.promptTokens > 0 then c.promptTokens else p.inputTokens
    requires r.outputTokens == if c.completionTokens > 0 then c.completionTokens else p.outputTokens
    requires r.totalTokens == if c.totalTokens > 0 then c.totalTokens else p.totalTokens
    requires r.id == if c.id != [] then c.id else p.id
    requires r.responseModel == if c.model != [] then c.model else p.responseModel
    ensures Reports(chunks + [c], r)
  {
    hide IsLastPositive, IsLastText;
    var all, n := chunks + [c], |chunks|;
    var a := seq(n, k requires 0 <= k < n => chunks[k].promptTokens);
    assert seq(n + 1, k requires 0 <= k < n + 1 => all[k].promptTokens) == a + [c.promptTokens];
    OneMoreCount(a, p.inputTokens, c.promptTokens);
    var b := seq(n, k requires 0 <= k < n => chunks[k].completionTokens);
    assert seq(n + 1, k requires 0 <= k < n + 1 => all[k].completionTokens) == b + [c.completionTokens];
    OneMoreCount(b, p.outputTokens, c.completionTokens);
    var d := seq(n, k requires 0 <= k < n => chunks[k].totalTokens);
    assert seq(n + 1, k requires 0 <= k < n + 1 => all[k].totalTokens) == d + [c.totalTokens];
    OneMoreCount(d, p.totalTokens, c.totalTokens);
    var e := seq(n, k requires 0 <= k < n => chunks[k].id);
    assert seq(n + 1, k requires 0 <= k < n + 1 => all[k].id) == e + [c.id];
    OneMoreText(e, p.id, c.id);
    var f := seq(n, k requires 0 <= k < n => chunks[k].model);
    assert seq(n + 1, k requires 0 <= k < n + 1 => all[k].model) == f + [c.model];
    OneMoreText(f, p.responseModel, c.model);
  }

  lemma LineReports(cfg: Config, p: Parsed, raw: Bytes, chunks: seq<Chunk>)
    requires cfg.Valid() && Reports(chunks, p)
    ensures Reports(chunks + Decoded(cfg, PayloadsIn([raw])), LineStep(cfg, p, raw))
  {
    StepOfLine(cfg, p, raw);
    assert [raw][1..] == [];
    assert chunks + [] == chunks;
    hide ReadLine, LineStep, PayloadStep, IsLastPositive, IsLastText;
    if ReadLine(raw).Payload? {
      var text := ReadLine(raw).data;
      var one := [text];
      assert PayloadsIn([raw]) == one && one[1..] == [];
      StepOfPayload(cfg, p, text);
      assert Decoded(cfg, one) == if cfg.decode(text).Some? then [cfg.decode(text).value] else [];
      if cfg.decode(text).Some? {
        OneMoreChunk(chunks, p, cfg.decode(text).value, PayloadStep(cfg, p, text));
      }
    }
  }

  lemma {:induction false} DecodedConcat(cfg: Config, a: seq<Bytes>, b: seq<Bytes>)
    ensures Decoded(cfg, a + b) == Decoded(cfg, a) + Decoded(cfg, b)
    decreases |a|
  {
    if a == [] {
      assert a + b == b;
    } else {
      assert (a + b)[1..] == a[1..] + b;
      DecodedConcat(cfg, a[1..], b);
    }
  }

  lemma {:induction false} LinesReport(cfg: Config, p: Parsed, lines: seq<Bytes>, chunks: seq<Chunk>)
    requires cfg.Valid() && Reports(chunks, p)
    ensures Reports(chunks + Decoded(cfg, PayloadsIn(lines)), LinesStep(cfg, p, lines))
    decreases |lines|
  {
    hide ReadLine, LineStep, Reports;
    if lines == [] {
      assert chunks + [] == chunks;
    } else {
      var one, rest := [lines[0]], lines[1..];
      assert lines == one + rest;
      LineReports(cfg, p, lines[0], chunks);
      LinesReport(cfg, LineStep(cfg, p, lines[0]), rest, chunks + Decoded(cfg, PayloadsIn(one)));
      PayloadsConcat(one, rest);
      DecodedConcat(cfg, PayloadsIn(one), PayloadsIn(rest));
      assert chunks + Decoded(cfg, PayloadsIn(one)) + Decoded(cfg, PayloadsIn(rest))
          == chunks + (Decoded(cfg, PayloadsIn(one)) + Decoded(cfg, PayloadsIn(rest)));
    }
  }

  /** Over any stream: each count that the span reports is the last positive one of its kind among
      the chunks that decoded, and id and model are the last ones that were not empty. */
  lemma CountsAreTheLast(cfg: Config, stream: Bytes, end: Call)
    requires cfg.Valid() && Ends(end)
    ensures var span := Outcome(cfg, stream, end);
      span.attributes.Some? && Reports(Decoded(cfg, PayloadsIn(LinesRead(stream, end))), span.attributes.value)
  {
    var lines := LinesRead(stream, end);
    NothingReports();
    LinesReport(cfg, NOTHING, lines, []);
    assert [] + Decoded(cfg, PayloadsIn(lines)) == Decoded(cfg, PayloadsIn(lines));
    hide LinesStep, PayloadsIn, Decoded, LinesRead, IsLastPositive, IsLastText;
  }

  lemma NothingReports()
    ensures Reports([], NOTHING)
  {
  }
}
