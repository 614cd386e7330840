/** Chunking independence, single finalisation and bounded capture of the streaming reader. */
module StreamTheorems {
  import opened Common
  import opened Utf8
  import opened ContentCapture
  import opened SseLines
  import opened StreamModel

  lemma {:induction false} LinesStepConcat(cfg: Config, p: Parsed, a: seq<Bytes>, b: seq<Bytes>)
    requires cfg.Valid()
    ensures LinesStep(cfg, p, a + b) == LinesStep(cfg, LinesStep(cfg, p, a), b)
    decreases |a|
  {
    if a == [] {
      assert a + b == b;
    } else {
      assert (a + b)[1..] == a[1..] + b;
      LinesStepConcat(cfg, LineStep(cfg, p, a[0]), a[1..], b);
    }
  }

  /** What the reader knows after reading `stream`, however it was cut. */
  function After(cfg: Config, stream: Bytes): Reader
    requires cfg.Valid()
  {
    Reader(LinesStep(cfg, NOTHING, CompleteLines(stream)), Tail(stream), false, OPEN_SPAN)
  }

  lemma ArriveExtends(cfg: Config, stream: Bytes, data: Bytes)
    requires cfg.Valid()
    ensures Arrive(cfg, After(cfg, stream), data) == After(cfg, stream + data)
  {
    if data == [] {
      assert stream + data == stream;
    } else {
      SplitConcat(stream, data);
      LinesStepConcat(cfg, NOTHING, CompleteLines(stream), CompleteLines(Tail(stream) + data));
    }
  }

  lemma {:induction false} DoneStays(cfg: Config, r: Reader, calls: seq<Call>)
    requires cfg.Valid() && r.done
    ensures CallsStep(cfg, r, calls).done && CallsStep(cfg, r, calls).span == r.span
    decreases |calls|
  {
    if calls != [] {
      DoneStays(cfg, CallStep(cfg, r, calls[0]), calls[1..]);
    }
  }

  lemma LastLine(cfg: Config, stream: Bytes)
    requires cfg.Valid()
    ensures LineStep(cfg, LinesStep(cfg, NOTHING, CompleteLines(stream)), Tail(stream)) == LinesStep(cfg, NOTHING, SplitLines(stream))
  {
    SplitParts(stream);
    LinesStepConcat(cfg, NOTHING, CompleteLines(stream), [Tail(stream)]);
    OneLine(cfg, LinesStep(cfg, NOTHING, CompleteLines(stream)), Tail(stream));
  }

  lemma OneLine(cfg: Config, p: Parsed, line: Bytes)
    requires cfg.Valid()
    ensures LinesStep(cfg, p, [line]) == LineStep(cfg, p, line)
  {
    assert [line][1..] == [];
  }

  lemma EndingCall(cfg: Config, stream: Bytes, end: Call)
    requires cfg.Valid() && Ends(end)
    ensures CallStep(cfg, After(cfg, stream), end).done
    ensures CallStep(cfg, After(cfg, stream), end).span == Outcome(cfg, stream + DataOf(end), end)
  {
    var all := stream + DataOf(end);
    ArriveExtends(cfg, stream, DataOf(end));
    assert end.Close? ==> all == stream;
    LastLine(cfg, all);
  }

  lemma {:induction false} CallsFrom(cfg: Config, stream: Bytes, calls: seq<Call>)
    requires cfg.Valid()
    ensures var (data, end) := Stream(calls);
      var r := CallsStep(cfg, After(cfg, stream), calls);
      if end == None then r == After(cfg, stream + data)
      else r.done && r.span == Outcome(cfg, stream + data, end.value)
    decreases |calls|
  {
    hide Outcome, LinesStep, SplitLines;
    if calls == [] {
      assert stream + [] == stream;
    } else if Ends(calls[0]) {
      EndingCall(cfg, stream, calls[0]);
      DoneStays(cfg, CallStep(cfg, After(cfg, stream), calls[0]), calls[1..]);
    } else {
      ArriveExtends(cfg, stream, DataOf(calls[0]));
      CallsFrom(cfg, stream + DataOf(calls[0]), calls[1..]);
      var data := Stream(calls[1..]).0;
      assert stream + DataOf(calls[0]) + data == stream + (DataOf(calls[0]) + data);
    }
  }

  /** However the transport cuts the stream, and whatever is called afterwards, the
      parsed state is that of the whole stream split into lines once, and the span
      records exactly the outcome of that reading with the first ending call. */
  lemma ChunkingIsInvisible(cfg: Config, calls: seq<Call>)
    requires cfg.Valid()
    ensures var (stream, end) := Stream(calls);
      var r := CallsStep(cfg, NEW_READER, calls);
      if end == None then r == After(cfg, stream)
      else r.done && r.span == Outcome(cfg, stream, end.value)
  {
    assert After(cfg, []) == NEW_READER;
    CallsFrom(cfg, [], calls);
    assert [] + Stream(calls).0 == Stream(calls).0;
  }

  /** The span ends and the callback, when there is one, runs once as soon as a Read has returned an
      error or Close was called, and never before or again. */
  lemma FinalisesOnce(cfg: Config, calls: seq<Call>)
    requires cfg.Valid()
    ensures var span := CallsStep(cfg, NEW_READER, calls).span;
      var ended := exists c :: c in calls && Ends(c);
      if ended then span.ends == 1 && span.callbacks == (if cfg.notify then 1 else 0) && span.attributes.Some?
      else span == OPEN_SPAN
  {
    ChunkingIsInvisible(cfg, calls);
    EndFound(calls);
  }

  lemma {:induction false} EndFound(calls: seq<Call>)
    ensures Stream(calls).1.Some? <==> exists c :: c in calls && Ends(c)
    ensures Stream(calls).1.Some? ==> Ends(Stream(calls).1.value)
    decreases |calls|
  {
    if calls != [] {
      assert calls == [calls[0]] + calls[1..];
      EndFound(calls[1..]);
      if Ends(calls[0]) { assert calls[0] in calls; }
    }
  }

  // ---- what the lines say ----

  /** The payloads among the lines, in order. */
  function PayloadsIn(lines: seq<Bytes>): seq<Bytes> {
    if lines == [] then []
    else (if ReadLine(lines[0]).Payload? then [ReadLine(lines[0]).data] else []) + PayloadsIn(lines[1..])
  }

  /** The finish reasons of a chunk's choices, in order. */
  function ReasonsFrom(choices: seq<Choice>, position: nat): seq<Bytes>
    requires position <= |choices|
    decreases |choices| - position
  {
    if position == |choices| then []
    else (if choices[position].finishReason != [] then [choices[position].finishReason] else []) + ReasonsFrom(choices, position + 1)
  }

  function ReasonsOf(cfg: Config, payloads: seq<Bytes>): seq<Bytes> {
    if payloads == [] then []
    else
      var chunk := cfg.decode(payloads[0]);
      (if chunk.Some? then ReasonsFrom(chunk.value.choices, 0) else []) + ReasonsOf(cfg, payloads[1..])
  }

  predicate HasMarker(lines: seq<Bytes>) { exists line :: line in lines && ReadLine(line) == Done }

  lemma {:induction false} ChoicesGiveReasons(cfg: Config, p: Parsed, choices: seq<Choice>, position: nat)
    requires cfg.Valid() && position <= |choices|
    ensures var r := ChoicesStep(cfg, p, choices, position);
      && r.reasons == p.reasons + ReasonsFrom(choices, position)
      && r.completed == p.completed && r.payloads == p.payloads
    decreases |choices| - position
  {
    hide CaptureOf;
    if position < |choices| {
      ChoicesGiveReasons(cfg, ChoiceStep(cfg, p, choices[position], position), choices, position + 1);
    }
  }

  lemma LineGives(cfg: Config, p: Parsed, raw: Bytes)
    requires cfg.Valid()
    ensures var r := LineStep(cfg, p, raw);
      && r.payloads == p.payloads + PayloadsIn([raw])
      && r.reasons == p.reasons + ReasonsOf(cfg, PayloadsIn([raw]))
      && (r.completed <==> p.completed || ReadLine(raw) == Done)
  {
    hide ReadLine, ChoicesStep;
    assert [raw][1..] == [];
    if ReadLine(raw).Payload? {
      var data := ReadLine(raw).data;
      var payloads := [data];
      assert PayloadsIn([raw]) == payloads && payloads[1..] == [];
      var chunk := cfg.decode(data);
      if chunk.Some? {
        ChoicesGiveReasons(cfg, FieldsStep(p.(payloads := p.payloads + payloads), chunk.value), chunk.value.choices, 0);
      }
    }
  }

  lemma {:induction false} ReasonsOfConcat(cfg: Config, a: seq<Bytes>, b: seq<Bytes>)
    ensures ReasonsOf(cfg, a + b) == ReasonsOf(cfg, a) + ReasonsOf(cfg, b)
    decreases |a|
  {
    if a == [] {
      assert a + b == b;
    } else {
      assert (a + b)[1..] == a[1..] + b;
      ReasonsOfConcat(cfg, a[1..], b);
    }
  }

  /** Every payload is handed on once and in order, every finish reason is kept, and
      the stream is marked complete exactly when some line is the end marker. */
  lemma {:induction false} LinesGive(cfg: Config, p: Parsed, lines: seq<Bytes>)
    requires cfg.Valid()
    ensures var r := LinesStep(cfg, p, lines);
      && r.payloads == p.payloads + PayloadsIn(lines)
      && r.reasons == p.reasons + ReasonsOf(cfg, PayloadsIn(lines))
      && (r.completed <==> p.completed || HasMarker(lines))
    decreases |lines|
  {
    hide LineStep, ReadLine;
    if lines != [] {
      var one, rest := [lines[0]], lines[1..];
      assert lines == one + rest && one[1..] == [];
      LineGives(cfg, p, lines[0]);
      LinesGive(cfg, LineStep(cfg, p, lines[0]), rest);
      assert PayloadsIn(lines) == PayloadsIn(one) + PayloadsIn(rest);
      ReasonsOfConcat(cfg, PayloadsIn(one), PayloadsIn(rest));
    }
  }

  /** The span has Error status exactly when neither a finish reason nor the end marker
      was among the lines, or a Read returned an error that is not an end of file. */
  lemma ErrorStatusIff(cfg: Config, stream: Bytes, end: Call)
    requires cfg.Valid() && Ends(end)
    ensures var span := Outcome(cfg, stream, end);
      var lines := LinesRead(stream, end);
      var reasons := ReasonsOf(cfg, PayloadsIn(lines));
      var complete := reasons != [] || HasMarker(lines);
      && span.attributes.value.payloads == PayloadsIn(lines)
      && (span.error <==> !complete || (end.Read? && (end.err.value.Hard? || end.err.value.Aborted?)))
      && span.recorded == (if end.Close? then (if complete then None else Some(Aborted))
                           else if end.err.value.Hard? || end.err.value.Aborted? then end.err else None)
      && span.attributes.value.reasons == if reasons == [] && span.error then [[0x65, 0x72, 0x72, 0x6F, 0x72]] else reasons
  {
    hide LinesStep, SplitLines, ReadLine;
    LinesGive(cfg, NOTHING, LinesRead(stream, end));
  }

  // ---- bounded capture ----

  /** A non-empty content carried by a choice, with the index it counts for. */
  datatype Piece = Piece(index: int, content: Bytes)

  /** What one choice carries. */
  function PiecesIn(cfg: Config, c: Choice, position: nat): (r: seq<Piece>)
    ensures forall piece :: piece in r ==> piece.content != []
  {
    if cfg.captureContent && c.content != []
    then [Piece(if c.index.Some? then c.index.value else position, c.content)]
    else []
  }

  /** What the choices from the given position on carry. */
  function PiecesFrom(cfg: Config, choices: seq<Choice>, position: nat): (r: seq<Piece>)
    requires position <= |choices|
    ensures forall piece :: piece in r ==> piece.content != []
    decreases |choices| - position
  {
    if position == |choices| then []
    else PiecesIn(cfg, choices[position], position) + PiecesFrom(cfg, choices, position + 1)
  }

  /** What the payloads of a stream carry, in order. */
  function PiecesOf(cfg: Config, payloads: seq<Bytes>): (r: seq<Piece>)
    ensures forall piece :: piece in r ==> piece.content != []
    decreases |payloads|
  {
    if payloads == [] then []
    else
      var chunk := cfg.decode(payloads[|payloads| - 1]);
      PiecesOf(cfg, payloads[..|payloads| - 1]) + if chunk.Some? then PiecesFrom(cfg, chunk.value.choices, 0) else []
  }

  /** Capturing pieces one by one, from nothing. */
  function CaptureAll(pieces: seq<Piece>, limit: nat): Captures
    requires limit >= |SUFFIX|
    decreases |pieces|
  {
    if pieces == [] then map[]
    else
      var last := pieces[|pieces| - 1];
      CaptureOf(CaptureAll(pieces[..|pieces| - 1], limit), last.index, last.content, limit)
  }

  /** The distinct indices in order of first appearance. */
  function Distinct(pieces: seq<Piece>): (r: seq<int>)
    ensures forall i, j :: 0 <= i < j < |r| ==> r[i] != r[j]
    decreases |pieces|
  {
    if pieces == [] then []
    else
      var before := Distinct(pieces[..|pieces| - 1]);
      var index := pieces[|pieces| - 1].index;
      if index in before then before else before + [index]
  }

  function FirstOf(s: seq<int>, n: nat): seq<int> { if |s| <= n then s else s[..n] }

  /** The contents of one index, in order. */
  function ContentsOf(pieces: seq<Piece>, index: int): seq<Bytes>
    decreases |pieces|
  {
    if pieces == [] then []
    else
      var last := pieces[|pieces| - 1];
      ContentsOf(pieces[..|pieces| - 1], index) + if last.index == index then [last.content] else []
  }

  lemma {:induction false} UnseenHasNoContents(pieces: seq<Piece>, index: int)
    requires index !in Distinct(pieces)
    ensures ContentsOf(pieces, index) == []
    decreases |pieces|
  {
    if pieces != [] {
      UnseenHasNoContents(pieces[..|pieces| - 1], index);
    }
  }

  lemma AppendOneMore(limit: nat, contents: seq<Bytes>, content: Bytes)
    requires limit >= |SUFFIX|
    ensures AppendAll(Fresh(limit), contents + [content]) == AppendOf(AppendAll(Fresh(limit), contents), content)
  {
    AppendAllLast(Fresh(limit), contents + [content]);
    assert (contents + [content])[..|contents|] == contents;
  }

  /** The indices retained are the first sixteen distinct ones that carried content,
      and each holds what its own contents alone leave in an accumulator. */
  lemma {:induction false} CaptureKeepsFirstChoices(pieces: seq<Piece>, limit: nat)
    requires limit >= |SUFFIX|
    ensures var m := CaptureAll(pieces, limit);
      && |m| == |FirstOf(Distinct(pieces), 16)|
      && (forall i :: i in m <==> i in FirstOf(Distinct(pieces), 16))
      && (forall i :: i in m ==> m[i] == AppendAll(Fresh(limit), ContentsOf(pieces, i)))
    decreases |pieces|
  {
    if pieces != [] {
      var front, last := pieces[..|pieces| - 1], pieces[|pieces| - 1];
      CaptureKeepsFirstChoices(front, limit);
      var before, m := CaptureAll(front, limit), CaptureAll(pieces, limit);
      KeysAfterCapture(before, Distinct(front), last.index, last.content, limit);
      forall i | i in m
        ensures m[i] == AppendAll(Fresh(limit), ContentsOf(pieces, i))
      {
        ContentsAfterCapture(front, last, limit, i);
      }
    }
  }

  lemma KeysAfterCapture(m: Captures, seen: seq<int>, index: int, content: Bytes, limit: nat)
    requires limit >= |SUFFIX| && |m| == |FirstOf(seen, MAX_CHOICES)|
    requires forall i :: i in m <==> i in FirstOf(seen, MAX_CHOICES)
    ensures var m' := CaptureOf(m, index, content, limit);
      var seen' := if index in seen then seen else seen + [index];
      && |m'| == |FirstOf(seen', MAX_CHOICES)|
      && (forall i :: i in m' <==> i in FirstOf(seen', MAX_CHOICES))
  {
    hide AppendOf, Fresh;
    if index !in seen {
      NewIndex(seen, index);
    }
    if index in seen && index !in m {
      assert |seen| > MAX_CHOICES;
    }
  }

  lemma ContentsAfterCapture(front: seq<Piece>, last: Piece, limit: nat, i: int)
    requires limit >= |SUFFIX|
    requires var m := CaptureAll(front, limit);
      && |m| == |FirstOf(Distinct(front), MAX_CHOICES)|
      && (forall i :: i in m <==> i in FirstOf(Distinct(front), MAX_CHOICES))
      && (i in m ==> m[i] == AppendAll(Fresh(limit), ContentsOf(front, i)))
    requires i in CaptureOf(CaptureAll(front, limit), last.index, last.content, limit)
    ensures CaptureOf(CaptureAll(front, limit), last.index, last.content, limit)[i]
         == AppendAll(Fresh(limit), ContentsOf(front + [last], i))
  {
    hide AppendOf, CaptureAll, AppendAll;
    var m := CaptureAll(front, limit);
    assert (front + [last])[..|front|] == front;
    if i != last.index {
      assert ContentsOf(front + [last], i) == ContentsOf(front, i);
    } else {
      AppendOneMore(limit, ContentsOf(front, i), last.content);
      if i !in m {
        UnseenHasNoContents(front, i);
        AppendNone(limit);
      }
    }
  }

  lemma AppendNone(limit: nat)
    requires limit >= |SUFFIX|
    ensures AppendAll(Fresh(limit), []) == Fresh(limit)
  {
  }

  lemma NewIndex(seen: seq<int>, index: int)
    requires index !in seen
    ensures FirstOf(seen + [index], MAX_CHOICES)
         == if |seen| < MAX_CHOICES then FirstOf(seen, MAX_CHOICES) + [index] else FirstOf(seen, MAX_CHOICES)
  {
  }

  /** At most sixteen choices and `limit` bytes for each are retained; of valid text
      each keeps the truncation of its whole content, and never nothing. */
  lemma CaptureIsBounded(pieces: seq<Piece>, limit: nat)
    requires limit >= |SUFFIX| && forall piece :: piece in pieces ==> piece.content != []
    ensures var m := CaptureAll(pieces, limit);
      && |m| <= 16
      && (forall i :: i in m ==> 0 < |m[i].content| <= limit)
      && (forall i :: i in m && (forall c :: c in ContentsOf(pieces, i) ==> ValidUtf8(c)) ==>
            m[i] == Whole(Concat(ContentsOf(pieces, i)), limit))
  {
    var m := CaptureAll(pieces, limit);
    CaptureKeepsFirstChoices(pieces, limit);
    forall i | i in m
      ensures 0 < |m[i].content| <= limit
      ensures (forall c :: c in ContentsOf(pieces, i) ==> ValidUtf8(c)) ==> m[i] == Whole(Concat(ContentsOf(pieces, i)), limit)
    {
      RetainedIsBoundedPrefix(ContentsOf(pieces, i), limit);
      SeenHasContents(pieces, i);
      if forall c :: c in ContentsOf(pieces, i) ==> ValidUtf8(c) {
        TruncationIsSplitIndependent(ContentsOf(pieces, i), limit);
      }
    }
  }

  lemma {:induction false} SeenHasContents(pieces: seq<Piece>, index: int)
    requires index in Distinct(pieces) && forall piece :: piece in pieces ==> piece.content != []
    ensures Concat(ContentsOf(pieces, index)) != []
    decreases |pieces|
  {
    var front, last := pieces[..|pieces| - 1], pieces[|pieces| - 1];
    assert last in pieces;
    if last.index == index {
      ConcatLast(ContentsOf(pieces, index));
    } else {
      SeenHasContents(front, index);
      assert ContentsOf(pieces, index) == ContentsOf(front, index);
    }
  }

  /** One event for each retained choice, in ascending order of index. */
  lemma {:induction false} OneEventPerChoice(m: Captures, indices: seq<int>)
    requires forall k :: 0 <= k < |indices| ==> indices[k] in m
    requires forall i :: i in m ==> m[i].content != []
    ensures |EventsOf(m, indices)| == |indices|
    ensures forall k :: 0 <= k < |indices| ==> EventsOf(m, indices)[k] == m[indices[k]].content
    decreases |indices|
  {
    if indices != [] {
      OneEventPerChoice(m, indices[1..]);
    }
  }

  lemma ChoiceCaptures(cfg: Config, p: Parsed, c: Choice, position: nat, pieces: seq<Piece>)
    requires cfg.Valid() && p.captured == CaptureAll(pieces, cfg.contentLimit)
    ensures var r := ChoiceStep(cfg, p, c, position);
      && r.payloads == p.payloads
      && r.captured == CaptureAll(pieces + PiecesIn(cfg, c, position), cfg.contentLimit)
  {
    hide CaptureOf;
    var more := PiecesIn(cfg, c, position);
    if more == [] {
      assert pieces + more == pieces;
    } else {
      assert (pieces + more)[..|pieces|] == pieces;
    }
  }

  lemma {:induction false} ChoicesCapture(cfg: Config, p: Parsed, choices: seq<Choice>, position: nat, pieces: seq<Piece>)
    requires cfg.Valid() && position <= |choices| && p.captured == CaptureAll(pieces, cfg.contentLimit)
    ensures var r := ChoicesStep(cfg, p, choices, position);
      && r.payloads == p.payloads
      && r.captured == CaptureAll(pieces + PiecesFrom(cfg, choices, position), cfg.contentLimit)
    decreases |choices| - position
  {
    hide ChoiceStep, CaptureAll, CaptureOf, PiecesIn;
    if position == |choices| {
      assert pieces + [] == pieces;
    } else {
      var c := choices[position];
      var more := PiecesIn(cfg, c, position);
      ChoiceCaptures(cfg, p, c, position, pieces);
      ChoicesCapture(cfg, ChoiceStep(cfg, p, c, position), choices, position + 1, pieces + more);
      assert pieces + more + PiecesFrom(cfg, choices, position + 1) == pieces + PiecesFrom(cfg, choices, position);
    }
  }

  /** What is captured is determined by the payloads read so far. */
  predicate CapturesPayloads(cfg: Config, p: Parsed)
    requires cfg.Valid()
  {
    p.captured == CaptureAll(PiecesOf(cfg, p.payloads), cfg.contentLimit)
  }

  lemma LineCaptures(cfg: Config, p: Parsed, raw: Bytes)
    requires cfg.Valid() && CapturesPayloads(cfg, p)
    ensures CapturesPayloads(cfg, LineStep(cfg, p, raw))
  {
    var line := ReadLine(raw);
    if line.Payload? {
      var payloads := p.payloads + [line.data];
      assert payloads[..|p.payloads|] == p.payloads;
      var noted := p.(payloads := payloads);
      var chunk := cfg.decode(line.data);
      if chunk.Some? {
        ChoicesCapture(cfg, FieldsStep(noted, chunk.value), chunk.value.choices, 0, PiecesOf(cfg, p.payloads));
      } else {
        assert PiecesOf(cfg, payloads) == PiecesOf(cfg, p.payloads);
      }
    }
  }

  lemma {:induction false} LinesCapture(cfg: Config, p: Parsed, lines: seq<Bytes>)
    requires cfg.Valid() && CapturesPayloads(cfg, p)
    ensures CapturesPayloads(cfg, LinesStep(cfg, p, lines))
    decreases |lines|
  {
    if lines != [] {
      LineCaptures(cfg, p, lines[0]);
      LinesCapture(cfg, LineStep(cfg, p, lines[0]), lines[1..]);
    }
  }

  /** The events are those of the first sixteen choices that had content, in ascending order of index. */
  predicate AreBoundedEvents(events: seq<Bytes>, pieces: seq<Piece>, limit: nat)
    requires limit >= |SUFFIX|
  {
    var m := CaptureAll(pieces, limit);
    var order := Ascending(m.Keys);
    AscendingSorts(m.Keys);
    && |events| == |order| == |FirstOf(Distinct(pieces), 16)|
    && (forall k :: 0 <= k < |order| ==> events[k] == m[order[k]].content && |events[k]| <= limit)
  }

  lemma ParsedEventsAreBounded(cfg: Config, p: Parsed)
    requires cfg.Valid() && CapturesPayloads(cfg, p)
    ensures AreBoundedEvents(ContentEvents(cfg, p.captured), PiecesOf(cfg, p.payloads), cfg.contentLimit)
  {
    assert p.captured == CaptureAll(PiecesOf(cfg, p.payloads), cfg.contentLimit) && cfg.contentLimit >= |SUFFIX|;
    hide *;
    var pieces, m := PiecesOf(cfg, p.payloads), p.captured;
    CaptureKeepsFirstChoices(pieces, cfg.contentLimit);
    CaptureIsBounded(pieces, cfg.contentLimit);
    AscendingSorts(m.Keys);
    ContentEventsAre(cfg, m);
    if cfg.captureContent {
      OneEventPerChoice(m, Ascending(m.Keys));
    } else {
      NothingCaptured(cfg, p.payloads);
      NoCaptures(cfg.contentLimit);
    }
    BoundedWhen(ContentEvents(cfg, m), pieces, cfg.contentLimit);
  }

  lemma ContentEventsAre(cfg: Config, m: Captures)
    requires forall i :: 0 <= i < |Ascending(m.Keys)| ==> Ascending(m.Keys)[i] in m
    ensures ContentEvents(cfg, m) == if cfg.captureContent then EventsOf(m, Ascending(m.Keys)) else []
  {
  }

  lemma NoCaptures(limit: nat)
    requires limit >= |SUFFIX|
    ensures CaptureAll([], limit) == map[] && Ascending(CaptureAll([], limit).Keys) == []
  {
    var none: Captures := map[];
    assert none.Keys == {};
  }

  lemma BoundedWhen(events: seq<Bytes>, pieces: seq<Piece>, limit: nat)
    requires limit >= |SUFFIX|
    requires var m := CaptureAll(pieces, limit);
      var order := Ascending(m.Keys);
      && |m| == |FirstOf(Distinct(pieces), MAX_CHOICES)|
      && |events| == |order| == |m.Keys|
      && (forall i :: 0 <= i < |order| ==> order[i] in m)
      && (forall i :: i in m ==> |m[i].content| <= limit)
      && (forall k :: 0 <= k < |order| ==> events[k] == m[order[k]].content)
    ensures AreBoundedEvents(events, pieces, limit)
  {
    hide CaptureAll, Distinct, FirstOf, Ascending;
    var m := CaptureAll(pieces, limit);
    var order := Ascending(m.Keys);
    assert |order| == |FirstOf(Distinct(pieces), MAX_CHOICES)|;
    forall k | 0 <= k < |order|
      ensures events[k] == m[order[k]].content && |events[k]| <= limit
    {
      var i := order[k];
      assert i in m && |m[i].content| <= limit;
    }
  }

  /** Over any stream, the span carries one event for each of the first sixteen
      choice indices that had content, in ascending order, none longer than the limit. */
  lemma EventsAreBounded(cfg: Config, stream: Bytes, end: Call)
    requires cfg.Valid() && Ends(end)
    ensures AreBoundedEvents(Outcome(cfg, stream, end).events, PiecesOf(cfg, PayloadsIn(LinesRead(stream, end))), cfg.contentLimit)
  {
    assert CapturesPayloads(cfg, NOTHING) && NOTHING.payloads == [];
    hide *;
    var parsed := LinesStep(cfg, NOTHING, LinesRead(stream, end));
    LinesCapture(cfg, NOTHING, LinesRead(stream, end));
    ParsedEventsAreBounded(cfg, parsed);
    LinesGive(cfg, NOTHING, LinesRead(stream, end));
    EventsRecorded(cfg, stream, end);
    assert NOTHING.payloads + PayloadsIn(LinesRead(stream, end)) == PayloadsIn(LinesRead(stream, end));
  }

  lemma EventsRecorded(cfg: Config, stream: Bytes, end: Call)
    requires cfg.Valid() && Ends(end)
    ensures Outcome(cfg, stream, end).events == ContentEvents(cfg, LinesStep(cfg, NOTHING, LinesRead(stream, end)).captured)
  {
    hide LinesStep, ContentEvents, LinesRead;
  }

  lemma {:induction false} NothingCaptured(cfg: Config, payloads: seq<Bytes>)
    requires !cfg.captureContent
    ensures PiecesOf(cfg, payloads) == []
    decreases |payloads|
  {
    if payloads != [] {
      NothingCaptured(cfg, payloads[..|payloads| - 1]);
      var chunk := cfg.decode(payloads[|payloads| - 1]);
      if chunk.Some? { NoPieces(cfg, chunk.value.choices, 0); }
    }
  }

  lemma {:induction false} NoPieces(cfg: Config, choices: seq<Choice>, position: nat)
    requires !cfg.captureContent && position <= |choices|
    ensures PiecesFrom(cfg, choices, position) == []
    decreases |choices| - position
  {
    if position < |choices| { NoPieces(cfg, choices, position + 1); }
  }
}
