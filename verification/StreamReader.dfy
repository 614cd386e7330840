/** The streaming response reader as the program keeps it: buffers, parsed fields,
    a map of accumulators and a span, changed by every Read and Close. */
module StreamReader {
  import opened Common
  import opened Utf8
  import opened ContentCapture
  import opened SseLines
  import opened GoBytes
  import opened StreamModel

  /** What the outside sees of the span and of the completion callback. */
  class SpanRecorder {
    ghost var state: SpanState

    constructor ()
      ensures state == OPEN_SPAN
    {
      state := OPEN_SPAN;
    }

    method SetErrorStatus()
      modifies this
      ensures state == old(state).(error := true)
    {
      state := state.(error := true);
    }

    method RecordError(err: ReadError)
      modifies this
      ensures state == old(state).(recorded := Some(err))
    {
      state := state.(recorded := Some(err));
    }

    method SetAttributes(ghost from: Parsed)
      modifies this
      ensures state == old(state).(attributes := Some(from))
    {
      state := state.(attributes := Some(from));
    }

    method AddEvent(content: Bytes)
      modifies this
      ensures state == old(state).(events := old(state).events + [content])
    {
      state := state.(events := state.events + [content]);
    }

    method End()
      modifies this
      ensures state == old(state).(ends := old(state).ends + 1)
    {
      state := state.(ends := state.ends + 1);
    }

    method OnDone()
      modifies this
      ensures state == old(state).(callbacks := old(state).callbacks + 1)
    {
      state := state.(callbacks := state.callbacks + 1);
    }
  }

  class StreamingReader {
    const cfg: Config
    const span: SpanRecorder
    var logBuffer: Bytes
    var lineBuffer: Bytes
    var inputTokens: int
    var outputTokens: int
    var totalTokens: int
    var id: Bytes
    var responseModel: Bytes
    var reasons: seq<Bytes>
    var done: bool
    var completed: bool
    var capturedStreams: map<int, ContentAccumulator>
    ghost var payloads: seq<Bytes>  // those handed to the chunk parser

    /** No accumulator is shared between choices. */
    ghost predicate Valid()
      reads this`capturedStreams, capturedStreams.Values
      ensures Valid() ==> cfg.Valid() && cfg.contentLimit >= |SUFFIX|
    {
      && cfg.Valid()
      && (forall i :: i in capturedStreams ==> capturedStreams[i].home == i && capturedStreams[i].limit == cfg.contentLimit)
    }

    ghost function Streams(): (m: Captures)
      requires Valid()
      reads this`capturedStreams, capturedStreams.Values
      ensures m.Keys == capturedStreams.Keys && |m| == |capturedStreams|
      ensures forall i :: i in m ==> m[i] == capturedStreams[i].State()
    {
      var m := map i | i in capturedStreams :: capturedStreams[i].State();
      assert m.Keys == capturedStreams.Keys;
      m
    }

    ghost function Fields(): Parsed
      requires Valid()
      reads this`completed, this`inputTokens, this`outputTokens, this`totalTokens, this`id, this`responseModel
      reads this`reasons, this`payloads, this`capturedStreams, capturedStreams.Values
    {
      Parsed(completed, inputTokens, outputTokens, totalTokens, id, responseModel, reasons, Streams(), payloads)
    }

    ghost function State(): Reader
      requires Valid()
      reads this, capturedStreams.Values, span
    {
      Reader(Fields(), lineBuffer, done, span.state)
    }

    lemma FieldsAre()
      requires Valid()
      ensures Fields() == Parsed(completed, inputTokens, outputTokens, totalTokens, id, responseModel, reasons, Streams(), payloads)
    {
    }

    lemma StateIs()
      requires Valid()
      ensures State() == Reader(Fields(), lineBuffer, done, span.state)
    {
    }

    constructor (decode: Bytes -> Option<Chunk>, captureContent: bool, contentLimit: int, notify: bool)
      ensures cfg == Config(decode, captureContent, ClampContentLimit(contentLimit), notify)
      ensures Valid() && logBuffer == [] && State() == NEW_READER
      ensures fresh(span) && fresh(capturedStreams.Values)
    {
      cfg := Config(decode, captureContent, ClampContentLimit(contentLimit), notify);
      span := new SpanRecorder();
      logBuffer, lineBuffer := [], [];
      inputTokens, outputTokens, totalTokens := 0, 0, 0;
      id, responseModel, reasons := [], [], [];
      done, completed := false, false;
      capturedStreams := map[];
      payloads := [];
    }

    method CaptureChunkContent(index: int, content: Bytes)
      requires Valid()
      modifies this`capturedStreams, capturedStreams.Values
      ensures Valid() && fresh(capturedStreams.Values - old(capturedStreams.Values))
      ensures Streams() == CaptureOf(old(Streams()), index, content, cfg.contentLimit)
    {
      hide *;
      CaptureCases(Streams(), index, content, cfg.contentLimit);
      if index !in capturedStreams {
        if |capturedStreams| >= MAX_CHOICES {
          return;
        }
        AddStream(index);
      }
      AppendTo(index, content);
    }

    method AddStream(index: int)
      requires Valid() && index !in capturedStreams
      modifies this`capturedStreams
      ensures Valid() && fresh(capturedStreams.Values - old(capturedStreams.Values)) && index in capturedStreams
      ensures Streams() == old(Streams())[index := Fresh(cfg.contentLimit)]
    {
      ghost var before := Streams();
      var accumulator := new ContentAccumulator(cfg.contentLimit, index);
      capturedStreams := capturedStreams[index := accumulator];
      OneMoreKey(Streams(), before, index, Fresh(cfg.contentLimit));
    }

    method AppendTo(index: int, content: Bytes)
      requires Valid() && index in capturedStreams
      modifies capturedStreams.Values
      ensures Valid()
      ensures Streams() == old(Streams())[index := AppendOf(old(Streams())[index], content)]
    {
      hide AppendOf;
      var accumulator := capturedStreams[index];
      accumulator.Append(content);
      forall i | i in capturedStreams && i != index
        ensures capturedStreams[i].State() == old(capturedStreams[i].State())
      {
        assert capturedStreams[i].home != accumulator.home;
      }
    }

    method ProcessChunk(payload: Bytes)
      requires Valid()
      modifies this`inputTokens, this`outputTokens, this`totalTokens, this`id, this`responseModel, this`reasons
      modifies this`payloads, this`capturedStreams, capturedStreams.Values
      ensures Valid() && fresh(capturedStreams.Values - old(capturedStreams.Values))
      ensures Fields() == PayloadStep(cfg, old(Fields()), payload)
    {
      hide *;
      FieldsAre();
      PayloadCases(cfg, Fields(), payload);
      payloads := payloads + [payload];
      FieldsAre();
      var decoded := cfg.decode(payload);
      if decoded.None? {
        return;
      }
      var chunk := decoded.value;
      TakeFields(chunk);
      FieldsAre();
      ProcessChoices(chunk.choices);
    }

    method TakeFields(chunk: Chunk)
      modifies this`inputTokens, this`outputTokens, this`totalTokens, this`id, this`responseModel
      ensures inputTokens == if chunk.promptTokens > 0 then chunk.promptTokens else old(inputTokens)
      ensures outputTokens == if chunk.completionTokens > 0 then chunk.completionTokens else old(outputTokens)
      ensures totalTokens == if chunk.totalTokens > 0 then chunk.totalTokens else old(totalTokens)
      ensures id == if chunk.id != [] then chunk.id else old(id)
      ensures responseModel == if chunk.model != [] then chunk.model else old(responseModel)
    {
      if chunk.id != [] { id := chunk.id; }
      if chunk.model != [] { responseModel := chunk.model; }
      if chunk.promptTokens > 0 { inputTokens := chunk.promptTokens; }
      if chunk.completionTokens > 0 { outputTokens := chunk.completionTokens; }
      if chunk.totalTokens > 0 { totalTokens := chunk.totalTokens; }
    }

    method ProcessChoices(choices: seq<Choice>)
      requires Valid()
      modifies this`reasons, this`capturedStreams, capturedStreams.Values
      ensures Valid() && fresh(capturedStreams.Values - old(capturedStreams.Values))
      ensures Fields() == ChoicesStep(cfg, old(Fields()), choices, 0)
    {
      hide *;
      for position := 0 to |choices|
        invariant Valid() && fresh(capturedStreams.Values - old(capturedStreams.Values))
        invariant ChoicesStep(cfg, Fields(), choices, position) == ChoicesStep(cfg, old(Fields()), choices, 0)
      {
        ChoiceTaken(cfg, Fields(), choices, position);
        ProcessChoice(choices[position], position);
      }
      NoMoreChoices(cfg, Fields(), choices);
    }

    method ProcessChoice(c: Choice, position: nat)
      requires Valid()
      modifies this`reasons, this`capturedStreams, capturedStreams.Values
      ensures Valid() && fresh(capturedStreams.Values - old(capturedStreams.Values))
      ensures Fields() == ChoiceStep(cfg, old(Fields()), c, position)
    {
      hide *;
      FieldsAre();
      ChoiceCases(cfg, Fields(), c, position);
      if c.finishReason != [] {
        AddReason(c.finishReason);
      }
      if cfg.captureContent && c.content != [] {
        CaptureContent(ChoiceIndex(c, position), c.content);
      }
    }

    method AddReason(reason: Bytes)
      requires Valid()
      modifies this`reasons
      ensures Valid() && Streams() == old(Streams()) && reasons == old(reasons) + [reason]
      ensures Fields() == old(Fields()).(reasons := old(Fields()).reasons + [reason])
    {
      hide *;
      FieldsAre();
      reasons := reasons + [reason];
      FieldsAre();
    }

    method CaptureContent(index: int, content: Bytes)
      requires Valid()
      modifies this`capturedStreams, capturedStreams.Values
      ensures Valid() && fresh(capturedStreams.Values - old(capturedStreams.Values))
      ensures Fields() == old(Fields()).(captured := CaptureOf(old(Fields()).captured, index, content, cfg.contentLimit))
    {
      hide *;
      FieldsAre();
      CaptureChunkContent(index, content);
      FieldsAre();
    }

    /** A trimmed line that is not empty. */
    method ProcessLine(raw: Bytes)
      requires Valid()
      modifies this`inputTokens, this`outputTokens, this`totalTokens, this`id, this`responseModel, this`reasons
      modifies this`payloads, this`completed, this`capturedStreams, capturedStreams.Values
      ensures Valid() && fresh(capturedStreams.Values - old(capturedStreams.Values))
      ensures Fields() == LineStep(cfg, old(Fields()), raw)
    {
      hide PayloadStep;
      var line := TrimSpace(raw);
      if |line| == 0 {
        return;
      }
      match ParseLine(line)
      case Done => completed := true;
      case Ignored =>
      case Payload(data) => ProcessChunk(data);
    }

    method FlushRemaining()
      requires Valid()
      modifies this, capturedStreams.Values
      ensures Valid() && fresh(capturedStreams.Values - old(capturedStreams.Values))
      ensures State() == Flush(cfg, old(State())) && logBuffer == old(logBuffer)
    {
      hide *;
      StateIs();
      FlushCases(cfg, State());
      if lineBuffer == [] {
        return;
      }
      var line := lineBuffer;
      lineBuffer := [];
      ProcessLine(line);
      StateIs();
    }

    method ProcessSseLines()
      requires Valid()
      modifies this, capturedStreams.Values
      ensures Valid() && fresh(capturedStreams.Values - old(capturedStreams.Values))
      ensures State() == Arrive(cfg, old(State()), old(logBuffer)) && logBuffer == []
    {
      hide *;
      StateIs();
      if logBuffer == [] {
        NothingArrives(cfg, State());
        return;
      }
      DataArrives(cfg, State(), logBuffer);
      lineBuffer := lineBuffer + logBuffer;
      logBuffer := [];
      var lines := SplitLines(lineBuffer);
      var incompleteLine := [];
      var i := 0;
      while i < |lines|
        invariant 0 <= i < |lines|
        invariant Valid() && fresh(capturedStreams.Values - old(capturedStreams.Values))
        invariant logBuffer == [] && incompleteLine == [] && done == old(done) && span.state == old(span.state)
        invariant LinesStep(cfg, Fields(), lines[i..|lines| - 1]) == LinesStep(cfg, old(Fields()), lines[..|lines| - 1])
      {
        LineCases(cfg, Fields(), lines, i);
        var line := lines[i];
        if i == |lines| - 1 {
          if |line| > 0 {
            incompleteLine := line;
          }
          break;
        }
        ProcessLine(line);
        i := i + 1;
      }
      lineBuffer := [];
      if |incompleteLine| > 0 {
        lineBuffer := incompleteLine;
      }
      StateIs();
    }

    method RecordCapturedContent()
      requires Valid()
      modifies span
      ensures span.state == old(span.state).(events := old(span.state).events + ContentEvents(cfg, Streams()))
    {
      hide *;
      ghost var m := Streams();
      EventsCases(cfg, m);
      if !cfg.captureContent || |capturedStreams| == 0 {
        return;
      }
      ghost var before := span.state;
      var indices := Ascending(capturedStreams.Keys);
      for k := 0 to |indices|
        invariant Valid() && Streams() == m && before == old(span.state)
        invariant span.state == before.(events := span.state.events)
        invariant span.state.events + EventsOf(m, indices[k..]) == before.events + EventsOf(m, indices)
      {
        EventsFrom(m, indices, k);
        var content := capturedStreams[indices[k]].String();
        ghost var emitted, rest := span.state.events, EventsOf(m, indices[k + 1..]);
        if content == [] {
          assert [] + rest == rest;
          continue;
        }
        assert emitted + ([content] + rest) == (emitted + [content]) + rest;
        span.AddEvent(content);
      }
      EventsFrom(m, indices, |indices|);
      assert span.state.events + [] == span.state.events;
    }

    method MarkIfFailed(err: Option<ReadError>)
      requires Valid()
      modifies this`reasons, span
      ensures Valid() && Streams() == old(Streams()) && Fields() == old(Fields()).(reasons := reasons)
      ensures var hard := err.Some? && !err.value.EOF? && !err.value.WrappedEOF?;
        var failed := !(completed || |old(reasons)| > 0) || hard;
        && reasons == (if failed && old(reasons) == [] then [ERROR_REASON] else old(reasons))
        && span.state == old(span.state).(error := old(span.state).error || failed,
                                          recorded := if hard then err else old(span.state).recorded)
    {
      hide *;
      FieldsAre();
      var complete := completed || |reasons| > 0;
      var hardErr := err.Some? && !err.value.EOF? && !err.value.WrappedEOF?;
      if !complete || hardErr {
        if |reasons| == 0 {
          reasons := [ERROR_REASON];
        }
        span.SetErrorStatus();
        if hardErr {
          span.RecordError(err.value);
        }
      }
      FieldsAre();
    }

    method Finalize(flush: bool, err: Option<ReadError>)
      requires Valid()
      modifies this, span, capturedStreams.Values
      ensures Valid() && fresh(capturedStreams.Values - old(capturedStreams.Values))
      ensures State() == StreamModel.Finalize(cfg, if flush then Flush(cfg, old(State())) else old(State()), err)
      ensures logBuffer == old(logBuffer)
    {
      hide *;
      if flush {
        FlushRemaining();
      }
      Conclude(err);
    }

    /** `finalize` once a remaining line was flushed where that applies. */
    method Conclude(err: Option<ReadError>)
      requires Valid()
      modifies this`reasons, span
      ensures Valid() && State() == StreamModel.Finalize(cfg, old(State()), err)
    {
      hide *;
      StateIs();
      FieldsAre();
      ghost var was := State();
      FinalizeCases(cfg, was, err);
      MarkIfFailed(err);
      Report();
      StateIs();
      assert State().parsed == was.parsed.(reasons := reasons);
    }

    method Report()
      requires Valid()
      modifies span
      ensures Valid() && Fields() == old(Fields())
      ensures span.state == SpanState(old(span.state).error, old(span.state).recorded, Some(Fields()),
                                      old(span.state).events + ContentEvents(cfg, Streams()),
                                      old(span.state).ends + 1, old(span.state).callbacks + if cfg.notify then 1 else 0)
    {
      hide *;
      span.SetAttributes(Fields());
      RecordCapturedContent();
      span.End();
      if cfg.notify {
        span.OnDone();
      }
    }

    /** `data` and `err` are what the wrapped body returns. */
    method Read(data: Bytes, err: Option<ReadError>)
      requires Valid() && logBuffer == []
      modifies this, span, capturedStreams.Values
      ensures Valid() && fresh(capturedStreams.Values - old(capturedStreams.Values)) && logBuffer == []
      ensures State() == CallStep(cfg, old(State()), Call.Read(data, err))
    {
      hide *;
      ReadCases(cfg, State(), data, err);
      StateIs();
      logBuffer := logBuffer + data;
      assert logBuffer == data;
      StateIs();
      if |data| > 0 {
        ProcessSseLines();
      } else {
        NothingArrives(cfg, State());
      }
      StateIs();
      if err.Some? && !done {
        done := true;
        StateIs();
        Finalize(err == Some(EOF), err);
      }
    }

    method Close()
      requires Valid() && logBuffer == []
      modifies this, span, capturedStreams.Values
      ensures Valid() && fresh(capturedStreams.Values - old(capturedStreams.Values)) && logBuffer == []
      ensures State() == CallStep(cfg, old(State()), Call.Close)
    {
      hide *;
      CloseCases(cfg, State());
      StateIs();
      if !done {
        done := true;
        StateIs();
        FlushRemaining();
        StateIs();
        FieldsAre();
        if completed || |reasons| > 0 {
          Finalize(false, None);
        } else {
          Finalize(false, Some(Aborted));
        }
      }
    }
  }

  // ---- what the steps do, case by case ----

  lemma OneMoreKey(m: Captures, before: Captures, index: int, added: Captured)
    requires index in m && m[index] == added
    requires forall i :: i in before ==> i in m && m[i] == before[i]
    requires forall i :: i in m ==> i == index || i in before
    ensures m == before[index := added]
  {
    var after := before[index := added];
    assert forall i :: i in m <==> i in after;
    assert forall i :: i in m ==> m[i] == after[i];
  }

  lemma CaptureCases(m: Captures, index: int, content: Bytes, limit: nat)
    requires limit >= |SUFFIX|
    ensures index in m ==> CaptureOf(m, index, content, limit) == m[index := AppendOf(m[index], content)]
    ensures index !in m && |m| >= MAX_CHOICES ==> CaptureOf(m, index, content, limit) == m
    ensures index !in m && |m| < MAX_CHOICES ==>
              var m' := m[index := Fresh(limit)]; CaptureOf(m, index, content, limit) == m'[index := AppendOf(m'[index], content)]
  {
  }

  lemma PayloadCases(cfg: Config, p: Parsed, payload: Bytes)
    requires cfg.Valid()
    ensures cfg.decode(payload).None? ==> PayloadStep(cfg, p, payload) == p.(payloads := p.payloads + [payload])
    ensures cfg.decode(payload).Some? ==>
              var c := cfg.decode(payload).value;
              PayloadStep(cfg, p, payload)
              == ChoicesStep(cfg, Parsed(
                               p.completed,
                               if c.promptTokens > 0 then c.promptTokens else p.inputTokens,
                               if c.completionTokens > 0 then c.completionTokens else p.outputTokens,
                               if c.totalTokens > 0 then c.totalTokens else p.totalTokens,
                               if c.id != [] then c.id else p.id,
                               if c.model != [] then c.model else p.responseModel,
                               p.reasons, p.captured, p.payloads + [payload]), c.choices, 0)
  {
  }

  lemma ChoiceCases(cfg: Config, p: Parsed, c: Choice, position: nat)
    requires cfg.Valid()
    ensures ChoiceStep(cfg, p, c, position)
         == p.(reasons := if c.finishReason != [] then p.reasons + [c.finishReason] else p.reasons,
               captured := if cfg.captureContent && c.content != []
                 then CaptureOf(p.captured, ChoiceIndex(c, position), c.content, cfg.contentLimit)
                 else p.captured)
  {
    hide CaptureOf;
  }

  lemma ChoiceTaken(cfg: Config, p: Parsed, choices: seq<Choice>, position: nat)
    requires cfg.Valid() && position < |choices|
    ensures ChoicesStep(cfg, p, choices, position)
         == ChoicesStep(cfg, ChoiceStep(cfg, p, choices[position], position), choices, position + 1)
  {
    hide ChoiceStep;
  }

  lemma NoMoreChoices(cfg: Config, p: Parsed, choices: seq<Choice>)
    requires cfg.Valid()
    ensures ChoicesStep(cfg, p, choices, |choices|) == p
  {
  }

  lemma LineCases(cfg: Config, p: Parsed, lines: seq<Bytes>, i: nat)
    requires cfg.Valid() && i < |lines|
    ensures i == |lines| - 1 ==> LinesStep(cfg, p, lines[i..|lines| - 1]) == p
    ensures i < |lines| - 1 ==>
              LinesStep(cfg, p, lines[i..|lines| - 1]) == LinesStep(cfg, LineStep(cfg, p, lines[i]), lines[i + 1..|lines| - 1])
  {
    hide LineStep;
    var rest := lines[i..|lines| - 1];
    if i < |lines| - 1 {
      assert rest[0] == lines[i] && rest[1..] == lines[i + 1..|lines| - 1];
    }
  }

  lemma FlushCases(cfg: Config, r: Reader)
    requires cfg.Valid()
    ensures r.line == [] ==> Flush(cfg, r) == r
    ensures Flush(cfg, r) == r.(parsed := LineStep(cfg, r.parsed, r.line), line := [])
  {
  }

  lemma NothingArrives(cfg: Config, r: Reader)
    requires cfg.Valid()
    ensures Arrive(cfg, r, []) == r
  {
  }

  lemma DataArrives(cfg: Config, r: Reader, data: Bytes)
    requires cfg.Valid() && data != []
    ensures var lines := SplitLines(r.line + data);
      Arrive(cfg, r, data) == r.(parsed := LinesStep(cfg, r.parsed, lines[..|lines| - 1]), line := lines[|lines| - 1])
  {
    hide SplitLines, LinesStep;
  }

  lemma EventsCases(cfg: Config, m: Captures)
    ensures !cfg.captureContent || |m| == 0 ==> ContentEvents(cfg, m) == []
    ensures forall i :: 0 <= i < |Ascending(m.Keys)| ==> Ascending(m.Keys)[i] in m
    ensures cfg.captureContent ==> ContentEvents(cfg, m) == EventsOf(m, Ascending(m.Keys))
  {
    AscendingSorts(m.Keys);
    assert |m| == 0 ==> m.Keys == {};
  }

  lemma EventsFrom(m: Captures, indices: seq<int>, k: nat)
    requires k <= |indices| && forall i :: 0 <= i < |indices| ==> indices[i] in m
    ensures k == |indices| ==> EventsOf(m, indices[k..]) == []
    ensures k < |indices| ==> var content := m[indices[k]].content;
              EventsOf(m, indices[k..]) == (if content == [] then [] else [content]) + EventsOf(m, indices[k + 1..])
  {
    if k < |indices| {
      assert indices[k..][0] == indices[k] && indices[k..][1..] == indices[k + 1..];
    }
  }

  lemma FinalizeCases(cfg: Config, r: Reader, err: Option<ReadError>)
    ensures var hard := err.Some? && !err.value.EOF? && !err.value.WrappedEOF?;
      var failed := !(r.parsed.completed || |r.parsed.reasons| > 0) || hard;
      var parsed := if failed && r.parsed.reasons == [] then r.parsed.(reasons := [ERROR_REASON]) else r.parsed;
      StreamModel.Finalize(cfg, r, err)
      == r.(parsed := parsed,
            span := SpanState(r.span.error || failed, if hard then err else r.span.recorded, Some(parsed),
                              r.span.events + ContentEvents(cfg, r.parsed.captured), r.span.ends + 1, r.span.callbacks + if cfg.notify then 1 else 0))
  {
    hide ContentEvents;
  }

  lemma ReadCases(cfg: Config, r: Reader, data: Bytes, err: Option<ReadError>)
    requires cfg.Valid()
    ensures var a := Arrive(cfg, r, data);
      CallStep(cfg, r, Call.Read(data, err))
      == if err.None? || a.done then a
         else StreamModel.Finalize(cfg, if err == Some(EOF) then Flush(cfg, a.(done := true)) else a.(done := true), err)
  {
    hide Arrive, Flush, StreamModel.Finalize;
  }

  lemma CloseCases(cfg: Config, r: Reader)
    requires cfg.Valid()
    ensures var f := Flush(cfg, r.(done := true));
      CallStep(cfg, r, Call.Close)
      == if r.done then r
         else StreamModel.Finalize(cfg, f, if f.parsed.completed || |f.parsed.reasons| > 0 then None else Some(Aborted))
  {
    hide Flush, StreamModel.Finalize;
  }
}
