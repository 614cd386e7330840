/** What a streaming response reader has learnt, as values: the effect of each
    line, read and close, and the one-shot reading of the whole stream. */
module StreamModel {
  import opened Common
  import opened Utf8
  import opened ContentCapture
  import opened SseLines

  // ---- decoded chunks ----

  /** One choice of a decoded chunk; the position counts when there is no index. */
  datatype Choice = Choice(index: Option<int>, finishReason: Bytes, content: Bytes)

  datatype Chunk = Chunk(id: Bytes, model: Bytes, promptTokens: int, completionTokens: int, totalTokens: int, choices: seq<Choice>)

  /** How the reader was set up. `decode` is the JSON decoding of one payload, `notify` whether
      there is a completion callback. */
  datatype Config = Config(decode: Bytes -> Option<Chunk>, captureContent: bool, contentLimit: nat, notify: bool) {
    predicate Valid() { contentLimit >= |SUFFIX| }
  }

  function ChoiceIndex(c: Choice, position: nat): int {
    if c.index.Some? then c.index.value else position
  }

  // ---- content per choice ----

  const MAX_CHOICES: nat := 16

  type Captures = m: map<int, Captured> | forall i :: i in m ==> m[i].Valid()

  /** `captureChunkContent` */
  function CaptureOf(m: Captures, index: int, content: Bytes, limit: nat): Captures
    requires limit >= |SUFFIX|
  {
    if index !in m && |m| >= MAX_CHOICES then m
    else m[index := AppendOf(if index in m then m[index] else Fresh(limit), content)]
  }

  // ---- one line ----

  /** The reader's parsed fields, and the payloads handed to the chunk parser. */
  datatype Parsed = Parsed(
    completed: bool,
    inputTokens: int, outputTokens: int, totalTokens: int,
    id: Bytes, responseModel: Bytes,
    reasons: seq<Bytes>,
    captured: Captures,
    payloads: seq<Bytes>)

  const NOTHING: Parsed := Parsed(false, 0, 0, 0, [], [], [], map[], [])

  function Newer(old_: int, new_: int): int { if new_ > 0 then new_ else old_ }

  function NonEmpty(old_: Bytes, new_: Bytes): Bytes { if new_ != [] then new_ else old_ }

  function ChoiceStep(cfg: Config, p: Parsed, c: Choice, position: nat): Parsed
    requires cfg.Valid()
  {
    var p' := if c.finishReason != [] then p.(reasons := p.reasons + [c.finishReason]) else p;
    if cfg.captureContent && c.content != []
    then p'.(captured := CaptureOf(p'.captured, ChoiceIndex(c, position), c.content, cfg.contentLimit))
    else p'
  }

  /** The choices from the given position on, in order. */
  function ChoicesStep(cfg: Config, p: Parsed, choices: seq<Choice>, position: nat): Parsed
    requires cfg.Valid() && position <= |choices|
    decreases |choices| - position
  {
    if position == |choices| then p
    else ChoicesStep(cfg, ChoiceStep(cfg, p, choices[position], position), choices, position + 1)
  }

  function FieldsStep(p: Parsed, c: Chunk): Parsed {
    p.(id := NonEmpty(p.id, c.id), responseModel := NonEmpty(p.responseModel, c.model),
       inputTokens := Newer(p.inputTokens, c.promptTokens), outputTokens := Newer(p.outputTokens, c.completionTokens),
       totalTokens := Newer(p.totalTokens, c.totalTokens))
  }

  /** `processChunk`: a payload that does not decode is only noted. */
  function PayloadStep(cfg: Config, p: Parsed, payload: Bytes): Parsed
    requires cfg.Valid()
  {
    var noted := p.(payloads := p.payloads + [payload]);
    match cfg.decode(payload)
    case None => noted
    case Some(c) => ChoicesStep(cfg, FieldsStep(noted, c), c.choices, 0)
  }

  function LineStep(cfg: Config, p: Parsed, raw: Bytes): Parsed
    requires cfg.Valid()
  {
    match ReadLine(raw)
    case Ignored => p
    case Done => p.(completed := true)
    case Payload(data) => PayloadStep(cfg, p, data)
  }

  function LinesStep(cfg: Config, p: Parsed, lines: seq<Bytes>): Parsed
    requires cfg.Valid()
    decreases |lines|
  {
    if lines == [] then p else LinesStep(cfg, LineStep(cfg, p, lines[0]), lines[1..])
  }

  // ---- the span ----

  /** `errors.Is(err, io.EOF)` holds for the first two only, `err == io.EOF` for the first. */
  datatype ReadError = EOF | WrappedEOF | Hard(code: nat) | Aborted

  datatype SpanState = SpanState(
    error: bool,
    recorded: Option<ReadError>,
    attributes: Option<Parsed>,   // what the final attributes are taken from
    events: seq<Bytes>,
    ends: nat,
    callbacks: nat)

  const OPEN_SPAN: SpanState := SpanState(false, None, None, [], 0, 0)

  /** The members of a set in ascending order. */
  function Ascending(s: set<int>): seq<int> {
    if s == {} then [] else [Least(s)] + Ascending(s - {Least(s)})
  }

  lemma {:induction false} AscendingSorts(s: set<int>)
    ensures var r := Ascending(s);
      && |r| == |s|
      && (forall i, j :: 0 <= i < j < |r| ==> r[i] < r[j])
      && (forall x :: x in s ==> x in r)
      && (forall i :: 0 <= i < |r| ==> r[i] in s)
  {
    if s != {} {
      AscendingSorts(s - {Least(s)});
      LeastInFront(s, Ascending(s - {Least(s)}));
    }
  }

  lemma LeastInFront(s: set<int>, rest: seq<int>)
    requires s != {} && |rest| == |s - {Least(s)}|
    requires forall i, j :: 0 <= i < j < |rest| ==> rest[i] < rest[j]
    requires forall x :: x in s - {Least(s)} ==> x in rest
    requires forall i :: 0 <= i < |rest| ==> rest[i] in s - {Least(s)}
    ensures var r := [Least(s)] + rest;
      && |r| == |s|
      && (forall i, j :: 0 <= i < j < |r| ==> r[i] < r[j])
      && (forall x :: x in s ==> x in r)
      && (forall i :: 0 <= i < |r| ==> r[i] in s)
  {
    hide Least;
    var least := Least(s);
    var r := [least] + rest;
    forall i, j | 0 <= i < j < |r|
      ensures r[i] < r[j]
    {
      assert r[j] == rest[j - 1] && (i > 0 ==> r[i] == rest[i - 1]);
    }
    forall x | x in s
      ensures x in r
    {
      if x == least { assert r[0] == x; } else { assert x in s - {least}; }
    }
  }

  function Least(s: set<int>): (m: int)
    requires s != {}
    ensures m in s && forall x :: x in s ==> m <= x
  {
    LeastExists(s);
    var m :| m in s && forall x :: x in s ==> m <= x; m
  }

  lemma {:induction false} LeastExists(s: set<int>)
    requires s != {}
    ensures exists m :: m in s && forall x :: x in s ==> m <= x
  {
    assert (forall y :: y !in s) ==> s == {};
    var y :| y in s;
    if s != {y} {
      LeastExists(s - {y});
      var m :| m in s - {y} && forall x :: x in s - {y} ==> m <= x;
      var least := if y < m then y else m;
      assert forall x :: x in s ==> x == y || x in s - {y};
      assert least in s && forall x :: x in s ==> least <= x;
    }
  }

  /** The content events, in ascending order of choice index. */
  function EventsOf(m: Captures, indices: seq<int>): seq<Bytes>
    requires forall k :: 0 <= k < |indices| ==> indices[k] in m
    decreases |indices|
  {
    if indices == [] then []
    else
      var content := m[indices[0]].content;
      (if content == [] then [] else [content]) + EventsOf(m, indices[1..])
  }

  function ContentEvents(cfg: Config, m: Captures): seq<Bytes> {
    AscendingSorts(m.Keys);
    if cfg.captureContent then EventsOf(m, Ascending(m.Keys)) else []
  }

  predicate IsComplete(p: Parsed) { p.completed || p.reasons != [] }

  /** `errors.Is(err, io.EOF)` is false */
  predicate IsHard(err: Option<ReadError>) {
    err.Some? && !err.value.EOF? && !err.value.WrappedEOF?
  }

  /** "error" */
  const ERROR_REASON: Bytes := [0x65, 0x72, 0x72, 0x6F, 0x72]

  /** The end of `finalize`, once a remaining line was flushed where that applies. */
  function Finished(cfg: Config, p: Parsed, err: Option<ReadError>, span: SpanState): (Parsed, SpanState) {
    var failed := !IsComplete(p) || IsHard(err);
    var p' := if failed && p.reasons == [] then p.(reasons := [ERROR_REASON]) else p;
    (p', span.(error := span.error || failed,
               recorded := if failed && IsHard(err) then err else span.recorded,
               attributes := Some(p'),
               events := span.events + ContentEvents(cfg, p'.captured),
               ends := span.ends + 1,
               callbacks := span.callbacks + if cfg.notify then 1 else 0))
  }

  // ---- the reader ----

  datatype Reader = Reader(parsed: Parsed, line: Bytes, done: bool, span: SpanState)

  const NEW_READER: Reader := Reader(NOTHING, [], false, OPEN_SPAN)

  /** `processSSELines` after `data` arrived. */
  function Arrive(cfg: Config, r: Reader, data: Bytes): Reader
    requires cfg.Valid()
  {
    if data == [] then r
    else r.(parsed := LinesStep(cfg, r.parsed, CompleteLines(r.line + data)), line := Tail(r.line + data))
  }

  /** `flushRemaining` */
  function Flush(cfg: Config, r: Reader): Reader
    requires cfg.Valid()
  {
    r.(parsed := LineStep(cfg, r.parsed, r.line), line := [])
  }

  function Finalize(cfg: Config, r: Reader, err: Option<ReadError>): Reader {
    var (p, span) := Finished(cfg, r.parsed, err, r.span);
    r.(parsed := p, span := span)
  }

  /** One call by the consumer, with what the wrapped body returns to a Read. */
  datatype Call = Read(data: Bytes, err: Option<ReadError>) | Close

  predicate Ends(c: Call) { c.Close? || c.err.Some? }

  function CloseError(p: Parsed): Option<ReadError> {
    if IsComplete(p) then None else Some(Aborted)
  }

  function CallStep(cfg: Config, r: Reader, c: Call): Reader
    requires cfg.Valid()
  {
    match c
    case Read(data, err) =>
      var r' := Arrive(cfg, r, data);
      if err == None || r'.done then r'
      else
        var d := r'.(done := true);
        Finalize(cfg, if err.value.EOF? then Flush(cfg, d) else d, err)
    case Close =>
      if r.done then r
      else
        var f := Flush(cfg, r.(done := true));
        Finalize(cfg, f, CloseError(f.parsed))
  }

  function CallsStep(cfg: Config, r: Reader, calls: seq<Call>): Reader
    requires cfg.Valid()
    decreases |calls|
  {
    if calls == [] then r else CallsStep(cfg, CallStep(cfg, r, calls[0]), calls[1..])
  }

  // ---- the stream seen whole ----

  function DataOf(c: Call): Bytes { if c.Read? then c.data else [] }

  /** The lines that count: the unterminated last one too, unless a read failed before it was whole. */
  function LinesRead(stream: Bytes, end: Call): seq<Bytes>
    requires Ends(end)
  {
    if end.Close? || end.err.value.EOF? then SplitLines(stream) else CompleteLines(stream)
  }

  /** The span's record when `stream` is split into lines once and then ends with `end`. */
  function Outcome(cfg: Config, stream: Bytes, end: Call): SpanState
    requires cfg.Valid() && Ends(end)
  {
    var parsed := LinesStep(cfg, NOTHING, LinesRead(stream, end));
    Finished(cfg, parsed, if end.Close? then CloseError(parsed) else end.err, OPEN_SPAN).1
  }

  /** The bytes that arrived up to and including the first ending call, and that call. */
  function Stream(calls: seq<Call>): (r: (Bytes, Option<Call>))
    ensures r.1.Some? ==> Ends(r.1.value)
    decreases |calls|
  {
    if calls == [] then ([], None)
    else if Ends(calls[0]) then (DataOf(calls[0]), Some(calls[0]))
    else var (data, end) := Stream(calls[1..]); (DataOf(calls[0]) + data, end)
  }
}
