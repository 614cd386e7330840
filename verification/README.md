# Verification of the instrumentation runtime and its comparison tools

A Dafny model, with proofs, of the parts of go-inject-trace-contrib whose correctness
is hardest to see from the code: state kept per goroutine and shared lazily, incremental
parsing, settlement of messages through overlapping maps, and the algorithms the
comparison tools rest on. `dafny verify dfyconfig.toml` checks the whole project.

**Goroutine-local spans.** Every goroutine owns a linked stack of span wrappers. An End
on any goroutine sets a shared flag; ended wrappers are removed later, when the owner
looks, forks, or runs out of room. A bounded registry hands out the flags and evicts the
oldest. `GlsStack` gives the list operations on values, `GlsProtocol` the state machine of
all goroutines and the simple model, `GlsRefinement` the proof that the lazy machine
answers as the simple one in every run. `GlsFlags`, `GlsList` and `GlsRegistry` are the heap
objects, `GlsRuntime` the hooks on all goroutines' slots: each takes exactly steps of the
protocol. Spans need not be fresh: a span created twice is covered too.

**Streaming responses.** `Utf8`, `GoBytes` and `SseLines` give bytes, characters, white space
and lines; `ContentCapture` the truncating accumulator; `StreamModel` the effect of each line,
Read and Close as values together with the one-shot reading of a stream; `StreamTheorems`
the laws; `StreamReader` the object with its buffers, map of accumulators and span.
`WhiteSpace` says what trimming removes, and `StreamText` states lines and printed streams, the
prefix and the end marker on their bytes.
The comment on `TruncateContent` says that its result is always valid UTF-8. The code
returns invalid input that fits unchanged, so this holds exactly for input that fits and is
valid, or is valid at least up to where it is cut (`CapturedIsValidIff`, `InvalidTextStaysInvalid`).

**AMQP settlement.** `AmqpProtocol` is the protocol at the granularity of locked sections,
calls of End and arrivals; `AmqpCalls` the calls that run these sections and then end what
they took, each with its own list, while all others go on; `AmqpOutcomes` what they achieve;
`AmqpSettlement` the objects with their loops. Section 1.8.3.13 of AMQP 0-9-1 settles every
delivery under the tag, and all with tag zero. `ChannelSettlesAsAskedIff` and
`AckSettlesAsAskedIff` say exactly when the code does so: not for tag zero (`TagZeroEndsNothing`),
nor for a delivery that is between its two insertions (`HalfAddedIsMissed`), except in an
acknowledgement by its own consumer.

**Canonical span forests.** `CanonicalJson` is the sort key: JSON text, shown to determine the
value. `SpanForest` shows that the sorted, id-free form is a complete invariant of forests, and
`SpanTraces` what that means for any list of spans: spans that do not hang below a root, those of
a cycle of parents, leave no trace in the result. `SpanCanon` says what each tree shows of its span
and holds the function with its loops.

**Trace grouping.** `TraceGroups` is union-find with path halving on an array, and its classes
are the connected components of the links between known spans, as they stand in the dump.

**Data source names.** `DsnAddress` holds the endpoint round trip and the address splitters,
`DsnMySql` and `DsnLibpq` the two hand-written parsers; `DsnText` and `LibpqText` state what they
read on the bytes of a name, with the default ports, protocol words and keys. In a MySQL name the
last '@' ends the credentials, even one in the parameters (`LastAtCuts`, `AtInParametersCuts`). Blanks behind an
equals sign, which section 34.1.1.1 of the PostgreSQL 16 documentation allows, lose the value and
may lose the setting that follows (`BlanksLose`, `BlankLosesDatabase`) or overwrite one in front
(`BlankOverwritesHost`); `BlanksBeforeValueIff` is the exact condition under which they do no
harm, behind any settings and in front of any.

**Delta histograms.** `DeltaHistogram` turns cumulative counts into increments. The array of
latest counts has one slot for each tracked boundary but is indexed from the first of all
boundaries, so with s leading untracked ones the last s buckets are never passed on;
`ConservedIff` is the exact condition.

**Configuration cache.** `ConfigCache` is the decision from three environment variables and its
shared cache under interleaving. The comment says that a set list enables only what it
names; a list of commas and blanks enables everything (`DocumentedIff`, `CommaEnablesAll`).
`ConfigText` states the decision on the texts of the three variables.

Text of programs is bytes throughout, or characters in the Python tools.

## Model

| member | source | states |
|---|---|---|
| `GlsRefinement.LazyRefinesEagerFromStart` | otelc/sdktrace/gls.go:183-293 | over every run of creates, Ends, forks, lookups and clears by any number of goroutines, every lookup and every admit or reject answer equals that of a simple model in which End or eviction removes the span from every stack at once |
| `GlsRefinement.LazyRefinesEager` | otelc/sdktrace/gls.go:143-293 | the same from any state of the invariant; the abstraction of the final state is the simple model's final state |
| `GlsRefinement.EveryStepRefines` | otelc/sdktrace/gls.go:122-293 | every single step keeps the invariant and is answered as the simple model answers it |
| `GlsRefinement.ReachableStatesShareFlags` | otelc/sdktrace/gls.go:143-180 | in every reachable state a stacked wrapper is ended or holds the very flag registered for its key, no registered flag is set, map and order list agree within the bound, and each stack is within its bound with the right local root |
| `GlsRefinement.EndedNeverReturned` | otelc/sdktrace/gls.go:344-363 | once any goroutine Ends a span that nobody is about to push or creates again, no lookup on any goroutine returns it for the rest of the run |
| `GlsRefinement.GoneForever` | otelc/sdktrace/gls.go:357-363 | in the simple model a key that no stack and no pending push holds is never looked up again |
| `GlsRefinement.OnlyTheOldestIsEvicted` | otelc/sdktrace/gls.go:127-164 | a key leaves the registry without an End only as the oldest of a full registry, and all keys registered after it stay registered with unset flags |
| `GlsRefinement.EvictDropsOldest` | otelc/sdktrace/gls.go:127-156 | eviction removes exactly the first key of the order list, sets its flag, and keeps map and list consistent |
| `GlsRefinement.DropKey` | otelc/sdktrace/gls.go:127-180 | setting one registered key's flag and dropping the key amounts to removing that key from every stack, and from no other place |
| `GlsRefinement.CheckRefines` | otelc/sdktrace/gls.go:200-213 | the capacity check admits exactly when the goroutine holds fewer live spans than the limit, although ended wrappers may still be counted |
| `GlsRefinement.RoomIsInvisible` | otelc/sdktrace/gls.go:200-213 | compacting a full stack changes nothing an observer can see, and leaves room exactly when fewer live spans than the limit are stacked |
| `GlsRefinement.PushRefines` | otelc/sdktrace/gls.go:143-164 | pushing a span, with or without an eviction in between, is the simple model's push |
| `GlsRefinement.MarkRefines` | otelc/sdktrace/gls.go:166-180 | marking a span ended is its removal from all stacks at once |
| `GlsRefinement.UnlinkRefines` | otelc/sdktrace/gls.go:249-274 | unlinking the ended wrapper from the goroutine's own stack changes nothing an observer can see |
| `GlsRefinement.TailRefines` | otelc/sdktrace/gls.go:228-238 | trimming ended wrappers changes no live span and yields the innermost live one |
| `GlsRefinement.ForkRefines` | otelc/runtime/proc_propagate.go:13-19 | a fork gives the new goroutine the parent's innermost live span and nothing else, replacing whatever its slot held |
| `GlsStack.LiveSpansAfterTrim` | otelc/sdktrace/gls.go:228-238 | trimming keeps the live spans and leaves a live wrapper on top |
| `GlsStack.LiveSpansAfterCompact` | otelc/sdktrace/gls.go:183-197 | compaction keeps exactly the live wrappers, in order |
| `GlsStack.RoomKeepsLive` | otelc/sdktrace/gls.go:200-213 | after the capacity check the stack is full only if that many live spans are on it |
| `GlsStack.LiveAfterRemovingEnded` | otelc/sdktrace/gls.go:249-274 | removing a wrapper whose flag is set does not change the live spans |
| `GlsStack.RootStaysBottom` | otelc/sdktrace/gls.go:183-238 | trimming and compacting keep the recorded local root at the bottom wrapper's span, or nil above a cloned bottom |
| `GlsStack.RootStaysBottomAfterDel` | otelc/sdktrace/gls.go:249-274 | so does removing any wrapper |
| `GlsStack.CompactionOverTime` | otelc/sdktrace/gls.go:183-213 | when other goroutines set flags during the walk over a full stack, the live spans after it are those there were, a refusal is right at the moment of the first flag loaded and an admission at that of the last |
| `GlsStack.TrimOverTime` | otelc/sdktrace/gls.go:228-238 | a trim during which flags are set is the trim at the moment of its last load |
| `GlsStack.TailPopsEnded` | otelc/sdktrace/gls.go:228-238 | a trim pops exactly the ended wrappers above the innermost live one, reports that one's span, and forgets the recorded root only when none is left |
| `GlsStack.DelUnlinksTopmost` | otelc/sdktrace/gls.go:249-274 | a removal unlinks exactly the topmost wrapper of the key, sets its flag, and finds the root anew only when that was the bottom one |
| `GlsList.TraceContext.Compact` | otelc/sdktrace/gls.go:183-197 | the in-place loop leaves exactly the un-ended wrappers in order, with count and local root to match |
| `GlsList.TraceContext.DropEnded` | otelc/sdktrace/gls.go:184-192 | the address-of-link loop is the order-preserving filter of un-ended wrappers |
| `GlsList.TraceContext.Unlink` | otelc/sdktrace/gls.go:186-189 | rewiring one link removes exactly one node and keeps the chain |
| `GlsList.TraceContext.BottomSpan` | otelc/sdktrace/gls.go:193-196 | walking the list yields the bottom wrapper's span |
| `GlsList.TraceContext.Tail` | otelc/sdktrace/gls.go:228-238 | popping ended wrappers from the top, with count and local root |
| `GlsList.TraceContext.MakeRoom` | otelc/sdktrace/gls.go:201-203 | compacts only a full stack |
| `GlsList.TraceContext.Push` | otelc/sdktrace/gls.go:214-220 | one new node on top; all other nodes are untouched; a first span becomes the local root |
| `GlsList.TraceContext.FindNode` | otelc/sdktrace/gls.go:254-272 | finds the topmost wrapper with the identifiers and its predecessor |
| `GlsList.TraceContext.Del` | otelc/sdktrace/gls.go:250-274 | sets the found wrapper's flag, unlinks it, and recomputes the local root only when it was the bottom one |
| `GlsList.TraceContext.Clone` | otelc/sdktrace/gls.go:286-293 | trims this stack and returns a fresh one with at most one wrapper, sharing the flag but no list node |
| `GlsList.TraceContext.Clear` | otelc/sdktrace/gls.go:277-282 | empties the stack |
| `GlsRegistry.SpanStates.EvictOldest` | otelc/sdktrace/gls.go:127-140 | the locked section equals the registry function, on the map and on the order list |
| `GlsRegistry.SpanStates.StateForSpan` | otelc/sdktrace/gls.go:143-164 | with either identifier zero a flag of its own and an untouched registry; with both non-zero the registered flag, or a new one registered after making room, setting only the evicted flag |
| `GlsRegistry.SpanStates.MarkSpanEnded` | otelc/sdktrace/gls.go:167-180 | with either identifier zero nothing changes; otherwise exactly the key leaves map and list, and its flag is set when it was there |
| `GlsRegistry.DropOldest` | otelc/sdktrace/gls.go:127-137 | dropping the front element keeps map entries and list elements matched one to one |
| `GlsFlags.Flag.Set` | otelc/sdktrace/gls.go:133-134 | setting a flag adds exactly that flag to the ended ones |
| `GlsRuntime.Goroutines.Create` | otelc/sdktrace/gls.go:322-327 | the after-create hook answers as the simple model and takes exactly the protocol's check and push steps, on the heap objects of all goroutines; an admitted span is the innermost live one, a refused one changes no live stack |
| `GlsRuntime.Goroutines.End` | otelc/sdktrace/gls.go:344-349 | the End hook removes the span from every goroutine's live stack and takes the protocol's mark and unlink steps |
| `GlsRuntime.Goroutines.Lookup` | otelc/sdktrace/gls.go:357-363 | returns the goroutine's innermost live span by the simple model and changes no live stack |
| `GlsRuntime.Goroutines.SpanFromContext` | otelc/oteltrace/hook.go:19-33 | a context's span whose two identifiers are non-zero is returned as it is; with either zero, the goroutine's innermost live span, when there is one |
| `GlsRuntime.Goroutines.Fork` | otelc/runtime/runtime2_add.go:43-51 | the new goroutine's slot becomes a clone of the caller's: its live stack is the caller's innermost live span alone, and all other live stacks stay |
| `GlsRuntime.Goroutines.Clear` | otelc/sdktrace/gls.go:352-354 | the goroutine's live stack is empty, its stack created when missing, and all other live stacks stay |
| `GlsRuntime.Goroutines.NothingShared` | otelc/sdktrace/gls.go:286-293 | no two goroutines share a stack or a list node |
| `StreamTheorems.ChunkingIsInvisible` | otelc/genai/streaming/streaming.go:167-254 | however the transport cuts the bytes and whatever is called later, the state and the span's record equal those of splitting the whole stream into lines once; the unterminated last line counts on end of file and Close and not on other errors |
| `StreamTheorems.ArriveExtends` | otelc/genai/streaming/streaming.go:310-350 | reading more data after a stream is reading the longer stream |
| `StreamTheorems.FinalisesOnce` | otelc/genai/streaming/streaming.go:180-202 | the span is ended exactly once, and the callback run exactly once when there is one, as soon as a Read returned an error or Close was called, and never before or again |
| `StreamTheorems.ErrorStatusIff` | otelc/genai/streaming/streaming.go:209-230 | Error status exactly when neither finish reason nor end marker was among the lines or a Read failed with an error that is no end of file; which error is recorded; which finish reasons are reported; which payloads were parsed |
| `StreamTheorems.LinesGive` | otelc/genai/streaming/streaming.go:310-344 | every payload is handed on once and in order, every finish reason is kept, and the stream is complete exactly when a line is the end marker |
| `StreamText.ReadLineIff` | otelc/genai/streaming/streaming.go:331-361 | a line is handed on as a payload exactly when it is, between white space, the six bytes of the prefix and that payload, which is not the end marker; it is the end marker exactly when these twelve bytes; ignored exactly when it begins otherwise |
| `StreamText.DataLineIsRead` | otelc/genai/streaming/streaming.go:331-420 | reading a line of white space, prefix, text and white space appends exactly that text to the payloads and takes over counts, names and reasons of what it decodes to; the marker completes the stream instead |
| `StreamText.PrintedLineIsRead` | otelc/genai/streaming/streaming.go:331-361 | the printed line, with or without a carriage return |
| `StreamText.OtherLinesChangeNothing` | otelc/genai/streaming/streaming.go:331-361 | a line without the prefix changes nothing |
| `StreamText.PrintedStreamIsRead` | otelc/genai/streaming/streaming.go:209-361 | a printed stream of payloads and the end marker is read back payload by payload, and is an error only when a read failed otherwise than by an end of file |
| `StreamText.UnfinishedStreamIsRead` | otelc/genai/streaming/streaming.go:180-361 | a last payload without a line feed is read exactly after an end of file or a Close |
| `StreamText.LastLineCounts` | otelc/genai/streaming/streaming.go:167-207 | so does any unterminated last line |
| `StreamText.FirstLine` | otelc/genai/streaming/streaming.go:320 | a line ends at the first line feed and nowhere else |
| `StreamText.CountsAreTheLast` | otelc/genai/streaming/streaming.go:397-411 | each count reported is the last positive one of its kind among the decoded chunks; id and model are the last that are not empty |
| `WhiteSpace.TrimSpaceIff` | otelc/genai/streaming/streaming.go:293 | trimming gives the one text without white space at either end that is left when characters of the property White_Space alone are taken off both ends |
| `StreamTheorems.EventsAreBounded` | otelc/genai/streaming/streaming.go:263-282 | over any stream one event for each of the first 16 choice indices that had content, in ascending order, none longer than the limit |
| `StreamTheorems.CaptureKeepsFirstChoices` | otelc/genai/streaming/streaming.go:473-486 | the retained indices are exactly the first 16 distinct ones that carried content, each holding what its own contents alone leave in an accumulator |
| `StreamTheorems.CaptureIsBounded` | otelc/genai/streaming/streaming.go:473-486 | at most 16 choices, each of 1 to limit bytes; with valid text each is the truncation of its concatenated content |
| `StreamTheorems.OneEventPerChoice` | otelc/genai/streaming/streaming.go:273-281 | the events are the contents of the listed indices one by one |
| `StreamModel.AscendingSorts` | otelc/genai/streaming/streaming.go:268-272 | the index list is the key set in strictly ascending order |
| `SseLines.SplitConcat` | otelc/genai/streaming/streaming.go:315-349 | data that arrives later only extends the unterminated line |
| `SseLines.SplitIsUnjoin` | otelc/genai/streaming/streaming.go:320 | splitting at line feeds is undone by joining, and no line holds one |
| `ContentCapture.TruncationIsSplitIndependent` | otelc/genai/streaming/streaming.go:70-87 | for valid UTF-8 chunks the accumulator ends as if it had seen the concatenation at once |
| `ContentCapture.RetainedIsBoundedPrefix` | otelc/genai/streaming/streaming.go:70-87 | for any bytes: at most limit bytes, a prefix of the text, the whole text exactly when it fits, otherwise with the suffix |
| `ContentCapture.ValidTextLosesLittle` | otelc/genai/streaming/streaming.go:93-101 | valid text stays valid and a cut loses at most three bytes of the budget |
| `ContentCapture.CapturedIsValidIff` | otelc/genai/streaming/streaming.go:36-47 | the result is valid UTF-8 exactly when the input fits and is valid as a whole, or is valid at least up to the position where it is cut |
| `ContentCapture.InvalidTextStaysInvalid` | otelc/genai/streaming/streaming.go:36-40 | a concrete input whose result is not valid UTF-8, against the comment that it always is |
| `ContentCapture.TruncateToUtf8Boundary` | otelc/genai/streaming/streaming.go:93-101 | the backward scan finds the cut between characters |
| `ContentCapture.ContentAccumulator.Append` | otelc/genai/streaming/streaming.go:70-87 | one append in place equals the value function the truncation laws are about |
| `ContentCapture.TruncateContent` | otelc/genai/streaming/streaming.go:42-47 | the one-shot truncation, within the clamped limit, valid for valid input |
| `ContentCapture.ClampContentLimit` | otelc/genai/streaming/streaming.go:51-59 | a limit that is not positive or above the maximum becomes the maximum, a positive one shorter than the suffix the suffix's length, and any other is kept |
| `Utf8.ValidSplit` | otelc/genai/streaming/streaming.go:93-101 | cutting valid text where no continuation byte follows leaves two valid texts |
| `Utf8.BoundaryIsNear` | otelc/genai/streaming/streaming.go:97-99 | in valid text the scan moves back at most three bytes and stops between characters |
| `Utf8.ValidLengthIsLongest` | otelc/genai/streaming/streaming.go:36-47 | the number of bytes up to which a text is valid: that prefix is valid and no longer one is |
| `Utf8Encoding.RuneIff` | otelc/genai/streaming/streaming.go:97-99 | a text begins with a valid character exactly when its first bytes encode a Unicode scalar value by the table of section 3 of RFC 3629 |
| `StreamReader.StreamingReader.Read` | otelc/genai/streaming/streaming.go:167-188 | one Read on the object equals the value step of the theorems |
| `StreamReader.StreamingReader.Close` | otelc/genai/streaming/streaming.go:190-207 | one Close equals its value step: flush, then decide between success and abort |
| `StreamReader.StreamingReader.Finalize` | otelc/genai/streaming/streaming.go:209-254 | flush where asked, failure marking, attributes, events, end and callback, in one value |
| `StreamReader.StreamingReader.MarkIfFailed` | otelc/genai/streaming/streaming.go:220-230 | which finish reasons, status and error are set |
| `StreamReader.StreamingReader.FlushRemaining` | otelc/genai/streaming/streaming.go:288-308 | the rest of the buffer is read as one line and the buffer emptied |
| `StreamReader.StreamingReader.ProcessSseLines` | otelc/genai/streaming/streaming.go:310-350 | the loop over the split lines processes the complete ones and keeps the last |
| `StreamReader.StreamingReader.ProcessLine` | otelc/genai/streaming/streaming.go:331-343 | one trimmed line: ignored, end marker or payload |
| `StreamReader.StreamingReader.ProcessChunk` | otelc/genai/streaming/streaming.go:376-420 | a payload that does not decode is skipped; otherwise fields, reasons and contents are taken over |
| `StreamReader.StreamingReader.CaptureChunkContent` | otelc/genai/streaming/streaming.go:473-486 | the bounded map of accumulators, updated in place |
| `StreamReader.StreamingReader.RecordCapturedContent` | otelc/genai/streaming/streaming.go:263-282 | the events emitted, in order |
| `AmqpProtocol.EndsAtMostOnce` | otelc/plugins/amqp/amqp.go:343-354 | in every interleaving each delivery span is ended at most once, and when exactly once |
| `AmqpProtocol.PendingIsNeverLost` | otelc/plugins/amqp/amqp.go:387-401 | in every run a span not yet taken to be ended is in its consumer's map from the first of the two insertions on and in its channel's from the second, under its tag |
| `AmqpProtocol.ChannelSettleIsExact` | otelc/plugins/amqp/amqp.go:257-275 | in every reachable state a settlement on the channel takes exactly the spans in the channel's map with a tag at most the given one, or with that tag when it is not multiple, across all its consumers; larger or other tags stay in the map |
| `AmqpProtocol.LocalSettleIsExact` | otelc/plugins/amqp/amqp.go:257-275 | a settlement on a consumer's map takes exactly the consumer's spans that were put in it under the same tags; the others stay |
| `AmqpProtocol.EndAllIsExact` | otelc/plugins/amqp/amqp.go:278-286 | closing takes exactly the consumer's spans that were put in its map, leaves it empty and the consumer closed |
| `AmqpProtocol.SectionIsExact` | otelc/plugins/amqp/amqp.go:257-286 | each locked section takes exactly what it covers, and what it removes from its map is part of that |
| `AmqpProtocol.AckIsExact` | otelc/plugins/amqp/amqp.go:298-340 | an acknowledgement through any delivery, with or without the channel's own hook running first, takes exactly the channel's spans in its map with a tag at most the given one, or with that tag when it is not multiple, and those spans of the delivery's own consumer under these tags that are between their two insertions |
| `AmqpOutcomes.SettlementEndsAll` | otelc/plugins/amqp/amqp.go:257-340 | in every interleaving of running calls: once an acknowledgement or a call on the channel has finished, each span that was in the channel's map with a tag at most the call's, or with that tag when it is not multiple, when the call began was covered; all it covered lies there and has been ended exactly once unless a running call still has it on its list |
| `AmqpOutcomes.EndedWasAskedFor` | otelc/plugins/amqp/amqp.go:257-372 | in every interleaving a span that has ended, and is not acknowledged automatically, was under the tag of some call on its channel, or its consumer was closed |
| `AmqpOutcomes.CloseEndsAll` | otelc/plugins/amqp/amqp.go:359-372 | in every interleaving: once a consumer's wrapper has drained its map, every span of the consumer has been ended exactly once unless a running call still has it on its list |
| `AmqpOutcomes.CloseFinishes` | otelc/plugins/amqp/amqp.go:278-286 | when the closing call has finished, the consumer takes no more deliveries and what its map held was taken |
| `AmqpOutcomes.NeverEndedTwice` | otelc/plugins/amqp/amqp.go:343-354 | in every interleaving no span is ended twice, whichever calls end it |
| `AmqpCalls.MoveKeeps` | otelc/plugins/amqp/amqp.go:257-340 | every arrival, start of a call, locked section and call of End keeps that each span taken was ended or is on a running call's list, and that a call's sections and lists stay within what was asked |
| `AmqpProtocol.ChannelSettlesAsAskedIff` | otelc/plugins/amqp/amqp.go:257-286 | a settlement on the channel takes what AMQP 0-9-1 asks for, every delivery received on the channel under the tag and not acknowledged automatically, exactly when each of these not taken before is in the channel's map and it is no multiple settlement of tag zero |
| `AmqpProtocol.AckSettlesAsAskedIff` | otelc/plugins/amqp/amqp.go:298-340 | a whole acknowledgement does so exactly when each of these is in the channel's map or between the two insertions of its own consumer, and it is no multiple settlement of tag zero |
| `AmqpProtocol.HalfAddedIsMissed` | otelc/plugins/amqp/amqp.go:387-401 | a concrete run in which a delivery between its two insertions is asked for, under its own tag, and not taken |
| `AmqpProtocol.TagZeroEndsNothing` | otelc/plugins/amqp/amqp.go:260-266 | a concrete run in which acknowledging all with tag zero ends nothing |
| `AmqpProtocol.StepKeeps` | otelc/plugins/amqp/amqp.go:247-286 | every locked section, End and arrival keeps the invariant of maps, tags and counts |
| `AmqpSettlement.PendingAcks.Add` | otelc/plugins/amqp/amqp.go:247-254 | the tag maps to the acknowledger |
| `AmqpSettlement.PendingAcks.Settle` | otelc/plugins/amqp/amqp.go:257-275 | exactly the tags above the given one stay in the map, or all but that tag when it is not multiple; the acknowledgers of the removed ones are ended and no others |
| `AmqpSettlement.PendingAcks.EndAll` | otelc/plugins/amqp/amqp.go:278-286 | everything left is ended and the map emptied |
| `AmqpSettlement.SettlingAcknowledger.End` | otelc/plugins/amqp/amqp.go:343-354 | the first call ends the span once and records its error; later calls change nothing |
| `AmqpSettlement.SettlingAcknowledger.Finish` | otelc/plugins/amqp/amqp.go:327-340 | both maps lose exactly the tags up to the given one, or that tag, and the acknowledgers there are ended; without a map the own span is |
| `AmqpSettlement.SettlingAcknowledger.Ack` | otelc/plugins/amqp/amqp.go:298-324 | the inner result decides the error; the hook inside the inner call and the two settlements together end each acknowledger under the tags once, and both maps lose exactly these tags |
| `AmqpSettlement.StartDeliverySpan` | otelc/plugins/amqp/amqp.go:375-404 | an auto-acknowledged delivery's span is ended at once and registered nowhere; any other, with an inner acknowledger or without, is not ended and registered in each map there is |
| `AmqpSettlement.WrapDeliveries` | otelc/plugins/amqp/amqp.go:359-372 | deliveries, some perhaps without an inner acknowledger, pass in order, with any settlements by their consumer in between, on a channel or none: at the close the span of each has been ended exactly once, at once when acknowledged automatically |
| `AmqpSettlement.Answer` | otelc/plugins/amqp/amqp.go:298-340 | a settlement through one delivery leaves every delivery of the wrapper ended once or waiting in the consumer's map |
| `SpanForest.CanonIffIsomorphic` | test/runner/normdiff_otlp.py:101-132 | two forests have equal canonical forms exactly when a one-to-one renaming of spans keeps what each span says and its parent |
| `SpanTraces.SameFormIff` | test/runner/normdiff_otlp.py:77-132 | two span lists with any parents, cycles included, have equal results exactly when, health checks aside, what hangs below their roots is the same up to a one-to-one renaming |
| `SpanTraces.FormDeterminesIff` | test/runner/normdiff_otlp.py:77-132 | the result determines a trace among those without cycles exactly when it has no cycle itself |
| `SpanTraces.CyclesAreInvisible` | test/runner/normdiff_otlp.py:94-132 | leaving out what does not hang below a root gives a trace without cycles and with the same result |
| `SpanTraces.AcyclicIffRanked` | test/runner/normdiff_otlp.py:94-99 | every span hangs below a root exactly when some rank falls from each parent to its children |
| `SpanTraces.OrderIsInvisible` | test/runner/normdiff_otlp.py:77-132 | any permutation of the list the function takes gives the same result |
| `SpanTraces.IdsAreInvisible` | test/runner/normdiff_otlp.py:77-132 | any injective renaming of ids, applied to every span and every parent of the list the function takes, parents outside the trace included, gives the same result |
| `SpanTraces.CycleLooksEmpty` | test/runner/normdiff_otlp.py:94-132 | a concrete trace of two spans that are each other's parent: the result is that of the empty trace, which it is not isomorphic to |
| `SpanForest.RenamedHasSameTree` | test/runner/normdiff_otlp.py:101-128 | corresponding spans have equal serialized trees |
| `SpanForest.ThereAndBack` | test/runner/normdiff_otlp.py:101-132 | the correspondence read off two equal results is its own inverse |
| `SpanForest.NodeDetermines` | test/runner/normdiff_otlp.py:107-124 | the serialized node determines every part of the span and its children list |
| `SpanCanon.CanonSpanTree` | test/runner/normdiff_otlp.py:77-132 | the loops end on every list with unique ids, cycles included, and compute that form: one tree for each span without a parent among the others, health checks aside, in the order of their texts |
| `SpanCanon.FormShows` | test/runner/normdiff_otlp.py:77-132 | each tree of the form has the span's name, scope, kind, attributes, events, links and the code and message of its status under these names, and as children, in the order of their texts, exactly the trees of the spans whose parent it is |
| `SpanCanon.Index` | test/runner/normdiff_otlp.py:87-99 | the dictionary of child lists and the root list, in input order |
| `SpanCanon.Serialize` | test/runner/normdiff_otlp.py:101-128 | the recursive serializer with its loop over children |
| `CanonicalJson.DumpDetermines` | test/runner/normdiff_otlp.py:135-136 | equal JSON texts come from equal values |
| `CanonicalJson.DumpPrefix` | test/runner/normdiff_otlp.py:135-136 | a value's text can be read off the front of any text, so no text continues another value's |
| `CanonicalJson.QuotedPrefix` | test/runner/normdiff_otlp.py:135-136 | so can an escaped string, with every character of the JSON escapes |
| `CanonicalJson.DigitsDetermine` | test/runner/normdiff_otlp.py:135-136 | and a decimal number |
| `CanonicalJson.SortedIsCanonical` | test/runner/normdiff_otlp.py:127 | sorting by the text gives equal lists exactly for equal collections |
| `CanonicalJson.LexTotal` | test/runner/normdiff_otlp.py:127 | the order of texts is total and antisymmetric |
| `SpanCanon.LexIff` | test/runner/normdiff_otlp.py:127 | one text is before another when it is its beginning or smaller where they first differ |
| `CanonicalJson.PlainText` | test/runner/normdiff_otlp.py:135-136 | printable text stands between quotes as it is |
| `CanonicalJson.OtherEscapes` | test/runner/normdiff_otlp.py:135-136 | what is not printable ASCII is escaped by its one or two units of UTF-16, in four hexadecimal digits each |
| `CanonicalJson.NumbersLook` | test/runner/normdiff_otlp.py:135-136 | numbers are printed in decimal digits without zeros in front |
| `TraceGroups.LoadGroups` | test/compare/cmp_traces.py:307-364 | the keys are the spans of the dump, each in a group; two are in the same group exactly when links between spans of the dump lead from one to the other, a link being a reference that names segment and span or, without references, a parent of at least 0 in the same segment |
| `TraceGroups.ConnectedIffRelated` | test/compare/cmp_traces.py:328-338 | being connected by the collected edges is being related by the links as they stand in the dump |
| `TraceGroups.SameRootIffConnected` | test/compare/cmp_traces.py:349-353 | after all edges, having the same root is being connected by a path of known edges |
| `TraceGroups.MergeKeeps` | test/compare/cmp_traces.py:349-353 | merging the classes of an edge's ends keeps both directions with the edge added |
| `TraceGroups.HalvingKeepsRoots` | test/compare/cmp_traces.py:343-347 | one halving step moves no element's root |
| `TraceGroups.UnionMovesRoots` | test/compare/cmp_traces.py:352-353 | hanging one root below another moves exactly the elements of the first class |
| `TraceGroups.Find` | test/compare/cmp_traces.py:343-347 | the loop ends, returns the root, and leaves every element's root as it was |
| `TraceGroups.UnionEdge` | test/compare/cmp_traces.py:349-353 | an edge with an unknown end is skipped, any other merges the two classes |
| `TraceGroups.UnionAll` | test/compare/cmp_traces.py:349-353 | the loop over all edges |
| `TraceGroups.CollectKeys` | test/compare/cmp_traces.py:311-326 | every span once, with its position |
| `TraceGroups.CollectEdges` | test/compare/cmp_traces.py:328-338 | references when there are any, otherwise the parent when it is not negative |
| `TraceGroups.GroupByRoot` | test/compare/cmp_traces.py:355-357 | the lists by root hold every key once, in the order of the keys, none of them empty, lists of different roots apart |
| `DsnAddress.AddrRoundTripIff` | otelc/dsnparse/parse.go:36-57 | the endpoint is split back into host and port exactly when the host is bracket-free and the port holds neither bracket nor colon |
| `DsnText.EndpointLooks` | otelc/dsnparse/parse.go:36-57 | the endpoint's bytes: host and port with a colon between, the host in brackets when it holds a colon, whether it is stored in brackets or bare; the bare host without a port; nothing without a host |
| `DsnText.EndpointIsSplit` | otelc/dsnparse/parse.go:27-31 | both forms are reported as that host and that port |
| `DsnAddress.SplitIffJoined` | otelc/dsnparse/parse.go:27-31 | a text is split into a host and a port exactly when it is the two joined, in brackets or with the only colon between them |
| `DsnAddress.JoinSplitIff` | otelc/dsnparse/parse.go:27-31 | splitting a joined pair gives the pair back exactly when the host holds no bracket and the port neither a bracket nor a colon, IPv6 literals included |
| `DsnAddress.HostAloneIff` | otelc/dbsemconv/db.go:37-46 | without a port the endpoint of any host is reported whole exactly when it is not itself a host and a port joined |
| `DsnAddress.DialectsInvertJoinIff` | otelc/dsnparse/parse.go:385-407 | the MySQL splitter and the Oracle splitter read a joined pair back exactly when the separating colon can be told |
| `DsnAddress.DefaultPorts` | otelc/dsnparse/parse.go:582-598 | the dialects' default ports, and none for a socket path |
| `DsnMySql.ParenthesisCounts` | otelc/dsnparse/parse.go:287-316 | where a name has a '(', the address is what it and the first ')' enclose and the database is read behind them, whatever stands in front |
| `DsnMySql.OpenParenthesisReadsNothing` | otelc/dsnparse/parse.go:303-316 | a '(' that is never closed leaves nothing to read |
| `DsnMySql.LastAtCuts` | otelc/dsnparse/parse.go:289-302 | in a name without a '(' everything up to the last '@' is dropped, wherever it stands |
| `DsnMySql.AtInParametersCuts` | otelc/dsnparse/parse.go:289-302 | a concrete name with an '@' in its parameters, which cuts off host, port and database |
| `DsnMySql.MySqlRoundTrip` | otelc/dsnparse/parse.go:287-339 | parsing a printed name recovers address and database whatever '@', ':' and '/' stand in front of the parenthesis |
| `DsnMySql.MySqlAddressRoundTrip` | otelc/dsnparse/parse.go:287-339 | host, port and database come back from the form with parentheses |
| `DsnMySql.MySqlPlainRoundTripIff` | otelc/dsnparse/parse.go:287-339 | in the form without parentheses, with no '(' in the name and no '@' behind the credentials, host, port and database come back exactly when the host is none of the four protocol words, which is taken for the protocol |
| `DsnMySql.MySqlProtocolPortIff` | otelc/dsnparse/parse.go:287-382 | under the same condition, a protocol word and a number stand for that port on localhost exactly when the word is not unix or the database holds no '/' |
| `DsnMySql.MySqlHostAlone` | otelc/dsnparse/parse.go:287-339 | under the same condition, a host alone gets the default port |
| `DsnMySql.MySqlSocketRoundTripIff` | otelc/dsnparse/parse.go:287-350 | under the same condition, a socket's path comes back without a port, and the database, exactly when the path holds no ':' and no '?' and the database no '/' |
| `DsnText.NameLooks` | otelc/dsnparse/parse.go:287-339 | host, port and database of a name with its address in parentheses, by its bytes: IPv6 hosts, port 3306 where none is given, sockets, and an open parenthesis |
| `DsnText.ColonLooks` | otelc/dsnparse/parse.go:385-407 | how both dialects split any address, by its bytes: at the last colon, or behind what the first '[' and the last ']' enclose; without a port the dialect's own is taken |
| `DsnText.HostLooks` | otelc/dsnparse/parse.go:385-407 | hosts and ports as they are usually written in a MySQL name: in brackets or not, with a port or with 3306, and a socket's path, which has none |
| `DsnText.DatabaseLooks` | otelc/dsnparse/parse.go:410-416 | the database is what follows without one '/' in front and up to the first '?' |
| `DsnText.ProtocolLooks` | otelc/dsnparse/parse.go:350-381 | the words tcp, unix, udp and pipe and their colon are taken off, and a number behind them is that port on localhost; other words stay |
| `DsnText.PlainAddressLooks` | otelc/dsnparse/parse.go:303-333 | without parentheses the address ends at the first '/' |
| `DsnText.SocketAddressLooks` | otelc/dsnparse/parse.go:317-333 | behind unix and a colon it ends at the last '/' before the first '?' |
| `DsnText.PlainNameLooks` | otelc/dsnparse/parse.go:289-302 | without parentheses everything up to the last '@' is dropped |
| `DsnMySql.FindAt` | otelc/dsnparse/parse.go:289-297 | the scan finds the last '@' before the first '(' |
| `DsnMySql.MySqlStripProtocol` | otelc/dsnparse/parse.go:356-382 | the loop over the digits computes the stripping function of those laws |
| `DsnLibpq.LibpqRoundTrip` | otelc/dsnparse/parse.go:224-277 | printed settings are read back as the last value of each key, with the defaults localhost and 5432 |
| `LibpqText.SettingLooks` | otelc/dsnparse/parse.go:227-275 | a setting without quotes, by its bytes: the value ends at the next space, tab or line end; a host loses its brackets; other keys set nothing |
| `LibpqText.QuotedSettingLooks` | otelc/dsnparse/parse.go:240-275 | a setting with quotes: any byte behind a backslash stands for itself, and the value ends at the first quote that is not escaped |
| `LibpqText.QuotedLooks` | otelc/dsnparse/parse.go:243-256 | so read, a value without a closing quote is all of the text, and a backslash at its end stands for itself |
| `LibpqText.EveryTextIsWritten` | otelc/dsnparse/parse.go:243-256 | every text is one of these forms |
| `LibpqText.RestIsIgnored` | otelc/dsnparse/parse.go:231-234 | text without an equals sign sets nothing |
| `LibpqText.NameLooks` | otelc/dsnparse/parse.go:224-277 | a name of a host, a port and a database, by its bytes |
| `DsnLibpq.SettingsAreRead` | otelc/dsnparse/parse.go:227-275 | reading printed settings applies them in order |
| `DsnLibpq.FrontIsRead` | otelc/dsnparse/parse.go:227-275 | printed settings in front of any other text are applied before that is read |
| `DsnLibpq.QuotedIsRead` | otelc/dsnparse/parse.go:240-257 | a quoted value with escapes is read back, and the text behind it is left |
| `DsnLibpq.BlanksBeforeValueIff` | otelc/dsnparse/parse.go:231-275 | blanks behind the equals sign of any setting of a name are harmless whatever settings follow exactly when there are none, or nothing is printed for the value, or the key is not recorded and the value's own text is a complete list of settings that changes nothing of what the settings in front have set |
| `DsnLibpq.BlanksIff` | otelc/dsnparse/parse.go:231-275 | the same behind any text, whatever was read before: the condition is on that and on the setting alone |
| `DsnLibpq.BlanksLose` | otelc/dsnparse/parse.go:231-265 | what blanks behind any setting's equals sign do to a value without one: it is lost, and the setting that follows with it |
| `DsnLibpq.BlankLosesDatabase` | otelc/dsnparse/parse.go:231-265 | a concrete name, `port= '' dbname=x`, from which the database is lost |
| `DsnLibpq.BlankOverwritesHost` | otelc/dsnparse/parse.go:231-275 | a concrete name, `host=h o= host=localhost`, whose host is overwritten by the value of another key |
| `DsnLibpq.BlanksAreHarmless` | otelc/dsnparse/parse.go:258-265 | with no blanks, or a value printed as nothing, everything is read as printed, whatever was read before |
| `DsnLibpq.CompleteIsRead` | otelc/dsnparse/parse.go:231-275 | text that is a complete list of settings is read before whatever follows it, so reading is composed of both |
| `DsnLibpq.IncompleteLoses` | otelc/dsnparse/parse.go:231-265 | after text with something left over, one of two database names is not read |
| `DsnLibpq.ParseLibpq` | otelc/dsnparse/parse.go:224-277 | the nested loops end on every input and compute the reading function |
| `DsnLibpq.ParseQuoted` | otelc/dsnparse/parse.go:243-256 | the inner loop over a quoted value |
| `DeltaHistogram.ConservedIff` | skywalking/plugins/runtimemetrics/runtimemetrics.go:202-214 | a tracked bucket passes on exactly the largest cumulative count sampled for it if and only if its index is below the number of tracked boundaries or that count is zero |
| `DeltaHistogram.BucketFollowsMaximum` | skywalking/plugins/runtimemetrics/runtimemetrics.go:209-213 | for the buckets that are reached the total passed on is the running maximum |
| `DeltaHistogram.SampleLooks` | skywalking/plugins/runtimemetrics/runtimemetrics.go:202-214 | one bucket of one sample: its boundary times the multiple with the growth of its count, where that grew, and nothing outside the reached indices |
| `DeltaHistogram.ValuesAscend` | skywalking/plugins/runtimemetrics/runtimemetrics.go:202-214 | with ascending boundaries the values observed of a sample ascend |
| `DeltaHistogram.LayoutsAddUp` | skywalking/plugins/runtimemetrics/runtimemetrics.go:225-239 | number and boundaries of the new histogram are those of the boundaries one by one, in order |
| `DeltaHistogram.MaxIsLargest` | skywalking/plugins/runtimemetrics/runtimemetrics.go:209-213 | the maximum is the largest sampled count |
| `DeltaHistogram.TotalIsSumOfMaxima` | skywalking/plugins/runtimemetrics/runtimemetrics.go:202-214 | over a whole run the counts observed add up to the largest counts of exactly the buckets from the start index up to the number of tracked boundaries |
| `DeltaHistogram.Replay` | skywalking/plugins/runtimemetrics/runtimemetrics.go:186-215 | feeding samples to a new meter object leaves the state and the observations that the laws over runs are about |
| `DeltaHistogram.CumulativeMaximum` | skywalking/plugins/runtimemetrics/runtimemetrics.go:209-213 | for counts that never decrease that is the latest count |
| `DeltaHistogram.PassedOnModulo` | skywalking/plugins/runtimemetrics/runtimemetrics.go:209-213 | for any 64-bit counts the total agrees with the latest count kept modulo 2 to the 64 |
| `DeltaHistogram.LastBucketIsLost` | skywalking/plugins/runtimemetrics/runtimemetrics.go:225-242 | a layout with an infinite first boundary whose last bucket is never passed on |
| `DeltaHistogram.Meter.InitHistogramIfNeeds` | skywalking/plugins/runtimemetrics/runtimemetrics.go:217-243 | the start index is the number of leading untracked boundaries, there is a zero per tracked one, and the new histogram's boundaries are the tracked ones scaled |
| `DeltaHistogram.Meter.UpdateMetricValue` | skywalking/plugins/runtimemetrics/runtimemetrics.go:186-215 | one sample: the new latest counts and what is passed on, bucket by bucket |
| `DeltaHistogram.Meter.Emit` | skywalking/plugins/runtimemetrics/runtimemetrics.go:202-214 | the loop with every index in range |
| `DeltaHistogram.ToInt64` | skywalking/plugins/runtimemetrics/runtimemetrics.go:209-210 | the conversion keeps the value modulo 2 to the 64 and is exact in the signed range |
| `ConfigCache.AnswersAreUncached` | otelc/hooksupport/hooksupport.go:60-89 | however calls interleave with each other and with changes of the environment, every answer is the uncached decision from the values the call read |
| `ConfigCache.QuietAnswer` | otelc/hooksupport/hooksupport.go:60-89 | a call during which the environment does not change answers by the current values |
| `ConfigCache.AloneAnswers` | otelc/hooksupport/hooksupport.go:60-89 | from every reachable state, whatever the variables are set to, a call that nothing comes between answers by these values and leaves their cache, using the one in place exactly when it is theirs |
| `ConfigText.DecisionIff` | otelc/hooksupport/hooksupport.go:47-89 | the decision on the texts: off for true in any mixture of cases; otherwise on exactly when the enabling list names it or names nothing and the disabling list does not, a name being what stands between commas, in small letters and trimmed |
| `ConfigText.TrueDisablesAll` | otelc/hooksupport/hooksupport.go:91-97 | exactly the mixtures of cases of true switch everything off |
| `ConfigCache.StepKeeps` | otelc/hooksupport/hooksupport.go:65-70 | every stored or used cache is the one built from the strings it names |
| `ConfigCache.BuiltAnswers` | otelc/hooksupport/hooksupport.go:72-88 | a built cache answers as the variables decide |
| `ConfigCache.DocumentedIff` | otelc/hooksupport/hooksupport.go:55-59 | the code keeps its comment exactly when the enabling list is unset or names something, or the answer is no for another reason |
| `ConfigCache.CommaEnablesAll` | otelc/hooksupport/hooksupport.go:55-59 | a concrete input against the comment: a list that is a single comma is set and enables everything |
| `ConfigCache.Config.Instrumented` | otelc/hooksupport/hooksupport.go:60-89 | one call: the uncached decision, leaving the cache of the current values |
| `ConfigCache.BuildConfigCache` | otelc/hooksupport/hooksupport.go:91-115 | the cache built by the loops |
| `ConfigCache.ParseInstrumentationList` | otelc/hooksupport/hooksupport.go:118-127 | the non-empty trimmed parts, in order |

## Left out

- GlsRuntime.Goroutines.Create: covers spans with valid contexts; a span with an invalid context gets an unshared flag by design, so End elsewhere cannot reach it, and is not modelled.
- GlsRuntime.Goroutines.End: covers spans with valid contexts, for the same reason.
- GlsList.TraceContext.Compact: the flags are loaded at one moment, and so are those of a trim. `GlsStack.CompactionOverTime` and `GlsStack.TrimOverTime` say what holds when flags are set during the walk: a wrapper whose flag is set after its load stays stacked as an ended one, and live spans and admission are as stated there.
- GlsList.TraceContext.Clear: the baggage slot that is reset with it is not modelled, nor is the propagation of baggage to new goroutines.
- GlsRuntime.Goroutines.Clear: the baggage slot, likewise.
- The accessors GetTraceContext, GetTraceAndSpanID and localRootSpan, which format or return what the lookup and the recorded root already determine.
- Reading the two limits from the environment: they are positive parameters.
- StreamReader.StreamingReader.ProcessChunk: JSON decoding is a function parameter from payload bytes to an optional record; the chat and completion forms differ only in that decoding.
- StreamReader.StreamingReader.Finalize: the attribute with the time of the first token is not modelled.
- StreamReader.StreamingReader.Read: the wrapped body's bytes and error are parameters, the error being one of end of file, a wrapped end of file, or another; time of the first token is not modelled.
- SpanCanon.CanonSpanTree: the parts a span keeps (attributes, events, links, kind, names, status) are given as canonical values and the health mark as a flag; sorting attributes and masking ports inside them is not modelled. Span ids are unique within a trace.
- SpanCanon.Serialize: building a node's own parts, likewise.
- CanonicalJson.DumpDetermines: numbers are integers; attribute values enter the canonical form as text, so it holds no others.
- TraceGroups.LoadGroups: attributes of the spans and the list of raw segments per group are not modelled; a reference always names a segment and a span.
- AmqpProtocol.StepKeeps: every delivery of the protocol has a channel; one without is covered by the objects of AmqpSettlement.
- AmqpProtocol.ChannelSettlesAsAskedIff: counts the deliveries whose span has been started; one that the wrapper has not received yet has no span to end.
- AmqpSettlement.WrapDeliveries: settlements happen between two deliveries; free interleaving with other goroutines is the subject of AmqpCalls.
- AmqpSettlement.SettlingAcknowledger.Ack: the inner acknowledger is given by parameters: whether it is there, what it returns, and whether the channel's own hook runs in it.
- DsnMySql.MySqlPlainRoundTripIff: names with a '(', or an '@' behind the credentials, are the subject of ParenthesisCounts, OpenParenthesisReadsNothing and LastAtCuts; that the cut name may by chance read the same is not worked out.
- DsnAddress.AddrRoundTripIff: the port is reported as text; its conversion to a number is not modelled. Joining and splitting are specified after the Go library.
- URL forms of data source names, the SQL Server, SQLite, ClickHouse and Oracle name parsers around the modelled splitter, and the parser registry.
- DeltaHistogram.Meter.UpdateMetricValue: boundaries are real numbers or infinities, so rounding and not-a-number are not modelled; gauges and combined metrics are left out.
- ConfigCache.Config.Instrumented: lower-casing is a function parameter that keeps empty text empty.
- Exporters, signal handling, the other plugins, logging, attribute building, metric and log comparison, and the runners: wiring with little state of its own.
