/** Values handled by the goroutine-local span stack, and the effect of each of
    its list operations as a function on the stack's contents (top first). */
module GlsStack {
  import opened Common

  /** The two identifiers of a span context; zero is the invalid identifier. */
  datatype SpanKey = SpanKey(traceId: nat, spanId: nat) {
    predicate IsValid() { traceId != 0 && spanId != 0 }
  }

  /** A span object. Different objects may carry the same identifiers. */
  datatype Span = Span(key: SpanKey, object: nat)

  /** One stacked wrapper: a span, the identity of its shared ended flag, and
      whether it was put at the bottom of a new goroutine's stack by `Clone`. */
  datatype Entry<F> = Entry(span: Span, flag: F, cloned: bool)

  /** A goroutine's stack (top first) and its recorded local root span. */
  datatype Context<F> = Context(entries: seq<Entry<F>>, lcs: Option<Span>)

  function Empty<F>(): Context<F> { Context([], None) }

  function Bottom<F>(entries: seq<Entry<F>>): Option<Span> {
    if entries == [] then None else Some(entries[|entries| - 1].span)
  }

  /** The recorded root is the span of the bottom wrapper, or nil; over a
      non-empty stack it is nil only above a cloned bottom wrapper. */
  predicate RootIsBottom<F>(c: Context<F>) {
    c.lcs == Bottom(c.entries) || (c.lcs == None && c.entries[|c.entries| - 1].cloned)
  }

  /** The wrappers whose flag is not set, in order. */
  function Live<F(==)>(entries: seq<Entry<F>>, ended: set<F>): seq<Entry<F>> {
    if entries == [] then []
    else if entries[0].flag in ended then Live(entries[1..], ended)
    else [entries[0]] + Live(entries[1..], ended)
  }

  /** The spans of the live wrappers, in order. */
  function LiveSpans<F(==)>(entries: seq<Entry<F>>, ended: set<F>): seq<Span> {
    if entries == [] then []
    else if entries[0].flag in ended then LiveSpans(entries[1..], ended)
    else [entries[0].span] + LiveSpans(entries[1..], ended)
  }

  /** What is left once the ended wrappers on top are popped. */
  function Trimmed<F(==)>(entries: seq<Entry<F>>, ended: set<F>): seq<Entry<F>> {
    if entries != [] && entries[0].flag in ended then Trimmed(entries[1..], ended) else entries
  }

  /** Position of the topmost wrapper of `key`, or the length when there is none. */
  function Find<F>(entries: seq<Entry<F>>, key: SpanKey): (i: nat)
    ensures i <= |entries|
    ensures i < |entries| ==> entries[i].span.key == key
    ensures forall j :: 0 <= j < i ==> entries[j].span.key != key
  {
    if entries == [] || entries[0].span.key == key then 0 else 1 + Find(entries[1..], key)
  }

  function RemoveAt<T>(s: seq<T>, i: nat): (r: seq<T>)
    requires i < |s|
  {
    s[..i] + s[i + 1..]
  }

  // ---- the operations ----

  function TailOf<F(==)>(c: Context<F>, ended: set<F>): Context<F> {
    var entries := Trimmed(c.entries, ended);
    Context(entries, if entries == [] then None else c.lcs)
  }

  function Top<F>(c: Context<F>): Option<Span> {
    if c.entries == [] then None else Some(c.entries[0].span)
  }

  function CompactOf<F(==)>(c: Context<F>, ended: set<F>): Context<F> {
    var entries := Live(c.entries, ended);
    Context(entries, Bottom(entries))
  }

  /** The stack once room was made for a new span, when it was full. */
  function RoomOf<F(==)>(c: Context<F>, ended: set<F>, maxSpans: nat): Context<F> {
    if |c.entries| >= maxSpans then CompactOf(c, ended) else c
  }

  function PushOf<F>(c: Context<F>, span: Span, flag: F): Context<F> {
    Context([Entry(span, flag, false)] + c.entries, if c.entries == [] then Some(span) else c.lcs)
  }

  function DelOf<F>(c: Context<F>, key: SpanKey): Context<F> {
    var i := Find(c.entries, key);
    if i == |c.entries| then c
    else
      var entries := RemoveAt(c.entries, i);
      Context(entries, if i == |entries| then Bottom(entries) else c.lcs)
  }

  /** `del` also sets the flag of the wrapper it unlinks. */
  function EndedByDel<F>(c: Context<F>, ended: set<F>, key: SpanKey): set<F> {
    var i := Find(c.entries, key);
    if i == |c.entries| then ended else ended + {c.entries[i].flag}
  }

  /** The context a new goroutine starts with; `c` has just been trimmed. */
  function CloneOf<F>(c: Context<F>): Context<F> {
    if c.entries == [] then Empty() else Context([c.entries[0].(cloned := true)], None)
  }

  // ---- their laws ----

  lemma {:induction false} LiveConcat<F>(a: seq<Entry<F>>, b: seq<Entry<F>>, ended: set<F>)
    ensures Live(a + b, ended) == Live(a, ended) + Live(b, ended)
    ensures LiveSpans(a + b, ended) == LiveSpans(a, ended) + LiveSpans(b, ended)
  {
    if a == [] {
      assert a + b == b;
    } else {
      assert (a + b)[1..] == a[1..] + b;
      LiveConcat(a[1..], b, ended);
    }
  }

  /** Popping ended wrappers, or dropping all of them, changes no live span. */
  lemma {:induction false} LiveSpansAfterTrim<F>(entries: seq<Entry<F>>, ended: set<F>)
    ensures LiveSpans(Trimmed(entries, ended), ended) == LiveSpans(entries, ended)
    ensures |Trimmed(entries, ended)| <= |entries|
    ensures Trimmed(entries, ended) == entries[|entries| - |Trimmed(entries, ended)|..]
    ensures var t := Trimmed(entries, ended); t != [] ==> t[0].flag !in ended
    ensures forall e :: e in Trimmed(entries, ended) ==> e in entries
    ensures forall e :: e in entries && e.flag !in ended ==> e in Trimmed(entries, ended)
  {
    if entries != [] && entries[0].flag in ended {
      LiveSpansAfterTrim(entries[1..], ended);
      var t := Trimmed(entries, ended);
      assert entries[1..][|entries[1..]| - |t|..] == entries[|entries| - |t|..];
    }
  }

  /** `tail` pops exactly the ended wrappers above the innermost live one, whose span it reports;
      the recorded root is forgotten when none is left and kept otherwise. */
  lemma TailPopsEnded<F>(c: Context<F>, ended: set<F>, k: nat)
    requires k <= |c.entries| && (forall i :: 0 <= i < k ==> c.entries[i].flag in ended)
    requires k < |c.entries| ==> c.entries[k].flag !in ended
    ensures var t := TailOf(c, ended);
      && t == Context(c.entries[k..], if k < |c.entries| then c.lcs else None)
      && Top(t) == if k < |c.entries| then Some(c.entries[k].span) else None
  {
    LiveSpansAfterTrim(c.entries, ended);
    var j := |c.entries| - |TailOf(c, ended).entries|;
    TrimmedAreEnded(c.entries, ended);
    assert c.entries[j..] == TailOf(c, ended).entries;
    assert j < |c.entries| ==> c.entries[j..][0] == c.entries[j];
  }

  lemma {:induction false} TrimmedAreEnded<F>(entries: seq<Entry<F>>, ended: set<F>)
    ensures |Trimmed(entries, ended)| <= |entries|
    ensures forall i :: 0 <= i < |entries| - |Trimmed(entries, ended)| ==> entries[i].flag in ended
  {
    if entries != [] && entries[0].flag in ended {
      TrimmedAreEnded(entries[1..], ended);
      assert forall i :: 0 < i < |entries| ==> entries[i] == entries[1..][i - 1];
    }
  }

  /** `del` unlinks exactly the topmost wrapper of the key and sets its flag; the recorded root is
      found anew when that was the bottom wrapper, and kept otherwise. */
  lemma DelUnlinksTopmost<F>(c: Context<F>, ended: set<F>, key: SpanKey, k: nat)
    requires k <= |c.entries| && (forall i :: 0 <= i < k ==> c.entries[i].span.key != key)
    requires k < |c.entries| ==> c.entries[k].span.key == key
    ensures k == |c.entries| ==> DelOf(c, key) == c && EndedByDel(c, ended, key) == ended
    ensures k < |c.entries| ==>
      && DelOf(c, key).entries == c.entries[..k] + c.entries[k + 1..]
      && DelOf(c, key).lcs == (if k + 1 < |c.entries| then c.lcs else if k == 0 then None else Some(c.entries[k - 1].span))
      && EndedByDel(c, ended, key) == ended + {c.entries[k].flag}
  {
    assert Find(c.entries, key) == k;
  }

  /** `Clone` starts a stack of the wrapper on top alone, without a recorded root. */
  lemma CloneHoldsTop<F>(c: Context<F>)
    ensures |CloneOf(c).entries| == (if c.entries == [] then 0 else 1) && CloneOf(c).lcs == None
    ensures c.entries != [] ==> CloneOf(c).entries[0].span == c.entries[0].span && CloneOf(c).entries[0].flag == c.entries[0].flag
  {
  }

  lemma {:induction false} LiveSpansAfterCompact<F>(entries: seq<Entry<F>>, ended: set<F>)
    ensures LiveSpans(Live(entries, ended), ended) == LiveSpans(entries, ended)
    ensures |Live(entries, ended)| == |LiveSpans(entries, ended)| <= |entries|
    ensures forall e :: e in Live(entries, ended) ==> e in entries && e.flag !in ended
  {
    if entries != [] {
      LiveSpansAfterCompact(entries[1..], ended);
      assert entries == [entries[0]] + entries[1..];
    }
  }

  /** Making room keeps only wrappers of the stack, and all live ones; the stack
      then has room exactly when fewer than `maxSpans` of its spans are live. */
  lemma RoomKeepsLive<F>(c: Context<F>, ended: set<F>, maxSpans: nat)
    ensures var r := RoomOf(c, ended, maxSpans);
      && LiveSpans(r.entries, ended) == LiveSpans(c.entries, ended)
      && |r.entries| <= |c.entries|
      && (forall e :: e in r.entries ==> e in c.entries)
      && (|r.entries| < maxSpans <==> |LiveSpans(c.entries, ended)| < maxSpans)
  {
    LiveSpansAfterCompact(c.entries, ended);
  }

  /** Removing one wrapper that has already ended changes no live wrapper. */
  lemma LiveAfterRemovingEnded<F>(entries: seq<Entry<F>>, i: nat, ended: set<F>)
    requires i < |entries| && entries[i].flag in ended
    ensures Live(RemoveAt(entries, i), ended) == Live(entries, ended)
    ensures LiveSpans(RemoveAt(entries, i), ended) == LiveSpans(entries, ended)
  {
    var a, b := entries[..i], entries[i + 1..];
    assert entries == a + ([entries[i]] + b);
    LiveConcat(a, b, ended);
    LiveConcat(a, [entries[i]] + b, ended);
    assert ([entries[i]] + b)[1..] == b;
  }

  /** Every operation keeps the recorded root nil or equal to the bottom span. */
  lemma RootStaysBottom<F>(c: Context<F>, ended: set<F>, maxSpans: nat)
    requires RootIsBottom(c)
    ensures RootIsBottom(TailOf(c, ended))
    ensures RootIsBottom(CompactOf(c, ended))
    ensures RootIsBottom(RoomOf(c, ended, maxSpans))
  {
    LiveSpansAfterTrim(c.entries, ended);
  }

  lemma RootStaysBottomAfterDel<F>(c: Context<F>, key: SpanKey)
    requires RootIsBottom(c)
    ensures RootIsBottom(DelOf(c, key))
  {
    var i := Find(c.entries, key);
    if i < |c.entries| {
      var entries := RemoveAt(c.entries, i);
      assert i < |entries| ==> entries[|entries| - 1] == c.entries[|c.entries| - 1];
    }
  }

  // ---- flags loaded one after the other ----

  /** Flags are never cleared: what a later load sees as set includes what an earlier one saw. */
  ghost predicate Growing<F>(ended: seq<set<F>>) {
    forall i, j :: 0 <= i <= j < |ended| ==> ended[i] <= ended[j]
  }

  /** Compaction when the i-th wrapper's flag is loaded while `ended[i]` are the set ones. */
  function LoadedLive<F(==)>(entries: seq<Entry<F>>, ended: seq<set<F>>): seq<Entry<F>>
    requires |ended| == |entries|
  {
    if entries == [] then []
    else (if entries[0].flag in ended[0] then [] else [entries[0]]) + LoadedLive(entries[1..], ended[1..])
  }

  lemma {:induction false} LoadedLiveSpans<F>(entries: seq<Entry<F>>, ended: seq<set<F>>, last: set<F>)
    requires |ended| == |entries| && forall i :: 0 <= i < |ended| ==> ended[i] <= last
    ensures LiveSpans(LoadedLive(entries, ended), last) == LiveSpans(entries, last)
    ensures |LoadedLive(entries, ended)| <= |entries|
    decreases |entries|
  {
    if entries != [] {
      LoadedLiveSpans(entries[1..], ended[1..], last);
      var rest := LoadedLive(entries[1..], ended[1..]);
      assert ([entries[0]] + rest)[1..] == rest;
      assert ended[0] <= last;
      if entries[0].flag in ended[0] {
        assert LoadedLive(entries, ended) == rest;
      } else {
        assert LoadedLive(entries, ended) == [entries[0]] + rest;
      }
    }
  }

  lemma {:induction false} NoneDropped<F>(entries: seq<Entry<F>>, ended: seq<set<F>>, i: nat)
    requires |ended| == |entries| && |LoadedLive(entries, ended)| == |entries| && i < |entries|
    ensures entries[i].flag !in ended[i]
    decreases |entries|
  {
    LoadedLiveSpans(entries[1..], ended[1..], AllSets(ended[1..]));
    if i > 0 { NoneDropped(entries[1..], ended[1..], i - 1); }
  }

  ghost function AllSets<F>(ended: seq<set<F>>): (all: set<F>)
    ensures forall i :: 0 <= i < |ended| ==> ended[i] <= all
  {
    if ended == [] then {} else ended[0] + AllSets(ended[1..])
  }

  lemma {:induction false} SomeDropped<F>(entries: seq<Entry<F>>, ended: seq<set<F>>) returns (i: nat)
    requires |ended| == |entries| && |LoadedLive(entries, ended)| < |entries|
    ensures i < |entries| && entries[i].flag in ended[i]
    decreases |entries|
  {
    i := 0;
    if entries[0].flag !in ended[0] {
      var j := SomeDropped(entries[1..], ended[1..]);
      i := j + 1;
    }
  }

  lemma {:induction false} LiveCount<F>(entries: seq<Entry<F>>, ended: set<F>)
    ensures |LiveSpans(entries, ended)| <= |entries|
    ensures |LiveSpans(entries, ended)| == |entries| <==> forall i :: 0 <= i < |entries| ==> entries[i].flag !in ended
    decreases |entries|
  {
    if entries != [] {
      LiveCount(entries[1..], ended);
      assert forall i :: 1 <= i < |entries| ==> entries[1..][i - 1] == entries[i];
    }
  }

  /** Compaction of a full stack while other goroutines set flags: the live spans are kept, and
      the admission that follows is the right one at the first load when it refuses, and at the
      last when it admits. */
  lemma CompactionOverTime<F>(entries: seq<Entry<F>>, ended: seq<set<F>>)
    requires entries != [] && |ended| == |entries| && Growing(ended)
    ensures var kept, first, last := LoadedLive(entries, ended), ended[0], ended[|ended| - 1];
      && LiveSpans(kept, last) == LiveSpans(entries, last)
      && (|kept| == |entries| ==> |LiveSpans(entries, first)| == |entries|)
      && (|kept| < |entries| ==> |LiveSpans(entries, last)| < |entries|)
  {
    var first, last := ended[0], ended[|ended| - 1];
    assert forall i :: 0 <= i < |ended| ==> ended[0] <= ended[i] && ended[i] <= ended[|ended| - 1];
    LoadedLiveSpans(entries, ended, last);
    LiveCount(entries, first);
    LiveCount(entries, last);
    if |LoadedLive(entries, ended)| == |entries| {
      forall i | 0 <= i < |entries|
        ensures entries[i].flag !in first
      {
        NoneDropped(entries, ended, i);
      }
    } else {
      var i := SomeDropped(entries, ended);
    }
  }

  /** Trimming when the i-th wrapper's flag is loaded while `ended[i]` are the set ones. */
  function LoadedTrim<F(==)>(entries: seq<Entry<F>>, ended: seq<set<F>>): seq<Entry<F>>
    requires |ended| == |entries|
  {
    if entries != [] && entries[0].flag in ended[0] then LoadedTrim(entries[1..], ended[1..]) else entries
  }

  /** Trimming while other goroutines set flags is trimming at the moment of its last load. */
  lemma {:induction false} TrimOverTime<F>(entries: seq<Entry<F>>, ended: seq<set<F>>) returns (k: nat)
    requires entries != [] && |ended| == |entries| && Growing(ended)
    ensures k < |ended| && LoadedTrim(entries, ended) == Trimmed(entries, ended[k])
    decreases |entries|
  {
    k := 0;
    if entries[0].flag in ended[0] && |entries| > 1 {
      assert forall i, j :: 0 <= i <= j < |ended| - 1 ==> ended[1..][i] == ended[i + 1] && ended[1..][j] == ended[j + 1];
      var j := TrimOverTime(entries[1..], ended[1..]);
      k := j + 1;
      assert ended[1..][j] == ended[k] && ended[0] <= ended[k];
    }
  }
}
