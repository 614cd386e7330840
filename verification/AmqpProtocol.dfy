/** Settlement of AMQP deliveries as a protocol. Every step is one section under a
    lock, one call of `End`, or the arrival of a delivery; goroutines interleave freely. */
module AmqpProtocol {
  import opened Common

  type Span = nat
  type Tag = nat
  type Channel = nat
  type Consumer = nat

  /** A map of pending acknowledgers, by delivery tag. */
  type Acks = map<Tag, Span>

  // ---- one map ----

  predicate Matches(t: Tag, tag: Tag, multiple: bool) { if multiple then t <= tag else t == tag }

  function Left<V>(m: map<Tag, V>, tag: Tag, multiple: bool): map<Tag, V> {
    map t | t in m && !Matches(t, tag, multiple) :: m[t]
  }

  function TakenFrom<V>(m: map<Tag, V>, tag: Tag, multiple: bool): set<V> {
    set t | t in m && Matches(t, tag, multiple) :: m[t]
  }

  // ---- the system ----

  /** `consumer` is None for a message fetched with Get. */
  datatype Delivery = Delivery(tag: Tag, channel: Channel, consumer: Option<Consumer>, autoAck: bool)

  /** How far the start of a delivery span has come. */
  datatype Stage = Started | InLocal | Added | Auto

  datatype System = System(
    deliveries: map<Span, Delivery>,
    stage: map<Span, Stage>,
    locals: map<Consumer, Acks>,
    channels: map<Channel, Acks>,
    closed: set<Consumer>,
    taken: set<Span>,     // removed from some map in order to be ended
    done: set<Span>,      // those whose once has fired
    ends: map<Span, nat>)

  const EMPTY: System := System(map[], map[], map[], map[], {}, {}, {}, map[])

  function Of<K>(m: map<K, Acks>, k: K): Acks { if k in m then m[k] else map[] }

  datatype Op =
    | Receive(span: Span, delivery: Delivery)
    | AddLocal(span: Span)
    | AddChannel(span: Span)
    | SettleLocal(consumer: Consumer, tag: Tag, multiple: bool)
    | SettleChannel(channel: Channel, tag: Tag, multiple: bool)
    | EndAll(consumer: Consumer)
    | End(span: Span)

  /** Tags are positive and unique on their channel; a consumer has one channel; its
      goroutine drains the map when its last delivery was handed over. */
  predicate Enabled(sys: System, op: Op) {
    match op
    case Receive(s, d) =>
      && s !in sys.deliveries && d.tag >= 1
      && (forall r :: r in sys.deliveries && sys.deliveries[r].channel == d.channel ==> sys.deliveries[r].tag != d.tag)
      && (d.consumer.Some? ==>
            && d.consumer.value !in sys.closed
            && forall r :: r in sys.deliveries && sys.deliveries[r].consumer == d.consumer ==> sys.deliveries[r].channel == d.channel)
    case AddLocal(s) => s in sys.deliveries && s in sys.stage && sys.stage[s] == Started && sys.deliveries[s].consumer.Some?
    case AddChannel(s) =>
      && s in sys.deliveries && s in sys.stage
      && sys.stage[s] == if sys.deliveries[s].consumer.Some? then InLocal else Started
    case EndAll(c) =>
      forall r :: r in sys.deliveries && r in sys.stage && sys.deliveries[r].consumer == Some(c) ==> sys.stage[r] in {Added, Auto}
    case End(s) => s in sys.taken
    case _ => true
  }

  function Step(sys: System, op: Op): System
    requires Enabled(sys, op)
  {
    match op
    case Receive(s, d) =>
      sys.(deliveries := sys.deliveries[s := d], stage := sys.stage[s := if d.autoAck then Auto else Started],
           ends := sys.ends[s := if d.autoAck then 1 else 0])
    case AddLocal(s) =>
      var d := sys.deliveries[s];
      sys.(locals := sys.locals[d.consumer.value := Of(sys.locals, d.consumer.value)[d.tag := s]], stage := sys.stage[s := InLocal])
    case AddChannel(s) =>
      var d := sys.deliveries[s];
      sys.(channels := sys.channels[d.channel := Of(sys.channels, d.channel)[d.tag := s]], stage := sys.stage[s := Added])
    case SettleLocal(c, tag, multiple) =>
      var m := Of(sys.locals, c);
      sys.(locals := sys.locals[c := Left(m, tag, multiple)], taken := sys.taken + TakenFrom(m, tag, multiple))
    case SettleChannel(ch, tag, multiple) =>
      var m := Of(sys.channels, ch);
      sys.(channels := sys.channels[ch := Left(m, tag, multiple)], taken := sys.taken + TakenFrom(m, tag, multiple))
    case EndAll(c) =>
      sys.(locals := sys.locals[c := map[]], taken := sys.taken + Of(sys.locals, c).Values, closed := sys.closed + {c})
    case End(s) =>
      if s in sys.done then sys
      else sys.(done := sys.done + {s}, ends := sys.ends[s := (if s in sys.ends then sys.ends[s] else 0) + 1])
  }

  predicate Runnable(sys: System, ops: seq<Op>)
    decreases |ops|
  {
    ops == [] || (Enabled(sys, ops[0]) && Runnable(Step(sys, ops[0]), ops[1..]))
  }

  function Run(sys: System, ops: seq<Op>): System
    requires Runnable(sys, ops)
    decreases |ops|
  {
    if ops == [] then sys else Run(Step(sys, ops[0]), ops[1..])
  }

  // ---- the invariant ----

  predicate SameSpans(sys: System) {
    && (forall s :: s in sys.deliveries ==> s in sys.stage && s in sys.ends)
    && (forall s :: s in sys.stage ==> s in sys.deliveries)
    && (forall s :: s in sys.deliveries ==> (sys.stage[s] == Auto <==> sys.deliveries[s].autoAck))
    && (forall s :: s in sys.deliveries && sys.stage[s] == InLocal ==> sys.deliveries[s].consumer.Some?)
    && (forall s :: s in sys.deliveries ==> sys.deliveries[s].tag >= 1)
  }

  predicate TagsUnique(sys: System) {
    forall r, s :: r in sys.deliveries && s in sys.deliveries && r != s && sys.deliveries[r].channel == sys.deliveries[s].channel
                   ==> sys.deliveries[r].tag != sys.deliveries[s].tag
  }

  predicate OneChannelEach(sys: System) {
    forall r, s :: r in sys.deliveries && s in sys.deliveries
                   && sys.deliveries[r].consumer.Some? && sys.deliveries[r].consumer == sys.deliveries[s].consumer
                   ==> sys.deliveries[r].channel == sys.deliveries[s].channel
  }

  /** The span has been put in its consumer's map, or in its channel's. */
  predicate WentLocal(sys: System, s: Span) {
    s in sys.deliveries && s in sys.stage && sys.deliveries[s].consumer.Some? && sys.stage[s] in {InLocal, Added}
  }

  predicate WentChannel(sys: System, s: Span) {
    s in sys.deliveries && s in sys.stage && sys.stage[s] == Added
  }

  /** What a map holds belongs there. */
  predicate LocalsOk(sys: System) {
    forall c, t :: c in sys.locals && t in sys.locals[c] ==>
      var s := sys.locals[c][t];
      WentLocal(sys, s) && sys.deliveries[s].consumer == Some(c) && sys.deliveries[s].tag == t
  }

  predicate ChannelsOk(sys: System) {
    forall c, t :: c in sys.channels && t in sys.channels[c] ==>
      var s := sys.channels[c][t];
      WentChannel(sys, s) && sys.deliveries[s].channel == c && sys.deliveries[s].tag == t
  }

  predicate InLocalMap(sys: System, s: Span)
    requires WentLocal(sys, s)
  {
    var d := sys.deliveries[s];
    d.consumer.value in sys.locals && d.tag in sys.locals[d.consumer.value] && sys.locals[d.consumer.value][d.tag] == s
  }

  predicate InChannelMap(sys: System, s: Span)
    requires WentChannel(sys, s)
  {
    var d := sys.deliveries[s];
    d.channel in sys.channels && d.tag in sys.channels[d.channel] && sys.channels[d.channel][d.tag] == s
  }

  /** No span that is still to be ended is lost: it is in every map it was put in. */
  predicate PendingKept(sys: System) {
    && (forall s :: s in sys.deliveries && WentLocal(sys, s) && s !in sys.taken ==> InLocalMap(sys, s))
    && (forall s :: s in sys.deliveries && WentChannel(sys, s) && s !in sys.taken ==> InChannelMap(sys, s))
  }

  predicate EndsOk(sys: System) {
    && sys.done <= sys.taken
    && (forall s :: s in sys.taken ==> s in sys.deliveries && !sys.deliveries[s].autoAck)
    && (forall s :: s in sys.deliveries && s in sys.ends ==>
          sys.ends[s] == if sys.deliveries[s].autoAck || s in sys.done then 1 else 0)
  }

  predicate InClosed(sys: System, s: Span)
    requires s in sys.deliveries
  {
    var d := sys.deliveries[s];
    d.consumer.Some? && d.consumer.value in sys.closed && !d.autoAck
  }

  predicate ClosedOk(sys: System) {
    forall s :: s in sys.deliveries && InClosed(sys, s) ==> s in sys.taken
  }

  predicate Inv(sys: System) {
    && SameSpans(sys) && TagsUnique(sys) && OneChannelEach(sys)
    && LocalsOk(sys) && ChannelsOk(sys) && PendingKept(sys) && EndsOk(sys) && ClosedOk(sys)
  }

  // ---- every step keeps the invariant ----

  lemma ReceiveKeepsSpans(sys: System, s: Span, d: Delivery)
    requires SameSpans(sys) && Enabled(sys, Receive(s, d))
    ensures SameSpans(Step(sys, Receive(s, d)))
  {
  }

  lemma ReceiveKeepsTags(sys: System, s: Span, d: Delivery)
    requires TagsUnique(sys) && OneChannelEach(sys) && Enabled(sys, Receive(s, d))
    ensures var sys' := Step(sys, Receive(s, d)); TagsUnique(sys') && OneChannelEach(sys')
  {
  }

  /** Maps that stay as they are keep what they hold for the spans that went there. */
  lemma PendingStays(sys: System, sys': System)
    requires PendingKept(sys) && sys'.locals == sys.locals && sys'.channels == sys.channels && sys'.taken == sys.taken
    requires forall r :: WentLocal(sys', r) ==> WentLocal(sys, r) && sys'.deliveries[r] == sys.deliveries[r]
    requires forall r :: WentChannel(sys', r) ==> WentChannel(sys, r) && sys'.deliveries[r] == sys.deliveries[r]
    ensures PendingKept(sys')
  {
  }

  lemma ReceiveKeepsHeld(sys: System, s: Span, d: Delivery)
    requires Inv(sys) && Enabled(sys, Receive(s, d))
    ensures var sys' := Step(sys, Receive(s, d)); LocalsOk(sys') && ChannelsOk(sys')
  {
    hide ClosedOk, EndsOk, TagsUnique, OneChannelEach, PendingKept;
    var sys' := Step(sys, Receive(s, d));
    assert forall r :: WentLocal(sys, r) ==> WentLocal(sys', r);
    assert forall r :: WentChannel(sys, r) ==> WentChannel(sys', r);
  }

  lemma ReceiveKeepsPending(sys: System, s: Span, d: Delivery)
    requires PendingKept(sys) && Enabled(sys, Receive(s, d))
    ensures PendingKept(Step(sys, Receive(s, d)))
  {
    hide PendingKept;
    PendingStays(sys, Step(sys, Receive(s, d)));
  }

  lemma ReceiveKeepsEnds(sys: System, s: Span, d: Delivery)
    requires Inv(sys) && Enabled(sys, Receive(s, d))
    ensures var sys' := Step(sys, Receive(s, d)); EndsOk(sys') && ClosedOk(sys')
  {
    hide LocalsOk, ChannelsOk, PendingKept, TagsUnique, OneChannelEach;
  }

  lemma ReceiveKeeps(sys: System, s: Span, d: Delivery)
    requires Inv(sys) && Enabled(sys, Receive(s, d))
    ensures Inv(Step(sys, Receive(s, d)))
  {
    hide Step, Enabled, SameSpans, TagsUnique, OneChannelEach, LocalsOk, ChannelsOk, PendingKept, EndsOk, ClosedOk;
    ReceiveKeepsSpans(sys, s, d);
    ReceiveKeepsTags(sys, s, d);
    ReceiveKeepsHeld(sys, s, d);
    ReceiveKeepsPending(sys, s, d);
    ReceiveKeepsEnds(sys, s, d);
  }

  lemma AddLocalKeepsPlan(sys: System, s: Span)
    requires Inv(sys) && Enabled(sys, AddLocal(s))
    ensures var sys' := Step(sys, AddLocal(s)); SameSpans(sys') && TagsUnique(sys') && OneChannelEach(sys')
  {
    hide LocalsOk, ChannelsOk, PendingKept, EndsOk, ClosedOk;
  }

  lemma AddLocalKeepsHeld(sys: System, s: Span)
    requires Inv(sys) && Enabled(sys, AddLocal(s))
    ensures var sys' := Step(sys, AddLocal(s)); LocalsOk(sys') && ChannelsOk(sys')
  {
    hide ClosedOk, EndsOk, TagsUnique, OneChannelEach, PendingKept;
    var sys' := Step(sys, AddLocal(s));
    assert forall r :: WentLocal(sys, r) ==> WentLocal(sys', r);
    assert forall r :: WentChannel(sys, r) ==> WentChannel(sys', r);
  }

  lemma AddLocalKeepsPending(sys: System, s: Span)
    requires Inv(sys) && Enabled(sys, AddLocal(s))
    ensures var sys' := Step(sys, AddLocal(s)); PendingKept(sys')
  {
    hide ClosedOk, EndsOk, LocalsOk, ChannelsOk, PendingKept;
    var sys' := Step(sys, AddLocal(s));
    forall r | WentLocal(sys', r) && r !in sys'.taken
      ensures InLocalMap(sys', r)
    {
      if r != s { OtherStaysLocal(sys, s, r); }
    }
    forall r | WentChannel(sys', r) && r !in sys'.taken
      ensures InChannelMap(sys', r)
    {
      PendingIn(sys, r);
    }
    AllPending(sys');
  }

  lemma PendingIn(sys: System, r: Span)
    requires PendingKept(sys) && r !in sys.taken
    ensures (WentLocal(sys, r) ==> InLocalMap(sys, r)) && (WentChannel(sys, r) ==> InChannelMap(sys, r))
  {
  }

  lemma AllPending(sys: System)
    requires forall r :: WentLocal(sys, r) && r !in sys.taken ==> InLocalMap(sys, r)
    requires forall r :: WentChannel(sys, r) && r !in sys.taken ==> InChannelMap(sys, r)
    ensures PendingKept(sys)
  {
  }

  lemma OtherStaysLocal(sys: System, s: Span, r: Span)
    requires Inv(sys) && Enabled(sys, AddLocal(s)) && r != s
    requires var sys' := Step(sys, AddLocal(s)); WentLocal(sys', r) && r !in sys'.taken
    ensures InLocalMap(Step(sys, AddLocal(s)), r)
  {
    hide ClosedOk, EndsOk, LocalsOk, ChannelsOk, SameSpans, PendingKept;
    PendingIn(sys, r);
    assert sys.deliveries[r].consumer == sys.deliveries[s].consumer ==> sys.deliveries[r].tag != sys.deliveries[s].tag;
  }

  lemma AddLocalKeepsEnds(sys: System, s: Span)
    requires Inv(sys) && Enabled(sys, AddLocal(s))
    ensures var sys' := Step(sys, AddLocal(s)); EndsOk(sys') && ClosedOk(sys')
  {
    hide LocalsOk, ChannelsOk, PendingKept, TagsUnique, OneChannelEach;
  }

  lemma AddLocalKeeps(sys: System, s: Span)
    requires Inv(sys) && Enabled(sys, AddLocal(s))
    ensures Inv(Step(sys, AddLocal(s)))
  {
    hide Step, Enabled, SameSpans, TagsUnique, OneChannelEach, LocalsOk, ChannelsOk, PendingKept, EndsOk, ClosedOk;
    AddLocalKeepsPlan(sys, s);
    AddLocalKeepsHeld(sys, s);
    AddLocalKeepsPending(sys, s);
    AddLocalKeepsEnds(sys, s);
  }

  lemma AddChannelKeepsPlan(sys: System, s: Span)
    requires Inv(sys) && Enabled(sys, AddChannel(s))
    ensures var sys' := Step(sys, AddChannel(s)); SameSpans(sys') && TagsUnique(sys') && OneChannelEach(sys')
  {
    hide LocalsOk, ChannelsOk, PendingKept, EndsOk, ClosedOk;
  }

  lemma AddChannelKeepsHeld(sys: System, s: Span)
    requires Inv(sys) && Enabled(sys, AddChannel(s))
    ensures var sys' := Step(sys, AddChannel(s)); LocalsOk(sys') && ChannelsOk(sys')
  {
    hide ClosedOk, EndsOk, TagsUnique, OneChannelEach, PendingKept;
    var sys' := Step(sys, AddChannel(s));
    assert forall r :: WentLocal(sys, r) ==> WentLocal(sys', r);
    assert forall r :: WentChannel(sys, r) ==> WentChannel(sys', r);
  }

  lemma AddChannelKeepsPending(sys: System, s: Span)
    requires Inv(sys) && Enabled(sys, AddChannel(s))
    ensures var sys' := Step(sys, AddChannel(s)); PendingKept(sys')
  {
    hide ClosedOk, EndsOk, LocalsOk, ChannelsOk, OneChannelEach, PendingKept;
    var sys' := Step(sys, AddChannel(s));
    forall r | WentLocal(sys', r) && r !in sys'.taken
      ensures InLocalMap(sys', r)
    {
      PendingIn(sys, r);
    }
    forall r | WentChannel(sys', r) && r !in sys'.taken
      ensures InChannelMap(sys', r)
    {
      if r != s { OtherStaysChannel(sys, s, r); }
    }
    AllPending(sys');
  }

  lemma OtherStaysChannel(sys: System, s: Span, r: Span)
    requires Inv(sys) && Enabled(sys, AddChannel(s)) && r != s
    requires var sys' := Step(sys, AddChannel(s)); WentChannel(sys', r) && r !in sys'.taken
    ensures InChannelMap(Step(sys, AddChannel(s)), r)
  {
    hide ClosedOk, EndsOk, LocalsOk, ChannelsOk, SameSpans, PendingKept, OneChannelEach;
    PendingIn(sys, r);
    assert sys.deliveries[r].channel == sys.deliveries[s].channel ==> sys.deliveries[r].tag != sys.deliveries[s].tag;
  }

  lemma AddChannelKeepsEnds(sys: System, s: Span)
    requires Inv(sys) && Enabled(sys, AddChannel(s))
    ensures var sys' := Step(sys, AddChannel(s)); EndsOk(sys') && ClosedOk(sys')
  {
    hide LocalsOk, ChannelsOk, PendingKept, TagsUnique, OneChannelEach;
  }

  lemma AddChannelKeeps(sys: System, s: Span)
    requires Inv(sys) && Enabled(sys, AddChannel(s))
    ensures Inv(Step(sys, AddChannel(s)))
  {
    hide Step, Enabled, SameSpans, TagsUnique, OneChannelEach, LocalsOk, ChannelsOk, PendingKept, EndsOk, ClosedOk;
    AddChannelKeepsPlan(sys, s);
    AddChannelKeepsHeld(sys, s);
    AddChannelKeepsPending(sys, s);
    AddChannelKeepsEnds(sys, s);
  }

  /** A step that only takes spans out of the maps. */
  lemma TakingKeeps(sys: System, sys': System)
    requires Inv(sys)
    requires sys' == sys.(locals := sys'.locals, channels := sys'.channels, taken := sys'.taken, closed := sys'.closed)
    requires sys.taken <= sys'.taken
    requires forall s :: s in sys'.taken && s !in sys.taken ==> s in sys.deliveries && !sys.deliveries[s].autoAck
    requires forall c, t :: c in sys'.locals && t in sys'.locals[c] ==>
               c in sys.locals && t in sys.locals[c] && sys'.locals[c][t] == sys.locals[c][t]
    requires forall c, t :: c in sys'.channels && t in sys'.channels[c] ==>
               c in sys.channels && t in sys.channels[c] && sys'.channels[c][t] == sys.channels[c][t]
    requires forall s :: WentLocal(sys, s) && s !in sys'.taken && InLocalMap(sys, s) ==> InLocalMap(sys', s)
    requires forall s :: WentChannel(sys, s) && s !in sys'.taken && InChannelMap(sys, s) ==> InChannelMap(sys', s)
    requires ClosedOk(sys')
    ensures Inv(sys')
  {
    hide PendingKept, ClosedOk;
    assert forall r :: WentLocal(sys', r) <==> WentLocal(sys, r);
    assert forall r :: WentChannel(sys', r) <==> WentChannel(sys, r);
    forall r | WentLocal(sys', r) && r !in sys'.taken
      ensures InLocalMap(sys', r)
    {
      PendingIn(sys, r);
    }
    forall r | WentChannel(sys', r) && r !in sys'.taken
      ensures InChannelMap(sys', r)
    {
      PendingIn(sys, r);
    }
    AllPending(sys');
    PlanStays(sys, sys');
    hide SameSpans, TagsUnique, OneChannelEach, InLocalMap, InChannelMap;
  }

  /** The spans and their deliveries stay as they are. */
  lemma PlanStays(sys: System, sys': System)
    requires SameSpans(sys) && TagsUnique(sys) && OneChannelEach(sys)
    requires sys'.deliveries == sys.deliveries && sys'.stage == sys.stage
    requires forall s :: s in sys.ends ==> s in sys'.ends
    ensures SameSpans(sys') && TagsUnique(sys') && OneChannelEach(sys')
  {
  }

  lemma StaysClosed(sys: System, sys': System)
    requires ClosedOk(sys) && sys'.deliveries == sys.deliveries && sys'.closed == sys.closed && sys.taken <= sys'.taken
    ensures ClosedOk(sys')
  {
    assert forall s :: s in sys'.deliveries && InClosed(sys', s) ==> InClosed(sys, s);
  }

  lemma HeldIsPlain(sys: System)
    requires Inv(sys)
    ensures forall c, t :: c in sys.locals && t in sys.locals[c] ==>
              sys.locals[c][t] in sys.deliveries && !sys.deliveries[sys.locals[c][t]].autoAck
    ensures forall c, t :: c in sys.channels && t in sys.channels[c] ==>
              sys.channels[c][t] in sys.deliveries && !sys.deliveries[sys.channels[c][t]].autoAck
  {
    hide TagsUnique, OneChannelEach, PendingKept, EndsOk, ClosedOk;
  }

  lemma SettleLocalKeeps(sys: System, c: Consumer, tag: Tag, multiple: bool)
    requires Inv(sys)
    ensures Inv(Step(sys, SettleLocal(c, tag, multiple)))
  {
    hide SameSpans, TagsUnique, OneChannelEach, LocalsOk, ChannelsOk, PendingKept, EndsOk, ClosedOk;
    var sys' := Step(sys, SettleLocal(c, tag, multiple));
    HeldIsPlain(sys);
    StaysClosed(sys, sys');
    forall s | WentLocal(sys, s) && s !in sys'.taken && InLocalMap(sys, s)
      ensures InLocalMap(sys', s)
    {
      var d := sys.deliveries[s];
      if d.consumer.value == c { assert d.tag in Left(sys.locals[c], tag, multiple); }
    }
    TakingKeeps(sys, sys');
  }

  lemma SettleChannelKeeps(sys: System, c: Channel, tag: Tag, multiple: bool)
    requires Inv(sys)
    ensures Inv(Step(sys, SettleChannel(c, tag, multiple)))
  {
    hide SameSpans, TagsUnique, OneChannelEach, LocalsOk, ChannelsOk, PendingKept, EndsOk, ClosedOk;
    var sys' := Step(sys, SettleChannel(c, tag, multiple));
    HeldIsPlain(sys);
    StaysClosed(sys, sys');
    forall s | WentChannel(sys, s) && s !in sys'.taken && InChannelMap(sys, s)
      ensures InChannelMap(sys', s)
    {
      var d := sys.deliveries[s];
      if d.channel == c { assert d.tag in Left(sys.channels[c], tag, multiple); }
    }
    TakingKeeps(sys, sys');
  }

  lemma EndAllKeeps(sys: System, c: Consumer)
    requires Inv(sys) && Enabled(sys, EndAll(c))
    ensures Inv(Step(sys, EndAll(c)))
  {
    hide TagsUnique, OneChannelEach;
    var sys' := Step(sys, EndAll(c));
    forall s | s in sys'.taken && s !in sys.taken
      ensures s in sys.deliveries && !sys.deliveries[s].autoAck
    {
      var t :| t in Of(sys.locals, c) && Of(sys.locals, c)[t] == s;
      assert WentLocal(sys, sys.locals[c][t]);
    }
    forall s | s in sys.deliveries && sys.deliveries[s].consumer == Some(c) && !sys.deliveries[s].autoAck
      ensures s in sys'.taken
    {
      assert WentLocal(sys, s);
      if s !in sys.taken {
        assert InLocalMap(sys, s);
      }
    }
    assert ClosedOk(sys');
    TakingKeeps(sys, sys');
  }

  lemma EndKeepsPlan(sys: System, s: Span)
    requires SameSpans(sys) && TagsUnique(sys) && OneChannelEach(sys) && Enabled(sys, End(s))
    ensures var sys' := Step(sys, End(s)); SameSpans(sys') && TagsUnique(sys') && OneChannelEach(sys')
  {
    hide SameSpans, TagsUnique, OneChannelEach;
    PlanStays(sys, Step(sys, End(s)));
  }

  lemma EndKeepsMaps(sys: System, s: Span)
    requires LocalsOk(sys) && ChannelsOk(sys) && PendingKept(sys) && Enabled(sys, End(s))
    ensures var sys' := Step(sys, End(s)); LocalsOk(sys') && ChannelsOk(sys') && PendingKept(sys')
  {
    hide PendingKept;
    var sys' := Step(sys, End(s));
    PendingStays(sys, sys');
    assert forall r :: WentLocal(sys, r) ==> WentLocal(sys', r);
    assert forall r :: WentChannel(sys, r) ==> WentChannel(sys', r);
  }

  lemma EndKeepsEnds(sys: System, s: Span)
    requires Inv(sys) && Enabled(sys, End(s))
    ensures var sys' := Step(sys, End(s)); EndsOk(sys') && ClosedOk(sys')
  {
    hide LocalsOk, ChannelsOk, PendingKept, TagsUnique, OneChannelEach;
  }

  lemma EndKeeps(sys: System, s: Span)
    requires Inv(sys) && Enabled(sys, End(s))
    ensures Inv(Step(sys, End(s)))
  {
    hide Step, Enabled, SameSpans, TagsUnique, OneChannelEach, LocalsOk, ChannelsOk, PendingKept, EndsOk, ClosedOk;
    EndKeepsPlan(sys, s);
    EndKeepsMaps(sys, s);
    EndKeepsEnds(sys, s);
  }

  lemma StepKeeps(sys: System, op: Op)
    requires Inv(sys) && Enabled(sys, op)
    ensures Inv(Step(sys, op))
    ensures sys.taken <= Step(sys, op).taken && sys.done <= Step(sys, op).done
  {
    hide Inv;
    match op
    case Receive(s, d) => ReceiveKeeps(sys, s, d);
    case AddLocal(s) => AddLocalKeeps(sys, s);
    case AddChannel(s) => AddChannelKeeps(sys, s);
    case SettleLocal(c, tag, multiple) => SettleLocalKeeps(sys, c, tag, multiple);
    case SettleChannel(c, tag, multiple) => SettleChannelKeeps(sys, c, tag, multiple);
    case EndAll(c) => EndAllKeeps(sys, c);
    case End(s) => EndKeeps(sys, s);
  }

  lemma {:induction false} RunKeeps(sys: System, ops: seq<Op>)
    requires Inv(sys) && Runnable(sys, ops)
    ensures Inv(Run(sys, ops))
    ensures sys.taken <= Run(sys, ops).taken && sys.done <= Run(sys, ops).done
    decreases |ops|
  {
    hide Inv, Step, Enabled;
    if ops != [] {
      StepKeeps(sys, ops[0]);
      RunKeeps(Step(sys, ops[0]), ops[1..]);
    }
  }

  lemma EmptyIsInv()
    ensures Inv(EMPTY)
  {
  }

  // ---- what the protocol guarantees ----

  /** In every run each delivery span is ended at most once: exactly once for an
      auto-acknowledged delivery or when its `End` was called, and otherwise not yet. */
  lemma EndsAtMostOnce(ops: seq<Op>)
    requires Runnable(EMPTY, ops)
    ensures var sys := Run(EMPTY, ops);
      forall s :: s in sys.deliveries ==>
        && s in sys.ends && sys.ends[s] <= 1
        && (sys.ends[s] == 1 <==> sys.deliveries[s].autoAck || s in sys.done)
  {
    hide Runnable, Run;
    EmptyIsInv();
    RunKeeps(EMPTY, ops);
  }

  /** Until it is taken to be ended, a span is in every map it was put in: its consumer's
      from the first of the two insertions on, its channel's from the second. */
  lemma PendingIsNeverLost(ops: seq<Op>, s: Span)
    requires Runnable(EMPTY, ops) && s !in Run(EMPTY, ops).taken
    ensures var sys := Run(EMPTY, ops);
      s in sys.deliveries && s in sys.stage ==>
        var d := sys.deliveries[s];
        && (d.consumer.Some? && sys.stage[s] in {InLocal, Added} ==>
              d.consumer.value in sys.locals && d.tag in sys.locals[d.consumer.value] && sys.locals[d.consumer.value][d.tag] == s)
        && (sys.stage[s] == Added ==>
              d.channel in sys.channels && d.tag in sys.channels[d.channel] && sys.channels[d.channel][d.tag] == s)
  {
    hide Runnable, Run;
    EmptyIsInv();
    RunKeeps(EMPTY, ops);
  }

  /** The spans of a channel's deliveries that a settlement covers. */
  function Covered(sys: System, channel: Channel, tag: Tag, multiple: bool): set<Span> {
    set s | s in sys.deliveries && WentChannel(sys, s) && sys.deliveries[s].channel == channel
            && Matches(sys.deliveries[s].tag, tag, multiple)
  }

  lemma ChannelSettleCovers(sys: System, channel: Channel, tag: Tag, multiple: bool)
    requires Inv(sys)
    ensures Step(sys, SettleChannel(channel, tag, multiple)).taken == sys.taken + Covered(sys, channel, tag, multiple)
  {
    var sys' := Step(sys, SettleChannel(channel, tag, multiple));
    var m := Of(sys.channels, channel);
    forall s | s in Covered(sys, channel, tag, multiple)
      ensures s in sys'.taken
    {
      if s !in sys.taken {
        assert InChannelMap(sys, s);
      }
    }
    forall s | s in TakenFrom(m, tag, multiple)
      ensures s in Covered(sys, channel, tag, multiple)
    {
      var t :| t in m && Matches(t, tag, multiple) && m[t] == s;
      assert WentChannel(sys, sys.channels[channel][t]);
    }
  }

  /** A settlement on the channel takes exactly the channel's spans in its map, whichever consumer
      they belong to, whose tag is at most the given one, or is that tag when it is not multiple;
      the larger tags, or the other ones, stay in the map, and all other maps stay as they are. */
  lemma ChannelSettleIsExact(sys: System, channel: Channel, tag: Tag, multiple: bool)
    requires Inv(sys)
    ensures var sys' := Step(sys, SettleChannel(channel, tag, multiple));
      forall s :: s in sys'.taken <==>
        || s in sys.taken
        || (s in sys.deliveries && s in sys.stage && sys.stage[s] == Added && sys.deliveries[s].channel == channel
            && if multiple then sys.deliveries[s].tag <= tag else sys.deliveries[s].tag == tag)
    ensures var sys' := Step(sys, SettleChannel(channel, tag, multiple));
      && sys'.locals == sys.locals && sys'.channels.Keys == sys.channels.Keys + {channel}
      && (forall ch :: ch in sys.channels && ch != channel ==> sys'.channels[ch] == sys.channels[ch])
      && forall t :: t in sys'.channels[channel] <==>
           channel in sys.channels && t in sys.channels[channel] && if multiple then t > tag else t != tag
    ensures var sys' := Step(sys, SettleChannel(channel, tag, multiple));
      forall t :: t in sys'.channels[channel] ==> sys'.channels[channel][t] == sys.channels[channel][t]
  {
    ChannelSettleCovers(sys, channel, tag, multiple);
    hide Inv;
  }

  /** The spans put in a consumer's map that a settlement on it covers. */
  function LocalCovered(sys: System, consumer: Consumer, tag: Tag, multiple: bool): set<Span> {
    set s | s in sys.deliveries && WentLocal(sys, s) && sys.deliveries[s].consumer == Some(consumer)
            && Matches(sys.deliveries[s].tag, tag, multiple)
  }

  /** All spans put in a consumer's map. */
  function LocalAll(sys: System, consumer: Consumer): set<Span> {
    set s | s in sys.deliveries && WentLocal(sys, s) && sys.deliveries[s].consumer == Some(consumer)
  }

  lemma LocalSettleCovers(sys: System, consumer: Consumer, tag: Tag, multiple: bool)
    requires Inv(sys)
    ensures Step(sys, SettleLocal(consumer, tag, multiple)).taken == sys.taken + LocalCovered(sys, consumer, tag, multiple)
  {
    var sys' := Step(sys, SettleLocal(consumer, tag, multiple));
    var m := Of(sys.locals, consumer);
    forall s | s in LocalCovered(sys, consumer, tag, multiple)
      ensures s in sys'.taken
    {
      if s !in sys.taken {
        assert InLocalMap(sys, s);
      }
    }
    forall s | s in TakenFrom(m, tag, multiple)
      ensures s in LocalCovered(sys, consumer, tag, multiple)
    {
      var t :| t in m && Matches(t, tag, multiple) && m[t] == s;
      assert WentLocal(sys, sys.locals[consumer][t]);
    }
  }

  /** A settlement on a consumer's own map, likewise: it takes the consumer's spans that were
      put there, whether they are in the channel's map yet or not. */
  lemma LocalSettleIsExact(sys: System, consumer: Consumer, tag: Tag, multiple: bool)
    requires Inv(sys)
    ensures var sys' := Step(sys, SettleLocal(consumer, tag, multiple));
      forall s :: s in sys'.taken <==>
        || s in sys.taken
        || (s in sys.deliveries && s in sys.stage && sys.stage[s] in {InLocal, Added}
            && sys.deliveries[s].consumer == Some(consumer)
            && if multiple then sys.deliveries[s].tag <= tag else sys.deliveries[s].tag == tag)
    ensures var sys' := Step(sys, SettleLocal(consumer, tag, multiple));
      && sys'.channels == sys.channels && sys'.locals.Keys == sys.locals.Keys + {consumer}
      && (forall c :: c in sys.locals && c != consumer ==> sys'.locals[c] == sys.locals[c])
      && forall t :: t in sys'.locals[consumer] <==>
           consumer in sys.locals && t in sys.locals[consumer] && if multiple then t > tag else t != tag
    ensures var sys' := Step(sys, SettleLocal(consumer, tag, multiple));
      forall t :: t in sys'.locals[consumer] ==> sys'.locals[consumer][t] == sys.locals[consumer][t]
  {
    LocalSettleCovers(sys, consumer, tag, multiple);
    hide Inv;
  }

  /** Draining a consumer's map takes all of its spans that were put there, and leaves none. */
  lemma EndAllIsExact(sys: System, consumer: Consumer)
    requires Inv(sys) && Enabled(sys, EndAll(consumer))
    ensures var sys' := Step(sys, EndAll(consumer));
      && consumer in sys'.locals && sys'.locals[consumer] == map[] && consumer in sys'.closed
      && forall s :: s in sys'.taken <==>
           || s in sys.taken
           || (s in sys.deliveries && s in sys.stage && sys.stage[s] in {InLocal, Added}
               && sys.deliveries[s].consumer == Some(consumer))
  {
    EndAllCovers(sys, consumer);
    hide Inv;
  }

  lemma EndAllCovers(sys: System, consumer: Consumer)
    requires Inv(sys) && Enabled(sys, EndAll(consumer))
    ensures Step(sys, EndAll(consumer)).taken == sys.taken + LocalAll(sys, consumer)
  {
    var sys' := Step(sys, EndAll(consumer));
    var m := Of(sys.locals, consumer);
    forall s | s in LocalAll(sys, consumer)
      ensures s in sys'.taken
    {
      if s !in sys.taken {
        assert InLocalMap(sys, s);
      }
    }
    forall s | s in m.Values
      ensures s in LocalAll(sys, consumer)
    {
      var t :| t in m && m[t] == s;
      assert WentLocal(sys, sys.locals[consumer][t]);
    }
  }

  /** What the locked section of a settlement or a close covers. */
  function Outstanding(sys: System, op: Op): set<Span> {
    match op
    case SettleLocal(c, tag, multiple) => LocalCovered(sys, c, tag, multiple)
    case SettleChannel(ch, tag, multiple) => Covered(sys, ch, tag, multiple)
    case EndAll(c) => LocalAll(sys, c)
    case _ => {}
  }

  /** The spans that a section removes from its map. */
  function Removed(sys: System, op: Op): set<Span> {
    match op
    case SettleLocal(c, tag, multiple) => TakenFrom(Of(sys.locals, c), tag, multiple)
    case SettleChannel(ch, tag, multiple) => TakenFrom(Of(sys.channels, ch), tag, multiple)
    case EndAll(c) => Of(sys.locals, c).Values
    case _ => {}
  }

  predicate IsSection(op: Op) { op.SettleLocal? || op.SettleChannel? || op.EndAll? }

  /** In every reachable state each section takes exactly what it covers. */
  lemma SectionIsExact(sys: System, op: Op)
    requires Inv(sys) && Enabled(sys, op) && IsSection(op)
    ensures var sys' := Step(sys, op);
      && sys'.taken == sys.taken + Outstanding(sys, op) == sys.taken + Removed(sys, op)
      && Removed(sys, op) <= Outstanding(sys, op)
      && sys'.deliveries == sys.deliveries && sys'.stage == sys.stage && sys'.done == sys.done && sys'.ends == sys.ends
  {
    RemovedIsCovered(sys, op);
    hide Inv, Outstanding;
    match op
    case SettleLocal(c, tag, multiple) => LocalSettleCovers(sys, c, tag, multiple);
    case SettleChannel(ch, tag, multiple) => ChannelSettleCovers(sys, ch, tag, multiple);
    case EndAll(c) => EndAllCovers(sys, c);
  }

  lemma RemovedIsCovered(sys: System, op: Op)
    requires Inv(sys) && IsSection(op)
    ensures Removed(sys, op) <= Outstanding(sys, op)
  {
    hide SameSpans, TagsUnique, OneChannelEach, PendingKept, EndsOk, ClosedOk;
    forall s | s in Removed(sys, op)
      ensures s in Outstanding(sys, op)
    {
      if op.SettleChannel? {
        var t :| t in Of(sys.channels, op.channel) && Matches(t, op.tag, op.multiple) && Of(sys.channels, op.channel)[t] == s;
        assert WentChannel(sys, sys.channels[op.channel][t]);
      } else {
        var t :| t in Of(sys.locals, op.consumer) && Of(sys.locals, op.consumer)[t] == s
                 && (op.SettleLocal? ==> Matches(t, op.tag, op.multiple));
        assert WentLocal(sys, sys.locals[op.consumer][t]);
      }
    }
  }

  /** Sections do not change what other sections cover. */
  lemma CoverIsStable(sys: System, sys': System, op: Op)
    requires sys'.deliveries == sys.deliveries && sys'.stage == sys.stage
    ensures Outstanding(sys', op) == Outstanding(sys, op)
  {
    assert forall s :: WentChannel(sys', s) <==> WentChannel(sys, s);
    assert forall s :: WentLocal(sys', s) <==> WentLocal(sys, s);
  }

  function AllOutstanding(sys: System, ops: seq<Op>): set<Span> {
    if ops == [] then {} else Outstanding(sys, ops[0]) + AllOutstanding(sys, ops[1..])
  }

  lemma {:induction false} CoversAreStable(sys: System, sys': System, ops: seq<Op>)
    requires sys'.deliveries == sys.deliveries && sys'.stage == sys.stage
    ensures AllOutstanding(sys', ops) == AllOutstanding(sys, ops)
    decreases |ops|
  {
    hide Outstanding;
    if ops != [] {
      CoverIsStable(sys, sys', ops[0]);
      CoversAreStable(sys, sys', ops[1..]);
    }
  }

  lemma {:induction false} SectionsTake(sys: System, ops: seq<Op>)
    requires Inv(sys) && forall op :: op in ops ==> op.SettleLocal? || op.SettleChannel?
    ensures Runnable(sys, ops) && Run(sys, ops).taken == sys.taken + AllOutstanding(sys, ops)
    decreases |ops|
  {
    hide Inv, Outstanding, Step;
    if ops != [] {
      var op := ops[0];
      assert op in ops && forall o :: o in ops[1..] ==> o in ops;
      SectionIsExact(sys, op);
      StepKeeps(sys, op);
      CoversAreStable(sys, Step(sys, op), ops[1..]);
      SectionsTake(Step(sys, op), ops[1..]);
    }
  }

  // ---- one acknowledgement ----

  /** The maps an acknowledgement goes through: the channel's hook where it is active,
      then the delivery's own consumer's map, then the channel's. */
  function AckOps(hook: bool, consumer: Option<Consumer>, channel: Channel, tag: Tag, multiple: bool): seq<Op> {
    (if hook then [SettleChannel(channel, tag, multiple)] else [])
    + ((if consumer.Some? then [SettleLocal(consumer.value, tag, multiple)] else [])
       + [SettleChannel(channel, tag, multiple)])
  }

  /** The consumer's spans that the tag matches and that are not yet in the channel's map. */
  function HalfAdded(sys: System, consumer: Option<Consumer>, tag: Tag, multiple: bool): set<Span> {
    set s | s in sys.deliveries && s in sys.stage && consumer.Some? && sys.deliveries[s].consumer == consumer
            && sys.stage[s] == InLocal && Matches(sys.deliveries[s].tag, tag, multiple)
  }

  predicate BelongsTo(sys: System, consumer: Consumer, channel: Channel) {
    forall s :: s in sys.deliveries && sys.deliveries[s].consumer == Some(consumer) ==> sys.deliveries[s].channel == channel
  }

  lemma AckCovers(sys: System, hook: bool, consumer: Option<Consumer>, channel: Channel, tag: Tag, multiple: bool)
    requires consumer.Some? ==> BelongsTo(sys, consumer.value, channel)
    ensures AllOutstanding(sys, AckOps(hook, consumer, channel, tag, multiple))
         == Covered(sys, channel, tag, multiple) + HalfAdded(sys, consumer, tag, multiple)
  {
    var last := [SettleChannel(channel, tag, multiple)];
    var c := Covered(sys, channel, tag, multiple);
    assert last[1..] == [] && AllOutstanding(sys, last) == c;
    var local := if consumer.Some? then [SettleLocal(consumer.value, tag, multiple)] + last else last;
    if consumer.Some? {
      assert local[1..] == last;
      var l := LocalCovered(sys, consumer.value, tag, multiple);
      assert AllOutstanding(sys, local) == l + c;
      assert l + c == c + HalfAdded(sys, consumer, tag, multiple);
    } else {
      assert [] + last == last && HalfAdded(sys, consumer, tag, multiple) == {};
    }
    var all := AckOps(hook, consumer, channel, tag, multiple);
    if hook {
      assert all == last + local && all[1..] == local && all[0] == last[0];
    } else {
      assert all == local;
    }
  }

  lemma AckTakes(sys: System, hook: bool, consumer: Option<Consumer>, channel: Channel, tag: Tag, multiple: bool)
    requires Inv(sys) && (consumer.Some? ==> BelongsTo(sys, consumer.value, channel))
    ensures var ops := AckOps(hook, consumer, channel, tag, multiple);
      Runnable(sys, ops)
      && Run(sys, ops).taken == sys.taken + Covered(sys, channel, tag, multiple) + HalfAdded(sys, consumer, tag, multiple)
  {
    hide Inv, BelongsTo, Covered, HalfAdded;
    SectionsTake(sys, AckOps(hook, consumer, channel, tag, multiple));
    AckCovers(sys, hook, consumer, channel, tag, multiple);
  }

  /** The sections of an acknowledgement, with or without the channel's own hook, take exactly
      the channel's spans in its map whose tag is at most the given one, or is that tag when it is
      not multiple, and those of the delivery's own consumer under the same tags that are between
      their two insertions. */
  lemma AckIsExact(sys: System, hook: bool, consumer: Option<Consumer>, channel: Channel, tag: Tag, multiple: bool)
    requires Inv(sys) && (consumer.Some? ==> BelongsTo(sys, consumer.value, channel))
    ensures var ops := AckOps(hook, consumer, channel, tag, multiple);
      Runnable(sys, ops)
      && forall s :: s in Run(sys, ops).taken <==>
           || s in sys.taken
           || (s in sys.deliveries && s in sys.stage
               && ((sys.stage[s] == Added && sys.deliveries[s].channel == channel)
                   || (sys.stage[s] == InLocal && consumer.Some? && sys.deliveries[s].consumer == consumer))
               && if multiple then sys.deliveries[s].tag <= tag else sys.deliveries[s].tag == tag)
  {
    AckTakes(sys, hook, consumer, channel, tag, multiple);
    hide Inv, BelongsTo, Run, Runnable, AckOps;
  }

  // ---- what the standard asks for ----

  /** What section 1.8.3.13 of AMQP 0-9-1 asks of a settlement: it settles every delivery of the
      channel under the tag that is not acknowledged automatically, whether its span has been put
      in a map or not; tag zero with `multiple` settles all. */
  function AskedFor(sys: System, channel: Channel, tag: Tag, multiple: bool): set<Span> {
    set s | s in sys.deliveries && !sys.deliveries[s].autoAck && sys.deliveries[s].channel == channel
            && if multiple then tag == 0 || sys.deliveries[s].tag <= tag else sys.deliveries[s].tag == tag
  }

  /** The span is in its channel's map, or was put in the map of the given consumer. */
  predicate Registered(sys: System, consumer: Option<Consumer>, s: Span) {
    && s in sys.deliveries && s in sys.stage
    && (sys.stage[s] == Added || (consumer.Some? && sys.deliveries[s].consumer == consumer && sys.stage[s] == InLocal))
  }

  /** What settling takes is what is asked for exactly when each span asked for that was not taken
      before is registered, and tag zero does not ask for them. */
  lemma TakenAsAskedIff(sys: System, consumer: Option<Consumer>, channel: Channel, tag: Tag, multiple: bool)
    requires SameSpans(sys) && (consumer.Some? ==> BelongsTo(sys, consumer.value, channel))
    ensures sys.taken + Covered(sys, channel, tag, multiple) + HalfAdded(sys, consumer, tag, multiple)
            == sys.taken + AskedFor(sys, channel, tag, multiple)
       <==> forall s :: s in AskedFor(sys, channel, tag, multiple) && s !in sys.taken ==>
              !(multiple && tag == 0) && Registered(sys, consumer, s)
  {
    var asked := AskedFor(sys, channel, tag, multiple);
    var reached := Covered(sys, channel, tag, multiple) + HalfAdded(sys, consumer, tag, multiple);
    forall s
      ensures s in reached <==> s in asked && !(multiple && tag == 0) && Registered(sys, consumer, s)
    {
      assert s in sys.deliveries ==> sys.deliveries[s].tag >= 1;
    }
    assert sys.taken + Covered(sys, channel, tag, multiple) + HalfAdded(sys, consumer, tag, multiple) == sys.taken + reached;
    hide AskedFor, Covered, HalfAdded, Registered, SameSpans, BelongsTo;
    if sys.taken + reached == sys.taken + asked {
      forall s | s in asked && s !in sys.taken
        ensures s in reached
      {
        assert s in sys.taken + asked;
      }
    }
  }

  /** A settlement on the channel takes what the standard asks for exactly when each span asked for
      that was not taken before is in the channel's map, and it is no multiple settlement of tag zero. */
  lemma ChannelSettlesAsAskedIff(sys: System, channel: Channel, tag: Tag, multiple: bool)
    requires Inv(sys)
    ensures Step(sys, SettleChannel(channel, tag, multiple)).taken == sys.taken + AskedFor(sys, channel, tag, multiple)
       <==> forall s :: s in AskedFor(sys, channel, tag, multiple) && s !in sys.taken ==>
              !(multiple && tag == 0) && Registered(sys, None, s)
  {
    ChannelSettleCovers(sys, channel, tag, multiple);
    TakenAsAskedIff(sys, None, channel, tag, multiple);
    assert HalfAdded(sys, None, tag, multiple) == {};
    hide AskedFor, Covered, HalfAdded, Registered, Inv, Step;
  }

  /** A whole acknowledgement also reaches those spans of its own consumer that are between their
      two insertions. */
  lemma AckSettlesAsAskedIff(sys: System, hook: bool, consumer: Option<Consumer>, channel: Channel, tag: Tag, multiple: bool)
    requires Inv(sys) && (consumer.Some? ==> BelongsTo(sys, consumer.value, channel))
    ensures var ops := AckOps(hook, consumer, channel, tag, multiple);
      Runnable(sys, ops)
      && (Run(sys, ops).taken == sys.taken + AskedFor(sys, channel, tag, multiple)
          <==> forall s :: s in AskedFor(sys, channel, tag, multiple) && s !in sys.taken ==>
                 !(multiple && tag == 0) && Registered(sys, consumer, s))
  {
    assert SameSpans(sys);
    hide *;
    AckTakes(sys, hook, consumer, channel, tag, multiple);
    TakenAsAskedIff(sys, consumer, channel, tag, multiple);
  }

  /** A consumer's span is in its own map only when the channel is settled under its tag, as an
      acknowledgement through another consumer does: it is asked for and not taken. */
  lemma HalfAddedIsMissed()
    ensures var ops := [Receive(7, Delivery(1, 0, Some(5), false)), AddLocal(7), SettleChannel(0, 1, true)];
      Runnable(EMPTY, ops) && Run(EMPTY, ops).taken == {} && AskedFor(Run(EMPTY, ops), 0, 1, true) == {7}
  {
    var d := Delivery(1, 0, Some(5), false);
    var o1, o2, o3 := Receive(7, d), AddLocal(7), SettleChannel(0, 1, true);
    var a := Step(EMPTY, o1);
    var b := Step(a, o2);
    var c := Step(b, o3);
    ThreeSteps(EMPTY, o1, o2, o3);
    assert c.taken == {} && AskedFor(c, 0, 1, true) == {7};
    hide Step, Runnable, Run, AskedFor;
  }

  lemma ThreeSteps(sys: System, o1: Op, o2: Op, o3: Op)
    requires Enabled(sys, o1) && Enabled(Step(sys, o1), o2) && Enabled(Step(Step(sys, o1), o2), o3)
    ensures Runnable(sys, [o1, o2, o3]) && Run(sys, [o1, o2, o3]) == Step(Step(Step(sys, o1), o2), o3)
  {
    hide Step, Enabled;
    var a := Step(sys, o1);
    var b := Step(a, o2);
    var c := Step(b, o3);
    assert [o1, o2, o3][1..] == [o2, o3] && [o2, o3][1..] == [o3] && [o3][1..] == [];
    assert Runnable(c, []) && Runnable(b, [o3]) && Runnable(a, [o2, o3]);
    assert Run(b, [o3]) == c && Run(a, [o2, o3]) == c;
  }

  /** One delivery is outstanding and everything is acknowledged with tag zero: nothing is ended. */
  lemma TagZeroEndsNothing()
    ensures var ops := [Receive(7, Delivery(1, 0, None, false)), AddChannel(7), SettleChannel(0, 0, true)];
      Runnable(EMPTY, ops) && Run(EMPTY, ops).taken == {} && AskedFor(Run(EMPTY, ops), 0, 0, true) == {7}
  {
    var d := Delivery(1, 0, None, false);
    var o1, o2, o3 := Receive(7, d), AddChannel(7), SettleChannel(0, 0, true);
    var a := Step(EMPTY, o1);
    var b := Step(a, o2);
    var c := Step(b, o3);
    ThreeSteps(EMPTY, o1, o2, o3);
    assert c.taken == {} && AskedFor(c, 0, 0, true) == {7};
    hide Step, Runnable, Run, AskedFor;
  }
}
