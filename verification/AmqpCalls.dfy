/** The calls of the program on the protocol: acknowledgements, the channel's own hooks and
    closing wrappers, each running its locked sections and the calls of `End` after each of
    them, while all other goroutines take steps in between. */
module AmqpCalls {
  import opened Common
  import opened AmqpProtocol

  type Id = nat

  /** What was called: an acknowledgement through a delivery, the channel's own method, or the
      end of a consumer's wrapper. `hook`: the inner call runs the channel's hook first. */
  datatype Request =
    | Ack(span: Span, hook: bool, tag: Tag, multiple: bool)
    | Direct(channel: Channel, tag: Tag, multiple: bool)
    | Close(consumer: Consumer)

  /** A call on its way: the sections it still has to run, the spans taken by the last one that
      it has still to end, and, as history, all that its sections covered when they ran and
      what the channel's settlement covered when the call began. */
  datatype Call = Call(request: Request, todo: seq<Op>, toEnd: set<Span>, covered: set<Span>, before: set<Span>)

  datatype World = World(sys: System, calls: map<Id, Call>)

  const START: World := World(EMPTY, map[])

  datatype Move =
    | Plain(op: Op)
    | Begin(id: Id, request: Request)
    | Section(id: Id)
    | EndOne(id: Id, span: Span)

  /** The channel a request settles on. */
  function ChannelOf(sys: System, r: Request): Channel
    requires r.Direct? || (r.Ack? && r.span in sys.deliveries)
  {
    if r.Ack? then sys.deliveries[r.span].channel else r.channel
  }

  function SectionsOf(sys: System, r: Request): seq<Op>
    requires r.Ack? ==> r.span in sys.deliveries
  {
    match r
    case Ack(s, hook, tag, multiple) => AckOps(hook, sys.deliveries[s].consumer, sys.deliveries[s].channel, tag, multiple)
    case Direct(ch, tag, multiple) => [SettleChannel(ch, tag, multiple)]
    case Close(c) => [EndAll(c)]
  }

  /** What the channel's settlement of a request covers now. */
  function Asked(sys: System, r: Request): set<Span>
    requires r.Ack? ==> r.span in sys.deliveries
  {
    match r
    case Ack(s, _, tag, multiple) => Covered(sys, sys.deliveries[s].channel, tag, multiple)
    case Direct(ch, tag, multiple) => Covered(sys, ch, tag, multiple)
    case Close(_) => {}
  }

  /** A call that has run no section yet. */
  function NewCall(sys: System, r: Request): Call
    requires r.Ack? ==> r.span in sys.deliveries
  {
    Call(r, SectionsOf(sys, r), {}, {}, Asked(sys, r))
  }

  /** A delivery is acknowledged after it was handed over. */
  predicate Possible(w: World, m: Move) {
    match m
    case Plain(op) => (op.Receive? || op.AddLocal? || op.AddChannel?) && Enabled(w.sys, op)
    case Begin(id, r) => id !in w.calls && (r.Ack? ==> WentChannel(w.sys, r.span))
    case Section(id) =>
      id in w.calls && w.calls[id].todo != [] && w.calls[id].toEnd == {} && Enabled(w.sys, w.calls[id].todo[0])
    case EndOne(id, s) => id in w.calls && s in w.calls[id].toEnd && s in w.sys.taken
  }

  function Moved(w: World, m: Move): World
    requires Possible(w, m)
  {
    match m
    case Plain(op) => w.(sys := Step(w.sys, op))
    case Begin(id, r) => w.(calls := w.calls[id := NewCall(w.sys, r)])
    case Section(id) =>
      var c := w.calls[id];
      var op := c.todo[0];
      World(Step(w.sys, op),
            w.calls[id := c.(todo := c.todo[1..], toEnd := Removed(w.sys, op), covered := c.covered + Outstanding(w.sys, op))])
    case EndOne(id, s) =>
      World(Step(w.sys, End(s)), w.calls[id := w.calls[id].(toEnd := w.calls[id].toEnd - {s})])
  }

  predicate AllPossible(w: World, moves: seq<Move>)
    decreases |moves|
  {
    moves == [] || (Possible(w, moves[0]) && AllPossible(Moved(w, moves[0]), moves[1..]))
  }

  function After(w: World, moves: seq<Move>): World
    requires AllPossible(w, moves)
    decreases |moves|
  {
    if moves == [] then w else After(Moved(w, moves[0]), moves[1..])
  }

  /** Some running call still has to end the span. */
  predicate Held(w: World, s: Span) { exists id :: id in w.calls && s in w.calls[id].toEnd }

  // ---- the invariant ----

  /** Every span taken was ended or is on a running call's list. */
  predicate NoneDropped(w: World) { forall s :: s in w.sys.taken ==> s in w.sys.done || Held(w, s) }

  predicate InScope(sys: System, r: Request, s: Span)
    requires r.Ack? ==> r.span in sys.deliveries
  {
    && s in sys.deliveries
    && if r.Close? then sys.deliveries[s].consumer == Some(r.consumer)
       else sys.deliveries[s].channel == ChannelOf(sys, r) && Matches(sys.deliveries[s].tag, r.tag, r.multiple)
  }

  predicate OpInScope(sys: System, r: Request, op: Op)
    requires r.Ack? ==> r.span in sys.deliveries
  {
    if r.Close? then op == EndAll(r.consumer)
    else if op.SettleLocal? then
      r.Ack? && sys.deliveries[r.span].consumer == Some(op.consumer) && op.tag == r.tag && op.multiple == r.multiple
    else op == SettleChannel(ChannelOf(sys, r), r.tag, r.multiple)
  }

  /** The sections still to run belong to the request, the channel's settlement last; what they
      covered is in the request's scope and was taken; once they ran, that includes all that was
      covered at the beginning, and a closed consumer takes no more deliveries. */
  predicate CallOk(sys: System, c: Call) {
    && (c.request.Ack? ==> WentChannel(sys, c.request.span))
    && (forall op :: op in c.todo ==> OpInScope(sys, c.request, op))
    && (c.todo != [] && !c.request.Close? ==> c.todo[|c.todo| - 1].SettleChannel?)
    && c.toEnd <= c.covered <= sys.taken
    && (forall s :: s in c.covered ==> InScope(sys, c.request, s))
    && c.before <= Asked(sys, c.request)
    && (c.todo == [] ==> c.before <= c.covered)
    && (c.todo == [] && c.request.Close? ==> c.request.consumer in sys.closed)
  }

  predicate Good(w: World) {
    Inv(w.sys) && NoneDropped(w) && forall id :: id in w.calls ==> CallOk(w.sys, w.calls[id])
  }

  /** What a step of another goroutine leaves of a call. */
  ghost predicate Grows(sys: System, sys': System) {
    && (forall s :: s in sys.deliveries ==> s in sys'.deliveries && sys'.deliveries[s] == sys.deliveries[s])
    && (forall s :: WentChannel(sys, s) ==> WentChannel(sys', s))
    && sys.taken <= sys'.taken && sys.closed <= sys'.closed
  }

  lemma StepGrows(sys: System, op: Op)
    requires Inv(sys) && Enabled(sys, op)
    ensures Grows(sys, Step(sys, op))
  {
    hide LocalsOk, ChannelsOk, PendingKept, EndsOk, ClosedOk, TagsUnique, OneChannelEach;
  }

  lemma AskedGrows(sys: System, sys': System, r: Request)
    requires Grows(sys, sys') && (r.Ack? ==> r.span in sys.deliveries)
    ensures Asked(sys, r) <= Asked(sys', r)
  {
  }

  lemma CallStaysOk(sys: System, sys': System, c: Call)
    requires Grows(sys, sys') && CallOk(sys, c)
    ensures CallOk(sys', c)
  {
    AskedGrows(sys, sys', c.request);
    hide Asked;
  }

  lemma SectionInScope(sys: System, r: Request, op: Op)
    requires Inv(sys) && (r.Ack? ==> WentChannel(sys, r.span)) && OpInScope(sys, r, op)
    ensures IsSection(op) && forall s :: s in Outstanding(sys, op) ==> InScope(sys, r, s)
  {
    hide LocalsOk, ChannelsOk, PendingKept, EndsOk, ClosedOk, TagsUnique;
  }

  lemma CallAfterSection(sys: System, c: Call)
    requires Inv(sys) && CallOk(sys, c) && c.todo != [] && Enabled(sys, c.todo[0])
    ensures IsSection(c.todo[0])
    ensures var op := c.todo[0];
      CallOk(Step(sys, op),
             c.(todo := c.todo[1..], toEnd := Removed(sys, op), covered := c.covered + Outstanding(sys, op)))
  {
    CallIs(sys, c);
    hide *;
    var op := c.todo[0];
    SectionInScope(sys, c.request, op);
    SectionIsExact(sys, op);
    StepGrows(sys, op);
    var sys' := Step(sys, op);
    CallStaysOk(sys, sys', c);
    forall s | s in Outstanding(sys, op)
      ensures InScope(sys', c.request, s)
    {
    }
    if c.todo[1..] == [] { LastCovers(sys, c); }
    CallGoesOn(sys', c, Removed(sys, op), Outstanding(sys, op));
  }

  lemma CallIs(sys: System, c: Call)
    requires CallOk(sys, c)
    ensures c.request.Ack? ==> WentChannel(sys, c.request.span) && c.request.span in sys.deliveries
    ensures c.todo != [] ==> OpInScope(sys, c.request, c.todo[0])
    ensures c.todo != [] && c.request.Close? ==> c.todo[0] == EndAll(c.request.consumer)
  {
    if c.todo != [] { assert c.todo[0] in c.todo; }
  }

  /** The call without its first section, which took `removed` and covered `covered`. */
  lemma CallGoesOn(sys: System, c: Call, removed: set<Span>, covered: set<Span>)
    requires CallOk(sys, c) && c.todo != []
    requires removed <= c.covered + covered && covered <= sys.taken
    requires c.request.Ack? ==> c.request.span in sys.deliveries
    requires forall s :: s in covered ==> InScope(sys, c.request, s)
    requires c.todo[1..] == [] ==> c.before <= covered
    requires c.todo[1..] == [] && c.request.Close? ==> c.request.consumer in sys.closed
    ensures CallOk(sys, c.(todo := c.todo[1..], toEnd := removed, covered := c.covered + covered))
  {
    hide Asked, InScope, OpInScope;
    var rest := c.todo[1..];
    assert forall o :: o in rest ==> o in c.todo;
    assert rest != [] ==> rest[|rest| - 1] == c.todo[|c.todo| - 1];
  }

  /** The last section of a settlement covers what the request asks for. */
  lemma LastCovers(sys: System, c: Call)
    requires CallOk(sys, c) && c.todo != [] && c.todo[1..] == []
    ensures c.before <= Outstanding(sys, c.todo[0])
  {
    assert c.todo[0] in c.todo;
  }

  // ---- every step keeps the invariant ----

  lemma SpanStaysHeld(w: World, w': World)
    requires NoneDropped(w) && w'.sys.taken == w.sys.taken && w.sys.done <= w'.sys.done
    requires forall id :: id in w.calls ==> id in w'.calls && w'.calls[id].toEnd == w.calls[id].toEnd
    ensures NoneDropped(w')
  {
    forall s | s in w'.sys.taken && s !in w'.sys.done
      ensures Held(w', s)
    {
      assert Held(w, s);
      var id :| id in w.calls && s in w.calls[id].toEnd;
      assert s in w'.calls[id].toEnd;
    }
  }

  lemma PlainKeeps(w: World, op: Op)
    requires Good(w) && Possible(w, Plain(op))
    ensures Good(Moved(w, Plain(op)))
  {
    var w' := Moved(w, Plain(op));
    assert w'.sys.taken == w.sys.taken && w'.sys.done == w.sys.done;
    hide Step, Inv, CallOk, Grows;
    StepKeeps(w.sys, op);
    StepGrows(w.sys, op);
    forall id | id in w'.calls
      ensures CallOk(w'.sys, w'.calls[id])
    {
      CallStaysOk(w.sys, w'.sys, w.calls[id]);
    }
    SpanStaysHeld(w, w');
  }

  lemma BeginKeeps(w: World, id: Id, r: Request)
    requires Good(w) && Possible(w, Begin(id, r))
    ensures Good(Moved(w, Begin(id, r)))
  {
    var w' := Moved(w, Begin(id, r));
    NewCallOk(w.sys, r);
    hide Inv, CallOk;
    SpanStaysHeld(w, w');
  }

  lemma NewCallOk(sys: System, r: Request)
    requires r.Ack? ==> WentChannel(sys, r.span)
    ensures CallOk(sys, NewCall(sys, r))
  {
  }

  lemma GoodIs(w: World)
    requires Good(w)
    ensures Inv(w.sys) && NoneDropped(w) && forall id :: id in w.calls ==> CallOk(w.sys, w.calls[id])
  {
  }

  /** Only one call was changed. */
  lemma OtherCallsStayOk(w: World, w': World, id: Id)
    requires Inv(w'.sys) && NoneDropped(w') && Grows(w.sys, w'.sys)
    requires id in w'.calls && w'.calls == w.calls[id := w'.calls[id]]
    requires forall i :: i in w.calls ==> CallOk(w.sys, w.calls[i])
    requires CallOk(w'.sys, w'.calls[id])
    ensures Good(w')
  {
    hide Inv, NoneDropped, CallOk, Grows;
    forall i | i in w'.calls
      ensures CallOk(w'.sys, w'.calls[i])
    {
      if i != id { CallStaysOk(w.sys, w'.sys, w.calls[i]); }
    }
  }

  lemma SectionKeeps(w: World, id: Id)
    requires Good(w) && Possible(w, Section(id))
    ensures Good(Moved(w, Section(id)))
  {
    SectionIs(w, id);
    GoodIs(w);
    hide *;
    var w' := Moved(w, Section(id));
    var op := w.calls[id].todo[0];
    CallAfterSection(w.sys, w.calls[id]);
    StepKeeps(w.sys, op);
    StepGrows(w.sys, op);
    SectionIsExact(w.sys, op);
    TakenGoesOnList(w, w', id, Removed(w.sys, op));
    OtherCallsStayOk(w, w', id);
  }

  lemma SectionIs(w: World, id: Id)
    requires Possible(w, Section(id))
    ensures id in w.calls && w.calls[id].todo != [] && w.calls[id].toEnd == {} && Enabled(w.sys, w.calls[id].todo[0])
    ensures var c := w.calls[id];
      var op := c.todo[0];
      Moved(w, Section(id)) == World(Step(w.sys, op),
        w.calls[id := c.(todo := c.todo[1..], toEnd := Removed(w.sys, op), covered := c.covered + Outstanding(w.sys, op))])
  {
    hide Step, Enabled, Removed, Outstanding;
  }

  lemma TakenGoesOnList(w: World, w': World, id: Id, removed: set<Span>)
    requires NoneDropped(w) && w.sys.done <= w'.sys.done && w'.sys.taken == w.sys.taken + removed
    requires id in w.calls && w.calls[id].toEnd == {}
    requires id in w'.calls && w'.calls == w.calls[id := w'.calls[id]] && w'.calls[id].toEnd == removed
    ensures NoneDropped(w')
  {
    forall s | s in w'.sys.taken && s !in w'.sys.done
      ensures Held(w', s)
    {
      if s in removed {
        assert s in w'.calls[id].toEnd;
      } else {
        assert Held(w, s);
        var i :| i in w.calls && s in w.calls[i].toEnd;
        assert i != id && s in w'.calls[i].toEnd;
      }
    }
  }

  lemma EndOneKeeps(w: World, id: Id, s: Span)
    requires Good(w) && Possible(w, EndOne(id, s))
    ensures Good(Moved(w, EndOne(id, s)))
  {
    EndOneIs(w, id, s);
    GoodIs(w);
    hide *;
    var w' := Moved(w, EndOne(id, s));
    StepKeeps(w.sys, End(s));
    StepGrows(w.sys, End(s));
    EndingIs(w.sys, s);
    ShorterListOk(w.sys, w.calls[id], s);
    CallStaysOk(w.sys, w'.sys, w'.calls[id]);
    EndedLeavesList(w, w', id, s);
    OtherCallsStayOk(w, w', id);
  }

  lemma EndOneIs(w: World, id: Id, s: Span)
    requires Possible(w, EndOne(id, s))
    ensures id in w.calls && s in w.calls[id].toEnd && s in w.sys.taken && Enabled(w.sys, End(s))
    ensures Moved(w, EndOne(id, s)) ==
      World(Step(w.sys, End(s)), w.calls[id := w.calls[id].(toEnd := w.calls[id].toEnd - {s})])
  {
    hide Step;
  }

  lemma EndedLeavesList(w: World, w': World, id: Id, s: Span)
    requires NoneDropped(w) && w'.sys.done == w.sys.done + {s} && w'.sys.taken == w.sys.taken
    requires id in w.calls && w'.calls == w.calls[id := w.calls[id].(toEnd := w.calls[id].toEnd - {s})]
    ensures NoneDropped(w')
  {
    forall x | x in w'.sys.taken && x !in w'.sys.done
      ensures Held(w', x)
    {
      assert Held(w, x);
      var i :| i in w.calls && x in w.calls[i].toEnd;
      assert x != s && x in w'.calls[i].toEnd;
    }
  }

  lemma EndingIs(sys: System, s: Span)
    requires s in sys.taken
    ensures var sys' := Step(sys, End(s)); sys'.taken == sys.taken && sys'.done == sys.done + {s}
  {
  }

  lemma ShorterListOk(sys: System, c: Call, s: Span)
    requires CallOk(sys, c)
    ensures CallOk(sys, c.(toEnd := c.toEnd - {s}))
  {
  }

  lemma MoveKeeps(w: World, m: Move)
    requires Good(w) && Possible(w, m)
    ensures Good(Moved(w, m))
  {
    hide Good;
    match m
    case Plain(op) => PlainKeeps(w, op);
    case Begin(id, r) => BeginKeeps(w, id, r);
    case Section(id) => SectionKeeps(w, id);
    case EndOne(id, s) => EndOneKeeps(w, id, s);
  }

  lemma {:induction false} MovesKeep(w: World, moves: seq<Move>)
    requires Good(w) && AllPossible(w, moves)
    ensures Good(After(w, moves))
    decreases |moves|
  {
    hide Good, Moved, Possible;
    if moves != [] {
      MoveKeeps(w, moves[0]);
      MovesKeep(Moved(w, moves[0]), moves[1..]);
    }
  }

  lemma StartIsGood()
    ensures Good(START)
  {
    EmptyIsInv();
  }
}
