/** All goroutines' slots and the hooks that work on them. Every hook takes the
    steps of GlsProtocol and so answers as the simple model answers. */
module GlsRuntime {
  import opened Common
  import opened GlsStack
  import opened GlsProtocol
  import opened GlsRefinement
  import opened GlsFlags
  import opened GlsRegistry
  import opened GlsList

  // ---- the steps taken by each hook, spelled out ----

  lemma OneStep<F>(s: System<F>, op: Op<F>, lim: Limits)
    requires Enabled(s, op)
    ensures Takes(s, [op], [Step(s, op, lim).1], Step(s, op, lim).0, lim)
  {
    var s' := Step(s, op, lim).0;
    var ops := [op];
    assert ops[1..] == [];
    assert Runnable(s', ops[1..], lim) && Run(s', ops[1..], lim) == (s', []);
    assert Runnable(s, ops, lim);
    var a := Step(s, op, lim).1;
    assert [a] + [] == [a];
  }

  lemma TwoSteps<F>(s: System<F>, op: Op<F>, op': Op<F>, lim: Limits)
    requires Enabled(s, op) && Enabled(Step(s, op, lim).0, op')
    ensures var (s1, a1) := Step(s, op, lim);
      var (s2, a2) := Step(s1, op', lim);
      Takes(s, [op, op'], [a1, a2], s2, lim)
  {
    OneStep(Step(s, op, lim).0, op', lim);
    var ops := [op, op'];
    assert ops[1..] == [op'];
    assert Runnable(s, ops, lim);
    var (s1, a1) := Step(s, op, lim);
    var a2 := Step(s1, op', lim).1;
    assert [a1] + [a2] == [a1, a2];
  }

  /** A slot's stack once ended wrappers on top are popped. */
  function TailedBy<F(==)>(s: System<F>, g: Gid): System<F>
    requires g in s.slots
  {
    s.(slots := s.slots[g := TailOf(s.slots[g], s.ended)])
  }

  lemma LookupIsStep<F>(s: System<F>, g: Gid, lim: Limits)
    requires Inv(s, lim) && lim.Valid() && s.phases == map[]
    ensures var op: Op<F> := Lookup(g);
      var top := if StackOf(Abs(s), g) == [] then None else Some(StackOf(Abs(s), g)[0]);
      if g in s.slots then
        var s' := TailedBy(s, g);
        Takes(s, [op], [Found(top)], s', lim) && Inv(s', lim) && Abs(s') == Abs(s) && Top(s'.slots[g]) == top
      else Takes(s, [op], [Found(top)], s, lim)
  {
    var op: Op<F> := Lookup(g);
    OneStep(s, op, lim);
    if g in s.slots { TailRefines(s, g, lim); }
  }

  function ForkOf<F(==)>(s: System<F>, g: Gid, child: Gid): System<F> {
    if g !in s.slots then s.(slots := s.slots - {child})
    else var c := TailOf(s.slots[g], s.ended); s.(slots := s.slots[g := c][child := CloneOf(c)])
  }

  lemma ForkedStacks(e: Eager, g: Gid, child: Gid, lim: Limits)
    ensures var e' := EagerStep(e, Op<Flag>.Fork(g, child), lim).0;
      && StackOf(e', child) == (if StackOf(e, g) == [] then [] else [StackOf(e, g)[0]])
      && forall h :: h != child ==> StackOf(e', h) == StackOf(e, h)
  {
  }

  lemma ForkIsStep<F>(s: System<F>, g: Gid, child: Gid, lim: Limits)
    requires Inv(s, lim) && lim.Valid() && Enabled(s, Fork(g, child))
    ensures var op: Op<F> := Fork(g, child);
      var s' := ForkOf(s, g, child);
      && Takes(s, [op], [Done], s', lim) && Inv(s', lim) && s'.phases == s.phases
      && Abs(s') == EagerStep(Abs(s), op, lim).0
  {
    var op: Op<F> := Fork(g, child);
    OneStep(s, op, lim);
    ForkRefines(s, g, child, lim);
  }

  /** The registry's part of an End, then the stack's part. */
  function MarkedBy<F(==)>(s: System<F>, key: SpanKey): System<F> {
    var (registry, ended) := MarkOf(s.registry, s.ended, key);
    s.(registry := registry, ended := ended)
  }

  function UnlinkedBy<F(==)>(s: System<F>, g: Gid, key: SpanKey): System<F> {
    if g !in s.slots then s
    else s.(slots := s.slots[g := DelOf(s.slots[g], key)], ended := EndedByDel(s.slots[g], s.ended, key))
  }

  lemma EndIsSteps<F>(s: System<F>, g: Gid, key: SpanKey, lim: Limits)
    requires Inv(s, lim) && lim.Valid() && s.phases == map[] && key.IsValid()
    ensures var s' := UnlinkedBy(MarkedBy(s, key), g, key);
      && Takes(s, [MarkEnded(g, key), Unlink(g)], [Done, Done], s', lim)
      && Inv(s', lim) && s'.phases == map[] && s'.issued == s.issued
      && Abs(s') == Eager(RemoveEverywhere(Abs(s).stacks, key), map[], Remove(Abs(s).live, key))
  {
    hide Inv, LiveSpans;
    var s1 := Step(s, MarkEnded(g, key), lim).0;
    MarkRefines(s, g, key, lim);
    UnlinkRefines(s1, g, lim);
    TwoSteps(s, MarkEnded(g, key), Unlink(g), lim);
    hide Takes;
    assert s1.phases - {g} == map[];
    assert s1 == MarkedBy(s, key).(phases := s1.phases);
    assert Step(s1, Unlink(g), lim).0 == UnlinkedBy(MarkedBy(s, key), g, key);
  }

  lemma ClearIsStep<F>(s: System<F>, g: Gid, lim: Limits)
    requires Inv(s, lim) && lim.Valid() && s.phases == map[]
    ensures var s' := s.(slots := s.slots[g := Empty()]);
      && Takes(s, [Op.Clear(g)], [Done], s', lim) && Inv(s', lim)
      && Abs(s') == Abs(s).(stacks := Abs(s).stacks[g := []])
      && StackOf(Abs(s'), g) == [] && forall h :: h != g ==> StackOf(Abs(s'), h) == StackOf(Abs(s), h)
  {
    EveryStepRefines(s, Op.Clear(g), lim);
    OneStep(s, Op.Clear(g), lim);
    hide LiveSpans, Inv;
  }

  /** The flag for a key: the one already registered for it, or else a new one. */
  predicate Fits<F(==)>(s: System<F>, key: SpanKey, flag: F) {
    if key in s.registry.states then s.registry.states[key] == flag else flag !in s.issued
  }

  function TrackedBy<F(==)>(s: System<F>, key: SpanKey, flag: F, lim: Limits): System<F> {
    var (registry, flag', ended) := StateFor(s.registry, s.ended, key, flag, lim.maxStates);
    s.(registry := registry, ended := ended, issued := s.issued + {flag'})
  }

  function PushedBy<F(==)>(s: System<F>, g: Gid, span: Span, flag: F): System<F> {
    s.(slots := s.slots[g := PushOf(SlotOf(s, g), span, flag)])
  }

  function RoomBy<F(==)>(s: System<F>, g: Gid, lim: Limits): System<F> {
    s.(slots := s.slots[g := RoomOf(SlotOf(s, g), s.ended, lim.maxSpans)])
  }

  /** A refused span leaves a compacted stack and takes the capacity check only. */
  lemma RefusalIsStep<F>(s: System<F>, g: Gid, span: Span, lim: Limits)
    requires Inv(s, lim) && lim.Valid() && s.phases == map[] && span.key.IsValid()
    ensures var room := RoomBy(s, g, lim);
      var ok := |room.slots[g].entries| < lim.maxSpans;
      && ok == (|StackOf(Abs(s), g)| < lim.maxSpans)
      && Inv(room, lim) && (forall h :: StackOf(Abs(room), h) == StackOf(Abs(s), h))
      && (!ok ==> Takes(s, [AddCheck(g, span)], [Admitted(false)], room, lim))
  {
    RoomIsInvisible(s, g, lim);
    OneStep(s, AddCheck(g, span), lim);
    hide Inv, LiveSpans;
  }

  /** An admitted span takes the capacity check and the push. */
  lemma AdmissionIsSteps<F>(s: System<F>, g: Gid, span: Span, flag: F, lim: Limits)
    requires Inv(s, lim) && lim.Valid() && s.phases == map[] && span.key.IsValid()
    requires |StackOf(Abs(s), g)| < lim.maxSpans
    requires Fits(s, span.key, flag)
    ensures var s' := PushedBy(TrackedBy(RoomBy(s, g, lim), span.key, flag, lim), g, span, flag);
      && Takes(s, [AddCheck(g, span), AddPush(g, flag)], [Admitted(true), Done], s', lim)
      && Inv(s', lim) && s'.phases == map[]
      && StackOf(Abs(s'), g) != [] && StackOf(Abs(s'), g)[0] == span
  {
    CheckRefines(s, g, span, lim);
    CheckThenPush(s, g, span, flag, lim);
    hide *;
    var s1 := Step(s, AddCheck(g, span), lim).0;
    PushRefines(s1, g, flag, lim);
    PushedIsOnTop(s1, g, span, flag, lim);
    TwoSteps(s, AddCheck(g, span), AddPush(g, flag), lim);
  }

  lemma PushedIsOnTop<F>(s: System<F>, g: Gid, span: Span, flag: F, lim: Limits)
    requires Enabled(s, AddPush(g, flag)) && StepRefines(s, AddPush(g, flag), lim) && s.phases[g] == Adding(span)
    ensures var stack := StackOf(Abs(Step(s, AddPush(g, flag), lim).0), g); stack != [] && stack[0] == span
  {
    hide Inv, Step, LiveSpans, RemoveEverywhere;
  }

  lemma CheckThenPush<F>(s: System<F>, g: Gid, span: Span, flag: F, lim: Limits)
    requires Enabled(s, AddCheck(g, span)) && s.phases == map[] && Fits(s, span.key, flag)
    ensures var op: Op<F> := AddCheck(g, span); EagerStep(Abs(s), op, lim).1 == Admitted(|StackOf(Abs(s), g)| < lim.maxSpans)
    ensures Step(s, AddCheck(g, span), lim).1.room ==>
      var s1 := Step(s, AddCheck(g, span), lim).0;
      && Enabled(s1, AddPush(g, flag)) && s1.phases[g] == Adding(span)
      && Step(s1, AddPush(g, flag), lim) == (PushedBy(TrackedBy(RoomBy(s, g, lim), span.key, flag, lim), g, span, flag), Done)
      && PushedBy(TrackedBy(RoomBy(s, g, lim), span.key, flag, lim), g, span, flag).phases == map[]
  {
    var op: Op<F> := AddCheck(g, span);
    var s1 := Step(s, op, lim).0;
    if Step(s, op, lim).1.room { assert s1.phases - {g} == map[]; }
    hide RoomOf, LiveSpans, Abs;
  }

  lemma SetTwice<K, V>(m: map<K, V>, k: K, a: V, b: V)
    ensures m[k := a][k := b] == m[k := b]
  {
  }

  /** The goroutine's stack: a well-formed list of its own nodes, with the given contents. */
  ghost predicate Holds(g: Gid, tc: TraceContext, c: Context<Flag>)
    reads tc, tc.nodes
  {
    && tc.home == g && (forall w :: w in tc.nodes ==> w.owner == tc)
    && tc.Valid() && tc.Contents() == c
  }

  ghost predicate Tracks(states: SpanStates, registry: Registry<Flag>)
    reads states
  {
    states.Valid() && states.Model() == registry
  }

  lemma Holding(g: Gid, tc: TraceContext)
    requires tc.home == g && tc.Valid() && forall w :: w in tc.nodes ==> w.owner == tc
    ensures Holds(g, tc, tc.Contents())
  {
  }

  class Goroutines {
    var slots: map<Gid, TraceContext>  // goroutines whose slot is not nil
    const states: SpanStates
    const maxSpans: nat
    ghost var wrappers: set<Wrapper>   // every list node of every slot
    ghost var model: System<Flag>      // the state of GlsProtocol this represents

    ghost function Limits(): Limits {
      GlsProtocol.Limits(maxSpans, states.maxStates)
    }

    ghost predicate SlotsMatch()
      reads this, slots.Values, wrappers
    {
      && (forall g :: g in slots ==> g in model.slots)
      && (forall g :: g in model.slots ==> g in slots)
      && (forall g, w :: g in slots && w in slots[g].nodes ==> w in wrappers)
      && (forall g :: g in slots ==> Holds(g, slots[g], model.slots[g]))
    }

    /** The program's state is the model's. */
    ghost predicate Matches()
      reads this, slots.Values, wrappers, states, model.issued
    {
      SlotsMatch() && Tracks(states, model.registry) && EndedIn(model.issued) == model.ended
    }

    ghost predicate Valid()
      reads this, slots.Values, wrappers, states, model.issued
    {
      Matches() && model.phases == map[] && Limits().Valid() && Inv(model, Limits())
    }

    constructor (maxSpans: nat, maxStates: nat)
      requires maxSpans > 0 && maxStates > 0
      ensures Valid() && model == Init()
    {
      slots, this.maxSpans, wrappers, model := map[], maxSpans, {}, Init();
      states := new SpanStates(maxStates);
    }

    /** Every flag in use is a known one. */
    ghost predicate FlagsClosed()
      reads this, slots.Values, states
    {
      && (forall g, w :: g in slots && w in slots[g].nodes ==> w.flag in model.issued)
      && states.Flags() <= model.issued
    }

    lemma FlagsKnown()
      requires Matches() && Inv(model, Limits())
      ensures FlagsClosed()
      ensures forall g :: g in slots ==> slots[g].Agrees(model.ended)
    {
      forall g, w | g in slots && w in slots[g].nodes
        ensures w.flag in model.issued && (w.flag.ended <==> w.flag in model.ended)
      {
        var c := model.slots[g];
        assert SlotInv(c, model, Limits());
        var i :| 0 <= i < |slots[g].nodes| && slots[g].nodes[i] == w;
        assert c.entries[i].flag == w.flag;
        assert EntryOk(c.entries[i], model);
      }
      forall k | k in states.states ensures states.states[k].state in model.issued {
        assert model.registry.states[k] in model.issued;
      }
    }

    /** No two goroutines share a stack or a list node. */
    lemma NothingShared(g: Gid, h: Gid)
      requires SlotsMatch() && g in slots && h in slots && g != h
      ensures slots[g] != slots[h]
      ensures forall w :: w in slots[h].nodes ==> w !in slots[g].nodes
    {
      assert Holds(g, slots[g], model.slots[g]) && Holds(h, slots[h], model.slots[h]);
    }

    lemma OwnStack(g: Gid)
      requires Matches() && g in slots
      ensures forall h :: h in slots && h != g ==> slots[h] != slots[g]
      ensures forall w :: w in slots[g].nodes ==> w.owner == slots[g] && w in wrappers
      ensures slots[g].home == g && slots[g].Valid()
      ensures g in model.slots && slots[g].Contents() == model.slots[g]
      ensures Tracks(states, model.registry) && EndedIn(model.issued) == model.ended
    {
      forall h | h in slots && h != g ensures slots[h] != slots[g] {
        NothingShared(g, h);
      }
    }

    lemma Registry()
      requires Matches()
      ensures states.Valid() && states.Model() == model.registry && EndedIn(model.issued) == model.ended
    {
    }

    /** After an operation that touches no stack, everything still matches. */
    twostate lemma OnlyRegistryChanged()
      requires old(Matches()) && slots == old(slots) && wrappers == old(wrappers)
      requires forall g :: g in slots ==> unchanged(slots[g])
      requires forall w :: w in wrappers ==> unchanged(w)
      requires model.slots == old(model).slots
      requires Tracks(states, model.registry) && EndedIn(model.issued) == model.ended
      ensures Matches()
    {
      forall h | h in slots ensures Holds(h, slots[h], model.slots[h]) {
        assert old(Holds(h, slots[h], model.slots[h]));
        forall w | w in slots[h].nodes ensures unchanged(w) {
          assert h in old(slots) && w in old(slots[h].nodes) && w in wrappers;
        }
        Untouched(slots[h]);
      }
    }

    /** After an operation on one goroutine's own stack, everything still matches. */
    twostate lemma OneSlotChanged(g: Gid)
      requires old(Matches()) && slots == old(slots) && g in slots && g in model.slots
      requires old(wrappers) <= wrappers && forall w :: w in slots[g].nodes ==> w in wrappers
      requires Holds(g, slots[g], model.slots[g])
      requires forall h :: h in slots && h != g ==> unchanged(slots[h])
      requires forall w :: w in old(wrappers) && w.owner != slots[g] ==> unchanged(w)
      requires model.slots == old(model).slots[g := model.slots[g]]
      requires Tracks(states, model.registry) && EndedIn(model.issued) == model.ended
      ensures Matches()
    {
      assert old(Holds(g, slots[g], model.slots[g]));
      forall h | h in slots && h != g ensures Holds(h, slots[h], model.slots[h]) {
        assert old(Holds(h, slots[h], model.slots[h]));
        Untouched(slots[h]);
      }
    }

    /** `tail` on one goroutine's own stack. */
    method TailAt(g: Gid) returns (r: Option<Span>)
      requires Matches() && g in slots && slots[g].Agrees(model.ended)
      modifies this`model, slots.Values
      ensures Matches() && r == Top(model.slots[g])
      ensures model == old(model).(slots := old(model).slots[g := TailOf(old(model).slots[g], model.ended)])
    {
      hide *;
      OwnStack(g);
      r := slots[g].Tail(model.ended);
      model := model.(slots := model.slots[g := TailOf(model.slots[g], model.ended)]);
      Holding(g, slots[g]);
      OneSlotChanged(g);
    }

    /** A goroutine's innermost live span, as `SpanFromGLS` reports it. */
    method Lookup(g: Gid) returns (r: Option<Span>)
      requires Valid()
      modifies this`model, slots.Values
      ensures Valid() && Takes(old(model), [Op.Lookup(g)], [Found(r)], model, Limits())
      ensures Abs(model) == Abs(old(model))
      ensures r == var stack := StackOf(Abs(old(model)), g); if stack == [] then None else Some(stack[0])
    {
      LookupIsStep(model, g, Limits());
      if g !in slots {
        return None;
      }
      FlagsKnown();
      r := TailAt(g);
    }

    /** `trace.SpanFromContext`: a valid span of the context is kept, otherwise the
        goroutine's innermost live span takes its place when there is one. */
    method SpanFromContext(g: Gid, fromContext: Span) returns (r: Span)
      requires Valid()
      modifies this`model, slots.Values
      ensures Valid()
      ensures Abs(model) == Abs(old(model))
      ensures fromContext.key.traceId != 0 && fromContext.key.spanId != 0 ==> r == fromContext
      ensures fromContext.key.traceId == 0 || fromContext.key.spanId == 0 ==>
                r == var stack := StackOf(Abs(old(model)), g); if stack == [] then fromContext else stack[0]
    {
      hide Holds, Tracks, Inv;
      r := fromContext;
      if fromContext.key.IsValid() {
        return;
      }
      var found := Lookup(g);
      if found.Some? {
        r := found.value;
      }
    }

    /** `newproc1`: the new goroutine's slot is overwritten by a clone of the caller's. */
    method Fork(g: Gid, child: Gid)
      requires Valid() && child != g
      modifies this`model, this`slots, this`wrappers, slots.Values
      ensures Valid() && Takes(old(model), [Op.Fork(g, child)], [Done], model, Limits())
      ensures Abs(model) == EagerStep(Abs(old(model)), Op<Flag>.Fork(g, child), Limits()).0
      ensures StackOf(Abs(model), child) == var stack := StackOf(Abs(old(model)), g); if stack == [] then [] else [stack[0]]
      ensures forall h :: h != child ==> StackOf(Abs(model), h) == StackOf(Abs(old(model)), h)
    {
      ForkIsStep(model, g, child, Limits());
      ForkedStacks(Abs(model), g, child, Limits());
      hide *;
      if g !in slots {
        ClearSlot(child);
        return;
      }
      FlagsKnown();
      var clone := CloneAt(g, child);
      SetSlot(child, clone, CloneOf(model.slots[g]));
    }

    method ClearSlot(g: Gid)
      requires Matches()
      modifies this`model, this`slots
      ensures Matches() && model == old(model).(slots := old(model).slots - {g})
    {
      hide Holds, Tracks;
      slots := slots - {g};
      model := model.(slots := model.slots - {g});
      forall h | h in slots ensures Holds(h, slots[h], model.slots[h]) {
        assert old(Holds(h, slots[h], model.slots[h]));
      }
      assert SlotsMatch();
      hide SlotsMatch;
    }

    method CloneAt(g: Gid, child: Gid) returns (r: TraceContext)
      requires Matches() && g in slots && slots[g].Agrees(model.ended)
      modifies this`model, slots.Values
      ensures Matches() && model == old(model).(slots := old(model).slots[g := TailOf(old(model).slots[g], model.ended)])
      ensures fresh(r) && fresh(r.nodes) && Holds(child, r, CloneOf(model.slots[g]))
    {
      hide *;
      OwnStack(g);
      r := slots[g].Clone(model.ended, child);
      Holding(child, r);
      model := model.(slots := model.slots[g := TailOf(model.slots[g], model.ended)]);
      Holding(g, slots[g]);
      OneSlotChanged(g);
    }

    /** Stores a context that no slot holds yet. */
    method SetSlot(g: Gid, tc: TraceContext, ghost c: Context<Flag>)
      requires Matches() && Holds(g, tc, c)
      modifies this`model, this`slots, this`wrappers
      ensures Matches() && slots == old(slots)[g := tc] && wrappers == old(wrappers) + set w | w in tc.nodes
      ensures model == old(model).(slots := old(model).slots[g := c])
    {
      hide Holds, Tracks;
      wrappers := wrappers + set w | w in tc.nodes;
      model := model.(slots := model.slots[g := c]);
      slots := slots[g := tc];
      forall h | h in slots ensures Holds(h, slots[h], model.slots[h]) {
        assert h != g ==> old(Holds(h, slots[h], model.slots[h]));
      }
      assert SlotsMatch();
      hide SlotsMatch;
    }

    /** The before-hooks on a span's End, on whichever goroutine calls it. */
    method End(g: Gid, span: Span)
      requires Valid() && span.key.IsValid()
      modifies this`model, slots.Values, wrappers, states, model.issued
      ensures Valid()
      ensures Takes(old(model), [MarkEnded(g, span.key), Unlink(g)], [Done, Done], model, Limits())
      ensures Abs(model).stacks == RemoveEverywhere(Abs(old(model)).stacks, span.key)
    {
      hide Holds, Tracks, Inv;
      EndIsSteps(model, g, span.key, Limits());
      EndAt(g, span);
    }

    method EndAt(g: Gid, span: Span)
      requires Matches() && Inv(model, Limits()) && span.key.IsValid()
      modifies this`model, slots.Values, wrappers, states, model.issued
      ensures Matches() && model == UnlinkedBy(MarkedBy(old(model), span.key), g, span.key)
    {
      hide Holds, Tracks, Inv;
      MarkKeepsInv(model, span.key, Limits());
      FlagsKnown();
      MarkAt(span);
      FlagsKnown();
      if g in slots {
        DelAt(g, span);
      }
    }

    /** `markSpanEnded`: only the registry and one flag change. */
    method MarkAt(span: Span)
      requires Matches() && span.key.IsValid() && states.Flags() <= model.issued
      modifies this`model, states, model.issued
      ensures Matches()
      ensures var t := MarkOf(old(model).registry, old(model).ended, span.key);
        model == old(model).(registry := t.0, ended := t.1)
    {
      hide *;
      Registry();
      states.MarkSpanEnded(span, model.issued);
      model := model.(registry := states.Model(), ended := EndedIn(model.issued));
      OnlyRegistryChanged();
    }

    /** `del` on one goroutine's own stack. */
    method DelAt(g: Gid, span: Span)
      requires Matches() && g in slots && g in model.slots && forall w :: w in slots[g].nodes ==> w.flag in model.issued
      modifies this`model, slots.Values, wrappers, model.issued
      ensures Matches()
      ensures var c := old(model).slots[g];
        model == old(model).(slots := old(model).slots[g := DelOf(c, span.key)],
                             ended := EndedByDel(c, old(model).ended, span.key))
    {
      hide *;
      OwnStack(g);
      slots[g].Del(span, model.issued);
      model := model.(slots := model.slots[g := slots[g].Contents()], ended := EndedIn(model.issued));
      Holding(g, slots[g]);
      OneSlotChanged(g);
    }

    /** `ClearTraceContext`. */
    method Clear(g: Gid)
      requires Valid()
      modifies this`model, this`slots, this`wrappers, slots.Values
      ensures Valid() && Takes(old(model), [Op.Clear(g)], [Done], model, Limits())
      ensures StackOf(Abs(model), g) == [] && forall h :: h != g ==> StackOf(Abs(model), h) == StackOf(Abs(old(model)), h)
    {
      ClearIsStep(model, g, Limits());
      hide StackOf, Abs;
      ResetAt(g);
    }

    method ResetAt(g: Gid)
      requires Matches()
      modifies this`model, this`slots, this`wrappers, slots.Values
      ensures Matches() && model == old(model).(slots := old(model).slots[g := Empty()])
    {
      hide Tracks, Holds;
      InitSlot(g);
      EmptyAt(g);
      SetTwice(old(model).slots, g, SlotOf(old(model), g), Empty());
    }

    method EmptyAt(g: Gid)
      requires Matches() && g in slots
      modifies this`model, slots.Values
      ensures Matches() && model == old(model).(slots := old(model).slots[g := Empty()])
    {
      hide *;
      OwnStack(g);
      slots[g].Clear();
      model := model.(slots := model.slots[g := Empty()]);
      Holding(g, slots[g]);
      OneSlotChanged(g);
    }

    /** `getOrInitTraceContext`. */
    method InitSlot(g: Gid)
      requires Matches()
      modifies this`model, this`slots, this`wrappers
      ensures Matches() && g in slots
      ensures slots == if g in old(slots) then old(slots) else old(slots)[g := slots[g]]
      ensures (g !in old(slots) ==> fresh(slots[g]) && slots[g].nodes == []) && forall w :: w in wrappers ==> w in old(wrappers)
      ensures model == old(model).(slots := old(model).slots[g := SlotOf(old(model), g)])
    {
      hide Tracks;
      if g !in slots {
        var tc := new TraceContext(g);
        SetSlot(g, tc, Empty());
      }
    }

    /** `traceContextAddSpan`, run by the after-hooks that see a span created. */
    method Create(g: Gid, span: Span) returns (ok: bool, ghost flag: Flag?)
      requires Valid() && span.key.IsValid()
      modifies this`model, this`slots, this`wrappers, slots.Values, wrappers, states, model.issued
      ensures Valid() && ok == (|StackOf(Abs(old(model)), g)| < maxSpans)
      ensures ok ==> StackOf(Abs(model), g) != [] && StackOf(Abs(model), g)[0] == span
      ensures !ok ==> forall h :: StackOf(Abs(model), h) == StackOf(Abs(old(model)), h)
      ensures !ok ==> Takes(old(model), [AddCheck(g, span)], [Admitted(false)], model, Limits())
      ensures ok ==> flag != null && var f: Flag := flag;
        Takes(old(model), [AddCheck(g, span), AddPush(g, f)], [Admitted(true), Done], model, Limits())
    {
      hide Holds, Tracks, Inv;
      RefusalIsStep(model, g, span, Limits());
      ok, flag := AddAt(g, span);
      if ok {
        ghost var f: Flag := flag;
        AdmissionIsSteps(old(model), g, span, f, Limits());
      }
    }

    /** `add`: refuses the span only when the stack stays full after compaction. */
    method AddAt(g: Gid, span: Span) returns (ok: bool, ghost flag: Flag?)
      requires Matches() && Inv(model, Limits()) && Limits().Valid() && span.key.IsValid()
      modifies this`model, this`slots, this`wrappers, slots.Values, wrappers, states, model.issued
      ensures Matches()
      ensures var room := RoomBy(old(model), g, Limits());
        && ok == (|room.slots[g].entries| < maxSpans)
        && (!ok ==> model == room)
        && (ok ==> flag != null && Fits(old(model), span.key, flag))
        && (ok ==> model == PushedBy(TrackedBy(room, span.key, flag, Limits()), g, span, flag))
    {
      hide Holds, Tracks, Inv;
      EnsureRoom(g);
      ok, flag := slots[g].n < maxSpans, null;
      OwnStack(g);
      if ok {
        var state := TrackAt(span);
        PushAt(g, span, state);
        flag := state;
      }
    }

    method EnsureRoom(g: Gid)
      requires Matches() && Inv(model, Limits())
      modifies this`model, this`slots, this`wrappers, slots.Values, wrappers
      ensures Matches() && g in slots && model == RoomBy(old(model), g, Limits())
      ensures states.Flags() <= model.issued
      ensures (forall w :: w in wrappers ==> w in old(wrappers)) && forall h :: h in slots ==> slots[h] in old(slots.Values) || fresh(slots[h])
    {
      hide Holds, Tracks;
      FlagsKnown();
      hide Inv, Matches, RoomOf;
      InitSlot(g);
      RoomAt(g);
      SetTwice(old(model).slots, g, SlotOf(old(model), g), model.slots[g]);
    }

    method RoomAt(g: Gid)
      requires Matches() && g in slots && g in model.slots && slots[g].Agrees(model.ended)
      modifies this`model, slots.Values, wrappers
      ensures Matches()
      ensures model == old(model).(slots := old(model).slots[g := RoomOf(old(model).slots[g], model.ended, maxSpans)])
    {
      hide *;
      OwnStack(g);
      slots[g].MakeRoom(maxSpans, model.ended);
      model := model.(slots := model.slots[g := slots[g].Contents()]);
      Holding(g, slots[g]);
      OneSlotChanged(g);
    }

    method TrackAt(span: Span) returns (flag: Flag)
      requires Matches() && span.key.IsValid() && states.Flags() <= model.issued
      modifies this`model, states, model.issued
      ensures Matches()
      ensures var t := StateFor(old(model).registry, old(model).ended, span.key, flag, states.maxStates);
        t.1 == flag && model == old(model).(registry := t.0, ended := t.2, issued := old(model).issued + {flag})
      ensures flag !in old(model).issued || span.key in old(model).registry.states
    {
      hide *;
      Registry();
      flag := states.StateForSpan(span, model.issued);
      UnsetFlag(model.issued, flag);
      model := model.(registry := states.Model(), ended := EndedIn(model.issued), issued := model.issued + {flag});
      OnlyRegistryChanged();
    }

    method PushAt(g: Gid, span: Span, flag: Flag)
      requires Matches() && g in slots && g in model.slots
      modifies this`model, this`wrappers, slots.Values
      ensures Matches()
      ensures model == old(model).(slots := old(model).slots[g := PushOf(old(model).slots[g], span, flag)])
    {
      hide *;
      OwnStack(g);
      slots[g].Push(span, flag);
      wrappers := wrappers + {slots[g].nodes[0]};
      model := model.(slots := model.slots[g := slots[g].Contents()]);
      Holding(g, slots[g]);
      OneSlotChanged(g);
    }
  }
}
