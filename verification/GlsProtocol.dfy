/** The span stacks of all goroutines together with the bounded registry of
    shared ended flags, as a state machine whose atomic steps are the
    registry's locked sections and each goroutine's work on its own stack. */
module GlsProtocol {
  import opened Common
  import opened GlsStack

  type Gid = nat

  datatype Limits = Limits(maxSpans: nat, maxStates: nat) {
    /** Both limits are positive: the environment can only replace the defaults by positive numbers. */
    predicate Valid() { maxSpans > 0 && maxStates > 0 }
  }

  // ---- the registry ----

  /** Ended flags of the tracked spans, and their keys in insertion order. */
  datatype Registry<F> = Registry(states: map<SpanKey, F>, order: seq<SpanKey>)

  /** The map and the order list hold the same keys, each once, within the bound. */
  ghost predicate RegistryInv<F>(r: Registry<F>, maxStates: nat) {
    && NoRepeats(r.order)
    && (forall k :: k in r.states ==> k in r.order) && (forall k :: k in r.order ==> k in r.states)
    && |r.order| == |r.states| <= maxStates
  }

  function Remove<T(==)>(s: seq<T>, x: T): seq<T> {
    if s == [] then [] else if s[0] == x then s[1..] else [s[0]] + Remove(s[1..], x)
  }

  // Each registry operation takes the set of ended flags and returns the new one.

  /** `evictOldestLocked`: drops the oldest key, setting its flag. */
  function EvictOldest<F>(r: Registry<F>, ended: set<F>): (Registry<F>, set<F>) {
    if r.order == [] then (r, ended)
    else
      var oldest := r.order[0];
      (Registry(r.states - {oldest}, r.order[1..]), if oldest in r.states then ended + {r.states[oldest]} else ended)
  }

  /** Eviction happens only when the registry is full. */
  function Evict<F>(r: Registry<F>, ended: set<F>, maxStates: nat): (Registry<F>, set<F>) {
    if |r.states| >= maxStates then EvictOldest(r, ended) else (r, ended)
  }

  /** `stateForSpan` for a valid key: the registry, the key's flag, and the ended flags. */
  function StateFor<F>(r: Registry<F>, ended: set<F>, key: SpanKey, spare: F, maxStates: nat): (Registry<F>, F, set<F>) {
    if key in r.states then (r, r.states[key], ended)
    else
      var (room, ended') := Evict(r, ended, maxStates);
      (Registry(room.states[key := spare], room.order + [key]), spare, ended')
  }

  /** `markSpanEnded` for a valid key. */
  function MarkOf<F>(r: Registry<F>, ended: set<F>, key: SpanKey): (Registry<F>, set<F>) {
    if key in r.states then (Registry(r.states - {key}, Remove(r.order, key)), ended + {r.states[key]})
    else (r, ended)
  }

  // ---- the system ----

  /** What a goroutine is in the middle of: between the capacity check and the
      push of a new span, or between marking a span ended and unlinking it. */
  datatype Phase = Adding(span: Span) | Ending(key: SpanKey)

  datatype System<F> = System(
    slots: map<Gid, Context<F>>,   // goroutines whose slot is not nil
    phases: map<Gid, Phase>,
    registry: Registry<F>,
    ended: set<F>,
    issued: set<F>)

  datatype Op<F> =
    | AddCheck(g: Gid, span: Span)
    | AddPush(g: Gid, spare: F)
    | MarkEnded(g: Gid, key: SpanKey)
    | Unlink(g: Gid)
    | Lookup(g: Gid)
    | Fork(g: Gid, child: Gid)
    | Clear(g: Gid)

  datatype Answer = Admitted(room: bool) | Found(span: Option<Span>) | Done

  function Init<F>(): System<F> { System(map[], map[], Registry(map[], []), {}, {}) }

  /** Program order of each goroutine; spans carry valid contexts, new flags are
      new objects, and a fork may reuse the slot of any goroutine not running. */
  predicate Enabled<F(==)>(s: System<F>, op: Op<F>) {
    match op
    case AddCheck(g, span) => g !in s.phases && span.key.IsValid()
    case AddPush(g, spare) =>
      g in s.phases && s.phases[g].Adding? && (spare !in s.issued || s.phases[g].span.key in s.registry.states)
    case MarkEnded(g, key) => g !in s.phases && key.IsValid()
    case Unlink(g) => g in s.phases && s.phases[g].Ending?
    case Lookup(g) => g !in s.phases
    case Fork(g, child) => g !in s.phases && child != g && child !in s.phases
    case Clear(g) => g !in s.phases
  }

  function SlotOf<F>(s: System<F>, g: Gid): Context<F> {
    if g in s.slots then s.slots[g] else Empty()
  }

  function Step<F(==)>(s: System<F>, op: Op<F>, lim: Limits): (System<F>, Answer)
    requires Enabled(s, op)
  {
    match op
    case AddCheck(g, span) =>
      var c := RoomOf(SlotOf(s, g), s.ended, lim.maxSpans);
      var ok := |c.entries| < lim.maxSpans;
      (s.(slots := s.slots[g := c], phases := if ok then s.phases[g := Adding(span)] else s.phases), Admitted(ok))
    case AddPush(g, spare) =>
      var span := s.phases[g].span;
      var (registry, flag, ended) := StateFor(s.registry, s.ended, span.key, spare, lim.maxStates);
      (System(s.slots[g := PushOf(SlotOf(s, g), span, flag)], s.phases - {g}, registry,
              ended, s.issued + {flag}), Done)
    case MarkEnded(g, key) =>
      var (registry, ended) := MarkOf(s.registry, s.ended, key);
      (s.(phases := s.phases[g := Ending(key)], registry := registry, ended := ended), Done)
    case Unlink(g) =>
      var key := s.phases[g].key;
      if g !in s.slots then (s.(phases := s.phases - {g}), Done)
      else
        var c := s.slots[g];
        (s.(slots := s.slots[g := DelOf(c, key)], phases := s.phases - {g}, ended := EndedByDel(c, s.ended, key)), Done)
    case Lookup(g) =>
      if g !in s.slots then (s, Found(None))
      else
        var c := TailOf(s.slots[g], s.ended);
        (s.(slots := s.slots[g := c]), Found(Top(c)))
    case Fork(g, child) =>
      if g !in s.slots then (s.(slots := s.slots - {child}), Done)
      else
        var c := TailOf(s.slots[g], s.ended);
        (s.(slots := s.slots[g := c][child := CloneOf(c)]), Done)
    case Clear(g) =>
      (s.(slots := s.slots[g := Empty()]), Done)
  }

  // ---- the simple model: an ended or evicted span leaves every stack at once ----

  datatype Eager = Eager(stacks: map<Gid, seq<Span>>, phases: map<Gid, Phase>, live: seq<SpanKey>)

  function RemoveKey(spans: seq<Span>, key: SpanKey): seq<Span> {
    if spans == [] then []
    else if spans[0].key == key then RemoveKey(spans[1..], key)
    else [spans[0]] + RemoveKey(spans[1..], key)
  }

  function RemoveEverywhere(stacks: map<Gid, seq<Span>>, key: SpanKey): map<Gid, seq<Span>> {
    map g | g in stacks :: RemoveKey(stacks[g], key)
  }

  function StackOf(e: Eager, g: Gid): seq<Span> {
    if g in e.stacks then e.stacks[g] else []
  }

  function EagerPush(e: Eager, g: Gid, span: Span, maxStates: nat): Eager {
    var (stacks, live) :=
      if span.key in e.live then (e.stacks, e.live)
      else if |e.live| >= maxStates && e.live != [] then (RemoveEverywhere(e.stacks, e.live[0]), e.live[1..] + [span.key])
      else (e.stacks, e.live + [span.key]);
    Eager(stacks[g := [span] + (if g in stacks then stacks[g] else [])], e.phases - {g}, live)
  }

  function EagerStep<F(==)>(e: Eager, op: Op<F>, lim: Limits): (Eager, Answer)
  {
    match op
    case AddCheck(g, span) =>
      var ok := |StackOf(e, g)| < lim.maxSpans;
      (e.(stacks := e.stacks[g := StackOf(e, g)], phases := if ok then e.phases[g := Adding(span)] else e.phases), Admitted(ok))
    case AddPush(g, _) =>
      (if g in e.phases && e.phases[g].Adding? then EagerPush(e, g, e.phases[g].span, lim.maxStates) else e, Done)
    case MarkEnded(g, key) =>
      (Eager(RemoveEverywhere(e.stacks, key), e.phases[g := Ending(key)], Remove(e.live, key)), Done)
    case Unlink(g) => (e.(phases := e.phases - {g}), Done)
    case Lookup(g) => (e, Found(if StackOf(e, g) == [] then None else Some(StackOf(e, g)[0])))
    case Fork(g, child) =>
      var top := if StackOf(e, g) == [] then [] else [StackOf(e, g)[0]];
      (e.(stacks := if g in e.stacks then e.stacks[child := top] else e.stacks - {child}), Done)
    case Clear(g) => (e.(stacks := e.stacks[g := []]), Done)
  }

  // ---- runs ----

  /** Every operation of the list can be taken where its turn comes. */
  predicate Runnable<F(==)>(s: System<F>, ops: seq<Op<F>>, lim: Limits)
    decreases |ops|
  {
    ops == [] || (Enabled(s, ops[0]) && Runnable(Step(s, ops[0], lim).0, ops[1..], lim))
  }

  function Run<F(==)>(s: System<F>, ops: seq<Op<F>>, lim: Limits): (System<F>, seq<Answer>)
    requires Runnable(s, ops, lim)
    decreases |ops|
  {
    if ops == [] then (s, [])
    else
      var (s', a) := Step(s, ops[0], lim);
      var (end, answers) := Run(s', ops[1..], lim);
      (end, [a] + answers)
  }

  /** The operations can be taken one after the other and lead to `s'` with these answers. */
  ghost predicate Takes<F>(s: System<F>, ops: seq<Op<F>>, answers: seq<Answer>, s': System<F>, lim: Limits) {
    Runnable(s, ops, lim) && Run(s, ops, lim) == (s', answers)
  }

  function EagerRun<F(==)>(e: Eager, ops: seq<Op<F>>, lim: Limits): (Eager, seq<Answer>)
    decreases |ops|
  {
    if ops == [] then (e, [])
    else
      var (e', a) := EagerStep(e, ops[0], lim);
      var (end, answers) := EagerRun(e', ops[1..], lim);
      (end, [a] + answers)
  }

  // ---- the invariant ----

  /** A wrapper is ended, or holds the very flag the registry stores for its key. */
  predicate EntryOk<F(==)>(e: Entry<F>, s: System<F>) {
    && e.flag in s.issued
    && e.span.key.IsValid()
    && (e.flag in s.ended || (e.span.key in s.registry.states && s.registry.states[e.span.key] == e.flag))
  }

  ghost predicate FlagsInv<F>(s: System<F>) {
    && s.ended <= s.issued
    && (forall k :: k in s.registry.states ==> s.registry.states[k] in s.issued && s.registry.states[k] !in s.ended)
    && (forall j, k :: j in s.registry.states && k in s.registry.states && s.registry.states[j] == s.registry.states[k] ==> j == k)
  }

  ghost predicate SlotInv<F>(c: Context<F>, s: System<F>, lim: Limits) {
    && |c.entries| <= lim.maxSpans
    && RootIsBottom(c)
    && forall e :: e in c.entries ==> EntryOk(e, s)
  }

  ghost predicate PhaseInv<F>(g: Gid, s: System<F>, lim: Limits)
    requires g in s.phases
  {
    match s.phases[g]
    case Adding(span) => span.key.IsValid() && g in s.slots && |s.slots[g].entries| < lim.maxSpans
    case Ending(key) => g in s.slots ==> forall e :: e in s.slots[g].entries && e.span.key == key ==> e.flag in s.ended
  }

  ghost predicate Inv<F>(s: System<F>, lim: Limits) {
    && RegistryInv(s.registry, lim.maxStates)
    && FlagsInv(s)
    && (forall g :: g in s.slots ==> SlotInv(s.slots[g], s, lim))
    && (forall g :: g in s.phases ==> PhaseInv(g, s, lim))
  }

  function Abs<F(==)>(s: System<F>): Eager {
    Eager(map g | g in s.slots :: LiveSpans(s.slots[g].entries, s.ended), s.phases, s.registry.order)
  }
}
