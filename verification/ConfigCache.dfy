/** Which instrumentations are on: the decision from three environment variables, and the
    cache that spares parsing them again, shared by all goroutines. */
module ConfigCache {
  import opened Common
  import opened Utf8
  import opened GoBytes

  const COMMA: byte := 0x2C

  /** The values of the three variables; an unset one reads as empty. */
  datatype Env = Env(sdkDisabled: Bytes, enabled: Bytes, disabled: Bytes)

  // ---- the lists ----

  /** The parts between the commas. */
  function SplitCommas(list: Bytes): (r: seq<Bytes>)
    ensures r != []
    decreases |list|
  {
    var comma := IndexByte(list, COMMA);
    if comma < 0 then [list] else [list[..comma]] + SplitCommas(list[comma + 1..])
  }

  /** `strings.ToLower` is a parameter. */
  type Lower = Bytes -> Bytes

  function ItemsOf(lower: Lower, parts: seq<Bytes>): seq<Bytes> {
    if parts == [] then []
    else
      var trimmed := TrimSpace(lower(parts[|parts| - 1]));
      ItemsOf(lower, parts[..|parts| - 1]) + if trimmed != [] then [trimmed] else []
  }

  function Items(lower: Lower, list: Bytes): seq<Bytes> { ItemsOf(lower, SplitCommas(list)) }

  method ParseInstrumentationList(lower: Lower, list: Bytes) returns (result: seq<Bytes>)
    ensures result == Items(lower, list)
  {
    hide TrimSpace, SplitCommas;
    result := [];
    var parts := SplitCommas(list);
    for i := 0 to |parts|
      invariant result == ItemsOf(lower, parts[..i])
    {
      assert parts[..i + 1][..i] == parts[..i];
      var trimmed := TrimSpace(lower(parts[i]));
      if trimmed != [] {
        result := result + [trimmed];
      }
    }
    assert parts[..|parts|] == parts;
  }

  // ---- the decision ----

  /** "true" in any mixture of cases. */
  predicate IsTrue(s: Bytes) {
    |s| == 4 && s[0] in {0x74, 0x54} && s[1] in {0x72, 0x52} && s[2] in {0x75, 0x55} && s[3] in {0x65, 0x45}
  }

  /** The decision without any cache. */
  predicate Decision(lower: Lower, env: Env, name: Bytes) {
    && !IsTrue(env.sdkDisabled)
    && (Items(lower, env.enabled) == [] || lower(name) in Items(lower, env.enabled))
    && lower(name) !in Items(lower, env.disabled)
  }

  /** What the comment promises: a list that is set enables only what it names. */
  predicate Documented(lower: Lower, env: Env, name: Bytes) {
    && !IsTrue(env.sdkDisabled)
    && (env.enabled == [] || lower(name) in Items(lower, env.enabled))
    && lower(name) !in Items(lower, env.disabled)
  }

  lemma NoItems(lower: Lower)
    requires TrimSpace(lower([])) == []
    ensures Items(lower, []) == []
  {
    assert SplitCommas([]) == [[]];
    var parts: seq<Bytes> := [[]];
    assert parts[..0] == [];
  }

  /** The code keeps the promise exactly when the list is unset or names something, or the
      instrumentation is off for another reason: a list of commas and blanks enables all. */
  lemma DocumentedIff(lower: Lower, env: Env, name: Bytes)
    requires TrimSpace(lower([])) == []
    ensures (Decision(lower, env, name) <==> Documented(lower, env, name))
       <==> env.enabled == [] || Items(lower, env.enabled) != [] || IsTrue(env.sdkDisabled) || lower(name) in Items(lower, env.disabled)
  {
    NoItems(lower);
  }

  /** A list that is a single comma is set and names nothing, yet everything is enabled. */
  lemma CommaEnablesAll(lower: Lower, name: Bytes)
    requires TrimSpace(lower([])) == []
    ensures var env := Env([], [COMMA], []); Decision(lower, env, name) && !Documented(lower, env, name)
  {
    NoItems(lower);
    var list := [COMMA];
    var parts: seq<Bytes> := [[], []];
    assert list[..0] == [] && list[1..] == [];
    assert SplitCommas([]) == [[]] && SplitCommas(list) == parts;
    assert parts[..1][..0] == [];
    assert ItemsOf(lower, parts[..1]) == [];
    assert Items(lower, list) == [];
  }

  // ---- the cache ----

  datatype Cache = Cache(
    raw: Env,
    isSdkDisabled: bool,
    hasEnabled: bool,
    enabledMap: set<Bytes>,
    disabledMap: set<Bytes>)

  function Members(items: seq<Bytes>): set<Bytes> { set x | x in items }

  /** `buildConfigCache` */
  function Built(lower: Lower, env: Env): Cache {
    Cache(env, IsTrue(env.sdkDisabled), Items(lower, env.enabled) != [], Members(Items(lower, env.enabled)),
          if env.disabled != [] then Members(Items(lower, env.disabled)) else {})
  }

  /** The answer read off a cache. */
  predicate Answer(c: Cache, lowered: Bytes) {
    && !c.isSdkDisabled
    && (c.hasEnabled ==> lowered in c.enabledMap)
    && lowered !in c.disabledMap
  }

  /** A cache built from the variables answers as they decide. */
  lemma BuiltAnswers(lower: Lower, env: Env, name: Bytes)
    requires TrimSpace(lower([])) == []
    ensures Answer(Built(lower, env), lower(name)) == Decision(lower, env, name)
  {
    NoItems(lower);
  }

  method BuildConfigCache(lower: Lower, env: Env) returns (c: Cache)
    ensures c == Built(lower, env)
  {
    c := Cache(env, IsTrue(env.sdkDisabled), false, {}, {});
    var parsed := ParseInstrumentationList(lower, env.enabled);
    if |parsed| > 0 {
      var m := Collect(parsed);
      c := c.(hasEnabled := true, enabledMap := m);
    }
    if env.disabled != [] {
      parsed := ParseInstrumentationList(lower, env.disabled);
      var m := Collect(parsed);
      c := c.(disabledMap := m);
    }
    assert Members([]) == {};
  }

  method Collect(items: seq<Bytes>) returns (m: set<Bytes>)
    ensures m == Members(items)
  {
    m := {};
    for i := 0 to |items|
      invariant m == Members(items[..i])
    {
      assert items[..i + 1] == items[..i] + [items[i]];
      m := m + {items[i]};
    }
    assert items[..|items|] == items;
  }

  /** The package's current cache. */
  class Config {
    const lower: Lower
    var cached: Option<Cache>

    ghost predicate Valid()
      reads this
    {
      TrimSpace(lower([])) == [] && (cached.Some? ==> cached.value == Built(lower, cached.value.raw))
    }

    constructor (lower: Lower)
      requires TrimSpace(lower([])) == []
      ensures Valid() && cached == None && this.lower == lower
    {
      this.lower, cached := lower, None;
    }

    /** One call, with the values the variables have during it. */
    method Instrumented(env: Env, name: Bytes) returns (r: bool)
      requires Valid()
      modifies this
      ensures Valid() && r == Decision(lower, env, name) && cached == Some(Built(lower, env))
    {
      hide *;
      CacheIs();
      if cached.None? || cached.value.raw != env {
        var c := BuildConfigCache(lower, env);
        cached := Some(c);
      }
      BuiltAnswers(lower, env, name);
      AnswerCases(cached.value, lower(name));
      BuiltRaw(env);
      ghost var valid := Valid();
      if cached.value.isSdkDisabled {
        return false;
      }
      var lowered := lower(name);
      if cached.value.hasEnabled {
        if lowered !in cached.value.enabledMap {
          return false;
        }
      }
      if lowered in cached.value.disabledMap {
        return false;
      }
      return true;
    }

    lemma CacheIs()
      requires Valid()
      ensures TrimSpace(lower([])) == [] && (cached.Some? ==> cached.value == Built(lower, cached.value.raw))
    {
    }

    lemma BuiltRaw(env: Env)
      ensures cached == Some(Built(lower, env)) && TrimSpace(lower([])) == [] ==> Valid()
    {
    }
  }

  lemma AnswerCases(c: Cache, lowered: Bytes)
    ensures Answer(c, lowered) == (!c.isSdkDisabled && (c.hasEnabled ==> lowered in c.enabledMap) && lowered !in c.disabledMap)
  {
  }

  // ---- calls that interleave with each other and with changes of the environment ----

  /** How far a call has come: what it has read, the cache it uses, whether that is still to
      be stored, and its answer. */
  datatype Call = Call(
    name: Bytes,
    sdkDisabled: Option<Bytes>, enabled: Option<Bytes>, disabled: Option<Bytes>,
    using: Option<Cache>, store: bool, answer: Option<bool>)

  datatype System = System(env: Env, cached: Option<Cache>, calls: map<nat, Call>)

  /** One read, load or store each; the environment may change between any two. */
  datatype Op =
    | SetEnv(env: Env)
    | Begin(id: nat, name: Bytes)
    | ReadSdkDisabled(id: nat)
    | ReadEnabled(id: nat)
    | ReadDisabled(id: nat)
    | Load(id: nat)
    | Store(id: nat)
    | Reply(id: nat)

  predicate Enabled(sys: System, op: Op) {
    match op
    case SetEnv(_) => true
    case Begin(id, _) => id !in sys.calls
    case ReadSdkDisabled(id) => id in sys.calls && sys.calls[id].sdkDisabled.None?
    case ReadEnabled(id) => id in sys.calls && sys.calls[id].sdkDisabled.Some? && sys.calls[id].enabled.None?
    case ReadDisabled(id) => id in sys.calls && sys.calls[id].enabled.Some? && sys.calls[id].disabled.None?
    case Load(id) => id in sys.calls && AllRead(sys.calls[id]) && sys.calls[id].using.None?
    case Store(id) => id in sys.calls && sys.calls[id].using.Some? && sys.calls[id].store
    case Reply(id) => id in sys.calls && sys.calls[id].using.Some? && !sys.calls[id].store && sys.calls[id].answer.None?
  }

  predicate AllRead(c: Call) { c.sdkDisabled.Some? && c.enabled.Some? && c.disabled.Some? }

  /** The values a call has read. */
  function Seen(c: Call): Env
    requires AllRead(c)
  {
    Env(c.sdkDisabled.value, c.enabled.value, c.disabled.value)
  }

  function Step(lower: Lower, sys: System, op: Op): System
    requires Enabled(sys, op)
  {
    match op
    case SetEnv(env) => sys.(env := env)
    case Begin(id, name) => sys.(calls := sys.calls[id := Call(name, None, None, None, None, false, None)])
    case ReadSdkDisabled(id) => sys.(calls := sys.calls[id := sys.calls[id].(sdkDisabled := Some(sys.env.sdkDisabled))])
    case ReadEnabled(id) => sys.(calls := sys.calls[id := sys.calls[id].(enabled := Some(sys.env.enabled))])
    case ReadDisabled(id) => sys.(calls := sys.calls[id := sys.calls[id].(disabled := Some(sys.env.disabled))])
    case Load(id) =>
      var c := sys.calls[id];
      if sys.cached.None? || sys.cached.value.raw != Seen(c)
      then sys.(calls := sys.calls[id := c.(using := Some(Built(lower, Seen(c))), store := true)])
      else sys.(calls := sys.calls[id := c.(using := sys.cached)])
    case Store(id) => sys.(cached := sys.calls[id].using, calls := sys.calls[id := sys.calls[id].(store := false)])
    case Reply(id) =>
      var c := sys.calls[id];
      sys.(calls := sys.calls[id := c.(answer := Some(Answer(c.using.value, lower(c.name))))])
  }

  predicate Runnable(lower: Lower, sys: System, ops: seq<Op>)
    decreases |ops|
  {
    ops == [] || (Enabled(sys, ops[0]) && Runnable(lower, Step(lower, sys, ops[0]), ops[1..]))
  }

  function Run(lower: Lower, sys: System, ops: seq<Op>): System
    requires Runnable(lower, sys, ops)
    decreases |ops|
  {
    if ops == [] then sys else Run(lower, Step(lower, sys, ops[0]), ops[1..])
  }

  predicate CallOk(lower: Lower, c: Call) {
    && (c.using.Some? ==> AllRead(c) && c.using.value == Built(lower, Seen(c)))
    && (c.answer.Some? ==> c.using.Some? && c.answer.value == Decision(lower, Seen(c), c.name))
  }

  /** Every cache, stored or in use, is the one built from the strings it names. */
  predicate Inv(lower: Lower, sys: System) {
    && (sys.cached.Some? ==> sys.cached.value == Built(lower, sys.cached.value.raw))
    && (forall id :: id in sys.calls ==> CallOk(lower, sys.calls[id]))
  }

  /** A step of one call leaves the other calls alone. */
  lemma OneCallSteps(lower: Lower, sys: System, op: Op)
    requires Enabled(sys, op) && !op.SetEnv?
    ensures var sys' := Step(lower, sys, op); op.id in sys'.calls && sys'.calls == sys.calls[op.id := sys'.calls[op.id]]
    ensures var sys' := Step(lower, sys, op); sys'.cached == if op.Store? then sys.calls[op.id].using else sys.cached
  {
    hide Built, Answer, Seen, AllRead;
  }

  lemma CallStaysOk(lower: Lower, sys: System, op: Op)
    requires TrimSpace(lower([])) == [] && Inv(lower, sys) && Enabled(sys, op) && !op.SetEnv?
    requires op.id in Step(lower, sys, op).calls
    ensures CallOk(lower, Step(lower, sys, op).calls[op.id])
  {
    if op.Reply? {
      var c := sys.calls[op.id];
      assert CallOk(lower, c);
      BuiltAnswers(lower, Seen(c), c.name);
    } else if !op.Begin? {
      assert CallOk(lower, sys.calls[op.id]);
    }
    hide Built, Answer, Decision, TrimSpace;
  }

  lemma StepKeeps(lower: Lower, sys: System, op: Op)
    requires TrimSpace(lower([])) == [] && Inv(lower, sys) && Enabled(sys, op)
    ensures Inv(lower, Step(lower, sys, op))
  {
    if op.SetEnv? {
      hide CallOk, Built;
    } else {
      OneCallSteps(lower, sys, op);
      CallStaysOk(lower, sys, op);
      assert op.Store? ==> CallOk(lower, sys.calls[op.id]);
      hide Step, Built, Decision, TrimSpace;
    }
  }

  lemma {:induction false} RunKeeps(lower: Lower, sys: System, ops: seq<Op>)
    requires TrimSpace(lower([])) == [] && Inv(lower, sys) && Runnable(lower, sys, ops)
    ensures Inv(lower, Run(lower, sys, ops))
    decreases |ops|
  {
    if ops != [] {
      StepKeeps(lower, sys, ops[0]);
      RunKeeps(lower, Step(lower, sys, ops[0]), ops[1..]);
    }
  }

  /** However calls interleave with each other and with changes of the environment, every
      answer is the uncached decision from the three values that the call itself read. */
  lemma AnswersAreUncached(lower: Lower, env: Env, ops: seq<Op>, id: nat)
    requires TrimSpace(lower([])) == [] && Runnable(lower, System(env, None, map[]), ops)
    requires var sys := Run(lower, System(env, None, map[]), ops); id in sys.calls && sys.calls[id].answer.Some?
    ensures var c := Run(lower, System(env, None, map[]), ops).calls[id];
      AllRead(c) && c.answer.value == Decision(lower, Seen(c), c.name)
  {
    RunKeeps(lower, System(env, None, map[]), ops);
  }

  /** The operations can be taken one after the other and lead to `sys'`. */
  ghost predicate Leads(lower: Lower, sys: System, ops: seq<Op>, sys': System) {
    Runnable(lower, sys, ops) && Run(lower, sys, ops) == sys'
  }

  lemma LeadsOn(lower: Lower, sys: System, op: Op, ops: seq<Op>, sys': System)
    requires Enabled(sys, op) && Leads(lower, Step(lower, sys, op), ops, sys')
    ensures Leads(lower, sys, [op] + ops, sys')
  {
    hide Step, Enabled;
    assert ([op] + ops)[1..] == ops;
  }

  /** The system with one call as given. */
  function With(sys: System, id: nat, c: Call): System { sys.(calls := sys.calls[id := c]) }

  lemma Overwrites(m: map<nat, Call>, k: nat)
    ensures forall a, b {:trigger m[k := a][k := b]} :: m[k := a][k := b] == m[k := b]
  {
  }

  /** The reads, the load, the store and the reply of one call. */
  lemma ReadsAre(lower: Lower, sys: System, id: nat, c: Call)
    ensures c.sdkDisabled.None? ==>
              var op, next := ReadSdkDisabled(id), c.(sdkDisabled := Some(sys.env.sdkDisabled));
              Enabled(With(sys, id, c), op) && Step(lower, With(sys, id, c), op) == With(sys, id, next)
    ensures c.sdkDisabled.Some? && c.enabled.None? ==>
              var op, next := ReadEnabled(id), c.(enabled := Some(sys.env.enabled));
              Enabled(With(sys, id, c), op) && Step(lower, With(sys, id, c), op) == With(sys, id, next)
    ensures c.enabled.Some? && c.disabled.None? ==>
              var op, next := ReadDisabled(id), c.(disabled := Some(sys.env.disabled));
              Enabled(With(sys, id, c), op) && Step(lower, With(sys, id, c), op) == With(sys, id, next)
  {
    Overwrites(sys.calls, id);
    hide Built, Answer, Seen, AllRead;
  }

  lemma LoadIs(lower: Lower, sys: System, id: nat, c: Call)
    requires AllRead(c) && c.using.None?
    ensures var op := Load(id);
      && Enabled(With(sys, id, c), op)
      && Step(lower, With(sys, id, c), op) ==
         if sys.cached.None? || sys.cached.value.raw != Seen(c)
         then With(sys, id, c.(using := Some(Built(lower, Seen(c))), store := true))
         else With(sys, id, c.(using := sys.cached))
  {
    Overwrites(sys.calls, id);
    hide Built, Answer, Seen;
  }

  lemma StoreAndReplyAre(lower: Lower, sys: System, id: nat, c: Call)
    requires c.using.Some? && c.answer.None?
    ensures c.store ==>
              var op := Store(id);
              Enabled(With(sys, id, c), op) && Step(lower, With(sys, id, c), op) == With(sys.(cached := c.using), id, c.(store := false))
    ensures !c.store ==>
              var op, next := Reply(id), c.(answer := Some(Answer(c.using.value, lower(c.name))));
              Enabled(With(sys, id, c), op) && Step(lower, With(sys, id, c), op) == With(sys, id, next)
  {
    Overwrites(sys.calls, id);
    hide Built, Answer, Seen;
  }

  /** The reads of a call. */
  lemma ReadsAll(lower: Lower, sys: System, id: nat, name: Bytes, ops: seq<Op>, sys': System)
    requires id !in sys.calls
    requires var env := sys.env;
      Leads(lower, With(sys, id, Call(name, Some(env.sdkDisabled), Some(env.enabled), Some(env.disabled), None, false, None)), ops, sys')
    ensures Leads(lower, sys, [Begin(id, name)] + ([ReadSdkDisabled(id)] + ([ReadEnabled(id)] + ([ReadDisabled(id)] + ops))), sys')
  {
    var env := sys.env;
    var c1 := Call(name, None, None, None, None, false, None);
    var c2 := c1.(sdkDisabled := Some(env.sdkDisabled));
    var c3 := c2.(enabled := Some(env.enabled));
    var s1, s2, s3 := With(sys, id, c1), With(sys, id, c2), With(sys, id, c3);
    assert Step(lower, sys, Begin(id, name)) == s1 && Enabled(sys, Begin(id, name));
    hide Leads, Step, Enabled, With;
    ReadsAre(lower, sys, id, c1);
    ReadsAre(lower, sys, id, c2);
    ReadsAre(lower, sys, id, c3);
    LeadsOn(lower, s3, ReadDisabled(id), ops, sys');
    LeadsOn(lower, s2, ReadEnabled(id), [ReadDisabled(id)] + ops, sys');
    LeadsOn(lower, s1, ReadSdkDisabled(id), [ReadEnabled(id)] + ([ReadDisabled(id)] + ops), sys');
    LeadsOn(lower, sys, Begin(id, name), [ReadSdkDisabled(id)] + ([ReadEnabled(id)] + ([ReadDisabled(id)] + ops)), sys');
  }

  /** The rest of a call: the cache in place is used when it is that of the values read, and
      otherwise a new one is built and stored. */
  lemma LoadsAndReplies(lower: Lower, sys: System, id: nat, c: Call)
    requires Inv(lower, sys) && c.using == None && !c.store && c.answer == None && AllRead(c)
    ensures var now := Built(lower, Seen(c));
      var end := With(sys, id, c.(using := Some(now), answer := Some(Answer(now, lower(c.name))))).(cached := Some(now));
      var hit := sys.cached.Some? && sys.cached.value.raw == Seen(c);
      Leads(lower, With(sys, id, c), [Load(id)] + (if hit then [Reply(id)] else [Store(id)] + [Reply(id)]), end)
  {
    var now := Built(lower, Seen(c));
    var c1, c2 := c.(using := Some(now)), c.(using := Some(now), store := true);
    var sys' := sys.(cached := Some(now));
    var end := With(sys', id, c1.(answer := Some(Answer(now, lower(c.name)))));
    var hit := sys.cached.Some? && sys.cached.value.raw == Seen(c);
    assert hit ==> sys' == sys;
    assert Leads(lower, end, [], end);
    assert end == With(sys, id, c1.(answer := Some(Answer(now, lower(c.name))))).(cached := Some(now));
    LoadIs(lower, sys, id, c);
    hide *;
    StoreAndReplyAre(lower, sys', id, c1);
    LeadsOn(lower, With(sys', id, c1), Reply(id), [], end);
    assert [Reply(id)] + [] == [Reply(id)];
    if hit {
      LeadsOn(lower, With(sys, id, c), Load(id), [Reply(id)], end);
    } else {
      StoreAndReplyAre(lower, sys, id, c2);
      LeadsOn(lower, With(sys, id, c2), Store(id), [Reply(id)], end);
      LeadsOn(lower, With(sys, id, c), Load(id), [Store(id)] + [Reply(id)], end);
    }
  }

  /** From every reachable state and whatever the variables are set to then: a call that nothing
      comes between answers the uncached decision from these values, and leaves their cache. */
  lemma AloneAnswers(lower: Lower, sys: System, env: Env, id: nat, name: Bytes)
    requires TrimSpace(lower([])) == [] && Inv(lower, sys) && id !in sys.calls
    ensures var hit := sys.cached.Some? && sys.cached.value.raw == env;
      var ops := [SetEnv(env)] + ([Begin(id, name)] + ([ReadSdkDisabled(id)] + ([ReadEnabled(id)] + ([ReadDisabled(id)]
                 + ([Load(id)] + if hit then [Reply(id)] else [Store(id)] + [Reply(id)])))));
      && Runnable(lower, sys, ops)
      && var end := Run(lower, sys, ops);
         && end.env == env && end.cached == Some(Built(lower, env))
         && id in end.calls && end.calls[id].answer == Some(Decision(lower, env, name))
  {
    var s0 := sys.(env := env);
    var c := Call(name, Some(env.sdkDisabled), Some(env.enabled), Some(env.disabled), None, false, None);
    var hit := sys.cached.Some? && sys.cached.value.raw == env;
    var last := [Load(id)] + (if hit then [Reply(id)] else [Store(id)] + [Reply(id)]);
    var now := Built(lower, env);
    var end := With(s0, id, c.(using := Some(now), answer := Some(Answer(now, lower(name))))).(cached := Some(now));
    BuiltAnswers(lower, env, name);
    assert Seen(c) == env && Step(lower, sys, SetEnv(env)) == s0 && Inv(lower, s0) && Enabled(sys, SetEnv(env));
    hide Built, Answer, Decision, TrimSpace, Step, Run, Runnable, Inv, Enabled;
    LoadsAndReplies(lower, s0, id, c);
    ReadsAll(lower, s0, id, name, last, end);
    LeadsOn(lower, sys, SetEnv(env), [Begin(id, name)] + ([ReadSdkDisabled(id)] + ([ReadEnabled(id)] + ([ReadDisabled(id)] + last))), end);
  }

  predicate SeesOnly(c: Call, env: Env) {
    && (c.sdkDisabled.Some? ==> c.sdkDisabled.value == env.sdkDisabled)
    && (c.enabled.Some? ==> c.enabled.value == env.enabled)
    && (c.disabled.Some? ==> c.disabled.value == env.disabled)
  }

  /** While the environment stays as it is, a call reads only its values. */
  lemma {:induction false} QuietRun(lower: Lower, sys: System, ops: seq<Op>, id: nat)
    requires Runnable(lower, sys, ops) && id in sys.calls && SeesOnly(sys.calls[id], sys.env)
    requires forall op :: op in ops ==> !op.SetEnv?
    ensures var sys' := Run(lower, sys, ops); sys'.env == sys.env && id in sys'.calls && SeesOnly(sys'.calls[id], sys.env)
    ensures var sys' := Run(lower, sys, ops); sys'.calls[id].name == sys.calls[id].name
    decreases |ops|
  {
    if ops != [] {
      assert ops[0] in ops && forall op :: op in ops[1..] ==> op in ops;
      QuietRun(lower, Step(lower, sys, ops[0]), ops[1..], id);
    }
  }

  /** A call during which the environment does not change answers by the current values. */
  lemma QuietAnswer(lower: Lower, env: Env, before: seq<Op>, during: seq<Op>, id: nat)
    requires TrimSpace(lower([])) == [] && Runnable(lower, System(env, None, map[]), before)
    requires var sys := Run(lower, System(env, None, map[]), before);
      && id in sys.calls && sys.calls[id].sdkDisabled == None && sys.calls[id].enabled == None && sys.calls[id].disabled == None
      && Runnable(lower, sys, during) && (forall op :: op in during ==> !op.SetEnv?)
    ensures var sys := Run(lower, System(env, None, map[]), before);
      var after := Run(lower, sys, during);
      id in after.calls && (after.calls[id].answer.Some? ==>
                              after.calls[id].answer.value == Decision(lower, after.env, sys.calls[id].name) && after.env == sys.env)
  {
    var start := System(env, None, map[]);
    var sys := Run(lower, start, before);
    RunKeeps(lower, start, before);
    RunKeeps(lower, sys, during);
    QuietRun(lower, sys, during, id);
    assert CallOk(lower, Run(lower, sys, during).calls[id]);
  }
}
