/** The lazily cleaned stacks refine the simple model: every run gives the same
    answers, and keeps the shared-flag and registry invariants. */
module GlsRefinement {
  import opened Common
  import opened GlsStack
  import opened GlsProtocol

  // ---- setting one key's flag removes exactly that key's live spans ----

  lemma {:induction false} SetFlagRemovesKey<F>(entries: seq<Entry<F>>, ended: set<F>, flag: F, key: SpanKey)
    requires forall e :: e in entries && e.flag !in ended ==> (e.flag == flag <==> e.span.key == key)
    ensures LiveSpans(entries, ended + {flag}) == RemoveKey(LiveSpans(entries, ended), key)
  {
    if entries != [] {
      SetFlagRemovesKey(entries[1..], ended, flag, key);
      var rest := LiveSpans(entries[1..], ended);
      assert ([entries[0].span] + rest)[1..] == rest;
    }
  }

  lemma {:induction false} RemoveAbsentKey<F>(entries: seq<Entry<F>>, ended: set<F>, key: SpanKey)
    requires forall e :: e in entries && e.flag !in ended ==> e.span.key != key
    ensures RemoveKey(LiveSpans(entries, ended), key) == LiveSpans(entries, ended)
  {
    if entries != [] {
      RemoveAbsentKey(entries[1..], ended, key);
      var rest := LiveSpans(entries[1..], ended);
      assert ([entries[0].span] + rest)[1..] == rest;
    }
  }

  lemma NoRepeatsCons<T>(x: T, s: seq<T>)
    ensures NoRepeats([x] + s) <==> NoRepeats(s) && x !in s
  {
    var t := [x] + s;
    assert forall i :: 0 <= i < |s| ==> t[i + 1] == s[i];
    if NoRepeats(t) {
      forall i, j | 0 <= i < j < |s| ensures s[i] != s[j] {
        assert t[i + 1] != t[j + 1];
      }
      forall j | 0 <= j < |s| ensures s[j] != x {
        assert t[0] != t[j + 1];
      }
    }
  }

  lemma {:induction false} RemoveKeepsRest<T>(s: seq<T>, x: T)
    requires NoRepeats(s)
    ensures NoRepeats(Remove(s, x)) && |Remove(s, x)| == |s| - (if x in s then 1 else 0)
    ensures forall y :: y in Remove(s, x) ==> y in s && y != x
    ensures forall y :: y in s && y != x ==> y in Remove(s, x)
  {
    if s != [] {
      assert s == [s[0]] + s[1..];
      NoRepeatsCons(s[0], s[1..]);
      if s[0] != x {
        RemoveKeepsRest(s[1..], x);
        NoRepeatsCons(s[0], Remove(s[1..], x));
      }
    }
  }

  lemma {:induction false} RemoveAbsent<T>(s: seq<T>, x: T)
    requires x !in s
    ensures Remove(s, x) == s
  {
    if s != [] {
      RemoveAbsent(s[1..], x);
    }
  }

  // ---- the registry ----

  /** Eviction keeps the registry well formed and, when it happens, drops the
      oldest key: exactly the `maxStates - 1` keys registered after it remain. */
  lemma EvictDropsOldest<F>(r: Registry<F>, ended: set<F>, maxStates: nat)
    requires RegistryInv(r, maxStates) && maxStates > 0
    ensures var (r', ended') := Evict(r, ended, maxStates);
      && RegistryInv(r', maxStates - 1)
      && (if |r.order| < maxStates then r' == r && ended' == ended
          else |r.order| == maxStates && r'.order == r.order[1..] && r'.states == r.states - {r.order[0]}
               && ended' == ended + {r.states[r.order[0]]})
  {
    if |r.order| >= maxStates {
      WithoutOldest(r, maxStates);
    }
    hide RegistryInv;
  }

  lemma WithoutOldest<F>(r: Registry<F>, maxStates: nat)
    requires RegistryInv(r, maxStates) && |r.order| >= maxStates > 0
    ensures RegistryInv(Registry(r.states - {r.order[0]}, r.order[1..]), maxStates - 1)
    ensures r.order[0] in r.states
  {
    hide NoRepeats;
    var oldest, order := r.order[0], r.order[1..];
    assert r.order == [oldest] + order;
    NoRepeatsCons(oldest, order);
    DropSize(r.states, oldest);
  }

  lemma DropSize<K, V>(m: map<K, V>, k: K)
    requires k in m
    ensures |m - {k}| == |m| - 1
  {
    assert (m - {k}).Keys == m.Keys - {k};
  }

  lemma DropFlags<F>(s: System<F>, key: SpanKey, s': System<F>)
    requires FlagsInv(s) && key in s.registry.states
    requires s'.registry.states == s.registry.states - {key} && s'.issued == s.issued
    requires s'.ended == s.ended + {s.registry.states[key]}
    ensures FlagsInv(s')
  {
  }

  /** Setting the flag of one registered key and dropping the key from the
      registry is, seen from the simple model, its removal from every stack. */
  lemma DropKey<F>(s: System<F>, lim: Limits, key: SpanKey, order: seq<SpanKey>, s': System<F>)
    requires Inv(s, lim) && key in s.registry.states
    requires s' == s.(registry := Registry(s.registry.states - {key}, order), ended := s.ended + {s.registry.states[key]})
    ensures FlagsInv(s')
    ensures forall g :: g in s'.slots ==> SlotInv(s'.slots[g], s', lim)
    ensures forall g :: g in s'.phases ==> PhaseInv(g, s', lim)
    ensures Abs(s').stacks == RemoveEverywhere(Abs(s).stacks, key)
    ensures forall g, e :: g in s.slots && e in s.slots[g].entries && e.span.key == key ==> e.flag in s'.ended
  {
    DropFlags(s, key, s');
    hide FlagsInv, RegistryInv, EntryOk, LiveSpans;
    forall g | g in s.slots
      ensures LiveSpans(s.slots[g].entries, s'.ended) == RemoveKey(LiveSpans(s.slots[g].entries, s.ended), key)
      ensures SlotInv(s.slots[g], s', lim)
      ensures forall e :: e in s.slots[g].entries && e.span.key == key ==> e.flag in s'.ended
    {
      assert SlotInv(s.slots[g], s, lim);
      DropFromSlot(s, key, s.slots[g].entries, s');
    }
    forall g | g in s.phases ensures PhaseInv(g, s', lim) {
      assert PhaseInv(g, s, lim);
    }
  }

  lemma DropFromSlot<F>(s: System<F>, key: SpanKey, entries: seq<Entry<F>>, s': System<F>)
    requires FlagsInv(s) && key in s.registry.states && forall e :: e in entries ==> EntryOk(e, s)
    requires s'.registry.states == s.registry.states - {key} && s'.issued == s.issued
    requires s'.ended == s.ended + {s.registry.states[key]}
    ensures LiveSpans(entries, s'.ended) == RemoveKey(LiveSpans(entries, s.ended), key)
    ensures forall e :: e in entries ==> EntryOk(e, s')
    ensures forall e :: e in entries && e.span.key == key ==> e.flag in s'.ended
  {
    var flag := s.registry.states[key];
    forall e | e in entries
      ensures EntryOk(e, s') && (e.flag !in s.ended ==> (e.flag == flag <==> e.span.key == key))
      ensures e.span.key == key ==> e.flag in s'.ended
    {
    }
    SetFlagRemovesKey(entries, s.ended, flag, key);
  }

  // ---- one step ----

  ghost predicate StepRefines<F>(s: System<F>, op: Op<F>, lim: Limits)
    requires Enabled(s, op)
  {
    var (s', a) := Step(s, op, lim);
    Inv(s', lim) && (Abs(s'), a) == EagerStep(Abs(s), op, lim)
  }

  /** Changing what goroutines are in the middle of. */
  lemma WithPhases<F>(s: System<F>, phases: map<Gid, Phase>, lim: Limits)
    requires Inv(s, lim)
    requires forall g :: g in phases ==> (g in s.phases && s.phases[g] == phases[g]) || PhaseInv(g, s.(phases := phases), lim)
    ensures var s' := s.(phases := phases); Inv(s', lim) && Abs(s') == Abs(s).(phases := phases)
  {
    var s' := s.(phases := phases);
    forall h | h in s'.slots ensures SlotInv(s'.slots[h], s', lim) {
      SlotInvTransfer(s.slots[h], s, s', lim);
    }
    forall g | g in phases ensures PhaseInv(g, s', lim) {
      if g in s.phases { assert PhaseInv(g, s, lim); }
    }
  }

  lemma FlagsInvTransfer<F>(s: System<F>, s': System<F>)
    requires FlagsInv(s) && s'.registry == s.registry && s'.ended == s.ended && s'.issued == s.issued
    ensures FlagsInv(s')
  {
  }

  lemma SlotInvTransfer<F>(c: Context<F>, s: System<F>, s': System<F>, lim: Limits)
    requires SlotInv(c, s, lim)
    requires s'.registry.states == s.registry.states && s'.ended == s.ended && s.issued <= s'.issued
    ensures SlotInv(c, s', lim)
  {
    forall e | e in c.entries ensures EntryOk(e, s') { assert EntryOk(e, s); }
  }

  /** Replacing one goroutine's stack replaces its live spans. */
  lemma NewSlotAbs<F>(s: System<F>, g: Gid, c: Context<F>)
    ensures Abs(s.(slots := s.slots[g := c])) == Abs(s).(stacks := Abs(s).stacks[g := LiveSpans(c.entries, s.ended)])
  {
    hide LiveSpans;
  }

  /** Replacing one goroutine's stack by another with the same live spans. */
  lemma SameLiveSpans<F>(s: System<F>, g: Gid, c: Context<F>)
    requires LiveSpans(c.entries, s.ended) == LiveSpans(SlotOf(s, g).entries, s.ended)
    ensures Abs(s.(slots := s.slots[g := c])) == Abs(s).(stacks := Abs(s).stacks[g := StackOf(Abs(s), g)])
  {
    NewSlotAbs(s, g, c);
  }

  /** A well-formed stack can be put in the slot of a goroutine that is in the middle of nothing. */
  lemma NewSlotInv<F>(s: System<F>, g: Gid, c: Context<F>, lim: Limits)
    requires Inv(s, lim) && SlotInv(c, s, lim) && g !in s.phases
    ensures Inv(s.(slots := s.slots[g := c]), lim)
  {
    var s' := s.(slots := s.slots[g := c]);
    FlagsInvTransfer(s, s');
    hide FlagsInv, RegistryInv;
    forall h | h in s'.slots ensures SlotInv(s'.slots[h], s', lim) {
      SlotInvTransfer(if h == g then c else s.slots[h], s, s', lim);
    }
    forall h | h in s'.phases ensures PhaseInv(h, s', lim) { assert PhaseInv(h, s, lim); }
  }

  /** A context that keeps only wrappers of `g`'s stack keeps the invariant. */
  lemma ShrunkSlot<F>(s: System<F>, lim: Limits, g: Gid, c: Context<F>, s': System<F>)
    requires Inv(s, lim) && RootIsBottom(c)
    requires |c.entries| <= |SlotOf(s, g).entries|
    requires forall e :: e in c.entries ==> e in SlotOf(s, g).entries
    requires s' == s.(slots := s.slots[g := c])
    ensures Inv(s', lim)
  {
    forall h | h in s'.slots ensures SlotInv(s'.slots[h], s', lim) {
      if h in s.slots {
        assert SlotInv(s.slots[h], s, lim);
      }
      if h == g && g in s.slots {
        forall e | e in c.entries ensures EntryOk(e, s') {
          assert EntryOk(e, s);
        }
      } else if h != g {
        forall e | e in s'.slots[h].entries ensures EntryOk(e, s') {
          assert EntryOk(e, s);
        }
      }
    }
    forall h | h in s'.phases ensures PhaseInv(h, s', lim) {
      assert PhaseInv(h, s, lim);
    }
  }

  /** Compacting a full stack shows nothing, and leaves room exactly when a live span fewer than the limit is stacked. */
  lemma RoomIsInvisible<F>(s: System<F>, g: Gid, lim: Limits)
    requires Inv(s, lim)
    ensures var c := RoomOf(SlotOf(s, g), s.ended, lim.maxSpans);
      var s1 := s.(slots := s.slots[g := c]);
      && Inv(s1, lim) && Abs(s1) == Abs(s).(stacks := Abs(s).stacks[g := StackOf(Abs(s), g)])
      && (|c.entries| < lim.maxSpans <==> |StackOf(Abs(s), g)| < lim.maxSpans)
  {
    var c0 := SlotOf(s, g);
    var c := RoomOf(c0, s.ended, lim.maxSpans);
    assert RootIsBottom(c0) by { if g in s.slots { assert SlotInv(s.slots[g], s, lim); } }
    hide Inv;
    RoomKeepsLive(c0, s.ended, lim.maxSpans);
    RootStaysBottom(c0, s.ended, lim.maxSpans);
    hide RoomOf, RootIsBottom;
    ShrunkSlot(s, lim, g, c, s.(slots := s.slots[g := c]));
    SameLiveSpans(s, g, c);
    assert StackOf(Abs(s), g) == LiveSpans(c0.entries, s.ended);
  }

  lemma CheckRefines<F>(s: System<F>, g: Gid, span: Span, lim: Limits)
    requires Inv(s, lim) && lim.Valid() && Enabled(s, AddCheck(g, span))
    ensures StepRefines(s, AddCheck(g, span), lim)
  {
    RoomIsInvisible(s, g, lim);
    hide Inv, RoomOf, SlotInv, LiveSpans;
    var s1 := s.(slots := s.slots[g := RoomOf(SlotOf(s, g), s.ended, lim.maxSpans)]);
    WithPhases(s1, Step(s, AddCheck(g, span), lim).0.phases, lim);
    hide Abs, PhaseInv;
  }

  /** Making room for a new key: nothing, or the removal of the oldest key from every stack. */
  lemma EvictKeepsInv<F>(s: System<F>, lim: Limits)
    requires Inv(s, lim) && lim.Valid()
    ensures var (room, ended) := Evict(s.registry, s.ended, lim.maxStates);
      var s' := s.(registry := room, ended := ended);
      var live := s.registry.order;
      && Inv(s', lim) && |room.states| < lim.maxStates
      && (if |live| < lim.maxStates then s' == s
          else room.order == live[1..] && Abs(s').stacks == RemoveEverywhere(Abs(s).stacks, live[0]))
  {
    EvictDropsOldest(s.registry, s.ended, lim.maxStates);
    var (room, ended) := Evict(s.registry, s.ended, lim.maxStates);
    var s' := s.(registry := room, ended := ended);
    if |s.registry.order| >= lim.maxStates {
      DropKey(s, lim, s.registry.order[0], room.order, s');
    }
  }

  /** Registering an unknown key with an unused flag. */
  lemma RegisterKeepsInv<F>(s: System<F>, lim: Limits, key: SpanKey, spare: F)
    requires Inv(s, lim) && spare !in s.issued && key !in s.registry.states && |s.registry.states| < lim.maxStates
    ensures var s' := s.(registry := Registry(s.registry.states[key := spare], s.registry.order + [key]), issued := s.issued + {spare});
      Inv(s', lim) && Abs(s').stacks == Abs(s).stacks
  {
    var s' := s.(registry := Registry(s.registry.states[key := spare], s.registry.order + [key]), issued := s.issued + {spare});
    forall g | g in s'.slots ensures SlotInv(s'.slots[g], s', lim) {
      assert SlotInv(s.slots[g], s, lim);
      forall e | e in s'.slots[g].entries ensures EntryOk(e, s') { assert EntryOk(e, s); }
    }
    forall g | g in s'.phases ensures PhaseInv(g, s', lim) { assert PhaseInv(g, s, lim); }
  }

  /** The stack side of a push: the wrapper goes on top, with its key's registered flag. */
  lemma PushKeepsInv<F>(s: System<F>, g: Gid, flag: F, lim: Limits)
    requires Inv(s, lim) && g in s.phases && s.phases[g].Adding?
    requires var key := s.phases[g].span.key; key in s.registry.states && s.registry.states[key] == flag
    ensures var span := s.phases[g].span;
      var s' := s.(slots := s.slots[g := PushOf(SlotOf(s, g), span, flag)], phases := s.phases - {g});
      && Inv(s', lim)
      && g in s.slots && Abs(s').stacks == Abs(s).stacks[g := [span] + Abs(s).stacks[g]]
  {
    var span := s.phases[g].span;
    assert PhaseInv(g, s, lim);
    var c := s.slots[g];
    var s' := s.(slots := s.slots[g := PushOf(c, span, flag)], phases := s.phases - {g});
    assert SlotInv(c, s, lim);
    assert ([Entry(span, flag, false)] + c.entries)[1..] == c.entries;
    forall h | h in s'.slots ensures SlotInv(s'.slots[h], s', lim) {
      if h != g {
        SlotInvTransfer(s.slots[h], s, s', lim);
      } else {
        forall e | e in s'.slots[g].entries ensures EntryOk(e, s') {
          if e in c.entries { assert EntryOk(e, s); }
        }
      }
    }
    forall h | h in s'.phases ensures PhaseInv(h, s', lim) { assert PhaseInv(h, s, lim); }
  }

  /** A push of a span whose key is not registered, and what it does to the stacks. */
  lemma PushNewKey<F>(s: System<F>, g: Gid, spare: F, lim: Limits)
    requires Inv(s, lim) && lim.Valid() && g in s.phases && s.phases[g].Adding? && spare !in s.issued
    requires s.phases[g].span.key !in s.registry.states
    ensures var span, order := s.phases[g].span, s.registry.order;
      var (room, ended) := Evict(s.registry, s.ended, lim.maxStates);
      var s' := System(s.slots[g := PushOf(SlotOf(s, g), span, spare)], s.phases - {g},
                       Registry(room.states[span.key := spare], room.order + [span.key]), ended, s.issued + {spare});
      var stacks := if |order| < lim.maxStates then Abs(s).stacks else RemoveEverywhere(Abs(s).stacks, order[0]);
      && Inv(s', lim) && g in stacks && Abs(s').stacks == stacks[g := [span] + stacks[g]]
      && room.order == (if |order| < lim.maxStates then order else order[1..])
  {
    var key := s.phases[g].span.key;
    EvictKeepsInv(s, lim);
    EvictDropsOldest(s.registry, s.ended, lim.maxStates);
    hide Inv, Abs, RemoveEverywhere, PushOf;
    var (room, ended) := Evict(s.registry, s.ended, lim.maxStates);
    var s1 := s.(registry := room, ended := ended);
    RegisterKeepsInv(s1, lim, key, spare);
    var s2 := s1.(registry := Registry(room.states[key := spare], room.order + [key]), issued := s.issued + {spare});
    PushKeepsInv(s2, g, spare, lim);
  }

  lemma PushRefines<F>(s: System<F>, g: Gid, spare: F, lim: Limits)
    requires Inv(s, lim) && lim.Valid() && Enabled(s, AddPush(g, spare))
    ensures StepRefines(s, AddPush(g, spare), lim)
  {
    var key := s.phases[g].span.key;
    if key in s.registry.states {
      PushKeepsInv(s, g, s.registry.states[key], lim);
      assert s.issued + {s.registry.states[key]} == s.issued;
      hide Inv;
    } else {
      PushNewKey(s, g, spare, lim);
      hide Inv, Evict, PushOf, LiveSpans;
    }
  }

  /** The registry side of an End: afterwards no wrapper of the key is live. */
  lemma MarkKeepsInv<F>(s: System<F>, key: SpanKey, lim: Limits)
    requires Inv(s, lim)
    ensures var (registry, ended) := MarkOf(s.registry, s.ended, key);
      var s' := s.(registry := registry, ended := ended);
      && Inv(s', lim)
      && Abs(s') == Eager(RemoveEverywhere(Abs(s).stacks, key), s.phases, Remove(s.registry.order, key))
      && (forall g, e :: g in s.slots && e in s.slots[g].entries && e.span.key == key ==> e.flag in s'.ended)
  {
    var (registry, ended) := MarkOf(s.registry, s.ended, key);
    var s' := s.(registry := registry, ended := ended);
    if key in s.registry.states {
      RemoveKeepsRest(s.registry.order, key);
      assert registry.states.Keys == s.registry.states.Keys - {key};
      DropKey(s, lim, key, registry.order, s');
    } else {
      RemoveAbsent(s.registry.order, key);
      assert s' == s;
      forall h | h in s.slots
        ensures RemoveKey(LiveSpans(s.slots[h].entries, s.ended), key) == LiveSpans(s.slots[h].entries, s.ended)
        ensures forall e :: e in s.slots[h].entries && e.span.key == key ==> e.flag in s.ended
      {
        assert SlotInv(s.slots[h], s, lim);
        assert forall e :: e in s.slots[h].entries ==> EntryOk(e, s);
        RemoveAbsentKey(s.slots[h].entries, s.ended, key);
      }
    }
  }

  lemma MarkRefines<F>(s: System<F>, g: Gid, key: SpanKey, lim: Limits)
    requires Inv(s, lim) && lim.Valid() && Enabled(s, MarkEnded(g, key))
    ensures StepRefines(s, MarkEnded(g, key), lim)
  {
    MarkKeepsInv(s, key, lim);
    var s' := Step(s, MarkEnded(g, key), lim).0;
    WithPhases(s'.(phases := s.phases), s'.phases, lim);
  }

  /** Unlinking the topmost wrapper of a key none of whose wrappers is live. */
  lemma DelKeepsInv<F>(s: System<F>, g: Gid, key: SpanKey, lim: Limits)
    requires Inv(s, lim) && g in s.slots
    requires forall e :: e in s.slots[g].entries && e.span.key == key ==> e.flag in s.ended
    ensures var c := s.slots[g];
      var s' := s.(slots := s.slots[g := DelOf(c, key)]);
      && Inv(s', lim) && Abs(s') == Abs(s)
      && EndedByDel(c, s.ended, key) == s.ended
  {
    var c := s.slots[g];
    assert SlotInv(c, s, lim);
    hide Inv, SlotInv;
    RootStaysBottomAfterDel(c, key);
    DelEndedKeepsLive(c, key, s.ended);
    hide DelOf, EndedByDel, LiveSpans;
    ShrunkSlot(s, lim, g, DelOf(c, key), s.(slots := s.slots[g := DelOf(c, key)]));
    SameLiveSpans(s, g, DelOf(c, key));
  }

  /** Deleting a wrapper that has ended leaves the live spans and the ended flags. */
  lemma DelEndedKeepsLive<F>(c: Context<F>, key: SpanKey, ended: set<F>)
    requires forall e :: e in c.entries && e.span.key == key ==> e.flag in ended
    ensures var c' := DelOf(c, key);
      && |c'.entries| <= |c.entries| && (forall e :: e in c'.entries ==> e in c.entries)
      && LiveSpans(c'.entries, ended) == LiveSpans(c.entries, ended)
      && EndedByDel(c, ended, key) == ended
  {
    var i := Find(c.entries, key);
    if i < |c.entries| {
      assert c.entries[i] in c.entries;
      LiveAfterRemovingEnded(c.entries, i, ended);
    }
  }

  lemma UnlinkRefines<F>(s: System<F>, g: Gid, lim: Limits)
    requires Inv(s, lim) && lim.Valid() && Enabled(s, Unlink(g))
    ensures StepRefines(s, Unlink(g), lim)
  {
    var key := s.phases[g].key;
    assert PhaseInv(g, s, lim);
    if g !in s.slots {
      WithPhases(s, s.phases - {g}, lim);
    } else {
      DelKeepsInv(s, g, key, lim);
      hide *;
      WithPhases(s.(slots := s.slots[g := DelOf(s.slots[g], key)]), s.phases - {g}, lim);
    }
  }

  /** Trimming a stack before reading its top keeps the invariant and the live spans. */
  lemma TailRefines<F>(s: System<F>, g: Gid, lim: Limits)
    requires Inv(s, lim) && g in s.slots
    ensures var c := TailOf(s.slots[g], s.ended);
      var s' := s.(slots := s.slots[g := c]);
      && Inv(s', lim) && Abs(s') == Abs(s)
      && Top(c) == (if Abs(s).stacks[g] == [] then None else Some(Abs(s).stacks[g][0]))
      && (c.entries != [] ==> c.entries[0].flag !in s.ended)
  {
    var c0 := s.slots[g];
    assert SlotInv(c0, s, lim);
    LiveSpansAfterTrim(c0.entries, s.ended);
    RootStaysBottom(c0, s.ended, lim.maxSpans);
    var c := TailOf(c0, s.ended);
    ShrunkSlot(s, lim, g, c, s.(slots := s.slots[g := c]));
    SameLiveSpans(s, g, c);
    hide Inv, SlotInv, RootIsBottom, TailOf, Abs;
  }

  /** A new goroutine's slot: nil, or a stack holding at most one wrapper of the parent's. */
  lemma SetChild<F>(s: System<F>, g: Gid, child: Gid, lim: Limits)
    requires Inv(s, lim) && lim.Valid() && g in s.slots && child !in s.phases
    requires var c := s.slots[g]; c.entries != [] ==> c.entries[0].flag !in s.ended
    ensures var s' := s.(slots := s.slots[child := CloneOf(s.slots[g])]);
      var top := if Abs(s).stacks[g] == [] then [] else [Abs(s).stacks[g][0]];
      Inv(s', lim) && Abs(s') == Abs(s).(stacks := Abs(s).stacks[child := top])
  {
    var c := s.slots[g];
    CloneLive(c, s, lim);
    NewSlotInv(s, child, CloneOf(c), lim);
    NewSlotAbs(s, child, CloneOf(c));
    hide Inv, LiveSpans, CloneOf, SlotInv;
  }

  lemma CloneLive<F>(c: Context<F>, s: System<F>, lim: Limits)
    requires SlotInv(c, s, lim) && lim.Valid() && (c.entries != [] ==> c.entries[0].flag !in s.ended)
    ensures SlotInv(CloneOf(c), s, lim)
    ensures var live := LiveSpans(c.entries, s.ended);
      LiveSpans(CloneOf(c).entries, s.ended) == if live == [] then [] else [live[0]]
  {
    if c.entries != [] {
      assert CloneOf(c).entries[1..] == [];
      assert EntryOk(c.entries[0], s);
    }
  }

  lemma ForkIs<F>(s: System<F>, g: Gid, child: Gid, lim: Limits)
    requires Enabled(s, Op<F>.Fork(g, child))
    ensures var c := if g in s.slots then TailOf(s.slots[g], s.ended) else Empty();
      Step(s, Op<F>.Fork(g, child), lim)
      == (s.(slots := if g in s.slots then s.slots[g := c][child := CloneOf(c)] else s.slots - {child}), Done)
    ensures var e := Abs(s);
      var top := if StackOf(e, g) == [] then [] else [StackOf(e, g)[0]];
      EagerStep(e, Op<F>.Fork(g, child), lim) == (e.(stacks := if g in s.slots then e.stacks[child := top] else e.stacks - {child}), Done)
    ensures g in s.slots ==> g in Abs(s).stacks && StackOf(Abs(s), g) == Abs(s).stacks[g]
  {
    hide LiveSpans, TailOf, CloneOf;
  }

  lemma ForkRefines<F>(s: System<F>, g: Gid, child: Gid, lim: Limits)
    requires Inv(s, lim) && lim.Valid() && Enabled(s, Fork(g, child))
    ensures StepRefines(s, Fork(g, child), lim)
  {
    ForkIs(s, g, child, lim);
    assert child !in s.phases;
    hide Inv, TailOf, CloneOf, LiveSpans, Abs, Step, EagerStep, StackOf, Enabled;
    if g in s.slots {
      TailRefines(s, g, lim);
      SetChild(s.(slots := s.slots[g := TailOf(s.slots[g], s.ended)]), g, child, lim);
    } else {
      ForkOfNothing(s, child, lim);
    }
  }

  /** A goroutine without a stack forks one without a stack. */
  lemma ForkOfNothing<F>(s: System<F>, child: Gid, lim: Limits)
    requires Inv(s, lim) && child !in s.phases
    ensures var s' := s.(slots := s.slots - {child});
      Inv(s', lim) && Abs(s') == Abs(s).(stacks := Abs(s).stacks - {child})
  {
    var s' := s.(slots := s.slots - {child});
    FlagsInvTransfer(s, s');
    hide FlagsInv, RegistryInv, LiveSpans;
    assert Abs(s').stacks == Abs(s).stacks - {child};
    forall h | h in s'.slots ensures SlotInv(s'.slots[h], s', lim) {
      SlotInvTransfer(s.slots[h], s, s', lim);
    }
    forall h | h in s'.phases ensures PhaseInv(h, s', lim) { assert PhaseInv(h, s, lim); }
  }

  lemma LookupRefines<F>(s: System<F>, g: Gid, lim: Limits)
    requires Inv(s, lim) && lim.Valid() && Enabled(s, Op<F>.Lookup(g))
    ensures StepRefines(s, Op<F>.Lookup(g), lim)
  {
    if g in s.slots { TailRefines(s, g, lim); }
    hide Inv, TailOf, LiveSpans;
  }

  lemma ClearRefines<F>(s: System<F>, g: Gid, lim: Limits)
    requires Inv(s, lim) && lim.Valid() && Enabled(s, Op<F>.Clear(g))
    ensures StepRefines(s, Op<F>.Clear(g), lim)
  {
    NewSlotAbs(s, g, Empty());
    ShrunkSlot(s, lim, g, Empty(), s.(slots := s.slots[g := Empty()]));
    hide Inv;
  }

  /** Every step keeps the invariant and is answered as the simple model answers it. */
  lemma EveryStepRefines<F>(s: System<F>, op: Op<F>, lim: Limits)
    requires Inv(s, lim) && lim.Valid() && Enabled(s, op)
    ensures StepRefines(s, op, lim)
  {
    hide *;
    match op
    case AddCheck(g, span) => CheckRefines(s, g, span, lim);
    case AddPush(g, spare) => PushRefines(s, g, spare, lim);
    case MarkEnded(g, key) => MarkRefines(s, g, key, lim);
    case Unlink(g) => UnlinkRefines(s, g, lim);
    case Lookup(g) => LookupRefines(s, g, lim);
    case Fork(g, child) => ForkRefines(s, g, child, lim);
    case Clear(g) => ClearRefines(s, g, lim);
  }

  // ---- whole runs ----

  /** Over every run, lookups and admissions are answered as in the simple model
      where ending or evicting a span removes it from every stack at once. */
  lemma {:induction false} LazyRefinesEager<F>(s: System<F>, ops: seq<Op<F>>, lim: Limits)
    requires Inv(s, lim) && lim.Valid() && Runnable(s, ops, lim)
    ensures Run(s, ops, lim).1 == EagerRun(Abs(s), ops, lim).1
    ensures Inv(Run(s, ops, lim).0, lim)
    ensures Abs(Run(s, ops, lim).0) == EagerRun(Abs(s), ops, lim).0
    decreases |ops|
  {
    if ops != [] {
      EveryStepRefines(s, ops[0], lim);
      LazyRefinesEager(Step(s, ops[0], lim).0, ops[1..], lim);
    }
  }

  lemma LazyRefinesEagerFromStart<F>(ops: seq<Op<F>>, lim: Limits)
    requires lim.Valid() && Runnable(Init(), ops, lim)
    ensures Run(Init(), ops, lim).1 == EagerRun(Eager(map[], map[], []), ops, lim).1
  {
    LazyRefinesEager(Init(), ops, lim);
    assert Abs(Init<F>()) == Eager(map[], map[], []);
  }

  /** In every reachable state each stacked wrapper is ended or holds the flag the
      registry stores for its key, no registered flag is set, and the map and the
      order list hold the same keys, each once, at most `maxStates` of them. */
  lemma ReachableStatesShareFlags<F>(ops: seq<Op<F>>, lim: Limits)
    requires lim.Valid() && Runnable(Init(), ops, lim)
    ensures var s := Run(Init(), ops, lim).0;
      && (forall g, e :: g in s.slots && e in s.slots[g].entries ==>
            e.flag in s.ended || (e.span.key in s.registry.states && s.registry.states[e.span.key] == e.flag))
      && (forall k :: k in s.registry.states ==> s.registry.states[k] !in s.ended)
      && RegistryInv(s.registry, lim.maxStates)
      && (forall g :: g in s.slots ==> |s.slots[g].entries| <= lim.maxSpans && RootIsBottom(s.slots[g]))
  {
    LazyRefinesEager(Init(), ops, lim);
    var s := Run(Init(), ops, lim).0;
    forall g | g in s.slots
      ensures |s.slots[g].entries| <= lim.maxSpans && RootIsBottom(s.slots[g])
      ensures forall e :: e in s.slots[g].entries ==> EntryOk(e, s)
    {
      assert SlotInv(s.slots[g], s, lim);
    }
  }

  // ---- an ended span never comes back ----

  /** No stack holds the key, and no goroutine is about to push it. */
  ghost predicate Gone(e: Eager, key: SpanKey) {
    && (forall g, span :: g in e.stacks && span in e.stacks[g] ==> span.key != key)
    && (forall g :: g in e.phases && e.phases[g].Adding? ==> e.phases[g].span.key != key)
  }

  lemma {:induction false} RemoveKeyKeeps(spans: seq<Span>, key: SpanKey)
    ensures forall x :: x in RemoveKey(spans, key) ==> x in spans && x.key != key
  {
    if spans != [] {
      assert spans == [spans[0]] + spans[1..];
      RemoveKeyKeeps(spans[1..], key);
    }
  }

  lemma GoneStays<F>(e: Eager, key: SpanKey, op: Op<F>, lim: Limits)
    requires Gone(e, key)
    requires op.AddCheck? ==> op.span.key != key
    ensures var (e', a) := EagerStep(e, op, lim);
      Gone(e', key) && (a.Found? && a.span.Some? ==> a.span.value.key != key)
  {
    forall k, g | g in e.stacks
      ensures forall x :: x in RemoveKey(e.stacks[g], k) ==> x.key != key
    {
      RemoveKeyKeeps(e.stacks[g], k);
    }
    var e' := EagerStep(e, op, lim).0;
    if op.Fork? && op.g in e.stacks && e.stacks[op.g] != [] {
      assert e.stacks[op.g][0] in e.stacks[op.g];
    }
    if op.Lookup? && StackOf(e, op.g) != [] {
      assert e.stacks[op.g][0] in e.stacks[op.g];
    }
    if op.AddCheck? && op.g in e.stacks {
      assert e'.stacks[op.g] == e.stacks[op.g];
    }
  }

  lemma {:induction false} GoneForever<F>(e: Eager, key: SpanKey, ops: seq<Op<F>>, lim: Limits)
    requires Gone(e, key)
    requires forall op :: op in ops && op.AddCheck? ==> op.span.key != key
    ensures forall a :: a in EagerRun(e, ops, lim).1 && a.Found? && a.span.Some? ==> a.span.value.key != key
    decreases |ops|
  {
    if ops != [] {
      assert ops == [ops[0]] + ops[1..];
      GoneStays(e, key, ops[0], lim);
      GoneForever(EagerStep(e, ops[0], lim).0, key, ops[1..], lim);
    }
  }

  /** Once any goroutine ends a span that nobody is about to push or creates
      again, no lookup on any goroutine returns it, however the run goes on. */
  lemma EndedNeverReturned<F>(s: System<F>, g: Gid, key: SpanKey, ops: seq<Op<F>>, lim: Limits)
    requires Inv(s, lim) && lim.Valid() && Runnable(s, [MarkEnded(g, key)] + ops, lim)
    requires forall h :: h in s.phases && s.phases[h].Adding? ==> s.phases[h].span.key != key
    requires forall op :: op in ops && op.AddCheck? ==> op.span.key != key
    ensures forall a :: a in Run(s, [MarkEnded(g, key)] + ops, lim).1 && a.Found? && a.span.Some? ==> a.span.value.key != key
  {
    var all: seq<Op<F>> := [MarkEnded(g, key)] + ops;
    assert all[1..] == ops;
    LazyRefinesEager(s, all, lim);
    var e := EagerStep(Abs(s), all[0], lim).0;
    forall h | h in Abs(s).stacks
      ensures forall x :: x in RemoveKey(Abs(s).stacks[h], key) ==> x.key != key
    {
      RemoveKeyKeeps(Abs(s).stacks[h], key);
    }
    assert Gone(e, key);
    GoneForever(e, key, ops, lim);
  }

  // ---- eviction ----

  /** A registered key leaves the registry only when its span is ended or, with
      the registry full, as the oldest key; the `maxStates - 1` keys registered
      after it then all stay registered with their flags unset. */
  lemma OnlyTheOldestIsEvicted<F>(s: System<F>, op: Op<F>, lim: Limits, key: SpanKey)
    requires Inv(s, lim) && lim.Valid() && Enabled(s, op)
    requires key in s.registry.states && key !in Step(s, op, lim).0.registry.states
    requires !(op.MarkEnded? && op.key == key)
    ensures var s' := Step(s, op, lim).0;
      && op.AddPush? && key == s.registry.order[0] && |s.registry.order| == lim.maxStates
      && (forall k :: k in s.registry.order[1..] ==>
            k in s'.registry.states && s'.registry.states[k] == s.registry.states[k] && s'.registry.states[k] !in s'.ended)
  {
    EvictDropsOldest(s.registry, s.ended, lim.maxStates);
    EveryStepRefines(s, op, lim);
    hide Inv, StepRefines;
    OnlyPushEvicts(s, op, lim, key);
  }

  lemma OnlyPushEvicts<F>(s: System<F>, op: Op<F>, lim: Limits, key: SpanKey)
    requires Enabled(s, op) && key in s.registry.states && key !in Step(s, op, lim).0.registry.states
    requires !(op.MarkEnded? && op.key == key)
    ensures op.AddPush? && s.phases[op.g].span.key !in s.registry.states
    ensures Step(s, op, lim).0.registry.states
         == Evict(s.registry, s.ended, lim.maxStates).0.states[s.phases[op.g].span.key := op.spare]
  {
    hide Evict, PushOf, RoomOf, DelOf, TailOf, CloneOf;
  }
}
