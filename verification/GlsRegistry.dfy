/** The registry of ended flags as the program keeps it: a map to flags and list
    elements, and the list of elements in insertion order. */
module GlsRegistry {
  import opened Common
  import opened GlsStack
  import opened GlsProtocol
  import opened GlsFlags
  import opened GlsRefinement

  /** `*list.Element` of the order list. */
  class Element {
    const key: SpanKey

    constructor (key: SpanKey)
      ensures this.key == key
    {
      this.key := key;
    }
  }

  datatype StateEntry = StateEntry(state: Flag, elem: Element)

  function Keys(order: seq<Element>): (r: seq<SpanKey>)
    ensures |r| == |order|
  {
    seq(|order|, i requires 0 <= i < |order| => order[i].key)
  }

  /** The map and the list as the registry of GlsProtocol. */
  function ModelOf(states: map<SpanKey, StateEntry>, order: seq<Element>): Registry<Flag> {
    Registry(map k | k in states :: states[k].state, Keys(order))
  }

  /** Each element is its key's entry. */
  ghost predicate ElementsMatch(states: map<SpanKey, StateEntry>, order: seq<Element>) {
    forall e :: e in order ==> e.key in states && states[e.key].elem == e
  }

  /** Each entry's element is in the list. */
  ghost predicate EntriesMatch(states: map<SpanKey, StateEntry>, order: seq<Element>) {
    forall k :: k in states ==> states[k].elem.key == k && states[k].elem in order
  }

  ghost predicate Consistent(states: map<SpanKey, StateEntry>, order: seq<Element>) {
    && ElementsMatch(states, order) && EntriesMatch(states, order)
    && NoRepeats(order) && |order| == |states|
  }

  lemma {:induction false} KeysRemove(order: seq<Element>, e: Element)
    requires forall x :: x in order && x.key == e.key ==> x == e
    ensures Keys(Remove(order, e)) == Remove(Keys(order), e.key)
  {
    if order != [] {
      assert Keys(order)[1..] == Keys(order[1..]);
      KeysRemove(order[1..], e);
    }
  }

  lemma DropConsistent(states: map<SpanKey, StateEntry>, order: seq<Element>, key: SpanKey)
    requires Consistent(states, order) && key in states
    ensures Consistent(states - {key}, Remove(order, states[key].elem))
  {
    var e := states[key].elem;
    RemoveKeepsRest(order, e);
    assert (states - {key}).Keys == states.Keys - {key};
  }

  lemma DropModel(states: map<SpanKey, StateEntry>, order: seq<Element>, key: SpanKey)
    requires Consistent(states, order) && key in states
    ensures ModelOf(states - {key}, Remove(order, states[key].elem)) == MarkOf(ModelOf(states, order), {}, key).0
  {
    KeysRemove(order, states[key].elem);
  }

  /** Dropping the first element drops the oldest key. */
  lemma DropOldest(states: map<SpanKey, StateEntry>, order: seq<Element>)
    requires Consistent(states, order) && order != []
    ensures order[0].key in states
    ensures Consistent(states - {order[0].key}, order[1..])
    ensures ModelOf(states - {order[0].key}, order[1..]) == GlsProtocol.EvictOldest(ModelOf(states, order), {}).0
    ensures ModelOf(states, order).states[order[0].key] == states[order[0].key].state
  {
    var key := order[0].key;
    assert order[0] in order;
    assert order[1..] == Remove(order, order[0]);
    DropConsistent(states, order, key);
    DropModel(states, order, key);
    assert Keys(order)[0] == key;
  }

  lemma ModelKeys(states: map<SpanKey, StateEntry>, order: seq<Element>)
    ensures ModelOf(states, order).states.Keys == states.Keys
    ensures |ModelOf(states, order).states| == |states|
  {
  }

  lemma AddEntry(states: map<SpanKey, StateEntry>, order: seq<Element>, state: Flag, elem: Element)
    requires Consistent(states, order) && elem.key !in states
    ensures var states', order' := states[elem.key := StateEntry(state, elem)], order + [elem];
      && Consistent(states', order')
      && ModelOf(states', order') == Registry(ModelOf(states, order).states[elem.key := state], Keys(order) + [elem.key])
  {
    var states', order' := states[elem.key := StateEntry(state, elem)], order + [elem];
    assert Keys(order') == Keys(order) + [elem.key];
    assert ModelOf(states', order').states == ModelOf(states, order).states[elem.key := state];
    hide ModelOf, Keys;
    forall k | k in states'
      ensures states'[k].elem.key == k && states'[k].elem in order'
    {
      if k == elem.key { assert order'[|order|] == elem; } else { assert states[k].elem in order; }
    }
    forall e | e in order'
      ensures e.key in states' && states'[e.key].elem == e
    {
      assert e in order || e == elem;
    }
    assert NoRepeats(order');
  }

  lemma NothingToEvict(states: map<SpanKey, StateEntry>, order: seq<Element>, ended: set<Flag>)
    ensures order == [] ==> GlsProtocol.EvictOldest(ModelOf(states, order), ended) == (ModelOf(states, order), ended)
    ensures order != [] && order[0].key in states ==>
              GlsProtocol.EvictOldest(ModelOf(states, order), ended).1 == ended + {states[order[0].key].state}
    ensures GlsProtocol.EvictOldest(ModelOf(states, order), ended).0 == GlsProtocol.EvictOldest(ModelOf(states, order), {}).0
  {
  }

  class SpanStates {
    var states: map<SpanKey, StateEntry>
    var order: seq<Element>
    const maxStates: nat

    ghost predicate Valid()
      reads this
    {
      Consistent(states, order) && maxStates > 0
    }

    ghost function Model(): Registry<Flag>
      reads this
    {
      ModelOf(states, order)
    }

    ghost function Flags(): set<Flag>
      reads this
    {
      set k | k in states :: states[k].state
    }

    constructor (maxStates: nat)
      requires maxStates > 0
      ensures Valid() && this.maxStates == maxStates && Model() == Registry(map[], [])
    {
      states, order := map[], [];
      this.maxStates := maxStates;
    }

    method EvictOldest(ghost flags: set<Flag>)
      requires Valid() && Flags() <= flags
      modifies this, flags
      ensures Valid()
      ensures (Model(), EndedIn(flags)) == GlsProtocol.EvictOldest(old(Model()), old(EndedIn(flags)))
    {
      hide Consistent, ModelOf, Keys;
      NothingToEvict(states, order, EndedIn(flags));
      if order == [] {
        return;
      }
      var front := order[0];
      DropOldest(states, order);
      if front.key in states {
        states[front.key].state.Set(flags);
        states := states - {front.key};
      }
      order := order[1..];
    }

    method StateForSpan(span: Span, ghost flags: set<Flag>) returns (state: Flag)
      requires Valid() && Flags() <= flags
      modifies this, flags
      ensures Valid() && if span.key.IsValid() && span.key in old(Model()).states then state in flags else fresh(state) && !state.ended
      ensures (Model(), state, EndedIn(flags)) ==
        if span.key.IsValid() then StateFor(old(Model()), old(EndedIn(flags)), span.key, state, maxStates)
        else (old(Model()), state, old(EndedIn(flags)))
      ensures span.key.traceId == 0 || span.key.spanId == 0 ==> states == old(states) && order == old(order) && fresh(state)
      ensures span.key.traceId != 0 && span.key.spanId != 0 ==> span.key in states && states[span.key].state == state
    {
      if !span.key.IsValid() {
        state := new Flag();
        return;
      }
      state := Track(span.key, flags);
      ModelKeys(states, order);
      assert span.key in Model().states && Model().states[span.key] == state;
    }

    /** The locked section: the key's flag, registering a new one when the key is unknown. */
    method Track(key: SpanKey, ghost flags: set<Flag>) returns (state: Flag)
      requires Valid() && Flags() <= flags
      modifies this, flags
      ensures Valid() && if key in old(Model()).states then state in flags else fresh(state) && !state.ended
      ensures (Model(), state, EndedIn(flags)) == StateFor(old(Model()), old(EndedIn(flags)), key, state, maxStates)
    {
      hide Consistent;
      ModelKeys(states, order);
      if key in states {
        return states[key].state;
      }
      MakeRoom(flags);
      state := new Flag();
      Insert(key, state);
    }

    method MakeRoom(ghost flags: set<Flag>)
      requires Valid() && Flags() <= flags
      modifies this, flags
      ensures Valid()
      ensures (Model(), EndedIn(flags)) == Evict(old(Model()), old(EndedIn(flags)), maxStates)
    {
      ModelKeys(states, order);
      if |states| >= maxStates {
        EvictOldest(flags);
      }
    }

    method Insert(key: SpanKey, state: Flag)
      requires Valid() && key !in Model().states
      modifies this
      ensures Valid()
      ensures var before := old(Model());
        Model() == Registry(before.states[key := state], before.order + [key])
    {
      var elem := new Element(key);
      AddEntry(states, order, state, elem);
      order := order + [elem];
      states := states[key := StateEntry(state, elem)];
    }

    method MarkSpanEnded(span: Span, ghost flags: set<Flag>)
      requires Valid() && Flags() <= flags
      modifies this, flags
      ensures Valid()
      ensures (Model(), EndedIn(flags)) ==
        if span.key.IsValid() then MarkOf(old(Model()), old(EndedIn(flags)), span.key)
        else (old(Model()), old(EndedIn(flags)))
      ensures span.key.traceId == 0 || span.key.spanId == 0 ==> states == old(states) && order == old(order)
      ensures span.key.traceId != 0 && span.key.spanId != 0 ==> states == old(states) - {span.key}
      ensures span.key.traceId != 0 && span.key.spanId != 0 && span.key in old(states) ==> old(states)[span.key].state.ended
    {
      if !span.key.IsValid() {
        return;
      }
      Dropping(span.key, EndedIn(flags));
      hide *;
      if span.key in states {
        var entry := states[span.key];
        entry.state.Set(flags);
        states := states - {span.key};
        order := Remove(order, entry.elem);
      }
      Kept(states, order);
    }

    /** What the two removals of a key leave. */
    lemma Dropping(key: SpanKey, ended: set<Flag>)
      requires Valid()
      ensures key in states ==> Consistent(states - {key}, Remove(order, states[key].elem)) && states[key].state in Flags()
      ensures MarkOf(Model(), ended, key)
           == if key in states then (ModelOf(states - {key}, Remove(order, states[key].elem)), ended + {states[key].state})
              else (Model(), ended)
      ensures Consistent(states, order) && maxStates > 0 && Model() == ModelOf(states, order)
    {
      ModelKeys(states, order);
      if key in states {
        DropConsistent(states, order, key);
        DropModel(states, order, key);
      }
      hide Consistent, ModelOf;
    }

    lemma Kept(states: map<SpanKey, StateEntry>, order: seq<Element>)
      requires this.states == states && this.order == order
      ensures Consistent(states, order) && maxStates > 0 ==> Valid()
      ensures Model() == ModelOf(states, order)
    {
    }
  }
}
