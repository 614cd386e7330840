/** What the calls of AmqpCalls achieve, in every interleaving. */
module AmqpOutcomes {
  import opened Common
  import opened AmqpProtocol
  import opened AmqpCalls

  /** A span that was taken and is on no running call's list has been ended exactly once. */
  lemma TakenIsEnded(w: World, s: Span)
    requires Good(w) && s in w.sys.taken && !Held(w, s)
    ensures s in w.sys.deliveries && s in w.sys.ends && w.sys.ends[s] == 1
  {
    hide LocalsOk, ChannelsOk, PendingKept, ClosedOk, TagsUnique, OneChannelEach;
  }

  // ---- the runs before and behind a move ----

  lemma {:induction false} RunsSplit(w: World, front: seq<Move>, m: Move, back: seq<Move>)
    requires AllPossible(w, front + [m] + back)
    ensures AllPossible(w, front) && Possible(After(w, front), m)
    ensures var w' := Moved(After(w, front), m); AllPossible(w', back) && After(w, front + [m] + back) == After(w', back)
    decreases |front|
  {
    hide Possible, Moved;
    var all := front + [m] + back;
    if front == [] {
      assert all[0] == m && all[1..] == back;
    } else {
      assert all[0] == front[0] && all[1..] == front[1..] + [m] + back;
      RunsSplit(Moved(w, front[0]), front[1..], m, back);
    }
  }

  /** What a call was made for, and what it found outstanding, does not change; deliveries stay
      and spans that were taken stay taken. */
  lemma MoveKeepsCall(w: World, m: Move, id: Id)
    requires Good(w) && Possible(w, m) && id in w.calls
    ensures var w' := Moved(w, m);
      && id in w'.calls && w'.calls[id].request == w.calls[id].request && w'.calls[id].before == w.calls[id].before
      && Grows(w.sys, w'.sys)
  {
    hide Step, Inv, CallOk, NoneDropped, Grows, Enabled, Removed, Outstanding, NewCall;
    if m.Plain? {
      StepGrows(w.sys, m.op);
    } else if m.Section? {
      StepGrows(w.sys, w.calls[m.id].todo[0]);
    } else if m.EndOne? {
      EndOneIs(w, m.id, m.span);
      StepGrows(w.sys, End(m.span));
    } else {
      SameGrows(w.sys);
    }
  }

  lemma SameGrows(sys: System)
    ensures Grows(sys, sys)
  {
  }

  lemma GrowsOn(a: System, b: System, c: System)
    requires Grows(a, b) && Grows(b, c)
    ensures Grows(a, c)
  {
  }

  lemma {:induction false} MovesKeepCall(w: World, moves: seq<Move>, id: Id)
    requires Good(w) && AllPossible(w, moves) && id in w.calls
    ensures var w' := After(w, moves);
      && id in w'.calls && w'.calls[id].request == w.calls[id].request && w'.calls[id].before == w.calls[id].before
      && Grows(w.sys, w'.sys)
    decreases |moves|
  {
    hide Good, Moved, Possible, Grows;
    if moves == [] {
      SameGrows(w.sys);
    } else {
      var next := Moved(w, moves[0]);
      MoveKeepsCall(w, moves[0], id);
      MoveKeeps(w, moves[0]);
      MovesKeepCall(next, moves[1..], id);
      GrowsOn(w.sys, next.sys, After(w, moves).sys);
    }
  }

  // ---- settlements ----

  /** In every interleaving: once an acknowledgement, or a call on the channel itself, has
      finished, each span that was in the channel's map when the call began and whose tag is at
      most the call's, or is that tag when the call is not multiple, was covered by its sections.
      All they covered lies on that channel under those tags, and has been ended exactly once, or
      is on the list of a call that is still running. */
  lemma SettlementEndsAll(front: seq<Move>, id: Id, request: Request, back: seq<Move>, s: Span)
    requires !request.Close? && AllPossible(START, front + [Begin(id, request)] + back)
    requires var w := After(START, front + [Begin(id, request)] + back);
      id in w.calls && w.calls[id].todo == [] && w.calls[id].toEnd == {}
    ensures AllPossible(START, front)
    ensures request.Ack? ==> request.span in After(START, front).sys.deliveries
    ensures var sys, w := After(START, front).sys, After(START, front + [Begin(id, request)] + back);
      s in sys.deliveries && s in sys.stage && sys.stage[s] == Added
      && sys.deliveries[s].channel == (if request.Ack? then sys.deliveries[request.span].channel else request.channel)
      && (if request.multiple then sys.deliveries[s].tag <= request.tag else sys.deliveries[s].tag == request.tag) ==>
        s in w.calls[id].covered
    ensures var sys, w := After(START, front).sys, After(START, front + [Begin(id, request)] + back);
      s in w.calls[id].covered ==>
        && s in w.sys.deliveries
        && w.sys.deliveries[s].channel == (if request.Ack? then sys.deliveries[request.span].channel else request.channel)
        && (if request.multiple then w.sys.deliveries[s].tag <= request.tag else w.sys.deliveries[s].tag == request.tag)
        && s in w.sys.taken && s in w.sys.ends
        && (w.sys.ends[s] == 1 || exists i :: i in w.calls && s in w.calls[i].toEnd)
  {
    hide AllPossible, After, Good, Moved, Step, Enabled, SectionsOf;
    RunsSplit(START, front, Begin(id, request), back);
    StartIsGood();
    MovesKeep(START, front);
    var begun := After(START, front);
    BeginIs(begun, id, request);
    var next := Moved(begun, Begin(id, request));
    MoveKeeps(begun, Begin(id, request));
    MovesKeep(next, back);
    MovesKeepCall(next, back, id);
    var w := After(next, back);
    FinishedCovered(w, id);
    if s in w.calls[id].covered {
      CoveredIs(w, id, s);
      if !Held(w, s) { TakenIsEnded(w, s); }
    }
  }

  lemma BeginIs(w: World, id: Id, r: Request)
    requires Possible(w, Begin(id, r))
    ensures r.Ack? ==> r.span in w.sys.deliveries
    ensures var w' := Moved(w, Begin(id, r));
      id in w'.calls && w'.calls[id].before == Asked(w.sys, r) && w'.calls[id].request == r && w'.sys == w.sys
  {
  }

  lemma FinishedCovered(w: World, id: Id)
    requires Good(w) && id in w.calls && w.calls[id].todo == []
    ensures w.calls[id].before <= w.calls[id].covered
  {
    hide Inv, NoneDropped;
  }

  lemma CoveredIs(w: World, id: Id, s: Span)
    requires Good(w) && id in w.calls && s in w.calls[id].covered
    ensures s in w.sys.taken && s in w.sys.deliveries && s in w.sys.ends
    ensures var r := w.calls[id].request; (r.Ack? ==> r.span in w.sys.deliveries) && InScope(w.sys, r, s)
  {
    hide LocalsOk, ChannelsOk, PendingKept, ClosedOk, TagsUnique, OneChannelEach, NoneDropped, InScope;
  }

  /** Every span taken was covered by a section of some call. */
  predicate TakenWasCovered(w: World) {
    forall s :: s in w.sys.taken ==> exists id :: id in w.calls && s in w.calls[id].covered
  }

  lemma CoveredStays(w: World, w': World, more: set<Span>, id: Id)
    requires TakenWasCovered(w) && w'.sys.taken == w.sys.taken + more
    requires more != {} ==> id in w'.calls && more <= w'.calls[id].covered
    requires forall i :: i in w.calls ==> i in w'.calls && w.calls[i].covered <= w'.calls[i].covered
    ensures TakenWasCovered(w')
  {
    forall s | s in w'.sys.taken
      ensures exists i :: i in w'.calls && s in w'.calls[i].covered
    {
      if s in w.sys.taken {
        var i :| i in w.calls && s in w.calls[i].covered;
        assert s in w'.calls[i].covered;
      } else {
        assert s in w'.calls[id].covered;
      }
    }
  }

  lemma MoveKeepsCovered(w: World, m: Move)
    requires Good(w) && TakenWasCovered(w) && Possible(w, m)
    ensures TakenWasCovered(Moved(w, m))
  {
    hide Inv, CallOk, NoneDropped, TakenWasCovered, Enabled, Removed, Outstanding, NewCall, Left, TakenFrom;
    var w' := Moved(w, m);
    if m.Section? {
      var op := w.calls[m.id].todo[0];
      CallIs(w.sys, w.calls[m.id]);
      CallAfterSection(w.sys, w.calls[m.id]);
      SectionIsExact(w.sys, op);
      CoveredStays(w, w', Removed(w.sys, op), m.id);
    } else {
      CoveredStays(w, w', {}, 0);
    }
  }

  lemma {:induction false} MovesKeepCovered(w: World, moves: seq<Move>)
    requires Good(w) && TakenWasCovered(w) && AllPossible(w, moves)
    ensures TakenWasCovered(After(w, moves))
    decreases |moves|
  {
    hide Good, Moved, Possible, TakenWasCovered;
    if moves != [] {
      MoveKeepsCovered(w, moves[0]);
      MoveKeeps(w, moves[0]);
      MovesKeepCovered(Moved(w, moves[0]), moves[1..]);
    }
  }

  /** In every interleaving: a span that is not acknowledged automatically and has ended was asked
      for by some call: by a settlement of its channel with its tag, or a multiple one with a tag
      at least as large, or by the close of its consumer. */
  lemma EndedWasAskedFor(moves: seq<Move>, s: Span)
    requires AllPossible(START, moves)
    requires var sys := After(START, moves).sys;
      s in sys.deliveries && !sys.deliveries[s].autoAck && s in sys.ends && sys.ends[s] > 0
    ensures var w := After(START, moves);
      exists id :: id in w.calls && match w.calls[id].request
        case Ack(a, _, tag, multiple) =>
          && a in w.sys.deliveries && w.sys.deliveries[s].channel == w.sys.deliveries[a].channel
          && if multiple then w.sys.deliveries[s].tag <= tag else w.sys.deliveries[s].tag == tag
        case Direct(ch, tag, multiple) =>
          && w.sys.deliveries[s].channel == ch
          && if multiple then w.sys.deliveries[s].tag <= tag else w.sys.deliveries[s].tag == tag
        case Close(c) => w.sys.deliveries[s].consumer == Some(c)
  {
    hide AllPossible, After, Good;
    StartIsGood();
    MovesKeep(START, moves);
    MovesKeepCovered(START, moves);
    var w := After(START, moves);
    EndedWasTaken(w, s);
    var id :| id in w.calls && s in w.calls[id].covered;
    GoodIs(w);
    assert InScope(w.sys, w.calls[id].request, s);
  }

  lemma EndedWasTaken(w: World, s: Span)
    requires Good(w) && s in w.sys.deliveries && !w.sys.deliveries[s].autoAck && s in w.sys.ends && w.sys.ends[s] > 0
    ensures s in w.sys.taken
  {
    hide LocalsOk, ChannelsOk, PendingKept, ClosedOk, TagsUnique, OneChannelEach, NoneDropped, CallOk;
  }

  // ---- closes ----

  /** In every interleaving: once a consumer's wrapper has drained its map, each span of the
      consumer was ended exactly once, or is on the list of a call that is still running. */
  lemma CloseEndsAll(moves: seq<Move>, consumer: Consumer)
    requires AllPossible(START, moves) && consumer in After(START, moves).sys.closed
    ensures var w := After(START, moves);
      forall s :: s in w.sys.deliveries && w.sys.deliveries[s].consumer == Some(consumer) ==>
        s in w.sys.ends && (w.sys.ends[s] == 1 || exists i :: i in w.calls && s in w.calls[i].toEnd)
  {
    hide AllPossible, After, Good;
    StartIsGood();
    MovesKeep(START, moves);
    var w := After(START, moves);
    forall s | s in w.sys.deliveries && w.sys.deliveries[s].consumer == Some(consumer) && !Held(w, s)
      ensures s in w.sys.ends && w.sys.ends[s] == 1
    {
      ClosedIsTaken(w, consumer, s);
      if !w.sys.deliveries[s].autoAck { TakenIsEnded(w, s); }
    }
    EveryDeliveryCounts(w);
  }

  lemma ClosedIsTaken(w: World, consumer: Consumer, s: Span)
    requires Good(w) && consumer in w.sys.closed && s in w.sys.deliveries && w.sys.deliveries[s].consumer == Some(consumer)
    ensures w.sys.deliveries[s].autoAck ==> s in w.sys.ends && w.sys.ends[s] == 1
    ensures !w.sys.deliveries[s].autoAck ==> s in w.sys.taken
  {
    hide LocalsOk, ChannelsOk, PendingKept, TagsUnique, OneChannelEach;
  }

  lemma EveryDeliveryCounts(w: World)
    requires Good(w)
    ensures forall s :: s in w.sys.deliveries ==> s in w.sys.ends
  {
  }

  /** When the call that closed a consumer has finished, the consumer takes no more deliveries
      and everything its map held was taken. */
  lemma CloseFinishes(moves: seq<Move>, id: Id)
    requires AllPossible(START, moves)
    requires var w := After(START, moves); id in w.calls && w.calls[id].todo == [] && w.calls[id].toEnd == {} && w.calls[id].request.Close?
    ensures var w := After(START, moves); w.calls[id].request.consumer in w.sys.closed && w.calls[id].covered <= w.sys.taken
  {
    hide AllPossible, After, Good;
    StartIsGood();
    MovesKeep(START, moves);
    GoodIs(After(START, moves));
  }

  /** In every interleaving each delivery span is ended at most once, whichever calls end it. */
  lemma NeverEndedTwice(moves: seq<Move>)
    requires AllPossible(START, moves)
    ensures var sys := After(START, moves).sys; forall s :: s in sys.deliveries ==> s in sys.ends && sys.ends[s] <= 1
  {
    hide AllPossible, After;
    StartIsGood();
    MovesKeep(START, moves);
  }
}
