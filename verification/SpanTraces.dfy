/** The canonical form of any list of spans with unique ids, whatever their parents: only what hangs
    below a root is serialized. */
module SpanTraces {
  import opened Common
  import opened CanonicalJson
  import opened SpanForest

  // ---- what hangs below a root ----

  /** The ids of the spans at most `n` steps below a root. */
  ghost function Level(spans: seq<Span>, n: nat): set<Id> {
    if n == 0 then set s | s in spans && ParentIn(Ids(spans), s).None? :: s.id
    else Level(spans, n - 1) + (set s | s in spans && HangsIn(Ids(spans), s, Level(spans, n - 1)) :: s.id)
  }

  predicate HangsIn(ids: set<Id>, s: Span, level: set<Id>) {
    var p := ParentIn(ids, s);
    p.Some? && p.value in level
  }

  ghost predicate IsReached(spans: seq<Span>, id: Id) { exists n: nat :: id in Level(spans, n) }

  lemma {:induction false} LevelsGrow(spans: seq<Span>, m: nat, n: nat)
    requires m <= n
    ensures Level(spans, m) <= Level(spans, n)
    decreases n
  {
    if m < n { LevelsGrow(spans, m, n - 1); }
  }

  /** A span is a root, or its parent is one step nearer to one. */
  lemma {:induction false} InLevel(spans: seq<Span>, s: Span, n: nat)
    requires UniqueIds(spans) && s in spans
    ensures s.id in Level(spans, n) <==> var p := ParentIn(Ids(spans), s); p.None? || (n > 0 && p.value in Level(spans, n - 1))
    decreases n
  {
    var ids := Ids(spans);
    if n == 0 {
      if s.id in Level(spans, 0) {
        var r :| r in spans && ParentIn(ids, r).None? && r.id == s.id;
        SameIdSameSpan(spans, r, s);
      }
    } else {
      InLevel(spans, s, n - 1);
      if n > 1 { LevelsGrow(spans, n - 2, n - 1); }
      if s.id in Level(spans, n) && s.id !in Level(spans, n - 1) {
        var r :| r in spans && HangsIn(ids, r, Level(spans, n - 1)) && r.id == s.id;
        SameIdSameSpan(spans, r, s);
      }
    }
  }

  lemma ReachedIffParentIs(spans: seq<Span>, s: Span)
    requires UniqueIds(spans) && s in spans
    ensures IsReached(spans, s.id) <==> var p := ParentIn(Ids(spans), s); p.None? || IsReached(spans, p.value)
  {
    hide Level, ParentIn, Ids;
    var p := ParentIn(Ids(spans), s);
    InLevel(spans, s, 0);
    if IsReached(spans, s.id) {
      var n: nat :| s.id in Level(spans, n);
      InLevel(spans, s, n);
    }
    if p.Some? && IsReached(spans, p.value) {
      var n: nat :| p.value in Level(spans, n);
      InLevel(spans, s, n + 1);
    }
  }

  /** The spans of a list that hang below a root of the trace. */
  ghost function ReachedOf(spans: seq<Span>, list: seq<Span>): (r: seq<Span>)
    ensures forall s :: s in r <==> s in list && IsReached(spans, s.id)
  {
    if list == [] then []
    else (if IsReached(spans, list[0].id) then [list[0]] else []) + ReachedOf(spans, list[1..])
  }

  ghost function Reached(spans: seq<Span>): seq<Span> { ReachedOf(spans, spans) }

  lemma {:induction false} ReachedIsUnique(spans: seq<Span>, list: seq<Span>)
    requires UniqueIds(list)
    ensures UniqueIds(ReachedOf(spans, list))
    decreases |list|
  {
    hide IsReached;
    if list != [] {
      ReachedIsUnique(spans, list[1..]);
      var rest := ReachedOf(spans, list[1..]);
      forall i | 0 <= i < |rest|
        ensures rest[i].id != list[0].id
      {
        assert rest[i] in list[1..];
      }
    }
  }

  /** Leaving out what is not reached takes no parent away from what is. */
  lemma ParentIsReached(spans: seq<Span>, s: Span)
    requires UniqueIds(spans) && s in Reached(spans)
    ensures ParentIn(Ids(Reached(spans)), s) == ParentIn(Ids(spans), s)
  {
    hide IsReached, ReachedOf;
    ReachedIffParentIs(spans, s);
    var p := ParentIn(Ids(spans), s);
    if p.Some? {
      var t :| t in spans && t.id == p.value;
      assert t in Reached(spans);
    }
  }

  lemma {:induction false} ReachedChildren(spans: seq<Span>, list: seq<Span>, p: Option<Id>)
    requires UniqueIds(spans) && (forall s :: s in list ==> s in spans) && (p.Some? ==> IsReached(spans, p.value))
    ensures Under(Ids(Reached(spans)), ReachedOf(spans, list), p) == Under(Ids(spans), list, p)
    decreases |list|
  {
    hide IsReached, Ids, ParentIn, Reached;
    if list != [] {
      var s, rest := list[0], ReachedOf(spans, list[1..]);
      ReachedChildren(spans, list[1..], p);
      ReachedIffParentIs(spans, s);
      if IsReached(spans, s.id) {
        IsInReached(spans, s);
        ParentIsReached(spans, s);
        assert ReachedOf(spans, list) == [s] + rest && ([s] + rest)[1..] == rest;
      } else {
        assert ReachedOf(spans, list) == rest;
      }
    }
  }

  lemma IsInReached(spans: seq<Span>, s: Span)
    ensures s in Reached(spans) <==> s in spans && IsReached(spans, s.id)
  {
  }

  // ---- its forest ----

  ghost function LeastLevel(spans: seq<Span>, id: Id, n: nat): (d: nat)
    requires id in Level(spans, n)
    ensures id in Level(spans, d) && d <= n && (d > 0 ==> id !in Level(spans, d - 1))
  {
    hide Level;
    if n > 0 && id in Level(spans, n - 1) then LeastLevel(spans, id, n - 1) else n
  }

  /** How far below a root. */
  ghost function Depth(spans: seq<Span>, id: Id): (d: nat)
    requires IsReached(spans, id)
    ensures id in Level(spans, d) && forall n: nat :: id in Level(spans, n) ==> d <= n
  {
    hide Level;
    var n: nat :| id in Level(spans, n);
    var d := LeastLevel(spans, id, n);
    forall m: nat | id in Level(spans, m)
      ensures d <= m
    {
      if m < d { LevelsGrow(spans, m, d - 1); }
    }
    d
  }

  ghost function MaxDepth(spans: seq<Span>, list: seq<Span>): (d: nat)
    requires forall s :: s in list ==> IsReached(spans, s.id)
    ensures forall s :: s in list ==> Depth(spans, s.id) <= d
  {
    if list == [] then 0
    else
      var d := MaxDepth(spans, list[1..]);
      if d < Depth(spans, list[0].id) then Depth(spans, list[0].id) else d
  }

  lemma ParentIsHigher(spans: seq<Span>, s: Span)
    requires UniqueIds(spans) && s in spans && IsReached(spans, s.id)
    ensures var p := ParentIn(Ids(spans), s); p.Some? ==> IsReached(spans, p.value) && Depth(spans, p.value) < Depth(spans, s.id)
  {
    hide Level, ParentIn, Ids;
    InLevel(spans, s, Depth(spans, s.id));
  }

  lemma ReachedId(spans: seq<Span>, id: Id)
    ensures id in Ids(Reached(spans)) ==> IsReached(spans, id)
  {
    hide IsReached;
  }

  /** The forest of what is reached, ranked by depth. */
  ghost function ForestOf(spans: seq<Span>): (f: Forest)
    requires UniqueIds(spans)
    ensures f.Valid() && f.spans == Reached(spans)
  {
    var top := MaxDepth(spans, Reached(spans));
    var f := Forest(Reached(spans), RankOf(spans, top), top);
    ForestIsValid(spans, f);
    f
  }

  ghost function RankOf(spans: seq<Span>, top: nat): (m: map<Id, nat>)
    requires forall s :: s in Reached(spans) ==> IsReached(spans, s.id) && Depth(spans, s.id) <= top
    ensures forall s :: s in Reached(spans) ==> s.id in m && m[s.id] == top - Depth(spans, s.id)
  {
    hide IsReached, Depth, ReachedOf;
    map s | s in Reached(spans) :: s.id := top - Depth(spans, s.id)
  }

  lemma ForestIsValid(spans: seq<Span>, f: Forest)
    requires UniqueIds(spans) && f.spans == Reached(spans)
    requires forall s :: s in f.spans ==> IsReached(spans, s.id) && Depth(spans, s.id) <= f.top
    requires forall s :: s in f.spans ==> s.id in f.rank && f.rank[s.id] == f.top - Depth(spans, s.id)
    ensures f.Valid()
  {
    ReachedIsUnique(spans, spans);
    hide IsReached, Depth, ReachedOf;
    forall s | s in f.spans
      ensures var p := ParentIn(Ids(f.spans), s); p.Some? ==> p.value in f.rank && f.rank[s.id] < f.rank[p.value]
    {
      ParentIsReached(spans, s);
      ParentIsHigher(spans, s);
      var p := ParentIn(Ids(f.spans), s);
      if p.Some? {
        var t :| t in f.spans && t.id == p.value;
      }
    }
  }

  /** What `canon_span_tree` returns. */
  ghost function TraceForm(spans: seq<Span>): seq<Json>
    requires UniqueIds(Kept(spans))
  {
    Canon(ForestOf(Kept(spans)))
  }

  /** Two traces have the same form exactly when, health checks aside, what hangs below their roots
      is the same up to a one-to-one renaming. */
  lemma SameFormIff(spans: seq<Span>, spans': seq<Span>)
    requires UniqueIds(Kept(spans)) && UniqueIds(Kept(spans'))
    ensures TraceForm(spans) == TraceForm(spans') <==> Isomorphic(Reached(Kept(spans)), Reached(Kept(spans')))
  {
    hide Canon, Isomorphic, Reached, Forest.Valid;
    CanonIffIsomorphic(ForestOf(Kept(spans)), ForestOf(Kept(spans')));
  }

  // ---- cycles ----

  /** Every span hangs below a root. */
  ghost predicate Acyclic(spans: seq<Span>) { forall s :: s in spans ==> IsReached(spans, s.id) }

  lemma {:induction false} AllReached(spans: seq<Span>, list: seq<Span>)
    requires forall s :: s in list ==> IsReached(spans, s.id)
    ensures ReachedOf(spans, list) == list
    decreases |list|
  {
    hide IsReached;
    if list != [] {
      AllReached(spans, list[1..]);
      assert list[0] in list && [list[0]] + list[1..] == list;
    }
  }

  /** That is so exactly when some rank decreases from every parent to its children. */
  lemma AcyclicIffRanked(spans: seq<Span>)
    requires UniqueIds(spans)
    ensures Acyclic(spans) <==> exists rank, top :: Forest(spans, rank, top).Valid()
  {
    hide IsReached, Forest.Valid;
    if Acyclic(spans) {
      AllReached(spans, spans);
      var f := ForestOf(spans);
      assert f == Forest(spans, f.rank, f.top);
    }
    if rank, top :| Forest(spans, rank, top).Valid() {
      var f := Forest(spans, rank, top);
      forall s | s in spans
        ensures IsReached(spans, s.id)
      {
        RankedIsReached(f, s);
      }
    }
  }

  lemma {:induction false} RankedIsReached(f: Forest, s: Span)
    requires f.Valid() && s in f.spans
    ensures IsReached(f.spans, s.id)
    decreases f.top - (if s.id in f.rank && f.rank[s.id] <= f.top then f.rank[s.id] else 0)
  {
    hide IsReached;
    ParentRanksAbove(f, s);
    ReachedIffParentIs(f.spans, s);
    var p := f.Parent(s);
    if p.Some? {
      var parent := f.At(p.value);
      ParentRanksAbove(f, parent);
      RankedIsReached(f, parent);
    }
  }

  /** A renaming keeps how far below a root every span is. */
  lemma {:induction false} LevelsAreRenamed(xs: seq<Span>, ys: seq<Span>, b: map<Id, Id>, id: Id, n: nat)
    requires UniqueIds(xs) && UniqueIds(ys) && IsIsomorphism(xs, ys, b) && id in b
    ensures id in Level(xs, n) <==> b[id] in Level(ys, n)
    decreases n
  {
    hide Level;
    assert id in Ids(xs);
    var s :| s in xs && s.id == id;
    var t :| t in ys && t.id == b[id] && t.own == s.own && ParentIn(Ids(ys), t) == Image(b, ParentIn(Ids(xs), s));
    InLevel(xs, s, n);
    InLevel(ys, t, n);
    var p := ParentIn(Ids(xs), s);
    if p.Some? && n > 0 { LevelsAreRenamed(xs, ys, b, p.value, n - 1); }
  }

  lemma ReachedIsRenamed(xs: seq<Span>, ys: seq<Span>, b: map<Id, Id>, id: Id)
    requires UniqueIds(xs) && UniqueIds(ys) && IsIsomorphism(xs, ys, b) && id in b
    ensures IsReached(xs, id) <==> IsReached(ys, b[id])
  {
    hide Level, IsIsomorphism;
    if IsReached(xs, id) {
      var n: nat :| id in Level(xs, n);
      LevelsAreRenamed(xs, ys, b, id, n);
    }
    if IsReached(ys, b[id]) {
      var n: nat :| b[id] in Level(ys, n);
      LevelsAreRenamed(xs, ys, b, id, n);
    }
  }

  /** Isomorphic traces are isomorphic in what hangs below their roots. */
  lemma IsomorphicReached(xs: seq<Span>, ys: seq<Span>)
    requires UniqueIds(xs) && UniqueIds(ys) && Isomorphic(xs, ys)
    ensures Isomorphic(Reached(xs), Reached(ys))
    ensures Acyclic(xs) <==> Acyclic(ys)
  {
    var b :| IsIsomorphism(xs, ys, b);
    hide IsReached, Reached, IsIsomorphism, Acyclic;
    forall id | id in b
      ensures IsReached(xs, id) <==> IsReached(ys, b[id])
    {
      ReachedIsRenamed(xs, ys, b, id);
    }
    var c := map id | id in b && IsReached(xs, id) :: b[id];
    RestrictedToReached(xs, ys, b, c);
    AcyclicTogether(xs, ys, b);
  }

  lemma AcyclicTogether(xs: seq<Span>, ys: seq<Span>, b: map<Id, Id>)
    requires b.Keys == Ids(xs) && b.Values == Ids(ys)
    requires forall id :: id in b ==> (IsReached(xs, id) <==> IsReached(ys, b[id]))
    ensures Acyclic(xs) <==> Acyclic(ys)
  {
    hide IsReached;
    AcyclicIds(xs);
    AcyclicIds(ys);
    hide Acyclic, Ids;
    if Acyclic(ys) {
      forall id | id in Ids(xs)
        ensures IsReached(xs, id)
      {
        assert b[id] in b.Values;
      }
    }
    if Acyclic(xs) {
      forall id | id in Ids(ys)
        ensures IsReached(ys, id)
      {
        var k :| k in b && b[k] == id;
      }
    }
  }

  lemma AcyclicIds(spans: seq<Span>)
    ensures Acyclic(spans) <==> forall id :: id in Ids(spans) ==> IsReached(spans, id)
  {
    hide IsReached;
    forall s | s in spans
      ensures s.id in Ids(spans)
    {
    }
  }

  lemma RestrictedToReached(xs: seq<Span>, ys: seq<Span>, b: map<Id, Id>, c: map<Id, Id>)
    requires UniqueIds(xs) && UniqueIds(ys) && IsIsomorphism(xs, ys, b)
    requires forall id :: id in b ==> (IsReached(xs, id) <==> IsReached(ys, b[id]))
    requires forall id :: id in c <==> id in b && IsReached(xs, id)
    requires forall id :: id in c ==> c[id] == b[id]
    ensures IsIsomorphism(Reached(xs), Reached(ys), c)
  {
    OneToOne(xs, ys, b, c);
    hide *;
    var rx, ry := Reached(xs), Reached(ys);
    RestrictedKeys(xs, ys, b, c);
    forall s | s in rx
      ensures s.id in c && exists t :: t in ry && t.id == c[s.id] && t.own == s.own && ParentIn(Ids(ry), t) == Image(c, ParentIn(Ids(rx), s))
    {
      var t := RestrictedAt(xs, ys, b, c, s);
    }
    Assembled(rx, ry, c);
  }

  lemma OneToOne(xs: seq<Span>, ys: seq<Span>, b: map<Id, Id>, c: map<Id, Id>)
    requires IsIsomorphism(xs, ys, b) && forall id :: id in c ==> id in b && c[id] == b[id]
    ensures b.Keys == Ids(xs) && b.Values == Ids(ys)
    ensures forall i, j :: i in c && j in c && c[i] == c[j] ==> i == j
  {
  }

  lemma Assembled(xs: seq<Span>, ys: seq<Span>, b: map<Id, Id>)
    requires b.Keys == Ids(xs) && b.Values == Ids(ys) && forall i, j :: i in b && j in b && b[i] == b[j] ==> i == j
    requires forall s :: s in xs ==> s.id in b && exists t :: t in ys && t.id == b[s.id] && t.own == s.own && ParentIn(Ids(ys), t) == Image(b, ParentIn(Ids(xs), s))
    ensures IsIsomorphism(xs, ys, b)
  {
  }

  lemma RestrictedKeys(xs: seq<Span>, ys: seq<Span>, b: map<Id, Id>, c: map<Id, Id>)
    requires b.Keys == Ids(xs) && b.Values == Ids(ys)
    requires forall id :: id in b ==> (IsReached(xs, id) <==> IsReached(ys, b[id]))
    requires forall id :: id in c <==> id in b && IsReached(xs, id)
    requires forall id :: id in c ==> c[id] == b[id]
    ensures c.Keys == Ids(Reached(xs)) && c.Values == Ids(Reached(ys))
  {
    hide IsReached, Reached, Ids;
    ReachedKeys(xs, b.Keys, c.Keys);
    forall id | id in b.Values
      ensures id in c.Values <==> IsReached(ys, id)
    {
      var k :| k in b && b[k] == id;
      if IsReached(ys, id) { assert c[k] == id; }
    }
    forall id | id in c.Values
      ensures id in b.Values
    {
      var k :| k in c && c[k] == id;
      assert b[k] == id;
    }
    ReachedKeys(ys, b.Values, c.Values);
  }

  lemma RestrictedAt(xs: seq<Span>, ys: seq<Span>, b: map<Id, Id>, c: map<Id, Id>, s: Span) returns (t: Span)
    requires UniqueIds(xs) && UniqueIds(ys) && IsIsomorphism(xs, ys, b) && s in Reached(xs)
    requires forall id :: id in b ==> (IsReached(xs, id) <==> IsReached(ys, b[id]))
    requires forall id :: id in c <==> id in b && IsReached(xs, id)
    requires forall id :: id in c ==> c[id] == b[id]
    ensures s.id in c && t in Reached(ys) && t.id == c[s.id] && t.own == s.own
    ensures ParentIn(Ids(Reached(ys)), t) == Image(c, ParentIn(Ids(Reached(xs)), s))
  {
    IsInReached(xs, s);
    assert s.id in Ids(xs);
    t :| t in ys && t.id == b[s.id] && t.own == s.own && ParentIn(Ids(ys), t) == Image(b, ParentIn(Ids(xs), s));
    hide IsReached, Reached, Ids, UniqueIds, IsIsomorphism, ParentIn;
    IsInReached(ys, t);
    ParentIsReached(xs, s);
    ParentIsReached(ys, t);
    ReachedIffParentIs(xs, s);
  }

  lemma ReachedKeys(xs: seq<Span>, ids: set<Id>, reached: set<Id>)
    requires ids == Ids(xs) && reached <= ids && forall id :: id in ids ==> (id in reached <==> IsReached(xs, id))
    ensures reached == Ids(Reached(xs))
  {
    hide IsReached, ReachedOf;
    forall id
      ensures id in reached <==> id in Ids(Reached(xs))
    {
      if id in reached {
        var s :| s in xs && s.id == id;
        assert s in Reached(xs);
      }
    }
  }

  lemma {:induction false} AllHealthy(list: seq<Span>)
    requires forall s :: s in list ==> !s.health
    ensures Kept(list) == list
    decreases |list|
  {
    if list != [] {
      assert [list[0]] + list[1..] == list;
      AllHealthy(list[1..]);
    }
  }

  lemma {:induction false} KeptIsHealthy(spans: seq<Span>)
    ensures forall s :: s in Kept(spans) ==> !s.health
    decreases |spans|
  {
    if spans != [] { KeptIsHealthy(spans[1..]); }
  }

  lemma ReachedIsAcyclic(spans: seq<Span>)
    requires UniqueIds(spans)
    ensures UniqueIds(Reached(spans)) && Acyclic(Reached(spans))
  {
    ReachedIsUnique(spans, spans);
    hide IsReached, Forest.Valid;
    AcyclicIffRanked(Reached(spans));
    var f := ForestOf(spans);
    assert f == Forest(Reached(spans), f.rank, f.top);
  }

  /** What does not hang below a root leaves no trace in the form. */
  lemma CyclesAreInvisible(spans: seq<Span>)
    requires UniqueIds(Kept(spans))
    ensures var rest := Reached(Kept(spans));
      Kept(rest) == rest && UniqueIds(rest) && Acyclic(rest) && TraceForm(rest) == TraceForm(spans)
  {
    var kept := Kept(spans);
    KeptIsHealthy(spans);
    ReachedIsAcyclic(kept);
    var rest := Reached(kept);
    AllHealthy(rest);
    AllReached(rest, rest);
    hide IsReached, ReachedOf, Isomorphic;
    SameSpansAreIsomorphic(rest, rest);
    SameFormIff(rest, spans);
  }

  /** The form determines a trace among those without cycles exactly when it has none itself. */
  lemma FormDeterminesIff(spans: seq<Span>)
    requires UniqueIds(Kept(spans))
    ensures Acyclic(Kept(spans))
       <==> forall spans' :: UniqueIds(Kept(spans')) && Acyclic(Kept(spans')) && TraceForm(spans) == TraceForm(spans') ==>
              Isomorphic(Kept(spans), Kept(spans'))
  {
    hide IsReached, Isomorphic, ReachedOf;
    var kept := Kept(spans);
    if Acyclic(kept) {
      AllReached(kept, kept);
      forall spans' | UniqueIds(Kept(spans')) && Acyclic(Kept(spans')) && TraceForm(spans) == TraceForm(spans')
        ensures Isomorphic(kept, Kept(spans'))
      {
        AllReached(Kept(spans'), Kept(spans'));
        SameFormIff(spans, spans');
      }
    } else {
      var rest := Reached(kept);
      CyclesAreInvisible(spans);
      if Isomorphic(kept, rest) { IsomorphicReached(kept, rest); }
    }
  }

  /** Two spans that are each other's parent: nothing of them is serialized, as if the trace had
      been empty. */
  lemma CycleLooksEmpty(own: Own)
    ensures var spans := [Span("a", "b", own, false), Span("b", "a", own, false)];
      && UniqueIds(Kept(spans)) && UniqueIds(Kept([]))
      && TraceForm(spans) == TraceForm([]) && !Isomorphic(Kept(spans), Kept([]))
  {
    var s, t := Span("a", "b", own, false), Span("b", "a", own, false);
    EachOther(s, t);
    NoneIsReached([s, t]);
    NoneIsReached([]);
    NotEmpty([s, t]);
    hide *;
    SameSpansAreIsomorphic([], []);
    SameFormIff([s, t], []);
  }

  lemma EachOther(s: Span, t: Span)
    requires s.id == "a" && s.parent == "b" && t.id == "b" && t.parent == "a" && !s.health && !t.health
    ensures var spans := [s, t];
      && Kept(spans) == spans && UniqueIds(spans) && Kept([]) == [] && UniqueIds([])
      && forall r :: r in spans ==> ParentIn(Ids(spans), r).Some?
  {
    var spans := [s, t];
    assert spans[1..] == [t] && [t][1..] == [];
    assert Kept([t]) == [t];
    HasId(spans, spans[0]);
    HasId(spans, spans[1]);
    assert forall r :: r in spans ==> r == s || r == t;
    hide Ids, Kept;
  }

  lemma HasId(spans: seq<Span>, s: Span)
    requires s in spans
    ensures s.id in Ids(spans)
  {
  }

  lemma NotEmpty(spans: seq<Span>)
    requires spans != []
    ensures !Isomorphic(spans, [])
  {
    assert spans[0].id in Ids(spans) && Ids([]) == {};
    hide Ids;
    forall b: map<Id, Id>
      ensures !IsIsomorphism(spans, [], b)
    {
      if spans[0].id in b { assert b[spans[0].id] in b.Values; }
    }
  }

  lemma NoneIsReached(spans: seq<Span>)
    requires forall s :: s in spans ==> ParentIn(Ids(spans), s).Some?
    ensures Reached(spans) == []
  {
    var r := Reached(spans);
    assert r == [] || r[0] in r;
    hide ParentIn, Level, ReachedOf, Ids;
    forall n: nat
      ensures Level(spans, n) == {}
    {
      NoRootNoLevel(spans, n);
    }
  }

  lemma {:induction false} NoRootNoLevel(spans: seq<Span>, n: nat)
    requires forall s :: s in spans ==> ParentIn(Ids(spans), s).Some?
    ensures Level(spans, n) == {}
    decreases n
  {
    if n > 0 { NoRootNoLevel(spans, n - 1); }
  }

  // ---- what does not matter ----

  lemma {:induction false} KeptCounts(spans: seq<Span>, s: Span)
    ensures multiset(Kept(spans))[s] == if s.health then 0 else multiset(spans)[s]
    decreases |spans|
  {
    if spans != [] {
      KeptCounts(spans[1..], s);
      var rest := spans[1..];
      assert spans == [spans[0]] + rest;
      assert Kept(spans) == (if spans[0].health then [] else [spans[0]]) + Kept(rest);
      assert multiset(Kept(spans)) == (if spans[0].health then multiset{} else multiset{spans[0]}) + multiset(Kept(rest));
    }
  }

  lemma KeptPermutes(spans: seq<Span>, spans': seq<Span>)
    requires multiset(spans) == multiset(spans')
    ensures multiset(Kept(spans)) == multiset(Kept(spans'))
  {
    forall s
      ensures multiset(Kept(spans))[s] == multiset(Kept(spans'))[s]
    {
      KeptCounts(spans, s);
      KeptCounts(spans', s);
    }
  }

  lemma SameMembersOf(xs: seq<Span>, ys: seq<Span>)
    requires multiset(xs) == multiset(ys)
    ensures forall s :: s in xs <==> s in ys
    ensures Ids(xs) == Ids(ys)
  {
    assert forall s :: s in xs <==> s in multiset(xs);
    assert forall s :: s in ys <==> s in multiset(ys);
  }

  lemma RepeatCounts(ys: seq<Span>, i: nat, j: nat)
    requires i < j < |ys| && ys[i] == ys[j]
    ensures multiset(ys)[ys[i]] >= 2
  {
    var front, back := ys[..j], ys[j..];
    assert ys == front + back && ys[i] == front[i] && back[0] == ys[j];
    assert ys[i] in multiset(front) && ys[i] in multiset(back);
  }

  lemma PermutedIdsAreUnique(xs: seq<Span>, ys: seq<Span>)
    requires UniqueIds(xs) && multiset(xs) == multiset(ys)
    ensures UniqueIds(ys)
  {
    SameMembersOf(xs, ys);
    forall i: nat, j: nat | i < j < |ys|
      ensures ys[i].id != ys[j].id
    {
      if ys[i].id == ys[j].id {
        SameIdSameSpan(xs, ys[i], ys[j]);
        CountOnce(xs, ys[i]);
        RepeatCounts(ys, i, j);
        assert false;
      }
    }
  }

  /** The order of the spans does not matter: neither to what the function accepts nor to its result. */
  lemma OrderIsInvisible(spans: seq<Span>, spans': seq<Span>)
    requires multiset(spans) == multiset(spans') && UniqueIds(Kept(spans))
    ensures UniqueIds(Kept(spans')) && TraceForm(spans) == TraceForm(spans')
  {
    hide *;
    var xs, ys := Kept(spans), Kept(spans');
    KeptPermutes(spans, spans');
    SameMembersOf(xs, ys);
    PermutedIdsAreUnique(xs, ys);
    SameSpansAreIsomorphic(xs, ys);
    IsomorphicReached(xs, ys);
    SameFormIff(spans, spans');
  }

  lemma SameSpansAreIsomorphic(xs: seq<Span>, ys: seq<Span>)
    requires forall s :: s in xs <==> s in ys
    ensures Isomorphic(xs, ys)
  {
    assert Ids(xs) == Ids(ys);
    var ids := Ids(xs);
    var b := map id | id in ids :: id;
    assert forall id :: id in ids ==> b[id] == id;
    assert b.Values == ids;
    forall s | s in xs
      ensures s in ys && s.id == b[s.id] && ParentIn(ids, s) == Image(b, ParentIn(ids, s))
    {
      assert s.id in ids;
    }
    assert IsIsomorphism(xs, ys, b);
  }

  /** A one-to-one renaming of ids that keeps "", which stands for no parent. */
  ghost predicate IsRenaming(r: Id -> Id) { r("") == "" && forall i, j :: r(i) == r(j) ==> i == j }

  /** A span with its own id and its parent's replaced, whether the parent is known or not. */
  function Rename(r: Id -> Id, s: Span): Span { s.(id := r(s.id), parent := r(s.parent)) }

  function RenameAll(r: Id -> Id, spans: seq<Span>): (t: seq<Span>)
    ensures |t| == |spans| && forall i :: 0 <= i < |t| ==> t[i] == Rename(r, spans[i])
  {
    seq(|spans|, i requires 0 <= i < |spans| => Rename(r, spans[i]))
  }

  lemma {:induction false} KeptRenames(r: Id -> Id, spans: seq<Span>)
    ensures Kept(RenameAll(r, spans)) == RenameAll(r, Kept(spans))
    decreases |spans|
  {
    if spans != [] {
      KeptRenames(r, spans[1..]);
      assert RenameAll(r, spans)[1..] == RenameAll(r, spans[1..]);
    }
  }

  lemma RenamedMembers(r: Id -> Id, xs: seq<Span>)
    ensures forall s :: s in xs ==> Rename(r, s) in RenameAll(r, xs)
    ensures forall t :: t in RenameAll(r, xs) ==> exists s :: s in xs && t == Rename(r, s)
  {
    var ys := RenameAll(r, xs);
    forall s | s in xs
      ensures Rename(r, s) in ys
    {
      var i :| 0 <= i < |xs| && xs[i] == s;
      assert ys[i] == Rename(r, s);
    }
    forall t | t in ys
      ensures exists s :: s in xs && t == Rename(r, s)
    {
      var i :| 0 <= i < |ys| && ys[i] == t;
      assert xs[i] in xs;
    }
  }

  lemma RenamedIds(r: Id -> Id, xs: seq<Span>)
    requires IsRenaming(r)
    ensures forall id :: id in Ids(xs) <==> r(id) in Ids(RenameAll(r, xs))
    ensures forall id :: id in Ids(RenameAll(r, xs)) ==> exists k :: k in Ids(xs) && id == r(k)
  {
    var ys := RenameAll(r, xs);
    RenamedMembers(r, xs);
    forall id
      ensures id in Ids(xs) ==> r(id) in Ids(ys)
    {
      if id in Ids(xs) {
        var s :| s in xs && s.id == id;
        assert Rename(r, s).id == r(id);
      }
    }
    forall id | id in Ids(ys)
      ensures exists k :: k in Ids(xs) && id == r(k)
    {
      var t :| t in ys && t.id == id;
      var s :| s in xs && t == Rename(r, s);
      assert s.id in Ids(xs) && id == r(s.id);
    }
  }

  lemma RenamedParent(r: Id -> Id, xs: seq<Span>, s: Span)
    requires IsRenaming(r)
    ensures var p := ParentIn(Ids(xs), s);
      ParentIn(Ids(RenameAll(r, xs)), Rename(r, s)) == if p.Some? then Some(r(p.value)) else None
  {
    hide Ids;
    RenamedIds(r, xs);
    assert r(s.parent) == "" ==> r(s.parent) == r("");
  }

  lemma RenamedSpansAreIsomorphic(r: Id -> Id, xs: seq<Span>)
    requires IsRenaming(r)
    ensures Isomorphic(xs, RenameAll(r, xs))
  {
    var ys := RenameAll(r, xs);
    var ids := Ids(xs);
    var b := map id | id in ids :: r(id);
    RenamedBijection(r, xs, b);
    forall s | s in xs
      ensures s.id in b && exists t :: t in ys && t.id == b[s.id] && t.own == s.own && ParentIn(Ids(ys), t) == Image(b, ParentIn(ids, s))
    {
      RenamedMembers(r, xs);
      RenamedParent(r, xs, s);
      var t := Rename(r, s);
      assert t in ys && t.id == b[s.id] && t.own == s.own && ParentIn(Ids(ys), t) == Image(b, ParentIn(ids, s));
    }
    assert IsIsomorphism(xs, ys, b);
  }

  lemma RenamedBijection(r: Id -> Id, xs: seq<Span>, b: map<Id, Id>)
    requires IsRenaming(r) && (forall id :: id in b <==> id in Ids(xs)) && forall id :: id in b ==> b[id] == r(id)
    ensures b.Keys == Ids(xs) && b.Values == Ids(RenameAll(r, xs))
    ensures forall i, j :: i in b && j in b && b[i] == b[j] ==> i == j
  {
    hide Ids;
    RenamedIds(r, xs);
    forall id | id in Ids(RenameAll(r, xs))
      ensures id in b.Values
    {
      var k :| k in Ids(xs) && id == r(k);
      assert b[k] == id;
    }
  }

  lemma RenamedIdsAreUnique(r: Id -> Id, xs: seq<Span>)
    requires IsRenaming(r) && UniqueIds(xs)
    ensures UniqueIds(RenameAll(r, xs))
  {
    var ys := RenameAll(r, xs);
    forall i, j | 0 <= i < j < |ys|
      ensures ys[i].id != ys[j].id
    {
      assert xs[i].id != xs[j].id;
    }
  }

  /** The ids themselves do not matter, those of parents outside the trace included: neither to
      what the function accepts nor to its result. */
  lemma IdsAreInvisible(r: Id -> Id, spans: seq<Span>)
    requires IsRenaming(r) && UniqueIds(Kept(spans))
    ensures UniqueIds(Kept(RenameAll(r, spans))) && TraceForm(spans) == TraceForm(RenameAll(r, spans))
  {
    hide *;
    var xs := Kept(spans);
    KeptRenames(r, spans);
    RenamedIdsAreUnique(r, xs);
    RenamedSpansAreIsomorphic(r, xs);
    IsomorphicReached(xs, RenameAll(r, xs));
    SameFormIff(spans, RenameAll(r, spans));
  }
}
