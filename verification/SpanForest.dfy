/** The canonical form of a trace's spans: a sorted list of root trees without ids. */
module SpanForest {
  import opened Common
  import opened CanonicalJson

  type Id = string

  /** What is kept of the span itself; the parts that are lists are sorted already. */
  datatype Own = Own(attrs: Json, events: Json, kind: string, links: Json, name: string, scope: string, code: Json, message: Json)

  /** `health`: some attribute `url.path` is "/health". An absent parent is "". */
  datatype Span = Span(id: Id, parent: Id, own: Own, health: bool)

  // ---- the parent relation ----

  function Kept(spans: seq<Span>): seq<Span> {
    if spans == [] then [] else (if spans[0].health then [] else [spans[0]]) + Kept(spans[1..])
  }

  function Ids(spans: seq<Span>): set<Id> { set s | s in spans :: s.id }

  /** The parent when it is one of the spans; otherwise the span is a root. */
  function ParentIn(ids: set<Id>, s: Span): Option<Id> {
    if s.parent != "" && s.parent in ids then Some(s.parent) else None
  }

  /** Those of the list with the given parent, in order. */
  function Under(ids: set<Id>, spans: seq<Span>, p: Option<Id>): (r: seq<Span>)
    ensures forall s :: s in r <==> s in spans && ParentIn(ids, s) == p
  {
    if spans == [] then []
    else (if ParentIn(ids, spans[0]) == p then [spans[0]] else []) + Under(ids, spans[1..], p)
  }

  predicate UniqueIds(spans: seq<Span>) {
    forall i, j :: 0 <= i < j < |spans| ==> spans[i].id != spans[j].id
  }

  /** The spans of a trace, with a rank that shows the parent relation has no cycle. */
  datatype Forest = Forest(spans: seq<Span>, rank: map<Id, nat>, top: nat) {
    ghost predicate Valid() {
      && UniqueIds(spans)
      && (forall s :: s in spans ==> s.id in rank && rank[s.id] <= top)
      && (forall s :: s in spans ==>
            var p := ParentIn(Ids(spans), s); p.Some? ==> p.value in rank && rank[s.id] < rank[p.value])
    }

    ghost function At(id: Id): (s: Span)
      requires id in Ids(spans)
      ensures s in spans && s.id == id
    {
      var s :| s in spans && s.id == id; s
    }

    function Parent(s: Span): Option<Id> { ParentIn(Ids(spans), s) }

    function Children(p: Option<Id>): seq<Span> { Under(Ids(spans), spans, p) }
  }

  lemma SameIdSameSpan(spans: seq<Span>, s: Span, t: Span)
    requires UniqueIds(spans) && s in spans && t in spans && s.id == t.id
    ensures s == t
  {
    var i :| 0 <= i < |spans| && spans[i] == s;
    var j :| 0 <= j < |spans| && spans[j] == t;
    assert i == j;
  }

  // ---- the canonical form ----

  function Node(own: Own, children: seq<Json>): Json {
    Object([Member("attrs", own.attrs), Member("children", Array(children)), Member("events", own.events),
            Member("kind", Text(own.kind)), Member("links", own.links), Member("name", Text(own.name)),
            Member("scope", Text(own.scope)),
            Member("status", Object([Member("code", own.code), Member("message", own.message)]))])
  }

  lemma NodeDetermines(a: Own, b: Own, xs: seq<Json>, ys: seq<Json>)
    requires Node(a, xs) == Node(b, ys)
    ensures a == b && xs == ys
  {
    var m, n := Node(a, xs).members, Node(b, ys).members;
    assert m[0] == n[0] && m[1] == n[1] && m[2] == n[2] && m[3] == n[3];
    assert m[4] == n[4] && m[5] == n[5] && m[6] == n[6] && m[7] == n[7];
    var st, st' := m[7].value.members, n[7].value.members;
    assert st[0] == st'[0] && st[1] == st'[1];
  }

  /** The tree of one span. */
  ghost function Tree(f: Forest, s: Span): Json
    requires f.Valid() && s in f.spans
    decreases f.rank[s.id], 1, 0
  {
    Node(s.own, Sorted(Trees(f, f.Children(Some(s.id)), f.rank[s.id])))
  }

  /** The trees of spans of lower rank than the given one. */
  ghost function Trees(f: Forest, list: seq<Span>, below: nat): (r: seq<Json>)
    requires f.Valid() && forall s :: s in list ==> s in f.spans && f.rank[s.id] < below
    ensures |r| == |list|
    decreases below, 0, |list|
  {
    if list == [] then [] else [Tree(f, list[0])] + Trees(f, list[1..], below)
  }

  lemma {:induction false} TreesAre(f: Forest, list: seq<Span>, below: nat)
    requires f.Valid() && forall s :: s in list ==> s in f.spans && f.rank[s.id] < below
    ensures forall i :: 0 <= i < |list| ==> Trees(f, list, below)[i] == Tree(f, list[i])
    decreases |list|
  {
    hide Tree, Forest.Valid;
    if list != [] { TreesAre(f, list[1..], below); }
  }

  ghost function TreesUnder(f: Forest, p: Option<Id>): (r: seq<Json>)
    requires f.Valid()
    ensures |r| == |f.Children(p)| && forall i :: 0 <= i < |r| ==> r[i] == Tree(f, f.Children(p)[i])
  {
    TreesAre(f, f.Children(p), f.top + 1);
    Trees(f, f.Children(p), f.top + 1)
  }

  /** `canon_span_tree` for spans that were filtered already. */
  ghost function Canon(f: Forest): seq<Json>
    requires f.Valid()
  {
    Sorted(TreesUnder(f, None))
  }

  lemma TreeIs(f: Forest, s: Span)
    requires f.Valid() && s in f.spans
    ensures Tree(f, s) == Node(s.own, Sorted(TreesUnder(f, Some(s.id))))
  {
    TreesAre(f, f.Children(Some(s.id)), f.rank[s.id]);
    assert Trees(f, f.Children(Some(s.id)), f.rank[s.id]) == TreesUnder(f, Some(s.id));
  }

  // ---- sameness of forests ----

  function Image(b: map<Id, Id>, p: Option<Id>): Option<Id> {
    if p.Some? && p.value in b then Some(b[p.value]) else None
  }

  /** A one-to-one renaming of the spans that keeps what each span says and its parent. */
  ghost predicate IsIsomorphism(xs: seq<Span>, ys: seq<Span>, b: map<Id, Id>) {
    && b.Keys == Ids(xs) && b.Values == Ids(ys)
    && (forall i, j :: i in b && j in b && b[i] == b[j] ==> i == j)
    && (forall s :: s in xs ==> exists t ::
          t in ys && t.id == b[s.id] && t.own == s.own && ParentIn(Ids(ys), t) == Image(b, ParentIn(Ids(xs), s)))
  }

  ghost predicate Isomorphic(xs: seq<Span>, ys: seq<Span>) {
    exists b :: IsIsomorphism(xs, ys, b)
  }

  // ---- isomorphic forests have the same canonical form ----

  function Without<T>(s: seq<T>, i: nat): seq<T>
    requires i < |s|
  {
    s[..i] + s[i + 1..]
  }

  lemma WithoutOne<T>(s: seq<T>, i: nat)
    requires i < |s|
    ensures multiset(s) == multiset(Without(s, i)) + multiset{s[i]}
    ensures |Without(s, i)| == |s| - 1
    ensures forall k :: 0 <= k < |s| - 1 ==> Without(s, i)[k] == s[if k < i then k else k + 1]
  {
    assert s == s[..i] + [s[i]] + s[i + 1..];
  }

  /** Lists that give equal members equal images have the same collection of images when they
      have the same collection of members. */
  lemma {:induction false} PermutedImages<X, Y>(xs: seq<X>, ys: seq<X>, tx: seq<Y>, ty: seq<Y>)
    requires multiset(xs) == multiset(ys) && |tx| == |xs| && |ty| == |ys|
    requires forall i, j :: 0 <= i < |xs| && 0 <= j < |ys| && xs[i] == ys[j] ==> tx[i] == ty[j]
    ensures multiset(tx) == multiset(ty)
    decreases |xs|
  {
    hide Without;
    if xs == [] {
      assert |multiset(ys)| == 0;
    } else {
      assert xs[0] in multiset(ys);
      var i: nat :| i < |ys| && ys[i] == xs[0];
      WithoutOne(xs, 0);
      WithoutOne(ys, i);
      WithoutOne(tx, 0);
      WithoutOne(ty, i);
      var xs', ys', tx', ty' := Without(xs, 0), Without(ys, i), Without(tx, 0), Without(ty, i);
      forall a, b | 0 <= a < |xs'| && 0 <= b < |ys'| && xs'[a] == ys'[b]
        ensures tx'[a] == ty'[b]
      {
        var b' := if b < i then b else b + 1;
        assert xs[a + 1] == ys[b'];
      }
      assert multiset(xs') == multiset(xs) - multiset{xs[0]} && multiset(ys') == multiset(ys) - multiset{ys[i]};
      PermutedImages(xs', ys', tx', ty');
    }
  }

  lemma MultisetOfTrees(f: Forest, xs: seq<Span>, ys: seq<Span>, below: nat)
    requires f.Valid() && multiset(xs) == multiset(ys)
    requires forall s :: s in xs ==> s in f.spans && f.rank[s.id] < below
    requires forall s :: s in ys ==> s in f.spans && f.rank[s.id] < below
    ensures multiset(Trees(f, xs, below)) == multiset(Trees(f, ys, below))
  {
    TreesAre(f, xs, below);
    TreesAre(f, ys, below);
    PermutedImages(xs, ys, Trees(f, xs, below), Trees(f, ys, below));
  }

  /** The spans that the children of a span are renamed to. */
  ghost function Renamed(g: Forest, b: map<Id, Id>, list: seq<Span>): (r: seq<Span>)
    requires forall s :: s in list ==> s.id in b && b[s.id] in Ids(g.spans)
    ensures |r| == |list| && forall i :: 0 <= i < |r| ==> r[i] == g.At(b[list[i].id])
  {
    seq(|list|, i requires 0 <= i < |list| => g.At(b[list[i].id]))
  }

  lemma {:induction false} CountOnce<T>(xs: seq<T>, x: T)
    requires NoRepeats(xs)
    ensures multiset(xs)[x] == if x in xs then 1 else 0
    decreases |xs|
  {
    if xs != [] {
      CountOnce(xs[1..], x);
      assert xs == [xs[0]] + xs[1..];
    }
  }

  lemma SameMembers<T>(xs: seq<T>, ys: seq<T>)
    requires NoRepeats(xs) && NoRepeats(ys) && forall x :: x in xs <==> x in ys
    ensures multiset(xs) == multiset(ys)
  {
    forall x
      ensures multiset(xs)[x] == multiset(ys)[x]
    {
      CountOnce(xs, x);
      CountOnce(ys, x);
    }
  }

  lemma {:induction false} UnderHasNoRepeats(ids: set<Id>, spans: seq<Span>, p: Option<Id>)
    requires UniqueIds(spans)
    ensures UniqueIds(Under(ids, spans, p)) && NoRepeats(Under(ids, spans, p))
    decreases |spans|
  {
    if spans != [] {
      UnderHasNoRepeats(ids, spans[1..], p);
      var rest := Under(ids, spans[1..], p);
      forall i | 0 <= i < |rest|
        ensures rest[i].id != spans[0].id
      {
        assert rest[i] in spans[1..];
      }
    }
  }

  lemma IsomorphismAt(f: Forest, g: Forest, b: map<Id, Id>, s: Span)
    requires f.Valid() && g.Valid() && IsIsomorphism(f.spans, g.spans, b) && s in f.spans
    ensures s.id in b && b[s.id] in Ids(g.spans)
    ensures var t := g.At(b[s.id]); t.own == s.own && g.Parent(t) == Image(b, f.Parent(s))
  {
    assert s.id in Ids(f.spans);
    assert b[s.id] in b.Values;
    var t :| t in g.spans && t.id == b[s.id] && t.own == s.own && ParentIn(Ids(g.spans), t) == Image(b, ParentIn(Ids(f.spans), s));
    SameIdSameSpan(g.spans, t, g.At(b[s.id]));
  }

  lemma ImageIsOneToOne(f: Forest, g: Forest, b: map<Id, Id>, p: Option<Id>, q: Option<Id>)
    requires IsIsomorphism(f.spans, g.spans, b) && Image(b, p) == Image(b, q)
    requires (p.Some? ==> p.value in Ids(f.spans)) && (q.Some? ==> q.value in Ids(f.spans))
    ensures p == q
  {
  }

  /** Every span of the other forest is the image of one. */
  lemma Preimage(f: Forest, g: Forest, b: map<Id, Id>, t: Span) returns (s: Span)
    requires f.Valid() && g.Valid() && IsIsomorphism(f.spans, g.spans, b) && t in g.spans
    ensures s in f.spans && s.id in b && b[s.id] == t.id && t.id in Ids(g.spans) && g.At(t.id) == t
    ensures g.Parent(t) == Image(b, f.Parent(s))
  {
    assert t.id in b.Values;
    var id :| id in b && b[id] == t.id;
    s := f.At(id);
    IsomorphismAt(f, g, b, s);
    SameIdSameSpan(g.spans, t, g.At(t.id));
  }

  lemma ChildImage(f: Forest, g: Forest, b: map<Id, Id>, p: Option<Id>, s: Span)
    requires f.Valid() && g.Valid() && IsIsomorphism(f.spans, g.spans, b) && s in f.Children(p)
    ensures s.id in b && b[s.id] in Ids(g.spans) && g.At(b[s.id]) in g.Children(Image(b, p))
  {
    hide IsIsomorphism, Forest.Valid;
    IsomorphismAt(f, g, b, s);
  }

  lemma ChildrenAreUnique(f: Forest, p: Option<Id>)
    requires f.Valid()
    ensures UniqueIds(f.Children(p)) && NoRepeats(f.Children(p))
  {
    UnderHasNoRepeats(Ids(f.spans), f.spans, p);
  }

  /** The children of a span are renamed to exactly the children of its image. */
  lemma ChildrenAreRenamed(f: Forest, g: Forest, b: map<Id, Id>, p: Option<Id>)
    requires f.Valid() && g.Valid() && IsIsomorphism(f.spans, g.spans, b)
    requires p.Some? ==> p.value in Ids(f.spans)
    ensures forall s :: s in f.Children(p) ==> s.id in b && b[s.id] in Ids(g.spans)
    ensures multiset(Renamed(g, b, f.Children(p))) == multiset(g.Children(Image(b, p)))
  {
    hide *;
    var cs, ds := f.Children(p), g.Children(Image(b, p));
    forall s | s in cs
      ensures s.id in b && b[s.id] in Ids(g.spans) && g.At(b[s.id]) in ds
    {
      ChildImage(f, g, b, p, s);
    }
    var es := Renamed(g, b, cs);
    assert forall i :: 0 <= i < |cs| ==> cs[i] in cs;
    ChildrenAreUnique(f, p);
    ChildrenAreUnique(g, Image(b, p));
    RenamedHasNoRepeats(f, g, b, cs);
    forall t | t in ds
      ensures t in es
    {
      RenamedReaches(f, g, b, p, t);
    }
    SameMembers(es, ds);
  }

  lemma RenamedHasNoRepeats(f: Forest, g: Forest, b: map<Id, Id>, cs: seq<Span>)
    requires IsIsomorphism(f.spans, g.spans, b) && UniqueIds(cs)
    requires forall s :: s in cs ==> s.id in b && b[s.id] in Ids(g.spans)
    ensures NoRepeats(Renamed(g, b, cs))
  {
    var es := Renamed(g, b, cs);
    forall i, j | 0 <= i < j < |es|
      ensures es[i] != es[j]
    {
      assert cs[i].id != cs[j].id;
    }
  }

  lemma RenamedReaches(f: Forest, g: Forest, b: map<Id, Id>, p: Option<Id>, t: Span)
    requires f.Valid() && g.Valid() && IsIsomorphism(f.spans, g.spans, b)
    requires p.Some? ==> p.value in Ids(f.spans)
    requires forall s :: s in f.Children(p) ==> s.id in b && b[s.id] in Ids(g.spans)
    requires t in g.Children(Image(b, p))
    ensures t in Renamed(g, b, f.Children(p))
  {
    var s := Preimage(f, g, b, t);
    ImageIsOneToOne(f, g, b, f.Parent(s), p);
    var cs := f.Children(p);
    assert s in cs;
    var i :| 0 <= i < |cs| && cs[i] == s;
    assert Renamed(g, b, cs)[i] == t;
  }

  lemma RanksBelow(f: Forest, p: Option<Id>, below: nat)
    requires f.Valid()
    requires p.Some? ==> p.value in f.rank && f.rank[p.value] == below
    requires p.None? ==> below == f.top + 1
    ensures forall s :: s in f.spans ==> s.id in f.rank && f.rank[s.id] < f.top + 1
    ensures forall s :: s in f.Children(p) ==> s in f.spans && s.id in f.rank && f.rank[s.id] < below
  {
    hide Under;
  }

  lemma {:induction false} RenamedHasSameTree(f: Forest, g: Forest, b: map<Id, Id>, s: Span)
    requires f.Valid() && g.Valid() && IsIsomorphism(f.spans, g.spans, b) && s in f.spans
    ensures s.id in b && b[s.id] in Ids(g.spans) && Tree(f, s) == Tree(g, g.At(b[s.id]))
    decreases f.rank[s.id], 1
  {
    IsomorphismAt(f, g, b, s);
    var t := g.At(b[s.id]);
    assert s.id in Ids(f.spans);
    RenamedHasSameForest(f, g, b, Some(s.id), f.rank[s.id]);
    TreeIs(f, s);
    TreeIs(g, t);
    SortedIsCanonical(TreesUnder(f, Some(s.id)), TreesUnder(g, Some(t.id)));
  }

  lemma {:induction false} RenamedHasSameForest(f: Forest, g: Forest, b: map<Id, Id>, p: Option<Id>, below: nat)
    requires f.Valid() && g.Valid() && IsIsomorphism(f.spans, g.spans, b)
    requires p.Some? ==> p.value in Ids(f.spans) && p.value in f.rank && f.rank[p.value] == below
    requires p.None? ==> below == f.top + 1
    ensures multiset(TreesUnder(f, p)) == multiset(TreesUnder(g, Image(b, p)))
    decreases below, 0
  {
    hide *;
    var cs, q := f.Children(p), Image(b, p);
    ChildrenAreRenamed(f, g, b, p);
    RanksBelow(f, p, below);
    SomeRanksBelow(g, q);
    var es := Renamed(g, b, cs);
    forall i | 0 <= i < |cs|
      ensures Tree(f, cs[i]) == Tree(g, es[i])
    {
      assert cs[i] in cs;
      RenamedHasSameTree(f, g, b, cs[i]);
    }
    TreesAre(g, es, g.top + 1);
    assert TreesUnder(f, p) == Trees(g, es, g.top + 1);
    MultisetOfTrees(g, es, g.Children(q), g.top + 1);
  }

  lemma SomeRanksBelow(g: Forest, q: Option<Id>)
    requires g.Valid()
    ensures forall s :: s in g.spans ==> s.id in g.rank && g.rank[s.id] < g.top + 1
    ensures forall s :: s in g.Children(q) ==> s in g.spans
    ensures TreesUnder(g, q) == Trees(g, g.Children(q), g.top + 1)
  {
    hide Under, Tree, Trees;
  }

  lemma IsomorphicHaveSameCanon(f: Forest, g: Forest)
    requires f.Valid() && g.Valid() && Isomorphic(f.spans, g.spans)
    ensures Canon(f) == Canon(g)
  {
    var b :| IsIsomorphism(f.spans, g.spans, b);
    RenamedHasSameForest(f, g, b, None, f.top + 1);
    SortedIsCanonical(TreesUnder(f, None), TreesUnder(g, None));
  }

  // ---- equal canonical forms come from isomorphic forests ----

  /** How many equal members come before this one. */
  function Occurrence<T(==)>(s: seq<T>, i: nat): nat
    requires i < |s|
  {
    multiset(s[..i])[s[i]]
  }

  lemma {:induction false} OccurrenceFound<T>(s: seq<T>, v: T, n: nat)
    requires n < multiset(s)[v]
    ensures exists j: nat :: j < |s| && s[j] == v && Occurrence(s, j) == n
    decreases |s|
  {
    assert s != [];
    var last := |s| - 1;
    var front := s[..last];
    assert s == front + [s[last]];
    if n < multiset(front)[v] {
      OccurrenceFound(front, v, n);
      var j: nat :| j < |front| && front[j] == v && Occurrence(front, j) == n;
      assert front[..j] == s[..j];
      assert s[j] == v && Occurrence(s, j) == n;
    } else {
      assert s[last] == v && Occurrence(s, last) == n;
    }
  }

  lemma OccurrenceGrows<T>(s: seq<T>, i: nat, j: nat)
    requires i < j < |s| && s[i] == s[j]
    ensures Occurrence(s, i) < Occurrence(s, j)
  {
    assert s[..j] == s[..i] + [s[i]] + s[i + 1..j];
  }

  lemma OccurrenceBelow<T>(s: seq<T>, i: nat)
    requires i < |s|
    ensures Occurrence(s, i) < multiset(s)[s[i]]
  {
    assert s == s[..i] + [s[i]] + s[i + 1..];
  }

  /** The member of the other list with the same value and the same occurrence number. */
  ghost function Mate<T>(a: seq<T>, b: seq<T>, i: nat): (j: nat)
    requires multiset(a) == multiset(b) && i < |a|
    ensures j < |b| && b[j] == a[i] && Occurrence(b, j) == Occurrence(a, i)
  {
    OccurrenceBelow(a, i);
    OccurrenceFound(b, a[i], Occurrence(a, i));
    var j: nat :| j < |b| && b[j] == a[i] && Occurrence(b, j) == Occurrence(a, i); j
  }

  lemma MateOfMate<T>(a: seq<T>, b: seq<T>, i: nat)
    requires multiset(a) == multiset(b) && i < |a|
    ensures Mate(b, a, Mate(a, b, i)) == i
  {
    var k := Mate(b, a, Mate(a, b, i));
    if k < i { OccurrenceGrows(a, k, i); }
    if i < k { OccurrenceGrows(a, i, k); }
  }

  ghost function IndexIn(list: seq<Span>, s: Span): (i: nat)
    requires s in list
    ensures i < |list| && list[i] == s
  {
    var i: nat :| i < |list| && list[i] == s; i
  }

  ghost predicate SameTrees(f: Forest, p: Option<Id>, g: Forest, q: Option<Id>)
    requires f.Valid() && g.Valid()
  {
    multiset(TreesUnder(f, p)) == multiset(TreesUnder(g, q))
  }

  lemma EqualTreesHaveEqualChildren(f: Forest, g: Forest, s: Span, t: Span)
    requires f.Valid() && g.Valid() && s in f.spans && t in g.spans && Tree(f, s) == Tree(g, t)
    ensures s.own == t.own && SameTrees(f, Some(s.id), g, Some(t.id))
  {
    TreeIs(f, s);
    TreeIs(g, t);
    var xs, ys := TreesUnder(f, Some(s.id)), TreesUnder(g, Some(t.id));
    NodeDetermines(s.own, t.own, Sorted(xs), Sorted(ys));
    SortedIsCanonical(xs, ys);
  }

  lemma ParentRanksAbove(f: Forest, s: Span)
    requires f.Valid() && s in f.spans
    ensures s.id in Ids(f.spans) && s.id in f.rank && f.rank[s.id] <= f.top
    ensures f.Parent(s).Some? ==> var p := f.Parent(s).value;
              && p in Ids(f.spans) && f.At(p).id == p && p in f.rank && f.rank[s.id] < f.rank[p] <= f.top
    ensures s in f.Children(f.Parent(s))
  {
    if f.Parent(s).Some? { assert f.At(f.Parent(s).value) in f.spans; }
  }

  /** The span of the other forest that a span corresponds to: below the counterpart of
      its parent, the child with the same tree and the same occurrence number. */
  ghost function Counterpart(f: Forest, g: Forest, s: Span): (t: Span)
    requires f.Valid() && g.Valid() && SameTrees(f, None, g, None) && s in f.spans
    ensures t in g.spans && Tree(g, t) == Tree(f, s)
    decreases f.top - (if s.id in f.rank && f.rank[s.id] <= f.top then f.rank[s.id] else 0)
  {
    var p, q := f.Parent(s), CounterParent(f, g, s);
    ParentRanksAbove(f, s);
    g.Children(q)[Mate(TreesUnder(f, p), TreesUnder(g, q), IndexIn(f.Children(p), s))]
  }

  /** Where the counterpart of a span hangs. */
  ghost function CounterParent(f: Forest, g: Forest, s: Span): (q: Option<Id>)
    requires f.Valid() && g.Valid() && SameTrees(f, None, g, None) && s in f.spans
    ensures SameTrees(f, f.Parent(s), g, q)
    ensures q.Some? ==> q.value in Ids(g.spans)
    decreases f.top - (if s.id in f.rank && f.rank[s.id] <= f.top then f.rank[s.id] else 0), 0
  {
    var p := f.Parent(s);
    if p.None? then None
    else
      ParentRanksAbove(f, s);
      var parent := f.At(p.value);
      ParentRanksAbove(f, parent);
      var t := Counterpart(f, g, parent);
      EqualTreesHaveEqualChildren(f, g, parent, t);
      Some(t.id)
  }

  ghost function CounterId(f: Forest, g: Forest, id: Id): Id
    requires f.Valid() && g.Valid() && SameTrees(f, None, g, None) && id in Ids(f.spans)
  {
    Counterpart(f, g, f.At(id)).id
  }

  lemma CounterpartHangs(f: Forest, g: Forest, s: Span)
    requires f.Valid() && g.Valid() && SameTrees(f, None, g, None) && s in f.spans
    ensures g.Parent(Counterpart(f, g, s)) == CounterParent(f, g, s)
    ensures f.Parent(s).None? ==> CounterParent(f, g, s) == None
    ensures f.Parent(s).Some? ==>
              (f.Parent(s).value in Ids(f.spans) && CounterParent(f, g, s) == Some(CounterId(f, g, f.Parent(s).value)))
  {
    ParentRanksAbove(f, s);
    var p, q := f.Parent(s), CounterParent(f, g, s);
    var j := Mate(TreesUnder(f, p), TreesUnder(g, q), IndexIn(f.Children(p), s));
    assert Counterpart(f, g, s) == g.Children(q)[j];
    assert g.Children(q)[j] in g.Children(q);
  }

  lemma IndexIsUnique(list: seq<Span>, i: nat)
    requires UniqueIds(list) && i < |list|
    ensures IndexIn(list, list[i]) == i
  {
    var j := IndexIn(list, list[i]);
    assert list[j].id == list[i].id;
  }

  /** The counterpart's counterpart is the span itself. */
  lemma {:induction false} ThereAndBack(f: Forest, g: Forest, s: Span)
    requires f.Valid() && g.Valid() && SameTrees(f, None, g, None) && s in f.spans
    ensures Counterpart(g, f, Counterpart(f, g, s)) == s
    decreases f.top - (if s.id in f.rank && f.rank[s.id] <= f.top then f.rank[s.id] else 0)
  {
    var t := Counterpart(f, g, s);
    var p, q := f.Parent(s), CounterParent(f, g, s);
    ParentRanksAbove(f, s);
    CounterpartHangs(f, g, s);
    CounterpartHangs(g, f, t);
    if p.Some? {
      var parent := f.At(p.value);
      ParentRanksAbove(f, parent);
      ThereAndBack(f, g, parent);
      SameIdSameSpan(g.spans, g.At(q.value), Counterpart(f, g, parent));
    }
    assert CounterParent(g, f, t) == p;
    var i := IndexIn(f.Children(p), s);
    var j := Mate(TreesUnder(f, p), TreesUnder(g, q), i);
    UnderHasNoRepeats(Ids(g.spans), g.spans, q);
    UnderHasNoRepeats(Ids(f.spans), f.spans, p);
    IndexIsUnique(g.Children(q), j);
    MateOfMate(TreesUnder(f, p), TreesUnder(g, q), i);
  }

  ghost function Correspondence(f: Forest, g: Forest): (b: map<Id, Id>)
    requires f.Valid() && g.Valid() && SameTrees(f, None, g, None)
    ensures forall id :: id in b <==> id in Ids(f.spans)
    ensures forall id :: id in b ==> b[id] == CounterId(f, g, id)
  {
    var ids := Ids(f.spans);
    hide Ids;
    map id | id in ids :: CounterId(f, g, id)
  }

  lemma CorrespondsAt(f: Forest, g: Forest, s: Span)
    requires f.Valid() && g.Valid() && SameTrees(f, None, g, None) && s in f.spans
    ensures s.id in Correspondence(f, g) && Correspondence(f, g)[s.id] == Counterpart(f, g, s).id
  {
    assert s.id in Ids(f.spans);
    SameIdSameSpan(f.spans, s, f.At(s.id));
  }

  lemma CorrespondenceIsOneToOne(f: Forest, g: Forest, i: Id, j: Id)
    requires f.Valid() && g.Valid() && SameTrees(f, None, g, None)
    requires var b := Correspondence(f, g); i in b && j in b && b[i] == b[j]
    ensures i == j
  {
    var s, t := f.At(i), f.At(j);
    SameIdSameSpan(g.spans, Counterpart(f, g, s), Counterpart(f, g, t));
    ThereAndBack(f, g, s);
    ThereAndBack(f, g, t);
  }

  lemma SameTreesEitherWay(f: Forest, g: Forest)
    requires f.Valid() && g.Valid() && SameTrees(f, None, g, None)
    ensures SameTrees(g, None, f, None)
  {
  }

  lemma SpanReached(f: Forest, g: Forest, id: Id)
    requires f.Valid() && g.Valid() && SameTrees(f, None, g, None) && id in Ids(g.spans)
    ensures var s := Counterpart(g, f, g.At(id)); s.id in Correspondence(f, g) && Correspondence(f, g)[s.id] == id
  {
    hide *;
    SameTreesEitherWay(f, g);
    var t := g.At(id);
    ThereAndBack(g, f, t);
    CorrespondsAt(f, g, Counterpart(g, f, t));
  }

  lemma SpanCovered(f: Forest, g: Forest, id: Id)
    requires f.Valid() && g.Valid() && SameTrees(f, None, g, None) && id in Ids(f.spans)
    ensures CounterId(f, g, id) in Ids(g.spans)
  {
  }

  lemma CorrespondenceReaches(f: Forest, g: Forest)
    requires f.Valid() && g.Valid() && SameTrees(f, None, g, None)
    ensures Correspondence(f, g).Keys == Ids(f.spans)
    ensures Correspondence(f, g).Values == Ids(g.spans)
  {
    hide *;
    var b := Correspondence(f, g);
    forall id | id in Ids(g.spans)
      ensures id in b.Values
    {
      SpanReached(f, g, id);
    }
    forall id | id in b.Values
      ensures id in Ids(g.spans)
    {
      var k :| k in b && b[k] == id;
      SpanCovered(f, g, k);
    }
  }

  lemma CorrespondenceKeepsSpans(f: Forest, g: Forest, s: Span)
    requires f.Valid() && g.Valid() && SameTrees(f, None, g, None) && s in f.spans
    ensures var t := Counterpart(f, g, s);
      t.own == s.own && g.Parent(t) == Image(Correspondence(f, g), f.Parent(s))
  {
    EqualTreesHaveEqualChildren(f, g, s, Counterpart(f, g, s));
    CounterpartHangs(f, g, s);
    ParentRanksAbove(f, s);
    if f.Parent(s).Some? {
      CorrespondsAt(f, g, f.At(f.Parent(s).value));
    }
  }

  lemma SameTreesAreIsomorphic(f: Forest, g: Forest)
    requires f.Valid() && g.Valid() && SameTrees(f, None, g, None)
    ensures Isomorphic(f.spans, g.spans)
  {
    var b := Correspondence(f, g);
    CorrespondenceReaches(f, g);
    forall i, j | i in b && j in b && b[i] == b[j]
      ensures i == j
    {
      CorrespondenceIsOneToOne(f, g, i, j);
    }
    forall s | s in f.spans
      ensures s.id in b && exists t ::
                t in g.spans && t.id == b[s.id] && t.own == s.own && ParentIn(Ids(g.spans), t) == Image(b, ParentIn(Ids(f.spans), s))
    {
      CorrespondsAt(f, g, s);
      CorrespondenceKeepsSpans(f, g, s);
      var t := Counterpart(f, g, s);
      assert t in g.spans && t.id == b[s.id] && t.own == s.own && ParentIn(Ids(g.spans), t) == Image(b, ParentIn(Ids(f.spans), s));
    }
    assert IsIsomorphism(f.spans, g.spans, b);
  }

  /** Two traces have the same canonical form exactly when, health checks aside, a
      one-to-one renaming of spans keeps what every span says and what it hangs below. */
  lemma CanonIffIsomorphic(f: Forest, g: Forest)
    requires f.Valid() && g.Valid()
    ensures Canon(f) == Canon(g) <==> Isomorphic(f.spans, g.spans)
  {
    if Isomorphic(f.spans, g.spans) {
      IsomorphicHaveSameCanon(f, g);
    }
    if Canon(f) == Canon(g) {
      SortedIsCanonical(TreesUnder(f, None), TreesUnder(g, None));
      SameTreesAreIsomorphic(f, g);
    }
  }
}
