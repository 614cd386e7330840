/** What the canonical trees of a trace show, read off the spans themselves, and the function that
    makes them, in place. */
module SpanCanon {
  import opened Common
  import opened CanonicalJson
  import opened SpanForest
  import opened SpanTraces

  // ---- what a tree shows ----

  /** One text is not behind the other: it is its beginning, or smaller where they first differ. */
  ghost predicate NotBehind(a: string, b: string) {
    a <= b || exists k :: 0 <= k < |a| && k < |b| && a[..k] == b[..k] && a[k] < b[k]
  }

  /** The members of the tree are those of the span, under these names; its children show, in the
      order of their texts, exactly the other spans whose parent it is, health checks aside. */
  ghost predicate Shows(spans: seq<Span>, s: Span, tree: Json)
    decreases tree
  {
    && tree.Object? && |tree.members| == 8
    && tree.members[0] == Member("attrs", s.own.attrs)
    && tree.members[1].key == "children" && tree.members[1].value.Array?
    && (exists list :: AreChildren(spans, s, list) && ShowAll(spans, list, tree.members[1].value.items))
    && tree.members[2] == Member("events", s.own.events)
    && tree.members[3] == Member("kind", Text(s.own.kind))
    && tree.members[4] == Member("links", s.own.links)
    && tree.members[5] == Member("name", Text(s.own.name))
    && tree.members[6] == Member("scope", Text(s.own.scope))
    && tree.members[7] == Member("status", Object([Member("code", s.own.code), Member("message", s.own.message)]))
  }

  /** One tree for each span, in the order of their texts. */
  ghost predicate ShowAll(spans: seq<Span>, list: seq<Span>, trees: seq<Json>)
    decreases trees
  {
    && |list| == |trees|
    && (forall i :: 0 <= i < |trees| ==> Shows(spans, list[i], trees[i]))
    && (forall i, j :: 0 <= i < j < |trees| ==> NotBehind(Dump(trees[i]), Dump(trees[j])))
  }

  /** The spans that name this one as their parent, each once. */
  ghost predicate AreChildren(spans: seq<Span>, s: Span, list: seq<Span>) {
    && (forall i, j :: 0 <= i < j < |list| ==> list[i] != list[j])
    && forall c :: c in list <==> c in spans && !c.health && c.parent != "" && c.parent == s.id
  }

  /** The spans without a parent among the spans that are no health checks, each once. */
  ghost predicate AreRoots(spans: seq<Span>, list: seq<Span>) {
    && (forall i, j :: 0 <= i < j < |list| ==> list[i] != list[j])
    && forall c :: c in list <==>
         c in spans && !c.health && (c.parent == "" || forall d :: d in spans && !d.health ==> d.id != c.parent)
  }

  lemma NotBehindFront(x: char, a: string, b: string)
    ensures NotBehind([x] + a, [x] + b) <==> NotBehind(a, b)
  {
    var xa, xb := [x] + a, [x] + b;
    assert xa[1..] == a && xb[1..] == b;
    if k :| 0 <= k < |a| && k < |b| && a[..k] == b[..k] && a[k] < b[k] {
      assert xa[..k + 1] == [x] + a[..k] && xb[..k + 1] == [x] + b[..k];
      assert xa[k + 1] < xb[k + 1];
    }
    if k :| 0 < k < |xa| && k < |xb| && xa[..k] == xb[..k] && xa[k] < xb[k] {
      assert a[..k - 1] == xa[..k][1..] && b[..k - 1] == xb[..k][1..];
      assert a[k - 1] < b[k - 1];
    }
  }

  lemma {:induction false} LexIff(a: string, b: string)
    ensures LexLe(a, b) <==> NotBehind(a, b)
    decreases |a|
  {
    if a != [] && b != [] && a[0] == b[0] {
      LexIff(a[1..], b[1..]);
      NotBehindFront(a[0], a[1..], b[1..]);
      assert a == [a[0]] + a[1..] && b == [a[0]] + b[1..];
      hide NotBehind;
    } else if a != [] && b != [] && a[0] < b[0] {
      assert a[..0] == b[..0];
    }
  }

  lemma {:induction false} KeptMembers(spans: seq<Span>)
    ensures forall s :: s in Kept(spans) <==> s in spans && !s.health
    decreases |spans|
  {
    if spans != [] {
      KeptMembers(spans[1..]);
      assert spans == [spans[0]] + spans[1..];
    }
  }

  lemma CountsDiffer(xs: seq<Span>, ys: seq<Span>)
    requires NoRepeats(xs) && multiset(xs) == multiset(ys)
    ensures NoRepeats(ys) && forall x :: x in xs <==> x in ys
  {
    assert forall x :: x in xs <==> x in multiset(xs);
    assert forall x :: x in ys <==> x in multiset(ys);
    forall i: nat, j: nat | i < j < |ys|
      ensures ys[i] != ys[j]
    {
      CountOnce(xs, ys[i]);
      if ys[i] == ys[j] { RepeatCounts(ys, i, j); }
    }
  }

  /** Each tree is that of the span at its position. */
  ghost predicate Paired(f: Forest, xs: seq<Span>, ts: seq<Json>)
    requires f.Valid()
  {
    |xs| == |ts| && forall i :: 0 <= i < |xs| ==> xs[i] in f.spans && ts[i] == Tree(f, xs[i])
  }

  lemma PairedWithout(f: Forest, xs: seq<Span>, ts: seq<Json>, j: nat)
    requires f.Valid() && Paired(f, xs, ts) && j < |ts|
    ensures Paired(f, Without(xs, j), Without(ts, j))
  {
    hide Tree, Forest.Valid, Without;
    WithoutOne(xs, j);
    WithoutOne(ts, j);
  }

  lemma PairedFront(f: Forest, x: Span, t: Json, xs: seq<Span>, ts: seq<Json>)
    requires f.Valid() && Paired(f, xs, ts) && x in f.spans && t == Tree(f, x)
    ensures Paired(f, [x] + xs, [t] + ts)
  {
    hide Tree, Forest.Valid;
  }

  lemma FindIn(ts: seq<Json>, us: seq<Json>) returns (j: nat)
    requires multiset(us) == multiset(ts) && us != []
    ensures j < |ts| && ts[j] == us[0] && multiset(us[1..]) == multiset(Without(ts, j))
  {
    assert us[0] in multiset(us);
    j :| 0 <= j < |ts| && ts[j] == us[0];
    WithoutOne(ts, j);
    WithoutOne(us, 0);
    assert Without(us, 0) == us[1..];
    assert multiset(us[1..]) == multiset(us) - multiset{us[0]} && multiset(Without(ts, j)) == multiset(ts) - multiset{ts[j]};
  }

  /** Spans can be put in the order of their trees. */
  lemma {:induction false} Reordered(f: Forest, xs: seq<Span>, ts: seq<Json>, us: seq<Json>) returns (ys: seq<Span>)
    requires f.Valid() && Paired(f, xs, ts) && multiset(us) == multiset(ts)
    ensures Paired(f, ys, us) && multiset(ys) == multiset(xs)
    decreases |us|
  {
    hide Tree, Forest.Valid, Without;
    assert |multiset(us)| == |us| && |multiset(ts)| == |ts|;
    if us == [] {
      ys := [];
    } else {
      var j := FindIn(ts, us);
      PairedWithout(f, xs, ts, j);
      WithoutOne(xs, j);
      var rest := Reordered(f, Without(xs, j), Without(ts, j), us[1..]);
      PairedFront(f, xs[j], us[0], rest, us[1..]);
      assert us == [us[0]] + us[1..];
      ys := [xs[j]] + rest;
      hide Paired;
    }
  }

  /** The trees of some spans, sorted, show these spans in some order. */
  lemma SortedShows(spans: seq<Span>, f: Forest, xs: seq<Span>, ts: seq<Json>) returns (list: seq<Span>)
    requires f.Valid() && |xs| == |ts| && NoRepeats(xs) && forall s :: s in xs ==> s in f.spans && Shows(spans, s, Tree(f, s))
    requires forall i :: 0 <= i < |xs| ==> ts[i] == Tree(f, xs[i])
    ensures NoRepeats(list) && (forall s :: s in list <==> s in xs) && ShowAll(spans, list, Sorted(ts))
  {
    hide *;
    var us := Sorted(ts);
    SortedSorts(ts);
    ArePaired(f, xs, ts);
    list := Reordered(f, xs, ts, us);
    CountsDiffer(xs, list);
    PairsShow(spans, f, list, us);
    SortedIsOrdered(us);
    AllShow(spans, list, us);
  }

  lemma ArePaired(f: Forest, xs: seq<Span>, ts: seq<Json>)
    requires f.Valid() && |xs| == |ts| && forall s :: s in xs ==> s in f.spans
    requires forall i :: 0 <= i < |xs| ==> ts[i] == Tree(f, xs[i])
    ensures Paired(f, xs, ts)
  {
    hide Tree, Forest.Valid;
  }

  lemma PairsShow(spans: seq<Span>, f: Forest, list: seq<Span>, trees: seq<Json>)
    requires f.Valid() && Paired(f, list, trees)
    requires forall s :: s in list ==> s in f.spans && Shows(spans, s, Tree(f, s))
    ensures |list| == |trees| && forall i :: 0 <= i < |trees| ==> Shows(spans, list[i], trees[i])
  {
    hide Tree, Forest.Valid, Shows;
    assert forall i :: 0 <= i < |list| ==> list[i] in list;
  }

  lemma SortedIsOrdered(us: seq<Json>)
    requires IsSorted(us)
    ensures forall i, j :: 0 <= i < j < |us| ==> NotBehind(Dump(us[i]), Dump(us[j]))
  {
    hide LexLe, Dump;
    forall i, j | 0 <= i < j < |us|
      ensures NotBehind(Dump(us[i]), Dump(us[j]))
    {
      assert Before(us[i], us[j]);
      LexIff(Dump(us[i]), Dump(us[j]));
    }
  }

  lemma AllShow(spans: seq<Span>, list: seq<Span>, trees: seq<Json>)
    requires |list| == |trees| && forall i :: 0 <= i < |trees| ==> Shows(spans, list[i], trees[i])
    requires forall i, j :: 0 <= i < j < |trees| ==> NotBehind(Dump(trees[i]), Dump(trees[j]))
    ensures ShowAll(spans, list, trees)
  {
    hide Shows, Dump, NotBehind;
  }

  lemma NodeShows(spans: seq<Span>, s: Span, list: seq<Span>, trees: seq<Json>)
    requires NoRepeats(list) && ShowAll(spans, list, trees)
    requires forall c :: c in list <==> c in spans && !c.health && c.parent != "" && c.parent == s.id
    ensures Shows(spans, s, Node(s.own, trees))
  {
    hide ShowAll;
    assert AreChildren(spans, s, list);
  }

  /** The children in the forest of what is reached. */
  lemma ForestHolds(spans: seq<Span>, s: Span)
    requires UniqueIds(Kept(spans)) && s in ForestOf(Kept(spans)).spans
    ensures var cs := ForestOf(Kept(spans)).Children(Some(s.id));
      NoRepeats(cs) && forall c :: c in cs <==> c in spans && !c.health && c.parent != "" && c.parent == s.id
  {
    var kept := Kept(spans);
    HasId(ForestOf(kept).spans, s);
    ForestChildren(kept);
    KeptMembers(spans);
    UnderHasNoRepeats(Ids(kept), kept, Some(s.id));
    ParentIff(Ids(kept), s.id);
    hide *;
    assert forall c :: c in Under(Ids(kept), kept, Some(s.id)) <==> c in kept && ParentIn(Ids(kept), c) == Some(s.id);
  }

  lemma ParentIff(ids: set<Id>, id: Id)
    requires id in ids
    ensures forall c :: ParentIn(ids, c) == Some(id) <==> c.parent != "" && c.parent == id
  {
  }

  lemma ForestRoots(spans: seq<Span>)
    requires UniqueIds(Kept(spans))
    ensures AreRoots(spans, ForestOf(Kept(spans)).Children(None))
  {
    var kept := Kept(spans);
    var rs := ForestOf(kept).Children(None);
    ForestChildren(kept);
    KeptMembers(spans);
    UnderHasNoRepeats(Ids(kept), kept, None);
    NoParentIff(spans);
    hide *;
    assert forall c :: c in rs <==> c in kept && ParentIn(Ids(kept), c) == None;
    RootsAre(spans, rs);
  }

  lemma RootsAre(spans: seq<Span>, rs: seq<Span>)
    requires NoRepeats(rs)
    requires forall c :: c in rs <==>
               c in spans && !c.health && (c.parent == "" || forall d :: d in spans && !d.health ==> d.id != c.parent)
    ensures AreRoots(spans, rs)
  {
  }

  lemma NoParentIff(spans: seq<Span>)
    ensures forall c :: ParentIn(Ids(Kept(spans)), c) == None <==>
              c.parent == "" || forall d :: d in spans && !d.health ==> d.id != c.parent
  {
    KeptMembers(spans);
    hide Kept;
  }

  lemma {:induction false} TreeShows(spans: seq<Span>, f: Forest, s: Span)
    requires UniqueIds(Kept(spans)) && f == ForestOf(Kept(spans)) && s in f.spans
    ensures Shows(spans, s, Tree(f, s))
    decreases if s.id in f.rank then f.rank[s.id] else 0
  {
    hide *;
    ParentRanksAbove(f, s);
    RanksBelow(f, Some(s.id), f.rank[s.id]);
    var cs := f.Children(Some(s.id));
    forall c | c in cs
      ensures c in f.spans && Shows(spans, c, Tree(f, c))
    {
      TreeShows(spans, f, c);
    }
    ForestHolds(spans, s);
    var list := SortedShows(spans, f, cs, TreesUnder(f, Some(s.id)));
    TreeIs(f, s);
    NodeShows(spans, s, list, Sorted(TreesUnder(f, Some(s.id))));
  }

  /** The result shows, in the order of their texts, exactly the roots of the spans that are no
      health checks. */
  lemma FormShows(spans: seq<Span>)
    requires UniqueIds(Kept(spans))
    ensures exists roots :: AreRoots(spans, roots) && ShowAll(spans, roots, TraceForm(spans))
  {
    var f := ForestOf(Kept(spans));
    RanksBelow(f, None, f.top + 1);
    ForestRoots(spans);
    FormIs(spans);
    CanonIs(f);
    hide *;
    var rs := f.Children(None);
    forall c | c in rs
      ensures c in f.spans && Shows(spans, c, Tree(f, c))
    {
      TreeShows(spans, f, c);
    }
    RootsOnce(spans, rs);
    var list := SortedShows(spans, f, rs, TreesUnder(f, None));
    SameRoots(spans, rs, list);
  }

  lemma RootsOnce(spans: seq<Span>, rs: seq<Span>)
    requires AreRoots(spans, rs)
    ensures NoRepeats(rs)
  {
  }

  lemma SameRoots(spans: seq<Span>, rs: seq<Span>, list: seq<Span>)
    requires AreRoots(spans, rs) && NoRepeats(list) && forall s :: s in list <==> s in rs
    ensures AreRoots(spans, list)
  {
  }

  // ---- the whole function, in place ----

  lemma {:induction false} UnderOneMore(ids: set<Id>, front: seq<Span>, s: Span, p: Option<Id>)
    ensures Under(ids, front + [s], p) == Under(ids, front, p) + if ParentIn(ids, s) == p then [s] else []
    decreases |front|
  {
    if front == [] {
      assert front + [s] == [s] && [s][1..] == [];
    } else {
      assert (front + [s])[1..] == front[1..] + [s];
      UnderOneMore(ids, front[1..], s, p);
      var first := if ParentIn(ids, front[0]) == p then [front[0]] else [];
      var last := if ParentIn(ids, s) == p then [s] else [];
      assert first + (Under(ids, front[1..], p) + last) == (first + Under(ids, front[1..], p)) + last;
    }
  }

  lemma {:induction false} KeptOneMore(front: seq<Span>, s: Span)
    ensures Kept(front + [s]) == Kept(front) + if s.health then [] else [s]
    decreases |front|
  {
    if front == [] {
      assert front + [s] == [s] && [s][1..] == [];
    } else {
      assert (front + [s])[1..] == front[1..] + [s];
      KeptOneMore(front[1..], s);
      var first, last := if front[0].health then [] else [front[0]], if s.health then [] else [s];
      assert first + (Kept(front[1..]) + last) == (first + Kept(front[1..])) + last;
    }
  }

  lemma UnderNext(ids: set<Id>, spans: seq<Span>, i: nat)
    requires i < |spans|
    ensures forall p :: Under(ids, spans[..i + 1], p)
                     == Under(ids, spans[..i], p) + if ParentIn(ids, spans[i]) == p then [spans[i]] else []
  {
    assert spans[..i + 1] == spans[..i] + [spans[i]];
    forall p
      ensures Under(ids, spans[..i + 1], p) == Under(ids, spans[..i], p) + if ParentIn(ids, spans[i]) == p then [spans[i]] else []
    {
      UnderOneMore(ids, spans[..i], spans[i], p);
    }
  }

  lemma UnderNone(ids: set<Id>)
    ensures forall p :: Under(ids, [], p) == []
  {
  }

  lemma ParentCases(ids: set<Id>, s: Span)
    ensures s.parent != "" && s.parent in ids ==> ParentIn(ids, s) == Some(s.parent)
    ensures !(s.parent != "" && s.parent in ids) ==> ParentIn(ids, s) == None
  {
  }

  lemma IdsNext(spans: seq<Span>, i: nat)
    requires i < |spans|
    ensures Ids(spans[..i + 1]) == Ids(spans[..i]) + {spans[i].id}
    ensures Ids(spans[..0]) == {}
  {
    assert spans[..i + 1] == spans[..i] + [spans[i]];
  }

  lemma KeptNext(spans: seq<Span>, i: nat)
    requires i < |spans|
    ensures Kept(spans[..i + 1]) == Kept(spans[..i]) + if spans[i].health then [] else [spans[i]]
  {
    assert spans[..i + 1] == spans[..i] + [spans[i]];
    KeptOneMore(spans[..i], spans[i]);
  }

  lemma KeptNone()
    ensures Kept([]) == []
  {
  }

  lemma CanonIs(f: Forest)
    requires f.Valid()
    ensures Canon(f) == Sorted(TreesUnder(f, None))
    ensures f.Children(None) == Under(Ids(f.spans), f.spans, None)
    ensures forall id :: f.Children(Some(id)) == Under(Ids(f.spans), f.spans, Some(id))
  {
  }

  method Serialize(children: map<Id, seq<Span>>, s: Span, ghost f: Forest) returns (node: Json)
    requires f.Valid() && s in f.spans
    requires forall id :: id in Ids(f.spans) ==> id in children && children[id] == f.Children(Some(id))
    ensures node == Tree(f, s)
    decreases if s.id in f.rank then f.rank[s.id] else 0
  {
    hide *;
    ParentRanksAbove(f, s);
    RanksBelow(f, Some(s.id), f.rank[s.id]);
    var below := [];
    var cs := children[s.id];
    for i := 0 to |cs|
      invariant below == TreesUnder(f, Some(s.id))[..i]
    {
      var child := Serialize(children, cs[i], f);
      below := below + [child];
    }
    assert below == TreesUnder(f, Some(s.id));
    TreeIs(f, s);
    node := Node(s.own, Sorted(below));
  }

  method Index(spans: seq<Span>) returns (children: map<Id, seq<Span>>, roots: seq<Span>)
    ensures forall id :: id in Ids(spans) ==> id in children && children[id] == Under(Ids(spans), spans, Some(id))
    ensures roots == Under(Ids(spans), spans, None)
  {
    hide *;
    children := EmptyLists(spans);
    roots := [];
    ghost var ids := Ids(spans);
    UnderNone(ids);
    assert spans[..0] == [];
    for i := 0 to |spans|
      invariant forall id :: id in children <==> id in ids
      invariant forall id :: id in ids ==> children[id] == Under(ids, spans[..i], Some(id))
      invariant roots == Under(ids, spans[..i], None)
    {
      var s := spans[i];
      UnderNext(ids, spans, i);
      ParentCases(ids, s);
      if s.parent != "" && s.parent in children {
        children := children[s.parent := children[s.parent] + [s]];
      } else {
        roots := roots + [s];
      }
    }
    assert spans[..|spans|] == spans;
  }

  method EmptyLists(spans: seq<Span>) returns (children: map<Id, seq<Span>>)
    ensures forall id :: id in children <==> id in Ids(spans)
    ensures forall id :: id in children ==> children[id] == []
  {
    assert Ids([]) == {};
    hide *;
    children := map[];
    for i := 0 to |spans|
      invariant i == 0 ==> children == map[]
      invariant i > 0 ==> forall id :: id in children <==> id in Ids(spans[..i])
      invariant forall id :: id in children ==> children[id] == []
    {
      IdsNext(spans, i);
      if spans[i].id !in children {
        children := children[spans[i].id := []];
      }
    }
    assert spans[..|spans|] == spans;
  }

  /** The children of what is reached are those of the whole list. */
  lemma ForestChildren(spans: seq<Span>)
    requires UniqueIds(spans)
    ensures var f := ForestOf(spans);
      && f.Children(None) == Under(Ids(spans), spans, None)
      && (forall id :: id in Ids(f.spans) ==> id in Ids(spans) && f.Children(Some(id)) == Under(Ids(spans), spans, Some(id)))
  {
    hide IsReached, ReachedOf, Under, Forest.Valid;
    var f := ForestOf(spans);
    ReachedChildren(spans, spans, None);
    forall id | id in Ids(f.spans)
      ensures id in Ids(spans) && f.Children(Some(id)) == Under(Ids(spans), spans, Some(id))
    {
      ReachedId(spans, id);
      ReachedChildren(spans, spans, Some(id));
    }
  }

  /** `canon_span_tree`: a tree for each root, in the order of their texts, with everything that
      hangs below it. */
  method CanonSpanTree(spans: seq<Span>) returns (trees: seq<Json>)
    requires UniqueIds(Kept(spans))
    ensures trees == TraceForm(spans)
    ensures exists roots :: AreRoots(spans, roots) && ShowAll(spans, roots, trees)
  {
    hide *;
    var kept := [];
    KeptNone();
    assert spans[..0] == [];
    for i := 0 to |spans|
      invariant kept == Kept(spans[..i])
    {
      KeptNext(spans, i);
      if !spans[i].health {
        kept := kept + [spans[i]];
      }
    }
    assert spans[..|spans|] == spans;
    ghost var f := ForestOf(kept);
    var children, roots := Index(kept);
    ForestChildren(kept);
    CanonIs(f);
    RanksBelow(f, None, f.top + 1);
    FormIs(spans);
    var unsorted := [];
    for i := 0 to |roots|
      invariant unsorted == TreesUnder(f, None)[..i]
    {
      var node := Serialize(children, roots[i], f);
      unsorted := unsorted + [node];
    }
    assert unsorted == TreesUnder(f, None);
    trees := Sorted(unsorted);
    FormShows(spans);
  }

  lemma FormIs(spans: seq<Span>)
    requires UniqueIds(Kept(spans))
    ensures TraceForm(spans) == Canon(ForestOf(Kept(spans)))
  {
  }
}
