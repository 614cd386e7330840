/** Grouping the spans of a dump into traces: union-find with path halving, and the
    proof that its classes are the connected components of the span links. */
module TraceGroups {
  // ---- spans and links ----

  datatype Key = Key(segment: string, span: int)

  /** A reference to a span of another segment, as it stands in the dump. */
  datatype Ref = Ref(parentSegment: string, parentSpan: int)

  /** An absent parent is -1. */
  datatype Span = Span(id: int, refs: seq<Ref>, parent: int)

  datatype Segment = Segment(id: string, spans: seq<Span>)

  datatype Edge = Edge(child: Key, parent: Key)

  /** A span is linked by its references, or, when it has none, to its parent in the segment. */
  function SpanEdges(segment: string, sp: Span): seq<Edge> {
    if sp.refs != [] then RefEdges(Key(segment, sp.id), sp.refs)
    else if sp.parent >= 0 then [Edge(Key(segment, sp.id), Key(segment, sp.parent))]
    else []
  }

  function RefEdges(child: Key, refs: seq<Ref>): seq<Edge> {
    seq(|refs|, i requires 0 <= i < |refs| => Edge(child, Key(refs[i].parentSegment, refs[i].parentSpan)))
  }

  function SegmentEdges(segment: string, spans: seq<Span>): seq<Edge> {
    if spans == [] then []
    else SegmentEdges(segment, spans[..|spans| - 1]) + SpanEdges(segment, spans[|spans| - 1])
  }

  function Edges(segments: seq<Segment>): seq<Edge> {
    if segments == [] then []
    else
      var last := segments[|segments| - 1];
      Edges(segments[..|segments| - 1]) + SegmentEdges(last.id, last.spans)
  }

  predicate IsKey(segments: seq<Segment>, k: Key) {
    exists seg :: seg in segments && seg.id == k.segment && exists sp :: sp in seg.spans && sp.id == k.span
  }

  // ---- connection ----

  /** An edge between known spans, either way. */
  ghost predicate Joined(edges: seq<Edge>, known: seq<Key>, a: Key, b: Key) {
    && a in known && b in known
    && (Edge(a, b) in edges || Edge(b, a) in edges)
  }

  ghost predicate IsPath(edges: seq<Edge>, known: seq<Key>, p: seq<Key>) {
    |p| > 0 && forall i :: 0 <= i < |p| - 1 ==> Joined(edges, known, p[i], p[i + 1])
  }

  ghost predicate Connected(edges: seq<Edge>, known: seq<Key>, a: Key, b: Key) {
    exists p :: IsPath(edges, known, p) && p[0] == a && p[|p| - 1] == b
  }

  lemma ConnectedToSelf(edges: seq<Edge>, known: seq<Key>, a: Key)
    ensures Connected(edges, known, a, a)
  {
    assert IsPath(edges, known, [a]);
  }

  lemma ConnectedJoin(edges: seq<Edge>, known: seq<Key>, a: Key, b: Key, c: Key)
    requires Connected(edges, known, a, b) && Connected(edges, known, b, c)
    ensures Connected(edges, known, a, c)
  {
    var p :| IsPath(edges, known, p) && p[0] == a && p[|p| - 1] == b;
    var q :| IsPath(edges, known, q) && q[0] == b && q[|q| - 1] == c;
    var r := p + q[1..];
    forall i | 0 <= i < |r| - 1
      ensures Joined(edges, known, r[i], r[i + 1])
    {
      if i < |p| - 1 {
        assert r[i] == p[i] && r[i + 1] == p[i + 1];
      } else {
        var k := i - (|p| - 1);
        assert r[i] == q[k] && r[i + 1] == q[k + 1];
      }
    }
    assert IsPath(edges, known, r) && r[|r| - 1] == c;
  }

  lemma ConnectedBack(edges: seq<Edge>, known: seq<Key>, a: Key, b: Key)
    requires Connected(edges, known, a, b)
    ensures Connected(edges, known, b, a)
  {
    var p :| IsPath(edges, known, p) && p[0] == a && p[|p| - 1] == b;
    var r := seq(|p|, i requires 0 <= i < |p| => p[|p| - 1 - i]);
    forall i | 0 <= i < |r| - 1
      ensures Joined(edges, known, r[i], r[i + 1])
    {
      var k := |p| - 2 - i;
      assert Joined(edges, known, p[k], p[k + 1]);
      assert r[i] == p[k + 1] && r[i + 1] == p[k];
    }
    assert IsPath(edges, known, r) && r[0] == b && r[|r| - 1] == a;
  }

  lemma ConnectedByMore(edges: seq<Edge>, more: seq<Edge>, known: seq<Key>, a: Key, b: Key)
    requires Connected(edges, known, a, b) && forall e :: e in edges ==> e in more
    ensures Connected(more, known, a, b)
  {
    var p :| IsPath(edges, known, p) && p[0] == a && p[|p| - 1] == b;
    assert IsPath(more, known, p);
  }

  lemma ConnectedByEdge(edges: seq<Edge>, known: seq<Key>, e: Edge)
    requires e in edges && e.child in known && e.parent in known
    ensures Connected(edges, known, e.child, e.parent)
  {
    var p := [e.child, e.parent];
    assert Joined(edges, known, p[0], p[1]);
    assert IsPath(edges, known, p);
  }

  // ---- the parent array ----

  /** Heights that grow strictly towards the root show that following parents ends. */
  ghost predicate Rooted(par: seq<nat>, height: seq<nat>, top: nat) {
    && |height| == |par|
    && (forall x :: 0 <= x < |par| ==> par[x] < |par| && height[x] <= top)
    && (forall x :: 0 <= x < |par| && par[x] != x ==> height[x] < height[par[x]])
  }

  ghost function Root(par: seq<nat>, height: seq<nat>, top: nat, x: nat): (r: nat)
    requires Rooted(par, height, top) && x < |par|
    ensures r < |par| && par[r] == r
    decreases top - height[x]
  {
    if par[x] == x then x else Root(par, height, top, par[x])
  }

  /** Path halving moves no root. */
  lemma {:induction false} HalvingKeepsRoots(par: seq<nat>, height: seq<nat>, top: nat, x: nat, y: nat)
    requires Rooted(par, height, top) && x < |par| && y < |par|
    ensures var par' := par[x := par[par[x]]];
      Rooted(par', height, top) && Root(par', height, top, y) == Root(par, height, top, y)
    decreases top - height[y]
  {
    var par' := par[x := par[par[x]]];
    assert Rooted(par', height, top);
    if par[y] != y {
      HalvingKeepsRoots(par, height, top, x, par[y]);
      if y == x && par[par[y]] != par[y] {
        HalvingKeepsRoots(par, height, top, x, par[par[y]]);
      }
    }
  }

  ghost function Raised(height: seq<nat>, ra: nat, rb: nat): (h: seq<nat>)
    requires ra < |height| && rb < |height|
  {
    height[ra := if height[ra] > height[rb] then height[ra] else height[rb] + 1]
  }

  /** Hanging one root below another moves exactly the elements of the first. */
  lemma {:induction false} UnionMovesRoots(par: seq<nat>, height: seq<nat>, top: nat, ra: nat, rb: nat, y: nat)
    requires Rooted(par, height, top) && ra < |par| && rb < |par| && ra != rb && par[ra] == ra && par[rb] == rb && y < |par|
    ensures Rooted(par[rb := ra], Raised(height, ra, rb), top + 1)
    ensures Root(par[rb := ra], Raised(height, ra, rb), top + 1, y)
         == if Root(par, height, top, y) == rb then ra else Root(par, height, top, y)
    decreases top - height[y]
  {
    var par', height' := par[rb := ra], Raised(height, ra, rb);
    assert Rooted(par', height', top + 1);
    if par[y] != y {
      UnionMovesRoots(par, height, top, ra, rb, par[y]);
    } else if y == rb {
      assert Root(par', height', top + 1, ra) == ra;
    }
  }

  /** `find`: the root, with the links of every second element on the way shortened. */
  method Find(par: array<nat>, start: nat, ghost height: seq<nat>, ghost top: nat) returns (x: nat)
    requires Rooted(par[..], height, top) && start < par.Length
    modifies par
    ensures Rooted(par[..], height, top)
    ensures x < par.Length && x == old(Root(par[..], height, top, start)) && par[x] == x
    ensures forall y: nat :: y < par.Length ==> Root(par[..], height, top, y) == old(Root(par[..], height, top, y))
  {
    hide *;
    x := start;
    RootedHeights(par[..], height, top);
    while par[x] != x
      invariant x < par.Length && Rooted(par[..], height, top)
      invariant forall y: nat :: y < par.Length ==> Root(par[..], height, top, y) == old(Root(par[..], height, top, y))
      invariant Root(par[..], height, top, x) == old(Root(par[..], height, top, start)) && |height| == par.Length
      decreases top - height[x]
    {
      ghost var before := par[..];
      HalvingMovesUp(before, height, top, x);
      par[x] := par[par[x]];
      assert par[..] == before[x := before[before[x]]];
      x := par[x];
    }
    RootOfRoot(par[..], height, top, x);
  }

  lemma RootedHeights(par: seq<nat>, height: seq<nat>, top: nat)
    requires Rooted(par, height, top)
    ensures |height| == |par|
  {
  }

  lemma HalvingMovesUp(par: seq<nat>, height: seq<nat>, top: nat, x: nat)
    requires Rooted(par, height, top) && x < |par| && par[x] != x
    ensures par[x] < |par| && par[par[x]] < |par|
    ensures var par' := par[x := par[par[x]]];
      && Rooted(par', height, top) && |height| == |par|
      && (forall y: nat :: y < |par| ==> Root(par', height, top, y) == Root(par, height, top, y))
      && Root(par', height, top, par'[x]) == Root(par, height, top, x)
      && 0 <= top - height[par'[x]] < top - height[x]
  {
    var par' := par[x := par[par[x]]];
    forall y: nat | y < |par|
      ensures Rooted(par', height, top) && Root(par', height, top, y) == Root(par, height, top, y)
    {
      HalvingKeepsRoots(par, height, top, x, y);
    }
    HalvingKeepsRoots(par, height, top, x, x);
  }

  lemma RootOfRoot(par: seq<nat>, height: seq<nat>, top: nat, x: nat)
    requires Rooted(par, height, top) && x < |par| && par[x] == x
    ensures Root(par, height, top, x) == x
  {
  }

  // ---- the classes ----

  /** The positions of the keys, as a dictionary. */
  ghost predicate IsIndex(keys: seq<Key>, idx: map<Key, nat>) {
    && (forall i :: 0 <= i < |keys| ==> keys[i] in idx && idx[keys[i]] == i)
    && (forall k :: k in idx ==> idx[k] < |keys| && keys[idx[k]] == k)
  }

  ghost function Roots(par: seq<nat>, height: seq<nat>, top: nat): (r: seq<nat>)
    requires Rooted(par, height, top)
    ensures |r| == |par| && forall x :: 0 <= x < |r| ==> r[x] == Root(par, height, top, x)
  {
    seq(|par|, x requires 0 <= x < |par| => Root(par, height, top, x))
  }

  ghost function Moved(roots: seq<nat>, ra: nat, rb: nat): (r: seq<nat>)
    ensures |r| == |roots| && forall x :: 0 <= x < |r| ==> r[x] == if roots[x] == rb then ra else roots[x]
  {
    seq(|roots|, x requires 0 <= x < |roots| => if roots[x] == rb then ra else roots[x])
  }

  /** Linked known spans have the same root. */
  ghost predicate EdgesMerged(edges: seq<Edge>, idx: map<Key, nat>, roots: seq<nat>)
    requires forall k :: k in idx ==> idx[k] < |roots|
  {
    forall e :: e in edges && e.child in idx && e.parent in idx ==> roots[idx[e.child]] == roots[idx[e.parent]]
  }

  /** Spans with the same root are connected. */
  ghost predicate MergedConnected(edges: seq<Edge>, keys: seq<Key>, idx: map<Key, nat>, roots: seq<nat>)
    requires forall k :: k in idx ==> idx[k] < |roots|
  {
    forall a, b :: a in idx && b in idx && roots[idx[a]] == roots[idx[b]] ==> Connected(edges, keys, a, b)
  }

  lemma {:induction false} PathSharesRoot(edges: seq<Edge>, keys: seq<Key>, idx: map<Key, nat>, roots: seq<nat>, p: seq<Key>)
    requires IsIndex(keys, idx) && |roots| == |keys| && EdgesMerged(edges, idx, roots)
    requires IsPath(edges, keys, p) && p[0] in idx
    ensures p[|p| - 1] in idx && roots[idx[p[0]]] == roots[idx[p[|p| - 1]]]
    decreases |p|
  {
    if |p| > 1 {
      var front := p[..|p| - 1];
      assert forall i :: 0 <= i < |front| - 1 ==> Joined(edges, keys, p[i], p[i + 1]);
      PathSharesRoot(edges, keys, idx, roots, front);
      assert Joined(edges, keys, p[|p| - 2], p[|p| - 1]);
    }
  }

  /** Having the same root is being connected. */
  lemma SameRootIffConnected(edges: seq<Edge>, keys: seq<Key>, idx: map<Key, nat>, roots: seq<nat>, a: Key, b: Key)
    requires IsIndex(keys, idx) && |roots| == |keys| && a in idx && b in idx
    requires EdgesMerged(edges, idx, roots) && MergedConnected(edges, keys, idx, roots)
    ensures roots[idx[a]] == roots[idx[b]] <==> Connected(edges, keys, a, b)
  {
    if Connected(edges, keys, a, b) {
      var p :| IsPath(edges, keys, p) && p[0] == a && p[|p| - 1] == b;
      PathSharesRoot(edges, keys, idx, roots, p);
    }
  }

  /** Merging the classes of an edge's two ends keeps both halves, with the edge added. */
  lemma MergeKeeps(edges: seq<Edge>, e: Edge, keys: seq<Key>, idx: map<Key, nat>, roots: seq<nat>)
    requires IsIndex(keys, idx) && |roots| == |keys| && e.child in idx && e.parent in idx
    requires EdgesMerged(edges, idx, roots) && MergedConnected(edges, keys, idx, roots)
    ensures var roots' := Moved(roots, roots[idx[e.child]], roots[idx[e.parent]]);
      EdgesMerged(edges + [e], idx, roots') && MergedConnected(edges + [e], keys, idx, roots')
  {
    var ra, rb := roots[idx[e.child]], roots[idx[e.parent]];
    var roots', more := Moved(roots, ra, rb), edges + [e];
    forall a, b | a in idx && b in idx && roots'[idx[a]] == roots'[idx[b]]
      ensures Connected(more, keys, a, b)
    {
      assert e in more && e.child in keys && e.parent in keys;
      if roots[idx[a]] == roots[idx[b]] {
        ConnectedByMore(edges, more, keys, a, b);
      } else if roots[idx[a]] == ra {
        Across(edges, more, keys, e, a, b);
      } else {
        Across(edges, more, keys, e, b, a);
        ConnectedBack(more, keys, b, a);
      }
    }
  }

  lemma Across(edges: seq<Edge>, more: seq<Edge>, keys: seq<Key>, e: Edge, a: Key, b: Key)
    requires Connected(edges, keys, a, e.child) && Connected(edges, keys, b, e.parent)
    requires e in more && e.child in keys && e.parent in keys && forall x :: x in edges ==> x in more
    ensures Connected(more, keys, a, b)
  {
    ConnectedByMore(edges, more, keys, a, e.child);
    ConnectedByEdge(more, keys, e);
    ConnectedBack(edges, keys, b, e.parent);
    ConnectedByMore(edges, more, keys, e.parent, b);
    ConnectedJoin(more, keys, a, e.child, e.parent);
    ConnectedJoin(more, keys, a, e.parent, b);
  }

  /** An edge to an unknown span joins nothing. */
  lemma SkipKeeps(edges: seq<Edge>, e: Edge, keys: seq<Key>, idx: map<Key, nat>, roots: seq<nat>)
    requires IsIndex(keys, idx) && |roots| == |keys| && (e.child in idx && e.parent in idx ==> roots[idx[e.child]] == roots[idx[e.parent]])
    requires EdgesMerged(edges, idx, roots) && MergedConnected(edges, keys, idx, roots)
    ensures EdgesMerged(edges + [e], idx, roots) && MergedConnected(edges + [e], keys, idx, roots)
  {
    forall a, b | a in idx && b in idx && roots[idx[a]] == roots[idx[b]]
      ensures Connected(edges + [e], keys, a, b)
    {
      ConnectedByMore(edges, edges + [e], keys, a, b);
    }
  }

  // ---- the loops ----

  method UnionAll(edges: seq<Edge>, keys: seq<Key>, idx: map<Key, nat>, par: array<nat>)
    returns (ghost height: seq<nat>, ghost top: nat)
    requires IsIndex(keys, idx) && par.Length == |keys| && forall x :: 0 <= x < par.Length ==> par[x] == x
    modifies par
    ensures Rooted(par[..], height, top)
    ensures var roots := Roots(par[..], height, top); EdgesMerged(edges, idx, roots) && MergedConnected(edges, keys, idx, roots)
  {
    height, top := seq(|keys|, _ => 0), 0;
    forall a, b | a in idx && b in idx && Roots(par[..], height, top)[idx[a]] == Roots(par[..], height, top)[idx[b]]
      ensures Connected([], keys, a, b)
    {
      assert Root(par[..], height, top, idx[a]) == idx[a] && Root(par[..], height, top, idx[b]) == idx[b];
      ConnectedToSelf([], keys, a);
    }
    assert edges[..0] == [];
    for i := 0 to |edges|
      invariant Rooted(par[..], height, top)
      invariant EdgesMerged(edges[..i], idx, Roots(par[..], height, top))
      invariant MergedConnected(edges[..i], keys, idx, Roots(par[..], height, top))
    {
      height, top := UnionEdge(edges[..i], edges[i], keys, idx, par, height, top);
      assert edges[..i + 1] == edges[..i] + [edges[i]];
    }
    assert edges[..|edges|] == edges;
  }

  method UnionEdge(ghost before: seq<Edge>, e: Edge, ghost keys: seq<Key>, idx: map<Key, nat>, par: array<nat>,
                   ghost height: seq<nat>, ghost top: nat)
    returns (ghost height': seq<nat>, ghost top': nat)
    requires IsIndex(keys, idx) && par.Length == |keys| && Rooted(par[..], height, top)
    requires EdgesMerged(before, idx, Roots(par[..], height, top)) && MergedConnected(before, keys, idx, Roots(par[..], height, top))
    modifies par
    ensures Rooted(par[..], height', top')
    ensures EdgesMerged(before + [e], idx, Roots(par[..], height', top'))
    ensures MergedConnected(before + [e], keys, idx, Roots(par[..], height', top'))
  {
    assert forall k :: k in idx ==> idx[k] < |keys|;
    hide *;
    ghost var roots := Roots(par[..], height, top);
    if e.child in idx && e.parent in idx {
      height', top' := Union(par, idx[e.child], idx[e.parent], height, top);
      MergeKeeps(before, e, keys, idx, roots);
    } else {
      height', top' := height, top;
      SkipKeeps(before, e, keys, idx, roots);
    }
  }

  method Union(par: array<nat>, x: nat, y: nat, ghost height: seq<nat>, ghost top: nat)
    returns (ghost height': seq<nat>, ghost top': nat)
    requires Rooted(par[..], height, top) && x < par.Length && y < par.Length
    modifies par
    ensures Rooted(par[..], height', top')
    ensures var roots := old(Roots(par[..], height, top)); Roots(par[..], height', top') == Moved(roots, roots[x], roots[y])
  {
    hide *;
    ghost var roots := Roots(par[..], height, top);
    var ra := Find(par, x, height, top);
    var rb := Find(par, y, height, top);
    assert Roots(par[..], height, top) == roots;
    height', top' := height, top;
    if ra != rb {
      height', top' := Link(par, ra, rb, height, top);
    } else {
      assert Moved(roots, ra, rb) == roots;
    }
  }

  method Link(par: array<nat>, ra: nat, rb: nat, ghost height: seq<nat>, ghost top: nat)
    returns (ghost height': seq<nat>, ghost top': nat)
    requires Rooted(par[..], height, top) && ra < par.Length && rb < par.Length && ra != rb
    requires par[ra] == ra && par[rb] == rb
    modifies par
    ensures Rooted(par[..], height', top')
    ensures Roots(par[..], height', top') == Moved(old(Roots(par[..], height, top)), ra, rb)
  {
    ghost var p := par[..];
    ghost var roots := Roots(p, height, top);
    par[rb] := ra;
    height', top' := Raised(height, ra, rb), top + 1;
    assert par[..] == p[rb := ra];
    UnionMovesRoots(p, height, top, ra, rb, ra);
    forall y: nat | y < |p|
      ensures Root(p[rb := ra], height', top', y) == Moved(roots, ra, rb)[y]
    {
      UnionMovesRoots(p, height, top, ra, rb, y);
    }
    assert Roots(par[..], height', top') == Moved(roots, ra, rb);
  }

  /** A position shows which group holds a key. */
  ghost predicate InGroup(groups: seq<seq<Key>>, g: nat, k: Key) { g < |groups| && k in groups[g] }

  /** Every known span is in a group, in the order of the known ones, and two are in the same
      group exactly when they are connected. */
  ghost predicate IsGrouping(groups: seq<seq<Key>>, edges: seq<Edge>, keys: seq<Key>) {
    && (forall k :: k in keys <==> exists g: nat :: InGroup(groups, g, k))
    && (forall g, i, j, x, y ::
          0 <= g < |groups| && 0 <= i < j < |groups[g]| && 0 <= x < |keys| && 0 <= y < |keys|
          && groups[g][i] == keys[x] && groups[g][j] == keys[y]
          ==> x < y)
    && (forall g :: 0 <= g < |groups| ==> groups[g] != [])
    && (forall g: nat, h: nat, a, b :: InGroup(groups, g, a) && InGroup(groups, h, b) ==>
          (g == h <==> Connected(edges, keys, a, b)))
  }

  lemma EdgesNext(segments: seq<Segment>, i: nat)
    requires i < |segments|
    ensures Edges(segments[..i + 1]) == Edges(segments[..i]) + SegmentEdges(segments[i].id, segments[i].spans)
  {
    assert segments[..i + 1][..i] == segments[..i];
  }

  lemma SegmentEdgesNext(segment: string, spans: seq<Span>, j: nat)
    requires j < |spans|
    ensures SegmentEdges(segment, spans[..j + 1]) == SegmentEdges(segment, spans[..j]) + SpanEdges(segment, spans[j])
  {
    assert spans[..j + 1][..j] == spans[..j];
  }

  method AddSpanEdges(edges: seq<Edge>, segment: string, sp: Span) returns (more: seq<Edge>)
    ensures more == edges + SpanEdges(segment, sp)
  {
    more := edges;
    var linked := false;
    for k := 0 to |sp.refs|
      invariant more == edges + RefEdges(Key(segment, sp.id), sp.refs)[..k]
      invariant linked <==> k > 0
    {
      more := more + [Edge(Key(segment, sp.id), Key(sp.refs[k].parentSegment, sp.refs[k].parentSpan))];
      linked := true;
    }
    if !linked && sp.parent >= 0 {
      more := more + [Edge(Key(segment, sp.id), Key(segment, sp.parent))];
    }
  }

  method AddSegmentEdges(edges: seq<Edge>, seg: Segment) returns (more: seq<Edge>)
    ensures more == edges + SegmentEdges(seg.id, seg.spans)
  {
    hide SpanEdges;
    more := edges;
    for j := 0 to |seg.spans|
      invariant more == edges + SegmentEdges(seg.id, seg.spans[..j])
    {
      SegmentEdgesNext(seg.id, seg.spans, j);
      more := AddSpanEdges(more, seg.id, seg.spans[j]);
    }
    assert seg.spans[..|seg.spans|] == seg.spans;
  }

  method CollectEdges(segments: seq<Segment>) returns (edges: seq<Edge>)
    ensures edges == Edges(segments)
  {
    hide SegmentEdges;
    edges := [];
    for i := 0 to |segments|
      invariant edges == Edges(segments[..i])
    {
      EdgesNext(segments, i);
      edges := AddSegmentEdges(edges, segments[i]);
    }
    assert segments[..|segments|] == segments;
  }

  predicate InSegment(seg: Segment, n: nat, k: Key) {
    seg.id == k.segment && exists j :: 0 <= j < n <= |seg.spans| && seg.spans[j].id == k.span
  }

  predicate InSegments(segments: seq<Segment>, n: nat, k: Key) {
    exists i :: 0 <= i < n <= |segments| && InSegment(segments[i], |segments[i].spans|, k)
  }

  method CollectKeys(segments: seq<Segment>) returns (keys: seq<Key>, idx: map<Key, nat>)
    ensures IsIndex(keys, idx)
    ensures forall k :: k in idx <==> IsKey(segments, k)
  {
    keys, idx := [], map[];
    for i := 0 to |segments|
      invariant IsIndex(keys, idx)
      invariant forall k :: k in idx <==> InSegments(segments, i, k)
    {
      var seg := segments[i];
      for j := 0 to |seg.spans|
        invariant IsIndex(keys, idx)
        invariant forall k :: k in idx <==> InSegments(segments, i, k) || InSegment(seg, j, k)
      {
        var key := Key(seg.id, seg.spans[j].id);
        forall k
          ensures InSegment(seg, j + 1, k) <==> InSegment(seg, j, k) || k == key
        {
        }
        if key !in idx {
          idx := idx[key := |keys|];
          keys := keys + [key];
        }
      }
      forall k
        ensures InSegments(segments, i + 1, k) <==> InSegments(segments, i, k) || InSegment(seg, |seg.spans|, k)
      {
      }
    }
    forall k
      ensures InSegments(segments, |segments|, k) <==> IsKey(segments, k)
    {
      KeyIsInSegments(segments, k);
    }
  }

  lemma KeyIsInSegments(segments: seq<Segment>, k: Key)
    ensures InSegments(segments, |segments|, k) <==> IsKey(segments, k)
  {
    if IsKey(segments, k) {
      var seg :| seg in segments && seg.id == k.segment && exists sp :: sp in seg.spans && sp.id == k.span;
      var sp :| sp in seg.spans && sp.id == k.span;
      var i :| 0 <= i < |segments| && segments[i] == seg;
      var j :| 0 <= j < |seg.spans| && seg.spans[j] == sp;
      assert InSegment(segments[i], |segments[i].spans|, k);
    }
  }

  /** The listed keys stand in the order of their positions. */
  ghost predicate InOrder(listed: seq<Key>, idx: map<Key, nat>) {
    && (forall i :: 0 <= i < |listed| ==> listed[i] in idx)
    && (forall i, j :: 0 <= i < j < |listed| ==> idx[listed[i]] < idx[listed[j]])
  }

  /** The first keys, put into the lists of their roots; `order` is that of the lists. */
  ghost predicate Placed(order: seq<nat>, members: map<nat, seq<Key>>, keys: seq<Key>, idx: map<Key, nat>, roots: seq<nat>, n: nat) {
    && |roots| == |keys| && n <= |keys| && IsIndex(keys, idx)
    && (forall g, h :: 0 <= g < h < |order| ==> order[g] != order[h])
    && (forall r :: r in members <==> r in order)
    && (forall j :: 0 <= j < n ==> roots[j] in members && keys[j] in members[roots[j]])
    && (forall r, k :: r in members && k in members[r] ==> k in idx && idx[k] < n && roots[idx[k]] == r)
    && (forall r :: r in members ==> members[r] != [] && InOrder(members[r], idx))
  }

  /** Appending the next key to the list of its root, which is new or not. */
  lemma PlaceNext(order: seq<nat>, members: map<nat, seq<Key>>, keys: seq<Key>, idx: map<Key, nat>, roots: seq<nat>, n: nat)
    requires Placed(order, members, keys, idx, roots, n) && n < |keys|
    ensures var r := roots[n];
      var order' := if r in members then order else order + [r];
      var listed := if r in members then members[r] else [];
      Placed(order', members[r := listed + [keys[n]]], keys, idx, roots, n + 1)
  {
    hide *;
    PlacedIs(order, members, keys, idx, roots, n);
    var r, k := roots[n], keys[n];
    var listed := (if r in members then members[r] else []) + [k];
    OrderGrows(order, members, r, listed);
    NextStays(members, keys, idx, roots, n);
    NextIsListed(members, keys, roots, n);
    NextInOrder(members, keys, idx, roots, n);
    PlacedWhen(if r in members then order else order + [r], members[r := listed], keys, idx, roots, n + 1);
  }

  lemma PlacedWhen(order: seq<nat>, members: map<nat, seq<Key>>, keys: seq<Key>, idx: map<Key, nat>, roots: seq<nat>, n: nat)
    requires |roots| == |keys| && n <= |keys| && IsIndex(keys, idx)
    requires forall g, h :: 0 <= g < h < |order| ==> order[g] != order[h]
    requires forall r :: r in members <==> r in order
    requires forall j :: 0 <= j < n ==> roots[j] in members && keys[j] in members[roots[j]]
    requires forall r, k :: r in members && k in members[r] ==> k in idx && idx[k] < n && roots[idx[k]] == r
    requires forall r :: r in members ==> members[r] != [] && InOrder(members[r], idx)
    ensures Placed(order, members, keys, idx, roots, n)
  {
  }

  lemma PlacedIs(order: seq<nat>, members: map<nat, seq<Key>>, keys: seq<Key>, idx: map<Key, nat>, roots: seq<nat>, n: nat)
    requires Placed(order, members, keys, idx, roots, n)
    ensures |roots| == |keys| && n <= |keys| && IsIndex(keys, idx)
    ensures forall g, h :: 0 <= g < h < |order| ==> order[g] != order[h]
    ensures forall r :: r in members <==> r in order
    ensures forall j :: 0 <= j < n ==> roots[j] in members && keys[j] in members[roots[j]]
    ensures forall r, k :: r in members && k in members[r] ==> k in idx && idx[k] < n && roots[idx[k]] == r
    ensures forall r :: r in members ==> members[r] != [] && InOrder(members[r], idx)
  {
  }

  lemma OrderGrows(order: seq<nat>, members: map<nat, seq<Key>>, r: nat, listed: seq<Key>)
    requires forall g, h :: 0 <= g < h < |order| ==> order[g] != order[h]
    requires forall x :: x in members <==> x in order
    ensures var order' := if r in members then order else order + [r];
      && (forall g, h :: 0 <= g < h < |order'| ==> order'[g] != order'[h])
      && forall x :: x in members[r := listed] <==> x in order'
  {
    assert forall g :: 0 <= g < |order| ==> order[g] in order;
  }

  lemma NextInOrder(members: map<nat, seq<Key>>, keys: seq<Key>, idx: map<Key, nat>, roots: seq<nat>, n: nat)
    requires |roots| == |keys| && n < |keys| && IsIndex(keys, idx)
    requires forall r, k :: r in members && k in members[r] ==> k in idx && idx[k] < n
    requires forall r :: r in members ==> members[r] != [] && InOrder(members[r], idx)
    ensures var r := roots[n];
      var members' := members[r := (if r in members then members[r] else []) + [keys[n]]];
      forall x :: x in members' ==> members'[x] != [] && InOrder(members'[x], idx)
  {
    hide InOrder;
    var r := roots[n];
    OneMoreInOrder(if r in members then members[r] else [], keys[n], idx);
  }

  lemma NextStays(members: map<nat, seq<Key>>, keys: seq<Key>, idx: map<Key, nat>, roots: seq<nat>, n: nat)
    requires |roots| == |keys| && n < |keys| && IsIndex(keys, idx)
    requires forall r, k :: r in members && k in members[r] ==> k in idx && idx[k] < n && roots[idx[k]] == r
    ensures var r := roots[n];
      var members' := members[r := (if r in members then members[r] else []) + [keys[n]]];
      forall x, y :: x in members' && y in members'[x] ==> y in idx && idx[y] < n + 1 && roots[idx[y]] == x
  {
  }

  lemma NextIsListed(members: map<nat, seq<Key>>, keys: seq<Key>, roots: seq<nat>, n: nat)
    requires |roots| == |keys| && n < |keys|
    requires forall j :: 0 <= j < n ==> roots[j] in members && keys[j] in members[roots[j]]
    ensures var r := roots[n];
      var members' := members[r := (if r in members then members[r] else []) + [keys[n]]];
      forall j :: 0 <= j < n + 1 ==> roots[j] in members' && keys[j] in members'[roots[j]]
  {
    var r := roots[n];
    var listed := (if r in members then members[r] else []) + [keys[n]];
    assert listed[|listed| - 1] == keys[n];
  }

  lemma OneMoreInOrder(listed: seq<Key>, k: Key, idx: map<Key, nat>)
    requires (listed != [] ==> InOrder(listed, idx)) && k in idx
    requires forall x :: x in listed ==> x in idx && idx[x] < idx[k]
    ensures InOrder(listed + [k], idx)
  {
  }

  lemma PlacedGivesByRoot(order: seq<nat>, members: map<nat, seq<Key>>, keys: seq<Key>, idx: map<Key, nat>, roots: seq<nat>,
                          groups: seq<seq<Key>>)
    requires Placed(order, members, keys, idx, roots, |keys|) && |groups| == |order|
    requires forall g :: 0 <= g < |groups| ==> order[g] in members && groups[g] == members[order[g]]
    ensures ByRoot(groups, keys, idx, roots)
  {
    forall k | k in idx
      ensures exists g: nat :: InGroup(groups, g, k)
    {
      assert keys[idx[k]] == k;
      var g: nat :| g < |order| && order[g] == roots[idx[k]];
      assert InGroup(groups, g, k);
    }
    forall g: nat, k | InGroup(groups, g, k)
      ensures k in idx && roots[idx[k]] == order[g]
    {
      assert k in members[order[g]];
    }
  }

  method GroupByRoot(keys: seq<Key>, ghost idx: map<Key, nat>, par: array<nat>, ghost height: seq<nat>, ghost top: nat)
    returns (groups: seq<seq<Key>>)
    requires IsIndex(keys, idx) && par.Length == |keys| && Rooted(par[..], height, top)
    modifies par
    ensures ByRoot(groups, keys, idx, old(Roots(par[..], height, top)))
  {
    hide *;
    ghost var roots := Roots(par[..], height, top);
    var order: seq<nat>, members: map<nat, seq<Key>> := [], map[];
    PlacedNothing(keys, idx, roots);
    for i := 0 to |keys|
      invariant Rooted(par[..], height, top) && Roots(par[..], height, top) == roots
      invariant Placed(order, members, keys, idx, roots, i)
    {
      PlaceNext(order, members, keys, idx, roots, i);
      var r := Find(par, i, height, top);
      assert Roots(par[..], height, top) == roots;
      var listed := if r in members then members[r] else [];
      if r !in members {
        order := order + [r];
      }
      members := members[r := listed + [keys[i]]];
    }
    OrderIsListed(order, members, keys, idx, roots, |keys|);
    groups := seq(|order|, g requires 0 <= g < |order| => members[order[g]]);
    PlacedGivesByRoot(order, members, keys, idx, roots, groups);
  }

  lemma PlacedNothing(keys: seq<Key>, idx: map<Key, nat>, roots: seq<nat>)
    requires IsIndex(keys, idx) && |roots| == |keys|
    ensures Placed([], map[], keys, idx, roots, 0)
  {
  }

  lemma OrderIsListed(order: seq<nat>, members: map<nat, seq<Key>>, keys: seq<Key>, idx: map<Key, nat>, roots: seq<nat>, n: nat)
    requires Placed(order, members, keys, idx, roots, n)
    ensures forall g :: 0 <= g < |order| ==> order[g] in members
  {
  }

  /** The members of a group share a root, and different groups have different roots. */
  ghost predicate ByRoot(groups: seq<seq<Key>>, keys: seq<Key>, idx: map<Key, nat>, roots: seq<nat>) {
    && |roots| == |keys| && IsIndex(keys, idx)
    && (forall k :: k in idx ==> exists g: nat :: InGroup(groups, g, k))
    && (forall g :: 0 <= g < |groups| ==> groups[g] != [] && InOrder(groups[g], idx))
    && (forall g: nat, k :: InGroup(groups, g, k) ==> k in idx)
    && (forall g: nat, h: nat, a, b :: InGroup(groups, g, a) && InGroup(groups, h, b) ==> (g == h <==> roots[idx[a]] == roots[idx[b]]))
  }

  lemma RootsGiveGrouping(groups: seq<seq<Key>>, edges: seq<Edge>, keys: seq<Key>, idx: map<Key, nat>, roots: seq<nat>)
    requires ByRoot(groups, keys, idx, roots) && EdgesMerged(edges, idx, roots) && MergedConnected(edges, keys, idx, roots)
    ensures IsGrouping(groups, edges, keys)
  {
    forall g: nat, h: nat, a, b | InGroup(groups, g, a) && InGroup(groups, h, b)
      ensures g == h <==> Connected(edges, keys, a, b)
    {
      SameRootIffConnected(edges, keys, idx, roots, a, b);
    }
    assert forall k :: k in keys <==> k in idx;
  }

  // ---- the links as they stand in the dump ----

  /** Some span with the identifiers `a` names `b`: in a reference, which tells segment and span,
      or, when it has no references, as its parent in its own segment. */
  ghost predicate Links(segments: seq<Segment>, a: Key, b: Key) {
    exists seg, sp :: seg in segments && sp in seg.spans && seg.id == a.segment && sp.id == a.span
      && if sp.refs != [] then exists ref :: ref in sp.refs && ref.parentSegment == b.segment && ref.parentSpan == b.span
         else sp.parent >= 0 && b.segment == seg.id && b.span == sp.parent
  }

  /** Links lead from one to the other, in either direction, through spans of the dump. */
  ghost predicate Related(segments: seq<Segment>, a: Key, b: Key) {
    exists p: seq<Key> :: |p| > 0 && p[0] == a && p[|p| - 1] == b && IsLinkPath(segments, p)
  }

  ghost predicate IsLinkPath(segments: seq<Segment>, p: seq<Key>) {
    && (forall i :: 0 <= i < |p| ==>
          exists seg, sp :: seg in segments && sp in seg.spans && seg.id == p[i].segment && sp.id == p[i].span)
    && (forall i :: 0 <= i < |p| - 1 ==> Links(segments, p[i], p[i + 1]) || Links(segments, p[i + 1], p[i]))
  }

  ghost predicate SpanLinks(segment: string, sp: Span, e: Edge) {
    && e.child == Key(segment, sp.id)
    && if sp.refs != [] then exists ref :: ref in sp.refs && ref.parentSegment == e.parent.segment && ref.parentSpan == e.parent.span
       else sp.parent >= 0 && e.parent == Key(segment, sp.parent)
  }

  lemma SpanEdgesAre(segment: string, sp: Span, e: Edge)
    ensures e in SpanEdges(segment, sp) <==> SpanLinks(segment, sp, e)
  {
    var edges := SpanEdges(segment, sp);
    if e in edges && sp.refs != [] {
      var i :| 0 <= i < |edges| && edges[i] == e;
      assert sp.refs[i] in sp.refs;
    }
    if SpanLinks(segment, sp, e) && sp.refs != [] {
      var ref :| ref in sp.refs && ref.parentSegment == e.parent.segment && ref.parentSpan == e.parent.span;
      var i :| 0 <= i < |sp.refs| && sp.refs[i] == ref;
      assert edges[i] == e;
    }
  }

  lemma {:induction false} SegmentEdgesAre(segment: string, spans: seq<Span>, e: Edge)
    ensures e in SegmentEdges(segment, spans) <==> exists sp :: sp in spans && SpanLinks(segment, sp, e)
  {
    hide SpanEdges, SpanLinks;
    if spans != [] {
      var front, last := spans[..|spans| - 1], spans[|spans| - 1];
      assert spans == front + [last];
      SegmentEdgesAre(segment, front, e);
      SpanEdgesAre(segment, last, e);
    }
  }

  lemma {:induction false} EdgesAre(segments: seq<Segment>, e: Edge)
    ensures e in Edges(segments) <==> exists seg, sp :: seg in segments && sp in seg.spans && SpanLinks(seg.id, sp, e)
  {
    hide SegmentEdges, SpanLinks;
    if segments != [] {
      var front, last := segments[..|segments| - 1], segments[|segments| - 1];
      assert segments == front + [last];
      EdgesAre(front, e);
      SegmentEdgesAre(last.id, last.spans, e);
    }
  }

  lemma LinksIff(segments: seq<Segment>, a: Key, b: Key)
    ensures Links(segments, a, b) <==> Edge(a, b) in Edges(segments)
  {
    EdgesAre(segments, Edge(a, b));
    hide Edges;
  }

  /** Being connected by the collected edges is being related by the links of the dump. */
  lemma ConnectedIffRelated(segments: seq<Segment>, keys: seq<Key>, a: Key, b: Key)
    requires forall k :: k in keys <==> IsKey(segments, k)
    requires a in keys
    ensures Connected(Edges(segments), keys, a, b) <==> Related(segments, a, b)
  {
    hide Edges, Links, SegmentEdges;
    if Connected(Edges(segments), keys, a, b) {
      var p :| IsPath(Edges(segments), keys, p) && p[0] == a && p[|p| - 1] == b;
      PathLinks(segments, keys, p);
    }
    if Related(segments, a, b) {
      var p: seq<Key> :| |p| > 0 && p[0] == a && p[|p| - 1] == b && IsLinkPath(segments, p);
      LinksPath(segments, keys, p);
    }
  }

  lemma PathLinks(segments: seq<Segment>, keys: seq<Key>, p: seq<Key>)
    requires forall k :: k in keys <==> IsKey(segments, k)
    requires IsPath(Edges(segments), keys, p) && p[0] in keys
    ensures IsLinkPath(segments, p)
  {
    hide Edges, Links;
    forall i | 0 <= i < |p|
      ensures IsKey(segments, p[i])
    {
      if i > 0 { assert Joined(Edges(segments), keys, p[i - 1], p[i]); }
    }
    forall i | 0 <= i < |p| - 1
      ensures Links(segments, p[i], p[i + 1]) || Links(segments, p[i + 1], p[i])
    {
      assert Joined(Edges(segments), keys, p[i], p[i + 1]);
      LinksIff(segments, p[i], p[i + 1]);
      LinksIff(segments, p[i + 1], p[i]);
    }
  }

  lemma LinksPath(segments: seq<Segment>, keys: seq<Key>, p: seq<Key>)
    requires forall k :: k in keys <==> IsKey(segments, k)
    requires |p| > 0 && IsLinkPath(segments, p)
    ensures IsPath(Edges(segments), keys, p)
  {
    hide Edges, Links;
    forall i | 0 <= i < |p| - 1
      ensures Joined(Edges(segments), keys, p[i], p[i + 1])
    {
      assert IsKey(segments, p[i]) && IsKey(segments, p[i + 1]);
      LinksIff(segments, p[i], p[i + 1]);
      LinksIff(segments, p[i + 1], p[i]);
    }
  }

  lemma KeysAre(segments: seq<Segment>, keys: seq<Key>, idx: map<Key, nat>)
    requires IsIndex(keys, idx) && forall k :: k in idx <==> IsKey(segments, k)
    ensures forall k :: k in keys <==> IsKey(segments, k)
    ensures forall k :: k in keys <==>
              exists seg, sp :: seg in segments && sp in seg.spans && seg.id == k.segment && sp.id == k.span
  {
    assert forall k :: k in keys <==> k in idx;
  }

  /** The grouping, seen from the dump. */
  lemma GroupingIsByLinks(segments: seq<Segment>, groups: seq<seq<Key>>, keys: seq<Key>)
    requires forall k :: k in keys <==> IsKey(segments, k)
    requires IsGrouping(groups, Edges(segments), keys)
    ensures forall k :: k in keys <==> exists g :: 0 <= g < |groups| && k in groups[g]
    ensures forall g, h, a, b :: 0 <= g < |groups| && 0 <= h < |groups| && a in groups[g] && b in groups[h] ==>
              (g == h <==> Related(segments, a, b))
  {
    hide Edges, Connected, Related;
    forall k
      ensures k in keys <==> exists g :: 0 <= g < |groups| && k in groups[g]
    {
      if k in keys {
        var g: nat :| InGroup(groups, g, k);
      }
      if g :| 0 <= g < |groups| && k in groups[g] { assert InGroup(groups, g, k); }
    }
    forall g, h, a, b | 0 <= g < |groups| && 0 <= h < |groups| && a in groups[g] && b in groups[h]
      ensures g == h <==> Related(segments, a, b)
    {
      assert InGroup(groups, g, a) && InGroup(groups, h, b);
      ConnectedIffRelated(segments, keys, a, b);
    }
  }

  /** The keys are the spans of the dump, and every one of them is in a group. Two end in the same
      group exactly when links between spans of the dump lead from one to the other: references to
      a segment and span, or parents in the same segment. */
  method LoadGroups(segments: seq<Segment>) returns (groups: seq<seq<Key>>, keys: seq<Key>)
    ensures forall k :: k in keys <==>
              exists seg, sp :: seg in segments && sp in seg.spans && seg.id == k.segment && sp.id == k.span
    ensures forall k :: k in keys <==> exists g :: 0 <= g < |groups| && k in groups[g]
    ensures forall g, h, a, b :: 0 <= g < |groups| && 0 <= h < |groups| && a in groups[g] && b in groups[h] ==>
              (g == h <==> Related(segments, a, b))
    ensures IsGrouping(groups, Edges(segments), keys)
  {
    hide *;
    var idx: map<Key, nat>;
    keys, idx := CollectKeys(segments);
    var edges := CollectEdges(segments);
    var par := new nat[|keys|]((i: nat) => i);
    ghost var height, top := UnionAll(edges, keys, idx, par);
    ghost var roots := Roots(par[..], height, top);
    groups := GroupByRoot(keys, idx, par, height, top);
    RootsGiveGrouping(groups, edges, keys, idx, roots);
    KeysAre(segments, keys, idx);
    GroupingIsByLinks(segments, groups, keys);
  }
}
