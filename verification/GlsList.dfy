/** A goroutine's span stack as the program keeps it: linked wrappers rewired in
    place. Each method is proved against the function of GlsStack that states it. */
module GlsList {
  import opened Common
  import opened GlsStack
  import opened GlsProtocol
  import opened GlsFlags

  class Wrapper {
    const span: Span
    var prev: Wrapper?
    const flag: Flag
    ghost const cloned: bool
    ghost const owner: TraceContext

    constructor (span: Span, prev: Wrapper?, flag: Flag, ghost cloned: bool, ghost owner: TraceContext)
      ensures this.span == span && this.prev == prev && this.flag == flag
      ensures this.cloned == cloned && this.owner == owner
    {
      this.span, this.prev, this.flag, this.cloned, this.owner := span, prev, flag, cloned, owner;
    }
  }

  ghost function Entries(nodes: seq<Wrapper>): (r: seq<Entry<Flag>>)
    ensures |r| == |nodes|
  {
    seq(|nodes|, i requires 0 <= i < |nodes| => Entry(nodes[i].span, nodes[i].flag, nodes[i].cloned))
  }

  ghost function At(nodes: seq<Wrapper>, i: nat): Wrapper? {
    if i < |nodes| then nodes[i] else null
  }

  /** `head` starts a linked list that runs through exactly `nodes`. */
  ghost predicate Chain(head: Wrapper?, nodes: seq<Wrapper>)
    reads nodes
  {
    && head == At(nodes, 0)
    && (forall i :: 0 <= i < |nodes| ==> nodes[i].prev == At(nodes, i + 1))
    && NoRepeats(nodes)
  }

  lemma ChainTail(head: Wrapper?, nodes: seq<Wrapper>)
    requires Chain(head, nodes) && nodes != []
    ensures Chain(nodes[0].prev, nodes[1..])
    ensures Entries(nodes[1..]) == Entries(nodes)[1..]
  {
    var rest := nodes[1..];
    forall i | 0 <= i < |rest| ensures rest[i].prev == At(rest, i + 1) {
      assert rest[i] == nodes[i + 1];
    }
    forall i, j | 0 <= i < j < |rest| ensures rest[i] != rest[j] {
      assert nodes[i + 1] != nodes[j + 1];
    }
  }

  /** Following the list leads to the node at the next position. */
  lemma Next(head: Wrapper?, nodes: seq<Wrapper>, i: nat)
    requires Chain(head, nodes) && i <= |nodes|
    ensures At(nodes, i) == if i == 0 then head else nodes[i - 1].prev
  {
  }

  lemma EntryAt(nodes: seq<Wrapper>, i: nat)
    requires i < |nodes|
    ensures |Entries(nodes)| == |nodes|
    ensures Entries(nodes)[i] == Entry(nodes[i].span, nodes[i].flag, nodes[i].cloned)
  {
  }

  lemma NoRepeatsRemoveAt<T>(s: seq<T>, i: nat)
    requires i < |s| && NoRepeats(s)
    ensures NoRepeats(RemoveAt(s, i))
    ensures forall x :: x in RemoveAt(s, i) ==> x in s
  {
    var r := RemoveAt(s, i);
    forall j, k | 0 <= j < k < |r| ensures r[j] != r[k] {
      assert r[j] == s[if j < i then j else j + 1] && r[k] == s[if k < i then k else k + 1];
    }
  }

  lemma WithoutNode(nodes: seq<Wrapper>, i: nat)
    requires i < |nodes| && NoRepeats(nodes)
    ensures var rest := RemoveAt(nodes, i);
      && |rest| == |nodes| - 1 && NoRepeats(rest) && (forall w :: w in rest ==> w in nodes)
      && (forall j :: 0 <= j < |rest| ==> rest[j] == nodes[if j < i then j else j + 1])
      && Entries(rest) == RemoveAt(Entries(nodes), i)
  {
    NoRepeatsRemoveAt(nodes, i);
  }

  lemma ChainPush(head: Wrapper, nodes: seq<Wrapper>)
    requires Chain(head.prev, nodes) && head !in nodes
    ensures Chain(head, [head] + nodes)
    ensures Entries([head] + nodes) == [Entry(head.span, head.flag, head.cloned)] + Entries(nodes)
  {
    var all := [head] + nodes;
    forall i | 0 <= i < |all| ensures all[i].prev == At(all, i + 1) {
      if i > 0 { assert all[i] == nodes[i - 1]; }
    }
    forall i, j | 0 <= i < j < |all| ensures all[i] != all[j] {
      assert all[j] == nodes[j - 1];
    }
  }

  // ---- one goroutine's stack ----

  class TraceContext {
    var sw: Wrapper?
    var n: int
    var lcs: Option<Span>
    ghost var nodes: seq<Wrapper>
    ghost const home: Gid  // the goroutine whose slot holds it

    ghost predicate Valid()
      reads this, nodes
    {
      Chain(sw, nodes) && n == |nodes|
    }

    ghost function Contents(): Context<Flag>
      reads this
    {
      Context(Entries(nodes), lcs)
    }

    /** `ended` holds the set flags among those of the stacked wrappers. */
    ghost predicate Agrees(ended: set<Flag>)
      reads this, set w | w in nodes :: w.flag
    {
      forall w :: w in nodes ==> (w.flag.ended <==> w.flag in ended)
    }

    constructor (ghost home: Gid)
      ensures Valid() && nodes == [] && Contents() == Empty() && this.home == home
    {
      sw, n, lcs, nodes := null, 0, None, [];
      this.home := home;
    }

    /** A stack of one wrapper, sharing the flag of another goroutine's wrapper. */
    constructor Cloned(span: Span, flag: Flag, ghost home: Gid)
      ensures Valid() && this.home == home && fresh(nodes) && forall w :: w in nodes ==> w.owner == this
      ensures Contents() == Context([Entry(span, flag, true)], None)
    {
      n, lcs := 1, None;
      this.home := home;
      new;
      var wrapper := new Wrapper(span, null, flag, true, this);
      sw, nodes := wrapper, [wrapper];
    }

    /** Rewires the link to `cur` past it: `sw`, or the `prev` field of `pred`. */
    method Unlink(pred: Wrapper?, cur: Wrapper, ghost i: nat) returns (next: Wrapper?)
      requires Chain(sw, nodes) && i < |nodes| && cur == nodes[i]
      requires pred == if i == 0 then null else nodes[i - 1]
      modifies `sw, `n, `lcs, `nodes, pred
      ensures nodes == RemoveAt(old(nodes), i) && Chain(sw, nodes)
      ensures Entries(nodes) == RemoveAt(old(Entries(nodes)), i)
      ensures forall w :: w in nodes ==> w in old(nodes)
      ensures |nodes| == |old(nodes)| - 1 && n == old(n) - 1 && lcs == old(lcs)
      ensures next == cur.prev == At(nodes, i)
      ensures pred == if i == 0 then null else nodes[i - 1]
    {
      ghost var rest := RemoveAt(nodes, i);
      WithoutNode(nodes, i);
      Next(sw, nodes, i + 1);
      hide Entries, RemoveAt;
      next := cur.prev;
      if pred == null { sw := cur.prev; } else { pred.prev := cur.prev; }
      forall j | 0 <= j < |rest| ensures rest[j].prev == At(rest, j + 1) {
        assert j != i - 1 ==> rest[j] != pred;
      }
      nodes := rest;
      n := n - 1;
    }

    /** The span of the bottom wrapper, found by walking the list. */
    method BottomSpan() returns (r: Option<Span>)
      requires Chain(sw, nodes)
      ensures r == Bottom(Entries(nodes))
    {
      r := None;
      var cur := sw;
      ghost var i := 0;
      while cur != null
        invariant i <= |nodes| && cur == At(nodes, i)
        invariant r == Bottom(Entries(nodes[..i]))
        decreases |nodes| - i
      {
        r := Some(cur.span);
        cur := cur.prev;
        i := i + 1;
      }
      assert nodes[..i] == nodes;
    }

    method Compact(ghost ended: set<Flag>)
      requires Valid() && Agrees(ended)
      modifies `sw, `n, `lcs, `nodes, nodes
      ensures Valid() && forall w :: w in nodes ==> w in old(nodes)
      ensures Contents() == CompactOf(old(Contents()), ended)
      ensures lcs == if nodes == [] then None else Some(nodes[|nodes| - 1].span)
    {
      DropEnded(ended);
      lcs := BottomSpan();
    }

    /** The first loop of `compact`: unlinks every ended wrapper, wherever it is. */
    method DropEnded(ghost ended: set<Flag>)
      requires Valid() && Agrees(ended)
      modifies `sw, `n, `lcs, `nodes, nodes
      ensures Valid() && forall w :: w in nodes ==> w in old(nodes)
      ensures Entries(nodes) == Live(old(Entries(nodes)), ended)
    {
      hide Chain, NoRepeats, Live, RemoveAt, Entries, AllLive;
      var pred: Wrapper? := null;
      var cur := sw;
      ghost var i := 0;
      ghost var all := nodes;
      Next(sw, nodes, 0);
      NoneSeen(Entries(nodes), ended);
      while cur != null
        invariant Valid()
        invariant forall w :: w in all ==> (w.flag.ended <==> w.flag in ended)
        invariant i <= |nodes| && cur == At(nodes, i)
        invariant pred == if i == 0 then null else nodes[i - 1]
        invariant Live(Entries(nodes), ended) == Live(old(Entries(nodes)), ended)
        invariant AllLive(Entries(nodes), i, ended)
        invariant forall w :: w in nodes ==> w in all
        invariant pred == null || pred in old(nodes)
        decreases |nodes| - i
      {
        EntryAt(nodes, i);
        if cur.flag.ended {
          SkipEnded(Entries(nodes), i, ended);
          cur := Unlink(pred, cur, i);
        } else {
          KeepLive(Entries(nodes), i, ended);
          Next(sw, nodes, i + 1);
          pred := cur;
          cur := cur.prev;
          i := i + 1;
        }
      }
      NothingToDrop(Entries(nodes), ended);
    }

    method Tail(ghost ended: set<Flag>) returns (r: Option<Span>)
      requires Valid() && Agrees(ended)
      modifies `sw, `n, `lcs, `nodes
      ensures Valid() && forall w :: w in nodes ==> w in old(nodes)
      ensures Contents() == TailOf(old(Contents()), ended)
      ensures r == Top(Contents())
    {
      while sw != null && sw.flag.ended
        invariant Valid() && Agrees(ended) && lcs == old(lcs)
        invariant Trimmed(Entries(nodes), ended) == Trimmed(old(Entries(nodes)), ended)
        invariant forall w :: w in nodes ==> w in old(nodes)
        decreases |nodes|
      {
        ChainTail(sw, nodes);
        sw := sw.prev;
        n := n - 1;
        nodes := nodes[1..];
      }
      if sw == null {
        lcs := None;
        return None;
      }
      return Some(sw.span);
    }

    /** The capacity check of `add`: compacts a full stack. */
    method MakeRoom(maxSpans: nat, ghost ended: set<Flag>)
      requires Valid() && Agrees(ended)
      modifies `sw, `n, `lcs, `nodes, nodes
      ensures Valid() && forall w :: w in nodes ==> w in old(nodes)
      ensures Contents() == RoomOf(old(Contents()), ended, maxSpans)
    {
      if n >= maxSpans {
        Compact(ended);
      }
    }

    /** The last part of `add`: a new wrapper on top. */
    method Push(span: Span, flag: Flag)
      requires Valid()
      modifies `sw, `n, `lcs, `nodes
      ensures Valid() && |nodes| == 1 + |old(nodes)| && fresh(nodes[0]) && nodes[0].owner == this && nodes[1..] == old(nodes)
      ensures Contents() == PushOf(old(Contents()), span, flag)
      ensures nodes[0].span == span && nodes[0].flag == flag && lcs == if old(nodes) == [] then Some(span) else old(lcs)
    {
      var wrapper := new Wrapper(span, sw, flag, false, this);
      ChainPush(wrapper, nodes);
      if n == 0 {
        lcs := Some(span);
      }
      sw := wrapper;
      n := n + 1;
      nodes := [wrapper] + nodes;
    }

    /** Walks to the topmost wrapper with the given identifiers. */
    method FindNode(key: SpanKey) returns (pred: Wrapper?, cur: Wrapper?, ghost i: nat)
      requires Valid()
      ensures i == Find(Entries(nodes), key)
      ensures cur == At(nodes, Find(Entries(nodes), key))
      ensures pred == var found := Find(Entries(nodes), key); if found == 0 then null else nodes[found - 1]
    {
      pred, cur, i := null, sw, 0;
      while cur != null && cur.span.key != key
        invariant i <= |nodes| && cur == At(nodes, i)
        invariant pred == if i == 0 then null else nodes[i - 1]
        invariant forall j :: 0 <= j < i ==> Entries(nodes)[j].span.key != key
        decreases |nodes| - i
      {
        pred, cur, i := cur, cur.prev, i + 1;
      }
      FindIs(Entries(nodes), key, i);
    }

    /** `del`: unlinks the topmost wrapper with the span's identifiers, marking it ended. */
    method Del(span: Span, ghost flags: set<Flag>)
      requires Valid() && forall w :: w in nodes ==> w.flag in flags
      modifies `sw, `n, `lcs, `nodes, nodes, flags
      ensures Valid() && forall w :: w in nodes ==> w in old(nodes)
      ensures Contents() == DelOf(old(Contents()), span.key)
      ensures EndedIn(flags) == EndedByDel(old(Contents()), old(EndedIn(flags)), span.key)
    {
      DelCases(Contents(), EndedIn(flags), span.key);
      hide DelOf, EndedByDel, EndedIn, RemoveAt, Bottom, Chain;
      if n == 0 {
        return;
      }
      var pred, cur, i := FindNode(span.key);
      if cur != null {
        EntryAt(nodes, i);
        hide Entries;
        assert cur in nodes;
        cur.flag.Set(flags);
        RemoveFound(pred, cur, i);
      }
    }

    /** Unlinks a wrapper and, when it was the bottom one, finds the new local root. */
    method RemoveFound(pred: Wrapper?, cur: Wrapper, ghost i: nat)
      requires Valid() && i < |nodes| && cur == nodes[i]
      requires pred == if i == 0 then null else nodes[i - 1]
      modifies `sw, `n, `lcs, `nodes, pred
      ensures Valid() && forall w :: w in nodes ==> w in old(nodes)
      ensures var entries := RemoveAt(old(Contents()).entries, i);
        Contents() == Context(entries, if i == |entries| then Bottom(entries) else old(lcs))
    {
      var next := Unlink(pred, cur, i);
      if next == null {
        lcs := BottomSpan();
      }
    }

    /** `Clone`: a new stack with at most one wrapper, sharing no list node with this one. */
    method Clone(ghost ended: set<Flag>, ghost home: Gid) returns (r: TraceContext)
      requires Valid() && Agrees(ended)
      modifies `sw, `n, `lcs, `nodes
      ensures Valid() && forall w :: w in nodes ==> w in old(nodes)
      ensures Contents() == TailOf(old(Contents()), ended)
      ensures fresh(r) && fresh(r.nodes) && r.Valid() && r.home == home && forall w :: w in r.nodes ==> w.owner == r
      ensures r.Contents() == CloneOf(Contents())
      ensures r.lcs == None
    {
      var last := Tail(ended);
      if last == None {
        r := new TraceContext(home);
      } else {
        r := new TraceContext.Cloned(last.value, sw.flag, home);
      }
    }

    method Clear()
      modifies `sw, `n, `lcs, `nodes
      ensures Valid() && nodes == [] && Contents() == Empty()
    {
      sw, n, lcs, nodes := null, 0, None, [];
    }
  }

  /** A stack none of whose cells changed is as it was. */
  twostate lemma Untouched(tc: TraceContext)
    requires unchanged(tc) && (forall w :: w in tc.nodes ==> unchanged(w)) && old(tc.Valid())
    ensures tc.Valid() && tc.Contents() == old(tc.Contents())
  {
    forall i | 0 <= i < |tc.nodes| ensures tc.nodes[i].prev == At(tc.nodes, i + 1) {
      assert tc.nodes[i] in tc.nodes;
    }
  }

  lemma DelCases(c: Context<Flag>, ended: set<Flag>, key: SpanKey)
    ensures var i := Find(c.entries, key);
      if i == |c.entries| then DelOf(c, key) == c && EndedByDel(c, ended, key) == ended
      else
        var entries := RemoveAt(c.entries, i);
        && EndedByDel(c, ended, key) == ended + {c.entries[i].flag}
        && DelOf(c, key) == Context(entries, if i == |entries| then Bottom(entries) else c.lcs)
  {
  }

  /** None of the first `n` wrappers has ended. */
  ghost predicate AllLive(entries: seq<Entry<Flag>>, n: nat, ended: set<Flag>) {
    n <= |entries| && forall i :: 0 <= i < n ==> entries[i].flag !in ended
  }

  lemma NoneSeen(entries: seq<Entry<Flag>>, ended: set<Flag>)
    ensures AllLive(entries, 0, ended)
  {
  }

  lemma KeepLive(entries: seq<Entry<Flag>>, i: nat, ended: set<Flag>)
    requires AllLive(entries, i, ended) && i < |entries| && entries[i].flag !in ended
    ensures AllLive(entries, i + 1, ended)
  {
  }

  lemma SkipEnded(entries: seq<Entry<Flag>>, i: nat, ended: set<Flag>)
    requires i < |entries| && entries[i].flag in ended && AllLive(entries, i, ended)
    ensures Live(RemoveAt(entries, i), ended) == Live(entries, ended)
    ensures AllLive(RemoveAt(entries, i), i, ended)
  {
    LiveAfterRemovingEnded(entries, i, ended);
  }

  lemma {:induction false} NothingToDrop(entries: seq<Entry<Flag>>, ended: set<Flag>)
    requires AllLive(entries, |entries|, ended)
    ensures Live(entries, ended) == entries
  {
    if entries != [] {
      NothingToDrop(entries[1..], ended);
    }
  }

  lemma {:induction false} FindIs(entries: seq<Entry<Flag>>, key: SpanKey, i: nat)
    requires i <= |entries|
    requires forall j :: 0 <= j < i ==> entries[j].span.key != key
    requires i < |entries| ==> entries[i].span.key == key
    ensures Find(entries, key) == i
  {
    var k := Find(entries, key);
    if k < i { assert false; }
  }
}
