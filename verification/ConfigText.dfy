/** The decision on the texts of the three variables themselves. */
module ConfigText {
  import opened Utf8
  import opened GoBytes
  import opened ConfigCache

  /** ASCII capitals as small letters. */
  function Folded(s: Bytes): (r: Bytes)
    ensures |r| == |s| && forall i :: 0 <= i < |r| ==> r[i] == if 0x41 <= s[i] <= 0x5A then s[i] + 0x20 else s[i]
  {
    seq(|s|, i requires 0 <= i < |s| => if 0x41 <= s[i] <= 0x5A then s[i] + 0x20 else s[i])
  }

  lemma TrueIff(s: Bytes)
    ensures IsTrue(s) <==> Folded(s) == [0x74, 0x72, 0x75, 0x65]
  {
    var t := Folded(s);
    assert |t| == 4 ==> t == [t[0], t[1], t[2], t[3]];
  }

  /** The part stands in the list between commas, or between a comma and an end. */
  ghost predicate IsPart(list: Bytes, part: Bytes) {
    exists i, j :: 0 <= i <= j <= |list| && StandsAt(list, part, i, j)
  }

  ghost predicate StandsAt(list: Bytes, part: Bytes, i: nat, j: nat)
    requires i <= j <= |list|
  {
    && list[i..j] == part && 0x2C !in part
    && (i == 0 || list[i - 1] == 0x2C) && (j == |list| || list[j] == 0x2C)
  }

  lemma {:induction false} PartsAre(list: Bytes, part: Bytes)
    ensures part in SplitCommas(list) <==> IsPart(list, part)
    decreases |list|
  {
    hide IndexByte, IsPart;
    var comma := IndexByte(list, COMMA);
    if comma < 0 {
      OnlyPart(list, part);
    } else {
      var first, rest := list[..comma], list[comma + 1..];
      assert list == first + [0x2C] + rest;
      PartsAre(rest, part);
      FirstPart(first, rest, part);
    }
  }

  lemma OnlyPart(list: Bytes, part: Bytes)
    requires 0x2C !in list
    ensures IsPart(list, part) <==> part == list
  {
    assert list[0..|list|] == list;
    assert part == list ==> StandsAt(list, part, 0, |list|);
    assert forall k :: 0 <= k < |list| ==> list[k] in list;
    forall i, j | 0 <= i <= j <= |list| && StandsAt(list, part, i, j)
      ensures i == 0 && j == |list|
    {
    }
  }

  lemma FirstPart(first: Bytes, rest: Bytes, part: Bytes)
    requires 0x2C !in first
    ensures IsPart(first + [0x2C] + rest, part) <==> part == first || IsPart(rest, part)
  {
    var list := first + [0x2C] + rest;
    var n := |first|;
    assert list[0..n] == first && list[n] == 0x2C && list[n + 1..] == rest;
    assert part == first ==> StandsAt(list, part, 0, n);
    forall i, j | 0 <= i <= j <= |rest| && StandsAt(rest, part, i, j)
      ensures IsPart(list, part)
    {
      assert list[n + 1 + i..n + 1 + j] == rest[i..j];
      assert i > 0 ==> list[n + i] == rest[i - 1];
      assert j < |rest| ==> list[n + 1 + j] == rest[j];
      assert StandsAt(list, part, n + 1 + i, n + 1 + j);
    }
    forall i, j | 0 <= i <= j <= |list| && StandsAt(list, part, i, j)
      ensures part == first || IsPart(rest, part)
    {
      InFront(first, rest, part, i, j);
    }
  }

  lemma PartBehind(list: Bytes, n: nat, part: Bytes, i: nat, j: nat)
    requires n < i <= j <= |list| && StandsAt(list, part, i, j) && list[n] == 0x2C
    ensures IsPart(list[n + 1..], part)
  {
    var rest, a, b := list[n + 1..], i - n - 1, j - n - 1;
    assert rest[a..b] == list[i..j];
    assert StandsAt(rest, part, a, b);
  }

  lemma InFront(first: Bytes, rest: Bytes, part: Bytes, i: nat, j: nat)
    requires 0x2C !in first && i <= j <= |first + [0x2C] + rest| && StandsAt(first + [0x2C] + rest, part, i, j)
    ensures part == first || IsPart(rest, part)
  {
    var list := first + [0x2C] + rest;
    var n := |first|;
    assert forall k :: 0 <= k < n ==> list[k] == first[k] && first[k] in first;
    assert forall k :: i <= k < j ==> list[k] == part[k - i] && part[k - i] in part;
    assert list[n] == 0x2C;
    if i == 0 {
      assert j == n && list[0..n] == first;
    } else {
      assert i > n && list[n + 1..] == rest;
      PartBehind(list, n, part, i, j);
      hide IsPart;
    }
  }

  lemma {:induction false} ItemsAre(lower: Lower, parts: seq<Bytes>, x: Bytes)
    ensures x in ItemsOf(lower, parts) <==> x != [] && exists part :: part in parts && TrimSpace(lower(part)) == x
    decreases |parts|
  {
    hide TrimSpace;
    if parts != [] {
      var front, last := parts[..|parts| - 1], parts[|parts| - 1];
      assert parts == front + [last];
      ItemsAre(lower, front, x);
    }
  }

  /** The list names an instrumentation, as a part of it in small letters without the white space
      around it. */
  ghost predicate Names(lower: Lower, list: Bytes, x: Bytes) {
    x != [] && exists part :: IsPart(list, part) && TrimSpace(lower(part)) == x
  }

  lemma InItems(lower: Lower, list: Bytes, x: Bytes)
    ensures x in Items(lower, list) <==> Names(lower, list, x)
  {
    ItemsAre(lower, SplitCommas(list), x);
    forall part
      ensures part in SplitCommas(list) <==> IsPart(list, part)
    {
      PartsAre(list, part);
    }
    hide IsPart, SplitCommas, ItemsOf, TrimSpace;
  }

  /** An instrumentation is on exactly when the first variable is not "true" in any mixture of cases,
      the second names it or names nothing at all, and the third does not name it. */
  lemma DecisionIff(lower: Lower, env: Env, name: Bytes)
    ensures Decision(lower, env, name) <==>
      && Folded(env.sdkDisabled) != [0x74, 0x72, 0x75, 0x65]
      && ((forall x :: !Names(lower, env.enabled, x)) || Names(lower, env.enabled, lower(name)))
      && !Names(lower, env.disabled, lower(name))
  {
    TrueIff(env.sdkDisabled);
    var items := Items(lower, env.enabled);
    forall x
      ensures x in items <==> Names(lower, env.enabled, x)
    {
      InItems(lower, env.enabled, x);
    }
    InItems(lower, env.disabled, lower(name));
    assert items != [] ==> items[0] in items;
    hide Items, Names, IsTrue, Folded;
  }

  /** Exactly the mixtures of cases of "true" switch everything off, whatever the lists say. */
  lemma TrueDisablesAll(lower: Lower, enabled: Bytes, disabled: Bytes, sdkDisabled: Bytes)
    ensures Folded(sdkDisabled) == [0x74, 0x72, 0x75, 0x65] ==> forall name :: !Decision(lower, Env(sdkDisabled, enabled, disabled), name)
    ensures Folded(sdkDisabled) != [0x74, 0x72, 0x75, 0x65] ==>
              forall name :: Decision(lower, Env(sdkDisabled, enabled, disabled), name) == Decision(lower, Env([], enabled, disabled), name)
  {
    TrueIff(sdkDisabled);
    hide Items, Folded;
  }
}
