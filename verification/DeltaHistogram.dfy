/** Runtime histograms are read as cumulative counts and passed on as increments. */
module DeltaHistogram {
  import opened Common

  /** A bucket boundary; the outer ones may be infinite. */
  datatype Bound = NegInf | Finite(r: real) | PosInf

  /** `b > math.MaxFloat64 || b < 0` is false. */
  predicate Tracked(b: Bound) { b.Finite? && b.r >= 0.0 }

  function Scaled(b: Bound, multiple: int): Bound {
    if b.Finite? then Finite(b.r * multiple as real)
    else if multiple == 0 then Finite(0.0)
    else if (multiple > 0) == b.PosInf? then PosInf
    else NegInf
  }

  /** A sample: bucket i counts the values from boundary i up to boundary i + 1. */
  datatype Histogram = Histogram(counts: seq<nat>, bounds: seq<Bound>) {
    predicate Valid() { |bounds| == |counts| + 1 && forall i :: 0 <= i < |counts| ==> counts[i] < 0x1_0000_0000_0000_0000 }
  }

  // ---- 64-bit arithmetic ----

  const TWO64: int := 0x1_0000_0000_0000_0000
  const TWO63: int := 0x8000_0000_0000_0000

  /** The signed 64-bit value with the same bits. */
  function ToInt64(x: int): (r: int)
    ensures -0x8000_0000_0000_0000 <= r < 0x8000_0000_0000_0000 && (r - x) % 0x1_0000_0000_0000_0000 == 0
    ensures -0x8000_0000_0000_0000 <= x < 0x8000_0000_0000_0000 ==> r == x
  {
    var m := x % TWO64;
    if m < TWO63 then m else m - TWO64
  }

  // ---- the meter's state ----

  datatype Observation = Observation(value: Bound, count: int)

  /** `latest` is nil before the first histogram is seen. */
  datatype State = State(start: nat, latest: Option<seq<int>>)

  /** The leading boundaries that are not tracked. */
  function StartIndex(bounds: seq<Bound>): (n: nat)
    ensures n <= |bounds| && (forall i :: 0 <= i < n ==> !Tracked(bounds[i])) && (n < |bounds| ==> Tracked(bounds[n]))
  {
    if bounds == [] || Tracked(bounds[0]) then 0 else 1 + StartIndex(bounds[1..])
  }

  function TrackedCount(bounds: seq<Bound>): (n: nat)
    ensures n <= |bounds|
  {
    if bounds == [] then 0 else (if Tracked(bounds[|bounds| - 1]) then 1 else 0) + TrackedCount(bounds[..|bounds| - 1])
  }

  /** The boundaries a new histogram is created with. */
  function ScaledBounds(bounds: seq<Bound>, multiple: int): seq<Bound> {
    if bounds == [] then []
    else
      var last := bounds[|bounds| - 1];
      ScaledBounds(bounds[..|bounds| - 1], multiple) + if Tracked(last) then [Scaled(last, multiple)] else []
  }

  /** `initHistogramIfNeeds` */
  function Initialised(st: State, bounds: seq<Bound>): State {
    if st.latest.Some? then st
    else State(StartIndex(bounds), Some(seq(TrackedCount(bounds), _ => 0)))
  }

  /** The new latest value of a bucket, and what is passed on. */
  function Increment(latest: int, count: nat): int { ToInt64(ToInt64(count) - latest) }

  function NewLatest(latest: int, count: nat): int { if Increment(latest, count) > 0 then ToInt64(count) else latest }

  predicate Reached(st: State, h: Histogram, i: nat)
    requires st.latest.Some?
  {
    st.start <= i < |st.latest.value| && i < |h.counts|
  }

  function LatestAfter(st: State, h: Histogram): seq<int>
    requires st.latest.Some?
  {
    var l := st.latest.value;
    seq(|l|, i requires 0 <= i < |l| => if Reached(st, h, i) then NewLatest(l[i], h.counts[i]) else l[i])
  }

  /** What bucket i passes on, none or one observation. */
  function ObservedAt(st: State, h: Histogram, multiple: int, i: nat): seq<Observation>
    requires st.latest.Some? && |h.bounds| == |h.counts| + 1
  {
    if Reached(st, h, i) && Increment(st.latest.value[i], h.counts[i]) > 0
    then [Observation(Scaled(h.bounds[i], multiple), Increment(st.latest.value[i], h.counts[i]))]
    else []
  }

  function ObservedTo(st: State, h: Histogram, multiple: int, n: nat): seq<Observation>
    requires st.latest.Some? && |h.bounds| == |h.counts| + 1
  {
    if n == 0 then [] else ObservedTo(st, h, multiple, n - 1) + ObservedAt(st, h, multiple, n - 1)
  }

  class Meter {
    const multiple: int
    var start: nat
    var latest: array?<int>
    var buckets: seq<Bound>               // the boundaries of the created histogram
    ghost var observed: seq<Observation>  // what was passed to the histogram

    ghost function Abs(): State
      reads this, latest
    {
      State(start, if latest == null then None else Some(latest[..]))
    }

    constructor (multiple: int)
      ensures this.multiple == multiple && Abs() == State(0, None) && observed == []
    {
      this.multiple, start, latest, buckets, observed := multiple, 0, null, [], [];
    }

    method InitHistogramIfNeeds(h: Histogram)
      modifies this
      ensures Abs() == Initialised(old(Abs()), h.bounds) && observed == old(observed)
      ensures latest == old(latest) || fresh(latest)
      ensures buckets == if old(latest) == null then ScaledBounds(h.bounds, multiple) else old(buckets)
    {
      if latest != null {
        return;
      }
      var startInx, tracked := 0, 0;
      var scaled: seq<Bound> := [];
      var hasAdded := false;
      for i := 0 to |h.bounds|
        invariant tracked == TrackedCount(h.bounds[..i]) && scaled == ScaledBounds(h.bounds[..i], multiple)
        invariant hasAdded ==> startInx == StartIndex(h.bounds) && startInx < i
        invariant !hasAdded ==> startInx == i && forall k :: 0 <= k < i ==> !Tracked(h.bounds[k])
      {
        assert h.bounds[..i + 1][..i] == h.bounds[..i];
        if !Tracked(h.bounds[i]) {
          if !hasAdded {
            startInx := startInx + 1;
          }
        } else {
          hasAdded := true;
          scaled := scaled + [Scaled(h.bounds[i], multiple)];
          tracked := tracked + 1;
        }
      }
      assert h.bounds[..|h.bounds|] == h.bounds;
      start, buckets := startInx, scaled;
      latest := new int[tracked](_ => 0);
      assert latest[..] == seq(TrackedCount(h.bounds), _ => 0);
    }

    /** A sample that is no histogram changes nothing. */
    method UpdateMetricValue(sample: Option<Histogram>)
      requires sample.Some? ==> sample.value.Valid()
      modifies this, latest
      ensures latest == old(latest) || fresh(latest)
      ensures sample.None? ==> Abs() == old(Abs()) && observed == old(observed)
      ensures sample.Some? ==>
                var st := Initialised(old(Abs()), sample.value.bounds);
                && Abs() == State(st.start, Some(LatestAfter(st, sample.value)))
                && observed == old(observed) + ObservedTo(st, sample.value, multiple, |sample.value.counts|)
    {
      if sample.None? {
        return;
      }
      var h := sample.value;
      InitHistogramIfNeeds(h);
      Emit(h);
    }

    method Emit(h: Histogram)
      requires h.Valid() && latest != null
      modifies this`observed, latest
      ensures Abs() == State(old(start), Some(LatestAfter(old(Abs()), h)))
      ensures observed == old(observed) + ObservedTo(old(Abs()), h, multiple, |h.counts|)
    {
      hide *;
      ghost var st := Abs();
      AbsIs();
      StepAt(st, h, multiple, 0);
      var i := 0;
      while i < |h.counts|
        invariant 0 <= i <= |h.counts|
        invariant forall k :: 0 <= k < latest.Length ==> latest[k] == if k < i then LatestAfter(st, h)[k] else st.latest.value[k]
        invariant observed == old(observed) + ObservedTo(st, h, multiple, i)
      {
        StepAt(st, h, multiple, i);
        if i >= start {
          if i >= latest.Length {
            NothingBeyond(st, h, multiple, i, |h.counts|);
            break;
          }
          var newest := ToInt64(h.counts[i]);
          var add := ToInt64(newest - latest[i]);
          if add > 0 {
            observed := observed + [Observation(Scaled(h.bounds[i], multiple), add)];
            latest[i] := newest;
          }
        }
        i := i + 1;
      }
      LatestBeyond(st, h, i);
      assert latest[..] == LatestAfter(st, h);
      AbsIs();
    }

    lemma AbsIs()
      ensures latest != null ==> Abs() == State(start, Some(latest[..]))
    {
    }
  }

  lemma StepAt(st: State, h: Histogram, multiple: int, i: nat)
    requires st.latest.Some? && h.Valid() && i <= |h.counts|
    ensures |h.bounds| == |h.counts| + 1 && |LatestAfter(st, h)| == |st.latest.value| && ObservedTo(st, h, multiple, 0) == []
    ensures i < |h.counts| && i < |st.latest.value| && st.start <= i ==>
              var add := ToInt64(ToInt64(h.counts[i]) - st.latest.value[i]);
              && ObservedTo(st, h, multiple, i + 1)
                 == ObservedTo(st, h, multiple, i) + (if add > 0 then [Observation(Scaled(h.bounds[i], multiple), add)] else [])
              && LatestAfter(st, h)[i] == if add > 0 then ToInt64(h.counts[i]) else st.latest.value[i]
    ensures !(st.start <= i < |st.latest.value|) ==> ObservedTo(st, h, multiple, i + 1) == ObservedTo(st, h, multiple, i)
    ensures i < st.start && i < |st.latest.value| ==> LatestAfter(st, h)[i] == st.latest.value[i]
  {
    hide ToInt64, Scaled;
  }

  /** Where the loop has not come, the latest counts stay. */
  lemma LatestBeyond(st: State, h: Histogram, n: nat)
    requires st.latest.Some? && (n == |h.counts| || n >= |st.latest.value|)
    ensures forall k :: n <= k < |st.latest.value| ==> LatestAfter(st, h)[k] == st.latest.value[k]
    ensures |LatestAfter(st, h)| == |st.latest.value|
  {
  }

  lemma {:induction false} NothingBeyond(st: State, h: Histogram, multiple: int, i: nat, n: nat)
    requires st.latest.Some? && |h.bounds| == |h.counts| + 1 && |st.latest.value| <= i <= n
    ensures ObservedTo(st, h, multiple, n) == ObservedTo(st, h, multiple, i)
    decreases n
  {
    if n > i { NothingBeyond(st, h, multiple, i, n - 1); }
  }

  // ---- one sample and one layout, spelled out ----

  /** Which boundaries count: those that are finite and not negative. The start index is that of the
      first of them. */
  lemma StartIsFirstTracked(bounds: seq<Bound>)
    ensures var n := StartIndex(bounds);
      && n <= |bounds| && (n < |bounds| ==> bounds[n].Finite? && bounds[n].r >= 0.0)
      && forall i :: 0 <= i < n ==> !(bounds[i].Finite? && bounds[i].r >= 0.0)
  {
  }

  /** Their number, and what the new histogram's boundaries are: each of them times the multiple, in
      order, whatever stands between them. */
  lemma {:induction false} LayoutsAddUp(a: seq<Bound>, b: seq<Bound>, multiple: int)
    ensures TrackedCount(a + b) == TrackedCount(a) + TrackedCount(b)
    ensures ScaledBounds(a + b, multiple) == ScaledBounds(a, multiple) + ScaledBounds(b, multiple)
    decreases |b|
  {
    if b == [] {
      assert a + b == a;
      assert ScaledBounds(a, multiple) + [] == ScaledBounds(a, multiple);
    } else {
      var front := b[..|b| - 1];
      LayoutsAddUp(a, front, multiple);
      assert (a + b)[..|a + b| - 1] == a + front && (a + b)[|a + b| - 1] == b[|b| - 1];
    }
  }

  lemma OneBoundary(b: Bound, multiple: int)
    ensures TrackedCount([b]) == (if b.Finite? && b.r >= 0.0 then 1 else 0)
    ensures ScaledBounds([b], multiple) == if b.Finite? && b.r >= 0.0 then [Finite(b.r * multiple as real)] else []
  {
    var one := [b];
    assert one[..0] == [];
  }

  /** What a bucket passes on of one sample: its boundary times the multiple, with the difference to
      the count seen before, where that grew; the larger count is kept. Buckets before the start
      index or behind the latest counts pass nothing on. */
  lemma SampleLooks(st: State, h: Histogram, multiple: int, i: nat)
    requires st.latest.Some? && h.Valid() && i < |h.counts| && h.counts[i] < 0x8000_0000_0000_0000
    requires i < |st.latest.value| ==> 0 <= st.latest.value[i] < 0x8000_0000_0000_0000
    ensures var l := st.latest.value;
      ObservedAt(st, h, multiple, i) ==
        if st.start <= i < |l| && h.counts[i] > l[i] then
          [Observation(if h.bounds[i].Finite? then Finite(h.bounds[i].r * multiple as real)
                       else if multiple == 0 then Finite(0.0)
                       else if (multiple > 0) == h.bounds[i].PosInf? then PosInf
                       else NegInf,
                       h.counts[i] - l[i])]
        else []
    ensures var l := st.latest.value;
      |LatestAfter(st, h)| == |l|
      && (i < |l| ==> LatestAfter(st, h)[i] == if st.start <= i && h.counts[i] > l[i] then h.counts[i] else l[i])
  {
  }

  /** Finite values in ascending order, none above the given one. */
  ghost predicate Ascend(os: seq<Observation>, top: real) {
    && (forall k :: 0 <= k < |os| ==> os[k].value.Finite? && os[k].value.r <= top)
    && (forall k, m :: 0 <= k < m < |os| ==> os[k].value.r < os[m].value.r)
  }

  lemma AscendOn(os: seq<Observation>, low: real, more: seq<Observation>, top: real)
    requires os == [] || (Ascend(os, low) && low < top)
    requires more == [] || (|more| == 1 && more[0].value == Finite(top))
    ensures Ascend(os + more, top)
  {
    var all := os + more;
    assert forall k :: 0 <= k < |all| ==> all[k] == if k < |os| then os[k] else more[k - |os|];
  }

  /** The observations of a sample stand in the order of the buckets: with finite boundaries that
      ascend and a positive multiple, their values ascend. */
  lemma {:induction false} ValuesAscend(st: State, h: Histogram, multiple: int, n: nat)
    requires st.latest.Some? && h.Valid() && 0 < n <= |h.counts| && multiple > 0
    requires forall i :: 0 <= i < n ==> h.bounds[i].Finite?
    requires forall i, j :: 0 <= i < j < n ==> h.bounds[i].r < h.bounds[j].r
    ensures Ascend(ObservedTo(st, h, multiple, n), h.bounds[n - 1].r * multiple as real)
    decreases n
  {
    var low := if n > 1 then h.bounds[n - 2].r * multiple as real else 0.0;
    var top := h.bounds[n - 1].r * multiple as real;
    if n > 1 {
      ValuesAscend(st, h, multiple, n - 1);
      Grows(h.bounds[n - 2].r, h.bounds[n - 1].r, multiple as real);
    }
    ObservedOnce(st, h, multiple, n - 1);
    var before := ObservedTo(st, h, multiple, n - 1);
    assert n == 1 ==> before == [];
    assert ObservedTo(st, h, multiple, n) == before + ObservedAt(st, h, multiple, n - 1);
    hide *;
    AscendOn(before, low, ObservedAt(st, h, multiple, n - 1), top);
  }

  lemma ObservedOnce(st: State, h: Histogram, multiple: int, i: nat)
    requires st.latest.Some? && h.Valid() && i < |h.counts| && h.bounds[i].Finite?
    ensures var os := ObservedAt(st, h, multiple, i);
      os == [] || (|os| == 1 && os[0].value == Finite(h.bounds[i].r * multiple as real))
  {
    hide Increment;
  }

  lemma Grows(a: real, b: real, m: real)
    requires a < b && m > 0.0
    ensures a * m < b * m
  {
    assert (b - a) * m > 0.0;
  }

  /** The largest count is one of those sampled, or zero when there are none, and no sampled count
      is larger. */
  lemma {:induction false} MaxIsLargest(hs: seq<Histogram>, i: nat)
    requires forall h :: h in hs ==> i < |h.counts|
    ensures forall h :: h in hs ==> h.counts[i] <= MaxCount(hs, i)
    ensures MaxCount(hs, i) == 0 || exists h :: h in hs && h.counts[i] == MaxCount(hs, i)
    decreases |hs|
  {
    if hs != [] {
      var front, last := hs[..|hs| - 1], hs[|hs| - 1];
      assert hs == front + [last];
      MaxIsLargest(front, i);
    }
  }

  // ---- over a run ----

  /** Samples of one histogram keep its layout. */
  predicate SameLayout(hs: seq<Histogram>, bounds: seq<Bound>) {
    forall h :: h in hs ==> h.Valid() && h.bounds == bounds
  }

  function Run(hs: seq<Histogram>): State {
    if hs == [] then State(0, None)
    else
      var h := hs[|hs| - 1];
      var st := Initialised(Run(hs[..|hs| - 1]), h.bounds);
      State(st.start, Some(LatestAfter(st, h)))
  }

  function Count(os: seq<Observation>): int { if os == [] then 0 else os[0].count + Count(os[1..]) }

  /** Everything that bucket i passes on over the samples. */
  function PassedOn(hs: seq<Histogram>, multiple: int, i: nat): int
    requires forall h :: h in hs ==> h.Valid()
  {
    if hs == [] then 0
    else
      var h := hs[|hs| - 1];
      assert h in hs && h.Valid();
      PassedOn(hs[..|hs| - 1], multiple, i) + Count(ObservedAt(Initialised(Run(hs[..|hs| - 1]), h.bounds), h, multiple, i))
  }

  /** The largest cumulative count sampled for bucket i. */
  function MaxCount(hs: seq<Histogram>, i: nat): nat
    requires forall h :: h in hs ==> i < |h.counts|
  {
    if hs == [] then 0
    else
      var before, now := MaxCount(hs[..|hs| - 1], i), hs[|hs| - 1].counts[i];
      if now > before then now else before
  }

  lemma {:induction false} RunKeepsLayout(hs: seq<Histogram>, bounds: seq<Bound>)
    requires hs != [] && SameLayout(hs, bounds)
    ensures var st := Run(hs);
      st.start == StartIndex(bounds) && st.latest.Some? && |st.latest.value| == TrackedCount(bounds)
    decreases |hs|
  {
    if |hs| > 1 { RunKeepsLayout(hs[..|hs| - 1], bounds); }
  }

  /** Before a sample, the meter is set up for the layout. */
  lemma ReadyForSample(hs: seq<Histogram>, bounds: seq<Bound>)
    requires SameLayout(hs, bounds)
    ensures var st := Initialised(Run(hs), bounds);
      && st.start == StartIndex(bounds) && st.latest.Some? && |st.latest.value| == TrackedCount(bounds)
      && (hs == [] ==> forall k :: 0 <= k < |st.latest.value| ==> st.latest.value[k] == 0)
      && (hs != [] ==> st == Run(hs))
  {
    if hs != [] { RunKeepsLayout(hs, bounds); }
  }

  /** The buckets that pass anything on. */
  predicate Emits(bounds: seq<Bound>, i: nat) { StartIndex(bounds) <= i < TrackedCount(bounds) }

  lemma {:induction false} BucketFollowsMaximum(hs: seq<Histogram>, bounds: seq<Bound>, multiple: int, i: nat)
    requires SameLayout(hs, bounds) && Emits(bounds, i)
    requires forall h :: h in hs ==> i < |h.counts| && h.counts[i] < TWO63
    ensures MaxCount(hs, i) < TWO63
    ensures PassedOn(hs, multiple, i) == MaxCount(hs, i)
    ensures var st := Initialised(Run(hs), bounds); st.latest.Some? && i < |st.latest.value| && st.latest.value[i] == MaxCount(hs, i)
    decreases |hs|
  {
    ReadyForSample(hs, bounds);
    if hs != [] {
      var front, h := hs[..|hs| - 1], hs[|hs| - 1];
      assert h in hs;
      BucketFollowsMaximum(front, bounds, multiple, i);
      ReadyForSample(front, bounds);
      var st := Initialised(Run(front), bounds);
      OneIncrement(st, h, multiple, i);
    }
  }

  /** With counts in range the increment is the plain difference. */
  lemma OneIncrement(st: State, h: Histogram, multiple: int, i: nat)
    requires st.latest.Some? && |h.bounds| == |h.counts| + 1 && Reached(st, h, i) && h.counts[i] < TWO63 && 0 <= st.latest.value[i] < TWO63
    ensures var before, now := st.latest.value[i], h.counts[i];
      && Count(ObservedAt(st, h, multiple, i)) == (if now > before then now - before else 0)
      && LatestAfter(st, h)[i] == if now > before then now else before
  {
    var os := ObservedAt(st, h, multiple, i);
    assert os != [] ==> os[1..] == [];
  }

  lemma {:induction false} OtherBucketsAreSilent(hs: seq<Histogram>, bounds: seq<Bound>, multiple: int, i: nat)
    requires SameLayout(hs, bounds) && !Emits(bounds, i)
    ensures PassedOn(hs, multiple, i) == 0
    decreases |hs|
  {
    if hs != [] {
      assert hs[|hs| - 1] in hs;
      OtherBucketsAreSilent(hs[..|hs| - 1], bounds, multiple, i);
      ReadyForSample(hs[..|hs| - 1], bounds);
    }
  }

  /** A bucket with a tracked boundary passes on exactly the largest count sampled for it if
      and only if its index is below the number of tracked boundaries, or that count is zero:
      the array of latest counts has a slot per tracked boundary but is indexed from the start
      of all of them. */
  lemma ConservedIff(hs: seq<Histogram>, bounds: seq<Bound>, multiple: int, i: nat)
    requires SameLayout(hs, bounds) && i < |bounds| && bounds[i].Finite? && bounds[i].r >= 0.0
    requires forall h :: h in hs ==> i < |h.counts| && h.counts[i] < TWO63
    ensures PassedOn(hs, multiple, i) == MaxCount(hs, i) <==> i < TrackedCount(bounds) || MaxCount(hs, i) == 0
  {
    if Emits(bounds, i) {
      BucketFollowsMaximum(hs, bounds, multiple, i);
    } else {
      OtherBucketsAreSilent(hs, bounds, multiple, i);
    }
  }

  /** Counts that never decrease: the largest is the latest. */
  lemma {:induction false} CumulativeMaximum(hs: seq<Histogram>, i: nat)
    requires hs != [] && forall h :: h in hs ==> i < |h.counts|
    requires forall j, k :: 0 <= j < k < |hs| ==> hs[j].counts[i] <= hs[k].counts[i]
    ensures MaxCount(hs, i) == hs[|hs| - 1].counts[i]
    decreases |hs|
  {
    if |hs| > 1 { CumulativeMaximum(hs[..|hs| - 1], i); }
  }

  /** Whatever the counts, even beyond the signed range, what was passed on agrees with the
      latest count kept modulo 2 to the 64. */
  lemma {:induction false} PassedOnModulo(hs: seq<Histogram>, bounds: seq<Bound>, multiple: int, i: nat)
    requires SameLayout(hs, bounds) && Emits(bounds, i) && forall h :: h in hs ==> i < |h.counts|
    ensures var st := Initialised(Run(hs), bounds);
      st.latest.Some? && i < |st.latest.value| && (PassedOn(hs, multiple, i) - st.latest.value[i]) % TWO64 == 0
    decreases |hs|
  {
    hide ToInt64, Run, PassedOn, LatestAfter, ObservedAt, Initialised, Count;
    ReadyForSample(hs, bounds);
    NothingPassed(multiple, i);
    if hs != [] {
      var front, h := hs[..|hs| - 1], hs[|hs| - 1];
      assert h in hs;
      PassedOnModulo(front, bounds, multiple, i);
      ReadyForSample(front, bounds);
      var st := Initialised(Run(front), bounds);
      IncrementModulo(st, h, multiple, i, PassedOn(front, multiple, i));
      LastSample(hs, bounds, multiple, i);
    }
  }

  lemma NothingPassed(multiple: int, i: nat)
    ensures PassedOn([], multiple, i) == 0
  {
  }

  lemma LastSample(hs: seq<Histogram>, bounds: seq<Bound>, multiple: int, i: nat)
    requires SameLayout(hs, bounds) && hs != []
    ensures var front, h := hs[..|hs| - 1], hs[|hs| - 1];
      var st := Initialised(Run(front), bounds);
      && h.Valid() && h.bounds == bounds && SameLayout(front, bounds) && st.latest.Some?
      && PassedOn(hs, multiple, i) == PassedOn(front, multiple, i) + Count(ObservedAt(st, h, multiple, i))
      && Initialised(Run(hs), bounds).latest == Some(LatestAfter(st, h))
  {
    hide ObservedAt, LatestAfter;
    assert hs[|hs| - 1] in hs;
  }

  lemma IncrementModulo(st: State, h: Histogram, multiple: int, i: nat, total: int)
    requires st.latest.Some? && |h.bounds| == |h.counts| + 1 && Reached(st, h, i) && (total - st.latest.value[i]) % TWO64 == 0
    ensures (total + Count(ObservedAt(st, h, multiple, i)) - LatestAfter(st, h)[i]) % TWO64 == 0
  {
    hide ToInt64;
    var before, newest := st.latest.value[i], ToInt64(h.counts[i]);
    var os := ObservedAt(st, h, multiple, i);
    assert os != [] ==> os[1..] == [];
    SumOfCongruent(total, before, ToInt64(newest - before), newest);
  }

  lemma SumOfCongruent(total: int, latest: int, add: int, newest: int)
    requires (total - latest) % TWO64 == 0 && (add - (newest - latest)) % TWO64 == 0
    ensures (total + add - newest) % TWO64 == 0
  {
    var a, b := (total - latest) / TWO64, (add - (newest - latest)) / TWO64;
    assert total + add - newest == (a + b) * TWO64;
  }

  /** A layout like the scheduler latencies', with an infinite first boundary: the count of the
      last bucket is never passed on. */
  lemma LastBucketIsLost()
    ensures var h := Histogram([0, 5, 7], [NegInf, Finite(0.0), Finite(1.0), PosInf]);
      && h.Valid() && Tracked(h.bounds[2]) && MaxCount([h], 2) == 7
      && PassedOn([h], 1, 1) == 5 && PassedOn([h], 1, 2) == 0
  {
    var bounds := [NegInf, Finite(0.0), Finite(1.0), PosInf];
    var h := Histogram([0, 5, 7], bounds);
    assert bounds[..3] == [NegInf, Finite(0.0), Finite(1.0)] && bounds[..3][..2] == [NegInf, Finite(0.0)];
    assert bounds[..3][..2][..1] == [NegInf] && bounds[..3][..2][..1][..0] == [];
    assert TrackedCount([]) == 0 && TrackedCount([NegInf]) == 0;
    assert TrackedCount([NegInf, Finite(0.0)]) == 1;
    assert TrackedCount([NegInf, Finite(0.0), Finite(1.0)]) == 2;
    assert TrackedCount(bounds) == 2;
    assert [h][..0] == [];
    assert MaxCount([], 1) == 0 && MaxCount([], 2) == 0;
    assert MaxCount([h], 1) == 5 && MaxCount([h], 2) == 7;
    ConservedIff([h], bounds, 1, 1);
    OtherBucketsAreSilent([h], bounds, 1, 2);
  }

  // ---- all buckets together ----

  /** Everything passed on over the samples, in order. */
  function RunObserved(hs: seq<Histogram>, multiple: int): seq<Observation>
    requires forall h :: h in hs ==> h.Valid()
  {
    if hs == [] then []
    else
      var h := hs[|hs| - 1];
      assert h in hs && h.Valid();
      RunObserved(hs[..|hs| - 1], multiple) + ObservedTo(Initialised(Run(hs[..|hs| - 1]), h.bounds), h, multiple, |h.counts|)
  }

  /** Feeding samples to a new meter leaves the state and the observations of the run. */
  method Replay(hs: seq<Histogram>, multiple: int) returns (meter: Meter)
    requires forall h :: h in hs ==> h.Valid()
    ensures fresh(meter) && meter.observed == RunObserved(hs, multiple)
    ensures meter.Abs() == Run(hs)
  {
    meter := new Meter(multiple);
    assert hs[..0] == [];
    for k := 0 to |hs|
      invariant fresh(meter) && (meter.latest != null ==> fresh(meter.latest)) && meter.multiple == multiple
      invariant meter.Abs() == Run(hs[..k]) && meter.observed == RunObserved(hs[..k], multiple)
    {
      assert hs[..k + 1][..k] == hs[..k];
      assert hs[k] in hs;
      meter.UpdateMetricValue(Some(hs[k]));
    }
    assert hs[..|hs|] == hs;
  }

  /** The sum of the largest counts of the buckets that pass anything on, among the first n. */
  function SumOfMaxima(hs: seq<Histogram>, bounds: seq<Bound>, n: nat): nat
    requires forall h :: h in hs ==> n <= |h.counts|
  {
    if n == 0 then 0 else SumOfMaxima(hs, bounds, n - 1) + if Emits(bounds, n - 1) then MaxCount(hs, n - 1) else 0
  }

  function SumPassedOn(hs: seq<Histogram>, multiple: int, n: nat): int
    requires forall h :: h in hs ==> h.Valid()
  {
    if n == 0 then 0 else SumPassedOn(hs, multiple, n - 1) + PassedOn(hs, multiple, n - 1)
  }

  lemma {:induction false} CountConcat(a: seq<Observation>, b: seq<Observation>)
    ensures Count(a + b) == Count(a) + Count(b)
    decreases |a|
  {
    if a == [] {
      assert a + b == b;
    } else {
      assert (a + b)[1..] == a[1..] + b;
      CountConcat(a[1..], b);
    }
  }

  /** A sample's observations add to each bucket's total what that bucket passes on. */
  lemma {:induction false} SampleAddsUp(hs: seq<Histogram>, bounds: seq<Bound>, multiple: int, n: nat)
    requires SameLayout(hs, bounds) && hs != []
    ensures var front, h := hs[..|hs| - 1], hs[|hs| - 1];
      h.Valid() && SameLayout(front, bounds) && Initialised(Run(front), bounds).latest.Some?
      && SumPassedOn(hs, multiple, n)
         == SumPassedOn(front, multiple, n) + Count(ObservedTo(Initialised(Run(front), bounds), h, multiple, n))
    decreases n
  {
    hide ObservedAt, LatestAfter, Run, Initialised;
    LastSample(hs, bounds, multiple, 0);
    if n > 0 {
      var front, h := hs[..|hs| - 1], hs[|hs| - 1];
      var st := Initialised(Run(front), bounds);
      SampleAddsUp(hs, bounds, multiple, n - 1);
      LastSample(hs, bounds, multiple, n - 1);
      CountConcat(ObservedTo(st, h, multiple, n - 1), ObservedAt(st, h, multiple, n - 1));
    }
  }

  lemma {:induction false} LogAddsUp(hs: seq<Histogram>, bounds: seq<Bound>, multiple: int, n: nat)
    requires SameLayout(hs, bounds) && |bounds| == n + 1
    ensures Count(RunObserved(hs, multiple)) == SumPassedOn(hs, multiple, n)
    decreases |hs|
  {
    if hs == [] {
      NothingSummed(multiple, n);
    } else {
      var front, h := hs[..|hs| - 1], hs[|hs| - 1];
      assert h in hs;
      SampleAddsUp(hs, bounds, multiple, n);
      LogAddsUp(front, bounds, multiple, n);
      CountConcat(RunObserved(front, multiple), ObservedTo(Initialised(Run(front), bounds), h, multiple, n));
    }
  }

  lemma {:induction false} NothingSummed(multiple: int, n: nat)
    ensures SumPassedOn([], multiple, n) == 0
    decreases n
  {
    if n > 0 { NothingSummed(multiple, n - 1); }
  }

  /** Over a whole run, the counts observed add up to the largest counts of exactly the buckets
      from the start index up to the number of tracked boundaries. */
  lemma TotalIsSumOfMaxima(hs: seq<Histogram>, bounds: seq<Bound>, multiple: int, n: nat)
    requires SameLayout(hs, bounds) && |bounds| == n + 1
    requires forall h, i :: h in hs && 0 <= i < |h.counts| ==> h.counts[i] < TWO63
    ensures (forall h :: h in hs ==> |h.counts| == n) && Count(RunObserved(hs, multiple)) == SumOfMaxima(hs, bounds, n)
  {
    LogAddsUp(hs, bounds, multiple, n);
    SumsAgree(hs, bounds, multiple, n, n);
  }

  lemma {:induction false} SumsAgree(hs: seq<Histogram>, bounds: seq<Bound>, multiple: int, n: nat, k: nat)
    requires SameLayout(hs, bounds) && k <= n && forall h :: h in hs ==> |h.counts| == n
    requires forall h, i :: h in hs && 0 <= i < |h.counts| ==> h.counts[i] < TWO63
    ensures SumPassedOn(hs, multiple, k) == SumOfMaxima(hs, bounds, k)
    decreases k
  {
    if k > 0 {
      SumsAgree(hs, bounds, multiple, n, k - 1);
      OneBucket(hs, bounds, multiple, n, k - 1);
      hide PassedOn, MaxCount, Emits, SameLayout;
    }
  }

  lemma OneBucket(hs: seq<Histogram>, bounds: seq<Bound>, multiple: int, n: nat, i: nat)
    requires SameLayout(hs, bounds) && i < n && forall h :: h in hs ==> |h.counts| == n
    requires forall h, i :: h in hs && 0 <= i < |h.counts| ==> h.counts[i] < TWO63
    ensures PassedOn(hs, multiple, i) == if Emits(bounds, i) then MaxCount(hs, i) else 0
  {
    hide PassedOn, MaxCount, Emits, SameLayout;
    if Emits(bounds, i) {
      BucketFollowsMaximum(hs, bounds, multiple, i);
    } else {
      OtherBucketsAreSilent(hs, bounds, multiple, i);
    }
  }
}
