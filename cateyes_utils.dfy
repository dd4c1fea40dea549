/** The event codec and the time base of the `cateyes` package. */
module CateyesUtils {
  import opened Wrappers
  import opened Ordering
  import opened Stats
  import opened Events

  /** The `time` argument: an array of sample times or a sampling rate. */
  datatype TimeArg = Rate(hz: real) | Stamps(stamps: seq<real>)

  /** `(times, sfreq)`, with the irregular-sampling warning as a flag. */
  datatype TimeBase = TimeBase(times: seq<real>, sfreq: real, irregular: bool)

  /** The masked assignment `a[times >= t] = x`. */
  function SetFrom<T>(a: seq<T>, times: seq<real>, t: real, x: T): (r: seq<T>)
    requires |a| == |times|
    ensures |r| == |a|
    ensures forall i :: 0 <= i < |a| ==> (times[i] >= t ==> r[i] == x) && (times[i] < t ==> r[i] == a[i])
  {
    seq(|a|, i requires 0 <= i < |a| => if times[i] >= t then x else a[i])
  }

  method AssignFrom<T>(a: array<T>, times: seq<real>, t: real, x: T)
    requires a.Length == |times|
    modifies a
    ensures a[..] == SetFrom(old(a[..]), times, t, x)
  {
    forall i | 0 <= i < a.Length && times[i] >= t {
      a[i] := x;
    }
  }

  /** One more event, at or after every earlier one, overwrites the ordinal
      and value of every sample at or after its time. */
  lemma ExpandSnoc<V>(times: seq<real>, ev: seq<(real, V)>, k: nat)
    requires k < |ev|
    ensures var before := Expand(times, ev[..k]);
            Expand(times, ev[..k + 1])
            == (SetFrom(before.0, times, ev[k].0, k + 1), SetFrom(before.1, times, ev[k].0, Some(ev[k].1)))
  {
    var before, after := Expand(times, ev[..k]), Expand(times, ev[..k + 1]);
    var t := ev[k].0;
    forall i | 0 <= i < |times|
      ensures after.0[i] == SetFrom(before.0, times, t, k + 1)[i]
      ensures after.1[i] == SetFrom(before.1, times, t, Some(ev[k].1))[i]
    {
      LastAtOrBeforeSnoc(ev, k, times[i]);
    }
    assert after.0 == SetFrom(before.0, times, t, k + 1);
    assert after.1 == SetFrom(before.1, times, t, Some(ev[k].1));
  }

  /** `discrete_to_continuous`: sort the events, then give every sample at
      or after an event that event's ordinal and value, event by event. */
  method DiscreteToContinuous<V(==)>(times: seq<real>, discreteTimes: seq<real>, discreteValues: seq<V>,
                                     vlt: (V, V) -> bool)
    returns (indices: seq<nat>, values: seq<Option<V>>)
    ensures (indices, values) == Expand(times, SortedEvents(discreteTimes, discreteValues, vlt))
  {
    var ev := SortedEvents(discreteTimes, discreteValues, vlt);
    var idx := new nat[|times|](_ => 0);
    var val := new Option<V>[|times|](_ => None);
    ghost var none := Expand(times, ev[..0]);
    assert ev[..0] == [];
    assert idx[..] == none.0 && val[..] == none.1;
    for k := 0 to |ev|
      invariant idx[..] == Expand(times, ev[..k]).0
      invariant val[..] == Expand(times, ev[..k]).1
    {
      ghost var before := Expand(times, ev[..k]);
      ExpandSnoc(times, ev, k);
      AssignFrom(idx, times, ev[k].0, k + 1);
      assert idx[..] == SetFrom(before.0, times, ev[k].0, k + 1);
      AssignFrom(val, times, ev[k].0, Some(ev[k].1));
    }
    assert ev[..|ev|] == ev;
    indices, values := idx[..], val[..];
  }

  /** One more sample adds its own position to the boundaries when it is one. */
  lemma BoundariesSnoc(idx: seq<int>, i: nat)
    requires i < |idx|
    ensures Boundaries(idx[..i + 1]) == Boundaries(idx[..i]) + (if IsBoundary(idx, i) then [i] else [])
  {
    var q := idx[..i + 1];
    assert q[..|q| - 1] == idx[..i];
    assert IsBoundary(q, i) == IsBoundary(idx, i);
  }

  lemma SelectSnoc<T>(s: seq<T>, p: seq<nat>, i: nat)
    requires forall k :: 0 <= k < |p| ==> p[k] < |s|
    requires i < |s|
    ensures Select(s, p + [i]) == Select(s, p) + [s[i]]
  {
  }

  lemma SelectBoundariesSnoc<T>(s: seq<T>, idx: seq<int>, i: nat)
    requires i < |s| && i < |idx|
    ensures Select(s, Boundaries(idx[..i + 1]))
            == Select(s, Boundaries(idx[..i])) + (if IsBoundary(idx, i) then [s[i]] else [])
  {
    var b := Boundaries(idx[..i]);
    BoundariesSnoc(idx, i);
    if IsBoundary(idx, i) {
      SelectSnoc(s, b, i);
    } else {
      assert b + [] == b;
    }
  }

  /** `continuous_to_discrete`: walk the samples in their order and emit the
      time and value of every sample whose index is above the previous
      one's; the walk is seeded with one below the smallest index. */
  method ContinuousToDiscrete<V>(times: seq<real>, indices: seq<int>, values: seq<V>)
    returns (r: Result<(seq<real>, seq<V>)>)
    ensures r == Collapse(times, indices, values)
  {
    if indices == [] {
      return Err(EmptyIndices);
    }
    var discreteTimes: seq<real> := [];
    var discreteValues: seq<V> := [];
    var curIdx := MinInt(indices) - 1;
    var n := Min3(|times|, |indices|, |values|);
    for i := 0 to n
      invariant discreteTimes == Select(times, Boundaries(indices[..i]))
      invariant discreteValues == Select(values, Boundaries(indices[..i]))
      invariant i < |indices| ==> (IsBoundary(indices, i) <==> indices[i] > curIdx)
    {
      SelectBoundariesSnoc(times, indices, i);
      SelectBoundariesSnoc(values, indices, i);
      if indices[i] > curIdx {
        discreteTimes := discreteTimes + [times[i]];
        discreteValues := discreteValues + [values[i]];
      }
      curIdx := indices[i];
    }
    r := Ok((discreteTimes, discreteValues));
  }

  /** `sfreq_to_times`: `n` sample times `1 / sfreq` apart from `startTime`. */
  function SfreqToTimes(n: nat, sfreq: real, startTime: real): (r: Result<seq<real>>)
    ensures r.Err? <==> sfreq == 0.0
    ensures r.Ok? ==> |r.value| == n
  {
    if sfreq == 0.0 then Err(ZeroRate)
    else Ok(seq(n, i requires 0 <= i < n => startTime + i as real / sfreq))
  }

  lemma Reciprocal(a: real, b: real)
    requires b > 0.0
    ensures a / b == 0.0 <==> a == 0.0
    ensures a != 0.0 ==> 1.0 / (a / b) == b / a
  {
  }

  lemma NonZeroReciprocal(m: real)
    requires m != 0.0
    ensures 1.0 / m != 0.0
  {
    assert m * (1.0 / m) == 1.0;
  }

  /** `_get_time`: a rate gives times `i / sfreq`; a time array gives
      `sfreq = 1 / mean(diff(times))`, with the irregular-sampling warning
      when asked for and the spread of the steps is above `1e-5`. */
  function GetTime(n: nat, time: TimeArg, warnSfreq: bool): (r: Result<TimeBase>)
    ensures r.Ok? ==> r.value.sfreq != 0.0
    ensures time.Rate? ==> (r.Err? <==> time.hz == 0.0)
    ensures time.Rate? && r.Ok? ==>
              && r.value.sfreq == time.hz && !r.value.irregular
              && |r.value.times| == n
              && forall i :: 0 <= i < n ==> r.value.times[i] == i as real / time.hz
    ensures time.Stamps? ==>
              var ts := time.stamps;
              (r.Err? <==> |ts| < 2 || ts[|ts| - 1] == ts[0])
    ensures time.Stamps? && r.Ok? ==>
              var ts := time.stamps;
              && r.value.times == ts
              && r.value.sfreq == (|ts| - 1) as real / (ts[|ts| - 1] - ts[0])
              && (r.value.irregular <==> warnSfreq && Variance(Diffs(ts)) > 1.0 / 10000000000.0)
  {
    match time
    case Rate(hz) =>
      if hz == 0.0 then Err(ZeroRate)
      else
        var ts := SfreqToTimes(n, hz, 0.0).value;
        assert forall i :: 0 <= i < n ==> ts[i] == i as real / hz;
        Ok(TimeBase(ts, hz, false))
    case Stamps(ts) => StampsTime(ts, warnSfreq)
  }

  /** The time-array branch of `_get_time`. */
  function StampsTime(ts: seq<real>, warnSfreq: bool): (r: Result<TimeBase>)
    ensures r.Ok? ==> r.value.sfreq != 0.0
    ensures r.Err? <==> |ts| < 2 || ts[|ts| - 1] == ts[0]
    ensures r.Ok? ==>
              && r.value.times == ts
              && r.value.sfreq == (|ts| - 1) as real / (ts[|ts| - 1] - ts[0])
              && (r.value.irregular <==> warnSfreq && Variance(Diffs(ts)) > 1.0 / 10000000000.0)
  {
    if |ts| < 2 then Err(TooFewTimestamps)
    else
      var d := Diffs(ts);
      var m := Mean(d);
      StampsRate(ts);
      if m == 0.0 then Err(ZeroInterval)
      else Ok(TimeBase(ts, 1.0 / m, warnSfreq && Variance(d) > 1.0 / 10000000000.0))
  }

  /** `1 / mean(diff(ts))` in terms of the first and last stamps. */
  lemma StampsRate(ts: seq<real>)
    requires |ts| >= 2
    ensures var m := Mean(Diffs(ts));
            && (m == 0.0 <==> ts[|ts| - 1] == ts[0])
            && (m != 0.0 ==> 1.0 / m == (|ts| - 1) as real / (ts[|ts| - 1] - ts[0]) && 1.0 / m != 0.0)
  {
    MeanDiffs(ts);
    var m := Mean(Diffs(ts));
    Reciprocal(ts[|ts| - 1] - ts[0], (|ts| - 1) as real);
    if m != 0.0 {
      NonZeroReciprocal(m);
    }
  }

  // ---------------------------------------------------------------------
  // Properties of the continuous form produced by discrete_to_continuous

  predicate NonDecreasingReals(s: seq<real>)
  {
    forall i, j :: 0 <= i < j < |s| ==> s[i] <= s[j]
  }

  lemma {:induction false} CountConcat<V>(a: seq<(real, V)>, b: seq<(real, V)>, t: real)
    ensures CountAtOrBefore(a + b, t) == CountAtOrBefore(a, t) + CountAtOrBefore(b, t)
    decreases |b|
  {
    if b == [] {
      assert a + b == a;
    } else {
      var b' := b[..|b| - 1];
      assert (a + b)[..|a + b| - 1] == a + b';
      CountConcat(a, b', t);
    }
  }

  /** Taking one event out of a sequence takes its own count out of the count. */
  lemma CountRemove<V>(b: seq<(real, V)>, k: nat, t: real)
    requires k < |b|
    ensures CountAtOrBefore(b, t) == CountAtOrBefore(b[..k] + b[k + 1..], t) + CountAtOrBefore([b[k]], t)
  {
    var x := b[k];
    assert b == b[..k] + [x] + b[k + 1..];
    CountConcat(b[..k] + [x], b[k + 1..], t);
    CountConcat(b[..k], [x], t);
    CountConcat(b[..k], b[k + 1..], t);
  }

  lemma MultisetSplit<T>(b: seq<T>, k: nat)
    requires k < |b|
    ensures multiset(b) == multiset(b[..k] + b[k + 1..]) + multiset{b[k]}
  {
    var l, r := b[..k], b[k + 1..];
    assert b == l + [b[k]] + r;
    assert multiset(l + [b[k]] + r) == multiset(l) + multiset{b[k]} + multiset(r);
    assert multiset(l + r) == multiset(l) + multiset(r);
  }

  lemma MultisetRemove<T>(a: seq<T>, b: seq<T>, k: nat)
    requires multiset(a) == multiset(b) && a != [] && k < |b| && b[k] == a[|a| - 1]
    ensures multiset(a[..|a| - 1]) == multiset(b[..k] + b[k + 1..])
  {
    var x := b[k];
    var a', b' := a[..|a| - 1], b[..k] + b[k + 1..];
    assert multiset(a) == multiset(a') + multiset{x} by {
      assert a == a' + [x];
    }
    MultisetSplit(b, k);
    assert multiset(a') == multiset(a) - multiset{x};
    assert multiset(b') == multiset(b) - multiset{x};
  }

  /** The number of events at or before a time does not depend on their order. */
  lemma {:induction false} CountPermutation<V>(a: seq<(real, V)>, b: seq<(real, V)>, t: real)
    requires multiset(a) == multiset(b)
    ensures CountAtOrBefore(a, t) == CountAtOrBefore(b, t)
    decreases |a|
  {
    if a == [] {
      assert |b| == |multiset(b)| == 0;
    } else {
      var x := a[|a| - 1];
      assert x in multiset(b);
      var k :| 0 <= k < |b| && b[k] == x;
      MultisetRemove(a, b, k);
      CountRemove(b, k, t);
      CountPermutation(a[..|a| - 1], b[..k] + b[k + 1..], t);
      assert [x][..0] == [];
    }
  }

  lemma {:induction false} CountAll<V>(ev: seq<(real, V)>, t: real)
    requires forall i :: 0 <= i < |ev| ==> ev[i].0 <= t
    ensures CountAtOrBefore(ev, t) == |ev|
  {
    if ev != [] {
      CountAll(ev[..|ev| - 1], t);
    }
  }

  /** On events ordered by time, the ordinal of a sample time is the number
      of events at or before it. */
  lemma {:induction false} LastIsCount<V>(ev: seq<(real, V)>, t: real)
    requires forall i, j :: 0 <= i < j < |ev| ==> ev[i].0 <= ev[j].0
    ensures LastAtOrBefore(ev, t) == CountAtOrBefore(ev, t)
  {
    if ev != [] {
      var ev' := ev[..|ev| - 1];
      if ev[|ev| - 1].0 <= t {
        CountAll(ev', t);
      } else {
        LastIsCount(ev', t);
      }
    }
  }

  /** Every sample's index is the number of events at or before its time,
      counted on the events as given, in any order. */
  lemma ExpandCountsEvents<V(!new)>(times: seq<real>, dt: seq<real>, dv: seq<V>, vlt: (V, V) -> bool)
    requires StrictTotalOrder(vlt)
    ensures forall i :: 0 <= i < |times| ==>
              Expand(times, SortedEvents(dt, dv, vlt)).0[i] == CountAtOrBefore(Zip(dt, dv), times[i])
  {
    var lt := PairLt(RealLt, vlt);
    var ev := SortedEvents(dt, dv, vlt);
    RealOrder();
    PairOrder(RealLt, vlt);
    SortIsSorted(Zip(dt, dv), lt);
    forall i, j | 0 <= i < j < |ev| ensures ev[i].0 <= ev[j].0 {
      assert ev[i] == ev[j] || lt(ev[i], ev[j]);
    }
    forall i | 0 <= i < |times|
      ensures Expand(times, ev).0[i] == CountAtOrBefore(Zip(dt, dv), times[i])
    {
      LastIsCount(ev, times[i]);
      CountPermutation(ev, Zip(dt, dv), times[i]);
    }
  }

  /** Later samples never get a smaller index, and no index exceeds the
      number of events. */
  lemma ExpandMonotone<V>(times: seq<real>, dt: seq<real>, dv: seq<V>, vlt: (V, V) -> bool)
    requires NonDecreasingReals(times)
    ensures var idx := Expand(times, SortedEvents(dt, dv, vlt)).0;
            && NonDecreasing(idx)
            && forall i :: 0 <= i < |idx| ==> idx[i] <= |Zip(dt, dv)|
  {
    var ev := SortedEvents(dt, dv, vlt);
    var idx := Expand(times, ev).0;
    forall i, j | 0 <= i < j < |idx| ensures idx[i] <= idx[j] {
      var a := LastAtOrBefore(ev, times[i]);
      if a > 0 {
        assert ev[a - 1].0 <= times[j];
      }
    }
  }

  /** A sample gets no value exactly when no event is at or before it. */
  lemma ExpandUnsetBeforeFirstEvent<V>(times: seq<real>, dt: seq<real>, dv: seq<V>, vlt: (V, V) -> bool)
    ensures var c := Expand(times, SortedEvents(dt, dv, vlt));
            forall i :: 0 <= i < |times| ==>
              && (c.1[i].None? <==> c.0[i] == 0)
              && (c.0[i] == 0 <==> forall k :: 0 <= k < |dt| && k < |dv| ==> dt[k] > times[i])
  {
    var ev := SortedEvents(dt, dv, vlt);
    var z := Zip(dt, dv);
    forall i | 0 <= i < |times|
      ensures LastAtOrBefore(ev, times[i]) == 0 <==> forall k :: 0 <= k < |dt| && k < |dv| ==> dt[k] > times[i]
    {
      var r := LastAtOrBefore(ev, times[i]);
      if r == 0 {
        forall k | 0 <= k < |dt| && k < |dv| ensures dt[k] > times[i] {
          assert z[k] in multiset(ev);
        }
      } else {
        assert ev[r - 1] in multiset(z);
        var k :| 0 <= k < |z| && z[k] == ev[r - 1];
        assert dt[k] <= times[i];
      }
    }
  }

  /** Listing the same events in another order gives the same continuous form. */
  lemma ExpandOrderIndependent<V(!new)>(times: seq<real>, dt1: seq<real>, dv1: seq<V>,
                                      dt2: seq<real>, dv2: seq<V>, vlt: (V, V) -> bool)
    requires StrictTotalOrder(vlt)
    requires multiset(Zip(dt1, dv1)) == multiset(Zip(dt2, dv2))
    ensures Expand(times, SortedEvents(dt1, dv1, vlt)) == Expand(times, SortedEvents(dt2, dv2, vlt))
  {
    RealOrder();
    PairOrder(RealLt, vlt);
    SortPermutationInvariant(Zip(dt1, dv1), Zip(dt2, dv2), PairLt(RealLt, vlt));
  }

  /** The example in the documentation of `discrete_to_continuous`: a
      saccade at 0.1 on the clock `[0, 0.1, 0.2]`. */
  lemma DocumentedExample(vlt: (string, string) -> bool)
    ensures Expand([0.0, 0.1, 0.2], SortedEvents([0.1], ["Saccade"], vlt))
         == ([0, 1, 1], [None, Some("Saccade"), Some("Saccade")])
  {
    var ev := [(0.1, "Saccade")];
    assert Zip([0.1], ["Saccade"]) == ev;
    SortIncreasingTimes(ev, vlt);
    assert ev[..0] == [];
    var c := Expand([0.0, 0.1, 0.2], ev);
    assert c.0[0] == 0 && c.0[1] == 1 && c.0[2] == 1;
    assert c.1[0] == None && c.1[1] == Some("Saccade") && c.1[2] == Some("Saccade");
    assert c.0 == [0, 1, 1];
    assert c.1 == [None, Some("Saccade"), Some("Saccade")];
  }

  // ---------------------------------------------------------------------
  // The round trip discrete -> continuous -> discrete

  function IndexOf(s: seq<real>, x: real): (i: nat)
    requires x in s
    ensures i < |s| && s[i] == x
  {
    if s[0] == x then 0 else 1 + IndexOf(s[1..], x)
  }

  predicate StrictlyIncreasingNats(p: seq<nat>)
  {
    forall k, l :: 0 <= k < l < |p| ==> p[k] < p[l]
  }

  lemma IncreasingSameFirst(p: seq<nat>, q: seq<nat>)
    requires StrictlyIncreasingNats(p) && StrictlyIncreasingNats(q)
    requires forall x :: x in p <==> x in q
    requires p != []
    ensures q != [] && p[0] == q[0]
  {
    assert p[0] in q;
    var l :| 0 <= l < |q| && q[l] == p[0];
    assert q[0] in p;
    var k :| 0 <= k < |p| && p[k] == q[0];
    assert q[0] <= q[l];
    assert p[0] <= p[k];
  }

  lemma IncreasingTailMember(p: seq<nat>, q: seq<nat>, x: nat)
    requires StrictlyIncreasingNats(p) && StrictlyIncreasingNats(q)
    requires forall y :: y in p <==> y in q
    requires p != [] && q != [] && p[0] == q[0]
    requires x in p[1..]
    ensures x in q[1..]
  {
    var k :| 1 <= k < |p| && p[k] == x;
    assert p[0] < x && x in q;
    var l :| 0 <= l < |q| && q[l] == x;
    assert q[1..][l - 1] == x;
  }

  lemma {:induction false} IncreasingSameElements(p: seq<nat>, q: seq<nat>)
    requires StrictlyIncreasingNats(p) && StrictlyIncreasingNats(q)
    requires forall x :: x in p <==> x in q
    ensures p == q
    decreases |p|
  {
    if p != [] {
      IncreasingSameFirst(p, q);
      forall x ensures x in p[1..] <==> x in q[1..] {
        if x in p[1..] {
          IncreasingTailMember(p, q, x);
        }
        if x in q[1..] {
          IncreasingTailMember(q, p, x);
        }
      }
      IncreasingSameElements(p[1..], q[1..]);
      assert p == [p[0]] + p[1..] && q == [q[0]] + q[1..];
    } else if q != [] {
      IncreasingSameFirst(q, p);
    }
  }

  predicate IncreasingTimes<V>(ev: seq<(real, V)>)
  {
    forall i, k :: 0 <= i < k < |ev| ==> ev[i].0 < ev[k].0
  }

  /** Every event happens at one of the sample times. */
  predicate AtSamples<V>(times: seq<real>, ev: seq<(real, V)>)
  {
    forall j :: 0 <= j < |ev| ==> ev[j].0 in times
  }

  /** The sample position of each event. */
  ghost function Positions<V>(times: seq<real>, ev: seq<(real, V)>): (pos: seq<nat>)
    requires AtSamples(times, ev)
    ensures |pos| == |ev|
    ensures forall j :: 0 <= j < |ev| ==> pos[j] < |times| && times[pos[j]] == ev[j].0
  {
    seq(|ev|, j requires 0 <= j < |ev| => IndexOf(times, ev[j].0))
  }

  lemma PositionsIncreasing<V>(times: seq<real>, ev: seq<(real, V)>)
    requires StrictlyIncreasing(times) && IncreasingTimes(ev) && AtSamples(times, ev)
    ensures var pos := Positions(times, ev);
            forall k, l :: 0 <= k < l < |pos| ==> pos[k] < pos[l]
  {
    var pos := Positions(times, ev);
    forall k, l | 0 <= k < l < |pos| ensures pos[k] < pos[l] {
      assert times[pos[k]] < times[pos[l]];
    }
  }

  /** On strictly increasing event times, a time from event `j` up to (not
      including) the next event has ordinal `j + 1`. */
  lemma OrdinalBetweenEvents<V>(ev: seq<(real, V)>, j: nat, t: real)
    requires IncreasingTimes(ev)
    requires j < |ev| && ev[j].0 <= t
    requires j + 1 < |ev| ==> t < ev[j + 1].0
    ensures LastAtOrBefore(ev, t) == j + 1
  {
  }

  /** On strictly increasing event times, a time before event `j` has an
      ordinal of at most `j`. */
  lemma OrdinalBeforeEvent<V>(ev: seq<(real, V)>, j: nat, t: real)
    requires IncreasingTimes(ev)
    requires j < |ev| && t < ev[j].0
    ensures LastAtOrBefore(ev, t) <= j
  {
    var r := LastAtOrBefore(ev, t);
    if r > 0 {
      assert ev[r - 1].0 < ev[j].0;
    }
  }

  lemma OrdinalsAtEvents<V>(times: seq<real>, ev: seq<(real, V)>)
    requires IncreasingTimes(ev) && AtSamples(times, ev)
    ensures var pos := Positions(times, ev);
            forall j :: 0 <= j < |ev| ==> Expand(times, ev).0[pos[j]] == j + 1
  {
    var pos := Positions(times, ev);
    forall j | 0 <= j < |ev| ensures Expand(times, ev).0[pos[j]] == j + 1 {
      OrdinalBetweenEvents(ev, j, times[pos[j]]);
      ExpandAt(times, ev, pos[j]);
    }
  }

  /** The sample of event `j` opens a segment of the continuous form. */
  lemma EventIsBoundary<V>(times: seq<real>, ev: seq<(real, V)>, j: nat)
    requires StrictlyIncreasing(times) && IncreasingTimes(ev) && AtSamples(times, ev)
    requires j < |ev|
    ensures IsBoundary(Expand(times, ev).0, Positions(times, ev)[j])
  {
    var x := Positions(times, ev)[j];
    var idx := Expand(times, ev).0;
    assert times[x] == ev[j].0;
    OrdinalBetweenEvents(ev, j, times[x]);
    ExpandAt(times, ev, x);
    assert idx[x] == j + 1;
    if x > 0 {
      assert times[x - 1] < times[x];
      OrdinalBeforeEvent(ev, j, times[x - 1]);
      ExpandAt(times, ev, x - 1);
      assert idx[x - 1] <= j;
    }
  }

  /** Every event's sample opens a segment of the continuous form. */
  lemma EventsAreBoundaries<V>(times: seq<real>, ev: seq<(real, V)>)
    requires StrictlyIncreasing(times) && IncreasingTimes(ev) && AtSamples(times, ev)
    ensures var pos := Positions(times, ev);
            forall j :: 0 <= j < |ev| ==> IsBoundary(Expand(times, ev).0, pos[j])
  {
    forall j | 0 <= j < |ev| ensures IsBoundary(Expand(times, ev).0, Positions(times, ev)[j]) {
      EventIsBoundary(times, ev, j);
    }
  }

  /** On a strictly increasing clock, the only sample after sample `x - 1`
      and not after sample `x` is sample `x`. */
  lemma SampleBetween(times: seq<real>, x: nat, m: nat)
    requires StrictlyIncreasing(times)
    requires 0 < x < |times| && m < |times|
    requires times[x - 1] < times[m] <= times[x]
    ensures m == x
  {
  }

  /** When the ordinal rises from time `t0` to time `t1`, the event it rises
      to lies after `t0` and at or before `t1`. */
  lemma RiseEvent<V>(ev: seq<(real, V)>, t0: real, t1: real)
    requires LastAtOrBefore(ev, t0) < LastAtOrBefore(ev, t1)
    ensures var r := LastAtOrBefore(ev, t1);
            r > 0 && t0 < ev[r - 1].0 <= t1
  {
    var r := LastAtOrBefore(ev, t1);
    assert LastAtOrBefore(ev, t0) <= r - 1;
  }

  /** A sample whose ordinal is above its predecessor's is the sample of
      the event it rose to. */
  lemma RiseIsEvent<V>(times: seq<real>, ev: seq<(real, V)>, x: nat)
    requires StrictlyIncreasing(times) && AtSamples(times, ev)
    requires 0 < x < |times|
    requires LastAtOrBefore(ev, times[x - 1]) < LastAtOrBefore(ev, times[x])
    ensures x in Positions(times, ev)
  {
    var r := LastAtOrBefore(ev, times[x]);
    RiseEvent(ev, times[x - 1], times[x]);
    var m := Positions(times, ev)[r - 1];
    SampleBetween(times, x, m);
  }

  /** A sample that opens a segment of the continuous form is the sample of
      an event. */
  lemma BoundaryIsEvent<V>(times: seq<real>, ev: seq<(real, V)>, x: nat)
    requires StrictlyIncreasing(times) && AtSamples(times, ev)
    requires |ev| > 0 && |times| > 0 && ev[0].0 == times[0]
    requires x < |times| && IsBoundary(Expand(times, ev).0, x)
    ensures x in Positions(times, ev)
  {
    if x == 0 {
      FirstSampleIsEvent(times, ev);
    } else {
      var idx := Expand(times, ev).0;
      ExpandAt(times, ev, x - 1);
      ExpandAt(times, ev, x);
      assert LastAtOrBefore(ev, times[x - 1]) == idx[x - 1] < idx[x] == LastAtOrBefore(ev, times[x]);
      RiseIsEvent(times, ev, x);
    }
  }

  /** When the first event is at the first sample, the first sample is an
      event sample. */
  lemma FirstSampleIsEvent<V>(times: seq<real>, ev: seq<(real, V)>)
    requires StrictlyIncreasing(times) && AtSamples(times, ev)
    requires |ev| > 0 && |times| > 0 && ev[0].0 == times[0]
    ensures 0 in Positions(times, ev)
  {
    var pos := Positions(times, ev);
    assert times[pos[0]] == times[0];
    assert pos[0] == 0;
  }

  /** Only event samples open a segment. */
  lemma BoundariesAreEvents<V>(times: seq<real>, ev: seq<(real, V)>)
    requires StrictlyIncreasing(times) && IncreasingTimes(ev) && AtSamples(times, ev)
    requires |ev| > 0 && |times| > 0 && ev[0].0 == times[0]
    ensures var pos := Positions(times, ev);
            var idx := Expand(times, ev).0;
            forall x :: 0 <= x < |idx| && IsBoundary(idx, x) ==> x in pos
  {
    forall x | 0 <= x < |times| && IsBoundary(Expand(times, ev).0, x) ensures x in Positions(times, ev) {
      BoundaryIsEvent(times, ev, x);
    }
  }

  /** The segments of the continuous form open exactly at the event samples. */
  lemma BoundariesArePositions<V>(times: seq<real>, ev: seq<(real, V)>)
    requires StrictlyIncreasing(times) && IncreasingTimes(ev) && AtSamples(times, ev)
    requires |ev| > 0 && |times| > 0 && ev[0].0 == times[0]
    ensures Boundaries(Expand(times, ev).0) == Positions(times, ev)
  {
    var idx: seq<int> := Expand(times, ev).0;
    var pos := Positions(times, ev);
    PositionsIncreasing(times, ev);
    EventsAreBoundaries(times, ev);
    BoundariesAreEvents(times, ev);
    var b := Boundaries(idx);
    forall x ensures x in b <==> x in pos {
      if x in pos {
        var j :| 0 <= j < |pos| && pos[j] == x;
        assert IsBoundary(idx, x);
      }
    }
    IncreasingSameElements(b, pos);
  }

  lemma TimesAtPositions<V>(times: seq<real>, ev: seq<(real, V)>)
    requires AtSamples(times, ev)
    ensures Select(times, Positions(times, ev)) == EventTimes(ev)
  {
  }

  lemma ValuesAtPositions<V>(times: seq<real>, ev: seq<(real, V)>)
    requires IncreasingTimes(ev) && AtSamples(times, ev)
    ensures Select(Expand(times, ev).1, Positions(times, ev)) == EventValues(ev)
  {
    var pos := Positions(times, ev);
    forall j | 0 <= j < |ev| ensures Expand(times, ev).1[pos[j]] == Some(ev[j].1) {
      OrdinalBetweenEvents(ev, j, times[pos[j]]);
      ExpandAt(times, ev, pos[j]);
    }
  }

  /** Collapsing the continuous form of events at distinct sample times,
      the first at the first sample, gives back their times and values. */
  lemma CollapseExpand<V>(times: seq<real>, ev: seq<(real, V)>)
    requires StrictlyIncreasing(times) && IncreasingTimes(ev) && AtSamples(times, ev)
    requires |ev| > 0 && |times| > 0 && ev[0].0 == times[0]
    ensures var c := Expand(times, ev);
            Collapse(times, c.0, c.1) == Ok((EventTimes(ev), EventValues(ev)))
  {
    var c := Expand(times, ev);
    var idx: seq<int> := c.0;
    assert idx[..Min3(|times|, |idx|, |c.1|)] == idx;
    BoundariesArePositions(times, ev);
    TimesAtPositions(times, ev);
    ValuesAtPositions(times, ev);
  }

  lemma ZipEventsOrdered<V>(times: seq<real>, dt: seq<real>, dv: seq<V>)
    requires |dt| == |dv| && StrictlyIncreasing(dt)
    requires forall j :: 0 <= j < |dt| ==> dt[j] in times
    ensures IncreasingTimes(Zip(dt, dv)) && AtSamples(times, Zip(dt, dv))
  {
  }

  lemma ZipEventParts<V>(dt: seq<real>, dv: seq<V>)
    requires |dt| == |dv|
    ensures EventTimes(Zip(dt, dv)) == dt && EventValues(Zip(dt, dv)) == Somes(dv)
  {
    assert EventTimes(Zip(dt, dv)) == dt;
    assert EventValues(Zip(dt, dv)) == Somes(dv);
  }

  /** Events at distinct sample times, the first at the first sample, come
      back unchanged from discrete_to_continuous then continuous_to_discrete,
      each value wrapped as set. */
  lemma RoundTrip<V>(times: seq<real>, dt: seq<real>, dv: seq<V>, vlt: (V, V) -> bool)
    requires StrictlyIncreasing(times) && StrictlyIncreasing(dt)
    requires |dt| == |dv| > 0 && |times| > 0
    requires forall j :: 0 <= j < |dt| ==> dt[j] in times
    requires dt[0] == times[0]
    ensures var c := Expand(times, SortedEvents(dt, dv, vlt));
            Collapse(times, c.0, c.1) == Ok((dt, Somes(dv)))
  {
    var ev := Zip(dt, dv);
    ZipEventsOrdered(times, dt, dv);
    SortIncreasingTimes(ev, vlt);
    CollapseExpand(times, ev);
    ZipEventParts(dt, dv);
  }

  /** Successive sample times of a rate are `1 / sfreq` apart, so they
      increase strictly when the rate is positive. */
  lemma StepQuotient(i: nat, hz: real, startTime: real)
    requires hz != 0.0
    ensures (startTime + (i + 1) as real / hz) - (startTime + i as real / hz) == 1.0 / hz
  {
    assert (i + 1) as real / hz == i as real / hz + 1.0 / hz;
  }

  lemma QuotientMonotone(a: real, b: real, hz: real)
    requires a < b && hz > 0.0
    ensures a / hz < b / hz
  {
    assert b / hz - a / hz == (b - a) / hz;
  }

  lemma InverseInverse(hz: real)
    requires hz != 0.0
    ensures 1.0 / hz != 0.0 && 1.0 / (1.0 / hz) == hz
  {
    assert hz * (1.0 / hz) == 1.0;
  }

  lemma SfreqToTimesSpacing(n: nat, sfreq: real, startTime: real)
    requires sfreq != 0.0
    ensures var ts := SfreqToTimes(n, sfreq, startTime).value;
            && (forall i :: 0 <= i < n - 1 ==> ts[i + 1] - ts[i] == 1.0 / sfreq)
            && (sfreq > 0.0 ==> StrictlyIncreasing(ts))
  {
    var ts := SfreqToTimes(n, sfreq, startTime).value;
    forall i | 0 <= i < n - 1 ensures ts[i + 1] - ts[i] == 1.0 / sfreq {
      StepQuotient(i, sfreq, startTime);
    }
    if sfreq > 0.0 {
      forall i, j | 0 <= i < j < n ensures ts[i] < ts[j] {
        QuotientMonotone(i as real, j as real, sfreq);
      }
    }
  }

  /** Passing the times a rate generates instead of the rate gives back the
      same rate, and evenly spaced times never raise the warning. */
  lemma RateStampsAgree(n: nat, hz: real, warnSfreq: bool)
    requires n >= 2 && hz != 0.0
    ensures var ts := GetTime(n, Rate(hz), warnSfreq).value.times;
            GetTime(n, Stamps(ts), warnSfreq) == Ok(TimeBase(ts, hz, false))
  {
    var ts := SfreqToTimes(n, hz, 0.0).value;
    assert GetTime(n, Rate(hz), warnSfreq).value.times == ts;
    var d := Diffs(ts);
    forall i | 0 <= i < |d| ensures d[i] == 1.0 / hz {
      StepQuotient(i, hz, 0.0);
    }
    ConstantVariance(d, 1.0 / hz);
    InverseInverse(hz);
  }
}
