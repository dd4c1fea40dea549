/** The two representations of a segmentation and the functions that relate
    them: a discrete list of (event time, value) pairs, and a continuous
    per-sample array of (event ordinal, value) pairs. */
module Events {
  import opened Wrappers
  import opened Ordering

  /** Python's `zip`: pairs up to the length of the shorter argument. */
  function Zip<A, B>(a: seq<A>, b: seq<B>): (r: seq<(A, B)>)
    ensures |r| == if |a| <= |b| then |a| else |b|
    ensures forall i :: 0 <= i < |r| ==> r[i] == (a[i], b[i])
  {
    seq(if |a| <= |b| then |a| else |b|, i requires 0 <= i < |a| && i < |b| => (a[i], b[i]))
  }

  predicate StrictlyIncreasing(s: seq<real>)
  {
    forall i, j :: 0 <= i < j < |s| ==> s[i] < s[j]
  }

  predicate NonDecreasing(s: seq<int>)
  {
    forall i, j :: 0 <= i < j < |s| ==> s[i] <= s[j]
  }

  /** `sorted(zip(discrete_times, discrete_values))`. */
  function SortedEvents<V(==)>(dt: seq<real>, dv: seq<V>, vlt: (V, V) -> bool): (ev: seq<(real, V)>)
    ensures multiset(ev) == multiset(Zip(dt, dv))
  {
    Sort(Zip(dt, dv), PairLt(RealLt, vlt))
  }

  /** One past the position of the last event whose time is at or before `t`,
      0 when there is none: the ordinal the continuous form gives a sample
      at time `t`. */
  function LastAtOrBefore<V>(ev: seq<(real, V)>, t: real): (r: nat)
    ensures r <= |ev|
    ensures r > 0 ==> ev[r - 1].0 <= t
    ensures forall j :: r <= j < |ev| ==> ev[j].0 > t
  {
    if ev == [] then 0
    else if ev[|ev| - 1].0 <= t then |ev|
    else LastAtOrBefore(ev[..|ev| - 1], t)
  }

  /** Adding one event at the end moves the ordinal of every time at or after it. */
  lemma LastAtOrBeforeSnoc<V>(ev: seq<(real, V)>, k: nat, t: real)
    requires k < |ev|
    ensures LastAtOrBefore(ev[..k + 1], t) == if ev[k].0 <= t then k + 1 else LastAtOrBefore(ev[..k], t)
    ensures ValueAt(ev[..k + 1], t) == if ev[k].0 <= t then Some(ev[k].1) else ValueAt(ev[..k], t)
  {
    assert ev[..k + 1][..k] == ev[..k];
    var r := LastAtOrBefore(ev[..k], t);
    if ev[k].0 > t && r > 0 {
      assert ev[..k + 1][r - 1] == ev[..k][r - 1];
    }
  }

  /** The value of the event found by LastAtOrBefore, None before every event. */
  function ValueAt<V>(ev: seq<(real, V)>, t: real): Option<V>
  {
    var k := LastAtOrBefore(ev, t);
    if k == 0 then None else Some(ev[k - 1].1)
  }

  /** How many events have a time at or before `t`. */
  function CountAtOrBefore<V>(ev: seq<(real, V)>, t: real): (r: nat)
    ensures r <= |ev|
  {
    if ev == [] then 0
    else CountAtOrBefore(ev[..|ev| - 1], t) + (if ev[|ev| - 1].0 <= t then 1 else 0)
  }

  /** The continuous form of a sorted event list on the sample clock `times`. */
  function Expand<V>(times: seq<real>, ev: seq<(real, V)>): (r: (seq<nat>, seq<Option<V>>))
    ensures |r.0| == |times| && |r.1| == |times|
  {
    (seq(|times|, i requires 0 <= i < |times| => LastAtOrBefore(ev, times[i])),
     seq(|times|, i requires 0 <= i < |times| => ValueAt(ev, times[i])))
  }

  lemma ExpandAt<V>(times: seq<real>, ev: seq<(real, V)>, i: nat)
    requires i < |times|
    ensures Expand(times, ev).0[i] == LastAtOrBefore(ev, times[i])
    ensures Expand(times, ev).1[i] == ValueAt(ev, times[i])
  {
  }

  /** The value found for a time is None exactly before every event, and
      otherwise that of the event the ordinal points at. */
  lemma ValueAtEvent<V>(ev: seq<(real, V)>, t: real)
    ensures var k := LastAtOrBefore(ev, t);
            && (ValueAt(ev, t) == None <==> k == 0)
            && (k > 0 ==> ev[k - 1].0 <= t && ValueAt(ev, t) == Some(ev[k - 1].1))
  {
  }

  /** Sample `i` opens an event: it is the first sample, or its ordinal is
      above the previous sample's. */
  predicate IsBoundary(idx: seq<int>, i: nat)
    requires i < |idx|
  {
    i == 0 || idx[i - 1] < idx[i]
  }

  /** The positions of all boundaries, in ascending order. */
  function Boundaries(idx: seq<int>): (p: seq<nat>)
    ensures forall k :: 0 <= k < |p| ==> p[k] < |idx| && IsBoundary(idx, p[k])
    ensures forall k, l :: 0 <= k < l < |p| ==> p[k] < p[l]
    ensures forall i :: 0 <= i < |idx| && IsBoundary(idx, i) ==> i in p
    ensures |idx| > 0 ==> |p| > 0 && p[0] == 0
  {
    if idx == [] then []
    else
      var last := |idx| - 1;
      var q := idx[..last];
      var earlier := Boundaries(q);
      var tail: seq<nat> := if IsBoundary(idx, last) then [last] else [];
      assert forall i :: 0 <= i < |q| ==> (IsBoundary(q, i) <==> IsBoundary(idx, i));
      assert forall k :: 0 <= k < |earlier| ==> earlier[k] < last;
      earlier + tail
  }

  /** The elements of `s` at the positions `p`. */
  function Select<T>(s: seq<T>, p: seq<nat>): (r: seq<T>)
    requires forall k :: 0 <= k < |p| ==> p[k] < |s|
    ensures |r| == |p|
  {
    seq(|p|, k requires 0 <= k < |p| => s[p[k]])
  }

  function MinInt(s: seq<int>): (m: int)
    requires |s| > 0
    ensures m in s
    ensures forall i :: 0 <= i < |s| ==> m <= s[i]
  {
    if |s| == 1 then s[0]
    else
      var m' := MinInt(s[..|s| - 1]);
      if s[|s| - 1] < m' then s[|s| - 1] else m'
  }

  function Min3(a: nat, b: nat, c: nat): (m: nat)
    ensures m <= a && m <= b && m <= c
    ensures m == a || m == b || m == c
  {
    if a <= b && a <= c then a else if b <= c then b else c
  }

  /** The discrete form of a continuous labelling: the time and value of
      every boundary sample, over the samples `zip` reaches; an empty index
      array has no minimum. */
  function Collapse<V>(times: seq<real>, idx: seq<int>, vals: seq<V>): (r: Result<(seq<real>, seq<V>)>)
    ensures r.Err? <==> idx == []
  {
    if idx == [] then Err(EmptyIndices)
    else
      var b := Boundaries(idx[..Min3(|times|, |idx|, |vals|)]);
      Ok((Select(times, b), Select(vals, b)))
  }

  /** The times of a list of events. */
  function EventTimes<V>(ev: seq<(real, V)>): (r: seq<real>)
    ensures |r| == |ev|
    ensures forall j :: 0 <= j < |ev| ==> r[j] == ev[j].0
  {
    seq(|ev|, j requires 0 <= j < |ev| => ev[j].0)
  }

  /** The values of a list of events, each wrapped as set. */
  function EventValues<V>(ev: seq<(real, V)>): (r: seq<Option<V>>)
    ensures |r| == |ev|
    ensures forall j :: 0 <= j < |ev| ==> r[j] == Some(ev[j].1)
  {
    seq(|ev|, j requires 0 <= j < |ev| => Some(ev[j].1))
  }

  function Somes<V>(s: seq<V>): (r: seq<Option<V>>)
    ensures |r| == |s|
  {
    seq(|s|, k requires 0 <= k < |s| => Some(s[k]))
  }

  lemma PairLtByTime<V>(p: (real, V), q: (real, V), vlt: (V, V) -> bool)
    requires p.0 < q.0
    ensures !PairLt(RealLt, vlt)(q, p)
  {
    assert PairLt(RealLt, vlt)(q, p) == (RealLt(q.0, p.0) || (q.0 == p.0 && vlt(q.1, p.1)));
  }

  /** Sorting events whose times already increase strictly changes nothing,
      whatever the order on values. */
  lemma {:induction false} SortIncreasingTimes<V>(ev: seq<(real, V)>, vlt: (V, V) -> bool)
    requires forall i, j :: 0 <= i < j < |ev| ==> ev[i].0 < ev[j].0
    ensures Sort(ev, PairLt(RealLt, vlt)) == ev
  {
    if ev != [] {
      var lt := PairLt(RealLt, vlt);
      var rest := ev[1..];
      assert Sort(ev, lt) == Insert(ev[0], Sort(rest, lt), lt);
      SortIncreasingTimes(rest, vlt);
      if rest != [] {
        PairLtByTime(ev[0], rest[0], vlt);
        assert !lt(rest[0], ev[0]);
      }
      assert Insert(ev[0], rest, lt) == [ev[0]] + rest;
      assert [ev[0]] + rest == ev;
    }
  }
}
