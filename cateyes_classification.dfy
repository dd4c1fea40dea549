/** The native classifiers of the `cateyes` package: I-VT, I-DT and the
    MAD velocity-threshold estimator. */
module CateyesClassification {
  import opened Wrappers
  import opened Stats
  import opened Gaze
  import opened Segments
  import opened Events
  import opened CateyesUtils
  import opened Dispersion

  /** The classifier's return value: the continuous arrays as they are, or
      their discrete form from `continuous_to_discrete`. */
  function Finish(times: seq<real>, segments: seq<nat>, classes: seq<Label>, discrete: bool, irregular: bool)
    : Result<Classification>
  {
    if !discrete then Ok(Classification(Continuous(segments, classes), irregular))
    else
      match Collapse(times, segments, classes)
      case Ok(d) => Ok(Classification(Discrete(d.0, d.1), irregular))
      case Err(e) => Err(e)
  }

  method Emit(times: seq<real>, segments: seq<nat>, classes: seq<Label>, discrete: bool, irregular: bool)
    returns (r: Result<Classification>)
    ensures r == Finish(times, segments, classes, discrete, irregular)
  {
    if !discrete {
      return Ok(Classification(Continuous(segments, classes), irregular));
    }
    var d := ContinuousToDiscrete(times, segments, classes);
    match d
    case Ok(p) => r := Ok(Classification(Discrete(p.0, p.1), irregular));
    case Err(e) => r := Err(e);
  }

  // ---------------------------------------------------------------------
  // I-VT

  /** `classes[vels > sample_thresh] = "Saccade"`, where `vels[i]` is the
      displacement from sample `i` to sample `i + 1` and the last sample
      gets a padded 0. */
  function VelocityLabels(g: seq<Point>, norm: (real, real) -> real, thr: real): (c: seq<Label>)
    ensures |c| == |g|
    ensures forall i :: 0 <= i < |g| - 1 ==>
              (c[i] == Saccade <==> norm(g[i + 1].x - g[i].x, g[i + 1].y - g[i].y) > thr)
    ensures |g| > 0 ==> (c[|g| - 1] == Saccade <==> thr < 0.0)
  {
    if g == [] then [] else
    var steps := Steps(g, norm);
    var v := steps + [0.0];
    assert |v| == |g|;
    var c := seq(|g|, i requires 0 <= i < |g| => if v[i] > thr then Saccade else Fixation);
    assert forall i :: 0 <= i < |g| - 1 ==>
             (c[i] == Saccade <==> norm(g[i + 1].x - g[i].x, g[i + 1].y - g[i].y) > thr) by {
      forall i | 0 <= i < |g| - 1
        ensures c[i] == Saccade <==> norm(g[i + 1].x - g[i].x, g[i + 1].y - g[i].y) > thr
      {
        assert v[i] == steps[i];
      }
    }
    assert v[|g| - 1] == 0.0;
    c
  }

  /** `classify_velocity`: the per-sample threshold is `threshold / sfreq`;
      labels by that threshold, then ordinals that step at every change of
      label. An empty recording fails on the one-element velocity mask. */
  method ClassifyVelocity(g: seq<Point>, time: TimeArg, threshold: real, norm: (real, real) -> real, discrete: bool)
    returns (r: Result<Classification>)
    ensures GetTime(|g|, time, true).Err? ==> r == Err(GetTime(|g|, time, true).error)
    ensures GetTime(|g|, time, true).Ok? && g == [] ==> r == Err(MaskLengthMismatch)
    ensures GetTime(|g|, time, true).Ok? && g != [] ==>
              var tb := GetTime(|g|, time, true).value;
              var c := VelocityLabels(g, norm, threshold / tb.sfreq);
              r == Finish(tb.times, Ordinals(c), c, discrete, tb.irregular)
  {
    var t := GetTime(|g|, time, true);
    if t.Err? {
      return Err(t.error);
    }
    var tb := t.value;
    if g == [] {
      return Err(MaskLengthMismatch);
    }
    var classes := VelocityLabels(g, norm, threshold / tb.sfreq);
    var segments := GroupSegments(classes);
    r := Emit(tb.times, segments, classes, discrete, tb.irregular);
  }

  // ---------------------------------------------------------------------
  // I-DT

  /** `classify_dispersion`: the window length in samples is
      `int(sfreq * window_len)`, then the sliding-window walk, then the
      optional discrete form. */
  method ClassifyDispersion(g: seq<Point>, time: TimeArg, threshold: real, windowLen: real, discrete: bool)
    returns (r: Result<Classification>)
    ensures GetTime(|g|, time, true).Err? ==> r == Err(GetTime(|g|, time, true).error)
    ensures GetTime(|g|, time, true).Ok? ==>
              var tb := GetTime(|g|, time, true).value;
              var n := WindowSamples(tb.sfreq, windowLen);
              && (n.Err? ==> r == Err(n.error))
              && (n.Ok? && n.value == 0 ==> r == Err(EmptyWindow))
              && (n.Ok? && n.value > 0 ==>
                    var w := Walk(g, n.value, threshold, 0, 0);
                    r == Finish(tb.times, w.0, w.1, discrete, tb.irregular))
  {
    var t := GetTime(|g|, time, true);
    if t.Err? {
      return Err(t.error);
    }
    var tb := t.value;
    var n := WindowSamples(tb.sfreq, windowLen);
    if n.Err? {
      return Err(n.error);
    }
    var w := DispersionWalk(g, n.value, threshold);
    if w.Err? {
      return Err(w.error);
    }
    r := Emit(tb.times, w.value.0, w.value.1, discrete, tb.irregular);
  }

  // ---------------------------------------------------------------------
  // MAD threshold

  ghost predicate NonNegative(s: seq<real>)
  {
    forall v :: v in s ==> v >= 0.0
  }

  /** The velocity population of `mad_velocity_thresh`: a leading 0, then
      the displacement from each sample to the next. */
  function Velocities(g: seq<Point>, norm: (real, real) -> real): (v: seq<real>)
    requires IsNorm(norm)
    ensures |v| == if g == [] then 1 else |g|
    ensures v[0] == 0.0 && NonNegative(v)
  {
    StepsNonNegative(g, norm);
    [0.0] + Steps(g, norm)
  }

  /** `h` followed by the history `r` goes on with, or the failure `r` ends in. */
  function Prepend(h: seq<real>, r: Result<seq<real>>): Result<seq<real>>
  {
    match r
    case Err(e) => Err(e)
    case Ok(rest) => Ok(h + rest)
  }

  /** `median + 3 * 1.48 * med_abs_deviation` of a population. */
  function NextThreshold(p: seq<real>): (th: real)
    requires p != [] && NonNegative(p)
    ensures th >= 0.0
  {
    assert Min(p) in p;
    Median(p) + 3.0 * 1.48 * MedianAbsDeviation(p)
  }

  /** The rounds of the estimator from threshold `th` on: keep the
      velocities below `th`, compute the next threshold from them, and go
      on while that lowers the threshold by more than 1. The result is the
      history of thresholds, the last one being the estimate; an empty
      population has a not-a-number median and ends in failure. */
  function MadRounds(pop: seq<real>, th: real): (r: Result<seq<real>>)
    requires NonNegative(pop)
    ensures r.Ok? ==> |r.value| >= 2 && r.value[0] == th
    decreases if th <= 0.0 then 0 else th.Floor + 1
  {
    var p := Below(pop, th);
    if p == [] then Err(EmptyPopulation)
    else
      var th1 := NextThreshold(p);
      if th - th1 > 1.0 then Prepend([th], MadRounds(p, th1))
      else Ok([th, th1])
  }

  /** The history scaled back from per-sample units to per-second units. */
  function Scaled(h: seq<real>, sfreq: real): (r: seq<real>)
    ensures |r| == |h|
    ensures forall i :: 0 <= i < |h| ==> r[i] == h[i] * sfreq
  {
    seq(|h|, i requires 0 <= i < |h| => h[i] * sfreq)
  }

  lemma PrependNil(r: Result<seq<real>>)
    ensures Prepend([], r) == r
  {
    if r.Ok? {
      assert [] + r.value == r.value;
    }
  }

  lemma PrependTwice(a: seq<real>, b: seq<real>, r: Result<seq<real>>)
    ensures Prepend(a, Prepend(b, r)) == Prepend(a + b, r)
  {
    if r.Ok? {
      assert a + (b + r.value) == (a + b) + r.value;
    }
  }

  /** The `while True` loop of `mad_velocity_thresh`, on per-sample units. */
  method MadLoop(vels: seq<real>, th0: real) returns (r: Result<seq<real>>)
    requires NonNegative(vels)
    ensures r == MadRounds(vels, th0)
  {
    var th := th0;
    var pop := vels;
    var threshs: seq<real> := [];
    PrependNil(MadRounds(vels, th0));
    while true
      invariant NonNegative(pop)
      invariant MadRounds(vels, th0) == Prepend(threshs, MadRounds(pop, th))
      decreases if th <= 0.0 then 0 else th.Floor + 1
    {
      var p := Below(pop, th);
      if p == [] {
        return Err(EmptyPopulation);
      }
      var th1 := NextThreshold(p);
      if th - th1 > 1.0 {
        PrependTwice(threshs, [th], MadRounds(p, th1));
        threshs := threshs + [th];
        pop := p;
        th := th1;
      } else {
        return Ok(threshs + [th, th1]);
      }
    }
  }

  datatype MadEstimate = MadEstimate(threshold: real, history: seq<real>, irregular: bool)

  /** The estimate is the last threshold of the history; both are converted
      back with `* sfreq`. */
  function Estimate(h: Result<seq<real>>, sfreq: real, irregular: bool): (r: Result<MadEstimate>)
    requires h.Ok? ==> h.value != []
    ensures h.Err? ==> r == Err(h.error)
    ensures h.Ok? ==> r.Ok? && |r.value.history| == |h.value| && r.value.irregular == irregular
    ensures h.Ok? ==> r.value.threshold == r.value.history[|r.value.history| - 1]
  {
    match h
    case Err(e) => Err(e)
    case Ok(hs) => Ok(MadEstimate(hs[|hs| - 1] * sfreq, Scaled(hs, sfreq), irregular))
  }

  /** `mad_velocity_thresh`, returning both the estimate and the history of
      thresholds, each converted back with `* sfreq`. */
  method MadVelocityThresh(g: seq<Point>, time: TimeArg, th0: real, norm: (real, real) -> real)
    returns (r: Result<MadEstimate>)
    requires IsNorm(norm)
    ensures GetTime(|g|, time, true).Err? ==> r == Err(GetTime(|g|, time, true).error)
    ensures GetTime(|g|, time, true).Ok? ==>
              var tb := GetTime(|g|, time, true).value;
              var h := MadRounds(Velocities(g, norm), th0 / tb.sfreq);
              r == Estimate(h, tb.sfreq, tb.irregular)
  {
    var t := GetTime(|g|, time, true);
    if t.Err? {
      return Err(t.error);
    }
    var sfreq := t.value.sfreq;
    var h := MadLoop(Velocities(g, norm), th0 / sfreq);
    r := Estimate(h, sfreq, t.value.irregular);
  }

  // ---------------------------------------------------------------------
  // Properties of the MAD estimator

  /** The shape of a threshold history started at `th`: every round that
      goes on lowers the threshold by more than 1, the last round by at most
      1, every threshold after the first is non-negative, and so the number
      of rounds is bounded by the initial threshold. */
  ghost predicate Descending(h: seq<real>, th: real)
  {
    && |h| >= 2 && h[0] == th
    && (forall i :: 0 <= i < |h| - 2 ==> h[i] - h[i + 1] > 1.0)
    && h[|h| - 2] - h[|h| - 1] <= 1.0
    && (forall i :: 1 <= i < |h| ==> h[i] >= 0.0)
    && (|h| - 2) as real < th
  }

  lemma DescendingCons(th: real, rest: seq<real>)
    requires |rest| >= 2 && Descending(rest, rest[0]) && th - rest[0] > 1.0
    ensures Descending([th] + rest, th)
  {
    var h := [th] + rest;
    forall i | 1 <= i < |h| ensures h[i] >= 0.0 {
      assert h[i] == rest[i - 1];
    }
    forall i | 0 <= i < |h| - 2 ensures h[i] - h[i + 1] > 1.0 {
      if i > 0 {
        assert h[i] == rest[i - 1] && h[i + 1] == rest[i];
      }
    }
    assert h[|h| - 2] == rest[|rest| - 2] && h[|h| - 1] == rest[|rest| - 1];
  }

  lemma {:induction false} MadHistory(pop: seq<real>, th: real)
    requires NonNegative(pop) && MadRounds(pop, th).Ok?
    ensures Descending(MadRounds(pop, th).value, th)
    decreases if th <= 0.0 then 0 else th.Floor + 1
  {
    var p := Below(pop, th);
    assert p[0] in p;
    var th1 := NextThreshold(p);
    if th - th1 > 1.0 {
      MadHistory(p, th1);
      DescendingCons(th, MadRounds(p, th1).value);
    }
  }

  /** Filtering the population cumulatively, as the loop does, is the same
      as filtering the original population by the latest threshold. */
  lemma MadFilterFree(s: seq<real>, a: real, b: real)
    requires NonNegative(s) && b <= a
    ensures NonNegative(Below(s, a))
    ensures MadRounds(Below(s, a), b) == MadRounds(s, b)
  {
    BelowCumulative(s, a, b);
  }

  lemma {:induction false} NothingBelow(s: seq<real>, th: real)
    requires forall i :: 0 <= i < |s| ==> s[i] >= th
    ensures Below(s, th) == []
  {
    if s != [] {
      NothingBelow(s[..|s| - 1], th);
    }
  }

  lemma StillThreshold(p: seq<real>)
    requires p != [] && forall i :: 0 <= i < |p| ==> p[i] == 0.0
    ensures NonNegative(p) && NextThreshold(p) == 0.0
  {
    assert Min(p) in p && Max(p) in p;
    var d := Deviations(p, Median(p));
    assert forall i :: 0 <= i < |d| ==> d[i] == 0.0;
    assert Min(d) in d && Max(d) in d;
  }

  /** A population that is all 0 (a gaze that never moves): a threshold in
      `(0, 1]` gives the estimate 0; a larger one first drops to 0 and then
      finds no velocity below 0, which ends in failure. */
  lemma StillPopulation(pop: seq<real>, th: real)
    requires pop != [] && forall i :: 0 <= i < |pop| ==> pop[i] == 0.0
    ensures NonNegative(pop)
    ensures MadRounds(pop, th) == if 0.0 < th <= 1.0 then Ok([th, 0.0]) else Err(EmptyPopulation)
  {
    if th > 0.0 {
      var p := StillSurvivors(pop, th);
      StillThreshold(p);
      if th > 1.0 {
        NothingBelow(p, 0.0);
        assert MadRounds(p, 0.0) == Err(EmptyPopulation);
      }
    } else {
      NothingBelow(pop, th);
    }
  }

  /** Below a positive threshold every 0 of the population survives. */
  lemma StillSurvivors(pop: seq<real>, th: real) returns (p: seq<real>)
    requires pop != [] && forall i :: 0 <= i < |pop| ==> pop[i] == 0.0
    requires th > 0.0
    ensures p == Below(pop, th) && p != []
    ensures forall i :: 0 <= i < |p| ==> p[i] == 0.0
  {
    p := Below(pop, th);
    assert pop[0] in pop;
    forall i | 0 <= i < |p| ensures p[i] == 0.0 {
      assert p[i] in p;
    }
  }

  /** Some round of the estimator from `th` goes on (it lowers the
      threshold by more than 1) to a next threshold of exactly 0. */
  ghost predicate DropsToZero(pop: seq<real>, th: real)
    requires NonNegative(pop)
    decreases if th <= 0.0 then 0 else th.Floor + 1
  {
    var p := Below(pop, th);
    p != [] &&
    var th1 := NextThreshold(p);
    th - th1 > 1.0 && (th1 == 0.0 || DropsToZero(p, th1))
  }

  /** The velocity population always holds the leading 0. While the
      threshold is positive that 0 survives the filtering of the round, so
      the population never empties on its own: the estimator fails exactly
      when some round goes on to the threshold 0, below which no velocity
      lies. */
  lemma {:induction false} ZeroKeepsPopulation(pop: seq<real>, th: real)
    requires NonNegative(pop) && 0.0 in pop && th > 0.0
    ensures 0.0 in Below(pop, th)
    ensures MadRounds(pop, th).Err? <==> DropsToZero(pop, th)
    decreases th.Floor + 1
  {
    var p := Below(pop, th);
    assert 0.0 in p;
    var th1 := NextThreshold(p);
    if th - th1 > 1.0 {
      if th1 == 0.0 {
        forall i | 0 <= i < |p| ensures p[i] >= 0.0 {
          assert p[i] in p;
        }
        NothingBelow(p, 0.0);
        assert MadRounds(p, th1).Err?;
      } else {
        ZeroKeepsPopulation(p, th1);
      }
    }
  }

  /** `mad_velocity_thresh` from a positive initial threshold fails only
      through a round that goes on to the threshold 0. */
  lemma VelocitiesFailOnlyAtZero(g: seq<Point>, norm: (real, real) -> real, th: real)
    requires IsNorm(norm) && th > 0.0
    ensures MadRounds(Velocities(g, norm), th).Err? <==> DropsToZero(Velocities(g, norm), th)
  {
    var v := Velocities(g, norm);
    assert v[0] in v;
    ZeroKeepsPopulation(v, th);
  }

  /** A gaze that never moves has only 0 velocities. */
  lemma SteadyGazeMad(g: seq<Point>, norm: (real, real) -> real, th: real)
    requires IsNorm(norm)
    requires forall i :: 0 <= i < |g| ==> g[i] == g[0]
    ensures MadRounds(Velocities(g, norm), th) == if 0.0 < th <= 1.0 then Ok([th, 0.0]) else Err(EmptyPopulation)
  {
    var v := Velocities(g, norm);
    forall i | 0 <= i < |v| ensures v[i] == 0.0 {
      if i > 0 {
        assert v[i] == Steps(g, norm)[i - 1];
        assert g[i] == g[0] && g[i - 1] == g[0];
      }
    }
    StillPopulation(v, th);
  }
}
