/** The native classifiers of the older `cateye` package: I-VT and I-DT
    with their own inline time handling and the sorting
    `continuous_to_discrete`. */
module CateyeClassification {
  import opened Wrappers
  import opened Ordering
  import opened Stats
  import opened Gaze
  import opened Segments
  import opened Events
  import CateyesUtils
  import opened CateyeUtils
  import opened Dispersion
  import CateyesClassification

  /** Python's `math.ceil` on an exact real. */
  function Ceil(v: real): (k: int)
    ensures k as real - 1.0 < v <= k as real
  {
    -((-v).Floor)
  }

  /** `stop * hz`: how many steps of `1 / hz` fit in `[0, stop)`, as a real. */
  function Span(stop: nat, hz: real): real
  {
    stop as real * hz
  }

  /** `np.arange(0, stop, 1 / hz)`: the multiples of `1 / hz` from 0 on
      that stay below `stop`; none when the step is negative. */
  function Arange(stop: nat, hz: real): (r: seq<real>)
    requires hz != 0.0
    ensures forall i :: 0 <= i < |r| ==> r[i] == i as real / hz && r[i] < stop as real
    ensures hz > 0.0 ==> |r| as real / hz >= stop as real
    ensures hz < 0.0 ==> r == []
  {
    var k := if hz > 0.0 then Ceil(Span(stop, hz)) else 0;
    seq(k, i requires 0 <= i < k => i as real / hz)
  }

  /** The time handling inlined in both classifiers: a time array gives
      `sfreq = 1 / mean(diff)` and warns whenever the steps spread by more
      than `1e-5`; a rate gives `np.arange(0, len(x), 1 / time)`. */
  function ResolveTime(n: nat, time: CateyesUtils.TimeArg): (r: Result<CateyesUtils.TimeBase>)
    ensures time.Rate? ==> (r.Err? <==> time.hz == 0.0)
    ensures time.Rate? && r.Ok? ==> r.value == CateyesUtils.TimeBase(Arange(n, time.hz), time.hz, false)
    ensures time.Stamps? ==>
              var ts := time.stamps;
              (r.Err? <==> |ts| < 2 || ts[|ts| - 1] == ts[0])
    ensures time.Stamps? && r.Ok? ==>
              var ts := time.stamps;
              && r.value.times == ts
              && r.value.sfreq == (|ts| - 1) as real / (ts[|ts| - 1] - ts[0])
              && (r.value.irregular <==> Variance(Diffs(ts)) > 1.0 / 10000000000.0)
  {
    match time
    case Stamps(_) => CateyesUtils.GetTime(n, time, true)
    case Rate(hz) =>
      if hz == 0.0 then Err(ZeroRate)
      else Ok(CateyesUtils.TimeBase(Arange(n, hz), hz, false))
  }

  /** The return value, with the discrete form from the sorting
      `continuous_to_discrete`. */
  function FinishSorted(times: seq<real>, segments: seq<nat>, classes: seq<Label>, discrete: bool, irregular: bool)
    : Result<Classification>
  {
    if !discrete then Ok(Classification(Continuous(segments, classes), irregular))
    else
      match SortedCollapse(times, segments, classes, LabelLt)
      case Ok(d) => Ok(Classification(Discrete(d.0, d.1), irregular))
      case Err(e) => Err(e)
  }

  method EmitSorted(times: seq<real>, segments: seq<nat>, classes: seq<Label>, discrete: bool, irregular: bool)
    returns (r: Result<Classification>)
    ensures r == FinishSorted(times, segments, classes, discrete, irregular)
  {
    if !discrete {
      return Ok(Classification(Continuous(segments, classes), irregular));
    }
    var d := ContinuousToDiscrete(times, segments, classes, LabelLt);
    match d
    case Ok(p) => r := Ok(Classification(Discrete(p.0, p.1), irregular));
    case Err(e) => r := Err(e);
  }

  // ---------------------------------------------------------------------
  // I-VT

  /** `classes[vels > sample_thresh] = "Saccade"`, where `vels[i]` is the
      displacement from sample `i - 1` to sample `i` and the first sample
      gets a padded 0. */
  function LeadingVelocityLabels(g: seq<Point>, norm: (real, real) -> real, thr: real): (c: seq<Label>)
    ensures |c| == |g|
    ensures |g| > 0 ==> (c[0] == Saccade <==> thr < 0.0)
    ensures forall i :: 1 <= i < |g| ==>
              (c[i] == Saccade <==> norm(g[i].x - g[i - 1].x, g[i].y - g[i - 1].y) > thr)
  {
    var steps := Steps(g, norm);
    var v := [0.0] + steps;
    var c := seq(|g|, i requires 0 <= i < |g| => if v[i] > thr then Saccade else Fixation);
    assert forall i :: 1 <= i < |g| ==>
             (c[i] == Saccade <==> norm(g[i].x - g[i - 1].x, g[i].y - g[i - 1].y) > thr) by {
      forall i | 1 <= i < |g|
        ensures c[i] == Saccade <==> norm(g[i].x - g[i - 1].x, g[i].y - g[i - 1].y) > thr
      {
        assert v[i] == steps[i - 1];
        assert i - 1 + 1 == i;
      }
    }
    c
  }

  /** `sfreq * threshold / 1000`: the threshold is taken per millisecond and
      scaled by the sampling rate. */
  function PerSampleThreshold(sfreq: real, threshold: real): (r: real)
    ensures r == 0.0 <==> sfreq == 0.0 || threshold == 0.0
    ensures sfreq > 0.0 ==> (r > 0.0 <==> threshold > 0.0)
  {
    sfreq * threshold / 1000.0
  }

  /** `classify_velocity` of `cateye`: the per-sample threshold is
      `sfreq * threshold / 1000`. */
  method ClassifyVelocity(g: seq<Point>, time: CateyesUtils.TimeArg, threshold: real, norm: (real, real) -> real, discrete: bool)
    returns (r: Result<Classification>)
    ensures ResolveTime(|g|, time).Err? ==> r == Err(ResolveTime(|g|, time).error)
    ensures ResolveTime(|g|, time).Ok? && g == [] ==> r == Err(MaskLengthMismatch)
    ensures ResolveTime(|g|, time).Ok? && g != [] ==>
              var tb := ResolveTime(|g|, time).value;
              var c := LeadingVelocityLabels(g, norm, PerSampleThreshold(tb.sfreq, threshold));
              r == FinishSorted(tb.times, Ordinals(c), c, discrete, tb.irregular)
  {
    var t := ResolveTime(|g|, time);
    if t.Err? {
      return Err(t.error);
    }
    var tb := t.value;
    if g == [] {
      return Err(MaskLengthMismatch);
    }
    var classes := LeadingVelocityLabels(g, norm, PerSampleThreshold(tb.sfreq, threshold));
    var segments := GroupSegments(classes);
    r := EmitSorted(tb.times, segments, classes, discrete, tb.irregular);
  }

  // ---------------------------------------------------------------------
  // I-DT

  /** `classify_dispersion` of `cateye`: the same walk as in `cateyes`, on
      the inline time base. */
  method ClassifyDispersion(g: seq<Point>, time: CateyesUtils.TimeArg, threshold: real, windowLen: real, discrete: bool)
    returns (r: Result<Classification>)
    ensures ResolveTime(|g|, time).Err? ==> r == Err(ResolveTime(|g|, time).error)
    ensures ResolveTime(|g|, time).Ok? ==>
              var tb := ResolveTime(|g|, time).value;
              var n := WindowSamples(tb.sfreq, windowLen);
              && (n.Err? ==> r == Err(n.error))
              && (n.Ok? && n.value == 0 ==> r == Err(EmptyWindow))
              && (n.Ok? && n.value > 0 ==>
                    var w := Walk(g, n.value, threshold, 0, 0);
                    r == FinishSorted(tb.times, w.0, w.1, discrete, tb.irregular))
  {
    var t := ResolveTime(|g|, time);
    if t.Err? {
      return Err(t.error);
    }
    var tb := t.value;
    var n := WindowSamples(tb.sfreq, windowLen);
    if n.Err? {
      return Err(n.error);
    }
    var w := DispersionWalk(g, n.value, threshold);
    if w.Err? {
      return Err(w.error);
    }
    r := EmitSorted(tb.times, w.value.0, w.value.1, discrete, tb.irregular);
  }

  // ---------------------------------------------------------------------
  // Properties

  lemma ScaleByRate(a: real, b: real, hz: real)
    requires hz > 0.0
    ensures a / hz < b <==> a < b * hz
  {
    var q := a / hz;
    assert q * hz == a;
    if q < b {
      assert q * hz < b * hz;
    } else {
      assert q * hz >= b * hz;
    }
  }

  /** For a positive rate, `np.arange` yields `ceil(n * hz)` times. */
  lemma ArangeLength(n: nat, hz: real)
    requires n > 0 && hz > 0.0
    ensures (|Arange(n, hz)| - 1) as real < Span(n, hz) <= |Arange(n, hz)| as real
  {
    var r := Arange(n, hz);
    var k := |r|;
    var x := Span(n, hz);
    assert k as real / hz >= n as real;
    ScaleByRate(k as real, n as real, hz);
    assert x <= k as real;
    assert k > 0;
    assert r[k - 1] == (k - 1) as real / hz && r[k - 1] < n as real;
    ScaleByRate((k - 1) as real, n as real, hz);
  }

  /** An integer `k` with `k - 1 < x <= k` is the only one. */
  lemma CeilUnique(k: int, n: int, x: real)
    requires (k - 1) as real < x <= k as real
    ensures k == n <==> (n - 1) as real < x <= n as real
  {
    if (n - 1) as real < x <= n as real {
      assert k - 1 < n && n - 1 < k;
    }
  }

  /** The rate branch yields one time per gaze sample only for rates in
      `((n - 1) / n, 1]`; any other rate gives more or fewer times than
      samples. */
  lemma ArangeMatchesSamples(n: nat, hz: real)
    requires n > 0 && hz > 0.0
    ensures |Arange(n, hz)| == n <==> (n - 1) as real < Span(n, hz) <= n as real
  {
    ArangeLength(n, hz);
    CeilUnique(|Arange(n, hz)|, n, Span(n, hz));
  }

  /** The old labelling is the current one shifted by one sample: sample
      `i + 1` here is judged by the step that judges sample `i` there. */
  lemma LabelsShifted(g: seq<Point>, norm: (real, real) -> real, thr: real)
    requires |g| > 0
    ensures LeadingVelocityLabels(g, norm, thr)[1..] ==
            CateyesClassification.VelocityLabels(g, norm, thr)[..|g| - 1]
  {
    var a := LeadingVelocityLabels(g, norm, thr)[1..];
    var b := CateyesClassification.VelocityLabels(g, norm, thr)[..|g| - 1];
    forall i | 0 <= i < |a| ensures a[i] == b[i] {
      assert a[i] == LeadingVelocityLabels(g, norm, thr)[i + 1];
    }
  }

  /** On I-VT output (ordinals of a label sequence) the sorting
      `continuous_to_discrete` of this package agrees with the walk of the
      current package. */
  lemma OrdinalsCollapseAgree(times: seq<real>, c: seq<Label>)
    ensures SortedCollapse(times, Ordinals(c), c, LabelLt) == Collapse(times, Ordinals(c), c)
  {
    var o := Ordinals(c);
    LabelOrder();
    forall i, j | 0 <= i < j < |o| ensures o[i] <= o[j] {
      OrdinalsMonotone(c, i, j);
    }
    forall i, j | 0 <= i < j < |o| && o[i] == o[j] ensures c[i] == c[j] {
      SameOrdinalSameLabel(c, i, j);
    }
    AgreesOnOrderedInput(times, o, c, LabelLt);
  }
}
