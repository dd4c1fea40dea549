/** The numpy reductions the library uses, over exact reals: sum, mean,
    population variance, max, min, median and boolean-mask filtering. */
module Stats {
  import opened Ordering

  function Abs(r: real): real { if r < 0.0 then -r else r }

  function Sum(s: seq<real>): real
  {
    if s == [] then 0.0 else Sum(s[..|s| - 1]) + s[|s| - 1]
  }

  /** `np.mean`: the mean lies between the least and the greatest element. */
  function Mean(s: seq<real>): (m: real)
    requires |s| > 0
    ensures Min(s) <= m <= Max(s)
  {
    var n := |s| as real;
    SumBounds(s, Min(s), Max(s));
    DivideBounds(Sum(s), n, Min(s), Max(s));
    Sum(s) / n
  }

  /** A sum of `|s|` terms in `[lo, hi]` lies in `[|s| * lo, |s| * hi]`. */
  lemma {:induction false} SumBounds(s: seq<real>, lo: real, hi: real)
    requires forall i :: 0 <= i < |s| ==> lo <= s[i] <= hi
    ensures |s| as real * lo <= Sum(s) <= |s| as real * hi
  {
    if s != [] {
      var n := |s| as real;
      SumBounds(s[..|s| - 1], lo, hi);
      assert n * lo == (n - 1.0) * lo + lo && n * hi == (n - 1.0) * hi + hi;
    }
  }

  lemma DivideBounds(x: real, n: real, lo: real, hi: real)
    requires n > 0.0 && n * lo <= x <= n * hi
    ensures lo <= x / n <= hi
  {
    assert (n * lo) / n == lo && (n * hi) / n == hi;
  }

  /** `t[1:] - t[:-1]`: the step from each element to the next. */
  function Diffs(t: seq<real>): (d: seq<real>)
    ensures |d| == if t == [] then 0 else |t| - 1
  {
    seq(if t == [] then 0 else |t| - 1, i requires 0 <= i < |t| - 1 => t[i + 1] - t[i])
  }

  /** `np.std(s) ** 2`: the mean squared deviation from the mean. */
  function Variance(s: seq<real>): (v: real)
    requires |s| > 0
    ensures v >= 0.0
  {
    var sq := Squares(s, Mean(s));
    assert Min(sq) in sq;
    Mean(sq)
  }

  /** `(s - m) ** 2` element-wise: no square is negative. */
  function Squares(s: seq<real>, m: real): (q: seq<real>)
    ensures |q| == |s|
    ensures forall i :: 0 <= i < |s| ==> q[i] >= 0.0
  {
    if s == [] then []
    else
      var d := s[|s| - 1] - m;
      assert d * d >= 0.0 by {
        if d < 0.0 {
          assert d * d == (-d) * (-d);
        }
      }
      Squares(s[..|s| - 1], m) + [d * d]
  }

  /** The steps of a sequence add up to its last element minus its first. */
  lemma {:induction false} SumDiffs(t: seq<real>)
    requires |t| > 0
    ensures Sum(Diffs(t)) == t[|t| - 1] - t[0]
  {
    if |t| > 1 {
      var p := t[..|t| - 1];
      SumDiffs(p);
      assert Diffs(t)[..|t| - 2] == Diffs(p);
    }
  }

  /** `mean(diff(t))` telescopes. */
  lemma MeanDiffs(t: seq<real>)
    requires |t| >= 2
    ensures Mean(Diffs(t)) == (t[|t| - 1] - t[0]) / (|t| - 1) as real
  {
    SumDiffs(t);
  }

  lemma {:induction false} SumConstant(s: seq<real>, c: real)
    requires forall i :: 0 <= i < |s| ==> s[i] == c
    ensures Sum(s) == |s| as real * c
  {
    if s != [] {
      SumConstant(s[..|s| - 1], c);
    }
  }

  lemma {:induction false} SquaresAtCentre(s: seq<real>, c: real)
    requires forall i :: 0 <= i < |s| ==> s[i] == c
    ensures forall i :: 0 <= i < |s| ==> Squares(s, c)[i] == 0.0
  {
    if s != [] {
      SquaresAtCentre(s[..|s| - 1], c);
    }
  }

  /** A sequence of equal values has its value as mean and no spread. */
  lemma ConstantVariance(s: seq<real>, c: real)
    requires |s| > 0
    requires forall i :: 0 <= i < |s| ==> s[i] == c
    ensures Mean(s) == c && Variance(s) == 0.0
  {
    SumConstant(s, c);
    var n := |s| as real;
    assert Mean(s) == (n * c) / n == c;
    SquaresAtCentre(s, c);
    SumConstant(Squares(s, c), 0.0);
  }

  function Max(s: seq<real>): (m: real)
    requires |s| > 0
    ensures m in s
    ensures forall i :: 0 <= i < |s| ==> s[i] <= m
  {
    if |s| == 1 then s[0]
    else
      var m' := Max(s[..|s| - 1]);
      if s[|s| - 1] > m' then s[|s| - 1] else m'
  }

  function Min(s: seq<real>): (m: real)
    requires |s| > 0
    ensures m in s
    ensures forall i :: 0 <= i < |s| ==> m <= s[i]
  {
    if |s| == 1 then s[0]
    else
      var m' := Min(s[..|s| - 1]);
      if s[|s| - 1] < m' then s[|s| - 1] else m'
  }

  /** `np.median`: the middle element of the sorted sequence, or the mean
      of the two middle elements when the length is even. */
  function Median(s: seq<real>): (m: real)
    requires |s| > 0
    ensures Min(s) <= m <= Max(s)
  {
    var t := Sort(s, RealLt);
    var k := |t| / 2;
    assert t[k] in multiset(s) && t[k] in s;
    assert t[|t| - 1 - k] in multiset(s) && t[|t| - 1 - k] in s;
    if |t| % 2 == 1 then t[k] else (t[k - 1] + t[k]) / 2.0
  }

  /** `s[s < th]`: the elements below `th`, in their order. */
  function Below(s: seq<real>, th: real): (r: seq<real>)
    ensures forall x :: x in r ==> x < th && x in s
    ensures forall x :: x in s && x < th ==> x in r
    ensures forall x :: multiset(r)[x] == if x < th then multiset(s)[x] else 0
    ensures |r| <= |s|
  {
    if s == [] then []
    else
      assert s == s[..|s| - 1] + [s[|s| - 1]];
      Below(s[..|s| - 1], th) + (if s[|s| - 1] < th then [s[|s| - 1]] else [])
  }

  /** Filtering twice keeps what the lower bound alone keeps. */
  lemma {:induction false} BelowCumulative(s: seq<real>, a: real, b: real)
    requires b <= a
    ensures Below(Below(s, a), b) == Below(s, b)
  {
    if s != [] {
      var p := s[..|s| - 1];
      var x := s[|s| - 1];
      BelowCumulative(p, a, b);
      if x < a {
        assert Below(s, a) == Below(p, a) + [x];
        assert Below(s, a)[..|Below(s, a)| - 1] == Below(p, a);
      } else {
        assert Below(s, a) == Below(p, a);
      }
    }
  }

  /** `|s - m|` element-wise (`sqrt((s - m) ** 2)` in the library). */
  function Deviations(s: seq<real>, m: real): (d: seq<real>)
    ensures |d| == |s|
    ensures forall i :: 0 <= i < |s| ==> d[i] >= 0.0
  {
    seq(|s|, i requires 0 <= i < |s| => Abs(s[i] - m))
  }

  /** Median absolute deviation from the median. */
  function MedianAbsDeviation(s: seq<real>): (r: real)
    requires |s| > 0
    ensures r >= 0.0
  {
    var d := Deviations(s, Median(s));
    assert Min(d) in d;
    Median(d)
  }
}
