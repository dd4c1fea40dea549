/** Gaze samples, the two labels the native classifiers produce, inter-sample
    displacement and the dispersion of a window. */
module Gaze {
  import opened Ordering
  import opened Stats

  /** One gaze sample: the x and y arrays of the library, zipped. */
  datatype Point = Point(x: real, y: real)

  datatype Label = Fixation | Saccade

  /** What a native classifier returns: per-sample ordinals and labels
      (continuous form), or the onset time and label of every segment
      (discrete form). */
  datatype Output =
    | Continuous(segments: seq<nat>, classes: seq<Label>)
    | Discrete(onsets: seq<real>, labels: seq<Label>)

  /** A classifier's output together with the irregular-sampling warning. */
  datatype Classification = Classification(output: Output, irregular: bool)

  /** The order of the label strings: "Fixation" < "Saccade". */
  function LabelLt(a: Label, b: Label): bool
  {
    a == Fixation && b == Saccade
  }

  lemma LabelOrder()
    ensures StrictTotalOrder(LabelLt)
  {
  }

  /** What the model assumes of `np.linalg.norm` on a displacement vector. */
  ghost predicate IsNorm(norm: (real, real) -> real)
  {
    && (forall dx, dy :: norm(dx, dy) >= 0.0)
    && norm(0.0, 0.0) == 0.0
  }

  /** `np.linalg.norm(gaze[:, 1:] - gaze[:, :-1], axis=0)`: the length of the
      displacement from each sample to the next. */
  function Steps(g: seq<Point>, norm: (real, real) -> real): (v: seq<real>)
    ensures |v| == if g == [] then 0 else |g| - 1
  {
    seq(if g == [] then 0 else |g| - 1,
        i requires 0 <= i < |g| - 1 => norm(g[i + 1].x - g[i].x, g[i + 1].y - g[i].y))
  }

  lemma StepsNonNegative(g: seq<Point>, norm: (real, real) -> real)
    requires IsNorm(norm)
    ensures forall i :: 0 <= i < |Steps(g, norm)| ==> Steps(g, norm)[i] >= 0.0
  {
  }

  /** The bounding box of a window: `np.min` and `np.max` of its x and of
      its y coordinates. */
  datatype Box = Box(minX: real, maxX: real, minY: real, maxY: real)

  function Bounds(w: seq<Point>): (box: Box)
    requires |w| > 0
    ensures forall i :: 0 <= i < |w| ==> box.minX <= w[i].x <= box.maxX && box.minY <= w[i].y <= box.maxY
  {
    if |w| == 1 then Box(w[0].x, w[0].x, w[0].y, w[0].y)
    else
      var b := Bounds(w[..|w| - 1]);
      assert forall i :: 0 <= i < |w| - 1 ==> w[i] == w[..|w| - 1][i];
      var p := w[|w| - 1];
      Box(if p.x < b.minX then p.x else b.minX, if p.x > b.maxX then p.x else b.maxX,
          if p.y < b.minY then p.y else b.minY, if p.y > b.maxY then p.y else b.maxY)
  }

  /** The box holds every sample of the window, and each of its sides is
      touched by one. */
  lemma {:induction false} BoundsTight(w: seq<Point>)
    requires |w| > 0
    ensures var b := Bounds(w);
            && (forall i :: 0 <= i < |w| ==> b.minX <= w[i].x <= b.maxX && b.minY <= w[i].y <= b.maxY)
            && (exists i :: 0 <= i < |w| && w[i].x == b.minX)
            && (exists i :: 0 <= i < |w| && w[i].x == b.maxX)
            && (exists i :: 0 <= i < |w| && w[i].y == b.minY)
            && (exists i :: 0 <= i < |w| && w[i].y == b.maxY)
  {
    if |w| > 1 {
      var w' := w[..|w| - 1];
      BoundsTight(w');
      var b' := Bounds(w');
      forall i | 0 <= i < |w'| ensures w[i] == w'[i] { }
      var i1 :| 0 <= i1 < |w'| && w'[i1].x == b'.minX;
      var i2 :| 0 <= i2 < |w'| && w'[i2].x == b'.maxX;
      var i3 :| 0 <= i3 < |w'| && w'[i3].y == b'.minY;
      var i4 :| 0 <= i4 < |w'| && w'[i4].y == b'.maxY;
      assert w[i1] == w'[i1] && w[i2] == w'[i2] && w[i3] == w'[i3] && w[i4] == w'[i4];
      var b, last := Bounds(w), |w| - 1;
      if b.minX == b'.minX { assert w[i1].x == b.minX; } else { assert w[last].x == b.minX; }
      if b.maxX == b'.maxX { assert w[i2].x == b.maxX; } else { assert w[last].x == b.maxX; }
      if b.minY == b'.minY { assert w[i3].y == b.minY; } else { assert w[last].y == b.minY; }
      if b.maxY == b'.maxY { assert w[i4].y == b.maxY; } else { assert w[last].y == b.maxY; }
    } else {
      assert Bounds(w) == Box(w[0].x, w[0].x, w[0].y, w[0].y);
    }
  }

  /** `_disp`: width plus height of the bounding box of a window, never
      negative. */
  function Dispersion(w: seq<Point>): (d: real)
    requires |w| > 0
    ensures d >= 0.0
  {
    var b := Bounds(w);
    (b.maxX - b.minX) + (b.maxY - b.minY)
  }

  /** A window inside another one is no more dispersed than it. */
  lemma DispersionMonotone(w: seq<Point>, a: nat, b: nat)
    requires a < b <= |w|
    ensures Dispersion(w[a..b]) <= Dispersion(w)
  {
    var v := w[a..b];
    BoundsTight(v);
    BoundsTight(w);
    var bv := Bounds(v);
    var i1 :| 0 <= i1 < |v| && v[i1].x == bv.minX;
    var i2 :| 0 <= i2 < |v| && v[i2].x == bv.maxX;
    var i3 :| 0 <= i3 < |v| && v[i3].y == bv.minY;
    var i4 :| 0 <= i4 < |v| && v[i4].y == bv.maxY;
    assert v[i1] == w[a + i1] && v[i2] == w[a + i2] && v[i3] == w[a + i3] && v[i4] == w[a + i4];
  }

  /** A window of identical samples has no dispersion. */
  lemma ConstantDispersion(w: seq<Point>)
    requires |w| > 0
    requires forall i :: 0 <= i < |w| ==> w[i] == w[0]
    ensures Dispersion(w) == 0.0
  {
    BoundsTight(w);
    var b := Bounds(w);
    var i1 :| 0 <= i1 < |w| && w[i1].x == b.minX;
    var i2 :| 0 <= i2 < |w| && w[i2].x == b.maxX;
    var i3 :| 0 <= i3 < |w| && w[i3].y == b.minY;
    var i4 :| 0 <= i4 < |w| && w[i4].y == b.maxY;
  }
}
