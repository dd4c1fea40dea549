/** The dispersion-threshold identification (I-DT) loop shared by
    `classify_dispersion` of both packages: a window of `n` samples slides
    over the recording; a window whose dispersion is within the threshold
    opens a fixation that grows sample by sample until the dispersion
    exceeds the threshold or the recording ends. */
module Dispersion {
  import opened Wrappers
  import opened Gaze

  function Repeat<T>(x: T, k: nat): (r: seq<T>)
    ensures |r| == k
    ensures forall i :: 0 <= i < k ==> r[i] == x
  {
    seq(k, _ => x)
  }

  /** The inner loop: grow the window `g[s..stop]` while it is within the
      threshold and the recording goes on. */
  function Extend(g: seq<Point>, th: real, s: nat, stop: nat): (e: nat)
    requires s < stop <= |g|
    ensures stop <= e <= |g|
    decreases |g| - stop
  {
    if Dispersion(g[s..stop]) <= th && stop < |g| then Extend(g, th, s, stop + 1) else stop
  }

  /** Where the inner loop stops: every window it grew through was within
      the threshold, and it stops at the end of the recording or at the
      first window beyond the threshold, whose last sample (the one that
      broke the threshold) still belongs to the fixation. */
  lemma {:induction false} ExtendStops(g: seq<Point>, th: real, s: nat, stop: nat)
    requires s < stop <= |g|
    ensures var e := Extend(g, th, s, stop);
            && (e == |g| || Dispersion(g[s..e]) > th)
            && (forall k :: stop <= k < e ==> Dispersion(g[s..k]) <= th)
    decreases |g| - stop
  {
    var e := Extend(g, th, s, stop);
    if Dispersion(g[s..stop]) <= th && stop < |g| {
      ExtendStops(g, th, s, stop + 1);
      assert e == Extend(g, th, s, stop + 1);
    } else {
      assert e == stop;
    }
  }

  /** The final segment ordinals and labels of the samples from `s` on, when
      the outer loop reaches window start `s` with ordinal `seg`. Samples the
      loop never writes keep ordinal 0 and the label Saccade. */
  function Walk(g: seq<Point>, n: nat, th: real, s: nat, seg: nat): (r: (seq<nat>, seq<Label>))
    requires n > 0 && s <= |g|
    ensures |r.0| == |g| - s && |r.1| == |g| - s
    decreases |g| - s
  {
    if s + n > |g| then
      (Repeat<nat>(0, |g| - s), Repeat(Saccade, |g| - s))
    else if Dispersion(g[s..s + n]) <= th then
      var e := Extend(g, th, s, s + n);
      var rest := Walk(g, n, th, e, seg + 2);
      (Repeat<nat>(seg + 1, e - s) + rest.0, Repeat(Fixation, e - s) + rest.1)
    else if s + n == |g| then
      (Repeat<nat>(seg, n), Repeat(Saccade, n))
    else
      var rest := Walk(g, n, th, s + 1, seg);
      ([seg] + rest.0, [Saccade] + rest.1)
  }

  /** The walk once no full window is left: nothing more is written. */
  lemma WalkTail(g: seq<Point>, n: nat, th: real, s: nat, seg: nat)
    requires n > 0 && s <= |g| < s + n
    ensures Walk(g, n, th, s, seg) == (Repeat<nat>(0, |g| - s), Repeat(Saccade, |g| - s))
  {
  }

  /** The walk at the last window when it is beyond the threshold. */
  lemma WalkLast(g: seq<Point>, n: nat, th: real, s: nat, seg: nat)
    requires n > 0 && s + n == |g| && Dispersion(g[s..s + n]) > th
    ensures Walk(g, n, th, s, seg) == (Repeat<nat>(seg, n), Repeat(Saccade, n))
  {
  }

  /** The walk at a window within the threshold: a fixation up to where the
      inner loop stops, then the walk from there with the next odd ordinal
      two higher. */
  lemma WalkFixation(g: seq<Point>, n: nat, th: real, s: nat, seg: nat)
    requires n > 0 && s + n <= |g| && Dispersion(g[s..s + n]) <= th
    ensures var e := Extend(g, th, s, s + n);
            var rest := Walk(g, n, th, e, seg + 2);
            Walk(g, n, th, s, seg) == (Repeat<nat>(seg + 1, e - s) + rest.0, Repeat(Fixation, e - s) + rest.1)
  {
  }

  /** The walk at a window beyond the threshold that is not the last one. */
  lemma WalkSlide(g: seq<Point>, n: nat, th: real, s: nat, seg: nat)
    requires n > 0 && s + n < |g| && Dispersion(g[s..s + n]) > th
    ensures var rest := Walk(g, n, th, s + 1, seg);
            Walk(g, n, th, s, seg) == ([seg] + rest.0, [Saccade] + rest.1)
  {
  }

  /** What the arrays will hold once the outer loop finishes, seen from a
      loop head with window start `s` and ordinal `seg`. */
  ghost function Outcome(g: seq<Point>, n: nat, th: real, s: nat, seg: nat,
                         segments: seq<nat>, classes: seq<Label>): (seq<nat>, seq<Label>)
    requires n > 0 && s <= |g| && |segments| == |g| && |classes| == |g|
  {
    if s + n <= |g| then
      var w := Walk(g, n, th, s, seg);
      (segments[..s] + w.0, classes[..s] + w.1)
    else (segments, classes)
  }

  /** The loop writes nothing at or after the window start into `classes`,
      nor at or after the window's last sample into `segments`. */
  ghost predicate TailClear(segments: seq<nat>, classes: seq<Label>, s: nat, n: nat)
  {
    && (forall i :: s <= i < |classes| ==> classes[i] == Saccade)
    && (forall i :: 0 <= i < |segments| && s + n <= i + 1 ==> segments[i] == 0)
  }

  /** Writing a fixation at the window start keeps the part of the arrays
      the loop has not reached clear. */
  lemma FixationKeepsTailClear(s: nat, e: nat, n: nat, seg: nat,
                               segments: seq<nat>, classes: seq<Label>, segments': seq<nat>, classes': seq<Label>)
    requires n > 0 && s + n <= e <= |segments| == |classes|
    requires TailClear(segments, classes, s, n)
    requires segments' == segments[..s] + Repeat<nat>(seg + 1, e - s) + segments[e..]
    requires classes' == classes[..s] + Repeat(Fixation, e - s) + classes[e..]
    ensures TailClear(segments', classes', e, n)
  {
    forall i | e <= i < |classes'| ensures classes'[i] == Saccade {
      assert classes'[i] == classes[i];
    }
    forall i | 0 <= i < |segments'| && e + n <= i + 1 ensures segments'[i] == 0 {
      assert segments'[i] == segments[i];
    }
  }

  /** A fixation followed by more full windows. */
  lemma FixationOutcomeInner(g: seq<Point>, n: nat, th: real, s: nat, seg: nat, e: nat,
                        segments: seq<nat>, classes: seq<Label>, segments': seq<nat>, classes': seq<Label>)
    requires n > 0 && s + n <= |g| && |segments| == |g| && |classes| == |g|
    requires Dispersion(g[s..s + n]) <= th && e == Extend(g, th, s, s + n)
    requires TailClear(segments, classes, s, n)
    requires segments' == segments[..s] + Repeat<nat>(seg + 1, e - s) + segments[e..]
    requires classes' == classes[..s] + Repeat(Fixation, e - s) + classes[e..]
    requires e + n <= |g|
    ensures Outcome(g, n, th, e, seg + 2, segments', classes') == Outcome(g, n, th, s, seg, segments, classes)
  {
    var rest := Walk(g, n, th, e, seg + 2);
    WalkFixation(g, n, th, s, seg);
    var fix: seq<nat> := Repeat<nat>(seg + 1, e - s);
    var lab := Repeat(Fixation, e - s);
    assert segments'[..e] == segments[..s] + fix;
    assert classes'[..e] == classes[..s] + lab;
    assert segments'[..e] + rest.0 == segments[..s] + (fix + rest.0);
    assert classes'[..e] + rest.1 == classes[..s] + (lab + rest.1);
  }

  /** A fixation after which no full window is left. */
  lemma FixationOutcomeEnd(g: seq<Point>, n: nat, th: real, s: nat, seg: nat, e: nat,
                        segments: seq<nat>, classes: seq<Label>, segments': seq<nat>, classes': seq<Label>)
    requires n > 0 && s + n <= |g| && |segments| == |g| && |classes| == |g|
    requires Dispersion(g[s..s + n]) <= th && e == Extend(g, th, s, s + n)
    requires TailClear(segments, classes, s, n)
    requires segments' == segments[..s] + Repeat<nat>(seg + 1, e - s) + segments[e..]
    requires classes' == classes[..s] + Repeat(Fixation, e - s) + classes[e..]
    requires e + n > |g|
    ensures Outcome(g, n, th, e, seg + 2, segments', classes') == Outcome(g, n, th, s, seg, segments, classes)
  {
    var rest := Walk(g, n, th, e, seg + 2);
    WalkFixation(g, n, th, s, seg);
    WalkTail(g, n, th, e, seg + 2);
    var fix: seq<nat> := Repeat<nat>(seg + 1, e - s);
    var lab := Repeat(Fixation, e - s);
    assert segments[e..] == rest.0;
    assert classes[e..] == rest.1;
    assert segments' == segments[..s] + (fix + rest.0);
    assert classes' == classes[..s] + (lab + rest.1);
  }

  /** Writing the window's ordinal at a window beyond the threshold keeps the
      part of the arrays the loop has not reached clear. */
  lemma SlideKeepsTailClear(s: nat, n: nat, seg: nat,
                            segments: seq<nat>, classes: seq<Label>, segments': seq<nat>)
    requires s + n <= |segments| == |classes|
    requires TailClear(segments, classes, s, n)
    requires segments' == segments[..s] + Repeat<nat>(seg, n) + segments[s + n..]
    ensures TailClear(segments', classes, s + 1, n)
  {
    forall i | 0 <= i < |segments'| && s + 1 + n <= i + 1 ensures segments'[i] == 0 {
      assert segments'[i] == segments[i];
    }
  }

  /** A window beyond the threshold that is the last full one. */
  lemma SlideOutcomeLast(g: seq<Point>, n: nat, th: real, s: nat, seg: nat,
                     segments: seq<nat>, classes: seq<Label>, segments': seq<nat>)
    requires n > 0 && |segments| == |g| && |classes| == |g|
    requires s + n == |g| && Dispersion(g[s..s + n]) > th
    requires TailClear(segments, classes, s, n)
    requires segments' == segments[..s] + Repeat<nat>(seg, n) + segments[s + n..]
    ensures Outcome(g, n, th, s + 1, seg, segments', classes) == Outcome(g, n, th, s, seg, segments, classes)
  {
    WalkLast(g, n, th, s, seg);
    assert segments' == segments[..s] + Repeat<nat>(seg, n);
    assert classes == classes[..s] + Repeat(Saccade, n);
  }

  /** A window beyond the threshold with more samples after it. */
  lemma SlideOutcomeInner(g: seq<Point>, n: nat, th: real, s: nat, seg: nat,
                     segments: seq<nat>, classes: seq<Label>, segments': seq<nat>)
    requires n > 0 && |segments| == |g| && |classes| == |g|
    requires s + n < |g| && Dispersion(g[s..s + n]) > th
    requires TailClear(segments, classes, s, n)
    requires segments' == segments[..s] + Repeat<nat>(seg, n) + segments[s + n..]
    ensures Outcome(g, n, th, s + 1, seg, segments', classes) == Outcome(g, n, th, s, seg, segments, classes)
  {
    var rest := Walk(g, n, th, s + 1, seg);
    WalkSlide(g, n, th, s, seg);
    assert segments'[..s + 1] == segments[..s] + [seg];
    assert classes[..s + 1] == classes[..s] + [Saccade];
    assert segments[..s] + [seg] + rest.0 == segments[..s] + ([seg] + rest.0);
    assert classes[..s] + [Saccade] + rest.1 == classes[..s] + ([Saccade] + rest.1);
  }

  /** The inner loop of `classify_dispersion`: one more sample at a time. */
  method GrowFixation(g: seq<Point>, th: real, start: nat, stop0: nat) returns (stop: nat)
    requires start < stop0 <= |g|
    ensures stop == Extend(g, th, start, stop0)
  {
    stop := stop0;
    while Dispersion(g[start..stop]) <= th && stop < |g|
      invariant stop0 <= stop <= |g|
      invariant Extend(g, th, start, stop) == Extend(g, th, start, stop0)
      decreases |g| - stop
    {
      stop := stop + 1;
    }
  }

  /** The slice assignment `a[lo:hi] = v`. */
  method Fill<T>(a: array<T>, lo: nat, hi: nat, v: T)
    requires lo <= hi <= a.Length
    modifies a
    ensures a[..] == old(a[..])[..lo] + Repeat(v, hi - lo) + old(a[..])[hi..]
  {
    forall i | lo <= i < hi {
      a[i] := v;
    }
  }

  /** One round of the outer loop at a window within the threshold: grow
      it, then label it a fixation with the next odd ordinal. */
  method FixationRound(g: seq<Point>, n: nat, th: real, segments: array<nat>, classes: array<Label>,
                       start: nat, seg: nat) returns (stop: nat)
    requires n > 0 && start + n <= |g| && segments.Length == |g| && classes.Length == |g|
    requires Dispersion(g[start..start + n]) <= th
    requires TailClear(segments[..], classes[..], start, n)
    modifies segments, classes
    ensures stop == Extend(g, th, start, start + n)
    ensures TailClear(segments[..], classes[..], stop, n)
    ensures Outcome(g, n, th, stop, seg + 2, segments[..], classes[..])
            == Outcome(g, n, th, start, seg, old(segments[..]), old(classes[..]))
  {
    ghost var segments0, classes0 := segments[..], classes[..];
    stop := GrowFixation(g, th, start, start + n);
    Fill(classes, start, stop, Fixation);
    Fill(segments, start, stop, seg + 1);
    FixationKeepsTailClear(start, stop, n, seg, segments0, classes0, segments[..], classes[..]);
    if stop + n <= |g| {
      FixationOutcomeInner(g, n, th, start, seg, stop, segments0, classes0, segments[..], classes[..]);
    } else {
      FixationOutcomeEnd(g, n, th, start, seg, stop, segments0, classes0, segments[..], classes[..]);
    }
  }

  /** One round of the outer loop at a window beyond the threshold: give the
      window the current even ordinal and slide by one sample. */
  method SlideRound(g: seq<Point>, n: nat, th: real, segments: array<nat>, classes: array<Label>,
                    start: nat, seg: nat)
    requires n > 0 && start + n <= |g| && segments.Length == |g| && classes.Length == |g|
    requires Dispersion(g[start..start + n]) > th
    requires TailClear(segments[..], classes[..], start, n)
    modifies segments
    ensures TailClear(segments[..], classes[..], start + 1, n)
    ensures Outcome(g, n, th, start + 1, seg, segments[..], classes[..])
            == Outcome(g, n, th, start, seg, old(segments[..]), classes[..])
  {
    ghost var segments0 := segments[..];
    Fill(segments, start, start + n, seg);
    SlideKeepsTailClear(start, n, seg, segments0, classes[..], segments[..]);
    if start + n == |g| {
      SlideOutcomeLast(g, n, th, start, seg, segments0, classes[..], segments[..]);
    } else {
      SlideOutcomeInner(g, n, th, start, seg, segments0, classes[..], segments[..]);
    }
  }

  /** `classify_dispersion`'s main loop, over arrays that start as all 0 and
      all "Saccade". A window of no samples has no maximum. */
  method DispersionWalk(g: seq<Point>, n: nat, th: real) returns (r: Result<(seq<nat>, seq<Label>)>)
    ensures n == 0 ==> r == Err(EmptyWindow)
    ensures n > 0 ==> r == Ok(Walk(g, n, th, 0, 0))
  {
    if n == 0 {
      return Err(EmptyWindow);
    }
    var len := |g|;
    var segments := new nat[len](_ => 0);
    var classes := new Label[len](_ => Saccade);
    var start, stop, seg := 0, n, 0;
    ghost var goal := Walk(g, n, th, 0, 0);
    assert segments[..] == Repeat<nat>(0, len) && classes[..] == Repeat(Saccade, len);
    if n > len {
      assert goal == (Repeat<nat>(0, len), Repeat(Saccade, len));
    } else {
      assert segments[..0] + goal.0 == goal.0 && classes[..0] + goal.1 == goal.1;
    }
    while stop <= len
      invariant stop == start + n && start <= len
      invariant segments.Length == len && classes.Length == len
      invariant TailClear(segments[..], classes[..], start, n)
      invariant Outcome(g, n, th, start, seg, segments[..], classes[..]) == goal
      decreases len - start
    {
      if Dispersion(g[start..stop]) <= th {
        stop := FixationRound(g, n, th, segments, classes, start, seg);
        start := stop;
        stop := stop + n;
        seg := seg + 2;
      } else {
        SlideRound(g, n, th, segments, classes, start, seg);
        start := start + 1;
        stop := start + n;
      }
    }
    r := Ok((segments[..], classes[..]));
  }

  /** Python's `int` on a float: truncation toward zero. */
  function Truncate(v: real): (k: int)
    ensures v >= 0.0 ==> k as real <= v < k as real + 1.0
    ensures v < 0.0 ==> k as real - 1.0 < v <= k as real
  {
    if v >= 0.0 then v.Floor else -((-v).Floor)
  }

  /** `n_samples = int(sfreq * window_len)`. A negative count is reported
      as a failure. */
  function WindowSamples(sfreq: real, windowLen: real): (r: Result<nat>)
    ensures r.Err? <==> sfreq * windowLen <= -1.0
    ensures r.Ok? && sfreq * windowLen >= 0.0 ==> r.value as real <= sfreq * windowLen < r.value as real + 1.0
    ensures r.Ok? && sfreq * windowLen < 0.0 ==> r.value == 0
  {
    var k := Truncate(sfreq * windowLen);
    if k < 0 then Err(NegativeWindow) else Ok(k)
  }

  // ---------------------------------------------------------------------
  // Properties of the labelling

  /** Fixations carry the odd ordinals and every other sample an even one. */
  ghost predicate FixationsOdd(segments: seq<nat>, classes: seq<Label>)
  {
    |segments| == |classes| &&
    forall i :: 0 <= i < |classes| ==> (classes[i] == Fixation <==> segments[i] % 2 == 1)
  }

  lemma FixationsOddConcat(a0: seq<nat>, a1: seq<Label>, b0: seq<nat>, b1: seq<Label>)
    requires FixationsOdd(a0, a1) && FixationsOdd(b0, b1)
    ensures FixationsOdd(a0 + b0, a1 + b1)
  {
    var c0, c1 := a0 + b0, a1 + b1;
    forall i | 0 <= i < |c1| ensures c1[i] == Fixation <==> c0[i] % 2 == 1 {
      if i < |a1| {
        assert c0[i] == a0[i] && c1[i] == a1[i];
      } else {
        assert c0[i] == b0[i - |a1|] && c1[i] == b1[i - |a1|];
      }
    }
  }

  lemma ParityAfterFixation(g: seq<Point>, n: nat, th: real, s: nat, seg: nat)
    requires n > 0 && s + n <= |g| && Dispersion(g[s..s + n]) <= th && seg % 2 == 0
    requires var e := Extend(g, th, s, s + n);
             FixationsOdd(Walk(g, n, th, e, seg + 2).0, Walk(g, n, th, e, seg + 2).1)
    ensures FixationsOdd(Walk(g, n, th, s, seg).0, Walk(g, n, th, s, seg).1)
  {
    var e := Extend(g, th, s, s + n);
    var rest := Walk(g, n, th, e, seg + 2);
    var fix := (Repeat<nat>(seg + 1, e - s), Repeat(Fixation, e - s));
    WalkFixation(g, n, th, s, seg);
    assert Walk(g, n, th, s, seg) == (fix.0 + rest.0, fix.1 + rest.1);
    FixationsOddConcat(fix.0, fix.1, rest.0, rest.1);
  }

  lemma ParityAfterSlide(g: seq<Point>, n: nat, th: real, s: nat, seg: nat)
    requires n > 0 && s + n < |g| && Dispersion(g[s..s + n]) > th && seg % 2 == 0
    requires FixationsOdd(Walk(g, n, th, s + 1, seg).0, Walk(g, n, th, s + 1, seg).1)
    ensures FixationsOdd(Walk(g, n, th, s, seg).0, Walk(g, n, th, s, seg).1)
  {
    var rest := Walk(g, n, th, s + 1, seg);
    WalkSlide(g, n, th, s, seg);
    FixationsOddConcat([seg], [Saccade], rest.0, rest.1);
  }

  lemma {:induction false} WalkParity(g: seq<Point>, n: nat, th: real, s: nat, seg: nat)
    requires n > 0 && s <= |g| && seg % 2 == 0
    ensures FixationsOdd(Walk(g, n, th, s, seg).0, Walk(g, n, th, s, seg).1)
    decreases |g| - s
  {
    if s + n > |g| {
      WalkTail(g, n, th, s, seg);
    } else if Dispersion(g[s..s + n]) <= th {
      WalkParity(g, n, th, Extend(g, th, s, s + n), seg + 2);
      ParityAfterFixation(g, n, th, s, seg);
    } else if s + n == |g| {
      WalkLast(g, n, th, s, seg);
    } else {
      WalkParity(g, n, th, s + 1, seg);
      ParityAfterSlide(g, n, th, s, seg);
    }
  }

  /** A full window starts at sample `a` and is beyond the threshold. */
  ghost predicate WindowTooWide(g: seq<Point>, n: nat, th: real, a: nat)
  {
    n > 0 && a + n <= |g| && Dispersion(g[a..a + n]) > th
  }

  /** Every sample labelled Saccade (the labels of the samples from `s` on)
      that still has a full window after it starts a window beyond the
      threshold. */
  ghost predicate SaccadesTooWide(g: seq<Point>, n: nat, th: real, s: nat, classes: seq<Label>)
  {
    forall a :: s <= a < s + |classes| && a + n <= |g| && classes[a - s] == Saccade ==>
      WindowTooWide(g, n, th, a)
  }

  lemma SaccadesTooWideConcat(g: seq<Point>, n: nat, th: real, s: nat, m: nat, prefix: seq<Label>, rest: seq<Label>)
    requires m == s + |prefix|
    requires SaccadesTooWide(g, n, th, s, prefix)
    requires SaccadesTooWide(g, n, th, m, rest)
    ensures SaccadesTooWide(g, n, th, s, prefix + rest)
  {
    var c := prefix + rest;
    forall a | s <= a < s + |c| && a + n <= |g| && c[a - s] == Saccade
      ensures WindowTooWide(g, n, th, a)
    {
      if a - s >= |prefix| {
        assert c[a - s] == rest[a - m];
      } else {
        assert c[a - s] == prefix[a - s];
      }
    }
  }

  lemma FixationsNeedNoCheck(g: seq<Point>, n: nat, th: real, s: nat, k: nat)
    ensures SaccadesTooWide(g, n, th, s, Repeat(Fixation, k))
  {
  }

  lemma SaccadesAfterFixation(g: seq<Point>, n: nat, th: real, s: nat, seg: nat)
    requires n > 0 && s + n <= |g| && Dispersion(g[s..s + n]) <= th
    requires var e := Extend(g, th, s, s + n);
             SaccadesTooWide(g, n, th, e, Walk(g, n, th, e, seg + 2).1)
    ensures SaccadesTooWide(g, n, th, s, Walk(g, n, th, s, seg).1)
  {
    var e := Extend(g, th, s, s + n);
    var rest := Walk(g, n, th, e, seg + 2).1;
    var fix := Repeat(Fixation, e - s);
    WalkFixation(g, n, th, s, seg);
    assert Walk(g, n, th, s, seg).1 == fix + rest;
    FixationsNeedNoCheck(g, n, th, s, e - s);
    SaccadesTooWideConcat(g, n, th, s, e, fix, rest);
  }

  lemma SaccadesAfterSlide(g: seq<Point>, n: nat, th: real, s: nat, seg: nat)
    requires n > 0 && s + n < |g| && Dispersion(g[s..s + n]) > th
    requires SaccadesTooWide(g, n, th, s + 1, Walk(g, n, th, s + 1, seg).1)
    ensures SaccadesTooWide(g, n, th, s, Walk(g, n, th, s, seg).1)
  {
    WalkSlide(g, n, th, s, seg);
    assert WindowTooWide(g, n, th, s);
    SaccadesTooWideConcat(g, n, th, s, s + 1, [Saccade], Walk(g, n, th, s + 1, seg).1);
  }

  lemma {:induction false} SaccadeWindowTooWide(g: seq<Point>, n: nat, th: real, s: nat, seg: nat)
    requires n > 0 && s <= |g|
    ensures SaccadesTooWide(g, n, th, s, Walk(g, n, th, s, seg).1)
    decreases |g| - s
  {
    if s + n > |g| {
      WalkTail(g, n, th, s, seg);
    } else if Dispersion(g[s..s + n]) <= th {
      SaccadeWindowTooWide(g, n, th, Extend(g, th, s, s + n), seg + 2);
      SaccadesAfterFixation(g, n, th, s, seg);
    } else if s + n == |g| {
      WalkLast(g, n, th, s, seg);
      assert WindowTooWide(g, n, th, s);
    } else {
      SaccadeWindowTooWide(g, n, th, s + 1, seg);
      SaccadesAfterSlide(g, n, th, s, seg);
    }
  }

  /** Sample `a` opens a fixation: a full window starts there and stays
      within the threshold. */
  ghost predicate OpensFixation(g: seq<Point>, n: nat, th: real, a: nat)
  {
    n > 0 && a + n <= |g| && Dispersion(g[a..a + n]) <= th
  }

  /** Where the fixation opened at `a` ends: the inner loop's last stop,
      at least a full window after `a`. */
  ghost function FixationEnd(g: seq<Point>, n: nat, th: real, a: nat): (e: nat)
    requires OpensFixation(g, n, th, a)
    ensures a + n <= e <= |g|
  {
    Extend(g, th, a, a + n)
  }

  /** Positions `lo` to `hi` of a walk's output are one fixation: all
      labelled Fixation and all sharing the ordinal at `lo`. */
  ghost predicate FixationRun(r: (seq<nat>, seq<Label>), lo: nat, hi: nat)
  {
    && |r.0| == |r.1|
    && lo < hi <= |r.1|
    && forall k :: lo <= k < hi ==> r.1[k] == Fixation && r.0[k] == r.0[lo]
  }

  /** A run stays a run with anything put before it. */
  lemma FixationRunShift(x: (seq<nat>, seq<Label>), y: (seq<nat>, seq<Label>), lo: nat, hi: nat)
    requires |x.0| == |x.1| && FixationRun(y, lo, hi)
    ensures FixationRun((x.0 + y.0, x.1 + y.1), |x.1| + lo, |x.1| + hi)
  {
    var c := (x.0 + y.0, x.1 + y.1);
    var m := |x.1|;
    forall k | m + lo <= k < m + hi ensures c.1[k] == Fixation && c.0[k] == c.0[m + lo] {
      assert c.1[k] == y.1[k - m] && c.0[k] == y.0[k - m];
    }
  }

  /** A run stays a run with anything put after it. */
  lemma FixationRunExtend(x: (seq<nat>, seq<Label>), y: (seq<nat>, seq<Label>), lo: nat, hi: nat)
    requires |y.0| == |y.1| && FixationRun(x, lo, hi)
    ensures FixationRun((x.0 + y.0, x.1 + y.1), lo, hi)
  {
    var c := (x.0 + y.0, x.1 + y.1);
    forall k | lo <= k < hi ensures c.1[k] == Fixation && c.0[k] == c.0[lo] {
      assert c.1[k] == x.1[k] && c.0[k] == x.0[k] && c.0[lo] == x.0[lo];
    }
  }

  /** Sample `s + i` of a walk from `s` with output `r` belongs to the
      fixation opened at `a`: the window at `a` is within the threshold,
      the inner loop grew it past `s + i`, and the whole of it, at least `n`
      samples, is labelled Fixation with one ordinal. */
  ghost predicate OpenedAt(g: seq<Point>, n: nat, th: real, s: nat, r: (seq<nat>, seq<Label>), i: nat, a: nat)
  {
    && s <= a <= s + i
    && OpensFixation(g, n, th, a)
    && s + i < FixationEnd(g, n, th, a)
    && FixationRun(r, a - s, FixationEnd(g, n, th, a) - s)
  }

  /** Every sample labelled Fixation (in the output `r` of the walk from
      `s`) lies in a run that opened no earlier than the walk's start. */
  ghost predicate FixationsOpened(g: seq<Point>, n: nat, th: real, s: nat, r: (seq<nat>, seq<Label>))
  {
    forall i: nat :: i < |r.1| && r.1[i] == Fixation ==> exists a: nat :: OpenedAt(g, n, th, s, r, i, a)
  }

  lemma OpenedAtExtend(g: seq<Point>, n: nat, th: real, s: nat,
                       x: (seq<nat>, seq<Label>), y: (seq<nat>, seq<Label>), i: nat, a: nat)
    requires |y.0| == |y.1| && OpenedAt(g, n, th, s, x, i, a)
    ensures OpenedAt(g, n, th, s, (x.0 + y.0, x.1 + y.1), i, a)
  {
    FixationRunExtend(x, y, a - s, FixationEnd(g, n, th, a) - s);
  }

  lemma OpenedAtShift(g: seq<Point>, n: nat, th: real, s: nat, m: nat,
                      x: (seq<nat>, seq<Label>), y: (seq<nat>, seq<Label>), k: nat, a: nat)
    requires |x.0| == |x.1| && m == s + |x.1| && OpenedAt(g, n, th, m, y, k, a)
    ensures OpenedAt(g, n, th, s, (x.0 + y.0, x.1 + y.1), |x.1| + k, a)
  {
    FixationRunShift(x, y, a - m, FixationEnd(g, n, th, a) - m);
    assert a - s == |x.1| + (a - m);
  }

  lemma FixationsOpenedConcat(g: seq<Point>, n: nat, th: real, s: nat, m: nat,
                              x: (seq<nat>, seq<Label>), y: (seq<nat>, seq<Label>))
    requires |x.0| == |x.1| && |y.0| == |y.1| && m == s + |x.1|
    requires FixationsOpened(g, n, th, s, x) && FixationsOpened(g, n, th, m, y)
    ensures FixationsOpened(g, n, th, s, (x.0 + y.0, x.1 + y.1))
  {
    var c := (x.0 + y.0, x.1 + y.1);
    forall i: nat | i < |c.1| && c.1[i] == Fixation
      ensures exists a: nat :: OpenedAt(g, n, th, s, c, i, a)
    {
      if i < |x.1| {
        assert x.1[i] == c.1[i];
        var a: nat :| OpenedAt(g, n, th, s, x, i, a);
        OpenedAtExtend(g, n, th, s, x, y, i, a);
        assert OpenedAt(g, n, th, s, c, i, a);
      } else {
        var k: nat := i - |x.1|;
        assert y.1[k] == c.1[i];
        var a: nat :| OpenedAt(g, n, th, m, y, k, a);
        OpenedAtShift(g, n, th, s, m, x, y, k, a);
        assert |x.1| + k == i;
        assert OpenedAt(g, n, th, s, c, i, a);
      }
    }
  }

  /** The fixation written at a window within the threshold is one run. */
  lemma FixationBlockOpened(g: seq<Point>, n: nat, th: real, s: nat, seg: nat)
    requires OpensFixation(g, n, th, s)
    ensures var e := FixationEnd(g, n, th, s);
            FixationsOpened(g, n, th, s, (Repeat<nat>(seg + 1, e - s), Repeat(Fixation, e - s)))
  {
    var e := FixationEnd(g, n, th, s);
    var fix := (Repeat<nat>(seg + 1, e - s), Repeat(Fixation, e - s));
    assert FixationRun(fix, 0, e - s);
    forall i: nat | i < |fix.1| && fix.1[i] == Fixation
      ensures exists a: nat :: OpenedAt(g, n, th, s, fix, i, a)
    {
      assert OpenedAt(g, n, th, s, fix, i, s);
    }
  }

  /** A window beyond the threshold writes no fixation. */
  lemma SaccadeOpensNothing(g: seq<Point>, n: nat, th: real, s: nat, seg: nat)
    ensures FixationsOpened(g, n, th, s, ([seg], [Saccade]))
  {
  }

  lemma OpenedAfterFixation(g: seq<Point>, n: nat, th: real, s: nat, seg: nat)
    requires n > 0 && s + n <= |g| && Dispersion(g[s..s + n]) <= th
    requires var e := Extend(g, th, s, s + n);
             FixationsOpened(g, n, th, e, Walk(g, n, th, e, seg + 2))
    ensures FixationsOpened(g, n, th, s, Walk(g, n, th, s, seg))
  {
    var e := Extend(g, th, s, s + n);
    var rest := Walk(g, n, th, e, seg + 2);
    var fix := (Repeat<nat>(seg + 1, e - s), Repeat(Fixation, e - s));
    WalkFixation(g, n, th, s, seg);
    assert Walk(g, n, th, s, seg) == (fix.0 + rest.0, fix.1 + rest.1);
    FixationBlockOpened(g, n, th, s, seg);
    FixationsOpenedConcat(g, n, th, s, e, fix, rest);
  }

  lemma OpenedAfterSlide(g: seq<Point>, n: nat, th: real, s: nat, seg: nat)
    requires n > 0 && s + n < |g| && Dispersion(g[s..s + n]) > th
    requires FixationsOpened(g, n, th, s + 1, Walk(g, n, th, s + 1, seg))
    ensures FixationsOpened(g, n, th, s, Walk(g, n, th, s, seg))
  {
    var rest := Walk(g, n, th, s + 1, seg);
    var head := ([seg], [Saccade]);
    WalkSlide(g, n, th, s, seg);
    assert Walk(g, n, th, s, seg) == (head.0 + rest.0, head.1 + rest.1);
    SaccadeOpensNothing(g, n, th, s, seg);
    FixationsOpenedConcat(g, n, th, s, s + 1, head, rest);
  }

  lemma {:induction false} FixationHasOpening(g: seq<Point>, n: nat, th: real, s: nat, seg: nat)
    requires n > 0 && s <= |g|
    ensures FixationsOpened(g, n, th, s, Walk(g, n, th, s, seg))
    decreases |g| - s
  {
    if s + n > |g| {
      WalkTail(g, n, th, s, seg);
    } else if Dispersion(g[s..s + n]) <= th {
      FixationHasOpening(g, n, th, Extend(g, th, s, s + n), seg + 2);
      OpenedAfterFixation(g, n, th, s, seg);
    } else if s + n == |g| {
      WalkLast(g, n, th, s, seg);
    } else {
      FixationHasOpening(g, n, th, s + 1, seg);
      OpenedAfterSlide(g, n, th, s, seg);
    }
  }

  lemma {:induction false} ExtendConstant(g: seq<Point>, th: real, s: nat, stop: nat)
    requires s < stop <= |g| && th >= 0.0
    requires forall i :: 0 <= i < |g| ==> g[i] == g[0]
    ensures Extend(g, th, s, stop) == |g|
    decreases |g| - stop
  {
    var w := g[s..stop];
    assert forall i :: 0 <= i < |w| ==> w[i] == w[0];
    ConstantDispersion(w);
    if stop < |g| {
      ExtendConstant(g, th, s, stop + 1);
    }
  }

  /** A gaze that never moves is one fixation, ordinal 1, from the first
      sample to the last, whenever the recording holds a full window. */
  lemma SteadyGazeIsOneFixation(g: seq<Point>, n: nat, th: real)
    requires 0 < n <= |g| && th >= 0.0
    requires forall i :: 0 <= i < |g| ==> g[i] == g[0]
    ensures Walk(g, n, th, 0, 0) == (Repeat<nat>(1, |g|), Repeat(Fixation, |g|))
  {
    var w := g[0..n];
    assert forall i :: 0 <= i < |w| ==> w[i] == w[0];
    ConstantDispersion(w);
    ExtendConstant(g, th, 0, n);
    var rest := Walk(g, n, th, |g|, 2);
    assert rest.0 == [] && rest.1 == [];
    assert Repeat<nat>(1, |g|) + rest.0 == Repeat<nat>(1, |g|);
    assert Repeat(Fixation, |g|) + rest.1 == Repeat(Fixation, |g|);
  }

  /** A gaze that rests, jumps and rests again, with a window of 2 samples
      and threshold 0: the first sample after the jump is absorbed into the
      fixation, and the last sample, never visited by a full window, keeps
      ordinal 0 although it follows ordinal 1. */
  lemma AbsorbedJumpAndUnvisitedTail()
    ensures var g := [Point(0.0, 0.0), Point(0.0, 0.0), Point(1.0, 0.0), Point(1.0, 0.0)];
            Walk(g, 2, 0.0, 0, 0) == ([1, 1, 1, 0], [Fixation, Fixation, Fixation, Saccade])
  {
    var g := [Point(0.0, 0.0), Point(0.0, 0.0), Point(1.0, 0.0), Point(1.0, 0.0)];
    assert g[0..2] == [Point(0.0, 0.0), Point(0.0, 0.0)];
    assert g[0..2][..1] == [Point(0.0, 0.0)];
    assert Bounds(g[0..2]) == Box(0.0, 0.0, 0.0, 0.0);
    assert Dispersion(g[0..2]) == 0.0;
    assert g[0..3] == [Point(0.0, 0.0), Point(0.0, 0.0), Point(1.0, 0.0)];
    assert Bounds(g[0..3][..2]) == Box(0.0, 0.0, 0.0, 0.0);
    assert Dispersion(g[0..3]) == 1.0;
    assert Extend(g, 0.0, 0, 3) == 3;
    assert Extend(g, 0.0, 0, 2) == 3;
    assert Repeat<nat>(0, 1) == [0] && Repeat(Saccade, 1) == [Saccade];
    assert Walk(g, 2, 0.0, 3, 2) == ([0], [Saccade]);
    assert Repeat<nat>(1, 3) == [1, 1, 1];
    assert Repeat(Fixation, 3) == [Fixation, Fixation, Fixation];
    assert Walk(g, 2, 0.0, 0, 0) == (Repeat<nat>(1, 3) + [0], Repeat(Fixation, 3) + [Saccade]);
    assert [1, 1, 1] + [0] == [1, 1, 1, 0];
    assert [Fixation, Fixation, Fixation] + [Saccade] == [Fixation, Fixation, Fixation, Saccade];
  }
}
