/** Grouping a per-sample label array into event ordinals: the ordinal starts
    at 0 and goes up by one wherever the label differs from the previous one. */
module Segments {

  /** How many times the label changes between sample 0 and sample i. */
  function Changes<L(==)>(c: seq<L>, i: nat): (k: nat)
    requires i < |c|
    ensures k <= i
  {
    if i == 0 then 0 else Changes(c, i - 1) + (if c[i] != c[i - 1] then 1 else 0)
  }

  /** The ordinal of every sample. */
  function Ordinals<L(==)>(c: seq<L>): (r: seq<nat>)
    ensures |r| == |c|
    ensures forall i :: 0 <= i < |c| ==> r[i] <= i
  {
    seq(|c|, i requires 0 <= i < |c| => Changes(c, i))
  }

  /** The segment loop of `classify_velocity`, over a fresh zero array. */
  method GroupSegments<L(==)>(classes: seq<L>) returns (segments: seq<nat>)
    ensures segments == Ordinals(classes)
    ensures |classes| > 0 ==> segments[0] == 0
    ensures forall i :: 0 < i < |classes| ==>
              segments[i] == if classes[i] == classes[i - 1] then segments[i - 1] else segments[i - 1] + 1
  {
    var a := new nat[|classes|](_ => 0);
    ghost var goal := Ordinals(classes);
    var idx := 1;
    while idx < |classes|
      invariant 1 <= idx && (idx <= |classes| || classes == [])
      invariant a.Length == |classes|
      invariant forall i :: 0 <= i < idx && i < |classes| ==> a[i] == goal[i]
    {
      assert goal[idx] == Changes(classes, idx) && goal[idx - 1] == Changes(classes, idx - 1);
      if classes[idx] == classes[idx - 1] {
        a[idx] := a[idx - 1];
      } else {
        a[idx] := a[idx - 1] + 1;
      }
      idx := idx + 1;
    }
    segments := a[..];
    assert segments == Ordinals(classes);
    OrdinalSteps(classes);
  }

  /** The ordinal of each sample from the one before it. */
  lemma OrdinalSteps<L>(c: seq<L>)
    ensures |c| > 0 ==> Ordinals(c)[0] == 0
    ensures forall i :: 0 < i < |c| ==>
              Ordinals(c)[i] == if c[i] == c[i - 1] then Ordinals(c)[i - 1] else Ordinals(c)[i - 1] + 1
  {
    forall i | 0 < i < |c|
      ensures Ordinals(c)[i] == if c[i] == c[i - 1] then Ordinals(c)[i - 1] else Ordinals(c)[i - 1] + 1
    {
      assert Ordinals(c)[i] == Changes(c, i) && Ordinals(c)[i - 1] == Changes(c, i - 1);
    }
  }

  lemma {:induction false} ChangesPrefix<L>(c: seq<L>, n: nat, i: nat)
    requires i < n <= |c|
    ensures Changes(c[..n], i) == Changes(c, i)
  {
    if i > 0 {
      ChangesPrefix(c, n, i - 1);
    }
  }

  /** Ordinals never go down and go up by at most one per sample. */
  lemma {:induction false} OrdinalsMonotone<L>(c: seq<L>, i: nat, j: nat)
    requires i <= j < |c|
    ensures Ordinals(c)[i] <= Ordinals(c)[j] <= Ordinals(c)[i] + (j - i)
  {
    if i < j {
      OrdinalsMonotone(c, i, j - 1);
    }
  }

  /** One ordinal, one label: a segment never mixes labels. */
  lemma {:induction false} SameOrdinalSameLabel<L>(c: seq<L>, i: nat, j: nat)
    requires i <= j < |c|
    requires Ordinals(c)[i] == Ordinals(c)[j]
    ensures c[i] == c[j]
  {
    if i < j {
      OrdinalsMonotone(c, i, j - 1);
      assert Changes(c, j) == Changes(c, j - 1) + (if c[j] != c[j - 1] then 1 else 0);
      SameOrdinalSameLabel(c, i, j - 1);
    }
  }

  /** Neighbours share an ordinal exactly when they share a label. */
  lemma NeighbourOrdinals<L>(c: seq<L>, i: nat)
    requires 0 < i < |c|
    ensures Ordinals(c)[i] == Ordinals(c)[i - 1] <==> c[i] == c[i - 1]
  {
  }

  /** Every ordinal from 0 to the last one is used by some sample. */
  lemma {:induction false} OrdinalsContiguous<L>(c: seq<L>, v: nat)
    requires |c| > 0 && v <= Ordinals(c)[|c| - 1]
    ensures exists i :: 0 <= i < |c| && Ordinals(c)[i] == v
  {
    var r := Ordinals(c);
    var n := |c| - 1;
    if v == r[n] {
      assert r[n] == v;
    } else {
      assert Changes(c, n) == Changes(c, n - 1) + (if c[n] != c[n - 1] then 1 else 0);
      var p := c[..n];
      forall i | 0 <= i < n ensures Ordinals(p)[i] == r[i] {
        ChangesPrefix(c, n, i);
      }
      assert Ordinals(p) == r[..n];
      OrdinalsContiguous(p, v);
      var i :| 0 <= i < |p| && Ordinals(p)[i] == v;
      assert r[i] == v;
    }
  }
}
