/** The event codec of the older `cateye` package. Its
    discrete_to_continuous and sfreq_to_times are the ones of `cateyes`
    (CateyesUtils); its continuous_to_discrete first sorts the
    (index, value) pairs and then walks them against the sample times. */
module CateyeUtils {
  import opened Wrappers
  import opened Ordering
  import opened Events
  import CateyesUtils

  function Firsts<A, B>(ps: seq<(A, B)>): (r: seq<A>)
    ensures |r| == |ps|
    ensures forall k :: 0 <= k < |ps| ==> r[k] == ps[k].0
  {
    seq(|ps|, k requires 0 <= k < |ps| => ps[k].0)
  }

  function Seconds<A, B>(ps: seq<(A, B)>): (r: seq<B>)
    ensures |r| == |ps|
    ensures forall k :: 0 <= k < |ps| ==> r[k] == ps[k].1
  {
    seq(|ps|, k requires 0 <= k < |ps| => ps[k].1)
  }

  /** `sorted(zip(indices, values))`: pairs ordered by index, then by value. */
  function SortedPairs<V(==)>(indices: seq<int>, values: seq<V>, vlt: (V, V) -> bool): (ps: seq<(int, V)>)
    ensures multiset(ps) == multiset(Zip(indices, values))
  {
    Sort(Zip(indices, values), PairLt(IntLt, vlt))
  }

  /** The discrete form the old continuous_to_discrete computes: the boundary
      walk over the sorted pairs. Unpacking an empty `zip` fails, so an empty
      index or value array is an error. */
  function SortedCollapse<V(==)>(times: seq<real>, indices: seq<int>, values: seq<V>, vlt: (V, V) -> bool)
    : (r: Result<(seq<real>, seq<V>)>)
    ensures r.Err? <==> indices == [] || values == []
  {
    var ps := SortedPairs(indices, values, vlt);
    if ps == [] then Err(EmptyIndices) else Collapse(times, Firsts(ps), Seconds(ps))
  }

  /** `continuous_to_discrete` of `cateye`: sort, unzip, then the same walk
      as in `cateyes`. */
  method ContinuousToDiscrete<V(==)>(times: seq<real>, indices: seq<int>, values: seq<V>, vlt: (V, V) -> bool)
    returns (r: Result<(seq<real>, seq<V>)>)
    ensures r == SortedCollapse(times, indices, values, vlt)
  {
    var ps := SortedPairs(indices, values, vlt);
    if ps == [] {
      return Err(EmptyIndices);
    }
    r := CateyesUtils.ContinuousToDiscrete(times, Firsts(ps), Seconds(ps));
  }

  // ---------------------------------------------------------------------

  lemma SortedPairsNonDecreasing<V(!new)>(indices: seq<int>, values: seq<V>, vlt: (V, V) -> bool)
    requires StrictTotalOrder(vlt)
    ensures var ps := SortedPairs(indices, values, vlt);
            Sorted(ps, PairLt(IntLt, vlt)) && NonDecreasing(Firsts(ps))
  {
    var lt := PairLt(IntLt, vlt);
    var ps := SortedPairs(indices, values, vlt);
    IntOrder();
    PairOrder(IntLt, vlt);
    SortIsSorted(Zip(indices, values), lt);
    forall i, j | 0 <= i < j < |ps| ensures ps[i].0 <= ps[j].0 {
      assert ps[i] == ps[j] || lt(ps[i], ps[j]);
    }
  }

  /** The distinct indices. */
  function Distinct(k: seq<int>): set<int>
  {
    set y | y in k
  }

  lemma BoundariesStep(k: seq<int>)
    requires |k| > 0
    ensures |Boundaries(k)| == |Boundaries(k[..|k| - 1])| + (if IsBoundary(k, |k| - 1) then 1 else 0)
  {
  }

  lemma DistinctSnoc(k: seq<int>, x: int)
    ensures Distinct(k + [x]) == Distinct(k) + {x}
  {
    assert forall y :: y in k + [x] <==> y in k || y == x;
  }

  /** On non-decreasing indices a last index that opens a run is new. */
  lemma NewLast(k: seq<int>)
    requires NonDecreasing(k) && |k| > 0 && IsBoundary(k, |k| - 1)
    ensures k[|k| - 1] !in Distinct(k[..|k| - 1])
  {
    var k' := k[..|k| - 1];
    forall y | y in k' ensures y < k[|k| - 1] {
      var i :| 0 <= i < |k'| && k'[i] == y;
      assert k[i] <= k[|k| - 2];
    }
  }

  /** On non-decreasing indices the last one is new exactly when it opens a run. */
  lemma DistinctStep(k: seq<int>)
    requires NonDecreasing(k) && |k| > 0
    ensures |Distinct(k)| == |Distinct(k[..|k| - 1])| + (if IsBoundary(k, |k| - 1) then 1 else 0)
  {
    var k' := k[..|k| - 1];
    var x := k[|k| - 1];
    var s' := Distinct(k');
    assert k == k' + [x];
    DistinctSnoc(k', x);
    if IsBoundary(k, |k| - 1) {
      NewLast(k);
      assert |s' + {x}| == |s'| + 1;
    } else {
      assert k'[|k'| - 1] == x;
      assert s' + {x} == s';
    }
  }

  /** On non-decreasing indices there is one boundary per distinct index. */
  lemma {:induction false} DistinctBoundaries(k: seq<int>)
    requires NonDecreasing(k)
    ensures |Boundaries(k)| == |Distinct(k)|
  {
    if k != [] {
      DistinctBoundaries(k[..|k| - 1]);
      BoundariesStep(k);
      DistinctStep(k);
    }
  }

  /** Sorting the pairs keeps the set of indices. */
  lemma SortedKeysSameIndices<V(!new)>(indices: seq<int>, values: seq<V>, vlt: (V, V) -> bool, x: int)
    requires |indices| == |values|
    ensures x in Firsts(SortedPairs(indices, values, vlt)) <==> x in indices
  {
    var ps := SortedPairs(indices, values, vlt);
    var ks := Firsts(ps);
    var z := Zip(indices, values);
    if x in ks {
      var i :| 0 <= i < |ks| && ks[i] == x;
      assert ps[i] in multiset(z);
      var j :| 0 <= j < |indices| && z[j] == ps[i];
    }
    if x in indices {
      var j :| 0 <= j < |indices| && indices[j] == x;
      assert z[j] in multiset(ps);
      var i :| 0 <= i < |ps| && ps[i] == z[j];
      assert ks[i] == x;
    }
  }

  /** On non-decreasing indices the boundaries carry strictly increasing
      indices. */
  lemma BoundaryIndicesIncrease(ks: seq<int>)
    requires NonDecreasing(ks)
    ensures var b := Boundaries(ks);
            forall i, j :: 0 <= i < j < |b| ==> ks[b[i]] < ks[b[j]]
  {
    var b := Boundaries(ks);
    forall i, j | 0 <= i < j < |b| ensures ks[b[i]] < ks[b[j]] {
      assert ks[b[i]] <= ks[b[j] - 1] < ks[b[j]];
    }
  }

  /** On non-decreasing indices a boundary is the first position of its index. */
  lemma BoundaryIsFirst(ks: seq<int>, p: nat, m: nat)
    requires NonDecreasing(ks) && p < |ks| && m < |ks|
    requires IsBoundary(ks, p) && ks[m] == ks[p]
    ensures p <= m
  {
  }

  /** Among sorted pairs with one index, the earlier has the lesser value. */
  lemma SortedTieByValue<V>(ps: seq<(int, V)>, vlt: (V, V) -> bool, p: nat, m: nat)
    requires Sorted(ps, PairLt(IntLt, vlt)) && p <= m < |ps| && ps[p].0 == ps[m].0
    ensures ps[p].1 == ps[m].1 || vlt(ps[p].1, ps[m].1)
  {
    if p < m {
      assert ps[p] == ps[m] || PairLt(IntLt, vlt)(ps[p], ps[m]);
    }
  }

  /** The pair the old function emits for an index is the first of the
      sorted pairs with that index, so its value is the least value paired
      with that index. */
  lemma FirstPairIsLeast<V(!new)>(indices: seq<int>, values: seq<V>, vlt: (V, V) -> bool, k: nat, j: nat)
    requires StrictTotalOrder(vlt)
    requires |indices| == |values| && j < |indices|
    requires var ps := SortedPairs(indices, values, vlt);
             k < |Boundaries(Firsts(ps))| && indices[j] == Firsts(ps)[Boundaries(Firsts(ps))[k]]
    ensures var ps := SortedPairs(indices, values, vlt);
            var p := Boundaries(Firsts(ps))[k];
            Seconds(ps)[p] == values[j] || vlt(Seconds(ps)[p], values[j])
  {
    var ps := SortedPairs(indices, values, vlt);
    var ks := Firsts(ps);
    var p := Boundaries(ks)[k];
    var z := Zip(indices, values);
    SortedPairsNonDecreasing(indices, values, vlt);
    assert z[j] in multiset(ps);
    var m :| 0 <= m < |ps| && ps[m] == z[j];
    BoundaryIsFirst(ks, p, m);
    SortedTieByValue(ps, vlt, p, m);
  }

  /** The number of indices below `x`. */
  function CountBelow(s: seq<int>, x: int): (r: nat)
    ensures r <= |s|
  {
    if s == [] then 0 else CountBelow(s[..|s| - 1], x) + (if s[|s| - 1] < x then 1 else 0)
  }

  /** The number of pairs whose index is below `x`. */
  function KeysBelow<V>(ps: seq<(int, V)>, x: int): (r: nat)
    ensures r <= |ps|
  {
    if ps == [] then 0 else KeysBelow(ps[..|ps| - 1], x) + (if ps[|ps| - 1].0 < x then 1 else 0)
  }

  lemma {:induction false} KeysBelowConcat<V>(a: seq<(int, V)>, b: seq<(int, V)>, x: int)
    ensures KeysBelow(a + b, x) == KeysBelow(a, x) + KeysBelow(b, x)
    decreases |b|
  {
    if b == [] {
      assert a + b == a;
    } else {
      var b' := b[..|b| - 1];
      assert (a + b)[..|a + b| - 1] == a + b';
      KeysBelowConcat(a, b', x);
    }
  }

  lemma KeysBelowRemove<V>(b: seq<(int, V)>, k: nat, x: int)
    requires k < |b|
    ensures KeysBelow(b, x) == KeysBelow(b[..k] + b[k + 1..], x) + KeysBelow([b[k]], x)
  {
    var y := b[k];
    assert b == b[..k] + [y] + b[k + 1..];
    KeysBelowConcat(b[..k] + [y], b[k + 1..], x);
    KeysBelowConcat(b[..k], [y], x);
    KeysBelowConcat(b[..k], b[k + 1..], x);
  }

  /** The count does not depend on the order of the pairs. */
  lemma {:induction false} KeysBelowPermutation<V>(a: seq<(int, V)>, b: seq<(int, V)>, x: int)
    requires multiset(a) == multiset(b)
    ensures KeysBelow(a, x) == KeysBelow(b, x)
    decreases |a|
  {
    if a == [] {
      assert |b| == |multiset(b)| == 0;
    } else {
      var y := a[|a| - 1];
      assert y in multiset(b);
      var k :| 0 <= k < |b| && b[k] == y;
      CateyesUtils.MultisetRemove(a, b, k);
      KeysBelowRemove(b, k, x);
      KeysBelowPermutation(a[..|a| - 1], b[..k] + b[k + 1..], x);
      assert [y][..0] == [];
    }
  }

  lemma {:induction false} KeysBelowZip<V>(indices: seq<int>, values: seq<V>, x: int)
    requires |indices| == |values|
    ensures KeysBelow(Zip(indices, values), x) == CountBelow(indices, x)
    decreases |indices|
  {
    if indices != [] {
      var n := |indices| - 1;
      assert Zip(indices, values)[..n] == Zip(indices[..n], values[..n]);
      KeysBelowZip(indices[..n], values[..n], x);
    }
  }

  /** When exactly the first `p` pairs have an index below `x`, the count is `p`. */
  lemma {:induction false} KeysBelowSplit<V>(ps: seq<(int, V)>, x: int, p: nat)
    requires p <= |ps|
    requires forall i :: 0 <= i < p ==> ps[i].0 < x
    requires forall i :: p <= i < |ps| ==> ps[i].0 >= x
    ensures KeysBelow(ps, x) == p
    decreases |ps|
  {
    if ps != [] {
      var ps' := ps[..|ps| - 1];
      if p == |ps| {
        KeysBelowSplit(ps', x, p - 1);
      } else {
        KeysBelowSplit(ps', x, p);
      }
    }
  }

  /** On non-decreasing indices a boundary splits the indices below its
      own from the rest. */
  lemma BoundarySplits(ks: seq<int>, p: nat)
    requires NonDecreasing(ks) && p < |ks| && IsBoundary(ks, p)
    ensures forall i :: 0 <= i < p ==> ks[i] < ks[p]
    ensures forall i :: p <= i < |ks| ==> ks[i] >= ks[p]
  {
    forall i | 0 <= i < p ensures ks[i] < ks[p] {
      assert ks[i] <= ks[p - 1];
    }
  }

  /** An emitted position is the number of input indices below the index
      emitted there. */
  lemma BoundaryCountsBelow<V(!new)>(indices: seq<int>, values: seq<V>, vlt: (V, V) -> bool, k: nat)
    requires StrictTotalOrder(vlt) && |indices| == |values|
    requires var ks := Firsts(SortedPairs(indices, values, vlt)); k < |Boundaries(ks)|
    ensures var ks := Firsts(SortedPairs(indices, values, vlt));
            Boundaries(ks)[k] == CountBelow(indices, ks[Boundaries(ks)[k]])
  {
    var ps := SortedPairs(indices, values, vlt);
    var ks := Firsts(ps);
    var p := Boundaries(ks)[k];
    var x := ks[p];
    SortedPairsNonDecreasing(indices, values, vlt);
    BoundarySplits(ks, p);
    KeysBelowSplit(ps, x, p);
    KeysBelowPermutation(ps, Zip(indices, values), x);
    KeysBelowZip(indices, values, x);
  }

  /** The old continuous_to_discrete emits one event per distinct index, in
      ascending order of index, when every pair meets a sample time; each
      event carries the least value paired with its index. */
  lemma OneEventPerIndex<V(!new)>(times: seq<real>, indices: seq<int>, values: seq<V>, vlt: (V, V) -> bool)
    requires StrictTotalOrder(vlt)
    requires |indices| == |values| > 0 && |times| >= |indices|
    ensures var ps := SortedPairs(indices, values, vlt);
            var b := Boundaries(Firsts(ps));
            && SortedCollapse(times, indices, values, vlt).value.0 == Select(times, b)
            && (forall k :: 0 <= k < |b| ==> b[k] == CountBelow(indices, Firsts(ps)[b[k]]))
            && SortedCollapse(times, indices, values, vlt).value.1 == Select(Seconds(ps), b)
            && |b| == |Distinct(indices)|
            && (forall i, j :: 0 <= i < j < |b| ==> Firsts(ps)[b[i]] < Firsts(ps)[b[j]])
            && (forall k, j :: 0 <= k < |b| && 0 <= j < |indices| && indices[j] == Firsts(ps)[b[k]] ==>
                  Seconds(ps)[b[k]] == values[j] || vlt(Seconds(ps)[b[k]], values[j]))
  {
    var ps := SortedPairs(indices, values, vlt);
    var ks := Firsts(ps);
    var b := Boundaries(ks);
    SortedPairsNonDecreasing(indices, values, vlt);
    assert ks[..Min3(|times|, |ks|, |ps|)] == ks;
    DistinctBoundaries(ks);
    forall x ensures x in ks <==> x in indices {
      SortedKeysSameIndices(indices, values, vlt, x);
    }
    assert Distinct(ks) == Distinct(indices);
    BoundaryIndicesIncrease(ks);
    forall k | 0 <= k < |b| ensures b[k] == CountBelow(indices, ks[b[k]]) {
      BoundaryCountsBelow(indices, values, vlt, k);
    }
    forall k, j | 0 <= k < |b| && 0 <= j < |indices| && indices[j] == ks[b[k]]
      ensures Seconds(ps)[b[k]] == values[j] || vlt(Seconds(ps)[b[k]], values[j])
    {
      FirstPairIsLeast(indices, values, vlt, k, j);
    }
  }

  /** When the indices never decrease and equal indices carry equal values
      (the continuous form discrete_to_continuous produces), sorting changes
      nothing and the old continuous_to_discrete agrees with the new one. */
  lemma AgreesOnOrderedInput<V(!new)>(times: seq<real>, indices: seq<int>, values: seq<V>, vlt: (V, V) -> bool)
    requires StrictTotalOrder(vlt)
    requires |indices| == |values|
    requires NonDecreasing(indices)
    requires forall i, j :: 0 <= i < j < |indices| && indices[i] == indices[j] ==> values[i] == values[j]
    ensures SortedCollapse(times, indices, values, vlt) == Collapse(times, indices, values)
  {
    var lt := PairLt(IntLt, vlt);
    var z := Zip(indices, values);
    IntOrder();
    PairOrder(IntLt, vlt);
    forall i, j | 0 <= i < j < |z| ensures z[i] == z[j] || lt(z[i], z[j]) {
      if indices[i] < indices[j] {
        assert lt(z[i], z[j]);
      }
    }
    SortOfSorted(z, lt);
    assert Firsts(z) == indices;
    assert Seconds(z) == values;
  }
}
