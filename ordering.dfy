/** Python's `sorted` on the values this library sorts: insertion sort over a
    strict total order, and the lexicographic order Python uses for tuples. */
module Ordering {

  /** `lt` is a strict total order: asymmetric, transitive and total. */
  ghost predicate StrictTotalOrder<T(!new)>(lt: (T, T) -> bool)
  {
    && (forall a, b :: lt(a, b) ==> !lt(b, a))
    && (forall a, b, c :: lt(a, b) && lt(b, c) ==> lt(a, c))
    && (forall a, b :: a != b ==> lt(a, b) || lt(b, a))
  }

  /** Ascending order, duplicates allowed. */
  predicate Sorted<T(==)>(s: seq<T>, lt: (T, T) -> bool)
  {
    forall i, j :: 0 <= i < j < |s| ==> s[i] == s[j] || lt(s[i], s[j])
  }

  function IntLt(a: int, b: int): bool { a < b }

  function RealLt(a: real, b: real): bool { a < b }

  /** Python compares tuples by their first components and, on a tie, by
      their second. */
  function PairLt<K(==), V>(klt: (K, K) -> bool, vlt: (V, V) -> bool): ((K, V), (K, V)) -> bool
  {
    (p: (K, V), q: (K, V)) => klt(p.0, q.0) || (p.0 == q.0 && vlt(p.1, q.1))
  }

  function Insert<T(==)>(x: T, s: seq<T>, lt: (T, T) -> bool): (r: seq<T>)
    ensures multiset(r) == multiset(s) + multiset{x}
    ensures |r| == |s| + 1
  {
    if s == [] || !lt(s[0], x) then [x] + s
    else
      assert s == [s[0]] + s[1..];
      [s[0]] + Insert(x, s[1..], lt)
  }

  /** The model of `sorted(s)`: a permutation of `s` (its sortedness is
      SortIsSorted). */
  function Sort<T(==)>(s: seq<T>, lt: (T, T) -> bool): (r: seq<T>)
    ensures multiset(r) == multiset(s)
    ensures |r| == |s|
  {
    if s == [] then []
    else
      assert s == [s[0]] + s[1..];
      Insert(s[0], Sort(s[1..], lt), lt)
  }

  lemma IntOrder()
    ensures StrictTotalOrder(IntLt)
  {
  }

  lemma RealOrder()
    ensures StrictTotalOrder(RealLt)
  {
  }

  /** The lexicographic order of two strict total orders is one. */
  lemma PairOrder<K(!new), V(!new)>(klt: (K, K) -> bool, vlt: (V, V) -> bool)
    requires StrictTotalOrder(klt) && StrictTotalOrder(vlt)
    ensures StrictTotalOrder(PairLt(klt, vlt))
  {
    var lt := PairLt(klt, vlt);
    forall p: (K, V), q: (K, V) | lt(p, q) ensures !lt(q, p) {
      assert klt(p.0, q.0) || (p.0 == q.0 && vlt(p.1, q.1));
    }
    forall p: (K, V), q: (K, V), r: (K, V) | lt(p, q) && lt(q, r) ensures lt(p, r) {
      assert klt(p.0, q.0) || (p.0 == q.0 && vlt(p.1, q.1));
      assert klt(q.0, r.0) || (q.0 == r.0 && vlt(q.1, r.1));
    }
    forall p: (K, V), q: (K, V) | p != q ensures lt(p, q) || lt(q, p) {
      if p.0 == q.0 {
        assert p.1 != q.1;
      }
    }
  }

  lemma InsertSorted<T(!new)>(x: T, s: seq<T>, lt: (T, T) -> bool)
    requires StrictTotalOrder(lt)
    requires Sorted(s, lt)
    ensures Sorted(Insert(x, s, lt), lt)
  {
    if s == [] || !lt(s[0], x) {
    } else {
      var tail := Insert(x, s[1..], lt);
      InsertSorted(x, s[1..], lt);
      forall j | 0 <= j < |tail| ensures s[0] == tail[j] || lt(s[0], tail[j]) {
        assert tail[j] in multiset(tail);
        assert tail[j] == x || tail[j] in multiset(s[1..]);
        if tail[j] != x {
          var k :| 0 <= k < |s[1..]| && s[1..][k] == tail[j];
          assert s[k + 1] == tail[j];
        }
      }
    }
  }

  lemma {:induction false} SortIsSorted<T(!new)>(s: seq<T>, lt: (T, T) -> bool)
    requires StrictTotalOrder(lt)
    ensures Sorted(Sort(s, lt), lt)
  {
    if s != [] {
      SortIsSorted(s[1..], lt);
      InsertSorted(s[0], Sort(s[1..], lt), lt);
    }
  }

  lemma SortedHeadLeast<T>(s: seq<T>, k: nat, lt: (T, T) -> bool)
    requires Sorted(s, lt) && k < |s|
    ensures s[0] == s[k] || lt(s[0], s[k])
  {
    if k > 0 {
      assert s[0] == s[k] || lt(s[0], s[k]);
    }
  }

  /** Two sorted arrangements of one multiset start with the same element. */
  lemma SortedSameHead<T(!new)>(a: seq<T>, b: seq<T>, lt: (T, T) -> bool)
    requires StrictTotalOrder(lt)
    requires Sorted(a, lt) && Sorted(b, lt)
    requires multiset(a) == multiset(b) && a != []
    ensures b != [] && a[0] == b[0]
  {
    assert |b| == |multiset(b)| == |a|;
    assert a[0] in multiset(b);
    assert b[0] in multiset(a);
    var i :| 0 <= i < |b| && b[i] == a[0];
    var j :| 0 <= j < |a| && a[j] == b[0];
    SortedHeadLeast(b, i, lt);
    SortedHeadLeast(a, j, lt);
  }

  lemma MultisetTail<T>(a: seq<T>, b: seq<T>)
    requires multiset(a) == multiset(b) && a != [] && b != [] && a[0] == b[0]
    ensures multiset(a[1..]) == multiset(b[1..])
  {
    assert multiset(a) == multiset{a[0]} + multiset(a[1..]) by {
      assert a == [a[0]] + a[1..];
    }
    assert multiset(b) == multiset{b[0]} + multiset(b[1..]) by {
      assert b == [b[0]] + b[1..];
    }
    assert multiset(a[1..]) == multiset(a) - multiset{a[0]};
    assert multiset(b[1..]) == multiset(b) - multiset{b[0]};
  }

  /** Two sorted arrangements of one multiset are the same sequence. */
  lemma {:induction false} SortedUnique<T(!new)>(a: seq<T>, b: seq<T>, lt: (T, T) -> bool)
    requires StrictTotalOrder(lt)
    requires Sorted(a, lt) && Sorted(b, lt)
    requires multiset(a) == multiset(b)
    ensures a == b
  {
    if a == [] {
      assert |b| == |multiset(b)| == 0;
    } else {
      SortedSameHead(a, b, lt);
      MultisetTail(a, b);
      SortedUnique(a[1..], b[1..], lt);
      assert a == [a[0]] + a[1..];
      assert b == [b[0]] + b[1..];
    }
  }

  /** Sorting does not depend on the order of its input. */
  lemma SortPermutationInvariant<T(!new)>(a: seq<T>, b: seq<T>, lt: (T, T) -> bool)
    requires StrictTotalOrder(lt)
    requires multiset(a) == multiset(b)
    ensures Sort(a, lt) == Sort(b, lt)
  {
    SortIsSorted(a, lt);
    SortIsSorted(b, lt);
    SortedUnique(Sort(a, lt), Sort(b, lt), lt);
  }

  /** Sorting an already sorted sequence leaves it unchanged. */
  lemma SortOfSorted<T(!new)>(s: seq<T>, lt: (T, T) -> bool)
    requires StrictTotalOrder(lt)
    requires Sorted(s, lt)
    ensures Sort(s, lt) == s
  {
    SortIsSorted(s, lt);
    SortedUnique(Sort(s, lt), s, lt);
  }
}
