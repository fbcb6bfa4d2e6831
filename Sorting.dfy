/**
 * Sorting with a Java-style comparator (negative, zero or positive), standing in
 * for `Collections.sort` and `Stream.sorted`, and the enumeration of a set into a
 * list (`new ArrayList<>(set)`). Java leaves the enumeration order of a HashSet
 * unspecified, so SetToSeq promises only which elements it lists.
 */
module Sorting {

  /** Java's comparator contract on signs: sgn(cmp(a, b)) == -sgn(cmp(b, a)). */
  ghost predicate Antisymmetric<T(!new)>(cmp: (T, T) -> int) {
    forall a, b :: cmp(a, b) < 0 <==> cmp(b, a) > 0
  }

  /** "not after" is transitive: the comparator is a total preorder. */
  ghost predicate TransitiveNotAfter<T(!new)>(cmp: (T, T) -> int) {
    forall a, b, c :: cmp(a, b) <= 0 && cmp(b, c) <= 0 ==> cmp(a, c) <= 0
  }

  /** Every neighbour pair is in order. */
  predicate AdjacentSorted<T>(s: seq<T>, cmp: (T, T) -> int) {
    forall i | 0 <= i < |s| - 1 :: cmp(s[i], s[i + 1]) <= 0
  }

  /** Every pair is in order. */
  predicate Sorted<T>(s: seq<T>, cmp: (T, T) -> int) {
    forall i, j | 0 <= i < j < |s| :: cmp(s[i], s[j]) <= 0
  }

  predicate Distinct<T(==)>(s: seq<T>) {
    forall i, j | 0 <= i < j < |s| :: s[i] != s[j]
  }

  /** Puts x in front of the first element it is not after. */
  function Insert<T(==)>(x: T, s: seq<T>, cmp: (T, T) -> int): (r: seq<T>)
    ensures |r| == |s| + 1
    ensures multiset(r) == multiset(s) + multiset{x}
    ensures x in r && (forall y | y in s :: y in r) && forall y | y in r :: y == x || y in s
    ensures r[0] == x || (s != [] && r[0] == s[0])
  {
    if s == [] || cmp(x, s[0]) <= 0 then [x] + s
    else
      var r := [s[0]] + Insert(x, s[1..], cmp);
      assert s == [s[0]] + s[1..];
      r
  }

  /** Insertion sort: each element goes into the sorted rest. */
  function Sort<T(==)>(s: seq<T>, cmp: (T, T) -> int): (r: seq<T>)
    ensures |r| == |s|
    ensures multiset(r) == multiset(s)
    ensures (forall y | y in s :: y in r) && forall y | y in r :: y in s
  {
    if s == [] then []
    else
      assert s == [s[0]] + s[1..];
      Insert(s[0], Sort(s[1..], cmp), cmp)
  }

  lemma {:induction false} InsertAdjacentSorted<T(!new)>(x: T, s: seq<T>, cmp: (T, T) -> int)
    requires Antisymmetric(cmp) && AdjacentSorted(s, cmp)
    ensures AdjacentSorted(Insert(x, s, cmp), cmp)
  {
    if s != [] && cmp(x, s[0]) > 0 {
      InsertAdjacentSorted(x, s[1..], cmp);
      var tail := Insert(x, s[1..], cmp);
      assert cmp(s[0], x) < 0;
      assert tail[0] == x || cmp(s[0], tail[0]) <= 0;
    }
  }

  /**
   * Under an antisymmetric comparator the result has every neighbour pair in
   * order, even when the comparator is not transitive.
   */
  lemma {:induction false} SortAdjacentSorted<T(!new)>(s: seq<T>, cmp: (T, T) -> int)
    requires Antisymmetric(cmp)
    ensures AdjacentSorted(Sort(s, cmp), cmp)
  {
    if s != [] {
      SortAdjacentSorted(s[1..], cmp);
      InsertAdjacentSorted(s[0], Sort(s[1..], cmp), cmp);
    }
  }

  /** With a total preorder, neighbours in order means every pair in order. */
  lemma {:induction false} AdjacentSortedIsSorted<T(!new)>(s: seq<T>, cmp: (T, T) -> int)
    requires TransitiveNotAfter(cmp) && AdjacentSorted(s, cmp)
    ensures Sorted(s, cmp)
  {
    forall i, j | 0 <= i < j < |s| ensures cmp(s[i], s[j]) <= 0 {
      var k := i + 1;
      while k < j
        invariant i < k <= j && cmp(s[i], s[k]) <= 0
      {
        assert cmp(s[k], s[k + 1]) <= 0;
        k := k + 1;
      }
    }
  }

  lemma {:induction false} InsertDistinct<T>(x: T, s: seq<T>, cmp: (T, T) -> int)
    requires Distinct(s) && x !in s
    ensures Distinct(Insert(x, s, cmp))
  {
    if s != [] && cmp(x, s[0]) > 0 {
      assert s[0] !in s[1..];
      InsertDistinct(x, s[1..], cmp);
    }
  }

  /** Sorting a list without repetitions keeps it without repetitions. */
  lemma {:induction false} SortDistinct<T>(s: seq<T>, cmp: (T, T) -> int)
    requires Distinct(s)
    ensures Distinct(Sort(s, cmp))
  {
    if s != [] {
      SortDistinct(s[1..], cmp);
      assert s[0] !in s[1..];
      InsertDistinct(s[0], Sort(s[1..], cmp), cmp);
    }
  }

  /** A list without repetitions has as many elements as its set of elements. */
  lemma {:induction false} DistinctCount<T>(r: seq<T>)
    requires Distinct(r)
    ensures |set x | x in r| == |r|
  {
    if r != [] {
      DistinctCount(r[1..]);
      assert (set x | x in r) == {r[0]} + (set x | x in r[1..]);
      assert r[0] !in r[1..];
    }
  }

  /** The one list of three given elements, each once, whose neighbours are in order. */
  lemma SortedThreeUnique<T>(r: seq<T>, a: T, b: T, c: T, cmp: (T, T) -> int)
    requires a != b && a != c && b != c
    requires Distinct(r) && forall x :: x in r <==> x == a || x == b || x == c
    requires cmp(b, a) > 0 && cmp(c, b) > 0 && cmp(c, a) > 0
    requires AdjacentSorted(r, cmp)
    ensures r == [a, b, c]
  {
    assert a in r && b in r && c in r;
    assert |r| == 3 by {
      DistinctCount(r);
      assert (set x | x in r) == {a, b, c};
    }
    assert r[0] in r && r[1] in r && r[2] in r;
    assert cmp(r[0], r[1]) <= 0 && cmp(r[1], r[2]) <= 0;
    assert r == [r[0], r[1], r[2]];
  }

  /** `new ArrayList<>(set)`: every element once, in some order. */
  method SetToSeq<T(==)>(s: set<T>) returns (r: seq<T>)
    ensures |r| == |s| && Distinct(r)
    ensures forall x :: x in r <==> x in s
  {
    r := [];
    var rest := s;
    while rest != {}
      invariant rest <= s && Distinct(r)
      invariant forall x :: x in r <==> x in s && x !in rest
      invariant |r| + |rest| == |s|
    {
      var x :| x in rest;
      r := r + [x];
      rest := rest - {x};
    }
  }
}
