/** Sorting a list of distinct elements under a strict total order: the
    model of Kotlin's `sortedWith(comparator)` and `sorted()` on lists whose
    elements never compare equal (map entries with distinct keys, set members). */
module Sorting {

  /** `less` is irreflexive, transitive and relates any two distinct values. */
  ghost predicate StrictOrder<T(!new)>(less: (T, T) -> bool) {
    && (forall a :: !less(a, a))
    && (forall a, b, c :: less(a, b) && less(b, c) ==> less(a, c))
    && (forall a, b :: a != b ==> less(a, b) || less(b, a))
  }

  /** Every element comes strictly before every later one. */
  predicate SortedBy<T>(xs: seq<T>, less: (T, T) -> bool) {
    forall i, j :: 0 <= i < j < |xs| ==> less(xs[i], xs[j])
  }

  predicate Distinct<T(==)>(xs: seq<T>) {
    forall i, j :: 0 <= i < j < |xs| ==> xs[i] != xs[j]
  }

  /** x placed before the first element it is less than. */
  function Insert<T>(x: T, xs: seq<T>, less: (T, T) -> bool): (r: seq<T>)
    ensures multiset(r) == multiset(xs) + multiset{x}
  {
    if xs == [] || less(x, xs[0]) then [x] + xs
    else
      assert xs == [xs[0]] + xs[1..];
      [xs[0]] + Insert(x, xs[1..], less)
  }

  /** Insertion sort: the sorted list holds the same elements. */
  function Sort<T>(xs: seq<T>, less: (T, T) -> bool): (r: seq<T>)
    ensures multiset(r) == multiset(xs)
  {
    if xs == [] then []
    else
      assert xs == [xs[0]] + xs[1..];
      Insert(xs[0], Sort(xs[1..], less), less)
  }

  lemma {:induction false} InsertSorted<T(!new)>(x: T, xs: seq<T>, less: (T, T) -> bool)
    requires StrictOrder(less) && SortedBy(xs, less) && x !in xs
    ensures SortedBy(Insert(x, xs, less), less)
  {
    if xs != [] && !less(x, xs[0]) {
      var rest := Insert(x, xs[1..], less);
      InsertSorted(x, xs[1..], less);
      assert less(xs[0], x);
      forall e | e in rest ensures less(xs[0], e) {
        assert e in multiset(rest);
        if e != x {
          assert e in multiset(xs[1..]);
        }
      }
    }
  }

  /** Sorting distinct elements gives a strictly ordered permutation of them. */
  lemma {:induction false} SortSorted<T(!new)>(xs: seq<T>, less: (T, T) -> bool)
    requires StrictOrder(less) && Distinct(xs)
    ensures SortedBy(Sort(xs, less), less)
    ensures multiset(Sort(xs, less)) == multiset(xs)
  {
    if xs != [] {
      var rest := Sort(xs[1..], less);
      SortSorted(xs[1..], less);
      assert xs[0] !in multiset(xs[1..]);
      InsertSorted(xs[0], rest, less);
    }
  }

  /** Sorting a sorted list changes nothing; so sorting twice equals sorting once. */
  lemma {:induction false} SortOfSorted<T>(xs: seq<T>, less: (T, T) -> bool)
    requires SortedBy(xs, less)
    ensures Sort(xs, less) == xs
  {
    if xs != [] {
      SortOfSorted(xs[1..], less);
      assert xs == [xs[0]] + xs[1..];
    }
  }

  /** Two strictly sorted lists with the same elements are equal: the sorted
      order does not depend on the order the elements were supplied in. */
  lemma {:induction false} SortedUnique<T(!new)>(a: seq<T>, b: seq<T>, less: (T, T) -> bool)
    requires StrictOrder(less) && SortedBy(a, less) && SortedBy(b, less)
    requires forall x :: x in a <==> x in b
    ensures a == b
  {
    SameElementsBothEmpty(a, b);
    if a != [] {
      assert a[0] in b;
      assert b[0] in a;
      assert a[0] == b[0];
      forall x ensures x in a[1..] <==> x in b[1..] {
        if x in a[1..] {
          var i :| 1 <= i < |a| && a[i] == x;
          assert less(a[0], x);
          assert x in a && x in b;
          var k :| 0 <= k < |b| && b[k] == x;
          assert k != 0;
          assert b[1..][k - 1] == x;
        }
        if x in b[1..] {
          var j :| 1 <= j < |b| && b[j] == x;
          assert less(b[0], x);
          assert x in b && x in a;
          var k :| 0 <= k < |a| && a[k] == x;
          assert k != 0;
          assert a[1..][k - 1] == x;
        }
      }
      SortedUnique(a[1..], b[1..], less);
      assert a == [a[0]] + a[1..] && b == [b[0]] + b[1..];
    }
  }

  lemma SameElementsBothEmpty<T>(a: seq<T>, b: seq<T>)
    requires forall x :: x in a <==> x in b
    ensures a == [] <==> b == []
  {
    if a != [] { assert a[0] in b; }
    if b != [] { assert b[0] in a; }
  }

  /** In a sorted list, every element of a prefix comes before every element
      outside it. */
  lemma PrefixPrecedesRest<T>(xs: seq<T>, n: nat, less: (T, T) -> bool)
    requires SortedBy(xs, less) && n <= |xs|
    ensures forall x :: x in xs && x !in xs[..n] ==> forall k :: 0 <= k < n ==> less(xs[k], x)
  {
    forall x | x in xs && x !in xs[..n] ensures forall k :: 0 <= k < n ==> less(xs[k], x) {
      var m :| 0 <= m < |xs| && xs[m] == x;
      assert forall k :: 0 <= k < n ==> xs[..n][k] == xs[k];
    }
  }
}
