/**
 * `Vec::sort` followed by `Vec::dedup`, for any total order `le` (the
 * order derived for courses is one, see CourseOrder.CourseLeTotalOrder).
 * The standard library's sort is stated by an insertion sort; SortedUnique
 * shows that every sorting algorithm gives the same list, since elements that
 * are equal in the order are identical.
 */
module Sorting {

  /** `le` is total, transitive and antisymmetric (hence also reflexive). */
  ghost predicate TotalOrder<T(!new)>(le: (T, T) -> bool) {
    && (forall a, b :: le(a, b) || le(b, a))
    && (forall a, b, c :: le(a, b) && le(b, c) ==> le(a, c))
    && (forall a, b :: le(a, b) && le(b, a) ==> a == b)
  }

  lemma Reflexive<T(!new)>(le: (T, T) -> bool, x: T)
    requires TotalOrder(le)
    ensures le(x, x)
  {
  }

  ghost predicate Sorted<T>(s: seq<T>, le: (T, T) -> bool) {
    forall i, j :: 0 <= i < j < |s| ==> le(s[i], s[j])
  }

  /** Sorted with no two equal elements (in particular no adjacent duplicates). */
  ghost predicate StrictlySorted<T>(s: seq<T>, le: (T, T) -> bool) {
    forall i, j :: 0 <= i < j < |s| ==> le(s[i], s[j]) && s[i] != s[j]
  }

  function Insert<T>(x: T, s: seq<T>, le: (T, T) -> bool): seq<T> {
    if s == [] then [x]
    else if le(x, s[0]) then [x] + s
    else [s[0]] + Insert(x, s[1..], le)
  }

  /** `v.sort()`. */
  function Sort<T>(s: seq<T>, le: (T, T) -> bool): seq<T> {
    if s == [] then [] else Insert(s[0], Sort(s[1..], le), le)
  }

  /** `v.dedup()`: every run of equal adjacent elements collapses to one. */
  function Dedup<T(==)>(s: seq<T>): seq<T> {
    if |s| <= 1 then s
    else if s[0] == s[1] then Dedup(s[1..])
    else [s[0]] + Dedup(s[1..])
  }

  /** `v.sort(); v.dedup();` */
  function SortDedup<T(==)>(s: seq<T>, le: (T, T) -> bool): seq<T> {
    Dedup(Sort(s, le))
  }

  lemma {:induction false} InsertMultiset<T>(x: T, s: seq<T>, le: (T, T) -> bool)
    ensures multiset(Insert(x, s, le)) == multiset(s) + multiset{x}
  {
    if s != [] && !le(x, s[0]) {
      InsertMultiset(x, s[1..], le);
      assert s == [s[0]] + s[1..];
    }
  }

  lemma {:induction false} InsertSorted<T(!new)>(x: T, s: seq<T>, le: (T, T) -> bool)
    requires TotalOrder(le) && Sorted(s, le)
    ensures Sorted(Insert(x, s, le), le)
  {
    if s != [] {
      if le(x, s[0]) {
        forall j | 0 <= j < |s| ensures le(x, s[j]) {
          assert le(s[0], s[j]) by { Reflexive(le, s[0]); }
        }
      } else {
        assert le(s[0], x);
        InsertSorted(x, s[1..], le);
        InsertMultiset(x, s[1..], le);
        var r := Insert(x, s[1..], le);
        forall j | 0 <= j < |r| ensures le(s[0], r[j]) {
          assert r[j] in multiset(r);
          if r[j] != x {
            assert r[j] in multiset(s[1..]);
            var k :| 0 <= k < |s[1..]| && s[1..][k] == r[j];
            assert s[k + 1] == r[j];
          }
        }
        assert Insert(x, s, le) == [s[0]] + r;
      }
    }
  }

  /** The sort yields a sorted permutation of its input. */
  lemma {:induction false} SortSpec<T(!new)>(s: seq<T>, le: (T, T) -> bool)
    requires TotalOrder(le)
    ensures Sorted(Sort(s, le), le)
    ensures multiset(Sort(s, le)) == multiset(s)
  {
    if s != [] {
      SortSpec(s[1..], le);
      InsertSorted(s[0], Sort(s[1..], le), le);
      InsertMultiset(s[0], Sort(s[1..], le), le);
      assert s == [s[0]] + s[1..];
    }
  }

  /** The head of a sorted list is below every element of it. */
  lemma SortedHead<T(!new)>(s: seq<T>, le: (T, T) -> bool, x: T)
    requires TotalOrder(le) && Sorted(s, le) && x in s
    ensures le(s[0], x)
  {
    var k :| 0 <= k < |s| && s[k] == x;
  }

  /** There is only one sorted permutation of a list, so the model of the
      sort does not depend on the algorithm the library uses. */
  lemma {:induction false} SortedUnique<T(!new)>(a: seq<T>, b: seq<T>, le: (T, T) -> bool)
    requires TotalOrder(le) && Sorted(a, le) && Sorted(b, le) && multiset(a) == multiset(b)
    ensures a == b
  {
    if a != [] {
      assert a[0] in multiset(b);
      assert b[0] in multiset(a);
      SortedHead(a, le, b[0]);
      SortedHead(b, le, a[0]);
      assert a == [a[0]] + a[1..] && b == [b[0]] + b[1..];
      assert multiset(a[1..]) == multiset(a) - multiset{a[0]};
      assert multiset(b[1..]) == multiset(b) - multiset{b[0]};
      SortedUnique(a[1..], b[1..], le);
    }
  }

  lemma {:induction false} DedupElements<T>(s: seq<T>)
    ensures forall x :: x in Dedup(s) <==> x in s
  {
    if |s| > 1 {
      DedupElements(s[1..]);
      assert s == [s[0]] + s[1..];
    }
  }

  lemma {:induction false} DedupSubMultiset<T>(s: seq<T>)
    ensures multiset(Dedup(s)) <= multiset(s)
  {
    if |s| > 1 {
      DedupSubMultiset(s[1..]);
      assert s == [s[0]] + s[1..];
    }
  }

  /** Deduplicating a sorted list leaves it strictly sorted. */
  lemma {:induction false} DedupStrictlySorted<T(!new)>(s: seq<T>, le: (T, T) -> bool)
    requires TotalOrder(le) && Sorted(s, le)
    ensures StrictlySorted(Dedup(s), le)
  {
    if |s| > 1 {
      assert Sorted(s[1..], le);
      DedupStrictlySorted(s[1..], le);
      if s[0] != s[1] {
        var r := Dedup(s[1..]);
        DedupElements(s[1..]);
        forall j | 0 <= j < |r| ensures le(s[0], r[j]) && s[0] != r[j] {
          assert r[j] in s[1..];
          var k :| 1 <= k < |s| && s[k] == r[j];
          Reflexive(le, s[1]);
        }
      }
    }
  }

  /** The head of a strictly sorted list differs from, and is below, every
      other element of it. */
  lemma StrictlySortedHead<T>(s: seq<T>, le: (T, T) -> bool, x: T)
    requires StrictlySorted(s, le) && s != [] && x in s[1..]
    ensures le(s[0], x) && s[0] != x
  {
    var k :| 1 <= k < |s| && s[k] == x;
  }

  lemma SameElementsEmpty<T>(a: seq<T>, b: seq<T>)
    requires forall x :: x in a <==> x in b
    ensures a == [] <==> b == []
  {
    if a != [] {
      assert a[0] in b;
    }
    if b != [] {
      assert b[0] in a;
    }
  }

  /** Two strictly sorted lists with the same elements are equal. */
  lemma {:induction false} StrictlySortedUnique<T(!new)>(a: seq<T>, b: seq<T>, le: (T, T) -> bool)
    requires TotalOrder(le) && StrictlySorted(a, le) && StrictlySorted(b, le)
    requires forall x :: x in a <==> x in b
    ensures a == b
  {
    SameElementsEmpty(a, b);
    if a != [] {
      assert a[0] in b;
      assert b[0] in a;
      assert a == [a[0]] + a[1..] && b == [b[0]] + b[1..];
      SameHead(a, b, le);
      forall x ensures x in a[1..] <==> x in b[1..] {
        if x in a[1..] {
          StrictlySortedHead(a, le, x);
          assert x in b && x != b[0];
        }
        if x in b[1..] {
          StrictlySortedHead(b, le, x);
          assert x in a && x != a[0];
        }
      }
      StrictlySortedUnique(a[1..], b[1..], le);
    }
  }

  /** Strictly sorted lists with the same elements start with the same one. */
  lemma SameHead<T(!new)>(a: seq<T>, b: seq<T>, le: (T, T) -> bool)
    requires TotalOrder(le) && StrictlySorted(a, le) && StrictlySorted(b, le)
    requires a != [] && b != [] && forall x :: x in a <==> x in b
    ensures a[0] == b[0]
  {
    assert a[0] in b && b[0] in a;
    var i :| 0 <= i < |b| && b[i] == a[0];
    var j :| 0 <= j < |a| && a[j] == b[0];
    Reflexive(le, a[0]);
    Reflexive(le, b[0]);
  }

  /** Sort-then-dedup yields the strictly sorted list of the input's distinct
      elements: no duplicates, nothing added, nothing lost. */
  lemma SortDedupSpec<T(!new)>(s: seq<T>, le: (T, T) -> bool)
    requires TotalOrder(le)
    ensures StrictlySorted(SortDedup(s, le), le)
    ensures forall x :: x in SortDedup(s, le) <==> x in s
    ensures multiset(SortDedup(s, le)) <= multiset(s)
  {
    SortSpec(s, le);
    DedupElements(Sort(s, le));
    DedupSubMultiset(Sort(s, le));
    DedupStrictlySorted(Sort(s, le), le);
    forall x ensures x in Sort(s, le) <==> x in s {
      assert x in Sort(s, le) <==> x in multiset(Sort(s, le));
    }
  }

  /** Sort-then-dedup depends only on the set of elements of its input. */
  lemma SortDedupBySet<T(!new)>(a: seq<T>, b: seq<T>, le: (T, T) -> bool)
    requires TotalOrder(le)
    requires forall x :: x in a <==> x in b
    ensures SortDedup(a, le) == SortDedup(b, le)
  {
    SortDedupSpec(a, le);
    SortDedupSpec(b, le);
    StrictlySortedUnique(SortDedup(a, le), SortDedup(b, le), le);
  }
}
