/** Array.prototype.sort: the stable sort by a comparator. */
module Sorting {
  import opened Basics

  /** The comparator is a total preorder on the elements of `all`. */
  ghost predicate Consistent<T>(compare: (T, T) -> int, all: set<T>) {
    && (forall a, b :: a in all && b in all ==> (compare(a, b) < 0 <==> compare(b, a) > 0))
    && (forall a, b, c :: a in all && b in all && c in all && compare(a, b) <= 0 && compare(b, c) <= 0 ==>
        compare(a, c) <= 0)
  }

  /** The comparator is a total preorder on all values. */
  ghost predicate TotalPreorder<T(!new)>(compare: (T, T) -> int) {
    && (forall a, b :: compare(a, b) < 0 <==> compare(b, a) > 0)
    && (forall a, b, c :: compare(a, b) <= 0 && compare(b, c) <= 0 ==> compare(a, c) <= 0)
  }

  ghost function Elements<T>(s: seq<T>): set<T> { set x | x in s }

  ghost predicate Sorted<T>(compare: (T, T) -> int, s: seq<T>) {
    forall i, j :: 0 <= i < j < |s| ==> compare(s[i], s[j]) <= 0
  }

  function Insert<T(!new)>(x: T, s: seq<T>, compare: (T, T) -> int): (r: seq<T>)
    ensures multiset(r) == multiset(s) + multiset{x}
    ensures |r| == |s| + 1
    ensures forall y :: y in r <==> y == x || y in s
  {
    if s == [] || compare(x, s[0]) <= 0 then [x] + s
    else
      assert s == [s[0]] + s[1..];
      [s[0]] + Insert(x, s[1..], compare)
  }

  function StableSort<T(!new)>(s: seq<T>, compare: (T, T) -> int): (r: seq<T>)
    ensures multiset(r) == multiset(s)
    ensures |r| == |s|
  {
    if s == [] then []
    else
      assert s == [s[0]] + s[1..];
      Insert(s[0], StableSort(s[1..], compare), compare)
  }

  lemma SameElements<T(!new)>(s: seq<T>, t: seq<T>)
    requires multiset(s) == multiset(t)
    ensures forall x :: x in s <==> x in t
  {
    forall x ensures x in s <==> x in t {
      assert x in multiset(s) <==> x in multiset(t);
    }
  }

  lemma {:induction false} InsertSorted<T(!new)>(x: T, s: seq<T>, compare: (T, T) -> int, all: set<T>)
    requires Sorted(compare, s) && Consistent(compare, all)
    requires x in all && forall y :: y in s ==> y in all
    ensures Sorted(compare, Insert(x, s, compare))
  {
    if s != [] && compare(x, s[0]) > 0 {
      InsertSorted(x, s[1..], compare, all);
      var rest := Insert(x, s[1..], compare);
      forall y | y in rest ensures compare(s[0], y) <= 0 {
        if y != x { HeadIsLeast(s, y, compare); }
      }
      SortedBehind(s[0], rest, compare);
    } else if s != [] {
      forall y | y in s ensures compare(x, y) <= 0 {
        if y != s[0] { HeadIsLeast(s, y, compare); }
      }
      SortedBehind(x, s, compare);
    }
  }

  lemma SortedBehind<T(!new)>(x: T, s: seq<T>, compare: (T, T) -> int)
    requires Sorted(compare, s) && forall y :: y in s ==> compare(x, y) <= 0
    ensures Sorted(compare, [x] + s)
  {
  }

  lemma HeadIsLeast<T(!new)>(s: seq<T>, y: T, compare: (T, T) -> int)
    requires Sorted(compare, s) && s != [] && y in s[1..]
    ensures compare(s[0], y) <= 0
  {
    var k :| 1 <= k < |s| && s[k] == y;
  }

  /** Sorting by a total preorder yields a sorted permutation of the input. */
  lemma {:induction false} StableSortSorts<T(!new)>(s: seq<T>, compare: (T, T) -> int, all: set<T>)
    requires Consistent(compare, all) && Elements(s) <= all
    ensures Sorted(compare, StableSort(s, compare))
    ensures forall x :: x in StableSort(s, compare) <==> x in s
  {
    assert forall x :: x in s ==> x in Elements(s);
    SameElements(StableSort(s, compare), s);
    if s != [] {
      StableSortSorts(s[1..], compare, all);
      InsertSorted(s[0], StableSort(s[1..], compare), compare, all);
    }
  }

  lemma {:induction false} InsertStable<T(!new)>(x: T, s: seq<T>, compare: (T, T) -> int, keep: T -> bool)
    requires forall y :: y in s && keep(x) && keep(y) ==> compare(x, y) <= 0
    ensures Filter(Insert(x, s, compare), keep) == Filter([x] + s, keep)
  {
    FilterConcat([x], s, keep);
    if s != [] && compare(x, s[0]) > 0 {
      InsertStable(x, s[1..], compare, keep);
      FilterConcat([s[0]], Insert(x, s[1..], compare), keep);
      FilterConcat([x], s[1..], keep);
      FilterConcat([s[0]], s[1..], keep);
      assert s == [s[0]] + s[1..];
      assert s[0] in s;
    }
  }

  /** Elements that compare equal keep their original order. */
  lemma {:induction false} StableSortKeepsTies<T(!new)>(s: seq<T>, compare: (T, T) -> int, keep: T -> bool)
    requires forall a, b :: a in s && b in s && keep(a) && keep(b) ==> compare(a, b) <= 0
    ensures Filter(StableSort(s, compare), keep) == Filter(s, keep)
  {
    if s != [] {
      StableSortKeepsTies(s[1..], compare, keep);
      var rest := StableSort(s[1..], compare);
      SameElements(rest, s[1..]);
      InsertStable(s[0], rest, compare, keep);
      FilterConcat([s[0]], rest, keep);
      FilterConcat([s[0]], s[1..], keep);
      assert s == [s[0]] + s[1..];
    }
  }

  lemma {:induction false} DistinctCounts<T(!new)>(s: seq<T>, x: T)
    requires Distinct(s)
    ensures multiset(s)[x] <= 1
  {
    if s != [] {
      assert s == [s[0]] + s[1..];
      DistinctCounts(s[1..], x);
      if x == s[0] {
        assert x !in s[1..];
      }
    }
  }

  lemma PermutationDistinct<T(!new)>(s: seq<T>, t: seq<T>)
    requires Distinct(s) && multiset(s) == multiset(t)
    ensures Distinct(t)
  {
    forall i, j | 0 <= i < j < |t| ensures t[i] != t[j] {
      DistinctCounts(s, t[i]);
      if t[i] == t[j] {
        CountedTwice(t, i, j);
      }
    }
  }

  lemma CountedTwice<T>(t: seq<T>, i: nat, j: nat)
    requires i < j < |t| && t[i] == t[j]
    ensures multiset(t)[t[i]] >= 2
  {
    assert t == t[..j] + t[j..];
    assert t[i] in t[..j] && t[j] in t[j..];
  }

  lemma {:induction false} FilterDistinct<T(!new)>(s: seq<T>, keep: T -> bool)
    requires Distinct(s)
    ensures Distinct(Filter(s, keep))
  {
    if s != [] {
      FilterDistinct(s[1..], keep);
      assert s[0] !in s[1..];
    }
  }

  /** A stable sort of a duplicate-free selection is duplicate-free. */
  lemma SortedSelectionDistinct<T(!new)>(s: seq<T>, keep: T -> bool, compare: (T, T) -> int)
    requires Distinct(s)
    ensures Distinct(StableSort(Filter(s, keep), compare))
  {
    FilterDistinct(s, keep);
    PermutationDistinct(Filter(s, keep), StableSort(Filter(s, keep), compare));
  }

  /** The first `k` of a sort are best: whatever is left out is no better than anything kept. */
  lemma FirstOfSortAreBest<T(!new)>(s: seq<T>, compare: (T, T) -> int, all: set<T>, k: nat)
    requires Consistent(compare, all) && Elements(s) <= all && k <= |s|
    ensures Sorted(compare, StableSort(s, compare)[..k])
    ensures forall x :: x in StableSort(s, compare)[..k] ==> x in s
    ensures forall x, kept :: x in s && x !in StableSort(s, compare)[..k] && kept in StableSort(s, compare)[..k] ==>
              compare(kept, x) <= 0
  {
    StableSortSorts(s, compare, all);
    var t := StableSort(s, compare);
    forall x, kept | x in s && x !in t[..k] && kept in t[..k] ensures compare(kept, x) <= 0 {
      var i :| 0 <= i < k && t[i] == kept;
      var j :| 0 <= j < |t| && t[j] == x;
      forall l | 0 <= l < k ensures t[l] != x { assert t[..k][l] == t[l]; }
      assert i < k <= j;
    }
  }

  lemma {:induction false} FilterSorted<T(!new)>(s: seq<T>, compare: (T, T) -> int, keep: T -> bool)
    requires Sorted(compare, s)
    ensures Sorted(compare, Filter(s, keep))
  {
    if s != [] {
      FilterSorted(s[1..], compare, keep);
      var rest := Filter(s[1..], keep);
      forall j | 0 <= j < |rest| ensures compare(s[0], rest[j]) <= 0 {
        assert rest[j] in rest;
        HeadIsLeast(s, rest[j], compare);
      }
    }
  }
}
