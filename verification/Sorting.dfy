/** Sorting under a total order, and the order the programs sort identifiers by. */
module Sorting {

  ghost predicate TotalPreorder<T(!new)>(le: (T, T) -> bool) {
    && (forall x, y :: le(x, y) || le(y, x))
    && (forall x, y, z :: le(x, y) && le(y, z) ==> le(x, z))
  }

  ghost predicate TotalOrder<T(!new)>(le: (T, T) -> bool) {
    TotalPreorder(le) && forall x, y :: le(x, y) && le(y, x) ==> x == y
  }

  ghost predicate Sorted<T>(le: (T, T) -> bool, xs: seq<T>) {
    forall i, j :: 0 <= i < j < |xs| ==> le(xs[i], xs[j])
  }

  function Insert<T>(le: (T, T) -> bool, x: T, xs: seq<T>): (r: seq<T>)
    ensures multiset(r) == multiset(xs) + multiset{x}
  {
    if xs == [] then [x]
    else if le(x, xs[0]) then [x] + xs
    else
      assert xs == [xs[0]] + xs[1..];
      [xs[0]] + Insert(le, x, xs[1..])
  }

  function Sort<T>(le: (T, T) -> bool, xs: seq<T>): (r: seq<T>)
    ensures multiset(r) == multiset(xs)
  {
    if xs == [] then []
    else
      assert xs == [xs[0]] + xs[1..];
      Insert(le, xs[0], Sort(le, xs[1..]))
  }

  lemma SameMembers<T>(a: seq<T>, b: seq<T>)
    requires multiset(a) == multiset(b)
    ensures |a| == |b| && forall x :: x in a <==> x in b
  {
    assert |multiset(a)| == |a| && |multiset(b)| == |b|;
    forall x
      ensures x in a <==> x in b
    {
      assert x in a <==> x in multiset(a);
      assert x in b <==> x in multiset(b);
    }
  }

  lemma {:induction false} InsertKeepsSorted<T(!new)>(le: (T, T) -> bool, x: T, xs: seq<T>)
    requires TotalPreorder(le) && Sorted(le, xs)
    ensures Sorted(le, Insert(le, x, xs))
  {
    if xs != [] && !le(x, xs[0]) {
      InsertKeepsSorted(le, x, xs[1..]);
      var rest := Insert(le, x, xs[1..]);
      forall y | y in rest
        ensures le(xs[0], y)
      {
        assert y in multiset(rest);
        assert y == x || y in xs[1..];
      }
    }
  }

  lemma {:induction false} SortSorts<T(!new)>(le: (T, T) -> bool, xs: seq<T>)
    requires TotalPreorder(le)
    ensures Sorted(le, Sort(le, xs))
  {
    if xs != [] {
      SortSorts(le, xs[1..]);
      InsertKeepsSorted(le, xs[0], Sort(le, xs[1..]));
    }
  }

  /** A sorted list is determined by its elements. */
  lemma {:induction false} SortedIsUnique<T(!new)>(le: (T, T) -> bool, a: seq<T>, b: seq<T>)
    requires TotalOrder(le) && Sorted(le, a) && Sorted(le, b)
    requires multiset(a) == multiset(b)
    ensures a == b
  {
    SameMembers(a, b);
    if a != [] {
      assert a[0] in b && b[0] in a;
      LeastIsFirst(le, a, b[0]);
      LeastIsFirst(le, b, a[0]);
      assert a == [a[0]] + a[1..] && b == [b[0]] + b[1..];
      assert multiset(a[1..]) == multiset(a) - multiset{a[0]};
      assert multiset(b[1..]) == multiset(b) - multiset{b[0]};
      SortedIsUnique(le, a[1..], b[1..]);
    }
  }

  lemma LeastIsFirst<T(!new)>(le: (T, T) -> bool, a: seq<T>, x: T)
    requires TotalOrder(le) && Sorted(le, a) && x in a
    ensures le(a[0], x)
  {
  }

  ghost predicate Distinct<T>(xs: seq<T>) {
    forall i, j :: 0 <= i < j < |xs| ==> xs[i] != xs[j]
  }

  lemma {:induction false} DistinctCounts<T>(xs: seq<T>)
    ensures Distinct(xs) <==> forall x :: multiset(xs)[x] <= 1
  {
    if xs != [] {
      DistinctCounts(xs[1..]);
      assert xs == [xs[0]] + xs[1..];
      if Distinct(xs) {
        forall x
          ensures multiset(xs)[x] <= 1
        {
          if x == xs[0] {
            assert x !in xs[1..];
            assert x !in multiset(xs[1..]);
          }
        }
      } else {
        var i, j :| 0 <= i < j < |xs| && xs[i] == xs[j];
        assert xs[1..][j - 1] == xs[j] && xs[j] in multiset(xs[1..]);
        if i > 0 {
          assert xs[1..][i - 1] == xs[i];
          var x :| multiset(xs[1..])[x] > 1;
          assert multiset(xs)[x] > 1;
        } else {
          assert multiset(xs)[xs[0]] > 1;
        }
      }
    }
  }

  /** Distinct lists with the same members are rearrangements of each other. */
  lemma DistinctSameMembers<T>(a: seq<T>, b: seq<T>)
    requires Distinct(a) && Distinct(b)
    requires forall x :: x in a <==> x in b
    ensures multiset(a) == multiset(b)
  {
    DistinctCounts(a);
    DistinctCounts(b);
    forall x
      ensures multiset(a)[x] == multiset(b)[x]
    {
      assert x in multiset(a) <==> x in a;
      assert x in multiset(b) <==> x in b;
    }
  }

  lemma SortKeepsDistinct<T>(le: (T, T) -> bool, xs: seq<T>)
    requires Distinct(xs)
    ensures Distinct(Sort(le, xs))
  {
    DistinctCounts(xs);
    DistinctCounts(Sort(le, xs));
  }

  /**
   * Order by scalar values: the order in which JavaScript compares and sorts strings without characters beyond the
   * basic plane, which it compares by their surrogates.
   */
  predicate StringLe(a: string, b: string) {
    a == [] || (b != [] && (a[0] < b[0] || (a[0] == b[0] && StringLe(a[1..], b[1..]))))
  }

  lemma {:induction false} StringLeTotal(a: string, b: string)
    ensures StringLe(a, b) || StringLe(b, a)
    ensures StringLe(a, b) && StringLe(b, a) ==> a == b
  {
    if a != [] && b != [] {
      StringLeTotal(a[1..], b[1..]);
      assert a == [a[0]] + a[1..] && b == [b[0]] + b[1..];
    }
  }

  lemma {:induction false} StringLeTransitive(a: string, b: string, c: string)
    requires StringLe(a, b) && StringLe(b, c)
    ensures StringLe(a, c)
  {
    if a != [] && a[0] == b[0] == c[0] {
      StringLeTransitive(a[1..], b[1..], c[1..]);
    }
  }

  lemma StringLeIsTotalOrder()
    ensures TotalOrder(StringLe)
  {
    forall x, y
      ensures StringLe(x, y) || StringLe(y, x)
      ensures StringLe(x, y) && StringLe(y, x) ==> x == y
    {
      StringLeTotal(x, y);
    }
    forall x, y, z | StringLe(x, y) && StringLe(y, z)
      ensures StringLe(x, z)
    {
      StringLeTransitive(x, y, z);
    }
  }
}
