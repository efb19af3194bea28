/** Sorting by a strict order, by insertion. */
module Sorting {
  /** A strict order in which incomparable elements are interchangeable. */
  ghost predicate OrderAt<T>(less: (T, T) -> bool, a: T, b: T, c: T) {
    !(less(a, b) && less(b, a)) && (less(a, b) ==> less(a, c) || less(c, b))
  }

  ghost predicate IsOrder<T(!new)>(less: (T, T) -> bool) {
    forall a, b, c :: OrderAt(less, a, b, c)
  }

  /** Nothing comes after something greater. */
  ghost predicate SortedBy<T>(less: (T, T) -> bool, s: seq<T>) {
    forall i, j :: 0 <= i < j < |s| ==> !less(s[j], s[i])
  }

  function Insert<T>(less: (T, T) -> bool, x: T, s: seq<T>): seq<T> {
    if s == [] || !less(s[0], x) then [x] + s else [s[0]] + Insert(less, x, s[1..])
  }

  function Sort<T>(less: (T, T) -> bool, s: seq<T>): seq<T> {
    if s == [] then [] else Insert(less, s[0], Sort(less, s[1..]))
  }

  lemma {:induction false} InsertElements<T>(less: (T, T) -> bool, x: T, s: seq<T>)
    ensures multiset(Insert(less, x, s)) == multiset(s) + multiset{x}
  {
    if s != [] {
      assert s == [s[0]] + s[1..];
      InsertElements(less, x, s[1..]);
    }
  }

  lemma SortedCons<T>(less: (T, T) -> bool, x: T, s: seq<T>)
    requires SortedBy(less, s) && forall y :: y in multiset(s) ==> !less(y, x)
    ensures SortedBy(less, [x] + s)
  {
    forall k | 0 <= k < |s|
      ensures !less(s[k], x)
    {
      assert s[k] in multiset(s);
    }
  }

  lemma FrontIsLeast<T(!new)>(less: (T, T) -> bool, s: seq<T>, x: T, y: T)
    requires IsOrder(less) && s != [] && SortedBy(less, s) && !less(s[0], x) && y in s
    ensures !less(y, x)
  {
    var k :| 0 <= k < |s| && s[k] == y;
    assert k > 0 ==> !less(s[k], s[0]);
    assert OrderAt(less, y, x, s[0]);
  }

  lemma {:induction false} InsertSorts<T(!new)>(less: (T, T) -> bool, x: T, s: seq<T>)
    requires IsOrder(less) && SortedBy(less, s)
    ensures SortedBy(less, Insert(less, x, s))
  {
    if s != [] && less(s[0], x) {
      InsertSorts(less, x, s[1..]);
      InsertElements(less, x, s[1..]);
      assert OrderAt(less, s[0], x, x);
      SortedCons(less, s[0], Insert(less, x, s[1..]));
    } else if s != [] {
      forall y | y in multiset(s)
        ensures !less(y, x)
      {
        FrontIsLeast(less, s, x, y);
      }
      SortedCons(less, x, s);
    }
  }

  lemma {:induction false} SortSorts<T(!new)>(less: (T, T) -> bool, s: seq<T>)
    requires IsOrder(less)
    ensures SortedBy(less, Sort(less, s)) && multiset(Sort(less, s)) == multiset(s)
  {
    if s != [] {
      assert s == [s[0]] + s[1..];
      SortSorts(less, s[1..]);
      InsertSorts(less, s[0], Sort(less, s[1..]));
      InsertElements(less, s[0], Sort(less, s[1..]));
    }
  }
}
