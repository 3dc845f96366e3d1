/**
 * `ORDER BY` as an insertion sort under a total preorder. The SQL leaves the order of rows
 * with equal sort keys unspecified. This sort lists them in reverse table order, and no
 * property of the model depends on that order.
 */
module Ordering {

  /** `before(a, b)`: `a` may be listed ahead of `b`. Total and transitive. */
  ghost predicate TotalPreorder<T(!new)>(before: (T, T) -> bool)
  {
    && (forall a, b :: before(a, b) || before(b, a))
    && (forall a, b, c :: before(a, b) && before(b, c) ==> before(a, c))
  }

  predicate SortedBy<T>(s: seq<T>, before: (T, T) -> bool)
  {
    forall i, j :: 0 <= i < j < |s| ==> before(s[i], s[j])
  }

  /** Inserts `x` ahead of the first element it must precede strictly, after its equals. */
  function Insert<T(!new)>(x: T, s: seq<T>, before: (T, T) -> bool): (r: seq<T>)
    requires TotalPreorder(before)
    ensures multiset(r) == multiset(s) + multiset{x}
  {
    if s == [] then [x]
    else if before(x, s[0]) && !before(s[0], x) then
      assert s == [s[0]] + s[1..];
      [x] + s
    else
      assert s == [s[0]] + s[1..];
      [s[0]] + Insert(x, s[1..], before)
  }

  lemma {:induction false} InsertSorted<T(!new)>(x: T, s: seq<T>, before: (T, T) -> bool)
    requires TotalPreorder(before)
    requires SortedBy(s, before)
    ensures SortedBy(Insert(x, s, before), before)
  {
    if s != [] && !(before(x, s[0]) && !before(s[0], x)) {
      var rest := Insert(x, s[1..], before);
      InsertSorted(x, s[1..], before);
      assert before(s[0], x);
      forall k | 0 <= k < |rest|
        ensures before(s[0], rest[k])
      {
        assert rest[k] in multiset(rest);
        assert rest[k] in multiset(s[1..]) || rest[k] == x;
        if rest[k] != x {
          var m :| 0 <= m < |s[1..]| && s[1..][m] == rest[k];
          assert s[1 + m] == rest[k];
        }
      }
      assert Insert(x, s, before) == [s[0]] + rest;
    }
  }

  /** The rows of `s` listed so that each may precede every later one. */
  function Sort<T(!new)>(s: seq<T>, before: (T, T) -> bool): (r: seq<T>)
    requires TotalPreorder(before)
    ensures multiset(r) == multiset(s)
    ensures |r| == |s|
    ensures SortedBy(r, before)
  {
    if s == [] then []
    else
      assert s == [s[0]] + s[1..];
      InsertSorted(s[0], Sort(s[1..], before), before);
      Insert(s[0], Sort(s[1..], before), before)
  }

  /** Sorting neither adds nor drops an element. */
  lemma SortSameElements<T(!new)>(s: seq<T>, before: (T, T) -> bool)
    requires TotalPreorder(before)
    ensures forall x :: x in Sort(s, before) <==> x in s
  {
    var r := Sort(s, before);
    forall x
      ensures x in r <==> x in s
    {
      assert x in r <==> x in multiset(r);
      assert x in s <==> x in multiset(s);
    }
  }
}
