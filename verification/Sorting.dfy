/** A stable insertion sort by any order, standing for Array.prototype.sort, and what its callers need of it. */
module Sorting {

  /** `le` is a total preorder. */
  ghost predicate TotalPreorder<T(!new)>(le: (T, T) -> bool) {
    && (forall x, y :: le(x, y) || le(y, x))
    && (forall x, y, z :: le(x, y) && le(y, z) ==> le(x, z))
  }

  /** Insert after every element that is not greater. */
  function Insert<T>(sorted: seq<T>, x: T, le: (T, T) -> bool): (r: seq<T>)
    ensures |r| == |sorted| + 1
  {
    if sorted == [] || le(sorted[|sorted| - 1], x) then sorted + [x]
    else Insert(sorted[..|sorted| - 1], x, le) + [sorted[|sorted| - 1]]
  }

  function Sort<T>(s: seq<T>, le: (T, T) -> bool): (r: seq<T>)
    ensures |r| == |s|
  {
    if s == [] then [] else Insert(Sort(s[..|s| - 1], le), s[|s| - 1], le)
  }

  ghost predicate Sorted<T>(s: seq<T>, le: (T, T) -> bool) {
    forall i, j :: 0 <= i < j < |s| ==> le(s[i], s[j])
  }

  ghost predicate AllBelow<T>(s: seq<T>, x: T, le: (T, T) -> bool) {
    forall i :: 0 <= i < |s| ==> le(s[i], x)
  }

  lemma SortedEnd<T>(front: seq<T>, last: T, le: (T, T) -> bool)
    ensures Sorted(front + [last], le) <==> Sorted(front, le) && AllBelow(front, last, le)
  {
    var s := front + [last];
    assert s[|front|] == last && forall i :: 0 <= i < |front| ==> s[i] == front[i];
    if Sorted(s, le) {
      forall i, j | 0 <= i < j < |front|
        ensures le(front[i], front[j])
      {
        assert le(s[i], s[j]);
      }
      forall i | 0 <= i < |front|
        ensures le(front[i], last)
      {
        assert le(s[i], s[|front|]);
      }
    }
  }

  lemma {:induction false} InsertKeeps<T>(sorted: seq<T>, x: T, le: (T, T) -> bool)
    ensures multiset(Insert(sorted, x, le)) == multiset(sorted) + multiset{x}
  {
    if sorted != [] && !le(sorted[|sorted| - 1], x) {
      InsertKeeps(sorted[..|sorted| - 1], x, le);
      assert sorted == sorted[..|sorted| - 1] + [sorted[|sorted| - 1]];
    }
  }

  lemma BelowAfterInsert<T>(s: seq<T>, t: seq<T>, x: T, bound: T, le: (T, T) -> bool)
    requires multiset(t) == multiset(s) + multiset{x} && AllBelow(s, bound, le) && le(x, bound)
    ensures AllBelow(t, bound, le)
  {
    forall i | 0 <= i < |t|
      ensures le(t[i], bound)
    {
      assert t[i] in multiset(t);
      if t[i] != x {
        assert t[i] in multiset(s);
        var k :| 0 <= k < |s| && s[k] == t[i];
      }
    }
  }

  lemma BelowIsTransitive<T(!new)>(s: seq<T>, x: T, y: T, le: (T, T) -> bool)
    requires TotalPreorder(le) && AllBelow(s, x, le) && le(x, y)
    ensures AllBelow(s + [x], y, le)
  {
  }

  lemma Comparable<T(!new)>(x: T, y: T, le: (T, T) -> bool)
    requires TotalPreorder(le)
    ensures le(x, y) || le(y, x)
  {
  }

  lemma {:induction false} InsertSorts<T(!new)>(sorted: seq<T>, x: T, le: (T, T) -> bool)
    requires TotalPreorder(le) && Sorted(sorted, le)
    ensures Sorted(Insert(sorted, x, le), le)
  {
    hide Sorted, AllBelow, TotalPreorder;
    if sorted == [] {
      SortedOne(x, le);
    } else {
      var front, last := sorted[..|sorted| - 1], sorted[|sorted| - 1];
      assert sorted == front + [last];
      SortedEnd(front, last, le);
      if le(last, x) {
        BelowIsTransitive(front, last, x, le);
        SortedEnd(sorted, x, le);
      } else {
        Comparable(last, x, le);
        InsertSorts(front, x, le);
        InsertKeeps(front, x, le);
        BelowAfterInsert(front, Insert(front, x, le), x, last, le);
        SortedEnd(Insert(front, x, le), last, le);
      }
    }
  }

  lemma SortedOne<T>(x: T, le: (T, T) -> bool)
    ensures Sorted([] + [x], le)
  {
  }

  /** Sorting orders the elements and keeps each as often as it was. */
  lemma {:induction false} SortSorts<T(!new)>(s: seq<T>, le: (T, T) -> bool)
    requires TotalPreorder(le)
    ensures Sorted(Sort(s, le), le) && multiset(Sort(s, le)) == multiset(s)
  {
    if s != [] {
      hide TotalPreorder, Sorted;
      var front, last := s[..|s| - 1], s[|s| - 1];
      assert s == front + [last];
      SortSorts(front, le);
      InsertSorts(Sort(front, le), last, le);
      InsertKeeps(Sort(front, le), last, le);
    }
  }

  /** The members that are equivalent to x, in order. */
  function Class<T>(s: seq<T>, x: T, le: (T, T) -> bool): (r: seq<T>)
    ensures forall i :: 0 <= i < |r| ==> r[i] in s && le(r[i], x) && le(x, r[i])
    ensures forall i :: 0 <= i < |s| && le(s[i], x) && le(x, s[i]) ==> s[i] in r
  {
    if s == [] then []
    else
      var front, last := Class(s[..|s| - 1], x, le), s[|s| - 1];
      if le(last, x) && le(x, last) then front + [last] else front
  }

  lemma {:induction false} InsertIsStable<T(!new)>(sorted: seq<T>, y: T, x: T, le: (T, T) -> bool)
    requires TotalPreorder(le)
    ensures Class(Insert(sorted, y, le), x, le) == Class(sorted + [y], x, le)
  {
    assert (sorted + [y])[..|sorted|] == sorted;
    if sorted != [] && !le(sorted[|sorted| - 1], y) {
      var front, last := sorted[..|sorted| - 1], sorted[|sorted| - 1];
      InsertIsStable(front, y, x, le);
      assert (front + [y])[..|front|] == front;
      var inserted := Insert(front, y, le);
      assert (inserted + [last])[..|inserted|] == inserted;
    }
  }

  /** Sorting is stable: equivalent elements keep their order. */
  lemma {:induction false} SortIsStable<T(!new)>(s: seq<T>, x: T, le: (T, T) -> bool)
    requires TotalPreorder(le)
    ensures Class(Sort(s, le), x, le) == Class(s, x, le)
  {
    if s != [] {
      var front, last := s[..|s| - 1], s[|s| - 1];
      SortIsStable(front, x, le);
      InsertIsStable(Sort(front, le), last, x, le);
      assert (Sort(front, le) + [last])[..|front|] == Sort(front, le);
      assert s == front + [last];
    }
  }

  lemma SameMembers<T>(a: seq<T>, b: seq<T>)
    requires multiset(a) == multiset(b)
    ensures |a| == |b| && forall x :: x in a <==> x in b
  {
    assert |a| == |multiset(a)| && |b| == |multiset(b)|;
    assert forall x :: x in a <==> x in multiset(a);
    assert forall x :: x in b <==> x in multiset(b);
  }

  /** No two different members are equivalent. */
  ghost predicate Distinguished<T>(s: seq<T>, le: (T, T) -> bool) {
    forall x, y :: x in s && y in s && le(x, y) && le(y, x) ==> x == y
  }

  lemma WithoutLast<T>(s: seq<T>, le: (T, T) -> bool)
    requires s != []
    ensures multiset(s[..|s| - 1]) == multiset(s) - multiset{s[|s| - 1]}
    ensures Sorted(s, le) ==> Sorted(s[..|s| - 1], le)
    ensures Distinguished(s, le) ==> Distinguished(s[..|s| - 1], le)
  {
    assert s == s[..|s| - 1] + [s[|s| - 1]];
  }

  lemma LastIsGreatest<T>(s: seq<T>, x: T, le: (T, T) -> bool)
    requires Sorted(s, le) && x in s
    ensures x == s[|s| - 1] || le(x, s[|s| - 1])
  {
  }

  lemma SameLast<T>(a: seq<T>, b: seq<T>, le: (T, T) -> bool)
    requires Sorted(a, le) && Sorted(b, le) && Distinguished(a, le) && multiset(a) == multiset(b) && a != []
    ensures |a| == |b| && a[|a| - 1] == b[|b| - 1]
  {
    SameMembers(a, b);
    LastIsGreatest(a, b[|b| - 1], le);
    LastIsGreatest(b, a[|a| - 1], le);
  }

  /** A sorted arrangement of pairwise different members is unique. */
  lemma {:induction false} OrderIsUnique<T>(a: seq<T>, b: seq<T>, le: (T, T) -> bool)
    requires Sorted(a, le) && Sorted(b, le) && Distinguished(a, le) && multiset(a) == multiset(b)
    ensures a == b
  {
    hide Sorted, Distinguished;
    if a == [] {
      SameMembers(a, b);
    } else {
      SameLast(a, b, le);
      WithoutLast(a, le);
      WithoutLast(b, le);
      OrderIsUnique(a[..|a| - 1], b[..|b| - 1], le);
      assert a == a[..|a| - 1] + [a[|a| - 1]] && b == b[..|b| - 1] + [b[|b| - 1]];
    }
  }
}
