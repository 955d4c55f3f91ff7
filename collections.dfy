/** Sequence utilities shared by the pipeline stages: first-occurrence
    search, the first-occurrence list of distinct values (pandas `unique()`),
    sums, and sorting by a total preorder. */
module Collections {

  /** Index of the first occurrence of `x` in `s` (Python `list.index`). */
  function Find<T(==)>(s: seq<T>, x: T): (k: nat)
    requires x in s
    ensures k < |s| && s[k] == x
    ensures x !in s[..k]
  {
    if s[0] == x then 0 else 1 + Find(s[1..], x)
  }

  /** The first occurrence is at or before any occurrence. */
  lemma {:induction false} FindAtMost<T>(s: seq<T>, i: nat)
    requires i < |s|
    ensures Find(s, s[i]) <= i
  {
    if s[0] != s[i] {
      assert s[1..][i - 1] == s[i];
      FindAtMost(s[1..], i - 1);
    }
  }

  predicate Distinct<T(==)>(s: seq<T>) {
    forall i, j :: 0 <= i < j < |s| ==> s[i] != s[j]
  }

  /** The distinct values of `s`, each listed where it first occurs
      (pandas `Series.unique()`). */
  function Unique<T(==,!new)>(s: seq<T>): (u: seq<T>)
    ensures forall x :: x in u <==> x in s
    ensures Distinct(u)
    ensures |u| <= |s|
    decreases |s|
  {
    if s == [] then []
    else
      var u := Unique(s[..|s| - 1]);
      var last := s[|s| - 1];
      assert forall x :: x in s <==> x in s[..|s| - 1] || x == last by {
        assert s == s[..|s| - 1] + [last];
      }
      if last in u then u else u + [last]
  }

  /** Unique lists values in the order of their first occurrence. */
  lemma {:induction false} UniqueFirstOccurrenceOrder<T(!new)>(s: seq<T>, i: nat, j: nat)
    requires i < j < |Unique(s)|
    ensures Find(s, Unique(s)[i]) < Find(s, Unique(s)[j])
    decreases |s|
  {
    var p := s[..|s| - 1];
    var last := s[|s| - 1];
    assert s == p + [last];
    var u := Unique(p);
    FindInPrefix(p, last, u[i]);
    if last in u {
      FindInPrefix(p, last, u[j]);
      UniqueFirstOccurrenceOrder(p, i, j);
    } else if j < |u| {
      FindInPrefix(p, last, u[j]);
      UniqueFirstOccurrenceOrder(p, i, j);
    } else {
      // u[j] is `last`, which does not occur in p: its first index is |p|
      assert Unique(s)[j] == last && last !in p;
      FindLast(p, last);
    }
  }

  lemma FindInPrefix<T>(p: seq<T>, last: T, x: T)
    requires x in p
    ensures Find(p + [last], x) == Find(p, x)
  {
    if p[0] != x {
      assert (p + [last])[1..] == p[1..] + [last];
      FindInPrefix(p[1..], last, x);
    }
  }

  lemma FindLast<T>(p: seq<T>, last: T)
    requires last !in p
    ensures Find(p + [last], last) == |p|
  {
    if p != [] {
      assert (p + [last])[1..] == p[1..] + [last];
      FindLast(p[1..], last);
    }
  }

  /** Occurrences of `x` in `s`. */
  function Count<T(==)>(s: seq<T>, x: T): nat {
    if s == [] then 0 else (if s[0] == x then 1 else 0) + Count(s[1..], x)
  }

  function Sum(s: seq<nat>): nat {
    if s == [] then 0 else s[0] + Sum(s[1..])
  }

  /** `before` orders every pair of values and is transitive: a comparator
      for a sort whose ties may fall either way. */
  ghost predicate TotalPreorder<T(!new)>(before: (T, T) -> bool) {
    && (forall x, y :: before(x, y) || before(y, x))
    && (forall x, y, z :: before(x, y) && before(y, z) ==> before(x, z))
  }

  predicate SortedBy<T>(s: seq<T>, before: (T, T) -> bool) {
    forall i, j :: 0 <= i < j < |s| ==> before(s[i], s[j])
  }

  function Insert<T(!new)>(x: T, s: seq<T>, before: (T, T) -> bool): (r: seq<T>)
    requires TotalPreorder(before)
    requires SortedBy(s, before)
    ensures SortedBy(r, before)
    ensures multiset(r) == multiset(s) + multiset{x}
  {
    if s == [] then [x]
    else if before(x, s[0]) then
      ConsSorted(x, s, before);
      [x] + s
    else
      var rest := Insert(x, s[1..], before);
      InsertStep(x, s, rest, before);
      [s[0]] + rest
  }

  /** When `x` goes after the head, the head followed by the insertion of
      `x` into the tail is sorted and holds `s` and `x`. */
  lemma InsertStep<T(!new)>(x: T, s: seq<T>, rest: seq<T>, before: (T, T) -> bool)
    requires TotalPreorder(before) && SortedBy(s, before)
    requires s != [] && !before(x, s[0])
    requires SortedBy(rest, before) && multiset(rest) == multiset(s[1..]) + multiset{x}
    ensures SortedBy([s[0]] + rest, before)
    ensures multiset([s[0]] + rest) == multiset(s) + multiset{x}
  {
    assert s == [s[0]] + s[1..];
    forall k | 0 <= k < |rest|
      ensures before(s[0], rest[k])
    {
      assert rest[k] in multiset(rest);
    }
    ConsSorted(s[0], rest, before);
  }

  /** An element ordered before the head of a sorted sequence, or before
      all of it, can be put in front of it. */
  lemma ConsSorted<T(!new)>(x: T, s: seq<T>, before: (T, T) -> bool)
    requires TotalPreorder(before) && SortedBy(s, before)
    requires (s != [] && before(x, s[0])) || forall k :: 0 <= k < |s| ==> before(x, s[k])
    ensures SortedBy([x] + s, before)
  {
    var r := [x] + s;
    forall i, j | 0 <= i < j < |r|
      ensures before(r[i], r[j])
    {
      if i == 0 && s != [] && before(x, s[0]) && j > 1 {
        assert before(s[0], s[j - 1]);
      }
    }
  }

  /** A stable insertion sort by `before`: its result is ordered by `before`
      and is a permutation of its input. */
  function SortBy<T(!new)>(s: seq<T>, before: (T, T) -> bool): (r: seq<T>)
    requires TotalPreorder(before)
    ensures SortedBy(r, before)
    ensures multiset(r) == multiset(s)
    ensures |r| == |s|
  {
    if s == [] then []
    else
      assert s == [s[0]] + s[1..];
      Insert(s[0], SortBy(s[1..], before), before)
  }
}
