/** Sorting a list by a strict order, as the library's `sort_by` and `sort_by_key` do. */
module Sorting {
  import opened Machine

  ghost predicate StrictOrder<T(!new)>(before: (T, T) -> bool) {
    && (forall a :: !before(a, a))
    && (forall a, b, c :: before(a, b) && before(b, c) ==> before(a, c))
  }

  function Inserted<T>(x: T, sorted: seq<T>, before: (T, T) -> bool): (r: seq<T>)
    ensures multiset(r) == multiset(sorted) + multiset{x}
  {
    if sorted == [] then [x]
    else if before(x, sorted[0]) then [x] + sorted
    else
      assert sorted == [sorted[0]] + sorted[1..];
      [sorted[0]] + Inserted(x, sorted[1..], before)
  }

  /** Elements that rank the same keep their order. */
  function Sorted<T>(s: seq<T>, before: (T, T) -> bool): (r: seq<T>)
    ensures multiset(r) == multiset(s)
  {
    if s == [] then []
    else
      assert s == s[..|s| - 1] + [s[|s| - 1]];
      Inserted(s[|s| - 1], Sorted(s[..|s| - 1], before), before)
  }

  ghost predicate Ranked<T>(s: seq<T>, before: (T, T) -> bool) {
    forall i, j :: 0 <= i < j < |s| ==> !before(s[j], s[i])
  }

  lemma {:induction false} InsertedRanked<T(!new)>(x: T, s: seq<T>, before: (T, T) -> bool)
    requires StrictOrder(before) && Ranked(s, before)
    ensures Ranked(Inserted(x, s, before), before)
  {
    if s != [] && !before(x, s[0]) {
      var rest := s[1..];
      InsertedRanked(x, rest, before);
      var tail := Inserted(x, rest, before);
      forall j | 0 <= j < |tail|
        ensures !before(tail[j], s[0])
      {
        assert tail[j] in multiset(tail);
        assert tail[j] == x || tail[j] in rest;
      }
    } else if s != [] {
      forall j | 0 <= j < |s|
        ensures !before(s[j], x)
      {
        assert j > 0 ==> !before(s[j], s[0]);
      }
    }
  }

  lemma {:induction false} SortedRanked<T(!new)>(s: seq<T>, before: (T, T) -> bool)
    requires StrictOrder(before)
    ensures Ranked(Sorted(s, before), before)
  {
    if s != [] {
      SortedRanked(s[..|s| - 1], before);
      InsertedRanked(s[|s| - 1], Sorted(s[..|s| - 1], before), before);
    }
  }

  lemma SameElements<T>(a: seq<T>, b: seq<T>)
    requires multiset(a) == multiset(b)
    ensures SetOf(a) == SetOf(b) && |a| == |b|
    ensures NoDuplicates(a) <==> NoDuplicates(b)
  {
    assert forall m :: m in a <==> m in multiset(a);
    assert forall m :: m in b <==> m in multiset(b);
    assert |a| == |multiset(a)| && |b| == |multiset(b)|;
    NoDuplicatesByCount(a);
    NoDuplicatesByCount(b);
  }
}
