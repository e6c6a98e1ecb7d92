/** Listing a finite set in order, as an ordered map or a sorted vector does. */
module Ordered {
  import opened Machine

  ghost predicate TotalOrder<T(!new)>(leq: (T, T) -> bool) {
    && (forall a, b :: leq(a, b) || leq(b, a))
    && (forall a, b :: leq(a, b) && leq(b, a) ==> a == b)
    && (forall a, b, c :: leq(a, b) && leq(b, c) ==> leq(a, c))
  }

  predicate LeastIn<T>(s: set<T>, leq: (T, T) -> bool, k: T) {
    k in s && forall j :: j in s ==> leq(k, j)
  }

  lemma {:induction false} HasLeast<T(!new)>(s: set<T>, leq: (T, T) -> bool)
    requires s != {} && TotalOrder(leq)
    ensures exists k :: k in s && LeastIn(s, leq, k)
  {
    var x :| x in s;
    if s == {x} {
      assert LeastIn(s, leq, x);
    } else {
      HasLeast(s - {x}, leq);
      var l :| l in s - {x} && LeastIn(s - {x}, leq, l);
      forall j | j in s
        ensures leq(x, l) ==> leq(x, j)
        ensures leq(l, x) ==> leq(l, j)
      {
        assert j == x || j in s - {x};
      }
      assert LeastIn(s, leq, x) || LeastIn(s, leq, l);
    }
  }

  ghost predicate Ascending<T>(s: seq<T>, leq: (T, T) -> bool) {
    forall i, j :: 0 <= i < j < |s| ==> leq(s[i], s[j])
  }

  function Listed<T(!new)>(s: set<T>, leq: (T, T) -> bool): (r: seq<T>)
    requires TotalOrder(leq)
    ensures SetOf(r) == s && NoDuplicates(r) && Ascending(r, leq)
  {
    if s == {} then []
    else
      HasLeast(s, leq);
      var k :| k in s && LeastIn(s, leq, k);
      var rest := Listed(s - {k}, leq);
      NoDuplicatesCons(k, rest);
      assert forall x :: x in rest <==> x in SetOf(rest);
      [k] + rest
  }

  /** `String`'s order: character by character, a prefix first. */
  predicate TextLeq(a: string, b: string) {
    a == [] || (b != [] && (a[0] < b[0] || (a[0] == b[0] && TextLeq(a[1..], b[1..]))))
  }

  lemma {:induction false} TextTotal(a: string, b: string)
    ensures TextLeq(a, b) || TextLeq(b, a)
    ensures TextLeq(a, b) && TextLeq(b, a) ==> a == b
  {
    if a != [] && b != [] {
      TextTotal(a[1..], b[1..]);
      assert a == [a[0]] + a[1..] && b == [b[0]] + b[1..];
    }
  }

  lemma {:induction false} TextTransitive(a: string, b: string, c: string)
    requires TextLeq(a, b) && TextLeq(b, c)
    ensures TextLeq(a, c)
  {
    if a != [] && a[0] == b[0] == c[0] {
      TextTransitive(a[1..], b[1..], c[1..]);
    }
  }

  lemma TextOrder()
    ensures TotalOrder(TextLeq)
  {
    forall a: string, b: string
      ensures (TextLeq(a, b) || TextLeq(b, a)) && (TextLeq(a, b) && TextLeq(b, a) ==> a == b)
    {
      TextTotal(a, b);
    }
    forall a: string, b: string, c: string | TextLeq(a, b) && TextLeq(b, c)
      ensures TextLeq(a, c)
    {
      TextTransitive(a, b, c);
    }
  }

  function SortedTexts(s: set<string>): (r: seq<string>)
    ensures SetOf(r) == s && NoDuplicates(r) && Ascending(r, TextLeq)
  {
    TextOrder();
    Listed(s, TextLeq)
  }

  predicate NumberLeq(a: u64, b: u64) {
    a <= b
  }

  function SortedNumbers(s: set<u64>): (r: seq<u64>)
    ensures SetOf(r) == s && NoDuplicates(r) && Ascending(r, NumberLeq)
  {
    Listed(s, NumberLeq)
  }

  /** One text before another: it is the beginning of the other, or smaller where they first differ. */
  lemma {:induction false} TextLeqMeans(a: string, b: string)
    ensures TextLeq(a, b) <==> a <= b || exists k: nat :: FirstDifference(a, b, k)
  {
    if a != [] && b != [] && a[0] == b[0] {
      TextLeqMeans(a[1..], b[1..]);
      assert a <= b <==> a[1..] <= b[1..] by {
        assert a == [a[0]] + a[1..] && b == [b[0]] + b[1..];
      }
      if k: nat :| FirstDifference(a[1..], b[1..], k) {
        assert a[..k + 1] == [a[0]] + a[1..][..k] && b[..k + 1] == [b[0]] + b[1..][..k];
        assert FirstDifference(a, b, k + 1);
      }
      if k: nat :| FirstDifference(a, b, k) {
        assert k > 0;
        assert a[..k][1..] == a[1..][..k - 1] && b[..k][1..] == b[1..][..k - 1];
        assert FirstDifference(a[1..], b[1..], k - 1);
      }
    } else if a != [] && b != [] {
      if a[0] < b[0] {
        assert a[..0] == b[..0];
        assert FirstDifference(a, b, 0);
      }
      if k: nat :| FirstDifference(a, b, k) {
        assert k > 0 ==> a[..k][0] == b[..k][0];
      }
    }
  }

  ghost predicate FirstDifference(a: string, b: string, k: nat) {
    k < |a| && k < |b| && a[..k] == b[..k] && a[k] < b[k]
  }

  lemma NumbersAscend(s: set<u64>)
    ensures forall i, j :: 0 <= i < j < |SortedNumbers(s)| ==> SortedNumbers(s)[i] < SortedNumbers(s)[j]
  {
    var r := SortedNumbers(s);
    forall i, j | 0 <= i < j < |r|
      ensures r[i] < r[j]
    {
      assert NumberLeq(r[i], r[j]);
    }
  }
}
