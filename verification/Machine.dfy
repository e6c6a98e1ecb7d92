/** Machine integers and the few generic datatypes the other modules share. */
module Machine {

  datatype Option<+T> = None | Some(value: T)

  const U64_MAX: nat := 0xFFFF_FFFF_FFFF_FFFF
  const U128_MAX: nat := 0xFFFF_FFFF_FFFF_FFFF_FFFF_FFFF_FFFF_FFFF

  type u64 = x: int | 0 <= x <= U64_MAX
  type u128 = x: int | 0 <= x <= U128_MAX
  type byte = x: int | 0 <= x < 256
  type Bytes = seq<byte>

  function Max(a: int, b: int): int { if a < b then b else a }

  /** `to_ascii_lowercase` */
  function AsciiLower(c: char): char {
    if 'A' <= c <= 'Z' then (c as int + 32) as char else c
  }

  /** `u64::saturating_add` */
  function SaturatingAdd64(a: u64, b: u64): u64 {
    if a + b > U64_MAX then U64_MAX else a + b
  }

  /** `u64::saturating_sub` */
  function SaturatingSub64(a: u64, b: u64): u64 {
    if a < b then 0 else a - b
  }

  /** `u64::saturating_mul` */
  function SaturatingMul64(a: u64, b: u64): u64 {
    MulNonNegative(a, b);
    if a * b > U64_MAX then U64_MAX else a * b
  }

  /** `u64::checked_add` */
  function CheckedAdd64(a: u64, b: u64): Option<u64> {
    if a + b > U64_MAX then None else Some(a + b)
  }

  /** `u64::checked_mul` */
  function CheckedMul64(a: u64, b: u64): Option<u64> {
    MulNonNegative(a, b);
    if a * b > U64_MAX then None else Some(a * b)
  }

  /** `u64::checked_sub` */
  function CheckedSub64(a: u64, b: u64): Option<u64> {
    if a < b then None else Some(a - b)
  }

  /** `u128::saturating_add` */
  function SaturatingAdd128(a: u128, b: u128): u128 {
    if a + b > U128_MAX then U128_MAX else a + b
  }

  /** `u128::saturating_mul` */
  function SaturatingMul128(a: u128, b: u128): u128 {
    MulNonNegative(a, b);
    if a * b > U128_MAX then U128_MAX else a * b
  }

  lemma MulNonNegative(a: int, b: int)
    requires 0 <= a && 0 <= b
    ensures 0 <= a * b
  {
  }

  lemma SmallMultiple(k: int, d: int)
    requires d > 0 && -d < k * d < d
    ensures k == 0
  {
  }

  ghost function SetOf<T>(s: seq<T>): set<T> {
    set x | x in s
  }

  ghost predicate NoDuplicates<T>(s: seq<T>) {
    forall i, j :: 0 <= i < j < |s| ==> s[i] != s[j]
  }

  lemma NoDuplicatesCons<T>(x: T, s: seq<T>)
    ensures NoDuplicates([x] + s) <==> x !in s && NoDuplicates(s)
  {
    var t := [x] + s;
    assert forall i :: 0 <= i < |s| ==> t[i + 1] == s[i];
    if NoDuplicates(t) {
      forall i, j | 0 <= i < j < |s|
        ensures s[i] != s[j]
      {
        assert t[i + 1] != t[j + 1];
      }
      forall i | 0 <= i < |s|
        ensures s[i] != x
      {
        assert t[0] != t[i + 1];
      }
    }
  }

  /** A sequence repeats nothing exactly when it is as long as its set of elements. */
  lemma {:induction false} NoDuplicatesByCount<T>(s: seq<T>)
    ensures |SetOf(s)| <= |s|
    ensures NoDuplicates(s) <==> |SetOf(s)| == |s|
  {
    if s != [] {
      var rest := s[1..];
      assert s == [s[0]] + rest;
      NoDuplicatesByCount(rest);
      NoDuplicatesCons(s[0], rest);
      SetOfCons(s[0], rest);
      hide NoDuplicates, SetOf;
    }
  }

  lemma SetOfCons<T>(x: T, s: seq<T>)
    ensures SetOf([x] + s) == {x} + SetOf(s)
    ensures |SetOf([x] + s)| == if x in s then |SetOf(s)| else |SetOf(s)| + 1
  {
    assert SetOf([x] + s) == {x} + SetOf(s);
    if x in s {
      assert SetOf([x] + s) == SetOf(s);
    }
  }

  // ---- slices of joined sequences ----

  lemma SliceOfFirst<T>(x: seq<T>, y: seq<T>, i: nat, j: nat)
    requires i <= j <= |x|
    ensures (x + y)[i..j] == x[i..j]
  {
  }

  lemma SliceOfSecond<T>(x: seq<T>, y: seq<T>, i: nat, j: nat)
    requires i <= j <= |y|
    ensures (x + y)[|x| + i..|x| + j] == y[i..j]
  {
  }

  lemma CutInSecond<T>(x: seq<T>, y: seq<T>, n: nat)
    requires n <= |y|
    ensures (x + y)[..|x| + n] == x + y[..n] && (x + y)[|x| + n..] == y[n..]
  {
  }

  lemma SliceOfSlice<T>(s: seq<T>, lo: nat, hi: nat, i: nat, j: nat)
    requires lo <= hi <= |s| && i <= j <= hi - lo
    ensures s[lo..hi][i..j] == s[lo + i..lo + j]
  {
    var left, right := s[lo..hi][i..j], s[lo + i..lo + j];
    assert forall k :: 0 <= k < |right| ==> left[k] == right[k];
  }
}
