/** Whole numbers as digit strings. */
module Decimal {
  import opened Machine

  predicate IsDigit(c: char) {
    '0' <= c <= '9'
  }

  function DigitOf(d: nat): (c: char)
    requires d < 10
    ensures IsDigit(c)
  {
    (d + '0' as int) as char
  }

  predicate AllDigits(t: string) {
    forall i :: 0 <= i < |t| ==> IsDigit(t[i])
  }

  /** `to_string` */
  function Digits(n: nat): (t: string)
    ensures |t| > 0 && AllDigits(t)
  {
    if n < 10 then [DigitOf(n)] else Digits(n / 10) + [DigitOf(n % 10)]
  }

  function ValueOf(t: string): nat
    requires AllDigits(t)
  {
    if t == [] then 0
    else 10 * ValueOf(t[..|t| - 1]) + (t[|t| - 1] as int - '0' as int)
  }

  /** What `u64` and `u128` parsing accept: digits, perhaps after a plus sign, within the width. */
  function ParseUnsigned(t: string, max: nat): (r: Option<nat>)
    ensures r.Some? ==> r.value <= max
  {
    var digits := if t != [] && t[0] == '+' then t[1..] else t;
    if digits == [] || !AllDigits(digits) || ValueOf(digits) > max then None else Some(ValueOf(digits))
  }

  /** `whole_number` */
  function WholeNumber(t: string): Option<u128> {
    if t == [] || !AllDigits(t) then None else ParseUnsigned(t, U128_MAX)
  }

  /** `canonical_decimal` */
  function CanonicalDecimal(t: string): Option<u128> {
    if |t| > 1 && t[0] == '0' then None else WholeNumber(t)
  }

  /** `canonical_decimal(t).and_then(|n| u64::try_from(n).ok())` */
  function CanonicalU64(t: string): Option<u64> {
    match CanonicalDecimal(t)
    case None => None
    case Some(n) => if n <= U64_MAX then Some(n) else None
  }

  lemma {:induction false} DigitsRead(n: nat)
    ensures ValueOf(Digits(n)) == n
    ensures |Digits(n)| > 1 ==> Digits(n)[0] != '0'
    ensures n > 0 ==> Digits(n)[0] != '0'
  {
    if n < 10 {
      assert ValueOf([DigitOf(n)]) == 10 * ValueOf([]) + n;
    } else {
      DigitsRead(n / 10);
      assert Digits(n)[..|Digits(n)| - 1] == Digits(n / 10);
    }
  }

  lemma LastDigit(front: nat, d: nat)
    requires d < 10
    ensures (10 * front + d) / 10 == front && (10 * front + d) % 10 == d
  {
  }

  lemma OneDigitRead(c: char)
    requires IsDigit(c)
    ensures ValueOf([c]) == c as int - '0' as int && Digits(ValueOf([c])) == [c]
  {
    assert [c][..0] == [];
  }

  /** One more digit at the end of a number that is not zero. */
  lemma DigitAppended(front: string, c: char)
    requires AllDigits(front) && IsDigit(c) && ValueOf(front) > 0
    ensures AllDigits(front + [c]) && Digits(ValueOf(front + [c])) == Digits(ValueOf(front)) + [c]
    ensures ValueOf(front + [c]) > 0
  {
    var d := c as int - '0' as int;
    assert ValueOf(front + [c]) == 10 * ValueOf(front) + d by {
      assert (front + [c])[..|front|] == front;
    }
    hide ValueOf;
    LastDigit(ValueOf(front), d);
    assert DigitOf(d) == c;
  }

  lemma {:induction false} ReadDigits(t: string)
    requires t != [] && AllDigits(t) && (|t| > 1 ==> t[0] != '0')
    ensures Digits(ValueOf(t)) == t
    ensures t[0] != '0' ==> ValueOf(t) > 0
  {
    hide ValueOf, Digits;
    var front, last := t[..|t| - 1], t[|t| - 1];
    assert t == front + [last];
    if |t| == 1 {
      OneDigitRead(last);
    } else {
      ReadDigits(front);
      DigitAppended(front, last);
    }
  }

  /** A text is accepted as canonical exactly when it is the printed form of its value. */
  lemma CanonicalIsPrinted(t: string, n: u64)
    ensures CanonicalU64(t) == Some(n) <==> t == Digits(n)
  {
    DigitsRead(n);
    if CanonicalU64(t) == Some(n) {
      ReadDigits(t);
    }
  }

  /** A printed number is its digits, the most significant first: one more at the end is ten times as much. */
  lemma DigitsAre(n: nat, d: nat)
    requires d < 10
    ensures Digits(d) == ["0123456789"[d]]
    ensures n > 0 ==> Digits(10 * n + d) == Digits(n) + ["0123456789"[d]]
  {
    LastDigit(n, d);
  }
}
