/** Bits of whole numbers. */
module Bits {
  import opened Machine

  // ---- powers of two, shifts and masks ----

  function Pow2(k: nat): (r: nat)
    ensures r >= 1
  {
    if k == 0 then 1 else 2 * Pow2(k - 1)
  }

  lemma {:induction false} Pow2Adds(a: nat, b: nat)
    ensures Pow2(a + b) == Pow2(a) * Pow2(b)
  {
    if a > 0 {
      Pow2Adds(a - 1, b);
      assert Pow2(a + b) == 2 * (Pow2(a - 1) * Pow2(b));
    }
  }

  lemma {:induction false} Pow2Monotone(a: nat, b: nat)
    requires a <= b
    ensures Pow2(a) <= Pow2(b)
    ensures a < b ==> 2 * Pow2(a) <= Pow2(b)
  {
    if a < b {
      Pow2Monotone(a, b - 1);
    }
  }

  lemma Pow2Of8()
    ensures Pow2(8) == 256
  {
  }

  lemma Pow2Of11()
    ensures Pow2(11) == 2048
  {
    Pow2Of8();
  }

  lemma Pow2Of64()
    ensures Pow2(64) == U64_MAX + 1
  {
    hide Pow2;
    Pow2Of8();
    Pow2Adds(8, 8);
    Pow2Adds(16, 16);
    Pow2Adds(32, 32);
  }

  /** `count_ones` */
  function CountOnes(n: nat): nat {
    if n == 0 then 0 else n % 2 + CountOnes(n / 2)
  }

  /** Setting a bit above all others adds one. */
  lemma {:induction false} CountOnesAbove(a: nat, low: nat)
    requires low < Pow2(a)
    ensures CountOnes(Pow2(a) + low) == 1 + CountOnes(low)
  {
    if a > 0 {
      var half := Pow2(a - 1);
      assert (2 * half + low) / 2 == half + low / 2 && (2 * half + low) % 2 == low % 2;
      CountOnesAbove(a - 1, low / 2);
    } else {
      assert CountOnes(1) == 1 % 2 + CountOnes(0);
    }
  }

  /** Among `w` bits only all ones have `w` ones, and only zero has none. */
  lemma {:induction false} OnesWithin(x: nat, w: nat)
    requires x < Pow2(w)
    ensures CountOnes(x) <= w
    ensures CountOnes(x) == 0 ==> x == 0
    ensures CountOnes(x) == w ==> x == Pow2(w) - 1
  {
    if w > 0 {
      OnesWithin(x / 2, w - 1);
    }
  }

  lemma {:induction false} OnesInARow(k: nat)
    ensures CountOnes(Pow2(k) - 1) == k
  {
    if k > 0 {
      OnesInARow(k - 1);
      assert (Pow2(k) - 1) / 2 == Pow2(k - 1) - 1 && (Pow2(k) - 1) % 2 == 1;
    }
  }

  /** Any other number of ones among `w` bits can be had in more than one way. */
  lemma AnotherWithOnes(x: nat, w: nat) returns (y: nat)
    requires x < Pow2(w) && 0 < CountOnes(x) < w
    ensures y < Pow2(w) && CountOnes(y) == CountOnes(x) && y != x
  {
    var k := CountOnes(x);
    OnesInARow(k);
    var row := Pow2(k) - 1;
    assert row >= 1 by {
      Pow2Monotone(0, k);
    }
    assert CountOnes(2 * row) == CountOnes(row);
    Pow2Monotone(k, w);
    y := if x == row then 2 * row else row;
  }

  /** The exponent of the highest power of two not above `n`. */
  function TopBit(n: nat): (t: nat)
    requires n > 0
    ensures Pow2(t) <= n < 2 * Pow2(t)
  {
    if n == 1 then 0 else 1 + TopBit(n / 2)
  }

  /** `x << d`, in numbers of any size */
  function ShiftLeft(x: nat, d: nat): nat {
    MulNonNegative(x, Pow2(d));
    x * Pow2(d)
  }

  /** `x >> d` */
  function ShiftRight(x: nat, d: nat): (q: nat)
    ensures x == ShiftLeft(q, d) + LowBits(x, d)
  {
    DivisionParts(x, Pow2(d));
    x / Pow2(d)
  }

  /** `x & ((1 << d) - 1)` */
  function LowBits(x: nat, d: nat): (r: nat)
    ensures r < Pow2(d)
  {
    x % Pow2(d)
  }

  lemma DivisionParts(x: nat, d: nat)
    requires d > 0
    ensures 0 <= x / d && x == (x / d) * d + x % d
  {
  }

  lemma ShiftIs(x: nat, d: nat, q: nat, r: nat)
    requires r < Pow2(d) && x == ShiftLeft(q, d) + r
    ensures ShiftRight(x, d) == q && LowBits(x, d) == r
  {
    hide Pow2, ShiftRight, LowBits;
    var unit := Pow2(d);
    var q', r' := ShiftRight(x, d), LowBits(x, d);
    assert (q' - q) * unit == r - r';
    SmallMultiple(q' - q, unit);
  }

  lemma ShiftLeftSum(x: nat, y: nat, d: nat)
    ensures ShiftLeft(x + y, d) == ShiftLeft(x, d) + ShiftLeft(y, d)
  {
    hide Pow2;
  }

  lemma ShiftLeftOne(d: nat)
    ensures ShiftLeft(0, d) == 0 && ShiftLeft(1, d) == Pow2(d)
  {
    hide Pow2;
  }

  /** One place further is twice as much. */
  lemma ShiftLeftOneMore(x: nat, d: nat)
    ensures ShiftLeft(x, d + 1) == ShiftLeft(2 * x, d)
  {
    assert Pow2(d + 1) == 2 * Pow2(d);
    hide Pow2;
  }

  lemma ShiftLeftPow2(t: nat, d: nat)
    ensures ShiftLeft(Pow2(t), d) == Pow2(t + d)
  {
    Pow2Adds(t, d);
  }

  lemma ShiftLeftMonotone(x: nat, y: nat, d: nat)
    requires x <= y
    ensures ShiftLeft(x, d) <= ShiftLeft(y, d)
  {
    hide Pow2, ShiftLeft;
    ShiftLeftSum(x, y - x, d);
  }

  /** A number below `2^t` leaves room for one more in front of the place `2^(t + d)`. */
  lemma ShiftLeftBelow(x: nat, t: nat, d: nat)
    ensures x < Pow2(t) ==> ShiftLeft(x, d) + Pow2(d) <= Pow2(t + d)
    ensures x >= Pow2(t) ==> ShiftLeft(x, d) >= Pow2(t + d)
  {
    hide Pow2, ShiftLeft;
    ShiftLeftPow2(t, d);
    if x < Pow2(t) {
      ShiftLeftSum(x, 1, d);
      ShiftLeftOne(d);
      ShiftLeftMonotone(x + 1, Pow2(t), d);
    } else {
      ShiftLeftMonotone(Pow2(t), x, d);
    }
  }

  lemma ShiftOneMore(x: nat, d: nat)
    ensures ShiftRight(x, d + 1) == ShiftRight(x, d) / 2
  {
    assert Pow2(d + 1) == 2 * Pow2(d);
    hide Pow2, ShiftLeft, ShiftRight, LowBits;
    var q, r := ShiftRight(x, d), LowBits(x, d);
    ShiftLeftOneMore(q / 2, d);
    ShiftLeftOne(d);
    if q % 2 == 0 {
      ShiftIs(x, d + 1, q / 2, r);
    } else {
      ShiftLeftSum(2 * (q / 2), 1, d);
      ShiftIs(x, d + 1, q / 2, Pow2(d) + r);
    }
  }

  // ---- bitwise operators ----

  function Xor(a: nat, b: nat): nat {
    if a == 0 && b == 0 then 0 else 2 * Xor(a / 2, b / 2) + (a + b) % 2
  }

  function Or(a: nat, b: nat): nat {
    if a == 0 && b == 0 then 0 else 2 * Or(a / 2, b / 2) + Max(a % 2, b % 2)
  }

  function And(a: nat, b: nat): nat {
    if a == 0 || b == 0 then 0 else 2 * And(a / 2, b / 2) + a % 2 * (b % 2)
  }

  lemma {:induction false} XorTellsApart(a: nat, b: nat)
    ensures Xor(a, b) == 0 <==> a == b
  {
    if a > 0 || b > 0 {
      XorTellsApart(a / 2, b / 2);
    }
  }

  lemma {:induction false} XorFits(a: nat, b: nat, k: nat)
    requires a < Pow2(k) && b < Pow2(k)
    ensures Xor(a, b) < Pow2(k)
  {
    if k > 0 {
      XorFits(a / 2, b / 2, k - 1);
    }
  }

  lemma {:induction false} OrFits(a: nat, b: nat, k: nat)
    requires a < Pow2(k) && b < Pow2(k)
    ensures Or(a, b) < Pow2(k)
  {
    if k > 0 {
      OrFits(a / 2, b / 2, k - 1);
    }
  }

  lemma {:induction false} OrIsZero(a: nat, b: nat)
    ensures Or(a, b) == 0 <==> a == 0 && b == 0
  {
    if a > 0 || b > 0 {
      OrIsZero(a / 2, b / 2);
    }
  }

  lemma {:induction false} OrWithZero(a: nat)
    ensures Or(a, 0) == a && Or(0, a) == a
  {
    if a > 0 {
      OrWithZero(a / 2);
    }
  }

  /** Masking with as many ones as the number has bits keeps it. */
  lemma {:induction false} AndWithOnes(a: nat, k: nat)
    requires a < Pow2(k)
    ensures And(a, Pow2(k) - 1) == a
  {
    if k > 0 && a > 0 {
      var ones := Pow2(k) - 1;
      assert ones == 2 * (Pow2(k - 1) - 1) + 1;
      AndWithOnes(a / 2, k - 1);
    }
  }

  // ---- bit strings, most significant bit first ----

  type bit = x: int | 0 <= x < 2

  /** The lowest `k` bits of `n`. */
  function ToBits(n: nat, k: nat): (b: seq<bit>)
    ensures |b| == k
  {
    if k == 0 then [] else ToBits(n / 2, k - 1) + [n % 2]
  }

  function Number(b: seq<bit>): nat {
    if b == [] then 0 else 2 * Number(b[..|b| - 1]) + b[|b| - 1]
  }

  lemma {:induction false} NumberOfBits(n: nat, k: nat)
    requires n < Pow2(k)
    ensures Number(ToBits(n, k)) == n
  {
    if k > 0 {
      NumberOfBits(n / 2, k - 1);
    }
  }

  lemma {:induction false} BitsOfNumber(b: seq<bit>)
    ensures Number(b) < Pow2(|b|) && ToBits(Number(b), |b|) == b
  {
    if b != [] {
      BitsOfNumber(b[..|b| - 1]);
    }
  }

  // ---- numbers of one width, laid end to end ----

  function Spread(ns: seq<nat>, k: nat): (b: seq<bit>)
    ensures |b| == |ns| * k
  {
    if ns == [] then []
    else
      assert |ns| * k == (|ns| - 1) * k + k;
      Spread(ns[..|ns| - 1], k) + ToBits(ns[|ns| - 1], k)
  }

  /** The numbers of the groups of `k` bits. */
  function Gather(b: seq<bit>, k: nat): (ns: seq<nat>)
    requires k > 0
    decreases |b|
  {
    if |b| < k then [] else Gather(b[..|b| - k], k) + [Number(b[|b| - k..])]
  }

  lemma SpreadOneMore(ns: seq<nat>, n: nat, k: nat)
    ensures Spread(ns + [n], k) == Spread(ns, k) + ToBits(n, k)
  {
    assert (ns + [n])[..|ns|] == ns;
  }

  lemma GatherOneMore(b: seq<bit>, group: seq<bit>, k: nat)
    requires |group| == k > 0
    ensures Gather(b + group, k) == Gather(b, k) + [Number(group)]
  {
    var whole := b + group;
    assert whole[..|whole| - k] == b && whole[|whole| - k..] == group;
  }

  lemma {:induction false} GatherOfSpread(ns: seq<nat>, k: nat)
    requires k > 0 && forall i :: 0 <= i < |ns| ==> ns[i] < Pow2(k)
    ensures Gather(Spread(ns, k), k) == ns
  {
    hide Pow2, Number, ToBits;
    if ns != [] {
      var front, last := ns[..|ns| - 1], ns[|ns| - 1];
      GatherOfSpread(front, k);
      NumberOfBits(last, k);
      SpreadOneMore(front, last, k);
      GatherOneMore(Spread(front, k), ToBits(last, k), k);
      assert ns == front + [last];
    }
  }

  ghost predicate Grouped(b: seq<bit>, k: nat, n: nat) {
    |b| == n * k
  }

  lemma GroupedFront(b: seq<bit>, k: nat, n: nat)
    requires Grouped(b, k, n) && n > 0
    ensures |b| >= k && Grouped(b[..|b| - k], k, n - 1)
  {
    MulNonNegative(n - 1, k);
    assert n * k == (n - 1) * k + k;
  }

  lemma NoGroups(b: seq<bit>, k: nat)
    requires Grouped(b, k, 0)
    ensures b == []
  {
  }

  lemma {:induction false} SpreadOfGather(b: seq<bit>, k: nat, n: nat)
    requires k > 0 && Grouped(b, k, n)
    ensures Spread(Gather(b, k), k) == b && |Gather(b, k)| == n
    ensures forall i :: 0 <= i < n ==> Gather(b, k)[i] < Pow2(k)
    decreases n
  {
    hide Grouped, Pow2, Number, ToBits;
    if n == 0 {
      NoGroups(b, k);
    } else {
      GroupedFront(b, k, n);
      var front, last := b[..|b| - k], b[|b| - k..];
      SpreadOfGather(front, k, n - 1);
      BitsOfNumber(last);
      assert b == front + last;
      GatherOneMore(front, last, k);
      SpreadOneMore(Gather(front, k), Number(last), k);
    }
  }

  // ---- which bit goes where ----

  /** The bit at place `i` of `k` is worth `2^(k - 1 - i)`. */
  lemma {:induction false} ToBitsAt(n: nat, k: nat, i: nat)
    requires i < k
    ensures ToBits(n, k)[i] == ShiftRight(n, k - 1 - i) % 2
  {
    if i == k - 1 {
      ShiftLeftOne(0);
      assert ShiftRight(n, 0) == n;
    } else {
      ToBitsAt(n / 2, k - 1, i);
      HalfShift(n, k - 2 - i);
    }
  }

  lemma HalfShift(n: nat, d: nat)
    ensures ShiftRight(n / 2, d) == ShiftRight(n, d + 1)
  {
    assert Pow2(d + 1) == 2 * Pow2(d);
    hide Pow2, ShiftLeft, ShiftRight, LowBits;
    var q, r := ShiftRight(n, d + 1), LowBits(n, d + 1);
    ShiftLeftDoubles(q, d);
    assert n / 2 == ShiftLeft(q, d) + r / 2;
    ShiftIs(n / 2, d, q, r / 2);
  }

  lemma ShiftLeftDoubles(x: nat, d: nat)
    ensures ShiftLeft(x, d + 1) == 2 * ShiftLeft(x, d)
  {
    assert Pow2(d + 1) == 2 * Pow2(d);
    hide Pow2;
  }

  /** Numbers are laid out one after the other. */
  lemma {:induction false} SpreadAt(ns: seq<nat>, k: nat, j: nat)
    requires j < |ns|
    ensures j * k + k <= |Spread(ns, k)| && Spread(ns, k)[j * k..j * k + k] == ToBits(ns[j], k)
  {
    hide ToBits;
    var front, last := ns[..|ns| - 1], ns[|ns| - 1];
    assert ns == front + [last];
    SpreadOneMore(front, last, k);
    var b, c := Spread(front, k), ToBits(last, k);
    if j < |front| {
      SpreadAt(front, k, j);
      SliceOfFirst(b, c, j * k, j * k + k);
    } else {
      SliceOfSecond(b, c, 0, k);
    }
  }

  /** Groups are read one after the other. */
  lemma {:induction false} GatherAt(b: seq<bit>, k: nat, n: nat, j: nat)
    requires k > 0 && Grouped(b, k, n) && j < n
    ensures |Gather(b, k)| == n && j * k + k <= |b| && Gather(b, k)[j] == Number(b[j * k..j * k + k])
    decreases n
  {
    hide Number, ToBits;
    GroupedFront(b, k, n);
    SpreadOfGather(b, k, n);
    var front, last := b[..|b| - k], b[|b| - k..];
    GatherOneMore(front, last, k);
    assert b == front + last;
    SpreadOfGather(front, k, n - 1);
    if j < n - 1 {
      GatherAt(front, k, n - 1, j);
      assert front[j * k..j * k + k] == b[j * k..j * k + k];
    } else {
      LastGroup(b, k, n);
      assert b[j * k..j * k + k] == last;
    }
  }

  lemma LastGroup(b: seq<bit>, k: nat, n: nat)
    requires Grouped(b, k, n) && n > 0
    ensures (n - 1) * k == |b| - k
  {
    assert n * k == (n - 1) * k + k;
  }
}
