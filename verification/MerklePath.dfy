/** Which leaf positions a list of left and right steps can belong to, when the tree size is unknown. */
module MerklePath {
  import opened Machine
  import opened Bits

  // ---- two ways to build the tree ----

  /** The exponent of the largest power of two smaller than `n`. */
  function SplitDepth(n: nat): (a: nat)
    requires n >= 2
    ensures Pow2(a) < n <= 2 * Pow2(a)
  {
    if n == 2 then 0 else 1 + SplitDepth((n + 1) / 2)
  }

  lemma SplitDepthIs(n: nat, a: nat)
    requires n >= 2 && Pow2(a) < n <= 2 * Pow2(a)
    ensures SplitDepth(n) == a
  {
    var b := SplitDepth(n);
    if a < b {
      Pow2Monotone(a, b);
    } else if b < a {
      Pow2Monotone(b, a);
    }
  }

  /**
   * Where leaf `i` of `n` sits when the tree is cut at the largest power of two below its size
   * (section 2.1 of RFC 6962): the turns from the root, `true` for right.
   */
  function SplitPath(n: nat, i: nat): seq<bool>
    requires i < n
  {
    if n == 1 then []
    else
      var k := Pow2(SplitDepth(n));
      if i < k then [false] + SplitPath(k, i) else [true] + SplitPath(n - k, i - k)
  }

  lemma SplitLeft(n: nat, a: nat, i: nat)
    requires Pow2(a) < n <= 2 * Pow2(a) && i < Pow2(a)
    ensures SplitPath(n, i) == [false] + SplitPath(Pow2(a), i)
  {
    SplitDepthIs(n, a);
  }

  lemma SplitRight(n: nat, a: nat, i: nat)
    requires Pow2(a) < n <= 2 * Pow2(a) && Pow2(a) <= i < n
    ensures SplitPath(n, i) == [true] + SplitPath(n - Pow2(a), i - Pow2(a))
  {
    SplitDepthIs(n, a);
  }

  /**
   * Where it sits when nodes are paired level by level and an unpaired last node moves up as it is:
   * the steps from the leaf, `true` when the sibling is on the left.
   */
  function PairPath(n: nat, i: nat): seq<bool>
    requires i < n
  {
    if n == 1 then []
    else
      var up := PairPath((n + 1) / 2, i / 2);
      if n % 2 == 1 && i == n - 1 then up else [i % 2 == 1] + up
  }

  function Reversed(s: seq<bool>): (r: seq<bool>)
    ensures |r| == |s|
  {
    if s == [] then [] else Reversed(s[1..]) + [s[0]]
  }

  lemma {:induction false} ReversedAppend(s: seq<bool>, b: bool)
    ensures Reversed(s + [b]) == [b] + Reversed(s)
  {
    if s != [] {
      assert (s + [b])[1..] == s[1..] + [b];
      ReversedAppend(s[1..], b);
    }
  }

  lemma {:induction false} ReversedTwice(s: seq<bool>)
    ensures Reversed(Reversed(s)) == s
  {
    if s != [] {
      ReversedTwice(s[1..]);
      ReversedAppend(Reversed(s[1..]), s[0]);
    }
  }

  /** The step a node takes when its level is paired: none if it is the last one and left over. */
  function LastTurn(n: nat, i: nat): seq<bool> {
    if n % 2 == 1 && i == n - 1 then [] else [i % 2 == 1]
  }

  /** One level of pairing shortens the cut tree's path by its last turn, or not at all if promoted. */
  lemma {:induction false} SplitPathHalves(n: nat, i: nat)
    requires i < n && n >= 2
    ensures SplitPath(n, i) == SplitPath((n + 1) / 2, i / 2) + LastTurn(n, i)
    decreases n, 1
  {
    if n == 2 {
      assert SplitPath(2, i) == [i == 1];
    } else {
      var m := (n + 1) / 2;
      var a := SplitDepth(m);
      assert Pow2(a + 1) == 2 * Pow2(a);
      if i < 2 * Pow2(a) {
        SplitPathHalvesLeft(n, i, m, a);
      } else {
        SplitPathHalvesRight(n, i, m, a);
      }
    }
  }

  lemma HalvesStay(n: nat, i: nat, k: nat)
    requires i < 2 * k < n
    ensures (2 * k + 1) / 2 == k && i / 2 < k && LastTurn(2 * k, i) == LastTurn(n, i)
  {
  }

  lemma {:induction false} SplitPathHalvesLeft(n: nat, i: nat, m: nat, a: nat)
    requires n >= 3 && m == (n + 1) / 2 && i < 2 * Pow2(a) < n
    requires Pow2(a) < m <= 2 * Pow2(a) && Pow2(a + 1) == 2 * Pow2(a)
    ensures SplitPath(n, i) == SplitPath(m, i / 2) + LastTurn(n, i)
    decreases n, 0
  {
    hide *;
    var k := Pow2(a);
    HalvesStay(n, i, k);
    SplitPathHalves(2 * k, i);
    SplitLeft(n, a + 1, i);
    SplitLeft(m, a, i / 2);
    assert [false] + (SplitPath(k, i / 2) + LastTurn(n, i)) == [false] + SplitPath(k, i / 2) + LastTurn(n, i);
  }

  lemma HalfShifts(n: nat, k: nat)
    requires 2 * k <= n
    ensures (n - 2 * k) / 2 == n / 2 - k && (n - 2 * k) % 2 == n % 2
  {
    var q, r := n / 2, n % 2;
    assert n - 2 * k == 2 * (q - k) + r;
  }

  lemma HalvesShift(n: nat, i: nat, k: nat)
    requires 2 * k <= i < n
    ensures (n - 2 * k + 1) / 2 == (n + 1) / 2 - k && (i - 2 * k) / 2 == i / 2 - k
    ensures LastTurn(n - 2 * k, i - 2 * k) == LastTurn(n, i)
  {
    HalfShifts(n, k);
    HalfShifts(n + 1, k);
    HalfShifts(i, k);
  }

  lemma {:induction false} SplitPathHalvesRight(n: nat, i: nat, m: nat, a: nat)
    requires n >= 3 && m == (n + 1) / 2 && 2 * Pow2(a) <= i < n
    requires Pow2(a) < m <= 2 * Pow2(a) && Pow2(a + 1) == 2 * Pow2(a)
    ensures SplitPath(n, i) == SplitPath(m, i / 2) + LastTurn(n, i)
    decreases n, 0
  {
    hide *;
    var k := Pow2(a);
    var n', i' := n - 2 * k, i - 2 * k;
    HalvesShift(n, i, k);
    SplitRight(n, a + 1, i);
    SplitRight(m, a, i / 2);
    LastAlone(n', i');
    if n' >= 2 {
      SplitPathHalves(n', i');
    }
    assert [true] + (SplitPath(m - k, i / 2 - k) + LastTurn(n, i)) == [true] + SplitPath(m - k, i / 2 - k) + LastTurn(n, i);
  }

  lemma LastAlone(n: nat, i: nat)
    requires i < n
    ensures n == 1 ==> SplitPath(n, i) == SplitPath((n + 1) / 2, i / 2) + LastTurn(n, i)
  {
    assert SplitPath(1, 0) == [];
  }

  /** Pairing level by level and cutting at powers of two build the same paths. */
  lemma {:induction false} SameTree(n: nat, i: nat)
    requires i < n
    ensures PairPath(n, i) == Reversed(SplitPath(n, i))
  {
    if n >= 2 {
      SameTree((n + 1) / 2, i / 2);
      SplitPathHalves(n, i);
      var up := SplitPath((n + 1) / 2, i / 2);
      if n % 2 == 1 && i == n - 1 {
        assert up + [] == up;
      } else {
        ReversedAppend(up, i % 2 == 1);
      }
    }
  }

  // ---- the check ----

  /** `iter().position(|right| !right)` */
  function FirstLeft(turns: seq<bool>): (r: Option<nat>)
    ensures r.Some? ==> r.value < |turns| && !turns[r.value] && forall j :: 0 <= j < r.value ==> turns[j]
    ensures r.None? ==> forall j :: 0 <= j < |turns| ==> turns[j]
  {
    if turns == [] then None
    else if !turns[0] then Some(0)
    else match FirstLeft(turns[1..])
      case None => None
      case Some(k) => Some(k + 1)
  }

  /** The bits read most significant first: the fold of `(acc << 1) | bit`. */
  function BitsValue(bits: seq<bool>): (v: nat)
    ensures v < Pow2(|bits|)
  {
    if bits == [] then 0
    else 2 * BitsValue(bits[..|bits| - 1]) + (if bits[|bits| - 1] then 1 else 0)
  }

  /** `index_fits_path`, on the `left` flags of the steps. */
  predicate IndexFitsPath(index: u64, steps: seq<bool>) {
    var topDown := Reversed(steps);
    match FirstLeft(topDown)
    case None => CountOnes(index) == |steps|
    case Some(turn) =>
      var depth := |steps| - turn - 1;
      depth < 64 &&
      var low := BitsValue(topDown[turn + 1..]);
      var high := if depth + 1 < 64 then ShiftRight(index, depth + 1) else 0;
      && LowBits(index, depth) == low
      && ShiftRight(index, depth) % 2 == 0
      && CountOnes(high) == turn
  }

  /** The same condition over the turns from the root, for numbers of any size. */
  ghost predicate FitsTurns(index: nat, turns: seq<bool>) {
    match FirstLeft(turns)
    case None => CountOnes(index) == |turns|
    case Some(turn) =>
      exists high: nat :: LiesUnder(index, turns, turn, high)
  }

  ghost predicate LiesUnder(index: nat, turns: seq<bool>, turn: nat, high: nat)
    requires turn < |turns|
  {
    && index == ShiftLeft(high, |turns| - turn) + BitsValue(turns[turn + 1..])
    && CountOnes(high) == turn
  }

  // ---- from the tree to the condition ----

  lemma {:induction false} BitsPrepend(b: bool, bits: seq<bool>)
    ensures BitsValue([b] + bits) == (if b then Pow2(|bits|) else 0) + BitsValue(bits)
  {
    if bits == [] {
      assert [b] + bits == [b];
      assert BitsValue([b]) == 2 * BitsValue([]) + (if b then 1 else 0);
    } else {
      var front := bits[..|bits| - 1];
      assert ([b] + bits)[..|bits|] == [b] + front;
      BitsPrepend(b, front);
    }
  }

  /** In a full tree of `2^a` leaves the turns are the binary digits of the position. */
  lemma {:induction false} FullTree(a: nat, i: nat)
    requires i < Pow2(a)
    ensures |SplitPath(Pow2(a), i)| == a && BitsValue(SplitPath(Pow2(a), i)) == i
    decreases a, 1
  {
    if a > 0 {
      var k := Pow2(a - 1);
      assert Pow2(a) == 2 * k;
      FullTreeStep(a, i, k);
    }
  }

  lemma {:induction false} FullTreeStep(a: nat, i: nat, k: nat)
    requires a > 0 && i < Pow2(a) == 2 * k && k == Pow2(a - 1)
    ensures |SplitPath(Pow2(a), i)| == a && BitsValue(SplitPath(Pow2(a), i)) == i
    decreases a, 0
  {
    hide *;
    if i < k {
      SplitLeft(2 * k, a - 1, i);
      FullTree(a - 1, i);
      BitsPrepend(false, SplitPath(k, i));
    } else {
      SplitRight(2 * k, a - 1, i);
      FullTree(a - 1, i - k);
      BitsPrepend(true, SplitPath(k, i - k));
    }
  }

  lemma {:induction false} PathFits(n: nat, i: nat)
    requires i < n
    ensures FitsTurns(i, SplitPath(n, i))
    ensures FirstLeft(SplitPath(n, i)).Some? ==>
              Pow2(|SplitPath(n, i)| - FirstLeft(SplitPath(n, i)).value - 1) < n
    decreases n, 1
  {
    if n == 1 {
      assert SplitPath(1, i) == [];
    } else {
      PathFitsAt(n, i, SplitDepth(n));
    }
  }

  lemma {:induction false} PathFitsAt(n: nat, i: nat, a: nat)
    requires n > 1 && i < n && Pow2(a) < n <= 2 * Pow2(a)
    ensures FitsTurns(i, SplitPath(n, i))
    ensures FirstLeft(SplitPath(n, i)).Some? ==>
              Pow2(|SplitPath(n, i)| - FirstLeft(SplitPath(n, i)).value - 1) < n
    decreases n, 0
  {
    hide *;
    var k := Pow2(a);
    if i < k {
      SplitLeft(n, a, i);
      FullTree(a, i);
      LeftTurnFits(i, SplitPath(k, i));
    } else {
      SplitRight(n, a, i);
      PathFits(n - k, i - k);
      RightTurnFits(n, i, a, SplitPath(n - k, i - k));
    }
  }

  lemma LeftTurnFits(i: nat, rest: seq<bool>)
    requires BitsValue(rest) == i
    ensures FirstLeft([false] + rest) == Some(0) && FitsTurns(i, [false] + rest)
  {
    var turns := [false] + rest;
    assert turns[1..] == rest && FirstLeft(turns) == Some(0);
    hide BitsValue, Pow2;
    assert LiesUnder(i, turns, 0, 0) by {
      assert CountOnes(0) == 0;
    }
  }

  lemma RightTurnFits(n: nat, i: nat, a: nat, rest: seq<bool>)
    requires Pow2(a) <= i < n <= 2 * Pow2(a)
    requires FitsTurns(i - Pow2(a), rest)
    requires FirstLeft(rest).Some? ==> Pow2(|rest| - FirstLeft(rest).value - 1) < n - Pow2(a)
    ensures FitsTurns(i, [true] + rest)
    ensures FirstLeft([true] + rest) == if FirstLeft(rest).None? then None else Some(FirstLeft(rest).value + 1)
  {
    hide Pow2, BitsValue, CountOnes;
    var turns := [true] + rest;
    assert turns[1..] == rest;
    match FirstLeft(rest) {
      case None =>
        CountOnesAbove(a, i - Pow2(a));
      case Some(turn) =>
        var high: nat :| LiesUnder(i - Pow2(a), rest, turn, high);
        assert turns[turn + 2..] == rest[turn + 1..];
        var high' := RightTurnAbove(n, i, a, rest, turn, high);
        assert LiesUnder(i, turns, turn + 1, high');
    }
  }

  lemma RightTurnAbove(n: nat, i: nat, a: nat, rest: seq<bool>, turn: nat, high: nat)
    returns (high': nat)
    requires turn < |rest| && Pow2(a) <= i < n <= 2 * Pow2(a)
    requires LiesUnder(i - Pow2(a), rest, turn, high)
    requires Pow2(|rest| - turn - 1) < n - Pow2(a)
    ensures i == ShiftLeft(high', |rest| - turn) + BitsValue(rest[turn + 1..]) && CountOnes(high') == turn + 1
  {
    var d := |rest| - turn - 1;
    hide Pow2, ShiftLeft, BitsValue, CountOnes;
    if a <= d {
      Pow2Monotone(a, d);
    }
    var top := Pow2(a - d - 1);
    ShiftLeftBelow(high, a - d - 1, d + 1);
    CountOnesAbove(a - d - 1, high);
    ShiftLeftSum(top, high, d + 1);
    ShiftLeftPow2(a - d - 1, d + 1);
    high' := top + high;
  }

  // ---- from the condition to a tree ----

  lemma {:induction false} BitsDetermined(a: seq<bool>, b: seq<bool>)
    requires |a| == |b| && BitsValue(a) == BitsValue(b)
    ensures a == b
  {
    if a != [] {
      BitsDetermined(a[..|a| - 1], b[..|b| - 1]);
      assert a == a[..|a| - 1] + [a[|a| - 1]] && b == b[..|b| - 1] + [b[|b| - 1]];
    }
  }

  /** The last leaf of a tree is reached by right turns only, one for each bit of its index. */
  lemma {:induction false} LastLeaf(i: nat)
    ensures var path := SplitPath(i + 1, i);
            |path| == CountOnes(i) && forall j :: 0 <= j < |path| ==> path[j]
    decreases i, 1
  {
    if i > 0 {
      LastLeafAbove(i, TopBit(i));
    }
  }

  lemma {:induction false} LastLeafAbove(i: nat, t: nat)
    requires Pow2(t) <= i < 2 * Pow2(t)
    ensures var path := SplitPath(i + 1, i);
            |path| == CountOnes(i) && forall j :: 0 <= j < |path| ==> path[j]
    decreases i, 0
  {
    hide SplitPath, Pow2, CountOnes;
    var rest := i - Pow2(t);
    SplitRight(i + 1, t, i);
    LastLeaf(rest);
    CountOnesAbove(t, rest);
  }

  /** The smallest tree in which the position turns left into a full subtree of `2^d` leaves. */
  function TreeSize(high: nat, d: nat): nat {
    ShiftLeft(high, d + 1) + Pow2(d) + 1
  }

  lemma {:induction false} BuildTree(high: nat, d: nat, low: nat)
    requires low < Pow2(d)
    ensures var path := SplitPath(TreeSize(high, d), ShiftLeft(high, d + 1) + low);
            && |path| == CountOnes(high) + 1 + d
            && (forall j :: 0 <= j < CountOnes(high) ==> path[j])
            && !path[CountOnes(high)]
            && path[CountOnes(high) + 1..] == SplitPath(Pow2(d), low)
    decreases high, 1
  {
    if high == 0 {
      assert CountOnes(high) == 0;
      LowestTree(d, low);
    } else {
      assert Pow2(d + 1) == 2 * Pow2(d);
      BuildTreeAbove(high, d, low, TopBit(high));
    }
  }

  ghost predicate GrowsIn(high: nat, d: nat, i: nat, turns: seq<bool>) {
    ShiftLeft(high, d + 1) <= i < TreeSize(high, d) && SplitPath(TreeSize(high, d), i) == turns
  }

  lemma LowestTree(d: nat, low: nat)
    requires low < Pow2(d)
    ensures SplitPath(TreeSize(0, d), ShiftLeft(0, d + 1) + low) == [false] + SplitPath(Pow2(d), low)
    ensures |SplitPath(Pow2(d), low)| == d
  {
    hide SplitPath, Pow2, ShiftLeft;
    ShiftLeftOne(d + 1);
    SplitLeft(Pow2(d) + 1, d, low);
    FullTree(d, low);
  }

  /** Taking the top bit off the higher bits takes the left half off the tree. */
  lemma TreeHalves(high: nat, d: nat, low: nat, t: nat)
    requires low < Pow2(d) && Pow2(t) <= high < 2 * Pow2(t)
    ensures var n, i, half, h := TreeSize(high, d), ShiftLeft(high, d + 1) + low, Pow2(t + d + 1), high - Pow2(t);
            && half < n <= 2 * half && half <= i < n
            && n - half == TreeSize(h, d) && i - half == ShiftLeft(h, d + 1) + low
  {
    var h := high - Pow2(t);
    assert Pow2(d + 1) == 2 * Pow2(d);
    hide Pow2, ShiftLeft;
    ShiftLeftSum(Pow2(t), h, d + 1);
    ShiftLeftPow2(t, d + 1);
    ShiftLeftBelow(h, t, d + 1);
  }

  lemma {:induction false} BuildTreeAbove(high: nat, d: nat, low: nat, t: nat)
    requires low < Pow2(d) && Pow2(d + 1) == 2 * Pow2(d)
    requires high > 0 && Pow2(t) <= high < 2 * Pow2(t)
    ensures var path := SplitPath(TreeSize(high, d), ShiftLeft(high, d + 1) + low);
            && |path| == CountOnes(high) + 1 + d
            && (forall j :: 0 <= j < CountOnes(high) ==> path[j])
            && !path[CountOnes(high)]
            && path[CountOnes(high) + 1..] == SplitPath(Pow2(d), low)
    decreases high, 0
  {
    hide SplitPath, Pow2, CountOnes, TreeSize, ShiftLeft;
    var h := high - Pow2(t);
    TreeHalves(high, d, low, t);
    SplitRight(TreeSize(high, d), t + d + 1, ShiftLeft(high, d + 1) + low);
    BuildTree(h, d, low);
    CountOnesAbove(t, h);
    var rest := SplitPath(TreeSize(h, d), ShiftLeft(h, d + 1) + low);
    var path := SplitPath(TreeSize(high, d), ShiftLeft(high, d + 1) + low);
    assert path == [true] + rest;
    assert path[CountOnes(high) + 1..] == rest[CountOnes(h) + 1..];
  }

  lemma InTree(high: nat, d: nat, low: nat)
    requires low < Pow2(d)
    ensures ShiftLeft(high, d + 1) <= ShiftLeft(high, d + 1) + low < TreeSize(high, d)
  {
    hide Pow2;
  }

  /** A position that lies under some higher bits has these very turns in the tree those bits give. */
  lemma GrowTree(i: nat, turns: seq<bool>, turn: nat, d: nat, high: nat)
    requires FirstLeft(turns) == Some(turn) && d == |turns| - turn - 1
    requires LiesUnder(i, turns, turn, high)
    ensures GrowsIn(high, d, i, turns)
  {
    hide SplitPath, Pow2, BitsValue, CountOnes, TreeSize, FirstLeft, ShiftLeft;
    var low := BitsValue(turns[turn + 1..]);
    assert low < Pow2(d) && i == ShiftLeft(high, d + 1) + low;
    InTree(high, d, low);
    BuildTree(high, d, low);
    FullTree(d, low);
    SameTurns(SplitPath(TreeSize(high, d), i), turns, turn);
  }

  /** Turns are determined by where the first left one is and by the number the rest spell. */
  lemma SameTurns(path: seq<bool>, turns: seq<bool>, turn: nat)
    requires |path| == |turns| && FirstLeft(turns) == Some(turn)
    requires (forall j :: 0 <= j < turn ==> path[j]) && !path[turn]
    requires BitsValue(path[turn + 1..]) == BitsValue(turns[turn + 1..])
    ensures path == turns
  {
    hide BitsValue, FirstLeft;
    BitsDetermined(path[turn + 1..], turns[turn + 1..]);
    assert path[..turn] == turns[..turn];
    SamePieces(path, turns, turn);
  }

  lemma OnlyRightTurns(i: nat, turns: seq<bool>)
    requires FirstLeft(turns).None? && CountOnes(i) == |turns|
    ensures SplitPath(i + 1, i) == turns
  {
    LastLeaf(i);
  }

  lemma SamePieces(a: seq<bool>, b: seq<bool>, k: nat)
    requires |a| == |b| && k < |a| && a[..k] == b[..k] && a[k] == b[k] && a[k + 1..] == b[k + 1..]
    ensures a == b
  {
    assert a == a[..k] + [a[k]] + a[k + 1..];
    assert b == b[..k] + [b[k]] + b[k + 1..];
  }

  // ---- the check is exact ----

  lemma CheckIsFitsTurns(index: u64, steps: seq<bool>)
    ensures var turns := Reversed(steps);
            IndexFitsPath(index, steps) <==>
              FitsTurns(index, turns) && (FirstLeft(turns).Some? ==> |turns| - FirstLeft(turns).value - 1 < 64)
  {
    var turns := Reversed(steps);
    hide Reversed, BitsValue, Pow2, CountOnes, ShiftRight, LowBits;
    match FirstLeft(turns) {
      case None =>
      case Some(turn) =>
        var d := |turns| - turn - 1;
        if d < 64 {
          NothingAbove64(index, d);
          TurnMeansLiesUnder(index, turns, turn, d);
        }
    }
  }

  /** `checked_shr` past the width gives nothing, and nothing is what is left up there. */
  lemma NothingAbove64(x: u64, d: nat)
    ensures d == 63 ==> ShiftRight(x, d + 1) == 0
  {
    hide Pow2, ShiftLeft;
    Pow2Of64();
    if d == 63 {
      ShiftLeftOne(64);
      ShiftIs(x, 64, 0, x);
    }
  }

  lemma TurnMeansLiesUnder(index: nat, turns: seq<bool>, turn: nat, d: nat)
    requires turn < |turns| && d == |turns| - turn - 1
    ensures (exists high: nat :: LiesUnder(index, turns, turn, high)) <==>
              && LowBits(index, d) == BitsValue(turns[turn + 1..])
              && ShiftRight(index, d) % 2 == 0
              && CountOnes(ShiftRight(index, d + 1)) == turn
  {
    hide BitsValue, Pow2, CountOnes, ShiftLeft, ShiftRight, LowBits;
    if high: nat :| LiesUnder(index, turns, turn, high) {
      UnderGivesBits(index, turns, turn, d, high);
    }
    if LowBits(index, d) == BitsValue(turns[turn + 1..]) && ShiftRight(index, d) % 2 == 0
       && CountOnes(ShiftRight(index, d + 1)) == turn {
      BitsGiveUnder(index, turns, turn, d);
      var high: nat := ShiftRight(index, d + 1);
      assert LiesUnder(index, turns, turn, high);
    }
  }

  lemma UnderGivesBits(index: nat, turns: seq<bool>, turn: nat, d: nat, high: nat)
    requires turn < |turns| && d == |turns| - turn - 1 && LiesUnder(index, turns, turn, high)
    ensures LowBits(index, d) == BitsValue(turns[turn + 1..])
    ensures ShiftRight(index, d) == 2 * high && ShiftRight(index, d + 1) == high
  {
    hide BitsValue, Pow2, CountOnes, ShiftLeft, ShiftRight, LowBits;
    ShiftOneMore(index, d);
    ShiftLeftOneMore(high, d);
    ShiftIs(index, d, 2 * high, BitsValue(turns[turn + 1..]));
  }

  lemma BitsGiveUnder(index: nat, turns: seq<bool>, turn: nat, d: nat)
    requires turn < |turns| && d == |turns| - turn - 1
    requires LowBits(index, d) == BitsValue(turns[turn + 1..]) && ShiftRight(index, d) % 2 == 0
    requires CountOnes(ShiftRight(index, d + 1)) == turn
    ensures LiesUnder(index, turns, turn, ShiftRight(index, d + 1))
  {
    hide BitsValue, Pow2, CountOnes, ShiftLeft, ShiftRight, LowBits;
    ShiftOneMore(index, d);
    ShiftLeftOneMore(ShiftRight(index, d + 1), d);
  }

  /**
   * The check is exact: it accepts a 64-bit index with a path exactly when some tree of at most
   * `2^64` leaves, built by pairing with promotion, gives that leaf those very steps.
   */
  lemma ExactPositionCheck(index: u64, steps: seq<bool>)
    ensures IndexFitsPath(index, steps) <==>
            exists n: nat :: index < n <= U64_MAX + 1 && PairPath(n, index) == steps
  {
    hide Reversed, SplitPath, PairPath, BitsValue, Pow2, CountOnes, IndexFitsPath, FitsTurns;
    var turns := Reversed(steps);
    CheckIsFitsTurns(index, steps);
    ReversedTwice(steps);
    if IndexFitsPath(index, steps) {
      var n := TreeFor(index, turns);
      SameTree(n, index);
      assert PairPath(n, index) == steps;
    }
    if n: nat :| index < n <= U64_MAX + 1 && PairPath(n, index) == steps {
      SameTree(n, index);
      ReversedTwice(SplitPath(n, index));
      PathFits(n, index);
      if FirstLeft(turns).Some? {
        var d := |turns| - FirstLeft(turns).value - 1;
        Pow2Of64();
        if d >= 64 {
          Pow2Monotone(64, d);
        }
      }
    }
  }

  lemma TreeFor(index: u64, turns: seq<bool>) returns (n: nat)
    requires FitsTurns(index, turns) && (FirstLeft(turns).Some? ==> |turns| - FirstLeft(turns).value - 1 < 64)
    ensures index < n <= U64_MAX + 1 && SplitPath(n, index) == turns
  {
    hide SplitPath, Pow2, BitsValue, CountOnes;
    match FirstLeft(turns) {
      case None =>
        OnlyRightTurns(index, turns);
        n := index + 1;
      case Some(turn) =>
        var d := |turns| - turn - 1;
        var high: nat :| LiesUnder(index, turns, turn, high);
        GrowTree(index, turns, turn, d, high);
        TreeFits(index, high, d);
        n := TreeSize(high, d);
    }
  }

  lemma TreeFits(index: u64, high: nat, d: nat)
    requires d < 64 && ShiftLeft(high, d + 1) <= index
    ensures TreeSize(high, d) <= U64_MAX + 1
  {
    assert 2 * Pow2(d) == Pow2(d + 1);
    hide Pow2, ShiftLeft;
    Pow2Of64();
    ShiftLeftBelow(high, 63 - d, d + 1);
  }

  // ---- when the position is pinned down ----

  /** No steps at all, or a left turn at the root, or as many steps as an index has bits. */
  predicate PinsPosition(steps: seq<bool>) {
    steps == [] || !steps[|steps| - 1] || |steps| == 64
  }

  lemma FirstTurn(steps: seq<bool>)
    requires steps != []
    ensures Reversed(steps)[0] == steps[|steps| - 1]
  {
    hide Reversed;
    var front, last := steps[..|steps| - 1], steps[|steps| - 1];
    ReversedAppend(front, last);
    assert steps == front + [last];
  }

  lemma HighBits(index: u64, turns: seq<bool>, turn: nat, high: nat)
    requires turn < |turns| && |turns| - turn - 1 < 64 && LiesUnder(index, turns, turn, high)
    ensures high < Pow2(64 - |turns| + turn) && turn <= 64 - |turns| + turn
    ensures turn == 0 ==> high == 0
    ensures |turns| == 64 ==> high == Pow2(turn) - 1
  {
    hide Pow2, ShiftLeft, BitsValue, CountOnes;
    var w := 64 - |turns| + turn;
    Pow2Of64();
    ShiftLeftBelow(high, w, |turns| - turn);
    OnesWithin(high, w);
  }

  lemma SamePosition(index: u64, other: u64, steps: seq<bool>)
    requires IndexFitsPath(index, steps) && IndexFitsPath(other, steps) && PinsPosition(steps)
    ensures index == other
  {
    var turns := Reversed(steps);
    hide IndexFitsPath, Reversed, BitsValue, Pow2, CountOnes, ShiftLeft;
    CheckIsFitsTurns(index, steps);
    CheckIsFitsTurns(other, steps);
    if steps != [] {
      FirstTurn(steps);
    }
    match FirstLeft(turns) {
      case None =>
        Pow2Of64();
        OnesWithin(index, 64);
        OnesWithin(other, 64);
      case Some(turn) =>
        var high: nat :| LiesUnder(index, turns, turn, high);
        var high': nat :| LiesUnder(other, turns, turn, high');
        HighBits(index, turns, turn, high);
        HighBits(other, turns, turn, high');
    }
  }

  lemma MovedPosition(index: u64, turns: seq<bool>, turn: nat, high: nat) returns (other: u64)
    requires 0 < turn < |turns| < 64 && LiesUnder(index, turns, turn, high)
    ensures other != index && exists high': nat :: LiesUnder(other, turns, turn, high')
  {
    hide Pow2, ShiftLeft, BitsValue, CountOnes;
    var w, d, low := 64 - |turns| + turn, |turns| - turn, BitsValue(turns[turn + 1..]);
    HighBits(index, turns, turn, high);
    var high' := AnotherWithOnes(high, w);
    Pow2Of64();
    Pow2Monotone(d - 1, d);
    ShiftLeftBelow(high', w, d);
    other := ShiftLeft(high', d) + low;
    assert LiesUnder(other, turns, turn, high');
    ShiftIs(index, d, high, low);
    ShiftIs(other, d, high', low);
  }

  lemma OtherPosition(index: u64, steps: seq<bool>) returns (other: u64)
    requires IndexFitsPath(index, steps) && !PinsPosition(steps)
    ensures IndexFitsPath(other, steps) && other != index
  {
    var turns := Reversed(steps);
    hide IndexFitsPath, Reversed, BitsValue, Pow2, CountOnes, LiesUnder;
    CheckIsFitsTurns(index, steps);
    FirstTurn(steps);
    match FirstLeft(turns) {
      case None =>
        Pow2Of64();
        OnesWithin(index, 64);
        other := AnotherWithOnes(index, 64);
      case Some(turn) =>
        var high: nat :| LiesUnder(index, turns, turn, high);
        RoomAbove(index, turns, turn, high);
        other := MovedPosition(index, turns, turn, high);
    }
    CheckIsFitsTurns(other, steps);
  }

  lemma RoomAbove(index: u64, turns: seq<bool>, turn: nat, high: nat)
    requires turn < |turns| && |turns| - turn - 1 < 64 && LiesUnder(index, turns, turn, high)
    ensures |turns| <= 64
  {
    HighBits(index, turns, turn, high);
  }

  /**
   * The check pins the position down exactly when the path has no steps, turns left at the root, or is
   * 64 steps long; after a right turn at the root other positions of other trees fit it as well.
   */
  lemma PositionIsUnique(index: u64, steps: seq<bool>)
    requires IndexFitsPath(index, steps)
    ensures (forall other: u64 :: IndexFitsPath(other, steps) ==> other == index) <==> PinsPosition(steps)
  {
    if PinsPosition(steps) {
      forall other: u64 | IndexFitsPath(other, steps)
        ensures other == index
      {
        SamePosition(index, other, steps);
      }
    } else {
      var other := OtherPosition(index, steps);
    }
  }

  /** One right step: the last leaf of a tree of two, of three or of five. */
  lemma ManyPositionsFit()
    ensures IndexFitsPath(1, [true]) && IndexFitsPath(2, [true]) && IndexFitsPath(4, [true])
    ensures PairPath(2, 1) == PairPath(3, 2) == PairPath(5, 4) == [true]
  {
    assert Reversed([true]) == [true];
    assert CountOnes(1) == 1;
    assert CountOnes(2) == CountOnes(1);
    assert CountOnes(4) == CountOnes(2);
    assert PairPath(1, 0) == [];
    assert PairPath(2, 1) == [true];
    assert PairPath(3, 2) == PairPath(2, 1);
    assert PairPath(5, 4) == PairPath(3, 2);
  }
}
