/** Validators, the stake a set of them carries, and the rule that picks the active ones. */
module Stake {
  import opened Machine
  import opened Sorting

  datatype Root = Root(digest: Bytes, slots: u64)

  datatype RosterMember = RosterMember(id: u64, stake: u64, attestPk: Bytes, root: Root)

  // ---- the stake of a set ----

  ghost function StakeOf(s: set<RosterMember>): nat {
    if s == {} then 0
    else
      var m :| m in s;
      m.stake + StakeOf(s - {m})
  }

  lemma {:induction false} StakeWithout(s: set<RosterMember>, m: RosterMember)
    requires m in s
    ensures StakeOf(s) == m.stake + StakeOf(s - {m})
  {
    var p :| p in s && StakeOf(s) == p.stake + StakeOf(s - {p});
    if p != m {
      StakeWithout(s - {p}, m);
      StakeWithout(s - {m}, p);
      assert s - {p} - {m} == s - {m} - {p};
    }
  }

  lemma {:induction false} StakeOfUnion(a: set<RosterMember>, b: set<RosterMember>)
    requires a !! b
    ensures StakeOf(a + b) == StakeOf(a) + StakeOf(b)
  {
    if a == {} {
      assert a + b == b;
    } else {
      var m :| m in a;
      StakeWithout(a, m);
      StakeWithout(a + b, m);
      assert a + b - {m} == (a - {m}) + b;
      StakeOfUnion(a - {m}, b);
    }
  }

  lemma StakeMonotone(a: set<RosterMember>, b: set<RosterMember>)
    requires a <= b
    ensures StakeOf(a) <= StakeOf(b)
  {
    StakeOfUnion(a, b - a);
    assert a + (b - a) == b;
  }

  lemma {:induction false} StakeBound(s: set<RosterMember>)
    ensures StakeOf(s) <= |s| * U64_MAX
  {
    if s != {} {
      var m :| m in s;
      StakeWithout(s, m);
      StakeBound(s - {m});
    }
  }

  /** Two groups that each carry more than two thirds share more than one third. */
  lemma QuorumOverlap(all: set<RosterMember>, a: set<RosterMember>, b: set<RosterMember>)
    requires a <= all && b <= all
    requires 3 * StakeOf(a) > 2 * StakeOf(all)
    requires 3 * StakeOf(b) > 2 * StakeOf(all)
    ensures 3 * StakeOf(a * b) > StakeOf(all)
  {
    StakeOfUnion(a, b - a);
    StakeOfUnion(a * b, b - a);
    assert a * b + (b - a) == b;
    StakeMonotone(a + (b - a), all);
  }

  /** The fold `verify_finality` runs over the active members. */
  function SaturatingTotal(members: seq<RosterMember>): u128 {
    if members == [] then 0
    else SaturatingAdd128(SaturatingTotal(members[..|members| - 1]), members[|members| - 1].stake)
  }

  /** Over at most 4096 distinct members the saturating fold never saturates. */
  lemma {:induction false} TotalIsExact(members: seq<RosterMember>)
    requires NoDuplicates(members) && |members| <= 4096
    ensures SaturatingTotal(members) == StakeOf(SetOf(members))
  {
    if members != [] {
      var last := members[|members| - 1];
      var front := members[..|members| - 1];
      TotalIsExact(front);
      assert members == front + [last];
      assert SetOf(members) - {last} == SetOf(front);
      StakeWithout(SetOf(members), last);
      NoDuplicatesByCount(members);
      StakeBound(SetOf(members));
    }
  }

  // ---- the active set ----

  /** The order `active_set` sorts by: more stake first, lower id among equals. */
  predicate Before(a: RosterMember, b: RosterMember) {
    a.stake > b.stake || (a.stake == b.stake && a.id < b.id)
  }

  ghost predicate UniqueIds(s: set<RosterMember>) {
    forall a, b :: a in s && b in s && a.id == b.id ==> a == b
  }

  ghost function Eligible(s: set<RosterMember>, minStake: nat): set<RosterMember> {
    set m | m in s && m.stake >= minStake
  }

  ghost function Ahead(s: set<RosterMember>, m: RosterMember): set<RosterMember> {
    set b | b in s && Before(b, m)
  }

  /** The members above the floor with fewer than `maxActive` such members ranked ahead. */
  ghost function ActiveMembers(s: set<RosterMember>, minStake: nat, maxActive: nat): set<RosterMember> {
    var e := Eligible(s, minStake);
    set m | m in e && |Ahead(e, m)| < maxActive
  }

  function AboveFloor(roster: seq<RosterMember>, minStake: nat): (r: seq<RosterMember>) {
    if roster == [] then []
    else
      var front := AboveFloor(roster[..|roster| - 1], minStake);
      var last := roster[|roster| - 1];
      if last.stake >= minStake then front + [last] else front
  }

  lemma {:induction false} AboveFloorIs(roster: seq<RosterMember>, minStake: nat)
    ensures forall m :: m in AboveFloor(roster, minStake) <==> m in roster && m.stake >= minStake
    ensures |AboveFloor(roster, minStake)| <= |roster|
  {
    if roster != [] {
      var front, last := roster[..|roster| - 1], roster[|roster| - 1];
      AboveFloorIs(front, minStake);
      assert roster == front + [last];
    }
  }

  lemma {:induction false} AboveFloorDistinct(roster: seq<RosterMember>, minStake: nat)
    requires NoDuplicates(roster)
    ensures NoDuplicates(AboveFloor(roster, minStake))
  {
    if roster != [] {
      var front, last := roster[..|roster| - 1], roster[|roster| - 1];
      AboveFloorDistinct(front, minStake);
      AboveFloorIs(front, minStake);
      assert last !in front;
    }
  }

  lemma AboveFloorKeeps(roster: seq<RosterMember>, minStake: nat)
    ensures SetOf(AboveFloor(roster, minStake)) == Eligible(SetOf(roster), minStake)
    ensures NoDuplicates(roster) ==> NoDuplicates(AboveFloor(roster, minStake))
    ensures |AboveFloor(roster, minStake)| <= |roster|
  {
    AboveFloorIs(roster, minStake);
    if NoDuplicates(roster) {
      AboveFloorDistinct(roster, minStake);
    }
  }

  /** What the library's `sort_by` returns for the order `Before`. */
  function SortedByRank(s: seq<RosterMember>): (r: seq<RosterMember>)
    ensures multiset(r) == multiset(s)
  {
    Sorted(s, Before)
  }

  ghost predicate InRank(s: seq<RosterMember>) {
    forall i, j :: 0 <= i < j < |s| ==> !Before(s[j], s[i])
  }

  lemma SortedByRankInRank(s: seq<RosterMember>)
    ensures InRank(SortedByRank(s))
  {
    SortedRanked(s, Before);
  }

  /** In a ranked list of distinct members exactly `i` members are ahead of the one at `i`. */
  lemma AheadInRanked(s: seq<RosterMember>, i: nat)
    requires i < |s| && InRank(s) && NoDuplicates(s) && UniqueIds(SetOf(s))
    ensures |Ahead(SetOf(s), s[i])| == i
  {
    assert Ahead(SetOf(s), s[i]) == SetOf(s[..i]) by {
      forall b | b in s
        ensures Before(b, s[i]) <==> b in s[..i]
      {
        var k :| 0 <= k < |s| && s[k] == b;
        if k < i {
          assert s[..i][k] == b;
        } else {
          assert forall l :: 0 <= l < i ==> s[l] != b;
        }
      }
    }
    NoDuplicatesByCount(s[..i]);
  }

  /**
   * What being active means, over the members' own fields: enough stake, and more of it than every
   * eligible member left out, or as much and the smaller id; nobody is left out while there is room.
   */
  ghost predicate IsTop(active: set<RosterMember>, roster: seq<RosterMember>, minStake: nat, maxActive: nat) {
    && (forall a :: a in active ==> a in roster && a.stake >= minStake)
    && |active| <= maxActive
    && (|active| == maxActive || forall b :: b in roster && b.stake >= minStake ==> b in active)
    && forall a, b :: a in active && b in roster && b.stake >= minStake && b !in active ==>
         a.stake > b.stake || (a.stake == b.stake && a.id < b.id)
  }

  /** `active_set`: filter, and only when too many are left, sort and cut. */
  method ActiveSet(roster: seq<RosterMember>, minStake: nat, maxActive: nat) returns (active: seq<RosterMember>)
    requires NoDuplicates(roster) && UniqueIds(SetOf(roster))
    ensures SetOf(active) == ActiveMembers(SetOf(roster), minStake, maxActive)
    ensures IsTop(SetOf(active), roster, minStake, maxActive)
    ensures NoDuplicates(active) && |active| <= |roster|
  {
    ActiveIsTop(roster, minStake, maxActive);
    hide IsTop;
    active := AboveFloor(roster, minStake);
    AboveFloorKeeps(roster, minStake);
    ghost var e := Eligible(SetOf(roster), minStake);
    if |active| > maxActive {
      ghost var kept := active;
      active := SortedByRank(active);
      SortedByRankInRank(kept);
      SameElements(active, kept);
      ghost var ranked := active;
      active := active[..maxActive];
      RankedPrefixIsActive(ranked, maxActive);
    } else {
      FewAreAllActive(e, active, maxActive);
    }
  }

  lemma RankedPrefixIsActive(s: seq<RosterMember>, maxActive: nat)
    requires maxActive <= |s| && InRank(s) && NoDuplicates(s) && UniqueIds(SetOf(s))
    ensures SetOf(s[..maxActive]) == set m | m in SetOf(s) && |Ahead(SetOf(s), m)| < maxActive
  {
    forall m | m in s
      ensures m in s[..maxActive] <==> |Ahead(SetOf(s), m)| < maxActive
    {
      var k :| 0 <= k < |s| && s[k] == m;
      AheadInRanked(s, k);
      if k < maxActive {
        assert s[..maxActive][k] == m;
      }
    }
  }

  lemma FewAreAllActive(e: set<RosterMember>, s: seq<RosterMember>, maxActive: nat)
    requires SetOf(s) == e && NoDuplicates(s) && |s| <= maxActive
    ensures e == set m | m in e && |Ahead(e, m)| < maxActive
  {
    NoDuplicatesByCount(s);
    forall m | m in e
      ensures |Ahead(e, m)| < maxActive
    {
      assert Ahead(e, m) <= e - {m};
      CountMonotone(Ahead(e, m), e - {m});
    }
  }

  lemma {:induction false} CountMonotone<T>(a: set<T>, b: set<T>)
    requires a <= b
    ensures |a| <= |b|
  {
    assert b == a + (b - a);
  }

  /** The active members are the one group of that size no eligible member outside it outranks. */
  lemma ActiveIsTheTop(roster: seq<RosterMember>, minStake: nat, maxActive: nat)
    requires NoDuplicates(roster) && UniqueIds(SetOf(roster))
    ensures var e := Eligible(SetOf(roster), minStake);
            var active := ActiveMembers(SetOf(roster), minStake, maxActive);
            && |active| == (if |e| <= maxActive then |e| else maxActive)
            && (forall a, b :: a in active && b in e && Before(b, a) ==> b in active)
            && forall top: set<RosterMember> ::
                 top <= e && |top| == |active| && (forall a, b :: a in top && b in e && Before(b, a) ==> b in top)
                 ==> top == active
  {
    var e := Eligible(SetOf(roster), minStake);
    var active := ActiveMembers(SetOf(roster), minStake, maxActive);
    var kept := AboveFloor(roster, minStake);
    AboveFloorKeeps(roster, minStake);
    var ranked := SortedByRank(kept);
    SortedByRankInRank(kept);
    SameElements(ranked, kept);
    NoDuplicatesByCount(kept);
    if |kept| > maxActive {
      RankedPrefixIsActive(ranked, maxActive);
      NoDuplicatesByCount(ranked[..maxActive]);
    } else {
      FewAreAllActive(e, kept, maxActive);
    }
    forall a, b | a in active && b in e && Before(b, a)
      ensures b in active
    {
      CountMonotone(Ahead(e, b), Ahead(e, a));
    }
    forall top: set<RosterMember> | top <= e && |top| == |active|
                                    && forall a, b :: a in top && b in e && Before(b, a) ==> b in top
      ensures top == active
    {
      forall a | a in top
        ensures a in active
      {
        CountMonotone(Ahead(e, a), top - {a});
      }
      SubsetOfSameSize(top, active);
    }
  }

  lemma ActiveIsTop(roster: seq<RosterMember>, minStake: nat, maxActive: nat)
    requires NoDuplicates(roster) && UniqueIds(SetOf(roster))
    ensures IsTop(ActiveMembers(SetOf(roster), minStake, maxActive), roster, minStake, maxActive)
  {
    var e := Eligible(SetOf(roster), minStake);
    var active := ActiveMembers(SetOf(roster), minStake, maxActive);
    ActiveIsTheTop(roster, minStake, maxActive);
    assert active <= e;
    if |active| < maxActive {
      SubsetOfSameSize(active, e);
    }
    hide ActiveMembers;
    assert forall b :: b in roster && b.stake >= minStake <==> b in e;
  }

  /** The active members are the only ones there are with that meaning. */
  lemma TopIsActive(active: set<RosterMember>, roster: seq<RosterMember>, minStake: nat, maxActive: nat)
    requires NoDuplicates(roster) && UniqueIds(SetOf(roster))
    ensures IsTop(active, roster, minStake, maxActive) <==> active == ActiveMembers(SetOf(roster), minStake, maxActive)
  {
    ActiveIsTop(roster, minStake, maxActive);
    var e := Eligible(SetOf(roster), minStake);
    if IsTop(active, roster, minStake, maxActive) {
      assert active <= e;
      CountMonotone(active, e);
      if |active| < maxActive {
        assert active == e;
      }
      ActiveIsTheTop(roster, minStake, maxActive);
    }
  }

  /** A member's stake is counted once; with `StakeOfUnion` that says what a sum of stakes is. */
  lemma StakeOfOne(m: RosterMember)
    ensures StakeOf({m}) == m.stake && StakeOf({}) == 0
  {
    StakeWithout({m}, m);
    assert {m} - {m} == {};
  }

  lemma SubsetOfSameSize<T>(a: set<T>, b: set<T>)
    requires a <= b && |a| == |b|
    ensures a == b
  {
    assert b == a + (b - a);
  }
}
