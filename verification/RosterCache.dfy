/** The client's trusted rosters: an anchor, and a bounded cache of rosters walked from it. */
module RosterCache {
  import opened Machine
  import opened Ordered
  import opened Stake
  import opened Finality
  import opened LightClient

  const KEPT_ROSTERS: nat := 32

  /** A gateway's answer to `get_roster_proof`, once parsed; any field may be missing. */
  datatype RosterAnswer = RosterAnswer(epoch: Option<u64>, header: Option<Bytes>, certificate: Option<Bytes>,
                                       members: Option<seq<RosterMember>>, proof: Option<Bytes>)

  /** What one call of the gateway answers for each epoch; `None` is a failed or unreadable answer. */
  type Gateway = u64 -> Option<RosterAnswer>

  datatype Lookup = NoAnchor | Refused | Found(genesis: Bytes, members: seq<RosterMember>)

  datatype Pinned = Pinned(genesis: Bytes, commitment: Bytes)

  type Rosters = map<u64, seq<RosterMember>>

  // ---- ordered-map lookups ----

  /** `range(..=epoch).next_back()` */
  function FloorKey(rosters: Rosters, epoch: u64): (r: Option<u64>)
    ensures r.Some? ==> r.value in rosters && r.value <= epoch && forall j :: j in rosters && j <= epoch ==> j <= r.value
    ensures r.None? ==> forall j :: j in rosters ==> j > epoch
  {
    var below := SortedNumbers(set j | j in rosters.Keys && j <= epoch);
    assert forall j :: j in rosters && j <= epoch ==> j in SetOf(below);
    if below == [] then None
    else
      assert below[|below| - 1] in SetOf(below);
      Some(below[|below| - 1])
  }

  /** All but the least are at or above it. */
  ghost predicate IsSecond(s: set<u64>, first: u64, second: u64) {
    LeastIn(s, NumberLeq, first) && second in s && first < second && forall j :: j in s && j != first ==> second <= j
  }

  /** `keys().nth(1)` */
  function SecondKey(rosters: Rosters): (r: Option<u64>)
    ensures r.Some? ==> exists first: u64 :: IsSecond(rosters.Keys, first, r.value)
    ensures r.None? ==> |rosters| < 2
  {
    var keys := SortedNumbers(rosters.Keys);
    NoDuplicatesByCount(keys);
    if |keys| < 2 then None
    else
      SecondOfSorted(rosters.Keys, keys);
      Some(keys[1])
  }

  lemma SecondOfSorted(s: set<u64>, keys: seq<u64>)
    requires SetOf(keys) == s && NoDuplicates(keys) && Ascending(keys, NumberLeq) && |keys| >= 2
    ensures IsSecond(s, keys[0], keys[1])
  {
    assert keys[0] in SetOf(keys) && keys[1] in SetOf(keys);
    forall j | j in s
      ensures keys[0] <= j && (j != keys[0] ==> keys[1] <= j)
    {
      assert j in SetOf(keys);
      var i :| 0 <= i < |keys| && keys[i] == j;
      assert i > 0 ==> NumberLeq(keys[0], keys[i]);
      assert i > 1 ==> NumberLeq(keys[1], keys[i]);
    }
    assert NumberLeq(keys[0], keys[1]);
  }

  /** Only entries older than all that are left, but for the oldest, have gone. */
  ghost predicate CutSoFar(inserted: Rosters, oldest: u64, kept: Rosters) {
    && oldest in kept && kept.Keys <= inserted.Keys
    && (forall e :: e in kept ==> kept[e] == inserted[e])
    && forall d, k :: d in inserted && d !in kept && k in kept && k != oldest ==> d < k
  }

  /** `kept` is `inserted` cut to 32 entries: the oldest and the newest ones stay, unchanged. */
  ghost predicate IsCut(inserted: Rosters, oldest: u64, kept: Rosters) {
    && CutSoFar(inserted, oldest, kept)
    && |kept| == (if |inserted| <= 32 then |inserted| else 32)
  }

  lemma CutOneMore(inserted: Rosters, oldest: u64, kept: Rosters, first: u64, second: u64)
    requires CutSoFar(inserted, oldest, kept) && LeastIn(inserted.Keys, NumberLeq, oldest)
    requires IsSecond(kept.Keys, first, second)
    ensures CutSoFar(inserted, oldest, kept - {second}) && |kept - {second}| == |kept| - 1
  {
    OldestIsLeast(inserted, oldest, kept, first);
    hide LeastIn;
    var cut := kept - {second};
    assert cut.Keys == kept.Keys - {second};
  }

  lemma OldestIsLeast(inserted: Rosters, oldest: u64, kept: Rosters, first: u64)
    requires CutSoFar(inserted, oldest, kept) && LeastIn(inserted.Keys, NumberLeq, oldest)
    requires LeastIn(kept.Keys, NumberLeq, first)
    ensures first == oldest
  {
    assert NumberLeq(first, oldest) && NumberLeq(oldest, first);
  }

  /**
   * The eviction loop: drop second-oldest entries until at most 32 are left, so that the oldest and
   * the newest ones stay.
   */
  method Evict(inserted: Rosters, ghost oldest: u64) returns (kept: Rosters)
    requires LeastIn(inserted.Keys, NumberLeq, oldest)
    ensures IsCut(inserted, oldest, kept)
  {
    hide SecondKey, LeastIn, IsSecond;
    assert oldest in inserted by {
      InSet(inserted.Keys, oldest);
    }
    kept := inserted;
    while |kept| > KEPT_ROSTERS
      invariant CutSoFar(inserted, oldest, kept)
      invariant |inserted| <= KEPT_ROSTERS ==> kept == inserted
      invariant |inserted| > KEPT_ROSTERS ==> |kept| >= KEPT_ROSTERS
      decreases |kept|
    {
      var second := SecondKey(kept);
      if second.None? {
        break;
      }
      ghost var first: u64 :| IsSecond(kept.Keys, first, second.value);
      CutOneMore(inserted, oldest, kept, first, second.value);
      kept := kept - {second.value};
    }
  }

  lemma CutKeepsEntries(inserted: Rosters, oldest: u64, kept: Rosters)
    requires IsCut(inserted, oldest, kept)
    ensures oldest in kept && |kept| <= KEPT_ROSTERS
    ensures forall e :: e in kept ==> e in inserted && kept[e] == inserted[e]
  {
    assert kept.Keys <= inserted.Keys;
  }

  lemma AnchorIsLeast(s: set<u64>, anchor: u64)
    requires anchor in s && forall e :: e in s ==> anchor <= e
    ensures LeastIn(s, NumberLeq, anchor)
  {
  }

  lemma InSet(s: set<u64>, k: u64)
    requires LeastIn(s, NumberLeq, k)
    ensures k in s
  {
  }

  // ---- the plain walk the cache has to agree with ----

  function EvidenceOf(chainId: u64, next: u64, answer: RosterAnswer): Option<Evidence> {
    if answer.epoch == Some(next) && answer.members.Some? && answer.header.Some?
       && answer.certificate.Some? && answer.proof.Some?
    then Some(Evidence(chainId, answer.header.value, answer.certificate.value, answer.members.value, answer.proof.value))
    else None
  }

  /** Walk from `current` to `epoch` on this gateway's answers, remembering nothing. */
  ghost function PlainWalk(p: Primitives, genesis: Bytes, epochLength: u64, chainId: u64,
                           current: VerifiedRoster, epoch: u64, gateway: Gateway): Option<VerifiedRoster>
    decreases epoch - current.epoch
  {
    if current.epoch >= epoch then Some(current)
    else
      var next: u64 := current.epoch + 1;
      if gateway(next).None? || EvidenceOf(chainId, next, gateway(next).value).None? then None
      else
        match NextRoster(p, genesis, epochLength, current, EvidenceOf(chainId, next, gateway(next).value).value)
        case None => None
        case Some(roster) => PlainWalk(p, genesis, epochLength, chainId, roster, epoch, gateway)
  }

  /** The evidence this gateway hands over for the epochs after `current`, up to `epoch`. */
  function Asked(chainId: u64, current: u64, epoch: u64, gateway: Gateway): seq<Evidence>
    decreases epoch - current
  {
    if current >= epoch then []
    else
      var next: u64 := current + 1;
      (if gateway(next).None? || EvidenceOf(chainId, next, gateway(next).value).None? then []
       else [EvidenceOf(chainId, next, gateway(next).value).value])
      + Asked(chainId, next, epoch, gateway)
  }

  ghost predicate OnChain(evidence: seq<Evidence>, chainId: u64) {
    forall ev :: ev in evidence ==> ev.chainId == chainId
  }

  /** This very evidence, all checked for `chainId`, leads from the anchor to exactly this roster. */
  ghost predicate Leads(p: Primitives, genesis: Bytes, epochLength: u64, chainId: u64, anchor: VerifiedRoster,
                        trail: seq<Evidence>, roster: VerifiedRoster)
  {
    OnChain(trail, chainId) && Walk(p, genesis, epochLength, anchor, trail) == Some(roster)
  }

  lemma LeadsOneStep(p: Primitives, genesis: Bytes, epochLength: u64, chainId: u64, anchor: VerifiedRoster,
                     trail: seq<Evidence>, current: VerifiedRoster, ev: Evidence)
    requires Leads(p, genesis, epochLength, chainId, anchor, trail, current)
    requires ev.chainId == chainId && NextRoster(p, genesis, epochLength, current, ev).Some?
    ensures Leads(p, genesis, epochLength, chainId, anchor, trail + [ev],
                  NextRoster(p, genesis, epochLength, current, ev).value)
  {
    hide Links;
    var longer := trail + [ev];
    assert longer[..|longer| - 1] == trail;
  }

  lemma NothingLeadsToAnchor(p: Primitives, genesis: Bytes, epochLength: u64, chainId: u64, anchor: VerifiedRoster)
    ensures Leads(p, genesis, epochLength, chainId, anchor, [], anchor)
  {
  }

  /** The evidence of two trails of one length parts somewhere along them. */
  ghost predicate PartsSomewhere(p: Primitives, genesis: Bytes, epochLength: u64, anchor: VerifiedRoster,
                                 trail1: seq<Evidence>, trail2: seq<Evidence>)
  {
    exists i: nat :: FaultAt(p, genesis, epochLength, anchor, trail1, trail2, i)
  }

  /**
   * Two rosters that two clients with one anchor hold for one epoch are equal, or the very evidence
   * they were shown for them is at fault.
   */
  lemma ReachedRostersAgree(p: Primitives, genesis: Bytes, epochLength: u64, chainId: u64, anchor: VerifiedRoster,
                            trail1: seq<Evidence>, r1: VerifiedRoster, trail2: seq<Evidence>, r2: VerifiedRoster)
    requires Leads(p, genesis, epochLength, chainId, anchor, trail1, r1)
    requires Leads(p, genesis, epochLength, chainId, anchor, trail2, r2)
    requires r1.epoch == r2.epoch
    ensures r1 == r2 || PartsSomewhere(p, genesis, epochLength, anchor, trail1, trail2)
  {
    hide FaultAt;
    OneLengthOneChain(p, genesis, epochLength, chainId, anchor, trail1, r1, trail2, r2);
    AgreementOrFault(p, genesis, epochLength, anchor, trail1, trail2);
  }

  lemma OneLengthOneChain(p: Primitives, genesis: Bytes, epochLength: u64, chainId: u64, anchor: VerifiedRoster,
                          trail1: seq<Evidence>, r1: VerifiedRoster, trail2: seq<Evidence>, r2: VerifiedRoster)
    requires Leads(p, genesis, epochLength, chainId, anchor, trail1, r1)
    requires Leads(p, genesis, epochLength, chainId, anchor, trail2, r2)
    requires r1.epoch == r2.epoch
    ensures |trail1| == |trail2|
    ensures forall i :: 0 <= i < |trail1| ==> trail1[i].chainId == trail2[i].chainId == chainId
  {
    hide Walk;
    WalkCountsEpochs(p, genesis, epochLength, anchor, trail1);
    WalkCountsEpochs(p, genesis, epochLength, anchor, trail2);
    forall i | 0 <= i < |trail1|
      ensures trail1[i].chainId == trail2[i].chainId == chainId
    {
      assert trail1[i] in trail1 && trail2[i] in trail2;
    }
  }

  /** A plain walk that succeeds is the walk along the evidence it asked for, after what led to its start. */
  lemma {:induction false} PlainWalkIsWalk(p: Primitives, genesis: Bytes, epochLength: u64, chainId: u64,
                                           anchor: VerifiedRoster, trail: seq<Evidence>, current: VerifiedRoster,
                                           epoch: u64, gateway: Gateway)
    requires Leads(p, genesis, epochLength, chainId, anchor, trail, current) && current.epoch <= epoch
    requires PlainWalk(p, genesis, epochLength, chainId, current, epoch, gateway).Some?
    ensures var end := PlainWalk(p, genesis, epochLength, chainId, current, epoch, gateway).value;
            && end.epoch == epoch
            && Leads(p, genesis, epochLength, chainId, anchor, trail + Asked(chainId, current.epoch, epoch, gateway), end)
    decreases epoch - current.epoch
  {
    hide Links, Leads;
    var asked := Asked(chainId, current.epoch, epoch, gateway);
    if current.epoch == epoch {
      assert trail + asked == trail;
    } else {
      var ev := EvidenceOf(chainId, current.epoch + 1, gateway(current.epoch + 1).value).value;
      var next := NextRoster(p, genesis, epochLength, current, ev).value;
      LeadsOneStep(p, genesis, epochLength, chainId, anchor, trail, current, ev);
      PlainWalkIsWalk(p, genesis, epochLength, chainId, anchor, trail + [ev], next, epoch, gateway);
      assert trail + asked == trail + [ev] + Asked(chainId, next.epoch, epoch, gateway);
    }
  }

  /** A plain walk can be cut at any epoch it passes. */
  lemma {:induction false} PlainWalkPasses(p: Primitives, genesis: Bytes, epochLength: u64, chainId: u64,
                                           current: VerifiedRoster, middle: u64, epoch: u64, gateway: Gateway)
    requires current.epoch <= middle <= epoch
    requires PlainWalk(p, genesis, epochLength, chainId, current, epoch, gateway).Some?
    ensures var half := PlainWalk(p, genesis, epochLength, chainId, current, middle, gateway);
            && half.Some?
            && PlainWalk(p, genesis, epochLength, chainId, half.value, epoch, gateway)
               == PlainWalk(p, genesis, epochLength, chainId, current, epoch, gateway)
    decreases middle - current.epoch
  {
    hide Links;
    if current.epoch < middle {
      var ev := EvidenceOf(chainId, current.epoch + 1, gateway(current.epoch + 1).value).value;
      var next := NextRoster(p, genesis, epochLength, current, ev).value;
      PlainWalkPasses(p, genesis, epochLength, chainId, next, middle, epoch, gateway);
    }
  }

  /** The walk from the anchor passes the epoch of `start`, at the roster this gateway's evidence leads to. */
  lemma AnchorWalkPasses(p: Primitives, genesis: Bytes, epochLength: u64, chainId: u64, anchor: VerifiedRoster,
                         middle: u64, epoch: u64, gateway: Gateway) returns (half: VerifiedRoster)
    requires anchor.epoch <= middle <= epoch
    requires PlainWalk(p, genesis, epochLength, chainId, anchor, epoch, gateway).Some?
    ensures half.epoch == middle
    ensures Leads(p, genesis, epochLength, chainId, anchor, Asked(chainId, anchor.epoch, middle, gateway), half)
    ensures PlainWalk(p, genesis, epochLength, chainId, half, epoch, gateway)
            == PlainWalk(p, genesis, epochLength, chainId, anchor, epoch, gateway)
  {
    hide Links, Leads, PlainWalk;
    PlainWalkPasses(p, genesis, epochLength, chainId, anchor, middle, epoch, gateway);
    half := PlainWalk(p, genesis, epochLength, chainId, anchor, middle, gateway).value;
    NothingLeadsToAnchor(p, genesis, epochLength, chainId, anchor);
    PlainWalkIsWalk(p, genesis, epochLength, chainId, anchor, [], anchor, middle, gateway);
    assert [] + Asked(chainId, anchor.epoch, middle, gateway) == Asked(chainId, anchor.epoch, middle, gateway);
  }

  /**
   * Where the walk starts does not matter: from the roster some trail led to, it ends where the walk
   * from the anchor ends; or that trail and what this gateway answers for the same epochs are at fault.
   */
  lemma StartDoesNotMatter(p: Primitives, genesis: Bytes, epochLength: u64, chainId: u64, anchor: VerifiedRoster,
                           trail: seq<Evidence>, start: VerifiedRoster, epoch: u64, gateway: Gateway)
    requires Leads(p, genesis, epochLength, chainId, anchor, trail, start) && start.epoch <= epoch
    requires PlainWalk(p, genesis, epochLength, chainId, anchor, epoch, gateway).Some?
    ensures || PlainWalk(p, genesis, epochLength, chainId, start, epoch, gateway)
               == PlainWalk(p, genesis, epochLength, chainId, anchor, epoch, gateway)
            || PartsSomewhere(p, genesis, epochLength, anchor, trail, Asked(chainId, anchor.epoch, start.epoch, gateway))
  {
    hide Links, PartsSomewhere, PlainWalk;
    WalkCountsEpochs(p, genesis, epochLength, anchor, trail);
    hide Leads;
    var half := AnchorWalkPasses(p, genesis, epochLength, chainId, anchor, start.epoch, epoch, gateway);
    var asked := Asked(chainId, anchor.epoch, start.epoch, gateway);
    ReachedRostersAgree(p, genesis, epochLength, chainId, anchor, trail, start, asked, half);
  }

  /** Along the trail at most a third of every roster's stake attests to two blocks at one height. */
  ghost predicate FewEquivocateAlong(p: Primitives, genesis: Bytes, epochLength: u64, anchor: VerifiedRoster,
                                     trail: seq<Evidence>, made: (RosterMember, Block) -> bool)
  {
    forall i: nat :: i < |trail| && Walk(p, genesis, epochLength, anchor, trail[..i]).Some? ==>
      FewEquivocate(p, Walk(p, genesis, epochLength, anchor, trail[..i]).value.members, made)
  }

  /** Under the usual assumptions it does not matter at all. */
  lemma SoundStartDoesNotMatter(p: Primitives, genesis: Bytes, epochLength: u64, chainId: u64, anchor: VerifiedRoster,
                                trail: seq<Evidence>, start: VerifiedRoster, epoch: u64, gateway: Gateway,
                                made: (RosterMember, Block) -> bool)
    requires Binds(p) && Unforgeable(p, Binding(chainId, genesis), made)
    requires FewEquivocateAlong(p, genesis, epochLength, anchor, trail, made)
    requires Leads(p, genesis, epochLength, chainId, anchor, trail, start) && start.epoch <= epoch
    requires PlainWalk(p, genesis, epochLength, chainId, anchor, epoch, gateway).Some?
    ensures PlainWalk(p, genesis, epochLength, chainId, start, epoch, gateway)
            == PlainWalk(p, genesis, epochLength, chainId, anchor, epoch, gateway)
  {
    hide Links, PlainWalk, Binds, Unforgeable, FewEquivocate;
    WalkCountsEpochs(p, genesis, epochLength, anchor, trail);
    var half := AnchorWalkPasses(p, genesis, epochLength, chainId, anchor, start.epoch, epoch, gateway);
    var asked := Asked(chainId, anchor.epoch, start.epoch, gateway);
    OneLengthOneChain(p, genesis, epochLength, chainId, anchor, trail, start, asked, half);
    Agreement(p, genesis, epochLength, chainId, anchor, trail, asked, made);
  }

  // ---- the plain walk is exact, over the answers' own fields ----

  /** The gateway answered for the next epoch, with every field, and the fields prove these members. */
  ghost predicate AnswerProves(p: Primitives, genesis: Bytes, epochLength: u64, chainId: u64, epoch: u64,
                               members: seq<RosterMember>, answer: Option<RosterAnswer>, next: seq<RosterMember>)
  {
    && epoch < U64_MAX && answer.Some?
    && (var a := answer.value;
        && a.epoch == Some(epoch + 1) && a.members == Some(next)
        && a.header.Some? && a.certificate.Some? && a.proof.Some?
        && ProvesNext(p, chainId, genesis, epochLength, VerifiedRoster(epoch, members),
                      a.header.value, a.certificate.value, next, a.proof.value))
  }

  /** One list of members for every epoch from `start` on, each proved by the answer for it. */
  ghost predicate IsChain(p: Primitives, genesis: Bytes, epochLength: u64, chainId: u64, start: VerifiedRoster,
                          gateway: Gateway, chain: seq<seq<RosterMember>>)
    decreases |chain|
  {
    && chain != [] && chain[0] == start.members
    && (|chain| > 1 ==>
          && AnswerProves(p, genesis, epochLength, chainId, start.epoch, start.members,
                          if start.epoch < U64_MAX then gateway(start.epoch + 1) else None, chain[1])
          && IsChain(p, genesis, epochLength, chainId, VerifiedRoster(start.epoch + 1, chain[1]), gateway, chain[1..]))
  }

  /** The answers prove these members for `epoch`, epoch by epoch. */
  ghost predicate AnswersProve(p: Primitives, genesis: Bytes, epochLength: u64, chainId: u64, start: VerifiedRoster,
                               epoch: u64, gateway: Gateway, members: seq<RosterMember>)
  {
    exists chain ::
      && IsChain(p, genesis, epochLength, chainId, start, gateway, chain)
      && start.epoch + |chain| - 1 == epoch && chain[|chain| - 1] == members
  }

  /** The step the walk takes on one answer. */
  lemma StepIsExact(p: Primitives, genesis: Bytes, epochLength: u64, chainId: u64, current: VerifiedRoster,
                    answer: Option<RosterAnswer>, next: VerifiedRoster)
    requires current.epoch < U64_MAX
    ensures && answer.Some? && EvidenceOf(chainId, current.epoch + 1, answer.value).Some?
            && NextRoster(p, genesis, epochLength, current, EvidenceOf(chainId, current.epoch + 1, answer.value).value)
               == Some(next)
            <==> next.epoch == current.epoch + 1
                 && AnswerProves(p, genesis, epochLength, chainId, current.epoch, current.members, answer, next.members)
  {
    hide NextRoster, ProvesNext;
    if answer.Some? && EvidenceOf(chainId, current.epoch + 1, answer.value).Some? {
      NextIsExact(p, genesis, epochLength, current, EvidenceOf(chainId, current.epoch + 1, answer.value).value, next);
    }
  }

  lemma {:induction false} WalkIsProved(p: Primitives, genesis: Bytes, epochLength: u64, chainId: u64,
                                        current: VerifiedRoster, epoch: u64, gateway: Gateway)
    requires current.epoch <= epoch && PlainWalk(p, genesis, epochLength, chainId, current, epoch, gateway).Some?
    ensures var end := PlainWalk(p, genesis, epochLength, chainId, current, epoch, gateway).value;
            end.epoch == epoch && AnswersProve(p, genesis, epochLength, chainId, current, epoch, gateway, end.members)
    decreases epoch - current.epoch
  {
    hide AnswerProves, NextRoster, EvidenceOf;
    if current.epoch == epoch {
      assert IsChain(p, genesis, epochLength, chainId, current, gateway, [current.members]);
    } else {
      var ev := EvidenceOf(chainId, current.epoch + 1, gateway(current.epoch + 1).value).value;
      var next := NextRoster(p, genesis, epochLength, current, ev).value;
      StepIsExact(p, genesis, epochLength, chainId, current, gateway(current.epoch + 1), next);
      WalkIsProved(p, genesis, epochLength, chainId, next, epoch, gateway);
      var end := PlainWalk(p, genesis, epochLength, chainId, current, epoch, gateway).value;
      var rest :| && IsChain(p, genesis, epochLength, chainId, next, gateway, rest)
                  && next.epoch + |rest| - 1 == epoch && rest[|rest| - 1] == end.members;
      var chain := [current.members] + rest;
      assert chain[1..] == rest;
      assert current.epoch + |chain| - 1 == epoch && chain[|chain| - 1] == end.members;
    }
  }

  lemma {:induction false} ProvedIsWalked(p: Primitives, genesis: Bytes, epochLength: u64, chainId: u64,
                                          current: VerifiedRoster, epoch: u64, gateway: Gateway,
                                          chain: seq<seq<RosterMember>>)
    requires IsChain(p, genesis, epochLength, chainId, current, gateway, chain) && current.epoch + |chain| - 1 == epoch
    ensures PlainWalk(p, genesis, epochLength, chainId, current, epoch, gateway)
            == Some(VerifiedRoster(epoch, chain[|chain| - 1]))
    decreases |chain|
  {
    hide AnswerProves, NextRoster, EvidenceOf;
    if |chain| > 1 {
      var next := VerifiedRoster(current.epoch + 1, chain[1]);
      StepIsExact(p, genesis, epochLength, chainId, current, gateway(current.epoch + 1), next);
      ProvedIsWalked(p, genesis, epochLength, chainId, next, epoch, gateway, chain[1..]);
    }
  }

  /** The walk is exact: it ends with these members if and only if the gateway's answers prove them. */
  lemma PlainWalkIsExact(p: Primitives, genesis: Bytes, epochLength: u64, chainId: u64, start: VerifiedRoster, epoch: u64,
                         gateway: Gateway, members: seq<RosterMember>)
    requires start.epoch <= epoch
    ensures PlainWalk(p, genesis, epochLength, chainId, start, epoch, gateway) == Some(VerifiedRoster(epoch, members)) <==>
              AnswersProve(p, genesis, epochLength, chainId, start, epoch, gateway, members)
  {
    hide IsChain, PlainWalk;
    if PlainWalk(p, genesis, epochLength, chainId, start, epoch, gateway) == Some(VerifiedRoster(epoch, members)) {
      WalkIsProved(p, genesis, epochLength, chainId, start, epoch, gateway);
    }
    if chain :| && IsChain(p, genesis, epochLength, chainId, start, gateway, chain)
                && start.epoch + |chain| - 1 == epoch && chain[|chain| - 1] == members {
      ProvedIsWalked(p, genesis, epochLength, chainId, start, epoch, gateway, chain);
    }
  }

  lemma AnyWalkIsExact(p: Primitives, genesis: Bytes, epochLength: u64, chainId: u64, start: VerifiedRoster, epoch: u64,
                       gateway: Gateway)
    requires start.epoch <= epoch
    ensures forall members ::
              PlainWalk(p, genesis, epochLength, chainId, start, epoch, gateway) == Some(VerifiedRoster(epoch, members)) <==>
                AnswersProve(p, genesis, epochLength, chainId, start, epoch, gateway, members)
  {
    hide PlainWalk, AnswersProve;
    forall members
      ensures PlainWalk(p, genesis, epochLength, chainId, start, epoch, gateway) == Some(VerifiedRoster(epoch, members)) <==>
                AnswersProve(p, genesis, epochLength, chainId, start, epoch, gateway, members)
    {
      PlainWalkIsExact(p, genesis, epochLength, chainId, start, epoch, gateway, members);
    }
  }

  lemma NoEvidence(chainId: u64, next: u64, answer: Option<RosterAnswer>)
    ensures answer.Some? && answer.value.epoch != Some(next) ==> EvidenceOf(chainId, next, answer.value).None?
  {
  }

  /** An answer for another epoch, or none, ends every walk that needs it. */
  lemma {:induction false} AnotherEpochIsRefused(p: Primitives, genesis: Bytes, epochLength: u64, chainId: u64,
                                                 start: VerifiedRoster, epoch: u64, gateway: Gateway, k: u64)
    requires start.epoch < k <= epoch && (gateway(k).Some? ==> gateway(k).value.epoch != Some(k))
    ensures PlainWalk(p, genesis, epochLength, chainId, start, epoch, gateway) == None
    decreases epoch - start.epoch
  {
    hide NextRoster, EvidenceOf, AnswerProves;
    var next: u64 := start.epoch + 1;
    NoEvidence(chainId, next, gateway(next));
    if next < k && gateway(next).Some? && EvidenceOf(chainId, next, gateway(next).value).Some? {
      var step := NextRoster(p, genesis, epochLength, start, EvidenceOf(chainId, next, gateway(next).value).value);
      if step.Some? {
        StepIsExact(p, genesis, epochLength, chainId, start, gateway(next), step.value);
        AnotherEpochIsRefused(p, genesis, epochLength, chainId, step.value, epoch, gateway, k);
      }
    }
  }

  // ---- the cache ----

  /** The part of `Client` that keeps trusted rosters, for one chain and one network. */
  class TrustedRosters {
    const p: Primitives
    const chainId: u64
    const epochLength: Option<u64>
    const pinned: Option<Pinned>
    var genesis: Bytes
    var rosters: Option<Rosters>
    /** The roster the owner, or the pinned commitment, put its trust in. */
    ghost var anchor: VerifiedRoster
    /** For every cached epoch, the evidence that was verified to get there. */
    ghost var trails: map<u64, seq<Evidence>>

    ghost predicate Valid()
      reads this
    {
      rosters.Some? ==>
        && anchor.epoch in rosters.value
        && rosters.value[anchor.epoch] == anchor.members
        && |rosters.value| <= KEPT_ROSTERS
        && trails.Keys == rosters.value.Keys
        && forall e :: e in rosters.value ==> anchor.epoch <= e && Holds(trails[e], e, rosters.value[e])
    }

    ghost function Length(): u64 {
      if epochLength.Some? then epochLength.value else 0
    }

    /** This evidence leads from the anchor to this roster; nothing else may enter the cache. */
    ghost predicate Holds(trail: seq<Evidence>, epoch: u64, members: seq<RosterMember>)
      reads this`anchor, this`genesis
    {
      Leads(p, genesis, Length(), chainId, anchor, trail, VerifiedRoster(epoch, members))
    }

    /** The trail that led to a cached roster and this gateway's answers for the same epochs are at fault. */
    ghost predicate AtFault(trail: seq<Evidence>, epoch: u64, gateway: Gateway)
      reads this`anchor, this`genesis
    {
      PartsSomewhere(p, genesis, Length(), anchor, trail, Asked(chainId, anchor.epoch, epoch, gateway))
    }

    /** What a client that remembers only this roster would answer. */
    ghost function PlainAnswer(start: VerifiedRoster, epoch: u64, gateway: Gateway): Lookup
      reads this`anchor, this`genesis
    {
      if epochLength.None? || epochLength.value == 0 then Refused
      else
        match PlainWalk(p, genesis, epochLength.value, chainId, start, epoch, gateway)
        case None => Refused
        case Some(end) => Found(genesis, end.members)
    }

    /** The gateway's answers, read field by field, prove these members from this roster on. */
    ghost predicate Proved(start: VerifiedRoster, epoch: u64, gateway: Gateway, members: seq<RosterMember>)
      reads this`anchor, this`genesis
    {
      Length() > 0 && AnswersProve(p, genesis, Length(), chainId, start, epoch, gateway, members)
    }

    /** Members are found if and only if they are proved. */
    ghost predicate FoundIsProved(r: Lookup, start: VerifiedRoster, epoch: u64, gateway: Gateway)
      reads this`anchor, this`genesis
    {
      forall members :: r == Found(genesis, members) <==> Proved(start, epoch, gateway, members)
    }

    lemma PlainAnswerIsExact(start: VerifiedRoster, epoch: u64, gateway: Gateway)
      requires start.epoch <= epoch
      ensures FoundIsProved(PlainAnswer(start, epoch, gateway), start, epoch, gateway)
    {
      hide PlainWalk, AnswersProve;
      if Length() > 0 {
        if PlainWalk(p, genesis, Length(), chainId, start, epoch, gateway).Some? {
          WalkIsProved(p, genesis, Length(), chainId, start, epoch, gateway);
        }
        forall members
          ensures PlainAnswer(start, epoch, gateway) == Found(genesis, members) <==> Proved(start, epoch, gateway, members)
        {
          PlainWalkIsExact(p, genesis, Length(), chainId, start, epoch, gateway, members);
        }
      }
    }

    constructor (p: Primitives, chainId: u64, epochLength: Option<u64>, pinned: Option<Pinned>)
      ensures Valid() && rosters == None
      ensures this.p == p && this.chainId == chainId && this.epochLength == epochLength && this.pinned == pinned
    {
      this.p := p;
      this.chainId := chainId;
      this.epochLength := epochLength;
      this.pinned := pinned;
      genesis := [];
      rosters := None;
      anchor := VerifiedRoster(0, []);
      trails := map[];
    }

    /** `trust_roster_at`: an empty roster is refused, any other becomes the only anchor. */
    method TrustRosterAt(genesisHash: Bytes, epoch: u64, roster: seq<RosterMember>) returns (ok: bool)
      requires Valid()
      modifies this
      ensures Valid()
      ensures ok <==> roster != []
      ensures ok ==> genesis == genesisHash && anchor == VerifiedRoster(epoch, roster)
      ensures ok ==> rosters == Some(map[epoch := roster]) && trails == map[epoch := []]
      ensures !ok ==> unchanged(this)
    {
      if |roster| == 0 {
        return false;
      }
      genesis := genesisHash;
      anchor := VerifiedRoster(epoch, roster);
      rosters := Some(map[epoch := roster]);
      trails := map[epoch := []];
      NothingLeadsToAnchor(p, genesis, Length(), chainId, anchor);
      return true;
    }

    /** `anchor_pinned_roster`: with nothing trusted yet, only the pinned genesis roster may be. */
    method AnchorPinnedRoster(gateway: Gateway) returns (r: Option<bool>)
      requires Valid()
      modifies this
      ensures Valid()
      ensures r == Some(true) ==> rosters.Some?
      ensures r != Some(true) ==> unchanged(this) && rosters.None?
      ensures r == Some(false) <==> old(rosters).None? && pinned.None?
      ensures old(rosters).Some? ==> r == Some(true) && unchanged(this)
      ensures old(rosters).None? && pinned.Some? ==>
                (r == Some(true) <==>
                  && gateway(0).Some? && gateway(0).value.members.Some? && gateway(0).value.members.value != []
                  && p.rosterCommitment(0, gateway(0).value.members.value) == pinned.value.commitment)
      ensures old(rosters).None? && rosters.Some? ==>
                && anchor == VerifiedRoster(0, gateway(0).value.members.value)
                && genesis == pinned.value.genesis && anchor.epoch == 0
                && p.rosterCommitment(0, anchor.members) == pinned.value.commitment
                && rosters.value == map[0 := anchor.members] && trails == map[0 := []]
    {
      if rosters.Some? {
        return Some(true);
      }
      if pinned.None? {
        return Some(false);
      }
      var answer := gateway(0);
      if answer.None? || answer.value.members.None? {
        return None;
      }
      var members := answer.value.members.value;
      if p.rosterCommitment(0, members) != pinned.value.commitment {
        return None;
      }
      var ok := TrustRosterAt(pinned.value.genesis, 0, members);
      return if ok then Some(true) else None;
    }

    /**
     * `roster_for_epoch`: the answer is the plain walk's from the nearest cached roster, and that is
     * the plain walk's from the anchor itself, however the cache filled and was cut before, or else the
     * evidence kept for that cached roster and this gateway's answers are at fault. A client that finds
     * its anchor in this call answers as the walk from it does. A walk that stops half way keeps what it
     * had verified.
     */
    method RosterForEpoch(epoch: u64, gateway: Gateway) returns (r: Lookup)
      requires Valid()
      modifies this
      ensures Valid()
      ensures old(rosters).Some? ==> rosters.Some? && anchor == old(anchor) && genesis == old(genesis)
      ensures r.NoAnchor? <==> old(rosters).None? && pinned.None?
      ensures r.Found? ==> r.genesis == genesis && rosters.Some?
      ensures old(rosters).Some? && FloorKey(old(rosters).value, epoch).None? ==> r.Refused?
      ensures old(rosters).Some? && FloorKey(old(rosters).value, epoch).Some? ==>
                var start := FloorKey(old(rosters).value, epoch).value;
                && r == PlainAnswer(VerifiedRoster(start, old(rosters).value[start]), epoch, gateway)
                && FoundIsProved(r, VerifiedRoster(start, old(rosters).value[start]), epoch, gateway)
                && (r.Found? ==> Holds(old(trails)[start] + Asked(chainId, start, epoch, gateway), epoch, r.members))
                && (PlainAnswer(anchor, epoch, gateway).Found? ==>
                      r == PlainAnswer(anchor, epoch, gateway) || AtFault(old(trails)[start], start, gateway))
      ensures old(rosters).None? && rosters.Some? ==>
                && r == PlainAnswer(anchor, epoch, gateway)
                && FoundIsProved(r, anchor, epoch, gateway)
                && (r.Found? ==> Holds(Asked(chainId, 0, epoch, gateway), epoch, r.members))
    {
      hide PlainAnswer, Holds, AtFault, Leads, Asked, FoundIsProved;
      ghost var first := rosters.None?;
      var anchored := AnchorPinnedRoster(gateway);
      if anchored.None? {
        return Refused;
      }
      if !anchored.value {
        return NoAnchor;
      }
      if first {
        assert FloorKey(rosters.value, epoch) == Some(0);
        assert [] + Asked(chainId, 0, epoch, gateway) == Asked(chainId, 0, epoch, gateway);
      }
      r := FromNearest(epoch, gateway);
    }

    /** The rest of `roster_for_epoch`, once there is an anchor: walk from the nearest cached roster. */
    method FromNearest(epoch: u64, gateway: Gateway) returns (r: Lookup)
      requires Valid() && rosters.Some?
      modifies this`rosters, this`trails
      ensures Valid() && rosters.Some? && !r.NoAnchor? && (r.Found? ==> r.genesis == genesis)
      ensures FloorKey(old(rosters).value, epoch).None? ==> r.Refused?
      ensures FloorKey(old(rosters).value, epoch).Some? ==>
                var start := FloorKey(old(rosters).value, epoch).value;
                && r == PlainAnswer(VerifiedRoster(start, old(rosters).value[start]), epoch, gateway)
                && FoundIsProved(r, VerifiedRoster(start, old(rosters).value[start]), epoch, gateway)
                && (r.Found? ==> Holds(old(trails)[start] + Asked(chainId, start, epoch, gateway), epoch, r.members))
                && (PlainAnswer(anchor, epoch, gateway).Found? ==>
                      r == PlainAnswer(anchor, epoch, gateway) || AtFault(old(trails)[start], start, gateway))
    {
      hide Leads, PartsSomewhere, PlainWalk, NextRoster, Asked, FloorKey, FoundIsProved;
      var start := FloorKey(rosters.value, epoch);
      if start.None? {
        return Refused;
      }
      var current := VerifiedRoster(start.value, rosters.value[start.value]);
      PlainAnswerIsExact(current, epoch, gateway);
      if epochLength.None? || epochLength.value == 0 {
        return Refused;
      }
      if PlainAnswer(anchor, epoch, gateway).Found? {
        StartDoesNotMatter(p, genesis, epochLength.value, chainId, anchor, trails[start.value], current, epoch, gateway);
      }
      var reached := WalkTo(epochLength.value, current, trails[start.value], epoch, gateway);
      return if reached.None? then Refused else Found(genesis, reached.value.members);
    }

    /** The loop of `roster_for_epoch`. */
    method WalkTo(length: u64, start: VerifiedRoster, ghost trail: seq<Evidence>, epoch: u64, gateway: Gateway)
      returns (r: Option<VerifiedRoster>)
      requires Valid() && rosters.Some? && epochLength == Some(length)
      requires anchor.epoch <= start.epoch <= epoch && Holds(trail, start.epoch, start.members)
      modifies this`rosters, this`trails
      ensures Valid() && rosters.Some?
      ensures r == PlainWalk(p, genesis, length, chainId, start, epoch, gateway)
      ensures forall members :: r == Some(VerifiedRoster(epoch, members)) <==>
                AnswersProve(p, genesis, length, chainId, start, epoch, gateway, members)
      ensures r.Some? ==>
                && r.value.epoch == epoch
                && Holds(trail + Asked(chainId, start.epoch, epoch, gateway), epoch, r.value.members)
    {
      hide NextRoster, Leads, AnswersProve, PlainWalk;
      AnyWalkIsExact(p, genesis, length, chainId, start, epoch, gateway);
      r := WalkOn(length, start, trail, epoch, gateway);
    }

    /** The loop itself, against the walk that remembers nothing. */
    method WalkOn(length: u64, start: VerifiedRoster, ghost trail: seq<Evidence>, epoch: u64, gateway: Gateway)
      returns (r: Option<VerifiedRoster>)
      requires Valid() && rosters.Some? && epochLength == Some(length)
      requires anchor.epoch <= start.epoch <= epoch && Holds(trail, start.epoch, start.members)
      modifies this`rosters, this`trails
      ensures Valid() && rosters.Some?
      ensures r == PlainWalk(p, genesis, length, chainId, start, epoch, gateway)
      ensures r.Some? ==>
                && r.value.epoch == epoch
                && Holds(trail + Asked(chainId, start.epoch, epoch, gateway), epoch, r.value.members)
    {
      hide NextRoster, Leads;
      var current := start;
      ghost var walked := trail;
      while current.epoch < epoch
        invariant Valid() && rosters.Some?
        invariant anchor.epoch <= current.epoch <= epoch
        invariant Holds(walked, current.epoch, current.members)
        invariant PlainWalk(p, genesis, length, chainId, start, epoch, gateway)
                  == PlainWalk(p, genesis, length, chainId, current, epoch, gateway)
        decreases epoch - current.epoch
      {
        var next: u64 := current.epoch + 1;
        var answer := gateway(next);
        if answer.None? {
          return None;
        }
        var evidence := EvidenceOf(chainId, next, answer.value);
        if evidence.None? {
          return None;
        }
        var step := VerifyNextRoster(p, genesis, length, current, evidence.value);
        if step.None? {
          return None;
        }
        LeadsOneStep(p, genesis, length, chainId, anchor, walked, current, evidence.value);
        walked := walked + [evidence.value];
        current := step.value;
        Keep(current, walked);
      }
      PlainWalkIsWalk(p, genesis, length, chainId, anchor, trail, start, epoch, gateway);
      return Some(current);
    }

    /** Insert one verified roster, then drop second-oldest entries until at most 32 are left. */
    method Keep(roster: VerifiedRoster, ghost trail: seq<Evidence>)
      requires Valid() && rosters.Some?
      requires anchor.epoch < roster.epoch && Holds(trail, roster.epoch, roster.members)
      modifies this`rosters, this`trails
      ensures Valid() && rosters.Some?
      ensures IsCut(old(rosters).value[roster.epoch := roster.members], anchor.epoch, rosters.value)
      ensures forall e :: e in rosters.value ==> trails[e] == old(trails)[roster.epoch := trail][e]
    {
      hide Holds, LeastIn, IsCut;
      var inserted := rosters.value[roster.epoch := roster.members];
      ghost var grown := trails[roster.epoch := trail];
      assert inserted.Keys == rosters.value.Keys + {roster.epoch};
      assert forall e :: e in inserted ==> anchor.epoch <= e && Holds(grown[e], e, inserted[e]);
      AnchorIsLeast(inserted.Keys, anchor.epoch);
      var kept := Evict(inserted, anchor.epoch);
      CutKeepsEntries(inserted, anchor.epoch, kept);
      rosters := Some(kept);
      trails := map e | e in kept :: grown[e];
    }
  }
}
