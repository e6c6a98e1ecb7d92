/** The walk from a trusted validator roster to the roster of any later epoch. */
module LightClient {
  import opened Machine
  import opened Stake
  import opened Finality

  datatype VerifiedRoster = VerifiedRoster(epoch: u64, members: seq<RosterMember>)

  /** What a gateway hands over to prove one next roster, and the chain the caller checks it for. */
  datatype Evidence = Evidence(chainId: u64, header: Bytes, certificate: Bytes, members: seq<RosterMember>, proof: Bytes)

  // ---- epochs and heights ----

  function EpochOf(height: u64, epochLength: u64): Option<u64> {
    if epochLength == 0 then None
    else
      DivisionShrinks(height, epochLength);
      Some(height / epochLength)
  }

  lemma DivisionShrinks(a: nat, b: nat)
    requires b > 0
    ensures 0 <= a / b <= a
  {
    if a / b > a {
      MulAtLeast(b, a / b);
    }
  }

  lemma MulAtLeast(b: nat, q: nat)
    requires b >= 1
    ensures q <= b * q
  {
  }

  function SealingHeight(epoch: u64, epochLength: u64): Option<u64> {
    if epochLength == 0 then None
    else match CheckedAdd64(epoch, 1)
      case None => None
      case Some(next) =>
        match CheckedMul64(next, epochLength)
        case None => None
        case Some(start) => CheckedSub64(start, 1)
  }

  /** The height that seals an epoch is the last one in it, and is refused only when it overflows. */
  lemma SealingIsTheLastHeight(epoch: u64, epochLength: u64)
    ensures SealingHeight(epoch, epochLength).Some? <==> 0 < epochLength && (epoch + 1) * epochLength <= U64_MAX
    ensures SealingHeight(epoch, epochLength).Some? ==>
              var sealing := SealingHeight(epoch, epochLength).value;
              && sealing == (epoch + 1) * epochLength - 1
              && EpochOf(sealing, epochLength) == Some(epoch)
              && (sealing < U64_MAX ==> EpochOf(sealing + 1, epochLength) == Some(epoch + 1))
  {
    if epochLength > 0 {
      MulAtLeast(epochLength, epoch + 1);
      assert (epoch + 1) * epochLength == epochLength * (epoch + 1);
      if SealingHeight(epoch, epochLength).Some? {
        var sealing := SealingHeight(epoch, epochLength).value;
        QuotientIs(sealing, epochLength, epoch, epochLength - 1);
        QuotientIs(sealing + 1, epochLength, epoch + 1, 0);
      }
    }
  }

  lemma QuotientIs(n: nat, d: nat, q: nat, r: nat)
    requires d > 0 && r < d && n == q * d + r
    ensures n / d == q
  {
    var e, f := n / d, n % d;
    assert n == e * d + f;
    assert (e - q) * d == r - f;
    SmallMultiple(e - q, d);
  }

  // ---- one step ----

  function HeaderHeight(p: Primitives, headerBytes: Bytes): Option<u64> {
    match p.headerFromBytes(headerBytes)
    case None => None
    case Some(h) => Some(h.height)
  }

  /** `verify_finality_in_epoch`: the roster must be the one of the header's own epoch. */
  method VerifyFinalityInEpoch(p: Primitives, on: Binding, epochLength: u64, roster: VerifiedRoster,
                               headerBytes: Bytes, certificateBytes: Bytes) returns (r: Option<FinalizedHeader>)
    ensures r == FinalInEpoch(p, on, epochLength, roster, headerBytes, certificateBytes)
  {
    var height := HeaderHeight(p, headerBytes);
    if height.None? {
      return None;
    }
    var epoch := EpochOf(height.value, epochLength);
    if epoch.None? || epoch.value != roster.epoch {
      return None;
    }
    r := VerifyFinality(p, on, headerBytes, certificateBytes, roster.members);
  }

  ghost function FinalInEpoch(p: Primitives, on: Binding, epochLength: u64, roster: VerifiedRoster,
                              headerBytes: Bytes, certificateBytes: Bytes): Option<FinalizedHeader>
  {
    if HeaderHeight(p, headerBytes).Some?
       && EpochOf(HeaderHeight(p, headerBytes).value, epochLength) == Some(roster.epoch)
    then Verdict(p, on, headerBytes, certificateBytes, roster.members)
    else None
  }

  /**
   * The evidence proves its members to be the roster after `current`: they are committed, under the
   * next epoch's key, in the state of a block that `current` finalized at the epoch's last height.
   */
  ghost predicate Links(p: Primitives, genesis: Bytes, epochLength: u64, current: VerifiedRoster, ev: Evidence) {
    && 0 < |ev.members| <= MAX_ROSTER
    && (current.epoch + 1) * epochLength <= U64_MAX
    && current.epoch < U64_MAX
    && Accepts(p, Binding(ev.chainId, genesis), ev.header, ev.certificate, current.members)
    && (var header := p.headerFromBytes(ev.header).value;
        var next := current.epoch + 1;
        && header.height == (current.epoch + 1) * epochLength - 1
        && p.proofFromBytes(ev.proof).Some?
        && (var proof := p.proofFromBytes(ev.proof).value;
            && proof.value == Some(p.rosterCommitment(next, ev.members))
            && p.verifyState(p.rosterKey(next), proof, header.qRoot)))
  }

  ghost function NextRoster(p: Primitives, genesis: Bytes, epochLength: u64, current: VerifiedRoster,
                            ev: Evidence): Option<VerifiedRoster>
  {
    if Links(p, genesis, epochLength, current, ev)
    then Some(VerifiedRoster(current.epoch + 1, ev.members))
    else None
  }

  /** The certificate makes the header final for this roster. */
  ghost predicate IsFinal(p: Primitives, on: Binding, header: Bytes, certificate: Bytes, roster: seq<RosterMember>) {
    exists active, f :: Finalizes(p, on, header, certificate, roster, active, f)
  }

  /**
   * What proves the roster after `current`, over the fields of the evidence: a finalized header whose
   * height is in the current epoch while the next height is in the next one, and a proof in its state
   * of the commitment to these members under the next epoch's key.
   */
  ghost predicate ProvesNext(p: Primitives, chainId: u64, genesis: Bytes, epochLength: u64, current: VerifiedRoster,
                             header: Bytes, certificate: Bytes, members: seq<RosterMember>, proof: Bytes)
  {
    && 0 < |members| <= 4096
    && epochLength > 0 && p.headerFromBytes(header).Some? && p.proofFromBytes(proof).Some?
    && (var h, shown := p.headerFromBytes(header).value, p.proofFromBytes(proof).value;
        && h.height < U64_MAX
        && h.height / epochLength == current.epoch && (h.height + 1) / epochLength == current.epoch + 1
        && current.epoch < U64_MAX
        && IsFinal(p, Binding(chainId, genesis), header, certificate, current.members)
        && shown.value == Some(p.rosterCommitment(current.epoch + 1, members))
        && p.verifyState(p.rosterKey(current.epoch + 1), shown, h.qRoot))
  }

  lemma AcceptedIsFinalized(p: Primitives, on: Binding, header: Bytes, certificate: Bytes, roster: seq<RosterMember>)
    ensures Accepts(p, on, header, certificate, roster) <==> IsFinal(p, on, header, certificate, roster)
  {
    VerdictMeaning(p, on, header, certificate, roster);
    hide Accepts, Finalizes, Verdict;
    var v := Verdict(p, on, header, certificate, roster);
    if v.Some? {
      FinalityIsExact(p, on, header, certificate, roster, v.value);
    }
    if active, f :| Finalizes(p, on, header, certificate, roster, active, f) {
      FinalityIsExact(p, on, header, certificate, roster, f);
    }
  }

  /** Being the last height of an epoch, as a height and as a product. */
  lemma LastOfEpoch(h: u64, epoch: u64, epochLength: u64)
    ensures (epochLength > 0 && h < U64_MAX && h / epochLength == epoch && (h + 1) / epochLength == epoch + 1) <==>
              (epoch + 1) * epochLength <= U64_MAX && h == (epoch + 1) * epochLength - 1
  {
    if epochLength > 0 {
      var next := (epoch + 1) * epochLength;
      assert next == epoch * epochLength + epochLength;
      if h + 1 == next {
        QuotientIs(h, epochLength, epoch, epochLength - 1);
        QuotientIs(h + 1, epochLength, epoch + 1, 0);
      }
      if h / epochLength == epoch && (h + 1) / epochLength == epoch + 1 {
        assert h < next;
        assert h + 1 >= next;
      }
    }
  }

  /** A finalized header of the roster's own epoch, and nothing else, is what the check in an epoch returns. */
  lemma InEpochIsExact(p: Primitives, on: Binding, epochLength: u64, roster: VerifiedRoster, header: Bytes,
                       certificate: Bytes, f: FinalizedHeader)
    ensures FinalInEpoch(p, on, epochLength, roster, header, certificate) == Some(f) <==>
              && epochLength > 0 && f.height / epochLength == roster.epoch
              && exists active :: Finalizes(p, on, header, certificate, roster.members, active, f)
  {
    FinalityIsExact(p, on, header, certificate, roster.members, f);
    VerdictMeaning(p, on, header, certificate, roster.members);
    hide Verdict, Finalizes;
  }

  /** The step is exact: a roster is accepted if and only if the evidence proves it. */
  lemma NextIsExact(p: Primitives, genesis: Bytes, epochLength: u64, current: VerifiedRoster, ev: Evidence,
                    next: VerifiedRoster)
    ensures NextRoster(p, genesis, epochLength, current, ev) == Some(next) <==>
              && next.epoch == current.epoch + 1 && next.members == ev.members
              && ProvesNext(p, ev.chainId, genesis, epochLength, current, ev.header, ev.certificate, ev.members, ev.proof)
  {
    hide Finalizes, Accepts, IsFinal;
    AcceptedIsFinalized(p, Binding(ev.chainId, genesis), ev.header, ev.certificate, current.members);
    HeaderIsThere(p, Binding(ev.chainId, genesis), ev.header, ev.certificate, current.members);
    if p.headerFromBytes(ev.header).Some? {
      LastOfEpoch(p.headerFromBytes(ev.header).value.height, current.epoch, epochLength);
    }
  }

  lemma HeaderIsThere(p: Primitives, on: Binding, header: Bytes, certificate: Bytes, roster: seq<RosterMember>)
    ensures Accepts(p, on, header, certificate, roster) ==> p.headerFromBytes(header).Some?
  {
  }

  /** `verify_next_roster` */
  method VerifyNextRoster(p: Primitives, genesis: Bytes, epochLength: u64, current: VerifiedRoster, ev: Evidence)
    returns (r: Option<VerifiedRoster>)
    ensures r == NextRoster(p, genesis, epochLength, current, ev)
    ensures forall next :: r == Some(next) <==>
              && next.epoch == current.epoch + 1 && next.members == ev.members
              && ProvesNext(p, ev.chainId, genesis, epochLength, current, ev.header, ev.certificate, ev.members, ev.proof)
  {
    hide Accepts, Verdict, ProvesNext;
    forall next
      ensures NextRoster(p, genesis, epochLength, current, ev) == Some(next) <==>
                && next.epoch == current.epoch + 1 && next.members == ev.members
                && ProvesNext(p, ev.chainId, genesis, epochLength, current, ev.header, ev.certificate, ev.members, ev.proof)
    {
      NextIsExact(p, genesis, epochLength, current, ev, next);
    }
    VerdictMeaning(p, Binding(ev.chainId, genesis), ev.header, ev.certificate, current.members);
    if |ev.members| == 0 || |ev.members| > MAX_ROSTER {
      return None;
    }
    var next := CheckedAdd64(current.epoch, 1);
    if next.None? {
      return None;
    }
    var sealing := SealingHeight(current.epoch, epochLength);
    SealingIsTheLastHeight(current.epoch, epochLength);
    if sealing.None? {
      assert epochLength == 0 ==> (current.epoch + 1) * epochLength == 0;
      return None;
    }
    var height := HeaderHeight(p, ev.header);
    if height.None? || height.value != sealing.value {
      return None;
    }
    var header := VerifyFinalityInEpoch(p, Binding(ev.chainId, genesis), epochLength, current, ev.header, ev.certificate);
    if header.None? {
      return None;
    }
    var proof := p.proofFromBytes(ev.proof);
    if proof.None? {
      return None;
    }
    var expected := p.rosterCommitment(next.value, ev.members);
    if proof.value.value != Some(expected) {
      return None;
    }
    if !p.verifyState(p.rosterKey(next.value), proof.value, header.value.qRoot) {
      return None;
    }
    return Some(VerifiedRoster(next.value, ev.members));
  }

  // ---- a whole walk ----

  /** Follow the evidence one epoch at a time from the anchor. */
  ghost function Walk(p: Primitives, genesis: Bytes, epochLength: u64, anchor: VerifiedRoster,
                      evidence: seq<Evidence>): Option<VerifiedRoster>
  {
    if evidence == [] then Some(anchor)
    else
      match Walk(p, genesis, epochLength, anchor, evidence[..|evidence| - 1])
      case None => None
      case Some(current) => NextRoster(p, genesis, epochLength, current, evidence[|evidence| - 1])
  }

  lemma {:induction false} WalkCountsEpochs(p: Primitives, genesis: Bytes, epochLength: u64, anchor: VerifiedRoster,
                                            evidence: seq<Evidence>)
    requires Walk(p, genesis, epochLength, anchor, evidence).Some?
    ensures Walk(p, genesis, epochLength, anchor, evidence).value.epoch == anchor.epoch + |evidence|
  {
    if evidence != [] {
      WalkCountsEpochs(p, genesis, epochLength, anchor, evidence[..|evidence| - 1]);
    }
  }

  /**
   * More than a third of the roster's stake attested, with checked signatures, to both of two
   * different blocks at one height; the two certificates are the proof.
   */
  ghost predicate DoubleSigned(p: Primitives, genesis: Bytes, roster: VerifiedRoster, e1: Evidence, e2: Evidence) {
    && p.headerFromBytes(e1.header).Some? && p.headerFromBytes(e2.header).Some?
    && DecodedCertificate(p, e1.certificate).Some? && DecodedCertificate(p, e2.certificate).Some?
    && (var h1, h2 := p.headerFromBytes(e1.header).value, p.headerFromBytes(e2.header).value;
        var c1, c2 := DecodedCertificate(p, e1.certificate).value, DecodedCertificate(p, e2.certificate).value;
        && h1.height == h2.height
        && NewBlock(p, h1.height, p.hashOf(h1), ParentOf(h1)) != NewBlock(p, h2.height, p.hashOf(h2), ParentOf(h2))
        && (forall a :: a in c1.attestations ==> a.block == NewBlock(p, h1.height, p.hashOf(h1), ParentOf(h1)))
        && (forall a :: a in c2.attestations ==> a.block == NewBlock(p, h2.height, p.hashOf(h2), ParentOf(h2)))
        && 3 * StakeOf(DoubleAttesters(p, Binding(e1.chainId, genesis), roster.members, c1, c2))
           > StakeOf(Active(p, roster.members)))
  }

  ghost predicate HeaderCollision(p: Primitives, e1: Evidence, e2: Evidence) {
    && p.headerFromBytes(e1.header).Some? && p.headerFromBytes(e2.header).Some?
    && p.headerFromBytes(e1.header) != p.headerFromBytes(e2.header)
    && p.hashOf(p.headerFromBytes(e1.header).value) == p.hashOf(p.headerFromBytes(e2.header).value)
  }

  /** Two proofs of different values for one key under one state root. */
  ghost predicate ProofCollision(p: Primitives, epoch: u64, e1: Evidence, e2: Evidence) {
    && p.headerFromBytes(e1.header).Some? && p.headerFromBytes(e2.header).Some?
    && p.proofFromBytes(e1.proof).Some? && p.proofFromBytes(e2.proof).Some?
    && (var root := p.headerFromBytes(e1.header).value.qRoot;
        var p1, p2 := p.proofFromBytes(e1.proof).value, p.proofFromBytes(e2.proof).value;
        && p.headerFromBytes(e2.header).value.qRoot == root
        && p1.value != p2.value
        && p.verifyState(p.rosterKey(epoch), p1, root) && p.verifyState(p.rosterKey(epoch), p2, root))
  }

  ghost predicate CommitmentCollision(p: Primitives, epoch: u64, e1: Evidence, e2: Evidence) {
    && e1.members != e2.members
    && p.rosterCommitment(epoch, e1.members) == p.rosterCommitment(epoch, e2.members)
  }

  /** Something broke in the two pieces of evidence for the roster after `roster`. */
  ghost predicate Fault(p: Primitives, genesis: Bytes, roster: VerifiedRoster, e1: Evidence, e2: Evidence) {
    || DoubleSigned(p, genesis, roster, e1, e2)
    || HeaderCollision(p, e1, e2)
    || (roster.epoch < U64_MAX && ProofCollision(p, roster.epoch + 1, e1, e2))
    || (roster.epoch < U64_MAX && CommitmentCollision(p, roster.epoch + 1, e1, e2))
  }

  lemma StepAgreementOrFault(p: Primitives, genesis: Bytes, epochLength: u64, current: VerifiedRoster,
                             e1: Evidence, e2: Evidence)
    requires e1.chainId == e2.chainId
    requires Links(p, genesis, epochLength, current, e1)
    requires Links(p, genesis, epochLength, current, e2)
    ensures e1.members == e2.members || Fault(p, genesis, current, e1, e2)
  {
    hide DoubleSigned, Certifies, WellFormedRoster, DecodedCertificate;
    if p.hashOf(p.headerFromBytes(e1.header).value) != p.hashOf(p.headerFromBytes(e2.header).value) {
      TwoHeadersDoubleSigned(p, genesis, epochLength, current, e1, e2);
    }
  }

  lemma TwoHeadersDoubleSigned(p: Primitives, genesis: Bytes, epochLength: u64, current: VerifiedRoster,
                               e1: Evidence, e2: Evidence)
    requires e1.chainId == e2.chainId
    requires Links(p, genesis, epochLength, current, e1)
    requires Links(p, genesis, epochLength, current, e2)
    requires p.hashOf(p.headerFromBytes(e1.header).value) != p.hashOf(p.headerFromBytes(e2.header).value)
    ensures DoubleSigned(p, genesis, current, e1, e2)
  {
    hide Certifies, WellFormedRoster, DecodedCertificate, DoubleAttesters, StakeOf, Active, ParentOf;
    var on := Binding(e1.chainId, genesis);
    AccountableQuorum(p, on, current.members, e1.header, e1.certificate, e2.header, e2.certificate);
    AttestationsNameTheBlock(p, on, current.members, e1.header, e1.certificate);
    AttestationsNameTheBlock(p, on, current.members, e2.header, e2.certificate);
  }

  /**
   * Step `i` is where the walks part: up to it they lead to one roster, both then accept a next one,
   * the two differ, and the two pieces of evidence for them are at fault.
   */
  ghost predicate FaultAt(p: Primitives, genesis: Bytes, epochLength: u64, anchor: VerifiedRoster,
                          evidence1: seq<Evidence>, evidence2: seq<Evidence>, i: nat)
  {
    && i < |evidence1| && i < |evidence2|
    && Walk(p, genesis, epochLength, anchor, evidence1[..i]).Some?
    && Walk(p, genesis, epochLength, anchor, evidence1[..i]) == Walk(p, genesis, epochLength, anchor, evidence2[..i])
    && Walk(p, genesis, epochLength, anchor, evidence1[..i + 1]).Some?
    && Walk(p, genesis, epochLength, anchor, evidence2[..i + 1]).Some?
    && Walk(p, genesis, epochLength, anchor, evidence1[..i + 1]) != Walk(p, genesis, epochLength, anchor, evidence2[..i + 1])
    && Fault(p, genesis, Walk(p, genesis, epochLength, anchor, evidence1[..i]).value, evidence1[i], evidence2[i])
  }

  /**
   * Light-client agreement with accountability: two walks of one length from one anchor, fed by any
   * two gateways, end at the same roster, or the evidence itself holds a collision or convicts
   * holders of more than a third of some epoch's active stake of attesting to two blocks.
   */
  lemma {:induction false} AgreementOrFault(p: Primitives, genesis: Bytes, epochLength: u64, anchor: VerifiedRoster,
                                            evidence1: seq<Evidence>, evidence2: seq<Evidence>)
    requires |evidence1| == |evidence2|
    requires forall i :: 0 <= i < |evidence1| ==> evidence1[i].chainId == evidence2[i].chainId
    requires Walk(p, genesis, epochLength, anchor, evidence1).Some?
    requires Walk(p, genesis, epochLength, anchor, evidence2).Some?
    ensures || Walk(p, genesis, epochLength, anchor, evidence1) == Walk(p, genesis, epochLength, anchor, evidence2)
            || exists i: nat :: FaultAt(p, genesis, epochLength, anchor, evidence1, evidence2, i)
  {
    hide FaultAt, NextRoster;
    if evidence1 != [] {
      var n := |evidence1| - 1;
      var front1, front2 := evidence1[..n], evidence2[..n];
      AgreementOrFault(p, genesis, epochLength, anchor, front1, front2);
      if Walk(p, genesis, epochLength, anchor, front1) == Walk(p, genesis, epochLength, anchor, front2) {
        LastStepAgreesOrFault(p, genesis, epochLength, anchor, evidence1, evidence2);
      } else {
        var i: nat :| FaultAt(p, genesis, epochLength, anchor, front1, front2, i);
        FaultStays(p, genesis, epochLength, anchor, evidence1, evidence2, n, i);
      }
    }
  }

  lemma LastStep(p: Primitives, genesis: Bytes, epochLength: u64, anchor: VerifiedRoster, evidence: seq<Evidence>)
    requires evidence != [] && Walk(p, genesis, epochLength, anchor, evidence).Some?
    ensures var before := Walk(p, genesis, epochLength, anchor, evidence[..|evidence| - 1]);
            && before.Some? && Links(p, genesis, epochLength, before.value, evidence[|evidence| - 1])
            && Walk(p, genesis, epochLength, anchor, evidence)
               == Some(VerifiedRoster(before.value.epoch + 1, evidence[|evidence| - 1].members))
  {
    hide Links;
  }

  lemma LastStepAgreesOrFault(p: Primitives, genesis: Bytes, epochLength: u64, anchor: VerifiedRoster,
                              evidence1: seq<Evidence>, evidence2: seq<Evidence>)
    requires |evidence1| == |evidence2| > 0
    requires evidence1[|evidence1| - 1].chainId == evidence2[|evidence1| - 1].chainId
    requires Walk(p, genesis, epochLength, anchor, evidence1).Some?
    requires Walk(p, genesis, epochLength, anchor, evidence2).Some?
    requires Walk(p, genesis, epochLength, anchor, evidence1[..|evidence1| - 1])
             == Walk(p, genesis, epochLength, anchor, evidence2[..|evidence2| - 1])
    ensures || Walk(p, genesis, epochLength, anchor, evidence1) == Walk(p, genesis, epochLength, anchor, evidence2)
            || FaultAt(p, genesis, epochLength, anchor, evidence1, evidence2, |evidence1| - 1)
  {
    hide Fault, Links, Walk;
    LastStep(p, genesis, epochLength, anchor, evidence1);
    LastStep(p, genesis, epochLength, anchor, evidence2);
    var n := |evidence1| - 1;
    var current := Walk(p, genesis, epochLength, anchor, evidence1[..n]).value;
    StepAgreementOrFault(p, genesis, epochLength, current, evidence1[n], evidence2[n]);
    assert evidence1[..n + 1] == evidence1 && evidence2[..n + 1] == evidence2;
  }

  lemma FaultStays(p: Primitives, genesis: Bytes, epochLength: u64, anchor: VerifiedRoster,
                   evidence1: seq<Evidence>, evidence2: seq<Evidence>, n: nat, i: nat)
    requires n <= |evidence1| && n <= |evidence2|
    requires FaultAt(p, genesis, epochLength, anchor, evidence1[..n], evidence2[..n], i)
    ensures FaultAt(p, genesis, epochLength, anchor, evidence1, evidence2, i)
  {
    hide Fault, Walk;
    var front1, front2 := evidence1[..n], evidence2[..n];
    assert front1[..i] == evidence1[..i] && front2[..i] == evidence2[..i];
    assert front1[..i + 1] == evidence1[..i + 1] && front2[..i + 1] == evidence2[..i + 1];
  }

  // ---- the same, under the usual assumptions ----

  /** No two inputs ever collide, in any of the three commitments a walk relies on. */
  ghost predicate Binds(p: Primitives) {
    && (forall h1, h2 :: p.hashOf(h1) == p.hashOf(h2) ==> h1 == h2)
    && (forall e, m1, m2 :: p.rosterCommitment(e, m1) == p.rosterCommitment(e, m2) ==> m1 == m2)
    && (forall key, p1, p2, root :: p.verifyState(key, p1, root) && p.verifyState(key, p2, root) ==> p1.value == p2.value)
  }

  /** Who attested to what: every valid attestation was made by its member, not forged. */
  ghost predicate Unforgeable(p: Primitives, on: Binding, made: (RosterMember, Block) -> bool) {
    forall m, a :: Attests(p, on, m, a) ==> made(m, a.block)
  }

  ghost function Equivocators(p: Primitives, roster: seq<RosterMember>,
                              made: (RosterMember, Block) -> bool): set<RosterMember>
  {
    set m | m in Active(p, roster) && Equivocated(m, made)
  }

  ghost predicate Equivocated(m: RosterMember, made: (RosterMember, Block) -> bool) {
    exists b1, b2 :: made(m, b1) && made(m, b2) && b1.height == b2.height && b1 != b2
  }

  ghost predicate FewEquivocate(p: Primitives, roster: seq<RosterMember>, made: (RosterMember, Block) -> bool) {
    3 * StakeOf(Equivocators(p, roster, made)) <= StakeOf(Active(p, roster))
  }

  /** With sound primitives and at most a third of each walked roster equivocating, walks agree. */
  lemma Agreement(p: Primitives, genesis: Bytes, epochLength: u64, chainId: u64, anchor: VerifiedRoster,
                  evidence1: seq<Evidence>, evidence2: seq<Evidence>, made: (RosterMember, Block) -> bool)
    requires Binds(p) && Unforgeable(p, Binding(chainId, genesis), made)
    requires |evidence1| == |evidence2|
    requires forall i: nat :: i < |evidence1| && Walk(p, genesis, epochLength, anchor, evidence1[..i]).Some? ==>
               FewEquivocate(p, Walk(p, genesis, epochLength, anchor, evidence1[..i]).value.members, made)
    requires forall i :: 0 <= i < |evidence1| ==> evidence1[i].chainId == evidence2[i].chainId == chainId
    requires Walk(p, genesis, epochLength, anchor, evidence1).Some?
    requires Walk(p, genesis, epochLength, anchor, evidence2).Some?
    ensures Walk(p, genesis, epochLength, anchor, evidence1) == Walk(p, genesis, epochLength, anchor, evidence2)
  {
    AgreementOrFault(p, genesis, epochLength, anchor, evidence1, evidence2);
    hide Fault, Walk, Equivocators, Binds, Unforgeable;
    if i: nat :| FaultAt(p, genesis, epochLength, anchor, evidence1, evidence2, i) {
      var roster := Walk(p, genesis, epochLength, anchor, evidence1[..i]).value;
      OnlyDoubleSigning(p, genesis, roster, evidence1[i], evidence2[i]);
      DoubleSignersEquivocate(p, genesis, roster, evidence1[i], evidence2[i], made);
    }
  }

  lemma OnlyDoubleSigning(p: Primitives, genesis: Bytes, roster: VerifiedRoster, e1: Evidence, e2: Evidence)
    requires Binds(p) && Fault(p, genesis, roster, e1, e2)
    ensures DoubleSigned(p, genesis, roster, e1, e2)
  {
    hide DoubleSigned;
  }

  lemma DoubleSignersEquivocate(p: Primitives, genesis: Bytes, roster: VerifiedRoster, e1: Evidence, e2: Evidence,
                                made: (RosterMember, Block) -> bool)
    requires Unforgeable(p, Binding(e1.chainId, genesis), made)
    requires DoubleSigned(p, genesis, roster, e1, e2)
    ensures 3 * StakeOf(Equivocators(p, roster.members, made)) > StakeOf(Active(p, roster.members))
  {
    var on := Binding(e1.chainId, genesis);
    var c1, c2 := DecodedCertificate(p, e1.certificate).value, DecodedCertificate(p, e2.certificate).value;
    var double := DoubleAttesters(p, on, roster.members, c1, c2);
    forall m | m in double
      ensures Equivocated(m, made)
    {
      var i :| 0 <= i < |c1.attestations| && Attests(p, on, m, c1.attestations[i]);
      var j :| 0 <= j < |c2.attestations| && Attests(p, on, m, c2.attestations[j]);
      var a, b := c1.attestations[i], c2.attestations[j];
      assert a in c1.attestations && b in c2.attestations;
      assert made(m, a.block) && made(m, b.block);
    }
    StakeMonotone(double, Equivocators(p, roster.members, made));
  }
}
