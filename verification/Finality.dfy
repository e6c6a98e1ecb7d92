/** The light-client finality check: one header, one certificate, one roster. */
module Finality {
  import opened Machine
  import opened Sorting
  import opened Stake

  const PUBLIC_KEY_BYTES: nat := 1952
  const STAGE_ONE: byte := 1
  const MAX_ATTESTATIONS: nat := 4096
  const MAX_ROSTER: nat := 4096
  const MAX_COMMITTEE_REVEALS: nat := 4096

  datatype Parent = Genesis | Value(hash: Bytes)
  datatype Block = Block(height: u64, val: Bytes, parent: Parent, cost: u64)
  datatype Envelope = Envelope(height: u64, slot: u64, block: Block, committee: Bytes)
  datatype Credential = Credential(position: u64, preimage: Bytes, siblings: seq<Bytes>)
  datatype Attestation = Attestation(from: u64, height: u64, slot: u64, view: u64, committee: Bytes,
                                     block: Block, membership: Credential, sig: Bytes)
  datatype Reveal = Reveal(id: u64, credential: Credential)

  /** The header's fields; `rest` is whatever else its bytes carry. */
  datatype Header = Header(height: u64, parentHash: Bytes, qRoot: Bytes, transactionRoot: Bytes,
                           eventRoot: Bytes, time: u64, rest: Bytes)

  /** The certificate's fields as read off its bytes, before any check on them. */
  datatype RawCertificate = RawCertificate(envelope: Envelope, stage: byte,
                                           attestations: seq<Attestation>, disclosed: seq<Reveal>)

  datatype Certificate = Certificate(envelope: Envelope, attestations: seq<Attestation>, disclosed: seq<Reveal>)

  datatype FinalizedHeader = FinalizedHeader(height: u64, hash: Bytes, parentHash: Bytes, qRoot: Bytes,
                                             transactionRoot: Bytes, eventRoot: Bytes, time: u64,
                                             signedStake: u128, totalStake: u128)

  datatype StateProof = StateProof(value: Option<Bytes>, path: Bytes)

  /** The chain and genesis every attestation message is bound to. */
  datatype Binding = Binding(chainId: u64, genesis: Bytes)

  /**
   * Everything that lives in other crates: codecs, hashes, signatures, sortition and state proofs
   * are arbitrary functions, and the two sampler parameters are arbitrary numbers.
   */
  datatype Primitives = Primitives(
    headerFromBytes: Bytes -> Option<Header>,
    hashOf: Header -> Bytes,
    certificateFromBytes: Bytes -> Option<RawCertificate>,
    message: (Binding, u64, u64, u64, Bytes, Block) -> Bytes,
    isDegenerate: Bytes -> bool,
    verifySignature: (Bytes, Bytes, Bytes) -> bool,
    verifyMembership: (Root, u64, u64, Credential) -> bool,
    rosterCommitment: (u64, seq<RosterMember>) -> Bytes,
    rosterKey: u64 -> Bytes,
    proofFromBytes: Bytes -> Option<StateProof>,
    verifyState: (Bytes, StateProof, Bytes) -> bool,
    newBlockCost: u64,
    minStake: nat,
    maxActive: nat)

  // ---- what it means to be accepted ----

  ghost predicate WellFormedRoster(roster: seq<RosterMember>) {
    && 0 < |roster| <= MAX_ROSTER
    && NoDuplicates(roster)
    && UniqueIds(SetOf(roster))
    && (forall m :: m in roster ==> |m.attestPk| == PUBLIC_KEY_BYTES)
    && forall a, b :: a in roster && b in roster && a.attestPk == b.attestPk ==> a == b
  }

  ghost function Active(p: Primitives, roster: seq<RosterMember>): set<RosterMember> {
    ActiveMembers(SetOf(roster), p.minStake, p.maxActive)
  }

  ghost predicate OrderedById(ids: seq<u64>) {
    forall i, j :: 0 <= i < j < |ids| ==> ids[i] <= ids[j]
  }

  ghost function Froms(attestations: seq<Attestation>): seq<u64> {
    seq(|attestations|, i requires 0 <= i < |attestations| => attestations[i].from)
  }

  ghost function RevealIds(disclosed: seq<Reveal>): seq<u64> {
    seq(|disclosed|, i requires 0 <= i < |disclosed| => disclosed[i].id)
  }

  ghost predicate WellFormedCertificate(raw: RawCertificate) {
    && raw.stage == STAGE_ONE
    && |raw.attestations| <= MAX_ATTESTATIONS
    && OrderedById(Froms(raw.attestations))
    && |raw.disclosed| <= MAX_COMMITTEE_REVEALS
    && OrderedById(RevealIds(raw.disclosed))
  }

  ghost function DecodedCertificate(p: Primitives, bytes: Bytes): Option<Certificate> {
    match p.certificateFromBytes(bytes)
    case None => None
    case Some(raw) =>
      if WellFormedCertificate(raw) then Some(Certificate(raw.envelope, raw.attestations, raw.disclosed)) else None
  }

  /** `Block::new` */
  function NewBlock(p: Primitives, height: u64, hash: Bytes, parent: Parent): Block {
    Block(height, hash, parent, p.newBlockCost)
  }

  function ParentOf(header: Header): Parent {
    if header.height == 1 then Genesis else Value(header.parentHash)
  }

  ghost predicate NamesHeader(p: Primitives, envelope: Envelope, header: Header) {
    && envelope.block == NewBlock(p, header.height, p.hashOf(header), ParentOf(header))
    && envelope.height == header.height
  }

  predicate SitsIn(a: Attestation, envelope: Envelope, view: u64) {
    && a.height == envelope.height && a.slot == envelope.slot && a.committee == envelope.committee
    && a.block == envelope.block && a.view == view
  }

  /** `a` is `m`'s own attestation: signed by its key, and `m` belongs to the committee of the slot. */
  predicate Attests(p: Primitives, on: Binding, m: RosterMember, a: Attestation) {
    && m.id == a.from
    && !p.isDegenerate(m.attestPk)
    && p.verifySignature(m.attestPk, p.message(on, a.height, a.slot, a.view, a.committee, a.block), a.sig)
    && m.stake != 0
    && p.verifyMembership(m.root, a.from, a.slot, a.membership)
  }

  ghost predicate AllSitInOneView(envelope: Envelope, attestations: seq<Attestation>) {
    && attestations != []
    && forall i :: 0 <= i < |attestations| ==> SitsIn(attestations[i], envelope, attestations[0].view)
  }

  ghost predicate HasAttester(p: Primitives, on: Binding, active: set<RosterMember>, a: Attestation) {
    exists m :: m in active && Attests(p, on, m, a)
  }

  ghost predicate AllAttest(p: Primitives, on: Binding, active: set<RosterMember>, attestations: seq<Attestation>) {
    forall i :: 0 <= i < |attestations| ==> HasAttester(p, on, active, attestations[i])
  }

  ghost predicate AllRevealed(p: Primitives, active: set<RosterMember>, slot: u64, disclosed: seq<Reveal>) {
    forall i :: 0 <= i < |disclosed| ==> IsRevealed(p, active, slot, disclosed[i])
  }

  ghost predicate IsRevealed(p: Primitives, active: set<RosterMember>, slot: u64, shown: Reveal) {
    exists m :: m in active && m.id == shown.id && p.verifyMembership(m.root, m.id, slot, shown.credential)
  }

  /** The members some attestation comes from. */
  ghost function Signers(active: set<RosterMember>, attestations: seq<Attestation>): set<RosterMember> {
    set m | m in active && m.id in Froms(attestations)
  }

  /** The certificate proves the header final: checked attestations by more than two thirds of the stake. */
  ghost predicate Certifies(p: Primitives, on: Binding, active: set<RosterMember>, header: Header, cert: Certificate) {
    && StakeOf(active) > 0
    && NamesHeader(p, cert.envelope, header)
    && AllCount(p, on, active, cert.envelope, cert.attestations)
    && AllRevealed(p, active, cert.envelope.slot, cert.disclosed)
    && 3 * StakeOf(Signers(active, cert.attestations)) > 2 * StakeOf(active)
  }

  ghost predicate Accepts(p: Primitives, on: Binding, headerBytes: Bytes, certificateBytes: Bytes,
                          roster: seq<RosterMember>)
  {
    && WellFormedRoster(roster)
    && p.headerFromBytes(headerBytes).Some?
    && DecodedCertificate(p, certificateBytes).Some?
    && Certifies(p, on, Active(p, roster), p.headerFromBytes(headerBytes).value,
                 DecodedCertificate(p, certificateBytes).value)
  }

  /** The whole answer of `verify_finality`; refusals carry no reason. */
  ghost function Verdict(p: Primitives, on: Binding, headerBytes: Bytes, certificateBytes: Bytes,
                         roster: seq<RosterMember>): Option<FinalizedHeader>
  {
    if Accepts(p, on, headerBytes, certificateBytes, roster) then
      var h := p.headerFromBytes(headerBytes).value;
      var active := Active(p, roster);
      var signers := Signers(active, DecodedCertificate(p, certificateBytes).value.attestations);
      ActiveStakeFits(p, roster);
      StakeMonotone(signers, active);
      Some(FinalizedHeader(h.height, p.hashOf(h), h.parentHash, h.qRoot, h.transactionRoot, h.eventRoot, h.time,
                           StakeOf(signers), StakeOf(active)))
    else None
  }

  lemma VerdictMeaning(p: Primitives, on: Binding, headerBytes: Bytes, certificateBytes: Bytes, roster: seq<RosterMember>)
    ensures Verdict(p, on, headerBytes, certificateBytes, roster).Some?
            <==> Accepts(p, on, headerBytes, certificateBytes, roster)
    ensures Verdict(p, on, headerBytes, certificateBytes, roster).Some? ==>
              && p.headerFromBytes(headerBytes).Some?
              && (var h := p.headerFromBytes(headerBytes).value;
                  var f := Verdict(p, on, headerBytes, certificateBytes, roster).value;
                  f.height == h.height && f.hash == p.hashOf(h) && f.qRoot == h.qRoot)
  {
  }

  /** A roster of at most 4096 members of 64-bit stake leaves room for the tripled sum in 128 bits. */
  lemma ActiveStakeFits(p: Primitives, roster: seq<RosterMember>)
    requires WellFormedRoster(roster)
    ensures 3 * StakeOf(Active(p, roster)) <= U128_MAX
  {
    var active := Active(p, roster);
    CountMonotone(active, SetOf(roster));
    NoDuplicatesByCount(roster);
    StakeBound(active);
    assert |active| * U64_MAX <= 4096 * U64_MAX;
  }

  // ---- the code ----

  /** `decode_certificate` from the point where its fields have been read. */
  method DecodeCertificate(p: Primitives, bytes: Bytes) returns (r: Option<Certificate>)
    ensures r == DecodedCertificate(p, bytes)
  {
    var raw: RawCertificate;
    match p.certificateFromBytes(bytes) {
      case None => return None;
      case Some(decoded) => raw := decoded;
    }
    if raw.stage != STAGE_ONE {
      return None;
    }
    if |raw.attestations| > MAX_ATTESTATIONS {
      return None;
    }
    ghost var froms := Froms(raw.attestations);
    if exists i :: 0 <= i < |raw.attestations| - 1 && raw.attestations[i].from > raw.attestations[i + 1].from {
      ghost var i :| 0 <= i < |raw.attestations| - 1 && raw.attestations[i].from > raw.attestations[i + 1].from;
      assert froms[i] > froms[i + 1];
      return None;
    }
    NeighboursOrdered(froms);
    if |raw.disclosed| > MAX_COMMITTEE_REVEALS {
      return None;
    }
    var lastReveal: Option<u64> := None;
    ghost var ids := RevealIds(raw.disclosed);
    for i := 0 to |raw.disclosed|
      invariant lastReveal == if i == 0 then None else Some(ids[i - 1])
      invariant forall k :: 0 < k < i ==> ids[k - 1] <= ids[k]
    {
      var id := raw.disclosed[i].id;
      if lastReveal.Some? && id < lastReveal.value {
        assert ids[i - 1] > ids[i];
        return None;
      }
      lastReveal := Some(id);
    }
    NeighboursOrdered(ids);
    return Some(Certificate(raw.envelope, raw.attestations, raw.disclosed));
  }

  /** A list whose neighbours are in order is in order throughout. */
  lemma {:induction false} NeighboursOrdered(ids: seq<u64>)
    requires forall k :: 0 < k < |ids| ==> ids[k - 1] <= ids[k]
    ensures OrderedById(ids)
  {
    if ids != [] {
      var front := ids[..|ids| - 1];
      NeighboursOrdered(front);
      forall i | 0 <= i < |front|
        ensures ids[i] <= ids[|ids| - 1]
      {
        assert front[i] <= front[|front| - 1] <= ids[|ids| - 1];
      }
      forall i, j | 0 <= i < j < |ids|
        ensures ids[i] <= ids[j]
      {
        if j < |front| {
          assert front[i] <= front[j];
        }
      }
    }
  }

  /** `iter().find(|m| m.id == id)` */
  function FindMember(members: seq<RosterMember>, id: u64): (r: Option<RosterMember>)
    ensures r.Some? ==> r.value in members && r.value.id == id
    ensures r.None? ==> forall m :: m in members ==> m.id != id
  {
    if members == [] then None
    else if members[0].id == id then Some(members[0])
    else FindMember(members[1..], id)
  }

  /** The duplicate and key-length checks at the head of `verify_finality`. */
  method CheckRoster(roster: seq<RosterMember>) returns (ok: bool)
    ensures ok <==> WellFormedRoster(roster)
  {
    if |roster| == 0 || |roster| > MAX_ROSTER {
      return false;
    }
    var ids: set<u64> := {};
    var keys: set<Bytes> := {};
    for i := 0 to |roster|
      invariant ids == set k | 0 <= k < i :: roster[k].id
      invariant keys == set k | 0 <= k < i :: roster[k].attestPk
      invariant forall j, k :: 0 <= j < k < i ==> roster[j].id != roster[k].id
      invariant forall j, k :: 0 <= j < k < i ==> roster[j].attestPk != roster[k].attestPk
      invariant forall j :: 0 <= j < i ==> |roster[j].attestPk| == PUBLIC_KEY_BYTES
    {
      var member := roster[i];
      if member.id in ids {
        ghost var k :| 0 <= k < i && roster[k].id == member.id;
        DuplicateBreaksRoster(roster, k, i);
        return false;
      }
      ids := ids + {member.id};
      if |member.attestPk| != PUBLIC_KEY_BYTES {
        assert member in roster;
        return false;
      }
      if member.attestPk in keys {
        ghost var k :| 0 <= k < i && roster[k].attestPk == member.attestPk;
        DuplicateBreaksRoster(roster, k, i);
        return false;
      }
      keys := keys + {member.attestPk};
    }
    DistinctIsWellFormed(roster);
    return true;
  }

  lemma DuplicateBreaksRoster(roster: seq<RosterMember>, k: nat, i: nat)
    requires k < i < |roster|
    requires roster[k].id == roster[i].id || roster[k].attestPk == roster[i].attestPk
    ensures !WellFormedRoster(roster)
  {
    assert roster[k] in roster && roster[i] in roster;
    if NoDuplicates(roster) && UniqueIds(SetOf(roster)) {
      assert roster[k] != roster[i];
    }
  }

  lemma DistinctIsWellFormed(roster: seq<RosterMember>)
    requires 0 < |roster| <= MAX_ROSTER
    requires forall j, k :: 0 <= j < k < |roster| ==> roster[j].id != roster[k].id
    requires forall j, k :: 0 <= j < k < |roster| ==> roster[j].attestPk != roster[k].attestPk
    requires forall j :: 0 <= j < |roster| ==> |roster[j].attestPk| == PUBLIC_KEY_BYTES
    ensures WellFormedRoster(roster)
  {
    assert NoDuplicates(roster);
    forall a, b | a in roster && b in roster && (a.id == b.id || a.attestPk == b.attestPk)
      ensures a == b
    {
      var j :| 0 <= j < |roster| && roster[j] == a;
      var k :| 0 <= k < |roster| && roster[k] == b;
      assert j == k;
    }
  }

  /** `verify_finality` */
  method VerifyFinality(p: Primitives, on: Binding, headerBytes: Bytes, certificateBytes: Bytes,
                        roster: seq<RosterMember>) returns (r: Option<FinalizedHeader>)
    ensures r == Verdict(p, on, headerBytes, certificateBytes, roster)
  {
    var rosterOk := CheckRoster(roster);
    if !rosterOk {
      return None;
    }
    var active := ActiveSet(roster, p.minStake, p.maxActive);
    ghost var members := Active(p, roster);
    ActiveStakeFits(p, roster);
    var total := SaturatingTotal(active);
    TotalIsExact(active);
    if total == 0 {
      return None;
    }
    var header: Header;
    match p.headerFromBytes(headerBytes) {
      case None => return None;
      case Some(h) => header := h;
    }
    var hash := p.hashOf(header);
    var certificate := DecodeCertificate(p, certificateBytes);
    if certificate.None? {
      return None;
    }
    var Certificate(envelope, attestations, disclosed) := certificate.value;
    var parent := if header.height == 1 then Genesis else Value(header.parentHash);
    if envelope.block != NewBlock(p, header.height, hash, parent) || envelope.height != header.height {
      return None;
    }
    if |attestations| == 0 {
      return None;
    }
    var signed := CountSigned(p, on, envelope, attestations, active, members);
    if signed.None? {
      return None;
    }
    var revealed := CheckReveals(p, envelope.slot, disclosed, active, members);
    if !revealed {
      return None;
    }
    StakeMonotone(Signers(members, attestations), members);
    if SaturatingMul128(signed.value, 3) <= SaturatingMul128(total, 2) {
      return None;
    }
    return Some(FinalizedHeader(header.height, hash, header.parentHash, header.qRoot, header.transactionRoot,
                                header.eventRoot, header.time, signed.value, total));
  }

  /** The attestation loop of `verify_finality`: every attester is counted once. */
  method CountSigned(p: Primitives, on: Binding, envelope: Envelope, attestations: seq<Attestation>,
                     active: seq<RosterMember>, ghost members: set<RosterMember>) returns (r: Option<u128>)
    requires members == SetOf(active) && UniqueIds(members) && 3 * StakeOf(members) <= U128_MAX
    requires attestations != []
    ensures r.Some? <==> AllCount(p, on, members, envelope, attestations)
    ensures r.Some? ==> r.value == StakeOf(Signers(members, attestations))
  {
    hide PrefixCounts, AllCount, HasAttester, Froms, Signers, StakeOf, UniqueIds;
    NoneCounted(p, on, members, envelope, attestations);
    var firstView := attestations[0].view;
    var signed: u128 := 0;
    var seen: set<u64> := {};
    for i := 0 to |attestations|
      invariant PrefixCounts(p, on, members, envelope, attestations, i)
      invariant seen == SetOf(Froms(attestations)[..i])
      invariant signed == StakeOf(Signers(members, attestations[..i]))
    {
      var attestation := attestations[i];
      PrefixStep(p, on, members, envelope, attestations, i);
      if attestation.height != envelope.height || attestation.slot != envelope.slot
         || attestation.committee != envelope.committee || attestation.block != envelope.block
         || attestation.view != firstView {
        return None;
      }
      if attestation.from in seen {
        return None;
      }
      seen := seen + {attestation.from};
      var attester := AttesterOf(p, on, attestation, active, members);
      if attester.None? {
        return None;
      }
      OneMoreSigner(members, attestations, i, attester.value);
      signed := SaturatingAdd128(signed, attester.value.stake);
    }
    AllCounted(p, on, members, envelope, attestations);
    return Some(signed);
  }

  ghost predicate AllCount(p: Primitives, on: Binding, members: set<RosterMember>, envelope: Envelope,
                           attestations: seq<Attestation>)
  {
    && AllSitInOneView(envelope, attestations)
    && NoDuplicates(Froms(attestations))
    && AllAttest(p, on, members, attestations)
  }

  ghost predicate PrefixCounts(p: Primitives, on: Binding, members: set<RosterMember>, envelope: Envelope,
                               attestations: seq<Attestation>, i: nat)
    requires i <= |attestations|
  {
    && (forall k :: 0 <= k < i ==> SitsIn(attestations[k], envelope, attestations[0].view))
    && (forall k :: 0 <= k < i ==> HasAttester(p, on, members, attestations[k]))
    && NoDuplicates(Froms(attestations)[..i])
  }

  lemma NoneCounted(p: Primitives, on: Binding, members: set<RosterMember>, envelope: Envelope,
                    attestations: seq<Attestation>)
    requires attestations != []
    ensures PrefixCounts(p, on, members, envelope, attestations, 0)
    ensures |Froms(attestations)| == |attestations| && SetOf(Froms(attestations)[..0]) == {}
    ensures StakeOf(Signers(members, attestations[..0])) == 0
  {
    assert Signers(members, attestations[..0]) == {};
  }

  lemma AllCounted(p: Primitives, on: Binding, members: set<RosterMember>, envelope: Envelope,
                   attestations: seq<Attestation>)
    requires attestations != [] && PrefixCounts(p, on, members, envelope, attestations, |attestations|)
    ensures AllCount(p, on, members, envelope, attestations) && attestations[..|attestations|] == attestations
  {
    assert Froms(attestations)[..|attestations|] == Froms(attestations);
  }

  lemma PrefixStep(p: Primitives, on: Binding, members: set<RosterMember>, envelope: Envelope,
                   attestations: seq<Attestation>, i: nat)
    requires i < |attestations| && PrefixCounts(p, on, members, envelope, attestations, i)
    ensures var a := attestations[i];
            var before := SetOf(Froms(attestations)[..i]);
            && SetOf(Froms(attestations)[..i + 1]) == before + {a.from}
            && (if SitsIn(a, envelope, attestations[0].view) && a.from !in before && HasAttester(p, on, members, a)
                then PrefixCounts(p, on, members, envelope, attestations, i + 1)
                else !AllCount(p, on, members, envelope, attestations))
  {
    var froms := Froms(attestations);
    assert froms[..i + 1] == froms[..i] + [attestations[i].from];
    if attestations[i].from in froms[..i] {
      var k :| 0 <= k < i && froms[..i][k] == attestations[i].from;
      assert froms[k] == froms[i];
    }
  }

  /** The lookup and the three checks on one attester. */
  method AttesterOf(p: Primitives, on: Binding, attestation: Attestation, active: seq<RosterMember>,
                    ghost members: set<RosterMember>) returns (r: Option<RosterMember>)
    requires members == SetOf(active) && UniqueIds(members)
    ensures r.Some? <==> HasAttester(p, on, members, attestation)
    ensures r.Some? ==> r.value in members && r.value.id == attestation.from
  {
    var found := FindMember(active, attestation.from);
    if found.None? {
      return None;
    }
    var member := found.value;
    OnlyItsMember(p, on, members, member, attestation);
    if p.isDegenerate(member.attestPk) {
      return None;
    }
    var message := p.message(on, attestation.height, attestation.slot, attestation.view,
                             attestation.committee, attestation.block);
    if !p.verifySignature(member.attestPk, message, attestation.sig) {
      return None;
    }
    if member.stake == 0
       || !p.verifyMembership(member.root, attestation.from, attestation.slot, attestation.membership) {
      return None;
    }
    return Some(member);
  }

  lemma OnlyItsMember(p: Primitives, on: Binding, members: set<RosterMember>, member: RosterMember, a: Attestation)
    requires UniqueIds(members) && member in members && member.id == a.from
    ensures HasAttester(p, on, members, a) <==> Attests(p, on, member, a)
  {
  }

  lemma OneMoreSigner(members: set<RosterMember>, attestations: seq<Attestation>, i: nat, member: RosterMember)
    requires UniqueIds(members) && member in members
    requires i < |attestations| && member.id == attestations[i].from
    requires attestations[i].from !in Froms(attestations)[..i]
    ensures StakeOf(Signers(members, attestations[..i + 1]))
            == StakeOf(Signers(members, attestations[..i])) + member.stake
            <= StakeOf(members)
  {
    var before, after := attestations[..i], attestations[..i + 1];
    assert Froms(before) == Froms(attestations)[..i];
    assert Froms(after) == Froms(before) + [member.id];
    assert Signers(members, after) == Signers(members, before) + {member};
    StakeWithout(Signers(members, after), member);
    assert Signers(members, after) - {member} == Signers(members, before);
    StakeMonotone(Signers(members, after), members);
  }

  /** The reveal loop of `verify_finality`. */
  method CheckReveals(p: Primitives, slot: u64, disclosed: seq<Reveal>, active: seq<RosterMember>,
                      ghost members: set<RosterMember>) returns (ok: bool)
    requires members == SetOf(active) && UniqueIds(members)
    ensures ok <==> AllRevealed(p, members, slot, disclosed)
  {
    for i := 0 to |disclosed|
      invariant AllRevealed(p, members, slot, disclosed[..i])
    {
      var found := FindMember(active, disclosed[i].id);
      if found.None? || !p.verifyMembership(found.value.root, disclosed[i].id, slot, disclosed[i].credential) {
        assert !IsRevealed(p, members, slot, disclosed[i]);
        return false;
      }
      assert found.value in members;
      assert disclosed[..i + 1] == disclosed[..i] + [disclosed[i]];
    }
    assert disclosed[..|disclosed|] == disclosed;
    return true;
  }

  // ---- what acceptance gives ----

  /** The verdict, with both stake sums, does not depend on the order the roster is listed in. */
  lemma VerdictIgnoresOrder(p: Primitives, on: Binding, headerBytes: Bytes, certificateBytes: Bytes,
                            roster: seq<RosterMember>, shuffled: seq<RosterMember>)
    requires multiset(roster) == multiset(shuffled)
    ensures Verdict(p, on, headerBytes, certificateBytes, roster)
            == Verdict(p, on, headerBytes, certificateBytes, shuffled)
  {
    SameElements(roster, shuffled);
    assert forall m :: m in roster <==> m in SetOf(roster);
    assert forall m :: m in shuffled <==> m in SetOf(shuffled);
    assert WellFormedRoster(roster) <==> WellFormedRoster(shuffled);
  }

  /** The active members that validly attest in both certificates. */
  ghost function DoubleAttesters(p: Primitives, on: Binding, roster: seq<RosterMember>,
                                 c1: Certificate, c2: Certificate): set<RosterMember>
  {
    set m | m in Active(p, roster)
            && (exists i :: 0 <= i < |c1.attestations| && Attests(p, on, m, c1.attestations[i]))
            && (exists i :: 0 <= i < |c2.attestations| && Attests(p, on, m, c2.attestations[i]))
  }

  lemma SignersAttest(p: Primitives, on: Binding, members: set<RosterMember>, attestations: seq<Attestation>,
                      m: RosterMember)
    requires UniqueIds(members) && AllAttest(p, on, members, attestations) && m in Signers(members, attestations)
    ensures exists i :: 0 <= i < |attestations| && Attests(p, on, m, attestations[i])
  {
    var i :| 0 <= i < |attestations| && Froms(attestations)[i] == m.id;
    assert HasAttester(p, on, members, attestations[i]);
    var n :| n in members && Attests(p, on, n, attestations[i]);
    assert n == m;
  }

  lemma SharedSignersAttestTwice(p: Primitives, on: Binding, roster: seq<RosterMember>, c1: Certificate, c2: Certificate)
    requires UniqueIds(Active(p, roster))
    requires AllAttest(p, on, Active(p, roster), c1.attestations)
    requires AllAttest(p, on, Active(p, roster), c2.attestations)
    ensures Signers(Active(p, roster), c1.attestations) * Signers(Active(p, roster), c2.attestations)
            <= DoubleAttesters(p, on, roster, c1, c2)
  {
    hide Active, Signers, AllAttest, Attests;
    var active := Active(p, roster);
    forall m | m in Signers(active, c1.attestations) * Signers(active, c2.attestations)
      ensures m in DoubleAttesters(p, on, roster, c1, c2)
    {
      SignersAttest(p, on, active, c1.attestations, m);
      SignersAttest(p, on, active, c2.attestations, m);
      SignersAreMembers(active, c1.attestations);
    }
  }

  lemma SignersAreMembers(members: set<RosterMember>, attestations: seq<Attestation>)
    ensures Signers(members, attestations) <= members
  {
  }

  lemma AcceptedQuorum(p: Primitives, on: Binding, roster: seq<RosterMember>, header: Bytes, cert: Bytes)
    requires Accepts(p, on, header, cert, roster)
    ensures var active, attestations := Active(p, roster), DecodedCertificate(p, cert).value.attestations;
            && UniqueIds(active)
            && AllAttest(p, on, active, attestations)
            && 3 * StakeOf(Signers(active, attestations)) > 2 * StakeOf(active)
  {
    hide AllAttest, StakeOf, Signers, AllRevealed, AllSitInOneView, NamesHeader;
  }

  /** Two accepted certificates over one roster share attesters with more than a third of the stake. */
  lemma AccountableQuorum(p: Primitives, on: Binding, roster: seq<RosterMember>,
                          header1: Bytes, cert1: Bytes, header2: Bytes, cert2: Bytes)
    requires Accepts(p, on, header1, cert1, roster)
    requires Accepts(p, on, header2, cert2, roster)
    ensures 3 * StakeOf(DoubleAttesters(p, on, roster, DecodedCertificate(p, cert1).value,
                                        DecodedCertificate(p, cert2).value))
            > StakeOf(Active(p, roster))
  {
    AcceptedQuorum(p, on, roster, header1, cert1);
    AcceptedQuorum(p, on, roster, header2, cert2);
    hide Accepts, Active, Signers, DoubleAttesters, AllAttest, StakeOf, UniqueIds;
    var active := Active(p, roster);
    var c1, c2 := DecodedCertificate(p, cert1).value, DecodedCertificate(p, cert2).value;
    var s1, s2 := Signers(active, c1.attestations), Signers(active, c2.attestations);
    SignersAreMembers(active, c1.attestations);
    SignersAreMembers(active, c2.attestations);
    QuorumOverlap(active, s1, s2);
    SharedSignersAttestTwice(p, on, roster, c1, c2);
    StakeMonotone(s1 * s2, DoubleAttesters(p, on, roster, c1, c2));
  }

  /** Every attestation in an accepted certificate is on the very block the header hashes to. */
  lemma AttestationsNameTheBlock(p: Primitives, on: Binding, roster: seq<RosterMember>, header: Bytes, cert: Bytes)
    requires Accepts(p, on, header, cert, roster)
    ensures var h := p.headerFromBytes(header).value;
            forall a :: a in DecodedCertificate(p, cert).value.attestations ==>
                          a.height == h.height && a.block == NewBlock(p, h.height, p.hashOf(h), ParentOf(h))
  {
  }

  // ---- what is accepted, over the fields alone ----

  /** This member's valid vote for the block of the envelope. */
  ghost predicate VotesFor(p: Primitives, on: Binding, m: RosterMember, e: Envelope, view: u64, a: Attestation) {
    && a.from == m.id && a.height == e.height && a.slot == e.slot && a.view == view
    && a.committee == e.committee && a.block == e.block
    && m.stake > 0 && !p.isDegenerate(m.attestPk)
    && p.verifySignature(m.attestPk, p.message(on, e.height, e.slot, view, e.committee, e.block), a.sig)
    && p.verifyMembership(m.root, m.id, e.slot, a.membership)
  }

  ghost predicate RosterIsSound(roster: seq<RosterMember>) {
    && 0 < |roster| <= 4096
    && (forall i, j :: 0 <= i < j < |roster| ==> roster[i].id != roster[j].id && roster[i].attestPk != roster[j].attestPk)
    && forall m :: m in roster ==> |m.attestPk| == 1952
  }

  /** The certificate, as read from its bytes, carries the block with these members' votes. */
  ghost predicate Carries(p: Primitives, on: Binding, active: set<RosterMember>, h: Header, c: RawCertificate) {
    && c.stage == 1 && 0 < |c.attestations| <= 4096 && |c.disclosed| <= 4096
    && c.envelope.height == h.height
    && c.envelope.block
       == Block(h.height, p.hashOf(h), if h.height == 1 then Genesis else Value(h.parentHash), p.newBlockCost)
    && AllVote(p, on, active, c) && AllReveal(p, active, c)
  }

  /** Every attestation is a vote, in one view, and no validator has two. */
  ghost predicate AllVote(p: Primitives, on: Binding, active: set<RosterMember>, c: RawCertificate) {
    && c.attestations != []
    && InOrder(c)
    && forall i :: 0 <= i < |c.attestations| ==>
         HasVote(p, on, active, c.envelope, c.attestations[0].view, c.attestations[i])
  }

  ghost predicate InOrder(c: RawCertificate) {
    forall i, j :: 0 <= i < j < |c.attestations| ==> c.attestations[i].from < c.attestations[j].from
  }

  ghost predicate HasVote(p: Primitives, on: Binding, active: set<RosterMember>, e: Envelope, view: u64, a: Attestation) {
    exists m :: m in active && VotesFor(p, on, m, e, view, a)
  }

  /** An active member's proved place in the committee of that slot. */
  ghost predicate HasPlace(p: Primitives, active: set<RosterMember>, slot: u64, r: Reveal) {
    exists m :: m in active && m.id == r.id && p.verifyMembership(m.root, m.id, slot, r.credential)
  }

  ghost predicate AllReveal(p: Primitives, active: set<RosterMember>, c: RawCertificate) {
    && (forall i, j :: 0 <= i < j < |c.disclosed| ==> c.disclosed[i].id <= c.disclosed[j].id)
    && forall i :: 0 <= i < |c.disclosed| ==> HasPlace(p, active, c.envelope.slot, c.disclosed[i])
  }

  ghost function Voters(active: set<RosterMember>, c: RawCertificate): set<RosterMember> {
    set m | m in active && exists i :: 0 <= i < |c.attestations| && c.attestations[i].from == m.id
  }

  /** The answer repeats the header's fields and the two sums, and the sums decide. */
  ghost predicate Finalizes(p: Primitives, on: Binding, headerBytes: Bytes, certificateBytes: Bytes,
                            roster: seq<RosterMember>, active: set<RosterMember>, f: FinalizedHeader)
  {
    && RosterIsSound(roster) && IsTop(active, roster, p.minStake, p.maxActive)
    && p.headerFromBytes(headerBytes).Some? && p.certificateFromBytes(certificateBytes).Some?
    && (var h, c := p.headerFromBytes(headerBytes).value, p.certificateFromBytes(certificateBytes).value;
        && Carries(p, on, active, h, c)
        && f.signedStake == StakeOf(Voters(active, c)) && f.totalStake == StakeOf(active)
        && 3 * f.signedStake > 2 * f.totalStake
        && f.height == h.height && f.hash == p.hashOf(h) && f.parentHash == h.parentHash && f.qRoot == h.qRoot
        && f.transactionRoot == h.transactionRoot && f.eventRoot == h.eventRoot && f.time == h.time)
  }

  lemma RosterIsWellFormed(roster: seq<RosterMember>)
    ensures RosterIsSound(roster) <==> WellFormedRoster(roster)
  {
    if RosterIsSound(roster) {
      DistinctIsWellFormed(roster);
    }
    if WellFormedRoster(roster) {
      forall i, j | 0 <= i < j < |roster|
        ensures roster[i].id != roster[j].id && roster[i].attestPk != roster[j].attestPk
      {
        assert roster[i] != roster[j];
        assert roster[i] in SetOf(roster) && roster[j] in SetOf(roster);
      }
    }
  }

  lemma VoteIsAttestation(p: Primitives, on: Binding, members: set<RosterMember>, e: Envelope, view: u64, a: Attestation)
    ensures HasVote(p, on, members, e, view, a) <==> SitsIn(a, e, view) && HasAttester(p, on, members, a)
  {
    if SitsIn(a, e, view) && HasAttester(p, on, members, a) {
      var m :| m in members && Attests(p, on, m, a);
      assert VotesFor(p, on, m, e, view, a);
    }
    if m :| m in members && VotesFor(p, on, m, e, view, a) {
      assert Attests(p, on, m, a);
    }
  }

  lemma VotesAreCounted(p: Primitives, on: Binding, members: set<RosterMember>, c: RawCertificate)
    ensures AllVote(p, on, members, c) <==>
              OrderedById(Froms(c.attestations)) && AllCount(p, on, members, c.envelope, c.attestations)
  {
    FromsIncrease(c);
    forall i | 0 <= i < |c.attestations|
      ensures HasVote(p, on, members, c.envelope, c.attestations[0].view, c.attestations[i]) <==>
                SitsIn(c.attestations[i], c.envelope, c.attestations[0].view)
                && HasAttester(p, on, members, c.attestations[i])
    {
      VoteIsAttestation(p, on, members, c.envelope, c.attestations[0].view, c.attestations[i]);
    }
    hide HasVote, HasAttester, SitsIn, OrderedById, NoDuplicates, InOrder;
  }

  lemma FromsIncrease(c: RawCertificate)
    ensures InOrder(c) <==> OrderedById(Froms(c.attestations)) && NoDuplicates(Froms(c.attestations))
  {
    var froms := Froms(c.attestations);
    assert forall i :: 0 <= i < |c.attestations| ==> froms[i] == c.attestations[i].from;
    if OrderedById(froms) && NoDuplicates(froms) {
      forall i, j | 0 <= i < j < |c.attestations|
        ensures c.attestations[i].from < c.attestations[j].from
      {
        assert froms[i] <= froms[j] && froms[i] != froms[j];
      }
    }
    if InOrder(c) {
      forall i, j | 0 <= i < j < |froms|
        ensures froms[i] < froms[j]
      {
        assert c.attestations[i].from < c.attestations[j].from;
      }
    }
  }

  lemma RevealsAreRevealed(p: Primitives, active: set<RosterMember>, c: RawCertificate)
    ensures AllReveal(p, active, c) <==>
              OrderedById(RevealIds(c.disclosed)) && AllRevealed(p, active, c.envelope.slot, c.disclosed)
  {
    var ids := RevealIds(c.disclosed);
    assert forall i :: 0 <= i < |c.disclosed| ==> ids[i] == c.disclosed[i].id;
    assert forall r :: HasPlace(p, active, c.envelope.slot, r) <==> IsRevealed(p, active, c.envelope.slot, r);
    hide HasPlace, IsRevealed;
    if AllReveal(p, active, c) {
      forall i, j | 0 <= i < j < |ids|
        ensures ids[i] <= ids[j]
      {
        assert c.disclosed[i].id <= c.disclosed[j].id;
      }
    }
    if OrderedById(ids) && AllRevealed(p, active, c.envelope.slot, c.disclosed) {
      forall i, j | 0 <= i < j < |c.disclosed|
        ensures c.disclosed[i].id <= c.disclosed[j].id
      {
        assert ids[i] <= ids[j];
      }
    }
  }

  lemma CarriesIsCertified(p: Primitives, on: Binding, active: set<RosterMember>, h: Header, c: RawCertificate)
    ensures Carries(p, on, active, h, c) <==>
              && WellFormedCertificate(c) && NamesHeader(p, c.envelope, h)
              && AllCount(p, on, active, c.envelope, c.attestations)
              && AllRevealed(p, active, c.envelope.slot, c.disclosed)
  {
    VotesAreCounted(p, on, active, c);
    RevealsAreRevealed(p, active, c);
    SomeoneCounts(p, on, active, c);
    hide AllVote, AllReveal, AllCount, AllRevealed, OrderedById;
  }

  lemma SomeoneCounts(p: Primitives, on: Binding, active: set<RosterMember>, c: RawCertificate)
    ensures AllCount(p, on, active, c.envelope, c.attestations) ==> c.attestations != []
  {
  }

  lemma VotersAreSigners(active: set<RosterMember>, c: RawCertificate)
    ensures Voters(active, c) == Signers(active, c.attestations)
  {
    var froms := Froms(c.attestations);
    forall m | m in active
      ensures m.id in froms <==> exists i :: 0 <= i < |c.attestations| && c.attestations[i].from == m.id
    {
      if i :| 0 <= i < |c.attestations| && c.attestations[i].from == m.id {
        assert froms[i] == m.id;
      }
    }
  }

  /**
   * The finality check is exact: a header is accepted with an answer if and only if the roster is
   * sound, the certificate carries the header's block with the votes of the active members, these
   * hold more than two thirds of the active stake, and the answer repeats the header and the sums.
   */
  lemma FinalityIsExact(p: Primitives, on: Binding, headerBytes: Bytes, certificateBytes: Bytes,
                        roster: seq<RosterMember>, f: FinalizedHeader)
    ensures Verdict(p, on, headerBytes, certificateBytes, roster) == Some(f) <==>
              exists active :: Finalizes(p, on, headerBytes, certificateBytes, roster, active, f)
  {
    RosterIsWellFormed(roster);
    hide RosterIsSound, Carries, IsTop, WellFormedRoster, Voters, StakeOf;
    if Verdict(p, on, headerBytes, certificateBytes, roster) == Some(f) {
      AcceptedFinalizes(p, on, headerBytes, certificateBytes, roster, f);
    }
    if active :| Finalizes(p, on, headerBytes, certificateBytes, roster, active, f) {
      RosterHasIds(roster);
      TopIsActive(active, roster, p.minStake, p.maxActive);
      FinalizedIsAccepted(p, on, headerBytes, certificateBytes, roster, f);
    }
  }

  lemma RosterHasIds(roster: seq<RosterMember>)
    requires WellFormedRoster(roster)
    ensures NoDuplicates(roster) && UniqueIds(SetOf(roster))
  {
  }

  lemma AcceptedFinalizes(p: Primitives, on: Binding, headerBytes: Bytes, certificateBytes: Bytes,
                          roster: seq<RosterMember>, f: FinalizedHeader)
    requires Verdict(p, on, headerBytes, certificateBytes, roster) == Some(f)
    ensures Finalizes(p, on, headerBytes, certificateBytes, roster, Active(p, roster), f)
  {
    var active := Active(p, roster);
    var h, c := p.headerFromBytes(headerBytes).value, p.certificateFromBytes(certificateBytes).value;
    RosterIsWellFormed(roster);
    RosterHasIds(roster);
    ActiveIsTop(roster, p.minStake, p.maxActive);
    CarriesIsCertified(p, on, active, h, c);
    VotersAreSigners(active, c);
    hide Carries, IsTop, WellFormedRoster, RosterIsSound, Active, Voters, Signers, StakeOf, AllCount, AllRevealed;
  }

  lemma FinalizedIsAccepted(p: Primitives, on: Binding, headerBytes: Bytes, certificateBytes: Bytes,
                            roster: seq<RosterMember>, f: FinalizedHeader)
    requires Finalizes(p, on, headerBytes, certificateBytes, roster, Active(p, roster), f)
    ensures Verdict(p, on, headerBytes, certificateBytes, roster) == Some(f)
  {
    hide Carries, IsTop, RosterIsSound, Voters, Signers, StakeOf, Active, Accepts;
    var c := p.certificateFromBytes(certificateBytes).value;
    CarriedIsAccepted(p, on, headerBytes, certificateBytes, roster);
    VotersAreSigners(Active(p, roster), c);
  }

  lemma CarriedIsAccepted(p: Primitives, on: Binding, headerBytes: Bytes, certificateBytes: Bytes,
                          roster: seq<RosterMember>)
    requires RosterIsSound(roster) && p.headerFromBytes(headerBytes).Some? && p.certificateFromBytes(certificateBytes).Some?
    requires Carries(p, on, Active(p, roster), p.headerFromBytes(headerBytes).value,
                     p.certificateFromBytes(certificateBytes).value)
    requires 3 * StakeOf(Voters(Active(p, roster), p.certificateFromBytes(certificateBytes).value))
             > 2 * StakeOf(Active(p, roster))
    ensures Accepts(p, on, headerBytes, certificateBytes, roster)
    ensures DecodedCertificate(p, certificateBytes).value.attestations
            == p.certificateFromBytes(certificateBytes).value.attestations
  {
    hide Carries, RosterIsSound, WellFormedRoster, Active, Voters, StakeOf, Certifies, WellFormedCertificate;
    RosterIsWellFormed(roster);
    CarriedIsCertified(p, on, Active(p, roster), p.headerFromBytes(headerBytes).value,
                       p.certificateFromBytes(certificateBytes).value);
  }

  lemma CarriedIsCertified(p: Primitives, on: Binding, active: set<RosterMember>, h: Header, c: RawCertificate)
    requires Carries(p, on, active, h, c) && 3 * StakeOf(Voters(active, c)) > 2 * StakeOf(active)
    ensures WellFormedCertificate(c)
    ensures Certifies(p, on, active, h, Certificate(c.envelope, c.attestations, c.disclosed))
  {
    CarriesIsCertified(p, on, active, h, c);
    VotersAreSigners(active, c);
    StakeIsThere(active, c);
    hide Carries, Voters, Signers, StakeOf, AllCount, AllRevealed, NamesHeader, WellFormedCertificate;
  }

  lemma StakeIsThere(active: set<RosterMember>, c: RawCertificate)
    requires 3 * StakeOf(Voters(active, c)) > 2 * StakeOf(active)
    ensures StakeOf(active) > 0
  {
    StakeMonotone(Voters(active, c), active);
  }
}
