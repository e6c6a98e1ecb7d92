/** The assumptions of light-client agreement: something has to be assumed, and it can all hold at once. */
module Assumptions {
  import opened Machine
  import opened Stake
  import opened Finality
  import opened LightClient

  // ---- one validator ----

  /** A roster of one member is final with that member's one valid attestation. */
  lemma OneValidatorFinalizes(p: Primitives, on: Binding, header: Bytes, certificate: Bytes, m: RosterMember,
                              h: Header, a: Attestation)
    requires p.minStake == 0 && p.maxActive == 1 && m.stake == 1 && |m.attestPk| == PUBLIC_KEY_BYTES
    requires p.headerFromBytes(header) == Some(h)
    requires p.certificateFromBytes(certificate)
             == Some(RawCertificate(Envelope(a.height, a.slot, a.block, a.committee), STAGE_ONE, [a], []))
    requires a.height == h.height && a.block == NewBlock(p, h.height, p.hashOf(h), ParentOf(h))
    requires Attests(p, on, m, a)
    ensures Accepts(p, on, header, certificate, [m])
    ensures Active(p, [m]) == {m} && StakeOf(Active(p, [m])) == 1
  {
    assert SetOf([m]) == {m};
    assert Ahead({m}, m) == {};
    assert Active(p, [m]) == {m};
    StakeWithout({m}, m);
    assert {m} - {m} == {};
    assert Froms([a]) == [a.from];
    assert Signers({m}, [a]) == {m};
    assert HasAttester(p, on, {m}, a);
  }

  const KEY: Bytes := seq(PUBLIC_KEY_BYTES, _ => 0)
  const SOLE := RosterMember(0, 1, KEY, Root([], 0))
  const OTHER := RosterMember(0, 2, KEY, Root([], 0))

  function AttestationOn(block: Block): Attestation {
    Attestation(0, block.height, 0, 0, [], block, Credential(0, [], []), [])
  }

  function CertificateFor(block: Block): RawCertificate {
    RawCertificate(Envelope(block.height, 0, block, []), STAGE_ONE, [AttestationOn(block)], [])
  }

  // ---- something has to be assumed ----

  /** Primitives that accept every signature and proof and commit to nothing. */
  ghost function Gullible(): Primitives {
    Primitives(
      bytes => Some(Header(0, [], [], [], [], 0, [])),
      header => [],
      bytes => Some(CertificateFor(Block(0, [], Value([]), 0))),
      (on, height, slot, view, committee, block) => [],
      key => false,
      (key, message, sig) => true,
      (root, id, slot, credential) => true,
      (epoch, members) => [],
      epoch => [],
      bytes => Some(StateProof(Some([]), [])),
      (key, proof, root) => true,
      0, 0, 1)
  }

  /** With primitives that bind nothing, two gateways do lead two walks apart: some assumption is needed. */
  lemma WalksCanPart() returns (anchor: VerifiedRoster, e1: Evidence, e2: Evidence)
    ensures Walk(Gullible(), [], 1, anchor, [e1]).Some? && Walk(Gullible(), [], 1, anchor, [e2]).Some?
    ensures e1.chainId == e2.chainId
    ensures Walk(Gullible(), [], 1, anchor, [e1]) != Walk(Gullible(), [], 1, anchor, [e2])
    ensures FaultAt(Gullible(), [], 1, anchor, [e1], [e2], 0)
  {
    anchor := VerifiedRoster(0, [SOLE]);
    e1, e2 := Evidence(0, [], [], [SOLE], []), Evidence(0, [], [], [OTHER], []);
    OneValidatorFinalizes(Gullible(), Binding(0, []), [], [], SOLE, Header(0, [], [], [], [], 0, []),
                          AttestationOn(Block(0, [], Value([]), 0)));
    hide Accepts;
    var none: seq<Evidence> := [];
    assert Walk(Gullible(), [], 1, anchor, none) == Some(anchor);
    assert [e1][..0] == none && [e2][..0] == none;
    assert Links(Gullible(), [], 1, anchor, e1) && Links(Gullible(), [], 1, anchor, e2);
    assert e1.members[0] != e2.members[0];
    assert CommitmentCollision(Gullible(), 1, e1, e2);
  }

  // ---- numbers, texts and rosters written so that nothing is lost ----

  /** A number as so many ones, and a zero. */
  function Tally(n: nat): Bytes {
    seq(n, _ => 1) + [0]
  }

  lemma TallyCuts(a: nat, x: Bytes, b: nat, y: Bytes)
    requires Tally(a) + x == Tally(b) + y
    ensures a == b && x == y
  {
    var s, t := Tally(a) + x, Tally(b) + y;
    assert forall i :: 0 <= i < a ==> s[i] == 1;
    assert forall i :: 0 <= i < b ==> t[i] == 1;
    assert s[a] == 0 && t[b] == 0;
    assert a == b;
    assert s[a + 1..] == x && t[b + 1..] == y;
  }

  function Wrapped(b: Bytes): Bytes {
    Tally(|b|) + b
  }

  lemma WrappedCuts(b: Bytes, x: Bytes, c: Bytes, y: Bytes)
    requires Wrapped(b) + x == Wrapped(c) + y
    ensures b == c && x == y
  {
    hide Tally;
    assert Tally(|b|) + (b + x) == Wrapped(b) + x && Tally(|c|) + (c + y) == Wrapped(c) + y;
    TallyCuts(|b|, b + x, |c|, c + y);
    assert (b + x)[..|b|] == b && (c + y)[..|c|] == c;
    assert (b + x)[|b|..] == x && (c + y)[|c|..] == y;
  }

  function HeaderCode(h: Header): Bytes {
    Tally(h.height)
    + (Wrapped(h.parentHash)
       + (Wrapped(h.qRoot)
          + (Wrapped(h.transactionRoot) + (Wrapped(h.eventRoot) + (Tally(h.time) + h.rest)))))
  }

  lemma HeaderCodeDetermines(g: Header, h: Header)
    requires HeaderCode(g) == HeaderCode(h)
    ensures g == h
  {
    hide Tally, Wrapped;
    var g5, h5 := Tally(g.time) + g.rest, Tally(h.time) + h.rest;
    var g4, h4 := Wrapped(g.eventRoot) + g5, Wrapped(h.eventRoot) + h5;
    var g3, h3 := Wrapped(g.transactionRoot) + g4, Wrapped(h.transactionRoot) + h4;
    var g2, h2 := Wrapped(g.qRoot) + g3, Wrapped(h.qRoot) + h3;
    TallyCuts(g.height, Wrapped(g.parentHash) + g2, h.height, Wrapped(h.parentHash) + h2);
    WrappedCuts(g.parentHash, g2, h.parentHash, h2);
    WrappedCuts(g.qRoot, g3, h.qRoot, h3);
    WrappedCuts(g.transactionRoot, g4, h.transactionRoot, h4);
    WrappedCuts(g.eventRoot, g5, h.eventRoot, h5);
    TallyCuts(g.time, g.rest, h.time, h.rest);
  }

  /** A member's code, and whatever comes after it. */
  function MemberCode(m: RosterMember, rest: Bytes): Bytes {
    Tally(m.id) + (Tally(m.stake) + (Wrapped(m.attestPk) + (Wrapped(m.root.digest) + (Tally(m.root.slots) + rest))))
  }

  lemma MemberCodeCuts(m: RosterMember, x: Bytes, n: RosterMember, y: Bytes)
    requires MemberCode(m, x) == MemberCode(n, y)
    ensures m == n && x == y
  {
    hide Tally, Wrapped;
    var m4, n4 := Tally(m.root.slots) + x, Tally(n.root.slots) + y;
    var m3, n3 := Wrapped(m.root.digest) + m4, Wrapped(n.root.digest) + n4;
    var m2, n2 := Wrapped(m.attestPk) + m3, Wrapped(n.attestPk) + n3;
    TallyCuts(m.id, Tally(m.stake) + m2, n.id, Tally(n.stake) + n2);
    TallyCuts(m.stake, m2, n.stake, n2);
    WrappedCuts(m.attestPk, m3, n.attestPk, n3);
    WrappedCuts(m.root.digest, m4, n.root.digest, n4);
    TallyCuts(m.root.slots, x, n.root.slots, y);
  }

  function RosterCode(members: seq<RosterMember>): Bytes {
    if members == [] then [0] else [1] + MemberCode(members[0], RosterCode(members[1..]))
  }

  lemma {:induction false} RosterCodeDetermines(a: seq<RosterMember>, b: seq<RosterMember>)
    requires RosterCode(a) == RosterCode(b)
    ensures a == b
  {
    hide MemberCode;
    assert a == [] <==> RosterCode(a)[0] == 0;
    assert b == [] <==> RosterCode(b)[0] == 0;
    if a != [] {
      assert RosterCode(a)[1..] == MemberCode(a[0], RosterCode(a[1..]));
      assert RosterCode(b)[1..] == MemberCode(b[0], RosterCode(b[1..]));
      MemberCodeCuts(a[0], RosterCode(a[1..]), b[0], RosterCode(b[1..]));
      RosterCodeDetermines(a[1..], b[1..]);
      assert a == [a[0]] + a[1..] && b == [b[0]] + b[1..];
    }
  }

  // ---- all of it can hold ----

  const EPOCH_LENGTH: u64 := 10
  const SEALING_HEADER := Header(9, [], RosterCode([OTHER]), [], [], 0, [])
  const SEALING_BLOCK := Block(9, HeaderCode(SEALING_HEADER), Value([]), 0)

  /** Primitives that commit to everything and accept attestations to one block only. */
  ghost function Careful(): Primitives {
    Primitives(
      bytes => Some(SEALING_HEADER),
      HeaderCode,
      bytes => Some(CertificateFor(SEALING_BLOCK)),
      (on, height, slot, view, committee, block) => if block == SEALING_BLOCK then [1] else [0],
      key => false,
      (key, message, sig) => message == [1],
      (root, id, slot, credential) => true,
      (epoch, members) => RosterCode(members),
      epoch => [],
      bytes => Some(StateProof(Some(RosterCode([OTHER])), [])),
      (key, proof: StateProof, root) => proof.value == Some(root),
      0, 0, 1)
  }

  ghost function OnlyThatBlock(): (RosterMember, Block) -> bool {
    (m, block) => block == SEALING_BLOCK
  }

  lemma CarefulBinds()
    ensures Binds(Careful())
  {
    hide HeaderCode, RosterCode;
    forall g, h | Careful().hashOf(g) == Careful().hashOf(h)
      ensures g == h
    {
      HeaderCodeDetermines(g, h);
    }
    forall e, a, b | Careful().rosterCommitment(e, a) == Careful().rosterCommitment(e, b)
      ensures a == b
    {
      RosterCodeDetermines(a, b);
    }
  }

  lemma NobodyEquivocates(roster: seq<RosterMember>)
    ensures Unforgeable(Careful(), Binding(0, []), OnlyThatBlock())
    ensures FewEquivocate(Careful(), roster, OnlyThatBlock())
  {
    hide HeaderCode, RosterCode, Active;
    assert Equivocators(Careful(), roster, OnlyThatBlock()) == {};
  }

  /**
   * Everything agreement assumes can hold at once, for walks that do take a step and are fed by
   * gateways that answer differently, over epochs of ten blocks.
   */
  lemma AssumptionsCanHold() returns (anchor: VerifiedRoster, e1: Evidence, e2: Evidence)
    ensures Binds(Careful()) && Unforgeable(Careful(), Binding(0, []), OnlyThatBlock())
    ensures forall roster :: FewEquivocate(Careful(), roster, OnlyThatBlock())
    ensures e1 != e2 && e1.chainId == e2.chainId == 0
    ensures Walk(Careful(), [], EPOCH_LENGTH, anchor, [e1]).Some? && Walk(Careful(), [], EPOCH_LENGTH, anchor, [e2]).Some?
  {
    CarefulBinds();
    NobodyEquivocates([]);
    forall roster
      ensures FewEquivocate(Careful(), roster, OnlyThatBlock())
    {
      NobodyEquivocates(roster);
    }
    anchor := VerifiedRoster(0, [SOLE]);
    e1, e2 := Evidence(0, [], [], [OTHER], []), Evidence(0, [], [], [OTHER], [1]);
    hide HeaderCode, RosterCode, Binds, Unforgeable, FewEquivocate;
    OneValidatorFinalizes(Careful(), Binding(0, []), [], [], SOLE, SEALING_HEADER, AttestationOn(SEALING_BLOCK));
    hide Accepts;
    var none: seq<Evidence> := [];
    assert Walk(Careful(), [], EPOCH_LENGTH, anchor, none) == Some(anchor);
    assert [e1][..0] == none && [e2][..0] == none;
    assert Links(Careful(), [], EPOCH_LENGTH, anchor, e1) && Links(Careful(), [], EPOCH_LENGTH, anchor, e2);
  }
}
