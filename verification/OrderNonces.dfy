/** Order nonces of one key, signed one after another and never named: they leave no gap. */
module OrderNonces {
  import opened Machine
  import opened SigningSession

  datatype Phase = Idle | Reserved(n: u64) | Recorded(n: u64)

  /** The session, where the current order call is, and what was signed and accepted so far, in order. */
  datatype Serial = Serial(session: State, phase: Phase, signed: seq<nat>, accepted: seq<nat>)

  datatype Move =
    | Ask(reported: u64)
    | Abort
    | Record
    | Finish(accepted: bool)
    | Fail
    | Elsewhere(event: Event)

  const BEGIN := Serial(FRESH, Idle, [], [])

  /** An event that concerns another key, or no key at all. */
  predicate Away(e: Event, key: Key) {
    match e
    case Slot(k, _, _, _) => k != key
    case Signed(k, _) => k != key
    case Outcome(k, _, _) => k != key
    case Release(k, _) => k != key
    case NoteHead(_, _) => true
    case Import(_) => false
  }

  predicate May(s: Serial, key: Key, m: Move) {
    match m
    case Ask(_) => s.phase.Idle?
    case Abort => s.phase.Reserved?
    case Record => s.phase.Reserved?
    case Finish(_) => s.phase.Recorded?
    case Fail => s.phase.Recorded?
    case Elsewhere(e) => Away(e, key)
  }

  function Moved(s: Serial, key: Key, m: Move): Serial
    requires May(s, key, m)
  {
    match m
    case Ask(reported) =>
      s.(session := AfterSlot(s.session, key, reported, None, true),
         phase := if Granted(s.session, key, reported, None, true) then Reserved(reported) else Idle)
    case Abort => s.(session := AfterRelease(s.session, key, s.phase.n), phase := Idle)
    case Record =>
      s.(session := AfterSigned(s.session, key, s.phase.n), phase := Recorded(s.phase.n), signed := s.signed + [s.phase.n])
    case Finish(accepted) =>
      s.(session := AfterRelease(AfterOutcome(s.session, key, s.phase.n, accepted), key, s.phase.n),
         phase := Idle,
         accepted := if accepted then s.accepted + [s.phase.n] else s.accepted)
    case Fail => s.(session := AfterRelease(s.session, key, s.phase.n), phase := Idle)
    case Elsewhere(e) => s.(session := After(s.session, e))
  }

  function Course(key: Key, moves: seq<Move>): Option<Serial> {
    if moves == [] then Some(BEGIN)
    else
      var before := Course(key, moves[..|moves| - 1]);
      if before.Some? && May(before.value, key, moves[|moves| - 1])
      then Some(Moved(before.value, key, moves[|moves| - 1]))
      else None
  }

  function UpTo(n: nat): seq<nat> {
    seq(n, i => i)
  }

  /** What the session holds for the key when `a` nonces were accepted and `m` signed. */
  ghost predicate Tracks(s: State, key: Key, a: nat, m: nat) {
    && a <= m <= a + 1
    && a <= U64_MAX + 1
    && (key in s.next ==> s.next[key] == (if a <= U64_MAX then a else U64_MAX))
    && (key !in s.next ==> a == 0 && m == 0)
    && (forall n :: n in HeldAt(s, key) ==> if HeldAt(s, key)[n] then n < a else n == a && m == a + 1)
    && (m == a + 1 ==> a in HeldAt(s, key) && !HeldAt(s, key)[a])
    && (a == U64_MAX + 1 ==> U64_MAX in HeldAt(s, key))
  }

  ghost predicate InStep(s: Serial, key: Key) {
    && s.signed == UpTo(|s.signed|)
    && s.accepted == UpTo(|s.accepted|)
    && Tracks(s.session, key, |s.accepted|, |s.signed|)
    && (s.phase.Reserved? ==> s.phase.n == |s.accepted| == |s.signed| && key in s.session.next)
    && (s.phase.Recorded? ==> s.phase.n == |s.accepted| && |s.signed| == |s.accepted| + 1)
  }

  /** A granted order nonce is the next one in line, and nothing signed is still unsettled. */
  lemma GrantIsNextInLine(s: State, key: Key, a: nat, m: nat, reported: u64)
    requires Tracks(s, key, a, m) && Granted(s, key, reported, None, true)
    ensures reported == a == m
  {
    UnnamedGrantIsNotBlocked(s, key, reported, true);
  }

  lemma AskTracks(s: State, key: Key, a: nat, m: nat, reported: u64)
    requires Tracks(s, key, a, m)
    ensures Tracks(AfterSlot(s, key, reported, None, true), key, a, m)
    ensures Granted(s, key, reported, None, true) ==> key in AfterSlot(s, key, reported, None, true).next
  {
    if Granted(s, key, reported, None, true) {
      GrantIsNextInLine(s, key, a, m, reported);
    }
    var after := AfterSlot(s, key, reported, None, true);
    KeptHeld(s, key, reported);
    hide RefusedUnnamed;
    assert forall n :: n in HeldAt(after, key) ==> n in HeldAt(s, key) && HeldAt(after, key)[n] == HeldAt(s, key)[n];
  }

  lemma KeptHeld(s: State, key: Key, reported: u64)
    ensures var after := AfterSlot(s, key, reported, None, true);
            forall n :: n in HeldAt(s, key) && (!HeldAt(s, key)[n] || n == U64_MAX) ==>
                          n in HeldAt(after, key) && HeldAt(after, key)[n] == HeldAt(s, key)[n]
  {
    hide RefusedUnnamed;
  }

  lemma AwayTracks(s: State, key: Key, a: nat, m: nat, e: Event)
    requires Tracks(s, key, a, m) && Away(e, key)
    ensures Tracks(After(s, e), key, a, m)
    ensures key in s.next ==> key in After(s, e).next
  {
    hide RefusedUnnamed, Kept;
    var t := After(s, e);
    assert HeldAt(t, key) == HeldAt(s, key);
    assert key in t.next <==> key in s.next;
  }

  lemma ReleaseTracks(s: State, key: Key, a: nat, m: nat, n: u64)
    requires Tracks(s, key, a, m)
    ensures Tracks(AfterRelease(s, key, n), key, a, m)
  {
    assert HeldAt(AfterRelease(s, key, n), key) == HeldAt(s, key);
  }

  lemma SignedTracks(s: State, key: Key, a: nat)
    requires Tracks(s, key, a, a) && key in s.next && a <= U64_MAX
    ensures Tracks(AfterSigned(s, key, a), key, a, a + 1)
  {
    ReleaseTracks(s, key, a, a, a);
    assert HeldAt(AfterSigned(s, key, a), key) == HeldAt(s, key)[a := false];
  }

  lemma OutcomeTracks(s: State, key: Key, a: nat)
    requires Tracks(s, key, a, a + 1) && a <= U64_MAX
    ensures Tracks(AfterOutcome(s, key, a, true), key, a + 1, a + 1)
  {
    assert HeldAt(AfterOutcome(s, key, a, true), key) == HeldAt(s, key)[a := true];
  }

  lemma OneMore(n: nat)
    ensures UpTo(n) + [n] == UpTo(n + 1)
  {
  }

  lemma MoveKeepsInStep(s: Serial, key: Key, m: Move)
    requires InStep(s, key) && May(s, key, m)
    ensures InStep(Moved(s, key, m), key)
  {
    var a, k := |s.accepted|, |s.signed|;
    OneMore(a);
    OneMore(k);
    match m {
      case Ask(reported) =>
        AskTracks(s.session, key, a, k, reported);
        if Granted(s.session, key, reported, None, true) {
          GrantIsNextInLine(s.session, key, a, k, reported);
        }
        hide AfterSlot, Granted, UpTo;
      case Elsewhere(e) =>
        AwayTracks(s.session, key, a, k, e);
        hide After, UpTo;
      case Record =>
        SignedTracks(s.session, key, a);
        hide AfterSigned, UpTo, Tracks;
      case Finish(accepted) =>
        var settled := AfterOutcome(s.session, key, a, accepted);
        if accepted {
          OutcomeTracks(s.session, key, a);
          ReleaseTracks(settled, key, a + 1, k, a);
        } else {
          ReleaseTracks(settled, key, a, k, a);
        }
        hide AfterOutcome, AfterRelease, UpTo, Tracks;
      case _ =>
        ReleaseTracks(s.session, key, a, k, s.phase.n);
        hide AfterRelease, UpTo, Tracks;
    }
  }

  lemma {:induction false} CoursesStayInStep(key: Key, moves: seq<Move>)
    requires Course(key, moves).Some?
    ensures InStep(Course(key, moves).value, key)
  {
    if moves != [] {
      CoursesStayInStep(key, moves[..|moves| - 1]);
      MoveKeepsInStep(Course(key, moves[..|moves| - 1]).value, key, moves[|moves| - 1]);
    }
  }

  /**
   * Gap-free order nonces: signed and accepted nonces are `0, 1, 2, ...` with none left out and none
   * twice, everything below `next` was accepted, at most one signed nonce is still unsettled, and the
   * next grant can only be the next number.
   */
  lemma OrderNoncesLeaveNoGap(key: Key, moves: seq<Move>, reported: u64)
    requires Course(key, moves).Some?
    ensures var s := Course(key, moves).value;
            && s.signed == UpTo(|s.signed|) && s.accepted == UpTo(|s.accepted|)
            && |s.accepted| <= |s.signed| <= |s.accepted| + 1
            && (key in s.session.next ==> 0 <= |s.accepted| - s.session.next[key] <= 1)
            && (key in s.session.next && s.session.next[key] < U64_MAX ==> s.session.next[key] == |s.accepted|)
            && (s.phase.Idle? && Granted(s.session, key, reported, None, true) ==>
                  reported == |s.accepted| == |s.signed| && (key in s.session.next ==> reported == s.session.next[key]))
  {
    CoursesStayInStep(key, moves);
    var s := Course(key, moves).value;
    if Granted(s.session, key, reported, None, true) {
      GrantIsNextInLine(s.session, key, |s.accepted|, |s.signed|, reported);
    }
  }
}
