/** One client that saves its session before every submission, and what a crash leaves of it. */
module Durable {
  import opened Machine
  import opened Json
  import opened SigningSession
  import opened Signings
  import opened SavedSession

  /** Between recording its nonces and submitting, a client does nothing but save. */
  datatype Phase = Idle | Recorded(slots: seq<Nonce>) | Persisted(slots: seq<Nonce>)

  /**
   * `disk` is the text the hook last saved, `saved` the session it was written from; `sent` holds the
   * nonces submitted and not named again since.
   */
  datatype Client = Client(session: State, disk: Option<string>, saved: State, phase: Phase, sent: set<Nonce>)

  datatype Action =
    | Ask(key: Key, reported: u64, expected: Option<u64>, order: bool)
    | Sign(slots: seq<Nonce>)
    | Save(ok: bool)
    | Submit
    | Settle(nonce: Nonce, accepted: bool)
    | Free(nonce: Nonce)
    | See(chain: string, head: SigningSession.Head)
    | Crash

  const NEW := Client(FRESH, None, FRESH, Idle, {})

  ghost predicate Possible(c: Client, a: Action) {
    match a
    case Sign(slots) => c.phase.Idle? && forall p :: p in slots ==> Held(c.session, p)
    case Save(_) => c.phase.Recorded?
    case Submit => c.phase.Persisted?
    case Crash => true
    case _ => c.phase.Idle?
  }

  function Act(c: Client, a: Action): Client {
    match a
    case Ask(key, reported, expected, order) =>
      c.(session := AfterSlot(c.session, key, reported, expected, order),
         sent := if expected == Some(reported) then c.sent - {Nonce(key, reported)} else c.sent)
    case Sign(slots) => c.(session := AllSigned(c.session, slots), phase := Recorded(slots))
    case Save(ok) =>
      if ok && c.phase.Recorded?
      then c.(disk := Some(Rendered(SessionJson(c.session))), saved := c.session, phase := Persisted(c.phase.slots))
      else c.(phase := Idle)
    case Submit =>
      if c.phase.Persisted? then c.(phase := Idle, sent := c.sent + set p | p in c.phase.slots) else c
    case Settle(p, accepted) => c.(session := AfterOutcome(c.session, p.key, p.n, accepted))
    case Free(p) => c.(session := AfterRelease(c.session, p.key, p.n))
    case See(chain, head) => c.(session := AfterHead(c.session, chain, head))
    case Crash =>
      c.(session := if c.disk.Some? then Imported(FRESH, c.disk.value).state else FRESH, phase := Idle)
  }

  /** Where a list of actions leads a new client; nothing if one of them is not possible. */
  ghost function Lived(actions: seq<Action>): Option<Client> {
    if actions == [] then Some(NEW)
    else
      var before := Lived(actions[..|actions| - 1]);
      if before.Some? && Possible(before.value, actions[|actions| - 1])
      then Some(Act(before.value, actions[|actions| - 1]))
      else None
  }

  ghost predicate BothUsed(c: Client, p: Nonce) {
    Used(c.session, p) && Used(c.saved, p)
  }

  /** What was sent is blocked in memory and on disk. */
  ghost predicate Sound(c: Client) {
    && Settled(c.session) && Settled(c.saved)
    && (c.disk.Some? ==> c.disk.value == Rendered(SessionJson(c.saved)))
    && (c.disk.None? ==> c.saved == FRESH)
    && (forall p :: p in c.sent ==> BothUsed(c, p))
    && (c.phase.Recorded? ==> forall p :: p in c.phase.slots ==> Used(c.session, p))
    && (c.phase.Persisted? ==> forall p :: p in c.phase.slots ==> BothUsed(c, p))
  }

  lemma AskKeepsSound(c: Client, a: Action)
    requires Sound(c) && Possible(c, a) && a.Ask?
    ensures Sound(Act(c, a))
  {
    hide Rendered, SessionJson, Imported;
    var e := Slot(a.key, a.reported, a.expected, a.order);
    SettledPersists(c.session, e);
    var d := Act(c, a);
    forall p | p in d.sent
      ensures BothUsed(d, p)
    {
      assert BothUsed(c, p);
      BlockedPersists(c.session, e, p.key, p.n);
    }
  }

  lemma EventKeepsSound(c: Client, e: Event)
    requires Sound(c) && c.phase.Idle? && !e.Import? && !e.Slot?
    ensures Sound(c.(session := After(c.session, e)))
  {
    hide Rendered, SessionJson, Imported;
    SettledPersists(c.session, e);
    var d := c.(session := After(c.session, e));
    forall p | p in d.sent
      ensures BothUsed(d, p)
    {
      assert BothUsed(c, p);
      BlockedPersists(c.session, e, p.key, p.n);
    }
  }

  lemma SignKeepsSound(c: Client, a: Action)
    requires Sound(c) && Possible(c, a) && a.Sign?
    ensures Sound(Act(c, a))
  {
    AllSignedEffect(c.session, a.slots);
    hide Used, AllSigned, Settled;
  }

  lemma CrashKeepsSound(c: Client)
    requires Sound(c)
    ensures Sound(Act(c, Crash))
  {
    hide Imported, Rendered, SessionJson, SavedOf, Used, Settled;
    RestoredSession(c.saved);
    RestoredKeeps(c.saved);
    FreshSettled();
    var d := Act(c, Crash);
    forall p | p in d.sent
      ensures BothUsed(d, p)
    {
      assert BothUsed(c, p);
    }
  }

  lemma FreshSettled()
    ensures Settled(FRESH) && forall p :: !Used(FRESH, p)
  {
  }

  /** A restored session blocks what the saved one blocked. */
  lemma RestoredKeeps(from: State)
    ensures var restored := State(from.next, SavedOf(from).held, map[], from.heads);
            && (Settled(from) ==> Settled(restored))
            && forall p :: Used(from, p) ==> Used(restored, p)
  {
    var restored := State(from.next, SavedOf(from).held, map[], from.heads);
    forall p | Used(from, p)
      ensures Used(restored, p)
    {
      if p.n in HeldAt(from, p.key) {
        assert p.key in SavedOf(from).held;
      }
    }
  }

  lemma SaveKeepsSound(c: Client, a: Action)
    requires Sound(c) && Possible(c, a) && (a.Save? || a.Submit?)
    ensures Sound(Act(c, a))
  {
    hide Rendered, SessionJson, Used, Settled;
    var d := Act(c, a);
    forall p | p in d.sent
      ensures BothUsed(d, p)
    {
      assert p in c.sent ==> BothUsed(c, p);
    }
  }

  lemma ActionKeepsSound(c: Client, a: Action)
    requires Sound(c) && Possible(c, a)
    ensures Sound(Act(c, a))
  {
    hide Rendered, SessionJson, Imported, BothUsed, Settled, AllSigned, AfterSlot;
    match a {
      case Ask(_, _, _, _) => AskKeepsSound(c, a);
      case Sign(_) => SignKeepsSound(c, a);
      case Settle(p, accepted) => EventKeepsSound(c, SigningSession.Outcome(p.key, p.n, accepted));
      case Free(p) => EventKeepsSound(c, Release(p.key, p.n));
      case See(chain, head) => EventKeepsSound(c, NoteHead(chain, head));
      case Crash => CrashKeepsSound(c);
      case _ => SaveKeepsSound(c, a);
    }
  }

  lemma {:induction false} LivesAreSound(actions: seq<Action>)
    requires Lived(actions).Some?
    ensures Sound(Lived(actions).value)
  {
    if actions != [] {
      LivesAreSound(actions[..|actions| - 1]);
      ActionKeepsSound(Lived(actions[..|actions| - 1]).value, actions[|actions| - 1]);
    }
  }

  /**
   * Durable nonces: whatever the client did before, wherever it crashed and however often, a nonce it
   * submitted is not granted to a call that does not name it, now or right after one more crash.
   */
  lemma SubmittedNoncesSurviveCrashes(actions: seq<Action>, p: Nonce, order: bool)
    requires Lived(actions).Some? && p in Lived(actions).value.sent
    ensures !Granted(Lived(actions).value.session, p.key, p.n, None, order)
    ensures !Granted(Act(Lived(actions).value, Crash).session, p.key, p.n, None, order)
  {
    hide Granted, Act, Sound, Lived;
    LivesAreSound(actions);
    var c := Lived(actions).value;
    CrashKeepsSound(c);
    CrashKeepsSent(c);
    SoundBlocks(c, p, order);
    SoundBlocks(Act(c, Crash), p, order);
  }

  lemma CrashKeepsSent(c: Client)
    ensures Act(c, Crash).sent == c.sent
  {
    hide Imported;
  }

  lemma SoundBlocks(c: Client, p: Nonce, order: bool)
    requires Sound(c) && p in c.sent
    ensures !Granted(c.session, p.key, p.n, None, order)
  {
    hide Granted, Rendered, SessionJson;
    assert BothUsed(c, p);
    if Granted(c.session, p.key, p.n, None, order) {
      UnnamedGrantIsNotBlocked(c.session, p.key, p.n, order);
    }
  }

  /** Until it is named again, a submitted nonce stays among those protected. */
  lemma SentStaysSent(c: Client, a: Action, p: Nonce)
    requires p in c.sent && !(a.Ask? && a.key == p.key && a.expected == Some(p.n) && a.reported == p.n)
    ensures p in Act(c, a).sent
  {
  }
}
