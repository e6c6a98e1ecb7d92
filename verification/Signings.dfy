/** Any number of signings at once over the one session a process shares, in every interleaving. */
module Signings {
  import opened Machine
  import opened SigningSession

  /** One nonce of one key. */
  datatype Nonce = Nonce(key: Key, n: u64)

  /**
   * One call of the client. It reserves a nonce per slot, may already make a signature over some (an
   * order is signed before the account nonce is asked for), records them all as signed, submits, and
   * drops its guards, one per slot and the last one first; or it drops them early when something
   * fails. Once `ending`, dropping is all it does.
   */
  datatype Signing = Signing(slots: seq<Nonce>, made: set<Nonce>, signed: bool, ending: bool)

  /**
   * `log` lists the nonces recorded as signed, in order, which is before anything is submitted;
   * `made` counts every signature produced ahead of the recording, `kept` holds those then recorded
   * and `discarded` counts those whose signing gave up before recording.
   */
  datatype World = World(session: State, live: map<nat, Signing>, log: seq<Nonce>,
                         made: multiset<Nonce>, kept: set<Nonce>, discarded: multiset<Nonce>)

  datatype Step =
    | Grant(id: nat, key: Key, reported: u64, order: bool)
    | Make(id: nat, nonce: Nonce)
    | Record(id: nat)
    | Outcome(id: nat, accepted: bool)
    | Drop(id: nat)
    | Head(chain: string, head: SigningSession.Head)
    | Restore(saved: Saved)

  const START := World(FRESH, map[], [], multiset{}, {}, multiset{})

  function AllSigned(s: State, slots: seq<Nonce>): State {
    if slots == [] then s
    else AfterSigned(AllSigned(s, slots[..|slots| - 1]), slots[|slots| - 1].key, slots[|slots| - 1].n)
  }

  function AllOutcome(s: State, slots: seq<Nonce>, accepted: bool): State {
    if slots == [] then s
    else AfterOutcome(AllOutcome(s, slots[..|slots| - 1], accepted), slots[|slots| - 1].key, slots[|slots| - 1].n, accepted)
  }

  predicate Open(signing: Signing) {
    !signing.signed && !signing.ending
  }

  ghost predicate Enabled(w: World, step: Step) {
    match step
    case Grant(id, _, _, _) => id in w.live ==> Open(w.live[id])
    case Make(id, nonce) =>
      id in w.live && Open(w.live[id]) && nonce in w.live[id].slots && nonce !in w.live[id].made
    case Record(id) => id in w.live && Open(w.live[id])
    case Outcome(id, _) => id in w.live && w.live[id].signed && !w.live[id].ending
    case Drop(id) => id in w.live
    case Head(_, _) => true
    case Restore(saved) => exists from :: Settled(from) && saved == SavedOf(from)
  }

  /** Nonces are never named here; a refused grant still changes the session and the call may go on. */
  ghost function Take(w: World, step: Step): World
    requires Enabled(w, step)
  {
    match step
    case Grant(id, key, reported, order) =>
      var signing := if id in w.live then w.live[id] else Signing([], {}, false, false);
      var slots := if Granted(w.session, key, reported, None, order) then signing.slots + [Nonce(key, reported)]
                   else signing.slots;
      w.(session := AfterSlot(w.session, key, reported, None, order), live := w.live[id := signing.(slots := slots)])
    case Make(id, nonce) =>
      w.(live := w.live[id := w.live[id].(made := w.live[id].made + {nonce})], made := w.made + multiset{nonce})
    case Record(id) =>
      w.(session := AllSigned(w.session, w.live[id].slots),
         live := w.live[id := w.live[id].(signed := true)],
         log := w.log + w.live[id].slots,
         kept := w.kept + w.live[id].made)
    case Outcome(id, accepted) =>
      w.(session := AllOutcome(w.session, w.live[id].slots, accepted))
    case Drop(id) =>
      var slots := w.live[id].slots;
      if slots == [] then w.(live := w.live - {id})
      else
        var last := slots[|slots| - 1];
        var lost := if w.live[id].signed || last !in w.live[id].made then multiset{} else multiset{last};
        w.(session := AfterRelease(w.session, last.key, last.n),
           live := w.live[id := Signing(slots[..|slots| - 1], w.live[id].made - {last}, w.live[id].signed, true)],
           discarded := w.discarded + lost)
    case Head(chain, head) => w.(session := AfterHead(w.session, chain, head))
    case Restore(saved) => w.(session := Merged(w.session, saved))
  }

  /** Where a list of steps leads from an idle process; nothing if some step cannot be taken. */
  ghost function Reached(steps: seq<Step>): Option<World> {
    if steps == [] then Some(START)
    else
      var before := Reached(steps[..|steps| - 1]);
      if before.Some? && Enabled(before.value, steps[|steps| - 1])
      then Some(Take(before.value, steps[|steps| - 1]))
      else None
  }

  // ---- the invariant ----

  ghost predicate Held(s: State, p: Nonce) {
    p.n in ReservedAt(s, p.key)
  }

  ghost predicate Used(s: State, p: Nonce) {
    Blocked(s, p.key, p.n)
  }

  /** Every nonce ever signed stays blocked. */
  ghost predicate LogBlocked(w: World) {
    forall p :: p in w.log ==> Used(w.session, p)
  }

  /** A signing under way has each of its nonces to itself, reserved and never signed before. */
  ghost predicate OwnNonces(w: World, id: nat)
    requires id in w.live
  {
    && NoDuplicates(w.live[id].slots)
    && w.live[id].made <= SetOf(w.live[id].slots)
    && forall p :: p in w.live[id].slots ==> if w.live[id].signed then p in w.log else p !in w.log && Held(w.session, p)
  }

  ghost predicate Apart(a: Signing, b: Signing) {
    !a.signed && !b.signed ==> forall p :: p in a.slots ==> p !in b.slots
  }

  ghost predicate Safe(w: World) {
    && Settled(w.session)
    && NoDuplicates(w.log)
    && w.kept <= SetOf(w.log)
    && LogBlocked(w)
    && (forall id :: id in w.live ==> OwnNonces(w, id))
    && forall i, j :: i in w.live && j in w.live && i != j ==> Apart(w.live[i], w.live[j])
  }

  // ---- what a batch of calls does ----

  lemma {:induction false} AllSignedEffect(s: State, slots: seq<Nonce>)
    requires Settled(s)
    ensures var after := AllSigned(s, slots);
            && Settled(after)
            && (forall p :: Used(s, p) ==> Used(after, p))
            && (forall p :: p in slots ==> Used(after, p))
            && (forall p :: Held(s, p) && p !in slots ==> Held(after, p))
  {
    if slots != [] {
      var front, last := slots[..|slots| - 1], slots[|slots| - 1];
      AllSignedEffect(s, front);
      var mid := AllSigned(s, front);
      assert slots == front + [last];
      SignedEffect(mid, last);
    }
  }

  lemma SignedEffect(s: State, last: Nonce)
    requires Settled(s)
    ensures var after := AfterSigned(s, last.key, last.n);
            && Settled(after)
            && (forall p :: Used(s, p) ==> Used(after, p))
            && Used(after, last)
            && (forall p :: Held(s, p) && p != last ==> Held(after, p))
  {
    SettledPersists(s, SigningSession.Signed(last.key, last.n));
    forall p | Used(s, p)
      ensures Used(AfterSigned(s, last.key, last.n), p)
    {
      BlockedPersists(s, SigningSession.Signed(last.key, last.n), p.key, p.n);
    }
  }

  lemma {:induction false} AllOutcomeEffect(s: State, slots: seq<Nonce>, accepted: bool)
    requires Settled(s)
    ensures var after := AllOutcome(s, slots, accepted);
            && Settled(after) && after.reserved == s.reserved
            && (forall p :: Used(s, p) ==> Used(after, p))
  {
    if slots != [] {
      var front, last := slots[..|slots| - 1], slots[|slots| - 1];
      AllOutcomeEffect(s, front, accepted);
      var mid := AllOutcome(s, front, accepted);
      var e := SigningSession.Outcome(last.key, last.n, accepted);
      SettledPersists(mid, e);
      forall p | Used(mid, p)
        ensures Used(After(mid, e), p)
      {
        BlockedPersists(mid, e, p.key, p.n);
      }
    }
  }

  lemma NoDuplicatesJoined<T>(a: seq<T>, b: seq<T>)
    requires NoDuplicates(a) && NoDuplicates(b) && forall x :: x in b ==> x !in a
    ensures NoDuplicates(a + b)
  {
    forall i, j | 0 <= i < j < |a + b|
      ensures (a + b)[i] != (a + b)[j]
    {
      if i < |a| <= j {
        assert b[j - |a|] in b;
      }
    }
  }

  // ---- every step keeps it ----

  /** A change of the session alone that frees no used nonce and drops no reservation is safe. */
  lemma SessionChangeKeepsSafe(w: World, after: State)
    requires Safe(w) && Settled(after)
    requires forall p :: Used(w.session, p) ==> Used(after, p)
    requires forall p :: Held(w.session, p) ==> Held(after, p)
    ensures Safe(w.(session := after))
  {
    hide Used, Held, Settled, Apart;
    var v := w.(session := after);
    forall id | id in v.live
      ensures OwnNonces(v, id)
    {
      assert OwnNonces(w, id);
    }
  }

  /** What an unnamed call for a slot does to the nonces of everyone. */
  lemma GrantEffect(s: State, key: Key, reported: u64, order: bool)
    requires Settled(s)
    ensures var after := AfterSlot(s, key, reported, None, order);
            && Settled(after)
            && (forall p :: Used(s, p) ==> Used(after, p))
            && (forall p :: Held(s, p) ==> Held(after, p))
            && (Granted(s, key, reported, None, order) ==>
                  var p := Nonce(key, reported);
                  Held(after, p) && !Used(s, p) && !Held(s, p))
  {
    var after := AfterSlot(s, key, reported, None, order);
    SettledPersists(s, Slot(key, reported, None, order));
    forall p | Used(s, p)
      ensures Used(after, p)
    {
      BlockedPersists(s, Slot(key, reported, None, order), p.key, p.n);
    }
    GrantReserves(s, key, reported, order);
    hide RefusedUnnamed, AfterSlot, Blocked, Settled;
    if Granted(s, key, reported, None, order) {
      UnnamedGrantIsNotBlocked(s, key, reported, order);
    }
  }

  lemma GrantReserves(s: State, key: Key, reported: u64, order: bool)
    ensures forall p :: Held(s, p) ==> Held(AfterSlot(s, key, reported, None, order), p)
    ensures Granted(s, key, reported, None, order) ==> Held(AfterSlot(s, key, reported, None, order), Nonce(key, reported))
  {
    hide RefusedUnnamed;
  }

  lemma GrantKeepsSafe(w: World, step: Step)
    requires Safe(w) && step.Grant? && Enabled(w, step)
    ensures Safe(Take(w, step))
  {
    var v := Take(w, step);
    GrantEffect(w.session, step.key, step.reported, step.order);
    hide Used, Held, Settled, Granted, AfterSlot;
    forall j | j in v.live
      ensures OwnNonces(v, j)
    {
      GrantKeepsOwn(w, step, j);
    }
    hide OwnNonces;
    forall i, j | i in v.live && j in v.live && i != j
      ensures Apart(v.live[i], v.live[j])
    {
      GrantKeepsApart(w, step, i, j);
    }
  }

  lemma GrantKeepsOwn(w: World, step: Step, j: nat)
    requires Safe(w) && step.Grant? && Enabled(w, step) && j in Take(w, step).live
    ensures OwnNonces(Take(w, step), j)
  {
    GrantEffect(w.session, step.key, step.reported, step.order);
    hide Used, Held, Settled, Granted, AfterSlot;
    assert j in w.live ==> OwnNonces(w, j);
  }

  lemma GrantKeepsApart(w: World, step: Step, i: nat, j: nat)
    requires Safe(w) && step.Grant? && Enabled(w, step)
    requires i in Take(w, step).live && j in Take(w, step).live && i != j
    ensures Apart(Take(w, step).live[i], Take(w, step).live[j])
  {
    GrantEffect(w.session, step.key, step.reported, step.order);
    hide Used, Held, Settled, Granted, AfterSlot;
    assert (i in w.live ==> OwnNonces(w, i)) && (j in w.live ==> OwnNonces(w, j));
    assert i in w.live && j in w.live ==> Apart(w.live[i], w.live[j]);
  }

  lemma RecordKeepsSafe(w: World, step: Step)
    requires Safe(w) && step.Record? && Enabled(w, step)
    ensures Safe(Take(w, step))
  {
    var id, v := step.id, Take(w, step);
    var slots := w.live[id].slots;
    AllSignedEffect(w.session, slots);
    hide Used, Held, AllSigned, Settled;
    assert OwnNonces(w, id);
    NoDuplicatesJoined(w.log, slots);
    forall j | j in v.live
      ensures OwnNonces(v, j)
    {
      assert OwnNonces(w, j);
      if j != id {
        assert Apart(w.live[j], w.live[id]);
      }
    }
  }

  lemma OutcomeKeepsSafe(w: World, step: Step)
    requires Safe(w) && step.Outcome? && Enabled(w, step)
    ensures Safe(Take(w, step))
  {
    AllOutcomeEffect(w.session, w.live[step.id].slots, step.accepted);
    SessionChangeKeepsSafe(w, AllOutcome(w.session, w.live[step.id].slots, step.accepted));
  }

  lemma DropKeepsSafe(w: World, step: Step)
    requires Safe(w) && step.Drop? && Enabled(w, step)
    ensures Safe(Take(w, step))
  {
    var id, v := step.id, Take(w, step);
    var slots := w.live[id].slots;
    if slots != [] {
      ReleaseEffect(w.session, slots[|slots| - 1]);
    }
    hide Used, Held, Settled, AfterRelease;
    forall j | j in v.live
      ensures OwnNonces(v, j)
    {
      DropKeepsOwn(w, step, j);
    }
    hide OwnNonces;
    forall i, j | i in v.live && j in v.live && i != j
      ensures Apart(v.live[i], v.live[j])
    {
      assert Apart(w.live[i], w.live[j]);
    }
  }

  lemma DropKeepsOwn(w: World, step: Step, j: nat)
    requires Safe(w) && step.Drop? && Enabled(w, step) && j in Take(w, step).live
    ensures OwnNonces(Take(w, step), j)
  {
    var id := step.id;
    var slots := w.live[id].slots;
    hide Used, Settled;
    assert OwnNonces(w, j) && OwnNonces(w, id);
    if slots != [] {
      var front, last := slots[..|slots| - 1], slots[|slots| - 1];
      assert slots == front + [last] && last in slots;
      ReleaseEffect(w.session, last);
      hide Held, AfterRelease;
      assert j != id ==> Apart(w.live[j], w.live[id]);
    }
  }

  lemma ReleaseEffect(s: State, last: Nonce)
    requires Settled(s)
    ensures var after := AfterRelease(s, last.key, last.n);
            && Settled(after)
            && (forall p :: Used(s, p) ==> Used(after, p))
            && (forall p :: Held(s, p) && p != last ==> Held(after, p))
  {
  }

  lemma RestoreKeepsSafe(w: World, step: Step)
    requires Safe(w) && step.Restore? && Enabled(w, step)
    ensures Safe(Take(w, step))
  {
    var from :| Settled(from) && step.saved == SavedOf(from);
    MergeKeepsSettled(w.session, from);
    MergedEffect(w.session, step.saved);
    SessionChangeKeepsSafe(w, Merged(w.session, step.saved));
  }

  lemma MergedEffect(s: State, saved: Saved)
    ensures forall p :: Used(s, p) ==> Used(Merged(s, saved), p)
    ensures forall p :: Held(s, p) ==> Held(Merged(s, saved), p)
  {
    forall p | Used(s, p)
      ensures Used(Merged(s, saved), p)
    {
      MergeKeepsBlocked(s, saved, p.key, p.n);
    }
  }

  lemma StepKeepsSafe(w: World, step: Step)
    requires Safe(w) && Enabled(w, step)
    ensures Safe(Take(w, step))
  {
    match step {
      case Grant(_, _, _, _) => GrantKeepsSafe(w, step);
      case Record(_) => RecordKeepsSafe(w, step);
      case Outcome(_, _) => OutcomeKeepsSafe(w, step);
      case Drop(_) => DropKeepsSafe(w, step);
      case Restore(_) => RestoreKeepsSafe(w, step);
      case _ =>
    }
  }

  // ---- signatures made ahead of the recording ----

  ghost predicate Making(w: World, p: Nonce) {
    exists id :: id in w.live && !w.live[id].signed && p in w.live[id].made
  }

  /** Every signature made ahead is still being held by its maker, recorded, or discarded. */
  ghost predicate Conserved(w: World) {
    forall p :: w.made[p] == w.discarded[p] + (if Making(w, p) then 1 else 0) + (if p in w.kept then 1 else 0)
  }

  lemma OnlyMaker(w: World, id: nat, p: Nonce)
    requires Safe(w) && id in w.live && !w.live[id].signed && p in w.live[id].slots
    ensures forall j :: j in w.live && j != id && !w.live[j].signed ==> p !in w.live[j].made
    ensures p !in w.kept
  {
    assert OwnNonces(w, id);
    forall j | j in w.live && j != id && !w.live[j].signed
      ensures p !in w.live[j].made
    {
      assert OwnNonces(w, j) && Apart(w.live[id], w.live[j]);
    }
  }

  lemma MakersAfter(w: World, v: World, id: nat, p: Nonce)
    requires forall j :: j != id ==> (j in w.live <==> j in v.live) && (j in w.live ==> w.live[j] == v.live[j])
    requires id in w.live && !w.live[id].signed && p in w.live[id].made
             ==> forall j :: j in w.live && j != id && !w.live[j].signed ==> p !in w.live[j].made
    requires !(id in v.live && !v.live[id].signed && p in v.live[id].made)
    ensures Making(v, p) <==> Making(w, p) && !(id in w.live && !w.live[id].signed && p in w.live[id].made)
  {
    if Making(v, p) {
      var j :| j in v.live && !v.live[j].signed && p in v.live[j].made;
      assert j in w.live && !w.live[j].signed && p in w.live[j].made;
    }
    if Making(w, p) {
      var j :| j in w.live && !w.live[j].signed && p in w.live[j].made;
      if j != id {
        assert j in v.live && !v.live[j].signed && p in v.live[j].made;
      }
    }
  }

  lemma MakeConserves(w: World, step: Step)
    requires Safe(w) && Conserved(w) && Enabled(w, step) && step.Make?
    ensures Conserved(Take(w, step))
  {
    var v, id := Take(w, step), step.id;
    OnlyMaker(w, id, step.nonce);
    hide Safe, Take;
    forall p
      ensures v.made[p] == v.discarded[p] + (if Making(v, p) then 1 else 0) + (if p in v.kept then 1 else 0)
    {
      if p == step.nonce {
        assert id in v.live && !v.live[id].signed && p in v.live[id].made;
        assert !Making(w, p);
      } else {
        MakingSame(w, v, p);
      }
    }
  }

  lemma RecordConserves(w: World, step: Step)
    requires Safe(w) && Conserved(w) && Enabled(w, step) && step.Record?
    ensures Conserved(Take(w, step))
  {
    var v, id := Take(w, step), step.id;
    hide Safe, AllSigned;
    forall p
      ensures v.made[p] == v.discarded[p] + (if Making(v, p) then 1 else 0) + (if p in v.kept then 1 else 0)
    {
      OwnMadeIsOwn(w, id, p);
      MakersAfter(w, v, id, p);
    }
  }

  lemma DropConserves(w: World, step: Step)
    requires Safe(w) && Conserved(w) && Enabled(w, step) && step.Drop?
    ensures Conserved(Take(w, step))
  {
    var v, id := Take(w, step), step.id;
    var slots := w.live[id].slots;
    hide Safe, AfterRelease, Conserved;
    if slots == [] {
      NothingMade(w, id);
      SameMakersConserve(w, v);
    } else if w.live[id].signed || slots[|slots| - 1] !in w.live[id].made {
      SameMakersConserve(w, v);
    } else {
      OwnMadeIsOwn(w, id, slots[|slots| - 1]);
      LostConserves(w, v, id, slots[|slots| - 1]);
    }
  }

  lemma SameMakersConserve(w: World, v: World)
    requires Conserved(w) && v.made == w.made && v.kept == w.kept && v.discarded == w.discarded
    requires forall j, p :: j in w.live && !w.live[j].signed && p in w.live[j].made ==>
                              j in v.live && !v.live[j].signed && p in v.live[j].made
    requires forall j, p :: j in v.live && !v.live[j].signed && p in v.live[j].made ==>
                              j in w.live && !w.live[j].signed && p in w.live[j].made
    ensures Conserved(v)
  {
    forall p
      ensures v.made[p] == v.discarded[p] + (if Making(v, p) then 1 else 0) + (if p in v.kept then 1 else 0)
    {
      MakingSame(w, v, p);
    }
  }

  lemma LostConserves(w: World, v: World, id: nat, lost: Nonce)
    requires Conserved(w) && v.made == w.made && v.kept == w.kept && v.discarded == w.discarded + multiset{lost}
    requires id in w.live && !w.live[id].signed && lost in w.live[id].made && lost !in w.kept
    requires id in v.live && v.live == w.live[id := v.live[id]]
    requires !v.live[id].signed && v.live[id].made == w.live[id].made - {lost}
    requires forall j :: j in w.live && j != id && !w.live[j].signed ==> lost !in w.live[j].made
    ensures Conserved(v)
  {
    forall p
      ensures v.made[p] == v.discarded[p] + (if Making(v, p) then 1 else 0) + (if p in v.kept then 1 else 0)
    {
      if p == lost {
        MakersAfter(w, v, id, p);
      } else {
        MakingSame(w, v, p);
      }
    }
  }

  lemma NothingMade(w: World, id: nat)
    requires Safe(w) && id in w.live && w.live[id].slots == []
    ensures w.live[id].made == {}
  {
    assert OwnNonces(w, id);
  }

  lemma OtherConserves(w: World, step: Step)
    requires Conserved(w) && Enabled(w, step) && !step.Make? && !step.Record? && !step.Drop?
    ensures Conserved(Take(w, step))
  {
    var v := Take(w, step);
    hide AfterSlot, AllOutcome, Merged, AfterHead, Granted;
    forall p
      ensures v.made[p] == v.discarded[p] + (if Making(v, p) then 1 else 0) + (if p in v.kept then 1 else 0)
    {
      MakingSame(w, v, p);
    }
  }

  lemma StepConserves(w: World, step: Step)
    requires Safe(w) && Conserved(w) && Enabled(w, step)
    ensures Conserved(Take(w, step))
  {
    hide *;
    match step {
      case Make(_, _) => MakeConserves(w, step);
      case Record(_) => RecordConserves(w, step);
      case Drop(_) => DropConserves(w, step);
      case _ => OtherConserves(w, step);
    }
  }

  lemma OwnMadeIsOwn(w: World, id: nat, p: Nonce)
    requires Safe(w) && id in w.live && !w.live[id].signed
    ensures p in w.live[id].made ==>
              p !in w.kept && forall j :: j in w.live && j != id && !w.live[j].signed ==> p !in w.live[j].made
  {
    assert OwnNonces(w, id);
    if p in w.live[id].made {
      OnlyMaker(w, id, p);
    }
  }

  lemma MakingSame(w: World, v: World, p: Nonce)
    requires forall j :: j in w.live && !w.live[j].signed && p in w.live[j].made ==>
                           j in v.live && !v.live[j].signed && p in v.live[j].made
    requires forall j :: j in v.live && !v.live[j].signed && p in v.live[j].made ==>
                           j in w.live && !w.live[j].signed && p in w.live[j].made
    ensures Making(v, p) <==> Making(w, p)
  {
  }

  lemma {:induction false} RunsAreSafe(steps: seq<Step>)
    requires Reached(steps).Some?
    ensures Safe(Reached(steps).value) && Conserved(Reached(steps).value)
  {
    if steps != [] {
      var before := steps[..|steps| - 1];
      RunsAreSafe(before);
      StepKeepsSafe(Reached(before).value, steps[|steps| - 1]);
      StepConserves(Reached(before).value, steps[|steps| - 1]);
    }
  }

  /**
   * One nonce, one signature: in every interleaving of any number of signings that name no nonce, no
   * nonce is recorded as signed twice, no two signings under way share one, and none of theirs was
   * recorded before.
   */
  lemma OneNonceOneSignature(steps: seq<Step>)
    requires Reached(steps).Some?
    ensures var w := Reached(steps).value;
            && NoDuplicates(w.log)
            && (forall i, j :: i in w.live && j in w.live && i != j ==> Apart(w.live[i], w.live[j]))
            && (forall i, p :: i in w.live && !w.live[i].signed && p in w.live[i].slots ==> p !in w.log)
  {
    RunsAreSafe(steps);
    var w := Reached(steps).value;
    forall i, p | i in w.live && !w.live[i].signed && p in w.live[i].slots
      ensures p !in w.log
    {
      assert OwnNonces(w, i);
    }
  }

  /**
   * A signature made ahead of the recording can be made again for the same nonce exactly when an
   * earlier one was discarded unrecorded; of all made for one nonce at most one is not discarded.
   */
  lemma RemadeOnlyAfterDiscard(steps: seq<Step>, p: Nonce)
    requires Reached(steps).Some?
    ensures var w := Reached(steps).value;
            && w.discarded[p] <= w.made[p] <= w.discarded[p] + 1
            && (w.made[p] == w.discarded[p] + 1 <==> Making(w, p) || p in w.kept)
            && (w.made[p] >= 2 <==> w.discarded[p] >= 2 || (w.discarded[p] == 1 && (Making(w, p) || p in w.kept)))
  {
    RunsAreSafe(steps);
    var w := Reached(steps).value;
    if id :| id in w.live && !w.live[id].signed && p in w.live[id].made {
      assert OwnNonces(w, id);
      OnlyMaker(w, id, p);
    }
  }

  /**
   * The guard a caller can look at before signing ahead: the signature about to be made is a second
   * one exactly when an earlier one for this nonce was discarded unrecorded.
   */
  lemma SecondSignatureNeedsADiscard(steps: seq<Step>, id: nat, p: Nonce)
    requires Reached(steps).Some? && Enabled(Reached(steps).value, Make(id, p))
    ensures var w := Reached(steps).value;
            Take(w, Make(id, p)).made[p] >= 2 <==> w.discarded[p] >= 1
  {
    RunsAreSafe(steps);
    var w := Reached(steps).value;
    assert OwnNonces(w, id);
    forall other | other in w.live && other != id && !w.live[other].signed
      ensures p !in w.live[other].made
    {
      assert OwnNonces(w, other) && Apart(w.live[id], w.live[other]);
    }
    assert !Making(w, p) && p !in w.kept;
  }

  lemma OneMoreStep(steps: seq<Step>, step: Step)
    requires Reached(steps).Some? && Enabled(Reached(steps).value, step)
    ensures Reached(steps + [step]) == Some(Take(Reached(steps).value, step))
  {
    assert (steps + [step])[..|steps|] == steps;
  }

  lemma ZeroIsGranted(s: State, key: Key)
    requires HeldAt(s, key) == map[] && 0 !in ReservedAt(s, key) && (key in s.next ==> s.next[key] == 0)
    ensures Granted(s, key, 0, None, true)
    ensures AfterSlot(s, key, 0, None, true)
            == State(s.next[key := 0], s.held[key := map[]], s.reserved[key := ReservedAt(s, key) + {0}], s.heads)
  {
    assert Kept(HeldAt(s, key), 0, false) == map[];
  }

  lemma GrantZero(w: World, id: nat, key: Key)
    requires id !in w.live && Granted(w.session, key, 0, None, true)
    ensures Take(w, Grant(id, key, 0, true))
            == w.(session := AfterSlot(w.session, key, 0, None, true),
                  live := w.live[id := Signing([Nonce(key, 0)], {}, false, false)])
  {
    hide Granted, AfterSlot;
    var none: seq<Nonce> := [];
    assert none + [Nonce(key, 0)] == [Nonce(key, 0)];
  }

  lemma MakeOne(w: World, id: nat, p: Nonce)
    requires id in w.live && w.live[id] == Signing([p], {}, false, false)
    ensures Enabled(w, Make(id, p))
    ensures Take(w, Make(id, p))
            == w.(live := w.live[id := Signing([p], {p}, false, false)], made := w.made + multiset{p})
  {
    var none: set<Nonce> := {};
    assert none + {p} == {p};
  }

  lemma DropOne(w: World, id: nat, p: Nonce)
    requires id in w.live && w.live[id] == Signing([p], {p}, false, false)
    ensures Take(w, Drop(id))
            == w.(session := AfterRelease(w.session, p.key, p.n), live := w.live[id := Signing([], {}, false, true)],
                  discarded := w.discarded + multiset{p})
  {
    hide AfterRelease;
    assert [p][..0] == [] && {p} - {p} == {};
  }

  lemma GrantThenMake(steps: seq<Step>, id: nat, key: Key) returns (longer: seq<Step>)
    requires Reached(steps).Some? && id !in Reached(steps).value.live
    requires Granted(Reached(steps).value.session, key, 0, None, true)
    ensures Reached(longer).Some?
    ensures var w, v := Reached(steps).value, Reached(longer).value;
            && v.session == AfterSlot(w.session, key, 0, None, true)
            && v.live == w.live[id := Signing([Nonce(key, 0)], {Nonce(key, 0)}, false, false)]
            && v.log == w.log && v.made == w.made + multiset{Nonce(key, 0)}
  {
    hide Reached, AfterSlot, Granted, Take;
    var w, p, grant := Reached(steps).value, Nonce(key, 0), Grant(id, key, 0, true);
    GrantZero(w, id, key);
    OneMoreStep(steps, grant);
    var next := Take(w, grant);
    MakeOne(next, id, p);
    hide Enabled;
    OneMoreStep(steps + [grant], Make(id, p));
    longer := steps + [grant] + [Make(id, p)];
  }

  /**
   * Two signatures for one order nonce can be made: an order is signed, the account nonce is then
   * refused, the guard drops, and the next call is granted and signs the same order nonce.
   */
  lemma AnOrderNonceCanBeSignedTwice(key: Key) returns (steps: seq<Step>)
    ensures Reached(steps).Some?
    ensures Reached(steps).value.made[Nonce(key, 0)] == 2 && Reached(steps).value.log == []
  {
    var p := Nonce(key, 0);
    ZeroIsGranted(FRESH, key);
    hide Granted, Take;
    assert Reached([]) == Some(START);
    steps := GrantThenMake([], 0, key);
    hide Reached;
    var w := Reached(steps).value;
    DropOne(w, 0, p);
    OneMoreStep(steps, Drop(0));
    ZeroIsGranted(AfterRelease(w.session, key, 0), key);
    steps := GrantThenMake(steps + [Drop(0)], 1, key);
  }
}
