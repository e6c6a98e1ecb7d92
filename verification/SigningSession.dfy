/** The per-process record of nonces: which were reached, which carry a signature, which are in use. */
module SigningSession {
  import opened Machine

  type Key = string
  type Slots = map<u64, bool>

  datatype Head = Head(height: u64, at: u64)

  /** The session's fields; in `held` a slot is `true` once its transaction was accepted. */
  datatype State = State(next: map<Key, u64>, held: map<Key, Slots>, reserved: map<Key, set<u64>>,
                         heads: map<string, Head>)

  /** What a saved session restores: everything but the reservations of signings in progress. */
  datatype Saved = Saved(next: map<Key, u64>, held: map<Key, Slots>, heads: map<string, Head>)

  const FRESH := State(map[], map[], map[], map[])

  function HeldAt(s: State, key: Key): Slots {
    if key in s.held then s.held[key] else map[]
  }

  function ReservedAt(s: State, key: Key): set<u64> {
    if key in s.reserved then s.reserved[key] else {}
  }

  // ---- what each call does to the session ----

  /** What survives in `held` when the chain reports a nonce: only what is not settled below it. */
  function Kept(slots: Slots, reported: u64, named: bool): Slots {
    map n | n in slots && !(slots[n] && n < reported) && (named ==> n > reported) :: slots[n]
  }

  /** An order nonce must be exactly the one this session tracked, and zero when it tracked none. */
  predicate OrderOutOfStep(s: State, key: Key, reported: u64) {
    if key in s.next then reported > s.next[key] else reported > 0
  }

  predicate HasStale(slots: Slots, reported: u64) {
    exists n :: n in slots && n < reported && !slots[n]
  }

  /** A call that names no nonce is refused before it touches anything. */
  predicate RefusedOutright(s: State, key: Key, reported: u64, expected: Option<u64>) {
    if expected.Some? then expected.value != reported
    else key in s.next && reported < s.next[key]
  }

  /** A call that names no nonce is refused after settled slots were dropped. */
  predicate RefusedUnnamed(s: State, key: Key, reported: u64, order: bool) {
    var kept := Kept(HeldAt(s, key), reported, false);
    (order && OrderOutOfStep(s, key, reported)) || reported in kept || HasStale(kept, reported)
  }

  /** `slot` grants the reported nonce, or nothing; it may drop settled slots either way. */
  predicate Granted(s: State, key: Key, reported: u64, expected: Option<u64>, order: bool) {
    && !RefusedOutright(s, key, reported, expected)
    && (expected.None? ==> !RefusedUnnamed(s, key, reported, order) && reported !in ReservedAt(s, key))
  }

  function AfterSlot(s: State, key: Key, reported: u64, expected: Option<u64>, order: bool): State {
    if RefusedOutright(s, key, reported, expected) then s
    else
      var pruned := s.(held := s.held[key := Kept(HeldAt(s, key), reported, expected.Some?)]);
      if expected.None? && RefusedUnnamed(s, key, reported, order) then pruned
      else
        var reserving := pruned.(reserved := s.reserved[key := ReservedAt(s, key) + {reported}]);
        if expected.None? && reported in ReservedAt(s, key) then reserving
        else
          var local := if key in s.next then s.next[key] else reported;
          reserving.(next := s.next[key := Max(local, reported)])
  }

  function AfterRelease(s: State, key: Key, slot: u64): State {
    if key in s.reserved then s.(reserved := s.reserved[key := s.reserved[key] - {slot}]) else s
  }

  function AfterSigned(s: State, key: Key, slot: u64): State {
    var released := AfterRelease(s, key, slot);
    released.(held := s.held[key := HeldAt(s, key)[slot := false]])
  }

  function AfterOutcome(s: State, key: Key, slot: u64, accepted: bool): State {
    if !accepted then s
    else
      var local := if key in s.next then s.next[key] else 0;
      s.(held := s.held[key := HeldAt(s, key)[slot := true]],
         next := s.next[key := Max(local, SaturatingAdd64(slot, 1))])
  }

  /** `note_head`: the highest head wins and keeps the time it was first seen at. */
  function HigherHead(heads: map<string, Head>, chain: string, head: Head): Head {
    if chain in heads && head.height <= heads[chain].height then heads[chain] else head
  }

  function AfterHead(s: State, chain: string, head: Head): State {
    s.(heads := s.heads[chain := HigherHead(s.heads, chain, head)])
  }

  function SavedOf(s: State): Saved {
    Saved(s.next, map k | k in s.held && s.held[k] != map[] :: s.held[k], s.heads)
  }

  /** `import_state`: the higher nonce and head win, saved slots replace the session's own. */
  function Merged(s: State, saved: Saved): State {
    State(
      map k | k in s.next.Keys + saved.next.Keys ::
        if k !in saved.next then s.next[k] else if k !in s.next then saved.next[k] else Max(s.next[k], saved.next[k]),
      map k | k in s.held.Keys + saved.held.Keys ::
        if k in saved.held then HeldAt(s, k) + saved.held[k] else s.held[k],
      s.reserved,
      map c | c in s.heads.Keys + saved.heads.Keys ::
        if c in saved.heads then HigherHead(s.heads, c, saved.heads[c]) else s.heads[c])
  }

  // ---- what a call is granted, over the maps alone ----

  /**
   * A named call needs the name to be the reported nonce. Any other call needs a nonce not below the
   * next one, exactly the tracked one for an order, nothing held at it, nothing below it that was
   * signed and not accepted, and no signing in progress on it.
   */
  predicate MayGrant(next: map<Key, u64>, held: map<Key, Slots>, reserved: map<Key, set<u64>>, key: Key, n: u64,
                     expected: Option<u64>, order: bool)
  {
    if expected.Some? then expected.value == n
    else
      && (key in next ==> next[key] <= n)
      && (order ==> if key in next then n == next[key] else n == 0)
      && (key in held ==> forall m :: m in held[key] && m <= n ==> m < n && held[key][m])
      && (key in reserved ==> n !in reserved[key])
  }

  lemma GrantIsExact(s: State, key: Key, n: u64, expected: Option<u64>, order: bool)
    ensures Granted(s, key, n, expected, order) <==> MayGrant(s.next, s.held, s.reserved, key, n, expected, order)
  {
    if expected.None? && key in s.held {
      var kept := Kept(s.held[key], n, false);
      assert forall m :: m in kept <==> m in s.held[key] && !(s.held[key][m] && m < n);
      if MayGrant(s.next, s.held, s.reserved, key, n, expected, order) {
        assert n !in kept;
        assert !HasStale(kept, n);
      }
      if Granted(s, key, n, expected, order) {
        assert forall m :: m in kept ==> m != n && (m < n ==> kept[m]);
      }
    }
  }

  // ---- the class ----

  class Session {
    var next: map<Key, u64>
    var held: map<Key, Slots>
    var reserved: map<Key, set<u64>>
    var heads: map<string, Head>

    ghost function Now(): State
      reads this
    {
      State(next, held, reserved, heads)
    }

    constructor ()
      ensures Now() == FRESH
    {
      next, held, reserved, heads := map[], map[], map[], map[];
    }

    method Slot(key: Key, reported: u64, expected: Option<u64>, order: bool) returns (r: Option<u64>)
      modifies this
      ensures r == if Granted(old(Now()), key, reported, expected, order) then Some(reported) else None
      ensures r == Some(reported) <==> MayGrant(old(next), old(held), old(reserved), key, reported, expected, order)
      ensures Now() == AfterSlot(old(Now()), key, reported, expected, order)
    {
      hide MayGrant;
      ghost var before := Now();
      GrantIsExact(before, key, reported, expected, order);
      r := CheckedSlot(key, reported, expected, order);
    }

    /** The body of `slot`. */
    method CheckedSlot(key: Key, reported: u64, expected: Option<u64>, order: bool) returns (r: Option<u64>)
      modifies this
      ensures r == if Granted(old(Now()), key, reported, expected, order) then Some(reported) else None
      ensures Now() == AfterSlot(old(Now()), key, reported, expected, order)
    {
      if expected.Some? && expected.value != reported {
        return None;
      }
      if expected.None? {
        if key in next && reported < next[key] {
          return None;
        }
      }
      var slots: Slots := if key in held then held[key] else map[];
      slots := map n | n in slots && !(slots[n] && n < reported) :: slots[n];
      if expected.Some? {
        slots := map n | n in slots && n > reported :: slots[n];
        held := held[key := slots];
      } else {
        held := held[key := slots];
        assert slots == Kept(HeldAt(old(Now()), key), reported, false);
        var clear := UnnamedMaySign(key, reported, order, slots);
        if !clear {
          return None;
        }
      }
      assert slots == Kept(HeldAt(old(Now()), key), reported, expected.Some?);
      r := Reserve(key, reported, expected.Some?);
    }

    /** The checks of `slot` for a call that names no nonce. */
    method UnnamedMaySign(key: Key, reported: u64, order: bool, slots: Slots) returns (ok: bool)
      ensures ok <==> !(order && OrderOutOfStep(Now(), key, reported)) && reported !in slots && !HasStale(slots, reported)
      ensures ok ==> forall n :: n in slots && n <= reported ==> n < reported && slots[n]
    {
      if order {
        if key in next && reported > next[key] {
          return false;
        }
        if key !in next && reported > 0 {
          return false;
        }
      }
      if reported in slots {
        return false;
      }
      if exists n :: n in slots && n < reported && !slots[n] {
        return false;
      }
      return true;
    }

    /** The end of `slot`: one signing at a time per nonce, unless it is named. */
    method Reserve(key: Key, reported: u64, named: bool) returns (r: Option<u64>)
      modifies this`reserved, this`next
      ensures reserved == old(reserved)[key := ReservedAt(old(Now()), key) + {reported}]
      ensures r == if named || reported !in ReservedAt(old(Now()), key) then Some(reported) else None
      ensures r.Some? ==> next == old(next)[key := Max(if key in old(next) then old(next)[key] else reported, reported)]
      ensures r.None? ==> next == old(next)
    {
      var taken := if key in reserved then reserved[key] else {};
      var already := reported in taken;
      reserved := reserved[key := taken + {reported}];
      if already && !named {
        return None;
      }
      var local := if key in next then next[key] else reported;
      next := next[key := Max(local, reported)];
      return Some(reported);
    }

    method Release(key: Key, slot: u64)
      modifies this`reserved
      ensures Now() == AfterRelease(old(Now()), key, slot)
    {
      if key in reserved {
        reserved := reserved[key := reserved[key] - {slot}];
      }
    }

    method Signed(key: Key, slot: u64)
      modifies this
      ensures Now() == AfterSigned(old(Now()), key, slot)
    {
      Release(key, slot);
      var slots: Slots := if key in held then held[key] else map[];
      held := held[key := slots[slot := false]];
    }

    method Outcome(key: Key, slot: u64, accepted: bool)
      modifies this
      ensures Now() == AfterOutcome(old(Now()), key, slot, accepted)
    {
      if !accepted {
        return;
      }
      var slots: Slots := if key in held then held[key] else map[];
      held := held[key := slots[slot := true]];
      var local := if key in next then next[key] else 0;
      next := next[key := Max(local, SaturatingAdd64(slot, 1))];
    }

    method NoteHead(chain: string, height: u64, wallSecs: u64)
      modifies this`heads
      ensures Now() == AfterHead(old(Now()), chain, Head(height, wallSecs))
    {
      if chain !in heads {
        heads := heads[chain := Head(height, wallSecs)];
      }
      if height > heads[chain].height {
        heads := heads[chain := Head(height, wallSecs)];
      }
    }
  }

  // ---- what every session keeps ----

  /** An accepted slot lies below the next nonce; the one at the very top cannot. */
  ghost predicate Settled(s: State) {
    forall k, n :: k in s.held && n in s.held[k] && s.held[k][n] ==>
      k in s.next && (n < s.next[k] || n == s.next[k] == U64_MAX)
  }

  /** The session remembers, one way or the other, that this nonce is used up. */
  ghost predicate Blocked(s: State, key: Key, n: u64) {
    n in HeldAt(s, key) || (key in s.next && n < s.next[key])
  }

  /** A call that does not name the nonce is never granted a blocked one, in any session at all. */
  lemma UnnamedGrantIsNotBlocked(s: State, key: Key, n: u64, order: bool)
    requires Granted(s, key, n, None, order)
    ensures !Blocked(s, key, n)
    ensures n !in ReservedAt(s, key)
  {
  }

  datatype Event =
    | Slot(key: Key, reported: u64, expected: Option<u64>, order: bool)
    | Signed(key: Key, slot: u64)
    | Outcome(key: Key, slot: u64, accepted: bool)
    | Release(key: Key, slot: u64)
    | NoteHead(chain: string, head: Head)
    | Import(saved: Saved)

  function After(s: State, e: Event): State {
    match e
    case Slot(key, reported, expected, order) => AfterSlot(s, key, reported, expected, order)
    case Signed(key, slot) => AfterSigned(s, key, slot)
    case Outcome(key, slot, accepted) => AfterOutcome(s, key, slot, accepted)
    case Release(key, slot) => AfterRelease(s, key, slot)
    case NoteHead(chain, head) => AfterHead(s, chain, head)
    case Import(saved) => Merged(s, saved)
  }

  // ---- what every call changes, over the maps alone ----

  predicate IsHeld(s: State, k: Key, n: u64, accepted: bool) {
    k in s.held && n in s.held[k] && s.held[k][n] == accepted
  }

  predicate IsReserved(s: State, k: Key, n: u64) {
    k in s.reserved && n in s.reserved[k]
  }

  ghost predicate SameHeld(s: State, t: State) {
    forall k, n: u64, a :: IsHeld(t, k, n, a) <==> IsHeld(s, k, n, a)
  }

  ghost predicate SameReserved(s: State, t: State) {
    forall k, n: u64 :: IsReserved(t, k, n) <==> IsReserved(s, k, n)
  }

  /** A grant reserves the nonce, keeps exactly the held nonces above it, and never lowers the next one. */
  ghost predicate GrantChanges(s: State, t: State, key: Key, n: u64) {
    && t.heads == s.heads
    && t.next == s.next[key := if key in s.next && s.next[key] > n then s.next[key] else n]
    && (forall k, m: u64 :: IsReserved(t, k, m) <==> IsReserved(s, k, m) || (k == key && m == n))
    && (forall k, m: u64, a :: IsHeld(t, k, m, a) <==> IsHeld(s, k, m, a) && (k == key ==> m > n))
  }

  /**
   * A refusal changes nothing but that accepted nonces below the reported one are forgotten, and that
   * only when no other nonce was named and the reported one is not below the next.
   */
  ghost predicate RefusalChanges(s: State, t: State, key: Key, n: u64, expected: Option<u64>) {
    && t.heads == s.heads && t.next == s.next && SameReserved(s, t)
    && forall k, m: u64, a :: IsHeld(t, k, m, a) <==>
         IsHeld(s, k, m, a)
         && !(k == key && a && m < n && expected.None? && (key in s.next ==> s.next[key] <= n))
  }

  ghost predicate ImportChanges(s: State, t: State, saved: Saved) {
    && SameReserved(s, t)
    && (forall k :: k in t.next <==> k in s.next || k in saved.next)
    && (forall k :: k in t.next ==>
          && (k in s.next ==> s.next[k] <= t.next[k]) && (k in saved.next ==> saved.next[k] <= t.next[k])
          && ((k in s.next && t.next[k] == s.next[k]) || (k in saved.next && t.next[k] == saved.next[k])))
    && (forall k, n: u64, a :: IsHeld(t, k, n, a) <==>
          if k in saved.held && n in saved.held[k] then a == saved.held[k][n] else IsHeld(s, k, n, a))
    && (forall c :: c in t.heads <==> c in s.heads || c in saved.heads)
    && (forall c :: c in t.heads ==>
          t.heads[c] == if c in saved.heads && (c in s.heads ==> saved.heads[c].height > s.heads[c].height)
                        then saved.heads[c] else s.heads[c])
  }

  ghost predicate Changes(s: State, e: Event, t: State) {
    match e
    case Slot(key, n, expected, order) =>
      if MayGrant(s.next, s.held, s.reserved, key, n, expected, order) then GrantChanges(s, t, key, n)
      else RefusalChanges(s, t, key, n, expected)
    case Signed(key, n) =>
      && t.next == s.next && t.heads == s.heads
      && (forall k, m: u64 :: IsReserved(t, k, m) <==> IsReserved(s, k, m) && !(k == key && m == n))
      && (forall k, m: u64, a :: IsHeld(t, k, m, a) <==> if k == key && m == n then !a else IsHeld(s, k, m, a))
    case Outcome(key, n, accepted) =>
      && SameReserved(s, t) && t.heads == s.heads
      && (!accepted ==> t.next == s.next && SameHeld(s, t))
      && (accepted ==>
            && (forall k, m: u64, a :: IsHeld(t, k, m, a) <==> if k == key && m == n then a else IsHeld(s, k, m, a))
            && (var after := if n == U64_MAX then n else n + 1;
                t.next == s.next[key := if key in s.next && s.next[key] > after then s.next[key] else after]))
    case Release(key, n) =>
      && t.next == s.next && t.held == s.held && t.heads == s.heads
      && forall k, m: u64 :: IsReserved(t, k, m) <==> IsReserved(s, k, m) && !(k == key && m == n)
    case NoteHead(chain, head) =>
      && t.next == s.next && t.held == s.held && t.reserved == s.reserved
      && t.heads
         == s.heads[chain := if chain in s.heads && s.heads[chain].height >= head.height then s.heads[chain] else head]
    case Import(saved) => ImportChanges(s, t, saved)
  }

  /** Every call changes the maps as it should, refusals included. */
  lemma CallChanges(s: State, e: Event)
    ensures Changes(s, e, After(s, e))
  {
    match e {
      case Slot(key, n, expected, order) => SlotChanges(s, key, n, expected, order);
      case Signed(key, n) => SignedChanges(s, key, n);
      case Outcome(key, n, accepted) => OutcomeChanges(s, key, n, accepted);
      case Import(saved) => MergeChanges(s, saved);
      case _ =>
    }
  }

  lemma SignedChanges(s: State, key: Key, n: u64)
    ensures Changes(s, Signed(key, n), AfterSigned(s, key, n))
  {
  }

  lemma OutcomeChanges(s: State, key: Key, n: u64, accepted: bool)
    ensures Changes(s, Outcome(key, n, accepted), AfterOutcome(s, key, n, accepted))
  {
  }

  lemma MergeChanges(s: State, saved: Saved)
    ensures ImportChanges(s, Merged(s, saved), saved)
  {
    var t := Merged(s, saved);
    forall k, n: u64, a
      ensures IsHeld(t, k, n, a) <==>
                if k in saved.held && n in saved.held[k] then a == saved.held[k][n] else IsHeld(s, k, n, a)
    {
    }
  }

  lemma SlotChanges(s: State, key: Key, n: u64, expected: Option<u64>, order: bool)
    ensures var t := AfterSlot(s, key, n, expected, order);
            if MayGrant(s.next, s.held, s.reserved, key, n, expected, order) then GrantChanges(s, t, key, n)
            else RefusalChanges(s, t, key, n, expected)
  {
    GrantIsExact(s, key, n, expected, order);
    hide MayGrant;
    if Granted(s, key, n, expected, order) {
      GrantedChanges(s, key, n, expected, order);
    } else {
      RefusedChanges(s, key, n, expected, order);
    }
  }

  lemma GrantedChanges(s: State, key: Key, n: u64, expected: Option<u64>, order: bool)
    requires Granted(s, key, n, expected, order)
    ensures GrantChanges(s, AfterSlot(s, key, n, expected, order), key, n)
  {
    var t := AfterSlot(s, key, n, expected, order);
    assert t.held[key] == Kept(HeldAt(s, key), n, expected.Some?);
    forall k, m: u64, a
      ensures IsHeld(t, k, m, a) <==> IsHeld(s, k, m, a) && (k == key ==> m > n)
    {
      if k == key && m in HeldAt(s, key) && expected.None? {
        KeptIsAbove(HeldAt(s, key), n, m);
      }
    }
  }

  lemma KeptIsAbove(slots: Slots, n: u64, m: u64)
    requires m in slots
    requires n !in Kept(slots, n, false) && !HasStale(Kept(slots, n, false), n)
    ensures m in Kept(slots, n, false) <==> m > n
  {
    assert m == n ==> m in Kept(slots, n, false);
  }

  lemma RefusedChanges(s: State, key: Key, n: u64, expected: Option<u64>, order: bool)
    requires !Granted(s, key, n, expected, order)
    ensures RefusalChanges(s, AfterSlot(s, key, n, expected, order), key, n, expected)
  {
    hide RefusedUnnamed;
    var t := AfterSlot(s, key, n, expected, order);
    if RefusedOutright(s, key, n, expected) {
      assert t == s;
    } else {
      assert expected.None?;
      assert t.held[key] == Kept(HeldAt(s, key), n, false);
      assert t.next == s.next && t.heads == s.heads;
    }
  }

  /** An import restores something a session with settled slots exported. */
  ghost predicate Honest(e: Event) {
    e.Import? ==> exists from :: Settled(from) && e.saved == SavedOf(from)
  }

  lemma SettledPersists(s: State, e: Event)
    requires Settled(s) && Honest(e)
    ensures Settled(After(s, e))
  {
    match e {
      case Slot(key, reported, expected, order) =>
        SlotKeepsSettled(s, key, reported, expected, order);
      case Outcome(key, slot, accepted) =>
        OutcomeKeepsSettled(s, key, slot, accepted);
      case Import(saved) =>
        var from :| Settled(from) && saved == SavedOf(from);
        MergeKeepsSettled(s, from);
      case _ =>
    }
  }

  lemma SlotKeepsSettled(s: State, key: Key, reported: u64, expected: Option<u64>, order: bool)
    requires Settled(s)
    ensures Settled(AfterSlot(s, key, reported, expected, order))
  {
    hide RefusedUnnamed, RefusedOutright, ReservedAt;
  }

  lemma OutcomeKeepsSettled(s: State, key: Key, slot: u64, accepted: bool)
    requires Settled(s)
    ensures Settled(AfterOutcome(s, key, slot, accepted))
  {
  }

  lemma MergeKeepsSettled(s: State, from: State)
    requires Settled(s) && Settled(from)
    ensures Settled(Merged(s, SavedOf(from)))
  {
    var m := Merged(s, SavedOf(from));
    forall k, n | k in m.held && n in m.held[k] && m.held[k][n]
      ensures k in m.next && (n < m.next[k] || n == m.next[k] == U64_MAX)
    {
      if k in SavedOf(from).held && n in from.held[k] {
        assert from.held[k][n];
      } else {
        assert s.held[k][n];
      }
    }
  }

  ghost predicate Names(e: Event, key: Key, n: u64) {
    e.Slot? && e.key == key && e.reported == n && e.expected == Some(n)
  }

  /** Only naming exactly this nonce unblocks it: no other call does, not even one that fails half way. */
  lemma BlockedPersists(s: State, e: Event, key: Key, n: u64)
    requires Settled(s) && Honest(e) && Blocked(s, key, n) && !Names(e, key, n)
    ensures Blocked(After(s, e), key, n)
  {
    match e {
      case Import(saved) => MergeKeepsBlocked(s, saved, key, n);
      case Slot(k, reported, expected, order) => SlotKeepsBlocked(s, k, reported, expected, order, key, n);
      case _ =>
    }
  }

  lemma SlotKeepsBlocked(s: State, k: Key, reported: u64, expected: Option<u64>, order: bool, key: Key, n: u64)
    requires Settled(s) && Blocked(s, key, n)
    requires k == key && reported == n && expected.Some? ==> expected.value != n
    ensures Blocked(AfterSlot(s, k, reported, expected, order), key, n)
  {
    hide RefusedUnnamed, ReservedAt;
    if k == key && !(key in s.next && n < s.next[key]) {
      assert n in s.held[key];
    }
  }

  lemma MergeKeepsBlocked(s: State, saved: Saved, key: Key, n: u64)
    requires Blocked(s, key, n)
    ensures Blocked(Merged(s, saved), key, n)
  {
    var m := Merged(s, saved);
    if n in HeldAt(s, key) {
      assert key in m.held && n in m.held[key];
    } else {
      assert key in m.next;
    }
  }

  /** `next` never goes back. */
  lemma NextNeverDecreases(s: State, e: Event, key: Key)
    requires key in s.next
    ensures key in After(s, e).next && s.next[key] <= After(s, e).next[key]
  {
  }

  // ---- whole runs ----

  function Run(s: State, events: seq<Event>): State {
    if events == [] then s else After(Run(s, events[..|events| - 1]), events[|events| - 1])
  }

  ghost predicate AllHonest(events: seq<Event>) {
    forall e :: e in events ==> Honest(e)
  }

  lemma {:induction false} RunSettled(events: seq<Event>)
    requires AllHonest(events)
    ensures Settled(Run(FRESH, events))
  {
    if events != [] {
      RunSettled(events[..|events| - 1]);
      SettledPersists(Run(FRESH, events[..|events| - 1]), events[|events| - 1]);
    }
  }

  lemma {:induction false} RunBlocked(events: seq<Event>, i: nat, j: nat, key: Key, n: u64)
    requires AllHonest(events) && i < j <= |events|
    requires Blocked(Run(FRESH, events[..i + 1]), key, n)
    requires forall m :: i < m < j ==> !Names(events[m], key, n)
    ensures Blocked(Run(FRESH, events[..j]), key, n)
  {
    if i + 1 < j {
      RunBlocked(events, i, j - 1, key, n);
      var before := events[..j - 1];
      assert events[..j][..j - 1] == before;
      RunSettled(before);
      BlockedPersists(Run(FRESH, before), events[j - 1], key, n);
    }
  }

  /**
   * Naming is the only way back: in every sequence of calls on a fresh session, an unnamed grant of
   * a nonce signed before has a call in between that names exactly that nonce.
   */
  lemma NamingIsTheOnlyWayBack(events: seq<Event>, i: nat, j: nat, key: Key, n: u64, order: bool)
    requires AllHonest(events) && i < j < |events|
    requires events[i] == Signed(key, n)
    requires events[j] == Slot(key, n, None, order)
    requires Granted(Run(FRESH, events[..j]), key, n, None, order)
    ensures exists m :: i < m < j && Names(events[m], key, n)
  {
    if forall m :: i < m < j ==> !Names(events[m], key, n) {
      assert events[..i + 1][..i] == events[..i];
      assert Blocked(Run(FRESH, events[..i + 1]), key, n);
      RunBlocked(events, i, j, key, n);
      UnnamedGrantIsNotBlocked(Run(FRESH, events[..j]), key, n, order);
    }
  }

  /** Naming a nonce always grants it, whatever the session holds. */
  lemma NamingAlwaysGrants(s: State, key: Key, n: u64, order: bool)
    ensures Granted(s, key, n, Some(n), order)
    ensures n in ReservedAt(AfterSlot(s, key, n, Some(n), order), key)
    ensures !exists m :: m <= n && m in HeldAt(AfterSlot(s, key, n, Some(n), order), key)
  {
  }

  // ---- an unaccepted nonce is in the way ----

  /** The calls after which a nonce signed before is out of the way. */
  ghost predicate Clears(e: Event, key: Key, m: u64) {
    || (e.Outcome? && e.key == key && e.slot == m && e.accepted)
    || (e.Slot? && e.key == key && e.expected == Some(e.reported) && e.reported >= m)
    || (e.Import? && key in e.saved.held && m in e.saved.held[key] && e.saved.held[key][m])
  }

  lemma UnacceptedStays(s: State, e: Event, key: Key, m: u64)
    requires IsHeld(s, key, m, false) && !Clears(e, key, m)
    ensures IsHeld(After(s, e), key, m, false)
  {
    CallChanges(s, e);
    hide After, MayGrant;
    if e.Slot? && e.key == key && MayGrant(s.next, s.held, s.reserved, key, e.reported, e.expected, e.order) {
      UnacceptedIsInTheWay(s, key, m, e.reported, e.expected, e.order);
    }
  }

  lemma UnacceptedIsInTheWay(s: State, key: Key, m: u64, n: u64, expected: Option<u64>, order: bool)
    requires IsHeld(s, key, m, false) && MayGrant(s.next, s.held, s.reserved, key, n, expected, order)
    ensures expected == Some(n) || n < m
  {
  }

  lemma {:induction false} RunKeepsUnaccepted(s: State, events: seq<Event>, i: nat, j: nat, key: Key, m: u64)
    requires i < j <= |events| && IsHeld(Run(s, events[..i + 1]), key, m, false)
    requires forall k :: i < k < j ==> !Clears(events[k], key, m)
    ensures IsHeld(Run(s, events[..j]), key, m, false)
  {
    if i + 1 < j {
      RunKeepsUnaccepted(s, events, i, j - 1, key, m);
      assert events[..j][..j - 1] == events[..j - 1];
      UnacceptedStays(Run(s, events[..j - 1]), events[j - 1], key, m);
    }
  }

  /**
   * In every sequence of calls, from any session, an unnamed grant above a nonce signed before has a
   * call in between that reports it accepted, names it or a later one, or imports it as accepted.
   */
  lemma NothingSignedIsSkipped(s: State, events: seq<Event>, i: nat, j: nat, key: Key, m: u64, n: u64, order: bool)
    requires i < j < |events| && m < n
    requires events[i] == Signed(key, m) && events[j] == Slot(key, n, None, order)
    requires Granted(Run(s, events[..j]), key, n, None, order)
    ensures exists k :: i < k < j && Clears(events[k], key, m)
  {
    hide After, Granted, MayGrant;
    if forall k :: i < k < j ==> !Clears(events[k], key, m) {
      assert events[..i + 1][..i] == events[..i];
      CallChanges(Run(s, events[..i]), events[i]);
      RunKeepsUnaccepted(s, events, i, j, key, m);
      GrantIsExact(Run(s, events[..j]), key, n, None, order);
      UnacceptedIsInTheWay(Run(s, events[..j]), key, m, n, None, order);
    }
  }
}
