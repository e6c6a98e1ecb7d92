/** How far a gateway can move the deadlines a client signs, over a whole run of calls. */
module HeadBound {
  import opened Machine
  import opened SigningSession

  const MAX_PLAUSIBLE_HEAD: u64 := 0x100_0000_0000
  const HEAD_SLACK_BLOCKS: u64 := 240
  const MAX_VALIDITY_BLOCKS: u64 := 3_600
  const DEFAULT_VALIDITY_BLOCKS: u64 := 300

  datatype Clock = Clock(genesisSecs: u64, blocksPerSec: u64)

  /** What the client knows of the chain it signs for: its name, whether it is public, and its clock. */
  datatype Chain = Chain(name: string, public: bool, clock: Option<Clock>)

  /** One call to `validity`: the head the gateway reports, the wall clock, and whether the head was verified. */
  datatype Call = Call(head: u64, wall: u64, verified: bool)

  // ---- the code ----

  /** `ChainClock::head_ceiling` */
  function HeadCeiling(clock: Clock, wall: u64): u64 {
    SaturatingAdd64(SaturatingMul64(SaturatingSub64(wall, clock.genesisSecs), clock.blocksPerSec), HEAD_SLACK_BLOCKS)
  }

  /** `check_valid_until` */
  predicate CheckValidUntil(validUntil: u64, head: u64) {
    && validUntil != 0
    && validUntil <= SaturatingAdd64(MAX_PLAUSIBLE_HEAD, MAX_VALIDITY_BLOCKS)
    && validUntil > head
    && validUntil - head <= MAX_VALIDITY_BLOCKS
  }

  /** `bounded_valid_until_for` */
  function BoundedValidUntilFor(clock: Option<Clock>, verified: bool, head: u64, wall: u64, floor: Option<u64>,
                                floorAge: u64): Option<u64>
  {
    if head > MAX_PLAUSIBLE_HEAD then None
    else if !verified && clock.None? then None
    else if !verified && head > HeadCeiling(clock.value, wall) then None
    else if floor.Some? && head < floor.value then None
    else if floor.Some? && !verified
            && (var allowed := SaturatingAdd64(SaturatingMul64(floorAge, clock.value.blocksPerSec), HEAD_SLACK_BLOCKS);
                head > SaturatingAdd64(floor.value, allowed)) then None
    else
      var validUntil := SaturatingAdd64(head, DEFAULT_VALIDITY_BLOCKS);
      if CheckValidUntil(validUntil, head) then Some(validUntil) else None
  }

  /** `head_floor` */
  function HeadFloor(s: State, chain: string): Option<Head> {
    if chain in s.heads then Some(s.heads[chain]) else None
  }

  /** The deadline `validity` works out from the floor it finds; public chains need a verified head. */
  function Deadline(chain: Chain, floor: Option<Head>, call: Call): Option<u64> {
    if !call.verified && chain.public then None
    else
      BoundedValidUntilFor(chain.clock, call.verified, call.head, call.wall,
                           if floor.Some? then Some(floor.value.height) else None,
                           if floor.Some? then SaturatingSub64(call.wall, floor.value.at) else 0)
  }

  function AfterCall(s: State, chain: Chain, call: Call): State {
    if Deadline(chain, HeadFloor(s, chain.name), call).Some?
    then AfterHead(s, chain.name, Head(call.head, call.wall))
    else s
  }

  /** `validity`, from the point where the head was looked at. */
  method Validity(session: Session, chain: Chain, call: Call) returns (r: Option<u64>)
    modifies session`heads
    ensures r == Deadline(chain, HeadFloor(old(session.Now()), chain.name), call)
    ensures session.Now() == AfterCall(old(session.Now()), chain, call)
  {
    if !call.verified && chain.public {
      return None;
    }
    var floor := if chain.name in session.heads then Some(session.heads[chain.name]) else None;
    r := BoundedValidUntilFor(chain.clock, call.verified, call.head, call.wall,
                              if floor.Some? then Some(floor.value.height) else None,
                              if floor.Some? then SaturatingSub64(call.wall, floor.value.at) else 0);
    if r.Some? {
      session.NoteHead(chain.name, call.head, call.wall);
    }
  }

  // ---- one call, in unbounded numbers ----

  /** What the checks mean when nothing is cut off at 64 bits. */
  predicate Admitted(chain: Chain, floor: Option<Head>, call: Call) {
    && call.head <= 0x100_0000_0000
    && (floor.Some? ==> floor.value.height <= call.head)
    && (!call.verified ==> !chain.public && chain.clock.Some? && WithinClock(chain.clock.value, floor, call))
  }

  /** No further than the chain's age allows, nor than the time since the floor was set allows. */
  predicate WithinClock(clock: Clock, floor: Option<Head>, call: Call) {
    && call.head <= Max(0, call.wall - clock.genesisSecs) * clock.blocksPerSec + 240
    && (floor.Some? ==>
          call.head - floor.value.height <= Max(0, call.wall - floor.value.at) * clock.blocksPerSec + 240)
  }

  /** Cutting off at 64 bits changes no answer, and the last check, on the deadline itself, never refuses. */
  lemma DeadlineIsHeadPlusDefault(chain: Chain, floor: Option<Head>, call: Call)
    ensures Deadline(chain, floor, call)
            == if Admitted(chain, floor, call) then Some(call.head + 300) else None
  {
    if chain.clock.Some? {
      var Clock(genesis, rate) := chain.clock.value;
      assert SaturatingSub64(call.wall, genesis) == Max(0, call.wall - genesis);
      MulNonNegative(Max(0, call.wall - genesis), rate);
      if floor.Some? {
        assert SaturatingSub64(call.wall, floor.value.at) == Max(0, call.wall - floor.value.at);
        MulNonNegative(Max(0, call.wall - floor.value.at), rate);
      }
    }
  }

  // ---- a run ----

  /** The session after these calls, one after another, about one chain, from any session it starts with. */
  function Ran(start: State, chain: Chain, calls: seq<Call>): State {
    if calls == [] then start
    else AfterCall(Ran(start, chain, calls[..|calls| - 1]), chain, calls[|calls| - 1])
  }

  function FloorAfter(start: State, chain: Chain, calls: seq<Call>): Option<Head> {
    HeadFloor(Ran(start, chain, calls), chain.name)
  }

  /** The `i`th call got a deadline. */
  predicate Signs(start: State, chain: Chain, calls: seq<Call>, i: nat)
    requires i < |calls|
  {
    Deadline(chain, FloorAfter(start, chain, calls[..i]), calls[i]).Some?
  }

  /** The first of the calls that got a deadline for the highest head, above any floor the run began with. */
  ghost predicate FirstHighest(start: State, chain: Chain, calls: seq<Call>, i: nat)
    requires i < |calls|
  {
    && Signs(start, chain, calls, i)
    && (forall j :: 0 <= j < |calls| && Signs(start, chain, calls, j) ==> calls[j].head <= calls[i].head)
    && (forall j :: 0 <= j < i && Signs(start, chain, calls, j) ==> calls[j].head < calls[i].head)
    && (HeadFloor(start, chain.name).Some? ==> HeadFloor(start, chain.name).value.height < calls[i].head)
  }

  /** Nothing signed went above the floor the run began with. */
  ghost predicate StillAtStart(start: State, chain: Chain, calls: seq<Call>) {
    forall i :: 0 <= i < |calls| && Signs(start, chain, calls, i) ==>
      HeadFloor(start, chain.name).Some? && calls[i].head <= HeadFloor(start, chain.name).value.height
  }

  ghost predicate RecordsFirstHighest(start: State, chain: Chain, calls: seq<Call>, floor: Option<Head>) {
    || (floor == HeadFloor(start, chain.name) && StillAtStart(start, chain, calls))
    || (exists i :: 0 <= i < |calls| && FirstHighest(start, chain, calls, i)
                    && floor == Some(Head(calls[i].head, calls[i].wall)))
  }

  lemma SignsInPrefix(start: State, chain: Chain, calls: seq<Call>, n: nat)
    requires n <= |calls|
    ensures forall i :: 0 <= i < n ==> (Signs(start, chain, calls[..n], i) <==> Signs(start, chain, calls, i))
  {
    hide Deadline, FloorAfter;
    assert forall i :: 0 <= i < n ==> calls[..n][..i] == calls[..i];
  }

  /** One more call raises the floor to its head, or leaves the floor as it was. */
  lemma FloorMoves(start: State, chain: Chain, calls: seq<Call>)
    requires calls != []
    ensures var n := |calls| - 1;
            var last, before := calls[n], FloorAfter(start, chain, calls[..n]);
            && (Signs(start, chain, calls, n) && before.Some? ==> before.value.height <= last.head)
            && FloorAfter(start, chain, calls)
               == if Signs(start, chain, calls, n) && (before.None? || before.value.height < last.head)
                  then Some(Head(last.head, last.wall)) else before
  {
    var n := |calls| - 1;
    DeadlineIsHeadPlusDefault(chain, FloorAfter(start, chain, calls[..n]), calls[n]);
    hide Deadline;
  }

  /**
   * The floor is the highest head ever signed for, with the time it was first signed for; or still
   * the floor the run began with, when nothing signed went above it.
   */
  lemma {:induction false} FloorIsFirstHighest(start: State, chain: Chain, calls: seq<Call>)
    ensures RecordsFirstHighest(start, chain, calls, FloorAfter(start, chain, calls))
  {
    hide FloorAfter, Signs, HeadFloor;
    if calls == [] {
      NothingYet(start, chain);
    } else {
      var n := |calls| - 1;
      var front := calls[..n];
      FloorIsFirstHighest(start, chain, front);
      SignsInPrefix(start, chain, calls, n);
      FloorMoves(start, chain, calls);
      var floor := FloorAfter(start, chain, front);
      if Signs(start, chain, calls, n) && (floor.None? || floor.value.height < calls[n].head) {
        assert FirstHighest(start, chain, calls, n);
      } else if i :| 0 <= i < n && FirstHighest(start, chain, front, i)
                     && floor == Some(Head(front[i].head, front[i].wall)) {
        assert FirstHighest(start, chain, calls, i);
      } else {
        assert StillAtStart(start, chain, calls);
      }
    }
  }

  lemma NothingYet(start: State, chain: Chain)
    ensures FloorAfter(start, chain, []) == HeadFloor(start, chain.name)
  {
  }

  /** The heads a client signs for never fall, nor below a floor it was started with. */
  lemma HeadsNeverFall(start: State, chain: Chain, calls: seq<Call>, i: nat, j: nat)
    requires i <= j < |calls| && Signs(start, chain, calls, i) && Signs(start, chain, calls, j)
    ensures calls[i].head <= calls[j].head
    ensures HeadFloor(start, chain.name).Some? ==> HeadFloor(start, chain.name).value.height <= calls[j].head
  {
    hide FloorAfter, HeadFloor;
    var front := calls[..j];
    FloorIsFirstHighest(start, chain, front);
    SignsInPrefix(start, chain, calls, j);
    DeadlineIsHeadPlusDefault(chain, FloorAfter(start, chain, front), calls[j]);
    hide Deadline;
    if i < j {
      assert Signs(start, chain, front, i);
    }
  }

  /** Every deadline is the default past its head; an unverified one is bounded by the chain's age. */
  lemma DeadlinesAreBounded(start: State, chain: Chain, calls: seq<Call>, i: nat)
    requires i < |calls| && Signs(start, chain, calls, i)
    ensures var deadline := Deadline(chain, FloorAfter(start, chain, calls[..i]), calls[i]).value;
            && deadline == calls[i].head + 300
            && (!calls[i].verified ==>
                  && !chain.public && chain.clock.Some?
                  && deadline <= HeadCeiling(chain.clock.value, calls[i].wall) + 300)
  {
    DeadlineIsHeadPlusDefault(chain, FloorAfter(start, chain, calls[..i]), calls[i]);
    hide FloorAfter;
  }

  // ---- how fast the floor can rise ----

  /** How many calls signed for a head above the floor they found. */
  function Rises(start: State, chain: Chain, calls: seq<Call>): nat {
    if calls == [] then 0
    else
      var front := calls[..|calls| - 1];
      Rises(start, chain, front)
      + (if FloorAfter(start, chain, front).Some? && FloorAfter(start, chain, front) != FloorAfter(start, chain, calls)
         then 1 else 0)
  }

  /** Wall time does not go back, and no floor was set in the future. */
  ghost predicate TimeMovesOn(floor: Option<Head>, calls: seq<Call>) {
    && (forall i, j :: 0 <= i < j < |calls| ==> calls[i].wall <= calls[j].wall)
    && (floor.Some? ==> forall i :: 0 <= i < |calls| ==> floor.value.at <= calls[i].wall)
  }

  function Rate(chain: Chain): nat
    requires chain.clock.Some?
  {
    chain.clock.value.blocksPerSec
  }

  /** An unverified call goes at most as far past a floor as the clock allows since it was set. */
  lemma CallIsBounded(chain: Chain, floor: Head, call: Call)
    requires Admitted(chain, Some(floor), call) && !call.verified && floor.at <= call.wall
    ensures call.head <= floor.height + Rate(chain) * (call.wall - floor.at) + HEAD_SLACK_BLOCKS
  {
    var elapsed, rate := call.wall - floor.at, Rate(chain);
    assert elapsed * rate == rate * elapsed;
  }

  /** A call that moves an unverified floor moves it by what the clock allows since it was set. */
  lemma RiseIsBounded(start: State, chain: Chain, calls: seq<Call>)
    requires calls != []
    requires var last, before := calls[|calls| - 1], FloorAfter(start, chain, calls[..|calls| - 1]);
             !last.verified && chain.clock.Some? && before.Some? && before.value.at <= last.wall
    ensures var last, before := calls[|calls| - 1], FloorAfter(start, chain, calls[..|calls| - 1]);
            var after := FloorAfter(start, chain, calls);
            && after.Some?
            && before.value.at <= after.value.at
            && before.value.height <= after.value.height
            && after.value.height <= before.value.height + Rate(chain) * (after.value.at - before.value.at)
                                     + (if after == before then 0 else HEAD_SLACK_BLOCKS)
  {
    hide FloorAfter, Deadline, Admitted, Rate;
    var last, before := calls[|calls| - 1], FloorAfter(start, chain, calls[..|calls| - 1]);
    FloorMoves(start, chain, calls);
    DeadlineIsHeadPlusDefault(chain, before, last);
    if FloorAfter(start, chain, calls) == before {
      assert Rate(chain) * (before.value.at - before.value.at) == 0;
    } else {
      CallIsBounded(chain, before.value, last);
    }
  }

  lemma Spread(rate: nat, a: int, b: int, c: int)
    ensures rate * (c - a) == rate * (b - a) + rate * (c - b)
  {
  }

  lemma FloorNotAhead(start: State, chain: Chain, calls: seq<Call>)
    requires calls != [] && TimeMovesOn(HeadFloor(start, chain.name), calls)
    ensures var floor := FloorAfter(start, chain, calls[..|calls| - 1]);
            floor.Some? ==> floor.value.at <= calls[|calls| - 1].wall
  {
    FloorIsFirstHighest(start, chain, calls[..|calls| - 1]);
    hide FloorAfter;
  }

  /**
   * Between any two moments of an unverified run the floor gains at most the clock's rate times the
   * elapsed time, plus the slack once for every rise in between.
   */
  lemma {:induction false} GainIsBounded(start: State, chain: Chain, calls: seq<Call>, m: nat)
    requires m <= |calls| && chain.clock.Some? && TimeMovesOn(HeadFloor(start, chain.name), calls)
    requires forall i :: 0 <= i < |calls| ==> !calls[i].verified
    requires FloorAfter(start, chain, calls[..m]).Some?
    ensures FloorAfter(start, chain, calls).Some?
    ensures var f0, f := FloorAfter(start, chain, calls[..m]).value, FloorAfter(start, chain, calls).value;
            var rises := Rises(start, chain, calls) - Rises(start, chain, calls[..m]);
            f0.at <= f.at && f0.height <= f.height
            && f.height <= f0.height + Rate(chain) * (f.at - f0.at) + 240 * rises
  {
    hide FloorAfter, Rate;
    if m == |calls| {
      assert calls[..m] == calls;
    } else {
      var n := |calls| - 1;
      var front, last := calls[..n], calls[n];
      assert front[..m] == calls[..m];
      GainIsBounded(start, chain, front, m);
      FloorNotAhead(start, chain, calls);
      RiseIsBounded(start, chain, calls);
      var f0, f1 := FloorAfter(start, chain, calls[..m]).value, FloorAfter(start, chain, front).value;
      Spread(Rate(chain), f0.at, f1.at, FloorAfter(start, chain, calls).value.at);
    }
  }
}
