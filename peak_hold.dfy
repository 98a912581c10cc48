/**
 * Peak-hold smoothing of one telemetry channel.  A new strict peak replaces
 * the held value at once; any other reading replaces it only once more than
 * the hold duration has passed since the held value was set.
 *
 * Time is counted in .NET ticks (100 ns), with `DateTime.MinValue` as tick 0.
 */
module PeakHold {
  import opened Wrappers

  const TicksPerSecond: int := 10_000_000
  /** `DateTime.MinValue`, the timestamp of a tracker that has never held a value. */
  const MinTicks: int := 0
  /** The default hold of three seconds. */
  const DefaultHold: int := 3 * TicksPerSecond

  datatype PeakState = PeakState(current: Option<real>, lastUpdate: int)

  const Initial: PeakState := PeakState(None, MinTicks)

  /** One update with an optional reading `value` taken at time `now`. */
  function Step(s: PeakState, hold: int, value: Option<real>, now: int): (r: PeakState)
    ensures value.None? ==> r == s
    ensures r == s || r == PeakState(value, now)
    ensures value.Some? ==> r.current.Some? && r.current.value >= value.value
    ensures value.Some? && (s.current.None? || value.value > s.current.value) ==>
      r == PeakState(value, now)
  {
    match value
    case None => s
    case Some(v) =>
      if s.current.None? || v > s.current.value then PeakState(value, now)
      else if now - s.lastUpdate > hold then PeakState(value, now)
      else s
  }

  /** A reading that is not a new peak changes the state only when the hold has
      expired, and then the latest reading and its time are taken over. */
  lemma NoPeakChangesOnlyAfterHold(s: PeakState, hold: int, v: real, now: int)
    requires s.current.Some? && v <= s.current.value
    ensures now - s.lastUpdate <= hold ==> Step(s, hold, Some(v), now) == s
    ensures now - s.lastUpdate > hold ==> Step(s, hold, Some(v), now) == PeakState(Some(v), now)
  {
  }

  /** Within the hold window the held value never falls. */
  lemma PeakNeverFallsWithinHold(s: PeakState, hold: int, value: Option<real>, now: int)
    requires s.current.Some? && now - s.lastUpdate <= hold
    ensures var r := Step(s, hold, value, now);
      r.current.Some? && r.current.value >= s.current.value
  {
  }

  /** A reading equal to the held value leaves the timestamp alone while the
      hold lasts: a plateau does not defer the decay. */
  lemma PlateauKeepsTimestamp(s: PeakState, hold: int, now: int)
    requires s.current.Some? && now - s.lastUpdate <= hold
    ensures Step(s, hold, s.current, now) == s
  {
  }

  /** A reading together with the time it was taken. */
  datatype Reading = Reading(value: Option<real>, at: int)

  /** The state after feeding `rs` in order, starting from `s`. */
  function Run(s: PeakState, hold: int, rs: seq<Reading>): PeakState
    decreases |rs|
  {
    if rs == [] then s
    else Run(Step(s, hold, rs[0].value, rs[0].at), hold, rs[1..])
  }

  /** The largest of `m` and the readings present in `rs`: what a peak-hold
      should show while nothing decays. */
  function MaxPresent(m: real, rs: seq<Reading>): (r: real)
    ensures r >= m
    ensures forall i :: 0 <= i < |rs| && rs[i].value.Some? ==> r >= rs[i].value.value
    ensures r == m || exists i :: 0 <= i < |rs| && rs[i].value == Some(r)
    decreases |rs|
  {
    if rs == [] then m
    else
      var m' := if rs[0].value.Some? && rs[0].value.value > m then rs[0].value.value else m;
      var r := MaxPresent(m', rs[1..]);
      assert forall i :: 1 <= i < |rs| ==> rs[i] == rs[1..][i - 1];
      assert r != m' ==> exists i :: 0 <= i < |rs| && rs[i].value == Some(r) by {
        if r != m' {
          var j :| 0 <= j < |rs[1..]| && rs[1..][j].value == Some(r);
          assert rs[j + 1].value == Some(r);
        }
      }
      r
  }

  /** All readings are taken no earlier than `w` and no later than `w + hold`. */
  predicate WithinWindow(w: int, hold: int, rs: seq<Reading>) {
    forall i :: 0 <= i < |rs| ==> w <= rs[i].at <= w + hold
  }

  /** While every reading falls inside one hold window that starts no later
      than the held value was set, the tracker shows the running maximum. */
  lemma {:induction false} HeldPeakIsRunningMax(s: PeakState, hold: int, w: int, rs: seq<Reading>)
    requires s.current.Some? && w <= s.lastUpdate
    requires WithinWindow(w, hold, rs)
    ensures Run(s, hold, rs).current == Some(MaxPresent(s.current.value, rs))
    ensures Run(s, hold, rs).lastUpdate >= w
    decreases |rs|
  {
    if rs != [] {
      var s' := Step(s, hold, rs[0].value, rs[0].at);
      assert w <= rs[0].at <= w + hold;
      assert s'.current.Some? && w <= s'.lastUpdate;
      assert s'.current.value ==
        (if rs[0].value.Some? && rs[0].value.value > s.current.value then rs[0].value.value
         else s.current.value);
      assert WithinWindow(w, hold, rs[1..]) by {
        forall i | 0 <= i < |rs[1..]| ensures w <= rs[1..][i].at <= w + hold {
          assert rs[1..][i] == rs[i + 1];
        }
      }
      HeldPeakIsRunningMax(s', hold, w, rs[1..]);
    }
  }

  /** From any state, a value is held exactly when one was held before or
      some reading was present, and the held value is either the one held
      before or one of the readings (from a fresh tracker, always a reading). */
  lemma {:induction false} HeldValueIsAReading(s: PeakState, hold: int, rs: seq<Reading>)
    ensures var r := Run(s, hold, rs);
      (r.current.None? <==> s.current.None? && forall i :: 0 <= i < |rs| ==> rs[i].value.None?) &&
      (r.current.Some? ==> r.current == s.current || exists i :: 0 <= i < |rs| && rs[i].value == r.current)
    decreases |rs|
  {
    if rs != [] {
      var s' := Step(s, hold, rs[0].value, rs[0].at);
      HeldValueIsAReading(s', hold, rs[1..]);
      var r := Run(s', hold, rs[1..]);
      assert forall i :: 1 <= i < |rs| ==> rs[i] == rs[1..][i - 1];
      if r.current.Some? && r.current != s'.current {
        var j :| 0 <= j < |rs[1..]| && rs[1..][j].value == r.current;
        assert rs[j + 1].value == r.current;
      }
      if r.current.Some? && r.current == s'.current && s'.current != s.current {
        assert rs[0].value == r.current;
      }
    }
  }

  /** A peak of 5 followed by 3 within the hold still shows 5; the same 3 after
      the hold has expired shows 3. */
  lemma FiveThenThree()
    ensures Run(Initial, DefaultHold, [Reading(Some(5.0), 100), Reading(Some(3.0), 100 + DefaultHold)]).current
      == Some(5.0)
    ensures Run(Initial, DefaultHold, [Reading(Some(5.0), 100), Reading(Some(3.0), 101 + DefaultHold)]).current
      == Some(3.0)
  {
    var rs1 := [Reading(Some(5.0), 100), Reading(Some(3.0), 100 + DefaultHold)];
    var rs2 := [Reading(Some(5.0), 100), Reading(Some(3.0), 101 + DefaultHold)];
    var s1 := Step(Initial, DefaultHold, Some(5.0), 100);
    assert s1 == PeakState(Some(5.0), 100);
    assert Run(Initial, DefaultHold, rs1) == Run(s1, DefaultHold, rs1[1..]);
    assert Run(Initial, DefaultHold, rs2) == Run(s1, DefaultHold, rs2[1..]);
    assert rs1[1..][1..] == [] && rs2[1..][1..] == [];
    assert Run(s1, DefaultHold, rs1[1..]) == Run(Step(s1, DefaultHold, Some(3.0), 100 + DefaultHold), DefaultHold, []);
    assert Run(s1, DefaultHold, rs2[1..]) == Run(Step(s1, DefaultHold, Some(3.0), 101 + DefaultHold), DefaultHold, []);
    NoPeakChangesOnlyAfterHold(s1, DefaultHold, 3.0, 100 + DefaultHold);
    NoPeakChangesOnlyAfterHold(s1, DefaultHold, 3.0, 101 + DefaultHold);
  }

  /** One tracked channel.  The fields are those of the C# class. */
  class PeakTracker {
    var current: Option<real>
    var lastUpdate: int
    const hold: int

    constructor(hold: int)
      ensures this.hold == hold
      ensures State() == Initial
    {
      this.hold := hold;
      current := None;
      lastUpdate := MinTicks;
    }

    function State(): PeakState
      reads this
    {
      PeakState(current, lastUpdate)
    }

    /** Feeds one reading taken at `now` and returns the value now held. */
    method Update(value: Option<real>, now: int) returns (r: Option<real>)
      modifies this
      ensures State() == Step(old(State()), hold, value, now)
      ensures r == current
    {
      if value.None? {
        return current;
      }
      if current.None? || value.value > current.value {
        current := value;
        lastUpdate := now;
      } else if now - lastUpdate > hold {
        current := value;
        lastUpdate := now;
      }
      return current;
    }
  }
}
