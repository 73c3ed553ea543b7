/** The wrapping 32-bit millisecond timers of lcs_timer.c, measured against an unbounded clock. */
module Timers {
  import opened Bytes

  const LON_TIMER_MAX_DURATION := 0x7FFF_FFFF
  const HALF := 0x8000_0000

  /** What `OsalGetTickCount` returns `t` milliseconds after the clock's origin. */
  function Tick(t: nat): u32 {
    t % U32
  }

  /** The cast of a 32-bit difference to `int32_t`. */
  function Signed(x: int): int {
    var m := x % U32;
    if m < HALF then m else m - U32
  }

  /** The two fields of a timer. An expiration of 0 means "not running". */
  datatype Timer = Timer(expiration: u32, repeatTimeout: u32) {
    /** `SetLonTimer` */
    function Set(now: u32, duration: u32): Timer {
      if duration == 0 then this.(expiration := 0)
      else
        var e := (now + Min(duration, LON_TIMER_MAX_DURATION)) % U32;
        Timer(if e == 0 then 1 else e, 0)
    }

    /** `SetLonRepeatTimer` */
    function SetRepeat(now: u32, first: u32, repeat: u32): Timer {
      Set(now, Min(first, LON_TIMER_MAX_DURATION)).(repeatTimeout := Min(repeat, LON_TIMER_MAX_DURATION))
    }

    /** The answer of `LonTimerExpired`. */
    predicate Fires(now: u32) {
      expiration != 0 && Signed(expiration - now) <= 0
    }

    /** The answer of `LonTimerRunning`. */
    predicate Runs(now: u32) {
      expiration != 0 && Signed(expiration - now) > 0
    }

    /** The answer of `LonTimerRemaining`; `again` is the second reading of the clock. */
    function Remains(now: u32, again: u32): u32 {
      if Runs(now) then (expiration - again) % U32 else 0
    }

    /** The timer `LonTimerExpired` leaves behind; `again` is the second reading of the clock. */
    function Polled(now: u32, again: u32): Timer {
      if !Fires(now) then this
      else if repeatTimeout == 0 then this.(expiration := 0)
      else
        var delta := Signed(expiration - now);
        var adjusted := if Signed(repeatTimeout + delta) < 0 then 0 else delta;
        this.(expiration := 0).Set(again, (repeatTimeout + adjusted) % U32).(repeatTimeout := repeatTimeout)
    }
  }

  class LonTimer {
    var expiration: u32
    var repeatTimeout: u32

    function Value(): Timer
      reads this
    {
      Timer(expiration, repeatTimeout)
    }

    constructor ()
      ensures Value() == Timer(0, 0)
    {
      expiration, repeatTimeout := 0, 0;
    }

    /** `SetLonTimer`, `now` being the tick count it reads. */
    method Set(now: u32, duration: u32)
      modifies this
      ensures Value() == old(Value()).Set(now, duration)
    {
      if duration != 0 {
        var d := Min(duration, LON_TIMER_MAX_DURATION);
        repeatTimeout := 0;
        expiration := (now + d) % U32;
        if expiration == 0 {
          expiration := 1;
        }
      } else {
        expiration := 0;
      }
    }

    /** `SetLonRepeatTimer` */
    method SetRepeat(now: u32, firstDuration: u32, repeatDuration: u32)
      modifies this
      ensures Value() == old(Value()).SetRepeat(now, firstDuration, repeatDuration)
    {
      var first := Min(firstDuration, LON_TIMER_MAX_DURATION);
      var repeat := Min(repeatDuration, LON_TIMER_MAX_DURATION);
      Set(now, first);
      repeatTimeout := repeat;
    }

    /** `LonTimerExpired`; the clock is read once for the test and once more when re-arming. */
    method Expired(now: u32, again: u32) returns (isExpired: bool)
      modifies this
      ensures isExpired == old(Value()).Fires(now)
      ensures Value() == old(Value()).Polled(now, again)
    {
      if expiration == 0 { return false; }
      var delta := Signed(expiration - now);
      isExpired := delta <= 0;
      if isExpired {
        expiration := 0;
        if repeatTimeout != 0 {
          var t := repeatTimeout;
          if Signed(t + delta) < 0 {
            delta := 0;
          }
          Set(again, (t + delta) % U32);
          repeatTimeout := t;
        }
      }
    }

    /** `LonTimerRunning` */
    method Running(now: u32) returns (running: bool)
      ensures running == Value().Runs(now)
    {
      running := expiration != 0 && Signed(expiration - now) > 0;
    }

    /** `LonTimerRemaining`; the clock is read once in `LonTimerRunning` and once more for the difference. */
    method Remaining(now: u32, again: u32) returns (remaining: u32)
      ensures remaining == Value().Remains(now, again)
    {
      remaining := 0;
      var running := Running(now);
      if running { remaining := (expiration - again) % U32; }
    }
  }

  // ------------------------------------------------------------------
  // One-shot timers against the unbounded clock
  // ------------------------------------------------------------------

  /** The deadline a start at `start` really sets: a deadline whose tick count would read 0 is moved
      on by one millisecond, because 0 means "not running". */
  function Sentinel(deadline: nat): nat {
    if deadline % U32 == 0 then deadline + 1 else deadline
  }

  function Deadline(start: nat, duration: u32): nat {
    Sentinel(start + Min(duration, LON_TIMER_MAX_DURATION))
  }

  /** A timer waiting for a deadline. */
  ghost predicate Awaits(t: Timer, deadline: nat) {
    deadline % U32 != 0 && t.expiration == Tick(deadline)
  }

  lemma SetAwaits(t: Timer, start: nat, duration: u32)
    requires duration > 0
    ensures Awaits(t.Set(Tick(start), duration), Deadline(start, duration))
  {}

  /** Up to half the tick range on either side of its deadline a timer fires exactly when the
      deadline has been reached. */
  lemma FiresFromDeadline(t: Timer, deadline: nat, now: nat)
    requires Awaits(t, deadline)
    requires deadline - HALF < now <= deadline + HALF
    ensures t.Fires(Tick(now)) <==> deadline <= now
  {
    var d := (Tick(deadline) - Tick(now)) % U32;
    assert d == (deadline - now) % U32;
  }

  /** The time remaining is that to the deadline as of the second reading, and 0 from the deadline on, exactly
      unless the deadline falls strictly between the two readings; then it is almost the whole tick range. */
  lemma RemainingIff(t: Timer, deadline: nat, now: nat, again: nat)
    requires Awaits(t, deadline)
    requires deadline - HALF < now <= again <= deadline + HALF
    ensures t.Remains(Tick(now), Tick(again)) == (if deadline <= again then 0 else deadline - again)
      <==> !(now < deadline < again)
    ensures now < deadline < again ==> t.Remains(Tick(now), Tick(again)) == U32 - (again - deadline)
  {
    TickDelta(deadline, now);
    TickDelta(deadline, again);
    hide Tick, Signed;
  }

  /** Differences of tick counts, signed and unsigned, within half the tick range. */
  lemma TickDelta(deadline: nat, now: nat)
    requires deadline - HALF < now <= deadline + HALF
    ensures Signed(Tick(deadline) - Tick(now)) == deadline - now
    ensures (Tick(deadline) - Tick(now)) % U32 == if now <= deadline then deadline - now else U32 - (now - deadline)
  {
    assert (Tick(deadline) - Tick(now)) % U32 == (deadline - now) % U32;
  }

  ghost predicate Ordered(times: seq<nat>) {
    forall i, j :: 0 <= i < j < |times| ==> times[i] <= times[j]
  }

  /** The answers of successive polls. */
  function Answers(t: Timer, times: seq<nat>): (r: seq<bool>)
    ensures |r| == |times|
    decreases |times|
  {
    if times == [] then []
    else
      var now := Tick(times[0]);
      [t.Fires(now)] + Answers(t.Polled(now, now), times[1..])
  }

  lemma {:induction false} StoppedIsSilent(t: Timer, times: seq<nat>, i: nat)
    requires t.expiration == 0 && i < |times|
    ensures !Answers(t, times)[i]
    decreases |times|
  {
    if i > 0 { StoppedIsSilent(t, times[1..], i - 1); }
  }

  /** A one-shot timer, however it is polled after its start, answers "expired" exactly once: at the
      first poll at or after its deadline, provided that poll comes before a further 2^31 ms. */
  lemma {:induction false} OneShotFiresOnce(t: Timer, deadline: nat, times: seq<nat>, i: nat)
    requires Awaits(t, deadline) && t.repeatTimeout == 0
    requires Ordered(times) && i < |times| && deadline - HALF < times[0]
    requires forall j :: 0 <= j < |times| && deadline + HALF < times[j] ==> j > 0 && deadline <= times[j - 1]
    ensures Answers(t, times)[i] <==> deadline <= times[i] && (i == 0 || times[i - 1] < deadline)
    decreases |times|
  {
    FiresFromDeadline(t, deadline, times[0]);
    var rest := times[1..];
    if i > 0 {
      var next := t.Polled(Tick(times[0]), Tick(times[0]));
      if deadline <= times[0] {
        StoppedIsSilent(next, rest, i - 1);
      } else {
        assert forall j :: 0 <= j < |rest| ==> rest[j] == times[j + 1];
        OneShotFiresOnce(t, deadline, rest, i - 1);
      }
    }
  }

  // ------------------------------------------------------------------
  // Repeating timers
  // ------------------------------------------------------------------

  lemma RearmAwaits(t: Timer, again: nat, duration: u32, period: u32)
    requires 0 < duration <= LON_TIMER_MAX_DURATION
    ensures Awaits(t.Set(Tick(again), duration).(repeatTimeout := period), Sentinel(again + duration))
  {}

  lemma PolledRearms(t: Timer, deadline: nat, now: nat, again: nat)
    requires Awaits(t, deadline) && 0 < t.repeatTimeout <= LON_TIMER_MAX_DURATION
    requires deadline <= now <= deadline + HALF
    ensures t.Fires(Tick(now))
    ensures var period, late := t.repeatTimeout, now - deadline;
      t.Polled(Tick(now), Tick(again)) ==
        t.(expiration := 0).Set(Tick(again), if late <= period then period - late else period).(repeatTimeout := period)
  {
    TickDelta(deadline, now);
    var period, late := t.repeatTimeout, now - deadline;
    assert Signed(period - late) == period - late;
    var adjusted := if period - late < 0 then 0 else -late;
    assert (period + adjusted) % U32 == period + adjusted;
  }

  /** What one poll at or after the deadline does, for every lateness up to 2^31 ms: less than a
      period late keeps the phase (give or take what passes between the two clock readings), more
      than a period late starts a new phase, and exactly one period late stops the timer. */
  lemma RepeatOnePoll(t: Timer, deadline: nat, now: nat, again: nat)
    requires Awaits(t, deadline) && 0 < t.repeatTimeout <= LON_TIMER_MAX_DURATION
    requires deadline <= now <= deadline + HALF && now <= again
    ensures var next := t.Polled(Tick(now), Tick(again));
      && t.Fires(Tick(now))
      && next.repeatTimeout == t.repeatTimeout
      && (now - deadline < t.repeatTimeout ==> Awaits(next, Sentinel(deadline + t.repeatTimeout + (again - now))))
      && (now - deadline > t.repeatTimeout ==> Awaits(next, Sentinel(again + t.repeatTimeout)))
      && (next.expiration == 0 <==> now - deadline == t.repeatTimeout)
  {
    PolledRearms(t, deadline, now, again);
    var period, late, off := t.repeatTimeout, now - deadline, t.(expiration := 0);
    if late < period {
      RearmAwaits(off, again, period - late, period);
    } else if late > period {
      RearmAwaits(off, again, period, period);
    }
  }

  /** The stop is for good: a repeating timer once polled exactly one period late never fires again. */
  lemma OnePeriodLateStops(t: Timer, deadline: nat, times: seq<nat>, i: nat)
    requires Awaits(t, deadline) && 0 < t.repeatTimeout <= LON_TIMER_MAX_DURATION
    requires 0 < i < |times| && times[0] == deadline + t.repeatTimeout
    ensures Answers(t, times)[0] && !Answers(t, times)[i]
  {
    RepeatOnePoll(t, deadline, times[0], times[0]);
    StoppedIsSilent(t.Polled(Tick(times[0]), Tick(times[0])), times[1..], i - 1);
  }

  /** The k-th deadline after `deadline` for a period: one period on each time, plus the sentinel. */
  function Nth(deadline: nat, period: nat, k: nat): nat {
    if k == 0 then deadline else Sentinel(Nth(deadline, period, k - 1) + period)
  }

  function Count(answers: seq<bool>): nat {
    if answers == [] then 0 else (if answers[0] then 1 else 0) + Count(answers[1..])
  }

  function After(t: Timer, times: seq<nat>): Timer
    decreases |times|
  {
    if times == [] then t else After(t.Polled(Tick(times[0]), Tick(times[0])), times[1..])
  }

  /** Every poll comes less than one period after the deadline then current. */
  ghost predicate Prompt(deadline: nat, period: nat, times: seq<nat>)
    decreases |times|
  {
    times == [] ||
    (&& deadline - HALF < times[0] < deadline + period
     && Prompt(if deadline <= times[0] then Sentinel(deadline + period) else deadline, period, times[1..]))
  }

  lemma {:induction false} NthShift(deadline: nat, period: nat, k: nat)
    ensures Nth(Sentinel(deadline + period), period, k) == Nth(deadline, period, k + 1)
  {
    if k > 0 { NthShift(deadline, period, k - 1); }
  }

  /** Over every promptly polled run, a repeating timer that has answered "expired" k times is waiting
      for exactly the k-th deadline of its fixed schedule: no period is lost, doubled or drifting. */
  lemma {:induction false} RepeatKeepsSchedule(t: Timer, deadline: nat, times: seq<nat>)
    requires Awaits(t, deadline) && 0 < t.repeatTimeout <= LON_TIMER_MAX_DURATION
    requires Prompt(deadline, t.repeatTimeout, times)
    ensures Awaits(After(t, times), Nth(deadline, t.repeatTimeout, Count(Answers(t, times))))
    ensures After(t, times).repeatTimeout == t.repeatTimeout
    decreases |times|
  {
    if times != [] {
      var now := Tick(times[0]);
      var answers := Answers(t, times);
      assert answers[1..] == Answers(t.Polled(now, now), times[1..]);
      FiresFromDeadline(t, deadline, times[0]);
      if deadline <= times[0] {
        RepeatOnePoll(t, deadline, times[0], times[0]);
        RepeatKeepsSchedule(t.Polled(now, now), Sentinel(deadline + t.repeatTimeout), times[1..]);
        NthShift(deadline, t.repeatTimeout, Count(answers[1..]));
      } else {
        RepeatKeepsSchedule(t, deadline, times[1..]);
      }
    }
  }

  /** A repeating timer waits for the first duration, and every time it fires for the other one. */
  lemma RepeatFromStart(t: Timer, start: nat, first: u32, repeat: u32, times: seq<nat>)
    requires first > 0 && repeat > 0
    requires Prompt(Deadline(start, first), Min(repeat, LON_TIMER_MAX_DURATION), times)
    ensures var timer := t.SetRepeat(Tick(start), first, repeat);
      && Awaits(timer, Deadline(start, first))
      && Awaits(After(timer, times),
                Nth(Deadline(start, first), Min(repeat, LON_TIMER_MAX_DURATION), Count(Answers(timer, times))))
  {
    var timer := t.SetRepeat(Tick(start), first, repeat);
    SetAwaits(t, start, Min(first, LON_TIMER_MAX_DURATION));
    assert Awaits(timer, Deadline(start, first));
    RepeatKeepsSchedule(timer, Deadline(start, first), times);
  }

  /** The schedule drifts from exact periods by at most the number of times the 32-bit counter wrapped
      on the way. */
  lemma {:induction false} ScheduleDrift(deadline: nat, period: nat, k: nat)
    requires deadline % U32 != 0 && period > 0
    ensures deadline + k * period <= Nth(deadline, period, k) && Nth(deadline, period, k) % U32 != 0
    ensures Nth(deadline, period, k) - (deadline + k * period) <= Nth(deadline, period, k) / U32 - deadline / U32
  {
    if k > 0 {
      ScheduleDrift(deadline, period, k - 1);
      assert k * period == (k - 1) * period + period;
      var prev := Nth(deadline, period, k - 1);
      if (prev + period) % U32 == 0 {
        assert prev / U32 < (prev + period) / U32;
      }
    }
  }
}
