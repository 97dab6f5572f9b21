/** The minute-accounting rules of the focus timer, on their own: when a
    one-second tick records a focus minute, when an early stop records one, and
    how many minutes a work countdown credits in all. The timer class applies
    these rules; the lemmas here add them up over a whole session. */
module SessionRules {

  /** Length of a break, in seconds. */
  const BreakSeconds: int := 5 * 60

  /** A stop with less elapsed work than this discards the session. */
  const StopFloorSeconds: int := 30

  /** The remaining seconds a work countdown of `minutes` starts from. */
  function WorkSeconds(minutes: int): int
  {
    minutes * 60
  }

  /** A tick that brings the countdown to `newTime` records a focus minute:
      only in work mode, only on a whole minute, and not at zero (the zero
      transition records that one). */
  predicate TickRecords(newTime: int, isBreak: bool)
  {
    newTime > 0 && newTime % 60 == 0 && !isBreak
  }

  /** The early-stop rule as written: a stop after `elapsed` seconds (at least
      the floor) records one more focus minute when the current minute is at
      least half done, or when `elapsed` is a whole number of minutes. */
  predicate StopRecords(elapsed: int)
  {
    elapsed % 60 >= 30 || elapsed % 60 == 0
  }

  /** Minutes a stop after `elapsed` seconds of work adds itself. */
  function StopCredit(elapsed: int): nat
  {
    if elapsed >= StopFloorSeconds && StopRecords(elapsed) then 1 else 0
  }

  /** Minutes recorded by the ticks of a work countdown that runs from `start`
      remaining seconds down to `t`, that is by the ticks whose new value is
      one of t, t+1, ..., start-1. */
  function BoundaryEvents(start: int, t: int): nat
    decreases start - t
  {
    if t >= start then 0
    else (if TickRecords(t, false) then 1 else 0) + BoundaryEvents(start, t + 1)
  }

  /** Counting down from a whole number of minutes to `t > 0` crosses one
      boundary per completed minute. */
  lemma {:induction false} BoundaryEventsAreCompletedMinutes(minutes: nat, t: int)
    requires 0 < t <= WorkSeconds(minutes)
    ensures BoundaryEvents(WorkSeconds(minutes), t) == (WorkSeconds(minutes) - t) / 60
    decreases WorkSeconds(minutes) - t
  {
    var start := WorkSeconds(minutes);
    if t < start {
      BoundaryEventsAreCompletedMinutes(minutes, t + 1);
      var x := start - t;
      assert (x - 1) / 60 + (if x % 60 == 0 then 1 else 0) == x / 60;
      assert (t % 60 == 0) == (x % 60 == 0) by {
        assert start % 60 == 0;
      }
    }
  }

  /** A work interval run to completion credits exactly its length in minutes:
      the boundary ticks give all minutes but the last, and the transition at
      zero gives the last one. */
  lemma WorkIntervalCreditsItsLength(minutes: nat)
    requires minutes >= 1
    ensures BoundaryEvents(WorkSeconds(minutes), 0) + 1 == minutes
  {
    BoundaryEventsAreCompletedMinutes(minutes, 1);
  }

  /** What a work session stopped after `elapsed` seconds of countdown
      credits in all: nothing below the floor; otherwise the completed minutes,
      rounded to the nearest minute; but one minute more than were worked when
      the stop falls on a whole minute, because the tick at that boundary has
      already recorded the minute the stop records again. */
  lemma StoppedSessionCredit(minutes: nat, elapsed: int)
    requires 0 <= elapsed < WorkSeconds(minutes)
    ensures var total := BoundaryEvents(WorkSeconds(minutes), WorkSeconds(minutes) - elapsed) + StopCredit(elapsed);
            && (elapsed < StopFloorSeconds ==> total == 0)
            && (elapsed >= StopFloorSeconds && elapsed % 60 != 0 ==> total == (elapsed + 30) / 60)
            && (elapsed > 0 && elapsed % 60 == 0 ==> total == elapsed / 60 + 1)
  {
    BoundaryEventsAreCompletedMinutes(minutes, WorkSeconds(minutes) - elapsed);
  }
}
