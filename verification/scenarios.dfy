/** Whole sessions driven through the timer's methods, tying the component
    to the minute-accounting rules: how many focus events a completed or a
    stopped work session leaves in the log, and what a reload restores. */
module Scenarios {
  import opened Optional
  import opened SessionRules
  import opened FlowLog
  import opened Focus

  /** A running work countdown ticks once per instant in `stamps` without
      reaching zero: it credits one minute per whole-minute boundary crossed,
      to the log and, when a task is selected, to the task. */
  method RunTicks(p: Pomodoro, stamps: seq<int>)
    requires p.Valid() && p.isActive && !p.isBreak && |stamps| < p.timeLeft
    modifies p
    ensures p.Valid() && p.isActive && !p.isBreak
    ensures p.timeLeft == old(p.timeLeft) - |stamps|
    ensures p.duration == old(p.duration) && p.activeTaskId == old(p.activeTaskId)
    ensures p.showLogModal == old(p.showLogModal) && p.flowLogs == old(p.flowLogs)
    ensures IsSet(old(p.currentStartTime)) ==> p.currentStartTime == old(p.currentStartTime)
    ensures old(p.focusHistory) <= p.focusHistory
    ensures |p.focusHistory| == |old(p.focusHistory)| + BoundaryEvents(old(p.timeLeft), p.timeLeft)
    ensures |p.attributed| == |old(p.attributed)| + (if p.HasTask() then BoundaryEvents(old(p.timeLeft), p.timeLeft) else 0)
  {
    for i := 0 to |stamps|
      invariant p.Valid() && p.isActive && !p.isBreak
      invariant p.timeLeft == old(p.timeLeft) - i
      invariant p.duration == old(p.duration) && p.activeTaskId == old(p.activeTaskId)
      invariant p.showLogModal == old(p.showLogModal) && p.flowLogs == old(p.flowLogs)
      invariant IsSet(old(p.currentStartTime)) ==> p.currentStartTime == old(p.currentStartTime)
      invariant old(p.focusHistory) <= p.focusHistory
      invariant |p.focusHistory| == |old(p.focusHistory)| + BoundaryEvents(old(p.timeLeft), p.timeLeft)
      invariant |p.attributed| == |old(p.attributed)| + (if p.HasTask() then BoundaryEvents(old(p.timeLeft), p.timeLeft) else 0)
    {
      p.Tick(stamps[i]);
    }
  }

  /** A work session started from a full, stopped work countdown and run to
      zero leaves exactly `duration` new events in the log (and credits the
      selected task as many minutes), then waits in a stopped 5-minute break
      with the reflection prompt open. */
  method RunToCompletion(p: Pomodoro, start: int, stamps: seq<int>)
    requires p.Valid() && !p.isActive && !p.isBreak && p.timeLeft == WorkSeconds(p.duration)
    requires |stamps| == WorkSeconds(p.duration)
    modifies p
    ensures p.Valid() && !p.isActive && p.isBreak && p.timeLeft == BreakSeconds && p.showLogModal
    ensures p.duration == old(p.duration) && p.flowLogs == old(p.flowLogs)
    ensures old(p.focusHistory) <= p.focusHistory
    ensures |p.focusHistory| == |old(p.focusHistory)| + p.duration
    ensures |p.attributed| == |old(p.attributed)| + (if p.HasTask() then p.duration else 0)
    ensures IsSet(old(p.currentStartTime)) ==> p.currentStartTime == old(p.currentStartTime)
    ensures !IsSet(old(p.currentStartTime)) && start != 0 ==> p.currentStartTime == Some(start)
  {
    p.Toggle(start);
    RunTicks(p, stamps[..|stamps| - 1]);
    p.Tick(stamps[|stamps| - 1]);
    assert BoundaryEvents(WorkSeconds(p.duration), 0) == BoundaryEvents(WorkSeconds(p.duration), 1);
    WorkIntervalCreditsItsLength(p.duration);
  }

  /** A work session started from a full, stopped work countdown and stopped
      after `|stamps|` seconds: below 30 seconds it leaves no trace and no
      prompt; from 30 seconds on it opens the prompt and leaves the completed
      minutes rounded to the nearest one, except that a stop on a whole
      minute leaves one event more than minutes worked. */
  method RunThenStop(p: Pomodoro, start: int, stamps: seq<int>, stopAt: int)
    requires p.Valid() && !p.isActive && !p.isBreak && p.timeLeft == WorkSeconds(p.duration)
    requires |stamps| < WorkSeconds(p.duration)
    modifies p
    ensures p.Valid() && !p.isActive && !p.isBreak && p.timeLeft == WorkSeconds(p.duration)
    ensures p.duration == old(p.duration) && p.flowLogs == old(p.flowLogs)
    ensures old(p.focusHistory) <= p.focusHistory
    ensures |stamps| < StopFloorSeconds ==>
              p.focusHistory == old(p.focusHistory) && p.currentStartTime == None
              && p.showLogModal == old(p.showLogModal)
    ensures |stamps| >= StopFloorSeconds ==> p.showLogModal
    ensures |stamps| >= StopFloorSeconds && |stamps| % 60 != 0 ==>
              |p.focusHistory| == |old(p.focusHistory)| + (|stamps| + 30) / 60
    ensures |stamps| > 0 && |stamps| % 60 == 0 ==>
              |p.focusHistory| == |old(p.focusHistory)| + |stamps| / 60 + 1
  {
    p.Toggle(start);
    RunTicks(p, stamps);
    assert p.Elapsed() == |stamps|;
    ghost var credited := |p.focusHistory|;
    p.Stop(stopAt);
    assert |p.focusHistory| == credited + StopCredit(|stamps|);
    StoppedSessionCredit(p.duration, |stamps|);
  }

  /** Reloading the component at `now` from what storage holds gives back
      both logs as they are in memory, with statistics recomputed at `now`. */
  method Reload(p: Pomodoro, now: int) returns (q: Pomodoro)
    requires p.Valid()
    ensures q.focusHistory == p.focusHistory && q.flowLogs == p.flowLogs
    ensures q.Valid() && !q.isActive && !q.isBreak && q.timeLeft == WorkSeconds(q.duration)
    ensures q.statsInstant == now
  {
    q := new Pomodoro.Mount(p.storedHistory, p.storedLogs, now);
  }
}
