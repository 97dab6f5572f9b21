/** The focus timer component: a work/break countdown that credits focus
    minutes to an event log, attributes them to the selected task, and asks
    for a reflection when a work session ends.

    Each user action and each one-second tick is one method. After a method
    has changed the state, the component's tick effect runs again when one of
    the values it depends on (whether the timer runs, the remaining seconds,
    the mode, the selected task, the work length) has changed; `RunEffect` is
    that effect's body. Instants are passed in as `now`. */
module Focus {
  import opened Optional
  import opened Clock
  import opened SessionRules
  import opened FlowLog
  import opened Persistence
  import Aggregation
  import Text

  const MinDuration: int := 5
  const MaxDuration: int := 60
  const DurationStep: int := 5
  const DefaultDuration: int := 25
  const MsPerMinute: int := 60_000

  /** Whether a recorded start instant counts as present: an absent instant
      and the instant 0 both count as absent. */
  predicate IsSet(t: Option<int>)
  {
    t.Some? && t.value != 0
  }

  /** The values the tick effect depends on. */
  datatype EffectDeps = EffectDeps(isActive: bool, timeLeft: int, isBreak: bool, activeTaskId: string, duration: int)

  class Pomodoro {
    /** Work length in minutes. */
    var duration: int
    /** Seconds left in the current countdown. */
    var timeLeft: int
    var isActive: bool
    var isBreak: bool
    /** The selected task; the empty string means no task is selected. */
    var activeTaskId: string
    /** When the current work session started. */
    var currentStartTime: Option<int>
    /** Whether the reflection prompt is open, and the text typed into it. */
    var showLogModal: bool
    var logContent: string
    /** The focus-event log: one instant per credited minute, oldest first. */
    var focusHistory: seq<int>
    /** The reflection log, newest first. */
    var flowLogs: seq<LogEntry>
    /** What browser storage holds for the two logs. */
    var storedHistory: Stored<seq<int>>
    var storedLogs: Stored<seq<LogEntry>>
    /** The instant the statistics were last recomputed. They are memoised on
        the focus-event log alone, so this is the instant of mounting or of
        the last credited minute, whichever is later. */
    var statsInstant: int
    /** The task ids the component has credited one focus minute to, in order. */
    ghost var attributed: seq<string>

    /** The invariant between steps, except that the countdown may stand at
        zero: the work length is one the slider offers, the countdown lies
        within the current mode's length, and reloading either log from
        storage gives the log in memory. */
    ghost predicate Consistent()
      reads this
    {
      && MinDuration <= duration <= MaxDuration
      && 0 <= timeLeft
      && (!isBreak ==> timeLeft <= WorkSeconds(duration))
      && (isBreak ==> timeLeft <= BreakSeconds)
      && Restore(storedHistory, []) == focusHistory
      && Restore(storedLogs, []) == flowLogs
    }

    /** The invariant between steps: a countdown at zero has always been
        moved on to the next mode. */
    ghost predicate Valid()
      reads this
    {
      Consistent() && timeLeft > 0
    }

    predicate HasTask()
      reads this
    {
      activeTaskId != ""
    }

    function Deps(): EffectDeps
      reads this
    {
      EffectDeps(isActive, timeLeft, isBreak, activeTaskId, duration)
    }

    /** Seconds of the current work countdown that have run. */
    function Elapsed(): int
      reads this
    {
      WorkSeconds(duration) - timeLeft
    }

    /** The component as first shown: a stopped 25-minute work countdown, and
        the two logs loaded from storage, empty where storage holds nothing
        readable. */
    constructor Mount(savedHistory: Stored<seq<int>>, savedLogs: Stored<seq<LogEntry>>, now: int)
      ensures Valid()
      ensures duration == DefaultDuration && timeLeft == WorkSeconds(DefaultDuration)
      ensures !isActive && !isBreak && activeTaskId == ""
      ensures currentStartTime == None && !showLogModal && logContent == ""
      ensures focusHistory == Restore(savedHistory, []) && flowLogs == Restore(savedLogs, [])
      ensures storedHistory == savedHistory && storedLogs == savedLogs
      ensures statsInstant == now && attributed == []
    {
      duration := DefaultDuration;
      timeLeft := WorkSeconds(DefaultDuration);
      isActive, isBreak := false, false;
      activeTaskId := "";
      currentStartTime := None;
      showLogModal, logContent := false, "";
      focusHistory := Restore(savedHistory, []);
      flowLogs := Restore(savedLogs, []);
      storedHistory, storedLogs := savedHistory, savedLogs;
      statsInstant := now;
      attributed := [];
    }

    /** Appends one focus event at `now` and writes the log to storage; the
        new log makes the statistics recompute at `now`. */
    method RecordFocusMinute(now: int)
      modifies this`focusHistory, this`storedHistory, this`statsInstant
      ensures focusHistory == old(focusHistory) + [now]
      ensures storedHistory == Saved(focusHistory)
      ensures statsInstant == now
    {
      focusHistory := focusHistory + [now];
      storedHistory := Saved(focusHistory);
      statsInstant := now;
    }

    /** Records a focus minute and, when a task is selected, attributes one
        minute to it. */
    method CreditFocusMinute(now: int)
      modifies this`focusHistory, this`storedHistory, this`statsInstant, this`attributed
      ensures focusHistory == old(focusHistory) + [now]
      ensures storedHistory == Saved(focusHistory) && statsInstant == now
      ensures attributed == old(attributed) + (if HasTask() then [activeTaskId] else [])
    {
      RecordFocusMinute(now);
      if HasTask() {
        attributed := attributed + [activeTaskId];
      }
    }

    /** The tick effect. While the timer runs with time left, it stamps the
        start of a work session that has none. When the countdown is at zero,
        it stops the timer: a finished work countdown credits its last minute,
        opens the reflection prompt and turns into a 5-minute break; a
        finished break turns back into a full work countdown. */
    method RunEffect(now: int)
      requires Consistent()
      modifies this
      ensures Valid()
      ensures duration == old(duration) && activeTaskId == old(activeTaskId) && logContent == old(logContent)
      ensures flowLogs == old(flowLogs) && storedLogs == old(storedLogs)
      ensures old(timeLeft) > 0 ==>
                && timeLeft == old(timeLeft) && isActive == old(isActive) && isBreak == old(isBreak)
                && showLogModal == old(showLogModal)
                && focusHistory == old(focusHistory) && storedHistory == old(storedHistory)
                && statsInstant == old(statsInstant) && attributed == old(attributed)
                && currentStartTime == (if old(isActive) && !old(isBreak) && !IsSet(old(currentStartTime))
                                        then Some(now) else old(currentStartTime))
      ensures old(timeLeft) == 0 ==> !isActive && currentStartTime == old(currentStartTime)
      ensures old(timeLeft) == 0 && !old(isBreak) ==>
                && isBreak && timeLeft == BreakSeconds && showLogModal
                && focusHistory == old(focusHistory) + [now]
                && storedHistory == Saved(focusHistory) && statsInstant == now
                && attributed == old(attributed) + (if HasTask() then [activeTaskId] else [])
      ensures old(timeLeft) == 0 && old(isBreak) ==>
                && !isBreak && timeLeft == WorkSeconds(duration) && showLogModal == old(showLogModal)
                && focusHistory == old(focusHistory) && storedHistory == old(storedHistory)
                && statsInstant == old(statsInstant) && attributed == old(attributed)
    {
      if isActive && timeLeft > 0 {
        if !IsSet(currentStartTime) && !isBreak {
          currentStartTime := Some(now);
        }
      } else if timeLeft == 0 {
        isActive := false;
        if !isBreak {
          CreditFocusMinute(now);
          showLogModal := true;
          isBreak, timeLeft := true, BreakSeconds;
        } else {
          isBreak, timeLeft := false, WorkSeconds(duration);
        }
      }
    }

    /** Runs the tick effect when a value it depends on differs from `before`.
        Between steps the countdown is never at zero, so the effect can at
        most stamp the start of a running work session. */
    method Settle(before: EffectDeps, now: int)
      requires Valid()
      modifies this
      ensures Valid()
      ensures duration == old(duration) && timeLeft == old(timeLeft) && isActive == old(isActive)
      ensures isBreak == old(isBreak) && activeTaskId == old(activeTaskId)
      ensures showLogModal == old(showLogModal) && logContent == old(logContent)
      ensures focusHistory == old(focusHistory) && flowLogs == old(flowLogs)
      ensures storedHistory == old(storedHistory) && storedLogs == old(storedLogs)
      ensures statsInstant == old(statsInstant) && attributed == old(attributed)
      ensures currentStartTime == (if Deps() != before && isActive && !isBreak && !IsSet(old(currentStartTime))
                                   then Some(now) else old(currentStartTime))
    {
      if Deps() != before {
        RunEffect(now);
      }
    }

    /** One second of a running countdown: the remaining time drops by one;
        a work countdown that reaches a whole minute above zero credits a
        focus minute; reaching zero moves on to the next mode. */
    method Tick(now: int)
      requires Valid() && isActive
      modifies this
      ensures Valid()
      ensures duration == old(duration) && activeTaskId == old(activeTaskId) && logContent == old(logContent)
      ensures flowLogs == old(flowLogs) && storedLogs == old(storedLogs)
      ensures old(timeLeft) > 1 ==>
                && isActive && isBreak == old(isBreak) && timeLeft == old(timeLeft) - 1
                && showLogModal == old(showLogModal)
                && focusHistory == old(focusHistory) + (if TickRecords(timeLeft, isBreak) then [now] else [])
                && storedHistory == (if TickRecords(timeLeft, isBreak) then Saved(focusHistory) else old(storedHistory))
                && statsInstant == (if TickRecords(timeLeft, isBreak) then now else old(statsInstant))
                && attributed == old(attributed)
                                 + (if TickRecords(timeLeft, isBreak) && HasTask() then [activeTaskId] else [])
                && currentStartTime == (if !isBreak && !IsSet(old(currentStartTime))
                                        then Some(now) else old(currentStartTime))
      ensures old(timeLeft) == 1 ==> !isActive && currentStartTime == old(currentStartTime)
      ensures old(timeLeft) == 1 && !old(isBreak) ==>
                && isBreak && timeLeft == BreakSeconds && showLogModal
                && focusHistory == old(focusHistory) + [now]
                && storedHistory == Saved(focusHistory) && statsInstant == now
                && attributed == old(attributed) + (if HasTask() then [activeTaskId] else [])
      ensures old(timeLeft) == 1 && old(isBreak) ==>
                && !isBreak && timeLeft == WorkSeconds(duration) && showLogModal == old(showLogModal)
                && focusHistory == old(focusHistory) && storedHistory == old(storedHistory)
                && statsInstant == old(statsInstant) && attributed == old(attributed)
    {
      var newTime := timeLeft - 1;
      if TickRecords(newTime, isBreak) {
        CreditFocusMinute(now);
      }
      timeLeft := newTime;
      RunEffect(now);
    }

    /** The play/pause button. Starting a work countdown stamps the session's
        start unless one is already recorded; a break never stamps one. */
    method Toggle(now: int)
      requires Valid()
      modifies this
      ensures Valid()
      ensures isActive == !old(isActive)
      ensures duration == old(duration) && timeLeft == old(timeLeft) && isBreak == old(isBreak)
      ensures activeTaskId == old(activeTaskId) && showLogModal == old(showLogModal) && logContent == old(logContent)
      ensures focusHistory == old(focusHistory) && flowLogs == old(flowLogs) && attributed == old(attributed)
      ensures storedHistory == old(storedHistory) && storedLogs == old(storedLogs) && statsInstant == old(statsInstant)
      ensures currentStartTime == (if isActive && !isBreak && !IsSet(old(currentStartTime))
                                   then Some(now) else old(currentStartTime))
    {
      var before := Deps();
      isActive := !isActive;
      Settle(before, now);
    }

    /** The stop button. A running work session stopped before the 30-second
        floor is discarded and its start forgotten; a later stop credits one
        more minute by the early-stop rule and opens the reflection prompt.
        In every case the timer ends stopped, in work mode, at full length. */
    method Stop(now: int)
      requires Valid()
      modifies this
      ensures Valid()
      ensures !isActive && !isBreak && timeLeft == WorkSeconds(duration)
      ensures duration == old(duration) && activeTaskId == old(activeTaskId) && logContent == old(logContent)
      ensures flowLogs == old(flowLogs) && storedLogs == old(storedLogs)
      ensures !old(isActive && !isBreak) ==>
                && focusHistory == old(focusHistory) && attributed == old(attributed)
                && storedHistory == old(storedHistory) && statsInstant == old(statsInstant)
                && showLogModal == old(showLogModal) && currentStartTime == old(currentStartTime)
      ensures old(isActive && !isBreak) && old(Elapsed()) < StopFloorSeconds ==>
                && focusHistory == old(focusHistory) && attributed == old(attributed)
                && storedHistory == old(storedHistory) && statsInstant == old(statsInstant)
                && showLogModal == old(showLogModal) && currentStartTime == None
      ensures old(isActive && !isBreak) && old(Elapsed()) >= StopFloorSeconds ==>
                && focusHistory == old(focusHistory) + (if StopRecords(old(Elapsed())) then [now] else [])
                && storedHistory == (if StopRecords(old(Elapsed())) then Saved(focusHistory) else old(storedHistory))
                && statsInstant == (if StopRecords(old(Elapsed())) then now else old(statsInstant))
                && attributed == old(attributed)
                                 + (if StopRecords(old(Elapsed())) && HasTask() then [activeTaskId] else [])
                && showLogModal && currentStartTime == old(currentStartTime)
    {
      var before := Deps();
      if isActive && !isBreak {
        var secondsElapsed := WorkSeconds(duration) - timeLeft;
        if secondsElapsed >= StopFloorSeconds {
          if StopRecords(secondsElapsed) {
            CreditFocusMinute(now);
          }
          showLogModal := true;
        } else {
          currentStartTime := None;
        }
      }
      isActive, isBreak, timeLeft := false, false, WorkSeconds(duration);
      Settle(before, now);
    }

    /** The work-length slider, offered only while stopped in work mode: 5 to
        60 minutes in steps of 5; the countdown restarts at the new length. */
    method SetDuration(minutes: int, now: int)
      requires Valid() && !isActive && !isBreak
      requires MinDuration <= minutes <= MaxDuration && minutes % DurationStep == 0
      modifies this
      ensures Valid()
      ensures duration == minutes && timeLeft == WorkSeconds(minutes)
      ensures isActive == old(isActive) && isBreak == old(isBreak) && activeTaskId == old(activeTaskId)
      ensures currentStartTime == old(currentStartTime)
      ensures showLogModal == old(showLogModal) && logContent == old(logContent)
      ensures focusHistory == old(focusHistory) && flowLogs == old(flowLogs) && attributed == old(attributed)
      ensures storedHistory == old(storedHistory) && storedLogs == old(storedLogs) && statsInstant == old(statsInstant)
    {
      var before := Deps();
      duration, timeLeft := minutes, WorkSeconds(minutes);
      Settle(before, now);
    }

    /** The reset button: the countdown restarts at the full length of the
        current mode, running or not. */
    method ResetCountdown(now: int)
      requires Valid()
      modifies this
      ensures Valid()
      ensures timeLeft == (if isBreak then BreakSeconds else WorkSeconds(duration))
      ensures duration == old(duration) && isActive == old(isActive) && isBreak == old(isBreak)
      ensures activeTaskId == old(activeTaskId) && showLogModal == old(showLogModal) && logContent == old(logContent)
      ensures focusHistory == old(focusHistory) && flowLogs == old(flowLogs) && attributed == old(attributed)
      ensures storedHistory == old(storedHistory) && storedLogs == old(storedLogs) && statsInstant == old(statsInstant)
      ensures currentStartTime == (if timeLeft != old(timeLeft) && isActive && !isBreak && !IsSet(old(currentStartTime))
                                   then Some(now) else old(currentStartTime))
    {
      var before := Deps();
      timeLeft := if isBreak then BreakSeconds else WorkSeconds(duration);
      Settle(before, now);
    }

    /** The task selector; choosing the empty entry clears the selection. */
    method SelectTask(id: string, now: int)
      requires Valid()
      modifies this
      ensures Valid()
      ensures activeTaskId == id
      ensures duration == old(duration) && timeLeft == old(timeLeft) && isActive == old(isActive)
      ensures isBreak == old(isBreak) && showLogModal == old(showLogModal) && logContent == old(logContent)
      ensures focusHistory == old(focusHistory) && flowLogs == old(flowLogs) && attributed == old(attributed)
      ensures storedHistory == old(storedHistory) && storedLogs == old(storedLogs) && statsInstant == old(statsInstant)
      ensures currentStartTime == (if id != old(activeTaskId) && isActive && !isBreak && !IsSet(old(currentStartTime))
                                   then Some(now) else old(currentStartTime))
    {
      var before := Deps();
      activeTaskId := id;
      Settle(before, now);
    }

    /** Typing into the reflection prompt. */
    method EditLog(text: string)
      modifies this`logContent
      ensures logContent == text
    {
      logContent := text;
    }

    /** The reflection a save at `now` creates: it spans from the recorded
        session start (or, when none is recorded, one full work length before
        `now`) to `now`, and carries the selected task if there is one. */
    function SessionEntry(now: int): LogEntry
      reads this
    {
      var start := if IsSet(currentStartTime) then currentStartTime.value
                   else now - duration * MsPerMinute;
      LogEntry(now, start, now, logContent, if HasTask() then Some(activeTaskId) else None)
    }

    /** Puts `entry` first in the reflection log, cuts the log to 50 and
        writes it to storage. */
    method PublishReflection(entry: LogEntry)
      modifies this`flowLogs, this`storedLogs
      ensures flowLogs == PrependCapped(entry, old(flowLogs))
      ensures storedLogs == Saved(flowLogs)
    {
      flowLogs := PrependCapped(entry, flowLogs);
      storedLogs := Saved(flowLogs);
    }

    /** Submitting (or dismissing) the reflection prompt. Blank text only
        closes the prompt. Otherwise the new reflection goes first in the log,
        the log is cut to 50 and written to storage, and the text and the
        session start are cleared. The timer and the focus log are untouched. */
    method SaveLog(now: int)
      requires Valid()
      modifies this
      ensures Valid()
      ensures !showLogModal
      ensures duration == old(duration) && timeLeft == old(timeLeft) && isActive == old(isActive)
      ensures isBreak == old(isBreak) && activeTaskId == old(activeTaskId)
      ensures focusHistory == old(focusHistory) && storedHistory == old(storedHistory)
      ensures statsInstant == old(statsInstant) && attributed == old(attributed)
      ensures Text.IsBlank(old(logContent)) ==>
                && flowLogs == old(flowLogs) && storedLogs == old(storedLogs)
                && logContent == old(logContent) && currentStartTime == old(currentStartTime)
      ensures !Text.IsBlank(old(logContent)) ==>
                && flowLogs == PrependCapped(old(SessionEntry(now)), old(flowLogs))
                && storedLogs == Saved(flowLogs)
                && logContent == "" && currentStartTime == None
    {
      var text := logContent;
      var blank := Text.IsBlank(text);
      if blank {
        showLogModal := false;
      } else {
        var entry := SessionEntry(now);
        PublishReflection(entry);
        logContent, showLogModal, currentStartTime := "", false, None;
      }
    }

    /** The statistics on display for a zone offset `tz`. Because they are
        recomputed only when the focus-event log changes, "today" is the day
        of `statsInstant`, not the day on which they are looked at. */
    method Statistics(tz: int) returns (s: Aggregation.Stats)
      ensures s == Aggregation.StatsOf(focusHistory, DayOf(statsInstant, tz), tz)
      ensures s.todayMinutes == Aggregation.CountOnDay(focusHistory, DayOf(statsInstant, tz), tz)
    {
      s := Aggregation.ComputeStats(focusHistory, statsInstant, tz);
    }
  }
}
