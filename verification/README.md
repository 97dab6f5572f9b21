# Focus-session engine of a personal dashboard

A Dafny model of the focus timer in the dashboard's Pomodoro component
(`src/components/Pomodoro.tsx`). The timer alternates between a work
countdown and a 5-minute break. It credits one focus minute to an event log
each time a work countdown passes a whole minute and once more when it
reaches zero. It applies a 30-second floor and a partial-minute rule when a
session is stopped early. Each credited minute is also attributed to the
selected task. At the end of a work session it asks for a short reflection.
Reflections are kept newest first, and each save cuts the list to 50; a list
loaded from storage is taken as it is, without a cap. Whenever the event log
changes, the component rebuilds three views from it: today's total, a
24-bucket hourly histogram of today, and an 84-day heatmap, oldest day first.
Those views are not rebuilt at other times, so "today" means the day of the
last change to the event log.

Files:

- `clock.dfy` (`Clock`): local day and hour of an instant, for a fixed zone offset.
- `aggregation.dfy` (`Aggregation`): the statistics views. Each is specified by a
  function of the event log and built by a method with the original loops.
- `text.dfy` (`Text`): trimming, and when a note counts as blank.
- `session_rules.dfy` (`SessionRules`): when a tick or a stop credits a minute,
  and the totals a completed or a stopped session credits.
- `option.dfy` (`Optional`): an optional value.
- `persistence.dfy` (`Persistence`): stored values that may be missing or unreadable.
- `flow_log.dfy` (`FlowLog`): reflection entries and the capped prepend.
- `pomodoro.dfy` (`Focus`): the component as a class. Its fields are the
  component's state. It has one method per user action, one for the
  one-second tick, and one for the tick effect's body.
- `scenarios.dfy` (`Scenarios`): whole sessions driven through the class's
  methods. These methods connect the class to the totals in `SessionRules`.

How the model treats the component's environment:

- Every instant the component reads from the clock is a `now` parameter.
- Local time is `DayOf`/`HourOf` for a fixed offset `tz` from UTC.
- Each handler and each tick is one atomic method. After it, the tick effect
  runs again if one of its dependencies changed: whether the timer runs, the
  remaining seconds, the mode, the selected task, or the work length. The
  method `Settle` does this.
- Browser storage is two fields. Each holds `Missing`, `Corrupt` or the
  collection last written.
- Calls to the task list are recorded in a ghost trace, `attributed`.
- A selected task id of `null` and one of `""` behave the same in the
  component, so the model uses `""` for "no task".

Behaviour of the code that the model keeps as it is:

- Early stop. A stop after 30 s or more credits one more minute when
  `elapsed % 60 >= 30` or `elapsed % 60 == 0`, even when the boundary tick
  already credited that minute. `StoppedSessionCredit` and `RunThenStop` show
  the result: a stop on a whole minute credits one minute more than was worked.
- Reset. The reset button restarts the countdown of the current mode, also
  while it is running (`ResetCountdown`).
- Blank notes. A note that is blank after trimming is discarded; a non-blank
  note is stored untrimmed. A blank save keeps the recorded session start,
  and a later session reuses it.
- Session start. With no recorded start, a save uses one full work length
  before the save as the start. A start at instant 0 counts as no start.
- Loading. A log falls back to empty only when the stored text is missing,
  empty or unparsable. The shape of a value that parses is not checked.
- Statistics. They are recomputed on mounting and whenever a minute is
  credited, and at no other time. After midnight they keep showing the
  previous day as "today" until the next credited minute (`statsInstant`,
  `Statistics`).

## Model

| member | source | states |
|---|---|---|
| Clock.HourOf | src/components/Pomodoro.tsx:166 | the local hour of an event indexes one of the 24 buckets: it is always in 0..23 |
| Clock.MidnightOpensNewDay | src/components/Pomodoro.tsx:163 | an event at exactly local midnight is on the new day, at hour 0; the millisecond before is hour 23 of the day before |
| Aggregation.CountOnDay | src/components/Pomodoro.tsx:163 | a day's count never exceeds the number of events in the log |
| Aggregation.CountAtHour | src/components/Pomodoro.tsx:165-166 | an hour's bucket never exceeds the count of its day |
| Aggregation.CountOnDayAppend | src/components/Pomodoro.tsx:163 | one more event adds one to its own day's count and changes no other day |
| Aggregation.BuildCountsByDay | src/components/Pomodoro.tsx:162-163 | the per-day dictionary has exactly the days with events as keys, each mapped to that day's count |
| Aggregation.BuildDistribution | src/components/Pomodoro.tsx:164-167 | the histogram has 24 buckets and bucket h counts today's events at hour h |
| Aggregation.BuildHeatmap | src/components/Pomodoro.tsx:168-172 | read from the dictionary, the heatmap gives cell k the day today-83+k and that day's count, with missing days counting 0 |
| Aggregation.ComputeStats | src/components/Pomodoro.tsx:160-174 | the statistics are a function of the log, the day of `now` and the zone; the histogram sums to today's total, and the heatmap's last cell is today |
| Aggregation.Recompute | src/components/Pomodoro.tsx:160-174 | recomputing over an unchanged log gives identical statistics |
| Aggregation.DistributionSumsToDayTotal | src/components/Pomodoro.tsx:164-167 | the 24 buckets add up to today's total (`todayMinutes`) |
| Aggregation.DistributionShape | src/components/Pomodoro.tsx:164 | the histogram has 24 buckets, each at most today's total |
| Aggregation.HeatmapShape | src/components/Pomodoro.tsx:168-173 | the heatmap has 84 cells for today-83 .. today, oldest first; its last cell holds today's total |
| Aggregation.HeatmapIgnoresEventsOutsideWindow | src/components/Pomodoro.tsx:168-172 | an event older than the 84-day window, or after today, changes no heatmap cell |
| Text.TrimStart | src/components/Pomodoro.tsx:61 | trimming the front leaves a suffix of the note that starts with a non-white-space character, or nothing |
| Text.TrimEnd | src/components/Pomodoro.tsx:61 | trimming the end leaves a prefix of the note that ends with a non-white-space character, or nothing |
| Text.TrimStartRemovesOnlyWhiteSpace | src/components/Pomodoro.tsx:61 | every character trimming removes from the front is white space, so exactly the leading white space goes |
| Text.TrimEndRemovesOnlyWhiteSpace | src/components/Pomodoro.tsx:61 | every character trimming removes from the end is white space, so exactly the trailing white space goes |
| Text.BlankIffAllWhiteSpace | src/components/Pomodoro.tsx:61 | a note trims to nothing exactly when every character is white space |
| SessionRules.BoundaryEventsAreCompletedMinutes | src/components/Pomodoro.tsx:82-86 | ticking a work countdown down from a whole number of minutes to t > 0 credits one minute per completed minute |
| SessionRules.WorkIntervalCreditsItsLength | src/components/Pomodoro.tsx:83-96 | boundary ticks plus the credit at zero add up to exactly the work length in minutes |
| SessionRules.StoppedSessionCredit | src/components/Pomodoro.tsx:106-116 | a session stopped after `elapsed` seconds credits nothing below 30 s; otherwise the minutes rounded to nearest; on a whole minute, one more than worked |
| FlowLog.PrependCapped | src/components/Pomodoro.tsx:70 | the new reflection is first, the old ones follow in order, and the length is min(old + 1, 50) |
| FlowLog.PrependCappedEvictsOldest | src/components/Pomodoro.tsx:70 | the log never exceeds 50; adding to a full log drops the oldest entry |
| Focus.Pomodoro.Mount | src/components/Pomodoro.tsx:24-48 | starts as a stopped 25-minute work countdown; each log loads as stored, or as empty when missing or unreadable; the statistics are computed at the mount instant |
| Focus.Pomodoro.RecordFocusMinute | src/components/Pomodoro.tsx:52-58 | appends exactly one event at the end, keeps all earlier ones, writes the log to storage, and makes the statistics recompute at that instant |
| Focus.Pomodoro.CreditFocusMinute | src/components/Pomodoro.tsx:84-85 | records a focus minute and attributes one minute to the selected task, if any |
| Focus.Pomodoro.RunEffect | src/components/Pomodoro.tsx:76-102 | while running with time left, stamps a work session's start if none is recorded (never in a break); at zero, work credits a minute, stops, opens the prompt and becomes a 300 s break; a break stops and becomes a full work countdown without crediting |
| Focus.Pomodoro.Settle | src/components/Pomodoro.tsx:102 | the effect runs only when one of its dependencies changed; between steps it can only stamp a session start |
| Focus.Pomodoro.Tick | src/components/Pomodoro.tsx:80-99 | a tick lowers the countdown by exactly 1; it credits only when the new value is positive, a multiple of 60 and in work mode; reaching zero moves to the next mode; storage is rewritten exactly when a minute is credited |
| Focus.Pomodoro.Toggle | src/components/Pomodoro.tsx:104 | flips running; starting a work countdown stamps its start if none is recorded |
| Focus.Pomodoro.Stop | src/components/Pomodoro.tsx:106-118 | always ends stopped, in work mode, at full length; a running work session under 30 s is discarded without prompt and its start cleared; from 30 s it credits one minute iff `elapsed % 60 >= 30` or `== 0`, and opens the prompt; storage is rewritten only when it credits |
| Focus.Pomodoro.SetDuration | src/components/Pomodoro.tsx:264 | sets the work length and restarts the countdown at that length |
| Focus.Pomodoro.ResetCountdown | src/components/Pomodoro.tsx:269 | restarts the countdown at the full length of the current mode |
| Focus.Pomodoro.SelectTask | src/components/Pomodoro.tsx:272 | sets the selected task; if the selection changed while a work countdown runs with no recorded start, the re-run effect stamps the start at `now`; nothing else changes |
| Focus.Pomodoro.EditLog | src/components/Pomodoro.tsx:247 | the prompt's text becomes what was typed |
| Focus.Pomodoro.PublishReflection | src/components/Pomodoro.tsx:70-72 | the new reflection goes first in the capped log, and storage holds the new log |
| Focus.Pomodoro.SaveLog | src/components/Pomodoro.tsx:60-74 | blank text only closes the prompt; otherwise the new reflection is prepended and capped, stored, and the text and session start are cleared; the timer and event log are untouched |
| Focus.Pomodoro.Statistics | src/components/Pomodoro.tsx:160-174 | the statistics on display are those of the event log for the day of the last change to the log (or of mounting), not the day they are looked at |
| Scenarios.RunTicks | src/components/Pomodoro.tsx:80-88 | ticks of a running work countdown add one event, and one attribution when a task is selected, per whole-minute boundary crossed |
| Scenarios.RunToCompletion | src/components/Pomodoro.tsx:76-102 | a work session run to zero adds exactly `duration` events and attributions, then waits in a stopped break with the prompt open |
| Scenarios.RunThenStop | src/components/Pomodoro.tsx:106-118 | a session stopped under 30 s leaves no event and no prompt; later stops open the prompt and add the rounded minutes, or one extra on a whole minute |
| Scenarios.Reload | src/components/Pomodoro.tsx:41-48 | reloading from storage gives back both logs exactly as they are in memory, with the statistics computed at the reload instant |

## Left out

- Rendering: the JSX, the stats view, `formatClockTime` and the opacity values of the heatmap and bars. These are display only, and the opacities are floating point.
- `exportPoster` (the screenshot export): it needs the DOM, a canvas library and an asynchronous download.
- The daily goal. It is loaded with `parseInt`, which is outside the model, and it is only displayed.
- The `onZenChange` and `onStatsUpdate` notifications. They are plain callbacks that change no state of the component.
- `setInterval` scheduling, React's batched state updates and stale closures. Each tick and each handler is one atomic step.
- Aggregation.ComputeStats: each heatmap cell reads the clock again (`new Date()`) and moves that date back from the day of the first reading; the model uses the one `now` for every cell, so a recomputation that straddles midnight is not modelled.
- Time zones beyond a fixed offset from UTC. Daylight-saving changes are not modelled.
- The text encoding of stored values. A collection reads back exactly as written, and a value that parses but has the wrong shape is not modelled.
- Storage write failures and other tabs writing the same storage.
- Focus.Pomodoro.SaveLog: the entry's id is the save instant as an integer, not its decimal string. The id, the end time and the fallback start all use one `now`, while the code reads the clock separately for each.
- Focus.Pomodoro.SetDuration: it requires a value the slider can produce (5 to 60 in steps of 5), in the state where the slider is shown.
- Focus.Pomodoro.Tick: it requires a running timer, because the interval that calls it exists only then.
- Scenarios.RunToCompletion: it states the session start only when the start instant is not 0, because the component treats an instant 0 as no start.
- What the task list does with an attributed minute. That list is not part of this model.
