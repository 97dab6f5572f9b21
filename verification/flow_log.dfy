/** The reflection log: the notes a user writes at the end of a focus session,
    newest first. Each save cuts the log to 50 entries; a log loaded from
    storage is taken as it is. */
module FlowLog {
  import opened Optional

  /** Most entries the log keeps. */
  const LogCap: nat := 50

  /** One reflection. `id` is the creation instant (the log stores its decimal
      rendering); `taskId` is the focus task selected at the time, if any,
      which the log only carries along. */
  datatype LogEntry = LogEntry(id: int, startTime: int, endTime: int, content: string, taskId: Option<string>)

  function Min(a: int, b: int): int
  {
    if a <= b then a else b
  }

  /** The log after `entry` is added: the new entry first, then the old
      entries in their order, cut to the cap. */
  function PrependCapped(entry: LogEntry, logs: seq<LogEntry>): (r: seq<LogEntry>)
    ensures |r| == Min(|logs| + 1, LogCap)
    ensures r[0] == entry
    ensures forall i :: 1 <= i < |r| ==> r[i] == logs[i - 1]
  {
    ([entry] + logs)[..Min(|logs| + 1, LogCap)]
  }

  /** The log never grows beyond the cap, and adding to a full log drops the
      oldest entry and keeps the 49 newest. */
  lemma PrependCappedEvictsOldest(entry: LogEntry, logs: seq<LogEntry>)
    ensures |PrependCapped(entry, logs)| <= LogCap
    ensures |logs| == LogCap ==> PrependCapped(entry, logs) == [entry] + logs[..LogCap - 1]
    ensures |logs| < LogCap ==> PrependCapped(entry, logs) == [entry] + logs
  {
  }
}
