/** The statistics view of the focus engine: three views rebuilt from the raw
    list of focus-event timestamps each time the list changes. Each view is
    specified by a function of the list, the reference day and the zone, and
    built by a method with the loops of the original computation. */
module Aggregation {
  import opened Clock

  /** Number of calendar days the heatmap covers, today included. */
  const HeatmapDays: nat := 84

  /** One heatmap cell: a local day number and the focus minutes on it. */
  datatype HeatCell = HeatCell(day: int, mins: nat)

  /** The result of one recomputation. */
  datatype Stats = Stats(todayMinutes: nat, distribution: seq<nat>, heatmap: seq<HeatCell>)

  // ---------------------------------------------------------------------------
  // Specification

  /** Number of events of `history` on local day `day`. */
  function CountOnDay(history: seq<int>, day: int, tz: int): (n: nat)
    ensures n <= |history|
  {
    if history == [] then 0
    else
      var k := |history| - 1;
      CountOnDay(history[..k], day, tz) + (if DayOf(history[k], tz) == day then 1 else 0)
  }

  /** Number of events of `history` on local day `day` whose local hour is `hour`. */
  function CountAtHour(history: seq<int>, day: int, hour: int, tz: int): (n: nat)
    ensures n <= CountOnDay(history, day, tz)
  {
    if history == [] then 0
    else
      var k := |history| - 1;
      CountAtHour(history[..k], day, hour, tz)
        + (if DayOf(history[k], tz) == day && HourOf(history[k], tz) == hour then 1 else 0)
  }

  /** Reading a day-count dictionary: a missing day counts 0. */
  function Lookup(counts: map<int, nat>, day: int): nat
  {
    if day in counts then counts[day] else 0
  }

  /** `counts` is the per-day dictionary of `history`: its keys are exactly the
      days with at least one event, and each maps to that day's count. */
  ghost predicate IsCountsByDay(counts: map<int, nat>, history: seq<int>, tz: int)
  {
    (forall d :: d in counts ==> counts[d] == CountOnDay(history, d, tz) && counts[d] > 0) &&
    (forall d :: CountOnDay(history, d, tz) > 0 ==> d in counts)
  }

  /** The hourly histogram of day `today`: bucket `h` counts its events at hour `h`. */
  function Distribution(history: seq<int>, today: int, tz: int): seq<nat>
  {
    seq(HoursPerDay, h => CountAtHour(history, today, h, tz))
  }

  /** The heatmap: the 84 days ending with `today`, oldest first. */
  function Heatmap(history: seq<int>, today: int, tz: int): seq<HeatCell>
  {
    seq(HeatmapDays, k => HeatCell(today - (HeatmapDays - 1) + k,
                                   CountOnDay(history, today - (HeatmapDays - 1) + k, tz)))
  }

  function StatsOf(history: seq<int>, today: int, tz: int): Stats
  {
    Stats(CountOnDay(history, today, tz), Distribution(history, today, tz), Heatmap(history, today, tz))
  }

  function Sum(s: seq<nat>): nat
  {
    if s == [] then 0 else s[0] + Sum(s[1..])
  }

  // ---------------------------------------------------------------------------
  // Properties of the specification

  lemma {:induction false} SumBump(s: seq<nat>, i: nat)
    requires i < |s|
    ensures Sum(s[i := s[i] + 1]) == Sum(s) + 1
  {
    if i > 0 {
      assert s[i := s[i] + 1][1..] == s[1..][i - 1 := s[i] + 1];
      SumBump(s[1..], i - 1);
    } else {
      assert s[i := s[i] + 1][1..] == s[1..];
    }
  }

  /** The histogram's buckets add up to the day's total: every event of the day
      lands in exactly one of the 24 buckets. */
  lemma {:induction false} DistributionSumsToDayTotal(history: seq<int>, today: int, tz: int)
    ensures Sum(Distribution(history, today, tz)) == CountOnDay(history, today, tz)
  {
    if history == [] {
      var z := Distribution(history, today, tz);
      assert forall h :: 0 <= h < |z| ==> z[h] == 0;
      ZeroSum(z);
    } else {
      var k := |history| - 1;
      var prev := history[..k];
      var ts := history[k];
      DistributionSumsToDayTotal(prev, today, tz);
      if DayOf(ts, tz) == today {
        var h := HourOf(ts, tz);
        var bumped := Distribution(prev, today, tz)[h := Distribution(prev, today, tz)[h] + 1];
        assert Distribution(history, today, tz) == bumped;
        SumBump(Distribution(prev, today, tz), h);
      } else {
        assert Distribution(history, today, tz) == Distribution(prev, today, tz);
      }
    }
  }

  lemma {:induction false} ZeroSum(s: seq<nat>)
    requires forall i :: 0 <= i < |s| ==> s[i] == 0
    ensures Sum(s) == 0
  {
    if s != [] {
      ZeroSum(s[1..]);
    }
  }

  /** Appending an event adds one to its own day's count and changes no other day. */
  lemma CountOnDayAppend(history: seq<int>, ts: int, day: int, tz: int)
    ensures CountOnDay(history + [ts], day, tz)
            == CountOnDay(history, day, tz) + (if DayOf(ts, tz) == day then 1 else 0)
  {
  }

  /** The heatmap has 84 cells for today-83 .. today, oldest first, each
      counting that day's events; its last cell is today's total. */
  lemma HeatmapShape(history: seq<int>, today: int, tz: int)
    ensures |Heatmap(history, today, tz)| == HeatmapDays
    ensures forall k :: 0 <= k < HeatmapDays ==>
              Heatmap(history, today, tz)[k].day == today - (HeatmapDays - 1) + k
    ensures Heatmap(history, today, tz)[HeatmapDays - 1] == HeatCell(today, CountOnDay(history, today, tz))
  {
  }

  /** An event outside the 84-day window (older, or on a later day) changes
      no heatmap cell. */
  lemma HeatmapIgnoresEventsOutsideWindow(history: seq<int>, ts: int, today: int, tz: int)
    requires DayOf(ts, tz) < today - (HeatmapDays - 1) || DayOf(ts, tz) > today
    ensures Heatmap(history + [ts], today, tz) == Heatmap(history, today, tz)
  {
    forall k | 0 <= k < HeatmapDays
      ensures Heatmap(history + [ts], today, tz)[k] == Heatmap(history, today, tz)[k]
    {
      CountOnDayAppend(history, ts, today - (HeatmapDays - 1) + k, tz);
    }
  }

  /** Every bucket counts only the day's events at its hour, and a bucket is
      bounded by the day's total. */
  lemma DistributionShape(history: seq<int>, today: int, tz: int)
    ensures |Distribution(history, today, tz)| == HoursPerDay
    ensures forall h :: 0 <= h < HoursPerDay ==>
              Distribution(history, today, tz)[h] <= CountOnDay(history, today, tz)
  {
  }

  // ---------------------------------------------------------------------------
  // The computation

  /** The day-count dictionary, filled by one pass over the history. */
  method BuildCountsByDay(history: seq<int>, tz: int) returns (counts: map<int, nat>)
    ensures IsCountsByDay(counts, history, tz)
  {
    counts := map[];
    for i := 0 to |history|
      invariant IsCountsByDay(counts, history[..i], tz)
    {
      var d := DayOf(history[i], tz);
      counts := counts[d := Lookup(counts, d) + 1];
      assert history[..i + 1][..i] == history[..i];
    }
    assert history[..|history|] == history;
  }

  /** The hourly histogram: 24 zeroed buckets, then one increment per event of
      the day `today`, at the event's hour. */
  method BuildDistribution(history: seq<int>, today: int, tz: int) returns (dist: seq<nat>)
    ensures dist == Distribution(history, today, tz)
  {
    var buckets := new nat[HoursPerDay](_ => 0);
    for i := 0 to |history|
      invariant forall h :: 0 <= h < HoursPerDay ==> buckets[h] == CountAtHour(history[..i], today, h, tz)
    {
      var ts := history[i];
      if DayOf(ts, tz) == today {
        var h := HourOf(ts, tz);
        buckets[h] := buckets[h] + 1;
      }
      assert history[..i + 1][..i] == history[..i];
    }
    assert history[..|history|] == history;
    dist := buckets[..];
  }

  /** The heatmap, read off the day-count dictionary of `history` for the
      days today-83 up to today. */
  method BuildHeatmap(counts: map<int, nat>, today: int, ghost history: seq<int>, tz: int)
    returns (heat: seq<HeatCell>)
    requires IsCountsByDay(counts, history, tz)
    ensures heat == Heatmap(history, today, tz)
  {
    heat := [];
    for i := HeatmapDays downto 0
      invariant |heat| == HeatmapDays - i
      invariant forall k :: 0 <= k < |heat| ==>
                  heat[k] == HeatCell(today - (HeatmapDays - 1) + k,
                                      CountOnDay(history, today - (HeatmapDays - 1) + k, tz))
    {
      var d := today - i;
      heat := heat + [HeatCell(d, Lookup(counts, d))];
    }
  }

  /** One recomputation of the statistics for the instant `now`. Its result is
      determined by the history, `now` and the zone alone. */
  method ComputeStats(history: seq<int>, now: int, tz: int) returns (s: Stats)
    ensures s == StatsOf(history, DayOf(now, tz), tz)
    ensures s.todayMinutes == CountOnDay(history, DayOf(now, tz), tz)
    ensures |s.distribution| == HoursPerDay && Sum(s.distribution) == s.todayMinutes
    ensures |s.heatmap| == HeatmapDays && s.heatmap[HeatmapDays - 1].mins == s.todayMinutes
  {
    var today := DayOf(now, tz);
    var counts := BuildCountsByDay(history, tz);
    var dist := BuildDistribution(history, today, tz);
    var heat := BuildHeatmap(counts, today, history, tz);
    s := Stats(Lookup(counts, today), dist, heat);
    DistributionSumsToDayTotal(history, today, tz);
    HeatmapShape(history, today, tz);
  }

  /** Recomputing over an unchanged log gives the same statistics. */
  method Recompute(history: seq<int>, now: int, tz: int) returns (first: Stats, second: Stats)
    ensures first == second
  {
    first := ComputeStats(history, now, tz);
    second := ComputeStats(history, now, tz);
  }
}
