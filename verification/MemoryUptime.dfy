/** The hourly aggregate of the memory store over whole runs (storage/store/memory/uptime.go, memory.go). */
module MemoryUptime {
  import opened Clock
  import opened Endpoints
  import opened Uptime

  /** A number of entries, as in the source. */
  const UPTIME_CLEAN_UP_THRESHOLD := 32 * 24

  /** processUptimeAfterResult; the cut-off is the retention and one hour, as in the SQL clean-up. */
  function AfterResult(m: Table, r: Result, now: Time): Table {
    var recorded := Record(m, r);
    if |recorded| > UPTIME_CLEAN_UP_THRESHOLD then Purged(recorded, DeleteLine(now)) else recorded
  }

  /** The hours after a run of inserts. */
  function Hours(run: seq<Insertion>): Table {
    if |run| == 0 then map[]
    else
      var last := run[|run| - 1];
      AfterResult(Hours(run[..|run| - 1]), last.result, last.now)
  }

  /** The hour in which the retention begins. */
  function FirstHour(now: Time): int {
    HourKey(now - UPTIME_RETENTION)
  }

  /** The extra hour of retention: the clean-up never reaches the hour in which the retention begins. */
  lemma CleanUpSparesFirstHour(now: Time, later: Time)
    requires now <= later
    ensures DeleteLine(now) <= FirstHour(later) && FirstHour(now) <= FirstHour(later)
  {
    DeleteLineFacts(now);
    DeleteLineFacts(later);
    UnixMonotone(now, later);
    HourKeyFacts(later - UPTIME_RETENTION);
    UnixMonotone(now - UPTIME_RETENTION, later - UPTIME_RETENTION);
    HourKeyMonotone(now - UPTIME_RETENTION, later - UPTIME_RETENTION);
  }

  lemma RecordedHour(m: Table, r: Result, f: Measure, k: int)
    ensures At(Record(m, r), f, k) == At(m, f, k) + Share(r, f, k, k + 1)
  {
    assert k in m ==> Plus(m[k], StatsOf(r)).Get(f) == m[k].Get(f) + StatsOf(r).Get(f);
  }

  lemma HoursExactAfterResult(m: Table, h: seq<Result>, r: Result, now: Time, line: int)
    requires HoursExact(m, h, line) && DeleteLine(now) <= line
    ensures HoursExact(AfterResult(m, r, now), h + [r], line)
  {
    var recorded, m', h' := Record(m, r), AfterResult(m, r, now), h + [r];
    forall f, k | line <= k ensures At(m', f, k) == Hist(h', f, k, k + 1) {
      HistAfterAppend(h, r, f, k, k + 1);
      assert At(m, f, k) == Hist(h, f, k, k + 1);
      RecordedHour(m, r, f, k);
    }
  }

  /** Every hour of the last 30 days is exact on every run. */
  lemma {:induction false} RunHoursExact(run: seq<Insertion>, now: Time)
    requires ValidRun(run, now)
    ensures HoursExact(Hours(run), History(run), FirstHour(now))
  {
    if |run| > 0 {
      var last, before := run[|run| - 1], run[..|run| - 1];
      RunHoursExact(before, last.now);
      CleanUpSparesFirstHour(last.now, last.now);
      HoursExactAfterResult(Hours(before), History(before), last.result, last.now, FirstHour(last.now));
      CleanUpSparesFirstHour(last.now, now);
    }
  }

  // ---------------------------------------------------------------- size

  lemma OnHoursAfterResult(m: Table, r: Result, now: Time)
    requires OnHours(m, now) && r.timestamp <= now
    ensures OnHours(Record(m, r), now) && OnHours(AfterResult(m, r, now), now)
  {
    HourKeyFacts(r.timestamp);
    UnixMonotone(r.timestamp, now);
  }

  lemma AgeOfKept(now: Time, k: int)
    requires DeleteLine(now) <= k <= Unix(now)
    ensures var base := FloorDay(Unix(now)) - 31 * DAY_SECONDS;
            base % DAY_SECONDS == 0 && base <= k < base + 32 * DAY_SECONDS
  {
    DeleteLineFacts(now);
    FloorDayFacts(Unix(now));
  }

  /** 31 days and an hour hold fewer hours than the threshold. */
  lemma CleanUpIsEnough(m: Table, now: Time)
    requires OnHours(m, now)
    ensures |Purged(m, DeleteLine(now))| <= UPTIME_CLEAN_UP_THRESHOLD
  {
    var keys := Purged(m, DeleteLine(now)).Keys;
    var base := FloorDay(Unix(now)) - 31 * DAY_SECONDS;
    forall k | k in keys ensures exists i :: 0 <= i < 768 && k == base + i * HOUR_SECONDS {
      AgeOfKept(now, k);
      var i := HourIndex(base, k, 32);
    }
    GridCount(keys, base, HOUR_SECONDS, 768);
  }

  /** The map never exceeds 768 hours. */
  lemma {:induction false} RunSize(run: seq<Insertion>, now: Time)
    requires ValidRun(run, now)
    ensures OnHours(Hours(run), now) && |Hours(run)| <= 768
  {
    if |run| > 0 {
      var last, before := run[|run| - 1], run[..|run| - 1];
      RunSize(before, last.now);
      OnHoursAfterResult(Hours(before), last.result, last.now);
      CleanUpIsEnough(Record(Hours(before), last.result), last.now);
      UnixMonotone(last.now, now);
    }
  }

  // ---------------------------------------------------------------- the query loop

  /** The last moment the query loop looks at. */
  function LastStep(from: Time, to: Time): Time
    requires from <= to
  {
    from + (to - from) / HOUR * HOUR
  }

  /** What a loop from `from` to `to` in steps of an hour should count: each hour from the hour of `from` to the hour of
      its last step once. */
  function LoopHist(h: seq<Result>, f: Measure, from: Time, to: Time): int
    requires from <= to
  {
    Hist(h, f, HourKey(from), HourKey(LastStep(from, to)) + HOUR_SECONDS)
  }

  lemma NextHourKey(t: Time)
    ensures HourKey(t + HOUR) == HourKey(t) + HOUR_SECONDS
  {
    assert (t + HOUR) / HOUR == t / HOUR + 1;
    assert Truncate(t, HOUR) == t / HOUR * HOUR && Truncate(t + HOUR, HOUR) == (t / HOUR + 1) * HOUR;
  }

  lemma NothingBetweenHours(k: int, j: int)
    requires k % HOUR_SECONDS == 0 && j % HOUR_SECONDS == 0
    ensures k <= j < k + HOUR_SECONDS <==> k <= j < k + 1
  {
  }

  /** Results are counted at the start of their hour, so the rest of the hour adds nothing. */
  lemma {:induction false} HistOfHour(h: seq<Result>, f: Measure, k: int)
    requires k % HOUR_SECONDS == 0
    ensures Hist(h, f, k, k + HOUR_SECONDS) == Hist(h, f, k, k + 1)
  {
    if |h| > 0 {
      HistOfHour(h[..|h| - 1], f, k);
      HourKeyFacts(h[|h| - 1].timestamp);
      NothingBetweenHours(k, HourKey(h[|h| - 1].timestamp));
    }
  }

  /** What the loop adds up in its first n steps. */
  function LoopSum(m: Table, f: Measure, from: Time, n: nat): int {
    if n == 0 then 0 else LoopSum(m, f, from, n - 1) + At(m, f, HourKey(from + (n - 1) * HOUR))
  }

  /** The steps of a loop that goes on while the moment it looks at is not after `to`. */
  function Steps(from: Time, to: Time): nat
    requires from <= to
  {
    (to - from) / HOUR + 1
  }

  lemma {:induction false} StepHourKey(from: Time, n: nat)
    ensures HourKey(from + n * HOUR) == HourKey(from) + n * HOUR_SECONDS
  {
    if n > 0 {
      StepHourKey(from, n - 1);
      NextHourKey(from + (n - 1) * HOUR);
    }
  }

  lemma OneMoreHour(m: Table, h: seq<Result>, f: Measure, line: int, first: int, k: int)
    requires HoursExact(m, h, line) && line <= first <= k && k % HOUR_SECONDS == 0
    ensures Hist(h, f, first, k + HOUR_SECONDS) == Hist(h, f, first, k) + At(m, f, k)
  {
    HistOfHour(h, f, k);
    HistSplit(h, f, first, k, k + HOUR_SECONDS);
    assert At(m, f, k) == Hist(h, f, k, k + 1);
  }

  /** The first n steps count n consecutive hours of the history, each once. */
  lemma {:induction false} LoopCountsHours(m: Table, h: seq<Result>, f: Measure, line: int, from: Time, n: nat)
    requires HoursExact(m, h, line) && line <= HourKey(from)
    ensures LoopSum(m, f, from, n) == Hist(h, f, HourKey(from), HourKey(from) + n * HOUR_SECONDS)
  {
    if n == 0 {
      HistOfEmptyRange(h, f, HourKey(from), HourKey(from));
    } else {
      LoopCountsHours(m, h, f, line, from, n - 1);
      StepHourKey(from, n - 1);
      HourKeyFacts(from + (n - 1) * HOUR);
      OneMoreHour(m, h, f, line, HourKey(from), HourKey(from) + (n - 1) * HOUR_SECONDS);
    }
  }

  lemma LastStepHour(from: Time, to: Time)
    requires from <= to
    ensures HourKey(LastStep(from, to)) + HOUR_SECONDS == HourKey(from) + Steps(from, to) * HOUR_SECONDS
  {
    StepHourKey(from, Steps(from, to) - 1);
  }

  /** On every run, a query from any moment of the last 30 days counts each hour from the hour of `from` to the hour of
      the loop's last step exactly as the full history does. */
  lemma QueryExact(run: seq<Insertion>, now: Time, f: Measure, from: Time, to: Time)
    requires ValidRun(run, now) && now - UPTIME_RETENTION <= from <= to
    ensures LoopSum(Hours(run), f, from, Steps(from, to)) == LoopHist(History(run), f, from, to)
  {
    RunHoursExact(run, now);
    HourKeyMonotone(now - UPTIME_RETENTION, from);
    LoopCountsHours(Hours(run), History(run), f, FirstHour(now), from, Steps(from, to));
    LastStepHour(from, to);
  }

  // ---------------------------------------------------------------- inside the loop

  lemma {:induction false} RunExecutedHours(run: seq<Insertion>)
    ensures Executed(Hours(run))
  {
    if |run| > 0 {
      RunExecutedHours(run[..|run| - 1]);
    }
  }

  /** The loop stops after its last step. */
  lemma StepsAtExit(from: Time, to: Time, n: nat)
    requires from <= to && n > 0
    requires from + (n - 1) * HOUR <= to < from + n * HOUR
    ensures n == Steps(from, to)
  {
  }

  /** The hour is one of those the first n steps visit. */
  ghost predicate Visited(from: Time, n: nat, k: int) {
    exists i :: 0 <= i < n && k == HourKey(from + i * HOUR)
  }

  /** Exactly the visited hours in which something ran, each with its average response time. */
  ghost predicate LoopAverages(averages: map<int, int>, m: Table, from: Time, n: nat) {
    && (forall k :: k in averages <==> k in m && Visited(from, n, k))
    && forall k :: k in averages && m[k].totalExecutions > 0 ==>
         averages[k] == m[k].totalResponseTime / m[k].totalExecutions
  }

  lemma VisitedStep(from: Time, n: nat, j: int)
    ensures Visited(from, n + 1, j) <==> j == HourKey(from + n * HOUR) || Visited(from, n, j)
  {
    if Visited(from, n, j) {
      var i :| 0 <= i < n && j == HourKey(from + i * HOUR);
      assert 0 <= i < n + 1 && j == HourKey(from + i * HOUR);
    }
  }

  lemma LoopAveragesStep(averages: map<int, int>, m: Table, from: Time, n: nat)
    requires LoopAverages(averages, m, from, n)
    ensures var k := HourKey(from + n * HOUR);
            LoopAverages(if k in m then averages[k := if m[k].totalExecutions > 0
                                                      then m[k].totalResponseTime / m[k].totalExecutions else 0]
                         else averages, m, from, n + 1)
  {
    forall j ensures Visited(from, n + 1, j) <==> j == HourKey(from + n * HOUR) || Visited(from, n, j) {
      VisitedStep(from, n, j);
    }
  }

  ghost predicate HistoryAverage(averages: map<int, int>, h: seq<Result>, from: Time, n: nat, k: int) {
    && (k in averages <==> Visited(from, n, k) && Hist(h, Executions, k, k + 1) > 0)
    && (k in averages ==> averages[k] == Hist(h, ResponseTime, k, k + 1) / Hist(h, Executions, k, k + 1))
  }

  /** Exactly the visited hours in which the history has executions, each with the history's average. */
  ghost predicate HistoryAverages(averages: map<int, int>, h: seq<Result>, from: Time, n: nat) {
    forall k :: HistoryAverage(averages, h, from, n, k)
  }

  /** In the last 30 days the averages are those of the history's hours. */
  lemma RecentLoopAverages(run: seq<Insertion>, now: Time, averages: map<int, int>,
                                              from: Time, to: Time)
    requires ValidRun(run, now) && now - UPTIME_RETENTION <= from <= to
    requires LoopAverages(averages, Hours(run), from, Steps(from, to))
    ensures HistoryAverages(averages, History(run), from, Steps(from, to))
  {
    RunHoursExact(run, now);
    RunExecutedHours(run);
    forall k ensures HistoryAverage(averages, History(run), from, Steps(from, to), k) {
      if Visited(from, Steps(from, to), k) {
        var i :| 0 <= i < Steps(from, to) && k == HourKey(from + i * HOUR);
        HourKeyMonotone(now - UPTIME_RETENTION, from + i * HOUR);
        RowOfHour(Hours(run), History(run), FirstHour(now), k);
      }
    }
  }
}
