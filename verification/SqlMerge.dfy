/** The merge of hourly uptime rows into daily ones, loop by loop (storage/store/sql/sql.go). */
module SqlMerge {
  import opened Clock
  import opened Uptime
  import opened SqlUptime

  /** The rows of the table with their keys in the given set. */
  function Restrict(m: Table, keys: set<int>): Table {
    map k | k in m && k in keys :: m[k]
  }

  /** Each entry is the sum of the rows of its day, and each day with a row has an entry. */
  ghost predicate DailySums(daily: map<int, Stats>, rows: Table) {
    && daily.Keys == DaysOf(rows.Keys)
    && forall d, f :: d in daily ==> daily[d].Get(f) == Sum(rows, f, d, d + DAY_SECONDS)
  }

  /** What adding a row to its day's entry does to the entry of any day. */
  function AddToDay(daily: map<int, Stats>, k: int, s: Stats): map<int, Stats> {
    var d := FloorDay(k);
    daily[d := if d in daily then Plus(daily[d], s) else s]
  }

  lemma DaySumStep(daily: map<int, Stats>, rows: Table, k: int, s: Stats, e: int, f: Measure)
    requires DailySums(daily, rows) && k !in rows && e in AddToDay(daily, k, s)
    ensures AddToDay(daily, k, s)[e].Get(f) == Sum(rows[k := s], f, e, e + DAY_SECONDS)
  {
    SumAfterAdd(rows, rows[k := s], f, k, s.Get(f), e, e + DAY_SECONDS);
    FloorDayFacts(k);
    if e in daily {
      assert Plus(daily[e], s).Get(f) == daily[e].Get(f) + s.Get(f);
      var j :| j in rows && FloorDay(j) == e;
      FloorDayFacts(j);
      FloorDayUnique(e, k);
    } else {
      forall j | e <= j < e + DAY_SECONDS ensures j !in rows {
        FloorDayUnique(e, j);
      }
      SumOfNoRows(rows, f, e, e + DAY_SECONDS);
    }
  }

  lemma DailySumsStep(daily: map<int, Stats>, rows: Table, k: int, s: Stats)
    requires DailySums(daily, rows) && k !in rows
    ensures DailySums(AddToDay(daily, k, s), rows[k := s])
  {
    forall e, f | e in AddToDay(daily, k, s)
      ensures AddToDay(daily, k, s)[e].Get(f) == Sum(rows[k := s], f, e, e + DAY_SECONDS)
    {
      DaySumStep(daily, rows, k, s, e, f);
    }
    assert rows[k := s].Keys == rows.Keys + {k};
    assert DaysOf(rows.Keys + {k}) == DaysOf(rows.Keys) + {FloorDay(k)};
  }

  /** Summing the selected rows of a day is summing the table from the keep line on. */
  lemma SelectedDay(m: Table, mergeLine: int, keepLine: int, f: Measure, k: int)
    requires mergeLine % DAY_SECONDS == 0 && k in m && keepLine <= k < mergeLine
    ensures var d, rows := FloorDay(k), Restrict(m, SelectedKeys(m, mergeLine, keepLine));
            Sum(rows, f, d, d + DAY_SECONDS) == DayTotal(m, d, keepLine).Get(f)
  {
    var d, rows := FloorDay(k), Restrict(m, SelectedKeys(m, mergeLine, keepLine));
    var lo, hi := if d < keepLine then keepLine else d, d + DAY_SECONDS;
    FloorDayFacts(k);
    assert hi <= mergeLine;
    SumOfNoRows(rows, f, d, lo);
    SumSplit(rows, f, d, lo, hi);
    SumAgree(m, rows, f, lo, hi);
  }

  lemma SameMeasures(a: Stats, b: Stats)
    requires forall f :: a.Get(f) == b.Get(f)
    ensures a == b
  {
    assert a.Get(Executions) == b.Get(Executions) && a.Get(Successes) == b.Get(Successes);
    assert a.Get(ResponseTime) == b.Get(ResponseTime);
  }

  lemma DailyEntriesAreTotals(m: Table, mergeLine: int, keepLine: int, daily: map<int, Stats>)
    requires mergeLine % DAY_SECONDS == 0
    requires DailySums(daily, Restrict(m, SelectedKeys(m, mergeLine, keepLine)))
    ensures forall d :: d in daily ==> d < mergeLine && daily[d] == DayTotal(m, d, keepLine)
    ensures daily.Keys == DaysOf(SelectedKeys(m, mergeLine, keepLine))
  {
    forall d | d in daily ensures d < mergeLine && daily[d] == DayTotal(m, d, keepLine) {
      var k :| k in m && keepLine <= k < mergeLine && FloorDay(k) == d;
      FloorDayFacts(k);
      forall f ensures daily[d].Get(f) == DayTotal(m, d, keepLine).Get(f) {
        SelectedDay(m, mergeLine, keepLine, f, k);
      }
      SameMeasures(daily[d], DayTotal(m, d, keepLine));
    }
  }

  /** The first loop: sum the selected rows day by day, in whatever order the query returns them. */
  method SumByDay(m: Table, mergeLine: int, keepLine: int) returns (dailyEntries: map<int, Stats>)
    ensures DailySums(dailyEntries, Restrict(m, SelectedKeys(m, mergeLine, keepLine)))
  {
    var rows := SelectedKeys(m, mergeLine, keepLine);
    var rest := rows;
    dailyEntries := map[];
    while rest != {}
      invariant rest <= rows
      invariant DailySums(dailyEntries, Restrict(m, rows - rest))
      decreases rest
    {
      var k :| k in rest;
      var day := FloorDay(k);
      ghost var before := Restrict(m, rows - rest);
      DailySumsStep(dailyEntries, before, k, m[k]);
      if day !in dailyEntries {
        dailyEntries := dailyEntries[day := m[k]];
      } else {
        dailyEntries := dailyEntries[day := Plus(dailyEntries[day], m[k])];
      }
      rest := rest - {k};
      assert before[k := m[k]] == Restrict(m, rows - rest);
    }
    assert rows - rest == rows;
  }

  /** mergeHourlyUptimeEntriesOlderThanMergeThresholdIntoDailyUptimeEntries */
  method MergeHourlyUptimeEntries(m: Table, now: Time) returns (merged: Table)
    ensures merged == Merged(m, MergeLine(now), KeepLine(now))
  {
    var minThreshold, maxThreshold := MergeLine(now), KeepLine(now);
    MergeLineFacts(now);
    var dailyEntries := SumByDay(m, minThreshold, maxThreshold);
    DailyEntriesAreTotals(m, minThreshold, maxThreshold, dailyEntries);
    // The rows below the merge line go, selected or not.
    var kept := Purged(m, minThreshold);
    merged := kept;
    // A row of the same midnight cannot be left, so each entry becomes a row of its own.
    var rest := dailyEntries.Keys;
    while rest != {}
      invariant rest <= dailyEntries.Keys
      invariant merged.Keys == kept.Keys + (dailyEntries.Keys - rest)
      invariant forall k :: k in merged ==> merged[k] == if k in dailyEntries then dailyEntries[k] else kept[k]
      decreases rest
    {
      var day :| day in rest;
      merged := merged[day := dailyEntries[day]];
      rest := rest - {day};
    }
    assert merged.Keys == MergedKeys(m, minThreshold, maxThreshold);
  }
}
