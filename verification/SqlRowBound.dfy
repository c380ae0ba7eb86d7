/** How many uptime rows an endpoint can have, and how old they can be, after an Insert (storage/store/sql/sql.go). */
module SqlRowBound {
  import opened Clock
  import opened Endpoints
  import opened Uptime
  import opened SqlUptime

  ghost predicate NoOutdatedRow(m: Table, now: Time) {
    forall k :: k in m ==> now - k * SECOND <= UPTIME_AGE_CLEAN_UP_THRESHOLD
  }

  lemma MidnightIsOnHour(s: int)
    ensures FloorDay(s) % HOUR_SECONDS == 0 && FloorDay(s) <= s
  {
    var q := s / DAY_SECONDS;
    assert FloorDay(s) == q * 24 * HOUR_SECONDS;
  }

  lemma OnHoursAfterInsert(m: Table, r: Result, now: Time)
    requires OnHours(m, now) && r.timestamp <= now
    ensures OnHours(Record(m, r), now) && OnHours(AfterInsert(m, r, now), now)
  {
    HourKeyFacts(r.timestamp);
    UnixMonotone(r.timestamp, now);
    var recorded := Record(m, r);
    var merged := AfterMerge(recorded, now);
    forall k | k in merged ensures k % HOUR_SECONDS == 0 && k <= Unix(now) {
      if k !in recorded || merged[k] != recorded[k] {
        var j :| j in recorded && FloorDay(j) == k;
        MidnightIsOnHour(j);
      }
    }
  }

  /** 72 hours from the merge line to the end of today. */
  lemma HourlyRows(m: Table, now: Time)
    requires OnHours(m, now)
    ensures |set k | k in m && MergeLine(now) <= k| <= 72
  {
    var keys := set k | k in m && MergeLine(now) <= k;
    var base := MergeLine(now);
    MergeLineFacts(now);
    FloorDayFacts(Unix(now));
    forall k | k in keys ensures exists i :: 0 <= i < 72 && k == base + i * HOUR_SECONDS {
      var i := HourIndex(base, k, 3);
    }
    GridCount(keys, base, HOUR_SECONDS, 72);
  }

  lemma DayIndex(now: int, k: int) returns (i: int)
    requires now - 30 * DAY_SECONDS <= k < FloorDay(now) - 2 * DAY_SECONDS
    ensures 0 <= i < 28 && FloorDay(k) == FloorDay(now) - 30 * DAY_SECONDS + i * DAY_SECONDS
  {
    i := k / DAY_SECONDS - now / DAY_SECONDS + 30;
    assert FloorDay(k) == k / DAY_SECONDS * DAY_SECONDS && FloorDay(now) == now / DAY_SECONDS * DAY_SECONDS;
  }

  /** 28 midnights from the day of the keep line to the merge line. */
  lemma DailyRows(m: Table, now: Time)
    ensures |DaysOf(SelectedKeys(m, MergeLine(now), KeepLine(now)))| <= 28
  {
    var keys := DaysOf(SelectedKeys(m, MergeLine(now), KeepLine(now)));
    var base := FloorDay(Unix(now)) - 30 * DAY_SECONDS;
    MergeLineFacts(now);
    Lines(now);
    forall d | d in keys ensures exists i :: 0 <= i < 28 && d == base + i * DAY_SECONDS {
      var k :| k in m && KeepLine(now) <= k < MergeLine(now) && FloorDay(k) == d;
      var i := DayIndex(Unix(now), k);
    }
    GridCount(keys, base, DAY_SECONDS, 28);
  }

  lemma MergeBound(m: Table, now: Time)
    requires OnHours(m, now)
    ensures |AfterMerge(m, now)| <= 100
  {
    if |m| >= UPTIME_TOTAL_ENTRIES_MERGE_THRESHOLD {
      var kept := set k | k in m && MergeLine(now) <= k;
      var days := DaysOf(SelectedKeys(m, MergeLine(now), KeepLine(now)));
      HourlyRows(m, now);
      DailyRows(m, now);
      assert AfterMerge(m, now).Keys == kept + days;
      assert |kept + days| <= |kept| + |days|;
    }
  }

  lemma CleanUpBound(m: Table, now: Time)
    ensures |AfterCleanUp(m, now)| <= |m|
    ensures NoOutdatedRow(AfterCleanUp(m, now), now)
  {
    var m' := AfterCleanUp(m, now);
    assert m.Keys == m'.Keys + (m.Keys - m'.Keys);
    forall k | k in m' ensures now - k * SECOND <= UPTIME_AGE_CLEAN_UP_THRESHOLD {
      if HasOutdatedRow(m, now) {
        assert DeleteLine(now) <= k;
      }
    }
  }

  lemma {:induction false} RunOnHours(run: seq<Insertion>, now: Time)
    requires ValidRun(run, now)
    ensures OnHours(Rows(run), now)
  {
    if |run| > 0 {
      var last, before := run[|run| - 1], run[..|run| - 1];
      RunOnHours(before, last.now);
      OnHoursAfterInsert(Rows(before), last.result, last.now);
      UnixMonotone(last.now, now);
    }
  }

  /** After every Insert an endpoint has at most 100 uptime rows, none older than 32 days. */
  lemma RowBound(run: seq<Insertion>, now: Time)
    requires ValidRun(run, now)
    ensures |Rows(run)| <= 100
    ensures |run| > 0 ==> forall k :: k in Rows(run) ==> run[|run| - 1].now - k * SECOND <= 32 * DAY
  {
    if |run| > 0 {
      var last, before := run[|run| - 1], run[..|run| - 1];
      var recorded := Record(Rows(before), last.result);
      RunOnHours(before, last.now);
      OnHoursAfterInsert(Rows(before), last.result, last.now);
      MergeBound(recorded, last.now);
      CleanUpBound(AfterMerge(recorded, last.now), last.now);
    }
  }
}
