/** When the two stores answer uptime queries alike (storage/store/memory/memory.go, storage/store/sql/sql.go). */
module CrossUptime {
  import opened Clock
  import opened Endpoints
  import opened MemoryUptime
  import opened SqlUptime
  import opened Uptime

  /** The window starts with an hour, and the loop's last step reaches the hour in which it ends. */
  predicate SameHours(from: Time, to: Time)
    requires from <= to
  {
    Unix(from) % HOUR_SECONDS == 0 && HourKey(LastStep(from, to)) == HourKey(to)
  }

  /** A window that starts on the hour always does. */
  lemma OnTheHour(from: Time, to: Time)
    requires from <= to && from % HOUR == 0
    ensures SameHours(from, to)
  {
    var n := (to - from) / HOUR;
    assert Unix(from) == from / HOUR * HOUR_SECONDS;
    assert LastStep(from, to) / HOUR == from / HOUR + n;
    assert to / HOUR == from / HOUR + n;
    assert Truncate(to, HOUR) == to / HOUR * HOUR;
    assert Truncate(LastStep(from, to), HOUR) == LastStep(from, to) / HOUR * HOUR;
  }

  /** Results are counted at whole hours only. */
  lemma {:induction false} HistWithoutHours(h: seq<Result>, f: Measure, lo: int, hi: int)
    requires forall k :: lo <= k < hi ==> k % HOUR_SECONDS != 0
    ensures Hist(h, f, lo, hi) == 0
  {
    if |h| > 0 {
      HistWithoutHours(h[..|h| - 1], f, lo, hi);
      HourKeyFacts(h[|h| - 1].timestamp);
    }
  }

  lemma BetweenHours(k: int, j: int)
    requires k % HOUR_SECONDS == 0 && k < j < k + HOUR_SECONDS
    ensures j % HOUR_SECONDS != 0
  {
  }

  lemma RestOfHour(t: Time, j: int)
    requires Unix(t) < j < HourKey(t) + HOUR_SECONDS
    ensures j % HOUR_SECONDS != 0
  {
    HourKeyFacts(t);
    BetweenHours(HourKey(t), j);
  }

  lemma StartsHour(t: Time)
    ensures Unix(t) % HOUR_SECONDS == 0 <==> HourKey(t) == Unix(t)
    ensures HourKey(t) % HOUR_SECONDS == 0 && HourKey(t) <= Unix(t) < HourKey(t) + HOUR_SECONDS
  {
    HourKeyFacts(t);
    if HourKey(t) < Unix(t) {
      BetweenHours(HourKey(t), Unix(t));
    }
  }

  lemma SameHoursSameSums(h: seq<Result>, f: Measure, from: Time, to: Time)
    requires from <= to && SameHours(from, to)
    ensures LoopHist(h, f, from, to) == WindowHist(h, f, from, to)
  {
    StartsHour(from);
    StartsHour(to);
    UnixMonotone(from, to);
    hide HourKey, Unix, LastStep, Hist;
    var lo, mid, hi := Unix(from), Unix(to) + 1, HourKey(to) + HOUR_SECONDS;
    forall j | mid <= j < hi ensures j % HOUR_SECONDS != 0 {
      RestOfHour(to, j);
    }
    HistWithoutHours(h, f, mid, hi);
    HistSplit(h, f, lo, mid, hi);
  }

  lemma HistOfOne(key: int, lo: int, hi: int)
    requires key % HOUR_SECONDS == 0
    ensures Hist([ResultAt(key)], Executions, lo, hi) == if lo <= key < hi then 1 else 0
  {
    HourKeyOfHour(key);
    assert [ResultAt(key)][..0] == [];
    assert Hist([], Executions, lo, hi) == 0;
  }

  lemma LastStepInside(from: Time, to: Time)
    requires from <= to
    ensures from <= LastStep(from, to) <= to
    ensures HourKey(from) <= HourKey(LastStep(from, to)) <= HourKey(to)
  {
    var n := (to - from) / HOUR;
    assert LastStep(from, to) == from + n * HOUR;
    HourKeyMonotone(from, LastStep(from, to));
    HourKeyMonotone(LastStep(from, to), to);
  }

  lemma WholeHoursApart(k: int, j: int)
    requires k % HOUR_SECONDS == 0 && j % HOUR_SECONDS == 0 && k < j
    ensures k + HOUR_SECONDS <= j
  {
    if j < k + HOUR_SECONDS {
      BetweenHours(k, j);
    }
  }

  /** An hour that one store counts and the other does not: the first, or the last. */
  lemma OtherHours(from: Time, to: Time) returns (key: int)
    requires from <= to && !SameHours(from, to)
    ensures key % HOUR_SECONDS == 0 && key <= Unix(to)
    ensures LoopHist([ResultAt(key)], Executions, from, to) != WindowHist([ResultAt(key)], Executions, from, to)
  {
    StartsHour(from);
    StartsHour(to);
    StartsHour(LastStep(from, to));
    UnixMonotone(from, to);
    LastStepInside(from, to);
    hide HourKey, Unix, LastStep, Hist, ResultAt;
    if HourKey(LastStep(from, to)) < HourKey(to) {
      WholeHoursApart(HourKey(LastStep(from, to)), HourKey(to));
    }
    key := if Unix(from) % HOUR_SECONDS != 0 then HourKey(from) else HourKey(to);
    HistOfOne(key, HourKey(from), HourKey(LastStep(from, to)) + HOUR_SECONDS);
    HistOfOne(key, Unix(from), Unix(to) + 1);
  }

  /** Both stores' sums for a window, after the same run. */
  ghost predicate SameAnswers(run: seq<Insertion>, from: Time, to: Time)
    requires from <= to
  {
    forall f :: WindowSum(Rows(run), f, from, to) == LoopSum(Hours(run), f, from, Steps(from, to))
  }

  lemma AnswersOfHistory(run: seq<Insertion>, now: Time, f: Measure, from: Time, to: Time)
    requires ValidRun(run, now) && now - UPTIME_HOURLY_BUFFER <= from <= to
    ensures WindowSum(Rows(run), f, from, to) == WindowHist(History(run), f, from, to)
    ensures LoopSum(Hours(run), f, from, Steps(from, to)) == LoopHist(History(run), f, from, to)
  {
    RecentWindowExact(run, now, f, from, to);
    QueryExact(run, now, f, from, to);
  }

  /** For a window of the last 48 hours the stores agree after every run exactly if they look at the same hours. */
  lemma StoresAgreeExactly(now: Time, from: Time, to: Time)
    requires now - UPTIME_HOURLY_BUFFER <= from <= to <= now
    ensures (forall run :: ValidRun(run, now) ==> SameAnswers(run, from, to)) <==> SameHours(from, to)
  {
    if SameHours(from, to) {
      forall run, f | ValidRun(run, now)
        ensures WindowSum(Rows(run), f, from, to) == LoopSum(Hours(run), f, from, Steps(from, to))
      {
        AnswersOfHistory(run, now, f, from, to);
        SameHoursSameSums(History(run), f, from, to);
      }
    } else {
      var key := OtherHours(from, to);
      var run := [Insertion(ResultAt(key), now)];
      assert run[..0] == [];
      assert ValidRun(run, now);
      assert History(run) == [ResultAt(key)];
      AnswersOfHistory(run, now, Executions, from, to);
      assert !SameAnswers(run, from, to);
    }
  }
}
