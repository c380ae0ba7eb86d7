/** The uptime rows of the SQL store over whole runs of Insert (storage/store/sql/sql.go): upsert by hour, merge of old
    hours into days, clean-up, against the full history. Lines are Unix timestamps that separate rows by age. */
module SqlUptime {
  import opened Clock
  import opened Endpoints
  import opened Uptime

  const UPTIME_TOTAL_ENTRIES_MERGE_THRESHOLD := 100
  const UPTIME_AGE_CLEAN_UP_THRESHOLD := 32 * 24 * HOUR
  const UPTIME_HOURLY_BUFFER := 48 * HOUR

  /** minThreshold of the merge: rows below it are merged. */
  function MergeLine(now: Time): int {
    Unix(Truncate(now - UPTIME_HOURLY_BUFFER, DAY))
  }

  /** maxThreshold of the merge: rows below it are not carried over. */
  function KeepLine(now: Time): int {
    Unix(now - UPTIME_RETENTION)
  }

  lemma MergeLineFacts(now: Time)
    ensures MergeLine(now) == FloorDay(Unix(now)) - 2 * DAY_SECONDS
    ensures MergeLine(now) % DAY_SECONDS == 0
  {
    var t := now - UPTIME_HOURLY_BUFFER;
    var q := t / DAY;
    assert Truncate(t, DAY) == q * DAY;
    assert MergeLine(now) == q * DAY_SECONDS;
    assert q * DAY_SECONDS <= Unix(now) - 2 * DAY_SECONDS < q * DAY_SECONDS + DAY_SECONDS;
    FloorDayUnique(q * DAY_SECONDS + 2 * DAY_SECONDS, Unix(now));
  }

  lemma Lines(now: Time)
    ensures KeepLine(now) == Unix(now) - 30 * DAY_SECONDS
    ensures DeleteLine(now) == KeepLine(now) - HOUR_SECONDS
    ensures DeleteLine(now) <= KeepLine(now) <= MergeLine(now)
  {
    MergeLineFacts(now);
  }

  lemma LinesAdvance(now: Time, later: Time)
    requires now <= later
    ensures MergeLine(now) <= MergeLine(later) && KeepLine(now) <= KeepLine(later)
  {
    MergeLineFacts(now);
    MergeLineFacts(later);
    UnixMonotone(now, later);
    UnixMonotone(now - UPTIME_RETENTION, later - UPTIME_RETENTION);
    FloorDayMonotone(Unix(now), Unix(later));
  }

  // ---------------------------------------------------------------- what Insert does to the rows

  /** The rows the merge selects. */
  function SelectedKeys(m: Table, mergeLine: int, keepLine: int): set<int> {
    set k | k in m && keepLine <= k < mergeLine
  }

  function DaysOf(keys: set<int>): set<int> {
    set k | k in keys :: FloorDay(k)
  }

  /** The rows that stay, and the days that get a merged row. */
  function MergedKeys(m: Table, mergeLine: int, keepLine: int): set<int> {
    (set k | k in m && mergeLine <= k) + DaysOf(SelectedKeys(m, mergeLine, keepLine))
  }

  function DayTotal(m: Table, d: int, keepLine: int): Stats {
    var lo := if d < keepLine then keepLine else d;
    Stats(Sum(m, Executions, lo, d + DAY_SECONDS), Sum(m, Successes, lo, d + DAY_SECONDS),
          Sum(m, ResponseTime, lo, d + DAY_SECONDS))
  }

  /** The table after the merge: a day's row holds the sum of that day's rows at or above the keep line. */
  function Merged(m: Table, mergeLine: int, keepLine: int): Table {
    map k | k in MergedKeys(m, mergeLine, keepLine) :: if mergeLine <= k then m[k] else DayTotal(m, k, keepLine)
  }

  /** The oldest row is older than the clean-up threshold. */
  predicate HasOutdatedRow(m: Table, now: Time) {
    exists k :: k in m && now - k * SECOND > UPTIME_AGE_CLEAN_UP_THRESHOLD
  }

  function AfterMerge(m: Table, now: Time): Table {
    if |m| >= UPTIME_TOTAL_ENTRIES_MERGE_THRESHOLD then Merged(m, MergeLine(now), KeepLine(now)) else m
  }

  function AfterCleanUp(m: Table, now: Time): Table {
    if HasOutdatedRow(m, now) then Purged(m, DeleteLine(now)) else m
  }

  function AfterInsert(m: Table, r: Result, now: Time): Table {
    AfterCleanUp(AfterMerge(Record(m, r), now), now)
  }

  /** The rows after a run of inserts into an empty table. */
  function Rows(run: seq<Insertion>): Table {
    if |run| == 0 then map[]
    else
      var last := run[|run| - 1];
      AfterInsert(Rows(run[..|run| - 1]), last.result, last.now)
  }

  // ---------------------------------------------------------------- how the rows track the history

  ghost predicate DayExact(m: Table, h: seq<Result>, f: Measure, d: int) {
    Sum(m, f, d, d + DAY_SECONDS) == Hist(h, f, d, d + DAY_SECONDS)
  }

  /** Every day that starts at or above the line has its exact total. */
  ghost predicate DaysExact(m: Table, h: seq<Result>, line: int) {
    forall f, d :: line <= d && d % DAY_SECONDS == 0 ==> DayExact(m, h, f, d)
  }

  ghost predicate RestOfDay(m: Table, h: seq<Result>, f: Measure, x: int) {
    Sum(m, f, x, FloorDay(x) + DAY_SECONDS) <= Hist(h, f, x, FloorDay(x) + DAY_SECONDS)
  }

  /** From any moment to the end of its day the rows never hold more than the history. */
  ghost predicate NeverAhead(m: Table, h: seq<Result>) {
    forall f, x :: RestOfDay(m, h, f, x)
  }

  ghost predicate Tracks(m: Table, h: seq<Result>, mergeLine: int, keepLine: int) {
    Counts(m) && HoursExact(m, h, mergeLine) && DaysExact(m, h, keepLine) && NeverAhead(m, h)
  }

  lemma TracksRecord(m: Table, h: seq<Result>, r: Result, mergeLine: int, keepLine: int)
    requires Tracks(m, h, mergeLine, keepLine)
    ensures Tracks(Record(m, r), h + [r], mergeLine, keepLine)
  {
    var m', h' := Record(m, r), h + [r];
    forall k, f | k in m' ensures m'[k].Get(f) >= 0 {
      assert StatsOf(r).Get(f) >= 0;
      assert k in m ==> m[k].Get(f) >= 0;
      assert k in m ==> Plus(m[k], StatsOf(r)).Get(f) == m[k].Get(f) + StatsOf(r).Get(f);
    }
    forall f, k | mergeLine <= k ensures At(m', f, k) == Hist(h', f, k, k + 1) {
      HistAfterAppend(h, r, f, k, k + 1);
      assert At(m', f, k) == At(m, f, k) + Share(r, f, k, k + 1);
    }
    forall f, d | keepLine <= d && d % DAY_SECONDS == 0 ensures DayExact(m', h', f, d) {
      assert DayExact(m, h, f, d);
      HistAfterAppend(h, r, f, d, d + DAY_SECONDS);
      SumAfterRecord(m, r, f, d, d + DAY_SECONDS);
    }
    forall f, x ensures RestOfDay(m', h', f, x) {
      assert RestOfDay(m, h, f, x);
      HistAfterAppend(h, r, f, x, FloorDay(x) + DAY_SECONDS);
      SumAfterRecord(m, r, f, x, FloorDay(x) + DAY_SECONDS);
    }
  }

  /** Which keys below the merge line survive it: the midnights of days that hold a kept row. */
  lemma MergedKeysBelow(m: Table, mergeLine: int, keepLine: int, d: int, k: int)
    requires mergeLine % DAY_SECONDS == 0 && d % DAY_SECONDS == 0 && d < mergeLine
    ensures d < k < d + DAY_SECONDS ==> k !in MergedKeys(m, mergeLine, keepLine)
    ensures d <= k < d + DAY_SECONDS && keepLine <= k && k in m ==> d in MergedKeys(m, mergeLine, keepLine)
  {
    FloorDayUnique(d, k);
    if d < k < d + DAY_SECONDS && k in MergedKeys(m, mergeLine, keepLine) {
      var j :| FloorDay(j) == k;
      FloorDayFacts(j);
    }
  }

  /** Within a merged day only the midnight row is left, and it holds the kept sum of the day. */
  lemma MergedDay(m: Table, mergeLine: int, keepLine: int, f: Measure, d: int, hi: int)
    requires mergeLine % DAY_SECONDS == 0 && d % DAY_SECONDS == 0 && d < mergeLine
    requires hi == d + DAY_SECONDS
    ensures Sum(Merged(m, mergeLine, keepLine), f, d, hi) == Sum(m, f, if d < keepLine then keepLine else d, hi)
    ensures forall k :: d < k < hi ==> k !in Merged(m, mergeLine, keepLine)
  {
    var m' := Merged(m, mergeLine, keepLine);
    var lo := if d < keepLine then keepLine else d;
    forall k | d < k < hi ensures k !in m' {
      MergedKeysBelow(m, mergeLine, keepLine, d, k);
    }
    SumOfOneRow(m', f, d, hi);
    if d in m' {
      assert m'[d] == DayTotal(m, d, keepLine);
    } else {
      forall k | lo <= k < hi ensures k !in m {
        MergedKeysBelow(m, mergeLine, keepLine, d, k);
      }
      SumOfNoRows(m, f, lo, hi);
    }
  }

  /** Days at or above the merge line keep their rows. */
  lemma UnmergedRange(m: Table, mergeLine: int, keepLine: int, f: Measure, lo: int, hi: int)
    requires mergeLine % DAY_SECONDS == 0 && mergeLine <= lo
    ensures Sum(Merged(m, mergeLine, keepLine), f, lo, hi) == Sum(m, f, lo, hi)
    ensures forall k :: mergeLine <= k ==> At(Merged(m, mergeLine, keepLine), f, k) == At(m, f, k)
  {
    var m' := Merged(m, mergeLine, keepLine);
    assert forall k :: keepLine <= k < mergeLine ==> FloorDay(k) < mergeLine;
    SumAgree(m, m', f, lo, hi);
  }

  lemma MergedRowsAreMidnights(m: Table, mergeLine: int, keepLine: int, j: int)
    requires j in Merged(m, mergeLine, keepLine) && j < mergeLine
    ensures FloorDay(j) == j && exists k :: k in SelectedKeys(m, mergeLine, keepLine) && FloorDay(k) == j
  {
    var k :| k in SelectedKeys(m, mergeLine, keepLine) && FloorDay(k) == j;
    FloorDayFacts(k);
    FloorDayUnique(j, j);
  }

  /** From 100 rows on, all that is older than the merge line is one row a day. */
  lemma FullTableIsMerged(m: Table, now: Time)
    ensures |m| >= 100 ==>
      forall k :: k in AfterCleanUp(AfterMerge(m, now), now) && k < MergeLine(now) ==> k % 86400 == 0
  {
    if |m| >= 100 {
      forall k | k in AfterMerge(m, now) && k < MergeLine(now) ensures k % 86400 == 0 {
        MergedRowsAreMidnights(m, MergeLine(now), KeepLine(now), k);
      }
    }
  }

  /** A second merge keeps what is at or above the keep line, and only that. */
  lemma MergedKeysAgain(m: Table, mergeLine: int, keepLine: int, k: int)
    requires keepLine <= mergeLine
    ensures k in MergedKeys(Merged(m, mergeLine, keepLine), mergeLine, keepLine)
       <==> k in Merged(m, mergeLine, keepLine) && keepLine <= k
  {
    var m' := Merged(m, mergeLine, keepLine);
    forall j | j in SelectedKeys(m', mergeLine, keepLine) ensures FloorDay(j) == j {
      MergedRowsAreMidnights(m, mergeLine, keepLine, j);
    }
    if k in m' && keepLine <= k < mergeLine {
      MergedRowsAreMidnights(m, mergeLine, keepLine, k);
      assert k in SelectedKeys(m', mergeLine, keepLine);
    }
  }

  lemma MergedTotalAgain(m: Table, mergeLine: int, keepLine: int, d: int)
    requires mergeLine % DAY_SECONDS == 0 && keepLine <= d < mergeLine && d in Merged(m, mergeLine, keepLine)
    ensures DayTotal(Merged(m, mergeLine, keepLine), d, keepLine) == DayTotal(m, d, keepLine)
  {
    MergedRowsAreMidnights(m, mergeLine, keepLine, d);
    FloorDayFacts(d);
    MergedDay(m, mergeLine, keepLine, Executions, d, d + DAY_SECONDS);
    MergedDay(m, mergeLine, keepLine, Successes, d, d + DAY_SECONDS);
    MergedDay(m, mergeLine, keepLine, ResponseTime, d, d + DAY_SECONDS);
  }

  /** Merging again changes nothing exactly when every merged day starts at or above the keep line; otherwise the row of
      the day that contains the line is dropped. */
  lemma MergeTwice(m: Table, mergeLine: int, keepLine: int)
    requires mergeLine % DAY_SECONDS == 0 && keepLine <= mergeLine
    ensures Merged(Merged(m, mergeLine, keepLine), mergeLine, keepLine) == Merged(m, mergeLine, keepLine)
       <==> forall k :: k in SelectedKeys(m, mergeLine, keepLine) ==> keepLine <= FloorDay(k)
  {
    var m' := Merged(m, mergeLine, keepLine);
    hide DayTotal, FloorDay;
    forall k | k in m' ensures k in Merged(m', mergeLine, keepLine) <==> keepLine <= k {
      MergedKeysAgain(m, mergeLine, keepLine, k);
    }
    forall k | k in Merged(m', mergeLine, keepLine) ensures k in m' && Merged(m', mergeLine, keepLine)[k] == m'[k] {
      MergedKeysAgain(m, mergeLine, keepLine, k);
      if k < mergeLine {
        MergedTotalAgain(m, mergeLine, keepLine, k);
      }
    }
    forall k | k in m' && k < keepLine ensures exists j :: j in SelectedKeys(m, mergeLine, keepLine) && FloorDay(j) == k {
      MergedRowsAreMidnights(m, mergeLine, keepLine, k);
    }
    if forall k :: k in SelectedKeys(m, mergeLine, keepLine) ==> keepLine <= FloorDay(k) {
      assert forall k :: k in m' ==> keepLine <= k;
    } else {
      var k :| k in SelectedKeys(m, mergeLine, keepLine) && FloorDay(k) < keepLine;
      assert FloorDay(k) in DaysOf(SelectedKeys(m, mergeLine, keepLine));
      assert FloorDay(k) in m';
    }
  }

  /** A merge only moves counts to the start of their day. */
  lemma MergeNeverAhead(m: Table, h: seq<Result>, mergeLine: int, keepLine: int, f: Measure, x: int)
    requires mergeLine % DAY_SECONDS == 0
    requires Tracks(m, h, mergeLine, keepLine)
    ensures RestOfDay(Merged(m, mergeLine, keepLine), h, f, x)
  {
    var m' := Merged(m, mergeLine, keepLine);
    var d, hi := FloorDay(x), FloorDay(x) + DAY_SECONDS;
    assert RestOfDay(m, h, f, x);
    if mergeLine <= x {
      UnmergedRange(m, mergeLine, keepLine, f, x, hi);
    } else {
      FloorDayFacts(x);
      MergedDay(m, mergeLine, keepLine, f, d, hi);
      if d < x {
        SumOfNoRows(m', f, x, hi);
        SumOfCounts(m, f, x, hi);
      } else {
        SumShrinks(m, f, d, if d < keepLine then keepLine else d, hi);
      }
    }
  }

  lemma TracksMerge(m: Table, h: seq<Result>, mergeLine: int, keepLine: int)
    requires mergeLine % DAY_SECONDS == 0
    requires Tracks(m, h, mergeLine, keepLine)
    ensures Tracks(Merged(m, mergeLine, keepLine), h, mergeLine, keepLine)
  {
    var m' := Merged(m, mergeLine, keepLine);
    forall k, f | k in m' ensures m'[k].Get(f) >= 0 {
      if k < mergeLine {
        SumOfCounts(m, f, if k < keepLine then keepLine else k, k + DAY_SECONDS);
      }
    }
    forall f, k | mergeLine <= k ensures At(m', f, k) == Hist(h, f, k, k + 1) {
      UnmergedRange(m, mergeLine, keepLine, f, k, k + 1);
    }
    forall f, d | keepLine <= d && d % DAY_SECONDS == 0 ensures DayExact(m', h, f, d) {
      assert DayExact(m, h, f, d);
      if d < mergeLine {
        MergedDay(m, mergeLine, keepLine, f, d, d + DAY_SECONDS);
      } else {
        UnmergedRange(m, mergeLine, keepLine, f, d, d + DAY_SECONDS);
      }
    }
    forall f, x ensures RestOfDay(m', h, f, x) {
      MergeNeverAhead(m, h, mergeLine, keepLine, f, x);
    }
  }

  lemma TracksPurge(m: Table, h: seq<Result>, mergeLine: int, keepLine: int, line: int)
    requires line <= keepLine && line <= mergeLine
    requires Tracks(m, h, mergeLine, keepLine)
    ensures Tracks(Purged(m, line), h, mergeLine, keepLine)
  {
    var m' := Purged(m, line);
    forall f, k | mergeLine <= k ensures At(m', f, k) == Hist(h, f, k, k + 1) {
      assert At(m', f, k) == At(m, f, k);
    }
    forall f, d | keepLine <= d && d % DAY_SECONDS == 0 ensures DayExact(m', h, f, d) {
      assert DayExact(m, h, f, d);
      SumAgree(m, m', f, d, d + DAY_SECONDS);
    }
    forall f, x ensures RestOfDay(m', h, f, x) {
      assert RestOfDay(m, h, f, x);
      SumOfSubtable(m, m', f, x, FloorDay(x) + DAY_SECONDS);
    }
  }

  /** One Insert keeps the rows on track. */
  lemma TracksInsert(m: Table, h: seq<Result>, r: Result, now: Time)
    requires Tracks(m, h, MergeLine(now), KeepLine(now))
    ensures Tracks(AfterInsert(m, r, now), h + [r], MergeLine(now), KeepLine(now))
  {
    var h' := h + [r];
    var recorded := Record(m, r);
    TracksRecord(m, h, r, MergeLine(now), KeepLine(now));
    MergeLineFacts(now);
    TracksMerge(recorded, h', MergeLine(now), KeepLine(now));
    Lines(now);
    TracksPurge(AfterMerge(recorded, now), h', MergeLine(now), KeepLine(now), DeleteLine(now));
  }

  lemma EmptyTracks(mergeLine: int, keepLine: int)
    ensures Tracks(map[], [], mergeLine, keepLine)
  {
    forall f, lo, hi ensures Sum(map[], f, lo, hi) == Hist([], f, lo, hi) {
      SumOfNoRows(map[], f, lo, hi);
    }
    assert forall f, d :: DayExact(map[], [], f, d);
    assert forall f, x :: RestOfDay(map[], [], f, x);
  }

  /** Every run of inserts, merges and clean-ups keeps the rows on track of the full history. */
  lemma {:induction false} RunTracks(run: seq<Insertion>, now: Time)
    requires ValidRun(run, now)
    ensures Tracks(Rows(run), History(run), MergeLine(now), KeepLine(now))
  {
    if |run| == 0 {
      EmptyTracks(MergeLine(now), KeepLine(now));
    } else {
      var last, before := run[|run| - 1], run[..|run| - 1];
      RunTracks(before, last.now);
      TracksInsert(Rows(before), History(before), last.result, last.now);
      LinesAdvance(last.now, now);
    }
  }

  // ---------------------------------------------------------------- what queries may rely on

  /** What getEndpointUptime and getEndpointAverageResponseTime sum: the rows with from <= hour <= to. */
  function WindowSum(m: Table, f: Measure, from: Time, to: Time): int {
    Sum(m, f, Unix(from), Unix(to) + 1)
  }

  /** The same window of the full history. */
  function WindowHist(h: seq<Result>, f: Measure, from: Time, to: Time): int {
    Hist(h, f, Unix(from), Unix(to) + 1)
  }

  /** Queries that start within the last 48 hours, or at the midnight before that, are exact on every run. */
  lemma RecentWindowExact(run: seq<Insertion>, now: Time, f: Measure, from: Time, to: Time)
    requires ValidRun(run, now)
    requires MergeLine(now) <= Unix(from) || now - UPTIME_HOURLY_BUFFER <= from
    ensures WindowSum(Rows(run), f, from, to) == WindowHist(History(run), f, from, to)
  {
    RunTracks(run, now);
    MergeLineFacts(now);
    assert MergeLine(now) <= Unix(from);
    SumOfExactRows(Rows(run), History(run), f, Unix(from), Unix(to) + 1);
  }

  /** Conservation: however often its rows were merged, a day that starts within the last 30 days has its exact sums. */
  lemma DayConserved(run: seq<Insertion>, now: Time, f: Measure, d: int)
    requires ValidRun(run, now)
    requires d % DAY_SECONDS == 0 && KeepLine(now) <= d
    ensures Sum(Rows(run), f, d, d + DAY_SECONDS) == Hist(History(run), f, d, d + DAY_SECONDS)
  {
    RunTracks(run, now);
    assert DayExact(Rows(run), History(run), f, d);
  }

  lemma ExactDays(m: Table, h: seq<Result>, f: Measure, d: int, mid: int, line: int)
    requires DaysExact(m, h, line) && line <= d <= mid
    requires d % DAY_SECONDS == 0 && mid % DAY_SECONDS == 0
    ensures Sum(m, f, d, mid) == Hist(h, f, d, mid)
  {
    var days := (mid - d) / DAY_SECONDS;
    assert mid == d + days * DAY_SECONDS;
    forall i | 0 <= i < days
      ensures Sum(m, f, d + i * DAY_SECONDS, d + i * DAY_SECONDS + DAY_SECONDS)
           == Hist(h, f, d + i * DAY_SECONDS, d + i * DAY_SECONDS + DAY_SECONDS)
    {
      assert DayExact(m, h, f, d + i * DAY_SECONDS);
    }
    SumOfExactDays(m, h, f, d, days);
  }

  /** From a midnight within the last 30 days to a moment at or after the merge line nothing is lost or moved. */
  lemma ExactFromMidnight(run: seq<Insertion>, now: Time, f: Measure, d: int, hi: int)
    requires ValidRun(run, now)
    requires d % DAY_SECONDS == 0 && KeepLine(now) <= d && MergeLine(now) <= hi && d <= hi
    ensures Sum(Rows(run), f, d, hi) == Hist(History(run), f, d, hi)
  {
    var m, h := Rows(run), History(run);
    RunTracks(run, now);
    MergeLineFacts(now);
    var mid := if MergeLine(now) < d then d else MergeLine(now);
    ExactDays(m, h, f, d, mid, KeepLine(now));
    SumOfExactRows(m, h, f, mid, hi);
    SumSplit(m, f, d, mid, hi);
    HistSplit(h, f, d, mid, hi);
  }

  /** The first midnight at or after a Unix timestamp. */
  function NextMidnight(s: int): int {
    if s % DAY_SECONDS == 0 then s else FloorDay(s) + DAY_SECONDS
  }

  /** Long windows: the answer lies between the history from the first midnight on and the history from `from` on, so
      merging can only lose the rest of the day that contains `from`. */
  lemma LongWindowSandwich(run: seq<Insertion>, now: Time, f: Measure, from: Time, to: Time)
    requires ValidRun(run, now)
    requires now - UPTIME_RETENTION <= from
    requires MergeLine(now) <= Unix(to) + 1 && NextMidnight(Unix(from)) <= Unix(to) + 1
    ensures Hist(History(run), f, NextMidnight(Unix(from)), Unix(to) + 1)
         <= WindowSum(Rows(run), f, from, to)
         <= WindowHist(History(run), f, from, to)
  {
    var m, h := Rows(run), History(run);
    var lo, mid, hi := Unix(from), NextMidnight(Unix(from)), Unix(to) + 1;
    RunTracks(run, now);
    ExactFromMidnight(run, now, f, mid, hi);
    SumSplit(m, f, lo, mid, hi);
    HistSplit(h, f, lo, mid, hi);
    SumOfCounts(m, f, lo, mid);
    if lo < mid {
      assert RestOfDay(m, h, f, lo);
    } else {
      HistOfEmptyRange(h, f, lo, lo);
    }
  }

  /** A long window that starts at a midnight is exact. */
  lemma MidnightWindowExact(run: seq<Insertion>, now: Time, f: Measure, from: Time, to: Time)
    requires ValidRun(run, now)
    requires now - UPTIME_RETENTION <= from && Unix(from) % DAY_SECONDS == 0
    requires MergeLine(now) <= Unix(to) + 1 && Unix(from) <= Unix(to) + 1
    ensures WindowSum(Rows(run), f, from, to) == WindowHist(History(run), f, from, to)
  {
    assert KeepLine(now) <= Unix(from);
    ExactFromMidnight(run, now, f, Unix(from), Unix(to) + 1);
  }

  // ---------------------------------------------------------------- every row counts something

  lemma SumCoversRow(m: Table, f: Measure, lo: int, k: int, hi: int)
    requires Counts(m) && lo <= k < hi
    ensures At(m, f, k) <= Sum(m, f, lo, hi)
  {
    SumSplit(m, f, lo, k, hi);
    SumSplit(m, f, k, k + 1, hi);
    SumOfCounts(m, f, lo, k);
    SumOfCounts(m, f, k + 1, hi);
    assert Sum(m, f, k, k) == 0;
  }

  lemma ExecutedMerge(m: Table, mergeLine: int, keepLine: int)
    requires Counts(m) && Executed(m)
    ensures Executed(Merged(m, mergeLine, keepLine))
  {
    var m' := Merged(m, mergeLine, keepLine);
    forall d | d in m' ensures m'[d].totalExecutions >= 1 {
      if d < mergeLine {
        var k :| k in m && keepLine <= k < mergeLine && FloorDay(k) == d;
        FloorDayFacts(k);
        SumCoversRow(m, Executions, if d < keepLine then keepLine else d, k, d + DAY_SECONDS);
      }
    }
  }

  lemma {:induction false} RunExecuted(run: seq<Insertion>, now: Time)
    requires ValidRun(run, now)
    ensures Executed(Rows(run))
  {
    if |run| > 0 {
      var last, before := run[|run| - 1], run[..|run| - 1];
      var m := Rows(before);
      var recorded := Record(m, last.result);
      RunExecuted(before, last.now);
      RunTracks(before, last.now);
      TracksRecord(m, History(before), last.result, MergeLine(last.now), KeepLine(last.now));
      ExecutedMerge(recorded, MergeLine(last.now), KeepLine(last.now));
    }
  }

  /** WHERE total_executions > 0 */
  function ExecutedRows(m: Table): Table {
    map k | k in m && m[k].totalExecutions > 0 :: m[k]
  }

  /** What the hourly averages are of the rows: those of the window that count something. */
  ghost predicate RowAverages(averages: map<int, int>, m: Table, from: Time, to: Time) {
    && (forall k :: k in averages <==> k in ExecutedRows(m) && Unix(from) <= k <= Unix(to))
    && forall k :: k in averages && m[k].totalExecutions > 0 ==>
         averages[k] == m[k].totalResponseTime / m[k].totalExecutions
  }

  /** Exactly the hours of the window in which something ran, each with its average response time. */
  ghost predicate HourlyAverages(averages: map<int, int>, h: seq<Result>, from: Time, to: Time) {
    && (forall k :: k in averages <==> Unix(from) <= k <= Unix(to) && Hist(h, Executions, k, k + 1) > 0)
    && forall k :: k in averages ==> averages[k] == Hist(h, ResponseTime, k, k + 1) / Hist(h, Executions, k, k + 1)
  }

  lemma AveragesOfExactRows(m: Table, h: seq<Result>, line: int, averages: map<int, int>,
                                               from: Time, to: Time)
    requires HoursExact(m, h, line) && line <= Unix(from)
    requires RowAverages(averages, m, from, to)
    ensures HourlyAverages(averages, h, from, to)
  {
    forall k | Unix(from) <= k <= Unix(to)
      ensures k in averages <==> Hist(h, Executions, k, k + 1) > 0
      ensures k in averages ==>
        averages[k] == Hist(h, ResponseTime, k, k + 1) / Hist(h, Executions, k, k + 1)
    {
      RowOfHour(m, h, line, k);
    }
  }

  lemma RecentHourlyAverages(run: seq<Insertion>, now: Time, averages: map<int, int>,
                                                from: Time, to: Time)
    requires ValidRun(run, now) && now - UPTIME_HOURLY_BUFFER <= from
    requires RowAverages(averages, Rows(run), from, to)
    ensures HourlyAverages(averages, History(run), from, to)
  {
    RunTracks(run, now);
    MergeLineFacts(now);
    AveragesOfExactRows(Rows(run), History(run), MergeLine(now), averages, from, to);
  }

  lemma AllRowsExecuted(m: Table)
    requires Executed(m)
    ensures ExecutedRows(m) == m
  {
    forall k | k in m ensures k in ExecutedRows(m) {
      assert m[k].totalExecutions >= 1;
    }
  }
}
