/** Aggregated check counts: tables of them, and the counts of a full history they are measured against. */
module Uptime {
  import opened Clock
  import opened Endpoints

  /** The three columns that are summed. */
  datatype Measure = Executions | Successes | ResponseTime

  /** config/endpoint/uptime.go, and a row of the table endpoint_uptimes without its key. */
  datatype Stats = Stats(totalExecutions: int, successfulExecutions: int, totalResponseTime: int) {
    function Get(f: Measure): int {
      match f
      case Executions => totalExecutions
      case Successes => successfulExecutions
      case ResponseTime => totalResponseTime
    }
  }

  function Plus(a: Stats, b: Stats): Stats {
    Stats(a.totalExecutions + b.totalExecutions, a.successfulExecutions + b.successfulExecutions,
          a.totalResponseTime + b.totalResponseTime)
  }

  /** The rows of one endpoint, keyed by hour_unix_timestamp. */
  type Table = map<int, Stats>

  function StatsOf(r: Result): Stats {
    Stats(1, if r.success then 1 else 0, r.duration / MILLISECOND)
  }

  function At(m: Table, f: Measure, key: int): int {
    if key in m then m[key].Get(f) else 0
  }

  /** The sum of a column over the rows with lo <= key < hi. */
  function Sum(m: Table, f: Measure, lo: int, hi: int): int
    decreases hi - lo
  {
    if hi <= lo then 0 else Sum(m, f, lo, hi - 1) + At(m, f, hi - 1)
  }

  /** A successful check at a Unix timestamp. */
  function ResultAt(key: int): Result {
    Result(true, key * SECOND, 0, [], Details(true, 0, "", 0, 0, "", "", []))
  }

  /** What a result adds to the hours lo <= hour < hi. */
  function Share(r: Result, f: Measure, lo: int, hi: int): int {
    if lo <= HourKey(r.timestamp) < hi then StatsOf(r).Get(f) else 0
  }

  /** The sum over the results of a history whose hour lies in lo <= hour < hi. */
  function Hist(h: seq<Result>, f: Measure, lo: int, hi: int): int {
    if |h| == 0 then 0 else Hist(h[..|h| - 1], f, lo, hi) + Share(h[|h| - 1], f, lo, hi)
  }

  /** No row holds a negative count. */
  ghost predicate Counts(m: Table) {
    forall k, f :: k in m ==> m[k].Get(f) >= 0
  }

  // ---------------------------------------------------------------- sums over tables

  lemma {:induction false} SumSplit(m: Table, f: Measure, lo: int, mid: int, hi: int)
    requires lo <= mid <= hi
    ensures Sum(m, f, lo, hi) == Sum(m, f, lo, mid) + Sum(m, f, mid, hi)
    decreases hi - mid
  {
    if mid < hi {
      SumSplit(m, f, lo, mid, hi - 1);
    }
  }

  lemma {:induction false} SumAgree(m: Table, m': Table, f: Measure, lo: int, hi: int)
    requires forall k :: lo <= k < hi ==> At(m, f, k) == At(m', f, k)
    ensures Sum(m, f, lo, hi) == Sum(m', f, lo, hi)
    decreases hi - lo
  {
    if lo < hi {
      SumAgree(m, m', f, lo, hi - 1);
    }
  }

  /** Adding to one row adds to every sum that covers it. */
  lemma {:induction false} SumAfterAdd(m: Table, m': Table, f: Measure, key: int, amount: int, lo: int, hi: int)
    requires forall k :: At(m', f, k) == At(m, f, k) + (if k == key then amount else 0)
    ensures Sum(m', f, lo, hi) == Sum(m, f, lo, hi) + (if lo <= key < hi then amount else 0)
    decreases hi - lo
  {
    if lo < hi {
      SumAfterAdd(m, m', f, key, amount, lo, hi - 1);
    }
  }

  lemma {:induction false} SumOfOneRow(m: Table, f: Measure, lo: int, hi: int)
    requires lo < hi
    requires forall k :: lo < k < hi ==> k !in m
    ensures Sum(m, f, lo, hi) == At(m, f, lo)
    decreases hi - lo
  {
    if lo < hi - 1 {
      SumOfOneRow(m, f, lo, hi - 1);
    }
  }

  lemma {:induction false} SumOfNoRows(m: Table, f: Measure, lo: int, hi: int)
    requires forall k :: lo <= k < hi ==> k !in m
    ensures Sum(m, f, lo, hi) == 0
    decreases hi - lo
  {
    if lo < hi {
      SumOfNoRows(m, f, lo, hi - 1);
    }
  }

  lemma {:induction false} SumOfCounts(m: Table, f: Measure, lo: int, hi: int)
    requires Counts(m)
    ensures Sum(m, f, lo, hi) >= 0
    decreases hi - lo
  {
    if lo < hi {
      SumOfCounts(m, f, lo, hi - 1);
    }
  }

  /** A later start covers no more. */
  lemma SumShrinks(m: Table, f: Measure, lo: int, lo': int, hi: int)
    requires lo <= lo' && Counts(m)
    ensures Sum(m, f, lo', hi) <= Sum(m, f, lo, hi)
  {
    if lo' <= hi {
      SumOfCounts(m, f, lo, lo');
      SumSplit(m, f, lo, lo', hi);
    } else {
      SumOfCounts(m, f, lo, hi);
    }
  }

  /** Deleting rows covers no more. */
  lemma {:induction false} SumOfSubtable(m: Table, m': Table, f: Measure, lo: int, hi: int)
    requires Counts(m)
    requires forall k :: k in m' ==> k in m && m'[k] == m[k]
    ensures Sum(m', f, lo, hi) <= Sum(m, f, lo, hi)
    decreases hi - lo
  {
    if lo < hi {
      SumOfSubtable(m, m', f, lo, hi - 1);
    }
  }

  // ---------------------------------------------------------------- sums over histories

  lemma {:induction false} HistSplit(h: seq<Result>, f: Measure, lo: int, mid: int, hi: int)
    requires lo <= mid <= hi
    ensures Hist(h, f, lo, hi) == Hist(h, f, lo, mid) + Hist(h, f, mid, hi)
  {
    if |h| > 0 {
      HistSplit(h[..|h| - 1], f, lo, mid, hi);
    }
  }

  lemma {:induction false} HistOfEmptyRange(h: seq<Result>, f: Measure, lo: int, hi: int)
    requires hi <= lo
    ensures Hist(h, f, lo, hi) == 0
  {
    if |h| > 0 {
      HistOfEmptyRange(h[..|h| - 1], f, lo, hi);
    }
  }

  lemma HistAfterAppend(h: seq<Result>, r: Result, f: Measure, lo: int, hi: int)
    ensures Hist(h + [r], f, lo, hi) == Hist(h, f, lo, hi) + Share(r, f, lo, hi)
  {
    assert (h + [r])[..|h|] == h;
  }

  /** A table that is right at every key of a range sums to the history of the range. */
  lemma {:induction false} SumOfExactRows(m: Table, h: seq<Result>, f: Measure, lo: int, hi: int)
    requires forall k :: lo <= k < hi ==> At(m, f, k) == Hist(h, f, k, k + 1)
    ensures Sum(m, f, lo, hi) == Hist(h, f, lo, hi)
    decreases hi - lo
  {
    if lo < hi {
      SumOfExactRows(m, h, f, lo, hi - 1);
      HistSplit(h, f, lo, hi - 1, hi);
    } else {
      HistOfEmptyRange(h, f, lo, hi);
    }
  }

  /** The same day by day. */
  lemma {:induction false} SumOfExactDays(m: Table, h: seq<Result>, f: Measure, first: int, days: nat)
    requires forall i :: 0 <= i < days ==>
      Sum(m, f, first + i * DAY_SECONDS, first + i * DAY_SECONDS + DAY_SECONDS)
        == Hist(h, f, first + i * DAY_SECONDS, first + i * DAY_SECONDS + DAY_SECONDS)
    ensures Sum(m, f, first, first + days * DAY_SECONDS) == Hist(h, f, first, first + days * DAY_SECONDS)
    decreases days
  {
    if days > 0 {
      var d := first + (days - 1) * DAY_SECONDS;
      SumOfExactDays(m, h, f, first, days - 1);
      SumSplit(m, f, first, d, d + DAY_SECONDS);
      HistSplit(h, f, first, d, d + DAY_SECONDS);
    } else {
      HistOfEmptyRange(h, f, first, first);
    }
  }

  // ---------------------------------------------------------------- what the sums count

  /** The checks of a history whose hour lies in lo <= hour < hi, by position. */
  function ChecksIn(h: seq<Result>, lo: int, hi: int): set<int> {
    set i | 0 <= i < |h| && lo <= HourKey(h[i].timestamp) < hi
  }

  /** Those that succeeded. */
  function SuccessesIn(h: seq<Result>, lo: int, hi: int): set<int> {
    set i | 0 <= i < |h| && h[i].success && lo <= HourKey(h[i].timestamp) < hi
  }

  /** Their durations, each in whole milliseconds. */
  function MillisecondsIn(h: seq<Result>, lo: int, hi: int): int {
    if |h| == 0 then 0
    else
      var last := h[|h| - 1];
      MillisecondsIn(h[..|h| - 1], lo, hi) + if lo <= HourKey(last.timestamp) < hi then last.duration / 1_000_000 else 0
  }

  /** The last check is in the range, and counted, or it is not. */
  lemma OneMoreCheck(h: seq<Result>, lo: int, hi: int)
    requires |h| > 0
    ensures var n, before := |h| - 1, h[..|h| - 1];
            && |ChecksIn(h, lo, hi)| == |ChecksIn(before, lo, hi)| + (if n in ChecksIn(h, lo, hi) then 1 else 0)
            && |SuccessesIn(h, lo, hi)|
                 == |SuccessesIn(before, lo, hi)| + (if n in SuccessesIn(h, lo, hi) then 1 else 0)
  {
    hide HourKey;
    var n, before := |h| - 1, h[..|h| - 1];
    assert ChecksIn(h, lo, hi) - {n} == ChecksIn(before, lo, hi);
    assert SuccessesIn(h, lo, hi) - {n} == SuccessesIn(before, lo, hi);
  }

  /** What the sums of a history mean. */
  lemma {:induction false} HistCounts(h: seq<Result>, lo: int, hi: int)
    ensures Hist(h, Executions, lo, hi) == |ChecksIn(h, lo, hi)|
    ensures Hist(h, Successes, lo, hi) == |SuccessesIn(h, lo, hi)|
    ensures Hist(h, ResponseTime, lo, hi) == MillisecondsIn(h, lo, hi)
  {
    hide HourKey;
    if |h| > 0 {
      HistCounts(h[..|h| - 1], lo, hi);
      OneMoreCheck(h, lo, hi);
    }
  }

  // ---------------------------------------------------------------- one more result

  /** The upsert of updateEndpointUptime and of processUptimeAfterResult: count the result in its hour. */
  function Record(m: Table, r: Result): Table {
    var key, s := HourKey(r.timestamp), StatsOf(r);
    m[key := if key in m then Plus(m[key], s) else s]
  }

  lemma SumAfterRecord(m: Table, r: Result, f: Measure, lo: int, hi: int)
    ensures Sum(Record(m, r), f, lo, hi) == Sum(m, f, lo, hi) + Share(r, f, lo, hi)
  {
    var key := HourKey(r.timestamp);
    assert key in m ==> Plus(m[key], StatsOf(r)).Get(f) == m[key].Get(f) + StatsOf(r).Get(f);
    SumAfterAdd(m, Record(m, r), f, HourKey(r.timestamp), StatsOf(r).Get(f), lo, hi);
  }

  // ---------------------------------------------------------------- retention

  const UPTIME_RETENTION := 30 * 24 * HOUR

  /** Rows below this line are deleted by both stores' clean-ups: the retention and one hour. */
  function DeleteLine(now: Time): int {
    Unix(now - (UPTIME_RETENTION + HOUR))
  }

  lemma DeleteLineFacts(now: Time)
    ensures Unix(now - UPTIME_RETENTION) == Unix(now) - 30 * DAY_SECONDS
    ensures DeleteLine(now) == Unix(now) - 30 * DAY_SECONDS - HOUR_SECONDS
  {
  }

  /** Delete the rows below a line. */
  function Purged(m: Table, line: int): Table {
    map k | k in m && line <= k :: m[k]
  }

  /** Rows at or above the line are exactly the hours of the history. */
  ghost predicate HoursExact(m: Table, h: seq<Result>, line: int) {
    forall f, k :: line <= k ==> At(m, f, k) == Hist(h, f, k, k + 1)
  }

  lemma RowOfHour(m: Table, h: seq<Result>, line: int, k: int)
    requires HoursExact(m, h, line) && line <= k
    ensures k in m && m[k].totalExecutions > 0 <==> Hist(h, Executions, k, k + 1) > 0
    ensures k in m ==> m[k].totalExecutions == Hist(h, Executions, k, k + 1)
    ensures k in m ==> m[k].totalResponseTime == Hist(h, ResponseTime, k, k + 1)
  {
    assert At(m, Executions, k) == Hist(h, Executions, k, k + 1);
    assert At(m, ResponseTime, k) == Hist(h, ResponseTime, k, k + 1);
  }

  /** The queries that skip rows without executions skip nothing. */
  ghost predicate Executed(m: Table) {
    forall k :: k in m ==> m[k].totalExecutions >= 1
  }

  /** Rows sit on whole hours, none in the future. */
  ghost predicate OnHours(m: Table, now: Time) {
    forall k :: k in m ==> k % HOUR_SECONDS == 0 && k <= Unix(now)
  }

  lemma HourIndex(base: int, k: int, days: int) returns (i: int)
    requires base % DAY_SECONDS == 0 && k % HOUR_SECONDS == 0
    requires base <= k < base + days * DAY_SECONDS
    ensures 0 <= i < days * 24 && k == base + i * HOUR_SECONDS
  {
    i := k / HOUR_SECONDS - base / DAY_SECONDS * 24;
  }

  // ---------------------------------------------------------------- counting rows

  /** Keys on a grid of n points are at most n. */
  lemma {:induction false} GridCount(keys: set<int>, base: int, step: int, n: nat)
    requires step > 0
    requires forall k :: k in keys ==> exists i :: 0 <= i < n && k == base + i * step
    ensures |keys| <= n
  {
    if n == 0 {
      assert forall k :: k !in keys;
    } else {
      var last := base + (n - 1) * step;
      var rest := keys - {last};
      forall k | k in rest ensures exists i :: 0 <= i < n - 1 && k == base + i * step {
        var i :| 0 <= i < n && k == base + i * step;
        assert i < n - 1;
      }
      GridCount(rest, base, step, n - 1);
      assert keys <= rest + {last};
      assert |keys| <= |rest + {last}|;
    }
  }
}
