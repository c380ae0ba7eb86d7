/** A run on which the second of two merges drops a row that the first one made (storage/store/sql/sql.go). */
module SqlMergeEdge {
  import opened Clock
  import opened Endpoints
  import opened SqlUptime
  import opened Uptime

  /** 23:00 on the day 30. */
  const NOW := 30 * DAY + 23 * HOUR

  /** The hours of the days 28 to 30, then the midnights of the days 1 to 27, then 23:00 on the day 0. */
  function Key(i: int): int {
    if i < 72 then 28 * DAY_SECONDS + i * HOUR_SECONDS
    else if i < 99 then (i - 71) * DAY_SECONDS
    else 23 * HOUR_SECONDS
  }

  /** The results arrive late, all at once. */
  function Late(n: nat): (run: seq<Insertion>)
    ensures |run| == n
  {
    if n == 0 then [] else Late(n - 1) + [Insertion(ResultAt(Key(n - 1)), NOW)]
  }

  /** The hundred of them, and one more in the first of the hours. */
  function EdgeRun(): seq<Insertion> {
    Late(100) + [Insertion(ResultAt(Key(0)), NOW)]
  }

  lemma LinesNow()
    ensures MergeLine(NOW) == 28 * DAY_SECONDS && KeepLine(NOW) == 23 * HOUR_SECONDS
  {
    MergeLineFacts(NOW);
    Lines(NOW);
    assert Unix(NOW) == 30 * DAY_SECONDS + 23 * HOUR_SECONDS;
  }

  lemma KeyFacts(i: nat)
    requires i < 100
    ensures 0 < Key(i) <= 30 * DAY_SECONDS + 23 * HOUR_SECONDS && Key(i) % HOUR_SECONDS == 0
    ensures i < 72 <==> MergeLine(NOW) <= Key(i)
    ensures 72 <= i < 99 ==> FloorDay(Key(i)) == Key(i)
    ensures KeepLine(NOW) <= Key(i)
  {
    LinesNow();
    if 72 <= i < 99 {
      FloorDayUnique(Key(i), Key(i));
    }
  }

  lemma KeyIsNew(i: nat, j: nat)
    requires i < j < 100
    ensures Key(i) != Key(j)
  {
  }

  lemma HourOfResult(i: nat)
    requires i < 100
    ensures HourKey(ResultAt(Key(i)).timestamp) == Key(i) && ResultAt(Key(i)).timestamp <= NOW
  {
    KeyFacts(i);
    hide Key;
    HourKeyOfHour(Key(i));
  }

  lemma {:induction false} LateIsValid(n: nat)
    requires n <= 100
    ensures ValidRun(Late(n), NOW)
  {
    hide Key, ResultAt;
    if n > 0 {
      HourOfResult(n - 1);
      LateIsValid(n - 1);
      assert Late(n)[..n - 1] == Late(n - 1);
    }
  }

  /** One row for each of the first n keys. */
  ghost predicate HoldsFirst(m: Table, n: nat) {
    && (forall k :: k in m <==> exists i :: 0 <= i < n && k == Key(i))
    && (forall k :: k in m ==> m[k] == Stats(1, 1, 0))
    && |m| == n
  }

  lemma RecordNext(m: Table, n: nat)
    requires n < 100 && HoldsFirst(m, n)
    ensures HoldsFirst(Record(m, ResultAt(Key(n))), n + 1)
  {
    HourOfResult(n);
    forall i | 0 <= i < n ensures Key(i) != Key(n) {
      KeyIsNew(i, n);
    }
    var m' := Record(m, ResultAt(Key(n)));
    assert m' == m[Key(n) := Stats(1, 1, 0)];
    forall k ensures k in m' <==> exists i :: 0 <= i < n + 1 && k == Key(i) {
    }
  }

  lemma NothingOutdated(m: Table)
    requires forall k :: k in m ==> 0 <= k
    ensures AfterCleanUp(m, NOW) == m
  {
  }

  lemma KeysArePositive(m: Table, n: nat)
    requires n <= 100 && HoldsFirst(m, n)
    ensures forall k :: k in m ==> 0 < k
  {
    forall k | k in m ensures 0 < k {
      var i :| 0 <= i < n && k == Key(i);
      KeyFacts(i);
    }
  }

  /** Up to 99 rows nothing is merged. */
  lemma {:induction false} LateRows(n: nat)
    requires n <= 99
    ensures HoldsFirst(Rows(Late(n)), n)
  {
    if n > 0 {
      LateRows(n - 1);
      assert Late(n)[..n - 1] == Late(n - 1);
      RecordNext(Rows(Late(n - 1)), n - 1);
      var recorded := Record(Rows(Late(n - 1)), ResultAt(Key(n - 1)));
      KeysArePositive(recorded, n);
      NothingOutdated(recorded);
    }
  }

  /** The day 0 has one row to merge. */
  lemma EdgeTotal(m: Table)
    requires HoldsFirst(m, 100)
    ensures DayTotal(m, 0, KeepLine(NOW)).totalExecutions == 1
  {
    LinesNow();
    assert Key(99) in m;
    forall i | 0 <= i < 100 ensures Key(i) <= Key(99) || DAY_SECONDS <= Key(i) {
    }
    assert forall k :: k in m ==> k <= Key(99) || DAY_SECONDS <= k;
    SumOfOneRow(m, Executions, Key(99), DAY_SECONDS);
  }

  lemma FirstMergeKey(m: Table, k: int)
    requires HoldsFirst(m, 100)
    ensures k in MergedKeys(m, MergeLine(NOW), KeepLine(NOW)) <==> k == 0 || (k in m && k != Key(99))
  {
    LinesNow();
    var selected := SelectedKeys(m, MergeLine(NOW), KeepLine(NOW));
    assert FloorDay(Key(99)) == 0;
    assert Key(99) in m && Key(99) in selected;
    forall i | 0 <= i < 100 ensures Key(i) in selected <==> 72 <= i {
      KeyFacts(i);
      assert Key(i) in m;
    }
    if k in m {
      var i :| 0 <= i < 100 && k == Key(i);
      KeyFacts(i);
      if i < 99 {
        KeyIsNew(i, 99);
      }
    }
    if k in DaysOf(selected) && k != 0 {
      var j :| j in selected && FloorDay(j) == k;
      var i :| 0 <= i < 100 && j == Key(i);
      KeyFacts(i);
    }
  }

  lemma ReplacedKey(keys: set<int>, keys': set<int>, x: int, y: int)
    requires x in keys && y !in keys
    requires forall k :: k in keys' <==> k == y || (k in keys && k != x)
    ensures |keys'| == |keys|
  {
    forall k ensures k in keys' <==> k in keys - {x} + {y} {
    }
    assert keys' == (keys - {x}) + {y};
    assert |keys - {x}| == |keys| - 1;
  }

  /** The merge moves the row of the day 0 to its midnight, and no other. */
  lemma FirstMerge(m: Table)
    requires HoldsFirst(m, 100)
    ensures var m' := Merged(m, MergeLine(NOW), KeepLine(NOW));
            && 0 in m' && m'[0].totalExecutions == 1 && |m'| == 100 && Key(0) in m'
            && forall k :: k in m' ==> k == 0 || DAY_SECONDS <= k
  {
    var m' := Merged(m, MergeLine(NOW), KeepLine(NOW));
    LinesNow();
    forall k ensures k in m' <==> k == 0 || (k in m && k != Key(99)) {
      FirstMergeKey(m, k);
    }
    forall k | k in m && k != Key(99) ensures DAY_SECONDS <= k {
      var i :| 0 <= i < 100 && k == Key(i);
    }
    assert Key(99) in m && Key(0) in m;
    EdgeTotal(m);
    assert m'[0] == DayTotal(m, 0, KeepLine(NOW));
    hide Merged, DayTotal;
    ReplacedKey(m.Keys, m'.Keys, Key(99), 0);
  }

  /** After the hundredth insert. */
  ghost predicate Hundred(m: Table) {
    && 0 in m && m[0].totalExecutions == 1 && |m| == 100 && Key(0) in m
    && forall k :: k in m ==> k == 0 || DAY_SECONDS <= k
  }

  lemma LastRows(run: seq<Insertion>)
    requires |run| > 0
    ensures Rows(run) == AfterInsert(Rows(run[..|run| - 1]), run[|run| - 1].result, run[|run| - 1].now)
  {
  }

  lemma HundredthInsert(recorded: Table)
    requires HoldsFirst(recorded, 100)
    ensures Hundred(AfterCleanUp(AfterMerge(recorded, NOW), NOW))
  {
    FirstMerge(recorded);
    hide Merged;
    NothingOutdated(AfterMerge(recorded, NOW));
  }

  lemma HundredRows()
    ensures Hundred(Rows(Late(100)))
  {
    LateRows(99);
    RecordNext(Rows(Late(99)), 99);
    assert Late(100)[..99] == Late(99);
    var recorded := Record(Rows(Late(99)), ResultAt(Key(99)));
    hide Record, HoldsFirst, Rows, ResultAt, Key;
    assert Rows(Late(100)) == AfterInsert(Rows(Late(99)), ResultAt(Key(99)), NOW) by {
      LastRows(Late(100));
    }
    HundredthInsert(recorded);
  }

  lemma SecondMerge(m: Table)
    requires |m| == 100 && (forall k :: k in m ==> k == 0 || DAY_SECONDS <= k)
    ensures forall k :: k in AfterCleanUp(AfterMerge(m, NOW), NOW) ==> DAY_SECONDS <= k
  {
    LinesNow();
    var selected := SelectedKeys(m, MergeLine(NOW), KeepLine(NOW));
    forall k | k in selected ensures FloorDay(k) >= DAY_SECONDS {
      FloorDayMonotone(DAY_SECONDS, k);
    }
    assert forall d :: d in DaysOf(selected) ==> DAY_SECONDS <= d;
  }

  lemma {:induction false} CountNotNegative(h: seq<Result>, lo: int, hi: int)
    ensures Hist(h, Executions, lo, hi) >= 0
  {
    if |h| > 0 {
      CountNotNegative(h[..|h| - 1], lo, hi);
    }
  }

  lemma DayOfEdge()
    ensures Hist(History(EdgeRun()), Executions, Key(99), Key(99) + 1) >= 1
  {
    var k, before := Key(99), History(Late(99));
    assert EdgeRun()[..100] == Late(100) && Late(100)[..99] == Late(99);
    assert History(EdgeRun()) == before + [ResultAt(k)] + [ResultAt(Key(0))];
    CountNotNegative(before, k, k + 1);
    HourOfResult(99);
    HistAfterAppend(before, ResultAt(k), Executions, k, k + 1);
    HistAfterAppend(before + [ResultAt(k)], ResultAt(Key(0)), Executions, k, k + 1);
  }

  /** Within its retention, the only check of the day 0 is counted after 100 inserts, and lost after 101. */
  lemma SecondMergeDrops()
    ensures ValidRun(EdgeRun(), NOW)
    ensures KeepLine(NOW) <= Key(99) && Hist(History(EdgeRun()), Executions, Key(99), Key(99) + 1) >= 1
    ensures Sum(Rows(Late(100)), Executions, 0, DAY_SECONDS) == 1
    ensures Sum(Rows(EdgeRun()), Executions, 0, DAY_SECONDS) == 0
  {
    LinesNow();
    LateIsValid(100);
    HourOfResult(0);
    assert EdgeRun()[..100] == Late(100);
    HundredRows();
    DayOfEdge();
    LastRows(EdgeRun());
    var m := Rows(Late(100));
    SumOfOneRow(m, Executions, 0, DAY_SECONDS);
    hide AfterMerge, AfterCleanUp, Rows, Hist, Sum;
    assert Record(m, ResultAt(Key(0))).Keys == m.Keys;
    SecondMerge(Record(m, ResultAt(Key(0))));
    SumOfNoRows(Rows(EdgeRun()), Executions, 0, DAY_SECONDS);
  }
}
