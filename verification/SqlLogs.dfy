/** The event and result tables of the SQL store, per endpoint, in id order (storage/store/sql/sql.go). */
module SqlLogs {
  import opened Clock
  import opened Endpoints
  import opened Logs
  import opened Text
  import ErrorList

  const EVENTS_ABOVE_MAXIMUM_CLEAN_UP_THRESHOLD := 10
  const RESULTS_ABOVE_MAXIMUM_CLEAN_UP_THRESHOLD := 10

  /** A row of endpoint_results with its conditions; the errors share one column. */
  datatype ResultRow = ResultRow(success: bool, errors: string, timestamp: Time, duration: nat, details: Details)

  function RowOf(r: Result): ResultRow {
    ResultRow(r.success, ErrorList.Encode(r.errors), r.timestamp, r.duration, r.details)
  }

  function ResultOf(row: ResultRow): Result {
    Result(row.success, row.timestamp, row.duration, ErrorList.Decode(row.errors), row.details)
  }

  function RowsOf(h: seq<Result>): (rows: seq<ResultRow>)
    ensures |rows| == |h| && forall i :: 0 <= i < |h| ==> rows[i] == RowOf(h[i])
  {
    seq(|h|, i requires 0 <= i < |h| => RowOf(h[i]))
  }

  function ResultsOf(rows: seq<ResultRow>): (h: seq<Result>)
    ensures |h| == |rows| && forall i :: 0 <= i < |h| ==> h[i] == ResultOf(rows[i])
  {
    seq(|rows|, i requires 0 <= i < |rows| => ResultOf(rows[i]))
  }

  datatype LogTables = LogTables(events: seq<Event>, results: seq<ResultRow>)

  const EMPTY_LOGS := LogTables([], [])

  function EventsAfterInsert(t: LogTables, r: Result, maximumEvents: nat): seq<Event> {
    if |t.events| == 0 then [Event(Start, r.timestamp - 50 * MILLISECOND), EventOf(r)]
    else
      var changed := |t.results| > 0 && t.results[|t.results| - 1].success != r.success;
      var extended := t.events + (if changed then [EventOf(r)] else []);
      // The count was taken before the event was inserted.
      if |t.events| > maximumEvents + EVENTS_ABOVE_MAXIMUM_CLEAN_UP_THRESHOLD
      then Last(extended, maximumEvents) else extended
  }

  function ResultsAfterInsert(t: LogTables, r: Result, maximumResults: nat): seq<ResultRow> {
    var extended := t.results + [RowOf(r)];
    if |extended| > maximumResults + RESULTS_ABOVE_MAXIMUM_CLEAN_UP_THRESHOLD
    then Last(extended, maximumResults) else extended
  }

  function LogsAfterInsert(t: LogTables, r: Result, maximumResults: nat, maximumEvents: nat): LogTables {
    LogTables(EventsAfterInsert(t, r, maximumEvents), ResultsAfterInsert(t, r, maximumResults))
  }

  /** The tables after a history of inserts. */
  function LogsAfter(h: seq<Result>, maximumResults: nat, maximumEvents: nat): LogTables {
    if |h| == 0 then EMPTY_LOGS
    else
      LogsAfterInsert(LogsAfter(h[..|h| - 1], maximumResults, maximumEvents), h[|h| - 1], maximumResults, maximumEvents)
  }

  function Started(h: seq<Result>): Time {
    if |h| == 0 then 0 else h[0].timestamp - 50 * MILLISECOND
  }

  lemma {:induction false} EventsStep(t: LogTables, h: seq<Result>, r: Result, maximumEvents: nat)
    requires |h| > 0 && |t.events| > 0
    requires |t.results| > 0 && t.results[|t.results| - 1] == RowOf(h[|h| - 1])
    requires Bounded(t.events, IdealEvents(h, Started(h)), maximumEvents, 11)
    ensures Bounded(EventsAfterInsert(t, r, maximumEvents), IdealEvents(h + [r], Started(h)), maximumEvents, 11)
  {
    var ideal, trim := IdealEvents(h, Started(h)), |t.events| > maximumEvents + 10;
    var added := if t.results[|t.results| - 1].success != r.success then [EventOf(r)] else [];
    IdealEventsAfter(h, r, Started(h));
    assert IdealEvents(h + [r], Started(h)) == ideal + added;
    assert EventsAfterInsert(t, r, maximumEvents)
        == if trim then Last(t.events + added, maximumEvents) else t.events + added;
    hide *;
    BoundedAfter(t.events, ideal, added, trim, maximumEvents, 11);
  }

  lemma ResultsStep(t: LogTables, h: seq<Result>, r: Result, maximumResults: nat)
    requires Bounded(t.results, RowsOf(h), maximumResults, 10)
    ensures Bounded(ResultsAfterInsert(t, r, maximumResults), RowsOf(h + [r]), maximumResults, 10)
  {
    assert RowsOf(h + [r]) == RowsOf(h) + [RowOf(r)];
    BoundedAfter(t.results, RowsOf(h), [RowOf(r)], |t.results + [RowOf(r)]| > maximumResults + 10, maximumResults, 10);
  }

  /** The newest row is the newest result. */
  lemma LastRow(rows: seq<ResultRow>, h: seq<Result>)
    requires IsSuffix(rows, RowsOf(h)) && |rows| > 0
    ensures rows[|rows| - 1] == RowOf(h[|h| - 1])
  {
    assert RowsOf(h)[|h| - |rows|..][|rows| - 1] == RowsOf(h)[|h| - 1];
  }

  ghost predicate LogsRefine(t: LogTables, h: seq<Result>, maximumResults: nat, maximumEvents: nat) {
    && Bounded(t.events, IdealEvents(h, Started(h)), maximumEvents, 11)
    && Bounded(t.results, RowsOf(h), maximumResults, 10)
  }

  lemma FirstLogs(r: Result, maximumEvents: nat)
    requires maximumEvents >= 1
    ensures Bounded(EventsAfterInsert(EMPTY_LOGS, r, maximumEvents), IdealEvents([r], Started([r])), maximumEvents, 11)
  {
    var events := [Event(Start, r.timestamp - 50 * MILLISECOND), EventOf(r)];
    assert IdealEvents([r], Started([r])) == events;
    assert events[0..] == events;
  }

  lemma LogsStep(t: LogTables, h: seq<Result>, r: Result, maximumResults: nat, maximumEvents: nat)
    requires maximumResults >= 1 && maximumEvents >= 1
    requires LogsRefine(t, h, maximumResults, maximumEvents)
    requires |h| == 0 ==> t == EMPTY_LOGS
    ensures LogsRefine(LogsAfterInsert(t, r, maximumResults, maximumEvents), h + [r], maximumResults, maximumEvents)
  {
    ResultsStep(t, h, r, maximumResults);
    if |h| == 0 {
      assert h + [r] == [r];
      FirstLogs(r, maximumEvents);
    } else {
      IdealNotEmpty(h, Started(h));
      LastRow(t.results, h);
      EventsStep(t, h, r, maximumEvents);
      assert Started(h + [r]) == Started(h);
    }
  }

  lemma NoLogs(maximumResults: nat, maximumEvents: nat)
    ensures LogsRefine(EMPTY_LOGS, [], maximumResults, maximumEvents)
  {
  }

  /** Stored events are a suffix of the ideal log of length at most max + 11, stored results a suffix of the history of
      length at most max + 10, and each table keeps at least min(max, all) entries. */
  lemma {:induction false} BoundedLogsRefineIdealLogs(h: seq<Result>, maximumResults: nat, maximumEvents: nat)
    requires maximumResults >= 1 && maximumEvents >= 1
    ensures LogsRefine(LogsAfter(h, maximumResults, maximumEvents), h, maximumResults, maximumEvents)
  {
    hide LogsAfterInsert, LogsRefine, IdealEvents;
    if |h| == 0 {
      NoLogs(maximumResults, maximumEvents);
    } else {
      var before, r := h[..|h| - 1], h[|h| - 1];
      var t := LogsAfter(before, maximumResults, maximumEvents);
      BoundedLogsRefineIdealLogs(before, maximumResults, maximumEvents);
      assert before + [r] == h;
      LogsStep(t, before, r, maximumResults, maximumEvents);
    }
  }

  /** After any history the newest stored event tells whether the endpoint is healthy and since when, the stored
      outcomes take turns, and a START is stamped 50 ms before the first result. */
  lemma StoredEventsTellOutcome(h: seq<Result>, maximumResults: nat, maximumEvents: nat)
    requires |h| > 0 && maximumResults >= 1 && maximumEvents >= 1
    ensures var events := LogsAfter(h, maximumResults, maximumEvents).events;
            && TellsOutcome(events, h)
            && (events[0].kind == Start ==> events[0].timestamp == h[0].timestamp - 50_000_000)
  {
    BoundedLogsRefineIdealLogs(h, maximumResults, maximumEvents);
    IdealNotEmpty(h, Started(h));
    hide LogsAfter, IdealEvents, TellsOutcome;
    SuffixTellsOutcome(LogsAfter(h, maximumResults, maximumEvents).events, h, Started(h));
  }

  // ---------------------------------------------------------------- reading pages

  /** What LIMIT and OFFSET do with a negative offset: SQLite reads from the start, PostgreSQL reports an error. */
  datatype Driver = SQLite | Postgres

  /** (page-1)*pageSize in 64 bits. */
  function Offset(page: Int, pageSize: Int): Int {
    Wrap(Wrap(page - 1) * pageSize)
  }

  /** LIMIT limit OFFSET offset; an error leaves the caller with an empty list. */
  function Window<T>(rows: seq<T>, driver: Driver, limit: nat, offset: int): seq<T> {
    if offset < 0 && driver == Postgres then []
    else
      var from := if Max0(offset) < |rows| then Max0(offset) else |rows|;
      var to := if from + limit < |rows| then from + limit else |rows|;
      rows[from..to]
  }

  function Reverse<T>(s: seq<T>): (r: seq<T>)
    ensures |r| == |s| && forall i :: 0 <= i < |s| ==> r[i] == s[|s| - 1 - i]
  {
    if |s| == 0 then [] else [s[|s| - 1]] + Reverse(s[..|s| - 1])
  }

  /** getEndpointEventsByEndpointID: oldest first. */
  function ReadEvents(events: seq<Event>, driver: Driver, page: Int, pageSize: Int): seq<Event> {
    if pageSize > 0 then Window(events, driver, pageSize, Offset(page, pageSize)) else []
  }

  /** getEndpointResultsByEndpointID: newest first, then every row is put in front of the ones before it. */
  function ReadResults(rows: seq<ResultRow>, driver: Driver, page: Int, pageSize: Int): seq<Result> {
    if pageSize > 0
    then Reverse(ResultsOf(Window(Reverse(rows), driver, pageSize, Offset(page, pageSize)))) else []
  }

  /** The loop of getEndpointResultsByEndpointID over the rows it selected. */
  method PrependAll(selected: seq<ResultRow>) returns (results: seq<Result>)
    ensures results == Reverse(ResultsOf(selected))
  {
    results := [];
    for i := 0 to |selected|
      invariant results == Reverse(ResultsOf(selected[..i]))
    {
      results := [ResultOf(selected[i])] + results;
      assert ResultsOf(selected[..i + 1])[..i] == ResultsOf(selected[..i]);
    }
    assert selected[..|selected|] == selected;
  }

  lemma OffsetWithoutOverflow(page: Int, pageSize: Int)
    requires page >= 1 && pageSize >= 0 && page * pageSize <= MAX_INT
    ensures Offset(page, pageSize) == (page - 1) * pageSize
  {
    NonNegativeProduct(page, pageSize);
  }

  /** An event page holds the entries from (page-1)*pageSize to page*pageSize of the stored log, as far as there are
      any, oldest first. */
  lemma ReadEventsIsPage(events: seq<Event>, driver: Driver, page: Int, pageSize: Int, from: nat, to: nat)
    requires page >= 1 && pageSize >= 1 && page * pageSize <= MAX_INT
    requires from == (page - 1) * pageSize && to == from + pageSize
    ensures ReadEvents(events, driver, page, pageSize)
         == if |events| <= from then [] else if |events| <= to then events[from..] else events[from..to]
  {
    OffsetWithoutOverflow(page, pageSize);
  }

  /** A page of no entries is not read; page 0 starts before the first entry, which SQLite reads as the first and
      PostgreSQL refuses. */
  lemma ReadEventsBeforeFirstPage(events: seq<Event>, driver: Driver, pageSize: Int)
    ensures pageSize <= 0 ==> ReadEvents(events, driver, 0, pageSize) == []
    ensures pageSize >= 1 ==>
      ReadEvents(events, driver, 0, pageSize)
        == if driver == Postgres then [] else if |events| <= pageSize then events else events[..pageSize]
  {
    assert Wrap(-1) == -1 && (pageSize >= 1 ==> Wrap(-1 * pageSize) == -pageSize);
  }

  lemma ReverseOfResults(rows: seq<ResultRow>)
    ensures Reverse(ResultsOf(Reverse(rows))) == ResultsOf(rows)
  {
    var there := ResultsOf(Reverse(rows));
    forall i | 0 <= i < |rows| ensures Reverse(there)[i] == ResultOf(rows[i]) {
      assert there[|rows| - 1 - i] == ResultOf(Reverse(rows)[|rows| - 1 - i]);
    }
  }

  lemma {:induction false} ReverseOfSlice(rows: seq<ResultRow>, from: nat, to: nat)
    requires from <= to <= |rows|
    ensures Reverse(rows)[|rows| - to..|rows| - from] == Reverse(rows[from..to])
  {
  }

  /** A window counted from the newest row is a slice counted from the end. */
  lemma WindowOfReverse(rows: seq<ResultRow>, driver: Driver, limit: nat, offset: nat)
    ensures Window(Reverse(rows), driver, limit, offset) == Reverse(Slice(rows, offset + limit, offset))
  {
    var n := |rows|;
    var from, to := Max0(n - offset - limit), Max0(n - offset);
    assert Slice(rows, offset + limit, offset) == rows[from..to];
    assert Window(Reverse(rows), driver, limit, offset) == Reverse(rows)[n - to..n - from];
    ReverseOfSlice(rows, from, to);
  }

  /** Selecting newest first and prepending gives the page in insertion order. */
  lemma ReadResultsIsPage(rows: seq<ResultRow>, driver: Driver, page: Int, pageSize: Int)
    requires page >= 1 && pageSize >= 1 && page * pageSize <= MAX_INT
    ensures ReadResults(rows, driver, page, pageSize) == ResultsOf(Page(rows, page, pageSize))
  {
    OffsetWithoutOverflow(page, pageSize);
    NonNegativeProduct(page, pageSize);
    var hi: nat := (page - 1) * pageSize;
    WindowOfReverse(rows, driver, pageSize, hi);
    ReverseOfResults(Slice(rows, hi + pageSize, hi));
  }
}
