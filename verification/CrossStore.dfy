/** The two stores answer alike (storage/store/memory, storage/store/sql). */
module CrossStore {
  import opened Clock
  import opened Endpoints
  import opened Logs
  import opened MemoryLogs
  import opened SqlLogs
  import opened Text
  import ErrorList

  /** What SQL gives back for results it stored. */
  function ReadBack(h: seq<Result>): seq<Result> {
    ResultsOf(RowsOf(h))
  }

  /** The error lists that survive the column codec. */
  predicate Restorable(h: seq<Result>) {
    forall i :: 0 <= i < |h| ==> h[i].errors != [""] && ErrorList.SeparatorSafe(h[i].errors)
  }

  /** Reading back is the identity exactly on results whose error lists survive the codec. */
  lemma ReadBackIsIdentity(h: seq<Result>)
    ensures ReadBack(h) == h <==> Restorable(h)
  {
    forall i | 0 <= i < |h|
      ensures ReadBack(h)[i] == h[i] <==> h[i].errors != [""] && ErrorList.SeparatorSafe(h[i].errors)
    {
      ErrorList.ErrorListRoundTrip(h[i].errors);
    }
    if ReadBack(h) != h {
      assert exists i :: 0 <= i < |h| && ReadBack(h)[i] != h[i];
    }
  }

  lemma PageOfRows(h: seq<Result>, page: int, size: int)
    requires page >= 1 && size >= 0
    ensures Page(RowsOf(h), page, size) == RowsOf(Page(h, page, size))
  {
    NonNegativeProduct(page, size);
  }

  /** On the same history, any page within the configured maximum reads the same in both stores, up to what the SQL
      column codec does to error lists. */
  lemma SamePage(h: seq<Result>, started: Time, driver: Driver, page: Int, pageSize: Int,
                                    maximumResults: nat, maximumEvents: nat)
    requires 1 <= maximumResults < MAX_INT && 1 <= maximumEvents < MAX_INT
    requires page >= 1 && pageSize >= 1 && page * pageSize <= maximumResults
    ensures var stored := SlicesAfter(h, started, maximumResults, maximumEvents).results;
            && |stored| <= MAX_INT
            && ReadResults(LogsAfter(h, maximumResults, maximumEvents).results, driver, page, pageSize)
               == ReadBack(Paged(stored, page, pageSize))
  {
    var stored := SlicesAfter(h, started, maximumResults, maximumEvents).results;
    var rows := LogsAfter(h, maximumResults, maximumEvents).results;
    BoundedSlicesRefineIdealLogs(h, started, maximumResults, maximumEvents);
    BoundedLogsRefineIdealLogs(h, maximumResults, maximumEvents);
    ReadResultsIsPage(rows, driver, page, pageSize);
    PagedIsPage(stored, page, pageSize);
    PageOfSuffix(rows, RowsOf(h), page, pageSize, maximumResults);
    PageOfSuffix(stored, h, page, pageSize, maximumResults);
    PageOfRows(h, page, pageSize);
  }

  /** With error lists the codec keeps, the two stores' pages are equal. */
  lemma SamePageExactly(h: seq<Result>, started: Time, driver: Driver, page: Int, pageSize: Int,
                                           maximumResults: nat, maximumEvents: nat)
    requires 1 <= maximumResults < MAX_INT && 1 <= maximumEvents < MAX_INT
    requires page >= 1 && pageSize >= 1 && page * pageSize <= maximumResults
    ensures var stored := SlicesAfter(h, started, maximumResults, maximumEvents).results;
            && |stored| <= MAX_INT
            && var inMemory := Paged(stored, page, pageSize);
               (ReadResults(LogsAfter(h, maximumResults, maximumEvents).results, driver, page, pageSize) == inMemory)
               == Restorable(inMemory)
  {
    SamePage(h, started, driver, page, pageSize, maximumResults, maximumEvents);
    var stored := SlicesAfter(h, started, maximumResults, maximumEvents).results;
    ReadBackIsIdentity(Paged(stored, page, pageSize));
  }

  // ---------------------------------------------------------------- newer than

  predicate AnyNewer(h: seq<Result>, timestamp: Time) {
    exists i :: 0 <= i < |h| && h[i].timestamp > timestamp
  }

  predicate AnyRowNewer(rows: seq<ResultRow>, timestamp: Time) {
    exists i :: 0 <= i < |rows| && rows[i].timestamp > timestamp
  }

  predicate InOrder(h: seq<Result>) {
    forall i, j :: 0 <= i < j < |h| ==> h[i].timestamp <= h[j].timestamp
  }

  lemma NewestDecides(h: seq<Result>, timestamp: Time)
    requires |h| > 0 && InOrder(h)
    ensures AnyNewer(h, timestamp) <==> h[|h| - 1].timestamp > timestamp
  {
  }

  lemma SuffixInOrder(s: seq<Result>, h: seq<Result>)
    requires IsSuffix(s, h) && InOrder(h) && |s| > 0
    ensures InOrder(s) && s[|s| - 1] == h[|h| - 1]
  {
    var n := |h| - |s|;
    assert forall i :: 0 <= i < |s| ==> s[i] == h[n + i];
  }

  lemma NewerInSuffix(s: seq<Result>, h: seq<Result>, timestamp: Time)
    requires IsSuffix(s, h) && InOrder(h) && |s| > 0
    ensures AnyNewer(s, timestamp) <==> AnyNewer(h, timestamp)
  {
    NewestDecides(h, timestamp);
    SuffixInOrder(s, h);
    NewestDecides(s, timestamp);
  }

  lemma NewerInRows(rows: seq<ResultRow>, h: seq<Result>, timestamp: Time)
    requires IsSuffix(rows, RowsOf(h)) && InOrder(h) && |rows| > 0
    ensures AnyRowNewer(rows, timestamp) <==> AnyNewer(h, timestamp)
  {
    var s := h[|h| - |rows|..];
    NewerInSuffix(s, h, timestamp);
    forall i | 0 <= i < |rows| ensures rows[i].timestamp == s[i].timestamp {
      assert rows[i] == RowsOf(h)[|h| - |rows| + i];
    }
  }

  /** For results that arrive in order, both trimmed logs answer HasEndpointStatusNewerThan as the full history. */
  lemma NewerSurvivesTrimming(h: seq<Result>, started: Time, timestamp: Time,
                                                 maximumResults: nat, maximumEvents: nat)
    requires maximumResults >= 1 && maximumEvents >= 1 && InOrder(h)
    ensures AnyNewer(SlicesAfter(h, started, maximumResults, maximumEvents).results, timestamp) <==> AnyNewer(h, timestamp)
    ensures AnyRowNewer(LogsAfter(h, maximumResults, maximumEvents).results, timestamp) <==> AnyNewer(h, timestamp)
  {
    hide SlicesAfter, LogsAfter, IdealEvents;
    BoundedSlicesRefineIdealLogs(h, started, maximumResults, maximumEvents);
    BoundedLogsRefineIdealLogs(h, maximumResults, maximumEvents);
    if |h| > 0 {
      NewerInSuffix(SlicesAfter(h, started, maximumResults, maximumEvents).results, h, timestamp);
      NewerInRows(LogsAfter(h, maximumResults, maximumEvents).results, h, timestamp);
    }
  }
}
