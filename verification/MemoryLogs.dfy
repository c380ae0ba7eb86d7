/** The event and result slices of the memory store (storage/store/memory/util.go, memory.go). */
module MemoryLogs {
  import opened Clock
  import opened Endpoints
  import opened Logs
  import opened Text

  datatype Slices = Slices(events: seq<Event>, results: seq<Result>)

  /** AddResult's events. */
  function EventsAfterAdd(events: seq<Event>, results: seq<Result>, r: Result, maximumEvents: nat): seq<Event> {
    if |results| > 0
    then if results[|results| - 1].success != r.success then Last(events + [EventOf(r)], maximumEvents) else events
    else events + [EventOf(r)]
  }

  /** AddResult without the uptime. */
  function SlicesAfterAdd(s: Slices, r: Result, maximumResults: nat, maximumEvents: nat): Slices {
    Slices(EventsAfterAdd(s.events, s.results, r, maximumEvents), Last(s.results + [r], maximumResults))
  }

  /** A status whose START event is stamped `started`, after a history of results. */
  function SlicesAfter(h: seq<Result>, started: Time, maximumResults: nat, maximumEvents: nat): Slices {
    if |h| == 0 then Slices([Event(Start, started)], [])
    else SlicesAfterAdd(SlicesAfter(h[..|h| - 1], started, maximumResults, maximumEvents), h[|h| - 1],
                        maximumResults, maximumEvents)
  }

  /** The slack of one event is the START event next to the first outcome when only one event may be kept. */
  ghost predicate SlicesRefine(s: Slices, h: seq<Result>, started: Time, maximumResults: nat, maximumEvents: nat) {
    && Bounded(s.results, h, maximumResults, 0)
    && (|h| == 0 ==> s.events == [Event(Start, started)])
    && (|h| > 0 ==> Bounded(s.events, IdealEvents(h, started), maximumEvents, 1))
  }

  lemma FirstSlices(s: Slices, r: Result, started: Time, maximumEvents: nat)
    requires s.events == [Event(Start, started)] && maximumEvents >= 1
    ensures Bounded(s.events + [EventOf(r)], IdealEvents([r], started), maximumEvents, 1)
  {
    var events := [Event(Start, started), EventOf(r)];
    assert s.events + [EventOf(r)] == events;
    assert IdealEvents([r], started) == events && events[0..] == events;
  }

  lemma LaterEvents(s: Slices, h: seq<Result>, r: Result, started: Time, maximumEvents: nat)
    requires |h| > 0 && Bounded(s.events, IdealEvents(h, started), maximumEvents, 1)
    ensures h[|h| - 1].success != r.success ==>
      Bounded(Last(s.events + [EventOf(r)], maximumEvents), IdealEvents(h + [r], started), maximumEvents, 1)
    ensures h[|h| - 1].success == r.success ==>
      Bounded(s.events, IdealEvents(h + [r], started), maximumEvents, 1)
  {
    IdealEventsAfter(h, r, started);
    if h[|h| - 1].success != r.success {
      BoundedAfter(s.events, IdealEvents(h, started), [EventOf(r)], true, maximumEvents, 1);
    } else {
      assert IdealEvents(h, started) + [] == IdealEvents(h, started);
    }
  }

  lemma SlicesStep(s: Slices, h: seq<Result>, r: Result, started: Time,
                                      maximumResults: nat, maximumEvents: nat)
    requires maximumResults >= 1 && maximumEvents >= 1
    requires SlicesRefine(s, h, started, maximumResults, maximumEvents)
    ensures SlicesRefine(SlicesAfterAdd(s, r, maximumResults, maximumEvents), h + [r], started,
                         maximumResults, maximumEvents)
  {
    BoundedAfter(s.results, h, [r], true, maximumResults, 0);
    if |h| == 0 {
      FirstSlices(s, r, started, maximumEvents);
      assert h + [r] == [r];
    } else {
      assert s.results[|s.results| - 1] == h[|h| - 1];
      LaterEvents(s, h, r, started, maximumEvents);
    }
  }

  /** Results are exactly the newest `max`, events a suffix of the ideal log that keeps its newest `max` entries. */
  lemma {:induction false} BoundedSlicesRefineIdealLogs(h: seq<Result>, started: Time,
                                                        maximumResults: nat, maximumEvents: nat)
    requires maximumResults >= 1 && maximumEvents >= 1
    ensures SlicesRefine(SlicesAfter(h, started, maximumResults, maximumEvents), h, started,
                         maximumResults, maximumEvents)
  {
    if |h| > 0 {
      var before, r := h[..|h| - 1], h[|h| - 1];
      BoundedSlicesRefineIdealLogs(before, started, maximumResults, maximumEvents);
      assert before + [r] == h;
      SlicesStep(SlicesAfter(before, started, maximumResults, maximumEvents), before, r, started,
                 maximumResults, maximumEvents);
    }
  }

  /** After any history the newest event tells whether the endpoint is healthy and since when, the outcomes take turns,
      and a START is stamped with the moment the status was created. */
  lemma StoredEventsTellOutcome(h: seq<Result>, started: Time, maximumResults: nat, maximumEvents: nat)
    requires |h| > 0 && maximumResults >= 1 && maximumEvents >= 1
    ensures var events := SlicesAfter(h, started, maximumResults, maximumEvents).events;
            TellsOutcome(events, h) && (events[0].kind == Start ==> events[0].timestamp == started)
  {
    BoundedSlicesRefineIdealLogs(h, started, maximumResults, maximumEvents);
    IdealNotEmpty(h, started);
    hide SlicesAfter, IdealEvents, TellsOutcome;
    SuffixTellsOutcome(SlicesAfter(h, started, maximumResults, maximumEvents).events, h, started);
  }

  // ---------------------------------------------------------------- paging

  /** getStartAndEndIndex in 64 bits. */
  function StartAndEnd(n: nat, page: Int, pageSize: Int): (int, int)
    requires n <= MAX_INT
  {
    if page < 1 || pageSize < 0 then (-1, -1)
    else
      var start := Wrap(n - Wrap(page * pageSize));
      var end := Wrap(n - Wrap((page - 1) * pageSize));
      (if start > n then -1 else if start < 0 then 0 else start, if end > n then n else end)
  }

  lemma WrapDifference(x: int, y: Int)
    ensures Wrap(x - y) == Wrap(Wrap(x) - y)
  {
  }

  lemma WrappedBounds(n: nat, a: Int, pageSize: Int)
    requires n <= MAX_INT && pageSize >= 0
    ensures var start, end := Wrap(n - a), Wrap(n - Wrap(a - pageSize));
            0 <= start <= n && 0 <= end ==> start <= end
  {
  }

  /** For all page parameters, overflowing or not, the slice expression is in bounds whenever it is evaluated. */
  lemma SliceInBounds(n: nat, page: Int, pageSize: Int)
    requires n <= MAX_INT
    ensures var (start, end) := StartAndEnd(n, page, pageSize);
            start < 0 || end < 0 || start <= end <= n
  {
    if page >= 1 && pageSize >= 0 {
      assert (page - 1) * pageSize == page * pageSize - pageSize;
      WrapDifference(page * pageSize, pageSize);
      WrappedBounds(n, Wrap(page * pageSize), pageSize);
    }
  }

  /** ShallowCopyEndpointStatus on one slice. */
  function Paged<T>(s: seq<T>, page: Int, pageSize: Int): seq<T>
    requires |s| <= MAX_INT
  {
    var (start, end) := StartAndEnd(|s|, page, pageSize);
    SliceInBounds(|s|, page, pageSize);
    if start < 0 || end < 0 then [] else s[start..end]
  }

  /** There is no page before the first, and none of a negative size. */
  lemma NoSuchPage<T>(s: seq<T>, page: Int, pageSize: Int)
    requires |s| <= MAX_INT && (page < 1 || pageSize < 0)
    ensures Paged(s, page, pageSize) == []
  {
  }

  lemma SmallBounds(n: nat, page: Int, pageSize: Int, lo: int, hi: int)
    requires n <= MAX_INT && page >= 1 && pageSize >= 0
    requires lo == page * pageSize && hi == (page - 1) * pageSize && 0 <= hi <= lo <= MAX_INT
    ensures StartAndEnd(n, page, pageSize) == (Max0(n - lo), n - hi)
  {
    assert Wrap(lo) == lo && Wrap(hi) == hi;
    assert Wrap(n - lo) == n - lo && Wrap(n - hi) == n - hi;
  }

  /** Without overflow, the slice is the page. */
  lemma PagedIsPage<T>(s: seq<T>, page: Int, pageSize: Int)
    requires |s| <= MAX_INT && page >= 1 && pageSize >= 0 && page * pageSize <= MAX_INT
    ensures Paged(s, page, pageSize) == Page(s, page, pageSize)
  {
    NonNegativeProduct(page, pageSize);
    SmallBounds(|s|, page, pageSize, page * pageSize, (page - 1) * pageSize);
    SliceInBounds(|s|, page, pageSize);
  }
}
