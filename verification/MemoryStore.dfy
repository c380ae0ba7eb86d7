/** The memory store: a status object per endpoint, updated in place (storage/store/memory/memory.go, util.go,
    uptime.go). */
module MemoryStore {
  import opened Answers
  import opened Clock
  import opened Endpoints
  import opened Logs
  import opened MemoryLogs
  import opened MemoryUptime
  import opened Outcomes
  import opened Paging
  import opened Text
  import opened Uptime

  /** The values are what a replay of a run leaves behind. */
  ghost predicate Replays(s: Slices, hours: Table, run: seq<Insertion>, started: Time, clock: Time,
                          maximumResults: nat, maximumEvents: nat) {
    && ValidRun(run, clock)
    && s == SlicesAfter(History(run), started, maximumResults, maximumEvents)
    && hours == Hours(run)
  }

  lemma LongerRun(run: seq<Insertion>, clock: Time, r: Result, now: Time)
    requires ValidRun(run, clock) && clock <= now && r.timestamp <= now
    ensures var run' := run + [Insertion(r, now)];
            && ValidRun(run', now) && History(run') == History(run) + [r]
            && Hours(run') == AfterResult(Hours(run), r, now)
  {
    hide AfterResult;
    var run' := run + [Insertion(r, now)];
    assert run'[..|run|] == run;
    assert run'[|run|] == Insertion(r, now);
  }

  lemma ReplaysAdd(s: Slices, hours: Table, run: seq<Insertion>, started: Time, clock: Time,
                                      r: Result, now: Time, maximumResults: nat, maximumEvents: nat)
    requires Replays(s, hours, run, started, clock, maximumResults, maximumEvents)
    requires clock <= now && r.timestamp <= now
    ensures Replays(SlicesAfterAdd(s, r, maximumResults, maximumEvents), AfterResult(hours, r, now),
                    run + [Insertion(r, now)], started, now, maximumResults, maximumEvents)
  {
    LongerRun(run, clock, r, now);
    assert (History(run) + [r])[..|run|] == History(run);
    hide SlicesAfterAdd, AfterResult;
  }

  lemma ReplaysLater(s: Slices, hours: Table, run: seq<Insertion>, started: Time, clock: Time,
                                        now: Time, maximumResults: nat, maximumEvents: nat)
    requires Replays(s, hours, run, started, clock, maximumResults, maximumEvents) && clock <= now
    ensures Replays(s, hours, run, started, now, maximumResults, maximumEvents)
  {
  }

  /** The clean-up loop with some keys still to look at. */
  function PartlyPurged(m: Table, rest: set<int>, line: int): Table {
    map k | k in m && (k in rest || line <= k) :: m[k]
  }

  lemma PurgeStep(m: Table, rest: set<int>, line: int, k: int)
    requires k in rest && rest <= m.Keys
    ensures PartlyPurged(m, rest - {k}, line)
         == if line > k then PartlyPurged(m, rest, line) - {k} else PartlyPurged(m, rest, line)
  {
  }

  /** endpoint.Status with its endpoint.Uptime. */
  class EndpointStatus {
    const key: string
    const group: string
    const name: string
    var results: seq<Result>
    var events: seq<Event>
    var hourlyStatistics: Table

    /** What was added, and the stamp of the START event. */
    ghost var run: seq<Insertion>
    ghost var started: Time

    ghost predicate Valid(clock: Time, maximumResults: nat, maximumEvents: nat)
      reads this
    {
      Replays(Slices(events, results), hourlyStatistics, run, started, clock, maximumResults, maximumEvents)
    }

    /** NewStatus and the START event that Insert adds to it. */
    constructor (key: string, group: string, name: string, now: Time,
                 ghost maximumResults: nat, ghost maximumEvents: nat)
      ensures this.key == key && this.group == group && this.name == name
      ensures run == [] && started == now
      ensures Valid(now, maximumResults, maximumEvents)
    {
      this.key, this.group, this.name := key, group, name;
      results, events, hourlyStatistics := [], [Event(Start, now)], map[];
      run, started := [], now;
    }

    /** The events part of AddResult. */
    method AddEvent(result: Result, maximumNumberOfEvents: nat)
      modifies this`events
      ensures events == EventsAfterAdd(old(events), results, result, maximumNumberOfEvents)
    {
      if |results| > 0 {
        if results[|results| - 1].success != result.success {
          events := events + [EventOf(result)];
          if |events| > maximumNumberOfEvents {
            events := events[|events| - maximumNumberOfEvents..];
          }
        }
      } else {
        events := events + [EventOf(result)];
      }
    }

    /** The results part of AddResult. */
    method AddToResults(result: Result, maximumNumberOfResults: nat)
      modifies this`results
      ensures results == Last(old(results) + [result], maximumNumberOfResults)
    {
      results := results + [result];
      if |results| > maximumNumberOfResults {
        results := results[|results| - maximumNumberOfResults..];
      }
    }

    /** processUptimeAfterResult: the loop deletes outdated hours in whatever order the map yields them. */
    method ProcessUptimeAfterResult(result: Result, now: Time)
      modifies this`hourlyStatistics
      ensures hourlyStatistics == AfterResult(old(hourlyStatistics), result, now)
      ensures var recorded := Record(old(hourlyStatistics), result);
              |recorded| <= 768 ==> hourlyStatistics == recorded
    {
      hourlyStatistics := Record(hourlyStatistics, result);
      if |hourlyStatistics| > UPTIME_CLEAN_UP_THRESHOLD {
        var sevenDaysAgo := DeleteLine(now);
        ghost var recorded := hourlyStatistics;
        var rest: set<int> := hourlyStatistics.Keys;
        assert PartlyPurged(recorded, rest, sevenDaysAgo) == recorded;
        while rest != {}
          invariant rest <= recorded.Keys
          invariant hourlyStatistics == PartlyPurged(recorded, rest, sevenDaysAgo)
          decreases rest
        {
          assert (forall k :: k !in rest) ==> rest == {};
          var hourlyUnixTimestamp :| hourlyUnixTimestamp in rest;
          PurgeStep(recorded, rest, sevenDaysAgo, hourlyUnixTimestamp);
          if sevenDaysAgo > hourlyUnixTimestamp {
            hourlyStatistics := hourlyStatistics - {hourlyUnixTimestamp};
          }
          rest := rest - {hourlyUnixTimestamp};
        }
        assert PartlyPurged(recorded, {}, sevenDaysAgo) == Purged(recorded, sevenDaysAgo);
      }
    }

    /** AddResult */
    method AddResult(result: Result, now: Time, maximumNumberOfResults: nat, maximumNumberOfEvents: nat,
                     ghost clock: Time)
      requires Valid(clock, maximumNumberOfResults, maximumNumberOfEvents)
      requires clock <= now && result.timestamp <= now
      modifies this
      ensures Valid(now, maximumNumberOfResults, maximumNumberOfEvents)
      ensures run == old(run) + [Insertion(result, now)] && started == old(started)
    {
      ReplaysAdd(Slices(events, results), hourlyStatistics, run, started, clock, result, now,
                 maximumNumberOfResults, maximumNumberOfEvents);
      AddEvent(result, maximumNumberOfEvents);
      AddToResults(result, maximumNumberOfResults);
      ProcessUptimeAfterResult(result, now);
      run := run + [Insertion(result, now)];
    }
  }

  /** The loop of GetUptimeByKey. */
  method CountSuccesses(hours: Table, from: Time, to: Time) returns (successfulExecutions: int, totalExecutions: int)
    requires from <= to && Executed(hours)
    ensures successfulExecutions == LoopSum(hours, Successes, from, Steps(from, to))
    ensures totalExecutions == LoopSum(hours, Executions, from, Steps(from, to))
  {
    successfulExecutions, totalExecutions := 0, 0;
    var current := from;
    ghost var n: nat := 0;
    while to - current >= 0
      invariant current == from + n * HOUR
      invariant n > 0 ==> current - HOUR <= to
      invariant successfulExecutions == LoopSum(hours, Successes, from, n)
      invariant totalExecutions == LoopSum(hours, Executions, from, n)
    {
      n := n + 1;
      var hourlyUnixTimestamp := HourKey(current);
      if hourlyUnixTimestamp !in hours || hours[hourlyUnixTimestamp].totalExecutions == 0 {
        current := current + HOUR;
        continue;
      }
      successfulExecutions := successfulExecutions + hours[hourlyUnixTimestamp].successfulExecutions;
      totalExecutions := totalExecutions + hours[hourlyUnixTimestamp].totalExecutions;
      current := current + HOUR;
    }
    StepsAtExit(from, to, n);
  }

  /** The loop of GetAverageResponseTimeByKey. */
  method CountResponseTime(hours: Table, from: Time, to: Time) returns (totalExecutions: int, totalResponseTime: int)
    requires from <= to && Executed(hours)
    ensures totalExecutions == LoopSum(hours, Executions, from, Steps(from, to))
    ensures totalResponseTime == LoopSum(hours, ResponseTime, from, Steps(from, to))
  {
    totalExecutions, totalResponseTime := 0, 0;
    var current := from;
    ghost var n: nat := 0;
    while to - current >= 0
      invariant current == from + n * HOUR
      invariant n > 0 ==> current - HOUR <= to
      invariant totalExecutions == LoopSum(hours, Executions, from, n)
      invariant totalResponseTime == LoopSum(hours, ResponseTime, from, n)
    {
      n := n + 1;
      var hourlyUnixTimestamp := HourKey(current);
      if hourlyUnixTimestamp !in hours || hours[hourlyUnixTimestamp].totalExecutions == 0 {
        current := current + HOUR;
        continue;
      }
      totalExecutions := totalExecutions + hours[hourlyUnixTimestamp].totalExecutions;
      totalResponseTime := totalResponseTime + hours[hourlyUnixTimestamp].totalResponseTime;
      current := current + HOUR;
    }
    StepsAtExit(from, to, n);
  }

  /** The loop of GetHourlyAverageResponseTimeByKey. */
  method AverageHours(hours: Table, from: Time, to: Time) returns (averages: map<int, int>)
    requires from <= to && Executed(hours)
    ensures LoopAverages(averages, hours, from, Steps(from, to))
  {
    averages := map[];
    var current := from;
    ghost var n: nat := 0;
    while to - current >= 0
      invariant current == from + n * HOUR
      invariant n > 0 ==> current - HOUR <= to
      invariant LoopAverages(averages, hours, from, n)
    {
      var hourlyUnixTimestamp := HourKey(current);
      LoopAveragesStep(averages, hours, from, n);
      n := n + 1;
      if hourlyUnixTimestamp !in hours || hours[hourlyUnixTimestamp].totalExecutions == 0 {
        current := current + HOUR;
        continue;
      }
      var hour := hours[hourlyUnixTimestamp];
      averages := averages[hourlyUnixTimestamp := hour.totalResponseTime / hour.totalExecutions];
      current := current + HOUR;
    }
    StepsAtExit(from, to, n);
  }

  class Store {
    const maximumNumberOfResults: nat
    const maximumNumberOfEvents: nat
    var cache: map<string, EndpointStatus>
    ghost var clock: Time

    /** Objects of different keys are different objects, because each knows its key. */
    ghost predicate StatusValid(k: string)
      requires k in cache
      reads this, cache.Values
    {
      cache[k].key == k && |cache[k].run| > 0 && cache[k].Valid(clock, maximumNumberOfResults, maximumNumberOfEvents)
    }

    ghost predicate Valid()
      reads this, cache.Values
    {
      && 1 <= maximumNumberOfResults < MAX_INT && 1 <= maximumNumberOfEvents < MAX_INT
      && forall k :: k in cache ==> StatusValid(k)
    }

    constructor (maximumNumberOfResults: nat, maximumNumberOfEvents: nat)
      requires 1 <= maximumNumberOfResults < MAX_INT && 1 <= maximumNumberOfEvents < MAX_INT
      ensures Valid() && cache == map[]
    {
      this.maximumNumberOfResults, this.maximumNumberOfEvents := maximumNumberOfResults, maximumNumberOfEvents;
      cache := map[];
    }

    /** The status object of a known endpoint, or a new one. */
    method StatusFor(ep: Endpoint, now: Time) returns (status: EndpointStatus)
      ensures ep.key in cache ==> status == cache[ep.key]
      ensures ep.key !in cache ==> fresh(status) && status.key == ep.key && status.run == []
      ensures ep.key !in cache ==> status.group == ep.group && status.name == ep.name && status.started == now
      ensures ep.key !in cache ==> status.Valid(now, maximumNumberOfResults, maximumNumberOfEvents)
    {
      if ep.key in cache {
        status := cache[ep.key];
      } else {
        status := new EndpointStatus(ep.key, ep.group, ep.name, now, maximumNumberOfResults, maximumNumberOfEvents);
      }
    }

    lemma LaterValid(now: Time)
      requires Valid() && clock <= now
      ensures forall k :: k in cache ==> cache[k].Valid(now, maximumNumberOfResults, maximumNumberOfEvents)
    {
      forall k | k in cache ensures cache[k].Valid(now, maximumNumberOfResults, maximumNumberOfEvents) {
        assert StatusValid(k);
        ReplaysLater(Slices(cache[k].events, cache[k].results), cache[k].hourlyStatistics, cache[k].run,
                     cache[k].started, clock, now, maximumNumberOfResults, maximumNumberOfEvents);
      }
    }

    /** Insert: the status object of a known endpoint is updated in place, a new one is created otherwise. */
    method Insert(ep: Endpoint, result: Result, now: Time)
      requires Valid()
      requires clock <= now && result.timestamp <= now
      modifies this, cache.Values
      ensures Valid() && clock == now
      ensures cache.Keys == old(cache.Keys) + {ep.key}
      ensures cache[ep.key].run == old(if ep.key in cache then cache[ep.key].run else []) + [Insertion(result, now)]
      ensures forall k :: k in old(cache) && k != ep.key ==> cache[k] == old(cache[k]) && cache[k].run == old(cache[k].run)
      ensures var status := cache[ep.key];
              if ep.key in old(cache) then status == old(cache[ep.key]) && status.started == old(cache[ep.key].started)
              else status.group == ep.group && status.name == ep.name && status.started == now
    {
      hide EndpointStatus.Valid;
      LaterValid(now);
      var status := StatusFor(ep, now);
      status.AddResult(result, now, maximumNumberOfResults, maximumNumberOfEvents, now);
      cache := cache[ep.key := status];
      clock := now;
    }

    // ---------------------------------------------------------------- reads

    /** What a valid status holds: bounded logs of its history, and the exact hours of the last 30 days. */
    lemma StatusFacts(k: string)
      requires Valid() && k in cache
      ensures var s := cache[k];
              && ValidRun(s.run, clock) && s.hourlyStatistics == Hours(s.run)
              && SlicesRefine(Slices(s.events, s.results), History(s.run), s.started,
                              maximumNumberOfResults, maximumNumberOfEvents)
              && |s.results| <= MAX_INT && |s.events| <= MAX_INT
    {
      assert StatusValid(k);
      BoundedSlicesRefineIdealLogs(History(cache[k].run), cache[k].started,
                                   maximumNumberOfResults, maximumNumberOfEvents);
    }

    /** The newest event of an endpoint tells whether it is healthy and since when. */
    lemma StoredEvents(key: string)
      requires Valid() && key in cache
      ensures TellsOutcome(cache[key].events, History(cache[key].run))
    {
      assert StatusValid(key);
      var s := cache[key];
      StoredEventsTellOutcome(History(s.run), s.started, maximumNumberOfResults, maximumNumberOfEvents);
      hide SlicesAfter, TellsOutcome;
    }

    /** GetEndpointStatusByKey */
    method GetEndpointStatusByKey(key: string, p: Params) returns (r: Outcome<Status, StoreError>)
      requires Valid()
      ensures key !in cache ==> r == Err(EndpointNotFound)
      ensures key in cache ==>
        && |cache[key].results| <= MAX_INT && |cache[key].events| <= MAX_INT
        && r == Ok(Status(key, cache[key].group, cache[key].name,
                          Paged(cache[key].results, p.resultsPage, p.resultsPageSize),
                          Paged(cache[key].events, p.eventsPage, p.eventsPageSize)))
    {
      if key !in cache {
        return Err(EndpointNotFound);
      }
      var status := cache[key];
      StatusFacts(key);
      var results, events := [], [];
      var (resultsStart, resultsEnd) := StartAndEnd(|status.results|, p.resultsPage, p.resultsPageSize);
      SliceInBounds(|status.results|, p.resultsPage, p.resultsPageSize);
      if !(resultsStart < 0 || resultsEnd < 0) {
        results := status.results[resultsStart..resultsEnd];
      }
      var (eventsStart, eventsEnd) := StartAndEnd(|status.events|, p.eventsPage, p.eventsPageSize);
      SliceInBounds(|status.events|, p.eventsPage, p.eventsPageSize);
      if !(eventsStart < 0 || eventsEnd < 0) {
        events := status.events[eventsStart..eventsEnd];
      }
      assert StatusValid(key);
      r := Ok(Status(key, status.group, status.name, results, events));
    }

    /** The window of the last 30 days, in which every hour is exact. */
    ghost predicate Recent(from: Time)
      reads this
    {
      clock - UPTIME_RETENTION <= from
    }

    method GetUptimeByKey(key: string, from: Time, to: Time) returns (r: Outcome<real, StoreError>)
      requires Valid()
      ensures from > to ==> r == Err(InvalidTimeRange)
      ensures from <= to && key !in cache ==> r == Err(EndpointNotFound)
      ensures from <= to && key in cache ==>
        var hours, n := cache[key].hourlyStatistics, Steps(from, to);
        r == Ok(Ratio(LoopSum(hours, Successes, from, n), LoopSum(hours, Executions, from, n)))
      ensures from <= to && key in cache && Recent(from) ==>
        var h, lo, hi := History(cache[key].run), HourKey(from), HourKey(LastStep(from, to)) + 3600;
        var successes, checks := |SuccessesIn(h, lo, hi)|, |ChecksIn(h, lo, hi)|;
        && (checks == 0 ==> r == Ok(0.0))
        && (checks > 0 ==> r == Ok(successes as real / checks as real))
    {
      if from > to {
        return Err(InvalidTimeRange);
      }
      if key !in cache {
        return Err(EndpointNotFound);
      }
      StatusFacts(key);
      var hours := cache[key].hourlyStatistics;
      RunExecutedHours(cache[key].run);
      var successfulExecutions, totalExecutions := CountSuccesses(hours, from, to);
      if Recent(from) {
        QueryExact(cache[key].run, clock, Successes, from, to);
        QueryExact(cache[key].run, clock, Executions, from, to);
        HistCounts(History(cache[key].run), HourKey(from), HourKey(LastStep(from, to)) + HOUR_SECONDS);
      }
      r := Ok(Ratio(successfulExecutions, totalExecutions));
    }

    method GetAverageResponseTimeByKey(key: string, from: Time, to: Time) returns (r: Outcome<int, StoreError>)
      requires Valid()
      ensures from > to ==> r == Err(InvalidTimeRange)
      ensures from <= to && key !in cache ==> r == Err(EndpointNotFound)
      ensures from <= to && key in cache ==>
        var hours, n := cache[key].hourlyStatistics, Steps(from, to);
        r == Ok(Average(LoopSum(hours, ResponseTime, from, n), LoopSum(hours, Executions, from, n)))
      ensures from <= to && key in cache && Recent(from) ==>
        var h, lo, hi := History(cache[key].run), HourKey(from), HourKey(LastStep(from, to)) + 3600;
        var checks := |ChecksIn(h, lo, hi)|;
        && (checks == 0 ==> r == Ok(0))
        && (checks > 0 ==> r == Ok(MillisecondsIn(h, lo, hi) / checks))
    {
      if from > to {
        return Err(InvalidTimeRange);
      }
      if key !in cache {
        return Err(EndpointNotFound);
      }
      StatusFacts(key);
      var hours := cache[key].hourlyStatistics;
      RunExecutedHours(cache[key].run);
      var totalExecutions, totalResponseTime := CountResponseTime(hours, from, to);
      if Recent(from) {
        QueryExact(cache[key].run, clock, ResponseTime, from, to);
        QueryExact(cache[key].run, clock, Executions, from, to);
        HistCounts(History(cache[key].run), HourKey(from), HourKey(LastStep(from, to)) + HOUR_SECONDS);
      }
      r := Ok(Average(totalResponseTime, totalExecutions));
    }

    method GetHourlyAverageResponseTimeByKey(key: string, from: Time, to: Time)
      returns (r: Outcome<map<int, int>, StoreError>)
      requires Valid()
      ensures from > to ==> r == Err(InvalidTimeRange)
      ensures from <= to && key !in cache ==> r == Err(EndpointNotFound)
      ensures from <= to && key in cache ==>
        r.Ok? && LoopAverages(r.value, cache[key].hourlyStatistics, from, Steps(from, to))
      ensures from <= to && key in cache && Recent(from) ==>
        HistoryAverages(r.value, History(cache[key].run), from, Steps(from, to))
    {
      if from > to {
        return Err(InvalidTimeRange);
      }
      if key !in cache {
        return Err(EndpointNotFound);
      }
      StatusFacts(key);
      var hours := cache[key].hourlyStatistics;
      RunExecutedHours(cache[key].run);
      var averages := AverageHours(hours, from, to);
      if Recent(from) {
        RecentLoopAverages(cache[key].run, clock, averages, from, to);
      }
      r := Ok(averages);
    }

    /** HasEndpointStatusNewerThan */
    method HasEndpointStatusNewerThan(key: string, timestamp: Time) returns (r: bool)
      ensures r <==> key in cache && exists i :: 0 <= i < |cache[key].results|
                                                 && cache[key].results[i].timestamp > timestamp
    {
      if key !in cache {
        return false;
      }
      var results := cache[key].results;
      for i := 0 to |results|
        invariant forall j :: 0 <= j < i ==> results[j].timestamp <= timestamp
      {
        if results[i].timestamp > timestamp {
          return true;
        }
      }
      r := false;
    }

    /** DeleteAllEndpointStatusesNotInKeys */
    method DeleteAllEndpointStatusesNotInKeys(keys: seq<string>) returns (deleted: int)
      requires Valid()
      modifies this
      ensures Valid() && clock == old(clock)
      ensures cache == map key | key in old(cache) && key in keys :: old(cache)[key]
      ensures deleted == |old(cache)| - |cache|
    {
      var before := |cache|;
      hide EndpointStatus.Valid;
      assert forall k :: k in cache ==> StatusValid(k);
      cache := map key | key in cache && key in keys :: cache[key];
      deleted := before - |cache|;
    }
  }
}
