/** The SQL store (storage/store/sql/sql.go): every transaction is one method. */
module SqlStore {
  import opened Answers
  import opened Clock
  import opened Endpoints
  import opened Logs
  import opened Outcomes
  import opened Paging
  import opened SqlLogs
  import opened SqlMerge
  import opened SqlTables
  import opened SqlUptime
  import opened Uptime
  import CacheKey

  /** The loop of getEndpointHourlyAverageResponseTimes over the selected rows. */
  method AverageRows(rows: Table, from: Time, to: Time) returns (averages: map<int, int>)
    ensures RowAverages(averages, rows, from, to)
  {
    averages := map[];
    var m := ExecutedRows(rows);
    var selected := set k | k in m && Unix(from) <= k <= Unix(to);
    var rest := selected;
    while rest != {}
      invariant rest <= selected
      invariant averages.Keys == selected - rest
      invariant forall k :: k in averages ==> averages[k] == Average(m[k].totalResponseTime, m[k].totalExecutions)
      decreases rest
    {
      var k :| k in rest;
      averages := averages[k := Average(m[k].totalResponseTime, m[k].totalExecutions)];
      rest := rest - {k};
    }
  }

  class Store {
    const driver: Driver
    const caching: bool
    const maximumNumberOfResults: nat
    const maximumNumberOfEvents: nat

    var endpoints: Database
    var writeThroughCache: Cache

    /** What was ever inserted for each stored endpoint, and the latest clock reading. */
    ghost var runs: map<string, seq<Insertion>>
    ghost var clock: Time

    /** The parameters asked for since the cache was last emptied, and the cache keys of those that have a twin. */
    ghost var asked: set<Params>
    ghost var shared: set<string>

    /** The cache keys that an Insert refreshed before it was rolled back, and that no committed one refreshed since. */
    ghost var rolledBack: set<string>

    /** The tables are what a replay of each endpoint's run leaves behind. */
    ghost predicate TablesValid()
      reads this`endpoints, this`runs, this`clock
    {
      && maximumNumberOfResults >= 1 && maximumNumberOfEvents >= 1
      && AllReplay(endpoints, runs, clock, maximumNumberOfResults, maximumNumberOfEvents)
    }

    /** The cache, if there is one, agrees with the tables except for stale entries. */
    ghost predicate CacheValid(db: Database, stale: set<string>)
      reads this`writeThroughCache, this`shared
    {
      if caching then Coherent(writeThroughCache, db, driver, stale, shared) else writeThroughCache == map[]
    }

    ghost predicate OnlyHarmless()
      reads this`asked
    {
      forall p :: p in asked ==> Harmless(p, driver)
    }

    /** Harmless requests leave no trace in the cache that could do harm. */
    ghost predicate HarmlessValid()
      reads this`asked, this`shared, this`rolledBack, this`writeThroughCache
    {
      OnlyHarmless() ==> shared == {} && rolledBack == {} && AllHarmless(writeThroughCache.Keys, driver)
    }

    ghost predicate Valid()
      reads this
    {
      TablesValid() && CacheValid(endpoints, rolledBack) && HarmlessValid()
    }

    ghost function RunOf(key: string): seq<Insertion>
      reads this`runs
    {
      if key in runs then runs[key] else []
    }

    function AlertsOf(key: string): map<string, AlertRow>
      reads this`endpoints
    {
      if key in endpoints then endpoints[key].alerts else map[]
    }

    constructor (driver: Driver, caching: bool, maximumNumberOfResults: nat, maximumNumberOfEvents: nat,
                 ghost start: Time)
      requires maximumNumberOfResults >= 1 && maximumNumberOfEvents >= 1
      ensures Valid() && endpoints == map[] && runs == map[] && writeThroughCache == map[] && clock == start
      ensures asked == {} && shared == {} && rolledBack == {}
      ensures this.driver == driver && this.caching == caching
      ensures this.maximumNumberOfResults == maximumNumberOfResults
      ensures this.maximumNumberOfEvents == maximumNumberOfEvents
    {
      this.driver, this.caching := driver, caching;
      this.maximumNumberOfResults, this.maximumNumberOfEvents := maximumNumberOfResults, maximumNumberOfEvents;
      endpoints, writeThroughCache, runs, clock := map[], map[], map[], start;
      asked, shared, rolledBack := {}, {}, {};
    }

    // ---------------------------------------------------------------- Insert

    /** The events part of Insert. */
    method InsertEvents(t: LogTables, result: Result) returns (events: seq<Event>)
      ensures events == EventsAfterInsert(t, result, maximumNumberOfEvents)
      ensures |t.events| == 0 ==>
        |events| == 2 && events[0] == Event(Start, result.timestamp - 50_000_000) && Tells(events[1], result)
      ensures |t.events| > 0 ==>
        var changed := |t.results| > 0 && t.results[|t.results| - 1].success != result.success;
        && |events| == (if |t.events| > maximumNumberOfEvents + 10 then maximumNumberOfEvents
                        else if changed then |t.events| + 1 else |t.events|)
        && (changed && |events| > 0 ==> Tells(events[|events| - 1], result))
    {
      events := t.events;
      var numberOfEvents := |events|;
      if numberOfEvents == 0 {
        events := [Event(Start, result.timestamp - 50 * MILLISECOND)];
        events := events + [EventOf(result)];
      } else {
        assert t.events + [] == t.events;
        if |t.results| > 0 && t.results[|t.results| - 1].success != result.success {
          events := events + [EventOf(result)];
        }
        if numberOfEvents > maximumNumberOfEvents + EVENTS_ABOVE_MAXIMUM_CLEAN_UP_THRESHOLD {
          events := Last(events, maximumNumberOfEvents);
        }
      }
    }

    /** The results part of Insert. */
    method InsertResult(t: LogTables, result: Result) returns (results: seq<ResultRow>)
      ensures results == ResultsAfterInsert(t, result, maximumNumberOfResults)
      ensures |results| == if |t.results| + 1 > maximumNumberOfResults + 10 then maximumNumberOfResults
                           else |t.results| + 1
      ensures |results| > 0 ==> results[|results| - 1] == RowOf(result)
    {
      results := t.results + [RowOf(result)];
      if |results| > maximumNumberOfResults + RESULTS_ABOVE_MAXIMUM_CLEAN_UP_THRESHOLD {
        results := Last(results, maximumNumberOfResults);
      }
    }

    /** The uptime part of Insert. */
    method InsertUptime(m: Table, result: Result, now: Time) returns (rows: Table)
      ensures rows == AfterInsert(m, result, now)
      ensures var recorded := Record(m, result);
              |recorded| < 100 && (forall k :: k in recorded ==> now - k * SECOND <= 32 * DAY) ==> rows == recorded
      ensures |Record(m, result)| >= 100 ==> forall k :: k in rows && k < MergeLine(now) ==> k % 86400 == 0
    {
      FullTableIsMerged(Record(m, result), now);
      rows := Record(m, result);
      if |rows| >= UPTIME_TOTAL_ENTRIES_MERGE_THRESHOLD {
        rows := MergeHourlyUptimeEntries(rows, now);
      }
      if HasOutdatedRow(rows, now) {
        rows := Purged(rows, DeleteLine(now));
      }
    }

    /** The queries of getEndpointStatusByKey. */
    method QueryStatus(key: string, t: Tables, p: Params) returns (status: Status)
      ensures status == ReadStatus(t, key, p, driver)
    {
      var events: seq<Event>, results: seq<Result> := [], [];
      if p.eventsPageSize > 0 {
        events := Window(t.logs.events, driver, p.eventsPageSize, Offset(p.eventsPage, p.eventsPageSize));
      }
      if p.resultsPageSize > 0 && !EventsAbort(p, driver) {
        var selected := Window(Reverse(t.logs.results), driver, p.resultsPageSize,
                               Offset(p.resultsPage, p.resultsPageSize));
        results := PrependAll(selected);
      }
      status := Status(key, t.group, t.name, results, events);
    }

    /** The entry that answers the request, if there is one. */
    predicate IsHit(key: string, p: Params)
      reads this`writeThroughCache
    {
      caching && CacheKey.Generate(key, p) in writeThroughCache
    }

    /** getEndpointStatusByKey inside a transaction that sees the tables `db` and may have been aborted. Storing an
        entry pushes out the `evicted` ones, which may include itself. */
    method ReadThrough(db: Database, key: string, p: Params, aborted: bool, evicted: set<string>, ghost stale: set<string>)
      returns (r: Outcome<Status, StoreError>, abortedNow: bool)
      requires CacheValid(db, stale)
      modifies this`writeThroughCache, this`shared
      ensures shared == if caching && !HasNoTwin(p) then old(shared) + {CacheKey.Generate(key, p)} else old(shared)
      ensures old(IsHit(key, p)) ==>
        && r == Ok(old(writeThroughCache)[CacheKey.Generate(key, p)]) && abortedNow == aborted
        && writeThroughCache == old(writeThroughCache) && CacheValid(db, stale)
      ensures !old(IsHit(key, p)) ==>
        && r == (if aborted then Err(TransactionAborted)
                 else if key !in db then Err(EndpointNotFound)
                 else Ok(ReadStatus(db[key], key, p, driver)))
        && abortedNow == (aborted || (key in db && Aborts(p, driver)))
        && writeThroughCache == (if r.Ok? && caching
                                 then old(writeThroughCache)[CacheKey.Generate(key, p) := r.value] - evicted
                                 else old(writeThroughCache))
        && CacheValid(db, if r.Ok? then stale - {CacheKey.Generate(key, p)} else stale)
    {
      abortedNow := aborted;
      var cacheKey := CacheKey.Generate(key, p);
      if caching && !HasNoTwin(p) {
        shared := shared + {cacheKey};
      }
      if caching && cacheKey in writeThroughCache {
        return Ok(writeThroughCache[cacheKey]), aborted;
      }
      if aborted {
        return Err(TransactionAborted), aborted;
      }
      if key !in db {
        return Err(EndpointNotFound), aborted;
      }
      var status := QueryStatus(key, db[key], p);
      abortedNow := Aborts(p, driver);
      if caching {
        StoredEntryIsCoherent(writeThroughCache, db, driver, stale, shared, key, p, evicted);
        writeThroughCache := writeThroughCache[cacheKey := status] - evicted;
      }
      r := Ok(status);
    }

    static lemma ExtractedRequest(cacheKey: string)
      requires IsGenerated(cacheKey) && CacheKey.Extract(cacheKey).Some?
      ensures var (key, p) := CacheKey.Extract(cacheKey).value;
              HasNoTwin(p) && CacheKey.Generate(key, p) == cacheKey
    {
      var key, p: Params :| CacheKey.Generate(key, p) == cacheKey;
      CacheKey.ExtractOfGenerated(key, p);
    }

    /** Reading an endpoint again puts its entry back, if the transaction is still able to. */
    method RefreshOne(db: Database, cacheKey: string, aborted: bool, evicted: set<string>, ghost stale: set<string>)
      returns (abortedNow: bool)
      requires caching && CacheValid(db, stale) && cacheKey !in writeThroughCache && IsGenerated(cacheKey)
      modifies this`writeThroughCache, this`shared
      ensures CacheValid(db, stale) && shared == old(shared)
      ensures abortedNow <==> aborted || IsAborting(cacheKey, db.Keys, driver)
      ensures !aborted && abortedNow && cacheKey !in evicted ==> cacheKey in writeThroughCache
      ensures OneRefreshed(old(writeThroughCache), writeThroughCache, cacheKey, evicted)
      ensures writeThroughCache == if aborted then old(writeThroughCache)
                                   else WithRefreshed(old(writeThroughCache), cacheKey, db, driver, evicted)
    {
      hide Coherent, IsGenerated, ReadStatus, Aborts, HasNoTwin, CacheKey.Generate, CacheKey.Extract;
      abortedNow := aborted;
      var extracted := CacheKey.Extract(cacheKey);
      if extracted.Some? {
        var (key, p) := extracted.value;
        ExtractedRequest(cacheKey);
        var _, a := ReadThrough(db, key, p, aborted, evicted, stale);
        if CacheValid(db, stale - {cacheKey}) {
          MoreStale(writeThroughCache, db, driver, stale - {cacheKey}, stale, shared);
        }
        abortedNow := a;
      }
    }

    lemma LeftStale(db: Database, stale: set<string>, more: set<string>)
      requires caching && Coherent(writeThroughCache, db, driver, stale, shared) && stale <= more
      ensures CacheValid(db, more)
    {
      MoreStale(writeThroughCache, db, driver, stale, more, shared);
    }

    /** One entry of the pattern, with `rest` still to be refreshed. */
    method RefreshNext(db: Database, cacheKey: string, aborted: bool, evicted: set<string>, ghost start: Cache,
                       ghost endpointKey: string, ghost rest: set<string>, ghost done: set<string>,
                       ghost kept: set<string>)
      returns (abortedNow: bool)
      requires caching && CacheValid(db, rest + kept) && cacheKey in rest
      requires Refreshing(start, writeThroughCache, endpointKey, rest, aborted, db.Keys, driver, evicted)
      requires !aborted ==> Rebuilt(writeThroughCache, done, db, driver, evicted)
      modifies this`writeThroughCache, this`shared
      ensures CacheValid(db, rest - {cacheKey} + kept) && shared == old(shared)
      ensures Refreshing(start, writeThroughCache, endpointKey, rest - {cacheKey}, abortedNow, db.Keys, driver, evicted)
      ensures !abortedNow ==> Rebuilt(writeThroughCache, done + {cacheKey}, db, driver, evicted)
    {
      ghost var middle, left := writeThroughCache, rest - {cacheKey} + kept;
      assert IsGenerated(cacheKey);
      DropStale(writeThroughCache, db, driver, rest + kept, shared, cacheKey);
      hide *;
      writeThroughCache := writeThroughCache - {cacheKey};
      assert CacheValid(db, left) by {
        LeftStale(db, rest + kept - {cacheKey}, left);
      }
      abortedNow := RefreshOne(db, cacheKey, aborted, evicted, left);
      if !aborted {
        RebuiltStep(middle, done, cacheKey, db, driver, evicted);
      }
      DeletedAndRefreshed(middle, writeThroughCache, cacheKey, evicted);
      RefreshingStep(start, middle, writeThroughCache, endpointKey, rest, cacheKey, aborted, abortedNow, db.Keys, driver,
                     evicted);
    }

    lemma NothingRebuilt(cacheKeys: set<string>, db: Database, evicted: set<string>)
      requires cacheKeys == {}
      ensures Rebuilt(writeThroughCache, cacheKeys, db, driver, evicted)
    {
    }

    method RefreshAll(db: Database, pattern: set<string>, evicted: set<string>, ghost start: Cache,
                      ghost endpointKey: string, ghost kept: set<string>)
      returns (aborted: bool)
      requires caching && CacheValid(db, pattern + kept)
      requires Refreshing(start, writeThroughCache, endpointKey, pattern, false, db.Keys, driver, evicted)
      modifies this`writeThroughCache, this`shared
      ensures CacheValid(db, kept) && shared == old(shared)
      ensures Refreshing(start, writeThroughCache, endpointKey, {}, aborted, db.Keys, driver, evicted)
      ensures !aborted ==> Rebuilt(writeThroughCache, pattern, db, driver, evicted)
    {
      hide *;
      aborted := false;
      var rest := pattern;
      NothingRebuilt(pattern - rest, db, evicted);
      while rest != {}
        invariant rest <= pattern && CacheValid(db, rest + kept) && shared == old(shared)
        invariant Refreshing(start, writeThroughCache, endpointKey, rest, aborted, db.Keys, driver, evicted)
        invariant !aborted ==> Rebuilt(writeThroughCache, pattern - rest, db, driver, evicted)
        decreases rest
      {
        var cacheKey :| cacheKey in rest;
        aborted := RefreshNext(db, cacheKey, aborted, evicted, start, endpointKey, rest, pattern - rest, kept);
        assert pattern - rest + {cacheKey} == pattern - (rest - {cacheKey});
        rest := rest - {cacheKey};
      }
      assert pattern - rest == pattern && rest + kept == kept;
    }

    /** The loop of Insert over the cache keys that match the inserted endpoint's key, in any order: it leaves nothing
        stale with regard to the tables that the transaction sees, and aborts it exactly if some entry repeats an
        aborting request; that entry is then back in the cache. */
    method RefreshCache(db: Database, endpointKey: string, evicted: set<string>, ghost stale: set<string>)
      returns (aborted: bool)
      requires CacheValid(db, KeysByPattern(writeThroughCache, endpointKey) + stale)
      modifies this`writeThroughCache, this`shared
      ensures CacheValid(db, stale - KeysByPattern(old(writeThroughCache), endpointKey)) && shared == old(shared)
      ensures aborted <==> IsBlocked(old(writeThroughCache), endpointKey, db.Keys, driver)
      ensures aborted ==> BlockerIsBack(old(writeThroughCache), writeThroughCache, endpointKey, db.Keys, driver, evicted)
      ensures OnlyPatternRefreshed(old(writeThroughCache), writeThroughCache, endpointKey, evicted)
      ensures !aborted ==>
        Rebuilt(writeThroughCache, KeysByPattern(old(writeThroughCache), endpointKey), db, driver, evicted)
    {
      aborted := false;
      if caching {
        var pattern := KeysByPattern(writeThroughCache, endpointKey);
        ghost var start, kept := writeThroughCache, stale - pattern;
        CoherentIsGenerated(start, db, driver, pattern + stale, shared);
        RefreshingStarts(start, endpointKey, db.Keys, driver, evicted);
        assert pattern + kept == pattern + stale;
        hide *;
        aborted := RefreshAll(db, pattern, evicted, start, endpointKey, kept);
        RefreshingEnds(start, writeThroughCache, endpointKey, aborted, db.Keys, driver, evicted);
      }
    }

    /** An Insert for the endpoint would be rolled back. */
    predicate Blocked(endpointKey: string)
      reads this`endpoints, this`writeThroughCache
    {
      IsBlocked(writeThroughCache, endpointKey, endpoints.Keys + {endpointKey}, driver)
    }

    lemma ValidFacts(key: string, t: Tables)
      requires Valid()
      ensures TablesValid() && maximumNumberOfResults >= 1 && maximumNumberOfEvents >= 1
      ensures var db := endpoints[key := t]; db.Keys == endpoints.Keys + {key} && OthersUnchanged(db, endpoints, key)
    {
    }

    lemma NewTablesValid(db: Database, key: string)
      requires CacheValid(endpoints, rolledBack) && OthersUnchanged(db, endpoints, key)
      ensures CacheValid(db, KeysByPattern(writeThroughCache, key) + rolledBack)
    {
      if caching {
        OnlyPatternGoesStale(writeThroughCache, endpoints, db, driver, rolledBack, shared, key);
      }
    }

    /** Harmless requests never stand in the way of an Insert. */
    lemma HarmlessIsNotBlocked(key: string)
      requires HarmlessValid() && OnlyHarmless()
      ensures !Blocked(key)
    {
      var stored := endpoints.Keys + {key};
      forall cacheKey | cacheKey in KeysByPattern(writeThroughCache, key) ensures !IsAborting(cacheKey, stored, driver) {
        HarmlessDoesNotAbort(cacheKey, stored, driver);
      }
    }

    /** What the refresh means for the entries that were stale before. */
    method RefreshFrom(db: Database, key: string, evicted: set<string>) returns (aborted: bool)
      requires Valid() && db.Keys == endpoints.Keys + {key} && OthersUnchanged(db, endpoints, key)
      modifies this`writeThroughCache, this`shared, this`rolledBack
      ensures CacheValid(db, rolledBack) && shared == old(shared)
      ensures rolledBack == old(rolledBack) - KeysByPattern(old(writeThroughCache), key)
      ensures aborted == old(Blocked(key))
      ensures aborted ==> BlockerIsBack(old(writeThroughCache), writeThroughCache, key, db.Keys, driver, evicted)
      ensures OnlyPatternRefreshed(old(writeThroughCache), writeThroughCache, key, evicted)
      ensures !aborted ==> Rebuilt(writeThroughCache, KeysByPattern(old(writeThroughCache), key), db, driver, evicted)
      ensures OnlyHarmless() ==>
        !aborted && shared == {} && rolledBack == {} && AllHarmless(old(writeThroughCache).Keys, driver)
    {
      ghost var pattern := KeysByPattern(writeThroughCache, key);
      assert Blocked(key) == IsBlocked(writeThroughCache, key, db.Keys, driver);
      assert OnlyHarmless() ==> shared == {} && rolledBack == {} && AllHarmless(writeThroughCache.Keys, driver);
      NewTablesValid(db, key);
      if OnlyHarmless() {
        HarmlessIsNotBlocked(key);
      }
      hide *;
      aborted := RefreshCache(db, key, evicted, rolledBack);
      rolledBack := rolledBack - pattern;
    }

    /** What was refreshed from tables that are not committed is stale again. */
    lemma RolledBackValid(db: Database, key: string)
      requires CacheValid(db, rolledBack) && OthersUnchanged(db, endpoints, key)
      ensures CacheValid(endpoints, KeysByPattern(writeThroughCache, key) + rolledBack)
    {
      if caching {
        OnlyPatternGoesStale(writeThroughCache, db, endpoints, driver, rolledBack, shared, key);
      }
    }

    lemma LaterTables(now: Time)
      requires TablesValid() && clock <= now
      ensures AllReplay(endpoints, runs, now, maximumNumberOfResults, maximumNumberOfEvents)
    {
      AllReplayLater(endpoints, runs, clock, now, maximumNumberOfResults, maximumNumberOfEvents);
    }

    lemma StillValid(before: Cache, key: string, evicted: set<string>)
      requires maximumNumberOfResults >= 1 && maximumNumberOfEvents >= 1
      requires AllReplay(endpoints, runs, clock, maximumNumberOfResults, maximumNumberOfEvents)
      requires CacheValid(endpoints, rolledBack) && OnlyPatternRefreshed(before, writeThroughCache, key, evicted)
      requires OnlyHarmless() ==> shared == {} && rolledBack == {} && AllHarmless(before.Keys, driver)
      ensures Valid()
    {
      if OnlyHarmless() {
        FewerHarmless(before.Keys, writeThroughCache.Keys, driver);
      }
    }

    /** Refresh what the cache holds about an endpoint from its new tables, and commit them unless that failed. */
    method Commit(key: string, t: Tables, evicted: set<string>, ghost run: seq<Insertion>, ghost now: Time)
      returns (err: Option<StoreError>)
      requires Valid() && clock <= now
      requires AllReplay(endpoints[key := t], runs[key := run], now, maximumNumberOfResults, maximumNumberOfEvents)
      modifies this
      ensures Valid() && clock == now && asked == old(asked) && shared == old(shared)
      ensures err == if old(Blocked(key)) then Some(TransactionAborted) else None
      ensures OnlyPatternRefreshed(old(writeThroughCache), writeThroughCache, key, evicted)
      ensures CacheValid(old(endpoints)[key := t], old(rolledBack) - KeysByPattern(old(writeThroughCache), key))
      ensures err == None ==>
        && endpoints == old(endpoints)[key := t] && runs == old(runs)[key := run]
        && rolledBack == old(rolledBack) - KeysByPattern(old(writeThroughCache), key)
        && Rebuilt(writeThroughCache, KeysByPattern(old(writeThroughCache), key), endpoints, driver, evicted)
      ensures err != None ==>
        && endpoints == old(endpoints) && runs == old(runs)
        && rolledBack == KeysByPattern(writeThroughCache, key)
                       + (old(rolledBack) - KeysByPattern(old(writeThroughCache), key))
        && BlockerIsBack(old(writeThroughCache), writeThroughCache, key, endpoints.Keys + {key}, driver,
                         evicted)
    {
      var db := endpoints[key := t];
      ghost var before := writeThroughCache;
      hide *;
      ValidFacts(key, t);
      var aborted := RefreshFrom(db, key, evicted);
      if aborted {
        RolledBackValid(db, key);
        rolledBack := KeysByPattern(writeThroughCache, key) + rolledBack;
        LaterTables(now);
        clock := now;
        err := Some(TransactionAborted);
      } else {
        endpoints, runs, clock := db, runs[key := run], now;
        err := None;
      }
      StillValid(before, key, evicted);
    }

    /** The tables that Insert is about to commit. */
    function TablesAfter(ep: Endpoint, result: Result, now: Time): Tables
      reads this`endpoints
    {
      Inserted(TablesIn(endpoints, ep), result, now, maximumNumberOfResults, maximumNumberOfEvents)
    }

    lemma InsertReplays(ep: Endpoint, result: Result, now: Time)
      requires TablesValid() && clock <= now && result.timestamp <= now
      ensures AllReplay(endpoints[ep.key := TablesAfter(ep, result, now)],
                        runs[ep.key := RunOf(ep.key) + [Insertion(result, now)]], now,
                        maximumNumberOfResults, maximumNumberOfEvents)
    {
      var t, t' := TablesIn(endpoints, ep), TablesAfter(ep, result, now);
      assert Replays(t, RunOf(ep.key), clock, maximumNumberOfResults, maximumNumberOfEvents);
      ReplaysInsert(t, t', RunOf(ep.key), clock, result, now, maximumNumberOfResults, maximumNumberOfEvents);
      AllReplayInsert(endpoints, runs, clock, now, ep.key, t', RunOf(ep.key) + [Insertion(result, now)],
                      maximumNumberOfResults, maximumNumberOfEvents);
    }

    /** Insert: one transaction at clock reading `now`. It commits exactly if no entry that it refreshes repeats a
        request that aborts it; otherwise the tables stay as they were, while the refreshed entries stay as well. */
    method Insert(ep: Endpoint, result: Result, now: Time, evicted: set<string>) returns (err: Option<StoreError>)
      requires Valid()
      requires clock <= now && result.timestamp <= now
      modifies this
      ensures Valid() && clock == now && asked == old(asked) && shared == old(shared)
      ensures err == if old(Blocked(ep.key)) then Some(TransactionAborted) else None
      ensures OnlyPatternRefreshed(old(writeThroughCache), writeThroughCache, ep.key, evicted)
      ensures CacheValid(old(endpoints)[ep.key := old(TablesAfter(ep, result, now))],
                         old(rolledBack) - KeysByPattern(old(writeThroughCache), ep.key))
      ensures err == None ==>
        && endpoints == old(endpoints)[ep.key := old(TablesAfter(ep, result, now))]
        && runs == old(runs)[ep.key := old(RunOf(ep.key)) + [Insertion(result, now)]]
        && rolledBack == old(rolledBack) - KeysByPattern(old(writeThroughCache), ep.key)
        && Rebuilt(writeThroughCache, KeysByPattern(old(writeThroughCache), ep.key), endpoints, driver, evicted)
      ensures err != None ==>
        && endpoints == old(endpoints) && runs == old(runs)
        && rolledBack == KeysByPattern(writeThroughCache, ep.key)
                       + (old(rolledBack) - KeysByPattern(old(writeThroughCache), ep.key))
        && BlockerIsBack(old(writeThroughCache), writeThroughCache, ep.key, endpoints.Keys + {ep.key}, driver,
                         evicted)
      ensures !caching || OnlyHarmless() ==> err == None
      ensures err == None ==>
        var t := endpoints[ep.key];
        && t.group == (if ep.key in old(endpoints) then old(endpoints)[ep.key].group else ep.group)
        && t.name == (if ep.key in old(endpoints) then old(endpoints)[ep.key].name else ep.name)
        && t.alerts == old(AlertsOf(ep.key))
    {
      if OnlyHarmless() {
        HarmlessIsNotBlocked(ep.key);
      }
      hide Coherent, AllReplay, IsBlocked, BlockerIsBack, Rebuilt, KeysByPattern, OnlyPatternRefreshed;
      var t := TablesIn(endpoints, ep);
      var events := InsertEvents(t.logs, result);
      var results := InsertResult(t.logs, result);
      var uptimes := InsertUptime(t.uptimes, result, now);
      t := t.(logs := LogTables(events, results), uptimes := uptimes);
      InsertReplays(ep, result, now);
      err := Commit(ep.key, t, evicted, RunOf(ep.key) + [Insertion(result, now)], now);
    }

    // ---------------------------------------------------------------- reads

    /** A hit of the request is its uncached answer: the request is harmless, no twin was asked for under its cache
        key, and no rolled back Insert refreshed the entry. */
    ghost predicate IsTrusted(key: string, p: Params)
      reads this`shared, this`rolledBack
    {
      && Harmless(p, driver)
      && CacheKey.Generate(key, p) !in shared && CacheKey.Generate(key, p) !in rolledBack
    }

    lemma HitIsTrusted(key: string, p: Params)
      requires CacheValid(endpoints, rolledBack) && IsHit(key, p)
      ensures IsTrusted(key, p) ==>
        Ok(writeThroughCache[CacheKey.Generate(key, p)]) == UncachedAnswer(endpoints, key, p, driver)
    {
      if IsTrusted(key, p) {
        HitIsFresh(writeThroughCache, endpoints, driver, rolledBack, shared, key, p);
      }
    }

    /** What is known of a request before it is made. */
    lemma RequestFacts(key: string, p: Params)
      requires Valid()
      ensures TablesValid() && CacheValid(endpoints, rolledBack)
      ensures maximumNumberOfResults >= 1 && maximumNumberOfEvents >= 1
      ensures IsHit(key, p) <==> caching && CacheKey.Generate(key, p) in writeThroughCache
      ensures UncachedAnswer(endpoints, key, p, driver)
           == if key !in endpoints then Err(EndpointNotFound)
              else if Aborts(p, driver) then Err(TransactionAborted)
              else Ok(ReadStatus(endpoints[key], key, p, driver))
      ensures IsHit(key, p) && IsTrusted(key, p) ==>
        Ok(writeThroughCache[CacheKey.Generate(key, p)]) == UncachedAnswer(endpoints, key, p, driver)
      ensures (forall q :: q in asked + {p} ==> Harmless(q, driver)) ==>
        && IsTrusted(key, p) && HasNoTwin(p)
        && shared == {} && rolledBack == {} && AllHarmless(writeThroughCache.Keys, driver)
      ensures !caching ==> writeThroughCache == map[]
    {
      assert p in asked + {p};
      if IsHit(key, p) {
        HitIsTrusted(key, p);
      }
      assert asked <= asked + {p};
    }

    lemma AfterRequest(before: Cache, key: string, p: Params)
      requires TablesValid() && CacheValid(endpoints, rolledBack) && maximumNumberOfResults >= 1
      requires maximumNumberOfEvents >= 1 && p in asked
      requires writeThroughCache.Keys <= before.Keys + {CacheKey.Generate(key, p)}
      requires (forall q :: q in asked ==> Harmless(q, driver)) ==>
        shared == {} && rolledBack == {} && AllHarmless(before.Keys, driver)
      ensures Valid()
      ensures OnlyHarmless() <==> forall q :: q in asked ==> Harmless(q, driver)
    {
    }

    /** GetEndpointStatusByKey: a miss is answered from the tables, a hit with the entry; the transaction is then
        committed. As long as only harmless requests were made, the cache makes no difference. */
    method GetEndpointStatusByKey(key: string, p: Params, evicted: set<string>) returns (r: Outcome<Status, StoreError>)
      requires Valid()
      modifies this`writeThroughCache, this`shared, this`rolledBack, this`asked
      ensures Valid() && asked == old(asked) + {p}
      ensures r == if old(IsHit(key, p)) then Ok(old(writeThroughCache)[CacheKey.Generate(key, p)])
                   else UncachedAnswer(endpoints, key, p, driver)
      ensures old(IsTrusted(key, p)) ==> r == UncachedAnswer(endpoints, key, p, driver)
      ensures !caching || OnlyHarmless() ==> r == UncachedAnswer(endpoints, key, p, driver)
      ensures writeThroughCache == if caching && !old(IsHit(key, p)) && key in endpoints
                                   then old(writeThroughCache)[CacheKey.Generate(key, p)
                                                               := ReadStatus(endpoints[key], key, p, driver)] - evicted
                                   else old(writeThroughCache)
    {
      hide *;
      ghost var before, hit := writeThroughCache, IsHit(key, p);
      RequestFacts(key, p);
      asked := asked + {p};
      var aborted;
      r, aborted := ReadThrough(endpoints, key, p, false, evicted, rolledBack);
      if !hit && r.Ok? {
        rolledBack := rolledBack - {CacheKey.Generate(key, p)};
      }
      if aborted {
        r := Err(TransactionAborted);
      }
      AfterRequest(before, key, p);
    }

    lemma EvictFacts(cacheKeys: set<string>)
      requires Valid()
      ensures TablesValid() && maximumNumberOfResults >= 1 && maximumNumberOfEvents >= 1
      ensures OnlyHarmless() ==> shared == {} && rolledBack == {} && AllHarmless(writeThroughCache.Keys, driver)
      ensures if caching then Coherent(writeThroughCache - cacheKeys, endpoints, driver, rolledBack, shared)
              else writeThroughCache == map[]
    {
    }

    lemma AfterEvict(before: Cache)
      requires TablesValid() && maximumNumberOfResults >= 1 && maximumNumberOfEvents >= 1
      requires writeThroughCache.Keys <= before.Keys
      requires if caching then Coherent(writeThroughCache, endpoints, driver, rolledBack, shared) else before == map[]
      requires OnlyHarmless() ==> shared == {} && rolledBack == {} && AllHarmless(before.Keys, driver)
      ensures Valid()
    {
      assert before == map[] ==> writeThroughCache == map[];
    }

    /** Entries may expire or be evicted at any time. */
    method Evict(cacheKeys: set<string>)
      requires Valid()
      modifies this`writeThroughCache
      ensures Valid() && writeThroughCache == old(writeThroughCache) - cacheKeys
    {
      hide *;
      EvictFacts(cacheKeys);
      ghost var before := writeThroughCache;
      writeThroughCache := writeThroughCache - cacheKeys;
      AfterEvict(before);
    }

    /** The newest event stored for an endpoint tells whether it is healthy and since when. */
    lemma StoredEvents(key: string)
      requires Valid() && key in runs && |runs[key]| > 0
      ensures key in endpoints && TellsOutcome(endpoints[key].logs.events, History(runs[key]))
    {
      assert Replays(endpoints[key], runs[key], clock, maximumNumberOfResults, maximumNumberOfEvents);
      StoredEventsTellOutcome(History(runs[key]), maximumNumberOfResults, maximumNumberOfEvents);
      hide Coherent, TellsOutcome, LogsAfter;
    }

    /** The rows a window query may sum: every answer over the last 48 hours is the one of the full history. */
    ghost predicate Recent(from: Time)
      reads this
    {
      clock - UPTIME_HOURLY_BUFFER <= from
    }

    method GetUptimeByKey(key: string, from: Time, to: Time) returns (r: Outcome<real, StoreError>)
      requires Valid()
      ensures from > to ==> r == Err(InvalidTimeRange)
      ensures from <= to && key !in runs ==> r == Err(EndpointNotFound)
      ensures from <= to && key in runs ==>
        r == Ok(Ratio(WindowSum(Rows(runs[key]), Successes, from, to), WindowSum(Rows(runs[key]), Executions, from, to)))
      ensures from <= to && key in runs && Recent(from) ==>
        var h, lo, hi := History(runs[key]), Unix(from), Unix(to) + 1;
        var successes, checks := |SuccessesIn(h, lo, hi)|, |ChecksIn(h, lo, hi)|;
        && (checks == 0 ==> r == Ok(0.0))
        && (checks > 0 ==> r == Ok(successes as real / checks as real))
    {
      if from > to {
        return Err(InvalidTimeRange);
      }
      if key !in endpoints {
        return Err(EndpointNotFound);
      }
      var m := endpoints[key].uptimes;
      var executions, successes := WindowSum(m, Executions, from, to), WindowSum(m, Successes, from, to);
      assert Replays(endpoints[key], runs[key], clock, maximumNumberOfResults, maximumNumberOfEvents);
      if Recent(from) {
        RecentWindowExact(runs[key], clock, Executions, from, to);
        RecentWindowExact(runs[key], clock, Successes, from, to);
        HistCounts(History(runs[key]), Unix(from), Unix(to) + 1);
      }
      r := Ok(Ratio(successes, executions));
    }

    method GetAverageResponseTimeByKey(key: string, from: Time, to: Time) returns (r: Outcome<int, StoreError>)
      requires Valid()
      ensures from > to ==> r == Err(InvalidTimeRange)
      ensures from <= to && key !in runs ==> r == Err(EndpointNotFound)
      ensures from <= to && key in runs ==>
        r == Ok(Average(WindowSum(Rows(runs[key]), ResponseTime, from, to),
                        WindowSum(Rows(runs[key]), Executions, from, to)))
      ensures from <= to && key in runs && Recent(from) ==>
        var h, lo, hi := History(runs[key]), Unix(from), Unix(to) + 1;
        var checks := |ChecksIn(h, lo, hi)|;
        && (checks == 0 ==> r == Ok(0))
        && (checks > 0 ==> r == Ok(MillisecondsIn(h, lo, hi) / checks))
    {
      if from > to {
        return Err(InvalidTimeRange);
      }
      if key !in endpoints {
        return Err(EndpointNotFound);
      }
      var m := ExecutedRows(endpoints[key].uptimes);
      var executions, responseTime := WindowSum(m, Executions, from, to), WindowSum(m, ResponseTime, from, to);
      assert Replays(endpoints[key], runs[key], clock, maximumNumberOfResults, maximumNumberOfEvents);
      RunExecuted(runs[key], clock);
      AllRowsExecuted(Rows(runs[key]));
      if Recent(from) {
        RecentWindowExact(runs[key], clock, Executions, from, to);
        RecentWindowExact(runs[key], clock, ResponseTime, from, to);
        HistCounts(History(runs[key]), Unix(from), Unix(to) + 1);
      }
      r := Ok(Average(responseTime, executions));
    }

    method GetHourlyAverageResponseTimeByKey(key: string, from: Time, to: Time)
      returns (r: Outcome<map<int, int>, StoreError>)
      requires Valid()
      ensures from > to ==> r == Err(InvalidTimeRange)
      ensures from <= to && key !in runs ==> r == Err(EndpointNotFound)
      ensures from <= to && key in runs ==> r.Ok? && RowAverages(r.value, Rows(runs[key]), from, to)
      ensures from <= to && key in runs && Recent(from) ==>
        HourlyAverages(r.value, History(runs[key]), from, to)
    {
      if from > to {
        return Err(InvalidTimeRange);
      }
      if key !in endpoints {
        return Err(EndpointNotFound);
      }
      assert Replays(endpoints[key], runs[key], clock, maximumNumberOfResults, maximumNumberOfEvents);
      hide AllReplay, Store.CacheValid, Rows;
      var averages := AverageRows(endpoints[key].uptimes, from, to);
      if Recent(from) {
        RecentHourlyAverages(runs[key], clock, averages, from, to);
      }
      r := Ok(averages);
    }

    /** HasEndpointStatusNewerThan */
    method HasEndpointStatusNewerThan(key: string, timestamp: Time) returns (r: Outcome<bool, StoreError>)
      ensures timestamp == ZERO_TIME ==> r == Err(TimestampIsZero)
      ensures timestamp != ZERO_TIME ==>
        r == Ok(key in endpoints && exists i :: 0 <= i < |endpoints[key].logs.results|
                                             && endpoints[key].logs.results[i].timestamp > timestamp)
    {
      if timestamp == ZERO_TIME {
        return Err(TimestampIsZero);
      }
      r := Ok(key in endpoints && exists i :: 0 <= i < |endpoints[key].logs.results|
                                           && endpoints[key].logs.results[i].timestamp > timestamp);
    }

    // ---------------------------------------------------------------- deletions

    lemma RestrictFacts(keys: seq<string>)
      requires Valid()
      ensures maximumNumberOfResults >= 1 && maximumNumberOfEvents >= 1
      ensures AllReplay(map key | key in endpoints && key in keys :: endpoints[key],
                        map key | key in runs && key in keys :: runs[key], clock,
                        maximumNumberOfResults, maximumNumberOfEvents)
    {
      AllReplayRestrict(endpoints, runs, clock, keys, maximumNumberOfResults, maximumNumberOfEvents);
    }

    lemma EmptyCacheIsValid()
      requires AllReplay(endpoints, runs, clock, maximumNumberOfResults, maximumNumberOfEvents)
      requires maximumNumberOfResults >= 1 && maximumNumberOfEvents >= 1
      requires writeThroughCache == map[] && shared == {} && rolledBack == {}
      ensures Valid()
    {
    }

    /** DeleteAllEndpointStatusesNotInKeys: an empty list deletes everything. */
    method DeleteAllEndpointStatusesNotInKeys(keys: seq<string>) returns (deleted: int)
      requires Valid()
      modifies this
      ensures Valid() && clock == old(clock) && asked == {} && rolledBack == {}
      ensures endpoints == map key | key in old(endpoints) && key in keys :: old(endpoints)[key]
      ensures runs == map key | key in old(runs) && key in keys :: old(runs)[key]
      ensures deleted == |old(endpoints)| - |endpoints|
    {
      hide *;
      var before := |endpoints|;
      RestrictFacts(keys);
      endpoints := map key | key in endpoints && key in keys :: endpoints[key];
      runs := map key | key in runs && key in keys :: runs[key];
      writeThroughCache, asked, shared, rolledBack := map[], {}, {}, {};
      deleted := before - |endpoints|;
      EmptyCacheIsValid();
    }

    method Clear()
      requires Valid()
      modifies this
      ensures Valid() && endpoints == map[] && runs == map[] && writeThroughCache == map[]
      ensures asked == {} && rolledBack == {}
    {
      endpoints, writeThroughCache, runs, asked, shared, rolledBack := map[], map[], map[], {}, {}, {};
    }

    // ---------------------------------------------------------------- triggered alerts

    lemma SameRun(runs: map<string, seq<Insertion>>, key: string)
      ensures key in runs ==> runs[key := runs[key]] == runs
    {
    }

    lemma AlertChangeIsSafe(ep: Endpoint, alerts: map<string, AlertRow>)
      requires Valid()
      ensures AllReplay(endpoints[ep.key := TablesIn(endpoints, ep).(alerts := alerts)],
                        runs[ep.key := RunOf(ep.key)], clock, maximumNumberOfResults, maximumNumberOfEvents)
      ensures caching ==>
        Coherent(writeThroughCache, endpoints[ep.key := TablesIn(endpoints, ep).(alerts := alerts)], driver,
                 rolledBack, shared)
      ensures ep.key in endpoints ==> runs[ep.key := RunOf(ep.key)] == runs
    {
      SameRun(runs, ep.key);
      var t := TablesIn(endpoints, ep).(alerts := alerts);
      assert Replays(TablesIn(endpoints, ep), RunOf(ep.key), clock, maximumNumberOfResults, maximumNumberOfEvents);
      AllReplayInsert(endpoints, runs, clock, clock, ep.key, t, RunOf(ep.key),
                      maximumNumberOfResults, maximumNumberOfEvents);
      if caching {
        AlertsAreNotCached(writeThroughCache, endpoints, driver, rolledBack, shared, ep.key, t);
      }
    }

    /** A transaction that changes nothing but an endpoint's alert rows leaves the cache alone. */
    method ChangeAlerts(ep: Endpoint, alerts: map<string, AlertRow>)
      requires Valid()
      modifies this`endpoints, this`runs
      ensures Valid()
      ensures endpoints == old(endpoints)[ep.key := old(TablesIn(endpoints, ep)).(alerts := alerts)]
      ensures AlertsOf(ep.key) == alerts && OthersUnchanged(old(endpoints), endpoints, ep.key)
      ensures runs == old(runs)[ep.key := old(RunOf(ep.key))]
      ensures ep.key in old(endpoints) ==> runs == old(runs)
    {
      hide AllReplay, Coherent;
      AlertChangeIsSafe(ep, alerts);
      var t := TablesIn(endpoints, ep).(alerts := alerts);
      ghost var run := RunOf(ep.key);
      endpoints, runs := endpoints[ep.key := t], runs[ep.key := run];
    }

    /** UpsertTriggeredEndpointAlert: creates the endpoint if it does not exist yet. */
    method UpsertTriggeredEndpointAlert(ep: Endpoint, checksum: string, row: AlertRow)
      requires Valid()
      modifies this`endpoints, this`runs
      ensures Valid()
      ensures AlertsOf(ep.key) == old(AlertsOf(ep.key))[checksum := row]
      ensures endpoints == old(endpoints)[ep.key := old(TablesIn(endpoints, ep)).(alerts := AlertsOf(ep.key))]
      ensures OthersUnchanged(old(endpoints), endpoints, ep.key)
      ensures runs == old(runs)[ep.key := old(RunOf(ep.key))]
    {
      var t := TablesIn(endpoints, ep);
      ChangeAlerts(ep, t.alerts[checksum := row]);
    }

    /** DeleteTriggeredEndpointAlert */
    method DeleteTriggeredEndpointAlert(ep: Endpoint, checksum: string)
      requires Valid()
      modifies this`endpoints, this`runs
      ensures Valid()
      ensures AlertsOf(ep.key) == old(AlertsOf(ep.key)) - {checksum}
      ensures OnlyAlertsChanged(old(endpoints), endpoints, ep.key, AlertsOf(ep.key))
      ensures OthersUnchanged(old(endpoints), endpoints, ep.key)
      ensures runs == old(runs)
    {
      if ep.key in endpoints {
        ChangeAlerts(ep, endpoints[ep.key].alerts - {checksum});
      }
    }

    /** GetTriggeredEndpointAlert */
    method GetTriggeredEndpointAlert(ep: Endpoint, checksum: string) returns (r: Option<AlertRow>)
      ensures r == if checksum in AlertsOf(ep.key) then Some(AlertsOf(ep.key)[checksum]) else None
    {
      if ep.key in endpoints && checksum in endpoints[ep.key].alerts {
        r := Some(endpoints[ep.key].alerts[checksum]);
      } else {
        r := None;
      }
    }

    /** DeleteAllTriggeredAlertsNotInChecksumsByEndpoint: an empty list deletes them all. */
    method DeleteAllTriggeredAlertsNotInChecksumsByEndpoint(ep: Endpoint, checksums: seq<string>) returns (deleted: int)
      requires Valid()
      modifies this`endpoints, this`runs
      ensures Valid()
      ensures AlertsOf(ep.key) == map c | c in old(AlertsOf(ep.key)) && c in checksums :: old(AlertsOf(ep.key))[c]
      ensures OnlyAlertsChanged(old(endpoints), endpoints, ep.key, AlertsOf(ep.key))
      ensures OthersUnchanged(old(endpoints), endpoints, ep.key)
      ensures runs == old(runs) && endpoints.Keys == old(endpoints).Keys
      ensures deleted == |old(AlertsOf(ep.key))| - |AlertsOf(ep.key)|
    {
      deleted := 0;
      if ep.key in endpoints {
        var alerts := endpoints[ep.key].alerts;
        var kept := map c | c in alerts && c in checksums :: alerts[c];
        ChangeAlerts(ep, kept);
        deleted := |alerts| - |kept|;
      }
    }
  }
}
