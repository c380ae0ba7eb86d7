/** The tables of the SQL store as values, and when a write-through cache agrees with them
    (storage/store/sql/sql.go). */
module SqlTables {
  import opened Answers
  import opened Clock
  import opened Endpoints
  import opened Logs
  import opened Outcomes
  import opened Paging
  import opened SqlLogs
  import opened SqlUptime
  import opened Text
  import opened Uptime
  import CacheKey

  /** A row of endpoint_alerts_triggered. */
  datatype AlertRow = AlertRow(resolveKey: string, numberOfSuccessesInARow: int)

  /** Everything stored for one endpoint; deleting the endpoint deletes it all. */
  datatype Tables = Tables(group: string, name: string, logs: LogTables, uptimes: Table, alerts: map<string, AlertRow>)

  type Database = map<string, Tables>

  type Cache = map<string, Status>

  ghost predicate OthersUnchanged(before: Database, after: Database, key: string) {
    forall k :: k != key ==> (k in after <==> k in before) && (k in after ==> after[k] == before[k])
  }

  /** Nothing but the endpoint's alert rows may differ. */
  ghost predicate OnlyAlertsChanged(before: Database, after: Database, key: string, alerts: map<string, AlertRow>) {
    after == if key in before then before[key := before[key].(alerts := alerts)] else before
  }

  function NewTables(group: string, name: string): Tables {
    Tables(group, name, EMPTY_LOGS, map[], map[])
  }

  /** All that happened happened to the endpoint's alert rows, apart from creating it. */
  ghost predicate OnlyAlertsTouched(before: Database, after: Database, ep: Endpoint) {
    && OthersUnchanged(before, after, ep.key)
    && (ep.key in before ==> ep.key in after && after[ep.key] == before[ep.key].(alerts := after[ep.key].alerts))
    && (ep.key !in before && ep.key in after ==>
          after[ep.key] == NewTables(ep.group, ep.name).(alerts := after[ep.key].alerts))
  }

  /** Of the endpoints in the list nothing but alert rows may differ, the others are gone, and none is new. */
  ghost predicate OnlyListedKept(before: Database, after: Database, keys: seq<string>) {
    && (forall key :: key in after ==> key in before && key in keys)
    && forall key :: key in before && key in keys ==>
         key in after && after[key] == before[key].(alerts := after[key].alerts)
  }

  lemma StillOnlyListed(before: Database, middle: Database, after: Database, keys: seq<string>, ep: Endpoint)
    requires OnlyListedKept(before, middle, keys) && OnlyAlertsTouched(middle, after, ep)
    requires ep.key in after ==> ep.key in middle
    ensures OnlyListedKept(before, after, keys)
  {
  }

  /** The tables of an endpoint, or the ones its first transaction creates. */
  function TablesIn(endpoints: Database, ep: Endpoint): Tables {
    if ep.key in endpoints then endpoints[ep.key] else NewTables(ep.group, ep.name)
  }

  /** What an Insert that commits makes of them. */
  function Inserted(t: Tables, r: Result, now: Time, maximumResults: nat, maximumEvents: nat): Tables {
    t.(logs := LogsAfterInsert(t.logs, r, maximumResults, maximumEvents), uptimes := AfterInsert(t.uptimes, r, now))
  }

  // ---------------------------------------------------------------- requests

  /** A page is asked for whose offset is negative. */
  predicate HasNegativeOffset(page: Int, pageSize: Int) {
    pageSize > 0 && Offset(page, pageSize) < 0
  }

  /** PostgreSQL refuses a negative offset, and every later query of the transaction with it. */
  predicate EventsAbort(p: Params, driver: Driver) {
    driver == Postgres && HasNegativeOffset(p.eventsPage, p.eventsPageSize)
  }

  predicate Aborts(p: Params, driver: Driver) {
    EventsAbort(p, driver) || (driver == Postgres && HasNegativeOffset(p.resultsPage, p.resultsPageSize))
  }

  /** No request for another endpoint can have the cache key, by CacheKey.SameCacheKey, unless it has a twin itself. */
  predicate HasNoTwin(p: Params) {
    p.eventsPage >= 0 || p.eventsPage == MIN_INT
  }

  /** A request for which a cache makes no difference. */
  predicate Harmless(p: Params, driver: Driver) {
    HasNoTwin(p) && !Aborts(p, driver)
  }

  lemma SameHarmlessRequest(key1: string, p1: Params, key2: string, p2: Params)
    requires HasNoTwin(p1) && HasNoTwin(p2) && CacheKey.Generate(key1, p1) == CacheKey.Generate(key2, p2)
    ensures key1 == key2 && p1 == p2
  {
    CacheKey.SameCacheKey(key1, p1, key2, p2);
  }

  /** The status that getEndpointStatusByKey builds without a cache. */
  function ReadStatus(t: Tables, key: string, p: Params, driver: Driver): Status {
    Status(key, t.group, t.name,
           if EventsAbort(p, driver) then [] else ReadResults(t.logs.results, driver, p.resultsPage, p.resultsPageSize),
           ReadEvents(t.logs.events, driver, p.eventsPage, p.eventsPageSize))
  }

  /** The uncached answer of GetEndpointStatusByKey: an aborted transaction cannot be committed. */
  function UncachedAnswer(endpoints: Database, key: string, p: Params, driver: Driver): Outcome<Status, StoreError> {
    if key !in endpoints then Err(EndpointNotFound)
    else if Aborts(p, driver) then Err(TransactionAborted)
    else Ok(ReadStatus(endpoints[key], key, p, driver))
  }

  lemma NoNegativeOffset(page: Int, pageSize: Int)
    requires page >= 1 && pageSize >= 1 && page * pageSize <= MAX_INT
    ensures !HasNegativeOffset(page, pageSize)
  {
    OffsetWithoutOverflow(page, pageSize);
    NonNegativeProduct(page, pageSize);
  }

  /** A status holds the endpoint's own group and name, the results page by page from the newest, and the events page
      by page from the oldest. */
  lemma StatusIsPages(t: Tables, key: string, p: Params, driver: Driver, from: nat, to: nat)
    requires p.resultsPage >= 1 && p.resultsPageSize >= 1 && p.resultsPage * p.resultsPageSize <= MAX_INT
    requires p.eventsPage >= 1 && p.eventsPageSize >= 1 && p.eventsPage * p.eventsPageSize <= MAX_INT
    requires from == (p.eventsPage - 1) * p.eventsPageSize && to == from + p.eventsPageSize
    ensures var status := ReadStatus(t, key, p, driver);
            && status.key == key && status.group == t.group && status.name == t.name
            && status.results == ResultsOf(Page(t.logs.results, p.resultsPage, p.resultsPageSize))
            && status.events == if |t.logs.events| <= from then []
                                else if |t.logs.events| <= to then t.logs.events[from..] else t.logs.events[from..to]
  {
    NoNegativeOffset(p.eventsPage, p.eventsPageSize);
    assert ReadStatus(t, key, p, driver)
        == Status(key, t.group, t.name, ReadResults(t.logs.results, driver, p.resultsPage, p.resultsPageSize),
                  ReadEvents(t.logs.events, driver, p.eventsPage, p.eventsPageSize));
    hide *;
    ReadEventsIsPage(t.logs.events, driver, p.eventsPage, p.eventsPageSize, from, to);
    ReadResultsIsPage(t.logs.results, driver, p.resultsPage, p.resultsPageSize);
  }

  // ---------------------------------------------------------------- coherence

  /** Some request generates the cache key. */
  ghost predicate IsGenerated(cacheKey: string) {
    exists key, p: Params :: CacheKey.Generate(key, p) == cacheKey
  }

  /** A cache entry is the status that is built for the request. */
  ghost predicate FreshFor(cacheKey: string, status: Status, endpoints: Database, driver: Driver, key: string, p: Params)
  {
    CacheKey.Generate(key, p) == cacheKey && key in endpoints && status == ReadStatus(endpoints[key], key, p, driver)
  }

  /** It is so for some request with its cache key. */
  ghost predicate FreshForSome(cacheKey: string, status: Status, endpoints: Database, driver: Driver) {
    exists key, p: Params :: FreshFor(cacheKey, status, endpoints, driver, key, p)
  }

  /** It is so for every request with its cache key that has no twin. */
  ghost predicate Fresh(cacheKey: string, status: Status, endpoints: Database, driver: Driver) {
    forall key, p: Params :: HasNoTwin(p) && CacheKey.Generate(key, p) == cacheKey ==>
      FreshFor(cacheKey, status, endpoints, driver, key, p)
  }

  /** Every entry outside the stale set is fresh for some request; unless a request with a twin was ever made under its
      cache key, it is fresh for all others. */
  ghost predicate Coherent(cache: Cache, endpoints: Database, driver: Driver, stale: set<string>, shared: set<string>) {
    forall cacheKey :: cacheKey in cache ==>
      && IsGenerated(cacheKey)
      && (cacheKey !in stale ==>
            && FreshForSome(cacheKey, cache[cacheKey], endpoints, driver)
            && (cacheKey !in shared ==> Fresh(cacheKey, cache[cacheKey], endpoints, driver)))
  }

  /** Forgetting that some entries are fresh. */
  lemma MoreStale(cache: Cache, endpoints: Database, driver: Driver, stale: set<string>, more: set<string>,
                  shared: set<string>)
    requires Coherent(cache, endpoints, driver, stale, shared) && stale <= more
    ensures Coherent(cache, endpoints, driver, more, shared)
  {
  }

  lemma DropStale(cache: Cache, endpoints: Database, driver: Driver, stale: set<string>, shared: set<string>,
                  cacheKey: string)
    requires Coherent(cache, endpoints, driver, stale, shared)
    ensures Coherent(cache - {cacheKey}, endpoints, driver, stale - {cacheKey}, shared)
  {
  }

  /** The entries an Insert for the endpoint refreshes. */
  function KeysByPattern(cache: Cache, endpointKey: string): set<string> {
    set cacheKey | cacheKey in cache && CacheKey.MatchesPattern(cacheKey, endpointKey)
  }

  /** A hit is the status built for the request, as long as twins stay out of it. */
  lemma HitIsFresh(cache: Cache, endpoints: Database, driver: Driver, stale: set<string>, shared: set<string>,
                   key: string, p: Params)
    requires Coherent(cache, endpoints, driver, stale, shared)
    requires CacheKey.Generate(key, p) in cache && CacheKey.Generate(key, p) !in stale
    ensures var cacheKey := CacheKey.Generate(key, p);
            && FreshForSome(cacheKey, cache[cacheKey], endpoints, driver)
            && (HasNoTwin(p) && cacheKey !in shared ==>
                  key in endpoints && cache[cacheKey] == ReadStatus(endpoints[key], key, p, driver))
  {
    var cacheKey := CacheKey.Generate(key, p);
    if HasNoTwin(p) && cacheKey !in shared {
      assert Fresh(cacheKey, cache[cacheKey], endpoints, driver);
      assert FreshFor(cacheKey, cache[cacheKey], endpoints, driver, key, p);
    }
  }

  /** Every hit that the request can have, in any cache that was filled without twins and rolled back inserts, is its
      uncached answer. */
  ghost predicate HitsAreRight(key: string, p: Params, driver: Driver) {
    forall cache: Cache, endpoints: Database ::
      Coherent(cache, endpoints, driver, {}, {}) && CacheKey.Generate(key, p) in cache ==>
        Ok(cache[CacheKey.Generate(key, p)]) == UncachedAnswer(endpoints, key, p, driver)
  }

  /** An entry is fresh when it is stored, under the cache key of the request it was built for. */
  lemma RefreshedEntryIsFresh(endpoints: Database, driver: Driver, key: string, p: Params)
    requires key in endpoints
    ensures var cacheKey, status := CacheKey.Generate(key, p), ReadStatus(endpoints[key], key, p, driver);
            && IsGenerated(cacheKey) && FreshForSome(cacheKey, status, endpoints, driver)
            && (HasNoTwin(p) ==> Fresh(cacheKey, status, endpoints, driver))
  {
    var cacheKey, status := CacheKey.Generate(key, p), ReadStatus(endpoints[key], key, p, driver);
    assert FreshFor(cacheKey, status, endpoints, driver, key, p);
    if HasNoTwin(p) {
      forall k, q: Params | HasNoTwin(q) && CacheKey.Generate(k, q) == cacheKey ensures k == key && q == p {
        SameHarmlessRequest(k, q, key, p);
      }
    }
  }

  /** What was built before the transaction failed answers the next time. */
  lemma AbortedHit(key: string, p: Params, driver: Driver)
    requires HasNoTwin(p) && Aborts(p, driver)
    ensures !HitsAreRight(key, p, driver)
  {
    var cacheKey := CacheKey.Generate(key, p);
    var endpoints: Database := map[key := NewTables("", "")];
    var cache: Cache := map[cacheKey := ReadStatus(endpoints[key], key, p, driver)];
    RefreshedEntryIsFresh(endpoints, driver, key, p);
    assert Coherent(cache, endpoints, driver, {}, {});
  }

  /** An entry of the twin answers in its place. */
  lemma TwinsHit(key: string, p: Params, driver: Driver)
    requires MIN_INT < p.eventsPage < 0
    ensures !HitsAreRight(key, p, driver)
  {
    var cacheKey := CacheKey.Generate(key, p);
    var twinKey, twin := key + "-", Params(-p.eventsPage, p.eventsPageSize, p.resultsPage, p.resultsPageSize);
    var endpoints: Database := map[twinKey := NewTables("", "")];
    var cache: Cache := map[cacheKey := ReadStatus(endpoints[twinKey], twinKey, twin, driver)];
    CacheKey.SameCacheKey(key, p, twinKey, twin);
    RefreshedEntryIsFresh(endpoints, driver, twinKey, twin);
    assert Coherent(cache, endpoints, driver, {}, {});
    assert key !in endpoints;
  }

  /** Exactly the harmless requests are safe. */
  lemma HitsAreRightExactly(key: string, p: Params, driver: Driver)
    ensures HitsAreRight(key, p, driver) <==> Harmless(p, driver)
  {
    var cacheKey := CacheKey.Generate(key, p);
    if Harmless(p, driver) {
      forall cache: Cache, endpoints: Database | Coherent(cache, endpoints, driver, {}, {}) && cacheKey in cache
        ensures Ok(cache[cacheKey]) == UncachedAnswer(endpoints, key, p, driver)
      {
        HitIsFresh(cache, endpoints, driver, {}, {}, key, p);
      }
    } else if HasNoTwin(p) {
      AbortedHit(key, p, driver);
    } else {
      TwinsHit(key, p, driver);
    }
  }

  lemma OthersStayFresh(cacheKey: string, status: Status, before: Database, after: Database, driver: Driver, key: string)
    requires FreshForSome(cacheKey, status, before, driver) && !CacheKey.MatchesPattern(cacheKey, key)
    requires OthersUnchanged(before, after, key)
    ensures FreshForSome(cacheKey, status, after, driver)
    ensures Fresh(cacheKey, status, before, driver) ==> Fresh(cacheKey, status, after, driver)
  {
    forall k, p: Params | CacheKey.Generate(k, p) == cacheKey
      ensures FreshFor(cacheKey, status, before, driver, k, p) ==> FreshFor(cacheKey, status, after, driver, k, p)
    {
      CacheKey.PatternCatchesEndpoint(k, p);
    }
    var k, p: Params :| FreshFor(cacheKey, status, before, driver, k, p);
    assert FreshFor(cacheKey, status, after, driver, k, p);
  }

  /** Whatever happens to one endpoint's tables, only entries that match its pattern can become stale, including entries
      of endpoints whose key merely starts with it. */
  lemma OnlyPatternGoesStale(cache: Cache, before: Database, after: Database, driver: Driver, stale: set<string>,
                             shared: set<string>, key: string)
    requires Coherent(cache, before, driver, stale, shared) && OthersUnchanged(before, after, key)
    ensures Coherent(cache, after, driver, KeysByPattern(cache, key) + stale, shared)
  {
    forall cacheKey | cacheKey in cache && cacheKey !in KeysByPattern(cache, key) && cacheKey !in stale
      ensures FreshForSome(cacheKey, cache[cacheKey], after, driver)
      ensures cacheKey !in shared ==> Fresh(cacheKey, cache[cacheKey], after, driver)
    {
      OthersStayFresh(cacheKey, cache[cacheKey], before, after, driver, key);
    }
  }

  /** Storing an entry, and losing any others. */
  lemma StoredEntryIsCoherent(cache: Cache, endpoints: Database, driver: Driver, stale: set<string>, shared: set<string>,
                              key: string, p: Params, evicted: set<string>)
    requires Coherent(cache, endpoints, driver, stale, shared) && key in endpoints
    requires HasNoTwin(p) || CacheKey.Generate(key, p) in shared
    ensures var cacheKey := CacheKey.Generate(key, p);
            Coherent(cache[cacheKey := ReadStatus(endpoints[key], key, p, driver)] - evicted, endpoints, driver,
                     stale - {cacheKey}, shared)
  {
    RefreshedEntryIsFresh(endpoints, driver, key, p);
  }

  /** Alert rows are not part of a status: changing them, or creating an endpoint that has no entry yet, keeps every
      entry fresh. */
  lemma AlertsAreNotCached(cache: Cache, endpoints: Database, driver: Driver, stale: set<string>, shared: set<string>,
                           key: string, t: Tables)
    requires Coherent(cache, endpoints, driver, stale, shared)
    requires key in endpoints ==> t == endpoints[key].(alerts := t.alerts)
    ensures Coherent(cache, endpoints[key := t], driver, stale, shared)
  {
    forall cacheKey, k, p: Params | cacheKey in cache && FreshFor(cacheKey, cache[cacheKey], endpoints, driver, k, p)
      ensures FreshFor(cacheKey, cache[cacheKey], endpoints[key := t], driver, k, p)
    {
    }
    forall cacheKey | cacheKey in cache && cacheKey !in stale
      ensures FreshForSome(cacheKey, cache[cacheKey], endpoints[key := t], driver)
    {
      var k, p: Params :| FreshFor(cacheKey, cache[cacheKey], endpoints, driver, k, p);
      assert FreshFor(cacheKey, cache[cacheKey], endpoints[key := t], driver, k, p);
    }
  }

  // ---------------------------------------------------------------- entries that block inserts

  /** Refreshing the entry repeats a request that aborts the transaction. */
  predicate IsAborting(cacheKey: string, stored: set<string>, driver: Driver) {
    var extracted := CacheKey.Extract(cacheKey);
    extracted.Some? && extracted.value.0 in stored && Aborts(extracted.value.1, driver)
  }

  /** An Insert for the endpoint would refresh such an entry. */
  predicate IsBlocked(cache: Cache, endpointKey: string, stored: set<string>, driver: Driver) {
    exists cacheKey :: cacheKey in KeysByPattern(cache, endpointKey) && IsAborting(cacheKey, stored, driver)
  }

  /** An entry that aborted the transaction is cached again, unless it was pushed out at once. */
  ghost predicate BlockerIsBack(before: Cache, after: Cache, endpointKey: string, stored: set<string>, driver: Driver,
                                evicted: set<string>)
  {
    exists cacheKey :: && cacheKey in KeysByPattern(before, endpointKey) && IsAborting(cacheKey, stored, driver)
                       && (cacheKey !in evicted ==> cacheKey in after)
  }

  /** What blocked an Insert blocks the next one, as long as it is not pushed out. */
  lemma StaysBlocked(before: Cache, after: Cache, endpointKey: string, stored: set<string>, driver: Driver,
                     evicted: set<string>)
    requires BlockerIsBack(before, after, endpointKey, stored, driver, evicted)
    requires evicted !! KeysByPattern(before, endpointKey)
    ensures IsBlocked(after, endpointKey, stored, driver)
  {
    var cacheKey :| && cacheKey in KeysByPattern(before, endpointKey) && IsAborting(cacheKey, stored, driver)
                    && (cacheKey !in evicted ==> cacheKey in after);
    assert cacheKey in KeysByPattern(after, endpointKey);
  }

  /** No entry is new, and those outside the pattern are as they were, as far as they were not pushed out. */
  ghost predicate OnlyPatternRefreshed(before: Cache, after: Cache, endpointKey: string, evicted: set<string>) {
    && after.Keys <= before.Keys
    && forall k :: k in before && !CacheKey.MatchesPattern(k, endpointKey) ==>
         (k !in evicted ==> k in after) && (k in after ==> after[k] == before[k])
  }

  /** Deleting an entry of the pattern and perhaps storing it again, which may push out others. */
  ghost predicate OneRefreshed(before: Cache, after: Cache, cacheKey: string, evicted: set<string>) {
    && after.Keys <= before.Keys + {cacheKey}
    && (forall k :: k in before && k != cacheKey && k !in evicted ==> k in after)
    && forall k :: k in after && k != cacheKey ==> after[k] == before[k]
  }

  lemma OnlyPatternStep(before: Cache, middle: Cache, after: Cache, endpointKey: string, cacheKey: string,
                        evicted: set<string>)
    requires OnlyPatternRefreshed(before, middle, endpointKey, evicted) && OneRefreshed(middle, after, cacheKey, evicted)
    requires cacheKey in KeysByPattern(before, endpointKey)
    ensures OnlyPatternRefreshed(before, after, endpointKey, evicted)
  {
  }

  /** How far the loop over the entries of the pattern has come: `rest` is still to be refreshed. */
  ghost predicate Refreshing(start: Cache, cache: Cache, endpointKey: string, rest: set<string>, aborted: bool,
                             stored: set<string>, driver: Driver, evicted: set<string>)
  {
    && rest <= KeysByPattern(start, endpointKey)
    && (forall cacheKey :: cacheKey in rest ==> IsGenerated(cacheKey))
    && OnlyPatternRefreshed(start, cache, endpointKey, evicted)
    && (aborted <==> exists cacheKey :: cacheKey in KeysByPattern(start, endpointKey) - rest
                                        && IsAborting(cacheKey, stored, driver))
    && (aborted ==> exists cacheKey :: cacheKey in KeysByPattern(start, endpointKey) - rest
                                       && IsAborting(cacheKey, stored, driver)
                                       && (cacheKey !in evicted ==> cacheKey in cache))
  }

  lemma RefreshingStarts(start: Cache, endpointKey: string, stored: set<string>, driver: Driver, evicted: set<string>)
    requires forall cacheKey :: cacheKey in start ==> IsGenerated(cacheKey)
    ensures Refreshing(start, start, endpointKey, KeysByPattern(start, endpointKey), false, stored, driver, evicted)
  {
  }

  lemma DeletedAndRefreshed(cache: Cache, after: Cache, cacheKey: string, evicted: set<string>)
    requires OneRefreshed(cache - {cacheKey}, after, cacheKey, evicted)
    ensures OneRefreshed(cache, after, cacheKey, evicted)
  {
    assert (cache - {cacheKey}).Keys <= cache.Keys;
  }

  lemma RefreshingStep(start: Cache, cache: Cache, after: Cache, endpointKey: string, rest: set<string>, cacheKey: string,
                       aborted: bool, abortedNow: bool, stored: set<string>, driver: Driver, evicted: set<string>)
    requires Refreshing(start, cache, endpointKey, rest, aborted, stored, driver, evicted) && cacheKey in rest
    requires OneRefreshed(cache, after, cacheKey, evicted)
    requires abortedNow <==> aborted || IsAborting(cacheKey, stored, driver)
    requires !aborted && abortedNow && cacheKey !in evicted ==> cacheKey in after
    ensures Refreshing(start, after, endpointKey, rest - {cacheKey}, abortedNow, stored, driver, evicted)
  {
    hide IsAborting, IsGenerated;
    OnlyPatternStep(start, cache, after, endpointKey, cacheKey, evicted);
    hide OnlyPatternRefreshed, KeysByPattern;
    var pattern := KeysByPattern(start, endpointKey);
    assert pattern - (rest - {cacheKey}) == pattern - rest + {cacheKey};
    if aborted {
      var k :| && k in pattern - rest && IsAborting(k, stored, driver) && (k !in evicted ==> k in cache);
      assert k != cacheKey && (k !in evicted ==> k in after);
    }
  }

  lemma RefreshingEnds(start: Cache, cache: Cache, endpointKey: string, aborted: bool, stored: set<string>,
                       driver: Driver, evicted: set<string>)
    requires Refreshing(start, cache, endpointKey, {}, aborted, stored, driver, evicted)
    ensures aborted <==> IsBlocked(start, endpointKey, stored, driver)
    ensures aborted ==> BlockerIsBack(start, cache, endpointKey, stored, driver, evicted)
    ensures OnlyPatternRefreshed(start, cache, endpointKey, evicted)
  {
    hide IsAborting, OnlyPatternRefreshed, KeysByPattern;
    assert KeysByPattern(start, endpointKey) - {} == KeysByPattern(start, endpointKey);
  }

  lemma CoherentIsGenerated(cache: Cache, endpoints: Database, driver: Driver, stale: set<string>, shared: set<string>)
    requires Coherent(cache, endpoints, driver, stale, shared)
    ensures forall cacheKey :: cacheKey in cache ==> IsGenerated(cacheKey)
  {
  }

  /** The status that refreshing an entry builds, if its cache key can be read back as a request for a stored endpoint. */
  function RefreshedStatus(cacheKey: string, db: Database, driver: Driver): Option<Status> {
    match CacheKey.Extract(cacheKey)
    case None => None
    case Some((key, p)) => if key in db then Some(ReadStatus(db[key], key, p, driver)) else None
  }

  /** Of the given entries exactly those are there that could be built again and were not pushed out, as built from the
      tables. */
  ghost predicate Rebuilt(cache: Cache, cacheKeys: set<string>, db: Database, driver: Driver, evicted: set<string>) {
    forall k :: k in cacheKeys ==>
      && (k in cache <==> k !in evicted && RefreshedStatus(k, db, driver).Some?)
      && (k in cache ==> Some(cache[k]) == RefreshedStatus(k, db, driver))
  }

  /** The cache after refreshing an entry that was deleted before. */
  function WithRefreshed(cache: Cache, cacheKey: string, db: Database, driver: Driver, evicted: set<string>): Cache {
    match RefreshedStatus(cacheKey, db, driver)
    case None => cache
    case Some(status) => cache[cacheKey := status] - evicted
  }

  lemma RebuiltStep(cache: Cache, cacheKeys: set<string>, cacheKey: string, db: Database, driver: Driver,
                    evicted: set<string>)
    requires Rebuilt(cache, cacheKeys, db, driver, evicted)
    ensures Rebuilt(WithRefreshed(cache - {cacheKey}, cacheKey, db, driver, evicted), cacheKeys + {cacheKey}, db, driver,
                    evicted)
  {
    hide RefreshedStatus;
  }

  /** Write-through: once its endpoint's entries are rebuilt, a request that was cached before is answered from the cache
      with the status of the tables as they are now. */
  lemma WriteThrough(before: Cache, cache: Cache, key: string, p: Params, db: Database, driver: Driver,
                     evicted: set<string>)
    requires Rebuilt(cache, KeysByPattern(before, key), db, driver, evicted)
    requires CacheKey.Generate(key, p) in before && CacheKey.Generate(key, p) !in evicted
    requires p.NonNegative() && key in db
    ensures CacheKey.Generate(key, p) in cache
    ensures cache[CacheKey.Generate(key, p)] == ReadStatus(db[key], key, p, driver)
  {
    CacheKey.PatternCatchesEndpoint(key, p);
    CacheKey.CacheKeyRoundTrip(key, p);
    hide CacheKey.Generate, CacheKey.Extract, CacheKey.MatchesPattern, ReadStatus;
  }

  ghost predicate IsHarmless(cacheKey: string, driver: Driver) {
    exists key, p: Params :: CacheKey.Generate(key, p) == cacheKey && Harmless(p, driver)
  }

  /** Every entry was stored for a harmless request. */
  ghost predicate AllHarmless(cacheKeys: set<string>, driver: Driver) {
    forall cacheKey :: cacheKey in cacheKeys ==> IsHarmless(cacheKey, driver)
  }

  lemma FewerHarmless(cacheKeys: set<string>, fewer: set<string>, driver: Driver)
    requires AllHarmless(cacheKeys, driver) && fewer <= cacheKeys
    ensures AllHarmless(fewer, driver)
  {
  }

  /** Harmless entries never block. */
  lemma HarmlessDoesNotAbort(cacheKey: string, stored: set<string>, driver: Driver)
    requires IsHarmless(cacheKey, driver)
    ensures !IsAborting(cacheKey, stored, driver)
  {
    var extracted := CacheKey.Extract(cacheKey);
    if extracted.Some? {
      var key, p: Params :| CacheKey.Generate(key, p) == cacheKey && Harmless(p, driver);
      CacheKey.ExtractOfGenerated(key, p);
      SameHarmlessRequest(key, p, extracted.value.0, extracted.value.1);
    }
  }

  /** The entry that a request leaves behind blocks the inserts of its endpoint exactly if the request aborts and its
      cache key can be read back. */
  lemma BlocksExactly(key: string, p: Params, stored: set<string>, driver: Driver)
    requires p.NonNegative() && key in stored
    ensures IsAborting(CacheKey.Generate(key, p), stored, driver) <==> Aborts(p, driver)
  {
    CacheKey.CacheKeyRoundTrip(key, p);
  }

  // ---------------------------------------------------------------- tables as replays

  /** Each endpoint's tables are what a replay of its run leaves behind. */
  ghost predicate Replays(t: Tables, run: seq<Insertion>, clock: Time, maximumResults: nat, maximumEvents: nat) {
    && ValidRun(run, clock)
    && t.logs == LogsAfter(History(run), maximumResults, maximumEvents)
    && t.uptimes == Rows(run)
  }

  ghost predicate AllReplay(endpoints: Database, runs: map<string, seq<Insertion>>, clock: Time,
                            maximumResults: nat, maximumEvents: nat) {
    && runs.Keys == endpoints.Keys
    && forall key :: key in endpoints ==> Replays(endpoints[key], runs[key], clock, maximumResults, maximumEvents)
  }

  lemma LongerRun(run: seq<Insertion>, clock: Time, r: Result, now: Time)
    requires ValidRun(run, clock) && clock <= now && r.timestamp <= now
    ensures var run' := run + [Insertion(r, now)];
            ValidRun(run', now) && History(run') == History(run) + [r] && Rows(run') == AfterInsert(Rows(run), r, now)
  {
    hide AfterInsert;
    var run' := run + [Insertion(r, now)];
    assert run'[..|run|] == run;
    assert run'[|run|] == Insertion(r, now);
  }

  lemma ReplaysInsert(t: Tables, t': Tables, run: seq<Insertion>, clock: Time, r: Result, now: Time,
                                         maximumResults: nat, maximumEvents: nat)
    requires Replays(t, run, clock, maximumResults, maximumEvents)
    requires clock <= now && r.timestamp <= now
    requires t'.logs == LogsAfterInsert(t.logs, r, maximumResults, maximumEvents)
    requires t'.uptimes == AfterInsert(t.uptimes, r, now)
    ensures Replays(t', run + [Insertion(r, now)], now, maximumResults, maximumEvents)
  {
    LongerRun(run, clock, r, now);
    assert (History(run) + [r])[..|run|] == History(run);
    hide LogsAfterInsert, AfterInsert;
  }

  lemma ValidRunLater(run: seq<Insertion>, clock: Time, now: Time)
    requires ValidRun(run, clock) && clock <= now
    ensures ValidRun(run, now)
  {
  }

  lemma AllReplayLater(endpoints: Database, runs: map<string, seq<Insertion>>, clock: Time, now: Time,
                       maximumResults: nat, maximumEvents: nat)
    requires AllReplay(endpoints, runs, clock, maximumResults, maximumEvents) && clock <= now
    ensures AllReplay(endpoints, runs, now, maximumResults, maximumEvents)
  {
    forall key | key in endpoints ensures Replays(endpoints[key], runs[key], now, maximumResults, maximumEvents) {
      assert Replays(endpoints[key], runs[key], clock, maximumResults, maximumEvents);
      ValidRunLater(runs[key], clock, now);
    }
  }

  lemma AllReplayRestrict(endpoints: Database, runs: map<string, seq<Insertion>>, clock: Time,
                                             keys: seq<string>, maximumResults: nat, maximumEvents: nat)
    requires AllReplay(endpoints, runs, clock, maximumResults, maximumEvents)
    ensures AllReplay(map key | key in endpoints && key in keys :: endpoints[key],
                      map key | key in runs && key in keys :: runs[key], clock, maximumResults, maximumEvents)
  {
  }

  /** One endpoint's insert leaves every other endpoint a replay of its own run. */
  lemma AllReplayInsert(endpoints: Database, runs: map<string, seq<Insertion>>, clock: Time, now: Time,
                                           key: string, t': Tables, run': seq<Insertion>,
                                           maximumResults: nat, maximumEvents: nat)
    requires AllReplay(endpoints, runs, clock, maximumResults, maximumEvents) && clock <= now
    requires Replays(t', run', now, maximumResults, maximumEvents)
    ensures AllReplay(endpoints[key := t'], runs[key := run'], now, maximumResults, maximumEvents)
  {
    forall k | k in endpoints && k != key
      ensures Replays(endpoints[k], runs[k], now, maximumResults, maximumEvents)
    {
      assert Replays(endpoints[k], runs[k], clock, maximumResults, maximumEvents);
      ValidRunLater(runs[k], clock, now);
    }
  }

  /** Time.IsZero: the first instant of the year 1. */
  const ZERO_TIME: Time := -62135596800 * SECOND
}
