/** Whole histories of the SQL store with and without its cache (storage/store/sql/sql.go). */
module SqlCaching {
  import opened Answers
  import opened Clock
  import opened Endpoints
  import opened Outcomes
  import opened Paging
  import opened SqlLogs
  import opened SqlStore
  import opened SqlTables
  import opened Text
  import CacheKey

  /** A call, with the entries that the cache pushes out meanwhile. */
  datatype Operation =
    | InsertOne(ep: Endpoint, result: Result, now: Time, evicted: set<string>)
    | ReadOne(key: string, p: Params, evicted: set<string>)
    | Expire(cacheKeys: set<string>)

  datatype Answer = Inserted(err: Option<StoreError>) | Answered(r: Outcome<Status, StoreError>) | Nothing

  /** The clock never goes back and no result is stamped in the future. */
  ghost predicate ValidHistory(ops: seq<Operation>, start: Time) {
    && (forall i :: 0 <= i < |ops| && ops[i].InsertOne? ==> start <= ops[i].now && ops[i].result.timestamp <= ops[i].now)
    && forall i, j :: 0 <= i < j < |ops| && ops[i].InsertOne? && ops[j].InsertOne? ==> ops[i].now <= ops[j].now
  }

  ghost predicate HarmlessHistory(ops: seq<Operation>, driver: Driver) {
    forall i :: 0 <= i < |ops| && ops[i].ReadOne? ==> Harmless(ops[i].p, driver)
  }

  /** The tables when every Insert commits. */
  function IdealTables(ops: seq<Operation>, maximumResults: nat, maximumEvents: nat): Database {
    if ops == [] then map[]
    else
      var before := IdealTables(ops[..|ops| - 1], maximumResults, maximumEvents);
      match ops[|ops| - 1]
      case InsertOne(ep, result, now, _) =>
        before[ep.key := SqlTables.Inserted(TablesIn(before, ep), result, now, maximumResults, maximumEvents)]
      case _ => before
  }

  /** The answer when every Insert commits and every read goes to the tables. */
  function IdealAnswer(before: Database, op: Operation, driver: Driver): Answer {
    match op
    case InsertOne(_, _, _, _) => Inserted(None)
    case ReadOne(key, p, _) => Answered(UncachedAnswer(before, key, p, driver))
    case Expire(_) => Nothing
  }

  function IdealAnswers(ops: seq<Operation>, driver: Driver, maximumResults: nat, maximumEvents: nat): (a: seq<Answer>)
    ensures |a| == |ops|
  {
    if ops == [] then []
    else
      var front := ops[..|ops| - 1];
      IdealAnswers(front, driver, maximumResults, maximumEvents)
        + [IdealAnswer(IdealTables(front, maximumResults, maximumEvents), ops[|ops| - 1], driver)]
  }

  /** No cache, or only harmless requests. */
  ghost predicate Transparent(store: Store)
    reads store
  {
    !store.caching || store.OnlyHarmless()
  }

  method Perform(store: Store, op: Operation) returns (answer: Answer)
    requires store.Valid()
    requires op.InsertOne? ==> store.clock <= op.now && op.result.timestamp <= op.now
    modifies store
    ensures store.Valid() && store.clock == if op.InsertOne? then op.now else old(store.clock)
    ensures store.asked == if op.ReadOne? then old(store.asked) + {op.p} else old(store.asked)
    ensures Transparent(store) ==>
      && answer == IdealAnswer(old(store.endpoints), op, store.driver)
      && store.endpoints == if op.InsertOne?
                            then old(store.endpoints)[op.ep.key := old(store.TablesAfter(op.ep, op.result, op.now))]
                            else old(store.endpoints)
  {
    hide Store.Valid, ReadStatus, UncachedAnswer;
    match op {
      case InsertOne(ep, result, now, evicted) =>
        var err := store.Insert(ep, result, now, evicted);
        answer := Inserted(err);
      case ReadOne(key, p, evicted) =>
        var r := store.GetEndpointStatusByKey(key, p, evicted);
        answer := Answered(r);
      case Expire(cacheKeys) =>
        store.Evict(cacheKeys);
        answer := Nothing;
    }
  }

  /** Without a cache, on SQLite unless a request has a twin, and on PostgreSQL unless one aborts besides, every history
      is answered as if every Insert committed and every read went to the tables, whatever is evicted when. */
  method PerformAll(store: Store, ops: seq<Operation>) returns (answers: seq<Answer>)
    requires store.Valid() && store.endpoints == map[] && store.asked == {}
    requires ValidHistory(ops, store.clock)
    modifies store
    ensures store.Valid()
    ensures !store.caching || HarmlessHistory(ops, store.driver) ==>
      && answers == IdealAnswers(ops, store.driver, store.maximumNumberOfResults, store.maximumNumberOfEvents)
      && store.endpoints == IdealTables(ops, store.maximumNumberOfResults, store.maximumNumberOfEvents)
  {
    answers := [];
    var maximumResults, maximumEvents := store.maximumNumberOfResults, store.maximumNumberOfEvents;
    ghost var transparent := !store.caching || HarmlessHistory(ops, store.driver);
    assert ops[..0] == [];
    for n := 0 to |ops|
      invariant store.Valid()
      invariant forall i :: n <= i < |ops| && ops[i].InsertOne? ==> store.clock <= ops[i].now
      invariant transparent ==> Transparent(store)
      invariant transparent ==>
        && answers == IdealAnswers(ops[..n], store.driver, maximumResults, maximumEvents)
        && store.endpoints == IdealTables(ops[..n], maximumResults, maximumEvents)
    {
      hide Store.Valid, Harmless, SqlTables.Inserted, UncachedAnswer;
      assert ops[..n + 1][..n] == ops[..n];
      var answer := Perform(store, ops[n]);
      answers := answers + [answer];
    }
    assert ops[..|ops|] == ops;
  }

  /** The two stores side by side. */
  method Compare(driver: Driver, maximumResults: nat, maximumEvents: nat, start: Time, ops: seq<Operation>)
    returns (cached: seq<Answer>, uncached: seq<Answer>)
    requires maximumResults >= 1 && maximumEvents >= 1 && ValidHistory(ops, start)
    ensures uncached == IdealAnswers(ops, driver, maximumResults, maximumEvents)
    ensures HarmlessHistory(ops, driver) ==> cached == uncached
  {
    hide Store.Valid;
    var withCache := new Store(driver, true, maximumResults, maximumEvents, start);
    var without := new Store(driver, false, maximumResults, maximumEvents, start);
    cached := PerformAll(withCache, ops);
    uncached := PerformAll(without, ops);
  }

  // ---------------------------------------------------------------- requests that are not harmless

  /** A page that the API lets through: its offset wraps around to a negative one. */
  const HUGE_PAGE := Params(1, 50, MAX_INT, 20)

  lemma HugePageAborts()
    ensures Offset(MAX_INT, 20) == -40
    ensures HUGE_PAGE.NonNegative() && Aborts(HUGE_PAGE, Postgres) && !Aborts(HUGE_PAGE, SQLite)
  {
  }

  lemma NothingBlocks(cache: Cache)
    requires cache == map[]
    ensures forall endpointKey, stored, driver :: !IsBlocked(cache, endpointKey, stored, driver)
  {
  }

  lemma EntryBlocks(cache: Cache, key: string, p: Params, stored: set<string>)
    requires p.NonNegative() && Aborts(p, Postgres) && key in stored && CacheKey.Generate(key, p) in cache
    ensures IsBlocked(cache, key, stored, Postgres)
  {
    BlocksExactly(key, p, stored, Postgres);
    CacheKey.PatternCatchesEndpoint(key, p);
    assert CacheKey.Generate(key, p) in KeysByPattern(cache, key);
  }

  lemma NothingAppears(cache: Cache, endpointKey: string, evicted: set<string>)
    requires OnlyPatternRefreshed(map[], cache, endpointKey, evicted)
    ensures cache == map[]
  {
  }

  /** A caching store with one endpoint and nothing cached. */
  method OneEndpoint(driver: Driver, ep: Endpoint, result: Result, now: Time, maximumResults: nat, maximumEvents: nat)
    returns (store: Store)
    requires maximumResults >= 1 && maximumEvents >= 1 && result.timestamp <= now
    ensures fresh(store) && store.Valid() && store.caching && store.driver == driver && store.clock == now
    ensures store.endpoints.Keys == {ep.key} && store.writeThroughCache == map[]
  {
    hide Store.Valid, SqlTables.Inserted, OnlyPatternRefreshed;
    store := new Store(driver, true, maximumResults, maximumEvents, now);
    NothingBlocks(store.writeThroughCache);
    var err := store.Insert(ep, result, now, {});
    NothingAppears(store.writeThroughCache, ep.key, {});
  }

  /** The tables answer every request that aborts with an error; the cache does not, from the second time on. */
  method AbortingReads(store: Store, key: string, p: Params)
    returns (first: Outcome<Status, StoreError>, second: Outcome<Status, StoreError>)
    requires store.Valid() && store.caching && key in store.endpoints && store.writeThroughCache == map[]
    requires Aborts(p, store.driver)
    modifies store`writeThroughCache, store`shared, store`rolledBack, store`asked
    ensures store.Valid() && store.IsHit(key, p)
    ensures first == UncachedAnswer(store.endpoints, key, p, store.driver) == Err(TransactionAborted) && second.Ok?
  {
    hide Store.Valid, ReadStatus;
    first := store.GetEndpointStatusByKey(key, p, {});
    second := store.GetEndpointStatusByKey(key, p, {});
  }

  /** While an entry blocks the endpoint, no Insert commits. */
  method BlockedInserts(store: Store, ep: Endpoint, result: Result, now: Time, n: nat)
    requires store.Valid() && store.clock <= now && result.timestamp <= now && store.Blocked(ep.key)
    modifies store
    ensures store.Valid() && store.Blocked(ep.key)
    ensures store.endpoints == old(store.endpoints) && store.runs == old(store.runs)
  {
    hide Store.Valid, IsBlocked, BlockerIsBack, OnlyPatternRefreshed;
    for i := 0 to n
      invariant store.Valid() && store.clock <= now && store.Blocked(ep.key)
      invariant store.endpoints == old(store.endpoints) && store.runs == old(store.runs)
    {
      ghost var before := store.writeThroughCache;
      var err := store.Insert(ep, result, now, {});
      StaysBlocked(before, store.writeThroughCache, ep.key, store.endpoints.Keys + {ep.key}, store.driver, {});
    }
  }

  /** A request for a huge page, once, and PostgreSQL stores no result of the endpoint while the entry lives: an error,
      then the entry, then n inserts of which none commits. */
  method HugePage(ep: Endpoint, result: Result, now: Time, n: nat, maximumResults: nat, maximumEvents: nat)
    returns (first: Outcome<Status, StoreError>, second: Outcome<Status, StoreError>,
             before: Database, after: Database)
    requires maximumResults >= 1 && maximumEvents >= 1 && result.timestamp <= now
    ensures first == Err(TransactionAborted) && second.Ok? && before == after
  {
    hide Store.Valid, Aborts, CacheKey.Generate;
    HugePageAborts();
    var store := OneEndpoint(Postgres, ep, result, now, maximumResults, maximumEvents);
    first, second := AbortingReads(store, ep.key, HUGE_PAGE);
    before := store.endpoints;
    EntryBlocks(store.writeThroughCache, ep.key, HUGE_PAGE, store.endpoints.Keys + {ep.key});
    BlockedInserts(store, ep, result, now, n);
    after := store.endpoints;
  }

  /** Every request with a twin can be answered with the status of another endpoint, although its own is not stored. */
  method TwinRequest(group: string, name: string, key: string, result: Result, now: Time, p: Params, driver: Driver,
                     maximumResults: nat, maximumEvents: nat)
    returns (answer: Outcome<Status, StoreError>, ghost ideal: Outcome<Status, StoreError>)
    requires maximumResults >= 1 && maximumEvents >= 1 && result.timestamp <= now && !HasNoTwin(p)
    ensures answer.Ok? && ideal == Err(EndpointNotFound)
  {
    hide Store.Valid, ReadStatus, CacheKey.Generate;
    var twin := Params(-p.eventsPage, p.eventsPageSize, p.resultsPage, p.resultsPageSize);
    CacheKey.SameCacheKey(key, p, key + "-", twin);
    var store := OneEndpoint(driver, Endpoint(key + "-", group, name), result, now, maximumResults, maximumEvents);
    var _ := store.GetEndpointStatusByKey(key + "-", twin, {});
    ideal := UncachedAnswer(store.endpoints, key, p, driver);
    answer := store.GetEndpointStatusByKey(key, p, {});
  }
}
