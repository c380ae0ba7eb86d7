# Stores, alerting, JSON paths and maintenance windows of the health dashboard

This project models the parts of the monitoring service (a fork of Gatus in Go) whose behaviour depends on long runs,
and proves what they keep:

- the SQL result store: event, result and uptime tables, lazy trimming, the merge of hourly rows into daily ones, the
  clean-up by age, and the write-through cache in front of reads;
- the memory result store: slices and an hourly map that are trimmed eagerly;
- alert handling, its persisted rows, and the reload after a restart;
- the JSON path walker, the maintenance window, and the two string codecs of the SQL store.

The measure of both stores is a ghost run: everything ever inserted for an endpoint and committed, with the clock
reading of each insert. `Rows`, `LogsAfter`, `Hours` and `SlicesAfter` replay a run into tables; the store classes
keep, in `Valid()`, that their fields are such a replay, and the main theorems relate every replay to the full history.
Alert handling is a state machine (`Alerts.Handle`); a run is what one process handles, a life any sequence of handled
results and restarts (`AlertLives.StateAfter`), and `Watchdog` is the imperative form that takes their steps. Provider
results, clock readings, loadable time zones and evictions are inputs, arbitrary in every theorem that does not
restrict them.

| files | what they hold |
|---|---|
| `Outcomes`, `Text`, `Clock`, `Paging`, `Answers`, `Endpoints` | shared types; Go's string functions, 64-bit integers and times |
| `ErrorList`, `CacheKey` | the string codecs |
| `Uptime`, `SqlUptime`, `SqlMerge`, `SqlMergeEdge`, `SqlRowBound` | uptime rows against the history |
| `Logs`, `SqlLogs`, `SqlTables`, `SqlStore`, `SqlCaching` | logs, pages, cache coherence, the SQL store class, whole histories with and without the cache |
| `MemoryUptime`, `MemoryLogs`, `MemoryStore`, `CrossStore`, `CrossUptime` | the memory store classes, and both stores compared |
| `Alerts`, `AlertRows`, `AlertLog`, `AlertSends`, `AlertRestart` | one step of alert handling, its rows and notifications, the reload |
| `AlertLives`, `AlertThresholds`, `Watchdog` | lives of handled results and restarts, and the methods that take the steps |
| `JsonPath`, `Maintenance` | the two smaller cores |

Results that differ from what the code's documentation or a first reading suggests:

- a second merge is not a no-op at the 30-day edge: the row of the day that contains the line is dropped
  (`SqlUptime.MergeTwice`, with a run in `SqlMergeEdge.SecondMergeDrops`);
- on PostgreSQL a page whose offset wraps around to a negative number aborts its transaction. The status built until
  then is cached all the same: it answers the next request, and every Insert that refreshes it is rolled back
  (`SqlTables.HitsAreRightExactly`, `SqlStore.Store.Insert`, `SqlCaching.HugePage`);
- a negative event page shares its cache key with the opposite page of the endpoint whose key is one dash longer, so the
  cache can answer one request with the status of the other; no other parameter collides (`CacheKey.SameCacheKey`). The
  exported methods accept such a page; every caller in the repository asks for event page 0 or 1;
- an error list `[""]`, or one with a separator in or across its elements, is not read back as written
  (`ErrorList.ErrorListRoundTrip`);
- a failure resets the success count in memory only: the persisted one stays stale unless the alert sends something in
  the same check (`AlertRows.RowAfterFailure`), which is one of the ways in which a restart can be noticed
  (`AlertRestart.KeepsPace`, `AlertLives.StaleRestartIsNoticed`);
- after a restart an alert can fire before its failure threshold, because the threshold of another, reloaded alert is
  counted as failures of the endpoint (`AlertThresholds.ThresholdsHoldExactly`), and resolve before its success
  threshold (`AlertThresholds.ResolvesHoldExactly`);
- a maintenance window longer than 24 h minus the minutes of its start is cut off at the hour in which the next one
  starts (`Maintenance.Schedule.MaintenanceExactness`);
- the start of a window is documented as hh:mm, but any character may separate the fields and a sign may stand for a
  leading zero (`Maintenance.AcceptedStarts`); the code is followed;
- the variable `sevenDaysAgo` of the memory clean-up holds a moment 30 days and an hour ago; the code is followed.

## Model

| member | source | states |
|---|---|---|
| `Uptime.HistCounts` | garus-app/source/storage/store/sql/sql.go:630-652 | What a sum of a history is: the number of its checks whose hour lies in the range, the number of those that succeeded, and the total of their durations in whole milliseconds |
| `Endpoints.HistoryAt` | garus-app/source/storage/store/sql/sql.go:313-318 | The history of a run holds every inserted result at its position |
| `SqlUptime.RunTracks` | garus-app/source/storage/store/sql/sql.go:237-378 | On every run of inserts, merges and clean-ups the uptime rows keep four facts: no negative count, every row at or above the merge line exact for its hour, every day at or above the keep line exact in total, and no stretch from any moment to the end of its day ahead of the full history |
| `SqlUptime.TracksInsert` | garus-app/source/storage/store/sql/sql.go:330-360 | One insert (upsert, merge at 100 rows, clean-up after 32 days) preserves those four facts, for any rows that have them |
| `SqlUptime.RecentWindowExact` | garus-app/source/storage/store/sql/sql.go:806-858 | A query that starts within the last 48 hours, or at or after the midnight before that, sums exactly what the full history holds, so 1 h and 24 h uptime and response times are exact on every run |
| `SqlUptime.DayConserved` | garus-app/source/storage/store/sql/sql.go:1014-1081 | Conservation: for every day that starts no earlier than 30 days before now, the sums of executions, successes and response time over its rows are those of the full history, however often they were merged |
| `SqlUptime.LongWindowSandwich` | garus-app/source/storage/store/sql/sql.go:806-831 | For a window of up to 30 days ending now the SQL sum lies between the history from the first midnight in the window and the history from its start: merging can only lose part of the day that contains the start |
| `SqlUptime.MidnightWindowExact` | garus-app/source/storage/store/sql/sql.go:806-831 | A long window that starts at a midnight loses nothing at all |
| `SqlUptime.RecentHourlyAverages` | garus-app/source/storage/store/sql/sql.go:860-885 | Hourly averages over the last 48 hours list exactly the hours in which something ran, each with the average of the full history |
| `SqlUptime.MergeTwice` | garus-app/source/storage/store/sql/sql.go:1014-1081 | Merging a second time changes nothing if and only if every merged day starts at or above the 30-day line; otherwise the row of the day that contains the line is dropped |
| `SqlMergeEdge.SecondMergeDrops` | garus-app/source/storage/store/sql/sql.go:335-347 | A witness: a run of 101 inserts whose last two merge, after which a check that is within its retention is counted no more |
| `SqlMerge.MergeHourlyUptimeEntries` | garus-app/source/storage/store/sql/sql.go:1007-1084 | The two loops (sum by day in any row order, then delete and insert) produce the table in which each merged day has one row at its midnight holding the sum of its kept rows, and newer rows are untouched |
| `SqlMerge.SumByDay` | garus-app/source/storage/store/sql/sql.go:1039-1055 | Whatever order the rows come in, the daily entries are the per-day sums of the selected rows, one for each day that has a row |
| `SqlRowBound.RowBound` | garus-app/source/storage/store/sql/sql.go:34-37 | After every insert an endpoint has at most 100 uptime rows, and none is older than 32 days |
| `SqlRowBound.HourlyRows` | garus-app/source/storage/store/sql/sql.go:1014-1015 | At most 72 hour-aligned rows lie at or after the merge line |
| `SqlRowBound.DailyRows` | garus-app/source/storage/store/sql/sql.go:1014-1055 | A merge leaves at most 28 daily rows |
| `SqlLogs.BoundedLogsRefineIdealLogs` | garus-app/source/storage/store/sql/sql.go:266-329 | After any history the stored events are a suffix of the ideal log (START, first outcome, every change of outcome) of length at most max+11, the stored results a suffix of the history of length at most max+10, and each table keeps at least min(max, all) entries |
| `Logs.IdealEventsTellChanges` | garus-app/source/storage/store/sql/sql.go:258-300 | The ideal log is START and then one event for every position at which the outcome changes, in order, HEALTHY or UNHEALTHY as the result there, with its timestamp |
| `SqlLogs.StoredEventsTellOutcome` | garus-app/source/storage/store/sql/sql.go:266-312 | After every history and however much was trimmed, the newest stored event is HEALTHY if and only if the last result succeeded, its timestamp is that of the first result of the last stretch of equal outcomes, the events after START alternate, and a START is stamped 50 ms before the first result |
| `SqlStore.Store.StoredEvents` | garus-app/source/storage/store/sql/sql.go:266-312 | So it is for every endpoint of a store, whatever was called before |
| `SqlLogs.ReadEventsIsPage` | garus-app/source/storage/store/sql/sql.go:717-739 | Event page p holds the entries (p-1)*size to p*size of the stored log, as far as there are any, oldest first |
| `SqlLogs.ReadEventsBeforeFirstPage` | garus-app/source/storage/store/sql/sql.go:717-733 | Event page 0 is empty for a size of 0; for a larger size SQLite reads the first page and PostgreSQL nothing |
| `SqlTables.StatusIsPages` | garus-app/source/storage/store/sql/sql.go:678-697 | A status built from the tables holds the key asked for, the endpoint's own group and name, the requested page of results counted from the newest and the requested page of events counted from the oldest |
| `SqlLogs.ReadResultsIsPage` | garus-app/source/storage/store/sql/sql.go:741-773 | Selecting newest first with limit and offset and prepending row by row returns the page in insertion order |
| `SqlLogs.PrependAll` | garus-app/source/storage/store/sql/sql.go:757-773 | The prepending loop reverses the selection and decodes every row |
| `Logs.PagesPartition` | garus-app/source/storage/store/sql/sql.go:741-773 | Consecutive pages hold the newest entries with no gap and no duplicate |
| `MemoryLogs.BoundedSlicesRefineIdealLogs` | garus-app/source/storage/store/memory/util.go:53-80 | The memory slices are exactly the newest max results, and a suffix of the ideal event log that keeps its newest max events |
| `MemoryLogs.StoredEventsTellOutcome` | garus-app/source/storage/store/memory/util.go:57-71 | The same as for the SQL store: the newest event tells whether the endpoint is healthy and since when, the events after START alternate, and a START is stamped with the moment the status was created |
| `MemoryStore.Store.StoredEvents` | garus-app/source/storage/store/memory/memory.go:148-163 | So it is for every endpoint of a store, whatever was called before |
| `MemoryLogs.SliceInBounds` | garus-app/source/storage/store/memory/util.go:34-49 | For all 64-bit page parameters, also those whose product wraps around, the slice expression is in bounds whenever it is evaluated |
| `MemoryLogs.PagedIsPage` | garus-app/source/storage/store/memory/util.go:10-49 | Without overflow the slice is the page |
| `MemoryLogs.NoSuchPage` | garus-app/source/storage/store/memory/util.go:34-37 | A page before the first, or of a negative size, is empty |
| `CrossStore.SamePage` | garus-app/source/storage/store/memory/util.go:34-79 | On the same history both stores return the same results for every page with page*pageSize <= max, up to what the SQL error column does to error lists |
| `CrossStore.SamePageExactly` | garus-app/source/storage/store/sql/sql.go:741-773 | The two pages are equal if and only if every error list on the page survives the column codec |
| `CrossStore.ReadBackIsIdentity` | garus-app/source/storage/store/sql/sql.go:588-613 | Storing and reading results is the identity if and only if every error list survives the codec |
| `CrossStore.NewerSurvivesTrimming` | garus-app/source/storage/store/sql/sql.go:518-533 | For results that arrive in order, both trimmed logs answer "is there a newer result" as the full history does |
| `CrossUptime.StoresAgreeExactly` | garus-app/source/storage/store/sql/sql.go:806-858 | For a window of the last 48 hours both stores sum the same executions, successes and response times after every run if and only if the window starts with an hour and the loop of the memory store reaches the hour in which it ends |
| `CrossUptime.OnTheHour` | garus-app/source/storage/store/memory/memory.go:76-88 | A window that starts on the hour meets that condition |
| `ErrorList.ErrorListRoundTrip` | garus-app/source/storage/store/sql/sql.go:767-769 | Splitting the joined error column gives the list back if and only if it is not the single empty error, no element contains the separator, and none but the last ends with its first two characters |
| `ErrorList.SeparatorAcross` | garus-app/source/storage/store/sql/sql.go:767-769 | A witness: two errors whose seam is read as another list |
| `ErrorList.SeparatorInside` | garus-app/source/storage/store/sql/sql.go:767-769 | A witness: one error read back as two |
| `ErrorList.EmptyErrorIsLost` | garus-app/source/storage/store/sql/sql.go:767-769 | A witness: a single empty error read back as none |
| `CacheKey.CacheKeyRoundTrip` | garus-app/source/storage/store/sql/sql.go:1086-1110 | Extraction gives back the key, dashes included, and the parameters if and only if no parameter is negative |
| `CacheKey.SameCacheKey` | garus-app/source/storage/store/sql/sql.go:1086-1088 | Exactly which arguments share a cache key: equal ones, and twins, whose event pages are opposite numbers while the key with the positive page is the other key and a dash |
| `CacheKey.SharedExactly` | garus-app/source/storage/store/sql/sql.go:1086-1088 | Some other key or parameters share the cache key if and only if the event page is negative (the smallest integer aside), or positive while the key ends with a dash |
| `CacheKey.CacheKeyInjective` | garus-app/source/storage/store/sql/sql.go:1086-1088 | As long as no event page is negative, equal cache keys come only from the same endpoint and parameters |
| `CacheKey.NegativePageCollides` | garus-app/source/storage/store/sql/sql.go:1086-1088 | A witness: two endpoints with one cache key |
| `CacheKey.GeneratedText` | garus-app/source/storage/store/sql/sql.go:1086-1088 | A cache key spelled out, with the order of its fields |
| `CacheKey.ExtractOfGenerated` | garus-app/source/storage/store/sql/sql.go:1090-1110 | Whatever was generated, extraction gives non-negative parameters that generate the same cache key again, or an error |
| `CacheKey.PatternCatchesEndpoint` | garus-app/source/storage/store/sql/sql.go:361-373 | The refresh pattern matches every entry of the inserted endpoint |
| `CacheKey.PatternIsPrefix` | garus-app/source/storage/store/sql/sql.go:362 | The pattern matches exactly the cache keys that start with the endpoint key |
| `Text.JoinAfterSplit` | garus-app/source/storage/store/sql/sql.go:1090-1110 | Splitting at a separator and joining again is the identity for every string |
| `Text.AtoiOfItoa` | garus-app/source/storage/store/sql/sql.go:1086-1110 | Every 64-bit integer survives being printed and parsed |
| `SqlTables.HitIsFresh` | garus-app/source/storage/store/sql/sql.go:667-696 | In a coherent cache a hit on an entry that is not stale is the status built for some request with its cache key, and for the given request if it has no twin and none was asked for under that key |
| `SqlTables.HitsAreRightExactly` | garus-app/source/storage/store/sql/sql.go:145-160 | In every cache that was filled without twins and rolled back inserts, every hit of a request is its uncached answer if and only if the request is harmless: it has no twin, and on PostgreSQL neither of its pages has a negative offset |
| `SqlTables.OnlyPatternGoesStale` | garus-app/source/storage/store/sql/sql.go:361-373 | Changing one endpoint's tables in any way can only make entries stale that the refresh pattern matches, including entries of endpoints whose key merely starts with it |
| `SqlTables.RefreshedEntryIsFresh` | garus-app/source/storage/store/sql/sql.go:692-694 | A stored entry is the status built for the request that generates its cache key, and fresh for every request without a twin that does |
| `SqlTables.WriteThrough` | garus-app/source/storage/store/sql/sql.go:361-373 | After an Insert that commits, a request with non-negative parameters that was cached before is still answered from the cache, with the status of the tables as they are now |
| `SqlTables.BlocksExactly` | garus-app/source/storage/store/sql/sql.go:361-373 | The entry of a request with non-negative parameters makes every Insert of its stored endpoint repeat an aborting request if and only if the request itself aborts |
| `SqlTables.HarmlessDoesNotAbort` | garus-app/source/storage/store/sql/sql.go:361-373 | Refreshing the entry of a harmless request never aborts a transaction |
| `SqlTables.AlertsAreNotCached` | garus-app/source/storage/store/sql/sql.go:431-516 | Changing alert rows, which refreshes nothing, keeps every cached entry fresh |
| `SqlStore.Store.RefreshCache` | garus-app/source/storage/store/sql/sql.go:361-373 | In any order and with any evictions the loop leaves nothing stale with regard to the tables its transaction sees, no new entry, and the other entries as they were. It aborts the transaction if and only if some entry of the pattern extracts to an aborting request of a stored endpoint, and that entry is then cached again; otherwise exactly the entries of the pattern that extract to a stored endpoint and were not evicted are there again, rebuilt from those tables |
| `SqlStore.Store.GetEndpointStatusByKey` | garus-app/source/storage/store/sql/sql.go:145-160 | For any parameters: a hit returns the entry, a miss the answer of the tables, which for an aborting request is the error of its commit while the status is cached; without a cache, or while only harmless requests were made, always the answer of the tables |
| `SqlStore.Store.ReadThrough` | garus-app/source/storage/store/sql/sql.go:667-696 | Inside a transaction: nothing is read or cached once it is aborted, and exactly an aborting request for a stored endpoint aborts it |
| `SqlStore.Store.Evict` | garus-app/source/storage/store/sql/sql.go:667-696 | Losing any set of entries keeps the cache coherent |
| `SqlStore.Store.DeleteAllEndpointStatusesNotInKeys` | garus-app/source/storage/store/sql/sql.go:381-410 | Exactly the endpoints outside the list go, the number deleted is returned, and the wiped cache is coherent again |
| `SqlStore.Store.Clear` | garus-app/source/storage/store/sql/sql.go:536-541 | Nothing is left, in the tables or in the cache |
| `SqlCaching.PerformAll` | garus-app/source/storage/store/sql/sql.go:145-160 | Over every history of inserts, reads and evictions: without a cache, or if every read is harmless, all inserts commit and every answer is that of the tables |
| `SqlCaching.Compare` | garus-app/source/storage/store/sql/sql.go:667-696 | So a store with a cache and one without give the same answers to every history of harmless requests |
| `SqlCaching.HugePageAborts` | garus-app/source/storage/store/sql/sql.go:741-753 | The offset of the page 2^63-1 with 20 results wraps around to -40, which PostgreSQL refuses and SQLite does not |
| `SqlCaching.HugePage` | garus-app/source/storage/store/sql/sql.go:361-378 | A witness: after one such request, which garus-app/source/api/util.go:17-47 lets through, the store answers first with an error and then with the entry, and commits none of any number of inserts |
| `SqlCaching.AbortingReads` | garus-app/source/storage/store/sql/sql.go:145-160 | Every aborting request for a stored endpoint is answered with the error by the tables and with the cached status the next time |
| `SqlCaching.BlockedInserts` | garus-app/source/storage/store/sql/sql.go:361-378 | While an entry that blocks an endpoint is cached, no Insert for the endpoint commits, however many are made |
| `SqlCaching.TwinRequest` | garus-app/source/storage/store/sql/sql.go:667-677 | Every request with a twin can be answered with the status of another endpoint although its own is not stored |
| `SqlStore.Store.Insert` | garus-app/source/storage/store/sql/sql.go:237-378 | The Insert commits if and only if no cached entry of its pattern extracts to an aborting request of a stored endpoint. Then the history grows by the result, a new endpoint gets the given group and name, and alert rows stay; otherwise tables and histories are as they were, while the refreshed entries, made from the rolled back tables, stay in the cache. Without a cache, or with harmless requests only, it always commits |
| `SqlStore.Store.InsertEvents` | garus-app/source/storage/store/sql/sql.go:266-312 | The events part of the transaction: the first result stores START and its outcome, a later one an event if it differs from the stored last result, and above max+10 events, counted before that, the newest max stay |
| `SqlStore.Store.InsertResult` | garus-app/source/storage/store/sql/sql.go:313-329 | The results part: the row is appended, and above max+10 rows the newest max stay |
| `SqlStore.Store.InsertUptime` | garus-app/source/storage/store/sql/sql.go:330-360 | The uptime part of the transaction: below 100 rows of at most 32 days nothing but the upsert; from 100 rows on everything older than the merge line is one row a day |
| `SqlStore.Store.GetUptimeByKey` | garus-app/source/storage/store/sql/sql.go:162-185 | Errors for a reversed range and an unknown key; the ratio of the stored rows of the window, which within the last 48 hours is the number of successful checks divided by the number of checks whose hour starts in the window, and 0 without any |
| `SqlStore.Store.GetAverageResponseTimeByKey` | garus-app/source/storage/store/sql/sql.go:187-210 | Errors as above; within the last 48 hours the total of the whole milliseconds of those checks divided by their number |
| `SqlStore.Store.GetHourlyAverageResponseTimeByKey` | garus-app/source/storage/store/sql/sql.go:212-235 | Errors as above; the averages of the stored rows of the window, which within the last 48 hours are those of the full history |
| `SqlStore.AverageRows` | garus-app/source/storage/store/sql/sql.go:860-885 | In any row order the loop lists exactly the rows of the window that count something, each with its average |
| `SqlStore.Store.UpsertTriggeredEndpointAlert` | garus-app/source/storage/store/sql/sql.go:431-476 | The alert's row is written, the endpoint created if needed, and nothing else changes |
| `SqlStore.Store.DeleteTriggeredEndpointAlert` | garus-app/source/storage/store/sql/sql.go:478-485 | The alert's row is gone and nothing else changes |
| `SqlStore.Store.DeleteAllTriggeredAlertsNotInChecksumsByEndpoint` | garus-app/source/storage/store/sql/sql.go:487-516 | Exactly the endpoint's rows outside the list go, and their number is returned |
| `SqlStore.Store.GetTriggeredEndpointAlert` | garus-app/source/storage/store/sql/sql.go:413-429 | The row of the alert, if there is one |
| `MemoryUptime.RunHoursExact` | garus-app/source/storage/store/memory/uptime.go:16-43 | On every run every hour from the hour of now-30d on is exact |
| `MemoryUptime.CleanUpSparesFirstHour` | garus-app/source/storage/store/memory/uptime.go:36 | The extra hour of retention: the clean-up line never passes the start of the hour in which the retention begins, now or later |
| `MemoryUptime.RunSize` | garus-app/source/storage/store/memory/uptime.go:9-12 | The map never exceeds 768 hours after a result is processed |
| `MemoryUptime.LoopCountsHours` | garus-app/source/storage/store/memory/memory.go:78-88 | The first n steps of the query loop count n consecutive hours of the history, each once |
| `MemoryUptime.QueryExact` | garus-app/source/storage/store/memory/memory.go:67-93 | For any from within the last 30 days the loop counts each hour from that of from to that of its last step as the full history does |
| `MemoryUptime.RecentLoopAverages` | garus-app/source/storage/store/memory/memory.go:124-145 | The hourly averages list exactly the visited hours in which something ran, with the averages of the full history |
| `MemoryStore.CountSuccesses` | garus-app/source/storage/store/memory/memory.go:78-88 | The loop, which skips hours without executions, adds up every hour its steps visit |
| `MemoryStore.CountResponseTime` | garus-app/source/storage/store/memory/memory.go:106-116 | The same for the response time loop |
| `MemoryStore.AverageHours` | garus-app/source/storage/store/memory/memory.go:134-143 | The same for the hourly averages |
| `MemoryStore.EndpointStatus.ProcessUptimeAfterResult` | garus-app/source/storage/store/memory/uptime.go:16-43 | Deleting outdated hours in any map order leaves exactly the hours at or above the line |
| `MemoryStore.EndpointStatus.AddResult` | garus-app/source/storage/store/memory/util.go:53-80 | The status stays what a replay of its history leaves behind, one result longer |
| `MemoryStore.Store.Insert` | garus-app/source/storage/store/memory/memory.go:148-163 | The endpoint's history grows by the result; a new endpoint gets the given group and name and a START at the moment of the call; other endpoints' status objects and histories are untouched |
| `MemoryStore.Store.GetEndpointStatusByKey` | garus-app/source/storage/store/memory/memory.go:58-65 | The requested pages of the stored slices, never out of bounds |
| `MemoryStore.Store.GetUptimeByKey` | garus-app/source/storage/store/memory/memory.go:67-93 | Errors as in the SQL store; the ratio over the stored hours that the loop visits, which within the last 30 days is the number of successful checks divided by the number of checks in those hours, and 0 without any |
| `MemoryStore.Store.GetAverageResponseTimeByKey` | garus-app/source/storage/store/memory/memory.go:96-121 | Errors as above; within the last 30 days the total of the whole milliseconds of the checks in those hours divided by their number |
| `MemoryStore.Store.GetHourlyAverageResponseTimeByKey` | garus-app/source/storage/store/memory/memory.go:124-145 | Exactly the hours the loop visits, each with its average; within the last 30 days those of the full history |
| `MemoryStore.Store.HasEndpointStatusNewerThan` | garus-app/source/storage/store/memory/memory.go:215-229 | Whether a stored result is newer than the moment |
| `MemoryStore.Store.DeleteAllEndpointStatusesNotInKeys` | garus-app/source/storage/store/memory/memory.go:166-181 | Exactly the endpoints outside the list go, and their number is returned |
| `Alerts.CountersFrom` | garus-app/source/watchdog/alerting.go:27-113 | From any state, in particular a reloaded one, each counter is the length of the last stretch of its outcome, on top of its start value while nothing else was handled |
| `Alerts.Counters` | garus-app/source/watchdog/alerting.go:27-113 | From a fresh start the counters are the lengths of the last stretches of failures and of successes |
| `Alerts.AlertConfig.DefaultsAreValid` | garus-app/source/alerting/alert/alert.go:74-80 | After validation both thresholds are positive, unchanged if they were, and 3 and 2 if they were not; nothing else changes |
| `Alerts.AlertExactness` | garus-app/source/watchdog/alerting.go:27-113 | With a provider that always succeeds, an alert that can be sent is triggered if and only if some FailureThreshold consecutive failures occurred with no later run of SuccessThreshold consecutive successes |
| `Alerts.HandleEffect` | garus-app/source/watchdog/alerting.go:27-113 | What one handled result does to the counters and to each alert, whatever the provider does for the others |
| `AlertSends.RunAnnounces` | garus-app/source/watchdog/alerting.go:27-113 | Refinement: for every configuration, provider and sequence of results, all initial notifications, reminders and resolves that one process sends, in order, are those of a definition that knows only the outcomes, the answers of the provider and the notifications so far, and no counter, triggered flag or reminder time |
| `AlertSends.FailureTurnExactly` | garus-app/source/watchdog/alerting.go:27-76 | At an alert's turn in a failed check of any run, a reminder is sent if and only if the alert is not switched off, has a provider, is triggered, its threshold is at most the failures in a row, Send succeeds, and its interval is positive and at most the time since the last notification; an initial notification under the same conditions but for the interval if it is not triggered; its row is written exactly if something is sent, with the resolve key of the provider, which an attempt that fails leaves in memory only |
| `AlertSends.SuccessTurnExactly` | garus-app/source/watchdog/alerting.go:78-113 | At its turn in a successful check of any run, an alert is resolved and its row deleted if and only if it is triggered, not switched off and its threshold is at most the successes in a row; the resolve leaves the process only if sendOnResolved is set to true and there is a provider; until then the row counts the successes |
| `AlertSends.OpenExactly` | garus-app/source/alerting/alert/alert.go:60-72 | What "triggered" means in a log: an initial notification of the alert after which nothing resolved it |
| `AlertSends.LastSendExactly` | garus-app/source/watchdog/alerting.go:63-67 | What "the last notification" means in a log: the initial notification or reminder after which there are only resolves |
| `AlertLives.PersistenceAgreement` | garus-app/source/watchdog/alerting.go:62-95 | In every state of every life, that is any sequence of handled results and restarts with any provider, a row exists for exactly the triggered alerts, and after a handled success every row carries the current success count |
| `AlertLives.RunPersistenceAgreement` | garus-app/source/watchdog/alerting.go:62-95 | The same for one process, as a corollary |
| `AlertRows.RowAfterFailure` | garus-app/source/watchdog/alerting.go:28-71 | After a handled failure the row of an alert carries the current success count if and only if the alert sent a notification in that check, or its row said zero before |
| `AlertRows.StaleCountAfterFailure` | garus-app/source/watchdog/alerting.go:28 | A witness: after failure, success, failure the persisted count is 1 and the current one 0 |
| `AlertLives.StaleRestartIsNoticed` | garus-app/source/main.go:118-143 | A restart after that run is not invisible |
| `AlertLives.InitialsAreSeparated` | garus-app/source/watchdog/alerting.go:28-71 | In every life two successful initial notifications of one alert are separated by a resolve, also when restarts lie between them |
| `AlertLives.RunInitialsAreSeparated` | garus-app/source/watchdog/alerting.go:28-71 | In one process that holds even for alerts with equal checksums |
| `AlertLog.InitialsNeedFailures` | garus-app/source/watchdog/alerting.go:30-34 | In one process each initial notification is sent at a failure that completes FailureThreshold failures in a row |
| `AlertThresholds.ThresholdsHoldExactly` | garus-app/source/main.go:118-143 | Over all lives of a configuration, restarts included, that stays true if and only if, among the alerts that can be sent, none with a success threshold above 1 sits next to another one with a failure threshold above 1 |
| `AlertThresholds.EarlyLife` | garus-app/source/main.go:136-139 | For every other configuration, a life in which a restart makes an alert fire before its threshold, because the reload counts the threshold of the other alert as failures |
| `AlertLog.ResolvesNeedSuccesses` | garus-app/source/watchdog/alerting.go:78-95 | In one process each resolve comes at a success that completes SuccessThreshold successes in a row |
| `AlertThresholds.ResolvesHoldExactly` | garus-app/source/main.go:118-143 | Over all lives of a configuration, restarts included, that stays true if and only if every alert that can be sent has a success threshold of at most 1 |
| `AlertThresholds.EarlyResolve` | garus-app/source/main.go:136-139 | For every other configuration, a life in which a restart makes an alert resolve before its threshold, because the reload brings back a stale success count |
| `AlertLog.RemindersAreSpaced` | garus-app/source/watchdog/alerting.go:36-71 | In one process a reminder comes at least the alert's own interval after the endpoint's last successful initial or reminder notification |
| `AlertLives.RestartRestoresTriggered` | garus-app/source/main.go:118-143 | With unchanged configuration a restart at any point of a life triggers exactly the alerts that were triggered and keeps every row |
| `AlertRestart.ReloadContents` | garus-app/source/main.go:118-143 | Everything a reload gives, for any configuration and any rows: exactly the rows of alerts that are configured and not switched off stay, as they were; an alert is triggered if and only if it has such a row, with the row's resolve key; the counters come from the last alert that has one, or are zero |
| `AlertLives.RunReloadRestoresTriggered` | garus-app/source/main.go:118-143 | The same for the first restart, as a corollary |
| `AlertLives.RestartTwice` | garus-app/source/main.go:118-143 | Restarting twice in a row is restarting once, for any rows |
| `AlertLives.RestartTransparency` | garus-app/source/main.go:118-143 | For any number of alerts, in every state of every life and with a provider that may fail, no future distinguishes restarting from not restarting (initial and resolved notifications) if and only if every alert is as many checks away from its next notification after the reload as before it |
| `AlertLives.OneAlertTransparency` | garus-app/source/main.go:118-143 | For one alert that condition can be read off the counters and the row |
| `AlertLives.RunRestartTransparency` | garus-app/source/main.go:118-143 | The same for one process and any number of alerts, as a corollary |
| `AlertLives.RunOneAlertTransparency` | garus-app/source/main.go:118-143 | For one process and one alert, with the two safe moments, as a corollary |
| `AlertLives.TransparentAfterSuccess` | garus-app/source/main.go:118-143 | With one alert, in every life restarting right after a handled success is invisible |
| `AlertLives.TransparentAfterFiring` | garus-app/source/main.go:118-143 | With one alert, in every life restarting right after the alert fired is invisible |
| `AlertLives.TransparentAfterRestart` | garus-app/source/main.go:118-143 | And so is restarting again right after a restart |
| `Watchdog.MonitoredEndpoint.HandleAlerting` | garus-app/source/watchdog/alerting.go:16-25 | The methods over endpoint and store take the step of the state machine, alert by alert; no other endpoint changes, and of this one nothing but its alert rows; nothing happens without an alerting configuration |
| `Watchdog.MonitoredEndpoint.HandleAlertsToTrigger` | garus-app/source/watchdog/alerting.go:27-76 | The trigger loop takes the machine's step for a failure, whose notifications `AlertSends.RunAnnounces` reads off the history |
| `Watchdog.MonitoredEndpoint.TriggerOne` | garus-app/source/watchdog/alerting.go:30-75 | One turn, in any state: an initial notification, a reminder or nothing, with the conditions written out; after a restart the first reminder is due at once |
| `Watchdog.MonitoredEndpoint.HandleAlertsToResolve` | garus-app/source/watchdog/alerting.go:78-113 | The resolve loop takes the machine's step for a success |
| `Watchdog.MonitoredEndpoint.ResolveOne` | garus-app/source/watchdog/alerting.go:80-111 | One turn, in any state: the alert is resolved exactly if it is triggered, not switched off and has reached its threshold, and the resolve is sent exactly if sendOnResolved is true and there is a provider |
| `Watchdog.MonitoredEndpoint.LoadTriggeredAlerts` | garus-app/source/main.go:120-143 | One endpoint is loaded from its own rows after its stale rows are gone |
| `Watchdog.InitializeStorage` | garus-app/source/main.go:101-143 | Every configured endpoint ends up reloaded from its rows and keeps all its other tables, none is created, and nothing is left of endpoints that are not configured |
| `JsonPath.Keys` | garus-app/source/jsonpath/jsonpath.go:25-41 | The single scan with a bracket depth cuts the path as cutting at the first top-level dot and cutting the rest anew does |
| `JsonPath.SegmentsAreUnique` | garus-app/source/jsonpath/jsonpath.go:25-41 | A list of keys is the segments of a path if and only if joining it with dots gives the path, no key has a top-level dot of its own, and every key but the last closes its brackets |
| `JsonPath.RemovingTheKeyIsDroppingASegment` | garus-app/source/jsonpath/jsonpath.go:42-53 | Removing the first "key." always removes the prefix and leaves the remaining segments; it finds nothing exactly when there is only one segment |
| `JsonPath.Walk` | garus-app/source/jsonpath/jsonpath.go:24-67 | For every path and document the recursion, which cuts its path anew at each object, ends and equals one left fold over the segments of the whole path, crashes and errors included |
| `JsonPath.FoldAbsorbs` | garus-app/source/jsonpath/jsonpath.go:59-63 | Once an array, number or boolean is reached, or the walk has stopped, the keys that remain change nothing |
| `JsonPath.ScanBracket` | garus-app/source/jsonpath/jsonpath.go:72-88 | The bracket scan finds the first pair of brackets with no other opening bracket between, or no index at all |
| `JsonPath.ExtractValue` | garus-app/source/jsonpath/jsonpath.go:69-131 | The value one key selects, with the branches for unreadable indices, missing fields, negative indices and containers of the wrong type |
| `JsonPath.IndexedKey` | garus-app/source/jsonpath/jsonpath.go:69-131 | name[i][j]... is nested indexing into the named field, nothing where an index is out of range or no array is found; the same on the node itself without a name; a name applied to something that is neither object nor null crashes |
| `JsonPath.PathSelectsNode` | garus-app/source/jsonpath/jsonpath.go:24-131 | A path written as names with indices, each leading to an object, selects the node it denotes, or reports that there is none |
| `JsonPath.PathMeetsLeaf` | garus-app/source/jsonpath/jsonpath.go:42-66 | A path written as names with indices whose first k keys lead through objects to something else: nothing there is an error that names the k-th key; a string is an error that names the next key and the k-th if there is a next; an array, number or boolean is selected whatever keys follow |
| `JsonPath.PathStartsAtLeaf` | garus-app/source/jsonpath/jsonpath.go:42-131 | Such a path on a document that is no object: a first name without indices selects the document itself, with indices it crashes, and null is an error |
| `JsonPath.PlainKey` | garus-app/source/jsonpath/jsonpath.go:118-130 | A key that does not end in a bracket, or opens none, names a field; what is no object stands for itself |
| `JsonPath.CrashesExactly` | garus-app/source/jsonpath/jsonpath.go:88-117 | Extracting one key crashes if and only if a readable index is applied by name to what is neither an object nor null, or a negative index is reached by those before it |
| `JsonPath.WalkCrashesExactly` | garus-app/source/jsonpath/jsonpath.go:42-66 | A walk crashes if and only if one of its segments does at the node the walk has reached there |
| `Maintenance.Schedule.MaintenanceExactness` | garus-app/source/config/maintenance/maintenance.go:105-130 | The check of one candidate day agrees with "some scheduled day has a window that contains the moment" at every moment if and only if the duration is at most 24 h minus the minutes of the start |
| `Maintenance.Schedule.WindowsAreDisjoint` | garus-app/source/config/maintenance/maintenance.go:84-91 | No moment lies in the windows of two days |
| `Maintenance.Schedule.CalendarDecides` | garus-app/source/config/maintenance/maintenance.go:119-126 | Inside the window of a day counted from 1 January 1970, it is maintenance if and only if no weekday is listed or one of the list, with the seven names written out from Sunday, falls on that day: name i on the days that leave (i+3) mod 7 |
| `Maintenance.Schedule.OneWeekday` | garus-app/source/config/maintenance/maintenance.go:119-126 | With a single weekday listed, exactly every seventh day is under maintenance |
| `Maintenance.Schedule.EdgesAreOutside` | garus-app/source/config/maintenance/maintenance.go:127-129 | The first and the last moment of a window do not belong to it, nor to another |
| `Maintenance.Config.IsUnderMaintenance` | garus-app/source/config/maintenance/maintenance.go:105-130 | For a validated configuration within that bound, true exactly inside a window of a scheduled day, and inside the window of any day exactly if the calendar puts a listed weekday on it; never while disabled |
| `Maintenance.Config.ValidateAndSetDefaults` | garus-app/source/config/maintenance/maintenance.go:67-102 | An enabled configuration passes if and only if its days, start, duration and zone are acceptable, each error comes exactly if its item is the first that is not; then the schedule is valid and the zone is set |
| `Maintenance.AcceptedStarts` | garus-app/source/config/maintenance/maintenance.go:141-162 | Exactly which five-character strings are read as hh:mm, for every hour and minute |
| `Maintenance.DocumentedStarts` | garus-app/source/config/maintenance/maintenance.go:141-162 | Every start from 00:00 to 23:59 is read as what it says |

## Left out

- The SQL engine, its drivers, schema, row ids (rows are kept in insertion order) and errors: a transaction is one step
  that succeeds, except that PostgreSQL refuses a negative offset and with it the rest of the transaction.
- The clock readings inside one transaction or one handled alert are one reading, and the clock never goes back.
- Goroutines, locks and overlapping transactions: steps are sequential, and cache coherence is not claimed for
  transactions that overlap.
- gocache: eviction and expiry are arbitrary sets of entries given with each call, and the pattern `key*` is prefix
  matching, as it is for keys without glob characters.
- How a group and a name become a key: the key is part of the endpoint.
- Endpoints.Result: durations are not negative; a pushed result with a negative duration is not modelled.
- Answers.Ratio: exact reals, no floating-point rounding.
- Time zones other than UTC for the uptime tables, and daylight saving for the maintenance window: a zone there is a
  fixed offset. Calendar dates are day numbers.
- Maintenance.Config.ValidateAndSetDefaults: a nil configuration, which passes validation, has no object here.
- SQL pages events oldest first (sql.go:723) and memory newest first (util.go:25-29); event pages of the two stores are
  therefore not compared.
- AlertLives.RestartTransparency: reminders are left aside, because LastReminderSent is not persisted.
- AlertLog.RemindersAreSpaced: spacing is by endpoint, as in the code; one alert's notifications can postpone another's
  reminders, and across a restart, which forgets LastReminderSent, no spacing is stated.
- AlertSends.RunAnnounces: speaks of one process; for lives with restarts, `AlertRestart.ReloadContents` gives the
  state a process starts in, and `Watchdog.MonitoredEndpoint.TriggerOne` and `ResolveOne` each turn in any state.
- AlertLives.PersistenceAgreement: checksums of an endpoint's alerts are distinct and storage calls succeed; resolve
  keys that a failed send leaves behind are not compared with the rows.
- Watchdog.InitializeStorage: external endpoints go through the same steps (main.go:144-168) and are not listed apart;
  for external endpoints the reminder time lives in a converted copy and is not modelled.
- JsonPath.Walk: starts from a parsed document and returns the selected node; decoding, the raw-bytes shortcut of Eval,
  the rendering of the node as text and its length are not modelled.
- Statuses and alerts shared by reference with callers (aliasing outside the stores); the memory store returns copies of
  slices here.
- `GetAllEndpointStatuses`, Save, Close and the memory store's no-op alert operations: nothing beyond the
  single-endpoint reads.
- Providers' Send, the HTTP API, badges, metrics, authentication, YAML loading, condition evaluation, the front end.
