/** What the queries of both stores return (storage/store/common/errors.go, storage/store/store.go). */
module Answers {
  /** TransactionAborted is the error of committing a transaction in which PostgreSQL refused a query. */
  datatype StoreError = EndpointNotFound | InvalidTimeRange | TimestampIsZero | TransactionAborted

  /** The ratio the uptime queries return; without executions there is no uptime. */
  function Ratio(successes: int, executions: int): real {
    if executions > 0 then successes as real / executions as real else 0.0
  }

  /** The whole milliseconds the response time queries return. */
  function Average(responseTime: int, executions: int): int {
    if executions > 0 then responseTime / executions else 0
  }
}
