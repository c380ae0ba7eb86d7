/** Paging parameters (storage/store/common/paging/paging.go). */
module Paging {
  import opened Text

  datatype Params = Params(eventsPage: Int, eventsPageSize: Int, resultsPage: Int, resultsPageSize: Int) {
    predicate NonNegative() {
      eventsPage >= 0 && eventsPageSize >= 0 && resultsPage >= 0 && resultsPageSize >= 0
    }
  }
}
