/** What the stores keep about one endpoint (config/endpoint/result.go, event.go, status.go). */
module Endpoints {
  import opened Clock

  datatype ConditionResult = ConditionResult(condition: string, success: bool)

  /** The columns of a result that no operation of the model inspects. */
  datatype Details = Details(connected: bool, httpStatus: int, dnsRCode: string, certificateExpiration: int,
                             domainExpiration: int, hostname: string, ip: string,
                             conditionResults: seq<ConditionResult>)

  datatype Result = Result(success: bool, timestamp: Time, duration: nat, errors: seq<string>, details: Details)

  datatype EventType = Start | Healthy | Unhealthy

  datatype Event = Event(kind: EventType, timestamp: Time)

  /** NewEventFromResult */
  function EventOf(r: Result): Event {
    Event(if r.success then Healthy else Unhealthy, r.timestamp)
  }

  /** An endpoint of the configuration, with the key its group and name are converted to. */
  datatype Endpoint = Endpoint(key: string, group: string, name: string)

  datatype Status = Status(key: string, group: string, name: string, results: seq<Result>, events: seq<Event>)

  /** One call of Insert: the result and the clock reading of the call. */
  datatype Insertion = Insertion(result: Result, now: Time)

  /** The clock never goes back and no result is stamped in the future. */
  predicate ValidRun(run: seq<Insertion>, now: Time) {
    |run| > 0 ==>
      var last := run[|run| - 1];
      last.result.timestamp <= last.now <= now && ValidRun(run[..|run| - 1], last.now)
  }

  /** Everything ever inserted, oldest first. */
  function History(run: seq<Insertion>): (h: seq<Result>)
    ensures |h| == |run|
  {
    if |run| == 0 then [] else History(run[..|run| - 1]) + [run[|run| - 1].result]
  }

  /** Each result is where it was inserted. */
  lemma {:induction false} HistoryAt(run: seq<Insertion>, i: nat)
    requires i < |run|
    ensures History(run)[i] == run[i].result
  {
    if i < |run| - 1 {
      HistoryAt(run[..|run| - 1], i);
    }
  }
}
