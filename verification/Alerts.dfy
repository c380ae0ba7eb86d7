/** The alert state machine of one endpoint (watchdog/alerting.go, alerting/alert/alert.go): what handling a result does
    to the counters, the alerts and the persisted rows, and what it sends. */
module Alerts {
  import opened Clock
  import opened Outcomes
  import opened SqlTables

  /** The alerts of the endpoint and the alert types that have a provider. */
  datatype Config = Config(alerts: seq<AlertConfig>, providers: set<string>) {
    predicate Valid() {
      forall i :: 0 <= i < |alerts| ==> alerts[i].Valid()
    }

    /** An alert that can be sent at all. */
    predicate Live(i: nat)
      requires i < |alerts|
    {
      alerts[i].IsEnabled() && alerts[i].kind in providers
    }

    predicate Fits(s: State) {
      |s.alerts| == |alerts|
    }

    predicate FitsCheck(c: Check) {
      |c.attempts| == |alerts|
    }
  }

  datatype AlertConfig = AlertConfig(kind: string, enabled: Option<bool>, failureThreshold: int, successThreshold: int,
                                     minimumReminderInterval: int, sendOnResolved: Option<bool>, checksum: string) {
    predicate IsEnabled() {
      enabled.None? || enabled.value
    }

    predicate IsSendingOnResolved() {
      sendOnResolved.Some? && sendOnResolved.value
    }

    /** ValidateAndSetDefaults: thresholds that are not positive are replaced. */
    function WithDefaults(): AlertConfig {
      this.(failureThreshold := if failureThreshold <= 0 then 3 else failureThreshold,
            successThreshold := if successThreshold <= 0 then 2 else successThreshold)
    }

    predicate Valid() {
      failureThreshold >= 1 && successThreshold >= 1
    }

    /** Every validated alert has positive thresholds, and keeps those it was given. */
    lemma DefaultsAreValid()
      ensures WithDefaults().Valid()
      ensures WithDefaults() == this <==> Valid()
      ensures failureThreshold <= 0 ==> WithDefaults().failureThreshold == 3
      ensures successThreshold <= 0 ==> WithDefaults().successThreshold == 2
      ensures var a := WithDefaults();
              && a.kind == kind && a.enabled == enabled && a.sendOnResolved == sendOnResolved && a.checksum == checksum
              && a.minimumReminderInterval == minimumReminderInterval
      ensures failureThreshold >= 1 ==> WithDefaults().failureThreshold == failureThreshold
      ensures successThreshold >= 1 ==> WithDefaults().successThreshold == successThreshold
    {
    }
  }

  datatype AlertState = AlertState(triggered: bool, resolveKey: string)

  /** One alert's call of the provider during one handled result: when it is considered, whether Send succeeds, and the
      resolve key it leaves behind. */
  datatype Attempt = Attempt(at: Time, ok: bool, resolveKey: string)

  /** A handled result, with what the provider would do for each alert. */
  datatype Check = Check(success: bool, attempts: seq<Attempt>)

  /** What leaves the process, and the moments an alert stops being triggered; `check` counts handled results from 1. */
  datatype Notification =
    | Initial(alert: nat, at: Time, check: nat)
    | Reminder(alert: nat, at: Time)
    | Cleared(alert: nat, notified: bool, check: nat)

  datatype State = State(failures: int, successes: int, lastReminderSent: Option<Time>, alerts: seq<AlertState>,
                         rows: map<string, AlertRow>, handled: nat, log: seq<Notification>)

  /** Nothing handled yet. */
  function Initially(c: Config): (s: State)
    ensures c.Fits(s)
  {
    State(0, 0, None, seq(|c.alerts|, _ => AlertState(false, "")), map[], 0, [])
  }

  /** Time since the last successful trigger or reminder; the zero time is longer ago than any interval. */
  predicate ReminderDue(a: AlertConfig, lastReminderSent: Option<Time>, at: Time) {
    a.minimumReminderInterval > 0
    && (lastReminderSent.None? || at - lastReminderSent.value >= a.minimumReminderInterval)
  }

  /** One iteration of the loop in handleAlertsToTrigger. */
  function TriggerAlert(c: Config, i: nat, s: State, attempt: Attempt): (s': State)
    requires c.Fits(s) && i < |c.alerts|
    ensures c.Fits(s')
  {
    var a := c.alerts[i];
    var initial := !s.alerts[i].triggered;
    if !a.IsEnabled() || a.failureThreshold > s.failures then s
    else if !initial && !ReminderDue(a, s.lastReminderSent, attempt.at) then s
    else if a.kind !in c.providers then s
    else if !attempt.ok then s.(alerts := s.alerts[i := s.alerts[i].(resolveKey := attempt.resolveKey)])
    else
      s.(alerts := s.alerts[i := AlertState(true, attempt.resolveKey)],
         lastReminderSent := Some(attempt.at),
         rows := s.rows[a.checksum := AlertRow(attempt.resolveKey, s.successes)],
         log := s.log + [if initial then Initial(i, attempt.at, s.handled) else Reminder(i, attempt.at)])
  }

  /** One iteration of the loop in handleAlertsToResolve. */
  function ResolveAlert(c: Config, i: nat, s: State, attempt: Attempt): (s': State)
    requires c.Fits(s) && i < |c.alerts|
    ensures c.Fits(s')
  {
    var a := c.alerts[i];
    if !a.IsEnabled() || !s.alerts[i].triggered then s
    else if a.successThreshold > s.successes then
      s.(rows := s.rows[a.checksum := AlertRow(s.alerts[i].resolveKey, s.successes)])
    else
      var notified := a.IsSendingOnResolved() && a.kind in c.providers;
      s.(alerts := s.alerts[i := AlertState(false, if notified then attempt.resolveKey else s.alerts[i].resolveKey)],
         rows := s.rows - {a.checksum},
         log := s.log + [Cleared(i, notified, s.handled)])
  }

  /** The first n iterations of either loop. */
  function TriggerFirst(c: Config, s: State, attempts: seq<Attempt>, n: nat): (s': State)
    requires c.Fits(s) && n <= |c.alerts| == |attempts|
    ensures c.Fits(s')
  {
    if n == 0 then s else TriggerAlert(c, n - 1, TriggerFirst(c, s, attempts, n - 1), attempts[n - 1])
  }

  function ResolveFirst(c: Config, s: State, attempts: seq<Attempt>, n: nat): (s': State)
    requires c.Fits(s) && n <= |c.alerts| == |attempts|
    ensures c.Fits(s')
  {
    if n == 0 then s else ResolveAlert(c, n - 1, ResolveFirst(c, s, attempts, n - 1), attempts[n - 1])
  }

  /** The state in which the loop over the alerts starts. */
  function Counted(s: State, success: bool): State {
    if success then s.(successes := s.successes + 1, handled := s.handled + 1)
    else s.(successes := 0, failures := s.failures + 1, handled := s.handled + 1)
  }

  /** HandleAlerting */
  function Handle(c: Config, s: State, check: Check): (s': State)
    requires c.Fits(s) && c.FitsCheck(check)
    ensures c.Fits(s')
  {
    var counted := Counted(s, check.success);
    if check.success
    then ResolveFirst(c, counted, check.attempts, |c.alerts|).(failures := 0)
    else TriggerFirst(c, counted, check.attempts, |c.alerts|)
  }

  ghost predicate AllFit(c: Config, checks: seq<Check>) {
    forall i :: 0 <= i < |checks| ==> c.FitsCheck(checks[i])
  }

  /** Handling a sequence of results, one after the other. */
  ghost function HandleAll(c: Config, s: State, checks: seq<Check>): (s': State)
    requires c.Fits(s) && AllFit(c, checks)
    ensures c.Fits(s')
  {
    if |checks| == 0 then s
    else Handle(c, HandleAll(c, s, checks[..|checks| - 1]), checks[|checks| - 1])
  }

  /** The state reached from a fresh start. */
  ghost function Run(c: Config, checks: seq<Check>): (s: State)
    requires AllFit(c, checks)
    ensures c.Fits(s)
  {
    HandleAll(c, Initially(c), checks)
  }

  function OutcomesOf(checks: seq<Check>): (h: seq<bool>)
    ensures |h| == |checks|
  {
    seq(|checks|, i requires 0 <= i < |checks| => checks[i].success)
  }

  // ---------------------------------------------------------------- one handled result

  /** The provider call of a failed check would fire the alert. */
  predicate Fires(c: Config, i: nat, failures: int, attempt: Attempt)
    requires i < |c.alerts|
  {
    c.Live(i) && c.alerts[i].failureThreshold <= failures && attempt.ok
  }

  predicate Resolves(c: Config, i: nat, successes: int)
    requires i < |c.alerts|
  {
    c.alerts[i].IsEnabled() && c.alerts[i].successThreshold <= successes
  }

  /** What the trigger loop changes: an alert's own iteration decides about it, the counters stay. */
  lemma {:induction false} TriggerEffect(c: Config, s: State, attempts: seq<Attempt>, n: nat, i: nat)
    requires c.Fits(s) && n <= |c.alerts| == |attempts| && i < |c.alerts|
    ensures var s' := TriggerFirst(c, s, attempts, n);
            && s'.failures == s.failures && s'.successes == s.successes && s'.handled == s.handled
            && (s'.alerts[i].triggered <==> s.alerts[i].triggered || (i < n && Fires(c, i, s.failures, attempts[i])))
  {
    if n > 0 {
      TriggerEffect(c, s, attempts, n - 1, i);
    }
  }

  lemma {:induction false} ResolveEffect(c: Config, s: State, attempts: seq<Attempt>, n: nat, i: nat)
    requires c.Fits(s) && n <= |c.alerts| == |attempts| && i < |c.alerts|
    ensures var s' := ResolveFirst(c, s, attempts, n);
            && s'.failures == s.failures && s'.successes == s.successes && s'.handled == s.handled
            && s'.lastReminderSent == s.lastReminderSent
            && (s'.alerts[i].triggered <==> s.alerts[i].triggered && !(i < n && Resolves(c, i, s.successes)))
  {
    if n > 0 {
      ResolveEffect(c, s, attempts, n - 1, i);
    }
  }

  /** What handling one result does to the counters and to one alert. */
  lemma HandleEffect(c: Config, s: State, check: Check, i: nat)
    requires c.Fits(s) && c.FitsCheck(check) && i < |c.alerts|
    ensures var s' := Handle(c, s, check);
            && s'.handled == s.handled + 1
            && (check.success ==> s'.failures == 0 && s'.successes == s.successes + 1)
            && (!check.success ==> s'.failures == s.failures + 1 && s'.successes == 0)
            && (s'.alerts[i].triggered <==>
                if check.success then s.alerts[i].triggered && !Resolves(c, i, s.successes + 1)
                else s.alerts[i].triggered || Fires(c, i, s.failures + 1, check.attempts[i]))
  {
    TriggerEffect(c, Counted(s, false), check.attempts, |c.alerts|, i);
    ResolveEffect(c, Counted(s, true), check.attempts, |c.alerts|, i);
  }

  // ---------------------------------------------------------------- counters

  /** The length of the last stretch of equal outcomes of one kind. */
  function Trailing(h: seq<bool>, outcome: bool): (n: nat)
    ensures n <= |h|
  {
    if |h| > 0 && h[|h| - 1] == outcome then 1 + Trailing(h[..|h| - 1], outcome) else 0
  }

  /** The `length` outcomes before position n all are as given. */
  predicate Stretch(h: seq<bool>, n: int, length: int, outcome: bool) {
    0 <= n - length <= n <= |h| && forall j :: n - length <= j < n ==> h[j] == outcome
  }

  lemma StretchOfPrefix(h: seq<bool>, x: bool, n: int, length: int, outcome: bool)
    requires n <= |h|
    ensures Stretch(h + [x], n, length, outcome) == Stretch(h, n, length, outcome)
  {
    assert forall j :: 0 <= j < |h| ==> (h + [x])[j] == h[j];
  }

  lemma {:induction false} TrailingMeaning(h: seq<bool>, outcome: bool, n: nat)
    requires n <= |h|
    ensures n <= Trailing(h, outcome) <==> Stretch(h, |h|, n, outcome)
  {
    if n > 0 {
      var before, last := h[..|h| - 1], h[|h| - 1];
      assert h == before + [last];
      TrailingMeaning(before, outcome, n - 1);
      StretchOfPrefix(before, last, |before|, n - 1, outcome);
      assert Stretch(h, |h|, n, outcome) <==> last == outcome && Stretch(h, |h| - 1, n - 1, outcome);
    }
  }

  /** A threshold that is positive but beyond the whole history is not reached either. */
  lemma ThresholdMeaning(h: seq<bool>, outcome: bool, threshold: int)
    requires threshold >= 1
    ensures threshold <= Trailing(h, outcome) <==> Stretch(h, |h|, threshold, outcome)
  {
    if threshold <= |h| {
      TrailingMeaning(h, outcome, threshold);
    }
  }

  lemma HandleCounters(c: Config, s: State, check: Check)
    requires c.Fits(s) && c.FitsCheck(check)
    ensures var s' := Handle(c, s, check);
            && s'.handled == s.handled + 1
            && (check.success ==> s'.failures == 0 && s'.successes == s.successes + 1)
            && (!check.success ==> s'.failures == s.failures + 1 && s'.successes == 0)
  {
    if |c.alerts| > 0 {
      HandleEffect(c, s, check, 0);
    }
  }

  /** From any state, in particular one that a restart left behind: a counter is the last stretch of its outcome, on top
      of its start value while nothing else was handled. */
  lemma {:induction false} CountersFrom(c: Config, s: State, checks: seq<Check>)
    requires c.Fits(s) && AllFit(c, checks)
    ensures var s', h := HandleAll(c, s, checks), OutcomesOf(checks);
            && s'.failures == Trailing(h, false) + (if Trailing(h, false) == |h| then s.failures else 0)
            && s'.successes == Trailing(h, true) + (if Trailing(h, true) == |h| then s.successes else 0)
            && s'.handled == s.handled + |checks|
    decreases |checks|
  {
    if |checks| > 0 {
      var before, check := checks[..|checks| - 1], checks[|checks| - 1];
      CountersFrom(c, s, before);
      HandleCounters(c, HandleAll(c, s, before), check);
      assert OutcomesOf(checks)[..|checks| - 1] == OutcomesOf(before);
    }
  }

  /** From a fresh start the counters are the trailing stretches of the handled outcomes. */
  lemma Counters(c: Config, checks: seq<Check>)
    requires AllFit(c, checks)
    ensures var s := Run(c, checks);
            && s.failures == Trailing(OutcomesOf(checks), false)
            && s.successes == Trailing(OutcomesOf(checks), true)
            && s.handled == |checks|
  {
    CountersFrom(c, Initially(c), checks);
  }

  // ---------------------------------------------------------------- when an alert is triggered

  ghost predicate FiredAndNotResolved(h: seq<bool>, failureThreshold: int, successThreshold: int, n: nat) {
    && Stretch(h, n, failureThreshold, false)
    && forall m :: n + successThreshold <= m <= |h| ==> !Stretch(h, m, successThreshold, true)
  }

  /** Some stretch of failures reached the threshold and no later stretch of successes reached its own. */
  ghost predicate ShouldBeTriggered(h: seq<bool>, failureThreshold: int, successThreshold: int) {
    exists n :: FiredAndNotResolved(h, failureThreshold, successThreshold, n)
  }

  lemma FailureKeeps(h: seq<bool>, failureThreshold: int, successThreshold: int, n: nat)
    requires failureThreshold >= 1 && successThreshold >= 1 && n <= |h|
    ensures FiredAndNotResolved(h + [false], failureThreshold, successThreshold, n)
         == FiredAndNotResolved(h, failureThreshold, successThreshold, n)
  {
    var h' := h + [false];
    StretchOfPrefix(h, false, n, failureThreshold, false);
    forall m | m <= |h| ensures Stretch(h', m, successThreshold, true) == Stretch(h, m, successThreshold, true) {
      StretchOfPrefix(h, false, m, successThreshold, true);
    }
    assert !h'[|h|];
  }

  lemma AfterFailure(h: seq<bool>, failureThreshold: int, successThreshold: int)
    requires failureThreshold >= 1 && successThreshold >= 1
    ensures var h' := h + [false];
            ShouldBeTriggered(h', failureThreshold, successThreshold)
              == (ShouldBeTriggered(h, failureThreshold, successThreshold) || failureThreshold <= Trailing(h', false))
  {
    var h' := h + [false];
    forall n: nat | n <= |h| ensures FiredAndNotResolved(h', failureThreshold, successThreshold, n)
                                == FiredAndNotResolved(h, failureThreshold, successThreshold, n) {
      FailureKeeps(h, failureThreshold, successThreshold, n);
    }
    ThresholdMeaning(h', false, failureThreshold);
    if failureThreshold <= Trailing(h', false) {
      assert FiredAndNotResolved(h', failureThreshold, successThreshold, |h'|);
    }
  }

  lemma SuccessKeeps(h: seq<bool>, failureThreshold: int, successThreshold: int, n: nat)
    requires failureThreshold >= 1 && successThreshold >= 1
    ensures var h' := h + [true];
            FiredAndNotResolved(h', failureThreshold, successThreshold, n)
              == (FiredAndNotResolved(h, failureThreshold, successThreshold, n)
                  && !(successThreshold <= Trailing(h', true)))
  {
    var h' := h + [true];
    ThresholdMeaning(h', true, successThreshold);
    if n <= |h| {
      StretchOfPrefix(h, true, n, failureThreshold, false);
      forall m | m <= |h| ensures Stretch(h', m, successThreshold, true) == Stretch(h, m, successThreshold, true) {
        StretchOfPrefix(h, true, m, successThreshold, true);
      }
      if Stretch(h', n, failureThreshold, false) && Stretch(h', |h'|, successThreshold, true) {
        // The stretch of successes lies after the failure at n - 1.
        assert !h'[n - 1];
        assert n + successThreshold <= |h'|;
      }
    } else if n == |h'| {
      assert h'[n - 1];
    }
  }

  lemma AfterSuccess(h: seq<bool>, failureThreshold: int, successThreshold: int)
    requires failureThreshold >= 1 && successThreshold >= 1
    ensures var h' := h + [true];
            ShouldBeTriggered(h', failureThreshold, successThreshold)
              == (ShouldBeTriggered(h, failureThreshold, successThreshold) && !(successThreshold <= Trailing(h', true)))
  {
    var h' := h + [true];
    forall n: nat ensures FiredAndNotResolved(h', failureThreshold, successThreshold, n)
      == (FiredAndNotResolved(h, failureThreshold, successThreshold, n) && !(successThreshold <= Trailing(h', true)))
    {
      SuccessKeeps(h, failureThreshold, successThreshold, n);
    }
  }

  /** Every call of the provider for the alert succeeds. */
  ghost predicate ProviderWorks(checks: seq<Check>, i: nat) {
    forall n :: 0 <= n < |checks| && i < |checks[n].attempts| ==> checks[n].attempts[i].ok
  }

  /** With a provider that always succeeds, an alert that can be sent is triggered after a handled history exactly if
      FailureThreshold consecutive failures occurred with no later run of SuccessThreshold consecutive successes. */
  lemma {:induction false} AlertExactness(c: Config, checks: seq<Check>, i: nat)
    requires c.Valid() && AllFit(c, checks) && i < |c.alerts| && c.Live(i)
    requires ProviderWorks(checks, i)
    ensures Run(c, checks).alerts[i].triggered
       <==> ShouldBeTriggered(OutcomesOf(checks), c.alerts[i].failureThreshold, c.alerts[i].successThreshold)
  {
    var a := c.alerts[i];
    if |checks| == 0 {
      assert forall n: nat :: !Stretch([], n, a.failureThreshold, false);
    } else {
      var before, check := checks[..|checks| - 1], checks[|checks| - 1];
      var h := OutcomesOf(before);
      assert OutcomesOf(checks) == h + [check.success];
      AlertExactness(c, before, i);
      Counters(c, before);
      Counters(c, checks);
      HandleEffect(c, Run(c, before), check, i);
      HandleCounters(c, Run(c, before), check);
      if check.success {
        AfterSuccess(h, a.failureThreshold, a.successThreshold);
      } else {
        assert check.attempts[i].ok;
        AfterFailure(h, a.failureThreshold, a.successThreshold);
      }
    }
  }
}
