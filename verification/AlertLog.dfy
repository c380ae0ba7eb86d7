/** What the notifications of one process look like over all runs, with a provider that may fail
    (watchdog/alerting.go). */
module AlertLog {
  import opened Alerts
  import opened Clock
  import opened Outcomes

  predicate IsInitial(n: Notification, i: nat) {
    n.Initial? && n.alert == i
  }

  predicate IsCleared(n: Notification, i: nat) {
    n.Cleared? && n.alert == i
  }

  /** The last initial notification of the alert came after its last resolve. */
  predicate Open(log: seq<Notification>, i: nat) {
    if |log| == 0 then false
    else
      var last := log[|log| - 1];
      IsInitial(last, i) || (!IsCleared(last, i) && Open(log[..|log| - 1], i))
  }

  /** The moment of the last successful initial or reminder notification of any alert. */
  function LastSend(log: seq<Notification>): Option<Time> {
    if |log| == 0 then None
    else
      match log[|log| - 1]
      case Initial(_, at, _) => Some(at)
      case Reminder(_, at) => Some(at)
      case Cleared(_, _, _) => LastSend(log[..|log| - 1])
  }

  /** Initial notifications and resolves of an alert take turns. */
  predicate Alternates(log: seq<Notification>) {
    |log| > 0 ==>
      var last, before := log[|log| - 1], log[..|log| - 1];
      && Alternates(before)
      && (last.Initial? ==> !Open(before, last.alert))
      && (last.Cleared? ==> Open(before, last.alert))
  }

  /** A reminder of the alert may follow a last notification at the given moment. */
  predicate MayRemind(c: Config, n: Notification, lastSend: Option<Time>)
    requires n.Reminder?
  {
    && n.alert < |c.alerts|
    && lastSend.Some?
    && n.at - lastSend.value >= c.alerts[n.alert].minimumReminderInterval > 0
  }

  predicate Spaced(c: Config, log: seq<Notification>) {
    |log| > 0 ==>
      var last, before := log[|log| - 1], log[..|log| - 1];
      Spaced(c, before) && (last.Reminder? ==> MayRemind(c, last, LastSend(before)))
  }

  /** The alerts remember which of them are open. */
  ghost predicate OpenInv(c: Config, s: State) {
    && c.Fits(s)
    && Alternates(s.log)
    && forall i: nat :: i < |c.alerts| ==> s.alerts[i].triggered == Open(s.log, i)
  }

  /** The endpoint remembers the last notification, which exists if an alert is open. */
  ghost predicate SpacedInv(c: Config, s: State) {
    && c.Fits(s)
    && Spaced(c, s.log)
    && s.lastReminderSent == LastSend(s.log)
    && ((exists i :: 0 <= i < |c.alerts| && s.alerts[i].triggered) ==> s.lastReminderSent.Some?)
  }

  lemma Appended(log: seq<Notification>, n: Notification)
    ensures (log + [n])[..|log|] == log && (log + [n])[|log|] == n
  {
  }

  lemma TriggerKeepsLog(c: Config, i: nat, s: State, attempt: Attempt)
    requires c.Fits(s) && i < |c.alerts|
    ensures OpenInv(c, s) ==> OpenInv(c, TriggerAlert(c, i, s, attempt))
    ensures SpacedInv(c, s) ==> SpacedInv(c, TriggerAlert(c, i, s, attempt))
  {
    var n := if s.alerts[i].triggered then Reminder(i, attempt.at) else Initial(i, attempt.at, s.handled);
    Appended(s.log, n);
  }

  lemma ResolveKeepsLog(c: Config, i: nat, s: State, attempt: Attempt)
    requires c.Fits(s) && i < |c.alerts|
    ensures OpenInv(c, s) ==> OpenInv(c, ResolveAlert(c, i, s, attempt))
    ensures SpacedInv(c, s) ==> SpacedInv(c, ResolveAlert(c, i, s, attempt))
  {
    var notified := c.alerts[i].IsSendingOnResolved() && c.alerts[i].kind in c.providers;
    Appended(s.log, Cleared(i, notified, s.handled));
  }

  lemma {:induction false} TriggerLoopKeepsLog(c: Config, s: State, attempts: seq<Attempt>, n: nat)
    requires c.Fits(s) && n <= |c.alerts| == |attempts|
    ensures OpenInv(c, s) ==> OpenInv(c, TriggerFirst(c, s, attempts, n))
    ensures SpacedInv(c, s) ==> SpacedInv(c, TriggerFirst(c, s, attempts, n))
  {
    hide OpenInv, SpacedInv, TriggerAlert;
    if n > 0 {
      TriggerLoopKeepsLog(c, s, attempts, n - 1);
      TriggerKeepsLog(c, n - 1, TriggerFirst(c, s, attempts, n - 1), attempts[n - 1]);
    }
  }

  lemma {:induction false} ResolveLoopKeepsLog(c: Config, s: State, attempts: seq<Attempt>, n: nat)
    requires c.Fits(s) && n <= |c.alerts| == |attempts|
    ensures OpenInv(c, s) ==> OpenInv(c, ResolveFirst(c, s, attempts, n))
    ensures SpacedInv(c, s) ==> SpacedInv(c, ResolveFirst(c, s, attempts, n))
  {
    hide OpenInv, SpacedInv, ResolveAlert;
    if n > 0 {
      ResolveLoopKeepsLog(c, s, attempts, n - 1);
      ResolveKeepsLog(c, n - 1, ResolveFirst(c, s, attempts, n - 1), attempts[n - 1]);
    }
  }

  lemma HandleKeepsLog(c: Config, s: State, check: Check)
    requires c.Fits(s) && c.FitsCheck(check)
    ensures OpenInv(c, s) ==> OpenInv(c, Handle(c, s, check))
    ensures SpacedInv(c, s) ==> SpacedInv(c, Handle(c, s, check))
  {
    TriggerLoopKeepsLog(c, Counted(s, false), check.attempts, |c.alerts|);
    ResolveLoopKeepsLog(c, Counted(s, true), check.attempts, |c.alerts|);
  }

  lemma {:induction false} RunKeepsLog(c: Config, checks: seq<Check>)
    requires AllFit(c, checks)
    ensures OpenInv(c, Run(c, checks)) && SpacedInv(c, Run(c, checks))
  {
    if |checks| > 0 {
      var before, check := checks[..|checks| - 1], checks[|checks| - 1];
      RunKeepsLog(c, before);
      HandleKeepsLog(c, Run(c, before), check);
    }
  }

  /** An open alert was last opened, and not resolved since. */
  lemma {:induction false} OpenMeaning(log: seq<Notification>, i: nat, p: nat)
    requires p < |log| && IsInitial(log[p], i)
    requires forall r :: p < r < |log| ==> !IsCleared(log[r], i)
    ensures Open(log, i)
  {
    if p < |log| - 1 {
      OpenMeaning(log[..|log| - 1], i, p);
    }
  }

  lemma {:induction false} AlternatesAt(log: seq<Notification>, q: nat)
    requires Alternates(log) && q < |log| && log[q].Initial?
    ensures !Open(log[..q], log[q].alert)
  {
    if q < |log| - 1 {
      AlternatesAt(log[..|log| - 1], q);
      assert log[..|log| - 1][..q] == log[..q];
    }
  }

  lemma {:induction false} SpacedAt(c: Config, log: seq<Notification>, q: nat)
    requires Spaced(c, log) && q < |log| && log[q].Reminder?
    ensures MayRemind(c, log[q], LastSend(log[..q]))
  {
    if q < |log| - 1 {
      SpacedAt(c, log[..|log| - 1], q);
      assert log[..|log| - 1][..q] == log[..q];
    }
  }

  /** Between two initial notifications of one alert lies a resolve. */
  lemma ResolvedBetween(log: seq<Notification>, i: nat, p: nat, q: nat)
    requires Alternates(log) && p < q < |log| && IsInitial(log[p], i) && IsInitial(log[q], i)
    ensures exists r :: p < r < q && IsCleared(log[r], i)
  {
    AlternatesAt(log, q);
    if forall r :: p < r < q ==> !IsCleared(log[r], i) {
      OpenMeaning(log[..q], i, p);
      assert false;
    }
  }

  /** A reminder comes at least the alert's interval after the endpoint's last successful notification. */
  lemma RemindersAreSpaced(c: Config, checks: seq<Check>, q: nat)
    requires AllFit(c, checks)
    requires q < |Run(c, checks).log| && Run(c, checks).log[q].Reminder?
    ensures var log := Run(c, checks).log; var n := log[q];
            && n.alert < |c.alerts|
            && LastSend(log[..q]).Some?
            && n.at - LastSend(log[..q]).value >= c.alerts[n.alert].minimumReminderInterval > 0
  {
    RunKeepsLog(c, checks);
    SpacedAt(c, Run(c, checks).log, q);
  }

  // ---------------------------------------------------------------- thresholds

  ghost predicate Earned(c: Config, n: Notification, h: seq<bool>)
    requires n.Initial?
  {
    n.alert < |c.alerts| && Stretch(h, n.check, c.alerts[n.alert].failureThreshold, false)
  }

  /** Each initial notification in the log was sent at a moment its threshold of failures in a row had been reached. */
  ghost predicate InitialsEarned(c: Config, log: seq<Notification>, h: seq<bool>) {
    forall p :: 0 <= p < |log| && log[p].Initial? ==> Earned(c, log[p], h)
  }

  lemma EarnedLater(c: Config, log: seq<Notification>, h: seq<bool>, x: bool)
    requires InitialsEarned(c, log, h)
    ensures InitialsEarned(c, log, h + [x])
  {
    forall p | 0 <= p < |log| && log[p].Initial? ensures Earned(c, log[p], h + [x]) {
      assert Earned(c, log[p], h);
      StretchOfPrefix(h, x, log[p].check, c.alerts[log[p].alert].failureThreshold, false);
    }
  }

  lemma {:induction false} TriggerLoopEarned(c: Config, s: State, attempts: seq<Attempt>, n: nat, h: seq<bool>)
    requires c.Valid() && c.Fits(s) && n <= |c.alerts| == |attempts|
    requires s.handled == |h| && s.failures == Trailing(h, false) && InitialsEarned(c, s.log, h)
    ensures var s' := TriggerFirst(c, s, attempts, n);
            s'.handled == |h| && s'.failures == s.failures && InitialsEarned(c, s'.log, h)
  {
    if n > 0 {
      TriggerLoopEarned(c, s, attempts, n - 1, h);
      ThresholdMeaning(h, false, c.alerts[n - 1].failureThreshold);
    }
  }

  lemma {:induction false} ResolveLoopEarned(c: Config, s: State, attempts: seq<Attempt>, n: nat, h: seq<bool>)
    requires c.Fits(s) && n <= |c.alerts| == |attempts| && InitialsEarned(c, s.log, h)
    ensures InitialsEarned(c, ResolveFirst(c, s, attempts, n).log, h)
  {
    if n > 0 {
      ResolveLoopEarned(c, s, attempts, n - 1, h);
    }
  }

  /** No initial notification is sent before FailureThreshold failures in a row, the last being the one handled. */
  lemma {:induction false} InitialsNeedFailures(c: Config, checks: seq<Check>)
    requires c.Valid() && AllFit(c, checks)
    ensures InitialsEarned(c, Run(c, checks).log, OutcomesOf(checks))
  {
    if |checks| > 0 {
      var before, check := checks[..|checks| - 1], checks[|checks| - 1];
      var h, s := OutcomesOf(before), Run(c, before);
      assert OutcomesOf(checks) == h + [check.success];
      InitialsNeedFailures(c, before);
      EarnedLater(c, s.log, h, check.success);
      Counters(c, before);
      var counted := Counted(s, check.success);
      if check.success {
        ResolveLoopEarned(c, counted, check.attempts, |c.alerts|, OutcomesOf(checks));
      } else {
        assert Trailing(OutcomesOf(checks), false) == 1 + Trailing(h, false) by {
          assert OutcomesOf(checks)[..|h|] == h;
        }
        TriggerLoopEarned(c, counted, check.attempts, |c.alerts|, OutcomesOf(checks));
      }
    }
  }

  // ---------------------------------------------------------------- resolves

  ghost predicate ResolveEarned(c: Config, n: Notification, h: seq<bool>)
    requires n.Cleared?
  {
    n.alert < |c.alerts| && Stretch(h, n.check, c.alerts[n.alert].successThreshold, true)
  }

  /** Each resolve in the log came when its threshold of successes in a row had been reached. */
  ghost predicate ResolvesEarned(c: Config, log: seq<Notification>, h: seq<bool>) {
    forall p :: 0 <= p < |log| && log[p].Cleared? ==> ResolveEarned(c, log[p], h)
  }

  lemma ResolvesEarnedLater(c: Config, log: seq<Notification>, h: seq<bool>, x: bool)
    requires ResolvesEarned(c, log, h)
    ensures ResolvesEarned(c, log, h + [x])
  {
    forall p | 0 <= p < |log| && log[p].Cleared? ensures ResolveEarned(c, log[p], h + [x]) {
      assert ResolveEarned(c, log[p], h);
      StretchOfPrefix(h, x, log[p].check, c.alerts[log[p].alert].successThreshold, true);
    }
  }

  lemma {:induction false} TriggerLoopResolves(c: Config, s: State, attempts: seq<Attempt>, n: nat, h: seq<bool>)
    requires c.Fits(s) && n <= |c.alerts| == |attempts| && ResolvesEarned(c, s.log, h)
    ensures ResolvesEarned(c, TriggerFirst(c, s, attempts, n).log, h)
  {
    if n > 0 {
      TriggerLoopResolves(c, s, attempts, n - 1, h);
    }
  }

  lemma {:induction false} ResolveLoopResolves(c: Config, s: State, attempts: seq<Attempt>, n: nat, h: seq<bool>)
    requires c.Fits(s) && n <= |c.alerts| == |attempts| && s.handled == |h| && ResolvesEarned(c, s.log, h)
    requires forall i :: 0 <= i < |c.alerts| && s.alerts[i].triggered && c.alerts[i].successThreshold <= s.successes ==>
      Stretch(h, |h|, c.alerts[i].successThreshold, true)
    ensures ResolvesEarned(c, ResolveFirst(c, s, attempts, n).log, h)
  {
    if n > 0 {
      ResolveLoopResolves(c, s, attempts, n - 1, h);
      ResolveEffect(c, s, attempts, n - 1, n - 1);
    }
  }

  /** In one process no alert is resolved before SuccessThreshold successes in a row, the last being the one handled. */
  lemma {:induction false} ResolvesNeedSuccesses(c: Config, checks: seq<Check>)
    requires c.Valid() && AllFit(c, checks)
    ensures ResolvesEarned(c, Run(c, checks).log, OutcomesOf(checks))
  {
    if |checks| > 0 {
      var before, check := checks[..|checks| - 1], checks[|checks| - 1];
      var s, h := Run(c, before), OutcomesOf(before);
      var counted, h' := Counted(s, check.success), OutcomesOf(checks);
      assert h' == h + [check.success];
      ResolvesNeedSuccesses(c, before);
      ResolvesEarnedLater(c, s.log, h, check.success);
      Counters(c, before);
      if check.success {
        assert h'[..|h|] == h;
        assert Trailing(h', true) == counted.successes;
        forall i | 0 <= i < |c.alerts| && c.alerts[i].successThreshold <= counted.successes
          ensures Stretch(h', |h'|, c.alerts[i].successThreshold, true)
        {
          ThresholdMeaning(h', true, c.alerts[i].successThreshold);
        }
        ResolveLoopResolves(c, counted, check.attempts, |c.alerts|, h');
      } else {
        TriggerLoopResolves(c, counted, check.attempts, |c.alerts|, h');
      }
    }
  }
}
