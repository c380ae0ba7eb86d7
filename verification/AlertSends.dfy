/** What one process sends, read off the outcomes, the provider's answers and the log so far alone: no counters, no
    triggered flags, no reminder time (watchdog/alerting.go). */
module AlertSends {
  import opened AlertLog
  import opened Alerts
  import opened Clock
  import opened Outcomes
  import opened SqlTables

  /** An initial notification of the alert after which nothing resolved it. */
  ghost predicate OpenedAt(log: seq<Notification>, i: nat, p: int) {
    && 0 <= p < |log| && log[p].Initial? && log[p].alert == i
    && forall r :: p < r < |log| ==> !(log[r].Cleared? && log[r].alert == i)
  }

  lemma {:induction false} OpenExactly(log: seq<Notification>, i: nat)
    ensures Open(log, i) <==> exists p :: OpenedAt(log, i, p)
  {
    if |log| > 0 {
      var before, last := log[..|log| - 1], |log| - 1;
      OpenExactly(before, i);
      assert IsInitial(log[last], i) ==> OpenedAt(log, i, last);
      forall p | p < last && !IsCleared(log[last], i) ensures OpenedAt(log, i, p) <==> OpenedAt(before, i, p) {
      }
    }
  }

  /** An initial notification or reminder after which no other was sent. */
  ghost predicate SentLastAt(log: seq<Notification>, p: int) {
    && 0 <= p < |log| && !log[p].Cleared?
    && forall r :: p < r < |log| ==> log[r].Cleared?
  }

  lemma {:induction false} LastSendExactly(log: seq<Notification>, p: int)
    ensures LastSend(log) == None <==> forall q :: 0 <= q < |log| ==> log[q].Cleared?
    ensures SentLastAt(log, p) ==> LastSend(log) == Some(log[p].at)
  {
    if |log| > 0 {
      LastSendExactly(log[..|log| - 1], p);
    }
  }

  // ---------------------------------------------------------------- the notifications of one process

  /** An alert that is not switched off, has a provider, has reached its threshold and is sent without an error. */
  predicate Sendable(a: AlertConfig, providers: set<string>, failures: int, attempt: Attempt) {
    a.enabled != Some(false) && a.kind in providers && a.failureThreshold <= failures && attempt.ok
  }

  /** The last notification of the endpoint is at least as old as the alert's interval, which is set. */
  predicate TimeToRemind(a: AlertConfig, log: seq<Notification>, at: Time) {
    0 < a.minimumReminderInterval && LastSend(log).Some? && a.minimumReminderInterval <= at - LastSend(log).value
  }

  /** What an alert's turn in a failed check adds to the log. */
  function FailureTurn(c: Config, i: nat, log: seq<Notification>, failures: int, attempt: Attempt, check: nat)
    : seq<Notification>
    requires i < |c.alerts|
  {
    if !Sendable(c.alerts[i], c.providers, failures, attempt) then []
    else if !Open(log, i) then [Initial(i, attempt.at, check)]
    else if TimeToRemind(c.alerts[i], log, attempt.at) then [Reminder(i, attempt.at)]
    else []
  }

  /** What an alert's turn in a successful check adds to the log. */
  function SuccessTurn(c: Config, i: nat, log: seq<Notification>, successes: int, check: nat): seq<Notification>
    requires i < |c.alerts|
  {
    var a := c.alerts[i];
    if Open(log, i) && a.enabled != Some(false) && a.successThreshold <= successes
    then [Cleared(i, a.sendOnResolved == Some(true) && a.kind in c.providers, check)] else []
  }

  /** The log after the first n turns of a check; `h` ends with the outcome of the check. */
  function LogAfterTurns(c: Config, log: seq<Notification>, h: seq<bool>, check: Check, n: nat): seq<Notification>
    requires n <= |c.alerts| == |check.attempts|
  {
    if n == 0 then log
    else
      var before := LogAfterTurns(c, log, h, check, n - 1);
      before + if check.success then SuccessTurn(c, n - 1, before, Trailing(h, true), |h|)
               else FailureTurn(c, n - 1, before, Trailing(h, false), check.attempts[n - 1], |h|)
  }

  /** The log of a whole process. */
  ghost function Announced(c: Config, checks: seq<Check>): seq<Notification>
    requires AllFit(c, checks)
  {
    if |checks| == 0 then []
    else
      LogAfterTurns(c, Announced(c, checks[..|checks| - 1]), OutcomesOf(checks), checks[|checks| - 1], |c.alerts|)
  }

  /** The state knows what the log tells. */
  ghost predicate KnowsLog(c: Config, s: State) {
    OpenInv(c, s) && SpacedInv(c, s)
  }

  lemma FailureTurnIsSent(c: Config, i: nat, s: State, attempt: Attempt)
    requires KnowsLog(c, s) && i < |c.alerts|
    ensures var s' := TriggerAlert(c, i, s, attempt);
            && KnowsLog(c, s')
            && s'.log == s.log + FailureTurn(c, i, s.log, s.failures, attempt, s.handled)
            && s'.failures == s.failures && s'.handled == s.handled && s'.successes == s.successes
  {
    TriggerKeepsLog(c, i, s, attempt);
    assert s.log + [] == s.log;
    assert s.alerts[i].triggered == Open(s.log, i);
    hide Open, LastSend, Alternates, Spaced;
  }

  lemma SuccessTurnIsSent(c: Config, i: nat, s: State, attempt: Attempt)
    requires KnowsLog(c, s) && i < |c.alerts|
    ensures var s' := ResolveAlert(c, i, s, attempt);
            && KnowsLog(c, s')
            && s'.log == s.log + SuccessTurn(c, i, s.log, s.successes, s.handled)
            && s'.failures == s.failures && s'.handled == s.handled && s'.successes == s.successes
  {
    ResolveKeepsLog(c, i, s, attempt);
    assert s.log + [] == s.log;
    assert s.alerts[i].triggered == Open(s.log, i);
    hide Open, LastSend, Alternates, Spaced;
  }

  /** The state in which an alert's turn begins. */
  function AtTurn(c: Config, s: State, check: Check, n: nat): (s': State)
    requires c.Fits(s) && c.FitsCheck(check) && n <= |c.alerts|
    ensures c.Fits(s')
  {
    var counted := Counted(s, check.success);
    if check.success then ResolveFirst(c, counted, check.attempts, n) else TriggerFirst(c, counted, check.attempts, n)
  }

  lemma CountedKnowsLog(c: Config, s: State, success: bool)
    requires KnowsLog(c, s)
    ensures KnowsLog(c, Counted(s, success)) && Counted(s, success).log == s.log
  {
  }

  lemma {:induction false} TurnsAreSent(c: Config, s: State, h: seq<bool>, check: Check, n: nat)
    requires KnowsLog(c, s) && c.FitsCheck(check) && n <= |c.alerts|
    requires |h| == s.handled + 1
    requires if check.success then Trailing(h, true) == s.successes + 1 else Trailing(h, false) == s.failures + 1
    ensures var turn := AtTurn(c, s, check, n);
            && KnowsLog(c, turn) && turn.log == LogAfterTurns(c, s.log, h, check, n)
            && turn.handled == |h|
            && (if check.success then turn.successes == Trailing(h, true)
                else turn.failures == Trailing(h, false) && turn.successes == 0)
    decreases n
  {
    hide TriggerAlert, ResolveAlert, FailureTurn, SuccessTurn, Trailing;
    if n == 0 {
      hide KnowsLog;
      CountedKnowsLog(c, s, check.success);
    } else {
      TurnsAreSent(c, s, h, check, n - 1);
      hide KnowsLog;
      if check.success {
        SuccessTurnIsSent(c, n - 1, AtTurn(c, s, check, n - 1), check.attempts[n - 1]);
      } else {
        FailureTurnIsSent(c, n - 1, AtTurn(c, s, check, n - 1), check.attempts[n - 1]);
      }
    }
  }

  lemma TurnsOfRun(c: Config, checks: seq<Check>, check: Check, n: nat)
    requires AllFit(c, checks) && c.FitsCheck(check) && n <= |c.alerts|
    ensures var s, h := Run(c, checks), OutcomesOf(checks + [check]);
            var turn := AtTurn(c, s, check, n);
            && KnowsLog(c, turn) && turn.log == LogAfterTurns(c, s.log, h, check, n)
            && turn.handled == |h|
            && (if check.success then turn.successes == Trailing(h, true)
                else turn.failures == Trailing(h, false) && turn.successes == 0)
  {
    var h := OutcomesOf(checks + [check]);
    RunKeepsLog(c, checks);
    Counters(c, checks);
    assert h[..|checks|] == OutcomesOf(checks);
    TurnsAreSent(c, Run(c, checks), h, check, n);
  }

  /** Everything a process sends, initial notifications, reminders and resolves alike, is what the history alone says.
      */
  lemma {:induction false} RunAnnounces(c: Config, checks: seq<Check>)
    requires AllFit(c, checks)
    ensures Run(c, checks).log == Announced(c, checks)
  {
    if |checks| > 0 {
      var before, check := checks[..|checks| - 1], checks[|checks| - 1];
      RunAnnounces(c, before);
      assert before + [check] == checks;
      TurnsOfRun(c, before, check, |c.alerts|);
    }
  }

  // ---------------------------------------------------------------- one turn of a run

  lemma SameCheckLater(c: Config, s: State, check: Check, i: nat)
    requires c.Fits(s) && c.FitsCheck(check) && i < |c.alerts|
    ensures AtTurn(c, s, check, i + 1)
         == if check.success then ResolveAlert(c, i, AtTurn(c, s, check, i), check.attempts[i])
            else TriggerAlert(c, i, AtTurn(c, s, check, i), check.attempts[i])
  {
    hide TriggerAlert, ResolveAlert;
  }

  lemma SentIsAppended(log: seq<Notification>, sent: seq<Notification>, x: Notification)
    ensures log + sent == log + [x] <==> sent == [x]
    ensures log + sent == log <==> sent == []
  {
    if log + sent == log + [x] {
      assert (log + sent)[|log|..] == (log + [x])[|log|..];
    }
    if log + sent == log {
      assert |sent| == 0;
    }
  }

  /** Exactly when an alert's turn in a failed check of a run tries to send a reminder, or its initial notification; its
      row is written exactly if that succeeds, and the resolve key the attempt leaves behind stays in any case. */
  lemma FailureTurnExactly(c: Config, checks: seq<Check>, check: Check, i: nat)
    requires AllFit(c, checks) && c.FitsCheck(check) && !check.success && i < |c.alerts|
    ensures var s, failures := Run(c, checks), Trailing(OutcomesOf(checks + [check]), false);
            var turn, next := AtTurn(c, s, check, i), AtTurn(c, s, check, i + 1);
            var a, attempt, triggered := c.alerts[i], check.attempts[i], turn.alerts[i].triggered;
            var due := && LastSend(turn.log).Some?
                       && 0 < a.minimumReminderInterval <= attempt.at - LastSend(turn.log).value;
            var tried := && a.enabled != Some(false) && a.kind in c.providers && a.failureThreshold <= failures
                         && (triggered ==> due);
            && (next.log == turn.log + [Reminder(i, attempt.at)] <==> tried && attempt.ok && triggered)
            && (next.log == turn.log + [Initial(i, attempt.at, |checks| + 1)] <==> tried && attempt.ok && !triggered)
            && (tried && attempt.ok ==>
                  && next.alerts == turn.alerts[i := AlertState(true, attempt.resolveKey)]
                  && next.rows == turn.rows[a.checksum := AlertRow(attempt.resolveKey, 0)])
            && (tried && !attempt.ok ==>
                  && next.alerts == turn.alerts[i := AlertState(triggered, attempt.resolveKey)]
                  && next.log == turn.log && next.rows == turn.rows)
            && (!tried ==> next == turn)
  {
    var s := Run(c, checks);
    TurnsOfRun(c, checks, check, i);
    SameCheckLater(c, s, check, i);
    assert AtTurn(c, s, check, i).alerts[i].triggered == Open(AtTurn(c, s, check, i).log, i);
    var turn, attempt := AtTurn(c, s, check, i), check.attempts[i];
    FailureTurnIsSent(c, i, turn, attempt);
    hide HandleAll, LastSend, Open, Trailing, AtTurn, KnowsLog;
    var sent := FailureTurn(c, i, turn.log, turn.failures, attempt, turn.handled);
    SentIsAppended(turn.log, sent, Reminder(i, attempt.at));
    SentIsAppended(turn.log, sent, Initial(i, attempt.at, turn.handled));
  }

  /** Exactly when an alert's turn in a successful check of a run resolves it, and whether that is sent; until then its
      row counts the successes. */
  lemma SuccessTurnExactly(c: Config, checks: seq<Check>, check: Check, i: nat)
    requires AllFit(c, checks) && c.FitsCheck(check) && check.success && i < |c.alerts|
    ensures var s, successes := Run(c, checks), Trailing(OutcomesOf(checks + [check]), true);
            var turn, next, a := AtTurn(c, s, check, i), AtTurn(c, s, check, i + 1), c.alerts[i];
            var counting := turn.alerts[i].triggered && a.enabled != Some(false);
            var notified := a.sendOnResolved == Some(true) && a.kind in c.providers;
            if counting && a.successThreshold <= successes then
              && next.log == turn.log + [Cleared(i, notified, |checks| + 1)] && next.rows == turn.rows - {a.checksum}
              && next.alerts[i].resolveKey
                   == if notified then check.attempts[i].resolveKey else turn.alerts[i].resolveKey
            else
              && next.log == turn.log && next.alerts == turn.alerts
              && next.rows == if counting then turn.rows[a.checksum := AlertRow(turn.alerts[i].resolveKey, successes)]
                              else turn.rows
  {
    var s := Run(c, checks);
    TurnsOfRun(c, checks, check, i);
    SameCheckLater(c, s, check, i);
    SuccessTurnIsSent(c, i, AtTurn(c, s, check, i), check.attempts[i]);
    hide HandleAll, LastSend, Open, Trailing;
  }
}
