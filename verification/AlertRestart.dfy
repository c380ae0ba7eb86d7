/** Restarting in the middle of a run: what is reloaded from the triggered-alert rows, and when nobody outside can tell
    (main.go, watchdog/alerting.go). */
module AlertRestart {
  import opened Alerts
  import opened AlertRows
  import opened Outcomes
  import opened SqlTables

  /** Whether an enabled alert of the configuration has the checksum. */
  predicate IsEnabledChecksum(c: Config, checksum: string) {
    exists i :: 0 <= i < |c.alerts| && c.alerts[i].IsEnabled() && c.alerts[i].checksum == checksum
  }

  /** DeleteAllTriggeredAlertsNotInChecksumsByEndpoint with the checksums of the enabled alerts. */
  function KeptRows(c: Config, rows: map<string, AlertRow>): map<string, AlertRow> {
    map checksum | checksum in rows && IsEnabledChecksum(c, checksum) :: rows[checksum]
  }

  /** One iteration of the loop over the alerts in initializeStorage. */
  function LoadAlert(c: Config, i: nat, s: State): (s': State)
    requires c.Fits(s) && i < |c.alerts|
    ensures c.Fits(s')
  {
    var a := c.alerts[i];
    if a.checksum in s.rows then
      var row := s.rows[a.checksum];
      s.(alerts := s.alerts[i := AlertState(true, row.resolveKey)], successes := row.numberOfSuccessesInARow,
         failures := a.failureThreshold)
    else s
  }

  function LoadFirst(c: Config, s: State, n: nat): (s': State)
    requires c.Fits(s) && n <= |c.alerts|
    ensures c.Fits(s')
  {
    if n == 0 then s else LoadAlert(c, n - 1, LoadFirst(c, s, n - 1))
  }

  /** initializeStorage for one endpoint: only the rows survive the old process. */
  function Reload(c: Config, rows: map<string, AlertRow>): (s: State)
    ensures c.Fits(s)
  {
    LoadFirst(c, Initially(c).(rows := KeptRows(c, rows)), |c.alerts|)
  }

  /** The reload triggers exactly the enabled alerts that have a row, with the rows that may stay. */
  lemma {:induction false} ReloadTriggersRows(c: Config, rows: map<string, AlertRow>, n: nat, i: nat)
    requires n <= |c.alerts| && i < |c.alerts|
    ensures var s := LoadFirst(c, Initially(c).(rows := KeptRows(c, rows)), n);
            && s.rows == KeptRows(c, rows)
            && (s.alerts[i].triggered <==> i < n && c.alerts[i].checksum in KeptRows(c, rows))
  {
    if n > 0 {
      ReloadTriggersRows(c, rows, n - 1, i);
    }
  }

  lemma {:induction false} LoadKeepsRows(c: Config, s: State, n: nat)
    requires c.Fits(s) && n <= |c.alerts|
    ensures var s' := LoadFirst(c, s, n);
            s'.rows == s.rows && s'.lastReminderSent == s.lastReminderSent && s'.handled == s.handled && s'.log == s.log
  {
    if n > 0 {
      LoadKeepsRows(c, s, n - 1);
    }
  }

  /** A reloaded alert has the resolve key of its row. */
  lemma {:induction false} LoadedResolveKeys(c: Config, rows: map<string, AlertRow>, n: nat, i: nat)
    requires n <= |c.alerts| && i < |c.alerts|
    ensures var s, checksum := LoadFirst(c, Initially(c).(rows := rows), n), c.alerts[i].checksum;
            && s.rows == rows
            && s.alerts[i] == if i < n && checksum in rows then AlertState(true, rows[checksum].resolveKey)
                              else AlertState(false, "")
  {
    if n > 0 {
      LoadedResolveKeys(c, rows, n - 1, i);
    }
  }

  /** The alert's row may stay, and no later alert has such a row. */
  ghost predicate IsLastWithRow(c: Config, rows: map<string, AlertRow>, i: nat) {
    && i < |c.alerts| && c.alerts[i].checksum in rows
    && forall j :: i < j < |c.alerts| ==> c.alerts[j].checksum !in rows
  }

  lemma {:induction false} LoadedCounters(c: Config, rows: map<string, AlertRow>, n: nat, i: nat)
    requires n <= |c.alerts|
    ensures var s := LoadFirst(c, Initially(c).(rows := rows), n);
            && s.rows == rows
            && (IsLastWithRow(c, rows, i) && i < n ==>
                  && s.failures == c.alerts[i].failureThreshold
                  && s.successes == rows[c.alerts[i].checksum].numberOfSuccessesInARow)
            && ((forall j :: 0 <= j < n ==> c.alerts[j].checksum !in rows) ==> s.failures == 0 && s.successes == 0)
  {
    if n > 0 {
      LoadedCounters(c, rows, n - 1, i);
    }
  }

  /** Everything that a reload gives: the rows of removed and disabled alerts are gone, the others are as they were; an
      alert is triggered, with the resolve key of its row, exactly if it has a row that stays; and the counters come
      from the last alert that has one. */
  lemma ReloadContents(c: Config, rows: map<string, AlertRow>, i: nat)
    requires i < |c.alerts|
    ensures var t, checksum := Reload(c, rows), c.alerts[i].checksum;
            && (forall k :: k in t.rows <==>
                  && k in rows
                  && exists j :: 0 <= j < |c.alerts| && c.alerts[j].enabled != Some(false) && c.alerts[j].checksum == k)
            && (forall k :: k in t.rows ==> t.rows[k] == rows[k])
            && t.alerts[i] == (if checksum in t.rows then AlertState(true, rows[checksum].resolveKey)
                               else AlertState(false, ""))
            && (IsLastWithRow(c, t.rows, i) ==>
                  && t.failures == c.alerts[i].failureThreshold
                  && t.successes == rows[checksum].numberOfSuccessesInARow)
            && ((forall j :: 0 <= j < |c.alerts| ==> c.alerts[j].checksum !in t.rows) ==>
                  t.failures == 0 && t.successes == 0)
            && t.lastReminderSent == None && t.log == []
  {
    var kept := KeptRows(c, rows);
    LoadedResolveKeys(c, kept, |c.alerts|, i);
    LoadedCounters(c, kept, |c.alerts|, i);
    LoadKeepsRows(c, Initially(c).(rows := kept), |c.alerts|);
    hide LoadFirst;
  }

  /** With unchanged configuration a restart keeps the rows and triggers the alerts that were triggered: the reloaded
      state agrees with its rows again. */
  lemma ReloadKeepsRows(c: Config, s: State)
    requires DistinctChecksums(c) && RowsAgree(c, s)
    ensures var t := Reload(c, s.rows);
            && RowsAgree(c, t) && t.rows == s.rows
            && forall i :: 0 <= i < |c.alerts| ==> t.alerts[i].triggered == s.alerts[i].triggered
  {
    forall checksum | checksum in s.rows ensures IsEnabledChecksum(c, checksum) {
      var i :| 0 <= i < |c.alerts| && c.alerts[i].checksum == checksum;
      assert RowAgrees(c, s, i);
    }
    assert KeptRows(c, s.rows) == s.rows;
    var t := Reload(c, s.rows);
    LoadKeepsRows(c, Initially(c).(rows := s.rows), |c.alerts|);
    forall i | 0 <= i < |c.alerts|
      ensures t.alerts[i].triggered == s.alerts[i].triggered && RowAgrees(c, t, i)
    {
      assert RowAgrees(c, s, i);
      ReloadTriggersRows(c, s.rows, |c.alerts|, i);
    }
  }

  // ---------------------------------------------------------------- what an observer sees

  /** The initial and resolved notifications of a log; reminders aside. */
  function Observed(log: seq<Notification>): seq<Notification> {
    if |log| == 0 then []
    else
      var last, before := log[|log| - 1], Observed(log[..|log| - 1]);
      if last.Initial? || (last.Cleared? && last.notified) then before + [last] else before
  }

  lemma ObservedAfter(log: seq<Notification>, n: Notification)
    ensures Observed(log + [n])
         == Observed(log) + (if n.Initial? || (n.Cleared? && n.notified) then [n] else [])
  {
    assert (log + [n])[..|log|] == log;
    assert Observed(log) + [] == Observed(log);
  }

  function FromNow(s: State): State {
    s.(handled := 0, log := [])
  }

  /** The notifications a state will send for a future, counted from now. */
  ghost function Future(c: Config, s: State, checks: seq<Check>): seq<Notification>
    requires c.Fits(s) && AllFit(c, checks)
  {
    Observed(HandleAll(c, FromNow(s), checks).log)
  }

  /** Restarting in this state cannot be told from never restarting. */
  ghost predicate Transparent(c: Config, s: State)
    requires c.Fits(s)
  {
    forall checks :: AllFit(c, checks) ==> Future(c, s, checks) == Future(c, Reload(c, s.rows), checks)
  }

  // ---------------------------------------------------------------- keeping pace

  /** How many more checks of one kind are needed: the next one is needed in any case. */
  function Distance(threshold: int, count: int): int {
    if threshold - count > 1 then threshold - count else 1
  }

  /** The alert is as far from its next notification in one state as in the other. */
  predicate AlertKeepsPace(c: Config, s: State, t: State, i: nat)
    requires c.Fits(s) && c.Fits(t) && i < |c.alerts|
  {
    && s.alerts[i].triggered == t.alerts[i].triggered
    && (s.alerts[i].triggered ==>
          Distance(c.alerts[i].successThreshold, s.successes) == Distance(c.alerts[i].successThreshold, t.successes))
    && (!s.alerts[i].triggered && c.Live(i) ==>
          Distance(c.alerts[i].failureThreshold, s.failures) == Distance(c.alerts[i].failureThreshold, t.failures))
  }

  predicate AllKeepPace(c: Config, s: State, t: State)
    requires c.Fits(s) && c.Fits(t)
  {
    forall i :: 0 <= i < |c.alerts| ==> AlertKeepsPace(c, s, t, i)
  }

  /** The condition to look at before a restart. */
  predicate KeepsPace(c: Config, s: State)
    requires c.Fits(s)
  {
    AllKeepPace(c, s, Reload(c, s.rows))
  }

  /** Two states that have sent the same, for the same alerts. */
  ghost predicate Alike(c: Config, s: State, t: State) {
    && c.Fits(s) && c.Fits(t) && s.handled == t.handled && Observed(s.log) == Observed(t.log)
    && forall i :: 0 <= i < |c.alerts| ==> s.alerts[i].triggered == t.alerts[i].triggered
  }

  /** Both counters reach the threshold, or neither does. */
  predicate SameSide(threshold: int, count1: int, count2: int) {
    threshold <= count1 <==> threshold <= count2
  }

  lemma TriggerAlike(c: Config, i: nat, s: State, t: State, attempt: Attempt)
    requires Alike(c, s, t) && i < |c.alerts|
    requires !s.alerts[i].triggered && c.Live(i) ==> SameSide(c.alerts[i].failureThreshold, s.failures, t.failures)
    ensures Alike(c, TriggerAlert(c, i, s, attempt), TriggerAlert(c, i, t, attempt))
  {
    hide Observed;
    ObservedAfter(s.log, Reminder(i, attempt.at));
    ObservedAfter(t.log, Reminder(i, attempt.at));
    ObservedAfter(s.log, Initial(i, attempt.at, s.handled));
    ObservedAfter(t.log, Initial(i, attempt.at, t.handled));
  }

  lemma ResolveAlike(c: Config, i: nat, s: State, t: State, attempt: Attempt)
    requires Alike(c, s, t) && i < |c.alerts|
    requires s.alerts[i].triggered ==> SameSide(c.alerts[i].successThreshold, s.successes, t.successes)
    ensures Alike(c, ResolveAlert(c, i, s, attempt), ResolveAlert(c, i, t, attempt))
  {
    hide Observed;
    var notified := c.alerts[i].IsSendingOnResolved() && c.alerts[i].kind in c.providers;
    ObservedAfter(s.log, Cleared(i, notified, s.handled));
    ObservedAfter(t.log, Cleared(i, notified, t.handled));
  }

  lemma {:induction false} TriggerLoopAlike(c: Config, s: State, t: State, attempts: seq<Attempt>, n: nat)
    requires c.Fits(s) && c.Fits(t) && Alike(c, s, t) && n <= |c.alerts| == |attempts|
    requires forall i :: 0 <= i < |c.alerts| && !s.alerts[i].triggered && c.Live(i) ==>
      SameSide(c.alerts[i].failureThreshold, s.failures, t.failures)
    ensures Alike(c, TriggerFirst(c, s, attempts, n), TriggerFirst(c, t, attempts, n))
  {
    hide Alike, TriggerAlert, SameSide;
    if n > 0 {
      TriggerLoopAlike(c, s, t, attempts, n - 1);
      TriggerEffect(c, s, attempts, n - 1, n - 1);
      TriggerEffect(c, t, attempts, n - 1, n - 1);
      TriggerAlike(c, n - 1, TriggerFirst(c, s, attempts, n - 1), TriggerFirst(c, t, attempts, n - 1), attempts[n - 1]);
    }
  }

  lemma {:induction false} ResolveLoopAlike(c: Config, s: State, t: State, attempts: seq<Attempt>, n: nat)
    requires c.Fits(s) && c.Fits(t) && Alike(c, s, t) && n <= |c.alerts| == |attempts|
    requires forall i :: 0 <= i < |c.alerts| && s.alerts[i].triggered ==>
      SameSide(c.alerts[i].successThreshold, s.successes, t.successes)
    ensures Alike(c, ResolveFirst(c, s, attempts, n), ResolveFirst(c, t, attempts, n))
  {
    hide Alike, ResolveAlert, SameSide;
    if n > 0 {
      ResolveLoopAlike(c, s, t, attempts, n - 1);
      ResolveEffect(c, s, attempts, n - 1, n - 1);
      ResolveEffect(c, t, attempts, n - 1, n - 1);
      ResolveAlike(c, n - 1, ResolveFirst(c, s, attempts, n - 1), ResolveFirst(c, t, attempts, n - 1), attempts[n - 1]);
    }
  }

  lemma PaceAfter(c: Config, s: State, t: State, check: Check, i: nat)
    requires c.Fits(s) && c.Fits(t) && c.FitsCheck(check) && i < |c.alerts| && AlertKeepsPace(c, s, t, i)
    ensures AlertKeepsPace(c, Handle(c, s, check), Handle(c, t, check), i)
  {
    HandleEffect(c, s, check, i);
    HandleEffect(c, t, check, i);
    hide Handle;
  }

  lemma HandleAlike(c: Config, s: State, t: State, check: Check)
    requires Alike(c, s, t) && AllKeepPace(c, s, t) && c.FitsCheck(check)
    ensures Alike(c, Handle(c, s, check), Handle(c, t, check))
    ensures AllKeepPace(c, Handle(c, s, check), Handle(c, t, check))
  {
    forall i | 0 <= i < |c.alerts| ensures AlertKeepsPace(c, Handle(c, s, check), Handle(c, t, check), i) {
      assert AlertKeepsPace(c, s, t, i);
      PaceAfter(c, s, t, check, i);
    }
    var s0, t0 := Counted(s, check.success), Counted(t, check.success);
    forall i | 0 <= i < |c.alerts|
      ensures check.success && s.alerts[i].triggered ==>
        SameSide(c.alerts[i].successThreshold, s0.successes, t0.successes)
      ensures !check.success && !s.alerts[i].triggered && c.Live(i) ==>
        SameSide(c.alerts[i].failureThreshold, s0.failures, t0.failures)
    {
      assert AlertKeepsPace(c, s, t, i);
    }
    hide TriggerFirst, ResolveFirst, Observed, SameSide;
    if check.success {
      ResolveLoopAlike(c, s0, t0, check.attempts, |c.alerts|);
    } else {
      TriggerLoopAlike(c, s0, t0, check.attempts, |c.alerts|);
    }
  }

  lemma {:induction false} RunsAlike(c: Config, s: State, t: State, checks: seq<Check>)
    requires c.Fits(s) && c.Fits(t) && Alike(c, s, t) && AllKeepPace(c, s, t) && AllFit(c, checks)
    ensures Alike(c, HandleAll(c, s, checks), HandleAll(c, t, checks))
    ensures AllKeepPace(c, HandleAll(c, s, checks), HandleAll(c, t, checks))
  {
    hide Alike, AllKeepPace, Handle;
    if |checks| > 0 {
      RunsAlike(c, s, t, checks[..|checks| - 1]);
      HandleAlike(c, HandleAll(c, s, checks[..|checks| - 1]), HandleAll(c, t, checks[..|checks| - 1]),
                  checks[|checks| - 1]);
    }
  }

  lemma PaceIsTransparent(c: Config, s: State)
    requires c.Fits(s) && KeepsPace(c, s)
    ensures Transparent(c, s)
  {
    var t := Reload(c, s.rows);
    var u, v := FromNow(s), FromNow(t);
    forall i | 0 <= i < |c.alerts|
      ensures s.alerts[i].triggered == t.alerts[i].triggered && AlertKeepsPace(c, u, v, i)
    {
      assert AlertKeepsPace(c, s, t, i);
    }
    hide Reload;
    forall checks | AllFit(c, checks) ensures Future(c, s, checks) == Future(c, t, checks) {
      RunsAlike(c, u, v, checks);
    }
  }

  // ---------------------------------------------------------------- falling behind is seen

  /** A check in which at most one alert's provider works. */
  function Only(c: Config, success: bool, i: int): (check: Check)
    ensures c.FitsCheck(check) && check.success == success
    ensures forall n :: 0 <= n < |c.alerts| ==> (check.attempts[n].ok <==> n == i)
  {
    Check(success, seq(|c.alerts|, n => Attempt(0, n == i, "")))
  }

  function Repeat(check: Check, k: nat): (checks: seq<Check>)
    ensures |checks| == k
  {
    seq(k, _ => check)
  }

  lemma HandleRepeat(c: Config, s: State, check: Check, k: nat)
    requires c.Fits(s) && c.FitsCheck(check)
    ensures AllFit(c, Repeat(check, k)) && AllFit(c, Repeat(check, k + 1))
    ensures HandleAll(c, s, Repeat(check, 0)) == s
    ensures HandleAll(c, s, Repeat(check, k + 1)) == Handle(c, HandleAll(c, s, Repeat(check, k)), check)
  {
    assert Repeat(check, k + 1)[..k] == Repeat(check, k);
    hide Handle;
  }

  /** The alert was announced. */
  ghost predicate Announced(log: seq<Notification>, i: nat) {
    exists p :: 0 <= p < |log| && log[p].Initial? && log[p].alert == i
  }

  lemma AnnouncedAfter(log: seq<Notification>, n: Notification, i: nat)
    ensures Announced(log + [n], i) <==> Announced(log, i) || (n.Initial? && n.alert == i)
  {
    var longer := log + [n];
    assert longer[|log|] == n;
    if Announced(log, i) {
      var p :| 0 <= p < |log| && log[p].Initial? && log[p].alert == i;
      assert longer[p] == log[p];
    }
  }

  lemma {:induction false} AnnouncedIsObserved(log: seq<Notification>, i: nat)
    ensures Announced(Observed(log), i) <==> Announced(log, i)
  {
    if |log| > 0 {
      var before, last := log[..|log| - 1], log[|log| - 1];
      AnnouncedIsObserved(before, i);
      AnnouncedAfter(before, last, i);
      AnnouncedAfter(Observed(before), last, i);
      assert log == before + [last];
    }
  }

  lemma {:induction false} TriggerAnnounces(c: Config, s: State, attempts: seq<Attempt>, n: nat, i: nat)
    requires c.Fits(s) && n <= |c.alerts| == |attempts| && i < |c.alerts|
    ensures Announced(TriggerFirst(c, s, attempts, n).log, i)
       <==> Announced(s.log, i) || (i < n && !s.alerts[i].triggered && Fires(c, i, s.failures, attempts[i]))
  {
    if n > 0 {
      var before := TriggerFirst(c, s, attempts, n - 1);
      TriggerAnnounces(c, s, attempts, n - 1, i);
      TriggerEffect(c, s, attempts, n - 1, n - 1);
      AnnouncedAfter(before.log, Initial(n - 1, attempts[n - 1].at, s.handled), i);
      AnnouncedAfter(before.log, Reminder(n - 1, attempts[n - 1].at), i);
    }
  }

  lemma {:induction false} ResolveAnnouncesNothing(c: Config, s: State, attempts: seq<Attempt>, n: nat, i: nat)
    requires c.Fits(s) && n <= |c.alerts| == |attempts|
    ensures Announced(ResolveFirst(c, s, attempts, n).log, i) <==> Announced(s.log, i)
  {
    if n > 0 {
      var before := ResolveFirst(c, s, attempts, n - 1);
      ResolveAnnouncesNothing(c, s, attempts, n - 1, i);
      ResolveEffect(c, s, attempts, n - 1, n - 1);
      var notified := c.alerts[n - 1].IsSendingOnResolved() && c.alerts[n - 1].kind in c.providers;
      AnnouncedAfter(before.log, Cleared(n - 1, notified, s.handled), i);
    }
  }

  lemma HandleAnnounces(c: Config, s: State, check: Check, i: nat)
    requires c.Fits(s) && c.FitsCheck(check) && i < |c.alerts|
    ensures Announced(Handle(c, s, check).log, i)
       <==> Announced(s.log, i)
            || (!check.success && !s.alerts[i].triggered && Fires(c, i, s.failures + 1, check.attempts[i]))
  {
    TriggerAnnounces(c, Counted(s, false), check.attempts, |c.alerts|, i);
    ResolveAnnouncesNothing(c, Counted(s, true), check.attempts, |c.alerts|, i);
  }

  /** k failures in which only this alert's provider works. */
  lemma {:induction false} RepeatedFailures(c: Config, s: State, i: nat, k: nat)
    requires c.Fits(s) && i < |c.alerts| && c.Live(i)
    ensures var checks := Repeat(Only(c, false, i), k);
            && AllFit(c, checks)
            && var s', reached := HandleAll(c, s, checks), k > 0 && c.alerts[i].failureThreshold <= s.failures + k;
               && s'.failures == s.failures + k
               && (s'.alerts[i].triggered <==> s.alerts[i].triggered || reached)
               && (Announced(s'.log, i) <==> Announced(s.log, i) || (!s.alerts[i].triggered && reached))
  {
    HandleRepeat(c, s, Only(c, false, i), if k > 0 then k - 1 else 0);
    if k > 0 {
      RepeatedFailures(c, s, i, k - 1);
      var before := HandleAll(c, s, Repeat(Only(c, false, i), k - 1));
      HandleEffect(c, before, Only(c, false, i), i);
      HandleAnnounces(c, before, Only(c, false, i), i);
      hide Handle, HandleAll, Announced;
    }
  }

  /** k successes. */
  lemma {:induction false} RepeatedSuccesses(c: Config, s: State, i: nat, k: nat)
    requires c.Fits(s) && i < |c.alerts| && c.Live(i) && s.alerts[i].triggered
    ensures var checks := Repeat(Only(c, true, -1), k);
            && AllFit(c, checks)
            && var s' := HandleAll(c, s, checks);
               && s'.successes == s.successes + k && (k > 0 ==> s'.failures == 0)
               && (s'.alerts[i].triggered <==> k == 0 || s.successes + k < c.alerts[i].successThreshold)
               && (Announced(s'.log, i) <==> Announced(s.log, i))
  {
    HandleRepeat(c, s, Only(c, true, -1), if k > 0 then k - 1 else 0);
    if k > 0 {
      RepeatedSuccesses(c, s, i, k - 1);
      var before := HandleAll(c, s, Repeat(Only(c, true, -1), k - 1));
      HandleEffect(c, before, Only(c, true, -1), i);
      HandleAnnounces(c, before, Only(c, true, -1), i);
      hide Handle, HandleAll, Announced;
    }
  }

  lemma {:induction false} HandleAllConcat(c: Config, s: State, a: seq<Check>, b: seq<Check>)
    requires c.Fits(s) && AllFit(c, a) && AllFit(c, b)
    ensures AllFit(c, a + b)
    ensures HandleAll(c, s, a + b) == HandleAll(c, HandleAll(c, s, a), b)
  {
    hide Handle;
    if |b| == 0 {
      assert a + b == a;
    } else {
      var b' := b[..|b| - 1];
      assert (a + b)[..|a + b| - 1] == a + b';
      HandleAllConcat(c, s, a, b');
    }
  }

  /** The alert is announced in one future and not in the other. */
  lemma DifferentAnnouncements(c: Config, s: State, checks: seq<Check>, i: nat)
    requires c.Fits(s) && AllFit(c, checks)
    requires Announced(HandleAll(c, FromNow(s), checks).log, i)
          != Announced(HandleAll(c, FromNow(Reload(c, s.rows)), checks).log, i)
    ensures !Transparent(c, s)
  {
    AnnouncedIsObserved(HandleAll(c, FromNow(s), checks).log, i);
    AnnouncedIsObserved(HandleAll(c, FromNow(Reload(c, s.rows)), checks).log, i);
    hide HandleAll, Reload, Observed, Announced;
    assert Future(c, s, checks) != Future(c, Reload(c, s.rows), checks);
  }

  /** An alert that is nearer to firing in one of two states is announced there alone. */
  lemma NearerToFiring(c: Config, near: State, far: State, i: nat) returns (checks: seq<Check>)
    requires c.Fits(near) && c.Fits(far) && i < |c.alerts| && c.Live(i) && near.log == far.log == []
    requires !near.alerts[i].triggered && !far.alerts[i].triggered
    requires Distance(c.alerts[i].failureThreshold, near.failures) < Distance(c.alerts[i].failureThreshold, far.failures)
    ensures AllFit(c, checks)
    ensures Announced(HandleAll(c, near, checks).log, i) && !Announced(HandleAll(c, far, checks).log, i)
  {
    var k := Distance(c.alerts[i].failureThreshold, near.failures);
    checks := Repeat(Only(c, false, i), k);
    RepeatedFailures(c, near, i, k);
    RepeatedFailures(c, far, i, k);
  }

  /** An alert that is nearer to its resolve in one of two states is announced again there alone. */
  lemma NearerToResolve(c: Config, near: State, far: State, i: nat) returns (checks: seq<Check>)
    requires c.Fits(near) && c.Fits(far) && i < |c.alerts| && c.Live(i) && near.log == far.log == []
    requires near.alerts[i].triggered && far.alerts[i].triggered && c.alerts[i].failureThreshold >= 1
    requires Distance(c.alerts[i].successThreshold, near.successes) < Distance(c.alerts[i].successThreshold, far.successes)
    ensures AllFit(c, checks)
    ensures Announced(HandleAll(c, near, checks).log, i) && !Announced(HandleAll(c, far, checks).log, i)
  {
    var k, n := Distance(c.alerts[i].successThreshold, near.successes), c.alerts[i].failureThreshold;
    var a, b := Repeat(Only(c, true, -1), k), Repeat(Only(c, false, i), n);
    RepeatedSuccesses(c, near, i, k);
    RepeatedSuccesses(c, far, i, k);
    RepeatedFailures(c, HandleAll(c, near, a), i, n);
    RepeatedFailures(c, HandleAll(c, far, a), i, n);
    HandleAllConcat(c, near, a, b);
    HandleAllConcat(c, far, a, b);
    checks := a + b;
  }

  lemma FallingBehindIsSeen(c: Config, s: State, i: nat)
    requires c.Valid() && DistinctChecksums(c) && RowsAgree(c, s) && i < |c.alerts|
    requires !AlertKeepsPace(c, s, Reload(c, s.rows), i)
    ensures !Transparent(c, s)
  {
    var u, v := FromNow(s), FromNow(Reload(c, s.rows));
    ReloadKeepsRows(c, s);
    assert RowAgrees(c, s, i) && c.alerts[i].Valid();
    hide RowsAgree, Reload, HandleAll, Announced, Transparent;
    var checks;
    if s.alerts[i].triggered {
      if Distance(c.alerts[i].successThreshold, u.successes) < Distance(c.alerts[i].successThreshold, v.successes) {
        checks := NearerToResolve(c, u, v, i);
      } else {
        checks := NearerToResolve(c, v, u, i);
      }
    } else {
      if Distance(c.alerts[i].failureThreshold, u.failures) < Distance(c.alerts[i].failureThreshold, v.failures) {
        checks := NearerToFiring(c, u, v, i);
      } else {
        checks := NearerToFiring(c, v, u, i);
      }
    }
    DifferentAnnouncements(c, s, checks, i);
  }

  /** For any number of alerts, in every state that agrees with its rows: a restart is invisible exactly if every alert
      keeps pace. */
  lemma TransparentExactly(c: Config, s: State)
    requires c.Valid() && DistinctChecksums(c) && RowsAgree(c, s)
    ensures Transparent(c, s) <==> KeepsPace(c, s)
  {
    if KeepsPace(c, s) {
      PaceIsTransparent(c, s);
    } else {
      var i: nat :| i < |c.alerts| && !AlertKeepsPace(c, s, Reload(c, s.rows), i);
      FallingBehindIsSeen(c, s, i);
    }
  }

  // ---------------------------------------------------------------- one alert

  /** The count of successes in the alert's row. */
  function PersistedSuccesses(c: Config, rows: map<string, AlertRow>): int
    requires |c.alerts| == 1
  {
    if c.alerts[0].checksum in rows then rows[c.alerts[0].checksum].numberOfSuccessesInARow else 0
  }

  /** What a one-alert endpoint's state satisfies in every reachable state. */
  ghost predicate Sound(c: Config, s: State) {
    && |c.alerts| == 1 && c.Fits(s) && c.Valid()
    && RowsAgree(c, s)
    && s.failures >= 0 && s.successes >= 0
    && (s.alerts[0].triggered ==>
          s.successes < c.alerts[0].successThreshold
          && 0 <= PersistedSuccesses(c, s.rows) < c.alerts[0].successThreshold)
  }

  /** One alert: handling is one iteration of a loop. */
  function HandleOne(c: Config, s: State, success: bool, attempt: Attempt): (s': State)
    requires |c.alerts| == 1 && c.Fits(s)
    ensures c.Fits(s')
  {
    if success then ResolveAlert(c, 0, Counted(s, true), attempt).(failures := 0)
    else TriggerAlert(c, 0, Counted(s, false), attempt)
  }

  lemma HandleIsHandleOne(c: Config, s: State, check: Check)
    requires |c.alerts| == 1 && c.Fits(s) && c.FitsCheck(check)
    ensures Handle(c, s, check) == HandleOne(c, s, check.success, check.attempts[0])
  {
    assert TriggerFirst(c, Counted(s, false), check.attempts, 0) == Counted(s, false);
    assert ResolveFirst(c, Counted(s, true), check.attempts, 0) == Counted(s, true);
  }

  lemma SoundStep(c: Config, s: State, check: Check)
    requires Sound(c, s) && c.FitsCheck(check)
    ensures Sound(c, Handle(c, s, check))
  {
    HandleKeepsRows(c, s, check);
    HandleIsHandleOne(c, s, check);
    assert RowAgrees(c, s, 0);
  }

  lemma SoundInitially(c: Config)
    requires |c.alerts| == 1 && c.Valid()
    ensures Sound(c, Initially(c))
  {
    assert RowAgrees(c, Initially(c), 0);
  }

  /** What the reload of a sound state looks like. */
  lemma ReloadOne(c: Config, s: State)
    requires Sound(c, s)
    ensures var t := Reload(c, s.rows);
            && t.alerts[0].triggered == s.alerts[0].triggered
            && t.log == [] && t.handled == 0
            && (s.alerts[0].triggered ==>
                  && t.successes == PersistedSuccesses(c, s.rows)
                  && t.failures == c.alerts[0].failureThreshold)
            && (!s.alerts[0].triggered ==> t.successes == 0 && t.failures == 0)
  {
    var s0 := Initially(c).(rows := KeptRows(c, s.rows));
    assert LoadFirst(c, s0, 0) == s0;
    assert RowAgrees(c, s, 0);
    if s.alerts[0].triggered {
      assert IsEnabledChecksum(c, c.alerts[0].checksum);
    }
  }

  /** The condition to look at before a restart: for a triggered alert the persisted count of successes must be the
      current one; otherwise there must be no failure to forget, unless one failure is enough anyway. */
  predicate SafeToRestart(c: Config, s: State)
    requires |c.alerts| == 1 && c.Fits(s)
  {
    if !c.Live(0) then true
    else if s.alerts[0].triggered then PersistedSuccesses(c, s.rows) == s.successes
    else s.failures == 0 || c.alerts[0].failureThreshold == 1
  }

  /** For one alert the condition comes down to that. */
  lemma SafeMeansPace(c: Config, s: State)
    requires Sound(c, s)
    ensures SafeToRestart(c, s) <==> KeepsPace(c, s)
  {
    ReloadOne(c, s);
    assert RowAgrees(c, s, 0) && c.alerts[0].Valid();
    var t := Reload(c, s.rows);
    assert KeepsPace(c, s) <==> AlertKeepsPace(c, s, t, 0);
  }

  /** A restart leaves a sound state behind. */
  lemma SoundReload(c: Config, s: State)
    requires Sound(c, s)
    ensures Sound(c, Reload(c, s.rows))
  {
    ReloadOne(c, s);
    ReloadKeepsRows(c, s);
  }
}
