/** The life of an endpoint's alerts over any number of processes: handled results and restarts in any order, with a
    provider that may fail (watchdog/alerting.go, main.go). */
module AlertLives {
  import opened AlertLog
  import opened AlertRestart
  import opened AlertRows
  import opened Alerts

  datatype LifeEvent = Handled(check: Check) | Restarted

  ghost predicate LifeFits(c: Config, life: seq<LifeEvent>) {
    forall n :: 0 <= n < |life| && life[n].Handled? ==> c.FitsCheck(life[n].check)
  }

  /** A restart with unchanged configuration: only the rows survive. What was sent before stays sent. */
  function Restart(c: Config, s: State): (s': State)
    requires c.Fits(s)
    ensures c.Fits(s')
  {
    Reload(c, s.rows).(handled := s.handled, log := s.log)
  }

  /** The state after a life that began with nothing stored. */
  ghost function StateAfter(c: Config, life: seq<LifeEvent>): (s: State)
    requires LifeFits(c, life)
    ensures c.Fits(s)
  {
    if |life| == 0 then Initially(c)
    else
      var s := StateAfter(c, life[..|life| - 1]);
      match life[|life| - 1]
      case Handled(check) => Handle(c, s, check)
      case Restarted => Restart(c, s)
  }

  lemma NoRows(c: Config)
    ensures RowsAgree(c, Initially(c))
  {
    assert forall i :: 0 <= i < |c.alerts| ==> RowAgrees(c, Initially(c), i);
  }

  /** What was handled and sent plays no part in what agrees with the rows. */
  lemma RestartKeepsRows(c: Config, s: State)
    requires DistinctChecksums(c) && RowsAgree(c, s)
    ensures var t := Restart(c, s);
            && RowsAgree(c, t) && t.rows == s.rows
            && forall i :: 0 <= i < |c.alerts| ==> t.alerts[i].triggered == s.alerts[i].triggered
  {
    var t := Reload(c, s.rows);
    ReloadKeepsRows(c, s);
    assert forall i :: 0 <= i < |c.alerts| ==> RowAgrees(c, t, i) ==> RowAgrees(c, Restart(c, s), i);
  }

  lemma {:induction false} LifeKeepsRows(c: Config, life: seq<LifeEvent>)
    requires DistinctChecksums(c) && LifeFits(c, life)
    ensures RowsAgree(c, StateAfter(c, life))
  {
    if |life| == 0 {
      NoRows(c);
    } else {
      var before := life[..|life| - 1];
      LifeKeepsRows(c, before);
      match life[|life| - 1]
      case Handled(check) => HandleKeepsRows(c, StateAfter(c, before), check);
      case Restarted => RestartKeepsRows(c, StateAfter(c, before));
    }
  }

  /** The last thing that happened is a handled success. */
  predicate JustSucceeded(life: seq<LifeEvent>) {
    |life| > 0 && life[|life| - 1].Handled? && life[|life| - 1].check.success
  }

  /** In every state of every life a row exists for exactly the triggered alerts, and after every handled success all
      rows carry the current success count. */
  lemma PersistenceAgreement(c: Config, life: seq<LifeEvent>)
    requires DistinctChecksums(c) && LifeFits(c, life)
    ensures RowsAgree(c, StateAfter(c, life))
    ensures JustSucceeded(life) ==>
      forall checksum :: checksum in StateAfter(c, life).rows ==>
        StateAfter(c, life).rows[checksum].numberOfSuccessesInARow == StateAfter(c, life).successes
  {
    LifeKeepsRows(c, life);
    if JustSucceeded(life) {
      var s, s' := StateAfter(c, life[..|life| - 1]), StateAfter(c, life);
      LifeKeepsRows(c, life[..|life| - 1]);
      HandleKeepsRows(c, s, life[|life| - 1].check);
      forall checksum | checksum in s'.rows ensures s'.rows[checksum].numberOfSuccessesInARow == s'.successes {
        assert IsChecksum(c, checksum);
      }
    }
  }

  /** A restart at any point of a life triggers exactly the alerts that were triggered, and keeps the rows. */
  lemma RestartRestoresTriggered(c: Config, life: seq<LifeEvent>, i: nat)
    requires DistinctChecksums(c) && LifeFits(c, life) && i < |c.alerts|
    ensures var s, t := StateAfter(c, life), Restart(c, StateAfter(c, life));
            t.alerts[i].triggered == s.alerts[i].triggered && t.rows == s.rows
  {
    LifeKeepsRows(c, life);
    RestartKeepsRows(c, StateAfter(c, life));
  }

  /** Restarting twice in a row is restarting once. */
  lemma RestartTwice(c: Config, s: State)
    requires c.Fits(s)
    ensures Restart(c, Restart(c, s)) == Restart(c, s)
  {
    var kept := KeptRows(c, s.rows);
    assert KeptRows(c, kept) == kept;
    LoadKeepsRows(c, Initially(c).(rows := kept), |c.alerts|);
  }

  /** For any number of alerts, in every state of every life, a restart is invisible exactly if every alert is as far
      from its next notification after the reload as before it. */
  lemma RestartTransparency(c: Config, life: seq<LifeEvent>)
    requires c.Valid() && DistinctChecksums(c) && LifeFits(c, life)
    ensures Transparent(c, StateAfter(c, life)) <==> KeepsPace(c, StateAfter(c, life))
  {
    LifeKeepsRows(c, life);
    TransparentExactly(c, StateAfter(c, life));
  }

  // ---------------------------------------------------------------- one alert

  lemma SoundRestart(c: Config, s: State)
    requires Sound(c, s)
    ensures Sound(c, Restart(c, s))
  {
    var t := Reload(c, s.rows);
    SoundReload(c, s);
    assert RowAgrees(c, t, 0) ==> RowAgrees(c, Restart(c, s), 0);
  }

  lemma {:induction false} LifeSound(c: Config, life: seq<LifeEvent>)
    requires |c.alerts| == 1 && c.Valid() && LifeFits(c, life)
    ensures Sound(c, StateAfter(c, life))
  {
    if |life| == 0 {
      SoundInitially(c);
    } else {
      var before := life[..|life| - 1];
      LifeSound(c, before);
      match life[|life| - 1]
      case Handled(check) => SoundStep(c, StateAfter(c, before), check);
      case Restarted => SoundRestart(c, StateAfter(c, before));
    }
  }

  /** For one alert the condition can be read off its row and the counters. */
  lemma OneAlertTransparency(c: Config, life: seq<LifeEvent>)
    requires |c.alerts| == 1 && c.Valid() && LifeFits(c, life)
    ensures Transparent(c, StateAfter(c, life)) <==> SafeToRestart(c, StateAfter(c, life))
  {
    LifeSound(c, life);
    SafeMeansPace(c, StateAfter(c, life));
    RestartTransparency(c, life);
  }

  /** Restarting right after a handled success is always invisible. */
  lemma TransparentAfterSuccess(c: Config, life: seq<LifeEvent>)
    requires |c.alerts| == 1 && c.Valid() && LifeFits(c, life) && JustSucceeded(life)
    ensures Transparent(c, StateAfter(c, life))
  {
    LifeSound(c, life);
    PersistenceAgreement(c, life);
    HandleCounters(c, StateAfter(c, life[..|life| - 1]), life[|life| - 1].check);
    assert RowAgrees(c, StateAfter(c, life), 0);
    OneAlertTransparency(c, life);
  }

  /** So is restarting right after the alert fired. */
  lemma TransparentAfterFiring(c: Config, life: seq<LifeEvent>)
    requires |c.alerts| == 1 && c.Valid() && LifeFits(c, life) && |life| > 0
    requires !StateAfter(c, life[..|life| - 1]).alerts[0].triggered && StateAfter(c, life).alerts[0].triggered
    ensures Transparent(c, StateAfter(c, life))
  {
    var before := life[..|life| - 1];
    LifeSound(c, before);
    match life[|life| - 1]
    case Handled(check) =>
      HandleEffect(c, StateAfter(c, before), check, 0);
      HandleIsHandleOne(c, StateAfter(c, before), check);
      OneAlertTransparency(c, life);
    case Restarted =>
      RestartKeepsRows(c, StateAfter(c, before));
  }

  /** And restarting again right after a restart. */
  lemma TransparentAfterRestart(c: Config, life: seq<LifeEvent>)
    requires |c.alerts| == 1 && c.Valid() && LifeFits(c, life)
    requires |life| > 0 && life[|life| - 1].Restarted?
    ensures Transparent(c, StateAfter(c, life))
  {
    var s := StateAfter(c, life[..|life| - 1]);
    LifeSound(c, life[..|life| - 1]);
    ReloadOne(c, s);
    RestartKeepsRows(c, s);
    OneAlertTransparency(c, life);
  }

  // ---------------------------------------------------------------- notifications

  lemma RestartKeepsOpen(c: Config, s: State)
    requires DistinctChecksums(c) && RowsAgree(c, s) && OpenInv(c, s)
    ensures OpenInv(c, Restart(c, s))
  {
    RestartKeepsRows(c, s);
  }

  lemma {:induction false} LifeKeepsOpen(c: Config, life: seq<LifeEvent>)
    requires DistinctChecksums(c) && LifeFits(c, life)
    ensures OpenInv(c, StateAfter(c, life))
  {
    if |life| > 0 {
      var before := life[..|life| - 1];
      LifeKeepsOpen(c, before);
      LifeKeepsRows(c, before);
      match life[|life| - 1]
      case Handled(check) => HandleKeepsLog(c, StateAfter(c, before), check);
      case Restarted => RestartKeepsOpen(c, StateAfter(c, before));
    }
  }

  /** Two successful initial notifications of one alert are always separated by a resolve, also across restarts. */
  lemma InitialsAreSeparated(c: Config, life: seq<LifeEvent>, i: nat, p: nat, q: nat)
    requires DistinctChecksums(c) && LifeFits(c, life)
    requires var log := StateAfter(c, life).log; p < q < |log| && IsInitial(log[p], i) && IsInitial(log[q], i)
    ensures var log := StateAfter(c, life).log; exists r :: p < r < q && IsCleared(log[r], i)
  {
    LifeKeepsOpen(c, life);
    ResolvedBetween(StateAfter(c, life).log, i, p, q);
  }

  // ---------------------------------------------------------------- one process

  function OneProcess(checks: seq<Check>): (life: seq<LifeEvent>)
    ensures |life| == |checks|
  {
    seq(|checks|, n requires 0 <= n < |checks| => Handled(checks[n]))
  }

  /** A run without restarts is a life. */
  lemma {:induction false} RunIsLife(c: Config, checks: seq<Check>)
    requires AllFit(c, checks)
    ensures LifeFits(c, OneProcess(checks)) && StateAfter(c, OneProcess(checks)) == Run(c, checks)
  {
    if |checks| > 0 {
      RunIsLife(c, checks[..|checks| - 1]);
      assert OneProcess(checks)[..|checks| - 1] == OneProcess(checks[..|checks| - 1]);
    }
  }

  lemma RunPersistenceAgreement(c: Config, checks: seq<Check>)
    requires DistinctChecksums(c) && AllFit(c, checks)
    ensures RowsAgree(c, Run(c, checks))
    ensures |checks| > 0 && checks[|checks| - 1].success ==>
      forall checksum :: checksum in Run(c, checks).rows ==>
        Run(c, checks).rows[checksum].numberOfSuccessesInARow == Run(c, checks).successes
  {
    RunIsLife(c, checks);
    PersistenceAgreement(c, OneProcess(checks));
  }

  lemma RunReloadRestoresTriggered(c: Config, checks: seq<Check>, i: nat)
    requires DistinctChecksums(c) && AllFit(c, checks) && i < |c.alerts|
    ensures Reload(c, Run(c, checks).rows).alerts[i].triggered == Run(c, checks).alerts[i].triggered
  {
    RunIsLife(c, checks);
    RestartRestoresTriggered(c, OneProcess(checks), i);
  }

  lemma RunRestartTransparency(c: Config, checks: seq<Check>)
    requires c.Valid() && DistinctChecksums(c) && AllFit(c, checks)
    ensures Transparent(c, Run(c, checks)) <==> KeepsPace(c, Run(c, checks))
  {
    RunIsLife(c, checks);
    RestartTransparency(c, OneProcess(checks));
  }

  lemma RunOneAlertTransparency(c: Config, checks: seq<Check>)
    requires |c.alerts| == 1 && c.Valid() && AllFit(c, checks)
    ensures Transparent(c, Run(c, checks)) <==> SafeToRestart(c, Run(c, checks))
    ensures |checks| > 0 && checks[|checks| - 1].success ==> Transparent(c, Run(c, checks))
    ensures |checks| > 0 && !Run(c, checks[..|checks| - 1]).alerts[0].triggered && Run(c, checks).alerts[0].triggered ==>
      Transparent(c, Run(c, checks))
  {
    RunIsLife(c, checks);
    OneAlertTransparency(c, OneProcess(checks));
    if |checks| > 0 {
      RunIsLife(c, checks[..|checks| - 1]);
      assert OneProcess(checks)[..|checks| - 1] == OneProcess(checks[..|checks| - 1]);
      if checks[|checks| - 1].success {
        TransparentAfterSuccess(c, OneProcess(checks));
      } else if !Run(c, checks[..|checks| - 1]).alerts[0].triggered && Run(c, checks).alerts[0].triggered {
        TransparentAfterFiring(c, OneProcess(checks));
      }
    }
  }

  /** Without restarts the checksums may coincide. */
  lemma RunInitialsAreSeparated(c: Config, checks: seq<Check>, i: nat, p: nat, q: nat)
    requires AllFit(c, checks)
    requires var log := Run(c, checks).log; p < q < |log| && IsInitial(log[p], i) && IsInitial(log[q], i)
    ensures var log := Run(c, checks).log; exists r :: p < r < q && IsCleared(log[r], i)
  {
    RunKeepsLog(c, checks);
    ResolvedBetween(Run(c, checks).log, i, p, q);
  }

  /** The stale count is seen after a restart: the new process resolves the alert after two successes, not three. */
  lemma StaleRestartIsNoticed()
    ensures AllFit(STALE_CONFIG, STALE_CHECKS)
    ensures !Transparent(STALE_CONFIG, Run(STALE_CONFIG, STALE_CHECKS))
  {
    StaleCountAfterFailure();
    RunOneAlertTransparency(STALE_CONFIG, STALE_CHECKS);
  }
}
