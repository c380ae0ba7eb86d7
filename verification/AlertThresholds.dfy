/** What restarts do to failure thresholds: the reload counts a triggered alert's threshold as failures, for every alert
    of the endpoint (main.go, watchdog/alerting.go). */
module AlertThresholds {
  import opened AlertLives
  import opened AlertLog
  import opened AlertRestart
  import opened AlertRows
  import opened Alerts

  /** The outcomes handled in a life. */
  function OutcomesIn(life: seq<LifeEvent>): seq<bool> {
    if |life| == 0 then []
    else
      var before := OutcomesIn(life[..|life| - 1]);
      match life[|life| - 1]
      case Handled(check) => before + [check.success]
      case Restarted => before
  }

  /** Every initial notification of the life was sent at a failure that completed its alert's threshold. */
  ghost predicate Earns(c: Config, life: seq<LifeEvent>)
    requires LifeFits(c, life)
  {
    InitialsEarned(c, StateAfter(c, life).log, OutcomesIn(life))
  }

  /** No alert that survives a success sits next to one that needs several failures. */
  predicate RestartProof(c: Config) {
    forall i, j :: 0 <= i < |c.alerts| && 0 <= j < |c.alerts| && i != j && c.Live(i) && c.Live(j) ==>
      c.alerts[i].successThreshold <= 1 || c.alerts[j].failureThreshold <= 1
  }

  // ---------------------------------------------------------------- thresholds that hold

  ghost predicate AlertHonest(c: Config, s: State, h: seq<bool>, i: nat)
    requires c.Fits(s) && i < |c.alerts|
  {
    && (c.Live(i) && !s.alerts[i].triggered && c.alerts[i].failureThreshold >= 2 ==> s.failures <= Trailing(h, false))
    && (s.alerts[i].triggered && c.alerts[i].successThreshold == 1 ==>
          c.alerts[i].failureThreshold <= Trailing(h, false))
  }

  /** The failures an alert may still rely on really happened in a row. */
  ghost predicate CountsHonestly(c: Config, s: State, h: seq<bool>) {
    && c.Fits(s) && s.handled == |h| && s.successes >= 0
    && (forall i :: 0 <= i < |c.alerts| ==> AlertHonest(c, s, h, i))
    && (forall checksum :: checksum in s.rows ==> s.rows[checksum].numberOfSuccessesInARow >= 0)
    && InitialsEarned(c, s.log, h)
  }

  lemma TriggerStaysHonest(c: Config, i: nat, s: State, attempt: Attempt, h: seq<bool>)
    requires c.Valid() && CountsHonestly(c, s, h) && i < |c.alerts| && |h| > 0 && !h[|h| - 1]
    ensures CountsHonestly(c, TriggerAlert(c, i, s, attempt), h)
  {
    var s' := TriggerAlert(c, i, s, attempt);
    assert AlertHonest(c, s, h, i);
    assert Trailing(h, false) >= 1;
    ThresholdMeaning(h, false, c.alerts[i].failureThreshold);
    forall j | 0 <= j < |c.alerts| ensures AlertHonest(c, s', h, j) {
      assert AlertHonest(c, s, h, j);
    }
  }

  lemma {:induction false} TriggerLoopStaysHonest(c: Config, s: State, attempts: seq<Attempt>, n: nat, h: seq<bool>)
    requires c.Valid() && c.Fits(s) && CountsHonestly(c, s, h) && n <= |c.alerts| == |attempts| && |h| > 0 && !h[|h| - 1]
    ensures CountsHonestly(c, TriggerFirst(c, s, attempts, n), h)
  {
    hide CountsHonestly, TriggerAlert;
    if n > 0 {
      TriggerLoopStaysHonest(c, s, attempts, n - 1, h);
      TriggerStaysHonest(c, n - 1, TriggerFirst(c, s, attempts, n - 1), attempts[n - 1], h);
    }
  }

  lemma FailureStaysHonest(c: Config, s: State, check: Check, h: seq<bool>)
    requires c.Valid() && CountsHonestly(c, s, h) && c.FitsCheck(check) && !check.success
    ensures CountsHonestly(c, Handle(c, s, check), h + [false])
  {
    var counted, h' := Counted(s, false), h + [false];
    assert h'[..|h|] == h;
    EarnedLater(c, s.log, h, false);
    forall i | 0 <= i < |c.alerts| ensures AlertHonest(c, counted, h', i) {
      assert AlertHonest(c, s, h, i);
    }
    TriggerLoopStaysHonest(c, counted, check.attempts, |c.alerts|, h');
  }

  ghost predicate RowsNotNegative(s: State) {
    forall checksum :: checksum in s.rows ==> s.rows[checksum].numberOfSuccessesInARow >= 0
  }

  lemma {:induction false} ResolveLoopRows(c: Config, s: State, attempts: seq<Attempt>, n: nat)
    requires c.Fits(s) && n <= |c.alerts| == |attempts| && s.successes >= 0 && RowsNotNegative(s)
    ensures var s' := ResolveFirst(c, s, attempts, n); RowsNotNegative(s') && s'.successes == s.successes
  {
    if n > 0 {
      ResolveLoopRows(c, s, attempts, n - 1);
    }
  }

  lemma SuccessStaysHonest(c: Config, s: State, check: Check, h: seq<bool>)
    requires c.Valid() && RowsAgree(c, s) && CountsHonestly(c, s, h) && c.FitsCheck(check) && check.success
    ensures CountsHonestly(c, Handle(c, s, check), h + [true])
  {
    var counted, s', h' := Counted(s, true), Handle(c, s, check), h + [true];
    EarnedLater(c, s.log, h, true);
    ResolveLoopEarned(c, counted, check.attempts, |c.alerts|, h');
    ResolveLoopRows(c, counted, check.attempts, |c.alerts|);
    HandleCounters(c, s, check);
    forall i | 0 <= i < |c.alerts| ensures AlertHonest(c, s', h', i) {
      HandleEffect(c, s, check, i);
      assert RowAgrees(c, s, i);
    }
  }

  /** The counters of the reload come from the alert that was loaded last. */
  ghost predicate LoadedLast(c: Config, s: State, n: nat, k: int, s': State)
    requires n <= |c.alerts|
  {
    && 0 <= k < n && c.alerts[k].checksum in s.rows
    && s'.failures == c.alerts[k].failureThreshold
    && s'.successes == s.rows[c.alerts[k].checksum].numberOfSuccessesInARow
  }

  /** One was loaded last, or none at all. */
  ghost predicate LoadedCounters(c: Config, s: State, n: nat, s': State)
    requires n <= |c.alerts|
  {
    || (exists k :: LoadedLast(c, s, n, k, s'))
    || (s'.failures == 0 && s'.successes == 0 && forall k :: 0 <= k < n ==> c.alerts[k].checksum !in s.rows)
  }

  lemma {:induction false} LoadCounters(c: Config, s: State, n: nat)
    requires c.Fits(s) && n <= |c.alerts| && s.failures == s.successes == 0
    ensures LoadFirst(c, s, n).rows == s.rows && LoadedCounters(c, s, n, LoadFirst(c, s, n))
  {
    if n > 0 {
      LoadCounters(c, s, n - 1);
      var m, before, after := n - 1, LoadFirst(c, s, n - 1), LoadFirst(c, s, n);
      if c.alerts[m].checksum in s.rows {
        assert LoadedLast(c, s, n, m, after);
      } else if k :| LoadedLast(c, s, m, k, before) {
        assert LoadedLast(c, s, n, k, after);
      }
    }
  }

  lemma RestartCounters(c: Config, s: State)
    requires DistinctChecksums(c) && RowsAgree(c, s)
    ensures var t := Restart(c, s);
            && t.rows == s.rows && t.log == s.log && t.handled == s.handled
            && LoadedCounters(c, s, |c.alerts|, t)
  {
    var s0, t := Initially(c).(rows := KeptRows(c, s.rows)), Restart(c, s);
    RestartKeepsRows(c, s);
    LoadKeepsRows(c, s0, |c.alerts|);
    LoadCounters(c, s0, |c.alerts|);
    assert s0.rows == s.rows;
    if k :| LoadedLast(c, s0, |c.alerts|, k, Reload(c, s.rows)) {
      assert LoadedLast(c, s, |c.alerts|, k, t);
    }
  }

  lemma RestartStaysHonest(c: Config, s: State, h: seq<bool>)
    requires c.Valid() && RestartProof(c) && DistinctChecksums(c) && RowsAgree(c, s) && CountsHonestly(c, s, h)
    ensures CountsHonestly(c, Restart(c, s), h)
  {
    var t := Restart(c, s);
    RestartKeepsRows(c, s);
    RestartCounters(c, s);
    forall i | 0 <= i < |c.alerts| ensures AlertHonest(c, t, h, i) {
      assert AlertHonest(c, s, h, i) && RowAgrees(c, s, i);
      if k :| LoadedLast(c, s, |c.alerts|, k, t) {
        assert AlertHonest(c, s, h, k) && RowAgrees(c, s, k);
      }
    }
  }

  lemma {:induction false} LifeStaysHonest(c: Config, life: seq<LifeEvent>)
    requires c.Valid() && RestartProof(c) && DistinctChecksums(c) && LifeFits(c, life)
    ensures CountsHonestly(c, StateAfter(c, life), OutcomesIn(life))
  {
    if |life| > 0 {
      var before := life[..|life| - 1];
      var s, h := StateAfter(c, before), OutcomesIn(before);
      LifeStaysHonest(c, before);
      LifeKeepsRows(c, before);
      match life[|life| - 1]
      case Handled(check) =>
        if check.success {
          SuccessStaysHonest(c, s, check, h);
        } else {
          FailureStaysHonest(c, s, check, h);
        }
      case Restarted => RestartStaysHonest(c, s, h);
    }
  }

  // ---------------------------------------------------------------- a threshold that does not hold

  lemma LifeLonger(c: Config, life: seq<LifeEvent>, e: LifeEvent)
    requires LifeFits(c, life) && (e.Handled? ==> c.FitsCheck(e.check))
    ensures LifeFits(c, life + [e])
    ensures StateAfter(c, life + [e])
         == if e.Handled? then Handle(c, StateAfter(c, life), e.check) else Restart(c, StateAfter(c, life))
    ensures OutcomesIn(life + [e]) == OutcomesIn(life) + if e.Handled? then [e.check.success] else []
  {
    var longer := life + [e];
    assert longer[..|longer| - 1] == life;
    assert OutcomesIn(life) + [] == OutcomesIn(life);
  }

  /** Where a life stands: what is triggered, the counters, and the failures that really came last. */
  ghost predicate Stands(c: Config, life: seq<LifeEvent>, triggered: int, failures: int, successes: int, inARow: nat)
  {
    && LifeFits(c, life)
    && StateAfter(c, life).failures == failures && StateAfter(c, life).successes == successes
    && StateAfter(c, life).handled == |OutcomesIn(life)| && Trailing(OutcomesIn(life), false) == inARow
    && forall n :: 0 <= n < |c.alerts| ==> (StateAfter(c, life).alerts[n].triggered <==> n == triggered)
  }

  lemma TrailingLonger(h: seq<bool>, outcome: bool)
    ensures Trailing(h + [outcome], false) == if outcome then 0 else Trailing(h, false) + 1
  {
    assert (h + [outcome])[..|h|] == h;
  }

  /** A failure in which no provider works. */
  lemma SilentFailure(c: Config, life: seq<LifeEvent>, triggered: int, failures: int, successes: int,
                                         inARow: nat)
    requires Stands(c, life, triggered, failures, successes, inARow)
    ensures Stands(c, life + [Handled(Only(c, false, -1))], triggered, failures + 1, 0, inARow + 1)
  {
    var check := Only(c, false, -1);
    LifeLonger(c, life, Handled(check));
    TrailingLonger(OutcomesIn(life), false);
    HandleCounters(c, StateAfter(c, life), check);
    forall n | 0 <= n < |c.alerts|
      ensures Handle(c, StateAfter(c, life), check).alerts[n].triggered <==> n == triggered
    {
      HandleEffect(c, StateAfter(c, life), check, n);
    }
  }

  /** As many silent failures as wanted. */
  lemma {:induction false} SilentFailures(c: Config, life: seq<LifeEvent>, triggered: int, failures: int, successes: int,
                                          inARow: nat, n: nat)
    returns (longer: seq<LifeEvent>)
    requires Stands(c, life, triggered, failures, successes, inARow)
    ensures Stands(c, longer, triggered, failures + n, if n == 0 then successes else 0, inARow + n)
  {
    longer := life;
    if n > 0 {
      longer := SilentFailures(c, life, triggered, failures, successes, inARow, n - 1);
      SilentFailure(c, longer, triggered, failures + n - 1, if n == 1 then successes else 0, inARow + n - 1);
      longer := longer + [Handled(Only(c, false, -1))];
    }
  }

  /** The alert alone fires. */
  lemma LoneFiring(c: Config, life: seq<LifeEvent>, i: nat, failures: int, inARow: nat)
    requires i < |c.alerts| && c.Live(i) && c.alerts[i].failureThreshold <= failures + 1
    requires Stands(c, life, -1, failures, 0, inARow)
    ensures Stands(c, life + [Handled(Only(c, false, i))], i, failures + 1, 0, inARow + 1)
  {
    var check := Only(c, false, i);
    LifeLonger(c, life, Handled(check));
    TrailingLonger(OutcomesIn(life), false);
    HandleCounters(c, StateAfter(c, life), check);
    forall n | 0 <= n < |c.alerts| ensures Handle(c, StateAfter(c, life), check).alerts[n].triggered <==> n == i {
      HandleEffect(c, StateAfter(c, life), check, n);
    }
  }

  /** One success does not resolve it. */
  lemma LoneSuccess(c: Config, life: seq<LifeEvent>, i: nat, failures: int, inARow: nat)
    requires i < |c.alerts| && c.alerts[i].successThreshold >= 2 && Stands(c, life, i, failures, 0, inARow)
    ensures Stands(c, life + [Handled(Only(c, true, -1))], i, 0, 1, 0)
  {
    var check := Only(c, true, -1);
    LifeLonger(c, life, Handled(check));
    TrailingLonger(OutcomesIn(life), true);
    HandleCounters(c, StateAfter(c, life), check);
    forall n | 0 <= n < |c.alerts| ensures Handle(c, StateAfter(c, life), check).alerts[n].triggered <==> n == i {
      HandleEffect(c, StateAfter(c, life), check, n);
    }
  }

  /** The restart brings its threshold back as a count of failures, and the successes of its row. */
  lemma LoneRestart(c: Config, life: seq<LifeEvent>, i: nat, failures: int, successes: int, inARow: nat)
    requires DistinctChecksums(c) && i < |c.alerts| && Stands(c, life, i, failures, successes, inARow)
    ensures c.alerts[i].checksum in StateAfter(c, life).rows
    ensures Stands(c, life + [Restarted], i, c.alerts[i].failureThreshold,
                   StateAfter(c, life).rows[c.alerts[i].checksum].numberOfSuccessesInARow, inARow)
  {
    var s := StateAfter(c, life);
    LifeLonger(c, life, Restarted);
    LifeKeepsRows(c, life);
    RestartKeepsRows(c, s);
    RestartCounters(c, s);
    assert RowAgrees(c, s, i);
    var k :| LoadedLast(c, s, |c.alerts|, k, Restart(c, s));
    assert RowAgrees(c, s, k);
  }

  /** An alert that fires is in the log with the check it fired at. */
  lemma {:induction false} FiringIsLogged(c: Config, s: State, attempts: seq<Attempt>, n: nat, j: nat)
    requires c.Fits(s) && j < n <= |c.alerts| == |attempts|
    requires !s.alerts[j].triggered && Fires(c, j, s.failures, attempts[j])
    ensures Initial(j, attempts[j].at, s.handled) in TriggerFirst(c, s, attempts, n).log
    decreases n
  {
    TriggerEffect(c, s, attempts, n - 1, j);
    if j < n - 1 {
      FiringIsLogged(c, s, attempts, n - 1, j);
    }
  }

  lemma EarlyFiring(c: Config, life: seq<LifeEvent>, i: nat, j: nat, failures: int, inARow: nat)
    requires c.Valid() && i < |c.alerts| && j < |c.alerts| && i != j && c.Live(j) && LifeFits(c, life)
    requires Stands(c, life, i, failures, StateAfter(c, life).successes, inARow)
    requires inARow + 1 < c.alerts[j].failureThreshold <= failures + 1
    ensures LifeFits(c, life + [Handled(Only(c, false, j))]) && !Earns(c, life + [Handled(Only(c, false, j))])
  {
    var check, s, h := Only(c, false, j), StateAfter(c, life), OutcomesIn(life);
    var h', log := h + [false], Handle(c, s, check).log;
    LifeLonger(c, life, Handled(check));
    TrailingLonger(h, false);
    FiringIsLogged(c, Counted(s, false), check.attempts, |c.alerts|, j);
    var n := Initial(j, check.attempts[j].at, s.handled + 1);
    var p :| 0 <= p < |log| && log[p] == n;
    ThresholdMeaning(h', false, c.alerts[j].failureThreshold);
    assert !Earned(c, log[p], h');
  }

  /** A life in which a restart makes alert `j` fire before its threshold: alert `i` fires alone, survives a success,
      and is reloaded with its threshold as the count of failures; the failures that follow come on top of it. */
  lemma EarlyLife(c: Config, i: nat, j: nat) returns (life: seq<LifeEvent>)
    requires c.Valid() && DistinctChecksums(c) && i < |c.alerts| && j < |c.alerts| && i != j && c.Live(i) && c.Live(j)
    requires c.alerts[i].successThreshold >= 2 && c.alerts[j].failureThreshold >= 2
    ensures LifeFits(c, life) && !Earns(c, life)
  {
    var first, second := c.alerts[i].failureThreshold, c.alerts[j].failureThreshold;
    assert Stands(c, [], -1, 0, 0, 0);
    life := SilentFailures(c, [], -1, 0, 0, 0, first - 1);
    LoneFiring(c, life, i, first - 1, first - 1);
    life := life + [Handled(Only(c, false, i))];
    LoneSuccess(c, life, i, first, first);
    life := life + [Handled(Only(c, true, -1))];
    LoneRestart(c, life, i, 0, 1, 0);
    life := life + [Restarted];
    var k := if second - first >= 1 then second - first else 1;
    life := SilentFailures(c, life, i, first, StateAfter(c, life).successes, 0, k - 1);
    EarlyFiring(c, life, i, j, first + k - 1, k - 1);
    life := life + [Handled(Only(c, false, j))];
  }

  /** Over all lives, restarts included, every initial notification is earned exactly if the configuration is proof
      against restarts. */
  lemma ThresholdsHoldExactly(c: Config)
    requires c.Valid() && DistinctChecksums(c)
    ensures (forall life :: LifeFits(c, life) ==> Earns(c, life)) <==> RestartProof(c)
  {
    if RestartProof(c) {
      forall life | LifeFits(c, life) ensures Earns(c, life) {
        LifeStaysHonest(c, life);
      }
    } else {
      var i, j :| 0 <= i < |c.alerts| && 0 <= j < |c.alerts| && i != j && c.Live(i) && c.Live(j)
        && c.alerts[i].successThreshold >= 2 && c.alerts[j].failureThreshold >= 2;
      var life := EarlyLife(c, i, j);
    }
  }

  // ---------------------------------------------------------------- success thresholds

  /** Every resolve of the life came at a success that completed its alert's threshold. */
  ghost predicate EarnsResolves(c: Config, life: seq<LifeEvent>)
    requires LifeFits(c, life)
  {
    ResolvesEarned(c, StateAfter(c, life).log, OutcomesIn(life))
  }

  /** One success resolves every alert that can be sent. */
  predicate ResolvesAtOnce(c: Config) {
    forall i :: 0 <= i < |c.alerts| && c.Live(i) ==> c.alerts[i].successThreshold <= 1
  }

  lemma CheckResolves(c: Config, s: State, check: Check, h: seq<bool>)
    requires c.Valid() && ResolvesAtOnce(c) && RowsAgree(c, s) && c.FitsCheck(check) && s.handled == |h|
    requires ResolvesEarned(c, s.log, h)
    ensures ResolvesEarned(c, Handle(c, s, check).log, h + [check.success])
  {
    var counted, h' := Counted(s, check.success), h + [check.success];
    ResolvesEarnedLater(c, s.log, h, check.success);
    if check.success {
      forall i | 0 <= i < |c.alerts| && s.alerts[i].triggered
        ensures Stretch(h', |h'|, c.alerts[i].successThreshold, true)
      {
        assert RowAgrees(c, s, i) && c.alerts[i].Valid();
      }
      ResolveLoopResolves(c, counted, check.attempts, |c.alerts|, h');
    } else {
      TriggerLoopResolves(c, counted, check.attempts, |c.alerts|, h');
    }
  }

  lemma {:induction false} LifeResolves(c: Config, life: seq<LifeEvent>)
    requires c.Valid() && ResolvesAtOnce(c) && DistinctChecksums(c) && LifeFits(c, life)
    ensures StateAfter(c, life).handled == |OutcomesIn(life)| && EarnsResolves(c, life)
  {
    if |life| > 0 {
      var before := life[..|life| - 1];
      var s, h := StateAfter(c, before), OutcomesIn(before);
      LifeResolves(c, before);
      LifeKeepsRows(c, before);
      match life[|life| - 1]
      case Handled(check) =>
        HandleCounters(c, s, check);
        CheckResolves(c, s, check, h);
      case Restarted =>
        RestartCounters(c, s);
    }
  }

  /** A failure in which nothing is sent leaves the row as it is. */
  lemma SilentFailureKeepsRow(c: Config, life: seq<LifeEvent>, i: nat)
    requires DistinctChecksums(c) && LifeFits(c, life) && i < |c.alerts|
    ensures LifeFits(c, life + [Handled(Only(c, false, -1))])
    ensures SameRow(StateAfter(c, life).rows, StateAfter(c, life + [Handled(Only(c, false, -1))]).rows,
                    c.alerts[i].checksum)
  {
    var check, s := Only(c, false, -1), StateAfter(c, life);
    LifeLonger(c, life, Handled(check));
    RowInTriggerLoop(c, Counted(s, false), check.attempts, |c.alerts|, i);
  }

  lemma SilentSuccess(c: Config, life: seq<LifeEvent>, i: nat, failures: int, successes: int, inARow: nat)
    requires i < |c.alerts| && Stands(c, life, i, failures, successes, inARow)
    requires successes + 1 < c.alerts[i].successThreshold
    ensures Stands(c, life + [Handled(Only(c, true, -1))], i, 0, successes + 1, 0)
    ensures Trailing(OutcomesIn(life + [Handled(Only(c, true, -1))]), true) == Trailing(OutcomesIn(life), true) + 1
  {
    var check, h := Only(c, true, -1), OutcomesIn(life);
    LifeLonger(c, life, Handled(check));
    TrailingLonger(h, true);
    assert (h + [true])[..|h|] == h;
    HandleCounters(c, StateAfter(c, life), check);
    forall n | 0 <= n < |c.alerts|
      ensures Handle(c, StateAfter(c, life), check).alerts[n].triggered <==> n == i
    {
      HandleEffect(c, StateAfter(c, life), check, n);
    }
  }

  /** Successes that do not resolve the alert yet. */
  lemma {:induction false} SilentSuccesses(c: Config, life: seq<LifeEvent>, i: nat, failures: int, successes: int,
                                           inARow: nat, n: nat)
    returns (longer: seq<LifeEvent>)
    requires i < |c.alerts| && Stands(c, life, i, failures, successes, inARow)
    requires successes + n < c.alerts[i].successThreshold
    ensures Stands(c, longer, i, if n == 0 then failures else 0, successes + n, if n == 0 then inARow else 0)
    ensures Trailing(OutcomesIn(longer), true) == Trailing(OutcomesIn(life), true) + n
  {
    longer := life;
    if n > 0 {
      var shorter := SilentSuccesses(c, life, i, failures, successes, inARow, n - 1);
      SilentSuccess(c, shorter, i, if n == 1 then failures else 0, successes + n - 1, if n == 1 then inARow else 0);
      longer := shorter + [Handled(Only(c, true, -1))];
    }
  }

  /** An alert that is resolved is in the log with the check it was resolved at. */
  lemma {:induction false} ResolveIsLogged(c: Config, s: State, attempts: seq<Attempt>, n: nat, i: nat)
    requires c.Fits(s) && i < n <= |c.alerts| == |attempts|
    requires s.alerts[i].triggered && Resolves(c, i, s.successes)
    ensures exists notified :: Cleared(i, notified, s.handled) in ResolveFirst(c, s, attempts, n).log
    decreases n
  {
    ResolveEffect(c, s, attempts, n - 1, i);
    var before, after := ResolveFirst(c, s, attempts, n - 1), ResolveFirst(c, s, attempts, n);
    if i < n - 1 {
      ResolveIsLogged(c, s, attempts, n - 1, i);
      var notified :| Cleared(i, notified, s.handled) in before.log;
      assert Cleared(i, notified, s.handled) in after.log;
    } else {
      var notified := c.alerts[i].IsSendingOnResolved() && c.alerts[i].kind in c.providers;
      assert Cleared(i, notified, s.handled) in after.log;
    }
  }

  lemma NoSuccessInARow(h: seq<bool>)
    requires Trailing(h, false) >= 1
    ensures Trailing(h, true) == 0
  {
  }

  lemma LastSuccess(c: Config, life: seq<LifeEvent>, i: nat, inARow: nat)
    requires i < |c.alerts| && c.Live(i) && LifeFits(c, life)
    requires StateAfter(c, life).alerts[i].triggered && StateAfter(c, life).handled == |OutcomesIn(life)|
    requires Trailing(OutcomesIn(life), true) == inARow
    requires inARow + 1 < c.alerts[i].successThreshold <= StateAfter(c, life).successes + 1
    ensures LifeFits(c, life + [Handled(Only(c, true, -1))])
    ensures !EarnsResolves(c, life + [Handled(Only(c, true, -1))])
  {
    var check, s, h := Only(c, true, -1), StateAfter(c, life), OutcomesIn(life);
    var h', log := h + [true], Handle(c, s, check).log;
    LifeLonger(c, life, Handled(check));
    assert h'[..|h|] == h;
    ResolveIsLogged(c, Counted(s, true), check.attempts, |c.alerts|, i);
    var notified :| Cleared(i, notified, s.handled + 1) in log;
    var p :| 0 <= p < |log| && log[p] == Cleared(i, notified, s.handled + 1);
    ThresholdMeaning(h', true, c.alerts[i].successThreshold);
    assert !ResolveEarned(c, log[p], h');
  }

  /** A life in which a restart makes an alert resolve before its threshold: it fires, a success is persisted, a failure
      resets the count in memory only, and the reload brings it back. */
  lemma EarlyResolve(c: Config, i: nat) returns (life: seq<LifeEvent>)
    requires c.Valid() && DistinctChecksums(c) && i < |c.alerts| && c.Live(i) && c.alerts[i].successThreshold >= 2
    ensures LifeFits(c, life) && !EarnsResolves(c, life)
  {
    var first, second := c.alerts[i].failureThreshold, c.alerts[i].successThreshold;
    assert Stands(c, [], -1, 0, 0, 0);
    life := SilentFailures(c, [], -1, 0, 0, 0, first - 1);
    LoneFiring(c, life, i, first - 1, first - 1);
    life := life + [Handled(Only(c, false, i))];
    LoneSuccess(c, life, i, first, first);
    life := life + [Handled(Only(c, true, -1))];
    PersistenceAgreement(c, life);
    assert RowAgrees(c, StateAfter(c, life), i);
    SilentFailure(c, life, i, 0, 1, 0);
    SilentFailureKeepsRow(c, life, i);
    life := life + [Handled(Only(c, false, -1))];
    LoneRestart(c, life, i, 1, 0, 1);
    NoSuccessInARow(OutcomesIn(life));
    LifeLonger(c, life, Restarted);
    assert OutcomesIn(life + [Restarted]) == OutcomesIn(life);
    life := life + [Restarted];
    life := SilentSuccesses(c, life, i, first, 1, 1, second - 2);
    LastSuccess(c, life, i, second - 2);
    life := life + [Handled(Only(c, true, -1))];
  }

  /** Over all lives, restarts included, every resolve is earned exactly if one success is enough for every alert. */
  lemma ResolvesHoldExactly(c: Config)
    requires c.Valid() && DistinctChecksums(c)
    ensures (forall life :: LifeFits(c, life) ==> EarnsResolves(c, life)) <==> ResolvesAtOnce(c)
  {
    if ResolvesAtOnce(c) {
      forall life | LifeFits(c, life) ensures EarnsResolves(c, life) {
        LifeResolves(c, life);
      }
    } else {
      var i: nat :| i < |c.alerts| && c.Live(i) && c.alerts[i].successThreshold >= 2;
      var life := EarlyResolve(c, i);
    }
  }
}
