/** The persisted triggered alerts agree with the alerts in memory (watchdog/alerting.go, storage/store/sql/sql.go). */
module AlertRows {
  import opened Alerts
  import opened Outcomes
  import opened SqlTables

  ghost predicate DistinctChecksums(c: Config) {
    forall i, j :: 0 <= i < j < |c.alerts| ==> c.alerts[i].checksum != c.alerts[j].checksum
  }

  predicate IsChecksum(c: Config, checksum: string) {
    exists i :: 0 <= i < |c.alerts| && c.alerts[i].checksum == checksum
  }

  ghost predicate RowAgrees(c: Config, s: State, i: nat)
    requires c.Fits(s) && i < |c.alerts|
  {
    (c.alerts[i].checksum in s.rows <==> s.alerts[i].triggered) && (s.alerts[i].triggered ==> c.Live(i))
  }

  /** A row exists exactly for the alerts that are triggered, and only alerts that can be sent are. */
  ghost predicate RowsAgree(c: Config, s: State) {
    && c.Fits(s)
    && (forall i :: 0 <= i < |c.alerts| ==> RowAgrees(c, s, i))
    && forall checksum :: checksum in s.rows ==> IsChecksum(c, checksum)
  }

  /** The rows of the first n alerts carry the current number of successes. */
  ghost predicate RowsCurrent(c: Config, s: State, n: nat)
    requires c.Fits(s) && n <= |c.alerts|
  {
    forall i :: 0 <= i < n && c.alerts[i].checksum in s.rows ==>
      s.rows[c.alerts[i].checksum].numberOfSuccessesInARow == s.successes
  }

  lemma TriggerKeepsRows(c: Config, i: nat, s: State, attempt: Attempt)
    requires DistinctChecksums(c) && RowsAgree(c, s) && i < |c.alerts|
    ensures RowsAgree(c, TriggerAlert(c, i, s, attempt))
  {
    var s' := TriggerAlert(c, i, s, attempt);
    forall j | 0 <= j < |c.alerts| ensures RowAgrees(c, s', j) {
      assert RowAgrees(c, s, j);
      assert i != j ==> c.alerts[i].checksum != c.alerts[j].checksum;
    }
    assert IsChecksum(c, c.alerts[i].checksum);
  }

  lemma ResolveKeepsRows(c: Config, i: nat, s: State, attempt: Attempt)
    requires DistinctChecksums(c) && RowsAgree(c, s) && i < |c.alerts|
    ensures RowsAgree(c, ResolveAlert(c, i, s, attempt))
  {
    var s' := ResolveAlert(c, i, s, attempt);
    forall j | 0 <= j < |c.alerts| ensures RowAgrees(c, s', j) {
      assert RowAgrees(c, s, j);
      assert i != j ==> c.alerts[i].checksum != c.alerts[j].checksum;
    }
    assert IsChecksum(c, c.alerts[i].checksum);
  }

  lemma {:induction false} TriggerLoopKeepsRows(c: Config, s: State, attempts: seq<Attempt>, n: nat)
    requires DistinctChecksums(c) && RowsAgree(c, s) && n <= |c.alerts| == |attempts|
    ensures RowsAgree(c, TriggerFirst(c, s, attempts, n))
  {
    if n > 0 {
      TriggerLoopKeepsRows(c, s, attempts, n - 1);
      TriggerKeepsRows(c, n - 1, TriggerFirst(c, s, attempts, n - 1), attempts[n - 1]);
    }
  }

  lemma {:induction false} ResolveLoopKeepsRows(c: Config, s: State, attempts: seq<Attempt>, n: nat)
    requires DistinctChecksums(c) && RowsAgree(c, s) && n <= |c.alerts| == |attempts|
    ensures RowsAgree(c, ResolveFirst(c, s, attempts, n)) && RowsCurrent(c, ResolveFirst(c, s, attempts, n), n)
  {
    if n > 0 {
      var before := ResolveFirst(c, s, attempts, n - 1);
      var after := ResolveFirst(c, s, attempts, n);
      ResolveLoopKeepsRows(c, s, attempts, n - 1);
      ResolveKeepsRows(c, n - 1, before, attempts[n - 1]);
      assert RowAgrees(c, before, n - 1) && RowAgrees(c, after, n - 1);
      forall i | 0 <= i < n && c.alerts[i].checksum in after.rows
        ensures after.rows[c.alerts[i].checksum].numberOfSuccessesInARow == after.successes
      {
        assert i < n - 1 ==> c.alerts[i].checksum != c.alerts[n - 1].checksum;
      }
    }
  }

  lemma HandleKeepsRows(c: Config, s: State, check: Check)
    requires DistinctChecksums(c) && RowsAgree(c, s) && c.FitsCheck(check)
    ensures RowsAgree(c, Handle(c, s, check))
    ensures check.success ==> RowsCurrent(c, Handle(c, s, check), |c.alerts|)
  {
    var counted := Counted(s, check.success);
    assert forall i :: 0 <= i < |c.alerts| ==> RowAgrees(c, s, i) ==> RowAgrees(c, counted, i);
    if check.success {
      ResolveLoopKeepsRows(c, counted, check.attempts, |c.alerts|);
      var resolved := ResolveFirst(c, counted, check.attempts, |c.alerts|);
      assert forall i :: 0 <= i < |c.alerts| ==> RowAgrees(c, resolved, i) ==> RowAgrees(c, Handle(c, s, check), i);
    } else {
      TriggerLoopKeepsRows(c, counted, check.attempts, |c.alerts|);
    }
  }

  // ---------------------------------------------------------------- rows after a failure

  /** The alert's turn in the loop of a failed check ends with a successful initial or reminder notification. */
  predicate SendsAt(c: Config, turn: State, i: nat, attempt: Attempt)
    requires c.Fits(turn) && i < |c.alerts|
  {
    Fires(c, i, turn.failures, attempt)
    && (!turn.alerts[i].triggered || ReminderDue(c.alerts[i], turn.lastReminderSent, attempt.at))
  }

  /** What the alerts before it did decides when the last reminder was sent. */
  predicate Sends(c: Config, s: State, check: Check, i: nat)
    requires c.Fits(s) && c.FitsCheck(check) && i < |c.alerts|
  {
    SendsAt(c, TriggerFirst(c, Counted(s, false), check.attempts, i), i, check.attempts[i])
  }

  ghost predicate SameRow(before: map<string, AlertRow>, after: map<string, AlertRow>, checksum: string) {
    (checksum in before <==> checksum in after) && (checksum in before ==> before[checksum] == after[checksum])
  }

  lemma OtherTurns(c: Config, s: State, j: nat, attempt: Attempt, i: nat)
    requires DistinctChecksums(c) && c.Fits(s) && i < |c.alerts| && j < |c.alerts| && i != j
    ensures var s' := TriggerAlert(c, j, s, attempt);
            s'.alerts[i] == s.alerts[i] && SameRow(s.rows, s'.rows, c.alerts[i].checksum)
  {
  }

  lemma OwnTurn(c: Config, s: State, i: nat, attempt: Attempt)
    requires c.Fits(s) && i < |c.alerts|
    ensures var s', checksum := TriggerAlert(c, i, s, attempt), c.alerts[i].checksum;
            if SendsAt(c, s, i, attempt)
            then checksum in s'.rows && s'.rows[checksum] == AlertRow(attempt.resolveKey, s.successes)
            else SameRow(s.rows, s'.rows, checksum)
  {
  }

  /** Before an alert's turn its row is as it was; its turn writes the row exactly if it sends; then nobody else does.
      */
  lemma {:induction false} RowInTriggerLoop(c: Config, s: State, attempts: seq<Attempt>, n: nat, i: nat)
    requires DistinctChecksums(c) && c.Fits(s) && n <= |c.alerts| == |attempts| && i < |c.alerts|
    ensures var s', checksum := TriggerFirst(c, s, attempts, n), c.alerts[i].checksum;
            && (n <= i ==> s'.alerts[i] == s.alerts[i])
            && (if i < n && SendsAt(c, TriggerFirst(c, s, attempts, i), i, attempts[i])
                then checksum in s'.rows && s'.rows[checksum] == AlertRow(attempts[i].resolveKey, s.successes)
                else SameRow(s.rows, s'.rows, checksum))
    decreases n
  {
    hide TriggerAlert, SendsAt, DistinctChecksums;
    if n > 0 {
      var before := TriggerFirst(c, s, attempts, n - 1);
      RowInTriggerLoop(c, s, attempts, n - 1, i);
      TriggerEffect(c, s, attempts, n - 1, i);
      if i == n - 1 {
        OwnTurn(c, before, i, attempts[i]);
      } else {
        OtherTurns(c, before, n - 1, attempts[n - 1], i);
      }
    }
  }

  /** When a row is current after a handled failure: exactly if its alert sent something, or it said zero before. */
  lemma RowAfterFailure(c: Config, s: State, check: Check, i: nat)
    requires DistinctChecksums(c) && RowsAgree(c, s) && c.FitsCheck(check) && !check.success && i < |c.alerts|
    requires c.alerts[i].checksum in Handle(c, s, check).rows
    ensures var s', checksum := Handle(c, s, check), c.alerts[i].checksum;
            (s'.rows[checksum].numberOfSuccessesInARow == s'.successes)
              == (Sends(c, s, check, i) || (checksum in s.rows && s.rows[checksum].numberOfSuccessesInARow == 0))
  {
    RowInTriggerLoop(c, Counted(s, false), check.attempts, |c.alerts|, i);
    HandleCounters(c, s, check);
  }

  const STALE_ALERT := AlertConfig("slack", None, 1, 3, 0, None, "x")
  const STALE_CONFIG := Config([STALE_ALERT], {"slack"})

  function Checked(success: bool): Check {
    Check(success, [Attempt(0, true, "")])
  }

  /** Fired, one success short of the threshold of three, failed again. */
  const STALE_CHECKS := [Checked(false), Checked(true), Checked(false)]

  /** A witness: after this run the persisted count is 1, while the endpoint has no success in a row. */
  lemma StaleCountAfterFailure()
    ensures AllFit(STALE_CONFIG, STALE_CHECKS)
    ensures var s := Run(STALE_CONFIG, STALE_CHECKS);
            s.successes == 0 && s.alerts[0].triggered && "x" in s.rows && s.rows["x"].numberOfSuccessesInARow == 1
  {
    var c, checks, attempts := STALE_CONFIG, STALE_CHECKS, [Attempt(0, true, "")];
    assert checks[..2] == [Checked(false), Checked(true)] && checks[..2][..1] == [Checked(false)];
    assert checks[..2][..1][..0] == [];
    var s0 := Initially(c);
    assert HandleAll(c, s0, []) == s0;
    var s1 := Handle(c, s0, Checked(false));
    assert s1 == TriggerAlert(c, 0, Counted(s0, false), attempts[0]) by {
      assert TriggerFirst(c, Counted(s0, false), attempts, 0) == Counted(s0, false);
    }
    var s2 := Handle(c, s1, Checked(true));
    assert s2 == ResolveAlert(c, 0, Counted(s1, true), attempts[0]).(failures := 0) by {
      assert ResolveFirst(c, Counted(s1, true), attempts, 0) == Counted(s1, true);
    }
    var s3 := Handle(c, s2, Checked(false));
    assert s3 == TriggerAlert(c, 0, Counted(s2, false), attempts[0]) by {
      assert TriggerFirst(c, Counted(s2, false), attempts, 0) == Counted(s2, false);
    }
    assert HandleAll(c, s0, [Checked(false)]) == s1;
    assert HandleAll(c, s0, [Checked(false), Checked(true)]) == s2;
    assert Run(c, checks) == s3;
  }
}
