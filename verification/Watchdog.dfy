/** Alert handling and the reload at start as they update the endpoint and the SQL store (watchdog/alerting.go,
    main.go). */
module Watchdog {
  import opened Alerts
  import opened AlertRestart
  import opened Clock
  import opened Endpoints
  import opened Outcomes
  import opened SqlStore
  import opened SqlTables

  /** An endpoint with its alerts and counters. */
  class MonitoredEndpoint {
    const endpoint: Endpoint
    const config: Config
    var numberOfFailuresInARow: int
    var numberOfSuccessesInARow: int
    var lastReminderSent: Option<Time>
    var alerts: seq<AlertState>

    /** How many results were handled, and what was sent. */
    ghost var handled: nat
    ghost var log: seq<Notification>

    ghost predicate Valid()
      reads this
    {
      |alerts| == |config.alerts|
    }

    /** The endpoint and its rows in the store as a state of the alert machine. */
    ghost function View(store: Store): State
      reads this, store
    {
      State(numberOfFailuresInARow, numberOfSuccessesInARow, lastReminderSent, alerts, store.AlertsOf(endpoint.key),
            handled, log)
    }

    /** As the configuration leaves it. */
    ghost predicate Untouched()
      reads this
    {
      && numberOfFailuresInARow == 0 && numberOfSuccessesInARow == 0 && lastReminderSent == None
      && alerts == Initially(config).alerts && handled == 0 && log == []
    }

    /** Reloaded from its rows. */
    ghost predicate Loaded(store: Store, rows: map<string, map<string, AlertRow>>)
      requires endpoint.key in rows
      reads this, store
    {
      Valid() && View(store) == Reload(config, rows[endpoint.key])
    }

    constructor (endpoint: Endpoint, config: Config)
      ensures Valid() && Untouched() && this.endpoint == endpoint && this.config == config
    {
      this.endpoint, this.config := endpoint, config;
      numberOfFailuresInARow, numberOfSuccessesInARow, lastReminderSent := 0, 0, None;
      alerts := seq(|config.alerts|, _ => AlertState(false, ""));
      handled, log := 0, [];
    }

    /** One iteration of the loop of handleAlertsToResolve. */
    method ResolveOne(store: Store, i: nat, attempt: Attempt)
      requires Valid() && store.Valid() && i < |alerts|
      modifies this, store
      ensures Valid() && store.Valid()
      ensures View(store) == ResolveAlert(config, i, old(View(store)), attempt)
      ensures var a, resolved := config.alerts[i], old(alerts[i].triggered) && !alerts[i].triggered;
              && (resolved <==> && old(alerts[i].triggered) && a.enabled != Some(false)
                                && a.successThreshold <= numberOfSuccessesInARow)
              && (resolved ==>
                    var notified := a.sendOnResolved == Some(true) && a.kind in config.providers;
                    log == old(log) + [Cleared(i, notified, handled)])
              && (!resolved ==> log == old(log))
      ensures OnlyAlertsTouched(old(store.endpoints), store.endpoints, endpoint)
    {
      hide Store.Valid;
      var alert := config.alerts[i];
      var isStillBelowSuccessThreshold := alert.successThreshold > numberOfSuccessesInARow;
      if isStillBelowSuccessThreshold && alert.IsEnabled() && alerts[i].triggered {
        store.UpsertTriggeredEndpointAlert(endpoint, alert.checksum,
                                           AlertRow(alerts[i].resolveKey, numberOfSuccessesInARow));
      }
      if !alert.IsEnabled() || !alerts[i].triggered || isStillBelowSuccessThreshold {
        return;
      }
      alerts := alerts[i := alerts[i].(triggered := false)];
      store.DeleteTriggeredEndpointAlert(endpoint, alert.checksum);
      log := log + [Cleared(i, alert.IsSendingOnResolved() && alert.kind in config.providers, handled)];
      if alert.IsSendingOnResolved() && alert.kind in config.providers {
        alerts := alerts[i := alerts[i].(resolveKey := attempt.resolveKey)];
      }
    }

    /** handleAlertsToResolve */
    method HandleAlertsToResolve(store: Store, attempts: seq<Attempt>)
      requires Valid() && store.Valid() && |attempts| == |alerts|
      modifies this, store
      ensures Valid() && store.Valid()
      ensures View(store) == Handle(config, old(View(store)), Check(true, attempts))
      ensures OnlyAlertsTouched(old(store.endpoints), store.endpoints, endpoint)
    {
      hide Store.Valid, ResolveAlert;
      numberOfSuccessesInARow := numberOfSuccessesInARow + 1;
      handled := handled + 1;
      for i := 0 to |alerts|
        invariant Valid() && store.Valid() && |attempts| == |alerts|
        invariant View(store) == ResolveFirst(config, Counted(old(View(store)), true), attempts, i)
        invariant OnlyAlertsTouched(old(store.endpoints), store.endpoints, endpoint)
      {
        ResolveOne(store, i, attempts[i]);
      }
      numberOfFailuresInARow := 0;
    }

    /** One iteration of the loop of handleAlertsToTrigger. */
    method TriggerOne(store: Store, i: nat, attempt: Attempt)
      requires Valid() && store.Valid() && i < |alerts|
      modifies this, store
      ensures Valid() && store.Valid()
      ensures View(store) == TriggerAlert(config, i, old(View(store)), attempt)
      ensures var a, last := config.alerts[i], old(lastReminderSent);
              var sendable := && a.enabled != Some(false) && a.kind in config.providers
                              && a.failureThreshold <= numberOfFailuresInARow && attempt.ok;
              if sendable && !old(alerts[i].triggered) then log == old(log) + [Initial(i, attempt.at, handled)]
              else if && sendable && 0 < a.minimumReminderInterval
                      && (last == None || a.minimumReminderInterval <= attempt.at - last.value)
              then log == old(log) + [Reminder(i, attempt.at)]
              else log == old(log)
      ensures OnlyAlertsTouched(old(store.endpoints), store.endpoints, endpoint)
    {
      hide Store.Valid;
      var alert := config.alerts[i];
      if !alert.IsEnabled() || alert.failureThreshold > numberOfFailuresInARow {
        return;
      }
      var sendInitialAlert := !alerts[i].triggered;
      var sendReminder := alerts[i].triggered && ReminderDue(alert, lastReminderSent, attempt.at);
      if !sendInitialAlert && !sendReminder {
        return;
      }
      if alert.kind in config.providers {
        alerts := alerts[i := alerts[i].(resolveKey := attempt.resolveKey)];
        if attempt.ok {
          if sendInitialAlert {
            alerts := alerts[i := alerts[i].(triggered := true)];
          }
          lastReminderSent := Some(attempt.at);
          log := log + [if sendInitialAlert then Initial(i, attempt.at, handled) else Reminder(i, attempt.at)];
          store.UpsertTriggeredEndpointAlert(endpoint, alert.checksum,
                                             AlertRow(alerts[i].resolveKey, numberOfSuccessesInARow));
        }
      }
    }

    /** handleAlertsToTrigger */
    method HandleAlertsToTrigger(store: Store, attempts: seq<Attempt>)
      requires Valid() && store.Valid() && |attempts| == |alerts|
      modifies this, store
      ensures Valid() && store.Valid()
      ensures View(store) == Handle(config, old(View(store)), Check(false, attempts))
      ensures OnlyAlertsTouched(old(store.endpoints), store.endpoints, endpoint)
    {
      hide Store.Valid, TriggerAlert;
      numberOfSuccessesInARow := 0;
      numberOfFailuresInARow := numberOfFailuresInARow + 1;
      handled := handled + 1;
      for i := 0 to |alerts|
        invariant Valid() && store.Valid() && |attempts| == |alerts|
        invariant View(store) == TriggerFirst(config, Counted(old(View(store)), false), attempts, i)
        invariant OnlyAlertsTouched(old(store.endpoints), store.endpoints, endpoint)
      {
        TriggerOne(store, i, attempts[i]);
      }
    }

    /** HandleAlerting: nothing happens without an alerting configuration. */
    method HandleAlerting(store: Store, success: bool, attempts: seq<Attempt>, hasAlertingConfig: bool)
      requires Valid() && store.Valid() && |attempts| == |alerts|
      modifies this, store
      ensures Valid() && store.Valid()
      ensures hasAlertingConfig ==> View(store) == Handle(config, old(View(store)), Check(success, attempts))
      ensures !hasAlertingConfig ==> View(store) == old(View(store))
      ensures OnlyAlertsTouched(old(store.endpoints), store.endpoints, endpoint)
    {
      if !hasAlertingConfig {
        return;
      }
      if success {
        HandleAlertsToResolve(store, attempts);
      } else {
        HandleAlertsToTrigger(store, attempts);
      }
    }

    /** The checksums of the enabled alerts. */
    method EnabledChecksums() returns (checksums: seq<string>)
      ensures forall checksum :: checksum in checksums <==> IsEnabledChecksum(config, checksum)
    {
      checksums := [];
      for i := 0 to |config.alerts|
        invariant forall checksum :: checksum in checksums <==>
          exists j :: 0 <= j < i && config.alerts[j].IsEnabled() && config.alerts[j].checksum == checksum
      {
        if config.alerts[i].IsEnabled() {
          checksums := checksums + [config.alerts[i].checksum];
        }
      }
    }

    /** Rows of alerts that were removed, changed or disabled go first. */
    method DeleteStaleAlerts(store: Store)
      requires store.Valid()
      modifies store
      ensures store.Valid()
      ensures store.AlertsOf(endpoint.key) == KeptRows(config, old(store.AlertsOf(endpoint.key)))
      ensures OnlyAlertsTouched(old(store.endpoints), store.endpoints, endpoint)
      ensures endpoint.key in store.endpoints <==> endpoint.key in old(store.endpoints)
    {
      hide Store.Valid;
      var checksums := EnabledChecksums();
      var _ := store.DeleteAllTriggeredAlertsNotInChecksumsByEndpoint(endpoint, checksums);
    }

    /** The body of the loop over the alerts. */
    method LoadOne(store: Store, i: nat)
      requires Valid() && i < |alerts|
      modifies this
      ensures Valid() && View(store) == LoadAlert(config, i, old(View(store)))
    {
      var row := store.GetTriggeredEndpointAlert(endpoint, config.alerts[i].checksum);
      if row.Some? {
        alerts := alerts[i := AlertState(true, row.value.resolveKey)];
        numberOfSuccessesInARow := row.value.numberOfSuccessesInARow;
        numberOfFailuresInARow := config.alerts[i].failureThreshold;
      }
    }

    /** The part of initializeStorage for one endpoint of a fresh configuration. */
    method LoadTriggeredAlerts(store: Store)
      requires store.Valid() && Untouched()
      modifies this, store
      ensures Valid() && store.Valid()
      ensures View(store) == Reload(config, old(store.AlertsOf(endpoint.key)))
      ensures OnlyAlertsTouched(old(store.endpoints), store.endpoints, endpoint)
      ensures endpoint.key in store.endpoints <==> endpoint.key in old(store.endpoints)
    {
      hide Store.Valid;
      ghost var kept := Initially(config).(rows := KeptRows(config, store.AlertsOf(endpoint.key)));
      DeleteStaleAlerts(store);
      assert View(store) == LoadFirst(config, kept, 0);
      for i := 0 to |config.alerts|
        invariant Valid() && View(store) == LoadFirst(config, kept, i)
        modifies this
      {
        LoadOne(store, i);
      }
    }
  }

  /** The endpoints of a configuration that was just loaded: distinct keys, nothing handled, no rows loaded yet. */
  ghost predicate JustConfigured(endpoints: seq<MonitoredEndpoint>)
    reads endpoints
  {
    && (forall i, j :: 0 <= i < j < |endpoints| ==> endpoints[i].endpoint.key != endpoints[j].endpoint.key)
    && forall i :: 0 <= i < |endpoints| ==> endpoints[i].Untouched()
  }

  /** The first n endpoints are loaded, the others wait for their turn with their rows as they were. */
  ghost predicate Progress(store: Store, endpoints: seq<MonitoredEndpoint>, n: nat, keys: seq<string>,
                           rows: map<string, map<string, AlertRow>>)
    reads store, endpoints
  {
    && n <= |endpoints|
    && (forall i, j :: 0 <= i < j < |endpoints| ==> endpoints[i].endpoint.key != endpoints[j].endpoint.key)
    && (forall i :: 0 <= i < |endpoints| ==> endpoints[i].endpoint.key in rows)
    && (forall i :: 0 <= i < n ==> endpoints[i].Loaded(store, rows))
    && (forall i :: n <= i < |endpoints| ==>
          endpoints[i].Untouched() && store.AlertsOf(endpoints[i].endpoint.key) == rows[endpoints[i].endpoint.key])
    && forall key :: key in store.endpoints ==> key in keys
  }

  method KeysOf(endpoints: seq<MonitoredEndpoint>) returns (keys: seq<string>)
    ensures forall key :: key in keys <==> exists i :: 0 <= i < |endpoints| && endpoints[i].endpoint.key == key
  {
    keys := [];
    for n := 0 to |endpoints|
      invariant forall key :: key in keys <==> exists i :: 0 <= i < n && endpoints[i].endpoint.key == key
    {
      keys := keys + [endpoints[n].endpoint.key];
    }
  }

  method KeepConfigured(store: Store, keys: seq<string>, ghost rows: map<string, map<string, AlertRow>>)
    requires store.Valid()
    requires rows.Keys == (set key | key in keys) && forall key :: key in rows ==> rows[key] == store.AlertsOf(key)
    modifies store
    ensures store.Valid()
    ensures forall key :: key in store.endpoints ==> key in keys
    ensures forall key :: key in rows ==> rows[key] == store.AlertsOf(key)
    ensures OnlyListedKept(old(store.endpoints), store.endpoints, keys)
  {
    hide Store.Valid;
    var _ := store.DeleteAllEndpointStatusesNotInKeys(keys);
  }

  /** Everything stored for endpoints that are no longer configured goes. */
  method DropUnconfigured(store: Store, endpoints: seq<MonitoredEndpoint>)
    returns (ghost keys: seq<string>, ghost rows: map<string, map<string, AlertRow>>)
    requires store.Valid() && JustConfigured(endpoints)
    modifies store
    ensures store.Valid() && Progress(store, endpoints, 0, keys, rows)
    ensures forall key :: key in keys <==> exists i :: 0 <= i < |endpoints| && endpoints[i].endpoint.key == key
    ensures forall i :: 0 <= i < |endpoints| ==>
      rows[endpoints[i].endpoint.key] == old(store.AlertsOf(endpoints[i].endpoint.key))
    ensures OnlyListedKept(old(store.endpoints), store.endpoints, keys)
  {
    hide Store.Valid, Store.AlertsOf, OnlyListedKept;
    var configured := KeysOf(endpoints);
    keys := configured;
    rows := map key | key in keys :: store.AlertsOf(key);
    KeepConfigured(store, configured, rows);
    forall i | 0 <= i < |endpoints|
      ensures endpoints[i].endpoint.key in keys
    {
    }
  }

  /** One endpoint's turn does not disturb the others. */
  method LoadNext(store: Store, endpoints: seq<MonitoredEndpoint>, n: nat, ghost keys: seq<string>,
                  ghost rows: map<string, map<string, AlertRow>>, ghost before: Database)
    requires store.Valid() && n < |endpoints| && Progress(store, endpoints, n, keys, rows)
    requires OnlyListedKept(before, store.endpoints, keys)
    modifies store, endpoints[n]
    ensures store.Valid() && Progress(store, endpoints, n + 1, keys, rows)
    ensures OnlyListedKept(before, store.endpoints, keys)
  {
    hide Store.Valid, OnlyListedKept;
    ghost var middle := store.endpoints;
    endpoints[n].LoadTriggeredAlerts(store);
    StillOnlyListed(before, middle, store.endpoints, keys, endpoints[n].endpoint);
    assert forall i :: 0 <= i < |endpoints| && i != n ==> endpoints[i] != endpoints[n];
    forall i | 0 <= i < |endpoints| && i != n
      ensures store.AlertsOf(endpoints[i].endpoint.key) == old(store.AlertsOf(endpoints[i].endpoint.key))
    {
    }
  }

  method LoadAll(store: Store, endpoints: seq<MonitoredEndpoint>, ghost keys: seq<string>,
                 ghost rows: map<string, map<string, AlertRow>>, ghost before: Database)
    requires store.Valid() && Progress(store, endpoints, 0, keys, rows)
    requires OnlyListedKept(before, store.endpoints, keys)
    modifies store, endpoints
    ensures store.Valid() && Progress(store, endpoints, |endpoints|, keys, rows)
    ensures OnlyListedKept(before, store.endpoints, keys)
  {
    hide Store.Valid, Progress, OnlyListedKept;
    for n := 0 to |endpoints|
      invariant store.Valid() && Progress(store, endpoints, n, keys, rows)
      invariant OnlyListedKept(before, store.endpoints, keys)
    {
      LoadNext(store, endpoints, n, keys, rows, before);
    }
  }

  /** initializeStorage: delete what is no longer configured, then load every endpoint's triggered alerts. */
  method InitializeStorage(store: Store, endpoints: seq<MonitoredEndpoint>)
    requires store.Valid() && JustConfigured(endpoints)
    modifies store, endpoints
    ensures store.Valid()
    ensures forall i :: 0 <= i < |endpoints| ==>
      endpoints[i].Valid() &&
      endpoints[i].View(store) == Reload(endpoints[i].config, old(store.AlertsOf(endpoints[i].endpoint.key)))
    ensures forall key :: key in store.endpoints ==>
      exists i :: 0 <= i < |endpoints| && endpoints[i].endpoint.key == key
    ensures forall i :: 0 <= i < |endpoints| ==>
      var key, before, after := endpoints[i].endpoint.key, old(store.endpoints), store.endpoints;
      && (key in after <==> key in before)
      && (key in before ==> after[key] == before[key].(alerts := after[key].alerts))
  {
    hide Store.Valid;
    ghost var before := store.endpoints;
    ghost var keys, rows := DropUnconfigured(store, endpoints);
    LoadAll(store, endpoints, keys, rows, before);
    assert forall i :: 0 <= i < |endpoints| ==> endpoints[i].endpoint.key in keys;
  }
}
