/** The maintenance window (config/maintenance/maintenance.go). A time zone is a fixed offset from UTC. */
module Maintenance {
  import opened Clock
  import opened Outcomes
  import opened Text

  datatype ConfigError = InvalidStartFormat | NotANumber | InvalidDuration | InvalidDayName | InvalidTimezone

  const LONG_DAY_NAMES := ["Sunday", "Monday", "Tuesday", "Wednesday", "Thursday", "Friday", "Saturday"]

  // ------------------------------------------------------------------ start

  function TrimZero(s: string): string {
    if |s| > 0 && s[0] == '0' then s[1..] else s
  }

  function FromFields(hours: Option<int>, minutes: Option<int>): (r: Outcome<int, ConfigError>)
    ensures r.Ok? ==> 0 <= r.value < DAY && r.value % MINUTE == 0
  {
    match (hours, minutes)
    case (Some(h), Some(m)) =>
      if 0 <= h <= 23 && 0 <= m <= 59 then Ok(h * HOUR + m * MINUTE) else Err(InvalidStartFormat)
    case _ => Err(NotANumber)
  }

  lemma FromFieldsExact(h: Option<int>, m: Option<int>, hours: nat, minutes: nat)
    requires hours <= 23 && minutes <= 59
    ensures FromFields(h, m) == Ok(hours * HOUR + minutes * MINUTE) <==> h == Some(hours) && m == Some(minutes)
  {
    if h.Some? && m.Some? && 0 <= h.value <= 23 && 0 <= m.value <= 59 {
      var a, b := h.value * 60 + m.value, hours * 60 + minutes;
      assert h.value * HOUR + m.value * MINUTE == a * 60_000_000_000;
      assert hours * HOUR + minutes * MINUTE == b * 60_000_000_000;
      assert a == b ==> h.value == hours;
    }
  }

  function HhmmToDuration(s: string): (r: Outcome<int, ConfigError>)
    ensures r.Ok? ==> 0 <= r.value < DAY && r.value % MINUTE == 0
  {
    if |s| != 5 then Err(InvalidStartFormat) else FromFields(Atoi(TrimZero(s[..2])), Atoi(TrimZero(s[3..5])))
  }

  function Digit(n: nat): char
    requires n <= 9
  {
    (n + '0' as int) as char
  }

  function TwoDigits(n: nat): string
    requires n <= 99
  {
    [Digit(n / 10), Digit(n % 10)]
  }

  /** The spellings of `n` in a field of two characters: a sign may stand for the leading zero. */
  predicate Spells(field: string, n: nat)
    requires n <= 99
  {
    field == TwoDigits(n) || (n <= 9 && field == "+" + [Digit(n)]) || (n == 0 && field == "-0")
  }

  lemma OneDigit(s: string)
    requires |s| == 1
    ensures AllDigits(s) ==> DigitsValue(s) == s[0] as int - '0' as int
  {
    if AllDigits(s) {
      assert s[..0] == "";
    }
  }

  lemma FieldValue(field: string, n: nat)
    requires |field| == 2 && n <= 99
    ensures Atoi(TrimZero(field)) == Some(n) <==> Spells(field, n)
  {
    OneDigit(field[1..]);
    OneDigit(field[..1]);
    assert field == [field[0], field[1]];
    if AllDigits(field) {
      assert DigitsValue(field) == DigitsValue(field[..1]) * 10 + (field[1] as int - '0' as int);
    }
  }

  /** Exactly which strings start a window at `hours`:`minutes`: any character may separate the two fields. */
  lemma AcceptedStarts(s: string, hours: nat, minutes: nat)
    requires hours <= 23 && minutes <= 59
    ensures HhmmToDuration(s) == Ok(hours * HOUR + minutes * MINUTE)
       <==> |s| == 5 && Spells(s[..2], hours) && Spells(s[3..], minutes)
  {
    hide Atoi;
    hide FromFields;
    hide Spells;
    if |s| == 5 {
      FieldValue(s[..2], hours);
      FieldValue(s[3..], minutes);
      assert s[3..5] == s[3..];
      FromFieldsExact(Atoi(TrimZero(s[..2])), Atoi(TrimZero(s[3..])), hours, minutes);
    }
  }

  /** Every documented start from 00:00 to 23:59 is read as what it says. */
  lemma DocumentedStarts(hours: nat, minutes: nat)
    requires hours <= 23 && minutes <= 59
    ensures HhmmToDuration(TwoDigits(hours) + ":" + TwoDigits(minutes)) == Ok(hours * HOUR + minutes * MINUTE)
  {
    var s := TwoDigits(hours) + ":" + TwoDigits(minutes);
    assert s[..2] == TwoDigits(hours) && s[3..] == TwoDigits(minutes);
    AcceptedStarts(s, hours, minutes);
  }

  // ---------------------------------------------------------------- windows

  /** The weekday of a day counted from 1 January 1970, a Thursday. */
  function Weekday(day: int): string {
    LONG_DAY_NAMES[(day + 4) % 7]
  }

  datatype Schedule = Schedule(every: seq<string>, start: int, duration: int) {

    predicate Valid() {
      && 0 <= start < DAY
      && 0 < duration <= DAY
      && forall name :: name in every ==> name in LONG_DAY_NAMES
    }

    predicate Scheduled(day: int) {
      every == [] || Weekday(day) in every
    }

    predicate InWindow(day: int, local: Time) {
      day * DAY + start < local < day * DAY + start + duration
    }

    /** What maintenance means: some scheduled day has a window that contains the moment. */
    ghost predicate UnderMaintenance(local: Time) {
      exists day :: Scheduled(day) && InWindow(day, local)
    }

    /** The only day that is looked at. */
    function CandidateDay(local: Time): int {
      local / DAY - if local % DAY / HOUR < start / HOUR then 1 else 0
    }

    predicate CandidateCheck(local: Time) {
      var day := CandidateDay(local);
      Scheduled(day) && InWindow(day, local)
    }

    /** No moment lies in two windows. */
    lemma WindowsAreDisjoint(day1: int, day2: int, local: Time)
      requires Valid() && InWindow(day1, local) && InWindow(day2, local)
      ensures day1 == day2
    {
    }

    /** A weekday of the list falls on the day; 4 January 1970, day 3, was a Sunday. */
    predicate IsListed(day: int) {
      var names := ["Sunday", "Monday", "Tuesday", "Wednesday", "Thursday", "Friday", "Saturday"];
      exists i :: 0 <= i < 7 && names[i] in every && day % 7 == (i + 3) % 7
    }

    /** Inside the window of a day it is up to the calendar. */
    lemma CalendarDecides(day: int, local: Time)
      requires Valid() && day * DAY + start < local < day * DAY + start + duration
      ensures UnderMaintenance(local) <==> every == [] || IsListed(day)
    {
      var i := (day + 4) % 7;
      assert day % 7 == (i + 3) % 7;
      assert UnderMaintenance(local) ==> Scheduled(day) by {
        forall other | InWindow(other, local) ensures other == day {
          WindowsAreDisjoint(other, day, local);
        }
      }
      assert Scheduled(day) && InWindow(day, local) ==> UnderMaintenance(local);
    }

    static lemma NamesDiffer()
      ensures forall i, j :: 0 <= i < j < 7 ==> LONG_DAY_NAMES[i] != LONG_DAY_NAMES[j]
    {
    }

    /** A single weekday is under maintenance on every seventh day and on no other. */
    lemma OneWeekday(i: nat, day: int, local: Time)
      requires i < 7
      requires every == [["Sunday", "Monday", "Tuesday", "Wednesday", "Thursday", "Friday", "Saturday"][i]]
      requires Valid() && day * DAY + start < local < day * DAY + start + duration
      ensures UnderMaintenance(local) <==> day % 7 == (i + 3) % 7
    {
      CalendarDecides(day, local);
      NamesDiffer();
    }

    /** The first and the last moment of a window do not belong to it, nor to another. */
    lemma EdgesAreOutside(day: int)
      requires Valid()
      ensures !UnderMaintenance(day * DAY + start) && !UnderMaintenance(day * DAY + start + duration)
    {
    }

    /** A moment of the 24 hours from `hour` o'clock belongs to that day, counting its early hours to the day before. */
    static lemma HourOfDay(day: int, hour: int, local: Time)
      requires 0 <= hour < 24
      requires day * DAY + hour * HOUR <= local < (day + 1) * DAY + hour * HOUR
      ensures local / DAY - (if local % DAY / HOUR < hour then 1 else 0) == day
    {
      if local < (day + 1) * DAY {
        assert local / DAY == day && local % DAY == local - day * DAY;
      } else {
        assert local / DAY == day + 1 && local % DAY == local - (day + 1) * DAY;
      }
    }

    /** The window of a day reaches at most the same hour of the next day, or the candidate is another day. */
    lemma WindowDayIsCandidate(day: int, local: Time)
      requires Valid() && duration <= DAY - start % HOUR && InWindow(day, local)
      ensures CandidateDay(local) == day
    {
      var startHour := start / HOUR;
      assert startHour * HOUR <= start < startHour * HOUR + HOUR && start % HOUR == start - startHour * HOUR;
      assert day * DAY + startHour * HOUR <= local < (day + 1) * DAY + startHour * HOUR;
      HourOfDay(day, startHour, local);
    }

    lemma CandidateIsExact(local: Time)
      requires Valid() && duration <= DAY - start % HOUR
      ensures CandidateCheck(local) <==> UnderMaintenance(local)
    {
      if UnderMaintenance(local) {
        var day :| Scheduled(day) && InWindow(day, local);
        WindowDayIsCandidate(day, local);
      }
    }

    lemma SomeDayIsScheduled() returns (day: int)
      requires Valid()
      ensures Scheduled(day)
    {
      day := 0;
      if every != [] {
        var name := every[0];
        assert name in every;
        assert name in LONG_DAY_NAMES;
        var i :| 0 <= i < 7 && LONG_DAY_NAMES[i] == name;
        day := i + 3;
        assert (day + 4) % 7 == i;
      }
    }

    /** A longer window is cut off at the full hour in which the next one starts. */
    lemma LongWindowIsCut(day: int) returns (local: Time)
      requires Valid() && duration > DAY - start % HOUR && Scheduled(day)
      ensures UnderMaintenance(local) && !CandidateCheck(local)
    {
      var startHour := start / HOUR;
      assert start == startHour * HOUR + start % HOUR;
      local := (day + 1) * DAY + startHour * HOUR;
      HourOfDay(day + 1, startHour, local);
      assert InWindow(day, local);
      assert CandidateDay(local) == day + 1 && !InWindow(day + 1, local);
    }

    /** The check of one candidate day is right at every moment exactly when the window is no longer than 24 hours
        minus the minutes of its start. */
    lemma MaintenanceExactness()
      requires Valid()
      ensures (forall local :: CandidateCheck(local) <==> UnderMaintenance(local)) <==> duration <= DAY - start % HOUR
    {
      if duration <= DAY - start % HOUR {
        forall local ensures CandidateCheck(local) <==> UnderMaintenance(local) {
          CandidateIsExact(local);
        }
      } else {
        var day := SomeDayIsScheduled();
        var local := LongWindowIsCut(day);
      }
    }
  }

  // ---------------------------------------------------------------- configuration

  class Config {
    var enabled: Option<bool>
    var start: string
    var duration: int
    var timezone: string
    var every: seq<string>
    /** The offset of the configured zone from UTC. */
    var timezoneLocation: Option<int>
    var durationToStartFromMidnight: int

    ghost predicate Valid()
      reads this
    {
      0 <= durationToStartFromMidnight < DAY
    }

    function TheSchedule(): Schedule
      reads this
    {
      Schedule(every, durationToStartFromMidnight, duration)
    }

    predicate DaysAreNames()
      reads this
    {
      forall name :: name in every ==> name in LONG_DAY_NAMES
    }

    predicate IsEnabled()
      reads this
    {
      enabled == None || enabled.value
    }

    constructor (enabled: Option<bool>, start: string, duration: int, timezone: string, every: seq<string>)
      ensures Valid() && timezoneLocation == None && durationToStartFromMidnight == 0
      ensures this.enabled == enabled && this.start == start && this.duration == duration
      ensures this.timezone == timezone && this.every == every
    {
      this.enabled, this.start, this.duration, this.timezone, this.every := enabled, start, duration, timezone, every;
      timezoneLocation, durationToStartFromMidnight := None, 0;
    }

    /** `zones` are the time zones that can be loaded. An enabled configuration passes exactly when its days, start,
        duration and zone are all acceptable, and is then ready to be queried. */
    method ValidateAndSetDefaults(zones: map<string, int>) returns (err: Option<ConfigError>)
      requires Valid()
      modifies `timezone, `timezoneLocation, `durationToStartFromMidnight
      ensures Valid()
      ensures !IsEnabled() ==> err == None && timezone == old(timezone) && timezoneLocation == old(timezoneLocation)
                               && durationToStartFromMidnight == old(durationToStartFromMidnight)
      ensures IsEnabled() ==>
                (err == None <==> && DaysAreNames() && HhmmToDuration(start).Ok? && 0 < duration <= DAY
                                  && (old(timezone) == "" || old(timezone) in zones))
      ensures err == Some(InvalidDayName) <==> IsEnabled() && !DaysAreNames()
      ensures err in {Some(InvalidStartFormat), Some(NotANumber)} <==>
                IsEnabled() && DaysAreNames() && HhmmToDuration(start).Err?
      ensures err in {Some(InvalidStartFormat), Some(NotANumber)} ==> HhmmToDuration(start) == Err(err.value)
      ensures err == Some(InvalidDuration) <==>
                IsEnabled() && DaysAreNames() && HhmmToDuration(start).Ok? && !(0 < duration <= DAY)
      ensures err == Some(InvalidTimezone) <==>
                && IsEnabled() && DaysAreNames() && HhmmToDuration(start).Ok? && 0 < duration <= DAY
                && old(timezone) != "" && old(timezone) !in zones
      ensures IsEnabled() && err == None ==>
                && TheSchedule().Valid() && HhmmToDuration(start) == Ok(durationToStartFromMidnight)
                && (old(timezone) == "" ==> timezone == "UTC" && timezoneLocation == Some(0))
                && (old(timezone) != "" ==> timezone == old(timezone) && timezoneLocation == Some(zones[timezone]))
    {
      err := None;
      if !IsEnabled() {
        return;
      }
      for i := 0 to |every|
        invariant forall j :: 0 <= j < i ==> every[j] in LONG_DAY_NAMES
      {
        var isDayValid := false;
        for k := 0 to |LONG_DAY_NAMES|
          invariant !isDayValid && forall j :: 0 <= j < k ==> LONG_DAY_NAMES[j] != every[i]
        {
          if every[i] == LONG_DAY_NAMES[k] {
            isDayValid := true;
            break;
          }
        }
        if !isDayValid {
          assert every[i] in every;
          return Some(InvalidDayName);
        }
      }
      var parsed := HhmmToDuration(start);
      durationToStartFromMidnight := if parsed.Ok? then parsed.value else 0;
      if parsed.Err? {
        return Some(parsed.error);
      }
      if duration <= 0 || duration > DAY {
        return Some(InvalidDuration);
      }
      if timezone != "" {
        timezoneLocation := if timezone in zones then Some(zones[timezone]) else None;
        if timezoneLocation == None {
          return Some(InvalidTimezone);
        }
      } else {
        timezone, timezoneLocation := "UTC", Some(0);
      }
    }

    method HasDay(day: string) returns (found: bool)
      ensures found <==> day in every
    {
      for i := 0 to |every|
        invariant forall j :: 0 <= j < i ==> every[j] != day
      {
        if every[i] == day {
          return true;
        }
      }
      return false;
    }

    /** `now` is read in the configured zone, or in the zone of the host when none is set. In a validated configuration
        whose window is no longer than 24 hours minus the minutes of its start, this is membership in a window of a
        scheduled day. */
    method IsUnderMaintenance(now: Time, hostOffset: int) returns (under: bool)
      requires Valid()
      ensures var local := now + if timezoneLocation == None then hostOffset else timezoneLocation.value;
              && (under <==> IsEnabled() && TheSchedule().CandidateCheck(local))
              && (IsEnabled() && TheSchedule().Valid() && duration <= DAY - durationToStartFromMidnight % HOUR ==>
                    (under <==> TheSchedule().UnderMaintenance(local)))
      ensures enabled == Some(false) ==> !under
      ensures var local := now + if timezoneLocation == None then hostOffset else timezoneLocation.value;
              enabled != Some(false) && TheSchedule().Valid() && duration <= DAY - durationToStartFromMidnight % HOUR ==>
                forall day :: TheSchedule().InWindow(day, local) ==>
                  (under <==> every == [] || TheSchedule().IsListed(day))
    {
      hide Weekday;
      hide Schedule.UnderMaintenance;
      if !IsEnabled() {
        return false;
      }
      var offset := if timezoneLocation == None then hostOffset else timezoneLocation.value;
      var local := now + offset;
      var adjustedDate := local / DAY;
      if local % DAY / HOUR < durationToStartFromMidnight / HOUR {
        adjustedDate := adjustedDate - 1;
      }
      ghost var schedule := TheSchedule();
      assert adjustedDate == schedule.CandidateDay(local);
      if schedule.Valid() && duration <= DAY - durationToStartFromMidnight % HOUR {
        schedule.CandidateIsExact(local);
        forall day | schedule.InWindow(day, local)
          ensures schedule.UnderMaintenance(local) <==> every == [] || schedule.IsListed(day)
        {
          schedule.CalendarDecides(day, local);
        }
      }
      hide Schedule.IsListed;
      var midnight := adjustedDate * DAY - offset;
      var hasMaintenanceEveryDay := |every| == 0;
      var scheduledOnThatWeekday := HasDay(Weekday(adjustedDate));
      if !hasMaintenanceEveryDay && !scheduledOnThatWeekday {
        return false;
      }
      var startOfMaintenancePeriod := midnight + durationToStartFromMidnight;
      var endOfMaintenancePeriod := startOfMaintenancePeriod + duration;
      return now > startOfMaintenancePeriod && now < endOfMaintenancePeriod;
    }
  }
}
