/** The tracker's state and its life cycle: initialization from the block's
    paragraphs and the store, and the two edit events (a new target
    percentage for all weeks, new hours for one week). The store is the
    browser's key-value storage, seen as a map from keys to the numbers
    written under them. */
module Engine {
  import opened Wrappers
  import opened Numbers
  import opened Text
  import opened Fields
  import opened Validation
  import opened Calendar
  import opened Capacity
  import opened Targets

  type Store = map<string, real>

  /** `parseFloat(localStorage.getItem(key))`: an absent key reads as NaN. */
  function Read(store: Store, key: string): Option<real> {
    if key in store then Some(store[key]) else None
  }

  const DefaultTargetPercent: real := 87.0

  /** One row of the table. */
  datatype Week = Week(
    number: nat,
    startDay: int,
    endDay: int,
    isCurrent: bool,
    available: int,
    hours: real,
    percent: real,
    target: int,
    achievement: int,
    gap: real)

  /** What initialization extracted: the year and quarter, and the start,
      end and holiday days as the host parsed them (`None` for a date that
      did not parse). */
  datatype Period = Period(
    year: int,
    quarter: Quarter,
    startDay: Option<int>,
    endDay: Option<int>,
    holidays: seq<Option<int>>)

  /** The whole state of one rendering: the period, the day it was rendered
      on, the shared target percentage, the weeks and the store. */
  datatype Tracker = Tracker(
    period: Period,
    today: int,
    percent: real,
    weeks: seq<Week>,
    store: Store)

  function Prefix(p: Period): string {
    StoragePrefix(p.year, p.quarter)
  }

  /** The week loop only runs when both dates parsed: a comparison with an
      Invalid Date is false, so the loop condition fails at once. */
  function PeriodWindows(p: Period): seq<Window> {
    if p.startDay.Some? && p.endDay.Some? then Partition(p.startDay.value, p.endDay.value) else []
  }

  lemma PeriodWindowsShape(p: Period)
    ensures |PeriodWindows(p)| ==
      if p.startDay.Some? && p.endDay.Some? then WeekCount(p.startDay.value, p.endDay.value) else 0
    ensures forall k :: 0 <= k < |PeriodWindows(p)| ==> PeriodWindows(p)[k].number == k + 1
  {
    if p.startDay.Some? && p.endDay.Some? {
      PartitionShape(p.startDay.value, p.endDay.value);
    }
  }

  /** A week's derived figures agree with its capacity, hours and percent. */
  predicate Consistent(w: Week) {
    && w.target == TargetHours(w.available, w.percent)
    && w.achievement == AchievementPercent(w.hours, w.available, w.percent)
    && w.gap == Gap(w.hours, w.target)
  }

  /** A week shows a window: the window's number and days, whether today
      lies in it, and its capacity given the holidays. */
  predicate Shows(wk: Week, w: Window, holidays: seq<Option<int>>, today: int) {
    && wk.number == w.number && wk.startDay == w.startDay && wk.endDay == w.endDay
    && (wk.isCurrent <==> Contains(w, today))
    && wk.available == AvailableHours(holidays, w)
  }

  /** The body of the week loop once the window is known. */
  function MakeWeek(w: Window, holidays: seq<Option<int>>, today: int, percent: real, hours: real): (r: Week)
    ensures Shows(r, w, holidays, today)
    ensures r.hours == hours && r.percent == percent
    ensures Consistent(r)
  {
    var available := AvailableHours(holidays, w);
    var target := TargetHours(available, percent);
    Week(w.number, w.startDay, w.endDay, Contains(w, today), available, hours, percent, target,
         AchievementPercent(hours, available, percent), Gap(hours, target))
  }

  /** The hours stored for a week, `|| 0`. */
  function StoredHours(p: Period, store: Store, number: nat): real {
    OrElse(Read(store, WeekHoursKey(Prefix(p), number)), 0.0)
  }

  function LoadWeeks(p: Period, store: Store, today: int, percent: real): seq<Week> {
    var ws := PeriodWindows(p);
    seq(|ws|, k requires 0 <= k < |ws| =>
      MakeWeek(ws[k], p.holidays, today, percent, StoredHours(p, store, ws[k].number)))
  }

  /** Week k of the loop shows window k and holds the hours stored under
      week number k + 1. */
  lemma LoadWeeksShape(p: Period, store: Store, today: int, percent: real)
    ensures var ws := LoadWeeks(p, store, today, percent);
      && |ws| == |PeriodWindows(p)|
      && forall k :: 0 <= k < |ws| ==>
        && Shows(ws[k], PeriodWindows(p)[k], p.holidays, today)
        && Consistent(ws[k]) && ws[k].percent == percent
        && ws[k].number == k + 1
        && ws[k].hours == StoredHours(p, store, k + 1)
  {
    PeriodWindowsShape(p);
  }

  /** Everything initialization does after validation: read the target
      percentage (`|| 87`), run the week loop, read each week's hours. */
  function Load(p: Period, store: Store, today: int): (t: Tracker)
    ensures t.period == p && t.store == store && t.today == today
    ensures t.percent == OrElse(Read(store, TargetPercentKey(Prefix(p))), DefaultTargetPercent)
    ensures t.percent != 0.0
    ensures |t.weeks| == |PeriodWindows(p)|
    ensures forall k :: 0 <= k < |t.weeks| ==>
      && Shows(t.weeks[k], PeriodWindows(p)[k], p.holidays, today)
      && Consistent(t.weeks[k]) && t.weeks[k].percent == t.percent
      && t.weeks[k].number == k + 1
      && t.weeks[k].hours == StoredHours(p, store, k + 1)
  {
    var percent := OrElse(Read(store, TargetPercentKey(Prefix(p))), DefaultTargetPercent);
    LoadWeeksShape(p, store, today, percent);
    Tracker(p, today, percent, LoadWeeks(p, store, today, percent), store)
  }

  /** A state is persisted when reloading the page from its store, on the
      same day, reproduces it exactly. */
  predicate Persisted(t: Tracker) {
    t == Load(t.period, t.store, t.today)
  }

  /** `holidaysStr.split(',')`, each piece trimmed and parsed as a date. */
  function HolidayDays(text: string, parseDay: string -> Option<int>): (r: seq<Option<int>>)
    ensures |r| == |Split(text, ',')|
    ensures forall k :: 0 <= k < |r| ==> r[k] == parseDay(Trim(Split(text, ',')[k]))
  {
    var pieces := Split(text, ',');
    seq(|pieces|, k requires 0 <= k < |pieces| => parseDay(Trim(pieces[k])))
  }

  /** Initialization of the block: extract and validate the fields (an
      error aborts with no weeks), parse the dates with the host's parser,
      and load the rest from the store. */
  function Init(paragraphs: seq<string>, parseDay: string -> Option<int>, store: Store, today: int)
    : (r: Result<Tracker, ValidationError>)
    ensures r.Err? <==> Validate(Extract(paragraphs)).Err?
    ensures r.Err? ==> r.error == Validate(Extract(paragraphs)).error
    ensures r.Ok? ==> Persisted(r.value) && r.value.store == store && r.value.today == today
    ensures r.Ok? ==>
      var s := Validate(Extract(paragraphs)).value;
      var start, end := parseDay(s.startText), parseDay(s.endText);
      && Prefix(r.value.period) == StoragePrefix(s.year, s.quarter)
      && r.value.period.startDay == start && r.value.period.endDay == end
      && r.value.period.holidays == HolidayDays(s.holidaysText, parseDay)
      && |r.value.weeks| == (if start.Some? && end.Some? then WeekCount(start.value, end.value) else 0)
  {
    var settings :- Validate(Extract(paragraphs));
    var period := Period(settings.year, settings.quarter,
                         parseDay(settings.startText), parseDay(settings.endText),
                         HolidayDays(settings.holidaysText, parseDay));
    PeriodWindowsShape(period);
    Ok(Load(period, store, today))
  }

  /** A week re-targeted at a new percentage: its days, capacity and hours
      stay, and its figures agree with the new percentage. */
  function Retarget(w: Week, percent: real): (r: Week)
    ensures r.number == w.number && r.startDay == w.startDay && r.endDay == w.endDay
    ensures r.isCurrent == w.isCurrent && r.available == w.available && r.hours == w.hours
    ensures r.percent == percent && Consistent(r)
  {
    var target := TargetHours(w.available, percent);
    w.(percent := percent, target := target,
       achievement := AchievementPercent(w.hours, w.available, percent),
       gap := Gap(w.hours, target))
  }

  /** The target-percent input event: `parseFloat(value) || 87` becomes the
      percentage of every week, whose target, achievement and gap follow;
      the percentage is written to the store. */
  function SetTargetPercent(t: Tracker, input: Option<real>): (r: Tracker)
    ensures r.percent == (if input.Some? && input.value != 0.0 then input.value else DefaultTargetPercent)
    ensures r.period == t.period && r.today == t.today && |r.weeks| == |t.weeks|
    ensures r.store == t.store[TargetPercentKey(Prefix(t.period)) := r.percent]
    ensures forall k :: 0 <= k < |r.weeks| ==>
      && Consistent(r.weeks[k])
      && r.weeks[k].percent == r.percent
      && r.weeks[k].hours == t.weeks[k].hours
      && r.weeks[k].available == t.weeks[k].available
      && r.weeks[k].number == t.weeks[k].number
      && r.weeks[k].startDay == t.weeks[k].startDay
      && r.weeks[k].endDay == t.weeks[k].endDay
      && r.weeks[k].isCurrent == t.weeks[k].isCurrent
  {
    var percent := OrElse(input, DefaultTargetPercent);
    Tracker(t.period, t.today, percent,
            seq(|t.weeks|, k requires 0 <= k < |t.weeks| => Retarget(t.weeks[k], percent)),
            t.store[TargetPercentKey(Prefix(t.period)) := percent])
  }

  /** The hours input event of week `i`: `parseFloat(value) || 0` becomes the
      week's hours, its achievement and gap follow (its target is left as
      it is), and the hours are written to the store. */
  function SetWeekHours(t: Tracker, i: nat, input: Option<real>): (r: Tracker)
    requires i < |t.weeks|
    ensures |r.weeks| == |t.weeks|
    ensures input.Some? ==> r.weeks[i].hours == input.value
    ensures input.None? ==> r.weeks[i].hours == 0.0
    ensures r.period == t.period && r.today == t.today && r.percent == t.percent
    ensures forall k :: 0 <= k < |t.weeks| && k != i ==> r.weeks[k] == t.weeks[k]
    ensures var w, w' := t.weeks[i], r.weeks[i];
      && w'.number == w.number && w'.startDay == w.startDay && w'.endDay == w.endDay
      && w'.isCurrent == w.isCurrent && w'.available == w.available
      && w'.percent == w.percent && w'.target == w.target
      && (Consistent(w) ==> Consistent(w'))
    ensures r.store == t.store[WeekHoursKey(Prefix(t.period), t.weeks[i].number) := r.weeks[i].hours]
  {
    var w := t.weeks[i];
    var hours := OrElse(input, 0.0);
    t.(weeks := t.weeks[i := WithHours(w, hours)],
       store := t.store[WeekHoursKey(Prefix(t.period), w.number) := hours])
  }

  /** A week with new hours: its achievement and gap follow, its target
      stays. */
  function WithHours(w: Week, hours: real): Week {
    w.(hours := hours,
       achievement := AchievementPercent(hours, w.available, w.percent),
       gap := Gap(hours, w.target))
  }

  /** Entering the same target percentage again changes nothing. */
  lemma SetTargetPercentIdempotent(t: Tracker, input: Option<real>)
    ensures SetTargetPercent(SetTargetPercent(t, input), input) == SetTargetPercent(t, input)
  {
    var once := SetTargetPercent(t, input);
    var twice := SetTargetPercent(once, input);
    assert twice.weeks == once.weeks by {
      forall k | 0 <= k < |once.weeks|
        ensures twice.weeks[k] == once.weeks[k]
      {
        assert twice.weeks[k] == Retarget(once.weeks[k], once.percent);
      }
    }
  }

  /** Entering the same hours again changes nothing. */
  lemma SetWeekHoursIdempotent(t: Tracker, i: nat, input: Option<real>)
    requires i < |t.weeks|
    ensures SetWeekHours(SetWeekHours(t, i, input), i, input) == SetWeekHours(t, i, input)
  {
  }

  /** The two events commute: a new percentage and new hours for one week
      give the same state in either order. */
  lemma EditsCommute(t: Tracker, i: nat, percentInput: Option<real>, hoursInput: Option<real>)
    requires i < |t.weeks|
    ensures SetWeekHours(SetTargetPercent(t, percentInput), i, hoursInput)
         == SetTargetPercent(SetWeekHours(t, i, hoursInput), percentInput)
  {
    EditsCommuteOnStore(t, i, percentInput, hoursInput);
    EditsCommuteOnWeeks(t, i, percentInput, hoursInput);
  }

  /** The two events write different keys. */
  lemma EditsCommuteOnStore(t: Tracker, i: nat, percentInput: Option<real>, hoursInput: Option<real>)
    requires i < |t.weeks|
    ensures SetWeekHours(SetTargetPercent(t, percentInput), i, hoursInput).store
         == SetTargetPercent(SetWeekHours(t, i, hoursInput), percentInput).store
  {
    var tk, wk := TargetPercentKey(Prefix(t.period)), WeekHoursKey(Prefix(t.period), t.weeks[i].number);
    TargetKeyIsNotWeekKey(Prefix(t.period), t.weeks[i].number);
    UpdatesCommute(t.store, tk, OrElse(percentInput, DefaultTargetPercent), wk, OrElse(hoursInput, 0.0));
  }

  /** Writes to two different keys commute. */
  lemma UpdatesCommute(store: Store, k1: string, v1: real, k2: string, v2: real)
    requires k1 != k2
    ensures store[k1 := v1][k2 := v2] == store[k2 := v2][k1 := v1]
  {
  }

  /** Week by week, the two events commute. */
  lemma EditsCommuteOnWeeks(t: Tracker, i: nat, percentInput: Option<real>, hoursInput: Option<real>)
    requires i < |t.weeks|
    ensures SetWeekHours(SetTargetPercent(t, percentInput), i, hoursInput).weeks
         == SetTargetPercent(SetWeekHours(t, i, hoursInput), percentInput).weeks
  {
    var a := SetWeekHours(SetTargetPercent(t, percentInput), i, hoursInput);
    var b := SetTargetPercent(SetWeekHours(t, i, hoursInput), percentInput);
    var percent := OrElse(percentInput, DefaultTargetPercent);
    var hours := OrElse(hoursInput, 0.0);
    forall k | 0 <= k < |a.weeks|
      ensures a.weeks[k] == b.weeks[k]
    {
      if k == i {
        WeekEditsCommute(t.weeks[k], percent, hours);
      }
    }
  }

  /** On one week, re-targeting and new hours commute. */
  lemma WeekEditsCommute(w: Week, percent: real, hours: real)
    ensures WithHours(Retarget(w, percent), hours) == Retarget(WithHours(w, hours), percent)
  {
  }

  /** Loaded weeks are numbered from 1, so their storage keys differ. */
  lemma LoadedWeekKeys(t: Tracker, j: nat, k: nat)
    requires Persisted(t)
    requires j < |t.weeks| && k < |t.weeks| && j != k
    ensures WeekHoursKey(Prefix(t.period), t.weeks[j].number) != WeekHoursKey(Prefix(t.period), t.weeks[k].number)
  {
    NumberedKeysDistinct(Prefix(t.period), t.weeks, j, k);
  }

  lemma NumberedKeysDistinct(prefix: string, ws: seq<Week>, j: nat, k: nat)
    requires forall n :: 0 <= n < |ws| ==> ws[n].number == n + 1
    requires j < |ws| && k < |ws| && j != k
    ensures WeekHoursKey(prefix, ws[j].number) != WeekHoursKey(prefix, ws[k].number)
  {
    WeekHoursKeysDistinct(prefix, j + 1, k + 1);
  }

  /** After a new target percentage, reloading from the store gives the same
      state: the percentage was written and the hours were already there. */
  lemma SetTargetPercentPersists(t: Tracker, input: Option<real>)
    requires Persisted(t)
    ensures Persisted(SetTargetPercent(t, input))
  {
    var r := SetTargetPercent(t, input);
    var reload := Load(r.period, r.store, r.today);
    var ws := PeriodWindows(t.period);
    assert reload.percent == r.percent;
    assert reload.weeks == r.weeks by {
      forall k | 0 <= k < |ws|
        ensures reload.weeks[k] == r.weeks[k]
      {
        PercentWriteKeepsHours(t.period, t.store, r.percent, k + 1);
      }
    }
  }

  /** Writing the target percentage leaves every week's hours as they read
      back. */
  lemma PercentWriteKeepsHours(p: Period, store: Store, v: real, n: nat)
    ensures StoredHours(p, store[TargetPercentKey(Prefix(p)) := v], n) == StoredHours(p, store, n)
  {
    TargetKeyIsNotWeekKey(Prefix(p), n);
  }

  /** After new hours for a week, reloading from the store gives the same
      state: only that week's key was written, with the value now shown. */
  lemma SetWeekHoursPersists(t: Tracker, i: nat, input: Option<real>)
    requires Persisted(t)
    requires i < |t.weeks|
    ensures Persisted(SetWeekHours(t, i, input))
  {
    var r := SetWeekHours(t, i, input);
    var reload := Load(r.period, r.store, r.today);
    var h := OrElse(input, 0.0);
    assert t.weeks[i].number == i + 1;
    assert reload.percent == r.percent by {
      WeekWriteKeepsPercent(t.period, t.store, i, h);
    }
    assert reload.weeks == r.weeks by {
      forall k | 0 <= k < |r.weeks|
        ensures reload.weeks[k] == r.weeks[k]
      {
        if k != i {
          OtherWeekReloads(t.period, t.store, t.today, i, h, k);
        } else {
          EditedWeekReloads(t.period, t.store, t.today, i, input);
        }
      }
    }
  }

  /** Writing week `i + 1`'s hours leaves any other loaded week as it was. */
  lemma OtherWeekReloads(p: Period, store: Store, today: int, i: nat, h: real, k: nat)
    requires k < |PeriodWindows(p)| && k != i
    ensures Load(p, store[WeekHoursKey(Prefix(p), i + 1) := h], today).weeks[k] == Load(p, store, today).weeks[k]
  {
    var store' := store[WeekHoursKey(Prefix(p), i + 1) := h];
    WeekWriteKeepsPercent(p, store, i, h);
    WeekWriteKeepsOthers(p, store, i, h, k + 1);
    LoadsAgreeAt(p, store', store, today, k);
  }

  /** Two stores that hold the same percentage and the same hours for week
      k + 1 load the same week k. */
  lemma LoadsAgreeAt(p: Period, s1: Store, s2: Store, today: int, k: nat)
    requires k < |PeriodWindows(p)|
    requires Read(s1, TargetPercentKey(Prefix(p))) == Read(s2, TargetPercentKey(Prefix(p)))
    requires StoredHours(p, s1, k + 1) == StoredHours(p, s2, k + 1)
    ensures Load(p, s1, today).weeks[k] == Load(p, s2, today).weeks[k]
  {
    LoadedWeek(p, s1, today, k);
    LoadedWeek(p, s2, today, k);
  }

  /** Writing week `i + 1`'s hours as the input event does loads that week
      with the new hours. */
  lemma EditedWeekReloads(p: Period, store: Store, today: int, i: nat, input: Option<real>)
    requires i < |PeriodWindows(p)|
    ensures var h := OrElse(input, 0.0);
      Load(p, store[WeekHoursKey(Prefix(p), i + 1) := h], today).weeks[i] == WithHours(Load(p, store, today).weeks[i], h)
  {
    var h := OrElse(input, 0.0);
    var store' := store[WeekHoursKey(Prefix(p), i + 1) := h];
    var percent := Load(p, store, today).percent;
    LoadedWeek(p, store', today, i);
    LoadedWeek(p, store, today, i);
    WeekWriteKeepsPercent(p, store, i, h);
    OrElseStable(input, 0.0);
    MakeWeekWithHours(PeriodWindows(p)[i], p.holidays, today, percent, StoredHours(p, store, i + 1), h);
  }

  /** Writing week `i + 1`'s hours leaves the target percentage as it
      reads back. */
  lemma WeekWriteKeepsPercent(p: Period, store: Store, i: nat, v: real)
    ensures Read(store[WeekHoursKey(Prefix(p), i + 1) := v], TargetPercentKey(Prefix(p)))
         == Read(store, TargetPercentKey(Prefix(p)))
  {
    TargetKeyIsNotWeekKey(Prefix(p), i + 1);
  }

  /** Writing week `i + 1`'s hours leaves every other week's hours as they
      read back. */
  lemma WeekWriteKeepsOthers(p: Period, store: Store, i: nat, v: real, n: nat)
    requires n != i + 1
    ensures StoredHours(p, store[WeekHoursKey(Prefix(p), i + 1) := v], n) == StoredHours(p, store, n)
  {
    WeekHoursKeysDistinct(Prefix(p), n, i + 1);
  }

  /** Week k of a load is the week loop's body on window k. */
  lemma LoadedWeek(p: Period, store: Store, today: int, k: nat)
    requires k < |PeriodWindows(p)|
    ensures var t := Load(p, store, today);
      t.weeks[k] == MakeWeek(PeriodWindows(p)[k], p.holidays, today, t.percent, StoredHours(p, store, k + 1))
  {
    PeriodWindowsShape(p);
  }

  /** New hours on a computed week give the week computed with them. */
  lemma MakeWeekWithHours(w: Window, holidays: seq<Option<int>>, today: int, percent: real, old_hours: real, hours: real)
    ensures WithHours(MakeWeek(w, holidays, today, percent, old_hours), hours) == MakeWeek(w, holidays, today, percent, hours)
  {
  }

  /** Five holiday entries in one week leave it no available hours, so its
      effective target is 0 and the unguarded division has no value there. */
  lemma FullHolidayWeek(year: int, quarter: Quarter, start: int, store: Store, today: int)
    ensures var holidays := [Some(start), Some(start + 1), Some(start + 2), Some(start + 3), Some(start + 4)];
      var t := Load(Period(year, quarter, Some(start), Some(start + 6), holidays), store, today);
      && |t.weeks| == 1
      && t.weeks[0].available == 0
      && EffectiveTarget(t.weeks[0].available, t.percent) == 0.0
      && t.weeks[0].achievement == 0
  {
    var holidays := [Some(start), Some(start + 1), Some(start + 2), Some(start + 3), Some(start + 4)];
    var p := Period(year, quarter, Some(start), Some(start + 6), holidays);
    OneWeekPeriod(start);
    FiveHolidaysFill(holidays, start);
  }

  /** A seven-day period is one window. */
  lemma OneWeekPeriod(start: int)
    ensures Partition(start, start + 6) == [Window(1, start, start + 6)]
  {
    PartitionShape(start, start + 6);
  }

  lemma FiveHolidaysFill(holidays: seq<Option<int>>, start: int)
    requires holidays == [Some(start), Some(start + 1), Some(start + 2), Some(start + 3), Some(start + 4)]
    ensures AvailableHours(holidays, Window(1, start, start + 6)) == 0
  {
    HolidaysAllInside(holidays, start, start + 6);
  }
}
