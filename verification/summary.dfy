/** The figures derived from the week table: the summary row over all weeks,
    the to-date figures over the weeks already over, the weeks left, the
    current week's number and the summary panel that shows one or the other. */
module Summary {
  import opened Wrappers
  import opened Numbers
  import opened Calendar
  import opened Capacity
  import opened Targets
  import opened Engine

  /** Column sums of the summary row. */
  datatype Totals = Totals(weeks: nat, hours: real, targets: real, gaps: real, available: real)

  function Plus(a: Totals, b: Totals): Totals {
    Totals(a.weeks + b.weeks, a.hours + b.hours, a.targets + b.targets, a.gaps + b.gaps,
           a.available + b.available)
  }

  /** What one table row adds: its hours, its target, their difference and
      its available hours. */
  function Row(w: Week): Totals {
    Totals(1, w.hours, w.target as real, w.hours - w.target as real, w.available as real)
  }

  /** The row loop of `recalculateSummaryRow`. */
  function Tally(ws: seq<Week>): Totals {
    if |ws| == 0 then Totals(0, 0.0, 0.0, 0.0, 0.0) else Plus(Row(ws[0]), Tally(ws[1..]))
  }

  /** The summary row's gap is its hours minus its target, and it counts
      every row. */
  lemma {:induction false} TallyTotals(ws: seq<Week>)
    ensures Tally(ws).gaps == Tally(ws).hours - Tally(ws).targets
    ensures Tally(ws).weeks == |ws|
  {
    if |ws| > 0 {
      TallyTotals(ws[1..]);
    }
  }

  /** The guarded achievement over summed hours and targets: 0 unless the
      summed target is positive. */
  function Ratio(hours: real, targets: real): (a: int)
    ensures targets <= 0.0 ==> a == 0
    ensures targets > 0.0 ==> a as real - 0.5 <= hours / targets * 100.0 < a as real + 0.5
  {
    if targets > 0.0 then Round(hours / targets * 100.0) else 0
  }

  /** The summary row: the sums and the overall achievement. */
  datatype Overall = Overall(totals: Totals, achievement: int)

  function OverallSummary(ws: seq<Week>): (r: Overall)
    ensures r.totals == Tally(ws)
    ensures r.totals.weeks == |ws| && r.totals.gaps == r.totals.hours - r.totals.targets
    ensures r.totals.targets <= 0.0 ==> r.achievement == 0
    ensures r.totals.targets > 0.0 ==>
      r.achievement as real - 0.5 <= r.totals.hours / r.totals.targets * 100.0 < r.achievement as real + 0.5
  {
    var t := Tally(ws);
    TallyTotals(ws);
    Overall(t, Ratio(t.hours, t.targets))
  }

  /** The weeks already over: a week's end is its last millisecond, so it is
      at or before the current instant exactly when its last day is before
      today. */
  function Elapsed(ws: seq<Week>, today: int): (r: seq<Week>)
    ensures |r| <= |ws|
  {
    if |ws| == 0 then []
    else (if ws[0].endDay < today then [ws[0]] else []) + Elapsed(ws[1..], today)
  }

  /** The weeks not yet over: those whose last day is today or later. */
  function Upcoming(ws: seq<Week>, today: int): (r: seq<Week>)
    ensures |r| <= |ws|
  {
    if |ws| == 0 then []
    else (if ws[0].endDay >= today then [ws[0]] else []) + Upcoming(ws[1..], today)
  }

  /** The weeks already over are exactly the weeks whose last day is before
      today, and the weeks left exactly those whose last day is today or
      later. */
  lemma {:induction false} ElapsedUpcomingMembers(ws: seq<Week>, today: int, w: Week)
    ensures w in Elapsed(ws, today) <==> w in ws && w.endDay < today
    ensures w in Upcoming(ws, today) <==> w in ws && w.endDay >= today
  {
    if |ws| > 0 {
      ElapsedUpcomingMembers(ws[1..], today, w);
      assert ws == [ws[0]] + ws[1..];
    }
  }

  /** `weeksLeftInQuarter`: every week not already over. */
  function WeeksLeft(ws: seq<Week>, today: int): (n: nat)
    ensures n == |ws| - |Elapsed(ws, today)|
  {
    CountSplit(ws, today);
    |Upcoming(ws, today)|
  }

  /** Sum of the weeks' own gap figures, as the to-date loop adds them. */
  function GapSum(ws: seq<Week>): real {
    if |ws| == 0 then 0.0 else ws[0].gap + GapSum(ws[1..])
  }

  datatype ToDate = ToDate(achievement: int, gap: real)

  /** Every week's figures agree with its capacity, hours and percent. */
  predicate AllConsistent(ws: seq<Week>) {
    forall k :: 0 <= k < |ws| ==> Consistent(ws[k])
  }

  /** `calculateAchievementAndGapToDate`: over the weeks already over, the
      guarded achievement of their summed hours and targets and, for weeks
      whose figures agree, their summed hours less their summed targets. */
  function ToDateSummary(ws: seq<Week>, today: int): (r: ToDate)
    ensures var done := Tally(Elapsed(ws, today));
      && (done.targets <= 0.0 ==> r.achievement == 0)
      && (done.targets > 0.0 ==>
            r.achievement as real - 0.5 <= done.hours / done.targets * 100.0 < r.achievement as real + 0.5)
    ensures AllConsistent(ws) ==>
      r.gap == Tally(Elapsed(ws, today)).hours - Tally(Elapsed(ws, today)).targets
  {
    var done := Elapsed(ws, today);
    ElapsedConsistent(ws, today);
    ToDate(Ratio(Tally(done).hours, Tally(done).targets), GapSum(done))
  }

  /** The weeks already over are weeks of the table, so their figures agree
      when the table's do, and their gaps add up to hours less targets. */
  lemma ElapsedConsistent(ws: seq<Week>, today: int)
    ensures AllConsistent(ws) ==>
      GapSum(Elapsed(ws, today)) == Tally(Elapsed(ws, today)).hours - Tally(Elapsed(ws, today)).targets
  {
    var done := Elapsed(ws, today);
    if AllConsistent(ws) {
      forall k | 0 <= k < |done|
        ensures Consistent(done[k])
      {
        ElapsedUpcomingMembers(ws, today, done[k]);
      }
      GapSumOfConsistent(done);
      TallyTotals(done);
    }
  }

  /** Every week is either over or not: the two groups split every sum. */
  lemma ElapsedUpcomingSplit(ws: seq<Week>, today: int)
    ensures Tally(ws) == Plus(Tally(Elapsed(ws, today)), Tally(Upcoming(ws, today)))
    ensures |Elapsed(ws, today)| + WeeksLeft(ws, today) == |ws|
  {
    TallySplit(ws, today);
    CountSplit(ws, today);
  }

  lemma {:induction false} CountSplit(ws: seq<Week>, today: int)
    ensures |Elapsed(ws, today)| + |Upcoming(ws, today)| == |ws|
  {
    if |ws| > 0 {
      CountSplit(ws[1..], today);
    }
  }

  lemma {:induction false} TallySplit(ws: seq<Week>, today: int)
    ensures Tally(ws) == Plus(Tally(Elapsed(ws, today)), Tally(Upcoming(ws, today)))
  {
    if |ws| > 0 {
      TallySplit(ws[1..], today);
      TallySplitStep(ws, today);
    } else {
      TallySplitEmpty(ws, today);
    }
  }

  lemma TallySplitEmpty(ws: seq<Week>, today: int)
    requires |ws| == 0
    ensures Tally(ws) == Plus(Tally(Elapsed(ws, today)), Tally(Upcoming(ws, today)))
  {
    assert Elapsed(ws, today) == [];
    assert Upcoming(ws, today) == [];
    var zero := Tally([]);
    assert zero == Totals(0, 0.0, 0.0, 0.0, 0.0);
    assert Plus(zero, zero) == zero;
  }

  lemma TallySplitStep(ws: seq<Week>, today: int)
    requires |ws| > 0
    requires Tally(ws[1..]) == Plus(Tally(Elapsed(ws[1..], today)), Tally(Upcoming(ws[1..], today)))
    ensures Tally(ws) == Plus(Tally(Elapsed(ws, today)), Tally(Upcoming(ws, today)))
  {
    var e, u := Elapsed(ws[1..], today), Upcoming(ws[1..], today);
    var r, te, tu := Row(ws[0]), Tally(e), Tally(u);
    assert Tally(ws) == Plus(r, Plus(te, tu));
    PlusRegroup(r, te, tu);
    ElapsedStep(ws, today);
    UpcomingStep(ws, today);
    if ws[0].endDay < today {
      TallyCons(ws[0], e);
    } else {
      TallyCons(ws[0], u);
    }
  }

  /** One step of the weeks-over filter. */
  lemma ElapsedStep(ws: seq<Week>, today: int)
    requires |ws| > 0
    ensures Elapsed(ws, today) ==
      if ws[0].endDay < today then [ws[0]] + Elapsed(ws[1..], today) else Elapsed(ws[1..], today)
  {
    if ws[0].endDay >= today {
      assert [] + Elapsed(ws[1..], today) == Elapsed(ws[1..], today);
    }
  }

  /** One step of the weeks-left filter. */
  lemma UpcomingStep(ws: seq<Week>, today: int)
    requires |ws| > 0
    ensures Upcoming(ws, today) ==
      if ws[0].endDay >= today then [ws[0]] + Upcoming(ws[1..], today) else Upcoming(ws[1..], today)
  {
    if ws[0].endDay < today {
      assert [] + Upcoming(ws[1..], today) == Upcoming(ws[1..], today);
    }
  }

  lemma PlusRegroup(r: Totals, a: Totals, b: Totals)
    ensures Plus(r, Plus(a, b)) == Plus(Plus(r, a), b) == Plus(a, Plus(r, b))
  {
  }

  lemma TallyCons(w: Week, ws: seq<Week>)
    ensures Tally([w] + ws) == Plus(Row(w), Tally(ws))
  {
    assert ([w] + ws)[1..] == ws;
  }

  /** On consistent weeks the gap figures add up to hours minus targets. */
  lemma {:induction false} GapSumOfConsistent(ws: seq<Week>)
    requires forall k :: 0 <= k < |ws| ==> Consistent(ws[k])
    ensures GapSum(ws) == Tally(ws).gaps
  {
    if |ws| > 0 {
      GapSumOfConsistent(ws[1..]);
    }
  }

  /** `weeks.find(week => week.isCurrentWeek)`'s number, or the number of
      weeks when no week is current. */
  function CurrentWeekNumber(ws: seq<Week>): (n: nat)
    ensures (forall k :: 0 <= k < |ws| ==> !ws[k].isCurrent) ==> n == |ws|
    ensures (exists k :: 0 <= k < |ws| && ws[k].isCurrent) ==>
      exists k :: 0 <= k < |ws| && ws[k].isCurrent && n == ws[k].number
        && forall j :: 0 <= j < k ==> !ws[j].isCurrent
  {
    FirstCurrent(ws, 0)
  }

  function FirstCurrent(ws: seq<Week>, from: nat): (n: nat)
    requires from <= |ws|
    requires forall j :: 0 <= j < from ==> !ws[j].isCurrent
    ensures (forall k :: from <= k < |ws| ==> !ws[k].isCurrent) ==> n == |ws|
    ensures (exists k :: from <= k < |ws| && ws[k].isCurrent) ==>
      exists k :: from <= k < |ws| && ws[k].isCurrent && n == ws[k].number
        && forall j :: 0 <= j < k ==> !ws[j].isCurrent
    decreases |ws| - from
  {
    if from == |ws| then |ws|
    else if ws[from].isCurrent then ws[from].number
    else FirstCurrent(ws, from + 1)
  }

  predicate HasCurrent(ws: seq<Week>) {
    exists k :: 0 <= k < |ws| && ws[k].isCurrent
  }

  /** The summary panel: the to-date figures while a week is current,
      otherwise the overall ones; the weeks left in either case. */
  datatype Panel = Panel(toDate: bool, achievement: int, gap: real, weeksLeft: nat)

  function SummaryPanel(ws: seq<Week>, today: int): (p: Panel)
    ensures p.toDate <==> HasCurrent(ws)
    ensures p.weeksLeft + |Elapsed(ws, today)| == |ws|
    ensures p.toDate ==> p.achievement == Ratio(Tally(Elapsed(ws, today)).hours, Tally(Elapsed(ws, today)).targets)
    ensures p.toDate && AllConsistent(ws) ==>
      p.gap == Tally(Elapsed(ws, today)).hours - Tally(Elapsed(ws, today)).targets
    ensures !p.toDate ==> p.achievement == Ratio(Tally(ws).hours, Tally(ws).targets)
    ensures !p.toDate ==> p.gap == Tally(ws).hours - Tally(ws).targets
  {
    if HasCurrent(ws) then
      var d := ToDateSummary(ws, today);
      Panel(true, d.achievement, d.gap, WeeksLeft(ws, today))
    else
      var o := OverallSummary(ws);
      Panel(false, o.achievement, o.totals.gaps, WeeksLeft(ws, today))
  }

  /** The weeks of a persisted state are the period's windows. */
  lemma PersistedWindows(t: Tracker)
    requires Persisted(t)
    requires t.period.startDay.Some? && t.period.endDay.Some?
    ensures var s, e := t.period.startDay.value, t.period.endDay.value;
      && |t.weeks| == |Partition(s, e)|
      && forall k :: 0 <= k < |t.weeks| ==>
        && t.weeks[k].startDay == Partition(s, e)[k].startDay
        && t.weeks[k].endDay == Partition(s, e)[k].endDay
        && (t.weeks[k].isCurrent <==> Contains(Partition(s, e)[k], t.today))
        && t.weeks[k].available == AvailableHours(t.period.holidays, Partition(s, e)[k])
  {
  }

  /** Weeks laid out over the days [s, e] as the week loop lays them out:
      numbered from 1, seven days apart, the last one clipped to the end
      day, each current exactly when today is one of its days. */
  predicate LaidOut(ws: seq<Week>, s: int, e: int, today: int) {
    && |ws| == WeekCount(s, e)
    && forall k :: 0 <= k < |ws| ==>
      && ws[k].number == k + 1
      && ws[k].startDay == s + 7 * k
      && ws[k].endDay == Min(s + 7 * k + 6, e)
      && (ws[k].isCurrent <==> ws[k].startDay <= today <= ws[k].endDay)
  }

  /** A persisted state's weeks are laid out over its period, and their
      figures agree. */
  lemma PersistedLaidOut(t: Tracker)
    requires Persisted(t)
    requires t.period.startDay.Some? && t.period.endDay.Some?
    ensures LaidOut(t.weeks, t.period.startDay.value, t.period.endDay.value, t.today)
    ensures AllConsistent(t.weeks)
  {
    PersistedWindows(t);
    PartitionShape(t.period.startDay.value, t.period.endDay.value);
  }

  /** No two weeks are current at once. */
  lemma AtMostOneCurrent(t: Tracker, j: nat, k: nat)
    requires Persisted(t)
    requires j < |t.weeks| && k < |t.weeks|
    requires t.weeks[j].isCurrent && t.weeks[k].isCurrent
    ensures j == k
  {
    PeriodWindowsShape(t.period);
    PersistedLaidOut(t);
    LaidOutOneCurrent(t.weeks, t.period.startDay.value, t.period.endDay.value, t.today, j, k);
  }

  lemma LaidOutOneCurrent(ws: seq<Week>, s: int, e: int, today: int, j: nat, k: nat)
    requires LaidOut(ws, s, e, today)
    requires j < |ws| && k < |ws| && ws[j].isCurrent && ws[k].isCurrent
    ensures j == k
  {
    assert s + 7 * j <= today <= s + 7 * j + 6;
    assert s + 7 * k <= today <= s + 7 * k + 6;
  }

  /** Some week is current exactly when today lies in the period, and then
      it is week (today - start) / 7 + 1. */
  lemma CurrentWeekOfPeriod(t: Tracker)
    requires Persisted(t)
    requires t.period.startDay.Some? && t.period.endDay.Some?
    ensures var s, e := t.period.startDay.value, t.period.endDay.value;
      && (HasCurrent(t.weeks) <==> s <= t.today <= e)
      && (s <= t.today <= e ==> CurrentWeekNumber(t.weeks) == (t.today - s) / 7 + 1)
      && (!(s <= t.today <= e) ==> CurrentWeekNumber(t.weeks) == |t.weeks|)
  {
    PersistedLaidOut(t);
    LaidOutCurrent(t.weeks, t.period.startDay.value, t.period.endDay.value, t.today);
  }

  lemma LaidOutCurrent(ws: seq<Week>, s: int, e: int, today: int)
    requires LaidOut(ws, s, e, today)
    ensures HasCurrent(ws) <==> s <= today <= e
    ensures s <= today <= e ==>
      (today - s) / 7 < |ws| && ws[(today - s) / 7].isCurrent && CurrentWeekNumber(ws) == (today - s) / 7 + 1
    ensures !(s <= today <= e) ==> CurrentWeekNumber(ws) == |ws|
  {
    if s <= today <= e {
      var c := (today - s) / 7;
      LaidOutAt(ws, s, e, today);
      var n := CurrentWeekNumber(ws);
      var k :| 0 <= k < |ws| && ws[k].isCurrent && n == ws[k].number;
      LaidOutOneCurrent(ws, s, e, today, c, k);
    } else {
      forall k | 0 <= k < |ws|
        ensures !ws[k].isCurrent
      {
        assert s <= ws[k].startDay && ws[k].endDay <= e;
      }
    }
  }

  /** A day of the period lies in week (day - s) / 7 + 1. */
  lemma LaidOutAt(ws: seq<Week>, s: int, e: int, today: int)
    requires LaidOut(ws, s, e, today)
    requires s <= today <= e
    ensures (today - s) / 7 < |ws| && ws[(today - s) / 7].isCurrent
  {
    var c, m := (today - s) / 7, (e - s) / 7;
    assert 7 * c <= today - s < 7 * c + 7;
    assert 7 * m <= e - s < 7 * m + 7;
    assert c <= m;
  }

  /** With increasing last days, the weeks already over are a prefix and
      the rest are the weeks left. */
  lemma {:induction false} ElapsedIsPrefix(ws: seq<Week>, today: int, m: nat)
    requires m <= |ws|
    requires forall j :: 0 <= j < m ==> ws[j].endDay < today
    requires forall j :: m <= j < |ws| ==> ws[j].endDay >= today
    ensures Elapsed(ws, today) == ws[..m]
    ensures Upcoming(ws, today) == ws[m..]
  {
    if |ws| > 0 {
      if m > 0 {
        ElapsedIsPrefix(ws[1..], today, m - 1);
        assert ws[..m] == [ws[0]] + ws[1..][..m - 1];
        assert ws[m..] == ws[1..][m - 1..];
      } else {
        ElapsedIsPrefix(ws[1..], today, 0);
        assert ws == [ws[0]] + ws[1..];
      }
    }
  }

  /** While a week is current, "to date" means the weeks before it, and the
      weeks left are it and the ones after: week number c leaves n - c + 1. */
  lemma ToDateStopsAtCurrentWeek(t: Tracker, c: nat)
    requires Persisted(t)
    requires c < |t.weeks| && t.weeks[c].isCurrent
    ensures Elapsed(t.weeks, t.today) == t.weeks[..c]
    ensures WeeksLeft(t.weeks, t.today) == |t.weeks| - c
    ensures CurrentWeekNumber(t.weeks) == c + 1
  {
    PeriodWindowsShape(t.period);
    PersistedLaidOut(t);
    LaidOutToDate(t.weeks, t.period.startDay.value, t.period.endDay.value, t.today, c);
  }

  lemma LaidOutToDate(ws: seq<Week>, s: int, e: int, today: int, c: nat)
    requires LaidOut(ws, s, e, today)
    requires c < |ws| && ws[c].isCurrent
    ensures Elapsed(ws, today) == ws[..c]
    ensures WeeksLeft(ws, today) == |ws| - c
    ensures CurrentWeekNumber(ws) == c + 1
  {
    LaidOutEndsAround(ws, s, e, today, c);
    ElapsedIsPrefix(ws, today, c);
    var n := CurrentWeekNumber(ws);
    var k :| 0 <= k < |ws| && ws[k].isCurrent && n == ws[k].number;
    LaidOutOneCurrent(ws, s, e, today, c, k);
  }

  /** Weeks before the current one end before today; the current one and
      those after end today or later. */
  lemma LaidOutEndsAround(ws: seq<Week>, s: int, e: int, today: int, c: nat)
    requires LaidOut(ws, s, e, today)
    requires c < |ws| && ws[c].isCurrent
    ensures forall j :: 0 <= j < c ==> ws[j].endDay < today
    ensures forall j :: c <= j < |ws| ==> ws[j].endDay >= today
  {
    assert s + 7 * c <= today <= Min(s + 7 * c + 6, e);
    forall j | 0 <= j < c
      ensures ws[j].endDay < today
    {
      assert ws[j].endDay <= s + 7 * j + 6;
    }
    forall j | c <= j < |ws|
      ensures ws[j].endDay >= today
    {
      assert ws[j].endDay == Min(s + 7 * j + 6, e);
    }
  }

  /** The summary row's available hours are 40 per week minus 8 per holiday
      entry in the period. */
  lemma SummaryCapacity(t: Tracker)
    requires Persisted(t)
    requires t.period.startDay.Some? && t.period.endDay.Some?
    ensures var s, e := t.period.startDay.value, t.period.endDay.value;
      Tally(t.weeks).available ==
        (BaseHours * WeekCount(s, e) - HoursPerHoliday * HolidaysIn(t.period.holidays, s, e)) as real
  {
    var s, e := t.period.startDay.value, t.period.endDay.value;
    PersistedWindows(t);
    TallyAvailable(t.weeks, t.period.holidays, Partition(s, e));
    PartitionCapacity(t.period.holidays, s, e);
  }

  lemma {:induction false} TallyAvailable(ws: seq<Week>, holidays: seq<Option<int>>, windows: seq<Window>)
    requires |ws| == |windows|
    requires forall k :: 0 <= k < |ws| ==> ws[k].available == AvailableHours(holidays, windows[k])
    ensures Tally(ws).available == TotalAvailable(holidays, windows) as real
  {
    if |ws| > 0 {
      TallyAvailable(ws[1..], holidays, windows[1..]);
    }
  }

  /** What the summary panel shows for weeks laid out over [s, e]. While
      today lies in week c + 1 it shows the achievement and gap of weeks
      1..c and the weeks from c + 1 on as left; otherwise it shows the
      summary row's achievement and gap, and the weeks left are all weeks
      when the period lies ahead and none when it is over. */
  predicate PanelFigures(p: Panel, ws: seq<Week>, s: int, e: int, today: int) {
    && (p.toDate <==> s <= today <= e)
    && (s <= today <= e ==>
          var c := (today - s) / 7;
          && c < |ws|
          && var done := ws[..c];
          && p.achievement == Ratio(Tally(done).hours, Tally(done).targets)
          && p.gap == Tally(done).hours - Tally(done).targets
          && p.weeksLeft == |ws| - c)
    && (!(s <= today <= e) ==>
          && p.achievement == Ratio(Tally(ws).hours, Tally(ws).targets)
          && p.gap == Tally(ws).hours - Tally(ws).targets
          && p.weeksLeft == (if today < s then |ws| else 0))
  }

  /** The summary panel of a persisted state. */
  lemma PanelOfPersisted(t: Tracker)
    requires Persisted(t)
    requires t.period.startDay.Some? && t.period.endDay.Some?
    ensures PanelFigures(SummaryPanel(t.weeks, t.today), t.weeks,
                         t.period.startDay.value, t.period.endDay.value, t.today)
  {
    PersistedLaidOut(t);
    PanelOfLaidOut(t.weeks, t.period.startDay.value, t.period.endDay.value, t.today);
  }

  lemma PanelOfLaidOut(ws: seq<Week>, s: int, e: int, today: int)
    requires LaidOut(ws, s, e, today) && AllConsistent(ws)
    ensures PanelFigures(SummaryPanel(ws, today), ws, s, e, today)
  {
    LaidOutCurrent(ws, s, e, today);
    if s <= today <= e {
      PanelDuringPeriod(ws, s, e, today);
    } else {
      PanelOutsidePeriod(ws, s, e, today);
    }
  }

  lemma PanelDuringPeriod(ws: seq<Week>, s: int, e: int, today: int)
    requires LaidOut(ws, s, e, today) && AllConsistent(ws)
    requires s <= today <= e
    ensures var c := (today - s) / 7;
      var p := SummaryPanel(ws, today);
      && c < |ws|
      && var done := ws[..c];
      && p.achievement == Ratio(Tally(done).hours, Tally(done).targets)
      && p.gap == Tally(done).hours - Tally(done).targets
      && p.weeksLeft == |ws| - c
  {
    var c := (today - s) / 7;
    LaidOutAt(ws, s, e, today);
    LaidOutToDate(ws, s, e, today, c);
    PanelToDate(ws, today, c);
  }

  /** The panel while week c + 1 is current and the weeks before it are the
      ones already over. */
  lemma PanelToDate(ws: seq<Week>, today: int, c: nat)
    requires c < |ws| && ws[c].isCurrent && AllConsistent(ws)
    requires Elapsed(ws, today) == ws[..c]
    ensures var p := SummaryPanel(ws, today);
      && p.achievement == Ratio(Tally(ws[..c]).hours, Tally(ws[..c]).targets)
      && p.gap == Tally(ws[..c]).hours - Tally(ws[..c]).targets
      && p.weeksLeft == |ws| - c
  {
    assert HasCurrent(ws);
  }

  lemma PanelOutsidePeriod(ws: seq<Week>, s: int, e: int, today: int)
    requires LaidOut(ws, s, e, today)
    requires !(s <= today <= e)
    ensures var p := SummaryPanel(ws, today);
      && !HasCurrent(ws)
      && p.achievement == Ratio(Tally(ws).hours, Tally(ws).targets)
      && p.gap == Tally(ws).hours - Tally(ws).targets
      && p.weeksLeft == (if today < s then |ws| else 0)
  {
    LaidOutCurrent(ws, s, e, today);
    if today < s {
      ElapsedIsPrefix(ws, today, 0);
    } else {
      forall j | 0 <= j < |ws|
        ensures ws[j].endDay < today
      {
        assert ws[j].endDay <= e;
      }
      ElapsedIsPrefix(ws, today, |ws|);
    }
  }
}
