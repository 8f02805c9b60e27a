/** Holiday-adjusted capacity: a five-day, eight-hour week loses one full day
    for every holiday entry that falls inside it. */
module Capacity {
  import opened Wrappers
  import opened Calendar

  const BaseHours: int := 40
  const HoursPerHoliday: int := 8

  /** How many entries of the holiday list, counted with multiplicity, fall
      on a day in [first, last]. An entry that did not parse as a date (an
      Invalid Date compares false with everything) is never counted. */
  function HolidaysIn(holidays: seq<Option<int>>, first: int, last: int): (c: nat)
    ensures c == |EntriesIn(holidays, first, last)|
    ensures c <= |holidays|
    ensures first > last ==> c == 0
  {
    if |holidays| == 0 then
      assert EntriesIn(holidays, first, last) == {};
      0
    else
      var h := holidays[|holidays| - 1];
      EntriesInSnoc(holidays, first, last);
      HolidaysIn(holidays[..|holidays| - 1], first, last)
        + (if h.Some? && first <= h.value <= last then 1 else 0)
  }

  /** The positions of the holiday list whose entry is a day in
      [first, last]: the `filter` of the code, as a set of indices. */
  function EntriesIn(holidays: seq<Option<int>>, first: int, last: int): set<nat> {
    set i: nat | i < |holidays| && holidays[i].Some? && first <= holidays[i].value <= last
  }

  /** The last entry adds its own index, or nothing. */
  lemma EntriesInSnoc(holidays: seq<Option<int>>, first: int, last: int)
    requires |holidays| > 0
    ensures var n := |holidays| - 1;
      var h := holidays[n];
      EntriesIn(holidays, first, last) ==
        EntriesIn(holidays[..n], first, last) + (if h.Some? && first <= h.value <= last then {n} else {})
    ensures |holidays| - 1 !in EntriesIn(holidays[..|holidays| - 1], first, last)
  {
  }

  /** When every entry falls inside the range, every entry counts. */
  lemma {:induction false} HolidaysAllInside(holidays: seq<Option<int>>, first: int, last: int)
    requires forall i :: 0 <= i < |holidays| ==> holidays[i].Some? && first <= holidays[i].value <= last
    ensures HolidaysIn(holidays, first, last) == |holidays|
  {
    if |holidays| > 0 {
      HolidaysAllInside(holidays[..|holidays| - 1], first, last);
    }
  }

  function HolidayCount(holidays: seq<Option<int>>, w: Window): nat {
    HolidaysIn(holidays, w.startDay, w.endDay)
  }

  /** The week's available hours; no clamping, so five holidays give 0 and
      more give a negative figure. A week keeps its full 40 hours exactly
      when no holiday entry falls inside it. */
  function AvailableHours(holidays: seq<Option<int>>, w: Window): (a: int)
    ensures a <= BaseHours && a % HoursPerHoliday == 0
    ensures a == BaseHours <==> forall i :: 0 <= i < |holidays| && holidays[i].Some? ==> !Contains(w, holidays[i].value)
  {
    NoneInWindow(holidays, w);
    BaseHours - HoursPerHoliday * HolidayCount(holidays, w)
  }

  /** A week counts no holiday exactly when no entry is a day of it. */
  lemma NoneInWindow(holidays: seq<Option<int>>, w: Window)
    ensures HolidayCount(holidays, w) == 0 <==>
      forall i :: 0 <= i < |holidays| && holidays[i].Some? ==> !Contains(w, holidays[i].value)
  {
    var e := EntriesIn(holidays, w.startDay, w.endDay);
    if e != {} {
      var i :| i in e;
      assert |e - {i}| + 1 == |e|;
      assert holidays[i].Some? && Contains(w, holidays[i].value);
    } else {
      forall i | 0 <= i < |holidays| && holidays[i].Some?
        ensures !Contains(w, holidays[i].value)
      {
        assert i !in e;
      }
    }
  }

  /** Counting over two adjacent day ranges is counting over their union. */
  lemma {:induction false} HolidaysInSplit(holidays: seq<Option<int>>, first: int, mid: int, last: int)
    requires first <= mid + 1 && mid <= last
    ensures HolidaysIn(holidays, first, last) == HolidaysIn(holidays, first, mid) + HolidaysIn(holidays, mid + 1, last)
  {
    if |holidays| > 0 {
      HolidaysInSplit(holidays[..|holidays| - 1], first, mid, last);
    }
  }

  /** One more holiday entry costs the week eight hours if it falls inside
      the week and nothing otherwise: capacity never grows with holidays. */
  lemma AvailableHoursWithHoliday(holidays: seq<Option<int>>, day: int, w: Window)
    ensures AvailableHours(holidays + [Some(day)], w) ==
      AvailableHours(holidays, w) - (if Contains(w, day) then HoursPerHoliday else 0)
  {
    assert (holidays + [Some(day)])[..|holidays|] == holidays;
  }

  /** Available hours summed over a sequence of windows. */
  function TotalAvailable(holidays: seq<Option<int>>, ws: seq<Window>): int {
    if |ws| == 0 then 0 else AvailableHours(holidays, ws[0]) + TotalAvailable(holidays, ws[1..])
  }

  /** Every holiday in the range costs exactly one week eight hours: the
      capacity of the whole range is 40 hours a week minus 8 per holiday
      entry between the start and end days. */
  lemma {:induction false} WindowsCapacity(holidays: seq<Option<int>>, cursor: int, number: nat, end: int)
    ensures TotalAvailable(holidays, Windows(cursor, number, end)) ==
      BaseHours * WeekCount(cursor, end) - HoursPerHoliday * HolidaysIn(holidays, cursor, end)
    decreases end - cursor
  {
    WindowsShape(cursor, number, end);
    if cursor <= end {
      var ws := Windows(cursor, number, end);
      assert ws[1..] == Windows(cursor + 7, number + 1, end);
      WindowsCapacity(holidays, cursor + 7, number + 1, end);
      WindowsShape(cursor + 7, number + 1, end);
      if cursor + 6 < end {
        HolidaysInSplit(holidays, cursor, cursor + 6, end);
      }
    }
  }

  lemma PartitionCapacity(holidays: seq<Option<int>>, start: int, end: int)
    ensures TotalAvailable(holidays, Partition(start, end)) ==
      BaseHours * WeekCount(start, end) - HoursPerHoliday * HolidaysIn(holidays, start, end)
  {
    WindowsCapacity(holidays, start, 1, end);
  }
}
