/** Week partitioning: the date range, as whole day numbers, is cut into
    seven-day windows starting on the start day, the last one clipped to the
    end day. */
module Calendar {
  import opened Numbers

  /** One week's window: its 1-based number and its first and last day,
      both inclusive. */
  datatype Window = Window(number: nat, startDay: int, endDay: int)

  predicate Contains(w: Window, day: int) {
    w.startDay <= day <= w.endDay
  }

  /** The week loop from `cursor` on: while the cursor is not past `end`,
      emit the window from the cursor to six days later, clipped to `end`,
      then advance the cursor by seven days and the number by one. */
  function Windows(cursor: int, number: nat, end: int): seq<Window>
    decreases end - cursor
  {
    if cursor > end then []
    else [Window(number, cursor, Min(cursor + 6, end))] + Windows(cursor + 7, number + 1, end)
  }

  /** The weeks of the range [start, end]. */
  function Partition(start: int, end: int): seq<Window> {
    Windows(start, 1, end)
  }

  /** The number of weeks: ceil((end - start + 1) / 7), and none for an
      empty range. */
  function WeekCount(start: int, end: int): nat {
    if start > end then 0 else (end - start) / 7 + 1
  }

  /** Closed form of the loop. */
  lemma {:induction false} WindowsShape(cursor: int, number: nat, end: int)
    ensures |Windows(cursor, number, end)| == WeekCount(cursor, end)
    ensures forall k :: 0 <= k < |Windows(cursor, number, end)| ==>
      Windows(cursor, number, end)[k] == Window(number + k, cursor + 7 * k, Min(cursor + 7 * k + 6, end))
    decreases end - cursor
  {
    if cursor <= end {
      var ws := Windows(cursor, number, end);
      var rest := Windows(cursor + 7, number + 1, end);
      WindowsShape(cursor + 7, number + 1, end);
      assert ws == [Window(number, cursor, Min(cursor + 6, end))] + rest;
      if cursor + 7 > end {
        assert WeekCount(cursor, end) == 1;
      } else {
        assert WeekCount(cursor, end) == WeekCount(cursor + 7, end) + 1;
      }
      forall k | 1 <= k < |ws|
        ensures ws[k] == Window(number + k, cursor + 7 * k, Min(cursor + 7 * k + 6, end))
      {
        assert ws[k] == rest[k - 1];
      }
    }
  }

  /** Week k (counting from 0) is number k + 1 and spans
      [start + 7k, min(start + 7k + 6, end)]. */
  lemma PartitionShape(start: int, end: int)
    ensures |Partition(start, end)| == WeekCount(start, end)
    ensures forall k :: 0 <= k < |Partition(start, end)| ==>
      && Partition(start, end)[k].number == k + 1
      && Partition(start, end)[k].startDay == start + 7 * k
      && Partition(start, end)[k].endDay == Min(start + 7 * k + 6, end)
  {
    WindowsShape(start, 1, end);
  }

  /** The count is the ceiling of the range's length over seven. */
  lemma PartitionCount(start: int, end: int)
    ensures start > end ==> |Partition(start, end)| == 0
    ensures start <= end ==>
      7 * (|Partition(start, end)| - 1) < end - start + 1 <= 7 * |Partition(start, end)|
  {
    PartitionShape(start, end);
  }

  /** No window is empty, consecutive windows touch, the first starts on
      the start day and the last ends on the end day. */
  lemma PartitionContiguous(start: int, end: int)
    ensures forall k :: 0 <= k < |Partition(start, end)| ==>
      Partition(start, end)[k].startDay <= Partition(start, end)[k].endDay
    ensures forall k :: 0 <= k < |Partition(start, end)| - 1 ==>
      Partition(start, end)[k].endDay + 1 == Partition(start, end)[k + 1].startDay
    ensures |Partition(start, end)| > 0 ==>
      Partition(start, end)[0].startDay == start
      && Partition(start, end)[|Partition(start, end)| - 1].endDay == end
  {
    PartitionShape(start, end);
  }

  /** A day lies in some window exactly when it lies in [start, end]; the
      window is number (day - start) / 7 + 1. */
  lemma PartitionCovers(start: int, end: int, day: int)
    ensures (start <= day <= end) <==>
      exists k :: 0 <= k < |Partition(start, end)| && Contains(Partition(start, end)[k], day)
    ensures start <= day <= end ==>
      var k := (day - start) / 7;
      k < |Partition(start, end)| && Contains(Partition(start, end)[k], day)
  {
    PartitionShape(start, end);
    var ws := Partition(start, end);
    if start <= day <= end {
      var k := (day - start) / 7;
      assert k < |ws|;
      assert Contains(ws[k], day);
    }
  }

  /** No day lies in two windows. */
  lemma PartitionDisjoint(start: int, end: int, day: int, j: nat, k: nat)
    requires j < |Partition(start, end)| && k < |Partition(start, end)|
    requires Contains(Partition(start, end)[j], day) && Contains(Partition(start, end)[k], day)
    ensures j == k
  {
    PartitionShape(start, end);
  }

  /** Only the last week can be short: it has (end - start + 1) mod 7 days,
      or a full seven when the length is a multiple of seven. */
  lemma LastWeekLength(start: int, end: int)
    requires start <= end
    ensures var ws := Partition(start, end);
      var last := ws[|ws| - 1];
      && last.endDay - last.startDay + 1 == (if (end - start + 1) % 7 != 0 then (end - start + 1) % 7 else 7)
      && forall k :: 0 <= k < |ws| - 1 ==> ws[k].endDay - ws[k].startDay + 1 == 7
  {
    PartitionShape(start, end);
  }
}
