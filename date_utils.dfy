/** Sunday-based week windows. A `Date` is modelled as integer milliseconds on
    a uniform local time line (no daylight-saving shifts): day `DayOf(t)`
    starts at local midnight, and day 0 (1 January 1970) was a Thursday. */
module DateUtils {

  const DayMs: int := 86_400_000

  /** The local day number of instant `t` (floor division). */
  function DayOf(t: int): int
  {
    t / DayMs
  }

  /** `date.getDay()`: 0 for Sunday through 6 for Saturday. */
  function WeekDay(t: int): (r: int)
    ensures 0 <= r < 7
  {
    (DayOf(t) + 4) % 7
  }

  /** Local midnight of the day of `t`. */
  function Midnight(t: int): (r: int)
    ensures r <= t < r + DayMs
    ensures r % DayMs == 0
  {
    DayOf(t) * DayMs
  }

  datatype Week = Week(start: int, end: int)

  /** `getWeekStartAndEnd(date)`: local midnight of the Sunday on or before
      `date`, and midnight six days later. */
  function WeekStartAndEnd(t: int): (w: Week)
    ensures w.start <= t < w.start + 7 * DayMs
    ensures w.start % DayMs == 0 && WeekDay(w.start) == 0
    ensures w.end == w.start + 6 * DayMs
  {
    var start := (DayOf(t) - WeekDay(t)) * DayMs;
    assert DayOf(start) == DayOf(t) - WeekDay(t);
    Week(start, start + 6 * DayMs)
  }

  /** `getPreviousWeekStartAndEnd(start)`: the week seven days earlier. */
  function PreviousWeekStartAndEnd(currentStart: int): (w: Week)
    ensures w.start == currentStart - 7 * DayMs
    ensures w.end == w.start + 6 * DayMs
  {
    var start := currentStart - 7 * DayMs;
    Week(start, start + 6 * DayMs)
  }

  /** `isDateInRange(date, start, end)`: inclusive at both ends. */
  predicate IsDateInRange(t: int, start: int, end: int)
  {
    start <= t <= end
  }

  lemma InRangeInclusive(start: int, end: int)
    requires start <= end
    ensures IsDateInRange(start, start, end) && IsDateInRange(end, start, end)
    ensures !IsDateInRange(start - 1, start, end) && !IsDateInRange(end + 1, start, end)
  {
  }

  /** The week's end is Saturday at 00:00, so any later instant of that
      Saturday is outside the week's own range. */
  lemma LateSaturdayOutsideOwnWeek(t: int)
    requires WeekDay(t) == 6 && t % DayMs != 0
    ensures var w := WeekStartAndEnd(t); !IsDateInRange(t, w.start, w.end)
  {
    var w := WeekStartAndEnd(t);
    assert w.start == (DayOf(t) - 6) * DayMs;
    assert t > DayOf(t) * DayMs;
  }

  /** Every instant from Sunday 00:00 to Saturday 00:00 lies in its own week. */
  lemma OwnWeekContains(t: int)
    requires WeekDay(t) < 6 || t % DayMs == 0
    ensures var w := WeekStartAndEnd(t); IsDateInRange(t, w.start, w.end)
  {
    var w := WeekStartAndEnd(t);
    assert w.start == (DayOf(t) - WeekDay(t)) * DayMs;
    if WeekDay(t) == 6 {
      assert t == DayOf(t) * DayMs;
    }
  }

  /** The previous week starts on a Sunday, and every instant of it comes
      before every instant of the current week. */
  lemma PreviousWeekBefore(t: int, x: int, y: int)
    requires var cur := WeekStartAndEnd(t);
      IsDateInRange(y, cur.start, cur.end)
    requires var prev := PreviousWeekStartAndEnd(WeekStartAndEnd(t).start);
      IsDateInRange(x, prev.start, prev.end)
    ensures x < y
    ensures WeekDay(PreviousWeekStartAndEnd(WeekStartAndEnd(t).start).start) == 0
  {
    var s := WeekStartAndEnd(t).start;
    assert DayOf(s - 7 * DayMs) == DayOf(s) - 7;
  }
}
