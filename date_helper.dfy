/** DateHelper (services/dateHelper.js): the Monday that opens the current and the
    previous week, and the Sunday and the query end (the next Monday) that close them. Dates
    are day numbers counted from 1970-01-01, which was a Thursday; the clock is the
    parameter `today`. */
module DateHelper {

  /** Seconds in a day, for timestamps compared against day boundaries. */
  const DaySeconds: nat := 86400

  /** Date.prototype.getDay: 0 is Sunday, 1 Monday, …, 6 Saturday. */
  function Weekday(day: int): (w: nat)
    ensures w < 7
    ensures (day + 4 - w) % 7 == 0
  {
    (day + 4) % 7
  }

  /** getCurrentWeekStart: go back 6 days from a Sunday and (weekday - 1) days from any other day.
      The result is the Monday of the Monday-to-Sunday week that holds today. */
  function CurrentWeekStart(today: int): (start: int)
    ensures Weekday(start) == 1
    ensures start <= today <= start + 6
  {
    var day := Weekday(today);
    today - day + (if day == 0 then -6 else 1)
  }

  /** getPreviousWeekStart: the same offset, moved back one more week. */
  function PreviousWeekStart(today: int): (start: int)
    ensures Weekday(start) == 1
    ensures start + 7 <= today <= start + 13
  {
    var day := Weekday(today);
    today - day + (if day == 0 then -6 else 1) - 7
  }

  /** The previous week starts exactly seven days before the current one, on a Monday. */
  lemma PreviousWeekStartIsWeekBefore(today: int)
    ensures PreviousWeekStart(today) == CurrentWeekStart(today) - 7
    ensures Weekday(PreviousWeekStart(today)) == 1
  {
  }

  /** Only one Monday opens a seven-day window holding today: the week start is unique. */
  lemma CurrentWeekStartUnique(today: int, monday: int)
    requires Weekday(monday) == 1
    requires monday <= today <= monday + 6
    ensures monday == CurrentWeekStart(today)
  {
    var start := CurrentWeekStart(today);
    var d := monday - start;
    assert -6 <= d <= 6;
    assert (monday + 4) % 7 == (start + 4) % 7;
    assert (d + (start + 4)) % 7 == (start + 4) % 7;
  }

  /** What getCurrentWeekInfo and getPreviousWeekInfo return, without the display text:
      the Monday, the Sunday shown as the end, and the end for queries (the next Monday),
      which the week window reads as exclusive. */
  datatype WeekInfo = WeekInfo(weekStart: int, weekEnd: int, queryEndDate: int)

  /** The week that opens on weekStart: Sunday is six days on, the query end one day after it. */
  function InfoFor(weekStart: int): (info: WeekInfo)
    ensures info.weekStart == weekStart
    ensures info.weekEnd == weekStart + 6 && Weekday(info.weekEnd) == (Weekday(weekStart) + 6) % 7
    ensures info.queryEndDate == weekStart + 7 && Weekday(info.queryEndDate) == Weekday(weekStart)
  {
    var weekEnd := weekStart + 6;
    WeekInfo(weekStart, weekEnd, weekEnd + 1)
  }

  /** getCurrentWeekInfo: the week holds today, ends on a Sunday, and the query end is the next Monday. */
  function CurrentWeekInfo(today: int): (info: WeekInfo)
    ensures info.weekStart <= today < info.queryEndDate
    ensures Weekday(info.weekStart) == 1 && Weekday(info.weekEnd) == 0 && Weekday(info.queryEndDate) == 1
  {
    InfoFor(CurrentWeekStart(today))
  }

  /** getPreviousWeekInfo: the week before the current one. */
  function PreviousWeekInfo(today: int): (info: WeekInfo)
    ensures info.queryEndDate <= today
    ensures Weekday(info.weekStart) == 1 && Weekday(info.weekEnd) == 0
  {
    PreviousWeekStartIsWeekBefore(today);
    InfoFor(PreviousWeekStart(today))
  }

  /** The previous week's query window ends exactly where the current week starts, so the two
      windows tile the timeline without a gap or an overlap. */
  lemma PreviousWeekAdjoinsCurrent(today: int)
    ensures PreviousWeekInfo(today).queryEndDate == CurrentWeekInfo(today).weekStart
  {
    PreviousWeekStartIsWeekBefore(today);
  }
}
