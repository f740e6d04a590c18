/**
 * Calendar dates as whole day numbers, the .NET `DayOfWeek` of a day, and the
 * date helpers of `BAU.Api.Utils` the repository calls. Those helpers are not
 * part of this model: their behaviour is a parameter (`DateUtils`), so no
 * property below depends on how they compute their answers.
 */
module Dates {

  /** Days since 0001-01-01 (proleptic Gregorian), which was a Monday. */
  type Day = int

  /** .NET's `System.DayOfWeek`, in its declaration order (Sunday = 0). */
  datatype DayOfWeek = Sunday | Monday | Tuesday | Wednesday | Thursday | Friday | Saturday

  /** The ordinal .NET gives each day of the week. */
  function Ordinal(w: DayOfWeek): (n: nat)
    ensures n < 7
  {
    match w
    case Sunday => 0
    case Monday => 1
    case Tuesday => 2
    case Wednesday => 3
    case Thursday => 4
    case Friday => 5
    case Saturday => 6
  }

  /** `DateTime.DayOfWeek` of day `d`. */
  function DayOfWeekOf(d: Day): (w: DayOfWeek)
    ensures Ordinal(w) == (d + 1) % 7
    ensures w == Monday <==> d % 7 == 0
    ensures w == Friday <==> d % 7 == 4
  {
    var n := (d + 1) % 7;
    if n == 0 then Sunday
    else if n == 1 then Monday
    else if n == 2 then Tuesday
    else if n == 3 then Wednesday
    else if n == 4 then Thursday
    else if n == 5 then Friday
    else Saturday
  }

  /**
   * The extension methods of `BAU.Api.Utils` used by the repository, as
   * function values whose definitions are unknown here:
   *  - `previousDayOfWeekWeeksBack(d, w, n)` is `d.PreviousDayOfWeek(w, n)`,
   *  - `previousDayOfWeek(d, w)` is `d.PreviousDayOfWeek(w)` (its default count),
   *  - `nextDayOfWeek(d, w)` is `d.NextDayOfWeek(w)`,
   *  - `previousBusinessDay(d)` and `nextBusinessDay(d)` are `d.PreviousBusinessDay()`
   *    and `d.NextBusinessDay()`.
   */
  datatype DateUtils = DateUtils(
    previousDayOfWeekWeeksBack: (Day, DayOfWeek, int) -> Day,
    previousDayOfWeek: (Day, DayOfWeek) -> Day,
    nextDayOfWeek: (Day, DayOfWeek) -> Day,
    previousBusinessDay: Day -> Day,
    nextBusinessDay: Day -> Day)
}
