# Engineer availability in `ShiftRepository`

A Dafny model of the part of `ShiftRepository` (BAU.Api/DAL/Repositories/ShiftRepository.cs)
that answers "which engineers may be scheduled on date D?", and of the
configuration check in its constructor.

- **Dates** are whole day numbers counted from 0001-01-01, a Monday, so the
  .NET `DayOfWeek` of day `d` is `(d + 1) % 7` (Sunday = 0) and `d` is a Monday
  exactly when `d % 7 == 0` (`dates.dfy`).
- **The date helpers** `PreviousDayOfWeek`, `NextDayOfWeek`,
  `PreviousBusinessDay` and `NextBusinessDay` of `BAU.Api.Utils` are not part
  of this model. They are passed in as a `DateUtils` value of functions,
  so nothing proved here depends on how they compute.
- **LINQ** `Where`, `Select` and `Union` are functions on sequences
  (`linq.dfy`). `Where` keeps order and multiplicity. `Union` yields each
  element once: the distinct elements of the first list first, then the new
  elements of the second.
- **The repository** (`repository.dfy`): the constructor is a function from
  the configuration map to a `Result`. The database context is a `Store` value
  (engineer ids and `EngineersShifts` rows) passed to each query. The pipeline
  has three stages:
  1. the scan window keeps rows with `from <= date <= to`;
  2. the hours cap groups rows by (engineer, duration) and keeps every row of
     an engineer with some group summing to strictly less than
     `MAX_SHIFT_SUM_HOURS_DURATION`;
  3. the consecutive-day stage keeps rows dated strictly before `previous` or
     strictly after `next`.

  Surviving rows are then mapped to their engineers and united with the
  engineers who have no shift at all.
- **Properties** (`availability.dfy`): the window is monotone in its bounds;
  the cap is strict; grouping by duration lets an engineer past the cap
  through; the consecutive-day stage removes rows, not engineers; the
  union has no duplicates and its two groups are disjoint; and a worked Friday
  example shows the engineers the pipeline keeps and drops.

Three behaviours of the code differ from what its names and comments suggest
(line 21 calls the cap the "maximum amount of hours of an engineer"; line 115
says the consecutive-day filter keeps "non-consecutive days"). The model
follows the code:

- An engineer who worked the day next to the target is not always excluded.
  The stage drops that row only, so another windowed row away from the target
  keeps the engineer (`AdjacentShiftDoesNotExclude`).
- The hours cap compares per-(engineer, duration) sums, not per-engineer
  totals (`MixedDurationsEscapeTheCap`).
- The settings are not checked to be positive. Only presence is checked, then
  `int.Parse` runs.

## Model

| member | source | states |
|---|---|---|
| Repository.NewShiftRepository | BAU.Api/DAL/Repositories/ShiftRepository.cs:35-50 | A repository exists iff both settings are present, non-empty and parse. It then holds the parsed values. A null or empty MAX setting gives `ArgumentNull(MAX)`. Otherwise a null or empty WEEK setting gives `ArgumentNull(WEEK)`. No parse is tried before both are present. With both present, a MAX that does not parse gives `Format(MAX)`, and otherwise a WEEK that does not parse gives `Format(WEEK)`. An `ArgumentNull` names a setting that really is null or empty. |
| Dates.DayOfWeekOf | BAU.Api/DAL/Repositories/ShiftRepository.cs:118-119 | The .NET ordinal of the day's `DayOfWeek` is `(d + 1) % 7`. The day is a Monday iff `d % 7 == 0` and a Friday iff `d % 7 == 4`. |
| Linq.Where | BAU.Api/DAL/Repositories/ShiftRepository.cs:93-94 | The result is a subsequence of the input and holds exactly the elements satisfying the predicate, each as often as in the input. |
| Linq.WhereMonotone | BAU.Api/DAL/Repositories/ShiftRepository.cs:94 | Filtering by a weaker predicate keeps, in order, everything a stronger one keeps. |
| Linq.WhereAppend | BAU.Api/DAL/Repositories/ShiftRepository.cs:94 | `Where` over a concatenation is the concatenation of the two `Where`s. |
| Linq.WhereAll | BAU.Api/DAL/Repositories/ShiftRepository.cs:94 | `Where` keeps the whole sequence when every element satisfies the predicate. |
| Linq.WhereNone | BAU.Api/DAL/Repositories/ShiftRepository.cs:94 | `Where` keeps nothing when no element satisfies the predicate. |
| Linq.SubsequenceTransitive | BAU.Api/DAL/Repositories/ShiftRepository.cs:63-65 | A subsequence of a subsequence is a subsequence. This chains the three stages. |
| Linq.Select | BAU.Api/DAL/Repositories/ShiftRepository.cs:66 | The result has the input's length and holds `f` of each element at its position. A value is in it iff it is `f` of some input element. |
| Linq.DistinctExcept | BAU.Api/DAL/Repositories/ShiftRepository.cs:55 | The result has no duplicates. It holds exactly the input elements not already seen. It is a subsequence of the input. |
| Linq.Distinct | BAU.Api/DAL/Repositories/ShiftRepository.cs:55 | The result has no duplicates and holds exactly the input's elements. |
| Linq.Elements | BAU.Api/DAL/Repositories/ShiftRepository.cs:55 | The set of a sequence's elements. |
| Linq.Union | BAU.Api/DAL/Repositories/ShiftRepository.cs:55 | The result has no duplicates and holds exactly the elements of either list. |
| Linq.DistinctExceptAppend | BAU.Api/DAL/Repositories/ShiftRepository.cs:55 | De-duplicating a concatenation is de-duplicating the first part, then the second part minus what the first part held. |
| Linq.FilterChain | BAU.Api/DAL/Repositories/ShiftRepository.cs:63-65 | Three filters in a row, each stated by its element counts, keep exactly the elements passing all three, each as often as in the input. |
| Linq.UnionOrder | BAU.Api/DAL/Repositories/ShiftRepository.cs:55 | `Union` yields the distinct elements of the first list first, then the new elements of the second. |
| Repository.FilterEngineersShiftsByPeriod | BAU.Api/DAL/Repositories/ShiftRepository.cs:91-95 | Keeps exactly the rows with `from <= date <= to`, both ends inclusive, in table order and with their multiplicity. The result is a subsequence of the table. |
| Repository.GroupKeys | BAU.Api/DAL/Repositories/ShiftRepository.cs:104 | The `GroupBy` keys are distinct. A key appears iff some row has that (engineer, duration). |
| Repository.Group | BAU.Api/DAL/Repositories/ShiftRepository.cs:104 | A group holds exactly the rows with its (engineer, duration) key, each as often as the input holds it, as a subsequence of the rows. |
| Repository.SumOfEqualDurations | BAU.Api/DAL/Repositories/ShiftRepository.cs:105 | Rows that all last `d` hours sum to `d` times their number. |
| Repository.SumDurationsAppend | BAU.Api/DAL/Repositories/ShiftRepository.cs:105 | The hours of a concatenation are the sum of the hours of its parts. |
| Repository.GroupSum | BAU.Api/DAL/Repositories/ShiftRepository.cs:105 | A group's summed duration is its duration times its size. |
| Repository.EngineersWithMaxShiftHours | BAU.Api/DAL/Repositories/ShiftRepository.cs:104-106 | An id is listed iff that engineer has a non-empty (engineer, duration) group whose sum is strictly below the cap. |
| Repository.FilterEngineerShiftsByMaxShiftHours | BAU.Api/DAL/Repositories/ShiftRepository.cs:102-108 | A row is kept iff it is an input row and its engineer has some group strictly below the cap. An engineer's rows are kept or dropped together. Each kept row appears as often as in the input. The result is a subsequence of the input. |
| Repository.ConsecutiveDayBounds | BAU.Api/DAL/Repositories/ShiftRepository.cs:118-119 | `previous` is the prior Friday for a Monday (`d % 7 == 0`), otherwise the previous business day. `next` is the next Monday for a Friday (`d % 7 == 4`), otherwise the next business day. |
| Repository.FilterEngineerShiftsByConsecutiveShiftDays | BAU.Api/DAL/Repositories/ShiftRepository.cs:116-121 | Keeps exactly the rows dated strictly before `previous` or strictly after `next`, as a subsequence, each as often as in the input. No kept row is dated in `[previous, next]`. |
| Repository.WindowedShifts | BAU.Api/DAL/Repositories/ShiftRepository.cs:60-63 | The rows kept by stage 1 are exactly the table's rows dated from `PreviousDayOfWeek(Monday, WEEK_SCAN_PERIOD)` to `NextDayOfWeek(Friday)` of the target, both included, each as often as in the table and in table order. |
| Repository.AvailableShifts | BAU.Api/DAL/Repositories/ShiftRepository.cs:63-65 | A row survives the three stages iff it is in the table, in the window, its engineer has a windowed group under the cap, and it is not dated in `[previous, next]`. |
| Repository.AvailableShiftsInTableOrder | BAU.Api/DAL/Repositories/ShiftRepository.cs:63-65 | The surviving rows are a subsequence of the windowed rows and a subsequence of the table. |
| Repository.AvailableShiftsKeepMultiplicity | BAU.Api/DAL/Repositories/ShiftRepository.cs:63-65 | Each surviving row appears as often as in the table; no other row appears. |
| Repository.FilterEngineersAvailableOn | BAU.Api/DAL/Repositories/ShiftRepository.cs:58-67 | One engineer id per surviving row. An id appears iff that engineer owns a row that survives all three stages. |
| Repository.NonScheduled | BAU.Api/DAL/Repositories/ShiftRepository.cs:53 | Exactly the engineers without any shift row, in table order. |
| Repository.FindEngineersAvailableOn | BAU.Api/DAL/Repositories/ShiftRepository.cs:51-56 | No engineer appears twice. An engineer appears iff they have no shift at all, or own a row surviving all three stages. |
| Availability.WindowMonotone | BAU.Api/DAL/Repositories/ShiftRepository.cs:94 | Widening `[from, to]` keeps, in order, every row a narrower window kept. |
| Availability.WiderScanPeriodKeepsCandidates | BAU.Api/DAL/Repositories/ShiftRepository.cs:60-63 | When a longer scan period's window starts no later, its windowed rows include, in order, those of the shorter one. |
| Availability.HoursCapIsStrict | BAU.Api/DAL/Repositories/ShiftRepository.cs:105 | An engineer each of whose groups reaches the cap, exactly included, keeps no row. |
| Availability.HoursCapKeepsEngineerUnderCap | BAU.Api/DAL/Repositories/ShiftRepository.cs:107 | Rows of a single engineer who has a group under the cap are all kept, unchanged. |
| Availability.HoursCapDropsEngineerWithoutGroupUnderCap | BAU.Api/DAL/Repositories/ShiftRepository.cs:107 | Rows of a single engineer who has no group under the cap are all dropped. |
| Availability.FiveEightHourShiftsAreOneGroup | BAU.Api/DAL/Repositories/ShiftRepository.cs:104 | Five 8-hour shifts of engineer 1 all share the key (1, 8). |
| Availability.FiveEightHourShiftsSumToForty | BAU.Api/DAL/Repositories/ShiftRepository.cs:104-105 | Their one group sums to 40, so engineer 1 has no group under a 40-hour cap. |
| Availability.FiveEightHourShiftsReachTheCap | BAU.Api/DAL/Repositories/ShiftRepository.cs:105-107 | Five 8-hour shifts against a 40-hour cap: every row is dropped. |
| Availability.MixedWeekTotalsForty | BAU.Api/DAL/Repositories/ShiftRepository.cs:105 | Four 8-hour and two 4-hour shifts total 40 hours. |
| Availability.EightHourShiftsOutsideFourHourGroup | BAU.Api/DAL/Repositories/ShiftRepository.cs:104 | No 8-hour shift is in the (engineer, 4 hours) group. |
| Availability.FourHourShiftsFormFourHourGroup | BAU.Api/DAL/Repositories/ShiftRepository.cs:104 | The two 4-hour shifts make up their own (engineer, 4 hours) group. |
| Availability.MixedWeekFourHourGroup | BAU.Api/DAL/Repositories/ShiftRepository.cs:104 | In that week, the (engineer, 4 hours) group is exactly the two 4-hour shifts. |
| Availability.MixedWeekIsOneEngineer | BAU.Api/DAL/Repositories/ShiftRepository.cs:104 | Every shift of that week belongs to engineer 1. |
| Availability.MixedWeekHasGroupUnderCap | BAU.Api/DAL/Repositories/ShiftRepository.cs:104-105 | In that week, engineer 1 has a group (8 hours) below a 40-hour cap. |
| Availability.MixedDurationsEscapeTheCap | BAU.Api/DAL/Repositories/ShiftRepository.cs:104-107 | All six shifts of that 40-hour week survive a 40-hour cap, because grouping is by (engineer, duration). |
| Availability.ConsecutiveStageDropsShiftsNotEngineers | BAU.Api/DAL/Repositories/ShiftRepository.cs:120 | A row in `[previous, next]` is dropped while another row of the same engineer before `previous` is kept. |
| Availability.NeverScheduledAlwaysAvailable | BAU.Api/DAL/Repositories/ShiftRepository.cs:53-55 | An engineer without any shift is in the result for every date and configuration. |
| Availability.UnionGroupsAreDisjoint | BAU.Api/DAL/Repositories/ShiftRepository.cs:53-55 | No engineer is both in the filtered list and among the never-scheduled. |
| Availability.FindOrder | BAU.Api/DAL/Repositories/ShiftRepository.cs:54-55 | The result is the distinct filtered engineers in row order, followed by the never-scheduled engineers not already listed. |
| Availability.OutsideWindowIsUnavailable | BAU.Api/DAL/Repositories/ShiftRepository.cs:53-66 | An engineer with shifts, none of them in the scan window, is in neither group of the union. |
| Availability.CappedEngineerIsUnavailable | BAU.Api/DAL/Repositories/ShiftRepository.cs:53-66 | An engineer with shifts, every windowed group of whom reaches the cap, is not available. |
| Availability.AdjacentOnlyIsUnavailable | BAU.Api/DAL/Repositories/ShiftRepository.cs:53-66 | An engineer with shifts, all windowed rows of whom lie in `[previous, next]`, is not available. |
| Availability.AdjacentShiftDoesNotExclude | BAU.Api/DAL/Repositories/ShiftRepository.cs:116-121 | An engineer with a row next to the target is still available if another windowed row lies outside `[previous, next]` and some group is under the cap. |
| Availability.FridayWindowKeepsAll | BAU.Api/DAL/Repositories/ShiftRepository.cs:91-95 | In the Friday 2024-03-15 example, the window keeps all three rows. |
| Availability.FridayEngineerOneUnderCap | BAU.Api/DAL/Repositories/ShiftRepository.cs:104-105 | In the Friday example, engineer 1's (engineer, 8 hours) group sums to 16, below 40. |
| Availability.FridayBounds | BAU.Api/DAL/Repositories/ShiftRepository.cs:60-61 | For Friday 2024-03-15, `previous` and `next` are 2024-03-14 and 2024-03-18, and the window starts on or before 2024-03-06 and ends on or after 2024-03-14, given those helper results. |
| Availability.FridayEngineerOneAvailable | BAU.Api/DAL/Repositories/ShiftRepository.cs:51-56 | Engineer 1 (two 8-hour shifts, neither adjacent) is available. |
| Availability.FridayEngineerTwoWorksThursdayOnly | BAU.Api/DAL/Repositories/ShiftRepository.cs:51-56 | Engineer 2 has shifts, and each of them is on Thursday 2024-03-14. |
| Availability.FridayEngineerTwoUnavailable | BAU.Api/DAL/Repositories/ShiftRepository.cs:51-56 | Engineer 2 (one shift on Thursday 2024-03-14) is not available. |
| Availability.FridayEngineerThreeAvailable | BAU.Api/DAL/Repositories/ShiftRepository.cs:51-56 | Engineer 3 (never scheduled) is available. |
| Availability.FridayScenario | BAU.Api/DAL/Repositories/ShiftRepository.cs:51-67 | With a two-week period and a 40-hour cap on Friday 2024-03-15, engineers 1 and 3 are available and engineer 2 is not. |

## Left out

- `ScheduleEngineerShift(List<EngineerShift>)` (lines 123-143) is not modelled. Its all-or-nothing guarantee comes from the database transaction and `SaveChanges`, not from code in this file.
- `FindAll` (lines 145-148) is not modelled. It is a single eager-loading query with no logic of its own.
- `ScheduleEngineerShift(int, DateTime, int)`, `GetEngineerShifts` and `FindEngineerShifts` (lines 69-81) are not modelled. They only throw `NotImplementedException`.
- `BAU.Api.Utils` is not part of this model. Its date helpers are parameters (`DateUtils`). No property relies on how they behave, for example that the target date itself lies in `[previous, next]`. The Friday example states the helper results it needs as preconditions.
- Repository.NewShiftRepository: `IConfiguration` lookup and `int.Parse` are library calls. Lookup is a map, where a missing key reads as null. The parse is a parameter returning `None` where `int.Parse` throws.
- Time of day: dates are whole days. The model assumes that every stored shift date, the target date and the helpers' results carry no time of day. Line 94 truncates only the bounds (`from.Date`, `to.Date`) and compares the stored `es.Date` in full, so a row stored at 10:00 on the last day of the window is dropped by the code and kept by the model. Line 120 compares full `DateTime`s on both sides.
- `DateTime` range: day numbers are unbounded integers. The exceptions `DateTime` arithmetic throws outside years 1-9999 are not modelled.
- Entity Framework: engineers are integer ids. `Union` de-duplicates by id, as entity identity within one context does. The group key `es.Engineer.Id` and the filter's `e.EngineerId` are the same field, which holds when referential integrity holds. The order in which the database returns rows is taken as the order of the `Store` sequences.
- Repository.GroupSum: does not model the `OverflowException` a 32-bit `Sum` throws. Durations and sums are unbounded integers.
- Consistency between queries: the model evaluates the whole of `FindEngineersAvailableOn` against one `Store` snapshot. The code runs three separate queries without a transaction (the cap's `ToList()` at line 106, the `ToList()` at line 54 and the enumeration of `nonScheduled` at line 55). Writes that land between them are not modelled. For example, an engineer without shifts whose first shift is committed between line 106 and line 55 ends up in neither group, which no single snapshot produces.
