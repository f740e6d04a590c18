/**
 * Properties of the availability pipeline of `ShiftRepository`: how each
 * stage narrows the shifts, the strict hours cap and its grouping by
 * (engineer, duration), the consecutive-day stage removing shifts rather
 * than engineers, and the shape of the final union.
 */
module Availability {
  import opened Linq
  import opened Dates
  import opened Repository

  // ---------------------------------------------------------------------------
  // Stage 1

  /** Widening `[from, to]` keeps every shift a narrower window kept, in the same order. */
  lemma WindowMonotone(shifts: seq<EngineerShift>, from: Day, to: Day, from': Day, to': Day)
    requires from' <= from && to <= to'
    ensures IsSubsequence(FilterEngineersShiftsByPeriod(shifts, from, to), FilterEngineersShiftsByPeriod(shifts, from', to'))
  {
    WhereMonotone(shifts, (x: EngineerShift) => from <= x.date <= to, (x: EngineerShift) => from' <= x.date <= to');
  }

  /**
   * A longer scan period whose window starts no later keeps every candidate
   * shift of a shorter one (the end of the window does not depend on it).
   */
  lemma WiderScanPeriodKeepsCandidates(repo: ShiftRepository, wider: ShiftRepository, utils: DateUtils, store: Store, date: Day)
    requires utils.previousDayOfWeekWeeksBack(date, Monday, wider.weekScanPeriod)
          <= utils.previousDayOfWeekWeeksBack(date, Monday, repo.weekScanPeriod)
    ensures IsSubsequence(WindowedShifts(repo, utils, store, date), WindowedShifts(wider, utils, store, date))
  {
    var (from, to) := ScanWindow(repo, utils, date);
    var (from', to') := ScanWindow(wider, utils, date);
    WindowMonotone(store.engineersShifts, from, to, from', to');
  }

  // ---------------------------------------------------------------------------
  // Stage 2

  /**
   * The cap is strict: when every (engineer, duration) group of engineer `id`
   * reaches `max` hours (reaching it exactly included), none of `id`'s shifts is kept.
   */
  lemma HoursCapIsStrict(shifts: seq<EngineerShift>, id: EngineerId, max: int)
    requires forall x :: x in shifts && x.engineerId == id ==> x.duration * |Group(shifts, KeyOf(x))| >= max
    ensures forall x :: x in FilterEngineerShiftsByMaxShiftHours(shifts, max) ==> x.engineerId != id
  {
  }

  /** Shifts of one engineer with a group under the cap are all kept. */
  lemma HoursCapKeepsEngineerUnderCap(shifts: seq<EngineerShift>, id: EngineerId, max: int)
    requires forall x :: x in shifts ==> x.engineerId == id
    requires HasGroupUnderCap(shifts, id, max)
    ensures FilterEngineerShiftsByMaxShiftHours(shifts, max) == shifts
  {
    var ids := EngineersWithMaxShiftHours(shifts, max);
    WhereAll(shifts, (x: EngineerShift) => x.engineerId in ids);
  }

  /** Shifts of one engineer without a group under the cap are all dropped. */
  lemma HoursCapDropsEngineerWithoutGroupUnderCap(shifts: seq<EngineerShift>, id: EngineerId, max: int)
    requires forall x :: x in shifts ==> x.engineerId == id
    requires !HasGroupUnderCap(shifts, id, max)
    ensures FilterEngineerShiftsByMaxShiftHours(shifts, max) == []
  {
    var ids := EngineersWithMaxShiftHours(shifts, max);
    WhereNone(shifts, (x: EngineerShift) => x.engineerId in ids);
  }

  /** Five 8-hour shifts of engineer 1: one group of 40 hours. */
  const FiveEightHourShifts := [EngineerShift(1, 0, 8), EngineerShift(1, 1, 8), EngineerShift(1, 2, 8), EngineerShift(1, 3, 8), EngineerShift(1, 4, 8)]

  lemma FiveEightHourShiftsAreOneGroup()
    ensures forall x :: x in FiveEightHourShifts ==> KeyOf(x) == GroupKey(1, 8)
  {
  }

  lemma FiveEightHourShiftsSumToForty()
    ensures !HasGroupUnderCap(FiveEightHourShifts, 1, 40)
  {
    FiveEightHourShiftsAreOneGroup();
    WhereAll(FiveEightHourShifts, (x: EngineerShift) => KeyOf(x) == GroupKey(1, 8));
    assert GroupSum(FiveEightHourShifts, GroupKey(1, 8)) == 40;
  }

  /** Five 8-hour shifts reach a 40-hour cap exactly: the engineer is dropped. */
  lemma FiveEightHourShiftsReachTheCap()
    ensures FilterEngineerShiftsByMaxShiftHours(FiveEightHourShifts, 40) == []
  {
    FiveEightHourShiftsAreOneGroup();
    FiveEightHourShiftsSumToForty();
    HoursCapDropsEngineerWithoutGroupUnderCap(FiveEightHourShifts, 1, 40);
  }

  /** Four 8-hour and two 4-hour shifts of engineer 1: 40 hours in all. */
  const EightHourShifts := [EngineerShift(1, 0, 8), EngineerShift(1, 1, 8), EngineerShift(1, 2, 8), EngineerShift(1, 3, 8)]
  const FourHourShifts := [EngineerShift(1, 4, 4), EngineerShift(1, 5, 4)]
  const MixedWeek := EightHourShifts + FourHourShifts

  lemma MixedWeekTotalsForty()
    ensures SumDurations(MixedWeek) == 40
  {
    SumOfEqualDurations(EightHourShifts, 8);
    SumOfEqualDurations(FourHourShifts, 4);
    SumDurationsAppend(EightHourShifts, FourHourShifts);
  }

  lemma EightHourShiftsOutsideFourHourGroup()
    ensures Group(EightHourShifts, GroupKey(1, 4)) == []
  {
    WhereNone(EightHourShifts, (x: EngineerShift) => KeyOf(x) == GroupKey(1, 4));
  }

  lemma FourHourShiftsFormFourHourGroup()
    ensures Group(FourHourShifts, GroupKey(1, 4)) == FourHourShifts
  {
    WhereAll(FourHourShifts, (x: EngineerShift) => KeyOf(x) == GroupKey(1, 4));
  }

  lemma MixedWeekFourHourGroup()
    ensures Group(MixedWeek, GroupKey(1, 4)) == FourHourShifts
  {
    WhereAppend(EightHourShifts, FourHourShifts, (x: EngineerShift) => KeyOf(x) == GroupKey(1, 4));
    EightHourShiftsOutsideFourHourGroup();
    FourHourShiftsFormFourHourGroup();
  }

  lemma MixedWeekIsOneEngineer()
    ensures forall x :: x in MixedWeek ==> x.engineerId == 1
  {
    assert forall x :: x in EightHourShifts ==> x.engineerId == 1;
    assert forall x :: x in FourHourShifts ==> x.engineerId == 1;
  }

  lemma MixedWeekHasGroupUnderCap()
    ensures HasGroupUnderCap(MixedWeek, 1, 40)
  {
    MixedWeekFourHourGroup();
    var x := FourHourShifts[0];
    assert x in MixedWeek;
    assert GroupSum(MixedWeek, KeyOf(x)) == 8;
  }

  /**
   * Grouping by (engineer, duration) rather than by engineer: the 40 hours of
   * `MixedWeek` (`MixedWeekTotalsForty`) reach a 40-hour cap, yet each group is below it and every
   * one of the six shifts is kept.
   */
  lemma MixedDurationsEscapeTheCap()
    ensures FilterEngineerShiftsByMaxShiftHours(MixedWeek, 40) == MixedWeek
  {
    MixedWeekIsOneEngineer();
    MixedWeekHasGroupUnderCap();
    HoursCapKeepsEngineerUnderCap(MixedWeek, 1, 40);
  }

  // ---------------------------------------------------------------------------
  // Stage 3

  /**
   * The consecutive-day stage removes shifts, not engineers: a shift next to
   * the target is dropped while another shift of the same engineer, away
   * from it, is kept.
   */
  lemma ConsecutiveStageDropsShiftsNotEngineers(shifts: seq<EngineerShift>, utils: DateUtils, date: Day, adjacent: EngineerShift, other: EngineerShift)
    requires adjacent in shifts && other in shifts && adjacent.engineerId == other.engineerId
    requires ConsecutiveDayBounds(utils, date).0 <= adjacent.date <= ConsecutiveDayBounds(utils, date).1
    requires other.date < ConsecutiveDayBounds(utils, date).0
    ensures adjacent !in FilterEngineerShiftsByConsecutiveShiftDays(shifts, utils, date)
    ensures other in FilterEngineerShiftsByConsecutiveShiftDays(shifts, utils, date)
  {
  }

  // ---------------------------------------------------------------------------
  // The pipeline and the union

  /** An engineer without any shift is available on every date, under every configuration. */
  lemma NeverScheduledAlwaysAvailable(repo: ShiftRepository, utils: DateUtils, store: Store, date: Day, id: EngineerId)
    requires id in store.engineers && !HasShifts(store.engineersShifts, id)
    ensures id in FindEngineersAvailableOn(repo, utils, store, date)
  {
  }

  /** The two groups of the union are disjoint: a filtered engineer owns a shift. */
  lemma UnionGroupsAreDisjoint(repo: ShiftRepository, utils: DateUtils, store: Store, date: Day)
    ensures forall id :: id in FilterEngineersAvailableOn(repo, utils, store, date) ==> id !in NonScheduled(store)
  {
  }

  /** The result lists the filtered engineers first, in shift order, then the never-scheduled ones. */
  lemma FindOrder(repo: ShiftRepository, utils: DateUtils, store: Store, date: Day)
    ensures var filtered := FilterEngineersAvailableOn(repo, utils, store, date);
      FindEngineersAvailableOn(repo, utils, store, date)
        == Distinct(filtered) + DistinctExcept(NonScheduled(store), Elements(filtered))
  {
    UnionOrder(FilterEngineersAvailableOn(repo, utils, store, date), NonScheduled(store));
  }

  /** An engineer with shifts, none of them in the scan window, is not available. */
  lemma OutsideWindowIsUnavailable(repo: ShiftRepository, utils: DateUtils, store: Store, date: Day, id: EngineerId)
    requires HasShifts(store.engineersShifts, id)
    requires forall x :: x in store.engineersShifts && x.engineerId == id ==>
      x.date < ScanWindow(repo, utils, date).0 || ScanWindow(repo, utils, date).1 < x.date
    ensures id !in FindEngineersAvailableOn(repo, utils, store, date)
  {
  }

  /** An engineer whose every (engineer, duration) group in the window reaches the cap is not available. */
  lemma CappedEngineerIsUnavailable(repo: ShiftRepository, utils: DateUtils, store: Store, date: Day, id: EngineerId)
    requires HasShifts(store.engineersShifts, id)
    requires var windowed := WindowedShifts(repo, utils, store, date);
      forall x :: x in windowed && x.engineerId == id ==>
        x.duration * |Group(windowed, KeyOf(x))| >= repo.maxShiftSumHoursDuration
    ensures id !in FindEngineersAvailableOn(repo, utils, store, date)
  {
    var windowed := WindowedShifts(repo, utils, store, date);
    assert !HasGroupUnderCap(windowed, id, repo.maxShiftSumHoursDuration);
  }

  /** An engineer whose windowed shifts all lie in `[previous, next]` is not available. */
  lemma AdjacentOnlyIsUnavailable(repo: ShiftRepository, utils: DateUtils, store: Store, date: Day, id: EngineerId)
    requires HasShifts(store.engineersShifts, id)
    requires forall x :: x in WindowedShifts(repo, utils, store, date) && x.engineerId == id ==>
      ConsecutiveDayBounds(utils, date).0 <= x.date <= ConsecutiveDayBounds(utils, date).1
    ensures id !in FindEngineersAvailableOn(repo, utils, store, date)
  {
  }

  /**
   * Working the day next to the target does not by itself exclude an
   * engineer: one more windowed shift away from it, with a group under the
   * cap, makes the engineer available.
   */
  lemma AdjacentShiftDoesNotExclude(repo: ShiftRepository, utils: DateUtils, store: Store, date: Day,
                                    adjacent: EngineerShift, other: EngineerShift)
    requires adjacent in store.engineersShifts && other in store.engineersShifts
    requires adjacent.engineerId == other.engineerId
    requires ConsecutiveDayBounds(utils, date).0 <= adjacent.date <= ConsecutiveDayBounds(utils, date).1
    requires ScanWindow(repo, utils, date).0 <= other.date <= ScanWindow(repo, utils, date).1
    requires other.date < ConsecutiveDayBounds(utils, date).0 || ConsecutiveDayBounds(utils, date).1 < other.date
    requires HasGroupUnderCap(WindowedShifts(repo, utils, store, date), other.engineerId, repo.maxShiftSumHoursDuration)
    ensures other.engineerId in FindEngineersAvailableOn(repo, utils, store, date)
  {
    assert Survives(repo, utils, store, date, other);
  }

  /**
   * A worked example on Friday 2024-03-15 (day 738959) with a two-week scan
   * period and a 40-hour cap. Engineer 1 has two 8-hour shifts, on
   * 2024-03-06 and 2024-03-07; engineer 2 worked on Thursday 2024-03-14;
   * engineer 3 has never worked.
   */
  const FridayTarget: Day := 738959
  const EngineerOneShifts := [EngineerShift(1, 738950, 8), EngineerShift(1, 738951, 8)]
  const EngineerTwoShifts := [EngineerShift(2, 738958, 8)]
  const FridayShifts := EngineerOneShifts + EngineerTwoShifts
  const FridayStore := Store([1, 2, 3], FridayShifts)
  const FridayRepository := ShiftRepository(40, 2)

  /**
   * What the example assumes of the date helpers: the window starts no later
   * than 2024-03-06 and ends no earlier than 2024-03-14 (either reading of
   * "the Monday two weeks back" gives a start before the first shift), the
   * previous business day is 2024-03-14 and the next Monday is 2024-03-18.
   */
  predicate FridayHelpers(utils: DateUtils)
  {
    && utils.previousDayOfWeekWeeksBack(FridayTarget, Monday, 2) <= 738950
    && utils.nextDayOfWeek(FridayTarget, Friday) >= 738958
    && utils.previousBusinessDay(FridayTarget) == 738958
    && utils.nextDayOfWeek(FridayTarget, Monday) == 738962
  }

  lemma FridayWindowKeepsAll(utils: DateUtils)
    requires FridayHelpers(utils)
    ensures WindowedShifts(FridayRepository, utils, FridayStore, FridayTarget) == FridayShifts
  {
    var window := ScanWindow(FridayRepository, utils, FridayTarget);
    WhereAll(FridayShifts, (x: EngineerShift) => window.0 <= x.date <= window.1);
  }

  lemma FridayEngineerOneUnderCap()
    ensures HasGroupUnderCap(FridayShifts, 1, 40)
  {
    WhereAppend(EngineerOneShifts, EngineerTwoShifts, (x: EngineerShift) => KeyOf(x) == GroupKey(1, 8));
    WhereAll(EngineerOneShifts, (x: EngineerShift) => KeyOf(x) == GroupKey(1, 8));
    WhereNone(EngineerTwoShifts, (x: EngineerShift) => KeyOf(x) == GroupKey(1, 8));
    var x := EngineerOneShifts[0];
    assert x in FridayShifts;
    assert GroupSum(FridayShifts, KeyOf(x)) == 16;
  }

  /**
   * On the example, engineer 1 is available, engineer 2 (who worked the
   * previous business day and has no other shift) is not, and engineer 3
   * (never scheduled) is.
   */
  lemma FridayScenario(utils: DateUtils)
    requires FridayHelpers(utils)
    ensures var available := FindEngineersAvailableOn(FridayRepository, utils, FridayStore, FridayTarget);
      1 in available && 2 !in available && 3 in available
  {
    FridayBounds(utils);
    FridayEngineerOneAvailable(utils);
    FridayEngineerTwoUnavailable(utils);
    FridayEngineerThreeAvailable(utils);
  }

  lemma FridayBounds(utils: DateUtils)
    requires FridayHelpers(utils)
    ensures ConsecutiveDayBounds(utils, FridayTarget) == (738958, 738962)
    ensures ScanWindow(FridayRepository, utils, FridayTarget).0 <= 738950
    ensures ScanWindow(FridayRepository, utils, FridayTarget).1 >= 738958
  {
    assert DayOfWeekOf(FridayTarget) == Friday;
  }

  lemma FridayEngineerOneAvailable(utils: DateUtils)
    requires FridayHelpers(utils)
    ensures 1 in FindEngineersAvailableOn(FridayRepository, utils, FridayStore, FridayTarget)
  {
    FridayBounds(utils);
    FridayWindowKeepsAll(utils);
    FridayEngineerOneUnderCap();
    assert Survives(FridayRepository, utils, FridayStore, FridayTarget, EngineerOneShifts[0]);
  }

  lemma FridayEngineerTwoUnavailable(utils: DateUtils)
    requires FridayHelpers(utils)
    ensures 2 !in FindEngineersAvailableOn(FridayRepository, utils, FridayStore, FridayTarget)
  {
    FridayBounds(utils);
    FridayWindowKeepsAll(utils);
    FridayEngineerTwoWorksThursdayOnly();
    AdjacentOnlyIsUnavailable(FridayRepository, utils, FridayStore, FridayTarget, 2);
  }

  /** Engineer 2's only shift in the example is on Thursday 2024-03-14. */
  lemma FridayEngineerTwoWorksThursdayOnly()
    ensures HasShifts(FridayShifts, 2)
    ensures forall x :: x in FridayShifts && x.engineerId == 2 ==> x.date == 738958
  {
    assert EngineerTwoShifts[0] in FridayShifts;
  }

  lemma FridayEngineerThreeAvailable(utils: DateUtils)
    requires FridayHelpers(utils)
    ensures 3 in FindEngineersAvailableOn(FridayRepository, utils, FridayStore, FridayTarget)
  {
    assert forall x :: x in FridayShifts ==> x.engineerId != 3;
    NeverScheduledAlwaysAvailable(FridayRepository, utils, FridayStore, FridayTarget, 3);
  }
}
