/**
 * `ShiftRepository`: the configuration check of its constructor and the
 * engineer-availability filter pipeline. The database context is a value
 * (`Store`) passed to each query; engineers are identified by their ids.
 */
module Repository {
  import opened Wrappers
  import opened Linq
  import opened Dates

  type EngineerId = int

  /** One row of the `EngineersShifts` table: who works, on which day, for how many hours. */
  datatype EngineerShift = EngineerShift(engineerId: EngineerId, date: Day, duration: int)

  /** The rows the database context holds: the ids of `Engineers` and all of `EngineersShifts`. */
  datatype Store = Store(engineers: seq<EngineerId>, engineersShifts: seq<EngineerShift>)

  /** The two read-only settings a repository is constructed with. */
  datatype ShiftRepository = ShiftRepository(maxShiftSumHoursDuration: int, weekScanPeriod: int)

  const MaxShiftSumHoursKey: string := "App:MAX_SHIFT_SUM_HOURS_DURATION"
  const WeekScanPeriodKey: string := "App:WEEK_SCAN_PERIOD"

  /**
   * The exceptions the constructor throws: `ArgumentNullException` for a null
   * or empty setting, and `Format` for either exception of a failed `int.Parse`
   * (`FormatException` for text that is not a number, `OverflowException` for
   * one outside the 32-bit range).
   */
  datatype ConstructionError = ArgumentNull(paramName: string) | Format(setting: string)

  /** `String.IsNullOrEmpty(config[key])`; a key that is absent reads as null. */
  predicate IsNullOrEmpty(config: map<string, string>, key: string)
  {
    key !in config || config[key] == ""
  }

  /**
   * The constructor. Both settings are checked for presence before either is
   * parsed; `parseInt` stands for `int.Parse`, `None` for the exception it throws.
   */
  function NewShiftRepository(config: map<string, string>, parseInt: string -> Option<int>)
    : (r: Result<ShiftRepository, ConstructionError>)
    ensures r.Success? <==>
      && !IsNullOrEmpty(config, MaxShiftSumHoursKey)
      && !IsNullOrEmpty(config, WeekScanPeriodKey)
      && parseInt(config[MaxShiftSumHoursKey]).Some?
      && parseInt(config[WeekScanPeriodKey]).Some?
    ensures r.Success? ==>
      && Some(r.value.maxShiftSumHoursDuration) == parseInt(config[MaxShiftSumHoursKey])
      && Some(r.value.weekScanPeriod) == parseInt(config[WeekScanPeriodKey])
    ensures IsNullOrEmpty(config, MaxShiftSumHoursKey) ==> r == Failure(ArgumentNull(MaxShiftSumHoursKey))
    ensures !IsNullOrEmpty(config, MaxShiftSumHoursKey) && IsNullOrEmpty(config, WeekScanPeriodKey) ==>
      r == Failure(ArgumentNull(WeekScanPeriodKey))
    ensures (&& !IsNullOrEmpty(config, MaxShiftSumHoursKey)
             && !IsNullOrEmpty(config, WeekScanPeriodKey)
             && parseInt(config[MaxShiftSumHoursKey]).None?)
      ==> r == Failure(Format(MaxShiftSumHoursKey))
    ensures (&& !IsNullOrEmpty(config, MaxShiftSumHoursKey)
             && !IsNullOrEmpty(config, WeekScanPeriodKey)
             && parseInt(config[MaxShiftSumHoursKey]).Some?
             && parseInt(config[WeekScanPeriodKey]).None?)
      ==> r == Failure(Format(WeekScanPeriodKey))
    ensures r.Failure? && r.error.ArgumentNull? ==> IsNullOrEmpty(config, r.error.paramName)
  {
    if IsNullOrEmpty(config, MaxShiftSumHoursKey) then
      Failure(ArgumentNull(MaxShiftSumHoursKey))
    else if IsNullOrEmpty(config, WeekScanPeriodKey) then
      Failure(ArgumentNull(WeekScanPeriodKey))
    else
      match parseInt(config[MaxShiftSumHoursKey])
      case None => Failure(Format(MaxShiftSumHoursKey))
      case Some(maxHours) =>
        match parseInt(config[WeekScanPeriodKey])
        case None => Failure(Format(WeekScanPeriodKey))
        case Some(weeks) => Success(ShiftRepository(maxHours, weeks))
  }

  // ---------------------------------------------------------------------------
  // Stage 1: the scan window

  /** `FilterEngineersShiftsByPeriod`: the shifts dated in `[from, to]`, both ends included. */
  function FilterEngineersShiftsByPeriod(shifts: seq<EngineerShift>, from: Day, to: Day): (r: seq<EngineerShift>)
    ensures IsSubsequence(r, shifts)
    ensures forall x :: x in r <==> x in shifts && from <= x.date <= to
    ensures forall x :: multiset(r)[x] == if from <= x.date <= to then multiset(shifts)[x] else 0
  {
    Where(shifts, (x: EngineerShift) => from <= x.date <= to)
  }

  // ---------------------------------------------------------------------------
  // Stage 2: the hours cap, grouped by (engineer, duration)

  /** The key of `GroupBy(es => new { es.Engineer.Id, es.Duration })`. */
  datatype GroupKey = GroupKey(id: EngineerId, duration: int)

  function KeyOf(x: EngineerShift): GroupKey
  {
    GroupKey(x.engineerId, x.duration)
  }

  /** The distinct keys of `shifts`, in the order `GroupBy` meets them. */
  function GroupKeys(shifts: seq<EngineerShift>): (keys: seq<GroupKey>)
    ensures NoDuplicates(keys)
    ensures forall k :: k in keys <==> exists x :: x in shifts && KeyOf(x) == k
  {
    Distinct(Select(shifts, KeyOf))
  }

  /** The shifts of the group with key `k`. */
  function Group(shifts: seq<EngineerShift>, k: GroupKey): (g: seq<EngineerShift>)
    ensures IsSubsequence(g, shifts)
    ensures forall x :: x in g <==> x in shifts && KeyOf(x) == k
    ensures forall x :: multiset(g)[x] == if KeyOf(x) == k then multiset(shifts)[x] else 0
  {
    Where(shifts, (x: EngineerShift) => KeyOf(x) == k)
  }

  function SumDurations(shifts: seq<EngineerShift>): int
  {
    if shifts == [] then 0 else shifts[0].duration + SumDurations(shifts[1..])
  }

  lemma {:induction false} SumOfEqualDurations(shifts: seq<EngineerShift>, d: int)
    requires forall x :: x in shifts ==> x.duration == d
    ensures SumDurations(shifts) == d * |shifts|
  {
    if shifts != [] {
      assert shifts[0] in shifts;
      assert forall x :: x in shifts[1..] ==> x in shifts;
      SumOfEqualDurations(shifts[1..], d);
      assert d * |shifts| == d + d * |shifts[1..]|;
    }
  }

  lemma {:induction false} SumDurationsAppend(a: seq<EngineerShift>, b: seq<EngineerShift>)
    ensures SumDurations(a + b) == SumDurations(a) + SumDurations(b)
  {
    if a == [] {
      assert a + b == b;
    } else {
      assert (a + b)[0] == a[0] && (a + b)[1..] == a[1..] + b;
      SumDurationsAppend(a[1..], b);
    }
  }

  /** `es.Sum(s => s.Duration)` for the group with key `k`: its size times its duration. */
  function GroupSum(shifts: seq<EngineerShift>, k: GroupKey): (sum: int)
    ensures sum == k.duration * |Group(shifts, k)|
  {
    var g := Group(shifts, k);
    SumOfEqualDurations(g, k.duration);
    SumDurations(g)
  }

  /** Engineer `id` has a non-empty (id, duration) group whose summed duration is strictly below `max`. */
  predicate HasGroupUnderCap(shifts: seq<EngineerShift>, id: EngineerId, max: int)
  {
    exists x :: x in shifts && x.engineerId == id && GroupSum(shifts, KeyOf(x)) < max
  }

  /** `engineersWithMaxShiftHours`: the ids of the groups whose sum is below `max`. */
  function EngineersWithMaxShiftHours(shifts: seq<EngineerShift>, max: int): (ids: seq<EngineerId>)
    ensures forall id :: id in ids <==> HasGroupUnderCap(shifts, id, max)
  {
    var keys := GroupKeys(shifts);
    var underCap := (k: GroupKey) => GroupSum(shifts, k) < max;
    var under := Where(keys, underCap);
    var ids := Select(under, (k: GroupKey) => k.id);
    assert forall id :: HasGroupUnderCap(shifts, id, max) ==> id in ids by {
      forall id | HasGroupUnderCap(shifts, id, max)
        ensures id in ids
      {
        var x :| x in shifts && x.engineerId == id && GroupSum(shifts, KeyOf(x)) < max;
        var k := KeyOf(x);
        assert k in keys && underCap(k);
        assert k in under;
      }
    }
    ids
  }

  /**
   * `FilterEngineerShiftsByMaxShiftHours`: every shift of an engineer who has
   * at least one (engineer, duration) group below `max`; an engineer's shifts
   * are kept or dropped together.
   */
  function FilterEngineerShiftsByMaxShiftHours(shifts: seq<EngineerShift>, max: int): (r: seq<EngineerShift>)
    ensures IsSubsequence(r, shifts)
    ensures forall x :: x in r <==> x in shifts && HasGroupUnderCap(shifts, x.engineerId, max)
    ensures forall x, y :: x in r && y in shifts && y.engineerId == x.engineerId ==> y in r
    ensures forall x ::
      multiset(r)[x] == (if HasGroupUnderCap(shifts, x.engineerId, max) then multiset(shifts)[x] else 0)
  {
    var ids := EngineersWithMaxShiftHours(shifts, max);
    Where(shifts, (x: EngineerShift) => x.engineerId in ids)
  }

  // ---------------------------------------------------------------------------
  // Stage 3: no shift next to the target date

  /**
   * `previous` and `next` around `date`: the prior Friday for a Monday and the
   * next Monday for a Friday, the adjacent business days otherwise.
   */
  function ConsecutiveDayBounds(utils: DateUtils, date: Day): (bounds: (Day, Day))
    ensures date % 7 == 0 ==> bounds.0 == utils.previousDayOfWeek(date, Friday)
    ensures date % 7 != 0 ==> bounds.0 == utils.previousBusinessDay(date)
    ensures date % 7 == 4 ==> bounds.1 == utils.nextDayOfWeek(date, Monday)
    ensures date % 7 != 4 ==> bounds.1 == utils.nextBusinessDay(date)
  {
    var previous := if DayOfWeekOf(date) == Monday then utils.previousDayOfWeek(date, Friday)
                    else utils.previousBusinessDay(date);
    var next := if DayOfWeekOf(date) == Friday then utils.nextDayOfWeek(date, Monday)
                else utils.nextBusinessDay(date);
    (previous, next)
  }

  /** `FilterEngineerShiftsByConsecutiveShiftDays`: the shifts strictly before `previous` or strictly after `next`. */
  function FilterEngineerShiftsByConsecutiveShiftDays(shifts: seq<EngineerShift>, utils: DateUtils, date: Day)
    : (r: seq<EngineerShift>)
    ensures IsSubsequence(r, shifts)
    ensures forall x :: x in r <==>
      x in shifts && (x.date < ConsecutiveDayBounds(utils, date).0 || ConsecutiveDayBounds(utils, date).1 < x.date)
    ensures forall x :: x in r ==>
      !(ConsecutiveDayBounds(utils, date).0 <= x.date <= ConsecutiveDayBounds(utils, date).1)
    ensures forall x ::
      multiset(r)[x] == (if x.date < ConsecutiveDayBounds(utils, date).0 || ConsecutiveDayBounds(utils, date).1 < x.date
         then multiset(shifts)[x] else 0)
  {
    var bounds := ConsecutiveDayBounds(utils, date);
    Where(shifts, (x: EngineerShift) => x.date < bounds.0 || x.date > bounds.1)
  }

  // ---------------------------------------------------------------------------
  // The pipeline

  /** `[lastWeek_Monday, endOfWeek]`: from a Monday `weekScanPeriod` weeks back to the next Friday. */
  function ScanWindow(repo: ShiftRepository, utils: DateUtils, date: Day): (Day, Day)
  {
    (utils.previousDayOfWeekWeeksBack(date, Monday, repo.weekScanPeriod), utils.nextDayOfWeek(date, Friday))
  }

  /**
   * The shifts left after stage 1: the table's rows dated from the Monday
   * `weekScanPeriod` weeks back to the next Friday, both included.
   */
  function WindowedShifts(repo: ShiftRepository, utils: DateUtils, store: Store, date: Day): (r: seq<EngineerShift>)
    ensures IsSubsequence(r, store.engineersShifts)
    ensures forall x :: x in r <==>
      && x in store.engineersShifts
      && utils.previousDayOfWeekWeeksBack(date, Monday, repo.weekScanPeriod) <= x.date
      && x.date <= utils.nextDayOfWeek(date, Friday)
    ensures forall x ::
      multiset(r)[x] == (if utils.previousDayOfWeekWeeksBack(date, Monday, repo.weekScanPeriod) <= x.date <= utils.nextDayOfWeek(date, Friday)
         then multiset(store.engineersShifts)[x] else 0)
  {
    FilterEngineersShiftsByPeriod(store.engineersShifts, ScanWindow(repo, utils, date).0, ScanWindow(repo, utils, date).1)
  }

  /** A shift survives the three stages. */
  predicate Survives(repo: ShiftRepository, utils: DateUtils, store: Store, date: Day, x: EngineerShift)
  {
    && x in store.engineersShifts
    && ScanWindow(repo, utils, date).0 <= x.date <= ScanWindow(repo, utils, date).1
    && HasGroupUnderCap(WindowedShifts(repo, utils, store, date), x.engineerId, repo.maxShiftSumHoursDuration)
    && (x.date < ConsecutiveDayBounds(utils, date).0 || ConsecutiveDayBounds(utils, date).1 < x.date)
  }

  /** The shifts after the window, the hours cap and the consecutive-day stage, in table order. */
  function AvailableShifts(repo: ShiftRepository, utils: DateUtils, store: Store, date: Day): (r: seq<EngineerShift>)
    ensures forall x :: x in r <==> Survives(repo, utils, store, date, x)
  {
    var windowed := WindowedShifts(repo, utils, store, date);
    var capped := FilterEngineerShiftsByMaxShiftHours(windowed, repo.maxShiftSumHoursDuration);
    var r := FilterEngineerShiftsByConsecutiveShiftDays(capped, utils, date);
    r
  }

  /** The surviving rows keep their table order: they are a subsequence of the windowed rows and of the table. */
  lemma AvailableShiftsInTableOrder(repo: ShiftRepository, utils: DateUtils, store: Store, date: Day)
    ensures IsSubsequence(AvailableShifts(repo, utils, store, date), WindowedShifts(repo, utils, store, date))
    ensures IsSubsequence(AvailableShifts(repo, utils, store, date), store.engineersShifts)
  {
    var windowed := WindowedShifts(repo, utils, store, date);
    var capped := FilterEngineerShiftsByMaxShiftHours(windowed, repo.maxShiftSumHoursDuration);
    var r := FilterEngineerShiftsByConsecutiveShiftDays(capped, utils, date);
    assert AvailableShifts(repo, utils, store, date) == r;
    SubsequenceTransitive(r, capped, windowed);
    SubsequenceTransitive(r, windowed, store.engineersShifts);
  }

  /** Every surviving row is kept as often as the table holds it; no other row is kept. */
  lemma AvailableShiftsKeepMultiplicity(repo: ShiftRepository, utils: DateUtils, store: Store, date: Day)
    ensures forall x ::
      multiset(AvailableShifts(repo, utils, store, date))[x] ==
        (if Survives(repo, utils, store, date, x) then multiset(store.engineersShifts)[x] else 0)
  {
    var windowed := WindowedShifts(repo, utils, store, date);
    var capped := FilterEngineerShiftsByMaxShiftHours(windowed, repo.maxShiftSumHoursDuration);
    var r := FilterEngineerShiftsByConsecutiveShiftDays(capped, utils, date);
    assert AvailableShifts(repo, utils, store, date) == r;
    var window := ScanWindow(repo, utils, date);
    var bounds := ConsecutiveDayBounds(utils, date);
    FilterChain(store.engineersShifts, windowed, capped, r,
      (x: EngineerShift) => window.0 <= x.date <= window.1,
      (x: EngineerShift) => HasGroupUnderCap(windowed, x.engineerId, repo.maxShiftSumHoursDuration),
      (x: EngineerShift) => x.date < bounds.0 || bounds.1 < x.date);
  }

  /** `FilterEngineersAvailableOn`: the engineer of every surviving shift, one entry per shift. */
  function FilterEngineersAvailableOn(repo: ShiftRepository, utils: DateUtils, store: Store, date: Day)
    : (r: seq<EngineerId>)
    ensures |r| == |AvailableShifts(repo, utils, store, date)|
    ensures forall id :: id in r <==> exists x :: Survives(repo, utils, store, date, x) && x.engineerId == id
  {
    var shifts := AvailableShifts(repo, utils, store, date);
    Select(shifts, (x: EngineerShift) => x.engineerId)
  }

  /** Engineer `id` has at least one row in `EngineersShifts`. */
  predicate HasShifts(shifts: seq<EngineerShift>, id: EngineerId)
  {
    exists x :: x in shifts && x.engineerId == id
  }

  /** `nonScheduled`: the engineers without any shift. */
  function NonScheduled(store: Store): (r: seq<EngineerId>)
    ensures IsSubsequence(r, store.engineers)
    ensures forall id :: id in r <==> id in store.engineers && !HasShifts(store.engineersShifts, id)
  {
    Where(store.engineers, (id: EngineerId) => !HasShifts(store.engineersShifts, id))
  }

  /**
   * `FindEngineersAvailableOn`: the engineers of the surviving shifts united
   * with the never-scheduled engineers, each once.
   */
  function FindEngineersAvailableOn(repo: ShiftRepository, utils: DateUtils, store: Store, date: Day)
    : (r: seq<EngineerId>)
    ensures NoDuplicates(r)
    ensures forall id :: id in r <==>
      || (id in store.engineers && !HasShifts(store.engineersShifts, id))
      || (exists x :: Survives(repo, utils, store, date, x) && x.engineerId == id)
  {
    Union(FilterEngineersAvailableOn(repo, utils, store, date), NonScheduled(store))
  }
}
