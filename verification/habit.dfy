/** A single habit and its streak engine (habit_tracker.py, class `Habit`):
    completions are sorted oldest to newest and counted from the earliest one
    while each gap to the previous completion is at most one period. */
module Habits {
  import opened Wrappers
  import opened Instants
  import opened Sorting

  /** The `ValueError`s the store and the streak engine raise. */
  datatype Error =
    | MissingField            // empty name or empty periodicity given to add
    | InvalidPeriodicity      // a periodicity other than daily/weekly given to add or filter
    | HabitNotFound(name: string)
    | UnsupportedPeriodicity  // raised while computing a streak for an unknown periodicity

  const DAILY: string := "daily"
  const WEEKLY: string := "weekly"

  predicate Supported(periodicity: string) {
    periodicity == DAILY || periodicity == WEEKLY
  }

  /** A habit. `periodicity` is any string: the store only admits daily and
      weekly, but a habit restored from a file is not checked. `created` and
      `completions` are instants; completions are kept in insertion order. */
  datatype Habit = Habit(name: string, periodicity: string, created: int, completions: seq<int>)

  /** The filter test `habit.periodicity == p` of both periodicity filters. */
  function WithPeriodicity(p: string): Habit -> bool {
    (h: Habit) => h.periodicity == p
  }

  /** `Habit(name, periodicity)`, with the clock reading passed in. */
  function NewHabit(name: string, periodicity: string, now: int): (h: Habit)
    ensures h.name == name && h.periodicity == periodicity && h.created == now
    ensures h.completions == []
  {
    Habit(name, periodicity, now, [])
  }

  /** `complete_task`: records one completion at the clock reading `now`. */
  function CompleteTask(h: Habit, now: int): (r: Habit)
    ensures r.name == h.name && r.periodicity == h.periodicity && r.created == h.created
    ensures r.completions == h.completions + [now]
  {
    h.(completions := h.completions + [now])
  }

  /** `_get_period_delta`: the longest gap that keeps a streak going. */
  function PeriodDelta(periodicity: string): (r: Result<int, Error>)
    ensures r.Ok? <==> Supported(periodicity)
    ensures r.Ok? ==> r.value > 0 && r.value % DAY == 0
    ensures periodicity == DAILY ==> r == Ok(DAY)
    ensures periodicity == WEEKLY ==> r == Ok(7 * DAY)
    ensures r.Err? ==> r.error == UnsupportedPeriodicity
  {
    if periodicity == DAILY then Ok(DAY)
    else if periodicity == WEEKLY then Ok(WEEK)
    else Err(UnsupportedPeriodicity)
  }

  /** The gap from the i-th to the (i+1)-th completion. */
  function Gap(s: seq<int>, i: nat): int
    requires i + 1 < |s|
  {
    s[i + 1] - s[i]
  }

  /** `k` is the length of the run that starts at `s[0]`: the first `k`
      instants are each at most `period` after their predecessor, and the
      next one, if any, is more than `period` after the k-th. */
  ghost predicate IsInitialRun(s: seq<int>, period: int, k: int) {
    && 1 <= k <= |s|
    && (forall i :: 0 <= i < k - 1 ==> Gap(s, i) <= period)
    && (k < |s| ==> Gap(s, k - 1) > period)
  }

  /** The loop of `get_streak` over the sorted completions. */
  function AscendingRun(s: seq<int>, period: int): (k: nat)
    requires |s| > 0
    ensures IsInitialRun(s, period, k)
  {
    if |s| == 1 then 1
    else if s[1] - s[0] <= period then
      var k := AscendingRun(s[1..], period);
      assert forall i :: 1 <= i < |s| - 1 ==> Gap(s, i) == Gap(s[1..], i - 1);
      1 + k
    else 1
  }

  /** The run length is determined by the sequence and the period. */
  lemma InitialRunUnique(s: seq<int>, period: int, k1: int, k2: int)
    requires IsInitialRun(s, period, k1) && IsInitialRun(s, period, k2)
    ensures k1 == k2
  {
  }

  /** `get_streak`. An unknown periodicity raises only when the loop body runs,
      that is, with at least two completions. */
  function GetStreak(h: Habit): (r: Result<nat, Error>)
    ensures |h.completions| == 0 ==> r == Ok(0)
    ensures |h.completions| == 1 ==> r == Ok(1)
    ensures r.Err? <==> |h.completions| >= 2 && !Supported(h.periodicity)
    ensures r.Err? ==> r.error == UnsupportedPeriodicity
    ensures r.Ok? && |h.completions| > 0 ==> 1 <= r.value <= |h.completions|
    ensures r.Ok? && Supported(h.periodicity) && |h.completions| > 0 ==>
      IsInitialRun(SortAscending(h.completions), PeriodDelta(h.periodicity).value, r.value)
  {
    if |h.completions| == 0 then Ok(0)
    else
      var sorted := SortAscending(h.completions);
      if |sorted| == 1 then Ok(1)
      else match PeriodDelta(h.periodicity)
        case Err(e) => Err(e)
        case Ok(delta) => Ok(AscendingRun(sorted, delta))
  }

  /** The converse of `GetStreak`'s contract: any run length that fits the
      sorted completions is the streak. */
  lemma GetStreakExact(h: Habit, k: int)
    requires Supported(h.periodicity) && |h.completions| > 0
    requires IsInitialRun(SortAscending(h.completions), PeriodDelta(h.periodicity).value, k)
    ensures GetStreak(h) == Ok(k)
  {
    InitialRunUnique(SortAscending(h.completions), PeriodDelta(h.periodicity).value, k, GetStreak(h).value);
  }

  /** For completions recorded in time order, the streak is the initial run of
      the completions as recorded. */
  lemma GetStreakInOrder(h: Habit, k: int)
    requires Supported(h.periodicity) && |h.completions| > 0
    requires Ascending(h.completions)
    requires IsInitialRun(h.completions, PeriodDelta(h.periodicity).value, k)
    ensures GetStreak(h) == Ok(k)
  {
    SortedUnique(SortAscending(h.completions), h.completions);
    GetStreakExact(h, k);
  }

  /** The streak does not depend on the order in which completions were recorded. */
  lemma GetStreakPermutation(h: Habit, completions: seq<int>)
    requires multiset(completions) == multiset(h.completions)
    ensures GetStreak(h.(completions := completions)) == GetStreak(h)
  {
    SortAscendingPermutation(completions, h.completions);
    assert |completions| == |multiset(completions)| == |h.completions|;
  }

  /** One more instant after the end of a sequence extends the initial run
      exactly when the run reached the end and the new gap is within the period. */
  lemma InitialRunAppend(s: seq<int>, period: int, k: int, x: int)
    requires IsInitialRun(s, period, k)
    ensures IsInitialRun(s + [x], period,
              if k == |s| && x - s[|s| - 1] <= period then k + 1 else k)
  {
    var s' := s + [x];
    forall i | 0 <= i < |s| - 1 ensures Gap(s', i) == Gap(s, i) {
    }
    assert Gap(s', |s| - 1) == x - s[|s| - 1];
  }

  /** Completing a habit at an instant no earlier than any recorded completion
      lengthens the streak exactly when the streak already reached the latest
      completion and the new one is at most one period after it. */
  lemma CompleteTaskStreak(h: Habit, now: int)
    requires Supported(h.periodicity) && |h.completions| > 0
    requires forall i :: 0 <= i < |h.completions| ==> h.completions[i] <= now
    ensures var s := SortAscending(h.completions);
            var k := GetStreak(h).value;
            GetStreak(CompleteTask(h, now)) ==
              if k == |s| && now - s[|s| - 1] <= PeriodDelta(h.periodicity).value
              then Ok(k + 1) else Ok(k)
  {
    var s := SortAscending(h.completions);
    var delta := PeriodDelta(h.periodicity).value;
    var k := GetStreak(h).value;
    SortAscendingAppendLatest(h.completions, now);
    InitialRunAppend(s, delta, k, now);
    StreakOfSorted(CompleteTask(h, now), s + [now],
      if k == |s| && now - s[|s| - 1] <= delta then k + 1 else k);
  }

  /** `GetStreakExact` phrased for a sequence already shown to be the sorted
      completions, so that callers need not rewrite `SortAscending`. */
  lemma StreakOfSorted(h: Habit, s: seq<int>, k: int)
    requires Supported(h.periodicity) && |h.completions| > 0
    requires SortAscending(h.completions) == s
    requires IsInitialRun(s, PeriodDelta(h.periodicity).value, k)
    ensures GetStreak(h) == Ok(k)
  {
    GetStreakExact(h, k);
  }
}
