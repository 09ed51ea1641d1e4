/** The functional analytics over raw habit records (analytics.py). A raw
    record is the persisted form of a habit, with the same four fields, so it
    is modelled by `Habit` with its completions already parsed into instants.
    The streak here walks from the NEWEST completion backwards and compares
    whole-day counts, so it answers differently from `Habits.GetStreak`. */
module Analytics {
  import opened Wrappers
  import opened Instants
  import opened Sorting
  import opened Seqs
  import opened Habits

  /** The whole-day test of `calculate_streak`'s loop. */
  predicate StepHolds(periodicity: string, days: int) {
    || (periodicity == DAILY && days == 1)
    || (periodicity == WEEKLY && 0 < days <= 7)
  }

  /** The same test stated on the elapsed time itself: a daily streak goes on
      across a gap in [1 day, 2 days), a weekly one across [1 day, 8 days).
      Any other periodicity never continues. */
  predicate Continues(periodicity: string, gap: int) {
    || (periodicity == DAILY && DAY <= gap < 2 * DAY)
    || (periodicity == WEEKLY && DAY <= gap < 8 * DAY)
  }

  lemma StepHoldsOnGap(periodicity: string, gap: int)
    ensures StepHolds(periodicity, WholeDays(gap)) <==> Continues(periodicity, gap)
  {
    WholeDaysIs(gap, 1);
    WholeDaysBetween(gap);
  }

  /** The gap from the i-th to the (i+1)-th completion walking backwards in time. */
  function Lapse(s: seq<int>, i: nat): int
    requires i + 1 < |s|
  {
    s[i] - s[i + 1]
  }

  /** `k` is the length of the run that ends at the newest instant `s[0]`. */
  ghost predicate IsNewestRun(s: seq<int>, periodicity: string, k: int) {
    && 1 <= k <= |s|
    && (forall i :: 0 <= i < k - 1 ==> Continues(periodicity, Lapse(s, i)))
    && (k < |s| ==> !Continues(periodicity, Lapse(s, k - 1)))
  }

  /** The loop of `calculate_streak` over completions sorted newest first. */
  function DescendingRun(s: seq<int>, periodicity: string): (k: nat)
    requires |s| > 0
    ensures IsNewestRun(s, periodicity, k)
  {
    if |s| == 1 then 1
    else
      StepHoldsOnGap(periodicity, s[0] - s[1]);
      if StepHolds(periodicity, WholeDays(s[0] - s[1])) then
        var k := DescendingRun(s[1..], periodicity);
        assert forall i :: 1 <= i < |s| - 1 ==> Lapse(s, i) == Lapse(s[1..], i - 1);
        1 + k
      else 1
  }

  lemma NewestRunUnique(s: seq<int>, periodicity: string, k1: int, k2: int)
    requires IsNewestRun(s, periodicity, k1) && IsNewestRun(s, periodicity, k2)
    ensures k1 == k2
  {
  }

  /** `calculate_streak`. It never raises: an unknown periodicity just ends
      the walk after the newest completion. */
  function CalculateStreak(completions: seq<int>, periodicity: string): (r: nat)
    ensures r == 0 <==> |completions| == 0
    ensures r <= |completions|
    ensures |completions| > 0 ==> IsNewestRun(SortDescending(completions), periodicity, r)
    ensures |completions| > 0 && !Supported(periodicity) ==> r == 1
  {
    if |completions| == 0 then 0
    else DescendingRun(SortDescending(completions), periodicity)
  }

  /** The converse of `CalculateStreak`'s contract. */
  lemma CalculateStreakExact(completions: seq<int>, periodicity: string, k: int)
    requires |completions| > 0
    requires IsNewestRun(SortDescending(completions), periodicity, k)
    ensures CalculateStreak(completions, periodicity) == k
  {
    NewestRunUnique(SortDescending(completions), periodicity, k, CalculateStreak(completions, periodicity));
  }

  /** For completions recorded in time order, the streak is the run that ends
      at the last one, read backwards. */
  lemma CalculateStreakInOrder(completions: seq<int>, periodicity: string, k: int)
    requires |completions| > 0
    requires Ascending(completions)
    requires IsNewestRun(Reverse(completions), periodicity, k)
    ensures CalculateStreak(completions, periodicity) == k
  {
    SortedUnique(SortAscending(completions), completions);
    CalculateStreakExact(completions, periodicity, k);
  }

  lemma CalculateStreakPermutation(a: seq<int>, b: seq<int>, periodicity: string)
    requires multiset(a) == multiset(b)
    ensures CalculateStreak(a, periodicity) == CalculateStreak(b, periodicity)
  {
    SortDescendingPermutation(a, b);
    assert |a| == |multiset(a)| == |b|;
  }

  /** Two completions less than a day apart at the newest end break the streak
      at once, for both periodicities: a same-day repeat is not a new day or week. */
  lemma SameDayRepeatEndsStreak(completions: seq<int>, periodicity: string)
    requires |completions| >= 2
    requires var s := SortDescending(completions); s[0] - s[1] < DAY
    ensures CalculateStreak(completions, periodicity) == 1
  {
    var s := SortDescending(completions);
    assert !Continues(periodicity, Lapse(s, 0));
  }

  /** The record test `h['name'].lower() == name.lower()`. */
  function SameNameIgnoringCase(name: string): Habit -> bool {
    (h: Habit) => Lower(h.name) == Lower(name)
  }

  function LowerChar(c: char): (d: char)
    ensures 'A' <= c <= 'Z' ==> 'a' <= d <= 'z' && d as int - c as int == 32
    ensures !('A' <= c <= 'Z') ==> d == c
  {
    if 'A' <= c <= 'Z' then (c as int + 32) as char else c
  }

  /** `str.lower` restricted to ASCII letters. */
  function Lower(s: string): (r: string)
    ensures |r| == |s|
    ensures forall i :: 0 <= i < |s| ==> r[i] == LowerChar(s[i])
  {
    if s == [] then [] else [LowerChar(s[0])] + Lower(s[1..])
  }

  /** `get_all_habits`: the record names, in record order. */
  function GetAllHabits(records: seq<Habit>): (names: seq<string>)
    ensures |names| == |records|
    ensures forall i :: 0 <= i < |records| ==> names[i] == records[i].name
  {
    if records == [] then [] else [records[0].name] + GetAllHabits(records[1..])
  }

  /** `get_habits_by_periodicity`: an order-keeping filter with no validation. */
  function GetHabitsByPeriodicity(records: seq<Habit>, period: string): (r: seq<Habit>)
    ensures Subsequence(r, records)
    ensures forall i :: 0 <= i < |r| ==> r[i].periodicity == period
    ensures forall i :: 0 <= i < |records| && records[i].periodicity == period ==> records[i] in r
    ensures forall i :: 0 <= i < |records| ==>
              multiset(r)[records[i]] ==
                if records[i].periodicity == period then multiset(records)[records[i]] else 0
  {
    Filter(records, WithPeriodicity(period))
  }

  /** The streak of one record: `calculate_streak(h['completions'], h['periodicity'])`. */
  function RecordStreak(h: Habit): nat {
    CalculateStreak(h.completions, h.periodicity)
  }

  /** `get_longest_streak`: the largest record streak, 0 with no records. */
  function GetLongestStreak(records: seq<Habit>): (m: nat)
    ensures |records| == 0 ==> m == 0
    ensures forall i :: 0 <= i < |records| ==> RecordStreak(records[i]) <= m
    ensures |records| > 0 ==> exists i :: 0 <= i < |records| && RecordStreak(records[i]) == m
  {
    MaxOf(records, RecordStreak)
  }

  /** `get_streak_for_habit`: the streak of the first record whose name equals
      `name` ignoring case, or 0 when none does. */
  function GetStreakForHabit(records: seq<Habit>, name: string): (r: nat)
    ensures (forall j :: 0 <= j < |records| ==> Lower(records[j].name) != Lower(name)) ==> r == 0
    ensures forall i :: IsFirst(records, SameNameIgnoringCase(name), i) ==>
              r == RecordStreak(records[i])
  {
    match FirstIndex(records, SameNameIgnoringCase(name))
    case None => 0
    case Some(i) => RecordStreak(records[i])
  }
}
