/** How the two streak engines and the two periodicity filters relate, and the
    worked cases that show where the engines part ways. Instants are
    microseconds from an arbitrary origin. */
module Scenarios {
  import opened Instants
  import opened Sorting
  import opened Habits
  import Tracker
  import Analytics

  const HOUR: int := 3_600_000_000
  const MINUTE: int := 60_000_000

  /** For a valid periodicity both filters return the same habits. */
  lemma FiltersAgree(store: seq<Habit>, periodicity: string)
    requires Supported(periodicity)
    ensures Tracker.GetHabitsByPeriodicity(store, periodicity)
              == Wrappers.Ok(Analytics.GetHabitsByPeriodicity(store, periodicity))
  {
  }

  /** On records that only hold daily and weekly habits, the unvalidated
      filter answers an unknown periodicity with no habits where the store's
      filter raises. */
  lemma InvalidPeriodFilters(store: seq<Habit>, periodicity: string)
    requires Tracker.ValidStore(store)
    requires !Supported(periodicity)
    ensures Analytics.GetHabitsByPeriodicity(store, periodicity) == []
    ensures Tracker.GetHabitsByPeriodicity(store, periodicity).Err?
  {
  }

  /** Daily completions 20 hours apart keep the oldest-first streak going. */
  lemma TwentyHourGaps(h: Habit, t: int)
    requires h.periodicity == DAILY && h.completions == [t, t + 20 * HOUR, t + 40 * HOUR]
    ensures GetStreak(h) == Wrappers.Ok(3)
  {
    assert IsInitialRun(h.completions, DAY, 3);
    GetStreakInOrder(h, 3);
  }

  /** A 30-hour gap ends the oldest-first daily streak, but its whole-day
      count is 1, so the newest-first streak goes on. */
  lemma ThirtyHourGap(h: Habit, t: int)
    requires h.periodicity == DAILY && h.completions == [t, t + 30 * HOUR]
    ensures GetStreak(h) == Wrappers.Ok(1)
    ensures Analytics.CalculateStreak(h.completions, DAILY) == 2
  {
    assert IsInitialRun(h.completions, DAY, 1);
    GetStreakInOrder(h, 1);
    ThirtyHourGapNewestFirst(t);
  }

  lemma ThirtyHourGapNewestFirst(t: int)
    ensures Analytics.CalculateStreak([t, t + 30 * HOUR], DAILY) == 2
  {
    var s := [t, t + 30 * HOUR];
    assert Reverse(s) == [t + 30 * HOUR, t];
    assert Analytics.IsNewestRun(Reverse(s), DAILY, 2);
    Analytics.CalculateStreakInOrder(s, DAILY, 2);
  }

  /** Two completions on the same day 90 minutes apart: the oldest-first
      streak counts both, the newest-first one stops at the first. */
  lemma NinetyMinuteGap(h: Habit, t: int)
    requires h.periodicity == DAILY && h.completions == [t, t + 90 * MINUTE]
    ensures GetStreak(h) == Wrappers.Ok(2)
    ensures Analytics.CalculateStreak(h.completions, DAILY) == 1
  {
    assert IsInitialRun(h.completions, DAY, 2);
    GetStreakInOrder(h, 2);
    NinetyMinuteGapNewestFirst(t);
  }

  lemma NinetyMinuteGapNewestFirst(t: int)
    ensures Analytics.CalculateStreak([t, t + 90 * MINUTE], DAILY) == 1
  {
    var s := [t, t + 90 * MINUTE];
    assert Reverse(s) == [t + 90 * MINUTE, t];
    assert Analytics.IsNewestRun(Reverse(s), DAILY, 1);
    Analytics.CalculateStreakInOrder(s, DAILY, 1);
  }

  /** Weekly completions three days apart form a streak of three. */
  lemma WeeklyThreeDayGaps(t: int)
    ensures Analytics.CalculateStreak([t, t + 3 * DAY, t + 6 * DAY], WEEKLY) == 3
  {
    var s := [t, t + 3 * DAY, t + 6 * DAY];
    assert Reverse(s) == [t + 6 * DAY, t + 3 * DAY, t];
    assert Analytics.IsNewestRun(Reverse(s), WEEKLY, 3);
    Analytics.CalculateStreakInOrder(s, WEEKLY, 3);
  }

  /** An eight-day gap at the newest end stops a weekly streak after one. */
  lemma WeeklyEightDayGap(t: int)
    ensures Analytics.CalculateStreak([t, t + 3 * DAY, t + 11 * DAY], WEEKLY) == 1
  {
    var s := [t, t + 3 * DAY, t + 11 * DAY];
    assert Reverse(s) == [t + 11 * DAY, t + 3 * DAY, t];
    assert Analytics.IsNewestRun(Reverse(s), WEEKLY, 1);
    Analytics.CalculateStreakInOrder(s, WEEKLY, 1);
  }

  /** The oldest-first engine counts the run that starts at the earliest
      completion, not the longest run: here a later run of three exists but
      the streak is one. */
  lemma InitialRunNotLongest(h: Habit, t: int)
    requires h.periodicity == DAILY
    requires h.completions == [t, t + 3 * DAY, t + 3 * DAY + HOUR, t + 3 * DAY + 2 * HOUR]
    ensures GetStreak(h) == Wrappers.Ok(1)
  {
    assert IsInitialRun(h.completions, DAY, 1);
    GetStreakInOrder(h, 1);
  }

  /** Completions recorded out of order give the same streak as in order. */
  lemma OutOfOrderCompletions(h: Habit, t: int)
    requires h.periodicity == DAILY && h.completions == [t + 40 * HOUR, t, t + 20 * HOUR]
    ensures GetStreak(h) == Wrappers.Ok(3)
  {
    var ordered := h.(completions := [t, t + 20 * HOUR, t + 40 * HOUR]);
    TwentyHourGaps(ordered, t);
    RotatedMultiset(t, t + 20 * HOUR, t + 40 * HOUR);
    GetStreakPermutation(ordered, h.completions);
    assert ordered.(completions := h.completions) == h;
  }

  lemma RotatedMultiset(a: int, b: int, c: int)
    ensures multiset([c, a, b]) == multiset([a, b, c])
  {
    assert multiset([c, a, b]) == multiset{c, a, b};
    assert multiset([a, b, c]) == multiset{a, b, c};
  }
}
