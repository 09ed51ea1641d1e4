# Habit tracker streaks and store, in Dafny

This project models the core of a small habit tracker. Habits are either daily
or weekly. Each habit keeps a list of completion instants. The program computes
"streaks" of consecutive completions in two ways that differ from each other:

- **`Habit.get_streak`** is the object-oriented engine. It sorts completions
  oldest first. Starting at the earliest completion, it counts while each gap
  to the previous completion is at most one period (1 day or 7 days).
  Modelled as `Habits.GetStreak`.
- **`calculate_streak`** is the functional engine in `analytics.py`. It sorts
  completions newest first. It keeps counting while the whole-day count of
  each gap is exactly 1 (daily), or between 1 and 7 (weekly). Any other
  periodicity stops after the newest completion; it never raises.
  Modelled as `Analytics.CalculateStreak`.

The **habit store** (`HabitTracker`) is an ordered sequence of habits.
Duplicate names are allowed. Add, complete, delete and look-up act on the
first habit with the given name. The model's `Tracker` module is a
`seq<Habit>`. Operations that mutate the store in the program are pure
functions here. They return the store after the call and the error raised, if
any (`Effect`). This makes "nothing changes on error" a checked property.

Modelling choices:

- An instant (`datetime`) is an integer count of microseconds. A `timedelta`
  is the integer difference of two instants. `DAY` is 86 400 000 000.
  `timedelta.days` is `gap / DAY`. Dafny's division by a positive divisor
  rounds toward minus infinity, as Python does (`Instants.WholeDays`).
- `datetime.now()` is a parameter (`now`) of `NewHabit`, `CompleteTask`,
  `AddHabit` and `CompleteHabit`.
- A raw record read from the JSON file has the four fields that
  `save_to_file` writes. It is modelled by the same `Habit` datatype, with its
  ISO-8601 strings already parsed into instants.
- `sorted` is modelled by insertion sort. `Sorting.SortedUnique` proves that
  two sorted sequences holding the same instants are equal. So any correct
  sorting algorithm, Timsort included, gives the same sequence.
- A habit's periodicity is a `string`, not an enumeration. Habits restored by
  `load_from_file` are not validated, and `get_streak` raises only when its
  loop body calls `_get_period_delta`. That happens only with two or more
  completions.
- The four errors (`MissingField`, `InvalidPeriodicity`, `HabitNotFound`,
  `UnsupportedPeriodicity`) stand for the program's `ValueError`s with
  different messages.

Behaviour of the code worth knowing, all of it modelled as written:

- A 30-hour gap continues a newest-first daily streak, because its whole-day
  count is 1 (`Scenarios.ThirtyHourGap`). The same gap ends an oldest-first
  daily streak, because it is longer than one day.
- `calculate_streak` never raises. On a non-empty list with any periodicity
  other than daily or weekly it returns 1.
- Stored habits are checked only by `add_habit`. Habits restored from a file
  keep any periodicity string. `get_habits_by_periodicity` checks its
  argument, not the stored habits.
- The docstring of `get_streak` says "longest streak". The code counts the run
  that starts at the earliest completion (`Scenarios.InitialRunNotLongest`).

## Model

| member | source | states |
|---|---|---|
| Habits.NewHabit | habit_tracker.py:10-21 | A new habit has the given name and periodicity, the supplied clock reading as creation date, and no completions |
| Habits.CompleteTask | habit_tracker.py:23-25 | Completing appends exactly the supplied instant to the completions and leaves name, periodicity and creation date unchanged |
| Habits.PeriodDelta | habit_tracker.py:50-62 | The period is one day for daily and seven days for weekly, positive and a whole number of days; any other periodicity raises the unsupported-periodicity error |
| Habits.AscendingRun | habit_tracker.py:38-46 | On a sequence, the loop's count is the length of the run from the first instant: each gap within it is at most the period, and the gap right after it, if any, exceeds the period |
| Habits.InitialRunUnique | habit_tracker.py:38-46 | At most one length fits that description, so the run is determined by the sequence and the period |
| Habits.GetStreak | habit_tracker.py:27-48 | 0 with no completions and 1 with one; raises exactly when there are at least two completions and the periodicity is not daily/weekly; otherwise between 1 and the number of completions, and the initial run of the completions sorted oldest first |
| Habits.GetStreakExact | habit_tracker.py:37-46 | Converse of the streak's contract: any length that forms the initial run of the sorted completions is the streak |
| Habits.GetStreakInOrder | habit_tracker.py:37-46 | For completions already recorded oldest first, the streak is the initial run of the completions as recorded |
| Habits.GetStreakPermutation | habit_tracker.py:37 | Any reordering of the completions gives the same streak, or the same error |
| Habits.InitialRunAppend | habit_tracker.py:41-46 | Adding an instant after the end lengthens the initial run by one exactly when the run already reached the end and the new gap is within the period |
| Habits.CompleteTaskStreak | habit_tracker.py:23-48 | Completing at an instant no earlier than every recorded completion adds one to the streak exactly when the streak reached the latest completion and the new gap is at most one period; otherwise the streak is unchanged |
| Habits.StreakOfSorted | habit_tracker.py:37-46 | When the sorted completions are a given sequence, the streak is that sequence's initial run |
| Sorting.SortAscending | habit_tracker.py:37 | The result is in oldest-first order and holds the same instants with the same multiplicities |
| Sorting.SortDescending | analytics.py:13 | The result is in newest-first order and holds the same instants with the same multiplicities |
| Sorting.SortedUnique | habit_tracker.py:37 | Two oldest-first sequences holding the same instants are equal, so any sorting algorithm yields the same sequence |
| Sorting.SortAscendingPermutation | habit_tracker.py:37 | Reordered inputs sort to the same sequence |
| Sorting.SortDescendingPermutation | analytics.py:13 | Reordered inputs sort newest-first to the same sequence |
| Sorting.SortAscendingAppendLatest | habit_tracker.py:37 | An instant no earlier than all others sorts to the end |
| Instants.WholeDays | analytics.py:18 | The whole-day count d of a gap satisfies d days <= gap < d+1 days |
| Instants.WholeDaysIs | analytics.py:18 | The whole-day count is n exactly when the gap lies in [n days, n+1 days) |
| Instants.WholeDaysBetween | analytics.py:21 | The whole-day count lies in 1..7 exactly when the gap lies in [1 day, 8 days) |
| Seqs.FirstIndex | habit_tracker.py:185-188 | The search finds the first matching position: that element matches, none before it does, and None only when nothing matches |
| Seqs.FirstIndexAppend | habit_tracker.py:100 | Appending keeps an existing first match and otherwise makes a matching new last element the first match |
| Seqs.RemoveAt | habit_tracker.py:131 | Removing one position keeps everything before it, shifts everything after it down by one, removes exactly one copy of that element and keeps the order of the rest |
| Seqs.Filter | habit_tracker.py:173 | The result is a subsequence of the input whose elements all pass, and every passing element occurs in it as many times as in the input, so it is exactly the passing elements in their original order |
| Seqs.FilterAppend | analytics.py:7 | Filtering a concatenation is the concatenation of the filtered parts |
| Seqs.FilterIdempotent | analytics.py:7 | Filtering twice with the same test gives the same as filtering once |
| Seqs.MaxOf | analytics.py:30 | The maximum with default 0 is at least every value and, for a non-empty input, equal to one of them |
| Seqs.MaxOfResults | habit_tracker.py:145-147 | The maximum of values that may raise is 0 for an empty input and raises exactly when some value raises, with the error of the first value that raises; otherwise it bounds every value and equals one of them |
| Tracker.AddHabit | habit_tracker.py:95-100 | An empty name or periodicity raises the missing-field error and an unknown periodicity raises the invalid-periodicity error, both with the store unchanged; otherwise exactly one new habit is appended after the unchanged earlier habits; only daily/weekly habits ever enter the store |
| Tracker.CompleteHabit | habit_tracker.py:112-117 | Raises not-found and changes nothing exactly when no habit has the name; otherwise the first habit with the name gains the completion and every other habit and the length stay the same |
| Tracker.DeleteHabit | habit_tracker.py:129-135 | Raises not-found and changes nothing exactly when no habit has the name; otherwise exactly the first habit with the name is removed, the length drops by one and the others keep their order |
| Tracker.GetHabit | habit_tracker.py:185-188 | Returns the first habit with the name, and None exactly when no habit has it |
| Tracker.GetHabitsByPeriodicity | habit_tracker.py:171-173 | Raises for anything but daily/weekly; otherwise returns, in store order, exactly the habits with that periodicity, each as many times as it occurs in the store |
| Tracker.GetLongestStreak | habit_tracker.py:145-147 | 0 for an empty store; raises exactly when some habit's streak raises, and then the error is the first such streak's unsupported-periodicity error; otherwise at least every habit's streak and equal to one of them |
| Tracker.ValidStoreLongestStreak | habit_tracker.py:95-100 | In a store that only holds daily/weekly habits, the longest streak never raises |
| Tracker.AddThenGet | test_habit_tracker.py:8-12 | After a successful add, the lookup finds the earlier habit of that name if there is one, else the habit just added |
| Tracker.AddThenDelete | test_habit_tracker.py:14-17 | Adding a new name and then deleting it gives back the original store |
| Tracker.AddThenFilter | habit_tracker.py:171-173 | After a successful add, filtering by a daily/weekly periodicity gives the earlier result with the new habit appended exactly when it has that periodicity, and the earlier result otherwise; other periodicities still raise |
| Tracker.FilterAgain | habit_tracker.py:171-173 | Filtering a successful filter's result by the same periodicity gives the same result |
| Tracker.CompleteThenGet | habit_tracker.py:112-117 | After completing a name, its lookup returns that habit with the new completion appended |
| Tracker.AddAndGetReadDaily | test_habit_tracker.py:8-12 | Adding "Read" daily to an empty store and looking it up yields a habit named "Read" with periodicity "daily" |
| Tracker.AddDeleteReadDaily | test_habit_tracker.py:14-17 | Adding "Read" and then deleting it leaves no habit named "Read" |
| Analytics.StepHoldsOnGap | analytics.py:18-23 | The whole-day tests hold exactly when a daily gap lies in [1 day, 2 days) or a weekly gap in [1 day, 8 days); no other periodicity ever continues |
| Analytics.DescendingRun | analytics.py:14-25 | On a newest-first sequence, the loop's count is the run from the newest instant: each gap within it passes the periodicity's test and the gap after it, if any, fails |
| Analytics.NewestRunUnique | analytics.py:14-25 | At most one length fits that description |
| Analytics.CalculateStreak | analytics.py:9-27 | 0 exactly for no completions; otherwise between 1 and the number of completions, the newest-first run of the sorted completions, and 1 for any periodicity other than daily/weekly |
| Analytics.CalculateStreakExact | analytics.py:13-25 | Converse: any length that forms the newest-first run of the sorted completions is the streak |
| Analytics.CalculateStreakInOrder | analytics.py:13-25 | For completions recorded oldest first, the streak is the run that ends at the last one, read backwards |
| Analytics.CalculateStreakPermutation | analytics.py:13 | Any reordering of the completions gives the same streak |
| Analytics.SameDayRepeatEndsStreak | analytics.py:18-23 | If the two newest completions are less than a day apart, the streak is 1 for every periodicity |
| Analytics.LowerChar | analytics.py:33 | Upper-case ASCII letters become lower-case; every other character is unchanged |
| Analytics.Lower | analytics.py:33 | Lower-casing keeps the length and lower-cases each character |
| Analytics.GetAllHabits | analytics.py:3-4 | The names of the records, one per record, in record order |
| Analytics.GetHabitsByPeriodicity | analytics.py:6-7 | Without validating the period, returns in record order exactly the records with that periodicity, each as many times as it occurs in the records |
| Analytics.GetLongestStreak | analytics.py:29-30 | 0 with no records; otherwise at least every record's streak and equal to one of them |
| Analytics.GetStreakForHabit | analytics.py:32-36 | The streak of the first record whose name matches ignoring case, and 0 when none matches |
| Scenarios.FiltersAgree | analytics.py:6-7 | For daily or weekly, the store's filter and the records filter return the same habits |
| Scenarios.InvalidPeriodFilters | analytics.py:6-7 | On daily/weekly records, the records filter returns nothing for another period while the store's filter raises |
| Scenarios.TwentyHourGaps | habit_tracker.py:41-46 | Daily completions 20 hours apart give an oldest-first streak of 3 |
| Scenarios.ThirtyHourGap | analytics.py:18 | A 30-hour daily gap gives oldest-first streak 1 but newest-first streak 2 |
| Scenarios.NinetyMinuteGap | analytics.py:18 | A 90-minute daily gap gives oldest-first streak 2 but newest-first streak 1 |
| Scenarios.WeeklyThreeDayGaps | analytics.py:21-23 | Weekly completions three days apart give a newest-first streak of 3 |
| Scenarios.WeeklyEightDayGap | analytics.py:21-23 | An eight-day gap at the newest end gives a weekly streak of 1 |
| Scenarios.InitialRunNotLongest | habit_tracker.py:27-48 | A history whose longest run is 3 but whose earliest run is 1 has oldest-first streak 1 |
| Scenarios.OutOfOrderCompletions | habit_tracker.py:37 | Completions recorded out of order give the same streak of 3 as in order |

## Left out

- `save_to_file` and `load_from_file`: JSON file I/O and the recovery to an empty tracker when reading fails. Their effect on data is carried by modelling a raw record as a `Habit`.
- ISO-8601 formatting and parsing: instants are already-parsed integers.
- `datetime.now()`: the clock reading is a parameter. `CompleteTaskStreak` assumes the new reading is no earlier than the recorded completions, as a clock that never goes back would give.
- Time zones, naive versus aware datetimes, and microsecond rounding: instants are plain integers.
- The `print` inside `delete_habit`: output only.
- `get_habits` and `get_completion_history`: they return a field unchanged. In the model that field is the store itself or `completions`.
- The interactive menu and `load_habits_raw` in cli.py: input/output dispatch with no logic of its own.
- test_analytics.py: it only checks the result type against a data file that is not part of this model.
- A raw record missing one of its keys, which raises `KeyError` in the analytics functions: a modelled record always has all four fields. A matched record is a non-empty dictionary, so the `if habit:` test in `get_streak_for_habit` is taken as "a match was found".
- Python's truthiness of `name` and `periodicity` for non-string values such as `None`: the model takes strings only, so "not provided" means empty.
- Analytics.Lower: lower-cases ASCII letters only, because Python's full Unicode `str.lower` (multi-character results, non-ASCII cases) is not modelled.
