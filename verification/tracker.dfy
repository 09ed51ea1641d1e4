/** The habit store (habit_tracker.py, class `HabitTracker`): an ordered
    sequence of habits in which duplicate names are allowed and every
    name-keyed operation acts on the first habit with that name. The methods
    that mutate the Python list in place are functions here that return the
    store after the call together with the error raised, if any. */
module Tracker {
  import opened Wrappers
  import opened Seqs
  import opened Habits

  type Store = seq<Habit>

  /** The state after a mutating call and the error it raised, if any. */
  datatype Effect = Effect(store: Store, raised: Option<Error>)

  /** The name test of the store's `for habit in self.habits` searches. */
  function Named(name: string): Habit -> bool {
    (h: Habit) => h.name == name
  }

  ghost predicate HasName(store: Store, name: string) {
    exists i :: 0 <= i < |store| && store[i].name == name
  }

  /** The store only ever admits daily and weekly habits through `AddHabit`. */
  ghost predicate ValidStore(store: Store) {
    forall i :: 0 <= i < |store| ==> Supported(store[i].periodicity)
  }

  /** `add_habit`, with the clock reading used as the creation date. */
  function AddHabit(store: Store, name: string, periodicity: string, now: int): (r: Effect)
    ensures r.raised.Some? <==> name == [] || !Supported(periodicity)
    ensures name == [] || periodicity == [] ==> r.raised == Some(MissingField)
    ensures name != [] && periodicity != [] && !Supported(periodicity) ==>
              r.raised == Some(InvalidPeriodicity)
    ensures r.raised.Some? ==> r.store == store
    ensures r.raised.None? ==> |r.store| == |store| + 1 && r.store[..|store|] == store
    ensures r.raised.None? ==> r.store[|store|] == NewHabit(name, periodicity, now)
    ensures ValidStore(store) ==> ValidStore(r.store)
  {
    if name == [] || periodicity == [] then Effect(store, Some(MissingField))
    else if !Supported(periodicity) then Effect(store, Some(InvalidPeriodicity))
    else Effect(store + [NewHabit(name, periodicity, now)], None)
  }

  /** `complete_habit`: one completion at `now` for the first habit so named. */
  function CompleteHabit(store: Store, name: string, now: int): (r: Effect)
    ensures r.raised.Some? <==> !HasName(store, name)
    ensures r.raised.Some? ==> r.raised == Some(HabitNotFound(name)) && r.store == store
    ensures |r.store| == |store|
    ensures forall i :: IsFirst(store, Named(name), i) ==>
              && r.store[i] == CompleteTask(store[i], now)
              && forall j :: 0 <= j < |store| && j != i ==> r.store[j] == store[j]
    ensures ValidStore(store) ==> ValidStore(r.store)
  {
    match FirstIndex(store, Named(name))
    case None => Effect(store, Some(HabitNotFound(name)))
    case Some(i) => Effect(store[i := CompleteTask(store[i], now)], None)
  }

  /** `delete_habit`: removes the first habit so named, keeping the order of
      the others. */
  function DeleteHabit(store: Store, name: string): (r: Effect)
    ensures r.raised.Some? <==> !HasName(store, name)
    ensures r.raised.Some? ==> r.raised == Some(HabitNotFound(name)) && r.store == store
    ensures r.raised.None? ==> |r.store| == |store| - 1 && Subsequence(r.store, store)
    ensures forall i :: IsFirst(store, Named(name), i) ==>
              && r.store[..i] == store[..i]
              && r.store[i..] == store[i + 1..]
              && multiset(r.store) + multiset{store[i]} == multiset(store)
    ensures ValidStore(store) ==> ValidStore(r.store)
  {
    match FirstIndex(store, Named(name))
    case None => Effect(store, Some(HabitNotFound(name)))
    case Some(i) => Effect(RemoveAt(store, i), None)
  }

  /** `get_habit`: the first habit with the given name, or `None`. */
  function GetHabit(store: Store, name: string): (r: Option<Habit>)
    ensures r.None? <==> !HasName(store, name)
    ensures forall i :: IsFirst(store, Named(name), i) ==> r == Some(store[i])
    ensures r.Some? ==> r.value.name == name && r.value in store
  {
    match FirstIndex(store, Named(name))
    case None => None
    case Some(i) => Some(store[i])
  }

  /** `get_habits_by_periodicity`: validates the periodicity, then keeps the
      habits that have it, in store order. */
  function GetHabitsByPeriodicity(store: Store, periodicity: string): (r: Result<Store, Error>)
    ensures r.Err? <==> !Supported(periodicity)
    ensures r.Err? ==> r.error == InvalidPeriodicity
    ensures r.Ok? ==> Subsequence(r.value, store)
    ensures r.Ok? ==> forall i :: 0 <= i < |r.value| ==> r.value[i].periodicity == periodicity
    ensures r.Ok? ==> forall i :: 0 <= i < |store| && store[i].periodicity == periodicity ==>
                        store[i] in r.value
    ensures r.Ok? ==> forall i :: 0 <= i < |store| ==>
                        multiset(r.value)[store[i]] ==
                          if store[i].periodicity == periodicity then multiset(store)[store[i]] else 0
  {
    if !Supported(periodicity) then Err(InvalidPeriodicity)
    else Ok(Filter(store, WithPeriodicity(periodicity)))
  }

  /** `get_longest_streak`: the largest habit streak, 0 for an empty store.
      A habit whose streak raises makes the whole call raise. */
  function GetLongestStreak(store: Store): (r: Result<nat, Error>)
    ensures |store| == 0 ==> r == Ok(0)
    ensures r.Err? <==> exists i :: 0 <= i < |store| && GetStreak(store[i]).Err?
    ensures r.Ok? ==> forall i :: 0 <= i < |store| ==>
                        GetStreak(store[i]).Ok? && GetStreak(store[i]).value <= r.value
    ensures r.Ok? && |store| > 0 ==> exists i :: 0 <= i < |store| && GetStreak(store[i]) == Ok(r.value)
    ensures r.Err? ==> exists i :: 0 <= i < |store| && GetStreak(store[i]) == r &&
                          forall j :: 0 <= j < i ==> GetStreak(store[j]).Ok?
    ensures r.Err? ==> r.error == UnsupportedPeriodicity
  {
    MaxOfResults(store, GetStreak)
  }

  /** In a store built by the operations above, no streak raises. */
  lemma ValidStoreLongestStreak(store: Store)
    requires ValidStore(store)
    ensures GetLongestStreak(store).Ok?
  {
  }

  /** After a successful add, looking the name up finds the earlier habit of
      that name if there is one, and otherwise the habit just added. */
  lemma AddThenGet(store: Store, name: string, periodicity: string, now: int)
    requires AddHabit(store, name, periodicity, now).raised.None?
    ensures GetHabit(AddHabit(store, name, periodicity, now).store, name) ==
      if HasName(store, name) then GetHabit(store, name)
      else Some(NewHabit(name, periodicity, now))
  {
    FirstIndexAppend(store, NewHabit(name, periodicity, now), Named(name));
  }

  /** Adding a habit under a name the store does not have, then deleting that
      name, gives back the original store. */
  lemma AddThenDelete(store: Store, name: string, periodicity: string, now: int)
    requires AddHabit(store, name, periodicity, now).raised.None?
    requires !HasName(store, name)
    ensures DeleteHabit(AddHabit(store, name, periodicity, now).store, name) == Effect(store, None)
  {
    var h := NewHabit(name, periodicity, now);
    FirstIndexAppend(store, h, Named(name));
    assert (store + [h])[..|store|] == store;
  }

  /** After a successful add, filtering by a supported periodicity gives the
      earlier result with the new habit at its end exactly when the new habit
      has that periodicity; an unsupported one still raises. */
  lemma AddThenFilter(store: Store, name: string, periodicity: string, now: int, p: string)
    requires AddHabit(store, name, periodicity, now).raised.None?
    ensures GetHabitsByPeriodicity(AddHabit(store, name, periodicity, now).store, p) ==
      if !Supported(p) then Err(InvalidPeriodicity)
      else if p == periodicity
      then Ok(GetHabitsByPeriodicity(store, p).value + [NewHabit(name, periodicity, now)])
      else GetHabitsByPeriodicity(store, p)
  {
    var h := NewHabit(name, periodicity, now);
    var after := AddHabit(store, name, periodicity, now).store;
    assert after == store + [h];
    if Supported(p) {
      var keep := WithPeriodicity(p);
      FilterAppend(store, [h], keep);
      FilterSingle(h, keep);
      if p == periodicity {
        assert Filter(after, keep) == Filter(store, keep) + [h];
      } else {
        assert Filter(after, keep) == Filter(store, keep);
      }
    }
  }

  /** Filtering the result of a filter by the same periodicity changes
      nothing. */
  lemma FilterAgain(store: Store, p: string)
    requires GetHabitsByPeriodicity(store, p).Ok?
    ensures GetHabitsByPeriodicity(GetHabitsByPeriodicity(store, p).value, p) ==
              GetHabitsByPeriodicity(store, p)
  {
    FilterIdempotent(store, WithPeriodicity(p));
  }

  /** After completing a habit, looking its name up finds it with the new
      completion as its latest entry. */
  lemma CompleteThenGet(store: Store, name: string, now: int)
    requires HasName(store, name)
    ensures GetHabit(CompleteHabit(store, name, now).store, name) ==
              Some(CompleteTask(GetHabit(store, name).value, now))
  {
    var i := FirstIndex(store, Named(name)).value;
    var after := CompleteHabit(store, name, now).store;
    assert IsFirst(after, Named(name), i);
  }

  /** test_add_and_get_habit. */
  lemma AddAndGetReadDaily(now: int)
    ensures var h := GetHabit(AddHabit([], "Read", "daily", now).store, "Read");
            h.Some? && h.value.name == "Read" && h.value.periodicity == "daily"
  {
    AddThenGet([], "Read", "daily", now);
  }

  /** test_delete_habit. */
  lemma AddDeleteReadDaily(now: int)
    ensures GetHabit(DeleteHabit(AddHabit([], "Read", "daily", now).store, "Read").store, "Read") == None
  {
    AddThenDelete([], "Read", "daily", now);
  }
}
