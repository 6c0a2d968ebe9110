/** The tracker's state and its handlers: the global `habits` list and the operations
    `addHabit`, `deleteHabit`, `toggleHabit` and `updateStats` that the page wires to its
    buttons. The clock readings (`Date.now()` and today's date string) come in as parameters. */
module Tracker {
  import opened Text
  import opened Habits
  import opened Stats

  class HabitTracker {
    /** The habits, in the order they were added. */
    var habits: seq<Habit>

    /** Every streak is non-negative. The handlers keep this; a list read back from storage
        is not checked for it, so no handler demands it. */
    ghost predicate Valid()
      reads this
    {
      StreaksNonNegative(habits)
    }

    /** The page starts with an empty list. */
    constructor ()
      ensures Valid() && habits == []
    {
      habits := [];
    }

    /** `addHabit`: trims the typed name; if nothing is left, does nothing; otherwise appends a
        new habit with the clock reading `now` as its id, no streak, no stamp and not done. */
    method AddHabit(input: string, now: int)
      modifies this
      ensures Trim(input) == [] ==> habits == old(habits)
      ensures Trim(input) != [] ==> |habits| == |old(habits)| + 1 && habits[..|old(habits)|] == old(habits)
      ensures Trim(input) != [] ==> habits[|habits| - 1] == Habit(now, Trim(input), 0, None, false)
      ensures old(Valid()) ==> Valid()
      ensures old(UniqueIds(habits)) && (forall j :: 0 <= j < |old(habits)| ==> old(habits)[j].id != now) ==>
        UniqueIds(habits)
    {
      var name := Trim(input);
      if name != [] {
        AppendKeepsInvariants(habits, now, name);
        habits := habits + [NewHabit(now, name)];
      }
    }

    /** `deleteHabit`: keeps exactly the habits whose id differs, in their order, removing every
        habit that carries `id`; an id no habit carries leaves the list as it was. */
    method DeleteHabit(id: int)
      modifies this
      ensures habits == Without(old(habits), id)
      ensures |habits| == |old(habits)| - CountId(old(habits), id)
      ensures IsSubsequence(habits, old(habits))
      ensures forall h :: h in habits <==> h in old(habits) && h.id != id
      ensures (forall j :: 0 <= j < |old(habits)| ==> old(habits)[j].id != id) ==> habits == old(habits)
      ensures old(Valid()) ==> Valid()
      ensures old(UniqueIds(habits)) ==> UniqueIds(habits)
    {
      WithoutLength(habits, id);
      WithoutIsSubsequence(habits, id);
      WithoutKeepsInvariants(habits, id);
      if forall j :: 0 <= j < |habits| ==> habits[j].id != id {
        WithoutAbsent(habits, id);
      }
      habits := Without(habits, id);
    }

    /** `toggleHabit`: finds the first habit with `id` and flips its completion. Completing adds
        one to the streak and stamps `today`; un-completing takes one off, never going below 0,
        and keeps the old stamp. Every other habit, and the length, stay; an unknown id changes
        nothing. */
    method ToggleHabit(id: int, today: string)
      modifies this
      ensures habits == ToggleFirst(old(habits), id, today)
      ensures |habits| == |old(habits)|
      ensures FindFirst(old(habits), id).None? ==> habits == old(habits)
      ensures FindFirst(old(habits), id).Some? ==>
        var i := FindFirst(old(habits), id).value;
        var h := old(habits)[i];
        (forall k :: 0 <= k < |habits| && k != i ==> habits[k] == old(habits)[k]) &&
        habits[i].id == h.id && habits[i].name == h.name &&
        habits[i].completedToday == !h.completedToday &&
        (!h.completedToday ==> habits[i].streak == h.streak + 1 && habits[i].lastCompleted == Some(today)) &&
        (h.completedToday ==>
          habits[i].streak == (if h.streak >= 1 then h.streak - 1 else 0) &&
          habits[i].lastCompleted == h.lastCompleted)
      ensures old(Valid()) ==> Valid()
      ensures old(UniqueIds(habits)) ==> UniqueIds(habits)
    {
      ToggleFirstKeepsInvariants(habits, id, today);
      var found := FindFirst(habits, id);
      match found {
        case None =>
        case Some(i) =>
          var h := habits[i];
          var completing := !h.completedToday;
          var streak := if completing then h.streak + 1 else (if h.streak - 1 < 0 then 0 else h.streak - 1);
          var stamp := if completing then Some(today) else h.lastCompleted;
          habits := habits[i := h.(completedToday := completing, streak := streak, lastCompleted := stamp)];
          assert habits[i] == Toggle(h, today);
      }
    }

    /** `updateStats`: the three figures for the current list. */
    method UpdateStats() returns (s: Stats)
      ensures s.total == |habits|
      ensures s.completedToday == CountCompleted(habits) <= s.total
      ensures habits == [] ==> s == Stats(0, 0, 0)
      ensures forall i :: 0 <= i < |habits| ==> habits[i].streak <= s.longestStreak
      ensures habits != [] ==> exists i :: 0 <= i < |habits| && habits[i].streak == s.longestStreak
      ensures Valid() ==> s.longestStreak >= 0
    {
      s := ComputeStats(habits);
    }
  }

  /** Start empty, add "Exercise", complete it and un-complete it: the streak goes 0, 1, 0 and
      the stamp of the completion stays. */
  method ExerciseScenario(now: int, today: string)
  {
    var t := new HabitTracker();
    TrimIsCore("Exercise", 0, 8);
    assert Trim("Exercise") == "Exercise"[0..8] == "Exercise";
    t.AddHabit("Exercise", now);
    assert t.habits == [Habit(now, "Exercise", 0, None, false)];
    t.ToggleHabit(now, today);
    assert t.habits == [Habit(now, "Exercise", 1, Some(today), true)];
    t.ToggleHabit(now, today);
    assert t.habits == [Habit(now, "Exercise", 0, Some(today), false)];
    var s := t.UpdateStats();
    assert s == Stats(1, 0, 0);
  }

  /** Add "A" and "B" and toggle "A" twice: the second toggle un-completes it, so its streak is
      back to 0, not 2, while its stamp stays. */
  method TwoHabitScenario(idA: int, idB: int, today: string) returns (t: HabitTracker)
    requires idA != idB
    ensures fresh(t) && t.habits == [Habit(idA, "A", 0, Some(today), false), NewHabit(idB, "B")]
  {
    t := new HabitTracker();
    TrimIsCore("A", 0, 1);
    TrimIsCore("B", 0, 1);
    assert Trim("A") == "A"[0..1] == "A" && Trim("B") == "B"[0..1] == "B";
    t.AddHabit("A", idA);
    t.AddHabit("B", idB);
    assert t.habits == [NewHabit(idA, "A"), NewHabit(idB, "B")];
    t.ToggleHabit(idA, today);
    assert t.habits == [Habit(idA, "A", 1, Some(today), true), NewHabit(idB, "B")];
    t.ToggleHabit(idA, today);
  }

  /** Continuing from there, completing "B" once gives two habits, one done today, and a
      longest streak of 1. */
  method TwoHabitStatsScenario(idA: int, idB: int, today: string)
    requires idA != idB
  {
    var t := TwoHabitScenario(idA, idB, today);
    t.ToggleHabit(idB, today);
    assert t.habits == [Habit(idA, "A", 0, Some(today), false), Habit(idB, "B", 1, Some(today), true)];
    var s := t.UpdateStats();
    assert t.habits[..1] == [t.habits[0]];
    assert s == Stats(2, 1, 1);
  }
}
