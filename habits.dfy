/** The habit record and the pure operations on the habit list that the tracker's handlers use:
    the completion toggle of one record, `Array.prototype.find` by id and `filter` by id. */
module Habits {

  datatype Option<T> = None | Some(value: T)

  /** One habit. `id` is the clock reading taken when it was added (not necessarily unique),
      `lastCompleted` the date stamp of the latest completion (`null` until the first one). */
  datatype Habit = Habit(id: int, name: string, streak: int, lastCompleted: Option<string>, completedToday: bool)

  /** The record `addHabit` creates for a trimmed, non-empty name. */
  function NewHabit(id: int, name: string): Habit {
    Habit(id, name, 0, None, false)
  }

  /** The two-state machine of `toggleHabit` on one record: completing counts the streak up and
      stamps the day; un-completing counts it down, never below 0, and keeps the stamp. */
  function Toggle(h: Habit, today: string): Habit {
    if !h.completedToday then
      h.(completedToday := true, streak := h.streak + 1, lastCompleted := Some(today))
    else
      h.(completedToday := false, streak := if h.streak - 1 < 0 then 0 else h.streak - 1)
  }

  /** A toggle changes only the completion flag, the streak and the stamp, and flips the flag. */
  lemma ToggleFlips(h: Habit, today: string)
    ensures Toggle(h, today).id == h.id && Toggle(h, today).name == h.name
    ensures Toggle(h, today).completedToday == !h.completedToday
  {
  }

  /** Completing: streak + 1 and the supplied day as the stamp. */
  lemma ToggleCompletes(h: Habit, today: string)
    requires !h.completedToday
    ensures Toggle(h, today).streak == h.streak + 1
    ensures Toggle(h, today).lastCompleted == Some(today)
  {
  }

  /** Un-completing: streak - 1 floored at 0, and the old stamp stays. */
  lemma ToggleUncompletes(h: Habit, today: string)
    requires h.completedToday
    ensures Toggle(h, today).streak == (if h.streak >= 1 then h.streak - 1 else 0)
    ensures Toggle(h, today).lastCompleted == h.lastCompleted
  {
  }

  /** Toggling twice from "not done" restores the flag and a non-negative streak, but the
      stamp stays the first toggle's. */
  lemma ToggleTwiceFromIncomplete(h: Habit, day1: string, day2: string)
    requires !h.completedToday && h.streak >= 0
    ensures Toggle(Toggle(h, day1), day2) == h.(lastCompleted := Some(day1))
  {
  }

  /** A toggle never takes a non-negative streak below 0. */
  lemma ToggleKeepsStreakNonNegative(h: Habit, today: string)
    requires h.streak >= 0
    ensures Toggle(h, today).streak >= 0
  {
  }

  /** The position of the first record with the given id, as `habits.find` looks it up. */
  function FindFirst(hs: seq<Habit>, id: int): (r: Option<nat>)
    ensures r.Some? ==> r.value < |hs| && hs[r.value].id == id
    ensures r.Some? ==> forall j :: 0 <= j < r.value ==> hs[j].id != id
    ensures r.None? <==> forall j :: 0 <= j < |hs| ==> hs[j].id != id
  {
    if hs == [] then None
    else if hs[0].id == id then Some(0)
    else match FindFirst(hs[1..], id)
      case None => None
      case Some(i) => Some(i + 1)
  }

  /** The list after `toggleHabit(id)`: the first record with `id` toggled, or the same list. */
  function ToggleFirst(hs: seq<Habit>, id: int, today: string): seq<Habit> {
    match FindFirst(hs, id)
    case None => hs
    case Some(i) => hs[i := Toggle(hs[i], today)]
  }

  /** The list after `deleteHabit(id)`: `habits.filter(h => h.id !== id)`. */
  function Without(hs: seq<Habit>, id: int): (r: seq<Habit>)
    ensures |r| <= |hs|
    ensures forall h :: h in r <==> h in hs && h.id != id
  {
    if hs == [] then []
    else if hs[0].id == id then Without(hs[1..], id)
    else [hs[0]] + Without(hs[1..], id)
  }

  /** How many records carry the id. */
  function CountId(hs: seq<Habit>, id: int): (n: nat)
    ensures n <= |hs|
    ensures n == 0 <==> forall j :: 0 <= j < |hs| ==> hs[j].id != id
  {
    if hs == [] then 0 else (if hs[0].id == id then 1 else 0) + CountId(hs[1..], id)
  }

  /** `a` is `b` with some elements removed, the rest kept in their order. */
  predicate IsSubsequence(a: seq<Habit>, b: seq<Habit>) {
    if a == [] then true
    else if b == [] then false
    else if a[0] == b[0] then IsSubsequence(a[1..], b[1..])
    else IsSubsequence(a, b[1..])
  }

  predicate StreaksNonNegative(hs: seq<Habit>) {
    forall i :: 0 <= i < |hs| ==> hs[i].streak >= 0
  }

  predicate UniqueIds(hs: seq<Habit>) {
    forall i, j :: 0 <= i < j < |hs| ==> hs[i].id != hs[j].id
  }

  // ---- deleteHabit ----

  /** Filtering distributes over concatenation: the kept records stay in their order. */
  lemma {:induction false} WithoutAppend(a: seq<Habit>, b: seq<Habit>, id: int)
    ensures Without(a + b, id) == Without(a, id) + Without(b, id)
  {
    if a != [] {
      assert (a + b)[0] == a[0] && (a + b)[1..] == a[1..] + b;
      WithoutAppend(a[1..], b, id);
    } else {
      assert a + b == b;
    }
  }

  /** Deleting keeps exactly the records with another id, in order, as a subsequence. */
  lemma {:induction false} WithoutIsSubsequence(hs: seq<Habit>, id: int)
    ensures IsSubsequence(Without(hs, id), hs)
  {
    if hs != [] {
      WithoutIsSubsequence(hs[1..], id);
      if hs[0].id == id {
        SubsequenceOfTail(Without(hs[1..], id), hs);
      }
    }
  }

  lemma {:induction false} SubsequenceOfTail(a: seq<Habit>, b: seq<Habit>)
    requires b != [] && IsSubsequence(a, b[1..])
    ensures IsSubsequence(a, b)
  {
    if a != [] && a[0] == b[0] {
      var c := b[1..];
      if a[0] == c[0] {
        SubsequenceOfTail(a[1..], c);
      } else {
        SubsequenceOfTail(a, c);
        SubsequenceShrink(a, c);
      }
    }
  }

  /** Dropping the head of `a` keeps it a subsequence. */
  lemma {:induction false} SubsequenceShrink(a: seq<Habit>, b: seq<Habit>)
    requires a != [] && IsSubsequence(a, b)
    ensures IsSubsequence(a[1..], b)
  {
    assert b != [];
    if a[0] == b[0] {
      SubsequenceOfTail(a[1..], b);
    } else {
      SubsequenceShrink(a, b[1..]);
      SubsequenceOfTail(a[1..], b);
    }
  }

  /** Deleting removes one record per occurrence of the id: all of them, not only the first. */
  lemma {:induction false} WithoutLength(hs: seq<Habit>, id: int)
    ensures |Without(hs, id)| == |hs| - CountId(hs, id)
  {
    if hs != [] {
      WithoutLength(hs[1..], id);
    }
  }

  /** Deleting an id that no record carries leaves the list as it was. */
  lemma {:induction false} WithoutAbsent(hs: seq<Habit>, id: int)
    requires forall j :: 0 <= j < |hs| ==> hs[j].id != id
    ensures Without(hs, id) == hs
  {
    if hs != [] {
      WithoutAbsent(hs[1..], id);
    }
  }

  /** Deleting twice is deleting once. */
  lemma WithoutIdempotent(hs: seq<Habit>, id: int)
    ensures Without(Without(hs, id), id) == Without(hs, id)
  {
    var r := Without(hs, id);
    forall j | 0 <= j < |r| ensures r[j].id != id {
      assert r[j] in r;
    }
    WithoutAbsent(r, id);
  }

  /** Deleting keeps non-negative streaks and unique ids. */
  lemma WithoutKeepsInvariants(hs: seq<Habit>, id: int)
    ensures StreaksNonNegative(hs) ==> StreaksNonNegative(Without(hs, id))
    ensures UniqueIds(hs) ==> UniqueIds(Without(hs, id))
  {
    WithoutKeepsUnique(hs, id);
    var r := Without(hs, id);
    if StreaksNonNegative(hs) {
      forall j | 0 <= j < |r| ensures r[j].streak >= 0 {
        assert r[j] in hs;
      }
    }
  }

  lemma {:induction false} WithoutKeepsUnique(hs: seq<Habit>, id: int)
    ensures UniqueIds(hs) ==> UniqueIds(Without(hs, id))
  {
    if hs != [] && UniqueIds(hs) {
      var t := hs[1..];
      assert UniqueIds(t) by {
        forall i, j | 0 <= i < j < |t| ensures t[i].id != t[j].id {
          assert t[i] == hs[i + 1] && t[j] == hs[j + 1];
        }
      }
      WithoutKeepsUnique(t, id);
      var w := Without(t, id);
      if hs[0].id != id {
        forall k | 0 <= k < |w| ensures w[k].id != hs[0].id {
          assert w[k] in t;
          var m :| 0 <= m < |t| && t[m] == w[k];
          assert t[m] == hs[m + 1];
        }
        var r := [hs[0]] + w;
        forall i, j | 0 <= i < j < |r| ensures r[i].id != r[j].id {
          if i > 0 {
            assert r[i] == w[i - 1] && r[j] == w[j - 1];
          } else {
            assert r[j] == w[j - 1];
          }
        }
      }
    }
  }

  // ---- toggleHabit ----

  /** Toggling touches at most the first record with the id: the length and every other
      record stay; the first match is toggled; an unknown id changes nothing. */
  lemma ToggleFirstFrame(hs: seq<Habit>, id: int, today: string)
    ensures |ToggleFirst(hs, id, today)| == |hs|
    ensures (forall j :: 0 <= j < |hs| ==> hs[j].id != id) ==> ToggleFirst(hs, id, today) == hs
    ensures forall i :: 0 <= i < |hs| && hs[i].id == id && (forall j :: 0 <= j < i ==> hs[j].id != id) ==>
      ToggleFirst(hs, id, today)[i] == Toggle(hs[i], today) &&
      forall k :: 0 <= k < |hs| && k != i ==> ToggleFirst(hs, id, today)[k] == hs[k]
  {
  }

  /** Toggling keeps every streak non-negative and every id where it was. */
  lemma ToggleFirstKeepsInvariants(hs: seq<Habit>, id: int, today: string)
    ensures StreaksNonNegative(hs) ==> StreaksNonNegative(ToggleFirst(hs, id, today))
    ensures UniqueIds(hs) ==> UniqueIds(ToggleFirst(hs, id, today))
  {
    match FindFirst(hs, id)
    case None =>
    case Some(i) =>
      var r := ToggleFirst(hs, id, today);
      assert forall k :: 0 <= k < |hs| ==> r[k].id == hs[k].id;
  }

  /** Toggling the same id twice, starting from a habit not done today with a non-negative
      streak, gives back the list with only that habit's stamp set to the first day. */
  lemma ToggleFirstTwice(hs: seq<Habit>, id: int, day1: string, day2: string)
    requires FindFirst(hs, id).Some?
    requires !hs[FindFirst(hs, id).value].completedToday && hs[FindFirst(hs, id).value].streak >= 0
    ensures var i := FindFirst(hs, id).value;
      ToggleFirst(ToggleFirst(hs, id, day1), id, day2) == hs[i := hs[i].(lastCompleted := Some(day1))]
  {
    var i := FindFirst(hs, id).value;
    var once := ToggleFirst(hs, id, day1);
    assert forall k :: 0 <= k < |hs| ==> once[k].id == hs[k].id;
    assert FindFirst(once, id) == Some(i) by {
      var j := FindFirst(once, id);
      assert j.Some? by { assert once[i].id == id; }
      assert once[j.value].id == id;
    }
    ToggleTwiceFromIncomplete(hs[i], day1, day2);
  }

  // ---- addHabit ----

  /** Appending a record with an id not yet used keeps ids unique; appending a new record keeps
      streaks non-negative. */
  lemma AppendKeepsInvariants(hs: seq<Habit>, id: int, name: string)
    ensures StreaksNonNegative(hs) ==> StreaksNonNegative(hs + [NewHabit(id, name)])
    ensures UniqueIds(hs) && (forall j :: 0 <= j < |hs| ==> hs[j].id != id) ==>
      UniqueIds(hs + [NewHabit(id, name)])
  {
  }
}
