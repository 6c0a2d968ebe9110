/** The three figures `updateStats` shows: how many habits, how many are done today, and the
    longest streak. Each is recomputed from the list on every call. */
module Stats {
  import opened Habits

  datatype Stats = Stats(total: nat, completedToday: nat, longestStreak: int)

  /** `habits.filter(h => h.completedToday).length`, counted from the back of the list. */
  function CountCompleted(hs: seq<Habit>): (n: nat)
    ensures n <= |hs|
  {
    if hs == [] then 0
    else CountCompleted(hs[..|hs| - 1]) + (if hs[|hs| - 1].completedToday then 1 else 0)
  }

  /** The positions of the habits done today. */
  ghost function CompletedPositions(hs: seq<Habit>): set<nat> {
    set i: nat | i < |hs| && hs[i].completedToday
  }

  /** `Math.max` over the streaks of a non-empty list: an upper bound that some habit reaches. */
  function MaxStreak(hs: seq<Habit>): (m: int)
    requires hs != []
    ensures forall i :: 0 <= i < |hs| ==> hs[i].streak <= m
    ensures exists i :: 0 <= i < |hs| && hs[i].streak == m
  {
    if |hs| == 1 then hs[0].streak
    else
      var m := MaxStreak(hs[..|hs| - 1]);
      if hs[|hs| - 1].streak > m then hs[|hs| - 1].streak else m
  }

  /** `updateStats`: the list length, the count of habits done today, and the largest streak
      (0 for an empty list). */
  function ComputeStats(hs: seq<Habit>): (s: Stats)
    ensures s.total == |hs|
    ensures s.completedToday <= s.total
    ensures s.completedToday == |CompletedPositions(hs)|
    ensures hs == [] ==> s == Stats(0, 0, 0)
    ensures forall i :: 0 <= i < |hs| ==> hs[i].streak <= s.longestStreak
    ensures hs != [] ==> exists i :: 0 <= i < |hs| && hs[i].streak == s.longestStreak
  {
    CountCompletedIsPositions(hs);
    Stats(|hs|, CountCompleted(hs), if |hs| > 0 then MaxStreak(hs) else 0)
  }

  /** The recursive count agrees with the size of the set of completed positions. */
  lemma {:induction false} CountCompletedIsPositions(hs: seq<Habit>)
    ensures CountCompleted(hs) == |CompletedPositions(hs)|
  {
    if hs != [] {
      var p := hs[..|hs| - 1];
      CountCompletedIsPositions(p);
      var last := |hs| - 1;
      var prefix := CompletedPositions(p);
      assert last !in prefix;
      if hs[last].completedToday {
        assert CompletedPositions(hs) == prefix + {last};
      } else {
        assert CompletedPositions(hs) == prefix;
      }
    }
  }

  /** Adding a habit: one more in total, the same number done, and the longest streak becomes
      the larger of the old one and the new habit's. */
  lemma AppendStats(hs: seq<Habit>, h: Habit)
    ensures ComputeStats(hs + [h]).total == ComputeStats(hs).total + 1
    ensures ComputeStats(hs + [h]).completedToday ==
      ComputeStats(hs).completedToday + (if h.completedToday then 1 else 0)
    ensures ComputeStats(hs + [h]).longestStreak ==
      if hs == [] || h.streak > ComputeStats(hs).longestStreak then h.streak else ComputeStats(hs).longestStreak
  {
    assert (hs + [h])[..|hs|] == hs;
  }

  /** Changing one habit moves the completed count by the change of that habit's flag. */
  lemma {:induction false} CountCompletedUpdate(hs: seq<Habit>, i: nat, h: Habit)
    requires i < |hs|
    ensures CountCompleted(hs[i := h]) + (if hs[i].completedToday then 1 else 0) ==
      CountCompleted(hs) + (if h.completedToday then 1 else 0)
  {
    var last := |hs| - 1;
    assert hs[i := h][..last] == if i == last then hs[..last] else hs[..last][i := h];
    if i < last {
      CountCompletedUpdate(hs[..last], i, h);
    }
  }

  /** `toggleHabit` on a present id moves the completed count by exactly one, up when it completes
      and down when it un-completes; the total never changes. */
  lemma ToggleFirstStats(hs: seq<Habit>, id: int, today: string)
    ensures ComputeStats(ToggleFirst(hs, id, today)).total == ComputeStats(hs).total
    ensures FindFirst(hs, id).None? ==> ComputeStats(ToggleFirst(hs, id, today)) == ComputeStats(hs)
    ensures FindFirst(hs, id).Some? ==>
      var was := hs[FindFirst(hs, id).value].completedToday;
      ComputeStats(ToggleFirst(hs, id, today)).completedToday ==
        if was then ComputeStats(hs).completedToday - 1 else ComputeStats(hs).completedToday + 1
  {
    match FindFirst(hs, id)
    case None =>
    case Some(i) =>
      CountCompletedUpdate(hs, i, Toggle(hs[i], today));
  }

  /** `deleteHabit` lowers the total by the number of records that carried the id. */
  lemma WithoutStats(hs: seq<Habit>, id: int)
    ensures ComputeStats(Without(hs, id)).total == ComputeStats(hs).total - CountId(hs, id)
    ensures ComputeStats(Without(hs, id)).completedToday <= ComputeStats(hs).completedToday
  {
    WithoutLength(hs, id);
    var r := Without(hs, id);
    WithoutIsSubsequence(hs, id);
    SubsequenceCompleted(r, hs);
  }

  /** A subsequence has no more habits done today than the whole. */
  lemma {:induction false} SubsequenceCompleted(a: seq<Habit>, b: seq<Habit>)
    requires IsSubsequence(a, b)
    ensures CountCompleted(a) <= CountCompleted(b)
  {
    if b != [] {
      CountCompletedHead(b);
      if a != [] && a[0] == b[0] {
        CountCompletedHead(a);
        SubsequenceCompleted(a[1..], b[1..]);
      } else {
        SubsequenceCompleted(a, b[1..]);
      }
    }
  }

  /** The count, taken from the front: the head's flag plus the tail's count. */
  lemma {:induction false} CountCompletedHead(s: seq<Habit>)
    requires s != []
    ensures CountCompleted(s) == (if s[0].completedToday then 1 else 0) + CountCompleted(s[1..])
  {
    var n := |s|;
    if n == 1 {
      assert s[..0] == [] && s[1..] == [];
    } else {
      CountCompletedHead(s[..n - 1]);
      assert s[..n - 1][1..] == s[1..][..n - 2];
    }
  }
}
