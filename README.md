# Habit tracker: the habit list and its handlers

A Dafny model of the state logic of a single-page habit tracker
(`Habit_Tracker-Summative/script.js`). The page keeps a global, ordered list of habit records.
Each record has an id, a name, a streak counter, the date stamp of its last completion, and a
"done today" flag. Four handlers work on the list:

- `addHabit` trims the typed name. It ignores a name that is empty after trimming. Otherwise it
  appends a fresh record whose id is the clock reading.
- `deleteHabit` filters out every record with the given id.
- `toggleHabit` finds the first record with the given id and flips its flag. Completing adds 1 to
  the streak and stamps today's date. Un-completing takes 1 off, never going below 0, and keeps the
  old stamp.
- `updateStats` derives the total, the number done today and the longest streak.

Layout, one module per concern of the script:

- `text.dfy`, module `Text`: JavaScript's `String.prototype.trim` over ECMAScript white space and
  line terminators, with a proof that it yields exactly the slice between the leading and the
  trailing white space.
- `habits.dfy`, module `Habits`: the `Habit` record; the toggle state machine on one record; `find`
  by id (`FindFirst`); `filter` by id (`Without`). Also the lemmas about these functions.
- `stats.dfy`, module `Stats`: the three statistics and how each handler moves them.
- `tracker.dfy`, module `Tracker`: class `HabitTracker`, whose field `habits: seq<Habit>` is the
  global list, with one method per handler. Three client methods replay the usual scenarios; the
  two-habit scenario is split across `TwoHabitScenario` and `TwoHabitStatsScenario`.

The clock is a parameter: `Date.now()` becomes `now` in `AddHabit`, and
`new Date().toDateString()` becomes `today` in `ToggleHabit`.

Ids are not assumed unique. `addHabit` never checks them, and two adds in the same millisecond get
the same id. The model keeps the source's different treatment of duplicates: `DeleteHabit` removes
every record with the id, while `ToggleHabit` changes only the first one. `UniqueIds` is proved to
be preserved by every handler, and for `AddHabit` only when the new id is fresh.

The model follows the code on three points where the tracker's intended design could be read
otherwise:

- Ids are meant to be unique. The code does not ensure it.
- Toggling one habit twice does not give a streak of 2. The second toggle un-completes the habit,
  so the streak goes back to its old value. `Tracker.TwoHabitScenario`
  shows the code's behaviour.
- The longest streak is the plain maximum of the streaks. It is not clamped at 0, so a list read
  back from storage with negative streaks would show a negative figure.

## Model

| member | source | states |
|---|---|---|
| `Text.IsSpace` | Habit_Tracker-Summative/script.js:62 | the characters `trim` strips: ECMAScript WhiteSpace (TAB, VT, FF, SP, NBSP, ZWNBSP, the Space_Separator category) and LineTerminator (LF, CR, LS, PS); `Text.Trim` and `Text.TrimIsCore` state what trimming does with them |
| `Text.FirstNonSpace` | Habit_Tracker-Summative/script.js:62 | the scan for the start of the name stops at the first non-space, with only white space skipped, or at the end when there is none |
| `Text.EndOfText` | Habit_Tracker-Summative/script.js:62 | the backward scan for the end of the name stops just after the last non-space, with only white space skipped |
| `Text.Trim` | Habit_Tracker-Summative/script.js:62 | the trimmed name starts and ends with a non-space, and is empty exactly when the input is all white space (the `if (name)` test) |
| `Text.TrimIsCore` | Habit_Tracker-Summative/script.js:62 | for any cut of a string into spaces, a part that starts and ends with a non-space, and spaces, trim returns that part |
| `Text.TrimIdempotent` | Habit_Tracker-Summative/script.js:62 | trimming an already trimmed name changes nothing |
| `Habits.NewHabit` | Habit_Tracker-Summative/script.js:65-71 | the record `addHabit` builds: the clock reading as id, the trimmed name, streak 0, no stamp, not done; `Tracker.HabitTracker.AddHabit` and `Habits.AppendKeepsInvariants` state what appending it does |
| `Habits.Toggle` | Habit_Tracker-Summative/script.js:98-102 | the two-state update of one record; its contract is given by `Habits.ToggleFlips`, `Habits.ToggleCompletes` and `Habits.ToggleUncompletes` |
| `Habits.ToggleFlips` | Habit_Tracker-Summative/script.js:98-100 | a toggle keeps the id and the name and negates the done-today flag |
| `Habits.ToggleCompletes` | Habit_Tracker-Summative/script.js:98-102 | completing sets streak to old + 1 and the stamp to the supplied day |
| `Habits.ToggleUncompletes` | Habit_Tracker-Summative/script.js:98-102 | un-completing sets streak to max(0, old - 1) and leaves the stamp unchanged |
| `Habits.ToggleTwiceFromIncomplete` | Habit_Tracker-Summative/script.js:98-102 | two toggles from "not done" with a non-negative streak restore the flag and the streak, while the stamp keeps the first toggle's day |
| `Habits.ToggleKeepsStreakNonNegative` | Habit_Tracker-Summative/script.js:101 | a toggle never takes a non-negative streak below 0 |
| `Habits.FindFirst` | Habit_Tracker-Summative/script.js:94 | `find` by id returns the first position whose id matches (all earlier ones differ), or nothing exactly when no record has the id |
| `Habits.ToggleFirst` | Habit_Tracker-Summative/script.js:94-102 | `toggleHabit` on the list: toggle the first record with the id; its contract is given by `Habits.ToggleFirstFrame`, `Habits.ToggleFirstKeepsInvariants` and `Habits.ToggleFirstTwice` |
| `Habits.ToggleFirstTwice` | Habit_Tracker-Summative/script.js:94-102 | toggling the same id twice, from a first match that is not done and has a non-negative streak, gives back the list with only that record's stamp set to the first day |
| `Habits.ToggleFirstFrame` | Habit_Tracker-Summative/script.js:94-102 | after a toggle the length is the same, the first match is toggled, every other record is unchanged, and an unknown id changes nothing |
| `Habits.ToggleFirstKeepsInvariants` | Habit_Tracker-Summative/script.js:94-102 | a toggle keeps every streak non-negative and keeps unique ids unique |
| `Habits.Without` | Habit_Tracker-Summative/script.js:86 | a record is in the filtered list exactly when it was in the list and its id differs; the list does not grow |
| `Habits.WithoutAppend` | Habit_Tracker-Summative/script.js:86 | filtering distributes over concatenation, so the kept records stay in their original order |
| `Habits.WithoutIsSubsequence` | Habit_Tracker-Summative/script.js:86 | the filtered list is a subsequence of the old one, with records unchanged |
| `Habits.WithoutLength` | Habit_Tracker-Summative/script.js:86 | the length drops by the number of records carrying the id, so every duplicate goes |
| `Habits.WithoutAbsent` | Habit_Tracker-Summative/script.js:86 | deleting an id that no record carries leaves the list unchanged |
| `Habits.WithoutIdempotent` | Habit_Tracker-Summative/script.js:86 | deleting an id twice is the same as deleting it once |
| `Habits.WithoutKeepsInvariants` | Habit_Tracker-Summative/script.js:86 | deleting keeps every streak non-negative and keeps unique ids unique |
| `Habits.AppendKeepsInvariants` | Habit_Tracker-Summative/script.js:65-73 | appending a new record keeps streaks non-negative, and keeps ids unique when its id is fresh |
| `Stats.CountCompleted` | Habit_Tracker-Summative/script.js:161 | the count of habits done today is at most the list length |
| `Stats.MaxStreak` | Habit_Tracker-Summative/script.js:162 | the maximum over a non-empty list is at least every habit's streak and equals some habit's streak |
| `Stats.ComputeStats` | Habit_Tracker-Summative/script.js:159-163 | total is the length; done-today is the number of positions whose flag is set and is at most total; longest streak bounds every streak and is reached by one; an empty list gives 0, 0, 0 |
| `Stats.CountCompletedIsPositions` | Habit_Tracker-Summative/script.js:161 | the recursive count equals the size of the set of positions whose flag is set |
| `Stats.AppendStats` | Habit_Tracker-Summative/script.js:159-163 | after an append, total is one more, done-today grows by the new flag, and the longest streak is the larger of the old one and the new streak |
| `Stats.ToggleFirstStats` | Habit_Tracker-Summative/script.js:159-163 | a toggle keeps the total; on a found id done-today moves by exactly one (up when completing, down when un-completing); on an unknown id nothing changes |
| `Stats.WithoutStats` | Habit_Tracker-Summative/script.js:159-163 | a delete lowers the total by the number of matching records and never raises done-today |
| `Tracker.HabitTracker.constructor` | Habit_Tracker-Summative/script.js:2 | the tracker starts with an empty list, which satisfies the streak invariant |
| `Tracker.HabitTracker.AddHabit` | Habit_Tracker-Summative/script.js:61-76 | a name that is empty after trimming leaves the list unchanged; otherwise the length grows by one, earlier records are unchanged, and the new last record has id `now`, the trimmed name, streak 0, no stamp and is not done; non-negative streaks are kept, and so are unique ids when `now` is fresh |
| `Tracker.HabitTracker.DeleteHabit` | Habit_Tracker-Summative/script.js:85-90 | the list becomes the old one filtered by id; exactly the records with another id remain, in order and unchanged; the length drops by the number of matches; an absent id leaves the list unchanged; both invariants are kept |
| `Tracker.HabitTracker.ToggleHabit` | Habit_Tracker-Summative/script.js:93-108 | only the first record with the id changes, and the length stays the same. Completing gives streak + 1 and stamps `today`. Un-completing gives max(0, streak - 1) and keeps the stamp. An unknown id changes nothing, and both invariants are kept |
| `Tracker.HabitTracker.UpdateStats` | Habit_Tracker-Summative/script.js:159-163 | reports the length, the number done today (at most the length), and a longest streak that bounds every streak and is reached by one (0 when empty); when every streak is non-negative, so is the longest streak |

## Left out

- The page's DOM work is not modelled: element lookup, event listeners, focus, showing and hiding the add form, clearing the input, and the theme toggle (script.js:18-59, 78-80). It is presentation only.
- `renderHabits` (script.js:111-156) is not modelled. It builds HTML strings for the browser. An empty list takes a separate branch that shows only the empty-state placeholder.
- `saveHabits` and `loadHabits` (script.js:166-184) are not modelled. They rest on `JSON.stringify`, `JSON.parse`, `decodeURIComponent` and `document.cookie`, which are outside the model. No save/load round trip is claimed. The blob is written without URL-encoding, and only the text up to the next `=` is read back, so the code does not guarantee one.
- `Date.now()` and `new Date().toDateString()` are parameters (`now`, `today`), not clock reads.
- Numbers are unbounded integers. JavaScript's doubles lose precision above 2^53, which the model does not capture for ids or streaks.
- `Text.Trim` works on Unicode scalar values. JavaScript strings are UTF-16 code units. All white space that `trim` strips lies in the Basic Multilingual Plane, so only lone surrogates, which Dafny strings cannot hold, are not covered.
- Habit records are values. `toggleHabit` mutates the found object in place, and the model replaces the element at that position instead. No other reference to a record exists in the script, so the two agree. Aliasing between records is not represented.
- `Math.max.apply` over a very long list can exceed the engine's argument limit. The model has no such limit.
- No day rollover: the script never clears `completedToday` when the date changes, and the model does not either.
