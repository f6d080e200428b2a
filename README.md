# Habit tracker: completion aggregation, toggle, notes and habit forms in Dafny

This project models the logic of a React Native habit tracker whose data
lives in a remote document store, one set of collections per signed-in user:

- **Today screen** (`today.dfy`). Each refresh builds a seven-day window of
  per-day aggregates: `doneCount`, `totalCount`, `isAllDone` and `isToday`.
  It then derives the streak by walking the window from today backwards.
  The completion toggle adds a habit id to today's completed list or removes
  it from that list. The pure classifiers pick a habit's icon by keyword and
  a calendar cell's background and text colour from `(done, total)`. The
  task list and the "All Clear!" title are derived values.
- **Notes screen** (`notes.dfy`). Covers the case-insensitive search filter,
  the "Untitled Note" fallback and the "not both blank" save guard. It also
  covers the editor's form state (`noteTitle`, `noteBody`, `editingId`,
  `isInputVisible`) with its save, reset, edit and delete paths.
- **Schedule screen** (`schedule.dfy`). Covers the list built from the
  habits snapshot and the "all three fields non-blank" check. It also covers
  the habit form (`habitName`, `startTime`, `endTime`, `editingId`) with its
  add and edit branches, reset, edit and delete paths.

Supporting modules:

- `store.dfy` models the remote collections as maps held by small classes.
  These are `StatusStore`, from a day index to a `daily_status` document;
  `HabitCollection`; and `NoteCollection`. It also defines the semantics of
  the store's `arrayUnion` and `arrayRemove` field transforms.
- `common.dfy` gives the JavaScript string built-ins the screens use:
  `trim`, `toLowerCase` and `includes`.
- `jsnumber.dfy` gives JavaScript's `done / total`, kept exact as a fraction,
  `Infinity` or `NaN`. The colour functions follow the source's comparisons
  on that quotient, and their contracts restate each bucket by integer
  cross-multiplication.

Days are integer indices, with `today` the current one. Every remote write
has the same two outcomes: a success, or a failure that leaves the store
unchanged. The `writeOk` and `deleteOk` parameters pick between them.
Server timestamps are an integer `now`. The id the store assigns to an added
document is a parameter `newId` that is not yet in the collection. A store
`update` of a document that does not exist fails, as the store does.

Four behaviours of the code that are easy to miss:

- **Today's count.** The week uses a supplied list of today's completed ids
  when one is passed, even an empty one. Otherwise it reads today's document
  like any past day. This happens on every refresh triggered by the habits
  feed (src/screens/TodayScreen.jsx:63, 99-106).
- **`updatedAt` stamp.** Only the "add" branch of the toggle stamps
  `updatedAt`. The "remove" branch does not (src/screens/TodayScreen.jsx:141-146).
- **Stale ids.** `doneCount` is the length of the stored list, including ids
  of habits deleted since. A day can therefore be all done with a stale id
  standing in for an undone habit, and `doneCount` can exceed `totalCount`
  (src/screens/TodayScreen.jsx:105, 108).
- **Habit keys.** The Today screen writes the document id first and then
  spreads the data over it, so a stored `key` field would win. The Schedule
  screen does the reverse (src/screens/TodayScreen.jsx:56-60 and
  src/screens/ScheduleScreen.jsx:41-44). The app itself never stores `key`.

## Model

| member | source | states |
|---|---|---|
| `Common.Trim` | src/screens/ScheduleScreen.jsx:60 | `trim` returns a contiguous piece of its input with no whitespace at either end, and everything before and after that piece is whitespace, and is empty exactly when the input has no visible character |
| `Common.ToLower` | src/screens/TodayScreen.jsx:154 | `toLowerCase` keeps the length and maps each character independently |
| `Common.Includes` | src/screens/NotesScreen.jsx:97-98 | `includes` holds exactly when the needle occurs at some position; the empty needle occurs everywhere |
| `Common.Filter` | src/screens/NotesScreen.jsx:96-99 | `filter` returns an order-preserving subsequence whose elements all pass the test, each passing element kept as many times as it occurs and every other element dropped |
| `Common.FilterTwice` | src/screens/NotesScreen.jsx:96-99 | filtering twice with the same test is filtering once |
| `Store.CompletedOf` | src/screens/TodayScreen.jsx:105 | a missing status document or a missing `completed` field reads as the empty list; a present list is returned as stored, duplicates and stale ids included |
| `Store.StatusStore.Read` | src/screens/TodayScreen.jsx:102-104 | a point read returns the day's document exactly when the store holds one |
| `Store.ArrayUnion` | src/screens/TodayScreen.jsx:143-146 | `arrayUnion` makes the id present, adds no other id, appends it only when absent, and never introduces a duplicate |
| `Store.ArrayRemove` | src/screens/TodayScreen.jsx:141 | `arrayRemove` removes every occurrence of the id and keeps every other element with its multiplicity and in its order (the result is the subsequence whose multiset is the input's with the id's count set to 0); a list without the id is unchanged |
| `Store.MergeHabitFields` | src/screens/ScheduleScreen.jsx:72-76 | a merging update of a habit replaces its name, start and end and keeps `createdAt` and any stored key |
| `JsNumber.Divide` | src/screens/TodayScreen.jsx:167 | `done / total` is the fraction done/total exactly when `total > 0`, `NaN` exactly for 0 / 0, and `Infinity` otherwise |
| `Today.TrailingAllDone` | src/screens/TodayScreen.jsx:121-128 | the run length n of all-done days at the end of a list: all of the last n days are all done, and the day before them (if any) is not |
| `Today.TrailingAllDoneExact` | src/screens/TodayScreen.jsx:121-128 | the run length is the unique n whose last n days are all done and whose preceding day is not |
| `Today.CalculateWeekAndStreak` | src/screens/TodayScreen.jsx:84-132 | the window has 7 entries dated today-6 .. today, oldest first. Only the last is today. Every `totalCount` is the number of habits and `isAllDone` holds iff `totalCount > 0 && doneCount == totalCount`. Past `doneCount`s are the stored list lengths (0 when missing); today's is the override's length when one is given. The streak equals `Streak(days)`, is at most 7, and is 0 with no habits |
| `Today.StreakBounds` | src/screens/TodayScreen.jsx:121-128 | the streak is at most 7 and at least the run of earlier days. An unfinished today neither adds to that run nor breaks it; a finished today extends it by one |
| `Today.StreakWithoutHabits` | src/screens/TodayScreen.jsx:89-128 | with zero habits no day is all done and the streak is 0 |
| `Today.StreakPartialToday` | src/screens/TodayScreen.jsx:121-128 | six finished past days with an unfinished today give a streak of 6 |
| `Today.StreakBrokenTwoDaysBack` | src/screens/TodayScreen.jsx:121-128 | an unfinished day two days back caps the streak at today (if done) plus yesterday (if done) |
| `Today.ToggledIds` | src/screens/TodayScreen.jsx:136-146 | toggling flips the membership of the given id only; every other id keeps its membership; a duplicate-free list stays duplicate-free |
| `Today.ArrayRemoveAppended` | src/screens/TodayScreen.jsx:141-146 | removing an id just appended to a list without it gives back the list |
| `Today.ToggleTwice` | src/screens/TodayScreen.jsx:134-146 | toggling the same id twice restores the set of completed ids, and restores the exact list when the id was absent |
| `Today.ToggleTask` | src/screens/TodayScreen.jsx:134-151 | with no user, or a failed write, nothing changes. An id the screen shows as completed is removed from today's document, and a remove on a missing document changes nothing. Any other id is merged into today's document with `updatedAt` stamped. Other days are untouched. When the screen's list matches the stored one, the stored list becomes `ToggledIds` of it |
| `Today.FirstMatchWins` | src/screens/TodayScreen.jsx:153-161 | when rule k is the first rule that matches, the table lookup returns rule k's icon |
| `Today.FirstMatchNone` | src/screens/TodayScreen.jsx:160 | when no rule matches, the table lookup returns the default icon |
| `Today.IconChainIsFirstMatch` | src/screens/TodayScreen.jsx:155-160 | the source's if-chain agrees with first-match lookup in the ordered table gym/workout, read, code/dev, water, meditat |
| `Today.IconForHabit` | src/screens/TodayScreen.jsx:153-161 | the icon is that of the first matching rule for the lower-cased name, with a missing name read as "" |
| `Today.IconIgnoresCase` | src/screens/TodayScreen.jsx:154 | a name and its lower-cased form get the same icon |
| `Today.ColorForDay` | src/screens/TodayScreen.jsx:163-174 | total 0 gives background and done 0 gives danger. Otherwise done/total ≤ 1/4, ≤ 1/2, ≤ 3/4 and < 1 give green100, green300, green500 and green700 in turn, and done ≥ total gives green900. Each bucket is stated as an integer inequality, with boundary values in the lower bucket |
| `Today.ColorMonotone` | src/screens/TodayScreen.jsx:163-174 | for a fixed total, more completions never give a lighter bucket |
| `Today.AllDoneIsDarkest` | src/screens/TodayScreen.jsx:108 | an all-done day is drawn green900 |
| `Today.TextColorForDay` | src/screens/TodayScreen.jsx:176-181 | the text is dark exactly when total > 0 and 0 < done/total < 1/2; done 0, and total 0 with done > 0 (an infinite ratio), give white |
| `Today.DarkTextOnLightCells` | src/screens/TodayScreen.jsx:163-181 | dark text only appears on green100 or green300 cells |
| `Today.LoadHabits` | src/screens/TodayScreen.jsx:55-60 | one habit per document in order, with every stored field (name, start, end, `createdAt`) copied; a stored `key` wins over the document id; the icon comes from the name |
| `Today.Tasks` | src/screens/TodayScreen.jsx:185 | one task per habit in order, completed iff the habit's key is in today's completed ids |
| `Today.AllClear` | src/screens/TodayScreen.jsx:232 | "All Clear!" shows iff the completed count equals the habit count and there is at least one habit, which is the all-done test of today's cell and implies the green900 colour |
| `Notes.FilteredNotes` | src/screens/NotesScreen.jsx:96-99 | the result is an order-preserving subsequence of the notes. Every kept note matches the lower-cased search in its lower-cased title or content, and every matching note is kept as many times as it occurs |
| `Notes.EmptySearchKeepsAll` | src/screens/NotesScreen.jsx:96-99 | an empty search keeps every note |
| `Notes.FilterIdempotent` | src/screens/NotesScreen.jsx:96-99 | filtering the filtered list again with the same search changes nothing |
| `Notes.DisplayTitle` | src/screens/NotesScreen.jsx:104 | the card title is never empty: the title, or "Untitled Note" when the title is empty |
| `Notes.CanSaveNote` | src/screens/NotesScreen.jsx:50 | saving proceeds iff the title or the body has a non-whitespace character |
| `Notes.NotesEditor.constructor` | src/screens/NotesScreen.jsx:25-28 | the editor starts empty, not editing and hidden |
| `Notes.NotesEditor.ShowInput` | src/screens/NotesScreen.jsx:148 | the "+" button shows the editor and leaves the form fields as they were |
| `Notes.NotesEditor.ResetForm` | src/screens/NotesScreen.jsx:71-76 | title and body are emptied, `editingId` cleared and the editor hidden |
| `Notes.NotesEditor.StartEditing` | src/screens/NotesScreen.jsx:89-94 | the note's title, content and id are loaded and the editor shown |
| `Notes.NotesEditor.SaveNote` | src/screens/NotesScreen.jsx:49-69 | two blank fields skip the save, with no write. With `editingId` set the note is overwritten; otherwise a new note is added. A failed write (or an update of a vanished note) leaves store and form unchanged; only success resets the form |
| `Notes.DeleteNote` | src/screens/NotesScreen.jsx:78-87 | a confirmed delete that lands removes exactly that note; otherwise the collection is unchanged |
| `Schedule.CollectHabits` | src/screens/ScheduleScreen.jsx:38-46 | one row per document in snapshot order; the row's key is the document id, overriding any stored key, and the other fields are copied |
| `Schedule.HabitFieldsComplete` | src/screens/ScheduleScreen.jsx:60-63 | saving proceeds iff name, start and end each have a non-whitespace character |
| `Schedule.HabitForm.constructor` | src/screens/ScheduleScreen.jsx:22-26 | the form starts with three empty fields and no `editingId` |
| `Schedule.HabitForm.ResetForm` | src/screens/ScheduleScreen.jsx:123-129 | the three fields are emptied and `editingId` cleared |
| `Schedule.HabitForm.EditPress` | src/screens/ScheduleScreen.jsx:93-98 | the row's name, start and end are loaded and `editingId` set to its key |
| `Schedule.HabitForm.DeletePress` | src/screens/ScheduleScreen.jsx:100-121 | a confirmed delete removes the habit when the write lands. It resets the form exactly when the deleted habit was being edited; otherwise the form is unchanged |
| `Schedule.HabitForm.WriteHabit` | src/screens/ScheduleScreen.jsx:71-85 | the write lands exactly when the store accepts it and, in edit mode, the habit still exists. An edit merges the form's fields into that habit, an add creates the habit under the new id stamped `createdAt`, and a failed write changes nothing |
| `Schedule.HabitForm.SaveHabit` | src/screens/ScheduleScreen.jsx:54-91 | without a user, or with a blank field, the save is rejected with no write. An edit updates only name, start and end of that habit, keeping `createdAt`; an add creates a habit stamped `createdAt`. A failure leaves store, fields and `editingId` as they were; only success resets the form |

## Left out

- Live subscriptions (`onSnapshot`), their unsubscribe functions and the
  async/await plumbing are not modelled. `CalculateWeekAndStreak` takes its
  inputs explicitly instead. This also leaves out the status-feed callback's
  stale closure over the initial empty habit list
  (src/screens/TodayScreen.jsx:72), which stops status updates from
  triggering a recompute.
- Calendar details are not modelled: `toISOString` date keys (UTC), the
  weekday and day-of-month labels and the header date. Days are integer
  indices.
- Query ordering (`orderBy` on `startTime`, `createdAt` or `updatedAt`) is
  not modelled: snapshots are taken in the order the store delivers them.
- The notes snapshot mapping and the "Just now" date label are not modelled.
- `CircularProgress` is not modelled: it is floating-point SVG geometry.
- Colour hex values and styles are not modelled: colours and icons are enum
  constants.
- `Alert`, `Keyboard.dismiss` and `console` side effects are not modelled.
- Concurrent writers and the store's last-write-wins behaviour are not
  modelled: each write succeeds or fails as a whole.
- The sign-in, settings and navigation screens are not modelled. They hold
  authentication I/O, display fallbacks and route configuration only.
- `handleSaveNote` never checks for a signed-in user. The model is the
  signed-in user's collection only.
- Common.ToLower: only ASCII letters are mapped; full Unicode case mapping
  is not modelled.
- Today.ColorForDay: compares the exact fraction, not the double-precision
  quotient. For realistic habit counts the two fall on the same side of
  each threshold.
- Today.TextColorForDay: compares the exact fraction, not the
  double-precision quotient.
- Today.CalculateWeekAndStreak: point reads of `daily_status` are modelled
  as never failing. In the source an awaited read that rejects is not
  caught, so the refresh stops before the window and streak are set and
  the previous ones stay on screen.
- Today.ToggleTask: apart from the update of a missing document, failures
  are the abstract `writeOk` flag. The order of ids after a remove followed
  by an add is not restored (the id moves to the end), so only the set is.
