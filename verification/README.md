# To-do list core, modelled in Dafny

This project models the logic of a single-page to-do list app (`app.js`). The
page keeps its tasks in memory as an array. Each task has an `id` taken from
`Date.now()`, a `title`, a `completed` flag and an ISO-8601 `createdAt`
timestamp. The user can add a task through a form, tick its checkbox to toggle
it, or delete it. After every change the list is re-rendered: either an
"empty state" panel or one row per task. Three counters are shown below it:
total, active and completed.

Here the array is an immutable `seq<Task>`. Each operation is a pure function
that returns the list the page holds afterwards. The rendered page is a value,
not markup.

- `text.dfy` (module `Text`): JavaScript's `trim`, using the ECMAScript
  WhiteSpace and LineTerminator code points, and `split` with a one-character
  separator, together with `Join`, its inverse.
- `todos.dfy` (module `Todos`): the `Task` record, `addTask`, `toggleTodo`
  and `deleteTodo`.
- `stats.dfy` (module `Stats`): `updateStats`.
- `render.dfy` (module `Render`): `renderTasks`, as a choice between
  `EmptyState` and a sequence of rows. Each row carries the task's id,
  checkbox state, title and date; the screen also carries the three
  counters.
- `submit.dfy` (module `Submit`): the form's submit handler. It trims the
  input, drops a blank title, and otherwise adds the escaped title.
- `scenarios.dfy` (module `Scenarios`): concrete runs written as lemmas.

Ids are NOT assumed to be unique. Two tasks created in the same millisecond
share an id. `toggleTodo` uses `find`, so it flips only the first of them.
`deleteTodo` uses `filter`, so it removes all of them. The model keeps that
difference, and `Scenarios.SameMillisecond` shows it.

`app.js` has no search, status filter, renaming or persistence. It has a
single empty-state message, and nothing in it makes ids unique. None of these
are modelled.

## Model

| member | source | states |
|---|---|---|
| Todos.AddTask | app.js:12-20 | the new list is one longer; its head is a not-completed task with the given id, title and timestamp; its tail is the old list unchanged |
| Todos.FindIndex | app.js:26 | `find` returns nothing exactly when no task has the id, and otherwise the position of the first task with it |
| Todos.Toggle | app.js:25-29 | same length; a list without the id is returned unchanged; otherwise the first task with the id has `completed` negated (id, title, timestamp kept) and every other position is unchanged |
| Todos.ToggleKeepsFirstMatch | app.js:26-29 | after toggling, `find` on the same id stops at the same position |
| Todos.ToggleInvolution | app.js:29 | toggling the same id twice restores the original list |
| Todos.ToggleAfterAddHitsNewest | app.js:14-29 | if a new task reuses an existing id, toggling that id flips the new head task and leaves the older tasks untouched |
| Todos.Matching | app.js:34 | the tasks with the given id, in list order: exactly the ones `filter` rejects |
| Todos.MatchingAppend | app.js:34 | the matches of a concatenation are the matches of each half in turn: with the singleton cases this fixes their order and multiplicity |
| Todos.Delete | app.js:33-34 | a task survives iff it was in the list and has a different id; no survivor has the id; an absent id changes nothing; the list shrinks iff the id was present, by exactly the number of tasks with it |
| Todos.DeleteIsSubsequence | app.js:34 | the survivors keep their original relative order |
| Todos.DeleteAppend | app.js:34 | deleting from a concatenation is the concatenation of the two deletions |
| Todos.DeleteIdempotent | app.js:34 | deleting the same id twice equals deleting it once |
| Todos.DeleteCommutes | app.js:34 | two deletions give the same list in either order |
| Todos.DeleteUndoesAdd | app.js:12-34 | deleting an id right after adding a task with it equals deleting it from the old list, and restores the old list when the id was not in use |
| Stats.Where | app.js:41-42 | the tasks with the given completion flag: a task is kept iff it is in the list with that flag |
| Stats.WherePartitions | app.js:41-42 | the active and the completed tasks together number the whole list |
| Stats.Of | app.js:39-42 | total is the list length and active + completed == total; active is 0 iff all tasks are done, and completed is 0 iff none is |
| Stats.OfCons | app.js:40-42 | a task in front of a list adds one to the total and one to the active or the completed counter according to its flag, which fixes every counter for every list |
| Stats.WhereAppend | app.js:41-42 | filtering by completion flag works piecewise over a concatenation |
| Stats.AddTaskCounts | app.js:16-20 | adding a task raises total and active by one and leaves completed as it was |
| Stats.ToggleCounts | app.js:26-29 | toggling a present id keeps the total and moves exactly one task between active and completed, in the direction given by the first match's old flag |
| Stats.DeleteCounts | app.js:34-42 | deleting lowers total, active and completed by the number of removed tasks in each class |
| Text.Trim | app.js:89 | the result is a slice of the input with only whitespace before and after it, and it neither starts nor ends with whitespace; it is empty iff the input is all whitespace |
| Text.TrimmedAtUnique | app.js:89 | only one slice satisfies the trim description (white before and after, not white at either end), so any such slice is what `trim` returns |
| Text.TrimIdempotent | app.js:89 | trimming twice equals trimming once |
| Text.TrimIgnoresPadding | app.js:89 | whitespace added on either side does not change the trimmed text |
| Text.Split | app.js:73 | `split` yields at least one part; no part contains the separator; joining the parts with the separator gives back the input |
| Text.SplitUnique | app.js:73 | any separator-free decomposition that joins back to the string is the split: split and join are inverses both ways |
| Text.FirstPartIsPrefix | app.js:73 | the first part is a separator-free prefix of the string, and either it is the whole string or the separator follows it |
| Render.DatePrefix | app.js:73 | `createdAt.split("T")[0]` is a prefix of the timestamp that contains no 'T', and it is either the whole timestamp or followed by a 'T' |
| Render.RowsOf | app.js:68-79 | the `todos.map(...)` of the row template: as many rows as tasks, and row i is the row of task i (its id, flag, title and `DatePrefix` of its timestamp) |
| Render.RenderAfterAdd | app.js:12-22 | after an add the page shows rows, the new task's row (unticked, its title and date) first and the previously shown rows below it |
| Render.DatePrefixIgnoresTime | app.js:73 | for a date part without a 'T', the shown date is that date part, whatever time follows the 'T' |
| Render.Render | app.js:52-81 | the empty state is shown iff the list is empty; otherwise there is one row per task, in list order, with that task's id, checkbox state and title, and as date `DatePrefix(createdAt)`, the longest 'T'-free prefix; the counters are exactly `Stats.Of` of the whole list, so active + completed == total == the list length |
| Submit.Submit | app.js:87-91 | an all-whitespace input leaves the list unchanged; any other input adds one not-completed task at the head, with the clock's id and timestamp, titled with the escaped trimmed input, and leaves the rest of the list unchanged |
| Submit.SubmitIgnoresPadding | app.js:89-91 | whitespace around the typed title does not change the resulting list |
| Scenarios.AddTwoThenToggle | app.js:12-42 | adding "Buy milk" then "Walk dog" puts "Walk dog" first; after toggling it the counters are 2 / 1 / 1 and the only active task is "Buy milk" |
| Scenarios.SameMillisecond | app.js:14-34 | with two tasks sharing an id, toggle flips only the first and delete removes both |
| Scenarios.BlankTitleIgnored | app.js:89-90 | submitting spaces and a tab leaves the list unchanged |
| Scenarios.IsoTimestampShowsDate | app.js:73 | the row for a task created at "2024-05-01T09:30:00.000Z" shows the date "2024-05-01" |
| Scenarios.EmptyListScreen | app.js:1-83 | the initial empty list renders the empty state with all counters at zero |

## Left out

- DOM lookups, `innerHTML` template strings, the SVG and CSS classes, and
  event-listener wiring (app.js:4-9, 54-63, 68-79, 87-104) are UI plumbing.
  Only the choice between the empty state and rows, and each row's contents,
  are modelled. The `join('')` of row markup is not modelled.
- `escapeHTML` (app.js:46-50) relies on the browser's DOM serializer. It is
  the parameter `escape` of `Submit.Submit`, and titles are treated as opaque,
  already-escaped strings.
- `Date.now()` and `new Date().toISOString()` (app.js:14, 17) are the
  parameters `id`/`now` and `createdAt`/`isoNow`. No clock is modelled, so
  nothing is claimed about a timestamp's format beyond the 'T' split.
- Ids are unbounded integers. The click handler's numeric parsing of
  `dataset.id` (app.js:96, 101) is left out. So is the `NaN` it can produce,
  which matches no task.
- Clearing the input field after adding a task (app.js:21) is UI state.
- In the code, `toggleTodo` mutates the found task object in place, and
  every operation that changes the list then re-renders it. (`toggleTodo`
  returns at app.js:27 without rendering when no task has the id; the list is
  then unchanged.) The model returns a new list instead, and rendering is a
  separate function of that list. This is equivalent, because each task
  object is in the array exactly once.
- Dafny strings are sequences of Unicode scalar values, while JavaScript
  strings are UTF-16 code units. This makes no difference here: every code
  point `trim` removes lies in the Basic Multilingual Plane, and the date is
  cut at the ASCII letter 'T'.
