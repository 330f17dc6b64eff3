# life_tracker task tracker — a Dafny model

life_tracker is an Electron desktop app. Its renderer keeps a small in-memory
task tracker inside its DOM event handlers. This project models that tracker
and proves properties about it:

- **List registry** — colour-coded lists, a lazily created "Default" list,
  and a ten-colour palette in which each list holds its own colour.
- **Task store** — tasks with a name, due text, reminder, list, creation
  time and completion flag. They are appended by the save handler and
  flipped by a click on their card.
- **Ordering and aggregation** — the displayed order puts incomplete tasks
  before completed ones. Each group is sorted by due time, with creation
  time breaking ties. Each list also has a completion percentage.
- **Due-date monitor** — a poll that brings up the first due, incomplete
  task that has not been alerted yet. It adds that task to a dedup set that
  only grows. The Done button only hides the alert.

Layout, one module per file:

| file | module | what |
|---|---|---|
| wrappers.dfy | Wrappers | `Option`, `Result` |
| text.dfy | Text | ECMAScript `String.prototype.trim` |
| records.dfy | Records | `TaskList`, `Task`, `IsDue`, `Toggled` |
| palette.dfy | Palette | preset colours, used/available colours, colour distinctness |
| ordering.dfy | Ordering | comparator, filter, stable sort, displayed order |
| progress.dfy | Progress | per-list percentage |
| monitor.dfy | Monitor | due-task filter, first-unalerted search |
| tracker.dfy | Tracker | class `TaskTracker`: the mutable state and its handlers |

The state that the source mutates in place (`lists`, `tasks`,
`alertedTaskIds` and the alert screen's hidden flag) lives in the fields of
`Tracker.TaskTracker`. Its methods say exactly what the new state is in terms
of the pure functions of the other modules. The lemmas about those functions
carry the properties.

Replacements for host behaviour:

- `genId` becomes the counter `nextId`.
- `Date.now()` for `createdAt` becomes the strictly increasing counter
  `nextStamp`.
- `new Date(due)` becomes the `dueAt: Option<int>` field, which the caller
  supplies, with `None` for an invalid date.
- The current time of a poll becomes the `now` parameter.

Three places where the code enforces less than a reader might assume; the
model follows the code:

- The save-list handler does not reject a colour already in use (renderer.js:253-264). Only the picker keeps used colours from
  being selected (renderer.js:51-60). So `CreateList` *requires* the selected
  colour to be an available one, rather than returning an error.
- Toggling works on the task object the card was built from
  (renderer.js:165-166), so there is no "task not found" case. `Toggle(i)`
  requires a valid index.
- An unparseable due time takes no part in the due-time comparison. The date difference is
  NaN, which is falsy, so the comparator falls through to the creation times
  (renderer.js:145). An invalid date is also never due, because
  `Invalid Date <= now` is false (renderer.js:181).

## Model

| member | source | states |
|---|---|---|
| Text.Trim | renderer.js:229 | the trimmed name is a contiguous slice of the input with only white space cut off before and after it; it is empty exactly when every character of the input is ECMAScript white space, and otherwise starts and ends with a non-space character |
| Text.TrimIdempotent | renderer.js:254 | trimming an already trimmed name changes nothing |
| Palette.UsedColours | renderer.js:51 | a colour is used exactly when some list holds it |
| Palette.AvailableColours | renderer.js:52-60 | the picker offers a colour exactly when it is a preset colour that no list holds |
| Palette.PreselectedColour | renderer.js:66-68 | a pre-selection, when there is one, is the first preset colour and is offered; there is one exactly when no list holds the first preset colour |
| Palette.AddAvailableKeepsDistinct | renderer.js:253-264 | adding a list whose colour the picker offered keeps all list colours pairwise distinct and inside the palette |
| Palette.ColourTakenAfterAdd | renderer.js:51-60 | once a list takes a colour the picker stops offering it, and every other colour keeps its availability |
| Palette.ListCountBounded | renderer.js:43-46 | with distinct palette colours there are at most as many lists as preset colours (ten) |
| Records.IsDue | renderer.js:181 | a task is due exactly when it is incomplete and its valid due time is at or before now; a task with an invalid date, or a completed task, is never due |
| Records.Toggled | renderer.js:166 | flipping task i changes its completion flag and nothing else: every other field of task i and every other task stay the same |
| Records.ToggleTwice | renderer.js:166 | two clicks on the same card restore the store |
| Ordering.CompareMeansKeyLe | renderer.js:145 | on valid dates the comparator is at most 0 exactly when (due, createdAt) is lexicographically at most the other's |
| Ordering.Compare | renderer.js:145 | two valid, different due times decide the order by due time; in every other case (an invalid date, or equal due times) the creation times decide, and the result is 0 exactly when they are equal |
| Ordering.WithStatus | renderer.js:144 | keeps exactly the tasks with the given completion flag |
| Ordering.Insert | renderer.js:145 | inserting a task adds exactly that task to the sorted sequence's contents |
| Ordering.Sort | renderer.js:145 | the sorted sequence is a permutation of its input |
| Ordering.Ordered | renderer.js:144-148 | the displayed order is a permutation of the task store |
| Ordering.IncompleteBeforeCompleted | renderer.js:144-148 | the displayed tasks before the split point are exactly the incomplete ones, so every incomplete task precedes every completed one |
| Ordering.GroupsSortedByDue | renderer.js:145-147 | when every due date is valid, each group is in ascending due order, with equal due times in ascending creation order |
| Progress.TasksOf | renderer.js:114 | keeps exactly the tasks that belong to the given list |
| Progress.DoneCount | renderer.js:115 | the count is 0 exactly when no task is completed and equals the length exactly when all are |
| Progress.RoundPercent | renderer.js:116 | the percentage is in 0..100 and is the nearest whole percent to 100·done/total, halves rounding up; 0 when nothing is done and 100 when everything is |
| Progress.Percent | renderer.js:114-116 | a list's percentage is in 0..100; 0 when it has no done tasks (including no tasks at all); 100 when it has tasks and all are done; with N > 0 tasks of which K are done, it is round-half-up(100·K/N), i.e. 2N·pct ≤ 200K + N < 2N·(pct + 1) |
| Progress.RoundPercentMonotonic | renderer.js:116 | more done tasks out of the same total never give a lower percentage |
| Progress.ToggleCounts | renderer.js:114-115 | a toggle keeps every list's task count. It moves its own list's done count by one in the direction of the flip and leaves other lists' done counts alone |
| Progress.CompletingRaisesPercent | renderer.js:114-116 | completing a task never lowers a list's percentage and leaves the percentages of the other lists unchanged |
| Monitor.DueTasks | renderer.js:181 | keeps exactly the stored tasks that are due at `now` |
| Monitor.FindUnalerted | renderer.js:188 | finds nothing exactly when every due task's id is in the dedup set; otherwise finds a due task whose id is not in it |
| Monitor.Pick | renderer.js:181-188 | a picked task is a stored task that is due and not yet alerted |
| Monitor.PickStep | renderer.js:188 | the search picks the first task of the store when it is alertable and otherwise continues in the rest, so store order decides |
| Monitor.PickIsFirstAlertable | renderer.js:181-188 | a poll picks nothing exactly when no task is incomplete, due and unalerted; otherwise it picks the first such task in store order, whatever the due times of later tasks |
| Monitor.NeverRealerted | renderer.js:188-199 | a task whose id is in the dedup set is never picked again, at any time |
| Monitor.NothingDueNothingPicked | renderer.js:181-185 | when no incomplete task is due, the due list is empty and nothing is picked |
| Tracker.TaskTracker.constructor | renderer.js:11-13 | start-up gives no tasks, an empty dedup set, a hidden alert and the single "Default" list in the first preset colour |
| Tracker.TaskTracker.EnsureDefaultList | renderer.js:74-78 | adds one "Default" list in the first preset colour exactly when there is none and otherwise changes nothing; afterwards a list exists, so a second call is a no-op |
| Tracker.TaskTracker.CreateList | renderer.js:253-264 | rejects a blank trimmed name or a missing colour without any change; otherwise appends exactly one list with a fresh id, the trimmed name and the selected colour, keeping colours distinct; tasks and alert state are unchanged |
| Tracker.TaskTracker.SaveTask | renderer.js:228-249 | rejects a blank trimmed name or an empty due text without any change. Otherwise it appends exactly one incomplete task with a fresh id and the next creation time, in the selected list or else the first list, then polls; lists and earlier tasks are unchanged |
| Tracker.TaskTracker.AppendTask | renderer.js:236-248 | the store gains exactly the given task at its end, the id and creation-time counters advance by one, the alert state is the one the poll at `now` leaves, and lists are unchanged |
| Tracker.TaskTracker.Toggle | renderer.js:165-166 | the store becomes `Toggled(old store, i)`; lists, dedup set and alert state are unchanged |
| Tracker.TaskTracker.Poll | renderer.js:179-200 | shows the picked task and adds exactly its id to the dedup set, or hides the alert and leaves the set alone when nothing is picked; the set never shrinks; lists and tasks are unchanged |
| Tracker.TaskTracker.Acknowledge | renderer.js:202-204 | hides the alert and changes nothing else |
| Tracker.AppendTaskConsistent | renderer.js:235-244 | appending a task with a fresh id, the next creation time, an existing list and non-empty name and due keeps the tracker's invariant |
| Tracker.DefaultListConsistent | renderer.js:74-78 | with no list the lazy "Default" list in the first preset colour, under the next id, satisfies the tracker's invariant |
| Tracker.ToggleConsistent | renderer.js:166 | flipping one task's completion keeps the tracker's invariant |
| Tracker.AppendListConsistent | renderer.js:260-264 | appending a list with a fresh id, a non-empty name and an offered colour keeps the tracker's invariant (distinct ids, distinct palette colours, valid task lists) |

## Left out

- DOM construction, styling and text are not modelled (renderer.js:1-8, 49-72 apart from the used-colour set and the pre-selection, 80-93, 99-109, 118-138, 150-164, 167-175, 194-197, 206-226). This covers the intro screen, the swatch elements and their click handlers in `buildColorChoices`, `refreshTaskListSelect`, `closeForms`, `getDarkColor`, `formatDT`, the card colour lookup with its `#555` fallback and the alert card's HTML. `Poll` returns the task whose name and due text the card would show.
- `genId` uses `Math.random` and `Date.now`. It is replaced by a counter, which makes ids unique by construction.
- `createdAt` is a strictly increasing counter, not a wall-clock reading. Two tasks saved in the same millisecond would tie in the source.
- Date parsing is host-library behaviour. The parse result is a parameter of `SaveTask`, and `None` stands for an invalid date.
- The 30-second `setInterval` and the `setTimeout` after a click are timer plumbing. Callers invoke `Poll` explicitly, and `Toggle` itself does not poll. `SaveTask` does poll, as its handler calls the check synchronously.
- `alert()` pop-ups become the `Rejection` values of a `Failure` result.
- The `slice(0, 3)` display cap on progress rings is presentation only. `Progress.Percent` takes any list.
- The initial visibility of the alert screen comes from markup that is not part of this model. The constructor starts with the alert hidden.
- `SaveTask` requires a non-empty registry and a selected list id that exists. The form opens only after `ensureDefaultList` (renderer.js:212), and the select box offers only existing list ids (renderer.js:80-88).
- Progress.RoundPercent: it computes round-half-up exactly with integers, `(200·done + total) / (2·total)`. The source's floating-point `Math.round((done / total) * 100)` can differ by one where the quotient lands within rounding error of a half.
- Ordering.GroupsSortedByDue: sortedness is stated only when every due date is valid. With a mix of valid and invalid dates the comparator can be inconsistent (a cycle such as b < a < c < b), and the engine's sort output is then unspecified.
- Ordering.Sort: the engine's sort algorithm is replaced by a stable insertion sort. For a consistent comparator every stable sort gives the same output. With an inconsistent one, only the permutation and partition properties are claimed.
