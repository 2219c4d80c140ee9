# To-do list: the task state of TodoApp

The application is a browser to-do list. One `TodoApp` object owns:

- the task list, in display order;
- the counter that hands out task ids;
- a running point total;
- a mood level from 1 to 10.

Users add, complete, un-complete, delete and clear tasks. Completing a task earns its reward, plus a bonus of 5 when its deadline has not passed. Un-completing takes the reward back, never going below 0. Every minute a timer takes 5 points and one mood level per open task whose deadline has passed. The page shows:

- the counts of tasks;
- a progress percentage;
- a mood face chosen from a table over that percentage;
- an urgency class on each deadline.

This project models that core. It has six modules:

- `Text`: `String.prototype.trim`, as `addTask` applies it to the input.
- `Tasks`: the task record and the pure queries over a task list. These are:
  - the reward rules of `awardPoints`/`removePoints`;
  - `findIndex` by id;
  - `getTaskStats`;
  - the `clearCompleted` filter;
  - `getDeadlineClass`;
  - the overdue filter of `checkOverdueTasks`.
- `Mood`: the progress formula of `updateProgress` and the branch table of `updateMood`. It is related to an integer reference that compares `completed` against the thresholds without dividing.
- `Store`: the four fields as a value `AppState`, with one function per operation giving the new state. It also holds the invariant every operation keeps and the lemmas relating the operations to each other. The invariant covers:
  - ids increase along the list, so they are unique;
  - every id lies below the counter;
  - points are never negative;
  - the mood level lies within 1 to 10.
- `Persistence`: the fallback rules `loadTasks` applies to what `saveTasks` stored.
- `App`: class `TodoApp` with the four fields. Its methods update them in place:
  - each operation method is proved to produce the new state its `Store` function describes and to keep the invariant;
  - loading is proved to apply the fallback rules; the invariant is established only for missing or unparsable storage, because `loadTasks` takes a parsed record's values unchecked;
  - `AwardPoints` and `RemovePoints` change only the point total;
  - `UpdateProgress` changes nothing and returns the percentage and the mood.

  `checkOverdueTasks` keeps its loop, one penalty round per overdue task.

The clock is a parameter `now`, an integer count of milliseconds. A deadline is an optional integer in the same unit.

## Model

| member | source | states |
|---|---|---|
| Text.Trim | script.js:77 | the trimmed text is empty exactly when the input is whitespace only (the ECMAScript whitespace and line-terminator set); otherwise it neither starts nor ends with whitespace |
| Text.TrimIdempotent | script.js:77 | trimming an already trimmed text changes nothing |
| Tasks.BaseValue | script.js:341 | the task's reward, or 10 when that reward is 0: never 0, and positive for a non-negative reward |
| Tasks.AwardValue | script.js:340-350 | the award is the base value, plus 5 exactly when the task has a deadline and `now` is not after it |
| Tasks.FirstIndex | script.js:112 | -1 exactly when no task carries the id; otherwise the position of the first task that carries it |
| Tasks.CountCompleted | script.js:263 | the completed count is at most the length; it is 0 exactly when no task is completed, and the length exactly when all are |
| Tasks.GetTaskStats | script.js:261-267 | total is the list length, total = completed + remaining, none negative, and completed/remaining are 0 exactly when no task / every task is completed |
| Tasks.Incomplete | script.js:449 | the kept tasks are exactly the incomplete ones, as many as the stats call remaining |
| Tasks.IncompleteKeepsOrder | script.js:449 | the filter keeps the incomplete tasks in their original relative order |
| Tasks.GetDeadlineClass | script.js:386-396 | 'overdue' exactly for an open task whose deadline is before `now`; 'due-soon' exactly for an open task due within the next 24 hours; no class otherwise |
| Tasks.IsOverdue | script.js:381-383 | a deadline is overdue exactly when the current time is strictly after it; the deadline instant itself is not overdue |
| Tasks.OverdueStaysOverdue | script.js:381-383 | once a deadline is overdue it stays overdue at every later time |
| Tasks.OverdueTasks | script.js:429-431 | the tasks penalised are exactly the tasks classed 'overdue' |
| Tasks.OverdueTasksKeepsOrder | script.js:429-431 | the overdue filter keeps the overdue tasks in their original relative order |
| Tasks.OverdueTasksCounts | script.js:429-431 | each overdue task appears in the filtered list as often as in the list and every other task not at all, so the number of penalty rounds is the number of overdue entries |
| Mood.Progress | script.js:280 | progress lies within 0 to 100, is 0 exactly when nothing is completed, and is 100 exactly when at least one task exists and all are completed |
| Mood.MoodFor | script.js:303-327 | the happy-dance animation is chosen exactly from 50 percent on |
| Mood.MoodForProgress | script.js:278-327 | the face shown for some counts equals the integer table: 0 sleepy, under a quarter neutral, under half pleased, under three quarters happy, under all excited, all celebratory |
| Mood.MoodMonotone | script.js:303-327 | more progress never shows a face lower in the table |
| Mood.MoodBoundaries | script.js:303-327 | sleepy exactly when nothing is done; celebratory exactly when every one of at least one task is done |
| Store.AddTask | script.js:76-97 | a whitespace-only text leaves the state unchanged; otherwise exactly one task is appended with the trimmed text, id = old counter, not completed, reward 10, and the counter grows by one while points and mood stay |
| Store.ToggleTaskComplete | script.js:111-128 | only the first task with the id flips `completed`, no other field of any task changes, order, counter and mood stay, an unknown id changes nothing; completing adds the award, un-completing subtracts the base value clamped at 0 |
| Store.DeleteTask | script.js:131-152 | counter, points and mood stay; the list shrinks by one exactly when the id is present |
| Store.ClearCompleted | script.js:448-452 | the remaining tasks are exactly the incomplete ones; the other fields stay |
| Store.ClearAll | script.js:455-461 | the list is empty; counter, points and mood stay |
| Store.CheckOverdueTasks | script.js:428-445 | the new state is one penalty round per overdue task applied in turn; tasks and counter stay, and with no overdue task nothing changes |
| Store.PenaliseOnce | script.js:433-439 | one round of the loop body: tasks and counter stay; points drop by 5, or to 0 when no more than 5 are left; the mood level drops by one, or to 1 when it is at most 2 |
| Store.PenaliseTimesClosedForm | script.js:433-439 | n > 0 rounds of "5 points off, clamped at 0; one mood level off, clamped at 1" take 5n points and n levels, each clamped once |
| Store.DefaultValid | script.js:4-8 | the constructor's initial fields satisfy the invariant |
| Store.AddTaskPreservesValid | script.js:86-97 | addTask keeps ids unique, increasing and below the counter, and rewards non-negative |
| Store.AddTaskAssignsFreshId | script.js:88 | the new task's id is the old counter, which no task carries, and the counter moves forward |
| Store.ToggleTaskCompletePreservesValid | script.js:111-128 | toggling keeps the invariant; in particular the point total never goes negative |
| Store.DeleteTaskRemovesExactly | script.js:131-152 | the tasks after deletion are exactly those whose id differs from the deleted one, in their original order |
| Store.DeleteTaskPreservesValid | script.js:131-152 | deleting keeps the invariant |
| Store.ClearCompletedPreservesValid | script.js:448-452 | clearCompleted keeps the invariant |
| Store.ClearCompletedStats | script.js:449 | after clearCompleted nothing is completed, the count equals the previous remaining count, and the order is kept |
| Store.CheckOverdueTasksPreservesValid | script.js:428-445 | the penalty keeps points at or above 0 and the mood level within 1 to 10 |
| Store.ToggleTwiceRestoresTasks | script.js:111-115 | toggling the same id twice gives back the same task list |
| Store.CompleteThenUncompleteKeepsBonus | script.js:118-122 | completing and then un-completing an open task changes only the points, which rise by exactly the deadline bonus: 5 when the deadline had not passed, 0 otherwise |
| Store.ToggleTaskCompleteStats | script.js:111-115 | a toggle leaves the total and moves the completed count by exactly one, up when completing and down when un-completing |
| Store.CheckOverdueTasksRepeats | script.js:428-439 | a second check with the same overdue tasks applies the penalty again: with n overdue tasks, two checks take 10n points and 2n levels, each clamped once, and with none they change nothing |
| Store.CheckOverdueTasksNotIdempotent | script.js:428-439 | a second check changes the state again exactly when there is an overdue task and either points remain after the first check or the mood level is still above 1 |
| Store.ApplyPreservesValid | script.js:76-152 | every operation keeps the invariant and never moves the counter back |
| Store.RunPreservesValid | script.js:420-445 | any sequence of user operations and timer checks keeps the invariant, and the counter never goes back |
| Store.OneOpenTaskScenario | script.js:76-97 | one task added to a fresh app gives stats (1, 0, 1), progress 0 and the sleepy face |
| Store.HalfDoneScenario | script.js:278-327 | two of four tasks done gives progress 50, the happy face and the dance |
| Store.OverdueTaskScenario | script.js:386-439 | an open task due an hour ago is classed overdue, and one check takes 5 points and one mood level, clamped |
| Persistence.OrElse | script.js:246-249 | JavaScript's or-default on a stored number: the stored value when present and non-zero, the fallback otherwise |
| Persistence.SaveTasks | script.js:226-238 | the stored record holds all four fields, each with the state's value |
| Persistence.LoadTasks | script.js:241-258 | nothing stored leaves the fields as they are; an unparsable record resets to the defaults; a parsed record takes each field with its fallback (`tasks` or [], `nextId` or 0, `points` or 0, `moodLevel` or 5), so the mood level is never 0 |
| Persistence.LoadSaveKeepsValid | script.js:226-249 | loading what was saved from a state satisfying the invariant gives a state satisfying it |
| Persistence.LoadTasksKeepsOutOfRangePoints | script.js:248 | a parsed record with a point total of -5 is loaded as it is, and the loaded state breaks the invariant |
| Persistence.LoadSaveRoundTrip | script.js:226-249 | loading what saveTasks stored gives back the saved state whenever its mood level is not 0 |
| Persistence.LoadSaveZeroMoodLevel | script.js:249 | a saved mood level of 0 comes back as 5 |
| Persistence.FreshStartIsDefault | script.js:251-257 | with nothing stored or garbage stored, the app starts from the default state, which satisfies the invariant |
| App.TodoApp.constructor | script.js:4-15 | the fields are the defaults with loadTasks applied on top; with nothing or garbage stored the invariant holds |
| App.TodoApp.LoadTasks | script.js:241-258 | the fields become what the loading rules give |
| App.TodoApp.AddTask | script.js:76-108 | reports whether a task was added (exactly when the text is not whitespace only); the fields become Store.AddTask of the old fields; the invariant is kept |
| App.TodoApp.ToggleTaskComplete | script.js:111-128 | the fields become Store.ToggleTaskComplete of the old fields; the invariant is kept |
| App.TodoApp.AwardPoints | script.js:340-350 | the point total grows by the award value |
| App.TodoApp.RemovePoints | script.js:353-356 | the point total drops by the base value, clamped at 0 |
| App.TodoApp.DeleteTask | script.js:131-152 | the fields become Store.DeleteTask of the old fields; the invariant is kept |
| App.TodoApp.CheckOverdueTasks | script.js:428-445 | the loop applies one penalty round per overdue task; the fields become Store.CheckOverdueTasks of the old fields; the invariant is kept |
| App.TodoApp.ClearCompleted | script.js:448-452 | the fields become Store.ClearCompleted of the old fields; the invariant is kept |
| App.TodoApp.ClearAll | script.js:455-461 | the fields become Store.ClearAll of the old fields; the invariant is kept |
| App.TodoApp.UpdateProgress | script.js:278-337 | the progress is the completed share of the task counts as a percentage (Mood.Progress of the stats); it lies within 0 to 100, is 0 exactly when no task is completed and 100 exactly when there are tasks and all are completed; the mood is the integer table's mood for the counts; the dance is chosen exactly from 50 percent on |

## Left out

- Rendering and the DOM are not modelled, because they do not affect the task state. This covers element lookup, event binding, the task HTML, HTML escaping, the input-error shake, the floating points animation, and the text written by `updateStats`, `updateProgress` and `updateMood`. The mood's face, message and animation are kept as values.
- Inputs are not read from the page. The text and deadline that `addTask` reads from its input fields are method parameters.
- The clock is not modelled. `new Date()` becomes the parameter `now`.
- Parsing of deadline strings and the ISO creation timestamp are not modelled. Times are integer milliseconds, and an empty deadline field is `None`.
- The timers are not modelled. `startDeadlineChecker` calls `checkOverdueTasks` once a minute; here `CheckOverdueTasks(now)` is a plain operation that any sequence may contain.
- `deleteTask` removes the task immediately. The source splices after a 300 ms timeout with an index captured before the timeout. So a list change within those 300 ms could make it remove a different task. That is timing behaviour, which this sequential model does not capture.
- `localStorage` and JSON are not modelled. `saveTasks` is the record it writes, and `loadTasks` reads a `Slot` (nothing, unparsable text, or a parsed record with optional fields). Write failures, which the source only logs, are ignored. Stored values of the wrong type are not modelled.
- Floating point is not modelled. Progress is an exact rational; the source computes it as a double. The `Math.round` on the displayed percentage is left out.
- `formatDeadline` is not modelled, because it depends on `Math.round` over float hours and on `toLocaleDateString`.
- The `confirm()` dialog of `clearAll` is not modelled. Only the confirmed branch is; the declined branch changes nothing.
- Theme handling (`changeTheme`, `applySavedTheme`), keyboard shortcuts and page start-up are not part of this model.
- `loadTasks` checks a parsed record's fields only for being absent or falsy. Values of the right type but out of range are taken as they are, such as a negative point total, a mood level of 12, or repeated or too-large ids. The loaded state then breaks the invariant, so `App.TodoApp.constructor` and `App.TodoApp.LoadTasks` promise the invariant only for missing or unparsable storage. `Persistence.LoadTasksKeepsOutOfRangePoints` exhibits the case, and `Persistence.LoadSaveKeepsValid` shows that a record saved from a valid state loads valid.
- Tasks are values, so task objects shared or mutated in place are not captured. In the source, a toggle mutates the found object inside the array; here the list gets a new task at that position.
- `getDeadlineClass` returns the empty class both for "no deadline or completed" and for "due more than 24 hours from now". The model follows this code and has three classes, not a separate "far away" one.
- `checkOverdueTasks` penalises again on every call for the same overdue tasks. The model keeps this behaviour, and `Store.CheckOverdueTasksRepeats` states it.
