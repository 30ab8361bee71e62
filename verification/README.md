# TaskFlow task manager — a Dafny model of its core

TaskFlow is a single-page React application for personal task management.
Its storage and query logic lives in one object, `TaskService`. It keeps the task list
as JSON under one storage key (`taskflow_tasks`). It creates, patches, deletes
and toggles tasks by reading the whole list, changing it and writing it back.
Its `filterTasks` query searches the list, applies a status filter and
stable-sorts the result. The `App` component mirrors the stored list in memory
and brings that list in step after each store call. The statistics panel
derives counts, a completion percentage and three insights from the list. The
task form turns a task into editable text and turns the edited text back into
the `taskData` object that it submits.

The model has one module per concern:

| file | module | models |
|---|---|---|
| `tasks.dfy` | `Tasks` | the task record, priorities and due dates, the overdue test |
| `seqs.dfy` | `Seqs` | `Array.prototype.filter` and its properties |
| `text.dfy` | `Text` | `trim`, `toLowerCase`, `includes`, `split`, `join` |
| `sorting.dfy` | `Sorting` | `Array.prototype.sort` with a comparator: a stable sort as a function, an in-place insertion sort on an array proved equal to it, and a proof that the stable result is unique |
| `query.dfy` | `Query` | `filterTasks`: search, status filter, comparator, result |
| `task_store.dfy` | `TaskStore` | `TaskService` as a class over a storage map, with its list operations as functions |
| `stats.dfy` | `Stats` | the statistics panel's figures and insights |
| `task_form.dfy` | `TaskForm` | the form's prefill, tag parsing and submit |
| `app.dfy` | `App` | the `App` component's state and handlers |

Modelling conventions:

- Strings are `seq<char>`.
- Dates and timestamps are integers on one time line. The current time is the parameter `now`.
- "No due date" (the empty string in the source) is the constructor `NoDueDate`.
- A `taskData` or `updates` object whose fields may be missing is the `Fields` record of `Option`s.
- The storage is a map from key to task list. A missing key reads as the empty list.
- A new task's id is a parameter, in place of `generateId`.

## Model

| member | source | states |
|---|---|---|
| `Tasks.Rank` | src/services/taskService.js:130 | ranks lie in 1..3; the body is the source's table: high 3, medium 2, low 1 |
| `Tasks.IsOverdue` | src/components/StatsPanel.jsx:12-15 | a completed task, or one without a due date, is never overdue |
| `Seqs.Filter` | src/services/taskService.js:68 | the result is no longer than the input and holds exactly the input's elements that satisfy the predicate |
| `Seqs.FilterIsSubsequence` | src/services/taskService.js:93-98 | filtering keeps the surviving elements in their original relative order |
| `Seqs.FilterSubMultiset` | src/services/taskService.js:104 | filtering never duplicates an element |
| `Seqs.FilterEmpty` | src/components/StatsPanel.jsx:10 | nothing is selected exactly when no element satisfies the predicate |
| `Seqs.FilterPartition` | src/components/StatsPanel.jsx:9-11 | a predicate and its negation split the list: the two counts add up to its length |
| `Seqs.FilterMonotone` | src/components/StatsPanel.jsx:12-15 | a stronger predicate never selects more elements |
| `Seqs.FilterFilter` | src/services/taskService.js:93-113 | filtering twice is filtering once by both predicates |
| `Text.Trim` | src/components/TaskForm.jsx:33 | the result is a slice of the input with only whitespace before and after it, and has no whitespace at either end, so exactly the leading and trailing whitespace is removed |
| `Text.IsWhitespace` | src/components/TaskForm.jsx:33 | the whitespace that `trim` removes; no visible ASCII character is whitespace |
| `Text.TrimChars` | src/components/TaskForm.jsx:37 | trimming adds no character, so a comma-free piece stays comma-free |
| `Text.TrimEmptyIff` | src/components/TaskForm.jsx:33 | a string trims to empty exactly when every character is whitespace |
| `Text.TrimTrimmed` | src/components/TaskForm.jsx:37 | trimming an already trimmed string changes nothing |
| `Text.TrimBlankPrefix` | src/components/TaskForm.jsx:26 | the blank that `join(', ')` puts before a trimmed tag is removed by `trim` |
| `Text.LowerChar` | src/services/taskService.js:92 | an upper-case ASCII letter becomes its lower-case letter (code plus 32); every other character is unchanged |
| `Text.Lower` | src/services/taskService.js:92 | same length; each upper-case ASCII letter maps to its own lower-case letter (code plus 32), every other character is unchanged |
| `Text.LowerIdempotent` | src/services/taskService.js:92-97 | lower-casing twice is lower-casing once |
| `Text.Includes` | src/services/taskService.js:94 | the empty term is included in every string, and an included term is no longer than the string |
| `Text.IncludesIsSubstring` | src/services/taskService.js:94 | `includes` holds exactly when the term occurs at some position |
| `Text.Split` | src/components/TaskForm.jsx:37 | `split(',')` yields at least one piece and no piece contains the separator |
| `Text.Join` | src/components/TaskForm.jsx:26 | a joined list starts with its first element |
| `Text.JoinSplit` | src/components/TaskForm.jsx:37 | joining the pieces of a split with the separator gives back the string |
| `Text.SplitAtFirstSeparator` | src/components/TaskForm.jsx:37 | a split cuts at the first separator and splits the rest the same way |
| `Sorting.Insert` | src/services/taskService.js:121 | inserting adds exactly one element; `InsertPermutes`, `InsertSorted` and `InsertKeepsTies` state that it adds that element, keeps a sorted list sorted and puts it after its ties |
| `Sorting.SortBy` | src/services/taskService.js:121 | the sort keeps the length; the lemmas below state that it is a sorted, stable permutation, and the only one |
| `Sorting.SortByPermutes` | src/services/taskService.js:121 | the sort is a permutation of its input |
| `Sorting.SortBySorted` | src/services/taskService.js:121 | for a consistent comparator, every element comes no later than each element after it |
| `Sorting.SortByKeepsSorted` | src/services/taskService.js:121 | an input already in order is returned unchanged |
| `Sorting.SortByIdempotent` | src/services/taskService.js:121 | sorting a sorted result again changes nothing |
| `Sorting.SortByStable` | src/services/taskService.js:121 | elements that tie keep their input order |
| `Sorting.StableSortUnique` | src/services/taskService.js:121 | any sorted list that keeps every tie group in input order equals the stable sort, so the result does not depend on the sorting algorithm |
| `Sorting.InsertInPlace` | src/services/taskService.js:121 | one insertion step on the array leaves the prefix alone and turns the suffix into the insertion of its first element into the rest |
| `Sorting.SortInPlace` | src/services/taskService.js:121-140 | sorting the array in place leaves in it exactly the stable sort of its old contents |
| `Query.StatusFilterOf` | src/services/taskService.js:102-118 | 'pending', 'completed' and 'overdue' select their filters; any other value means 'all' |
| `Query.SortKeyOf` | src/services/taskService.js:122-139 | 'dueDate', 'priority' and 'title' select their keys; 'created' and any other value sort by creation time |
| `Query.MatchesSearch` | src/services/taskService.js:93-98 | the empty term matches every task |
| `Query.SearchStep` | src/services/taskService.js:91-99 | an empty term keeps every task; otherwise a task is kept exactly when the lower-cased term occurs in its lower-cased title, description, category or a tag |
| `Query.SearchCaseInsensitive` | src/services/taskService.js:92 | a lower-cased search term finds the same tasks as the term itself |
| `Query.PassesStatus` | src/services/taskService.js:102-118 | 'all' passes every task, and an overdue task is never completed |
| `Query.StatusStep` | src/services/taskService.js:102-118 | a task is kept exactly when it passes the status test; 'all' returns the list unchanged |
| `Query.LexCompare` | src/services/taskService.js:134 | title comparison returns -1, 0 or 1 |
| `Query.LexAntisymmetric` | src/services/taskService.js:134 | swapping two titles negates their comparison |
| `Query.LexTransitive` | src/services/taskService.js:134 | title order is transitive |
| `Query.Compare` | src/services/taskService.js:121-139 | a task compares equal to itself under every key |
| `Query.CompareAntisymmetric` | src/services/taskService.js:121-139 | for every key, swapping the arguments negates the comparator |
| `Query.CompareTransitive` | src/services/taskService.js:121-139 | for every key, "not after" is transitive |
| `Query.Comparator` | src/services/taskService.js:121-139 | every key gives a comparator that a sort can rely on: antisymmetric and transitive |
| `Query.Selected` | src/services/taskService.js:88-118 | a task is selected exactly when it is in the input, passes the search and passes the status filter |
| `Query.SearchStepIsFilter` | src/services/taskService.js:91-99 | the search step is one filter over the input, the empty term included |
| `Query.StatusStepIsFilter` | src/services/taskService.js:102-118 | the status step is one filter over its input, 'all' included |
| `Query.SelectedKeepsOrder` | src/services/taskService.js:88-118 | the selected tasks keep their input order |
| `Query.View` | src/services/taskService.js:87-143 | the result is a permutation of the selected tasks; `ViewContents`, `ViewOrder`, `ViewStable` and `ViewUnique` state its contents and order |
| `Query.SelectedSubMultiset` | src/services/taskService.js:88-118 | search and status filter never duplicate a task |
| `Query.ViewContents` | src/services/taskService.js:87-143 | the result holds exactly the tasks that pass the search and the status filter, never more often than in the input, in the key's order |
| `Query.ViewAllIsPermutation` | src/services/taskService.js:87-143 | with no search term and 'all', the result is a permutation of the input |
| `Query.SortedMeaning` | src/services/taskService.js:122-139 | what the key's order means for any pair: higher priority first, dated before undated and earlier first, newest first, titles ascending |
| `Query.ViewOrder` | src/services/taskService.js:121-140 | the result is ordered by the chosen key, pair by pair, in the sense above |
| `Query.ViewStable` | src/services/taskService.js:121 | tasks that tie under the key keep the relative order they have after the search and the status filter, which is their input order (`Query.SelectedKeepsOrder`) |
| `Query.ViewUnique` | src/services/taskService.js:121-142 | any list in the key's order that keeps every tie group in input order is exactly the result |
| `TaskStore.StringOr` | src/services/taskService.js:32-34 | a missing or empty string yields the fallback, as JavaScript's logical-or default does |
| `TaskStore.NewTask` | src/services/taskService.js:28-40 | the new task has the given id, is pending, has both timestamps at creation, takes each given field and otherwise the default (empty description, medium, no due date, no tags); a missing or empty category becomes 'personal', so the category is never empty |
| `TaskStore.PrependFresh` | src/services/taskService.js:43 | putting a task with a fresh id in front keeps ids unique |
| `TaskStore.FindIndex` | src/services/taskService.js:51 | the index of the first task with the id, or -1 exactly when there is none |
| `TaskStore.FindIndexSameIds` | src/services/taskService.js:75 | lists with the same ids in the same places give the same index |
| `TaskStore.UniqueSameIds` | src/services/taskService.js:54 | changing tasks without changing their ids keeps ids unique |
| `TaskStore.ApplyPatch` | src/services/taskService.js:54-58 | every field given in the update replaces the task's; every other field is kept; the id and creation time are kept; `updatedAt` is now |
| `TaskStore.ApplyPatchIdempotent` | src/services/taskService.js:54-58 | applying the same update twice at the same time is applying it once |
| `TaskStore.ApplyNoChanges` | src/services/taskService.js:54-58 | an empty update only moves `updatedAt` |
| `TaskStore.Updated` | src/services/taskService.js:49-64 | the patched list keeps its length |
| `TaskStore.UpdatedChangesOnlyMatch` | src/services/taskService.js:49-64 | only the first task with the id is patched, in its place; all other tasks, the length and every id stay the same |
| `TaskStore.DeleteById` | src/services/taskService.js:68 | no task with the id remains; every other task remains |
| `TaskStore.DeleteKeepsOrder` | src/services/taskService.js:68 | the remaining tasks keep their order |
| `TaskStore.DeleteIdempotent` | src/services/taskService.js:66-71 | deleting twice is deleting once |
| `TaskStore.DeleteCount` | src/services/taskService.js:68 | with unique ids, a delete removes exactly one task when the id is present and none otherwise |
| `TaskStore.FilterKeepsUnique` | src/services/taskService.js:68 | filtering keeps ids unique |
| `TaskStore.Toggle` | src/services/taskService.js:78-79 | the completion flag flips, `updatedAt` is now, and every other field is kept |
| `TaskStore.Toggled` | src/services/taskService.js:73-85 | the toggled list keeps its length |
| `TaskStore.ToggledChangesOnlyMatch` | src/services/taskService.js:73-85 | only the first task with the id changes, and only in its flag and timestamp; the length and every id stay the same |
| `TaskStore.ToggleTwice` | src/services/taskService.js:73-85 | toggling twice restores every flag; the list differs at most in the matched task's timestamp |
| `TaskStore.CreateKeepsStamps` | src/services/taskService.js:38-43 | a task created at `now` in front of a list stamped up to `now` keeps every task created no later than changed, and changed no later than `now` |
| `TaskStore.UpdateKeepsStamps` | src/services/taskService.js:54-58 | an update at `now` moves the patched task's `updatedAt` forward to `now` and keeps the list's stamps in order |
| `TaskStore.ToggleKeepsStamps` | src/services/taskService.js:78-79 | a toggle at `now` moves the toggled task's `updatedAt` forward to `now` and keeps the list's stamps in order |
| `TaskStore.DeleteKeepsStamps` | src/services/taskService.js:68 | deleting keeps the remaining tasks' stamps in order |
| `TaskStore.TaskService.constructor` | src/services/taskService.js:2-4 | the storage key is 'taskflow_tasks' |
| `TaskStore.TaskService.Stored` | src/services/taskService.js:10-18 | the list under the key when the key is present; a missing key reads as the empty list |
| `TaskStore.TaskService.GetTasks` | src/services/taskService.js:10-18 | returns the stored list |
| `TaskStore.TaskService.SaveTasks` | src/services/taskService.js:20-26 | the list is stored under the key and every other key keeps its value |
| `TaskStore.TaskService.CreateTask` | src/services/taskService.js:28-47 | returns the new task, and the stored list becomes that task in front of the old list, one longer; other keys are kept; timestamps in order up to `now` stay in order |
| `TaskStore.TaskService.UpdateTask` | src/services/taskService.js:49-64 | when the id is found, returns the patched task and stores the patched list; otherwise returns nothing and leaves the storage alone; other keys are kept; timestamps in order up to `now` stay in order |
| `TaskStore.TaskService.DeleteTask` | src/services/taskService.js:66-71 | always reports success and stores the list without the id; other keys are kept |
| `TaskStore.TaskService.ToggleComplete` | src/services/taskService.js:73-85 | when the id is found, returns the toggled task and stores the toggled list; otherwise returns nothing and leaves the storage alone; other keys are kept; timestamps in order up to `now` stay in order |
| `TaskStore.TaskService.FilterTasks` | src/services/taskService.js:87-143 | the filter and sort names are decoded as the `switch` statements do; filtering a copy and sorting it in place returns the query's result: never more of a task than the input has, and with no search term and 'all', a permutation of the input |
| `Stats.CompletedTasks` | src/components/StatsPanel.jsx:10 | at most the total; zero exactly when no task is completed |
| `Stats.PendingTasks` | src/components/StatsPanel.jsx:11 | between zero and the total |
| `Stats.OverdueTasks` | src/components/StatsPanel.jsx:12-15 | at most the total; zero exactly when no task is overdue |
| `Stats.CompletionRate` | src/components/StatsPanel.jsx:17 | between 0 and 100; 0 for an empty list or nothing done, 100 when everything is done |
| `Stats.RoundedPercent` | src/components/StatsPanel.jsx:17 | the rounded percentage stays within 0..100 and hits both ends exactly |
| `Stats.RateIsNearest` | src/components/StatsPanel.jsx:17 | the rate is within one half of the exact percentage, and halves round up |
| `Stats.GreatJob` | src/components/StatsPanel.jsx:119 | "Great job" shows only for a non-empty list with at least one completed task |
| `Stats.OverdueAlert` | src/components/StatsPanel.jsx:125 | the overdue warning shows only while some task is pending |
| `Stats.AllDone` | src/components/StatsPanel.jsx:131 | when "All tasks completed" shows, the rate is 100 |
| `Stats.PendingCountsIncomplete` | src/components/StatsPanel.jsx:11 | the pending count, computed by subtraction, is the number of tasks that are not completed |
| `Stats.OverdueAtMostPending` | src/components/StatsPanel.jsx:12-15 | there are never more overdue tasks than pending ones |
| `Stats.CountsMatchQuery` | src/components/StatsPanel.jsx:9-15 | each count equals the length of the query's result for the matching filter, whatever the sort key |
| `Stats.AllDoneIff` | src/components/StatsPanel.jsx:131 | "All tasks completed" shows exactly when the list is non-empty and every task is completed |
| `Stats.AllDoneInsights` | src/components/StatsPanel.jsx:119-136 | when everything is done, the rate is 100, "Great job" shows, and the overdue warning does not |
| `TaskForm.Prefill` | src/components/TaskForm.jsx:18-29 | the form takes the task's fields; a set category is kept and an empty one becomes 'personal', so the category is never empty; the tags are joined with ", " |
| `TaskForm.PrefillEmptyFields` | src/components/TaskForm.jsx:20-27 | every field the task leaves empty is filled as in the empty form |
| `TaskForm.TrimAll` | src/components/TaskForm.jsx:37 | each piece is trimmed, and the number of pieces is kept |
| `TaskForm.TrimmedPiecesCommaFree` | src/components/TaskForm.jsx:37 | trimming the comma-free pieces of a split leaves each trimmed and still comma-free |
| `TaskForm.ParseTags` | src/components/TaskForm.jsx:37 | an empty tag string gives no tags; every tag is non-empty, trimmed and comma-free |
| `TaskForm.SplitJoined` | src/components/TaskForm.jsx:26 | splitting a ", "-joined list at commas gives its elements, each after the first with a leading blank |
| `TaskForm.TrimPiece` | src/components/TaskForm.jsx:37 | one piece of a ", "-joined list trims back to its tag |
| `TaskForm.TrimPieces` | src/components/TaskForm.jsx:37 | trimming the pieces of a ", "-joined list gives the list back |
| `TaskForm.SplitJoinedTags` | src/components/TaskForm.jsx:26 | a joined non-empty tag list is non-empty text that splits into its pieces |
| `TaskForm.ParseJoinedTags` | src/components/TaskForm.jsx:26 | joining well-formed tags with ", " and parsing the text again gives the same tags |
| `TaskForm.PrefillTagsRoundTrip` | src/components/TaskForm.jsx:18-38 | a task's well-formed tags survive the prefill and the parse on submit |
| `TaskForm.TitleAccepted` | src/components/TaskForm.jsx:33 | an empty title is never accepted |
| `TaskForm.TitleAcceptedIff` | src/components/TaskForm.jsx:33 | a title is accepted exactly when it has a character that is not whitespace |
| `TaskForm.SubmittedData` | src/components/TaskForm.jsx:35-38 | the title, description, priority, category and due date are the form's, the title untrimmed; the tags are the parsed tag text, each well formed; there is no completion flag |
| `TaskForm.EditUnchangedKeepsTask` | src/components/TaskForm.jsx:18-38 | opening a task in the form and saving it unchanged only moves its `updatedAt`, when its category is set and its tags are well formed |
| `TaskForm.TaskFormState.constructor` | src/components/TaskForm.jsx:9-16 | the form starts as `EmptyForm`: empty title, description, due date and tag text, medium priority, 'personal' category |
| `TaskForm.TaskFormState.LoadInitialData` | src/components/TaskForm.jsx:18-29 | a given task prefills the form; no task leaves it as it was |
| `TaskForm.TaskFormState.HandleSubmit` | src/components/TaskForm.jsx:31-49 | a blank title sends nothing and keeps the form; otherwise the parsed data is sent and the form is reset |
| `App.ReplaceById` | src/App.jsx:31-33 | same length; each task with the id becomes the replacement and every other task is unchanged |
| `App.ReplaceAbsent` | src/App.jsx:45-47 | when no task has the id, the list comes back unchanged |
| `App.ReplaceUnique` | src/App.jsx:31-33 | with unique ids, the map replaces just the task the store found, in its place |
| `App.AppState.Valid` | src/App.jsx:18-48 | in a valid state the stored ids are unique; validity is the in-memory list mirroring the stored list with unique ids, which every handler keeps |
| `App.AppState.constructor` | src/App.jsx:11-16 | empty list, 'all', 'created', empty search, form closed, nothing being edited |
| `App.AppState.LoadTasks` | src/App.jsx:18-21 | the list becomes the stored list, and the state is valid when the stored ids are unique |
| `App.AppState.HandleCreateTask` | src/App.jsx:23-27 | the new task goes in front of the list, as in the store; the form closes; list and store stay equal, with unique ids; other storage keys are kept |
| `App.AppState.HandleUpdateTask` | src/App.jsx:29-36 | the list becomes the store's patched list, with other tasks unchanged; editing ends and the form closes; list and store stay equal; other storage keys are kept |
| `App.AppState.HandleDeleteTask` | src/App.jsx:38-41 | the list becomes the store's list without the id; list and store stay equal; other storage keys are kept |
| `App.AppState.HandleToggleComplete` | src/App.jsx:43-48 | the list becomes the store's toggled list, with other tasks unchanged; list and store stay equal; other storage keys are kept |
| `App.AppState.HandleFormSubmit` | src/App.jsx:85 | while a task is being edited the submit updates it, otherwise it creates a task; either way editing ends, the form closes and list and store stay equal |
| `App.AppState.HandleCancel` | src/App.jsx:86-89 | the form closes and nothing is being edited; the list and view settings are unchanged |
| `App.AppState.HandleAddTask` | src/App.jsx:60 | the form opens; everything else is unchanged |
| `App.AppState.SetFilter` | src/App.jsx:71 | sets the status filter name and nothing else |
| `App.AppState.SetSortBy` | src/App.jsx:73 | sets the sort key name and nothing else |
| `App.AppState.SetSearchTerm` | src/App.jsx:62 | sets the search term, untrimmed, and nothing else |
| `App.AppState.HandleEditTask` | src/App.jsx:50-53 | the task is being edited and the form opens; the list and the view settings are unchanged |
| `App.AppState.FilteredTasks` | src/App.jsx:55 | the tasks on screen are the query's result for the current state, with the filter and sort names decoded as `filterTasks` does |

## Left out

- Storage: `localStorage`, JSON text and the `try`/`catch` blocks are not modelled. The storage is a map of lists. A key whose text does not parse reads as the empty list, which is what `getTasks` returns after its `catch`. A failing write is not modelled: `SaveTasks` always stores.
- `generateId` (clock plus `Math.random`) is left out. The id is a parameter. The App handlers require it to be absent from the stored list.
- Clock and date parsing: `new Date()`, `toISOString` and the parsing of due-date strings are left out. Dates are integers, and the current time is the parameter `now`.
- `Query.LexCompare`: `localeCompare` is modelled as lexicographic order on character codes. Locale collation is not modelled.
- `Text.LowerChar`, `Text.Lower`: `toLowerCase` is modelled for ASCII letters only. A non-ASCII upper-case letter such as 'É' is left unchanged, where the source lower-cases it.
- `Stats.CompletionRate`: the floating-point division and `Math.round` are computed exactly, as `(200c + t) / (2t)`, the nearest percentage with halves rounded up. Floating-point error at a half is not modelled, and it occurs at ordinary sizes: with 23 of 40 tasks done the source computes 57.49999999999999 and shows 57, while the model shows 58.
- `Sorting.SortBy`: the engine's sorting algorithm is modelled as an insertion sort. `Sorting.StableSortUnique` shows that every stable sort gives the same result for these comparators.
- A priority string other than 'high', 'medium' or 'low' cannot be represented. The source's comparator would yield `NaN` for it.
- A task without a `tags` array cannot be represented. The `task.tags &&` guard in the search and the `initialData.tags ?` guard in the form are therefore always true in the model.
- A missing `title` in `taskData` becomes the empty string, where the source stores `undefined`.
- An `updates` object that carries `id`, `createdAt` or fields outside the task record is not modelled. `Fields` has only the seven editable fields.
- `App.AppState.HandleUpdateTask` and `App.AppState.HandleToggleComplete` require `Valid()`: the list equals the stored list and its ids are unique. That excludes the source's case of an id missing from the store while present in the list, where the source maps that task to `null`. Under `Valid()` the model proves the id absent from the list as well, so no `null` arises.
- The App handlers also require `Valid()` to have been established by `LoadTasks`. React's effect and render timing and the batching of state updates are not modelled.
- The search term is not trimmed. Only empty versus non-empty is tested, as in `filterTasks`.
- Rendering (JSX, `framer-motion`, icons) and the components `Header`, `FilterBar`, `TaskList` and `TaskItem` are left out.
- The form's inline `onChange` setters (src/components/TaskForm.jsx lines 86, 100, 115, 132, 153 and 166) are left out. Each replaces one field of the form's record with the input's text. The App's own setters, the cancel and the header's add button are modelled.
- `TaskStore.NewTask`: both timestamps are one reading `now`. The source reads the clock twice, so `createdAt` and `updatedAt` may differ by a clock tick.
- `TaskStore.TaskService.UpdateTask` and `TaskStore.TaskService.ToggleComplete`: the clock is a parameter, and nothing forces `now` to be later than the stored stamps. Their stamp-order guarantee holds only when every stored task was changed no later than `now`.
