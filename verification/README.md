# Task store of the to-do application

The application keeps an ordered list of tasks in memory and a copy of it in the
`"tasks"` slot of the browser's local storage. Six handlers act on the two:

- `createTask` appends a task and persists the list;
- `deleteTask(index)` drops the task at a position and persists the list;
- `loadTasks` replaces the list with the stored one, if there is one;
- `saveTasks` overwrites the slot;
- `sortTasks(criteria)` shows a stably sorted copy, by state label or by deadline;
- `filterTasks(state)` shows only the tasks in one state, or reloads when no state is given.

Sorting and filtering never write the slot; creating and deleting always write it.
So an edit made while a sorted or filtered view is showing persists that view, and
the tasks the filter hid are then gone from storage. This model pins that behaviour down.

Modules:

- `Tasks`: the task record; the three states and their labels. It also holds the two
  pure list computations: dropping a position (`WithoutIndex`) and keeping one state
  (`OfState`).
- `Lexicographic`: string order by code point. Both sort criteria reduce to it, and every key they compare is ASCII.
- `Dates`: `YYYY-MM-DD` deadlines. On such dates, string order is chronological order.
- `Sorting`: the stable sort. `Sort` is the specification: each entry is inserted into
  the sorted prefix. `InsertionSort` sorts an array in place, the way the handler sorts
  its copy, and is proved equal to `Sort`.
- `TaskStoreModel`: `Step` is the effect of each handler on a snapshot of the list and
  the slot, and `Run` applies a trace of handlers.
  - The class `TaskStore` holds the two fields and performs the handlers. Each method's
    postcondition states its new fields. Every method except `SaveTasks` also ties them to
    `Step`; `SaveTasks` is only called from within create and delete, so it has no action
    of its own.
  - Lemmas about traces of `Step` hold for the class.

The storage slot is `Option<seq<Task>>`. `None` is a missing key. Serialising to JSON and
parsing it back is taken to be the identity.

## Model

| member | source | states |
|---|---|---|
| Tasks.Label | src/App.js:135-139 | every state's label is one of the three values the state selector offers |
| Tasks.LabelInjective | src/App.js:135-139 | the three state labels are pairwise distinct, so comparing labels compares states |
| Tasks.WithoutIndex | src/App.js:57 | dropping position `index` gives `s[..index] + s[index+1..]` when the index is in range, and `s` unchanged otherwise |
| Tasks.WithoutIndexRemovesOne | src/App.js:57 | deleting a valid position removes exactly one occurrence of the task there and nothing else (multisets) |
| Tasks.OfState | src/App.js:86 | the filter is no longer than its input; every kept task has the state; each task occurs as often as in the input if it has the state, else not at all |
| Tasks.OfStateAppend | src/App.js:86 | filtering distributes over concatenation, so the kept tasks stay in their original relative order |
| Tasks.OfStateKeepsUniform | src/App.js:86 | a list whose tasks all have the state passes the filter unchanged |
| Tasks.OfStateIdempotent | src/App.js:84-87 | filtering twice by one state is filtering once |
| Lexicographic.Transitive | src/App.js:77 | the string order the state comparator uses is transitive |
| Lexicographic.Trichotomy | src/App.js:77 | any two strings are ordered one way or the other, or are equal |
| Lexicographic.LessAppend | src/App.js:77-79 | comparing concatenations whose first parts have equal length compares the first parts, and the second parts only on a tie |
| Dates.Decimal | src/App.js:79 | the value of a digit string is below ten to the power of its length |
| Dates.DecimalOrder | src/App.js:79 | for digit strings of one length, string order is numeric order |
| Dates.Earlier | src/App.js:79 | chronological order of two `YYYY-MM-DD` dates, by year, then month, then day; it is strict, and an earlier date never has a later year |
| Dates.DateFieldsOrder | src/App.js:79 | two `YYYY-MM-DD` strings compare as the year digits, then the month digits, then the day digits; they are equal exactly when all three fields are |
| Dates.StringOrderIsChronological | src/App.js:79 | for two dates written `YYYY-MM-DD`, string order is chronological order by year, month, day; equal strings are exactly equal dates |
| Sorting.Before | src/App.js:77-79 | the model comparator: by the rank of the state label, or by the deadline text. Under the deadline criterion nothing is strictly before an empty deadline |
| Sorting.StateLabelOrder | src/App.js:77 | the labels compare as "Doing right now" < "Done" < "Not done", the rank order the state sort uses |
| Sorting.BeforeIsKeyOrder | src/App.js:77-79 | under either criterion, the comparator is the string order of the compared keys (state label or deadline text) |
| Sorting.BeforeThenNotAfter | src/App.js:77-79 | if a is strictly before b and c is not before b, then a is strictly before c |
| Sorting.NotAfterTransitive | src/App.js:77-79 | "not after" is transitive, so sortedness is a consistent order |
| Sorting.InsertPermutes | src/App.js:77-79 | inserting adds exactly the new task to the multiset |
| Sorting.InsertKeepsSorted | src/App.js:77-79 | inserting into a sorted list keeps it sorted |
| Sorting.InsertKeepsKeyOrder | src/App.js:77-79 | inserting places the new task after every task with the same key, and no other task with that key moves |
| Sorting.InsertionPoint | src/App.js:77-79 | in a sorted list, the insertion point lies past the tasks the new one is not strictly before and ahead of the rest |
| Sorting.Sort | src/App.js:75-79 | the result is sorted by the criterion and is a permutation of the input |
| Sorting.SortLength | src/App.js:75-79 | sorting keeps the length |
| Sorting.SortIsStable | src/App.js:77-79 | for every key, the tasks with that key keep their relative order |
| Sorting.SortOfSorted | src/App.js:77-79 | an already sorted list is left unchanged |
| Sorting.SortIdempotent | src/App.js:74-81 | sorting twice by one criterion is sorting once |
| Sorting.WithStateKey | src/App.js:77 | for the state criterion, the tasks with one key are exactly the state filter |
| Sorting.StateSortOrdersLabels | src/App.js:76-77 | after sorting by state, labels never decrease in string order, and state ranks never decrease |
| Sorting.StateSortKeepsEachState | src/App.js:76-77 | sorting by state keeps, within each state, the original order of the tasks |
| Sorting.DeadlineSortIsChronological | src/App.js:78-79 | when every deadline is written `YYYY-MM-DD`, sorting by deadline leaves them in chronological order |
| Sorting.InsertLast | src/App.js:77-79 | moving `a[i]` left past the entries it is strictly before inserts it into the sorted prefix; later entries are untouched |
| Sorting.InsertionSort | src/App.js:77-79 | sorting the array in place leaves exactly `Sort` of its old contents |
| Sorting.SortedCopy | src/App.js:75-79 | sorting a fresh copy of the list returns `Sort` of the list |
| TaskStoreModel.SortView | src/App.js:74-81 | the shown list is a permutation of the old one, sorted by state for "state" and by deadline for "deadline"; any other criterion leaves it unchanged |
| TaskStoreModel.Reloaded | src/App.js:62-68 | loading keeps the list when the slot is empty, and keeps it too when the slot already holds the list |
| TaskStoreModel.Step | src/App.js:39-91 | create and delete leave the slot equal to the list, and the other handlers never write the slot. Create appends the task after the old list; an in-range delete shortens the list by one and an out-of-range one keeps it; a filter by a state keeps only that state |
| TaskStoreModel.RunAppend | src/App.js:39-91 | running two traces in turn is running them joined |
| TaskStoreModel.EditsCountLength | src/App.js:39-60 | over creates and deletes, the list length is the old length plus creates minus deletes whose index was in range |
| TaskStoreModel.EditLeavesInSync | src/App.js:46-48 | after any trace that ends in a create or a delete, the slot holds exactly the list, whatever views came before |
| TaskStoreModel.ViewsKeepSlot | src/App.js:74-91 | a trace of sorts, filters and loads leaves the slot as it was |
| TaskStoreModel.ReloadRestoresLastEdit | src/App.js:62-68 | after a create or delete followed by any sorts and filters, loading gives back exactly the store the edit produced |
| TaskStoreModel.FilterWithoutStateReloads | src/App.js:84-91 | filtering with no state is loading: the stored list if the slot holds one (even an empty one), else the list unchanged |
| TaskStoreModel.CreateAfterFilterPersistsView | src/App.js:46-48 | creating under a filter by a state stores the filtered list plus the new task, so stored tasks of other states are gone from storage |
| TaskStoreModel.DeleteAfterFilterPersistsView | src/App.js:57-59 | deleting under a filter by a state stores the filtered list minus the deleted position, so stored tasks of other states are gone from storage |
| TaskStoreModel.CreateTwo | src/App.js:46-48 | two creates on an empty store show and store both tasks in creation order |
| TaskStoreModel.SortTwo | src/App.js:75-79 | sorting two tasks swaps them exactly when the second is strictly before the first |
| TaskStoreModel.TwoTaskScenario | src/App.js:39-91 | after creating "Write report" (Not done) then "Review PR" (Done), sorting by state shows Review PR then Write report, and filtering by "Done" shows only Review PR |
| TaskStoreModel.TaskStore.constructor | src/App.js:93-95 | mounting starts from an empty list and loads: the stored list if the slot holds one, else the empty list |
| TaskStoreModel.TaskStore.SaveTasks | src/App.js:70-72 | the slot afterwards holds exactly the given list |
| TaskStoreModel.TaskStore.CreateTask | src/App.js:39-48 | the list becomes the old list plus the new task at the end, and the slot holds the new list |
| TaskStoreModel.TaskStore.DeleteTask | src/App.js:56-60 | an in-range index removes that task and shifts the later ones left; an out-of-range index keeps the list. The slot holds the new list either way |
| TaskStoreModel.TaskStore.LoadTasks | src/App.js:62-68 | the list becomes the stored list if the slot holds one, and is unchanged otherwise; the slot is not written |
| TaskStoreModel.TaskStore.SortTasks | src/App.js:74-82 | the list becomes `Sort` of the old list by state or by deadline, or stays unchanged for any other criterion; a permutation either way, and the slot is not written |
| TaskStoreModel.TaskStore.FilterTasks | src/App.js:84-91 | with a state, the list becomes the tasks of that state in their order; without one, the handler loads. The slot is not written |

## Left out

- The rendered view, the modal, the buttons and the form fields are not modelled. The form reset after a create (src/App.js:50-53) is not modelled either. The handlers take the form's values as parameters.
- The colour-scheme preference and its `mod+J` hotkey (src/App.js:21-32) are a separate setting stored by a library hook, and are not modelled.
- JSON serialisation and parsing are taken to be the identity on task lists. Stored text that is not valid JSON makes the parse throw, and that failure is not modelled.
- React defers state updates and runs effects after rendering. Each handler is modelled as running to completion on the current list.
- `localeCompare` is modelled only on the three state labels the form offers. On those, locale collation and code-point order agree. Collation of other strings is not modelled.
- Sorting.Before: for deadlines, the comparator is string order, not the difference of parsed `Date` values. On `YYYY-MM-DD` dates the two agree (`Dates.StringOrderIsChronological`). An empty deadline parses to an invalid date, so every comparison involving it gives `NaN`, which the sort treats as a tie. If the non-empty deadlines in the list are all the same, the comparator is consistent and the stable sort keeps the input order. The model instead moves empty deadlines first, so for `[Write report (2024-01-15), Review PR (no deadline)]` it gives `[Review PR, Write report]` where the program keeps the input order. With two or more distinct dates and an empty deadline, the comparator is inconsistent and the program's order depends on the engine.
- The task state is a three-valued datatype, not a free string: the form's selector offers only those three values.
- Dates.IsDateFormat: assumes four-digit years. The date field can also yield years of five or more digits, such as `12345-01-01`; on those, string order is not chronological, and the model does not cover them.
- TaskStoreModel.TaskStore.SaveTasks: assumes writing the slot succeeds. Writing to local storage can throw, for example when the quota is exceeded or storage is disabled. The exception is not modelled, and neither is the resulting state, where the slot keeps its old contents.
- TaskStoreModel.TaskStore.CreateTask: assumes the save succeeds. If it throws, the program has already shown the new list, so the list changes but the slot does not, and the form is not reset. The postcondition `stored == Some(tasks)` and `TaskStoreModel.EditLeavesInSync` hold only when writes succeed.
- TaskStoreModel.TaskStore.DeleteTask: assumes the save succeeds. If it throws, the list has already changed but the slot has not.
- TaskStoreModel.TaskStore.LoadTasks: reading the slot can also throw; that failure is not modelled.
- Lexicographic.Less: compares Unicode code points, while JavaScript strings compare UTF-16 code units. The two orders differ only above U+FFFF, and the compared keys (the three labels and date strings) are ASCII.
