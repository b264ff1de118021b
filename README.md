# Simple task manager, modelled in Dafny

This project models the `TaskManager` class of SimpleTaskManager, a console to-do list written in C#. The manager keeps tasks in memory. It holds two things:

- an ordered list of tasks, each with an id, a description and a completion flag;
- a counter `nextId` that hands out ids, starting at 1.

Its operations are:

- adding a task, which refuses a blank description;
- marking a task completed, found by the first task with a given id;
- deleting a task, found the same way;
- the pending view, i.e. the tasks that are not completed;
- the totals shown under the full list.

Files:

- `tasks.dfy` (module `Tasks`) holds the values and the pure parts:
  - the `Task` record;
  - `IsWhiteSpace` and `IsBlank`, which model `string.IsNullOrWhiteSpace`;
  - the first-match lookup `FirstMatch`, which models `FirstOrDefault`;
  - the queries `Pending` (`Where(t => !t.IsCompleted)`) and `CompletedCount` (`Count(t => t.IsCompleted)`);
  - the list edits `MarkCompleted` and `RemoveAt`;
  - the store invariant `Inv`, the monotonicity relation `CompletionNeverReverses`, and the lemmas about all of these.
- `task_manager.dfy` (module `TaskManagement`) holds the class `TaskManager`. Its fields are `tasks: seq<Task>` and `nextId: int`. A ghost field `issued` holds every id ever handed out. Each mutating method returns an outcome value instead of printing a message:
  - `AddTask` returns `Added(id)`, `InvalidInput` or `IdsExhausted`;
  - `CompleteTask` returns `Completed`, `AlreadyCompleted` or `NotFound`;
  - `DeleteTask` returns `Deleted` or `NotFound`.
- `scenarios.dfy` (module `Scenarios`) holds short sessions on a fresh manager. Each is proved from the method contracts alone.

The invariant `TaskManager.Valid()` holds after the constructor and is kept by every method. It says:

- ids are positive and strictly increasing in list order, so they are unique;
- every id is below `nextId`, and `issued` is exactly the set of ids from 1 up to `nextId - 1`;
- `nextId` fits a C# `int`;
- no stored description is blank.

Because `DeleteTask` never touches `nextId`, a deleted id is never handed out again.

The source's `Task` (SimpleTaskManager.cs:9-12) holds only an id, a description, a completion flag and a creation time. It has no priority field, so none is modelled.

## Model

| member | source | states |
|---|---|---|
| `TaskManagement.TaskManager.constructor` | SimpleTaskManager.cs:34-38 | A new manager is valid, has no tasks and will hand out id 1 first; no id has been issued. |
| `TaskManagement.TaskManager.AddTask` | SimpleTaskManager.cs:40-51 | A blank description gives `InvalidInput`. Otherwise, while ids last, it gives `Added(old nextId)`: exactly one task (that id, the description, not completed) is appended, earlier tasks are unchanged and `nextId` goes up by one. The new id was never issued before and exceeds every id in the list. Every non-success leaves tasks, counter and issued ids unchanged. The invariant is kept. (Corrected counter, see Findings.) |
| `TaskManagement.TaskManager.CompleteTask` | SimpleTaskManager.cs:69-87 | With no task of that id: `NotFound`, nothing changes. On the first match that is already completed: `AlreadyCompleted`, nothing changes. Otherwise: `Completed`, only that task's flag is set and `nextId` is untouched. Afterwards the id is found completed exactly when the outcome is not `NotFound`, so a second call reports `AlreadyCompleted`. Completion never reverses and the invariant is kept. |
| `TaskManagement.TaskManager.DeleteTask` | SimpleTaskManager.cs:89-100 | With no match: `NotFound`, nothing changes. With a match: `Deleted`, and exactly that task is removed while the rest keep their order and contents. `nextId` and the issued ids are unchanged, so the id is never reused. Afterwards no task has that id. The invariant is kept. |
| `TaskManagement.TaskManager.ViewTasks` | SimpleTaskManager.cs:53-67 | Returns the whole list in order, its length and the completed count. The completed count is at most the total, and the difference is the number of pending tasks. |
| `TaskManagement.TaskManager.ViewPendingTasks` | SimpleTaskManager.cs:102-117 | Returns the pending view. It holds exactly the tasks of the list that are not completed, in increasing id order, i.e. insertion order. |
| `Tasks.IsWhiteSpace` | SimpleTaskManager.cs:42 | The whitespace test behind `IsNullOrWhiteSpace`. Space, tab, line feed and carriage return count as whitespace. Letters and digits do not. |
| `Tasks.IsBlank` | SimpleTaskManager.cs:42 | `string.IsNullOrWhiteSpace`. The empty string is blank, and a string is blank exactly when every character in it is whitespace. |
| `Tasks.BlankExamples` | SimpleTaskManager.cs:42 | "", "   " and a run of tab and line-break characters are blank. "  x " is not. |
| `Tasks.FirstMatch` | SimpleTaskManager.cs:71 | Returns the position of the first task with the id: it has that id and no earlier task does. It returns None exactly when no task has the id. |
| `Tasks.FirstMatchIsOnlyMatch` | SimpleTaskManager.cs:91 | When ids are strictly increasing, any task with the id is the first match, so first-match lookup is unique-match lookup. |
| `Tasks.FirstMatchSeesOnlyIds` | SimpleTaskManager.cs:71 | The lookup depends only on the ids in the list, not on flags or descriptions. |
| `Tasks.MarkCompleted` | SimpleTaskManager.cs:84 | Setting the flag on one task leaves the length and every other task unchanged. The task keeps its id and description and becomes completed. |
| `Tasks.RemoveAt` | SimpleTaskManager.cs:98 | Removing one task shortens the list by one. Tasks before it keep their place and tasks after it move up by one, in the same order. |
| `Tasks.AppendKeepsInv` | SimpleTaskManager.cs:48-49 | Appending an open task with id `nextId` and a non-blank description, then incrementing the counter, keeps the invariant, as long as the counter is below int.MaxValue. |
| `Tasks.MarkKeepsInv` | SimpleTaskManager.cs:84 | Completing a task keeps the invariant. |
| `Tasks.RemoveKeepsInv` | SimpleTaskManager.cs:98 | Removing a task keeps the invariant without touching `nextId`. |
| `Tasks.RemovedIdIsGone` | SimpleTaskManager.cs:91-98 | After removing the first match of an id from a list with increasing ids, no task has that id. |
| `Tasks.MarkedIdIsCompleted` | SimpleTaskManager.cs:78-86 | After completing the first match of an id, the lookup finds the same position and that task is completed. |
| `Tasks.MarkNeverReverses` | SimpleTaskManager.cs:84 | Completing a task never un-completes a task and never changes a description. |
| `Tasks.RemoveNeverReverses` | SimpleTaskManager.cs:98 | Removing a task leaves every remaining task exactly as it was: any remaining task with the id of an earlier task is equal to it. So completion never reverses and no description changes. |
| `Tasks.Pending` | SimpleTaskManager.cs:104 | The pending view is never longer than the list. |
| `Tasks.PendingMembers` | SimpleTaskManager.cs:104 | A task is in the pending view exactly when it is in the list and not completed. |
| `Tasks.PendingAppend` | SimpleTaskManager.cs:104 | Filtering distributes over concatenation, so the pending view keeps list order. |
| `Tasks.PendingKeepsOrder` | SimpleTaskManager.cs:104 | If the list's ids are strictly increasing, so are the pending view's. |
| `Tasks.PendingAfterAdd` | SimpleTaskManager.cs:48-49 | Adding an open task appends it to the pending view and leaves the completed count unchanged. |
| `Tasks.PendingAfterComplete` | SimpleTaskManager.cs:84 | Completing a pending task takes exactly that task out of the pending view. The tasks before and after it stay in order, and the completed count goes up by one. |
| `Tasks.CompletedCount` | SimpleTaskManager.cs:66 | The completed count is at most the total. Completed plus pending is the total. The count equals the total exactly when the pending view is empty. |
| `Tasks.CompletedCountAppend` | SimpleTaskManager.cs:66 | Appending a task raises the completed count by one exactly when that task is completed. |
| `Tasks.CompletedCountCountsCompleted` | SimpleTaskManager.cs:66 | The completed count is the number of list positions that hold a completed task. |
| `Tasks.IncrementUnchecked` | SimpleTaskManager.cs:48 | `nextId++` on a C# `int` without overflow checking. The result stays in 32-bit range and is congruent to n + 1 modulo 2^32. |
| `Tasks.AddUnchecked` | SimpleTaskManager.cs:40-49 | `AddTask` as written, with the unchecked counter. A blank description changes nothing. Otherwise the list grows by exactly the open task with id `nextId`, the earlier tasks are kept, and the counter becomes the 32-bit successor. |
| `Tasks.UncheckedIdsWrap` | SimpleTaskManager.cs:48 | Starting from no tasks and `nextId == int.MaxValue`, a state that satisfies the invariant, apply two as-written adds. The first issues int.MaxValue and leaves the counter below that issued id. The second issues int.MinValue, so the ids are no longer increasing and the invariant is lost. |
| `Scenarios.BlankDescriptionsAreRefused` | SimpleTaskManager.cs:42-49 | On a new manager, "" and "   " are both refused. The next real add still gets id 1, so a refusal uses up no id. |
| `Scenarios.IdsAreNotReused` | SimpleTaskManager.cs:48 | Add, add, delete 2, add. The ids are 1, 2, 3: the deleted id 2 is not handed out again. |
| `Scenarios.CompleteTwice` | SimpleTaskManager.cs:71-86 | Completing 999 on an empty manager gives `NotFound`. Completing a new task gives `Completed` the first time and `AlreadyCompleted` the second. |
| `Scenarios.DeleteThenLookUp` | SimpleTaskManager.cs:91-98 | After a task is deleted, completing or deleting its id gives `NotFound`. |
| `Scenarios.PendingAfterCompletingFirst` | SimpleTaskManager.cs:104 | Add "a", add "b", complete "a": the pending view is exactly ["b"]. |
| `Scenarios.AddCompleteDelete` | SimpleTaskManager.cs:53-66 | Add "Buy milk", add "Pay bills", complete 1, delete 2: the list is exactly the completed "Buy milk", total 1, completed 1. |

## Findings

| source | as written | input that shows it | evidently intended | confidence | as-written member | corrected member |
|---|---|---|---|---|---|---|
| SimpleTaskManager.cs:48 | `nextId++` on an `int` with no overflow check (C# does not check by default), so the counter wraps from int.MaxValue to int.MinValue. | 2147483647 successful `AddTask` calls, each followed by a `DeleteTask` to keep the list short. The last of them issues id int.MaxValue and wraps the counter. The next add issues id -2147483648. After 2^32 adds an id still in the list can be issued again. | Ids are unique, increasing and never reused. The corrected manager refuses the add (`IdsExhausted`, nothing changes) when the counter is at int.MaxValue, as a checked increment would by throwing before the task is built. | not executed; holds unless the project is built with overflow checking enabled | `Tasks.UncheckedIdsWrap` (with `Tasks.AddUnchecked` and `Tasks.IncrementUnchecked`) | `TaskManagement.TaskManager.AddTask` (with `Tasks.AppendKeepsInv`) |

## Left out

- Console output and prompts: each operation returns an outcome value instead of writing a message. The "no tasks found" and "no pending tasks" messages are how the source prints an empty result. The model returns the empty sequence.
- `Task.ToString` formatting and the `CreatedAt` timestamp. The timestamp comes from the clock and is used only for display.
- The `Program.Main` menu loop and its id parsing with `int.TryParse`. Both are interactive I/O and library code. The methods take an already parsed `int` id.
- Null descriptions: `IsNullOrWhiteSpace` treats null like the empty string. The model has no null strings, so a null description is the empty one, and both are refused.
- `IsWhiteSpace` lists the characters that .NET documents for `char.IsWhiteSpace`. The .NET library itself is not part of this model.
- Task object identity: the source keeps `Task` objects and sets `IsCompleted` through a reference that `FirstOrDefault` returns. The model keeps task values in a sequence and replaces the matched element. No task reference leaves the manager (the pending list is only printed), so nothing else can observe the change.
- `List.Remove` compares by reference. It removes the object that `FirstOrDefault` found, which occurs once in the list, so the model removes that position.
- TaskManagement.TaskManager.AddTask: models the checked counter from Findings rather than the wrap-around as written, because the wrap-around breaks id uniqueness. The as-written add is `Tasks.AddUnchecked`.
- Priorities, filtering by priority and concurrency: none of them exist in the source.
