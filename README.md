# Task manager client: task list mirror and list-view handlers

This project models the browser side of a small task-tracking application.
The application component keeps an in-memory mirror of the store's tasks
(`tasks`), a flag for the first load (`loading`) and a load error (`error`).
It changes them through four operations: the initial load, and three local
patches: prepend, replace-by-id and remove-by-id. Update and delete are
patched by the task-list view after its API call succeeds. The create patch
is assumed to be run the same way by the creation form, which is not part
of this model. The task-list view picks a badge colour for
each status. Its two buttons each send one request to the store, and they
call the parent's callback only when that request succeeds.

Layout:

- `wrappers.dfy`, module `Wrappers`: `Option`, standing for `null` and for absent fields.
- `task.dfy`, module `TaskModel`: the `Task` record, the three-valued `Status`, the `Partial<Task>` patch, and the status texts.
- `api.dfy`, module `TaskApi`: the result of one HTTP call, reduced to `Success(value) | Failure`.
- `task_list.dfy`, module `TaskListView`: `StatusColor` and the two handlers. Each handler returns the request it sends and the callback event it fires, if any.
- `patches.dfy`, module `TaskPatches`: the three list updates as functions on `seq<Task>`, their properties, and the parent's callbacks applied to a view event.
- `app.dfy`, module `AppState`: class `TaskApp` with the three state fields and the four state-changing operations.

The result of `getTasks`, `updateTask` and `deleteTask` is a parameter of
the operation that awaits it. Nothing is fetched. Dates are opaque integers,
and the record field `_id` is called `id`.

## Model

| member | source | states |
|---|---|---|
| TaskModel.StatusText | src/types/Task.ts:5 | pending, in-progress and completed have the texts `pending`, `in-progress` and `completed`, the literals of the status union |
| TaskModel.ParseStatus | src/types/Task.ts:5 | a text that parses to a status is exactly that status's text |
| TaskModel.StatusTextRoundTrip | src/types/Task.ts:5 | parsing a status's text gives back that status |
| TaskModel.StatusTextInjective | src/types/Task.ts:5 | two statuses with the same text are equal |
| TaskListView.StatusColor | src/components/TaskList.tsx:31-40 | completed gets the green class, in-progress the yellow class, and every other status the default gray class |
| TaskListView.StatusColorInjective | src/components/TaskList.tsx:31-40 | the three badge classes are pairwise distinct, so different statuses get different classes |
| TaskListView.HandleStatusChange | src/components/TaskList.tsx:13-20 | sends a PATCH for the task's own id that carries the new status and no other field; fires `onTaskUpdated` with the task the store returned exactly when the call succeeds, and fires nothing on failure |
| TaskListView.HandleDelete | src/components/TaskList.tsx:22-29 | sends a DELETE for the given id; fires `onTaskDeleted` with that same id exactly when the call succeeds, and fires nothing on failure |
| TaskListView.MarkCompleteClicked | src/components/TaskList.tsx:65 | the mark-complete button patches the clicked task's id with status `completed` only, and reports the returned task only on success |
| TaskListView.DeleteClicked | src/components/TaskList.tsx:72 | the delete button deletes the clicked task's own id, and reports that id only on success |
| TaskPatches.Prepend | src/App.tsx:29-31 | create makes the list one longer, with the new task at index 0 and the previous list, unchanged, after it |
| TaskPatches.ReplaceById | src/App.tsx:33-37 | update keeps the length; every index whose id differs is unchanged, and every index whose id matches holds the updated task |
| TaskPatches.RemoveById | src/App.tsx:39-41 | after delete no task has the id, and the result keeps the relative order of the input (it is a subsequence of it) |
| TaskPatches.RemoveCounts | src/App.tsx:39-41 | after delete every task with another id occurs as often as before, and tasks with the deleted id occur zero times |
| TaskPatches.RemoveMembers | src/App.tsx:39-41 | a task is in the list after delete exactly when it was in it before and its id is not the deleted one |
| TaskPatches.RemoveCharacterised | src/App.tsx:39-41 | stated on the input alone: any order-preserving subsequence of the list that has no task with the id and holds every task with another id as often as the list does is the delete's result |
| TaskPatches.RemoveUnique | src/App.tsx:39-41 | that contract fixes the delete's result: any order-preserving subsequence with no task of that id and the same counts as the delete's result equals the delete's result |
| TaskPatches.PrependDistinctIff | src/App.tsx:29-31 | create does not check for duplicates: ids stay pairwise distinct exactly when they were distinct before and the new id was absent |
| TaskPatches.ReplaceAbsent | src/App.tsx:33-37 | updating with an id that is not in the list leaves the list unchanged |
| TaskPatches.ReplaceIdempotent | src/App.tsx:33-37 | applying the same update twice equals applying it once |
| TaskPatches.ReplaceKeepsIds | src/App.tsx:33-37 | update leaves the id at every index unchanged |
| TaskPatches.ReplacePreservesDistinct | src/App.tsx:33-37 | if ids were pairwise distinct before an update, they are after it |
| TaskPatches.ReplaceContainsIff | src/App.tsx:33-37 | the updated task is in the list afterwards exactly when its id was in the list before; if the id was absent the list is unchanged |
| TaskPatches.RemoveAbsent | src/App.tsx:39-41 | deleting an id that is not in the list leaves the list unchanged |
| TaskPatches.RemoveIdempotent | src/App.tsx:39-41 | deleting the same id twice equals deleting it once |
| TaskPatches.RemoveLeavesNoId | src/App.tsx:39-41 | after delete no task in the list has the deleted id |
| TaskPatches.RemovePreservesDistinct | src/App.tsx:39-41 | if ids were pairwise distinct before a delete, they are after it |
| TaskPatches.SubsequenceDistinct | src/App.tsx:39-41 | keeping some elements of a list in order keeps its ids distinct and adds no new tasks |
| TaskPatches.RemoveAfterReplace | src/App.tsx:33-41 | deleting the id an update carried gives the same list as deleting it without the update |
| TaskPatches.RemoveAfterPrepend | src/App.tsx:29-41 | deleting the id of a task just created gives the same list as deleting it before the create |
| TaskPatches.ApplyEvent | src/App.tsx:67-71 | the view's callbacks applied to the list: no event leaves the list as it is, an update event applies replace-by-id with the event's task, and a delete event applies remove-by-id with the event's id |
| TaskPatches.DeleteClickedEffect | src/App.tsx:67-71 | with the view's delete callback wired to the parent's delete patch, a successful delete click leaves no task with the clicked id, and a failed one leaves the list unchanged |
| TaskPatches.MarkCompleteClickedEffect | src/App.tsx:67-71 | with the view's update callback wired to the parent's update patch, a successful mark-complete click puts the returned task in place of every task with its id (and in the list if its id was there); a failed one leaves the list unchanged |
| AppState.TaskApp.constructor | src/App.tsx:9-11 | the initial state is an empty list, `loading` true and no error |
| AppState.TaskApp.LoadTasks | src/App.tsx:17-27 | loading always ends; on success the list is the fetched list and the error is kept; on failure the list is kept and the error is "Failed to load tasks" |
| AppState.TaskApp.HandleTaskCreated | src/App.tsx:29-31 | the list becomes the prepend of the new task; loading and error are unchanged |
| AppState.TaskApp.HandleTaskUpdated | src/App.tsx:33-37 | the list becomes the replace-by-id of the old list; length and id distinctness are kept; loading and error are unchanged |
| AppState.TaskApp.HandleTaskDeleted | src/App.tsx:39-41 | the list becomes the remove-by-id of the old list; no task with the id remains; id distinctness is kept; loading and error are unchanged |

## Left out

- HTTP and JSON in src/api/tasks.ts: the model keeps only whether a call succeeded and, if so, the body it decoded. The request URL, the headers and `response.json()` are not modelled.
- The store, server/server.js: its route handlers are not part of this model. So nothing is claimed about what the store returns: not that an updated task keeps its id, and not that it has status `completed`.
- The mount effect (src/App.tsx:13-15) that runs `loadTasks` once: a caller runs the constructor and then `LoadTasks`. The React effect machinery is not modelled.
- Rendering: the spinner while loading, the error banner, the list markup, icons, and every class string other than the badge colours.
- Date formatting with `toLocaleDateString` (src/components/TaskList.tsx:56): it depends on the locale, so dates stay opaque.
- `console.error` logging in every failure path: it has no effect on state.
- Asynchrony: each operation is one atomic step. Concurrent in-flight requests, React's batching of state updates, and a mirror that has drifted from the store are not modelled.
- `TaskForm`, which calls `handleTaskCreated`: it is not part of this model. Creation is modelled from the moment the created task is handed over.
- TaskListView.StatusColor: the `default` branch in the source also catches strings outside the three-valued union. The typed record cannot hold such strings, so here the default covers only `pending`.
