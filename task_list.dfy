/** The decisions of the task-list view (src/components/TaskList.tsx): the
    colour of a status badge, and the two click handlers, each of which sends
    one API request and reports to the parent only when that request
    succeeds. The request is paired with its API outcome, which is a
    parameter of each handler. */
module TaskListView {
  import opened Wrappers
  import opened TaskModel
  import opened TaskApi

  const GreenBadge: string := "bg-green-100 text-green-800"
  const YellowBadge: string := "bg-yellow-100 text-yellow-800"
  const GrayBadge: string := "bg-gray-100 text-gray-800"

  /** A request sent to the store: `PATCH /tasks/:id` or `DELETE /tasks/:id`. */
  datatype Request =
    | UpdateRequest(id: string, patch: TaskPatch)
    | DeleteRequest(id: string)

  /** A call of one of the parent's callbacks, `onTaskUpdated` or `onTaskDeleted`. */
  datatype Event =
    | TaskUpdated(task: Task)
    | TaskDeleted(taskId: string)

  /** What one handler does: the request it sends, then the callback it fires, if any. */
  datatype Handled = Handled(request: Request, event: Option<Event>)

  /** A patch that carries `status` and no other field. */
  predicate OnlyStatus(p: TaskPatch, s: Status)
  {
    p.status == Some(s) &&
    p.id.None? && p.title.None? && p.description.None? &&
    p.dueDate.None? && p.createdAt.None? && p.updatedAt.None?
  }

  /** The badge class for a status: green for completed, yellow for
      in-progress, and the default gray for everything else. */
  function StatusColor(s: Status): (r: string)
    ensures s == Completed ==> r == GreenBadge
    ensures s == InProgress ==> r == YellowBadge
    ensures s != Completed && s != InProgress ==> r == GrayBadge
  {
    match s
    case Completed => GreenBadge
    case InProgress => YellowBadge
    case _ => GrayBadge
  }

  /** The three badges can be told apart: different statuses get different classes. */
  lemma StatusColorInjective(a: Status, b: Status)
    requires StatusColor(a) == StatusColor(b)
    ensures a == b
  {
  }

  /** `handleStatusChange(task, newStatus)`: patch the task's status only, and
      hand the task the store returns to `onTaskUpdated` only on success. */
  function HandleStatusChange(task: Task, newStatus: Status, response: ApiResult<Task>): (h: Handled)
    ensures h.request.UpdateRequest? && h.request.id == task.id
    ensures OnlyStatus(h.request.patch, newStatus)
    ensures h.event.Some? <==> response.Success?
    ensures response.Success? ==> h.event.value == TaskUpdated(response.value)
  {
    var patch := TaskPatch(None, None, None, Some(newStatus), None, None, None);
    match response
    case Success(updated) => Handled(UpdateRequest(task.id, patch), Some(TaskUpdated(updated)))
    case Failure => Handled(UpdateRequest(task.id, patch), None)
  }

  /** `handleDelete(taskId)`: delete by that id, and hand the same id to
      `onTaskDeleted` only on success. */
  function HandleDelete(taskId: string, response: ApiResult<Deleted>): (h: Handled)
    ensures h.request == DeleteRequest(taskId)
    ensures h.event.Some? <==> response.Success?
    ensures response.Success? ==> h.event.value == TaskDeleted(taskId)
  {
    match response
    case Success(_) => Handled(DeleteRequest(taskId), Some(TaskDeleted(taskId)))
    case Failure => Handled(DeleteRequest(taskId), None)
  }

  /** The "Mark as completed" button of a task's row. */
  function MarkCompleteClicked(task: Task, response: ApiResult<Task>): (h: Handled)
    ensures h.request.UpdateRequest? && h.request.id == task.id
    ensures OnlyStatus(h.request.patch, Completed)
    ensures h.event.Some? <==> response.Success?
    ensures response.Success? ==> h.event.value == TaskUpdated(response.value)
  {
    HandleStatusChange(task, Completed, response)
  }

  /** The "Delete task" button of a task's row. */
  function DeleteClicked(task: Task, response: ApiResult<Deleted>): (h: Handled)
    ensures h.request == DeleteRequest(task.id)
    ensures h.event.Some? <==> response.Success?
    ensures response.Success? ==> h.event.value == TaskDeleted(task.id)
  {
    HandleDelete(task.id, response)
  }
}
