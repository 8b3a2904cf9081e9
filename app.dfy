/** The state of the application component (src/App.tsx): the mirrored task
    list, whether the first load is still running, and the load error. The
    fetch result of `getTasks` is a parameter of `LoadTasks`. */
module AppState {
  import opened Wrappers
  import opened TaskModel
  import opened TaskApi
  import opened TaskPatches

  /** The banner text set when the initial load fails. */
  const LoadFailedMessage: string := "Failed to load tasks"

  class TaskApp {
    var tasks: seq<Task>
    var loading: bool
    var error: Option<string>

    /** The initial `useState` values: no tasks, loading, no error. */
    constructor ()
      ensures tasks == [] && loading && error == None
    {
      tasks := [];
      loading := true;
      error := None;
    }

    /** `loadTasks`: on success the fetched list replaces the mirror and the
        error is kept; on failure the list is kept and the error is set.
        Either way loading ends. */
    method LoadTasks(fetched: ApiResult<seq<Task>>)
      modifies this
      ensures !loading
      ensures fetched.Success? ==> tasks == fetched.value && error == old(error)
      ensures fetched.Failure? ==> tasks == old(tasks) && error == Some(LoadFailedMessage)
    {
      match fetched {
        case Success(fetchedTasks) =>
          tasks := fetchedTasks;
        case Failure =>
          error := Some(LoadFailedMessage);
      }
      loading := false;
    }

    /** `handleTaskCreated`: the new task goes to the front. */
    method HandleTaskCreated(newTask: Task)
      modifies this`tasks
      ensures tasks == Prepend(old(tasks), newTask)
      ensures |tasks| == |old(tasks)| + 1 && tasks[0] == newTask && tasks[1..] == old(tasks)
      ensures loading == old(loading) && error == old(error)
    {
      tasks := Prepend(tasks, newTask);
    }

    /** `handleTaskUpdated`: every task with the updated task's id is replaced. */
    method HandleTaskUpdated(updated: Task)
      modifies this`tasks
      ensures tasks == ReplaceById(old(tasks), updated)
      ensures |tasks| == |old(tasks)|
      ensures DistinctIds(old(tasks)) ==> DistinctIds(tasks)
      ensures loading == old(loading) && error == old(error)
    {
      ghost var before := tasks;
      tasks := ReplaceById(tasks, updated);
      if DistinctIds(before) {
        ReplacePreservesDistinct(before, updated);
      }
    }

    /** `handleTaskDeleted`: every task with the id is dropped. */
    method HandleTaskDeleted(taskId: string)
      modifies this`tasks
      ensures tasks == RemoveById(old(tasks), taskId)
      ensures !HasId(tasks, taskId)
      ensures DistinctIds(old(tasks)) ==> DistinctIds(tasks)
      ensures loading == old(loading) && error == old(error)
    {
      ghost var before := tasks;
      tasks := RemoveById(tasks, taskId);
      RemoveLeavesNoId(before, taskId);
      if DistinctIds(before) {
        RemovePreservesDistinct(before, taskId);
      }
    }
  }
}
