/** The functional updates that the application component passes to
    `setTasks` (src/App.tsx): prepend on create, replace-by-id on update,
    remove-by-id on delete. Each is a function of the previous list. */
module TaskPatches {
  import opened Wrappers
  import opened TaskModel
  import opened TaskApi
  import opened TaskListView

  /** `a` is `b` with some elements left out, the rest kept in order. */
  predicate IsSubsequence<T(==)>(a: seq<T>, b: seq<T>)
    decreases |b|
  {
    if a == [] then true
    else if b == [] then false
    else if a[0] == b[0] then IsSubsequence(a[1..], b[1..])
    else IsSubsequence(a, b[1..])
  }

  /** No two tasks in the list share an id. */
  predicate DistinctIds(tasks: seq<Task>)
  {
    forall i, j :: 0 <= i < j < |tasks| ==> tasks[i].id != tasks[j].id
  }

  /** Some task in the list has this id. */
  predicate HasId(tasks: seq<Task>, id: string)
  {
    exists k :: 0 <= k < |tasks| && tasks[k].id == id
  }

  /** `handleTaskCreated`: `[newTask, ...prevTasks]`. */
  function Prepend(tasks: seq<Task>, newTask: Task): (r: seq<Task>)
    ensures |r| == |tasks| + 1
    ensures r[0] == newTask
    ensures r[1..] == tasks
  {
    [newTask] + tasks
  }

  /** `handleTaskUpdated`: every task whose id is the updated task's id is
      replaced by it; every other task stays where it was. */
  function ReplaceById(tasks: seq<Task>, updated: Task): (r: seq<Task>)
    ensures |r| == |tasks|
    ensures forall k :: 0 <= k < |tasks| && tasks[k].id != updated.id ==> r[k] == tasks[k]
    ensures forall k :: 0 <= k < |tasks| && tasks[k].id == updated.id ==> r[k] == updated
  {
    if tasks == [] then []
    else [if tasks[0].id == updated.id then updated else tasks[0]] + ReplaceById(tasks[1..], updated)
  }

  /** `handleTaskDeleted`: the tasks whose id is not `taskId`, in their
      original order. */
  function RemoveById(tasks: seq<Task>, taskId: string): (r: seq<Task>)
    ensures forall k :: 0 <= k < |r| ==> r[k].id != taskId
    ensures IsSubsequence(r, tasks)
  {
    if tasks == [] then []
    else if tasks[0].id == taskId then RemoveById(tasks[1..], taskId)
    else [tasks[0]] + RemoveById(tasks[1..], taskId)
  }

  /** The parent's callbacks applied to the list: the `onTaskUpdated` and
      `onTaskDeleted` props are `handleTaskUpdated` and `handleTaskDeleted`.
      No event leaves the list as it is. */
  function ApplyEvent(tasks: seq<Task>, event: Option<Event>): (r: seq<Task>)
    ensures event.None? ==> r == tasks
    ensures event.Some? && event.value.TaskUpdated? ==> r == ReplaceById(tasks, event.value.task)
    ensures event.Some? && event.value.TaskDeleted? ==> r == RemoveById(tasks, event.value.taskId)
  {
    match event
    case None => tasks
    case Some(TaskUpdated(t)) => ReplaceById(tasks, t)
    case Some(TaskDeleted(id)) => RemoveById(tasks, id)
  }

  // ----- create -----

  /** Creating does not check for duplicates: the ids stay distinct exactly
      when they were distinct before and the new id was not yet present. */
  lemma PrependDistinctIff(tasks: seq<Task>, newTask: Task)
    ensures DistinctIds(Prepend(tasks, newTask)) <==> DistinctIds(tasks) && !HasId(tasks, newTask.id)
  {
    var r := Prepend(tasks, newTask);
    if DistinctIds(r) {
      forall i, j | 0 <= i < j < |tasks| ensures tasks[i].id != tasks[j].id {
        assert r[i + 1] == tasks[i] && r[j + 1] == tasks[j];
      }
      forall k | 0 <= k < |tasks| ensures tasks[k].id != newTask.id {
        assert r[k + 1] == tasks[k] && r[0] == newTask;
      }
    }
    if DistinctIds(tasks) && !HasId(tasks, newTask.id) {
      forall i, j | 0 <= i < j < |r| ensures r[i].id != r[j].id {
        assert r[j] == tasks[j - 1];
        if i > 0 {
          assert r[i] == tasks[i - 1];
        }
      }
    }
  }

  // ----- update -----

  /** Updating with an id that is not in the list leaves the list as it was. */
  lemma ReplaceAbsent(tasks: seq<Task>, updated: Task)
    requires !HasId(tasks, updated.id)
    ensures ReplaceById(tasks, updated) == tasks
  {
    var r := ReplaceById(tasks, updated);
    forall k | 0 <= k < |tasks| ensures r[k] == tasks[k] {
      assert tasks[k].id != updated.id;
    }
  }

  /** Applying the same update twice is the same as applying it once. */
  lemma ReplaceIdempotent(tasks: seq<Task>, updated: Task)
    ensures ReplaceById(ReplaceById(tasks, updated), updated) == ReplaceById(tasks, updated)
  {
    var once := ReplaceById(tasks, updated);
    var twice := ReplaceById(once, updated);
    forall k | 0 <= k < |tasks| ensures twice[k] == once[k] {
      if tasks[k].id == updated.id {
        assert once[k] == updated;
      } else {
        assert once[k] == tasks[k];
      }
    }
  }

  /** An update keeps every id at its index. */
  lemma ReplaceKeepsIds(tasks: seq<Task>, updated: Task, k: int)
    requires 0 <= k < |tasks|
    ensures ReplaceById(tasks, updated)[k].id == tasks[k].id
  {
    if tasks[k].id == updated.id {
      assert ReplaceById(tasks, updated)[k] == updated;
    }
  }

  /** Updating keeps distinct ids distinct. */
  lemma ReplacePreservesDistinct(tasks: seq<Task>, updated: Task)
    requires DistinctIds(tasks)
    ensures DistinctIds(ReplaceById(tasks, updated))
  {
    var r := ReplaceById(tasks, updated);
    forall i, j | 0 <= i < j < |r| ensures r[i].id != r[j].id {
      ReplaceKeepsIds(tasks, updated, i);
      ReplaceKeepsIds(tasks, updated, j);
    }
  }

  /** The task the update carries is in the list afterwards exactly when its
      id was in the list before. */
  lemma ReplaceContainsIff(tasks: seq<Task>, updated: Task)
    ensures updated in ReplaceById(tasks, updated) <==> HasId(tasks, updated.id)
    ensures !HasId(tasks, updated.id) ==> ReplaceById(tasks, updated) == tasks
  {
    var r := ReplaceById(tasks, updated);
    if HasId(tasks, updated.id) {
      var k :| 0 <= k < |tasks| && tasks[k].id == updated.id;
      assert r[k] == updated;
    } else {
      ReplaceAbsent(tasks, updated);
      forall k | 0 <= k < |r| ensures r[k] != updated {
        assert r[k].id != updated.id;
      }
    }
  }

  // ----- delete -----

  /** Every task with another id occurs after a delete as often as before;
      tasks with the id do not occur at all. */
  lemma {:induction false} RemoveCounts(tasks: seq<Task>, taskId: string, x: Task)
    ensures multiset(RemoveById(tasks, taskId))[x] == if x.id == taskId then 0 else multiset(tasks)[x]
  {
    if tasks != [] {
      RemoveCounts(tasks[1..], taskId, x);
      assert tasks == [tasks[0]] + tasks[1..];
    }
  }

  /** A task survives a delete exactly when it was in the list and carries another id. */
  lemma RemoveMembers(tasks: seq<Task>, taskId: string, x: Task)
    ensures x in RemoveById(tasks, taskId) <==> x in tasks && x.id != taskId
  {
    RemoveCounts(tasks, taskId, x);
  }

  /** The tasks that survive a delete are left as a subsequence with no
      member carrying the removed id. */
  lemma SubsequenceCount(r: seq<Task>, tasks: seq<Task>, taskId: string, x: Task)
    requires IsSubsequence(r, tasks)
    requires forall k :: 0 <= k < |r| ==> r[k].id != taskId
    ensures multiset(r)[x] <= multiset(RemoveById(tasks, taskId))[x]
    decreases |tasks|
  {
    if r == [] {
    } else {
      assert tasks != [];
      assert tasks == [tasks[0]] + tasks[1..];
      if r[0] == tasks[0] {
        assert r == [r[0]] + r[1..];
        SubsequenceCount(r[1..], tasks[1..], taskId, x);
      } else {
        SubsequenceCount(r, tasks[1..], taskId, x);
      }
    }
  }

  /** When the head of `tasks` survives the delete, a list meeting the
      delete's contract starts with that head, and its tail meets the
      contract for the tail of `tasks`. */
  lemma KeptHead(r: seq<Task>, tasks: seq<Task>, taskId: string)
    requires tasks != [] && tasks[0].id != taskId
    requires IsSubsequence(r, tasks)
    requires forall k :: 0 <= k < |r| ==> r[k].id != taskId
    requires multiset(r) == multiset(RemoveById(tasks, taskId))
    ensures r != [] && r[0] == tasks[0]
    ensures IsSubsequence(r[1..], tasks[1..])
    ensures multiset(r[1..]) == multiset(RemoveById(tasks[1..], taskId))
  {
    var rest := RemoveById(tasks[1..], taskId);
    assert RemoveById(tasks, taskId) == [tasks[0]] + rest;
    assert multiset(r)[tasks[0]] == multiset(rest)[tasks[0]] + 1;
    if r == [] || r[0] != tasks[0] {
      SubsequenceCount(r, tasks[1..], taskId, tasks[0]);
      assert false;
    }
    ConsCancel(r, rest);
  }

  /** Removing the same head from two lists with equal multisets leaves equal multisets. */
  lemma ConsCancel<T>(a: seq<T>, b: seq<T>)
    requires a != [] && multiset(a) == multiset([a[0]] + b)
    ensures multiset(a[1..]) == multiset(b)
  {
    assert a == [a[0]] + a[1..];
    assert multiset(a) == multiset{a[0]} + multiset(a[1..]);
    assert multiset([a[0]] + b) == multiset{a[0]} + multiset(b);
    forall x ensures multiset(a[1..])[x] == multiset(b)[x] {
      assert multiset(a)[x] == multiset([a[0]] + b)[x];
    }
  }

  /** The delete is pinned down by its contract: any list that keeps the
      order of `tasks`, carries no task with `taskId`, and holds every other
      task as often as `tasks` does, is the result of the delete. */
  lemma {:induction false} RemoveUnique(r: seq<Task>, tasks: seq<Task>, taskId: string)
    requires IsSubsequence(r, tasks)
    requires forall k :: 0 <= k < |r| ==> r[k].id != taskId
    requires multiset(r) == multiset(RemoveById(tasks, taskId))
    ensures r == RemoveById(tasks, taskId)
    decreases |tasks|
  {
    if tasks == [] {
      assert |multiset(r)| == 0;
    } else if tasks[0].id == taskId {
      if r != [] {
        assert r[0] != tasks[0];
      }
      RemoveUnique(r, tasks[1..], taskId);
    } else {
      KeptHead(r, tasks, taskId);
      RemoveUnique(r[1..], tasks[1..], taskId);
      assert r == [r[0]] + r[1..];
    }
  }

  /** The same characterisation in terms of the input alone: a list that
      keeps the order of `tasks`, carries no task with `taskId`, and holds
      every task with another id as often as `tasks` does, is the result of
      the delete. */
  lemma RemoveCharacterised(r: seq<Task>, tasks: seq<Task>, taskId: string)
    requires IsSubsequence(r, tasks)
    requires forall k :: 0 <= k < |r| ==> r[k].id != taskId
    requires forall x: Task :: x.id != taskId ==> multiset(r)[x] == multiset(tasks)[x]
    ensures r == RemoveById(tasks, taskId)
  {
    var d := RemoveById(tasks, taskId);
    forall x: Task ensures multiset(r)[x] == multiset(d)[x] {
      RemoveCounts(tasks, taskId, x);
    }
    assert multiset(r) == multiset(d);
    RemoveUnique(r, tasks, taskId);
  }

  /** Deleting an id that is not in the list leaves the list as it was. */
  lemma {:induction false} RemoveAbsent(tasks: seq<Task>, taskId: string)
    requires !HasId(tasks, taskId)
    ensures RemoveById(tasks, taskId) == tasks
  {
    if tasks != [] {
      assert tasks[0].id != taskId;
      assert !HasId(tasks[1..], taskId) by {
        forall k | 0 <= k < |tasks[1..]| ensures tasks[1..][k].id != taskId {
          assert tasks[1..][k] == tasks[k + 1];
        }
      }
      RemoveAbsent(tasks[1..], taskId);
      assert tasks == [tasks[0]] + tasks[1..];
    }
  }

  /** Deleting twice is the same as deleting once. */
  lemma RemoveIdempotent(tasks: seq<Task>, taskId: string)
    ensures RemoveById(RemoveById(tasks, taskId), taskId) == RemoveById(tasks, taskId)
  {
    RemoveAbsent(RemoveById(tasks, taskId), taskId);
  }

  /** After the delete no task carries the id. */
  lemma RemoveLeavesNoId(tasks: seq<Task>, taskId: string)
    ensures !HasId(RemoveById(tasks, taskId), taskId)
  {
  }

  /** A subsequence of a list with distinct ids has distinct ids. */
  lemma {:induction false} SubsequenceDistinct(a: seq<Task>, b: seq<Task>)
    requires IsSubsequence(a, b)
    requires DistinctIds(b)
    ensures DistinctIds(a)
    ensures forall x :: x in a ==> x in b
    decreases |b|
  {
    if a != [] {
      assert b != [];
      assert DistinctIds(b[1..]) by {
        forall i, j | 0 <= i < j < |b[1..]| ensures b[1..][i].id != b[1..][j].id {
          assert b[1..][i] == b[i + 1] && b[1..][j] == b[j + 1];
        }
      }
      if a[0] == b[0] {
        SubsequenceDistinct(a[1..], b[1..]);
        forall i, j | 0 <= i < j < |a| ensures a[i].id != a[j].id {
          assert a[j] == a[1..][j - 1];
          assert a[j] in b[1..];
          var m :| 0 <= m < |b[1..]| && b[1..][m] == a[j];
          assert b[m + 1] == a[j];
          if i == 0 {
            assert b[0].id != b[m + 1].id;
          } else {
            assert a[i] == a[1..][i - 1];
          }
        }
        forall x | x in a ensures x in b {
          if x != a[0] {
            assert x in a[1..];
          }
        }
      } else {
        SubsequenceDistinct(a, b[1..]);
      }
    }
  }

  /** Deleting keeps distinct ids distinct. */
  lemma RemovePreservesDistinct(tasks: seq<Task>, taskId: string)
    requires DistinctIds(tasks)
    ensures DistinctIds(RemoveById(tasks, taskId))
  {
    SubsequenceDistinct(RemoveById(tasks, taskId), tasks);
  }

  /** Deleting the id an update carried undoes the update's effect on the list. */
  lemma {:induction false} RemoveAfterReplace(tasks: seq<Task>, updated: Task)
    ensures RemoveById(ReplaceById(tasks, updated), updated.id) == RemoveById(tasks, updated.id)
  {
    if tasks != [] {
      RemoveAfterReplace(tasks[1..], updated);
      var r := ReplaceById(tasks, updated);
      assert r == [r[0]] + ReplaceById(tasks[1..], updated);
      assert r[1..] == ReplaceById(tasks[1..], updated);
    }
  }

  /** Deleting a task just created removes it along with every other copy of its id. */
  lemma RemoveAfterPrepend(tasks: seq<Task>, newTask: Task)
    ensures RemoveById(Prepend(tasks, newTask), newTask.id) == RemoveById(tasks, newTask.id)
  {
    var p := Prepend(tasks, newTask);
    assert p[0].id == newTask.id && p[1..] == tasks;
  }

  // ----- the view's handlers wired to the parent's patches -----

  /** Clicking "Delete task" on a row removes that task's id from the list
      when the store accepts, and changes nothing when it refuses. */
  lemma DeleteClickedEffect(tasks: seq<Task>, task: Task, response: ApiResult<Deleted>)
    ensures response.Success? ==>
      ApplyEvent(tasks, DeleteClicked(task, response).event) == RemoveById(tasks, task.id) &&
      !HasId(ApplyEvent(tasks, DeleteClicked(task, response).event), task.id)
    ensures response.Failure? ==> ApplyEvent(tasks, DeleteClicked(task, response).event) == tasks
  {
    RemoveLeavesNoId(tasks, task.id);
  }

  /** Clicking "Mark as completed" puts the task the store returns in place
      of every task with its id when the store accepts, and changes nothing
      when it refuses. */
  lemma MarkCompleteClickedEffect(tasks: seq<Task>, task: Task, response: ApiResult<Task>)
    ensures response.Success? ==>
      ApplyEvent(tasks, MarkCompleteClicked(task, response).event) == ReplaceById(tasks, response.value)
    ensures response.Success? && HasId(tasks, response.value.id) ==>
      response.value in ApplyEvent(tasks, MarkCompleteClicked(task, response).event)
    ensures response.Failure? ==> ApplyEvent(tasks, MarkCompleteClicked(task, response).event) == tasks
  {
    if response.Success? {
      ReplaceContainsIff(tasks, response.value);
    }
  }
}
