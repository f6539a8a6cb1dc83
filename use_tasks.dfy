/**
 * The tasks hook of the planner page
 * (src/components/QuarterPlanner/hooks/useTasks.ts): the task list loaded
 * once from the API and normalised, a remove by id and an update of one
 * task's subtasks. The fetch answer is a parameter (the stored list, or
 * None for a failed request or an unreadable body); `new Date()` and the
 * fresh ids normalisation needs are parameters too. The `cancelled` flag
 * of the effect is not modelled.
 */
module TasksHook {
  import opened Wrappers
  import opened JsNumber
  import opened TaskUtils
  import opened JsArray

  /** The list the loader leaves: normalizeTasks of the payload, or the
      empty list when the request fails or normalisation throws. */
  function LoadedTasks(fetched: Option<seq<StoredTask>>, now: int, newId: nat -> string, subIds: nat -> nat -> string): seq<Task> {
    if fetched.None? then []
    else
      match MapThrowing(fetched.value, 0, TaskNormalizer(now, newId, subIds))
      case TypeError => []
      case Done(m) => Deduplicated(m, {})
  }

  /** A loaded list never holds two tasks with the same name and dates
      (LoadedTaskOrigin says where each one comes from). */
  lemma LoadedTasksDistinct(fetched: Option<seq<StoredTask>>, now: int, newId: nat -> string, subIds: nat -> nat -> string)
    ensures var ts := LoadedTasks(fetched, now, newId, subIds);
      forall a, b :: 0 <= a < b < |ts| ==> Key(ts[a]) != Key(ts[b])
    ensures fetched.None? ==> LoadedTasks(fetched, now, newId, subIds) == []
  {
    if fetched.Some? {
      var m := MapThrowing(fetched.value, 0, TaskNormalizer(now, newId, subIds));
      if m.Done? {
        DeduplicatedDistinct(m.value, {});
      }
    }
  }

  /** Every loaded task is what normalizeTask makes of some stored entry
      (with that entry's fresh ids). */
  lemma LoadedTaskOrigin(stored: seq<StoredTask>, now: int, newId: nat -> string, subIds: nat -> nat -> string, i: int)
    returns (k: int)
    requires 0 <= i < |LoadedTasks(Some(stored), now, newId, subIds)|
    ensures 0 <= k < |stored|
    ensures NormalizeTask(stored[k], now, newId(k), subIds(k)) == Done(Some(LoadedTasks(Some(stored), now, newId, subIds)[i]))
  {
    var f := TaskNormalizer(now, newId, subIds);
    var m := MapThrowing(stored, 0, f);
    MapThrowingPositions(stored, 0, f);
    var t := LoadedTasks(Some(stored), now, newId, subIds)[i];
    assert Some(t) in m.value;
    k :| 0 <= k < |m.value| && m.value[k] == Some(t);
    assert f(stored[k], k) == Done(m.value[k]);
  }

  /** `task => task.id !== taskId`. */
  function IdIsNot(taskId: string): Task -> bool {
    (t: Task) => t.id != Str(taskId)
  }

  /** removeTask's filter. */
  function WithoutTask(tasks: seq<Task>, taskId: string): seq<Task> {
    Filter(tasks, IdIsNot(taskId))
  }

  /** Removing keeps exactly the tasks with another id, adds and repeats
      nothing, and keeps their relative order. */
  lemma WithoutTaskExact(tasks: seq<Task>, taskId: string, i: int, j: int) returns (a: int, b: int)
    requires 0 <= i < j < |WithoutTask(tasks, taskId)|
    ensures forall t :: t in WithoutTask(tasks, taskId) <==> t in tasks && t.id != Str(taskId)
    ensures multiset(WithoutTask(tasks, taskId)) <= multiset(tasks)
    ensures 0 <= a < b < |tasks|
    ensures tasks[a] == WithoutTask(tasks, taskId)[i] && tasks[b] == WithoutTask(tasks, taskId)[j]
  {
    FilterSubMultiset(tasks, IdIsNot(taskId));
    a, b := FilterOrder(tasks, IdIsNot(taskId), i, j);
  }

  /** A list without the id is left as it was. */
  lemma WithoutAbsentTask(tasks: seq<Task>, taskId: string)
    requires forall i :: 0 <= i < |tasks| ==> tasks[i].id != Str(taskId)
    ensures WithoutTask(tasks, taskId) == tasks
  {
    FilterAll(tasks, IdIsNot(taskId));
  }

  /** `{ ...task, subtasks: subtaskUpdater(task.subtasks) }` for a task
      with the id; any other task as it is. */
  function UpdatedTask(t: Task, taskId: string, updater: seq<Subtask> -> seq<Subtask>): Task {
    if t.id == Str(taskId) then t.(subtasks := updater(t.subtasks)) else t
  }

  /** updateTaskSubtasks's map. */
  function WithUpdatedSubtasks(tasks: seq<Task>, taskId: string, updater: seq<Subtask> -> seq<Subtask>): (r: seq<Task>)
    ensures |r| == |tasks|
  {
    seq(|tasks|, i requires 0 <= i < |tasks| => UpdatedTask(tasks[i], taskId, updater))
  }

  /** The update keeps the length and order: a task with the id gets the
      updater's subtasks and keeps every other field, any other task is
      left as it is, and no id changes. */
  lemma WithUpdatedSubtasksExact(tasks: seq<Task>, taskId: string, updater: seq<Subtask> -> seq<Subtask>, i: int)
    requires 0 <= i < |tasks|
    ensures var r := WithUpdatedSubtasks(tasks, taskId, updater);
      && |r| == |tasks|
      && r[i].id == tasks[i].id && r[i].name == tasks[i].name
      && r[i].start == tasks[i].start && r[i].end == tasks[i].end
      && r[i].durationDays == tasks[i].durationDays
      && (tasks[i].id == Str(taskId) ==> r[i].subtasks == updater(tasks[i].subtasks))
      && (tasks[i].id != Str(taskId) ==> r[i] == tasks[i])
  {
  }

  /** Two updates of the same task compose: the second updater sees the
      first one's subtasks. */
  lemma WithUpdatedSubtasksCompose(tasks: seq<Task>, taskId: string, f: seq<Subtask> -> seq<Subtask>, g: seq<Subtask> -> seq<Subtask>)
    ensures WithUpdatedSubtasks(WithUpdatedSubtasks(tasks, taskId, f), taskId, g)
         == WithUpdatedSubtasks(tasks, taskId, s => g(f(s)))
  {
    var lhs := WithUpdatedSubtasks(WithUpdatedSubtasks(tasks, taskId, f), taskId, g);
    var rhs := WithUpdatedSubtasks(tasks, taskId, s => g(f(s)));
    forall i | 0 <= i < |tasks|
      ensures lhs[i] == rhs[i]
    {
      assert WithUpdatedSubtasks(tasks, taskId, f)[i] == UpdatedTask(tasks[i], taskId, f);
    }
  }

  /** The identity updater changes nothing, and neither does any updater
      when no task has the id. */
  lemma WithUpdatedSubtasksUnchanged(tasks: seq<Task>, taskId: string, updater: seq<Subtask> -> seq<Subtask>)
    ensures WithUpdatedSubtasks(tasks, taskId, s => s) == tasks
    ensures (forall i :: 0 <= i < |tasks| ==> tasks[i].id != Str(taskId)) ==>
      WithUpdatedSubtasks(tasks, taskId, updater) == tasks
  {
    assert forall i :: 0 <= i < |tasks| ==> WithUpdatedSubtasks(tasks, taskId, s => s)[i] == tasks[i];
    if forall i :: 0 <= i < |tasks| ==> tasks[i].id != Str(taskId) {
      assert forall i :: 0 <= i < |tasks| ==> WithUpdatedSubtasks(tasks, taskId, updater)[i] == tasks[i];
    }
  }

  /** The hook's state. */
  class TasksHook {
    var tasks: seq<Task>
    var isLoading: bool

    /** No tasks, loading. */
    constructor()
      ensures tasks == [] && isLoading
    {
      tasks := [];
      isLoading := true;
    }

    /** loadTasks: the normalised payload, or [] on any failure; loading
        ends either way. */
    method Load(fetched: Option<seq<StoredTask>>, now: int, newId: nat -> string, subIds: nat -> nat -> string)
      modifies this
      ensures tasks == LoadedTasks(fetched, now, newId, subIds) && !isLoading
    {
      isLoading := true;
      if fetched.None? {
        tasks := [];
      } else {
        var normalised := NormalizeTasks(fetched.value, now, newId, subIds);
        if normalised.TypeError? {
          tasks := [];
        } else {
          tasks := normalised.value;
        }
      }
      isLoading := false;
    }

    /** removeTask: the tasks with another id, in order. */
    method RemoveTask(taskId: string)
      modifies this
      ensures tasks == WithoutTask(old(tasks), taskId) && isLoading == old(isLoading)
    {
      tasks := Filter(tasks, IdIsNot(taskId));
    }

    /** updateTaskSubtasks: the updater applied to the subtasks of every
        task with the id. */
    method UpdateTaskSubtasks(taskId: string, updater: seq<Subtask> -> seq<Subtask>)
      modifies this
      ensures tasks == WithUpdatedSubtasks(old(tasks), taskId, updater) && isLoading == old(isLoading)
    {
      tasks := WithUpdatedSubtasks(tasks, taskId, updater);
    }
  }
}
