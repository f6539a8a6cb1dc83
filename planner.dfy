/**
 * The routed quarter planner (src/components/QuarterPlanner/index.tsx): the
 * default tasks built from the bundled default list, the task a `task`
 * search parameter adds (at most ten tasks, no repeated details), removal,
 * the refill of an emptied list and quarter navigation. The bundled list is
 * the `entries` parameter, `new Date()` the `now` parameter and the uuids
 * `crypto.randomUUID()` draws the `newId`/`newIds` parameters.
 */
module Planner {
  import opened Wrappers
  import opened Calendar
  import opened JsNumber
  import opened JsDate
  import opened Quarter
  import opened TaskUtils
  import opened PlannerPage

  /** An entry of the bundled default list; a missing field is None. */
  datatype DefaultEntry = DefaultEntry(id: Option<string>, name: Option<string>, durationDays: Value)

  /** The task of one default entry: today's midnight to that midnight
      moved `max(Number(durationDays) || 0, 0)` days ahead. */
  function DefaultTask(e: DefaultEntry, today: Date, newId: string): PlannerTask {
    PlannerTask(e.id.GetOr(newId), e.name.GetOr(UntitledTask),
                FormatISODate(today), FormatISODate(DurationEnd(today, ToNumber(e.durationDays))))
  }

  /** createDefaultTasks: one task per entry, in order; the i-th entry
      draws the uuid newIds(i) when it has no id. */
  function CreateDefaultTasks(entries: seq<DefaultEntry>, now: int, newIds: nat -> string): (r: seq<PlannerTask>)
    ensures |r| == |entries|
  {
    var today := StartOfDay(Time(now));
    seq(|entries|, i requires 0 <= i < |entries| => DefaultTask(entries[i], today, newIds(i)))
  }

  /** Each default task starts today and ends WholeDays(durationDays) days
      later (an Invalid end, "NaN-NaN-NaN", for an infinite duration); the
      name falls back to "Untitled Task" and the id to a fresh one. */
  lemma DefaultTasksShape(entries: seq<DefaultEntry>, now: int, newIds: nat -> string, i: nat, s: int)
    requires 0 <= i < |entries| && Time(s) == StartOfDay(Time(now))
    ensures var t := CreateDefaultTasks(entries, now, newIds)[i];
      && t.id == (if entries[i].id.Some? then entries[i].id.value else newIds(i))
      && t.name == (if entries[i].name.Some? then entries[i].name.value else UntitledTask)
      && t.start == FormatISODate(Time(s))
      && t.end == (match WholeDays(ToNumber(entries[i].durationDays))
                   case None => "NaN-NaN-NaN"
                   case Some(k) => FormatISODate(Time(s + k * MsPerDay)))
  {
    assert CreateDefaultTasks(entries, now, newIds)[i] == DefaultTask(entries[i], Time(s), newIds(i));
    DurationEndDays(s, ToNumber(entries[i].durationDays));
  }

  /** The `task` search parameter after JSON.parse, with the fields the
      reducer reads; a missing, empty or unparsable parameter is None. */
  datatype QueryTask = QueryTask(name: Value, start: Value, end: Value)

  /** `task.name === payload.name && task.start === payload.start && task.end === payload.end`. */
  predicate SameDetails(t: PlannerTask, name: string, start: string, end: string) {
    t.name == name && t.start == start && t.end == end
  }

  predicate Listed(tasks: seq<PlannerTask>, name: string, start: string, end: string) {
    exists j :: 0 <= j < |tasks| && SameDetails(tasks[j], name, start, end)
  }

  /** The list after a query-string task: unchanged unless the payload has
      three string fields, the list holds fewer than ten tasks and none
      with the same details; otherwise the payload's fields, verbatim, are
      appended with a fresh id. */
  function AddQueryTask(tasks: seq<PlannerTask>, payload: Option<QueryTask>, newId: string): (r: seq<PlannerTask>)
    ensures r == tasks || (|tasks| < MaxTasks && |r| == |tasks| + 1 && r[..|tasks|] == tasks)
  {
    if payload.None? then tasks
    else
      var p := payload.value;
      if !(p.name.Str? && p.start.Str? && p.end.Str?) then tasks
      else if |tasks| >= MaxTasks then tasks
      else if Listed(tasks, p.name.s, p.start.s, p.end.s) then tasks
      else tasks + [PlannerTask(newId, p.name.s, p.start.s, p.end.s)]
  }

  /** No two tasks share name, start and end. */
  predicate DistinctDetails(tasks: seq<PlannerTask>) {
    forall i, j :: 0 <= i < j < |tasks| ==> !SameDetails(tasks[j], tasks[i].name, tasks[i].start, tasks[i].end)
  }

  /** A query task is added exactly when its fields are strings, the list
      has room and no task has its details; it is then the last task, with
      the fields as sent. Distinct details stay distinct, and a list within
      the limit stays within it. */
  lemma AddQueryTaskExact(tasks: seq<PlannerTask>, p: QueryTask, newId: string)
    ensures var r := AddQueryTask(tasks, Some(p), newId);
      && (r != tasks <==> p.name.Str? && p.start.Str? && p.end.Str? && |tasks| < MaxTasks
                          && !Listed(tasks, p.name.s, p.start.s, p.end.s))
      && (r != tasks ==> r == tasks + [PlannerTask(newId, p.name.s, p.start.s, p.end.s)])
      && (DistinctDetails(tasks) ==> DistinctDetails(r))
      && (|tasks| <= MaxTasks ==> |r| <= MaxTasks)
  {
    var r := AddQueryTask(tasks, Some(p), newId);
    if r != tasks {
      var t := r[|tasks|];
      forall i, j | 0 <= i < j < |r|
        ensures !SameDetails(r[j], r[i].name, r[i].start, r[i].end) || !DistinctDetails(tasks)
      {
        if j == |tasks| {
          assert r[i] == tasks[i];
        } else {
          assert r[i] == tasks[i] && r[j] == tasks[j];
        }
      }
    }
  }

  /** The same query task applied twice leaves the list as applying it
      once does (with any second uuid). */
  lemma AddQueryTaskIdempotent(tasks: seq<PlannerTask>, payload: Option<QueryTask>, newId: string, newId2: string)
    ensures AddQueryTask(AddQueryTask(tasks, payload, newId), payload, newId2) == AddQueryTask(tasks, payload, newId)
  {
    var r := AddQueryTask(tasks, payload, newId);
    if r != tasks {
      var p := payload.value;
      assert SameDetails(r[|tasks|], p.name.s, p.start.s, p.end.s);
    }
  }

  /** The planner's state: the quarter shown and the task list. */
  class RoutedPlanner {
    var currentQuarter: QuarterKey
    var tasks: seq<PlannerTask>

    /** The initial quarter and the default tasks. */
    constructor(initialQuarter: QuarterKey, entries: seq<DefaultEntry>, now: int, newIds: nat -> string)
      ensures currentQuarter == initialQuarter && tasks == CreateDefaultTasks(entries, now, newIds)
    {
      currentQuarter := initialQuarter;
      tasks := CreateDefaultTasks(entries, now, newIds);
    }

    /** The effect on `tasks.length`: an emptied list is refilled with
        freshly built default tasks; a non-empty one is left alone. */
    method RefillIfEmpty(entries: seq<DefaultEntry>, now: int, newIds: nat -> string)
      modifies this
      ensures old(tasks) == [] ==> tasks == CreateDefaultTasks(entries, now, newIds)
      ensures old(tasks) != [] ==> tasks == old(tasks)
      ensures currentQuarter == old(currentQuarter)
    {
      if |tasks| == 0 {
        tasks := CreateDefaultTasks(entries, now, newIds);
      }
    }

    /** The effect on the `task` search parameter: the reducer applied to
        the list (a parse failure is caught and changes nothing). */
    method ApplyQueryTask(payload: Option<QueryTask>, newId: string)
      modifies this
      ensures tasks == AddQueryTask(old(tasks), payload, newId)
      ensures currentQuarter == old(currentQuarter)
    {
      if payload.None? {
        return;
      }
      var p := payload.value;
      if p.name.Str? && p.start.Str? && p.end.Str? {
        if |tasks| >= MaxTasks {
          return;
        }
        var listed := Listed(tasks, p.name.s, p.start.s, p.end.s);
        if listed {
          return;
        }
        tasks := tasks + [PlannerTask(newId, p.name.s, p.start.s, p.end.s)];
      }
    }

    /** handleRemoveTask: the tasks with another id, in order. */
    method HandleRemoveTask(taskId: string)
      modifies this
      ensures tasks == RemoveTask(old(tasks), taskId)
      ensures currentQuarter == old(currentQuarter)
    {
      tasks := RemoveTask(tasks, taskId);
    }

    /** handleShiftQuarter: the quarter moved by delta (the navigation to
        its URL is not modelled). */
    method HandleShiftQuarter(delta: int)
      modifies this
      ensures currentQuarter == ShiftQuarter(old(currentQuarter), delta)
      ensures tasks == old(tasks)
    {
      currentQuarter := ShiftQuarter(currentQuarter, delta);
    }
  }
}
