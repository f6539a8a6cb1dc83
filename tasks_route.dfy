/**
 * The tasks API route (POST and PUT) over the list of stored tasks. Reading
 * and writing the tasks file is abstracted away: a TaskStore holds the
 * loaded list, and a request either leaves it alone (every error answer) or
 * changes it once (push on POST, replacement on PUT), as if it were written
 * back. The uuid a POST may draw is the `newId` parameter.
 */
module TasksRoute {
  import opened Wrappers
  import opened JsString
  import opened JsNumber
  import opened JsDate
  import opened Quarter
  import opened TaskUtils

  datatype Body = TaskBody(task: StoredTask) | ErrorBody(error: string)

  /** An HTTP answer: its status and its JSON body. */
  datatype Reply = Reply(status: int, body: Body)

  const InvalidPayload := "Invalid payload"
  const AlreadyExists := "Task already exists"
  const NotFound := "Task not found"
  const DetailsInUse := "Another task already uses these details"

  /** `task.name === name && task.start === start && task.end === end`. */
  predicate SameDetails(task: StoredTask, name: string, start: string, end: string) {
    task.name == Str(name) && task.start == Str(start) && task.end == Str(end)
  }

  /** `tasks.some((task, index) => index !== except && SameDetails(task, ...))`;
      an `except` of -1 excludes no index. */
  predicate Taken(tasks: seq<StoredTask>, except: int, name: string, start: string, end: string) {
    exists i :: 0 <= i < |tasks| && i != except && SameDetails(tasks[i], name, start, end)
  }

  /** No two stored tasks share a string name, start and end. */
  predicate UniqueDetails(tasks: seq<StoredTask>) {
    forall i, j :: 0 <= i < j < |tasks| && tasks[i].name.Str? && tasks[i].start.Str? && tasks[i].end.Str? ==>
      !SameDetails(tasks[j], tasks[i].name.s, tasks[i].start.s, tasks[i].end.s)
  }

  /** `tasks.findIndex(task => task.id === id)`. */
  function FirstIndex(tasks: seq<StoredTask>, id: string): (r: int)
    ensures -1 <= r < |tasks|
    ensures r == -1 <==> forall i :: 0 <= i < |tasks| ==> tasks[i].id != Str(id)
    ensures r >= 0 ==> tasks[r].id == Str(id) && forall i :: 0 <= i < r ==> tasks[i].id != Str(id)
  {
    if tasks == [] then -1
    else if tasks[0].id == Str(id) then 0
    else
      var r := FirstIndex(tasks[1..], id);
      assert forall i :: 1 <= i < |tasks| ==> tasks[i] == tasks[1..][i - 1];
      if r == -1 then -1 else r + 1
  }

  // ---------------------------------------------------------------------
  // POST

  predicate TextFields(p: TaskPayload) {
    p.name.Str? && p.start.Str? && p.end.Str?
  }

  /** The task POST stores: the given id, the trimmed name and the dates;
      no durationDays and no subtasks. */
  function Created(id: Value, name: string, startISO: string, endISO: string): StoredTask {
    StoredTask(id, Str(Trim(name)), Str(startISO), Str(endISO), Undefined, None)
  }

  /** POST once the payload has passed validation: `name` as sent, the dates
      canonical, `id` the payload's id or a fresh one. The duplicate check
      compares the stored names with the name as sent, before trimming. */
  function PostValid(tasks: seq<StoredTask>, id: Value, name: string, startISO: string, endISO: string): (Reply, seq<StoredTask>) {
    if Taken(tasks, -1, name, startISO, endISO) then (Reply(409, ErrorBody(AlreadyExists)), tasks)
    else (Reply(201, TaskBody(Created(id, name, startISO, endISO))), tasks + [Created(id, name, startISO, endISO)])
  }

  /** The answer of POST and the list it leaves. */
  function PostOutcome(tasks: seq<StoredTask>, p: TaskPayload, newId: string): (Reply, seq<StoredTask>) {
    if !TextFields(p) then (Reply(400, ErrorBody(InvalidPayload)), tasks)
    else PostValid(tasks, IdOr(p.id, newId), p.name.s, CanonicalDate(p.start.s), CanonicalDate(p.end.s))
  }

  /** PostValid with the duplicate check evidently meant: against the
      trimmed name, the one that is stored. */
  function PostTrimmedValid(tasks: seq<StoredTask>, id: Value, name: string, startISO: string, endISO: string): (Reply, seq<StoredTask>) {
    if Taken(tasks, -1, Trim(name), startISO, endISO) then (Reply(409, ErrorBody(AlreadyExists)), tasks)
    else (Reply(201, TaskBody(Created(id, name, startISO, endISO))), tasks + [Created(id, name, startISO, endISO)])
  }

  function PostTrimmedOutcome(tasks: seq<StoredTask>, p: TaskPayload, newId: string): (Reply, seq<StoredTask>) {
    if !TextFields(p) then (Reply(400, ErrorBody(InvalidPayload)), tasks)
    else PostTrimmedValid(tasks, IdOr(p.id, newId), p.name.s, CanonicalDate(p.start.s), CanonicalDate(p.end.s))
  }

  /** POST answers 400, 409 or 201. Only 201 changes the list, by appending
      exactly the task it answers with, after the untouched earlier entries;
      that task has the payload's id or else the fresh one (never null), a
      trimmed name and the canonical dates.
      400 is the answer exactly when a text field is missing, 409 exactly
      when a stored task has the untrimmed name and the canonical dates. */
  lemma PostAnswers(tasks: seq<StoredTask>, p: TaskPayload, newId: string)
    ensures var (reply, after) := PostOutcome(tasks, p, newId);
      && (reply.status == 400 <==> !TextFields(p))
      && (reply.status == 409 <==> TextFields(p) && Taken(tasks, -1, p.name.s, CanonicalDate(p.start.s), CanonicalDate(p.end.s)))
      && (reply.status != 201 ==> after == tasks && reply.body.ErrorBody?)
      && (reply.status == 201 ==>
            reply.body.TaskBody? && after == tasks + [reply.body.task]
            && reply.body.task.id == IdOr(p.id, newId) && !IsNullish(reply.body.task.id)
            && reply.body.task.name.Str? && Trim(reply.body.task.name.s) == reply.body.task.name.s
            && reply.body.task.start == Str(CanonicalDate(p.start.s))
            && reply.body.task.end == Str(CanonicalDate(p.end.s)))
  {
    if TextFields(p) {
      TrimIdempotent(p.name.s);
    }
  }

  /** Posting an already trimmed name a second time with the same dates is
      refused with 409 and changes nothing. */
  lemma PostTwiceTrimmedName(tasks: seq<StoredTask>, id: Value, id2: Value, name: string, startISO: string, endISO: string)
    requires Trim(name) == name
    requires PostValid(tasks, id, name, startISO, endISO).0.status == 201
    ensures PostValid(PostValid(tasks, id, name, startISO, endISO).1, id2, name, startISO, endISO)
         == (Reply(409, ErrorBody(AlreadyExists)), PostValid(tasks, id, name, startISO, endISO).1)
  {
    var after := PostValid(tasks, id, name, startISO, endISO).1;
    assert SameDetails(after[|tasks|], name, startISO, endISO);
  }

  /** As written, posting the same details twice into an empty list, with a
      name that trimming changes, is accepted both times and stores two tasks
      with the same name, start and end. */
  lemma PostTwicePaddedName(id: Value, id2: Value, name: string, startISO: string, endISO: string)
    requires Trim(name) != name
    ensures PostValid([], id, name, startISO, endISO).0.status == 201
    ensures PostValid(PostValid([], id, name, startISO, endISO).1, id2, name, startISO, endISO).0.status == 201
    ensures !UniqueDetails(PostValid(PostValid([], id, name, startISO, endISO).1, id2, name, startISO, endISO).1)
  {
    var a := Created(id, name, startISO, endISO);
    var b := Created(id2, name, startISO, endISO);
    assert PostValid([], id, name, startISO, endISO).1 == [a];
    assert !SameDetails(a, name, startISO, endISO);
    var twice := PostValid([a], id2, name, startISO, endISO).1;
    assert twice == [a, b];
    assert twice[0].name.Str? && twice[0].start.Str? && twice[0].end.Str?
        && SameDetails(twice[1], twice[0].name.s, twice[0].start.s, twice[0].end.s);
  }

  /** With the check against the trimmed name, POST keeps the stored details
      unique. */
  lemma PostTrimmedKeepsUnique(tasks: seq<StoredTask>, id: Value, name: string, startISO: string, endISO: string)
    requires UniqueDetails(tasks)
    ensures UniqueDetails(PostTrimmedValid(tasks, id, name, startISO, endISO).1)
  {
    if !Taken(tasks, -1, Trim(name), startISO, endISO) {
      var after := tasks + [Created(id, name, startISO, endISO)];
      forall i, j | 0 <= i < j < |after| && after[i].name.Str? && after[i].start.Str? && after[i].end.Str?
        ensures !SameDetails(after[j], after[i].name.s, after[i].start.s, after[i].end.s)
      {
        if j == |tasks| {
          assert after[i] == tasks[i];
          assert !SameDetails(tasks[i], Trim(name), startISO, endISO);
        }
      }
    }
  }

  /** With the check against the trimmed name, posting the same details a
      second time is refused with 409, whatever the name's padding. */
  lemma PostTrimmedTwice(tasks: seq<StoredTask>, id: Value, id2: Value, name: string, startISO: string, endISO: string)
    requires PostTrimmedValid(tasks, id, name, startISO, endISO).0.status == 201
    ensures PostTrimmedValid(PostTrimmedValid(tasks, id, name, startISO, endISO).1, id2, name, startISO, endISO)
         == (Reply(409, ErrorBody(AlreadyExists)), PostTrimmedValid(tasks, id, name, startISO, endISO).1)
  {
    var after := PostTrimmedValid(tasks, id, name, startISO, endISO).1;
    assert SameDetails(after[|tasks|], Trim(name), startISO, endISO);
  }

  // ---------------------------------------------------------------------
  // PUT

  /** The stored task rewritten by PUT: its other fields (durationDays,
      subtasks) kept, the id, trimmed name and dates replaced. */
  function Updated(task: StoredTask, id: string, name: string, startISO: string, endISO: string): StoredTask {
    task.(id := Str(id), name := Str(Trim(name)), start := Str(startISO), end := Str(endISO))
  }

  /** PUT once the payload has passed validation, the dates canonical. */
  function PutValid(tasks: seq<StoredTask>, id: string, name: string, startISO: string, endISO: string): (r: (Reply, seq<StoredTask>))
    ensures r.0.status == 404 || r.0.status == 409 || r.0.status == 200
  {
    var idx := FirstIndex(tasks, id);
    if idx == -1 then (Reply(404, ErrorBody(NotFound)), tasks)
    else if Taken(tasks, idx, Trim(name), startISO, endISO) then (Reply(409, ErrorBody(DetailsInUse)), tasks)
    else
      (Reply(200, TaskBody(Updated(tasks[idx], id, name, startISO, endISO))),
       tasks[idx := Updated(tasks[idx], id, name, startISO, endISO)])
  }

  /** The answer of PUT and the list it leaves. */
  function PutOutcome(tasks: seq<StoredTask>, p: TaskPayload): (Reply, seq<StoredTask>) {
    if !p.id.Str? || !TextFields(p) then (Reply(400, ErrorBody(InvalidPayload)), tasks)
    else PutValid(tasks, p.id.s, p.name.s, CanonicalDate(p.start.s), CanonicalDate(p.end.s))
  }

  /** PUT answers 400 exactly when a field is not a string, and then changes
      nothing; otherwise the answer and the list are those of a valid PUT
      with the canonical dates. */
  lemma PutRejectsLoose(tasks: seq<StoredTask>, p: TaskPayload)
    ensures PutOutcome(tasks, p).0.status == 400 <==> !p.id.Str? || !TextFields(p)
    ensures PutOutcome(tasks, p).0.status == 400 ==> PutOutcome(tasks, p).1 == tasks
  {
  }

  /** A valid PUT answers 404, 409 or 200; only 200 changes the list. 404 is
      the answer exactly when no stored task has the id. On 200 the length is
      kept and exactly one entry changes, the first with the id: its id,
      name, start and end are replaced (the name trimmed) and its other
      fields kept. */
  lemma PutAnswers(tasks: seq<StoredTask>, id: string, name: string, startISO: string, endISO: string)
    ensures var (reply, after) := PutValid(tasks, id, name, startISO, endISO);
      && (reply.status == 404 <==> forall i :: 0 <= i < |tasks| ==> tasks[i].id != Str(id))
      && (reply.status != 200 ==> after == tasks && reply.body.ErrorBody?)
      && (reply.status == 200 ==>
            var k := FirstIndex(tasks, id);
            0 <= k < |tasks| && tasks[k].id == Str(id)
            && (forall i :: 0 <= i < k ==> tasks[i].id != Str(id))
            && |after| == |tasks| && (forall i :: 0 <= i < |tasks| && i != k ==> after[i] == tasks[i])
            && reply.body == TaskBody(after[k])
            && after[k].id == Str(id) && after[k].name == Str(Trim(name))
            && after[k].start == Str(startISO) && after[k].end == Str(endISO)
            && after[k].durationDays == tasks[k].durationDays && after[k].subtasks == tasks[k].subtasks)
  {
  }

  /** A valid PUT answers 409 exactly when the id is found and another index
      holds the trimmed name and the dates. */
  lemma PutConflict(tasks: seq<StoredTask>, id: string, name: string, startISO: string, endISO: string)
    ensures PutValid(tasks, id, name, startISO, endISO).0.status == 409 <==>
      FirstIndex(tasks, id) >= 0 &&
      exists i :: 0 <= i < |tasks| && i != FirstIndex(tasks, id) && SameDetails(tasks[i], Trim(name), startISO, endISO)
  {
  }

  /** PUT keeps the stored details unique. */
  lemma PutKeepsUnique(tasks: seq<StoredTask>, id: string, name: string, startISO: string, endISO: string)
    requires UniqueDetails(tasks)
    ensures UniqueDetails(PutValid(tasks, id, name, startISO, endISO).1)
  {
    var idx := FirstIndex(tasks, id);
    if idx >= 0 && !Taken(tasks, idx, Trim(name), startISO, endISO) {
      var after := tasks[idx := Updated(tasks[idx], id, name, startISO, endISO)];
      forall i, j | 0 <= i < j < |after| && after[i].name.Str? && after[i].start.Str? && after[i].end.Str?
        ensures !SameDetails(after[j], after[i].name.s, after[i].start.s, after[i].end.s)
      {
        if i == idx {
          assert !SameDetails(tasks[j], Trim(name), startISO, endISO);
        } else if j == idx {
          assert !SameDetails(tasks[i], Trim(name), startISO, endISO);
        }
      }
    }
  }

  /** Repeating a PUT that succeeded answers 200 again and changes nothing
      more. */
  lemma PutIdempotent(tasks: seq<StoredTask>, id: string, name: string, startISO: string, endISO: string)
    requires PutValid(tasks, id, name, startISO, endISO).0.status == 200
    ensures PutValid(PutValid(tasks, id, name, startISO, endISO).1, id, name, startISO, endISO)
         == PutValid(tasks, id, name, startISO, endISO)
  {
    var idx := FirstIndex(tasks, id);
    var u := Updated(tasks[idx], id, name, startISO, endISO);
    var after := tasks[idx := u];
    assert FirstIndex(after, id) == idx by {
      assert after[idx].id == Str(id);
      assert forall i :: 0 <= i < idx ==> after[i] == tasks[i];
    }
    assert Updated(after[idx], id, name, startISO, endISO) == u;
    assert !Taken(after, idx, Trim(name), startISO, endISO) by {
      forall i | 0 <= i < |after| && i != idx
        ensures !SameDetails(after[i], Trim(name), startISO, endISO)
      {
        assert after[i] == tasks[i];
      }
    }
    assert after[idx := u] == after;
  }

  // ---------------------------------------------------------------------
  // The store

  /** The loaded task list the handlers work on. */
  class TaskStore {
    var tasks: seq<StoredTask>

    constructor (initial: seq<StoredTask>)
      ensures tasks == initial
    {
      tasks := initial;
    }

    /** `tasks.some(...)` for the duplicate and conflict checks. */
    method AnyTaken(except: int, name: string, start: string, end: string) returns (found: bool)
      ensures found == Taken(tasks, except, name, start, end)
    {
      var i := 0;
      while i < |tasks|
        invariant 0 <= i <= |tasks|
        invariant forall k :: 0 <= k < i && k != except ==> !SameDetails(tasks[k], name, start, end)
      {
        if i != except && SameDetails(tasks[i], name, start, end) {
          return true;
        }
        i := i + 1;
      }
      return false;
    }

    /** `tasks.findIndex(task => task.id === id)`. */
    method FindIndex(id: string) returns (idx: int)
      ensures idx == FirstIndex(tasks, id)
    {
      var i := 0;
      while i < |tasks|
        invariant 0 <= i <= |tasks|
        invariant forall k :: 0 <= k < i ==> tasks[k].id != Str(id)
      {
        if tasks[i].id == Str(id) {
          return i;
        }
        i := i + 1;
      }
      return -1;
    }

    /** POST /api/tasks. */
    method Post(p: TaskPayload, newId: string) returns (reply: Reply)
      modifies this
      ensures (reply, tasks) == PostOutcome(old(tasks), p, newId)
    {
      if !p.name.Str? || !p.start.Str? || !p.end.Str? {
        return Reply(400, ErrorBody(InvalidPayload));
      }
      var startISO := CanonicalDate(p.start.s);
      var endISO := CanonicalDate(p.end.s);
      var duplicate := AnyTaken(-1, p.name.s, startISO, endISO);
      if duplicate {
        return Reply(409, ErrorBody(AlreadyExists));
      }
      var created := StoredTask(IdOr(p.id, newId), Str(Trim(p.name.s)), Str(startISO), Str(endISO), Undefined, None);
      tasks := tasks + [created];
      reply := Reply(201, TaskBody(created));
    }

    /** POST with the duplicate check against the trimmed name. */
    method PostTrimmed(p: TaskPayload, newId: string) returns (reply: Reply)
      modifies this
      ensures (reply, tasks) == PostTrimmedOutcome(old(tasks), p, newId)
      ensures UniqueDetails(old(tasks)) ==> UniqueDetails(tasks)
    {
      if !p.name.Str? || !p.start.Str? || !p.end.Str? {
        return Reply(400, ErrorBody(InvalidPayload));
      }
      var id := IdOr(p.id, newId);
      var name := p.name.s;
      var startISO := CanonicalDate(p.start.s);
      var endISO := CanonicalDate(p.end.s);
      if UniqueDetails(tasks) {
        PostTrimmedKeepsUnique(tasks, id, name, startISO, endISO);
      }
      var duplicate := AnyTaken(-1, Trim(name), startISO, endISO);
      if duplicate {
        return Reply(409, ErrorBody(AlreadyExists));
      }
      var created := StoredTask(id, Str(Trim(name)), Str(startISO), Str(endISO), Undefined, None);
      tasks := tasks + [created];
      reply := Reply(201, TaskBody(created));
    }

    /** PUT /api/tasks. */
    method Put(p: TaskPayload) returns (reply: Reply)
      modifies this
      ensures (reply, tasks) == PutOutcome(old(tasks), p)
      ensures UniqueDetails(old(tasks)) ==> UniqueDetails(tasks)
    {
      if !p.id.Str? || !p.name.Str? || !p.start.Str? || !p.end.Str? {
        return Reply(400, ErrorBody(InvalidPayload));
      }
      var idx := FindIndex(p.id.s);
      if idx == -1 {
        return Reply(404, ErrorBody(NotFound));
      }
      var startISO := CanonicalDate(p.start.s);
      var endISO := CanonicalDate(p.end.s);
      if UniqueDetails(tasks) {
        PutKeepsUnique(tasks, p.id.s, p.name.s, startISO, endISO);
      }
      var updated := tasks[idx].(id := p.id, name := Str(Trim(p.name.s)), start := Str(startISO), end := Str(endISO));
      var conflict := AnyTaken(idx, updated.name.s, updated.start.s, updated.end.s);
      if conflict {
        return Reply(409, ErrorBody(DetailsInUse));
      }
      tasks := tasks[idx := updated];
      reply := Reply(200, TaskBody(updated));
    }
  }
}
