/**
 * The record normalisation of src/lib/task-utils.ts: stored tasks and
 * subtasks, read from the tasks file with loosely typed fields, become typed
 * records with canonical dates; duplicates are dropped.
 *
 * Today's date is the parameter `now` (a time value in ms) and every call of
 * crypto.randomUUID() is a `newId` parameter (a function of the position
 * where several are drawn).
 */
module TaskUtils {
  import opened Wrappers
  import opened JsString
  import opened JsNumber
  import opened Calendar
  import opened JsDate
  import opened Quarter
  import opened JsArray

  /** A subtask entry of the tasks file; any field may be missing or mistyped. */
  datatype StoredSubtask = StoredSubtask(id: Value, title: Value, timestamp: Value)

  /** A task entry of the tasks file. `subtasks` is None when the field is not
      an array; an entry None in it is a null element. */
  datatype StoredTask = StoredTask(
    id: Value, name: Value, start: Value, end: Value, durationDays: Value,
    subtasks: Option<seq<Option<StoredSubtask>>>)

  datatype Subtask = Subtask(id: Value, title: string, timestamp: string)

  datatype Task = Task(
    id: Value, name: string, start: string, end: string, durationDays: Value,
    subtasks: seq<Subtask>)

  const UntitledSubtask := "Untitled subtask"
  const UntitledTask := "Untitled Task"

  /** `id ?? crypto.randomUUID()`. */
  function IdOr(id: Value, newId: string): (r: Value)
    ensures !IsNullish(r)
  {
    if IsNullish(id) then Str(newId) else id
  }

  // ---------------------------------------------------------------------
  // Subtasks

  /** normalizeSubtask: null unless the entry exists, title and timestamp are
      strings and the timestamp parses; the title is trimmed (a blank one
      becomes "Untitled subtask") and the timestamp rewritten by toISOString. */
  function NormalizeSubtask(s: Option<StoredSubtask>, newId: string): (r: Option<Subtask>)
    ensures r.Some? <==> s.Some? && s.value.title.Str? && s.value.timestamp.Str?
                         && ParseTimestamp(s.value.timestamp.s).Time?
    ensures r.Some? ==> r.value.title != [] && !IsNullish(r.value.id)
    ensures r.Some? ==> r.value.id == IdOr(s.value.id, newId)
    ensures r.Some? && Trim(s.value.title.s) != [] ==> r.value.title == Trim(s.value.title.s)
    ensures r.Some? && Trim(s.value.title.s) == [] ==> r.value.title == UntitledSubtask
    ensures r.Some? ==> r.value.timestamp == IsoString(ParseTimestamp(s.value.timestamp.s).ms)
  {
    if s.None? || !s.value.title.Str? || !s.value.timestamp.Str? then None
    else
      match ParseTimestamp(s.value.timestamp.s)
      case Invalid => None
      case Time(t) =>
        var title := Trim(s.value.title.s);
        Some(Subtask(IdOr(s.value.id, newId), if title != [] then title else UntitledSubtask, IsoString(t)))
  }

  /** How a normalised subtask is written back to the tasks file. */
  function StoredOf(u: Subtask): StoredSubtask {
    StoredSubtask(u.id, Str(u.title), Str(u.timestamp))
  }

  /** The timestamp of an entry, if it is a string that parses, lies in the
      range toISOString can write back. */
  predicate TimestampInRange(s: Option<StoredSubtask>) {
    s.Some? && s.value.timestamp.Str? && ParseTimestamp(s.value.timestamp.s).Time? ==>
      -999999 <= FullYear(ParseTimestamp(s.value.timestamp.s).ms) <= 999999
  }

  lemma UntitledSubtaskTrimmed(s: string)
    requires s == UntitledSubtask
    ensures Trim(s) == s && s != []
  {
    TrimNoop(s);
  }

  /** Normalising a normalised subtask, written back, gives it back unchanged. */
  lemma NormalizeSubtaskIdempotent(s: Option<StoredSubtask>, newId: string, newId2: string, u: Subtask)
    requires NormalizeSubtask(s, newId) == Some(u) && TimestampInRange(s)
    ensures NormalizeSubtask(Some(StoredOf(u)), newId2) == Some(u)
  {
    var t := ParseTimestamp(s.value.timestamp.s).ms;
    ParseIsoString(t);
    var title := Trim(s.value.title.s);
    if title != [] {
      TrimIdempotent(s.value.title.s);
    } else {
      UntitledSubtaskTrimmed(u.title);
    }
  }

  /** normalizeSubtask as the callback of `map`; the index picks the new id. */
  function SubtaskNormalizer(newId: nat -> string): (Option<StoredSubtask>, nat) -> Option<Subtask> {
    (s: Option<StoredSubtask>, k: nat) => NormalizeSubtask(s, newId(k))
  }

  /** `subtasks.map(normalizeSubtask).filter(non-null)` on an array. */
  function NormalizeSubtasks(subs: seq<Option<StoredSubtask>>, newId: nat -> string): (r: seq<Subtask>)
    ensures |r| <= |subs|
  {
    FilterSome(MapIndexed(subs, SubtaskNormalizer(newId)))
  }

  function StoreSubtask(u: Subtask, k: nat): Option<StoredSubtask> {
    Some(StoredOf(u))
  }

  /** How a list of normalised subtasks is written back. */
  function StoredList(us: seq<Subtask>): (r: seq<Option<StoredSubtask>>) {
    MapIndexed(us, StoreSubtask)
  }

  /** Normalising the written-back subtask list gives the same list. */
  lemma NormalizeSubtasksIdempotent(subs: seq<Option<StoredSubtask>>, newId: nat -> string, newId2: nat -> string)
    requires forall j :: 0 <= j < |subs| ==> TimestampInRange(subs[j])
    ensures NormalizeSubtasks(StoredList(NormalizeSubtasks(subs, newId)), newId2) == NormalizeSubtasks(subs, newId)
  {
    var f, g := SubtaskNormalizer(newId), SubtaskNormalizer(newId2);
    forall i, k, m | 0 <= i < |subs| && f(subs[i], i).Some?
      ensures g(StoreSubtask(f(subs[i], i).value, m), k) == f(subs[i], i)
    {
      NormalizeSubtaskIdempotent(subs[i], newId(i), newId2(k), f(subs[i], i).value);
    }
    FilterMapIdempotent(subs, f, g, StoreSubtask);
  }

  /** Every kept subtask has a title and an id. */
  lemma NormalizeSubtasksTitled(subs: seq<Option<StoredSubtask>>, newId: nat -> string)
    ensures forall j :: 0 <= j < |NormalizeSubtasks(subs, newId)| ==>
              NormalizeSubtasks(subs, newId)[j].title != [] && !IsNullish(NormalizeSubtasks(subs, newId)[j].id)
  {
    var ms := MapIndexed(subs, SubtaskNormalizer(newId));
    FilterSomeMembers(ms);
    var r := NormalizeSubtasks(subs, newId);
    forall j | 0 <= j < |r|
      ensures r[j].title != [] && !IsNullish(r[j].id)
    {
      var i :| 0 <= i < |ms| && ms[i] == Some(r[j]);
      assert NormalizeSubtask(subs[i], newId(i)) == Some(r[j]);
    }
  }

  // ---------------------------------------------------------------------
  // Tasks

  /** A truthy start or end that is not a string: parseISODate calls .split
      on it, which throws a TypeError. */
  predicate MisTypedDate(v: Value) {
    Truthy(v) && !v.Str?
  }

  /** The Date whose formatISODate text is the normalised start: the parsed
      start, or today's midnight when the start is missing or empty. */
  function StartDate(raw: StoredTask, now: int): (d: Date)
    requires !MisTypedDate(raw.start)
  {
    if Truthy(raw.start) then ParseISODate(raw.start.s) else StartOfDay(Time(now))
  }

  /** `end.setDate(end.getDate() + Math.max(Number(durationDays) || 0, 0))`
      on a copy of the start date. */
  function DurationEnd(start: Date, duration: Number): (d: Date) {
    SetDateAhead(start, Max(OrZero(duration), Finite(0.0)))
  }

  /** The Date whose formatISODate text is the normalised end. */
  function EndDate(raw: StoredTask, now: int): (d: Date)
    requires !MisTypedDate(raw.start) && !MisTypedDate(raw.end)
  {
    if Truthy(raw.end) then ParseISODate(raw.end.s)
    else DurationEnd(ParseISODate(FormatISODate(StartDate(raw, now))), ToNumber(raw.durationDays))
  }

  /** normalizeTask. A name that is not a string gives null; a mistyped start
      or end throws. The name is trimmed: `trim() ?? "Untitled Task"` never
      takes its fallback, so a blank name stays blank. */
  function NormalizeTask(raw: StoredTask, now: int, newId: string, subIds: nat -> string): (r: Outcome<Option<Task>>)
    ensures r == Done(None) <==> !raw.name.Str?
    ensures r.TypeError? <==> raw.name.Str? && (MisTypedDate(raw.start) || MisTypedDate(raw.end))
    ensures r.Done? && r.value.Some? ==>
              r.value.value.name == Trim(raw.name.s) && r.value.value.durationDays == raw.durationDays
              && r.value.value.start != [] && r.value.value.end != []
  {
    if !raw.name.Str? then Done(None)
    else if MisTypedDate(raw.start) || MisTypedDate(raw.end) then TypeError
    else
      var startISO := FormatISODate(StartDate(raw, now));
      var endISO := FormatISODate(EndDate(raw, now));
      var subtasks := if raw.subtasks.Some? then NormalizeSubtasks(raw.subtasks.value, subIds) else [];
      Done(Some(Task(IdOr(raw.id, newId), Some(Trim(raw.name.s)).GetOr(UntitledTask), startISO, endISO,
                     raw.durationDays, subtasks)))
  }

  /** How a normalised task is written back to the tasks file. */
  function StoredTaskOf(t: Task): StoredTask {
    StoredTask(t.id, Str(t.name), Str(t.start), Str(t.end), t.durationDays, Some(StoredList(t.subtasks)))
  }

  predicate FromYear100(d: Date) {
    d.Time? ==> FullYear(d.ms) >= 100
  }

  /** Normalisation is idempotent: a normalised task written back and read
      again is unchanged, whatever today's date and the new ids are then. */
  lemma NormalizeTaskIdempotent(raw: StoredTask, now: int, newId: string, subIds: nat -> string,
                                now2: int, newId2: string, subIds2: nat -> string, t: Task)
    requires NormalizeTask(raw, now, newId, subIds) == Done(Some(t))
    requires FromYear100(StartDate(raw, now)) && FromYear100(EndDate(raw, now))
    requires raw.subtasks.Some? ==> forall j :: 0 <= j < |raw.subtasks.value| ==> TimestampInRange(raw.subtasks.value[j])
    ensures NormalizeTask(StoredTaskOf(t), now2, newId2, subIds2) == Done(Some(t))
  {
    var sd, ed := StartDate(raw, now), EndDate(raw, now);
    var subs := if raw.subtasks.Some? then NormalizeSubtasks(raw.subtasks.value, subIds) else [];
    NormalizeTaskShape(raw, now, newId, subIds, sd, ed, subs);
    CanonicalOfFormattedDate(sd);
    CanonicalOfFormattedDate(ed);
    TrimIdempotent(raw.name.s);
    if raw.subtasks.Some? {
      NormalizeSubtasksIdempotent(raw.subtasks.value, subIds, subIds2);
    }
    var back := StoredTaskOf(t);
    var sd2, ed2 := StartDate(back, now2), EndDate(back, now2);
    TextDates(back, now2, t.start, t.end);
    NormalizeTaskShape(back, now2, newId2, subIds2, sd2, ed2, NormalizeSubtasks(StoredList(t.subtasks), subIds2));
  }

  /** The fields normalizeTask computes for a task that has a name and no
      mistyped date, named by the Dates they format. */
  lemma NormalizeTaskShape(raw: StoredTask, now: int, newId: string, subIds: nat -> string,
                           sd: Date, ed: Date, subs: seq<Subtask>)
    requires raw.name.Str? && !MisTypedDate(raw.start) && !MisTypedDate(raw.end)
    requires sd == StartDate(raw, now) && ed == EndDate(raw, now)
    requires subs == if raw.subtasks.Some? then NormalizeSubtasks(raw.subtasks.value, subIds) else []
    ensures NormalizeTask(raw, now, newId, subIds)
         == Done(Some(Task(IdOr(raw.id, newId), Trim(raw.name.s), FormatISODate(sd), FormatISODate(ed), raw.durationDays, subs)))
  {
  }

  /** A start and an end that are non-empty strings are parsed as given. */
  lemma TextDates(raw: StoredTask, now: int, start: string, end: string)
    requires raw.start == Str(start) && raw.end == Str(end) && start != [] && end != []
    ensures StartDate(raw, now) == ParseISODate(start) && EndDate(raw, now) == ParseISODate(end)
  {
    TextStart(raw, now, start);
    TextEnd(raw, now, end);
  }

  lemma TextStart(raw: StoredTask, now: int, start: string)
    requires raw.start == Str(start) && start != []
    ensures StartDate(raw, now) == ParseISODate(start)
  {
    assert Truthy(raw.start);
  }

  lemma TextEnd(raw: StoredTask, now: int, end: string)
    requires !MisTypedDate(raw.start) && raw.end == Str(end) && end != []
    ensures EndDate(raw, now) == ParseISODate(end)
  {
    assert Truthy(raw.end);
  }

  /** The whole days an end date lies after its start when the end is
      computed from `Number(durationDays)`: the integer part of a positive
      number, 0 for anything else that is finite or not a number, None (an
      Invalid end) for +Infinity. */
  function WholeDays(n: Number): Option<nat> {
    match n
    case PosInf => None
    case Finite(r) => if r > 0.0 then Some(r.Floor) else Some(0)
    case _ => Some(0)
  }

  /** A computed end lies WholeDays(duration) days after the start. */
  lemma DurationEndDays(s: int, n: Number)
    ensures DurationEnd(Time(s), n) == (match WholeDays(n) case None => Invalid case Some(k) => Time(s + k * MsPerDay))
  {
    if n.Finite? && n.r > 0.0 {
      SetDateAheadFinite(s, n.r, s + n.r.Floor * MsPerDay);
    } else if !n.PosInf? {
      assert Max(OrZero(n), Finite(0.0)) == Finite(0.0);
      SetDateAheadFinite(s, 0.0, s);
    }
  }

  /** With no end field, the end is the start (as normalised, read back
      to the Date s) moved WholeDays(durationDays) days ahead, so never
      before the start; the normalised end is the formatted text of this
      Date (NormalizeTaskShape). */
  lemma NormalizeTaskEndFromDuration(raw: StoredTask, now: int, s: int)
    requires !MisTypedDate(raw.start) && !Truthy(raw.end)
    requires ParseISODate(FormatISODate(StartDate(raw, now))) == Time(s)
    ensures EndDate(raw, now) == (match WholeDays(ToNumber(raw.durationDays))
                                  case None => Invalid
                                  case Some(k) => Time(s + k * MsPerDay))
  {
    var sd, n := StartDate(raw, now), ToNumber(raw.durationDays);
    MissingEndDate(raw, now, sd, n);
    DurationEndDays(s, n);
  }

  /** Without an end field, the end Date is the formatted start read back
      and moved by the duration. */
  lemma MissingEndDate(raw: StoredTask, now: int, sd: Date, n: Number)
    requires !MisTypedDate(raw.start) && !Truthy(raw.end)
    requires sd == StartDate(raw, now) && n == ToNumber(raw.durationDays)
    ensures EndDate(raw, now) == DurationEnd(ParseISODate(FormatISODate(sd)), n)
  {
  }

  // ---------------------------------------------------------------------
  // The whole list

  /** normalizeTask as the callback of `map`; the index picks the new ids. */
  function TaskNormalizer(now: int, newId: nat -> string, subIds: nat -> nat -> string): (StoredTask, nat) -> Outcome<Option<Task>> {
    (raw: StoredTask, k: nat) => NormalizeTask(raw, now, newId(k), subIds(k))
  }

  /** The duplicate key `${name}-${start}-${end}`. */
  function Key(t: Task): string {
    t.name + "-" + t.start + "-" + t.end
  }

  /** The filter of normalizeTasks: drop nulls and every task whose key was
      seen before. */
  function Deduplicated(ts: seq<Option<Task>>, seen: set<string>): (r: seq<Task>)
    ensures forall j :: 0 <= j < |r| ==> Some(r[j]) in ts && Key(r[j]) !in seen
    decreases |ts|
  {
    if ts == [] then []
    else if ts[0].None? || Key(ts[0].value) in seen then Deduplicated(ts[1..], seen)
    else [ts[0].value] + Deduplicated(ts[1..], seen + {Key(ts[0].value)})
  }

  /** No two kept tasks share a key. */
  lemma {:induction false} DeduplicatedDistinct(ts: seq<Option<Task>>, seen: set<string>)
    ensures forall a, b :: 0 <= a < b < |Deduplicated(ts, seen)| ==>
              Key(Deduplicated(ts, seen)[a]) != Key(Deduplicated(ts, seen)[b])
    decreases |ts|
  {
    if ts != [] {
      if ts[0].None? || Key(ts[0].value) in seen {
        DeduplicatedDistinct(ts[1..], seen);
      } else {
        var k := Key(ts[0].value);
        DeduplicatedDistinct(ts[1..], seen + {k});
        var r' := Deduplicated(ts[1..], seen + {k});
        var r := Deduplicated(ts, seen);
        assert r == [ts[0].value] + r';
        forall a, b | 0 <= a < b < |r|
          ensures Key(r[a]) != Key(r[b])
        {
          assert r[b] == r'[b - 1];
          if a > 0 {
            assert r[a] == r'[a - 1];
          }
        }
      }
    }
  }

  /** Every task present in the input has its key among the kept ones (at
      position j), unless it was seen before. */
  lemma {:induction false} DeduplicatedCovers(ts: seq<Option<Task>>, seen: set<string>, i: nat) returns (j: nat)
    requires i < |ts| && ts[i].Some?
    ensures Key(ts[i].value) !in seen ==>
              j < |Deduplicated(ts, seen)| && Key(Deduplicated(ts, seen)[j]) == Key(ts[i].value)
    decreases |ts|
  {
    j := 0;
    var r := Deduplicated(ts, seen);
    var x := Key(ts[i].value);
    if x !in seen {
      if ts[0].Some? && Key(ts[0].value) !in seen {
        var k := Key(ts[0].value);
        var r' := Deduplicated(ts[1..], seen + {k});
        assert r == [ts[0].value] + r';
        if x != k {
          assert ts[1..][i - 1] == ts[i];
          var j' := DeduplicatedCovers(ts[1..], seen + {k}, i - 1);
          j := j' + 1;
        }
      } else {
        assert ts[1..][i - 1] == ts[i];
        j := DeduplicatedCovers(ts[1..], seen, i - 1);
      }
    }
  }

  /** The kept tasks keep their input order: two kept tasks come from two
      entries of the input in the same order. */
  lemma {:induction false} DeduplicatedOrder(ts: seq<Option<Task>>, seen: set<string>, i: int, j: int) returns (a: int, b: int)
    requires 0 <= i < j < |Deduplicated(ts, seen)|
    ensures 0 <= a < b < |ts|
    ensures ts[a] == Some(Deduplicated(ts, seen)[i]) && ts[b] == Some(Deduplicated(ts, seen)[j])
    decreases |ts|
  {
    var r := Deduplicated(ts, seen);
    if ts[0].None? || Key(ts[0].value) in seen {
      assert r == Deduplicated(ts[1..], seen);
      var a', b' := DeduplicatedOrder(ts[1..], seen, i, j);
      a, b := a' + 1, b' + 1;
      assert ts[a] == ts[1..][a'] && ts[b] == ts[1..][b'];
    } else {
      var seen' := seen + {Key(ts[0].value)};
      var rest := Deduplicated(ts[1..], seen');
      assert r == [ts[0].value] + rest;
      assert r[j] == rest[j - 1];
      if i == 0 {
        assert Some(rest[j - 1]) in ts[1..];
        var k := IndexIn(ts[1..], Some(rest[j - 1]));
        a, b := 0, k + 1;
        assert ts[b] == ts[1..][k];
      } else {
        assert r[i] == rest[i - 1];
        var a', b' := DeduplicatedOrder(ts[1..], seen', i - 1, j - 1);
        a, b := a' + 1, b' + 1;
        assert ts[a] == ts[1..][a'] && ts[b] == ts[1..][b'];
      }
    }
  }

  /** The first task with a key not seen before is the one kept. */
  lemma {:induction false} DeduplicatedFirstWins(ts: seq<Option<Task>>, seen: set<string>, i: nat)
    requires i < |ts| && ts[i].Some? && Key(ts[i].value) !in seen
    requires forall j :: 0 <= j < i && ts[j].Some? ==> Key(ts[j].value) != Key(ts[i].value)
    ensures ts[i].value in Deduplicated(ts, seen)
    decreases |ts|
  {
    if i > 0 {
      var seen' := if ts[0].None? || Key(ts[0].value) in seen then seen else seen + {Key(ts[0].value)};
      forall j | 0 <= j < i - 1 && ts[1..][j].Some?
        ensures Key(ts[1..][j].value) != Key(ts[1..][i - 1].value)
      {
        assert ts[1..][j] == ts[j + 1];
      }
      DeduplicatedFirstWins(ts[1..], seen', i - 1);
    }
  }

  /** normalizeTasks: normalise every entry, then keep the first task of
      each key. A task that throws makes the whole call throw. */
  method NormalizeTasks(raw: seq<StoredTask>, now: int, newId: nat -> string, subIds: nat -> nat -> string)
    returns (r: Outcome<seq<Task>>)
    ensures r.TypeError? <==> MapThrowing(raw, 0, TaskNormalizer(now, newId, subIds)).TypeError?
    ensures r.Done? ==> r.value == Deduplicated(MapThrowing(raw, 0, TaskNormalizer(now, newId, subIds)).value, {})
  {
    var m := Map(raw, TaskNormalizer(now, newId, subIds));
    if m.TypeError? {
      return TypeError;
    }
    var kept := DropDuplicates(m.value);
    r := Done(kept);
  }

  /** The filter of normalizeTasks with its `seen` set, entry by entry. */
  method DropDuplicates(mapped: seq<Option<Task>>) returns (kept: seq<Task>)
    ensures kept == Deduplicated(mapped, {})
  {
    var seen: set<string> := {};
    kept := [];
    var j := 0;
    while j < |mapped|
      invariant 0 <= j <= |mapped|
      invariant kept + Deduplicated(mapped[j..], seen) == Deduplicated(mapped, {})
    {
      var o := mapped[j];
      assert mapped[j..][1..] == mapped[j + 1..];
      if o.Some? && Key(o.value) !in seen {
        kept := kept + [o.value];
        seen := seen + {Key(o.value)};
      }
      j := j + 1;
    }
  }

  // ---------------------------------------------------------------------
  // Payloads

  /** createStoredSubtask: the id or a newId one, the title trimmed, the
      timestamp as given. */
  function CreateStoredSubtask(id: Option<string>, title: string, timestamp: string, newId: string): (r: StoredSubtask)
    ensures id.Some? ==> r.id == Str(id.value)
    ensures id.None? ==> r.id == Str(newId)
    ensures r.title == Str(Trim(title)) && Trim(r.title.s) == r.title.s
    ensures r.timestamp == Str(timestamp)
  {
    TrimIdempotent(title);
    StoredSubtask(Str(id.GetOr(newId)), Str(Trim(title)), Str(timestamp))
  }

  /** validateSubtaskPayload: null unless title and timestamp are strings and
      the timestamp parses; the title trimmed, the timestamp in toISOString form. */
  function ValidateSubtaskPayload(title: Value, timestamp: Value): (r: Option<(string, string)>)
    ensures r.Some? <==> title.Str? && timestamp.Str? && ParseTimestamp(timestamp.s).Time?
    ensures r.Some? ==> r.value.0 == Trim(title.s)
  {
    if !title.Str? || !timestamp.Str? then None
    else
      match ParseTimestamp(timestamp.s)
      case Invalid => None
      case Time(t) => Some((Trim(title.s), IsoString(t)))
  }

  /** A validated payload, stored by createStoredSubtask and read back by
      normalizeSubtask, gives what normalizeSubtask makes of the raw payload:
      validation loses nothing the reader keeps. */
  lemma ValidatedSubtaskNormalizes(id: Option<string>, title: string, timestamp: string, t: int, newId: string, newId2: string)
    requires ParseTimestamp(timestamp) == Time(t) && -999999 <= FullYear(t) <= 999999
    ensures ValidateSubtaskPayload(Str(title), Str(timestamp)) == Some((Trim(title), IsoString(t)))
    ensures NormalizeSubtask(Some(CreateStoredSubtask(id, Trim(title), IsoString(t), newId)), newId2)
         == NormalizeSubtask(Some(StoredSubtask(Str(id.GetOr(newId)), Str(title), Str(timestamp))), newId2)
  {
    ParseIsoString(t);
    TrimIdempotent(title);
  }

  /** parseDateTime: `new Date(`${date}T${time}`)` in toISOString form, or null. */
  function ParseDateTime(date: string, time: string): (r: Option<string>)
    ensures r.Some? <==> ParseTimestamp(date + "T" + time).Time?
  {
    match ParseTimestamp(date + "T" + time)
    case Invalid => None
    case Time(t) => Some(IsoString(t))
  }

  /** The ISO text parseDateTime returns names the same instant as its input. */
  lemma ParseDateTimeRoundTrip(date: string, time: string, t: int)
    requires ParseTimestamp(date + "T" + time) == Time(t) && -999999 <= FullYear(t) <= 999999
    ensures ParseDateTime(date, time).Some? && ParseTimestamp(ParseDateTime(date, time).value) == Time(t)
  {
    ParseIsoString(t);
  }

  /** A date field YYYY-MM-DD and a time field HH:mm as the form's inputs
      give them combine to that local minute. */
  lemma ParseDateTimeOfFields(y: int, mo: nat, dd: nat, h: nat, mi: nat)
    requires 0 <= y <= 9999 && 1 <= mo <= 12 && 1 <= dd <= DaysInMonth(y, mo - 1) && h < 24 && mi < 60
    ensures ParseTimestamp(DateTimeText(y, mo, dd, h, mi))
         == Time(MakeDay(y, mo - 1, dd) * MsPerDay + h * MsPerHour + mi * MsPerMinute)
  {
    DateTimeTextFields(y, mo, dd, h, mi);
    ParseDateAndTime(y, mo, dd, h, mi);
  }

  /** `${date}T${time}` for the form's YYYY-MM-DD date and HH:mm time. */
  function DateTimeText(y: int, mo: nat, dd: nat, h: nat, mi: nat): string {
    YearText(y) + "-" + FixedDigits(mo, 2) + "-" + FixedDigits(dd, 2) + "T" + FixedDigits(h, 2) + ":" + FixedDigits(mi, 2)
  }

  lemma DateTimeTextFields(y: int, mo: nat, dd: nat, h: nat, mi: nat)
    ensures DateTimeText(y, mo, dd, h, mi) == YearText(y) + Field('-', mo, 2, Field('-', dd, 2, Field('T', h, 2, Field(':', mi, 2, ""))))
  {
  }

  /** A task payload of an API request, fields loosely typed. */
  datatype TaskPayload = TaskPayload(id: Value, name: Value, start: Value, end: Value)

  datatype TaskInput = TaskInput(id: Option<string>, name: string, start: string, end: string)

  /** validateTaskPayload: the fields as given (untrimmed), the id only when
      it is required (and then it must be a string). */
  function ValidateTaskPayload(p: TaskPayload, requireId: bool): (r: Option<TaskInput>)
    ensures r.Some? <==> (!requireId || p.id.Str?) && p.name.Str? && p.start.Str? && p.end.Str?
    ensures r.Some? ==> (r.value.id.Some? <==> requireId)
  {
    if requireId && !p.id.Str? then None
    else if !p.name.Str? || !p.start.Str? || !p.end.Str? then None
    else Some(TaskInput(if requireId then Some(p.id.s) else None, p.name.s, p.start.s, p.end.s))
  }

  function PayloadOf(i: TaskInput): TaskPayload {
    TaskPayload(if i.id.Some? then Str(i.id.value) else Undefined, Str(i.name), Str(i.start), Str(i.end))
  }

  /** A validated payload validates again to itself; the accepted fields
      are exactly the payload's. */
  lemma ValidateTaskPayloadStable(p: TaskPayload, requireId: bool)
    requires ValidateTaskPayload(p, requireId).Some?
    ensures var i := ValidateTaskPayload(p, requireId).value;
            ValidateTaskPayload(PayloadOf(i), requireId) == Some(i)
            && Str(i.name) == p.name && Str(i.start) == p.start && Str(i.end) == p.end
            && (requireId ==> Str(i.id.value) == p.id)
  {
  }
}
