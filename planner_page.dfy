/**
 * The single-page quarter planner (src/components/QuarterPlanner.tsx): the
 * quarter read from the `year` and `quarter` search parameters, with
 * today's quarter as the fallback, and the page's own task list, which an
 * inline form appends to (at most ten tasks) and a remove button filters.
 * `new Date()` at module load and at mount are the `loadTime` and `now`
 * parameters; `crypto.randomUUID()` is the `newId` parameter.
 */
module PlannerPage {
  import opened Wrappers
  import opened JsString
  import opened JsNumber
  import opened JsDate
  import opened Quarter
  import opened JsArray

  /** A task of the planner's list. */
  datatype PlannerTask = PlannerTask(id: string, name: string, start: string, end: string)

  const MaxTasks := 10

  const TooManyTasks := "Only 10 tasks are supported."
  const MissingName := "Please provide a task name."
  const MissingDates := "Please pick both start and end dates."
  const EndBeforeStart := "The end date must be on or after the start date."

  // ---------------------------------------------------------------------
  // The quarter of the page

  /** The quarter parseQuarterFromSearch returns: two finite numbers, not
      necessarily whole. */
  datatype SearchQuarter = SearchQuarter(year: real, quarter: real)

  /** `Number(searchParams.get(name))`: a missing parameter is null, which
      reads as 0. */
  function ParamNumber(p: Option<string>): Number {
    if p.Some? then StringToNumber(p.value) else Finite(0.0)
  }

  /** parseQuarterFromSearch: null unless both parameters read as finite
      numbers and the quarter lies in 1..4; otherwise both numbers as read. */
  function ParseQuarterFromSearch(year: Option<string>, quarter: Option<string>): (r: Option<SearchQuarter>)
    ensures r.None? <==>
      !ParamNumber(year).Finite? || !ParamNumber(quarter).Finite?
      || ParamNumber(quarter).r < 1.0 || ParamNumber(quarter).r > 4.0
    ensures r.Some? ==>
      ParamNumber(year) == Finite(r.value.year) && ParamNumber(quarter) == Finite(r.value.quarter)
  {
    var y := ParamNumber(year);
    var q := ParamNumber(quarter);
    if !y.Finite? || !q.Finite? then None
    else if q.r < 1.0 || q.r > 4.0 then None
    else Some(SearchQuarter(y.r, q.r))
  }

  /** A missing quarter parameter reads as 0 and is refused whatever the
      year; a missing year reads as 0 and is accepted. */
  lemma MissingParameters(year: Option<string>, q: nat)
    requires 1 <= q <= 4
    ensures ParseQuarterFromSearch(year, None) == None
    ensures ParseQuarterFromSearch(None, Some(NatToString(q))) == Some(SearchQuarter(0.0, q as real))
  {
    NatToStringNumber(q);
  }

  /** The parameters written as `String(year)` and `String(quarter)` for a
      valid quarter read back as that quarter. */
  lemma SearchRoundTrip(year: nat, q: nat)
    requires 1 <= q <= 4
    ensures ParseQuarterFromSearch(Some(NatToString(year)), Some(NatToString(q)))
         == Some(SearchQuarter(year as real, q as real))
  {
    NatToStringNumber(year);
    NatToStringNumber(q);
  }

  function AsSearchQuarter(k: QuarterKey): SearchQuarter {
    SearchQuarter(k.year as real, k.quarter as real)
  }

  /** `searchQuarter ?? fallbackQuarter`, the fallback being the quarter of
      today. */
  function CurrentQuarter(search: Option<SearchQuarter>, today: int): (r: SearchQuarter)
    ensures 1.0 <= r.quarter <= 4.0 || search.Some?
  {
    if search.Some? then search.value else AsSearchQuarter(GetQuarterFromDate(today))
  }

  /** The current quarter is the parsed one when the parameters are usable
      and otherwise today's quarter, a whole quarter 1..4 of today's year;
      either way its quarter lies in 1..4. */
  lemma CurrentQuarterOf(year: Option<string>, quarter: Option<string>, today: int)
    ensures var search := ParseQuarterFromSearch(year, quarter);
      var r := CurrentQuarter(search, today);
      && 1.0 <= r.quarter <= 4.0
      && (search.Some? ==> r == search.value)
      && (search.None? ==> r.year == FullYear(today) as real && r.quarter == (Month(today) / 3 + 1) as real)
  {
  }

  // ---------------------------------------------------------------------
  // The task list

  /** DEFAULT_TASKS: one kickoff task from the day the module loads to
      fourteen days later. */
  function DefaultTasks(loadTime: int): (r: seq<PlannerTask>)
    ensures |r| == 1 <= MaxTasks && r[0].id == "kickoff"
  {
    [PlannerTask("kickoff", "Product Discovery",
                 FormatISODate(Time(loadTime)), FormatISODate(Time(loadTime + 14 * 24 * 60 * 60 * 1000)))]
  }

  /** The error handleSubmit reports, or None when it accepts: the checks
      run in order (list full, blank name, missing date, start after end),
      and an Invalid Date never compares after another. */
  function SubmitError(count: int, name: string, start: string, end: string): Option<string> {
    if count >= MaxTasks then Some(TooManyTasks)
    else if Trim(name) == "" then Some(MissingName)
    else if start == "" || end == "" then Some(MissingDates)
    else if After(ParseISODate(start), ParseISODate(end)) then Some(EndBeforeStart)
    else None
  }

  /** The task an accepted submission appends: trimmed name, canonical dates. */
  function SubmittedTask(id: string, name: string, start: string, end: string): PlannerTask {
    PlannerTask(id, Trim(name), CanonicalDate(start), CanonicalDate(end))
  }

  /** Only a list below the limit accepts a task, so it never grows past
      ten; an accepted task has a non-empty trimmed name and canonical
      dates whose start does not come after its end when read back (for
      years from 100 on). */
  lemma SubmittedTaskShape(count: int, id: string, name: string, start: string, end: string)
    requires SubmitError(count, name, start, end) == None
    requires ParseISODate(start).Time? ==> FullYear(ParseISODate(start).ms) >= 100
    requires ParseISODate(end).Time? ==> FullYear(ParseISODate(end).ms) >= 100
    ensures count + 1 <= MaxTasks
    ensures var t := SubmittedTask(id, name, start, end);
      && t.name != "" && Trim(t.name) == t.name
      && CanonicalDate(t.start) == t.start && CanonicalDate(t.end) == t.end
      && !After(ParseISODate(t.start), ParseISODate(t.end))
  {
    TrimIdempotent(name);
    var sd, ed := ParseISODate(start), ParseISODate(end);
    CanonicalOfFormattedDate(sd);
    CanonicalOfFormattedDate(ed);
    if sd.Time? && ed.Time? {
      ReadBackOrdered(sd.ms, ed.ms);
    } else {
      CanonicalOfNaN();
    }
  }

  /** Text that is not a date passes the order check, since an Invalid Date
      compares after nothing, and is stored as "NaN-NaN-NaN". */
  lemma NonDatesAccepted(name: string)
    requires Trim(name) != ""
    ensures SubmitError(0, name, "soon", "soon") == None
    ensures SubmittedTask("id", name, "soon", "soon").start == "NaN-NaN-NaN"
  {
    CanonicalOfNonDate();
  }

  /** `task => task.id !== taskId`. */
  function IdIsNot(taskId: string): PlannerTask -> bool {
    (t: PlannerTask) => t.id != taskId
  }

  /** handleRemoveTask's filter. */
  function RemoveTask(tasks: seq<PlannerTask>, taskId: string): seq<PlannerTask> {
    Filter(tasks, IdIsNot(taskId))
  }

  /** Removing keeps exactly the tasks with another id, adds and repeats
      nothing, keeps their order, and leaves a list without the id as it
      was. */
  lemma RemoveTaskExact(tasks: seq<PlannerTask>, taskId: string)
    ensures forall t :: t in RemoveTask(tasks, taskId) <==> t in tasks && t.id != taskId
    ensures multiset(RemoveTask(tasks, taskId)) <= multiset(tasks)
    ensures (forall i :: 0 <= i < |tasks| ==> tasks[i].id != taskId) ==> RemoveTask(tasks, taskId) == tasks
  {
    FilterSubMultiset(tasks, IdIsNot(taskId));
    if forall i :: 0 <= i < |tasks| ==> tasks[i].id != taskId {
      FilterAll(tasks, IdIsNot(taskId));
    }
  }

  /** Removed tasks keep their relative order. */
  lemma RemoveTaskOrdered(tasks: seq<PlannerTask>, taskId: string, i: int, j: int) returns (a: int, b: int)
    requires 0 <= i < j < |RemoveTask(tasks, taskId)|
    ensures 0 <= a < b < |tasks|
    ensures tasks[a] == RemoveTask(tasks, taskId)[i] && tasks[b] == RemoveTask(tasks, taskId)[j]
  {
    a, b := FilterOrder(tasks, IdIsNot(taskId), i, j);
  }

  /** The page's state: the task list, the form fields and the error. */
  class Page {
    const today: int
    /** `formatISODate(today)`, the same text every time since today is
        fixed at mount. */
    const todayText: string
    var tasks: seq<PlannerTask>
    var name: string
    var start: string
    var end: string
    var error: Option<string>

    /** The initial list and an empty form dated today. The list is
        DEFAULT_TASKS, built once when the module loads: DefaultTasks of the
        load time. */
    constructor(defaults: seq<PlannerTask>, now: int)
      ensures today == now && todayText == FormatISODate(Time(now)) && tasks == defaults
      ensures name == "" && start == todayText && end == todayText && error == None
    {
      today := now;
      todayText := FormatISODate(Time(now));
      tasks := defaults;
      name := "";
      start := todayText;
      end := todayText;
      error := None;
    }

    /** resetForm: empty name, both dates today, no error. */
    method ResetForm()
      modifies this
      ensures name == "" && start == todayText && end == todayText
      ensures error == None && tasks == old(tasks)
    {
      name := "";
      start := todayText;
      end := todayText;
      error := None;
    }

    /** handleSubmit: a refused submission only sets the error; an accepted
        one appends one task and resets the form. The list only grows while
        it holds fewer than ten tasks. */
    method HandleSubmit(newId: string)
      modifies this
      ensures var e := SubmitError(old(|tasks|), old(name), old(start), old(end));
        && (e.Some? ==> error == e && tasks == old(tasks)
                        && name == old(name) && start == old(start) && end == old(end))
        && (e.None? ==> tasks == old(tasks) + [SubmittedTask(newId, old(name), old(start), old(end))]
                        && name == "" && start == todayText && end == todayText && error == None)
      ensures tasks == old(tasks) || |tasks| <= MaxTasks
    {
      if |tasks| >= MaxTasks {
        error := Some(TooManyTasks);
        return;
      }
      if Trim(name) == "" {
        error := Some(MissingName);
        return;
      }
      if start == "" || end == "" {
        error := Some(MissingDates);
        return;
      }
      var startDate := ParseISODate(start);
      var endDate := ParseISODate(end);
      if After(startDate, endDate) {
        error := Some(EndBeforeStart);
        return;
      }
      tasks := tasks + [PlannerTask(newId, Trim(name), FormatISODate(startDate), FormatISODate(endDate))];
      ResetForm();
    }

    /** handleRemoveTask: the list filtered on the id; the form is untouched. */
    method HandleRemoveTask(taskId: string)
      modifies this
      ensures tasks == RemoveTask(old(tasks), taskId)
      ensures name == old(name) && start == old(start) && end == old(end) && error == old(error)
    {
      tasks := Filter(tasks, IdIsNot(taskId));
    }
  }
}
