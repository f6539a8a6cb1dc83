/**
 * The task form hook (src/components/QuarterPlanner/hooks/useTaskForm.ts),
 * shared by the create and edit pages: default dates, the form loaded for
 * editing, validation, the request body a submission sends, field changes
 * and reset. The fetch answers are parameters (the tasks list, or None for
 * a failed response; the save outcome); `new Date()` is `now`. Toasts,
 * navigation and the `cancelled` flag of the loader are not modelled.
 */
module TaskForm {
  import opened Wrappers
  import opened Calendar
  import opened JsString
  import opened JsNumber
  import opened JsDate
  import opened Quarter
  import opened TaskUtils

  /** The three text fields of the form. */
  datatype FormState = FormState(name: string, start: string, end: string)

  datatype Field = Name | Start | End

  const MissingName := "Please provide a task name."
  const MissingDates := "Please pick both start and end dates."
  const EndBeforeStart := "The end date must be on or after the start date."

  const LoadFailed := "Failed to load task data."
  const TaskNotFound := "Task not found."
  const NameMissing := "Task is missing a name."
  const StartMissing := "Task is missing start information."

  const UpdateFailed := "Failed to update task."
  const SaveFailed := "Failed to save task."

  // ---------------------------------------------------------------------
  // Defaults

  /** `today`: the local midnight of now. */
  function Today(now: int): Date {
    StartOfDay(Time(now))
  }

  /** defaultStart: today's date. */
  function DefaultStart(now: int): string {
    FormatISODate(Today(now))
  }

  /** defaultEnd: `future.setDate(future.getDate() + 7)` on a copy of today. */
  function DefaultEnd(now: int): string {
    FormatISODate(SetDateAhead(Today(now), FromInt(7)))
  }

  /** The create-mode form: no name, from today to a week later. */
  function DefaultForm(now: int): FormState {
    FormState("", DefaultStart(now), DefaultEnd(now))
  }

  /** The default form has an empty name and runs from the midnight of
      today (s) to the midnight seven days later. */
  lemma DefaultFormDates(now: int, s: int)
    requires Time(s) == Today(now)
    ensures DefaultForm(now).name == ""
    ensures DefaultForm(now).start == FormatISODate(Time(s))
    ensures DefaultForm(now).end == FormatISODate(Time(s + 7 * MsPerDay))
  {
    SetDateAheadWhole(s, 7, s + 7 * MsPerDay);
  }

  // ---------------------------------------------------------------------
  // Validation and the request body

  /** validateForm: the first failing check's message, or None. An Invalid
      Date never compares after another, so unparsable dates pass. */
  function ValidateForm(f: FormState): (r: Option<string>)
    ensures r.None? ==> Trim(f.name) != "" && f.start != "" && f.end != ""
  {
    if Trim(f.name) == "" then Some(MissingName)
    else if f.start == "" || f.end == "" then Some(MissingDates)
    else if After(ParseISODate(f.start), ParseISODate(f.end)) then Some(EndBeforeStart)
    else None
  }

  /** The checks run in order and each message names the first failure. */
  lemma ValidateFormOrder(f: FormState)
    ensures ValidateForm(f) == Some(MissingName) <==> Trim(f.name) == ""
    ensures ValidateForm(f) == Some(MissingDates) <==> Trim(f.name) != "" && (f.start == "" || f.end == "")
    ensures ValidateForm(f) == Some(EndBeforeStart) <==>
      Trim(f.name) != "" && f.start != "" && f.end != "" && After(ParseISODate(f.start), ParseISODate(f.end))
  {
  }

  /** What a valid form submits: the trimmed name and each date parsed and
      formatted again. */
  function Submitted(f: FormState): FormState {
    FormState(Trim(f.name), CanonicalDate(f.start), CanonicalDate(f.end))
  }

  /** The request body: the id (edit mode only) and the submitted fields. */
  function RequestBody(f: FormState, id: Option<string>): TaskInput {
    var g := Submitted(f);
    TaskInput(id, g.name, g.start, g.end)
  }

  /** The API's payload validation accepts the request body as it is, with
      the id required exactly when one is sent. */
  lemma RequestBodyAccepted(f: FormState, id: Option<string>)
    ensures ValidateTaskPayload(PayloadOf(RequestBody(f, id)), id.Some?) == Some(RequestBody(f, id))
  {
  }

  /** A valid form submits a non-empty trimmed name and canonical dates
      (for years from 100 on) whose start does not come after its end when
      read back; the submitted form is valid again and submits itself. */
  lemma SubmittedShape(f: FormState)
    requires ValidateForm(f) == None
    requires ParseISODate(f.start).Time? ==> FullYear(ParseISODate(f.start).ms) >= 100
    requires ParseISODate(f.end).Time? ==> FullYear(ParseISODate(f.end).ms) >= 100
    ensures var g := Submitted(f);
      && g.name != "" && Trim(g.name) == g.name
      && CanonicalDate(g.start) == g.start && CanonicalDate(g.end) == g.end
      && !After(ParseISODate(g.start), ParseISODate(g.end))
      && ValidateForm(g) == None && Submitted(g) == g
  {
    TrimIdempotent(f.name);
    var sd, ed := ParseISODate(f.start), ParseISODate(f.end);
    CanonicalOfFormattedDate(sd);
    CanonicalOfFormattedDate(ed);
    FormattedNonEmpty(sd);
    FormattedNonEmpty(ed);
    if sd.Time? && ed.Time? {
      ReadBackOrdered(sd.ms, ed.ms);
    } else {
      CanonicalOfNaN();
    }
  }

  // ---------------------------------------------------------------------
  // Field changes

  /** `{ ...previous, [field]: value }`. */
  function WithField(f: FormState, field: Field, value: string): FormState {
    match field
    case Name => f.(name := value)
    case Start => f.(start := value)
    case End => f.(end := value)
  }

  /** handleChange's update: a missing form stays missing. */
  function Change(form: Option<FormState>, field: Field, value: string): Option<FormState> {
    if form.None? then form else Some(WithField(form.value, field, value))
  }

  /** A change sets the named field, leaves the other two alone, keeps a
      missing form missing, is undone by writing the old value back, and a
      second change to the same field overrides the first. */
  lemma ChangeOneField(form: Option<FormState>, field: Field, value: string, value2: string)
    ensures Change(form, field, value).None? <==> form.None?
    ensures form.Some? ==> var g := Change(form, field, value).value;
      && (g.name == if field == Name then value else form.value.name)
      && (g.start == if field == Start then value else form.value.start)
      && (g.end == if field == End then value else form.value.end)
    ensures Change(Change(form, field, value), field, value2) == Change(form, field, value2)
    ensures form.Some? ==>
      Change(Change(form, field, value), field, FieldOf(form.value, field)) == form
  {
  }

  function FieldOf(f: FormState, field: Field): string {
    match field
    case Name => f.name
    case Start => f.start
    case End => f.end
  }

  // ---------------------------------------------------------------------
  // Loading a task for editing

  datatype Loaded = Loaded(form: FormState) | Failed(message: string)

  /** `tasks.find(item => item.id === taskId)`. */
  function FindTask(tasks: seq<StoredTask>, taskId: string): (r: Option<StoredTask>)
    ensures r.Some? ==> r.value in tasks && r.value.id == Str(taskId)
    ensures r.None? <==> forall i :: 0 <= i < |tasks| ==> tasks[i].id != Str(taskId)
  {
    if tasks == [] then None
    else if tasks[0].id == Str(taskId) then Some(tasks[0])
    else
      var r := FindTask(tasks[1..], taskId);
      assert forall i :: 1 <= i < |tasks| ==> tasks[i] == tasks[1..][i - 1];
      r
  }

  /** baseStart: the canonical start, else today when durationDays is a
      number, else None (the load fails). */
  function BaseStart(task: StoredTask, now: int): Option<string> {
    if task.start.Str? then Some(CanonicalDate(task.start.s))
    else if task.durationDays.Num? then Some(FormatISODate(Today(now)))
    else None
  }

  /** baseEnd: the canonical end; else the start moved
      `Math.max(durationDays, 0)` days when durationDays is a number; else
      the start. */
  function BaseEnd(task: StoredTask, baseStart: string): string {
    if task.end.Str? then CanonicalDate(task.end.s)
    else if task.durationDays.Num? then FormatISODate(DurationEndOf(ParseISODate(baseStart), task.durationDays.n))
    else baseStart
  }

  /** The end date a numeric durationDays gives: the start moved
      `Math.max(durationDays, 0)` days. */
  function DurationEndOf(start: Date, n: Number): Date {
    SetDateAhead(start, Max(n, Finite(0.0)))
  }

  /** The edit-mode loader: the form of the task with the id, or the
      message of the first failure. */
  function LoadTaskForm(fetched: Option<seq<StoredTask>>, taskId: string, now: int): (r: Loaded)
    ensures r == Failed(LoadFailed) <==> fetched.None?
  {
    if fetched.None? then Failed(LoadFailed)
    else
      var found := FindTask(fetched.value, taskId);
      if found.None? then Failed(TaskNotFound)
      else
        var task := found.value;
        if !task.name.Str? then Failed(NameMissing)
        else
          var start := BaseStart(task, now);
          if start.None? then Failed(StartMissing)
          else Loaded(FormState(task.name.s, start.value, BaseEnd(task, start.value)))
  }

  /** The load fails exactly when the response failed, no task has the id,
      the found task's name is not a string, or it has neither a string
      start nor a numeric durationDays; a loaded form keeps the name as
      stored. */
  lemma LoadTaskFormOutcome(tasks: seq<StoredTask>, taskId: string, now: int)
    ensures var r := LoadTaskForm(Some(tasks), taskId, now);
      var found := FindTask(tasks, taskId);
      && (r == Failed(TaskNotFound) <==> forall i :: 0 <= i < |tasks| ==> tasks[i].id != Str(taskId))
      && (r.Loaded? <==> found.Some? && found.value.name.Str?
                         && (found.value.start.Str? || found.value.durationDays.Num?))
      && (r.Loaded? ==> Str(r.form.name) == found.value.name)
  {
  }

  /** A task with text dates loads with its name as stored and its dates
      canonicalised, whatever the clock. */
  lemma LoadedTextDates(task: StoredTask, taskId: string, now: int)
    requires task.id == Str(taskId) && task.name.Str? && task.start.Str? && task.end.Str?
    ensures LoadTaskForm(Some([task]), taskId, now)
         == Loaded(FormState(task.name.s, CanonicalDate(task.start.s), CanonicalDate(task.end.s)))
  {
    assert FindTask([task], taskId) == Some(task);
    assert BaseStart(task, now) == Some(CanonicalDate(task.start.s));
  }

  /** Without an end, a numeric durationDays n puts the end `max(n, 0)`
      whole days after the loaded start (midnight s), so never before it: a
      finite n its whole part when positive and 0 otherwise, -Infinity 0,
      and NaN or Infinity an Invalid end. */
  lemma LoadedEndFromDuration(s: int, n: Number)
    ensures DurationEndOf(Time(s), n) ==
      if n.Finite? then Time(s + (if n.r > 0.0 then n.r.Floor else 0) * MsPerDay)
      else if n.NegInf? then Time(s)
      else Invalid
    ensures DurationEndOf(Time(s), n).Time? ==> DurationEndOf(Time(s), n).ms >= s
  {
    if n.Finite? {
      var m := if n.r > 0.0 then n.r else 0.0;
      assert Max(n, Finite(0.0)) == Finite(m);
      SetDateAheadFinite(s, m, s + m.Floor * MsPerDay);
    } else if n.NegInf? {
      assert Max(n, Finite(0.0)) == Finite(0.0);
      SetDateAheadFinite(s, 0.0, s);
    }
  }

  // ---------------------------------------------------------------------
  // The hook's state

  /** How the save request ends: success, or a failed response whose JSON
      may carry an `error` text. */
  datatype SaveResult = Saved | Rejected(error: Option<string>)

  /** `Boolean(taskId)`. */
  predicate EditMode(taskId: Option<string>) {
    taskId.Some? && taskId.value != ""
  }

  /** The id the request carries: the task's in edit mode, none otherwise. */
  function SentId(taskId: Option<string>): Option<string> {
    if EditMode(taskId) then taskId else None
  }

  /** The message of a rejected save without an `error` field. */
  function FallbackMessage(taskId: Option<string>): string {
    if EditMode(taskId) then UpdateFailed else SaveFailed
  }

  class TaskFormHook {
    const taskId: Option<string>
    const defaultForm: FormState
    var form: Option<FormState>
    var initialForm: Option<FormState>
    var error: Option<string>
    var loadError: Option<string>
    var isSaving: bool

    /** Edit mode starts with no form (it is loaded); create mode with the
        default form, which the hook computes from `new Date()` when it
        starts: `defaults` is DefaultForm of that time. */
    constructor(id: Option<string>, defaults: FormState)
      ensures taskId == id && defaultForm == defaults
      ensures form == (if EditMode(id) then None else Some(defaults))
      ensures initialForm == None && error == None && loadError == None && !isSaving
    {
      taskId := id;
      defaultForm := defaults;
      form := if EditMode(id) then None else Some(defaults);
      initialForm := None;
      error := None;
      loadError := None;
      isSaving := false;
    }

    /** The edit-mode loader: a loaded form becomes both the form and the
        initial form; a failure sets the load error. Create mode loads
        nothing. */
    method LoadTask(fetched: Option<seq<StoredTask>>, now: int)
      modifies this
      ensures !EditMode(taskId) ==> form == old(form) && initialForm == old(initialForm) && loadError == old(loadError)
      ensures EditMode(taskId) ==> match LoadTaskForm(fetched, taskId.value, now)
        case Loaded(f) => form == Some(f) && initialForm == Some(f) && loadError == None
        case Failed(m) => form == old(form) && initialForm == old(initialForm) && loadError == Some(m)
      ensures error == old(error) && isSaving == old(isSaving)
    {
      if !EditMode(taskId) {
        return;
      }
      loadError := None;
      var outcome := LoadTaskForm(fetched, taskId.value, now);
      match outcome
      case Loaded(f) =>
        form := Some(f);
        initialForm := Some(f);
      case Failed(m) =>
        loadError := Some(m);
    }

    /** handleChange. */
    method HandleChange(field: Field, value: string)
      modifies this
      ensures form == Change(old(form), field, value)
      ensures initialForm == old(initialForm) && error == old(error) && isSaving == old(isSaving)
    {
      if form.None? {
        return;
      }
      form := Some(WithField(form.value, field, value));
    }

    /** handleSubmit: nothing without a form; an invalid form only sets the
        error; otherwise the body is sent (`sent`) and a rejected save sets
        the error and clears isSaving, while a successful one leaves the
        page saving until it navigates away. */
    method HandleSubmit(result: SaveResult) returns (sent: Option<TaskInput>)
      modifies this
      ensures old(form).None? ==> sent.None? && error == old(error) && isSaving == old(isSaving)
      ensures old(form).Some? && ValidateForm(old(form).value).Some? ==>
        sent.None? && error == ValidateForm(old(form).value) && isSaving == old(isSaving)
      ensures old(form).Some? && ValidateForm(old(form).value).None? ==>
        && sent == Some(RequestBody(old(form).value, SentId(taskId)))
        && (result == Saved ==> error == None && isSaving)
        && (result.Rejected? ==> !isSaving && error == Some(result.error.GetOr(FallbackMessage(taskId))))
      ensures form == old(form) && initialForm == old(initialForm)
    {
      sent := None;
      if form.None? {
        return;
      }
      var validationError := ValidateForm(form.value);
      if validationError.Some? {
        error := validationError;
        return;
      }
      var body := RequestBody(form.value, SentId(taskId));
      sent := Save(body, result);
    }

    /** The request carrying a valid form's body, and its outcome. */
    method Save(body: TaskInput, result: SaveResult) returns (sent: Option<TaskInput>)
      modifies this
      ensures sent == Some(body)
      ensures result == Saved ==> error == None && isSaving
      ensures result.Rejected? ==> !isSaving && error == Some(result.error.GetOr(FallbackMessage(taskId)))
      ensures form == old(form) && initialForm == old(initialForm)
    {
      sent := Some(body);
      isSaving := true;
      error := None;
      if result.Rejected? {
        error := Some(result.error.GetOr(FallbackMessage(taskId)));
        isSaving := false;
      }
    }

    /** handleReset: the initial form in edit mode once loaded, otherwise
        the default form (also in edit mode before a load); the error is
        cleared either way. */
    method HandleReset()
      modifies this
      ensures form == (if EditMode(taskId) && old(initialForm).Some? then old(initialForm) else Some(defaultForm))
      ensures error == None && initialForm == old(initialForm) && isSaving == old(isSaving)
    {
      if EditMode(taskId) && initialForm.Some? {
        form := initialForm;
        error := None;
      } else {
        form := Some(defaultForm);
        error := None;
      }
    }
  }
}
