/**
 * The edit page of one task (src/components/QuarterPlanner/TaskEdit.tsx):
 * the task loaded into a form with its dates in canonical form, field
 * changes, a submit that validates and sends a PUT with the trimmed name
 * and canonical dates, and a reset to the loaded form. The fetch answers
 * are parameters: the tasks list (None for a failed response), the save
 * outcome, and the message of the TypeError that reading a task's
 * non-text date raises. Navigation is the quarter a successful save
 * returns to; going back on cancel is not modelled.
 */
module TaskEdit {
  import opened Wrappers
  import opened JsNumber
  import opened JsDate
  import opened Quarter
  import opened TaskUtils
  import opened TaskForm

  /** The loader: the form of the task with the id, its name as stored and
      both dates parsed and formatted again; or the message of the first
      failure. Reading a date that is not text throws. */
  function EditLoad(fetched: Option<seq<StoredTask>>, taskId: string, typeError: string): (r: Loaded)
    ensures fetched.None? ==> r == Failed(LoadFailed)
    ensures r.Loaded? ==> fetched.Some? && FindTask(fetched.value, taskId).Some?
  {
    if fetched.None? then Failed(LoadFailed)
    else
      var found := FindTask(fetched.value, taskId);
      if found.None? then Failed(TaskNotFound)
      else
        var task := found.value;
        if !task.name.Str? || !task.start.Str? || !task.end.Str? then Failed(typeError)
        else Loaded(FormState(task.name.s, CanonicalDate(task.start.s), CanonicalDate(task.end.s)))
  }

  /** The load fails exactly when the response failed, no task has the id,
      or the found task's fields are not text; a loaded form is the found
      task's name with its canonical dates. */
  lemma EditLoadOutcome(tasks: seq<StoredTask>, taskId: string, typeError: string)
    requires typeError != LoadFailed && typeError != TaskNotFound
    ensures var r := EditLoad(Some(tasks), taskId, typeError);
      var found := FindTask(tasks, taskId);
      && (r == Failed(TaskNotFound) <==> forall i :: 0 <= i < |tasks| ==> tasks[i].id != Str(taskId))
      && (r.Loaded? <==> found.Some? && found.value.name.Str? && found.value.start.Str? && found.value.end.Str?)
      && (r.Loaded? ==> Str(r.form.name) == found.value.name
                        && r.form.start == CanonicalDate(found.value.start.s)
                        && r.form.end == CanonicalDate(found.value.end.s))
  {
  }

  /** The loaded dates are already canonical (for stored years from 100
      on), so submitting the form unchanged sends the dates it shows. */
  lemma EditLoadCanonical(tasks: seq<StoredTask>, taskId: string, typeError: string)
    requires EditLoad(Some(tasks), taskId, typeError).Loaded?
    requires var task := FindTask(tasks, taskId).value;
      && (ParseISODate(task.start.s).Time? ==> FullYear(ParseISODate(task.start.s).ms) >= 100)
      && (ParseISODate(task.end.s).Time? ==> FullYear(ParseISODate(task.end.s).ms) >= 100)
    ensures var f := EditLoad(Some(tasks), taskId, typeError).form;
      && CanonicalDate(f.start) == f.start && CanonicalDate(f.end) == f.end
      && Submitted(f).start == f.start && Submitted(f).end == f.end
  {
    var task := FindTask(tasks, taskId).value;
    CanonicalDateIdempotent(task.start.s);
    CanonicalDateIdempotent(task.end.s);
  }

  /** The page's state. */
  class EditPage {
    const taskId: string
    const quarter: QuarterKey
    var form: Option<FormState>
    var initialForm: Option<FormState>
    var error: Option<string>
    var loadError: Option<string>
    var isSaving: bool

    /** No form until the task is loaded; no errors; not saving. */
    constructor(id: string, q: QuarterKey)
      ensures taskId == id && quarter == q
      ensures form == None && initialForm == None && error == None && loadError == None && !isSaving
    {
      taskId := id;
      quarter := q;
      form := None;
      initialForm := None;
      error := None;
      loadError := None;
      isSaving := false;
    }

    /** loadTask: a loaded form becomes both the form and the initial
        form; a failure sets the load error. */
    method LoadTask(fetched: Option<seq<StoredTask>>, typeError: string)
      modifies this
      ensures match EditLoad(fetched, taskId, typeError)
        case Loaded(f) => form == Some(f) && initialForm == Some(f) && loadError == None
        case Failed(m) => form == old(form) && initialForm == old(initialForm) && loadError == Some(m)
      ensures error == old(error) && isSaving == old(isSaving)
    {
      loadError := None;
      var outcome := EditLoad(fetched, taskId, typeError);
      match outcome
      case Loaded(f) =>
        form := Some(f);
        initialForm := Some(f);
      case Failed(m) =>
        loadError := Some(m);
    }

    /** handleChange: the named field of a present form. */
    method HandleChange(field: Field, value: string)
      modifies this
      ensures form == Change(old(form), field, value)
      ensures initialForm == old(initialForm) && error == old(error) && isSaving == old(isSaving)
    {
      if form.None? {
        return;
      }
      form := Some(WithField(form.value, field, value));
    }

    /** handleSubmit: nothing without a form; an invalid form only sets the
        error; a valid one sends the PUT body (`sent`), and then either
        returns to the quarter (`back`) or shows the refusal and stops
        saving. */
    method HandleSubmit(result: SaveResult) returns (sent: Option<TaskInput>, back: Option<QuarterKey>)
      modifies this
      ensures old(form).None? ==> sent.None? && back.None? && error == old(error) && isSaving == old(isSaving)
      ensures old(form).Some? && ValidateForm(old(form).value).Some? ==>
        sent.None? && back.None? && error == ValidateForm(old(form).value) && isSaving == old(isSaving)
      ensures old(form).Some? && ValidateForm(old(form).value).None? ==>
        sent == Some(RequestBody(old(form).value, Some(taskId)))
      ensures old(form).Some? && ValidateForm(old(form).value).None? && result == Saved ==>
        back == Some(quarter) && isSaving && error == old(error)
      ensures old(form).Some? && ValidateForm(old(form).value).None? && result.Rejected? ==>
        back.None? && !isSaving && error == Some(result.error.GetOr(UpdateFailed))
      ensures form == old(form) && initialForm == old(initialForm)
    {
      sent, back := None, None;
      if form.None? {
        return;
      }
      var validationError := ValidateForm(form.value);
      if validationError.Some? {
        error := validationError;
        return;
      }
      var body := RequestBody(form.value, Some(taskId));
      sent, back := Save(body, result);
    }

    /** The PUT request and its outcome. */
    method Save(body: TaskInput, result: SaveResult) returns (sent: Option<TaskInput>, back: Option<QuarterKey>)
      modifies this
      ensures sent == Some(body)
      ensures result == Saved ==> back == Some(quarter) && isSaving && error == old(error)
      ensures result.Rejected? ==> back.None? && !isSaving && error == Some(result.error.GetOr(UpdateFailed))
      ensures form == old(form) && initialForm == old(initialForm)
    {
      sent := Some(body);
      isSaving := true;
      if result.Rejected? {
        back := None;
        error := Some(result.error.GetOr(UpdateFailed));
        isSaving := false;
      } else {
        back := Some(quarter);
      }
    }

    /** handleReset: the loaded form again and no error, once a form was
        loaded; nothing before. */
    method HandleReset()
      modifies this
      ensures old(initialForm).Some? ==> form == old(initialForm) && error == None
      ensures old(initialForm).None? ==> form == old(form) && error == old(error)
      ensures initialForm == old(initialForm) && isSaving == old(isSaving)
    {
      if initialForm.Some? {
        form := initialForm;
        error := None;
      }
    }
  }
}
