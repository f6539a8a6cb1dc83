/**
 * The dialog that creates or edits a subtask
 * (src/components/QuarterPlanner/Subtasks/SubtaskDialog.tsx): the form it
 * opens with, the task it starts with selected, whether it can submit,
 * and the checks its submit runs before handing the form on. The date
 * check compares whole local days, so both ends of the week count.
 */
module SubtaskDialog {
  import opened Wrappers
  import opened JsString
  import opened Calendar
  import opened JsDate
  import opened TaskUtils
  import opened Quarter
  import opened SubtasksHook

  datatype Mode = TaskMode | WeekMode

  /** The title, date (YYYY-MM-DD) and time (HH:mm) fields. */
  datatype DialogForm = DialogForm(title: string, date: string, time: string)

  /** What `onSubmit` receives. */
  datatype SubmittedForm = SubmittedForm(taskId: string, title: string, date: string, time: string, subtaskId: Option<string>)

  const DefaultTime := "09:00"

  const MissingTitle := "Please provide a subtask title."
  const MissingDate := "Please choose a date."
  const MissingTime := "Please choose a time."
  const MissingTask := "Please pick a task for this subtask."
  const OutsideWeek := "The subtask date must fall within the selected week."

  /** `Boolean(s)` of an optional string. */
  predicate Given(s: Option<string>) {
    s.Some? && s.value != ""
  }

  /** The form the dialog opens with: in edit mode, with an initial
      timestamp that parses, its title (or "") and the timestamp's date
      and HH:mm; otherwise no title, the week's start date and 09:00. */
  function InitialFormData(subtaskId: Option<string>, initialTitle: Option<string>,
                           initialDate: Option<string>, week: WeekInfo): (r: DialogForm)
    ensures !Given(subtaskId) || !Given(initialDate) || ParseTimestamp(initialDate.value).Invalid? ==>
      r == DialogForm("", FormatISODate(week.start), DefaultTime)
    ensures Given(subtaskId) && Given(initialDate) && ParseTimestamp(initialDate.value).Time? ==>
      var t := ParseTimestamp(initialDate.value).ms;
      r == DialogForm(initialTitle.GetOr(""), FormatISODate(Time(t)), TimeHHmm(t))
  {
    if Given(subtaskId) && Given(initialDate) then
      match ParseTimestamp(initialDate.value)
      case Time(t) => DialogForm(if Given(initialTitle) then initialTitle.value else "", FormatISODate(Time(t)), TimeHHmm(t))
      case Invalid => DialogForm("", FormatISODate(week.start), DefaultTime)
    else DialogForm("", FormatISODate(week.start), DefaultTime)
  }

  /** The date and HH:mm fields of a time value, joined as the subtask
      routes join them, name the same day, hour and minute again. */
  lemma FieldsOfTimestamp(t: int)
    requires 1000 <= FullYear(t) <= 9999
    ensures ParseTimestamp(FormatISODate(Time(t)) + "T" + TimeHHmm(t))
         == Time(Day(t) * MsPerDay + Hours(t) * MsPerHour + Minutes(t) * MsPerMinute)
  {
    var y, mo, dd, h, mi := FullYear(t), MonthNumber(t), DateOfMonth(t), Hours(t), Minutes(t);
    FieldsText(t, y, mo, dd, h, mi);
    MinuteOfFields(t, y, mo, dd, h, mi);
  }

  /** The date-and-time text of a time value's fields reads back as its
      day, hour and minute. */
  lemma MinuteOfFields(t: int, y: int, mo: nat, dd: nat, h: nat, mi: nat)
    requires y == FullYear(t) && 1000 <= y <= 9999
    requires mo == MonthNumber(t) && dd == DateOfMonth(t) && h == Hours(t) && mi == Minutes(t)
    ensures ParseTimestamp(DateTimeText(y, mo, dd, h, mi)) == Time(Day(t) * MsPerDay + Hours(t) * MsPerHour + Minutes(t) * MsPerMinute)
  {
    DayOfFields(t, y, mo - 1, dd);
    ParseDateTimeOfFields(y, mo, dd, h, mi);
  }

  /** The date fields of a time value name a day of their month, and the
      day number of the time value. */
  lemma DayOfFields(t: int, y: int, m0: int, dd: int)
    requires y == FullYear(t) && m0 == MonthNumber(t) - 1 && dd == DateOfMonth(t)
    ensures 1 <= dd <= DaysInMonth(y, m0) && MakeDay(y, m0, dd) == Day(t)
  {
    DateOfMonthInMonth(t);
    MakeDayOfFields(t);
  }

  /** The joined fields of a time value spell its date and time of day. */
  lemma FieldsText(t: int, y: int, mo: nat, dd: nat, h: nat, mi: nat)
    requires y == FullYear(t) && 1000 <= y <= 9999
    requires mo == MonthNumber(t) && dd == DateOfMonth(t) && h == Hours(t) && mi == Minutes(t)
    ensures FormatISODate(Time(t)) + "T" + TimeHHmm(t) == DateTimeText(y, mo, dd, h, mi)
  {
    DateText(t, y, mo, dd);
    JoinedText(FormatISODate(Time(t)), TimeHHmm(t), y, mo, dd, h, mi);
  }

  /** formatISODate of a time value with a four-digit year. */
  lemma DateText(t: int, y: int, mo: nat, dd: nat)
    requires y == FullYear(t) && 1000 <= y <= 9999 && mo == Month(t) + 1 && dd == DateOfMonth(t)
    ensures FormatISODate(Time(t)) == YearText(y) + "-" + FixedDigits(mo, 2) + "-" + FixedDigits(dd, 2)
  {
    FormatISODatePadded(t);
    FourDigitYear(y);
  }

  lemma JoinedText(date: string, time: string, y: int, mo: nat, dd: nat, h: nat, mi: nat)
    requires date == YearText(y) + "-" + FixedDigits(mo, 2) + "-" + FixedDigits(dd, 2)
    requires time == FixedDigits(h, 2) + ":" + FixedDigits(mi, 2)
    ensures date + "T" + time == DateTimeText(y, mo, dd, h, mi)
  {
  }

  /** A four-digit year is written as YearText writes it. */
  lemma FourDigitYear(y: int)
    requires 1000 <= y <= 9999
    ensures IntToString(y) == YearText(y)
  {
    assert Pow10(3) == 1000 && Pow10(4) == 10000;
    NatToStringFixed(y, 4);
  }

  /** A subtask opened for editing shows its title, and date and time
      fields that name its stored instant to the minute. */
  lemma InitialFormReopens(subtaskId: string, title: string, timestamp: string, week: WeekInfo, t: int)
    requires subtaskId != "" && timestamp != ""
    requires ParseTimestamp(timestamp) == Time(t) && 1000 <= FullYear(t) <= 9999
    ensures var f := InitialFormData(Some(subtaskId), Some(title), Some(timestamp), week);
      && f.title == title
      && ParseTimestamp(f.date + "T" + f.time) == Time(Day(t) * MsPerDay + Hours(t) * MsPerHour + Minutes(t) * MsPerMinute)
  {
    FieldsOfTimestamp(t);
  }

  /** The task selected when the dialog opens: the given task in task
      mode, the first option in week mode (none without options). */
  function InitialSelection(mode: Mode, taskId: Option<string>, options: seq<TaskOption>): (r: Option<string>)
    ensures mode == TaskMode ==> r == taskId
    ensures mode == WeekMode ==> (r.Some? <==> options != []) && (r.Some? ==> r.value == options[0].id)
  {
    if mode == TaskMode then taskId
    else if options == [] then None
    else Some(options[0].id)
  }

  /** canSubmit: a task id in task mode; options and a selection in week
      mode. */
  predicate CanSubmit(mode: Mode, taskId: Option<string>, options: seq<TaskOption>, selected: Option<string>) {
    if mode == TaskMode then Given(taskId) else |options| > 0 && Given(selected)
  }

  /** A week dialog opened with an option whose id is not empty can
      submit; a task dialog can exactly when it has a task id. */
  lemma CanSubmitInitially(mode: Mode, taskId: Option<string>, options: seq<TaskOption>)
    ensures mode == WeekMode && options != [] && options[0].id != "" ==>
      CanSubmit(mode, taskId, options, InitialSelection(mode, taskId, options))
    ensures mode == WeekMode && options == [] ==>
      !CanSubmit(mode, taskId, options, InitialSelection(mode, taskId, options))
    ensures mode == TaskMode ==>
      (CanSubmit(mode, taskId, options, InitialSelection(mode, taskId, options)) <==> Given(taskId))
  {
  }

  /** The date check: the chosen day's midnight before the week start's
      midnight, or after the last millisecond of the week end's day. A
      comparison with an Invalid Date is false, so it never rejects. */
  predicate OutsideOfWeek(date: string, week: WeekInfo) {
    var selected := StartOfDay(ParseISODate(date));
    After(StartOfDay(week.start), selected) || After(selected, EndOfDay(week.end))
  }

  /** The rule compares whole days: a valid date is rejected exactly when
      its day is before the start's day or after the end's day, so the
      start day and the end day are both accepted. */
  lemma OutsideOfWeekDays(date: string, week: WeekInfo, t: int, s: int, e: int)
    requires ParseISODate(date) == Time(t) && week.start == Time(s) && week.end == Time(e)
    ensures OutsideOfWeek(date, week) <==> Day(t) < Day(s) || Day(t) > Day(e)
  {
  }

  /** The first failing check's message, or None. */
  function SubmitError(f: DialogForm, resolved: Option<string>, week: WeekInfo): (r: Option<string>)
    ensures r.None? ==> Trim(f.title) != "" && f.date != "" && f.time != "" && Given(resolved)
  {
    if Trim(f.title) == "" then Some(MissingTitle)
    else if f.date == "" then Some(MissingDate)
    else if f.time == "" then Some(MissingTime)
    else if !Given(resolved) then Some(MissingTask)
    else if OutsideOfWeek(f.date, week) then Some(OutsideWeek)
    else None
  }

  /** The checks run in order and each message names the first failure. */
  lemma SubmitErrorOrder(f: DialogForm, resolved: Option<string>, week: WeekInfo)
    ensures SubmitError(f, resolved, week) == Some(MissingTitle) <==> Trim(f.title) == ""
    ensures SubmitError(f, resolved, week) == Some(MissingDate) <==> Trim(f.title) != "" && f.date == ""
    ensures SubmitError(f, resolved, week) == Some(MissingTime) <==> Trim(f.title) != "" && f.date != "" && f.time == ""
    ensures SubmitError(f, resolved, week) == Some(MissingTask) <==>
      Trim(f.title) != "" && f.date != "" && f.time != "" && !Given(resolved)
    ensures SubmitError(f, resolved, week) == Some(OutsideWeek) <==>
      Trim(f.title) != "" && f.date != "" && f.time != "" && Given(resolved) && OutsideOfWeek(f.date, week)
  {
  }

  /** The form handed on: the resolved task, the trimmed title, the date
      and time as typed, and the subtask id only when editing. */
  function SubmittedOf(f: DialogForm, resolved: string, subtaskId: Option<string>): (r: SubmittedForm)
    ensures r.taskId == resolved && r.date == f.date && r.time == f.time
    ensures r.title == Trim(f.title) && Trim(r.title) == r.title
    ensures r.subtaskId.Some? <==> Given(subtaskId)
    ensures r.subtaskId.Some? ==> r.subtaskId == subtaskId
  {
    TrimIdempotent(f.title);
    SubmittedForm(resolved, Trim(f.title), f.date, f.time, if Given(subtaskId) then subtaskId else None)
  }

  /** The checks of handleSubmit, one after the other. */
  method Check(f: DialogForm, resolved: Option<string>, week: WeekInfo) returns (e: Option<string>)
    ensures e == SubmitError(f, resolved, week)
  {
    if Trim(f.title) == "" {
      return Some(MissingTitle);
    }
    if f.date == "" {
      return Some(MissingDate);
    }
    if f.time == "" {
      return Some(MissingTime);
    }
    if !Given(resolved) {
      return Some(MissingTask);
    }
    var selectedDate := StartOfDay(ParseISODate(f.date));
    var weekStart := StartOfDay(week.start);
    var weekEnd := EndOfDay(week.end);
    if After(weekStart, selectedDate) || After(selectedDate, weekEnd) {
      return Some(OutsideWeek);
    }
    return None;
  }

  /** The dialog's props and state. */
  class Dialog {
    const mode: Mode
    const taskId: Option<string>
    const week: WeekInfo
    const availableTasks: seq<TaskOption>
    const subtaskId: Option<string>
    var form: DialogForm
    var localError: Option<string>
    var selectedTaskId: Option<string>

    /** The dialog as it opens, with `initial` the InitialFormData of its
        props. */
    constructor(m: Mode, id: Option<string>, w: WeekInfo, options: seq<TaskOption>,
                editId: Option<string>, initial: DialogForm)
      ensures mode == m && taskId == id && week == w && availableTasks == options && subtaskId == editId
      ensures form == initial && localError == None
      ensures selectedTaskId == InitialSelection(m, id, options)
    {
      mode := m;
      taskId := id;
      week := w;
      availableTasks := options;
      subtaskId := editId;
      form := initial;
      localError := None;
      selectedTaskId := InitialSelection(m, id, options);
    }

    /** The task select's onChange: the chosen option's id becomes the
        selection; a week dialog with options can then submit exactly when
        that id is not empty. */
    method SelectTask(id: string)
      modifies this
      ensures selectedTaskId == Some(id) && form == old(form) && localError == old(localError)
      ensures mode == WeekMode && availableTasks != [] ==>
        (CanSubmit(mode, taskId, availableTasks, selectedTaskId) <==> id != "")
    {
      selectedTaskId := Some(id);
    }

    /** The title input's onChange. */
    method SetTitle(value: string)
      modifies this
      ensures form == old(form).(title := value)
      ensures selectedTaskId == old(selectedTaskId) && localError == old(localError)
    {
      form := form.(title := value);
    }

    /** The date picker's onChange. */
    method SetDate(value: string)
      modifies this
      ensures form == old(form).(date := value)
      ensures selectedTaskId == old(selectedTaskId) && localError == old(localError)
    {
      form := form.(date := value);
    }

    /** The time input's onChange. */
    method SetTime(value: string)
      modifies this
      ensures form == old(form).(time := value)
      ensures selectedTaskId == old(selectedTaskId) && localError == old(localError)
    {
      form := form.(time := value);
    }

    /** handleSubmit: the error cleared, then the first failing check's
        message, or the form handed on with the id the dialog resolves
        (the prop in task mode, the selection in week mode). */
    method HandleSubmit() returns (submitted: Option<SubmittedForm>)
      modifies this
      ensures var resolved := if mode == TaskMode then taskId else selectedTaskId;
        && localError == SubmitError(form, resolved, week)
        && (localError.None? ==> submitted == Some(SubmittedOf(form, resolved.value, subtaskId)))
        && (localError.Some? ==> submitted == None)
      ensures form == old(form) && selectedTaskId == old(selectedTaskId)
    {
      localError := None;
      var resolved := if mode == TaskMode then taskId else selectedTaskId;
      var e := Check(form, resolved, week);
      localError := e;
      if e.Some? {
        submitted := None;
      } else {
        submitted := Some(SubmittedOf(form, resolved.value, subtaskId));
      }
    }
  }
}
