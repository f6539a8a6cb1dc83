/**
 * The subtask dialog state of the planner page
 * (src/components/QuarterPlanner/hooks/useSubtasks.ts): which dialog is
 * open (a draft), its error and whether a save is pending, driven by the
 * open, close, add, add-for-week, edit and submit handlers. The save
 * request's answer is a parameter; the two callbacks a successful save
 * calls are returned as a notification.
 */
module SubtasksHook {
  import opened Wrappers
  import opened Quarter
  import opened TaskUtils

  /** `{ id, name }` of a task a week-mode dialog offers. */
  datatype TaskOption = TaskOption(id: string, name: string)

  /** The open dialog: for one task (a new subtask, or an edit of the
      subtask whose id, title and timestamp it carries), or for a week with
      a choice of tasks. */
  datatype SubtaskDraft =
    | ForTask(taskId: string, taskName: string, week: WeekInfo,
              subtaskId: Option<string>, initialTitle: Option<string>, initialTimestamp: Option<string>)
    | ForWeek(week: WeekInfo, taskOptions: seq<TaskOption>)

  /** What the dialog submits. */
  datatype SubtaskPayload = SubtaskPayload(title: string, date: string, time: string, subtaskId: Option<string>)

  datatype Verb = Post | Put

  /** The request handleSubtaskSubmit sends: its verb, path and body. */
  datatype SubtaskRequest = SubtaskRequest(verb: Verb, path: string, body: SubtaskPayload)

  /** How the request ends: the saved subtask, or a failed response whose
      JSON may carry an `error` text. */
  datatype SaveAnswer = Stored(subtask: Subtask) | Refused(error: Option<string>)

  /** The callback a successful save calls. */
  datatype Notification =
    | Created(taskId: string, subtask: Subtask)
    | Updated(taskId: string, subtaskId: string, subtask: Subtask)

  const UpdateFailed := "Failed to update subtask."
  const AddFailed := "Failed to add subtask."

  /** `Boolean(payload.subtaskId)`. */
  predicate IsEdit(p: SubtaskPayload) {
    p.subtaskId.Some? && p.subtaskId.value != ""
  }

  /** The request of a submission: PUT for an edit, POST otherwise, to the
      task's subtasks path, with the payload as body. */
  function RequestOf(taskId: string, p: SubtaskPayload): (r: SubtaskRequest)
    ensures r.verb == Put <==> IsEdit(p)
    ensures r.body == p && r.path == "/api/tasks/" + taskId + "/subtasks"
  {
    SubtaskRequest(if IsEdit(p) then Put else Post, "/api/tasks/" + taskId + "/subtasks", p)
  }

  /** The notification of a stored subtask: an update of the edited id, or
      a creation. */
  function NotificationOf(taskId: string, p: SubtaskPayload, s: Subtask): (r: Notification)
    ensures r.Updated? <==> IsEdit(p)
    ensures r.taskId == taskId && r.subtask == s
    ensures r.Updated? ==> r.subtaskId == p.subtaskId.value
  {
    if IsEdit(p) then Updated(taskId, p.subtaskId.value, s) else Created(taskId, s)
  }

  /** The error a refused save shows: the response's text, else the
      fallback for the kind of request. */
  function RefusalMessage(p: SubtaskPayload, error: Option<string>): (r: string)
    ensures error.Some? ==> r == error.value
    ensures error.None? ==> r == (if IsEdit(p) then UpdateFailed else AddFailed)
  {
    error.GetOr(if IsEdit(p) then UpdateFailed else AddFailed)
  }

  class SubtasksHook {
    var draft: Option<SubtaskDraft>
    var error: Option<string>
    var isSaving: bool

    /** No dialog, no error, nothing pending. */
    constructor()
      ensures draft == None && error == None && !isSaving
    {
      draft := None;
      error := None;
      isSaving := false;
    }

    /** openSubtaskDialog: the draft shown, the error cleared. */
    method Open(d: SubtaskDraft)
      modifies this
      ensures draft == Some(d) && error == None && isSaving == old(isSaving)
    {
      draft := Some(d);
      error := None;
    }

    /** closeSubtaskDialog: no draft, the error cleared. */
    method Close()
      modifies this
      ensures draft == None && error == None && isSaving == old(isSaving)
    {
      draft := None;
      error := None;
    }

    /** handleAddSubtask: a dialog for a new subtask of the task. */
    method HandleAddSubtask(taskId: string, taskName: string, week: WeekInfo)
      modifies this
      ensures draft == Some(ForTask(taskId, taskName, week, None, None, None))
      ensures error == None && isSaving == old(isSaving)
    {
      Open(ForTask(taskId, taskName, week, None, None, None));
    }

    /** handleAddSubtaskForWeek: nothing without task options, otherwise a
        week dialog offering them. */
    method HandleAddSubtaskForWeek(week: WeekInfo, taskOptions: seq<TaskOption>)
      modifies this
      ensures taskOptions == [] ==> draft == old(draft) && error == old(error)
      ensures taskOptions != [] ==> draft == Some(ForWeek(week, taskOptions)) && error == None
      ensures isSaving == old(isSaving)
    {
      if |taskOptions| == 0 {
        return;
      }
      Open(ForWeek(week, taskOptions));
    }

    /** handleEditSubtask: a task dialog carrying the subtask's id, title
        and timestamp. */
    method HandleEditSubtask(taskId: string, taskName: string, subtaskId: string,
                             subtaskTitle: string, subtaskTimestamp: string, week: WeekInfo)
      modifies this
      ensures draft == Some(ForTask(taskId, taskName, week, Some(subtaskId), Some(subtaskTitle), Some(subtaskTimestamp)))
      ensures error == None && isSaving == old(isSaving)
    {
      Open(ForTask(taskId, taskName, week, Some(subtaskId), Some(subtaskTitle), Some(subtaskTimestamp)));
    }

    /** The start of handleSubtaskSubmit: pending, no error. */
    method BeginSubmit()
      modifies this
      ensures isSaving && error == None && draft == old(draft)
    {
      isSaving := true;
      error := None;
    }

    /** The end of handleSubtaskSubmit once the answer is in: a stored
        subtask is passed to the matching callback and the dialog closes;
        a refusal sets the error and keeps the dialog. Nothing is pending
        afterwards either way. */
    method FinishSubmit(taskId: string, p: SubtaskPayload, answer: SaveAnswer) returns (notified: Option<Notification>)
      modifies this
      ensures answer.Stored? ==> notified == Some(NotificationOf(taskId, p, answer.subtask)) && draft == None && error == None
      ensures answer.Refused? ==> notified == None && draft == old(draft) && error == Some(RefusalMessage(p, answer.error))
      ensures !isSaving
    {
      if answer.Refused? {
        notified := None;
        error := Some(RefusalMessage(p, answer.error));
      } else {
        notified := Some(NotificationOf(taskId, p, answer.subtask));
        Close();
      }
      isSaving := false;
    }

    /** handleSubtaskSubmit: the request sent (PUT exactly for an edit),
        the callback a stored subtask reaches, and the closed dialog or the
        error. */
    method HandleSubtaskSubmit(taskId: string, p: SubtaskPayload, answer: SaveAnswer)
      returns (sent: SubtaskRequest, notified: Option<Notification>)
      modifies this
      ensures sent == RequestOf(taskId, p)
      ensures answer.Stored? ==> notified == Some(NotificationOf(taskId, p, answer.subtask)) && draft == None && error == None
      ensures answer.Refused? ==> notified == None && draft == old(draft) && error == Some(RefusalMessage(p, answer.error))
      ensures !isSaving
    {
      BeginSubmit();
      sent := RequestOf(taskId, p);
      notified := FinishSubmit(taskId, p, answer);
    }
  }
}
