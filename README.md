# Quarter planner — a verified model

The quarter planner shows one calendar quarter as a table: one column per
Monday-start week, grouped into three month buckets, and one row per task
with the weeks the task overlaps highlighted and its subtasks filed under
the week they fall in. This project models its core in Dafny:

- **the quarter calendar engine** (`src/lib/quarter.ts`, module `Quarter`).
  This covers:
  - quarter arithmetic;
  - the `YYYY-MM-DD` parse/format pair;
  - Monday-start weeks;
  - the majority month of a week;
  - ISO 8601 week numbers (ISO 8601:2004 section 3.2.2);
  - the inclusive overlap test;
  - the week walk that builds a quarter's structure.
- **record normalisation and validation** (`src/lib/task-utils.ts`, module
  `TaskUtils`). Loosely typed stored records become tasks and subtasks,
  duplicates are dropped, and API payloads are validated.
- **the tasks API** (`src/app/api/tasks/route.ts`, module `TasksRoute`).
  POST and PUT work over an in-memory task array, a `TaskStore` class.
- **the UI decision logic**:
  - the date picker's 42-day grid and open/month state (`DatePicker`);
  - the week selection rules (`ViewMode`);
  - the active and rendered weeks and months (`TableData`);
  - a task row's week cells and their subtasks (`TaskRow`);
  - the page with its search-quarter fallback, bounded add and remove
    (`PlannerPage`);
  - the routed planner with its query-string add reducer (`Planner`);
  - the task form hook (`TaskForm`) and the task edit page (`TaskEdit`);
  - the subtask dialog (`SubtaskDialog`);
  - the tasks hook (`TasksHook`) and the subtask dialog state machine
    (`SubtasksHook`).

Several support modules model the JavaScript semantics the code relies on:

- `Calendar`: the day arithmetic of ECMA-262 section 21.4.1.
- `JsDate`: `new Date(...)`, `setDate`, `toISOString` and the Date Time
  String Format of ECMA-262 section 21.4.1.32.
- `JsNumber`: `Number(...)` of a string, and `||`, `??` and `Math.max` on
  numbers.
- `JsString`: `trim`, `split` and `padStart`.
- `JsArray`: `map` with a throwing callback, and `filter`.

A JavaScript `Date` is `Invalid` or `Time(ms)`. A number is `NaN`, `±Infinity`
or a finite real. Component and hook state becomes a class whose fields the
handlers (methods) update. Fetch answers, `crypto.randomUUID()` and
`new Date()` are parameters.

The week starting Monday 2025-09-29 has five October days, so its majority
month is October and it is dropped. The last week of Q3 2025 is 2025-09-22
to 2025-09-28 (`Quarter.Q3Of2025`).

## Model

| member | source | states |
|---|---|---|
| Quarter.GetQuarterFromDate | src/lib/quarter.ts:33-37 | the quarter is in 1..4 and holds the date's month (3(q−1) ≤ month < 3q); the year is the date's own year |
| Quarter.ShiftQuarter | src/lib/quarter.ts:43-48 | the quarter `delta` quarters away, with JavaScript's truncating `%`; its properties are stated by the ShiftQuarter lemmas below |
| Quarter.ShiftQuarterTotal | src/lib/quarter.ts:43-48 | for a non-negative target total, the result is a valid quarter whose total year*4+quarter−1 is the old total plus delta |
| Quarter.ShiftQuarterZero | src/lib/quarter.ts:43-48 | shifting a valid quarter with a non-negative total by 0 leaves it unchanged |
| Quarter.ShiftQuarterRoundTrip | src/lib/quarter.ts:43-48 | shifting by delta and back by −delta returns the quarter, when both totals are non-negative |
| Quarter.ShiftQuarterAcrossYearEnd | src/lib/quarter.ts:43-48 | Q4 2025 shifted by +1 is Q1 2026 |
| Quarter.ShiftQuarterBackFromFirst | src/lib/quarter.ts:43-48 | Q1 of year y shifted by −1 is Q4 of year y−1 |
| Quarter.ShiftQuarterNegativeTotal | src/lib/quarter.ts:43-48 | with a negative total, the truncating `%` gives an invalid quarter: Q2 of year −1 shifted by 0 is quarter −2 |
| Quarter.AddDays | src/lib/quarter.ts:156-158 | the result is valid iff the date is, and lies exactly days × 86 400 000 ms later |
| Quarter.FormatISODate | src/lib/quarter.ts:132-137 | an Invalid Date formats as "NaN-NaN-NaN" |
| Quarter.FormatISODatePadded | src/lib/quarter.ts:132-137 | a valid date formats as the year, then the month and the day zero-padded to two digits |
| Quarter.FormattedNonEmpty | src/lib/quarter.ts:132-137 | the formatted text is never empty |
| Quarter.ParseISODate | src/lib/quarter.ts:123-126 | `new Date(y, m - 1, d)` of the `-`-separated pieces, a missing month or day read as 1; its properties are stated by the Parse lemmas below |
| Quarter.ParseFormatRoundTrip | src/lib/quarter.ts:123-137 | parsing the formatted date gives that day's midnight, for years from 100 on |
| Quarter.ParseFormatTwoDigitYear | src/lib/quarter.ts:123-126 | for years 0..99 the formatted date parses to the same month and day of year 1900 + y |
| Quarter.ParseYearOnly | src/lib/quarter.ts:123-126 | a text holding only the year parses to 1 January of that year |
| Quarter.ParseYearMonth | src/lib/quarter.ts:123-126 | a year and a month with no day parse to the 1st of that month |
| Quarter.CanonicalOfNonDate | src/lib/quarter.ts:123-137 | a non-date text parses to an Invalid Date and is canonicalised to "NaN-NaN-NaN", not replaced |
| Quarter.CanonicalOfNaN | src/lib/quarter.ts:123-126 | "NaN-NaN-NaN" parses to an Invalid Date |
| Quarter.CanonicalDateIdempotent | src/lib/quarter.ts:123-137 | formatting a parsed date is idempotent: a canonical date text is its own canonical form |
| Quarter.ReadBackOrdered | src/lib/quarter.ts:123-137 | formatting and reading back keeps the order of two times |
| Quarter.MondayOnOrBefore | src/lib/quarter.ts:143-150 | the Monday midnight at most six days before the date, and no later than the date |
| Quarter.StartOfWeek | src/lib/quarter.ts:143-150 | the setDate/setHours loop gives MondayOnOrBefore of the date |
| Quarter.WeekOverlapsRange | src/lib/quarter.ts:177-179 | the week ends no earlier than the range starts and starts no later than it ends; Quarter.WeekOverlapsIsIntersection states what it means |
| Quarter.WeekOverlapsIsIntersection | src/lib/quarter.ts:177-179 | the overlap test holds iff some instant lies in both inclusive ranges |
| Quarter.WeekOverlapsCases | src/lib/quarter.ts:177-179 | a week overlaps itself; a range ending before the week or starting after it does not overlap; an invalid bound never overlaps |
| Quarter.GetMajorityMonth | src/lib/quarter.ts:188-206 | the counting loop gives MajorityMonth, which holds at least four of the week's seven days |
| Quarter.MajorityMonthMost | src/lib/quarter.ts:188-206 | the majority month holds ≥ 4 of the seven days and every other month ≤ 3 |
| Quarter.SelectMaxFirst | src/lib/quarter.ts:196-205 | the strict `>` keeps the largest count, the first entry reaching it, and the initial one when nothing beats it |
| Quarter.MajorityByShape | src/lib/quarter.ts:188-206 | the majority month is the start day's month when ≥ 4 days remain in it, else the following month |
| Quarter.GetISOWeekNumber | src/lib/quarter.ts:165-171 | NaN for an Invalid Date; otherwise the week number the setUTCDate computation reaches |
| Quarter.IsoWeekAsComputedAgrees | src/lib/quarter.ts:165-171 | the computed number equals an independent ISO 8601 week (week 1 holds the year's first Thursday), outside years 0..99 |
| Quarter.IsoWeekSameWeek | src/lib/quarter.ts:165-171 | all seven days of a Monday–Sunday week have the same ISO week |
| Quarter.IsoWeekOneHoldsFirstThursday | src/lib/quarter.ts:165-171 | every day of the week holding the year's first Thursday is week 1 |
| Quarter.IsoWeekOf2024January1 | src/lib/quarter.ts:165-171 | 2024-01-01 is in week 1 |
| Quarter.IsoWeekOf2020December31 | src/lib/quarter.ts:165-171 | 2020-12-31 is in week 53 |
| Quarter.IsoWeekOf2021January1 | src/lib/quarter.ts:165-171 | 2021-01-01 is in week 53 of the previous year |
| Quarter.CollectWeeksForQuarter | src/lib/quarter.ts:86-117 | the cursor loop gives CollectedWeeks: the kept weeks of the walk from the Monday on or before the first day to the Monday on or before the last day |
| Quarter.CollectedWeeksMonths | src/lib/quarter.ts:86-117 | every kept week's month is one of the quarter's months |
| Quarter.CollectedWeeksOrder | src/lib/quarter.ts:86-117 | kept weeks are Mondays inside the walk's bounds, end = start + 6 days, and starts strictly increase by at least a week |
| Quarter.CollectedWeeksExactly | src/lib/quarter.ts:86-117 | a candidate Monday between the bounds gives a kept week iff its majority month is a quarter month |
| Quarter.QuarterWeeksMember | src/lib/quarter.ts:98-114 | every walked week is the week of a candidate day between the bounds whose majority month qualifies |
| Quarter.QuarterWeeksShape | src/lib/quarter.ts:98-114 | a walked week starts at a Monday midnight within the bounds, ends six days later and carries a quarter month |
| Quarter.QuarterWeeksIncreasing | src/lib/quarter.ts:98-114 | walked weeks start at least seven days apart, in order |
| Quarter.BuildQuarterStructure | src/lib/quarter.ts:55-77 | the method gives StructureOf the quarter's collected weeks |
| Quarter.StructureMonths | src/lib/quarter.ts:55-77 | year, quarter and weeks are echoed; exactly three months first, first+1, first+2, each with exactly the weeks of that month |
| Quarter.StructureLabel | src/lib/quarter.ts:73 | the label is "Q{quarter} {year}" |
| Quarter.StructurePartition | src/lib/quarter.ts:55-77 | every week lies in exactly one of the three month lists, and their lengths add up to the number of weeks |
| Quarter.QuarterStructurePartition | src/lib/quarter.ts:55-77 | for the quarter's own weeks, the month lists' lengths add up to the number of weeks |
| Quarter.QuarterCoverage | src/lib/quarter.ts:55-117 | every day of the quarter lies in its Monday's week; that week is kept iff its majority month is in the quarter, and always when the whole week is inside the quarter |
| Quarter.Q3Of2025 | src/lib/quarter.ts:55-117 | Q3 2025: label "Q3 2025", months July–September, first week starting Monday 2025-06-30 (before 1 July), last week 2025-09-22..28, the week of 2025-09-29 dropped |
| TaskUtils.NormalizeSubtask | src/lib/task-utils.ts:10-25 | None iff nullish, a non-text title or timestamp, or an unparseable timestamp; else the id kept or fresh, the trimmed title, or "Untitled subtask" when it trims to empty; the timestamp is the `toISOString` text of the parsed instant |
| TaskUtils.NormalizeSubtaskIdempotent | src/lib/task-utils.ts:10-25 | a normalised subtask normalises to itself |
| TaskUtils.NormalizeSubtasksTitled | src/lib/task-utils.ts:60-62 | every kept subtask has a non-empty title and an id |
| TaskUtils.NormalizeSubtasksIdempotent | src/lib/task-utils.ts:60-62 | normalising a normalised subtask list gives the same list |
| TaskUtils.NormalizeTask | src/lib/task-utils.ts:33-64 | no task iff the name is not text; TypeError iff a date is truthy but not text; else the trimmed name (no fallback) and durationDays passed through |
| TaskUtils.NormalizeTaskShape | src/lib/task-utils.ts:33-64 | the whole task: id kept or fresh, trimmed name, canonical start and end, durationDays, valid subtasks in order ([] for a non-array) |
| TaskUtils.NormalizeTaskEndFromDuration | src/lib/task-utils.ts:45-52 | a missing end is start + max(Number(durationDays)‖0, 0) whole days |
| TaskUtils.NormalizeTaskIdempotent | src/lib/task-utils.ts:33-64 | a normalised task normalises to itself, for years from 100 on |
| TaskUtils.NormalizeTasks | src/lib/task-utils.ts:70-82 | TypeError iff some entry throws; else the deduplicated successful normalisations |
| TaskUtils.DropDuplicates | src/lib/task-utils.ts:74-81 | the seen-set loop gives Deduplicated of the mapped list |
| TaskUtils.DeduplicatedDistinct | src/lib/task-utils.ts:70-82 | the kept tasks' `${name}-${start}-${end}` keys are pairwise distinct |
| TaskUtils.DeduplicatedCovers | src/lib/task-utils.ts:70-82 | every successful entry's key is represented in the output |
| TaskUtils.DeduplicatedOrder | src/lib/task-utils.ts:70-82 | the kept tasks keep their input order |
| TaskUtils.DeduplicatedFirstWins | src/lib/task-utils.ts:70-82 | the first occurrence of a key is the one kept |
| TaskUtils.CreateStoredSubtask | src/lib/task-utils.ts:89-99 | the id is the given one or the fresh one; the title is trimmed; the timestamp is kept |
| TaskUtils.ValidateSubtaskPayload | src/lib/task-utils.ts:106-123 | a result iff both fields are text and the timestamp parses; the title is trimmed, with no fallback |
| TaskUtils.ValidatedSubtaskNormalizes | src/lib/task-utils.ts:89-123 | a validated payload yields the ISO timestamp, and the stored subtask normalises as its input would |
| TaskUtils.ParseDateTime | src/lib/task-utils.ts:129-135 | a result iff "{date}T{time}" parses |
| TaskUtils.ParseDateTimeRoundTrip | src/lib/task-utils.ts:129-135 | the ISO text returned parses back to the same time |
| TaskUtils.ValidateTaskPayload | src/lib/task-utils.ts:142-166 | a result iff name, start and end are text (and the id too when required); the id is present iff required |
| TaskUtils.ValidateTaskPayloadStable | src/lib/task-utils.ts:142-166 | the strings are returned untouched, and validating the result again gives the result |
| TasksRoute.PostValid | src/app/api/tasks/route.ts:53-75 | 409 when a stored task has the details as sent, else 201 and the created task appended; TasksRoute.PostAnswers states its cases |
| TasksRoute.PostAnswers | src/app/api/tasks/route.ts:42-80 | 400 iff a field is not text; 409 iff a stored task has the untrimmed name and the canonical dates; nothing is written unless 201; 201 appends exactly one task (payload id or fresh, trimmed name, canonical dates) |
| TasksRoute.TaskStore.Post | src/app/api/tasks/route.ts:42-80 | the reply and the new store are PostOutcome of the old store |
| TasksRoute.TaskStore.AnyTaken | src/app/api/tasks/route.ts:56-59 | the loop answers whether a stored task other than the excluded index has those details |
| TasksRoute.PostTwicePaddedName | src/app/api/tasks/route.ts:56-67 | as written: posting a padded name twice is accepted both times and leaves two tasks with the same details |
| TasksRoute.PostTrimmedKeepsUnique | src/app/api/tasks/route.ts:56-67 | corrected: checking the trimmed name keeps stored details unique |
| TasksRoute.PostTrimmedTwice | src/app/api/tasks/route.ts:56-67 | corrected: the second identical POST answers 409 and leaves the store |
| TasksRoute.PostTwiceTrimmedName | src/app/api/tasks/route.ts:56-64 | with an already trimmed name, the second identical POST answers 409 and leaves the store as the first left it |
| TasksRoute.TaskStore.PostTrimmed | src/app/api/tasks/route.ts:56-67 | corrected POST on the store; it preserves unique details |
| TasksRoute.FirstIndex | src/app/api/tasks/route.ts:95 | the first index holding the id, or −1 iff none does |
| TasksRoute.TaskStore.FindIndex | src/app/api/tasks/route.ts:95 | the search loop gives FirstIndex |
| TasksRoute.PutValid | src/app/api/tasks/route.ts:93-127 | PUT after validation answers only 404, 409 or 200; TasksRoute.PutAnswers and TasksRoute.PutConflict state when |
| TasksRoute.PutRejectsLoose | src/app/api/tasks/route.ts:85-92 | 400 iff the id or a field is not text, and the store is then unchanged |
| TasksRoute.PutAnswers | src/app/api/tasks/route.ts:93-132 | 404 iff no task has the id; only a 200 writes; it replaces only the first match, keeping length, other entries, durationDays and subtasks |
| TasksRoute.PutConflict | src/app/api/tasks/route.ts:112-122 | 409 iff another index holds the trimmed name and canonical dates |
| TasksRoute.PutKeepsUnique | src/app/api/tasks/route.ts:104-127 | PUT preserves unique details |
| TasksRoute.PutIdempotent | src/app/api/tasks/route.ts:104-127 | repeating a successful PUT changes nothing further |
| TasksRoute.TaskStore.Put | src/app/api/tasks/route.ts:82-132 | the reply and the new store are PutOutcome of the old store, and unique details are preserved |
| DatePicker.StartOfMonth | src/components/DatePicker/index.tsx:143-145 | midnight of the 1st of the same month and year |
| DatePicker.AddMonths | src/components/DatePicker/index.tsx:147-149 | the 1st of month + n, with the year rolled over |
| DatePicker.ViewDate | src/components/DatePicker/index.tsx:178-181 | the view is day 1 of the month of the parsed value (of today when the value is empty) moved by monthOffset, with the year carried; it is a valid date iff the value is empty or parses |
| DatePicker.BuildCalendarGrid | src/components/DatePicker/index.tsx:151-170 | exactly 42 cells: GridDays from the grid start for a valid view month |
| DatePicker.GridStartsOnMonday | src/components/DatePicker/index.tsx:151-156 | the grid starts on a Monday midnight, at most six days before the 1st |
| DatePicker.CurrentMonthCells | src/components/DatePicker/index.tsx:157-169 | a cell is in the current month iff it is one of the month's days, and then it is day i − offset + 1 |
| DatePicker.EveryMonthDayShown | src/components/DatePicker/index.tsx:151-170 | every day of the view month appears in the grid, flagged as current |
| DatePicker.IsSelectedSameDay | src/components/DatePicker/index.tsx:262-266 | a day is selected iff the value parses to a date on the same calendar day |
| DatePicker.Picker.Toggle | src/components/DatePicker/index.tsx:233-240 | opening resets the month offset to 0; closing keeps it |
| DatePicker.Picker.Close | src/components/DatePicker/index.tsx:183-206 | closes the picker and keeps the offset |
| DatePicker.Picker.PreviousMonth | src/components/DatePicker/index.tsx:249-250 | the offset goes down by one |
| DatePicker.Picker.NextMonth | src/components/DatePicker/index.tsx:251-253 | the offset goes up by one |
| DatePicker.Picker.SelectDay | src/components/DatePicker/index.tsx:215-223 | emits formatISODate(date), resets the offset to 0 and closes |
| ViewMode.WeekKeysDistinct | src/components/QuarterPlanner/QuarterTable/hooks/useViewMode.ts:11 | two weeks have the same key iff they start at the same time |
| ViewMode.InitialSelection | src/components/QuarterPlanner/QuarterTable/hooks/useViewMode.ts:9-12 | None iff there are no weeks; otherwise the key of a week |
| ViewMode.FirstActiveWeekKey | src/components/QuarterPlanner/QuarterTable/hooks/useViewMode.ts:14-19 | the first active key, else the first week's key, else None |
| ViewMode.EffectiveSelectedWeekKey | src/components/QuarterPlanner/QuarterTable/hooks/useViewMode.ts:21-30 | null without weeks; the selected key when it names a week; else the first active key. ViewMode.EffectiveSelection states its cases |
| ViewMode.EffectiveSelection | src/components/QuarterPlanner/QuarterTable/hooks/useViewMode.ts:21-30 | None iff there are no weeks; a selection naming a week is kept; otherwise firstActiveWeekKey |
| ViewMode.EffectiveSelectionStable | src/components/QuarterPlanner/QuarterTable/hooks/useViewMode.ts:21-30 | applying the effective selection again changes nothing |
| ViewMode.WeekDropdownOptions | src/components/QuarterPlanner/QuarterTable/hooks/useViewMode.ts:41-49 | one option per week |
| ViewMode.WeekOptionsEnabled | src/components/QuarterPlanner/QuarterTable/hooks/useViewMode.ts:41-49 | options in week order with the week's key and ISO number; all enabled with no active keys, else enabled exactly for the active keys |
| ViewMode.KeptSelectionEnabled | src/components/QuarterPlanner/QuarterTable/hooks/useViewMode.ts:51-67 | the single-week selection names a week, is active when any are, and is stable under the effective-selection rule |
| ViewMode.ViewModeState.HandleViewModeChange | src/components/QuarterPlanner/QuarterTable/hooks/useViewMode.ts:51-67 | always sets the mode; only single-week changes the selection, by the keep-or-fall-back rule |
| TableData.ParseTasks | src/components/QuarterPlanner/QuarterTable/hooks/useTableData.ts:27-35 | same length and order; each entry carries its task unchanged |
| TableData.ActiveWeekKeys | src/components/QuarterPlanner/QuarterTable/hooks/useTableData.ts:37-45 | at most one key per week; the two lemmas below state which keys and in what order |
| TableData.ActiveWeekKeysExact | src/components/QuarterPlanner/QuarterTable/hooks/useTableData.ts:37-45 | a key is active iff some week with that key overlaps some task |
| TableData.ActiveWeekKeysOrdered | src/components/QuarterPlanner/QuarterTable/hooks/useTableData.ts:37-45 | the active keys come in week order |
| TableData.WeeksToRender | src/components/QuarterPlanner/QuarterTable/hooks/useTableData.ts:47-55 | all weeks outside single-week mode; [] with no key; otherwise exactly the weeks with the selected key |
| TableData.SingleWeekRendersOne | src/components/QuarterPlanner/QuarterTable/hooks/useTableData.ts:47-55 | with distinct keys, a selected key renders exactly its one week |
| TableData.MonthsToRender | src/components/QuarterPlanner/QuarterTable/hooks/useTableData.ts:57-71 | outside single-week mode the months are unchanged |
| TableData.MonthsToRenderSingleWeek | src/components/QuarterPlanner/QuarterTable/hooks/useTableData.ts:61-71 | in single-week mode, each month is restricted to rendered weeks and empty months are dropped |
| TableData.MonthsToRenderOrdered | src/components/QuarterPlanner/QuarterTable/hooks/useTableData.ts:61-71 | the remaining months keep their order |
| TaskRow.Timed | src/components/QuarterPlanner/QuarterTable/TaskRow.tsx:106-110 | one parsed entry per subtask, in order, carrying the subtask |
| TaskRow.SortByTime | src/components/QuarterPlanner/QuarterTable/TaskRow.tsx:118-120 | sorted by ascending timestamp, and a permutation of its input |
| TaskRow.SortByTimeStable | src/components/QuarterPlanner/QuarterTable/TaskRow.tsx:118-120 | entries with equal timestamps keep their relative order |
| TaskRow.WeekSubtasks | src/components/QuarterPlanner/QuarterTable/TaskRow.tsx:106-120 | the week's subtasks with a valid timestamp, sorted by time; TaskRow.WeekSubtasksExact states what it holds |
| TaskRow.WeekSubtasksExact | src/components/QuarterPlanner/QuarterTable/TaskRow.tsx:106-120 | a cell holds exactly the subtasks with a valid time inside the inclusive week, sorted, a sub-multiset of the task's subtasks |
| TaskRow.RowCellsPerWeek | src/components/QuarterPlanner/QuarterTable/TaskRow.tsx:98-136 | one cell per week in month-then-week order, each active iff the week overlaps the task |
| PlannerPage.ParseQuarterFromSearch | src/components/QuarterPlanner.tsx:643-655 | None iff a number is not finite or the quarter is outside 1..4; otherwise both numbers unchanged, with no integer check |
| PlannerPage.MissingParameters | src/components/QuarterPlanner.tsx:643-655 | a missing quarter is rejected, while a missing year reads as 0 |
| PlannerPage.SearchRoundTrip | src/components/QuarterPlanner.tsx:643-655 | the decimal texts of a year and a quarter in 1..4 read back as those numbers |
| PlannerPage.CurrentQuarterOf | src/components/QuarterPlanner.tsx:368-376 | the parsed search quarter, else today's year and quarter |
| PlannerPage.DefaultTasks | src/components/QuarterPlanner.tsx:25-32 | one default task, "kickoff", within the limit |
| PlannerPage.SubmitError | src/components/QuarterPlanner.tsx:428-449 | the first failing check of the add-task form; PlannerPage.Page.HandleSubmit and PlannerPage.SubmittedTaskShape state its consequences |
| PlannerPage.SubmittedTaskShape | src/components/QuarterPlanner.tsx:425-464 | an accepted task keeps the list within 10, has a non-empty trimmed name, canonical dates and start not after end |
| PlannerPage.NonDatesAccepted | src/components/QuarterPlanner.tsx:436-449 | non-date texts pass the checks and are stored as "NaN-NaN-NaN" |
| PlannerPage.RemoveTaskExact | src/components/QuarterPlanner.tsx:466-468 | exactly the tasks with another id remain, nothing is added, and an absent id changes nothing |
| PlannerPage.RemoveTaskOrdered | src/components/QuarterPlanner.tsx:466-468 | the remaining tasks keep their order |
| PlannerPage.Page.ResetForm | src/components/QuarterPlanner.tsx:418-423 | name "", both dates today, no error, tasks unchanged |
| PlannerPage.Page.HandleSubmit | src/components/QuarterPlanner.tsx:425-464 | a rejection sets the first failing check's error and changes nothing else; success appends exactly one task and resets the form; the list stays within 10 |
| PlannerPage.Page.HandleRemoveTask | src/components/QuarterPlanner.tsx:466-468 | the tasks with another id remain; the form is untouched |
| Planner.CreateDefaultTasks | src/components/QuarterPlanner/index.tsx:25-41 | one task per default entry |
| Planner.DefaultTasksShape | src/components/QuarterPlanner/index.tsx:25-41 | id kept or fresh, name or "Untitled Task", start today, end today + max(Number(durationDays)‖0, 0) days |
| Planner.AddQueryTask | src/components/QuarterPlanner/index.tsx:81-129 | the list is unchanged, or exactly one task is appended below the limit |
| Planner.AddQueryTaskExact | src/components/QuarterPlanner/index.tsx:88-118 | appends iff all three fields are text, fewer than 10 tasks and no identical task; the verbatim fields with a fresh id; distinct details and the limit are kept |
| Planner.AddQueryTaskIdempotent | src/components/QuarterPlanner/index.tsx:81-129 | applying the same query task twice adds it at most once |
| Planner.RoutedPlanner.RefillIfEmpty | src/components/QuarterPlanner/index.tsx:75-79 | an empty list becomes the default tasks; a non-empty one is kept |
| Planner.RoutedPlanner.ApplyQueryTask | src/components/QuarterPlanner/index.tsx:81-129 | the tasks become AddQueryTask of the old tasks |
| Planner.RoutedPlanner.HandleRemoveTask | src/components/QuarterPlanner/index.tsx:145-147 | the tasks with another id remain |
| Planner.RoutedPlanner.HandleShiftQuarter | src/components/QuarterPlanner/index.tsx:136-143 | the current quarter is shifted by delta; the tasks are kept |
| TaskForm.DefaultFormDates | src/components/QuarterPlanner/hooks/useTaskForm.ts:26-37 | an empty name, start today and end today + 7 days |
| TaskForm.ValidateForm | src/components/QuarterPlanner/hooks/useTaskForm.ts:139-156 | no error only if the trimmed name and both dates are non-empty |
| TaskForm.ValidateFormOrder | src/components/QuarterPlanner/hooks/useTaskForm.ts:139-156 | each message appears iff its check is the first to fail: blank name, then empty dates, then start after end |
| TaskForm.RequestBodyAccepted | src/components/QuarterPlanner/hooks/useTaskForm.ts:176-187 | the request body passes the API's payload validation unchanged |
| TaskForm.SubmittedShape | src/components/QuarterPlanner/hooks/useTaskForm.ts:176-187 | the submitted form has a trimmed non-empty name, canonical dates in order, and is its own submitted form |
| TaskForm.ChangeOneField | src/components/QuarterPlanner/hooks/useTaskForm.ts:124-137 | only the named field changes; a null form stays null; the last write wins; writing the old value back restores the form |
| TaskForm.FindTask | src/components/QuarterPlanner/hooks/useTaskForm.ts:67 | a found task has the id; None iff no task has it |
| TaskForm.LoadTaskForm | src/components/QuarterPlanner/hooks/useTaskForm.ts:59-114 | the load-failed message iff the response failed |
| TaskForm.LoadTaskFormOutcome | src/components/QuarterPlanner/hooks/useTaskForm.ts:59-114 | not found iff no task has the id; loaded iff the name is text and a start or a numeric duration exists; the name is kept |
| TaskForm.LoadedTextDates | src/components/QuarterPlanner/hooks/useTaskForm.ts:73-100 | text dates load in canonical form |
| TaskForm.LoadedEndFromDuration | src/components/QuarterPlanner/hooks/useTaskForm.ts:89-100 | a missing end is start + max(floor(durationDays), 0) days, never before start |
| TaskForm.TaskFormHook.LoadTask | src/components/QuarterPlanner/hooks/useTaskForm.ts:54-122 | in edit mode a loaded form becomes form and initial form, a failure sets the load error; create mode loads nothing |
| TaskForm.TaskFormHook.HandleChange | src/components/QuarterPlanner/hooks/useTaskForm.ts:124-137 | the form is Change of the old form |
| TaskForm.TaskFormHook.HandleSubmit | src/components/QuarterPlanner/hooks/useTaskForm.ts:158-216 | nothing sent without a form or with an invalid one (the error set); else the body with id only in edit mode, and the save outcome |
| TaskForm.TaskFormHook.Save | src/components/QuarterPlanner/hooks/useTaskForm.ts:189-216 | sends the body; success leaves it saving, a refusal sets the error and stops saving |
| TaskForm.TaskFormHook.HandleReset | src/components/QuarterPlanner/hooks/useTaskForm.ts:222-234 | the initial form in edit mode when loaded, else the create defaults; the error cleared |
| TaskEdit.EditLoad | src/components/QuarterPlanner/TaskEdit.tsx:26-52 | the load-failed message for a failed response; a loaded form comes from a found task |
| TaskEdit.EditLoadOutcome | src/components/QuarterPlanner/TaskEdit.tsx:26-52 | not found iff no task has the id; loaded iff the found task's fields are text; the name kept and both dates canonical |
| TaskEdit.EditLoadCanonical | src/components/QuarterPlanner/TaskEdit.tsx:39-46 | the loaded dates are canonical, so an unchanged submit sends the dates shown |
| TaskEdit.EditPage.LoadTask | src/components/QuarterPlanner/TaskEdit.tsx:23-60 | a loaded form becomes both form and initial form; a failure sets the load error |
| TaskEdit.EditPage.HandleChange | src/components/QuarterPlanner/TaskEdit.tsx:62-75 | only the named field of a present form changes |
| TaskEdit.EditPage.HandleSubmit | src/components/QuarterPlanner/TaskEdit.tsx:77-129 | nothing without a form; an invalid form sets the error and sends nothing; else the PUT body with the task id, then back to the quarter or the refusal shown |
| TaskEdit.EditPage.Save | src/components/QuarterPlanner/TaskEdit.tsx:103-126 | the body is sent; success returns to the quarter, a refusal sets the error and stops saving |
| TaskEdit.EditPage.HandleReset | src/components/QuarterPlanner/TaskEdit.tsx:135-140 | the initial form and no error once loaded; nothing before |
| SubtaskDialog.InitialFormData | src/components/QuarterPlanner/Subtasks/SubtaskDialog.tsx:59-81 | create defaults ("", week start, "09:00") unless editing with a parseable date, whose date and HH:mm are then used |
| SubtaskDialog.InitialFormReopens | src/components/QuarterPlanner/Subtasks/SubtaskDialog.tsx:59-81 | an edited subtask's form reads back as its timestamp to the minute, with its title |
| SubtaskDialog.InitialSelection | src/components/QuarterPlanner/Subtasks/SubtaskDialog.tsx:87-89 | the task id in task mode; the first option in week mode, None without options |
| SubtaskDialog.CanSubmitInitially | src/components/QuarterPlanner/Subtasks/SubtaskDialog.tsx:152 | task mode can submit iff a task id is given; week mode iff options exist (given a non-empty first id) |
| SubtaskDialog.OutsideOfWeekDays | src/components/QuarterPlanner/Subtasks/SubtaskDialog.tsx:123-134 | a date is outside the week iff its day is before the start's day or after the end's day |
| SubtaskDialog.SubmitError | src/components/QuarterPlanner/Subtasks/SubtaskDialog.tsx:100-134 | no error only when the trimmed title, the date, the time and the task id are all given; SubtaskDialog.SubmitErrorOrder states each message |
| SubtaskDialog.SubmitErrorOrder | src/components/QuarterPlanner/Subtasks/SubtaskDialog.tsx:100-134 | each message iff its check is the first to fail: title, date, time, task, in-week |
| SubtaskDialog.SubmittedOf | src/components/QuarterPlanner/Subtasks/SubtaskDialog.tsx:136-142 | the resolved task id, the trimmed title, date and time unchanged, subtaskId only when editing |
| SubtaskDialog.Check | src/components/QuarterPlanner/Subtasks/SubtaskDialog.tsx:100-134 | the checks in source order give SubmitError |
| SubtaskDialog.Dialog.HandleSubmit | src/components/QuarterPlanner/Subtasks/SubtaskDialog.tsx:97-145 | the error is the first failing check; with none, the submitted form with the resolved task id |
| SubtaskDialog.Dialog.SelectTask | src/components/QuarterPlanner/Subtasks/SubtaskDialog.tsx:166-168 | sets the selected task id and nothing else; in week mode with tasks, the dialog can submit iff the id is not empty |
| SubtaskDialog.Dialog.SetTitle | src/components/QuarterPlanner/Subtasks/SubtaskDialog.tsx:186-188 | replaces the title and keeps every other field |
| SubtaskDialog.Dialog.SetDate | src/components/QuarterPlanner/Subtasks/SubtaskDialog.tsx:193 | replaces the date and keeps every other field |
| SubtaskDialog.Dialog.SetTime | src/components/QuarterPlanner/Subtasks/SubtaskDialog.tsx:198-200 | replaces the time and keeps every other field |
| TasksHook.LoadedTasksDistinct | src/components/QuarterPlanner/hooks/useTasks.ts:29-56 | the loaded tasks have pairwise distinct details; a failed request loads [] |
| TasksHook.LoadedTaskOrigin | src/components/QuarterPlanner/hooks/useTasks.ts:29-56 | every loaded task is what normalizeTask makes of some stored entry |
| TasksHook.TasksHook.Load | src/components/QuarterPlanner/hooks/useTasks.ts:29-56 | the tasks become normalizeTasks of the payload, or [] on any failure; loading ends |
| TasksHook.WithoutTaskExact | src/components/QuarterPlanner/hooks/useTasks.ts:58-60 | exactly the tasks with another id remain, as a sub-multiset, in order |
| TasksHook.WithoutAbsentTask | src/components/QuarterPlanner/hooks/useTasks.ts:58-60 | removing an absent id changes nothing |
| TasksHook.TasksHook.RemoveTask | src/components/QuarterPlanner/hooks/useTasks.ts:58-60 | the tasks become WithoutTask of the old tasks |
| TasksHook.WithUpdatedSubtasks | src/components/QuarterPlanner/hooks/useTasks.ts:62-73 | the length is kept |
| TasksHook.WithUpdatedSubtasksExact | src/components/QuarterPlanner/hooks/useTasks.ts:62-73 | a matching task gets updater(subtasks) and keeps every other field; any other task is identical |
| TasksHook.WithUpdatedSubtasksCompose | src/components/QuarterPlanner/hooks/useTasks.ts:62-73 | two updates compose into one with the composed updater |
| TasksHook.WithUpdatedSubtasksUnchanged | src/components/QuarterPlanner/hooks/useTasks.ts:62-73 | the identity updater, or an absent id, changes nothing |
| TasksHook.TasksHook.UpdateTaskSubtasks | src/components/QuarterPlanner/hooks/useTasks.ts:62-73 | the tasks become WithUpdatedSubtasks of the old tasks |
| SubtasksHook.SubtasksHook.Open | src/components/QuarterPlanner/hooks/useSubtasks.ts:33-36 | the draft is set and the error cleared |
| SubtasksHook.SubtasksHook.Close | src/components/QuarterPlanner/hooks/useSubtasks.ts:38-41 | no draft and the error cleared |
| SubtasksHook.SubtasksHook.HandleAddSubtask | src/components/QuarterPlanner/hooks/useSubtasks.ts:43-53 | a task-mode draft with no subtask id |
| SubtasksHook.SubtasksHook.HandleAddSubtaskForWeek | src/components/QuarterPlanner/hooks/useSubtasks.ts:55-67 | nothing with no options; otherwise a week-mode draft offering them |
| SubtasksHook.SubtasksHook.HandleEditSubtask | src/components/QuarterPlanner/hooks/useSubtasks.ts:69-89 | a task-mode draft carrying the subtask's id, title and timestamp |
| SubtasksHook.RequestOf | src/components/QuarterPlanner/hooks/useSubtasks.ts:96-104 | PUT iff the payload has a subtask id, else POST, to the task's subtasks path with the payload |
| SubtasksHook.NotificationOf | src/components/QuarterPlanner/hooks/useSubtasks.ts:113-117 | the update callback iff editing, with the edited id; otherwise the creation callback |
| SubtasksHook.RefusalMessage | src/components/QuarterPlanner/hooks/useSubtasks.ts:106-108 | the response's error text, else the update or add fallback |
| SubtasksHook.SubtasksHook.BeginSubmit | src/components/QuarterPlanner/hooks/useSubtasks.ts:93-94 | saving, with no error |
| SubtasksHook.SubtasksHook.FinishSubmit | src/components/QuarterPlanner/hooks/useSubtasks.ts:106-129 | a stored subtask notifies and closes; a refusal sets the error and keeps the draft; not saving either way |
| SubtasksHook.SubtasksHook.HandleSubtaskSubmit | src/components/QuarterPlanner/hooks/useSubtasks.ts:91-132 | the request sent, then the outcome of FinishSubmit; not saving afterwards |
| JsDate.NewDateInts | src/lib/quarter.ts:60-61 | `new Date(y, m, d)` on integers is midnight of MakeDay, with years 0..99 read as 19xx |
| JsDate.ParseIsoString | src/lib/task-utils.ts:15-23 | `new Date(t.toISOString())` is the same time |
| JsString.TrimIdempotent | src/lib/task-utils.ts:22 | trimming twice is trimming once |
| JsNumber.NatToStringNumber | src/lib/quarter.ts:124 | `Number` of a decimal text is its value |
| Calendar.CivilOfMakeDay | src/lib/quarter.ts:60 | the year, month and date of MakeDay(y, m, d) are y, m and d |
| JsArray.Map | src/lib/task-utils.ts:73-74 | the loop gives MapThrowing: the first throw, or every mapped entry |
| JsArray.MapThrowingPositions | src/lib/task-utils.ts:73-74 | a throw iff some entry throws; otherwise entry k is the callback's value on k |
| JsArray.FilterOrder | src/components/QuarterPlanner/hooks/useTasks.ts:59 | filtered entries keep their order |

## Left out

- Time zones: local time is UTC with no daylight saving time. So `setHours(0, 0, 0, 0)` and `setUTCDate` agree, and `addDays` never lands on 23:00 of the previous day.
- JsDate.NewDateInts: the TimeClip limit of ±8.64e15 ms is not applied by any Date constructor of the model (JsDate.NewDateInts, JsDate.NewDate, JsDate.ParseTimestamp), so out-of-range dates stay valid. For example `Quarter.ParseISODate("275761-01-01")` is a valid date here, where JavaScript gives an Invalid Date and `formatISODate` gives "NaN-NaN-NaN".
- JsDate.ParseTimestamp: only the ECMA-262 Date Time String Format is accepted. Other texts that V8 parses leniently, such as `2025-07-01 10:00`, are Invalid here, so `normalizeSubtask` drops them where the engine would keep them.
- ViewMode.WeekKey: `toISOString` throws a RangeError on an Invalid Date; the model returns "" instead (weeks are never invalid in the code).
- JsNumber.StringToNumber: IEEE-754 rounding is not modelled; numbers are exact reals.
- Route errors: the 500 answers of route.ts are not modelled. These are malformed JSON, and a `null` payload whose `payload.name` throws (route.ts:44-51, 76-79).
- Route storage: file persistence is not modelled (`readTasks`/`writeTasks`, the ENOENT case, `NextResponse`); the store is an array field.
- `Intl.DateTimeFormat` month names, week labels, headings and the translation strings are not modelled.
- SubtaskDialog: the week summary and subtitle texts are not modelled.
- React lifecycles: effects and memos, the `cancelled` flags and router navigation (push, replace, back on cancel) are not modelled. Neither are `headingTitle` or toasts.
- `fetch` answers, `crypto.randomUUID()` and `new Date()` are parameters of the operations that use them.
- TasksHook.TasksHook.Load: a failed response and an unreadable body are one case (`None`); both load [].
- SubtasksHook.SubtasksHook.FinishSubmit: a success response whose JSON cannot be read is not modelled.
- TaskEdit.EditLoad: a task whose name is not text fails the load with the TypeError message. In the code it loads and fails only at submit, when `trim` is called. The TypeError message is a parameter.
- TaskForm.LoadTaskForm: a `fetch` that rejects, or a success body that is not JSON, throws, and useTaskForm.ts:66-104 shows the thrown message as `loadError`. The fetch answer is `Option<seq<StoredTask>>`, so the model has only the "Failed to load task data." case for it.
- TaskEdit.EditLoad: for the same reason, a rejected `fetch` or an unreadable body (TaskEdit.tsx:26-52) is not told apart from a failed response.
- TaskForm.TaskFormHook.Save: a `fetch` that rejects sets `error` to the thrown message (useTaskForm.ts:205-212). SaveResult has only a success and a refusal with an optional `error` field, so that message is not modelled.
- TaskEdit.EditPage.Save: the same holds for the edit page (TaskEdit.tsx:120-125).
- SubtaskDialog.InitialFormReopens: stated only for years 1000..9999, where the formatted date is the four-digit form the Date Time String Format reads back.
- SubtaskDialog.FieldsOfTimestamp: stated only for years 1000..9999, for the same reason.
- Quarter.ParseFormatRoundTrip: stated for years from 100 on, because `new Date(y, m, d)` reads years 0..99 as 19xx. Quarter.ParseFormatTwoDigitYear states what happens instead.
- Quarter.IsoWeekAsComputedAgrees: stated outside years 0..99, where `Date.UTC(date.getFullYear(), …)` and `Date.UTC(target.getUTCFullYear(), 0, 1)` inside the computation (src/lib/quarter.ts:166, 169) read the year as 19xx.

## Findings

| source | as written | input that shows it | evidently intended | confidence | as-written member | corrected member |
|---|---|---|---|---|---|---|
| src/app/api/tasks/route.ts:56-67 | POST looks for a duplicate with the untrimmed `payload.name` but stores the trimmed name | POST `{ name: " Launch", start: "2025-07-01", end: "2025-07-02" }` twice: both answer 201 and the store holds two tasks with the same name and dates | the duplicate check compares the trimmed name, so the second POST answers 409 | not executed | TasksRoute.PostTwicePaddedName | TasksRoute.PostTrimmedKeepsUnique |
