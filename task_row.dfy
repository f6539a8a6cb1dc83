/**
 * One row of the quarter table
 * (src/components/QuarterPlanner/QuarterTable/TaskRow.tsx): a cell per
 * rendered week, marked active when the task's range overlaps the week,
 * holding the task's subtasks timed inside that week in time order.
 */
module TaskRow {
  import opened Wrappers
  import opened Calendar
  import opened JsDate
  import opened Quarter
  import opened TaskUtils
  import opened JsArray
  import opened TableData

  /** A subtask with `new Date(subtask.timestamp)` attached. */
  datatype TimedSubtask = TimedSubtask(subtask: Subtask, timestampDate: Date)

  /** A week cell: the week, whether the task is active in it, and its
      subtasks. */
  datatype WeekCell = WeekCell(week: WeekInfo, active: bool, weekSubtasks: seq<TimedSubtask>)

  /** The subtasks with their parsed timestamps, in order. */
  function Timed(subs: seq<Subtask>): (r: seq<TimedSubtask>)
    ensures |r| == |subs|
    ensures forall i :: 0 <= i < |subs| ==> r[i].subtask == subs[i]
  {
    seq(|subs|, i requires 0 <= i < |subs| => TimedSubtask(subs[i], ParseTimestamp(subs[i].timestamp)))
  }

  /** The filter of a cell: a valid time between the week's start and the
      last millisecond of its end day, both inclusive (NaN bounds admit
      nothing). */
  predicate InWeek(s: TimedSubtask, week: WeekInfo) {
    s.timestampDate.Time? && week.start.Time? && week.end.Time?
    && week.start.ms <= s.timestampDate.ms <= week.end.ms + MsPerDay - 1
  }

  /** The sort key `timestampDate.getTime()` (only valid times reach the
      sort). */
  function TimeOf(s: TimedSubtask): int {
    if s.timestampDate.Time? then s.timestampDate.ms else 0
  }

  predicate SortedByTime(xs: seq<TimedSubtask>) {
    forall i, j :: 0 <= i < j < |xs| ==> TimeOf(xs[i]) <= TimeOf(xs[j])
  }

  /** Puts x before the first element that is not earlier than it. */
  function Insert(x: TimedSubtask, xs: seq<TimedSubtask>): (r: seq<TimedSubtask>)
    ensures multiset(r) == multiset(xs) + multiset{x}
    ensures |r| > 0 && (r[0] == x || (|xs| > 0 && r[0] == xs[0]))
  {
    if xs == [] || TimeOf(x) <= TimeOf(xs[0]) then [x] + xs
    else
      assert xs == [xs[0]] + xs[1..];
      [xs[0]] + Insert(x, xs[1..])
  }

  /** A sorted list stays sorted under a head no later than its first
      element. */
  lemma SortedCons(h: TimedSubtask, xs: seq<TimedSubtask>)
    requires SortedByTime(xs) && (xs == [] || TimeOf(h) <= TimeOf(xs[0]))
    ensures SortedByTime([h] + xs)
  {
    var r := [h] + xs;
    forall i, j | 0 <= i < j < |r|
      ensures TimeOf(r[i]) <= TimeOf(r[j])
    {
      if i == 0 {
        assert r[j] == xs[j - 1];
        assert TimeOf(xs[0]) <= TimeOf(xs[j - 1]) || j == 1;
      } else {
        assert r[i] == xs[i - 1] && r[j] == xs[j - 1];
      }
    }
  }

  /** Inserting into a sorted list keeps it sorted. */
  lemma {:induction false} InsertSorted(x: TimedSubtask, xs: seq<TimedSubtask>)
    requires SortedByTime(xs)
    ensures SortedByTime(Insert(x, xs))
  {
    if xs == [] || TimeOf(x) <= TimeOf(xs[0]) {
      SortedCons(x, xs);
    } else {
      var tail := xs[1..];
      assert SortedByTime(tail) by {
        forall i, j | 0 <= i < j < |tail|
          ensures TimeOf(tail[i]) <= TimeOf(tail[j])
        {
          assert tail[i] == xs[i + 1] && tail[j] == xs[j + 1];
        }
      }
      InsertSorted(x, tail);
      var rest := Insert(x, tail);
      assert tail != [] ==> TimeOf(xs[0]) <= TimeOf(tail[0]) by {
        if tail != [] {
          assert tail[0] == xs[1];
        }
      }
      SortedCons(xs[0], rest);
    }
  }

  /** `sort((a, b) => a.time - b.time)`: ascending by time, equal times in
      their original order. */
  function SortByTime(xs: seq<TimedSubtask>): (r: seq<TimedSubtask>)
    ensures SortedByTime(r)
    ensures multiset(r) == multiset(xs)
  {
    if xs == [] then []
    else
      assert xs == [xs[0]] + xs[1..];
      InsertSorted(xs[0], SortByTime(xs[1..]));
      Insert(xs[0], SortByTime(xs[1..]))
  }

  /** The elements of xs whose sort key is t, in their order in xs. */
  function AtTime(xs: seq<TimedSubtask>, t: int): (r: seq<TimedSubtask>)
    ensures forall s :: s in r <==> s in xs && TimeOf(s) == t
  {
    if xs == [] then []
    else if TimeOf(xs[0]) == t then [xs[0]] + AtTime(xs[1..], t)
    else AtTime(xs[1..], t)
  }

  /** Inserting x leaves every other time's elements in place and puts x
      in front of the elements it shares a time with. */
  lemma {:induction false} InsertAtTime(x: TimedSubtask, xs: seq<TimedSubtask>, t: int)
    ensures AtTime(Insert(x, xs), t) == (if TimeOf(x) == t then [x] else []) + AtTime(xs, t)
  {
    if xs == [] || TimeOf(x) <= TimeOf(xs[0]) {
      assert ([x] + xs)[1..] == xs;
    } else {
      var r := Insert(x, xs);
      assert r[1..] == Insert(x, xs[1..]);
      InsertAtTime(x, xs[1..], t);
    }
  }

  /** The sort is stable: for every time, the subtasks sharing it come out
      in the order they went in. */
  lemma {:induction false} SortByTimeStable(xs: seq<TimedSubtask>, t: int)
    ensures AtTime(SortByTime(xs), t) == AtTime(xs, t)
  {
    if xs != [] {
      SortByTimeStable(xs[1..], t);
      InsertAtTime(xs[0], SortByTime(xs[1..]), t);
    }
  }

  /** `week => InWeek(s, week)` as a filter callback. */
  function InWeekOf(week: WeekInfo): TimedSubtask -> bool {
    (s: TimedSubtask) => InWeek(s, week)
  }

  /** weekSubtasks: the subtasks timed in the week, earliest first. */
  function WeekSubtasks(subs: seq<Subtask>, week: WeekInfo): seq<TimedSubtask> {
    SortByTime(Filter(Timed(subs), InWeekOf(week)))
  }

  /** A cell's subtasks are exactly the task's subtasks timed in the week,
      sorted by time; nothing is added or repeated, and none has an
      invalid timestamp. */
  lemma WeekSubtasksExact(subs: seq<Subtask>, week: WeekInfo)
    ensures var r := WeekSubtasks(subs, week);
      && SortedByTime(r)
      && (forall s :: s in r <==> s in Timed(subs) && InWeek(s, week))
      && multiset(r) <= multiset(Timed(subs))
      && (forall s :: s in r ==> s.timestampDate.Time?)
  {
    var kept := Filter(Timed(subs), InWeekOf(week));
    var r := WeekSubtasks(subs, week);
    FilterSubMultiset(Timed(subs), InWeekOf(week));
    forall s
      ensures s in r <==> s in kept
    {
      assert s in r <==> s in multiset(r);
      assert s in kept <==> s in multiset(kept);
    }
  }

  /** The cell of one week. */
  function CellOf(task: ParsedTask, week: WeekInfo): WeekCell {
    WeekCell(week, WeekOverlapsRange(week, task.startDate, task.endDate), WeekSubtasks(task.task.subtasks, week))
  }

  /** The weeks of the rendered months, month after month. */
  function WeeksOfMonths(months: seq<MonthInfo>): (r: seq<WeekInfo>) {
    if months == [] then [] else months[0].weeks + WeeksOfMonths(months[1..])
  }

  /** `week => cell of week` for one task. */
  function CellAt(task: ParsedTask): WeekInfo -> WeekCell {
    (week: WeekInfo) => CellOf(task, week)
  }

  /** `monthsToRender.flatMap(month => month.weeks.map(week => cell))`. */
  function RowCells(task: ParsedTask, months: seq<MonthInfo>): (r: seq<WeekCell>) {
    CellsOfMonths(months, CellAt(task))
  }

  /** The flatMap over the months' weeks for any cell function. */
  function CellsOfMonths(months: seq<MonthInfo>, cell: WeekInfo -> WeekCell): (r: seq<WeekCell>) {
    if months == [] then []
    else
      seq(|months[0].weeks|, i requires 0 <= i < |months[0].weeks| => cell(months[0].weeks[i]))
      + CellsOfMonths(months[1..], cell)
  }

  /** One result per week of the months, in order. */
  lemma {:induction false} CellsOfMonthsPerWeek(months: seq<MonthInfo>, cell: WeekInfo -> WeekCell)
    ensures |CellsOfMonths(months, cell)| == |WeeksOfMonths(months)|
    ensures forall k :: 0 <= k < |WeeksOfMonths(months)| ==>
      CellsOfMonths(months, cell)[k] == cell(WeeksOfMonths(months)[k])
  {
    if months != [] {
      CellsOfMonthsPerWeek(months[1..], cell);
      var head := months[0].weeks;
      var ws, ws' := WeeksOfMonths(months), WeeksOfMonths(months[1..]);
      var cells, cells' := CellsOfMonths(months, cell), CellsOfMonths(months[1..], cell);
      var headCells := seq(|head|, i requires 0 <= i < |head| => cell(head[i]));
      assert ws == head + ws';
      assert cells == headCells + cells';
      forall k | 0 <= k < |ws|
        ensures cells[k] == cell(ws[k])
      {
        if k < |head| {
          assert ws[k] == head[k] && cells[k] == headCells[k];
        } else {
          assert ws[k] == ws'[k - |head|] && cells[k] == cells'[k - |head|];
        }
      }
    }
  }

  /** The row has one cell per rendered week, in month-then-week order; a
      cell is active exactly when the task's range overlaps its week. */
  lemma RowCellsPerWeek(task: ParsedTask, months: seq<MonthInfo>)
    ensures |RowCells(task, months)| == |WeeksOfMonths(months)|
    ensures forall k :: 0 <= k < |WeeksOfMonths(months)| ==>
      RowCells(task, months)[k] == CellOf(task, WeeksOfMonths(months)[k])
  {
    CellsOfMonthsPerWeek(months, CellAt(task));
  }
}
