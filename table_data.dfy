/**
 * The table-data hook of the quarter table
 * (src/components/QuarterPlanner/QuarterTable/hooks/useTableData.ts): the
 * tasks with parsed dates, the weeks some task overlaps, and the weeks and
 * months the current view mode renders.
 */
module TableData {
  import opened Wrappers
  import opened JsDate
  import opened Quarter
  import opened TaskUtils
  import opened JsArray
  import opened ViewMode

  /** A task with its start and end parsed by parseISODate. */
  datatype ParsedTask = ParsedTask(task: Task, startDate: Date, endDate: Date)

  /** parsedTasks: each task, unchanged, with its parsed dates. */
  function ParseTasks(tasks: seq<Task>): (r: seq<ParsedTask>)
    ensures |r| == |tasks|
    ensures forall i :: 0 <= i < |tasks| ==> r[i].task == tasks[i]
  {
    seq(|tasks|, i requires 0 <= i < |tasks| =>
      ParsedTask(tasks[i], ParseISODate(tasks[i].start), ParseISODate(tasks[i].end)))
  }

  /** Some task's range overlaps the week. */
  predicate HasTask(week: WeekInfo, parsed: seq<ParsedTask>) {
    exists j :: 0 <= j < |parsed| && WeekOverlapsRange(week, parsed[j].startDate, parsed[j].endDate)
  }

  /** The weeks some task overlaps, in week order. */
  function ActiveWeeks(weeks: seq<WeekInfo>, parsed: seq<ParsedTask>): seq<WeekInfo> {
    Filter(weeks, (w: WeekInfo) => HasTask(w, parsed))
  }

  /** activeWeekKeys: the keys of the weeks some task overlaps. */
  function ActiveWeekKeys(weeks: seq<WeekInfo>, parsed: seq<ParsedTask>): (r: seq<string>)
    ensures |r| <= |weeks|
  {
    var active := ActiveWeeks(weeks, parsed);
    seq(|active|, i requires 0 <= i < |active| => WeekKey(active[i]))
  }

  /** A key is active exactly when it is the key of a week that some task
      overlaps; keys are listed in the order of their weeks. */
  lemma ActiveWeekKeysExact(weeks: seq<WeekInfo>, parsed: seq<ParsedTask>)
    ensures forall k :: k in ActiveWeekKeys(weeks, parsed) <==>
      exists w :: w in weeks && HasTask(w, parsed) && WeekKey(w) == k
    ensures KeysOfWeeks(weeks, ActiveWeekKeys(weeks, parsed))
  {
    var active := ActiveWeeks(weeks, parsed);
    var r := ActiveWeekKeys(weeks, parsed);
    forall k | k in r
      ensures exists w :: w in weeks && HasTask(w, parsed) && WeekKey(w) == k
    {
      var i :| 0 <= i < |r| && r[i] == k;
      assert active[i] in active;
    }
    forall k | exists w :: w in weeks && HasTask(w, parsed) && WeekKey(w) == k
      ensures k in r
    {
      var w :| w in weeks && HasTask(w, parsed) && WeekKey(w) == k;
      assert w in active;
      var i :| 0 <= i < |active| && active[i] == w;
      assert r[i] == k;
    }
    forall k | k in r
      ensures NamesWeek(weeks, k)
    {
      var w :| w in weeks && HasTask(w, parsed) && WeekKey(w) == k;
      var i :| 0 <= i < |weeks| && weeks[i] == w;
    }
  }

  /** Active keys come in week order: two active keys at positions i < j
      are the keys of weeks at positions a < b. */
  lemma ActiveWeekKeysOrdered(weeks: seq<WeekInfo>, parsed: seq<ParsedTask>, i: int, j: int) returns (a: int, b: int)
    requires 0 <= i < j < |ActiveWeekKeys(weeks, parsed)|
    ensures 0 <= a < b < |weeks|
    ensures WeekKey(weeks[a]) == ActiveWeekKeys(weeks, parsed)[i]
    ensures WeekKey(weeks[b]) == ActiveWeekKeys(weeks, parsed)[j]
  {
    a, b := FilterOrder(weeks, w => HasTask(w, parsed), i, j);
  }

  /** `week => week.start.toISOString() === key`. */
  function KeyIs(key: string): WeekInfo -> bool {
    (w: WeekInfo) => WeekKey(w) == key
  }

  /** weeksToRender: in the single-week view, nothing without a selection
      and otherwise the weeks with the selected key; every week in the
      other views. */
  function WeeksToRender(weeks: seq<WeekInfo>, viewMode: string, key: Option<string>): (r: seq<WeekInfo>)
    ensures viewMode != SingleWeek ==> r == weeks
    ensures viewMode == SingleWeek && Blank(key) ==> r == []
    ensures viewMode == SingleWeek && !Blank(key) ==>
      forall w :: w in r <==> w in weeks && WeekKey(w) == key.value
  {
    if viewMode == SingleWeek then
      if Blank(key) then [] else Filter(weeks, KeyIs(key.value))
    else weeks
  }

  /** No two weeks share a key. */
  predicate DistinctKeys(weeks: seq<WeekInfo>) {
    forall i, j :: 0 <= i < j < |weeks| ==> WeekKey(weeks[i]) != WeekKey(weeks[j])
  }

  /** Week starts strictly increase and are valid dates with years the ISO
      form can hold, as in the structure of a quarter. */
  predicate IncreasingStarts(weeks: seq<WeekInfo>) {
    && (forall i :: 0 <= i < |weeks| ==>
          weeks[i].start.Time? && -999999 <= FullYear(weeks[i].start.ms) <= 999999)
    && (forall i, j :: 0 <= i < j < |weeks| ==> weeks[i].start.ms < weeks[j].start.ms)
  }

  /** Weeks with increasing starts have distinct keys. */
  lemma IncreasingStartsDistinct(weeks: seq<WeekInfo>)
    requires IncreasingStarts(weeks)
    ensures DistinctKeys(weeks)
  {
    forall i, j | 0 <= i < j < |weeks|
      ensures WeekKey(weeks[i]) != WeekKey(weeks[j])
    {
      WeekKeysDistinct(weeks[i], weeks[j]);
    }
  }

  /** With distinct keys, the single-week view renders exactly the one week
      the selection names. */
  lemma SingleWeekRendersOne(weeks: seq<WeekInfo>, key: string) returns (i: int)
    requires DistinctKeys(weeks) && key != "" && NamesWeek(weeks, key)
    ensures 0 <= i < |weeks| && WeekKey(weeks[i]) == key
    ensures WeeksToRender(weeks, SingleWeek, Some(key)) == [weeks[i]]
  {
    i :| 0 <= i < |weeks| && WeekKey(weeks[i]) == key;
    forall j | 0 <= j < |weeks| && j != i
      ensures !KeyIs(key)(weeks[j])
    {
      if j < i {
        assert WeekKey(weeks[j]) != WeekKey(weeks[i]);
      } else {
        assert WeekKey(weeks[i]) != WeekKey(weeks[j]);
      }
    }
    FilterSingle(weeks, KeyIs(key), i);
  }

  /** `visibleWeek.start.getTime() === week.start.getTime()` for some
      rendered week (NaN equals nothing). */
  predicate Rendered(week: WeekInfo, rendered: seq<WeekInfo>) {
    exists j :: 0 <= j < |rendered| && rendered[j].start.Time? && week.start.Time?
      && rendered[j].start.ms == week.start.ms
  }

  /** A month restricted to its rendered weeks. */
  function VisibleMonth(month: MonthInfo, rendered: seq<WeekInfo>): MonthInfo {
    month.(weeks := Filter(month.weeks, (w: WeekInfo) => Rendered(w, rendered)))
  }

  /** monthsToRender (without the locale month name): in the single-week
      view each month keeps only rendered weeks and empty months are
      dropped; the other views keep every month. */
  function MonthsToRender(months: seq<MonthInfo>, viewMode: string, rendered: seq<WeekInfo>): (r: seq<MonthInfo>)
    ensures viewMode != SingleWeek ==> r == months
    ensures |r| <= |months|
  {
    if viewMode == SingleWeek then
      Filter(seq(|months|, i requires 0 <= i < |months| => VisibleMonth(months[i], rendered)),
             (m: MonthInfo) => |m.weeks| > 0)
    else months
  }

  /** In the single-week view every month shown has weeks, all rendered;
      it is an input month restricted to its rendered weeks; and every
      input month with a rendered week is shown. */
  lemma MonthsToRenderSingleWeek(months: seq<MonthInfo>, rendered: seq<WeekInfo>)
    ensures var r := MonthsToRender(months, SingleWeek, rendered);
      && (forall m :: m in r ==> |m.weeks| > 0 && forall w :: w in m.weeks ==> Rendered(w, rendered))
      && (forall m :: m in r <==> exists i :: 0 <= i < |months| && m == VisibleMonth(months[i], rendered)
                                            && |m.weeks| > 0)
  {
    var vs := seq(|months|, i requires 0 <= i < |months| => VisibleMonth(months[i], rendered));
    var r := MonthsToRender(months, SingleWeek, rendered);
    assert r == Filter(vs, (m: MonthInfo) => |m.weeks| > 0);
    forall m | m in r
      ensures exists i :: 0 <= i < |months| && m == VisibleMonth(months[i], rendered) && |m.weeks| > 0
    {
      var i :| 0 <= i < |vs| && vs[i] == m;
    }
    forall m | exists i :: 0 <= i < |months| && m == VisibleMonth(months[i], rendered) && |m.weeks| > 0
      ensures m in r
    {
      var i :| 0 <= i < |months| && m == VisibleMonth(months[i], rendered) && |m.weeks| > 0;
      assert vs[i] == m;
    }
  }

  /** The months shown keep their order: two shown months at positions
      i < j come from input months at positions a < b. */
  lemma MonthsToRenderOrdered(months: seq<MonthInfo>, rendered: seq<WeekInfo>, i: int, j: int) returns (a: int, b: int)
    requires 0 <= i < j < |MonthsToRender(months, SingleWeek, rendered)|
    ensures 0 <= a < b < |months|
    ensures MonthsToRender(months, SingleWeek, rendered)[i].month == months[a].month
    ensures MonthsToRender(months, SingleWeek, rendered)[j].month == months[b].month
  {
    var vs := seq(|months|, k requires 0 <= k < |months| => VisibleMonth(months[k], rendered));
    a, b := FilterOrder(vs, (m: MonthInfo) => |m.weeks| > 0, i, j);
  }
}
