/**
 * The view-mode hook of the quarter table
 * (src/components/QuarterPlanner/QuarterTable/hooks/useViewMode.ts): which
 * week the single-week view shows, the fallbacks used when the stored
 * selection no longer names a week, and the week dropdown.
 */
module ViewMode {
  import opened Wrappers
  import opened JsDate
  import opened Quarter

  const Standard := "standard"
  const Compact := "compact"
  const SingleWeek := "single-week"

  /** `week.start.toISOString()`, the key a week is selected by. */
  function WeekKey(w: WeekInfo): string {
    if w.start.Time? then IsoString(w.start.ms) else ""
  }

  /** Two weeks starting at valid dates (with years the ISO form can hold)
      have the same key exactly when they start at the same instant. */
  lemma WeekKeysDistinct(a: WeekInfo, b: WeekInfo)
    requires a.start.Time? && -999999 <= FullYear(a.start.ms) <= 999999
    requires b.start.Time? && -999999 <= FullYear(b.start.ms) <= 999999
    ensures WeekKey(a) == WeekKey(b) <==> a.start == b.start
  {
    ParseIsoString(a.start.ms);
    ParseIsoString(b.start.ms);
  }

  /** `structure.weeks.some(week => key === week.start.toISOString())`. */
  predicate NamesWeek(weeks: seq<WeekInfo>, key: string) {
    exists i :: 0 <= i < |weeks| && WeekKey(weeks[i]) == key
  }

  /** Every key of the list names a week of the structure. */
  predicate KeysOfWeeks(weeks: seq<WeekInfo>, keys: seq<string>) {
    forall k :: k in keys ==> NamesWeek(weeks, k)
  }

  /** The initial selection: the first week's key, or null without weeks. */
  function InitialSelection(weeks: seq<WeekInfo>): (r: Option<string>)
    ensures r.None? <==> |weeks| == 0
    ensures r.Some? ==> NamesWeek(weeks, r.value)
  {
    if |weeks| > 0 then Some(WeekKey(weeks[0])) else None
  }

  /** firstActiveWeekKey: the first active key, else the first week's key,
      else null. */
  function FirstActiveWeekKey(weeks: seq<WeekInfo>, active: seq<string>): (r: Option<string>)
    ensures |active| > 0 ==> r == Some(active[0])
    ensures |active| == 0 ==> r == InitialSelection(weeks)
  {
    if |active| > 0 then Some(active[0]) else InitialSelection(weeks)
  }

  /** `!key` for a `string | null`: null and "" are falsy. */
  predicate Blank(key: Option<string>) {
    key.None? || key.value == ""
  }

  /** effectiveSelectedWeekKey: null without weeks; the selection when it
      names a week; otherwise the first active week's key. */
  function EffectiveSelectedWeekKey(weeks: seq<WeekInfo>, selected: Option<string>, firstActive: Option<string>): Option<string> {
    if |weeks| == 0 then None
    else if Blank(selected) then firstActive
    else if NamesWeek(weeks, selected.value) then selected
    else firstActive
  }

  /** When the active keys are keys of weeks, the effective selection is
      null exactly when there are no weeks and otherwise names a week; it
      is the selection itself when that names a week, and falls back to
      firstActiveWeekKey otherwise. */
  lemma EffectiveSelection(weeks: seq<WeekInfo>, selected: Option<string>, active: seq<string>)
    requires KeysOfWeeks(weeks, active)
    ensures var r := EffectiveSelectedWeekKey(weeks, selected, FirstActiveWeekKey(weeks, active));
      && (r.None? <==> |weeks| == 0)
      && (r.Some? ==> NamesWeek(weeks, r.value))
      && (!Blank(selected) && NamesWeek(weeks, selected.value) ==> r == selected)
      && (|weeks| > 0 && (Blank(selected) || !NamesWeek(weeks, selected.value)) ==>
            r == FirstActiveWeekKey(weeks, active))
  {
    if |active| > 0 {
      assert active[0] in active;
    }
  }

  /** Feeding the effective selection back as the selection changes
      nothing. */
  lemma EffectiveSelectionStable(weeks: seq<WeekInfo>, selected: Option<string>, active: seq<string>)
    requires KeysOfWeeks(weeks, active)
    requires forall i :: 0 <= i < |weeks| ==> WeekKey(weeks[i]) != ""
    ensures var fa := FirstActiveWeekKey(weeks, active);
      EffectiveSelectedWeekKey(weeks, EffectiveSelectedWeekKey(weeks, selected, fa), fa)
        == EffectiveSelectedWeekKey(weeks, selected, fa)
  {
    EffectiveSelection(weeks, selected, active);
    var r := EffectiveSelectedWeekKey(weeks, selected, FirstActiveWeekKey(weeks, active));
    if r.Some? {
      var i :| 0 <= i < |weeks| && WeekKey(weeks[i]) == r.value;
    }
  }

  /** One entry of the week dropdown; the label's formatted date range is
      represented by the ISO week number it starts with. */
  datatype WeekOption = WeekOption(value: string, isoWeek: int, disabled: bool)

  /** weekDropdownOptions: one option per week, disabled when there are
      active keys and the week's key is not one of them. */
  function WeekDropdownOptions(weeks: seq<WeekInfo>, active: seq<string>): (r: seq<WeekOption>)
    ensures |r| == |weeks|
  {
    seq(|weeks|, i requires 0 <= i < |weeks| =>
      WeekOption(WeekKey(weeks[i]), weeks[i].isoWeek, |active| > 0 && WeekKey(weeks[i]) !in active))
  }

  /** The options follow the weeks in order, and the enabled ones are
      exactly the active weeks (every week when none is active). */
  lemma WeekOptionsEnabled(weeks: seq<WeekInfo>, active: seq<string>)
    requires KeysOfWeeks(weeks, active)
    ensures var r := WeekDropdownOptions(weeks, active);
      && (forall i :: 0 <= i < |weeks| ==> r[i].value == WeekKey(weeks[i]) && r[i].isoWeek == weeks[i].isoWeek)
      && (|active| == 0 ==> forall i :: 0 <= i < |r| ==> !r[i].disabled)
      && (|active| > 0 ==> forall k ::
            (exists i :: 0 <= i < |r| && !r[i].disabled && r[i].value == k) <==> k in active)
  {
    var r := WeekDropdownOptions(weeks, active);
    if |active| > 0 {
      forall k | k in active
        ensures exists i :: 0 <= i < |r| && !r[i].disabled && r[i].value == k
      {
        var i :| 0 <= i < |weeks| && WeekKey(weeks[i]) == k;
        assert !r[i].disabled && r[i].value == k;
      }
    }
  }

  /** The selection handleViewModeChange keeps for the single-week view:
      the current key if it names a week and is active (or nothing is),
      otherwise firstActiveWeekKey. */
  function KeptSelection(weeks: seq<WeekInfo>, current: Option<string>, active: seq<string>, firstActive: Option<string>): Option<string> {
    if !Blank(current) && NamesWeek(weeks, current.value) && (|active| == 0 || current.value in active)
    then current
    else firstActive
  }

  /** Entering the single-week view (with the hook's own firstActiveWeekKey
      and active keys of weeks) selects a week whose dropdown option is
      enabled whenever the structure has weeks, and that selection is then
      the effective one. */
  lemma KeptSelectionEnabled(weeks: seq<WeekInfo>, current: Option<string>, active: seq<string>)
    requires KeysOfWeeks(weeks, active) && |weeks| > 0
    ensures var fa := FirstActiveWeekKey(weeks, active);
      var r := KeptSelection(weeks, current, active, fa);
      && r.Some? && NamesWeek(weeks, r.value)
      && (|active| == 0 || r.value in active)
      && (r.value != "" ==> EffectiveSelectedWeekKey(weeks, r, fa) == r)
  {
    if |active| > 0 {
      assert active[0] in active;
    }
  }

  /** The hook's state: the view mode (whatever string the dropdown
      passed) and the selected week key. */
  class ViewModeState {
    var viewMode: string
    var selectedWeekKey: Option<string>

    /** The standard view, with the first week selected. */
    constructor(weeks: seq<WeekInfo>)
      ensures viewMode == Standard && selectedWeekKey == InitialSelection(weeks)
    {
      viewMode := Standard;
      selectedWeekKey := InitialSelection(weeks);
    }

    /** The week dropdown's setter. */
    method SetSelectedWeekKey(key: Option<string>)
      modifies this
      ensures selectedWeekKey == key && viewMode == old(viewMode)
    {
      selectedWeekKey := key;
    }

    /** handleViewModeChange: sets the mode; only the single-week view
        revises the selection. */
    method HandleViewModeChange(weeks: seq<WeekInfo>, nextValue: string, active: seq<string>, firstActive: Option<string>)
      modifies this
      ensures viewMode == nextValue
      ensures nextValue != SingleWeek ==> selectedWeekKey == old(selectedWeekKey)
      ensures nextValue == SingleWeek ==>
        selectedWeekKey == KeptSelection(weeks, old(selectedWeekKey), active, firstActive)
    {
      viewMode := nextValue;
      if nextValue != SingleWeek {
        return;
      }
      var current := selectedWeekKey;
      if !Blank(current) && NamesWeek(weeks, current.value) && (|active| == 0 || current.value in active) {
        selectedWeekKey := current;
      } else {
        selectedWeekKey := firstActive;
      }
    }
  }
}
