/** The filter bar's state (src/components/reports/FilterBar.tsx): the
    current filter options and the handlers that replace them, each
    reporting the new value to the page through `onFilterChange`. */
module Filters {
  import opened Wrappers
  import opened Sequences

  /** Time window in hours, the selected severity levels in selection order,
      and the chosen neighbourhood if any. */
  datatype FilterOptions = FilterOptions(timeRange: int, severity: seq<int>, neighborhood: Option<string>)

  /** One day, every level, every neighbourhood. */
  const DefaultFilters: FilterOptions := FilterOptions(24, [1, 2, 3], None)

  /** At least one level is selected and none twice. */
  predicate ValidSeverity(s: seq<int>) {
    |s| > 0 && NoDuplicates(s)
  }

  /** The selection `handleSeverityChange(level)` stores: an unselected level
      is appended, a selected one removed; `None` when removing it would
      leave nothing selected, the case in which the handler returns early. */
  function ToggleSeverity(selected: seq<int>, level: int): (r: Option<seq<int>>)
    ensures level !in selected ==> r == Some(selected + [level])
    ensures level in selected ==> (r.None? <==> forall x :: x in selected ==> x == level)
    ensures r.Some? ==> forall x :: x in r.value <==> (x in selected <==> x != level)
    ensures r.Some? && level in selected ==> Subseq(r.value, selected)
  {
    if level in selected then
      var rest := Filter(selected, x => x != level);
      if |rest| == 0 then None else Some(rest)
    else
      Some(selected + [level])
  }

  /** Toggling keeps at least one level selected and none twice. */
  lemma ToggleKeepsValid(selected: seq<int>, level: int)
    requires ValidSeverity(selected)
    requires ToggleSeverity(selected, level).Some?
    ensures ValidSeverity(ToggleSeverity(selected, level).value)
  {
    var r := ToggleSeverity(selected, level).value;
    if level in selected {
      SubseqNoDuplicates(r, selected);
    }
  }

  /** With distinct levels, the toggle refuses exactly the removal of the
      only selected level. */
  lemma ToggleRefusesOnlyTheLastLevel(selected: seq<int>, level: int)
    requires ValidSeverity(selected)
    ensures ToggleSeverity(selected, level).None? <==> selected == [level]
  {
    if ToggleSeverity(selected, level).None? {
      assert selected[0] in selected;
      if |selected| > 1 {
        SecondDiffersFromFirst(selected);
        assert false;
      }
    }
  }

  lemma SecondDiffersFromFirst(s: seq<int>)
    requires NoDuplicates(s) && |s| > 1
    ensures s[1] in s && s[1] != s[0]
  {
  }

  /** Toggling an unselected level on and off again restores the
      selection. */
  lemma {:induction false} ToggleTwiceRestores(selected: seq<int>, level: int)
    requires ValidSeverity(selected) && level !in selected
    ensures ToggleSeverity(selected + [level], level) == Some(selected)
  {
    FilterDropsOnlyOther(selected, level);
  }

  lemma {:induction false} FilterDropsOnlyOther(s: seq<int>, level: int)
    requires level !in s
    ensures Filter(s + [level], x => x != level) == s
    decreases |s|
  {
    if s == [] {
      assert [] + [level] == [level];
      assert [level][1..] == [];
    } else {
      assert (s + [level])[1..] == s[1..] + [level];
      FilterDropsOnlyOther(s[1..], level);
      assert [s[0]] + s[1..] == s;
    }
  }

  /** The neighbourhood `handleNeighborhoodChange` stores for the selected
      option value: the "all neighbourhoods" option `''` means none. */
  function NeighborhoodChoice(value: string): (n: Option<string>)
    ensures n != Some("")
    ensures SelectValue(n) == value
  {
    if value == "" then None else Some(value)
  }

  /** The option value the select shows for a stored neighbourhood
      (`filters.neighborhood || ''`). */
  function SelectValue(n: Option<string>): string {
    n.GetOr("")
  }

  /** Showing a stored neighbourhood and choosing that option again stores
      the same neighbourhood. */
  lemma ChoiceOfShownValue(n: Option<string>)
    requires n != Some("")
    ensures NeighborhoodChoice(SelectValue(n)) == n
  {
  }

  class FilterBar {
    var filters: FilterOptions
    /** The argument of every `onFilterChange` call so far, oldest first. */
    var notified: seq<FilterOptions>

    /** The severity selection is never empty and has no repeats, the empty
        option value is never stored as a neighbourhood, and the page was
        last told the current filters. */
    ghost predicate Valid()
      reads this
    {
      && ValidSeverity(filters.severity)
      && filters.neighborhood != Some("")
      && (notified != [] ==> notified[|notified| - 1] == filters)
    }

    constructor ()
      ensures Valid() && filters == DefaultFilters && notified == []
    {
      filters := DefaultFilters;
      notified := [];
    }

    method HandleTimeRangeChange(hours: int)
      requires Valid()
      modifies this
      ensures Valid()
      ensures filters == old(filters).(timeRange := hours)
      ensures notified == old(notified) + [filters]
    {
      filters := filters.(timeRange := hours);
      notified := notified + [filters];
    }

    method HandleSeverityChange(level: int)
      requires Valid()
      modifies this
      ensures Valid()
      ensures ToggleSeverity(old(filters.severity), level).None? ==>
        filters == old(filters) && notified == old(notified)
      ensures ToggleSeverity(old(filters.severity), level).Some? ==>
        && filters == old(filters).(severity := ToggleSeverity(old(filters.severity), level).value)
        && notified == old(notified) + [filters]
    {
      var next := ToggleSeverity(filters.severity, level);
      if next.None? {
        return;
      }
      ToggleKeepsValid(filters.severity, level);
      filters := filters.(severity := next.value);
      notified := notified + [filters];
    }

    method HandleNeighborhoodChange(value: string)
      requires Valid()
      modifies this
      ensures Valid()
      ensures filters == old(filters).(neighborhood := NeighborhoodChoice(value))
      ensures notified == old(notified) + [filters]
    {
      filters := filters.(neighborhood := NeighborhoodChoice(value));
      notified := notified + [filters];
    }

    method ClearFilters()
      requires Valid()
      modifies this
      ensures Valid()
      ensures filters == DefaultFilters
      ensures notified == old(notified) + [DefaultFilters]
    {
      filters := DefaultFilters;
      notified := notified + [filters];
    }
  }
}
