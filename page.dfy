/** The home page (src/app/page.tsx): the loaded report list, the filtered
    list the map shows, the selected report and the neighbourhood list, and
    the handlers that rewrite them after filtering, creating, voting and
    resolving. The clock is a parameter (`now`, in milliseconds). */
module Page {
  import opened Wrappers
  import opened Sequences
  import opened FloodReports
  import opened ReportStore
  import opened Addresses
  import opened Filters

  const MillisPerHour: int := 3600000

  /** `if (filters.neighborhood)`: only a non-empty neighbourhood filters. */
  predicate FiltersByNeighborhood(f: FilterOptions) {
    f.neighborhood.Some? && f.neighborhood.value != ""
  }

  /** The test `handleFilterChange` applies to one report: reported at most
      `timeRange` hours before `now`, of a selected severity, and in the
      selected neighbourhood if there is one. */
  predicate Keep(f: FilterOptions, now: int, r: FloodReport) {
    && now - r.reportedAt <= f.timeRange * MillisPerHour
    && r.severity in f.severity
    && (FiltersByNeighborhood(f) ==> FilterNeighborhood(r.address) == f.neighborhood.value)
  }

  function KeepTest(f: FilterOptions, now: int): FloodReport -> bool {
    (r: FloodReport) => Keep(f, now, r)
  }

  /** The list `handleFilterChange` shows. */
  function FilterReports(reports: seq<FloodReport>, f: FilterOptions, now: int): (kept: seq<FloodReport>)
    ensures Subseq(kept, reports)
    ensures forall r :: r in kept ==>
      r.severity in f.severity && now - r.reportedAt <= f.timeRange * MillisPerHour
    ensures FiltersByNeighborhood(f) ==> forall r :: r in kept ==> Neighborhood(r.address) == f.neighborhood
    ensures !FiltersByNeighborhood(f) ==> forall r :: r in reports ==>
      (r in kept <==> r.severity in f.severity && now - r.reportedAt <= f.timeRange * MillisPerHour)
    ensures forall r :: r in reports && Keep(f, now, r) ==> r in kept
    ensures forall r :: multiset(kept)[r] == if Keep(f, now, r) then multiset(reports)[r] else 0
  {
    Filter(reports, KeepTest(f, now))
  }

  /** For the filters the filter bar produces, which never hold `''`, the
      neighbourhood test applies exactly when a neighbourhood is chosen. */
  lemma BarNeighborhoodFilters(f: FilterOptions)
    requires f.neighborhood != Some("")
    ensures FiltersByNeighborhood(f) <==> f.neighborhood.Some?
  {
  }

  function Replacer(id: ReportId, u: FloodReport): FloodReport -> FloodReport {
    (r: FloodReport) => if r.id == Some(id) then u else r
  }

  /** `list.map(r => r.id === id ? u : r)`. */
  function ReplaceById(s: seq<FloodReport>, id: ReportId, u: FloodReport): (r: seq<FloodReport>)
    ensures |r| == |s|
    ensures forall i :: 0 <= i < |s| && s[i].id == Some(id) ==> r[i] == u
    ensures forall i :: 0 <= i < |s| && s[i].id != Some(id) ==> r[i] == s[i]
  {
    Map(s, Replacer(id, u))
  }

  function OtherThan(id: ReportId): FloodReport -> bool {
    (r: FloodReport) => r.id != Some(id)
  }

  /** `list.filter(r => r.id !== id)`. */
  function RemoveById(s: seq<FloodReport>, id: ReportId): (r: seq<FloodReport>)
    ensures Subseq(r, s)
    ensures forall x :: x in r <==> x in s && x.id != Some(id)
    ensures forall x :: multiset(r)[x] == if x.id == Some(id) then 0 else multiset(s)[x]
  {
    Filter(s, OtherThan(id))
  }

  class HomePage {
    var floodReports: seq<FloodReport>
    var filteredReports: seq<FloodReport>
    var selectedReport: Option<FloodReport>
    var showReportForm: bool
    var neighborhoods: seq<string>

    /** The map only ever shows reports of the loaded list, in its order. */
    ghost predicate Valid()
      reads this
    {
      Subseq(filteredReports, floodReports)
    }

    constructor ()
      ensures Valid()
      ensures floodReports == [] && filteredReports == [] && neighborhoods == []
      ensures selectedReport == None && !showReportForm
    {
      floodReports := [];
      filteredReports := [];
      selectedReport := None;
      showReportForm := false;
      neighborhoods := [];
    }

    /** The effect run on mount: load the active reports into both lists and
        collect their neighbourhoods. */
    method LoadFloodReports(store: Store, fails: bool)
      requires store.Valid()
      modifies this
      ensures Valid()
      ensures fails ==> floodReports == []
      ensures !fails ==> NewestFirst(floodReports) && multiset(floodReports) == multiset(ActiveRows(store.rows))
      ensures filteredReports == floodReports
      ensures neighborhoods == UniqueNeighborhoods(floodReports)
      ensures selectedReport == old(selectedReport) && showReportForm == old(showReportForm)
    {
      var reports := store.GetActiveFloodReports(fails);
      floodReports := reports;
      filteredReports := reports;
      neighborhoods := UniqueNeighborhoods(reports);
      SubseqRefl(reports);
    }

    method HandleFilterChange(filters: FilterOptions, now: int)
      requires Valid()
      modifies this
      ensures Valid()
      ensures filteredReports == FilterReports(floodReports, filters, now)
      ensures floodReports == old(floodReports) && selectedReport == old(selectedReport)
      ensures showReportForm == old(showReportForm) && neighborhoods == old(neighborhoods)
    {
      filteredReports := FilterReports(floodReports, filters, now);
    }

    method HandleMarkerClick(report: FloodReport)
      requires Valid()
      modifies this
      ensures Valid()
      ensures selectedReport == Some(report) && !showReportForm
      ensures floodReports == old(floodReports) && filteredReports == old(filteredReports)
      ensures neighborhoods == old(neighborhoods)
    {
      selectedReport := Some(report);
      showReportForm := false;
    }

    /** The header's "report a flood" button. */
    method OpenReportForm()
      requires Valid()
      modifies this
      ensures Valid()
      ensures showReportForm && selectedReport == None
      ensures floodReports == old(floodReports) && filteredReports == old(filteredReports)
      ensures neighborhoods == old(neighborhoods)
    {
      showReportForm := true;
      selectedReport := None;
    }

    /** The details card's close button. */
    method CloseDetails()
      requires Valid()
      modifies this
      ensures Valid()
      ensures selectedReport == None && showReportForm == old(showReportForm)
      ensures floodReports == old(floodReports) && filteredReports == old(filteredReports)
      ensures neighborhoods == old(neighborhoods)
    {
      selectedReport := None;
    }

    /** A created report goes to the front of both lists, whatever the
        current filters. */
    method HandleSubmitReport(store: Store, draft: Draft, fails: bool)
      requires Valid() && store.Valid()
      modifies this, store
      ensures Valid() && store.Valid() && Evolves(old(store.rows), store.rows)
      ensures fails ==>
        && store.rows == old(store.rows)
        && floodReports == old(floodReports) && filteredReports == old(filteredReports)
        && showReportForm == old(showReportForm)
      ensures !fails ==>
        var created := Stored(NewReport(draft), old(store.nextId));
        && store.rows == old(store.rows)[old(store.nextId) := created]
        && floodReports == [created] + old(floodReports)
        && filteredReports == [created] + old(filteredReports)
        && !showReportForm
      ensures selectedReport == old(selectedReport) && neighborhoods == old(neighborhoods)
    {
      var created := store.CreateFloodReport(draft, fails);
      if created.Some? {
        SubseqCons(created.value, filteredReports, floodReports);
        floodReports := [created.value] + floodReports;
        filteredReports := [created.value] + filteredReports;
        showReportForm := false;
      }
    }

    /** A counted vote replaces every entry with that id in both lists, even
        when the report is now rejected, and the selection if it is that
        report. */
    method HandleVote(store: Store, id: ReportId, vote: VoteType, fetchFails: bool, updateFails: bool)
      requires Valid() && store.Valid()
      modifies this, store
      ensures Valid() && store.Valid() && Evolves(old(store.rows), store.rows)
      ensures (fetchFails || id !in old(store.rows) || updateFails) ==>
        && store.rows == old(store.rows)
        && floodReports == old(floodReports) && filteredReports == old(filteredReports)
        && selectedReport == old(selectedReport)
      ensures !(fetchFails || id !in old(store.rows) || updateFails) ==>
        var u := ApplyVote(old(store.rows)[id], vote);
        && store.rows == old(store.rows)[id := u]
        && floodReports == ReplaceById(old(floodReports), id, u)
        && filteredReports == ReplaceById(old(filteredReports), id, u)
        && selectedReport ==
             if old(selectedReport).Some? && old(selectedReport).value.id == Some(id)
             then Some(u) else old(selectedReport)
      ensures showReportForm == old(showReportForm) && neighborhoods == old(neighborhoods)
    {
      var updated := store.VoteOnFloodReport(id, vote, fetchFails, updateFails);
      if updated.Some? {
        ShowUpdated(id, updated.value);
      }
    }

    /** The list update after a counted vote. */
    method ShowUpdated(id: ReportId, u: FloodReport)
      requires Valid()
      modifies this
      ensures Valid()
      ensures floodReports == ReplaceById(old(floodReports), id, u)
      ensures filteredReports == ReplaceById(old(filteredReports), id, u)
      ensures selectedReport ==
        if old(selectedReport).Some? && old(selectedReport).value.id == Some(id)
        then Some(u) else old(selectedReport)
      ensures showReportForm == old(showReportForm) && neighborhoods == old(neighborhoods)
    {
      MapKeepsSubseq(filteredReports, floodReports, Replacer(id, u));
      floodReports := ReplaceById(floodReports, id, u);
      filteredReports := ReplaceById(filteredReports, id, u);
      if selectedReport.Some? && selectedReport.value.id == Some(id) {
        selectedReport := Some(u);
      }
    }

    /** A resolved report leaves both lists and the selection is cleared. */
    method HandleMarkResolved(store: Store, id: ReportId, fails: bool)
      requires Valid() && store.Valid()
      modifies this, store
      ensures Valid() && store.Valid() && Evolves(old(store.rows), store.rows)
      ensures (fails || id !in old(store.rows)) ==>
        && store.rows == old(store.rows)
        && floodReports == old(floodReports) && filteredReports == old(filteredReports)
        && selectedReport == old(selectedReport)
      ensures !(fails || id !in old(store.rows)) ==>
        && store.rows == old(store.rows)[id := Resolve(old(store.rows)[id])]
        && floodReports == RemoveById(old(floodReports), id)
        && filteredReports == RemoveById(old(filteredReports), id)
        && selectedReport == None
      ensures showReportForm == old(showReportForm) && neighborhoods == old(neighborhoods)
    {
      var updated := store.MarkFloodAsResolved(id, fails);
      if updated.Some? {
        HideResolved(id);
      }
    }

    /** The list update after a resolve. */
    method HideResolved(id: ReportId)
      requires Valid()
      modifies this
      ensures Valid()
      ensures floodReports == RemoveById(old(floodReports), id)
      ensures filteredReports == RemoveById(old(filteredReports), id)
      ensures selectedReport == None
      ensures showReportForm == old(showReportForm) && neighborhoods == old(neighborhoods)
    {
      FilterKeepsSubseq(filteredReports, floodReports, OtherThan(id));
      floodReports := RemoveById(floodReports, id);
      filteredReports := RemoveById(filteredReports, id);
      selectedReport := None;
    }
  }
}
