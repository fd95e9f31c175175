/** The `flood_reports` table and the four operations of
    src/lib/supabase/client.ts that read and write it. The table is a map
    from id to row; whether the remote store answers with an error is a
    parameter of each operation. */
module ReportStore {
  import opened Wrappers
  import opened FloodReports

  /** `r` as the table holds it under id `k`. */
  function Stored(r: FloodReport, k: ReportId): (s: FloodReport)
    ensures s.id == Some(k) && s.(id := r.id) == r
  {
    r.(id := Some(k))
  }

  /** The order of `order('reportedAt', { ascending: false })`. */
  predicate NewestFirst(rs: seq<FloodReport>) {
    forall i, j :: 0 <= i < j < |rs| ==> rs[i].reportedAt >= rs[j].reportedAt
  }

  /** The active rows of a table. */
  function ActiveRows(rows: map<ReportId, FloodReport>): set<FloodReport> {
    set k | k in rows && rows[k].status == Active :: rows[k]
  }

  /** What any operation may do to the table: rows are never deleted, a row
      keeps its id and its submitted fields, its counters never go down and
      its status never returns to `Active`. */
  ghost predicate Evolves(before: map<ReportId, FloodReport>, after: map<ReportId, FloodReport>) {
    before.Keys <= after.Keys &&
    forall k :: k in before ==>
      && after[k].id == before[k].id
      && DraftOf(after[k]) == DraftOf(before[k])
      && after[k].upvotes >= before[k].upvotes
      && after[k].downvotes >= before[k].downvotes
      && MayFollow(before[k].status, after[k].status)
  }

  /** Places `x` into a newest-first list after every strictly more recent
      row, and so before the rows as recent as it. */
  function InsertNewestFirst(rs: seq<FloodReport>, x: FloodReport): (r: seq<FloodReport>)
    requires NewestFirst(rs)
    ensures NewestFirst(r)
    ensures multiset(r) == multiset(rs) + multiset{x}
    ensures forall y :: y in r ==> y == x || y in rs
    decreases |rs|
  {
    if rs == [] then [x]
    else if x.reportedAt >= rs[0].reportedAt then [x] + rs
    else
      var tail := InsertNewestFirst(rs[1..], x);
      assert rs == [rs[0]] + rs[1..];
      assert forall y :: y in tail ==> y.reportedAt <= rs[0].reportedAt;
      ConsNewestFirst(rs[0], tail);
      [rs[0]] + tail
  }

  /** A row at least as recent as every row of a newest-first list can go
      in front of it. */
  lemma ConsNewestFirst(x: FloodReport, rs: seq<FloodReport>)
    requires NewestFirst(rs)
    requires forall y :: y in rs ==> y.reportedAt <= x.reportedAt
    ensures NewestFirst([x] + rs)
  {
    forall i, j | 0 <= i < j < |[x] + rs|
      ensures ([x] + rs)[i].reportedAt >= ([x] + rs)[j].reportedAt
    {
      if i == 0 {
        assert ([x] + rs)[j] == rs[j - 1];
        assert rs[j - 1] in rs;
      }
    }
  }

  lemma EvolvesTransitive(a: map<ReportId, FloodReport>, b: map<ReportId, FloodReport>, c: map<ReportId, FloodReport>)
    requires Evolves(a, b) && Evolves(b, c)
    ensures Evolves(a, c)
  {
  }

  class Store {
    var rows: map<ReportId, FloodReport>
    /** The id the next insertion receives. */
    var nextId: ReportId

    /** Every row sits under its own id, below `nextId`. */
    ghost predicate Valid()
      reads this
    {
      forall k :: k in rows ==> k < nextId && rows[k].id == Some(k)
    }

    constructor ()
      ensures Valid() && rows == map[]
    {
      rows := map[];
      nextId := 0;
    }

    /** `createFloodReport`: inserts the draft with its defaults under a fresh
        id and returns the stored row; `None` when the insert fails. */
    method CreateFloodReport(draft: Draft, fails: bool) returns (created: Option<FloodReport>)
      requires Valid()
      modifies this
      ensures Valid() && Evolves(old(rows), rows)
      ensures fails ==> created == None && rows == old(rows)
      ensures !fails ==>
        && old(nextId) !in old(rows)
        && created == Some(Stored(NewReport(draft), old(nextId)))
        && rows == old(rows)[old(nextId) := created.value]
    {
      if fails {
        return None;
      }
      var r := Stored(NewReport(draft), nextId);
      rows := rows[nextId := r];
      nextId := nextId + 1;
      created := Some(r);
    }

    /** `voteOnFloodReport`: reads the row, merges the new counters and
        status into it and returns the updated row. `None`, and no change,
        when the read fails or finds no row, or when the update fails. */
    method VoteOnFloodReport(id: ReportId, vote: VoteType, fetchFails: bool, updateFails: bool)
      returns (updated: Option<FloodReport>)
      requires Valid()
      modifies this
      ensures Valid() && Evolves(old(rows), rows)
      ensures (fetchFails || id !in old(rows) || updateFails) ==> updated == None && rows == old(rows)
      ensures !(fetchFails || id !in old(rows) || updateFails) ==>
        && updated == Some(ApplyVote(old(rows)[id], vote))
        && rows == old(rows)[id := updated.value]
    {
      if fetchFails || id !in rows {
        return None;
      }
      var report := rows[id];
      var next := ApplyVote(report, vote);
      if updateFails {
        return None;
      }
      rows := rows[id := next];
      updated := Some(next);
    }

    /** `markFloodAsResolved`: sets the status to `Resolved` whatever it was.
        An update that matches no row returns no data, so a missing id, like
        a failed update, gives `None` and no change. */
    method MarkFloodAsResolved(id: ReportId, fails: bool) returns (updated: Option<FloodReport>)
      requires Valid()
      modifies this
      ensures Valid() && Evolves(old(rows), rows)
      ensures (fails || id !in old(rows)) ==> updated == None && rows == old(rows)
      ensures !(fails || id !in old(rows)) ==>
        && updated == Some(Resolve(old(rows)[id]))
        && rows == old(rows)[id := updated.value]
    {
      if fails || id !in rows {
        return None;
      }
      var next := Resolve(rows[id]);
      rows := rows[id := next];
      updated := Some(next);
    }

    /** `getActiveFloodReports`: every active row, once each, newest first;
        the empty list when the query fails. The loop is the store's scan of
        the table. */
    method GetActiveFloodReports(fails: bool) returns (rs: seq<FloodReport>)
      requires Valid()
      ensures fails ==> rs == []
      ensures !fails ==> NewestFirst(rs) && multiset(rs) == multiset(ActiveRows(rows))
    {
      if fails {
        return [];
      }
      rs := [];
      var todo := rows.Keys;
      while todo != {}
        invariant todo <= rows.Keys
        invariant NewestFirst(rs)
        invariant multiset(rs) == multiset(ActiveAmong(rows, rows.Keys - todo))
        decreases todo
      {
        var k :| k in todo;
        ActiveAmongAdd(rows, rows.Keys - todo, k);
        assert rows.Keys - (todo - {k}) == (rows.Keys - todo) + {k};
        todo := todo - {k};
        if rows[k].status == Active {
          rs := InsertNewestFirst(rs, rows[k]);
        }
      }
      assert rows.Keys - todo == rows.Keys;
      assert ActiveAmong(rows, rows.Keys) == ActiveRows(rows);
    }
  }

  /** The active rows stored under the keys `ks`. */
  function ActiveAmong(rows: map<ReportId, FloodReport>, ks: set<ReportId>): set<FloodReport> {
    set k | k in ks && k in rows && rows[k].status == Active :: rows[k]
  }

  /** Scanning one more key adds its row when it is active, and that row was
      not among the rows scanned before, since each row carries its own key. */
  lemma ActiveAmongAdd(rows: map<ReportId, FloodReport>, ks: set<ReportId>, k: ReportId)
    requires k in rows && k !in ks
    requires forall j :: j in rows ==> rows[j].id == Some(j)
    ensures rows[k] !in ActiveAmong(rows, ks)
    ensures rows[k].status == Active ==> ActiveAmong(rows, ks + {k}) == ActiveAmong(rows, ks) + {rows[k]}
    ensures rows[k].status != Active ==> ActiveAmong(rows, ks + {k}) == ActiveAmong(rows, ks)
  {
  }

  /** Every row of the listing is an active row of the table, and every
      active row is in the listing. */
  lemma ListingIsExactlyActive(rows: map<ReportId, FloodReport>, rs: seq<FloodReport>)
    requires multiset(rs) == multiset(ActiveRows(rows))
    ensures forall r :: r in rs <==> r in rows.Values && r.status == Active
  {
    forall r
      ensures r in rs <==> r in rows.Values && r.status == Active
    {
      assert r in rs <==> r in multiset(rs);
    }
  }
  /** No two rows share a timestamp, newest first. */
  predicate StrictlyNewestFirst(rs: seq<FloodReport>) {
    forall i, j :: 0 <= i < j < |rs| ==> rs[i].reportedAt > rs[j].reportedAt
  }

  /** When no two listed reports share a timestamp the listing is fully
      determined: a newest-first arrangement of the same rows is that very
      list (for times T1 < T2 < T3 the order is T3, T2, T1). */
  lemma {:induction false} NewestFirstUnique(a: seq<FloodReport>, b: seq<FloodReport>)
    requires StrictlyNewestFirst(a) && NewestFirst(b) && multiset(a) == multiset(b)
    ensures a == b
    decreases |a|
  {
    assert |a| == |multiset(a)| == |multiset(b)| == |b|;
    if a != [] {
      HeadsAgree(a, b);
      DropSameHead(a, b);
      NewestFirstUnique(a[1..], b[1..]);
    }
  }

  /** The newest rows of two such listings coincide. */
  lemma HeadsAgree(a: seq<FloodReport>, b: seq<FloodReport>)
    requires StrictlyNewestFirst(a) && NewestFirst(b) && multiset(a) == multiset(b)
    requires a != [] && b != []
    ensures a[0] == b[0]
  {
    assert a[0] in multiset(b);
    var j :| 0 <= j < |b| && b[j] == a[0];
    assert b[0] in multiset(a);
    var i :| 0 <= i < |a| && a[i] == b[0];
    assert b[0].reportedAt >= b[j].reportedAt;
    assert i == 0;
  }

  lemma DropSameHead(a: seq<FloodReport>, b: seq<FloodReport>)
    requires a != [] && b != [] && a[0] == b[0] && multiset(a) == multiset(b)
    ensures multiset(a[1..]) == multiset(b[1..])
  {
    assert a == [a[0]] + a[1..];
    assert b == [b[0]] + b[1..];
    assert multiset(a[1..]) == multiset(a) - multiset([a[0]]);
    assert multiset(b[1..]) == multiset(b) - multiset([b[0]]);
  }
}
