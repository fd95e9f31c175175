/** The flood report record and the pure rules that create, vote on and
    resolve one (the record literals and ternaries of
    src/lib/supabase/client.ts). */
module FloodReports {
  import opened Wrappers

  /** Identifier the store assigns on insertion. */
  type ReportId = nat

  /** 1 light, 2 moderate, 3 severe. */
  type Severity = x: int | 1 <= x <= 3 witness 1

  datatype Status = Active | Resolved | Rejected

  datatype VoteType = Up | Down

  /** WGS84 coordinates; the model never computes with them. */
  datatype Location = Location(lat: real, lng: real)

  /** What a submitter supplies: a report without `id`, `upvotes`,
      `downvotes` and `status`. `reportedAt` is in milliseconds. */
  datatype Draft = Draft(
    location: Location,
    address: string,
    severity: Severity,
    reportedAt: int,
    reportedBy: string,
    comments: Option<string>,
    imageUrl: Option<string>)

  datatype FloodReport = FloodReport(
    id: Option<ReportId>,
    location: Location,
    address: string,
    severity: Severity,
    reportedAt: int,
    reportedBy: string,
    comments: Option<string>,
    imageUrl: Option<string>,
    upvotes: nat,
    downvotes: nat,
    status: Status)

  /** A report is rejected once its down votes exceed this many times its up
      votes. */
  const RejectionFactor: nat := 2

  /** The moderation threshold. */
  predicate Rejects(upvotes: nat, downvotes: nat) {
    downvotes > upvotes * RejectionFactor
  }

  /** The submitter-supplied part of a report. */
  function DraftOf(r: FloodReport): Draft {
    Draft(r.location, r.address, r.severity, r.reportedAt, r.reportedBy, r.comments, r.imageUrl)
  }

  /** A status may change, but never back to `Active`. */
  predicate MayFollow(before: Status, after: Status) {
    after == before || after != Active
  }

  /** The record `createFloodReport` inserts: the draft with the counters and
      status filled in, and no id yet. */
  function NewReport(d: Draft): (r: FloodReport)
    ensures r.id == None
    ensures r.upvotes == 1 && r.downvotes == 0 && r.status == Active
    ensures DraftOf(r) == d
  {
    FloodReport(None, d.location, d.address, d.severity, d.reportedAt, d.reportedBy,
                d.comments, d.imageUrl, 1, 0, Active)
  }

  /** The row after `voteOnFloodReport` merged its `updates` into it. Only the
      two counters and the status can change; the status only towards
      `Rejected`. */
  function ApplyVote(r: FloodReport, v: VoteType): (r': FloodReport)
    ensures r'.id == r.id && DraftOf(r') == DraftOf(r)
    ensures r'.upvotes >= r.upvotes && r'.downvotes >= r.downvotes
    ensures r'.upvotes + r'.downvotes == r.upvotes + r.downvotes + 1
    ensures r'.status == r.status || r'.status == Rejected
  {
    match v
    case Up => r.(upvotes := r.upvotes + 1)
    case Down =>
      var status := if Rejects(r.upvotes, r.downvotes + 1) then Rejected else r.status;
      r.(downvotes := r.downvotes + 1, status := status)
  }

  /** The row after `markFloodAsResolved`. */
  function Resolve(r: FloodReport): (r': FloodReport)
    ensures r'.status == Resolved
    ensures r'.(status := r.status) == r
  {
    r.(status := Resolved)
  }

  lemma UpVote(r: FloodReport)
    ensures ApplyVote(r, Up).upvotes == r.upvotes + 1
    ensures ApplyVote(r, Up).downvotes == r.downvotes
    ensures ApplyVote(r, Up).status == r.status
  {
  }

  lemma DownVote(r: FloodReport)
    ensures ApplyVote(r, Down).upvotes == r.upvotes
    ensures ApplyVote(r, Down).downvotes == r.downvotes + 1
    ensures Rejects(r.upvotes, r.downvotes + 1) ==> ApplyVote(r, Down).status == Rejected
    ensures !Rejects(r.upvotes, r.downvotes + 1) ==> ApplyVote(r, Down).status == r.status
  {
  }

  /** The three worked cases of the rule, starting from an active report with
      one up vote. */
  lemma DownVoteExamples(r: FloodReport)
    requires r.status == Active && r.upvotes == 1
    ensures r.downvotes == 0 ==> ApplyVote(r, Down).status == Active
    ensures r.downvotes == 1 ==> ApplyVote(r, Down).status == Active
    ensures r.downvotes == 2 ==> ApplyVote(r, Down).status == Rejected
  {
  }

  /** A vote never makes a report active again. */
  lemma VoteNeverReactivates(r: FloodReport, v: VoteType)
    ensures MayFollow(r.status, ApplyVote(r, v).status)
  {
  }

  lemma ResolveIdempotent(r: FloodReport)
    ensures Resolve(Resolve(r)) == Resolve(r)
  {
  }

  /** `markFloodAsResolved` checks no prior status: a rejected report can be
      resolved. */
  lemma ResolveOverridesRejection(r: FloodReport)
    requires r.status == Rejected
    ensures Resolve(r).status == Resolved
  {
  }

  /** The vote rule checks no prior status either: a resolved report whose
      down votes pass the threshold becomes rejected. */
  lemma DownVoteCanRejectResolved(r: FloodReport)
    requires r.status == Resolved && r.upvotes == 1 && r.downvotes == 2
    ensures ApplyVote(r, Down).status == Rejected
  {
  }

  // ---- Several votes in a row ----

  /** The report after the votes `vs`, cast one after the other. */
  function ApplyVotes(r: FloodReport, vs: seq<VoteType>): FloodReport
    decreases |vs|
  {
    if vs == [] then r else ApplyVotes(ApplyVote(r, vs[0]), vs[1..])
  }

  /** How many of `vs` are `v`. */
  function Count(vs: seq<VoteType>, v: VoteType): (n: nat)
    ensures n <= |vs|
  {
    if vs == [] then 0 else (if vs[0] == v then 1 else 0) + Count(vs[1..], v)
  }

  /** `n` votes of kind `v`. */
  function Repeat(v: VoteType, n: nat): (vs: seq<VoteType>)
    ensures |vs| == n && forall i :: 0 <= i < n ==> vs[i] == v
  {
    if n == 0 then [] else [v] + Repeat(v, n - 1)
  }

  /** Each vote adds exactly one to its own counter; nothing but the counters
      and the status changes, and the status is either kept or `Rejected`. */
  lemma {:induction false} ApplyVotesCounters(r: FloodReport, vs: seq<VoteType>)
    ensures ApplyVotes(r, vs).upvotes == r.upvotes + Count(vs, Up)
    ensures ApplyVotes(r, vs).downvotes == r.downvotes + Count(vs, Down)
    ensures ApplyVotes(r, vs).id == r.id && DraftOf(ApplyVotes(r, vs)) == DraftOf(r)
    ensures ApplyVotes(r, vs).status == r.status || ApplyVotes(r, vs).status == Rejected
    decreases |vs|
  {
    if vs != [] {
      ApplyVotesCounters(ApplyVote(r, vs[0]), vs[1..]);
    }
  }

  /** Up votes alone never change the status. */
  lemma {:induction false} UpVotesKeepStatus(r: FloodReport, n: nat)
    ensures ApplyVotes(r, Repeat(Up, n)).status == r.status
    ensures ApplyVotes(r, Repeat(Up, n)).upvotes == r.upvotes + n
    ensures ApplyVotes(r, Repeat(Up, n)).downvotes == r.downvotes
    decreases n
  {
    if n > 0 {
      assert Repeat(Up, n)[1..] == Repeat(Up, n - 1);
      UpVotesKeepStatus(ApplyVote(r, Up), n - 1);
    }
  }

  /** After `n` down votes the report is rejected exactly when the last of
      them passes the threshold; otherwise its status is what it was. */
  lemma {:induction false} DownVotesStatus(r: FloodReport, n: nat)
    ensures ApplyVotes(r, Repeat(Down, n)).status ==
            if n > 0 && Rejects(r.upvotes, r.downvotes + n) then Rejected else r.status
    ensures ApplyVotes(r, Repeat(Down, n)).downvotes == r.downvotes + n
    ensures ApplyVotes(r, Repeat(Down, n)).upvotes == r.upvotes
    decreases n
  {
    if n > 0 {
      assert Repeat(Down, n)[1..] == Repeat(Down, n - 1);
      DownVotesStatus(ApplyVote(r, Down), n - 1);
    }
  }

  /** A freshly created report survives two down votes and is rejected by
      the third. */
  lemma NewReportRejectedByThirdDownVote(d: Draft, n: nat)
    ensures ApplyVotes(NewReport(d), Repeat(Down, n)).status == Rejected <==> n >= 3
  {
    DownVotesStatus(NewReport(d), n);
  }
}
