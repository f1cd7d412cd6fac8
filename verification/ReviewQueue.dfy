// The review directory shared by the extraction worker, people, job splitting and builds.
module ReviewQueue {
  import opened Prelude
  import opened Segmentation
  import opened ReviewJobs
  import opened JobSplitting
  import opened ReviewMerge

  datatype Verdict = PendingReview | NeedsHumanReview | Approved | Rejected

  /** Candidate identifiers are a digest of the job and of what is claimed. */
  datatype CandidateId = CandidateId(job: JobId, claim: string)

  datatype Candidate = Candidate(id: CandidateId, content: string, verdict: Verdict, note: string)

  /** What one provider call produced. */
  datatype Outcome = Failure(details: string) | Success(details: string, claims: seq<string>)

  /** A saved result whose job changed during the call. */
  datatype Conflict = Conflict(original: Job, updated: Job, found: seq<Candidate>)

  datatype State = State(jobs: seq<Job>, candidates: seq<Candidate>, conflicts: seq<Conflict>,
                         rejected: seq<Candidate>, holding: Option<Job>)

  /** `Read` and `Finish` are the worker's two locked sections; `Torn` is a finish that
      stops between its two writes; the rest are single locked steps of other programs. */
  datatype Op =
    | Read(id: JobId)
    | Finish(outcome: Outcome)
    | Torn(outcome: Outcome)
    | Resolve(id: JobId, note: string)
    | SplitOversized(library: Library, max: int)
    | Build(generated: seq<Job>)
    | Decide(candidate: CandidateId, approve: bool, note: string)
    | Revalidate(policy: map<CandidateId, string>)

  predicate Terminal(status: Status) {
    status == Completed || status == CompletedNoRelation || status == Superseded
  }

  predicate Pending(status: Status) {
    status == Queued || status == Failed
  }

  // ----------------------------------------------------------------- checkpoint_extraction

  function Updated(original: Job, outcome: Outcome): Job {
    match outcome
    case Failure(details) => original.(status := Failed, details := details)
    case Success(details, _) => original.(status := Completed, details := details)
  }

  function Claimed(job: JobId, claims: seq<string>): seq<Candidate> {
    if claims == [] then []
    else [Candidate(CandidateId(job, claims[0]), claims[0], PendingReview, "")] + Claimed(job, claims[1..])
  }

  function Found(original: Job, outcome: Outcome): seq<Candidate> {
    if outcome.Success? then Claimed(original.id, outcome.claims) else []
  }

  /** Replaces the first row with the given id. */
  function ReplaceFirst(jobs: seq<Job>, id: JobId, row: Job): seq<Job> {
    if jobs == [] then []
    else if jobs[0].id == id then [row] + jobs[1..]
    else [jobs[0]] + ReplaceFirst(jobs[1..], id, row)
  }

  predicate HasCandidate(rows: seq<Candidate>, id: CandidateId) {
    exists row :: row in rows && row.id == id
  }

  function Overwrite(rows: seq<Candidate>, row: Candidate): seq<Candidate> {
    if rows == [] then []
    else [if rows[0].id == row.id then row else rows[0]] + Overwrite(rows[1..], row)
  }

  /** The ordered dictionary of the rows by id: a later row takes an earlier one's place. */
  function Collapse(rows: seq<Candidate>): seq<Candidate> {
    if rows == [] then []
    else
      var shorter, last := Collapse(rows[..|rows| - 1]), rows[|rows| - 1];
      if HasCandidate(shorter, last.id) then Overwrite(shorter, last) else shorter + [last]
  }

  function AddNew(rows: seq<Candidate>, found: seq<Candidate>): seq<Candidate>
    decreases |found|
  {
    if found == [] then rows
    else AddNew(if HasCandidate(rows, found[0].id) then rows else rows + [found[0]], found[1..])
  }

  function Checkpoint(s: State, original: Job, updated: Job, found: seq<Candidate>): State {
    if Find(s.jobs, original.id) != Some(original) then
      s.(conflicts := s.conflicts + [Conflict(original, updated, found)])
    else
      s.(candidates := AddNew(Collapse(s.candidates), found), jobs := ReplaceFirst(s.jobs, original.id, updated))
  }

  // -------------------------------------------------------------------------- other steps

  function Revalidated(rows: seq<Candidate>, policy: map<CandidateId, string>): seq<Candidate> {
    if rows == [] then []
    else
      var row := rows[0];
      (if row.verdict != PendingReview then [row]
       else if row.id in policy then [row.(content := policy[row.id])]
       else []) + Revalidated(rows[1..], policy)
  }

  function Refused(rows: seq<Candidate>, policy: map<CandidateId, string>, known: seq<Candidate>): seq<Candidate> {
    if rows == [] then known
    else
      var row := rows[0];
      var refuse := row.verdict == PendingReview && row.id !in policy && !HasCandidate(known, row.id);
      Refused(rows[1..], policy, if refuse then known + [row] else known)
  }

  /** A decision on the first candidate with the id, if it may still receive one. */
  function Decided(rows: seq<Candidate>, id: CandidateId, approve: bool, note: string): seq<Candidate> {
    if rows == [] then []
    else if rows[0].id != id then [rows[0]] + Decided(rows[1..], id, approve, note)
    else if rows[0].verdict == PendingReview || rows[0].verdict == NeedsHumanReview then
      [rows[0].(verdict := if approve then Approved else Rejected, note := note)] + rows[1..]
    else rows
  }

  /** An operation that the program refuses leaves the state as it is. */
  function Step(s: State, op: Op): State {
    match op
    case Read(id) =>
      var job := Find(s.jobs, id);
      if job.Some? && !Terminal(job.value.status) then s.(holding := job) else s
    case Finish(outcome) =>
      if s.holding.None? then s
      else
        var original := s.holding.value;
        Checkpoint(s, original, Updated(original, outcome), Found(original, outcome)).(holding := None)
    case Torn(outcome) =>
      if s.holding.None? || Find(s.jobs, s.holding.value.id) != s.holding then s.(holding := None)
      else s.(candidates := AddNew(Collapse(s.candidates), Found(s.holding.value, outcome)), holding := None)
    case Resolve(id, note) =>
      var job := Find(s.jobs, id);
      if job.Some? && Pending(job.value.status) then
        s.(jobs := ReplaceFirst(s.jobs, id, job.value.(status := CompletedNoRelation, details := note)))
      else s
    case SplitOversized(library, max) =>
      var rows := SplitQueue(s.jobs, library, max, {Queued, Failed});
      if rows.Some? then s.(jobs := rows.value) else s
    case Build(generated) =>
      var rows := Preserve(s.jobs, generated);
      if rows.Some? then s.(jobs := rows.value) else s
    case Decide(id, approve, note) => s.(candidates := Decided(s.candidates, id, approve, note))
    case Revalidate(policy) =>
      s.(candidates := Revalidated(s.candidates, policy), rejected := Refused(s.candidates, policy, s.rejected))
  }

  function Run(s: State, ops: seq<Op>): State
    decreases |ops|
  {
    if ops == [] then s else Run(Step(s, ops[0]), ops[1..])
  }

  // ------------------------------------------------------------- jobs are never reopened

  /** What may never be lost about the queue: every row's evidence and every outcome. */
  datatype Mark =
    | Entry(id: JobId, evidence: seq<string>)
    | Closed(id: JobId, evidence: seq<string>, status: Status)

  function Marks(job: Job): multiset<Mark> {
    multiset{Entry(job.id, job.evidence)} +
    if Terminal(job.status) then multiset{Closed(job.id, job.evidence, job.status)} else multiset{}
  }

  function AllMarks(jobs: seq<Job>): multiset<Mark> {
    if jobs == [] then multiset{} else Marks(jobs[0]) + AllMarks(jobs[1..])
  }

  lemma {:induction false} MarksAppend(a: seq<Job>, b: seq<Job>)
    ensures AllMarks(a + b) == AllMarks(a) + AllMarks(b)
  {
    if a == [] {
      assert a + b == b;
    } else {
      assert (a + b)[1..] == a[1..] + b;
      MarksAppend(a[1..], b);
    }
  }

  lemma {:induction false} ReplaceKeepsMarks(jobs: seq<Job>, id: JobId, row: Job)
    requires var job := Find(jobs, id); job.Some? ==> Marks(job.value) <= Marks(row)
    ensures AllMarks(jobs) <= AllMarks(ReplaceFirst(jobs, id, row))
  {
    if jobs != [] {
      if jobs[0].id == id {
        assert ([row] + jobs[1..])[1..] == jobs[1..];
      } else {
        ReplaceKeepsMarks(jobs[1..], id, row);
        assert ReplaceFirst(jobs, id, row)[1..] == ReplaceFirst(jobs[1..], id, row);
      }
    }
  }

  lemma SplitJobKeepsMarks(job: Job, all: seq<Job>, library: Library, max: nat)
    ensures Marks(job) <= AllMarks(SplitJob(Link(job, all), library, max, {Queued, Failed}))
  {
    hide ParentOf;
    var linked := Link(job, all);
    var rows := SplitJob(linked, library, max, {Queued, Failed});
    SplitConserves(linked, library, max, {Queued, Failed});
    assert Marks(job) <= Marks(rows[0]);
    assert AllMarks(rows) == Marks(rows[0]) + AllMarks(rows[1..]);
  }

  lemma {:induction false} SplitKeepsMarks(todo: seq<Job>, all: seq<Job>, library: Library, max: nat)
    ensures AllMarks(todo) <= AllMarks(SplitRows(todo, all, library, max, {Queued, Failed}))
  {
    hide SplitJob, Link;
    if todo != [] {
      SplitJobKeepsMarks(todo[0], all, library, max);
      SplitKeepsMarks(todo[1..], all, library, max);
      MarksAppend(SplitJob(Link(todo[0], all), library, max, {Queued, Failed}),
                  SplitRows(todo[1..], all, library, max, {Queued, Failed}));
    }
  }

  lemma BuildKeepsMarks(jobs: seq<Job>, generated: seq<Job>)
    ensures var rows := Preserve(jobs, generated);
      rows.Some? ==> AllMarks(jobs) <= AllMarks(rows.value)
  {
    hide AllMarks, IncorporateAll;
    IncorporateAllKeeps(jobs, generated);
    var merged := IncorporateAll(jobs, generated);
    assert merged == jobs + merged[|jobs|..];
    MarksAppend(jobs, merged[|jobs|..]);
  }

  /** The worker only ever holds a job it found open. */
  predicate HoldsOpenJob(s: State) {
    s.holding.Some? ==> !Terminal(s.holding.value.status)
  }

  lemma SwapKeepsMarks(jobs: seq<Job>, original: Job, outcome: Outcome)
    requires !Terminal(original.status) && Find(jobs, original.id) == Some(original)
    ensures AllMarks(jobs) <= AllMarks(ReplaceFirst(jobs, original.id, Updated(original, outcome)))
  {
    ReplaceKeepsMarks(jobs, original.id, Updated(original, outcome));
  }

  lemma ResolveKeepsMarks(jobs: seq<Job>, id: JobId, note: string)
    requires var job := Find(jobs, id); job.Some? && Pending(job.value.status)
    ensures var job := Find(jobs, id).value;
      AllMarks(jobs) <= AllMarks(ReplaceFirst(jobs, id, job.(status := CompletedNoRelation, details := note)))
  {
    ReplaceKeepsMarks(jobs, id, Find(jobs, id).value.(status := CompletedNoRelation, details := note));
  }

  lemma SplitQueueKeepsMarks(jobs: seq<Job>, library: Library, max: int)
    ensures var rows := SplitQueue(jobs, library, max, {Queued, Failed});
      rows.Some? ==> AllMarks(jobs) <= AllMarks(rows.value)
  {
    hide AllMarks;
    SplitKeepsMarks(jobs, jobs, library, if max >= 1 then max else 0);
  }

  lemma StepKeepsMarks(s: State, op: Op)
    requires HoldsOpenJob(s)
    ensures HoldsOpenJob(Step(s, op))
    ensures AllMarks(s.jobs) <= AllMarks(Step(s, op).jobs)
  {
    hide AllMarks, SplitQueue, Preserve, ReplaceFirst, Find, AddNew, Collapse, Revalidated, Refused, Decided, Found, Updated;
    match op
    case Finish(outcome) =>
      if s.holding.Some? && Find(s.jobs, s.holding.value.id) == s.holding {
        SwapKeepsMarks(s.jobs, s.holding.value, outcome);
      }
    case Resolve(id, note) =>
      var job := Find(s.jobs, id);
      if job.Some? && Pending(job.value.status) {
        ResolveKeepsMarks(s.jobs, id, note);
      }
    case SplitOversized(library, max) => SplitQueueKeepsMarks(s.jobs, library, max);
    case Build(generated) => BuildKeepsMarks(s.jobs, generated);
    case _ =>
  }

  /** Under every interleaving of worker, people, splitting and builds, no row's evidence
      and no outcome is ever lost. */
  lemma {:induction false} RunKeepsMarks(s: State, ops: seq<Op>)
    requires HoldsOpenJob(s)
    ensures HoldsOpenJob(Run(s, ops))
    ensures AllMarks(s.jobs) <= AllMarks(Run(s, ops).jobs)
    decreases |ops|
  {
    hide Step, AllMarks;
    if ops != [] {
      StepKeepsMarks(s, ops[0]);
      RunKeepsMarks(Step(s, ops[0]), ops[1..]);
    }
  }

  lemma {:induction false} MarkIsThere(jobs: seq<Job>, mark: Mark)
    ensures mark in AllMarks(jobs) <==> exists job :: job in jobs && mark in Marks(job)
  {
    if jobs != [] {
      MarkIsThere(jobs[1..], mark);
      assert jobs == [jobs[0]] + jobs[1..];
    }
  }

  /** `completed`, `completed_no_relation` and `superseded` are final: a row that reaches
      one of them is found with the same outcome after any further steps. */
  lemma ClosedForever(s: State, ops: seq<Op>, job: Job)
    requires HoldsOpenJob(s) && job in s.jobs && Terminal(job.status)
    ensures exists later :: later in Run(s, ops).jobs && later.id == job.id
              && later.evidence == job.evidence && later.status == job.status
  {
    var mark := Closed(job.id, job.evidence, job.status);
    MarkIsThere(s.jobs, mark);
    assert mark in Marks(job);
    RunKeepsMarks(s, ops);
    MarkIsThere(Run(s, ops).jobs, mark);
    var later :| later in Run(s, ops).jobs && mark in Marks(later);
    assert later.id == job.id;
  }

  // ------------------------------------------------------------- compare and swap

  /** A worker's result replaces exactly the row it read, and only if that row is still
      the same in every field; otherwise the job queue and the candidates stay untouched
      and the result is saved. */
  ghost predicate Swapped(s: State, t: State, original: Job, updated: Job, found: seq<Candidate>) {
    exists i: nat ::
      && i < |s.jobs| && s.jobs[i] == original
      && (forall k | 0 <= k < i :: s.jobs[k].id != original.id)
      && t.jobs == s.jobs[i := updated]
      && t.candidates == AddNew(Collapse(s.candidates), found)
      && t.conflicts == s.conflicts
  }

  ghost predicate SavedAside(s: State, t: State, original: Job, updated: Job, found: seq<Candidate>) {
    && t.jobs == s.jobs
    && t.candidates == s.candidates
    && t.conflicts == s.conflicts + [Conflict(original, updated, found)]
  }

  lemma {:induction false} FirstIndex(jobs: seq<Job>, id: JobId, row: Job)
    requires Find(jobs, id).Some?
    ensures exists i: nat :: i < |jobs| && jobs[i] == Find(jobs, id).value
              && (forall k | 0 <= k < i :: jobs[k].id != id) && ReplaceFirst(jobs, id, row) == jobs[i := row]
  {
    if jobs[0].id == id {
      assert [row] + jobs[1..] == jobs[0 := row];
    } else {
      FirstIndex(jobs[1..], id, row);
      var i: nat :| i < |jobs[1..]| && jobs[1..][i] == Find(jobs[1..], id).value
        && (forall k | 0 <= k < i :: jobs[1..][k].id != id) && ReplaceFirst(jobs[1..], id, row) == jobs[1..][i := row];
      assert jobs[i + 1] == Find(jobs, id).value;
      forall k | 0 <= k < i + 1 ensures jobs[k].id != id {
        assert k > 0 ==> jobs[1..][k - 1] == jobs[k];
      }
      assert [jobs[0]] + jobs[1..][i := row] == jobs[i + 1 := row];
    }
  }

  /** The row as read is still the first one with its id. */
  predicate Unchanged(jobs: seq<Job>, original: Job) {
    exists i :: 0 <= i < |jobs| && jobs[i] == original && forall k | 0 <= k < i :: jobs[k].id != original.id
  }

  lemma {:induction false} UnchangedIffFound(jobs: seq<Job>, original: Job)
    ensures Unchanged(jobs, original) <==> Find(jobs, original.id) == Some(original)
  {
    if Find(jobs, original.id).Some? {
      FirstIndex(jobs, original.id, original);
    }
    FindIsFirst(jobs, original.id);
  }

  lemma FinishSwapsOrSaves(s: State, outcome: Outcome)
    requires s.holding.Some?
    ensures var original := s.holding.value;
      var t := Step(s, Finish(outcome));
      if Unchanged(s.jobs, original)
      then Swapped(s, t, original, Updated(original, outcome), Found(original, outcome))
      else SavedAside(s, t, original, Updated(original, outcome), Found(original, outcome))
  {
    var original := s.holding.value;
    UnchangedIffFound(s.jobs, original);
    if Find(s.jobs, original.id) == Some(original) {
      FirstIndex(s.jobs, original.id, Updated(original, outcome));
    }
  }

  /** No saved result is ever dropped. */
  lemma {:induction false} ConflictsAreKept(s: State, ops: seq<Op>)
    ensures s.conflicts <= Run(s, ops).conflicts
    decreases |ops|
  {
    if ops != [] {
      hide Find, ReplaceFirst, AddNew, Collapse, Revalidated, Refused, Decided, SplitRows, IncorporateAll;
      assert s.conflicts <= Step(s, ops[0]).conflicts;
      ConflictsAreKept(Step(s, ops[0]), ops[1..]);
    }
  }

  // ------------------------------------------------------------- generated evidence

  lemma {:induction false} ReplaceIsHonest(jobs: seq<Job>, id: JobId, row: Job)
    requires Honest(jobs)
    requires var job := Find(jobs, id); job.Some? ==> row.id == id && row.evidence == job.value.evidence
    ensures Honest(ReplaceFirst(jobs, id, row))
  {
    if jobs != [] {
      if jobs[0].id != id {
        assert Honest(jobs[1..]);
        ReplaceIsHonest(jobs[1..], id, row);
      }
    }
  }

  lemma {:induction false} SplitIsHonest(todo: seq<Job>, all: seq<Job>, library: Library, max: nat)
    requires Honest(todo)
    ensures Honest(SplitRows(todo, all, library, max, {Queued, Failed}))
  {
    hide ParentOf;
    if todo != [] {
      var linked := Link(todo[0], all);
      var rows := SplitJob(linked, library, max, {Queued, Failed});
      SplitIsHonest(todo[1..], all, library, max);
      assert todo[0] in todo;
      SplitConserves(linked, library, max, {Queued, Failed});
      forall row | row in rows && row.id.Revision? ensures multiset(row.evidence) == row.id.evidenceSet {
        var segments := Segments(Available(linked.evidence, library), max);
        if row in Children(linked, segments) {
          ChildrenMembers(linked, segments, row);
        }
      }
    }
  }

  ghost predicate HonestOp(op: Op) {
    op.Build? ==> Honest(op.generated)
  }

  lemma StepIsHonest(s: State, op: Op)
    requires Honest(s.jobs) && HonestOp(op)
    ensures Honest(Step(s, op).jobs)
  {
    hide Honest, SplitRows, IncorporateAll, ReplaceFirst, AddNew, Collapse, Revalidated, Refused, Decided;
    match op
    case Finish(outcome) =>
      if s.holding.Some? && Find(s.jobs, s.holding.value.id) == s.holding {
        ReplaceIsHonest(s.jobs, s.holding.value.id, Updated(s.holding.value, outcome));
      }
    case Resolve(id, note) =>
      var job := Find(s.jobs, id);
      FindIsFirst(s.jobs, id);
      if job.Some? && Pending(job.value.status) {
        ReplaceIsHonest(s.jobs, id, job.value.(status := CompletedNoRelation, details := note));
      }
    case SplitOversized(library, max) =>
      SplitIsHonest(s.jobs, s.jobs, library, if max >= 1 then max else 0);
    case Build(generated) => MergeIsHonest(s.jobs, generated);
    case _ =>
  }

  lemma {:induction false} RunIsHonest(s: State, ops: seq<Op>)
    requires Honest(s.jobs) && forall op | op in ops :: HonestOp(op)
    ensures Honest(Run(s, ops).jobs)
    decreases |ops|
  {
    hide Step, Honest, HonestOp;
    if ops != [] {
      assert ops[0] in ops;
      StepIsHonest(s, ops[0]);
      RunIsHonest(Step(s, ops[0]), ops[1..]);
    }
  }

  /** The evidence of `item` has a row of its own job or of a revision of it. */
  ghost predicate Represented(jobs: seq<Job>, item: Job) {
    exists row :: row in jobs && row.id in {item.id, RevisionId(item)} && SameEvidence(row, item)
  }

  lemma RepresentedLater(s: State, ops: seq<Op>, item: Job)
    requires HoldsOpenJob(s) && Represented(s.jobs, item)
    ensures Represented(Run(s, ops).jobs, item)
  {
    hide Run, Step, RevisionId;
    var row :| row in s.jobs && row.id in {item.id, RevisionId(item)} && SameEvidence(row, item);
    var mark := Entry(row.id, row.evidence);
    assert mark in Marks(row);
    MarkIsThere(s.jobs, mark);
    RunKeepsMarks(s, ops);
    MarkIsThere(Run(s, ops).jobs, mark);
    var later :| later in Run(s, ops).jobs && mark in Marks(later);
    assert later.id == row.id && later.evidence == row.evidence;
  }

  /** Every evidence set that an accepted build generated stays represented, whatever
      happened before and whatever happens after. */
  lemma EvidenceStaysRepresented(s: State, before: seq<Op>, generated: seq<Job>, after: seq<Op>, item: Job)
    requires HoldsOpenJob(s) && Honest(s.jobs) && Honest(generated) && forall op | op in before :: HonestOp(op)
    requires DistinctIds(Run(s, before).jobs) && item in generated
    ensures Represented(Run(Step(Run(s, before), Build(generated)), after).jobs, item)
  {
    hide Run, IncorporateAll, DistinctIds, Honest, HonestOp;
    var mid := Run(s, before);
    RunKeepsMarks(s, before);
    RunIsHonest(s, before);
    PreserveRepresents(mid.jobs, generated, item);
    RepresentedLater(Step(mid, Build(generated)), after, item);
  }

  // ------------------------------------------------------------- reviewed candidates

  predicate DistinctCandidates(rows: seq<Candidate>) {
    forall i, j | 0 <= i < j < |rows| :: rows[i].id != rows[j].id
  }

  /** The candidates that a person has seen, in order. */
  function Reviewed(rows: seq<Candidate>): seq<Candidate> {
    if rows == [] then []
    else (if rows[0].verdict == PendingReview then [] else [rows[0]]) + Reviewed(rows[1..])
  }

  function Final(rows: seq<Candidate>): seq<Candidate> {
    if rows == [] then []
    else (if rows[0].verdict == Approved || rows[0].verdict == Rejected then [rows[0]] else []) + Final(rows[1..])
  }

  lemma {:induction false} ReviewedAppend(a: seq<Candidate>, b: seq<Candidate>)
    ensures Reviewed(a + b) == Reviewed(a) + Reviewed(b)
  {
    if a == [] {
      assert a + b == b;
    } else {
      assert (a + b)[1..] == a[1..] + b;
      ReviewedAppend(a[1..], b);
    }
  }

  lemma DistinctMore(rows: seq<Candidate>, row: Candidate)
    ensures DistinctCandidates(rows + [row]) <==> DistinctCandidates(rows) && !HasCandidate(rows, row.id)
  {
    var all := rows + [row];
    assert all[|rows|] == row && forall k | 0 <= k < |rows| :: all[k] == rows[k];
    if DistinctCandidates(all) {
      forall i, j | 0 <= i < j < |rows| ensures rows[i].id != rows[j].id {
        assert all[i].id != all[j].id;
      }
      forall r | r in rows ensures r.id != row.id {
        var k :| 0 <= k < |rows| && rows[k] == r;
        assert all[k].id != all[|rows|].id;
      }
    } else if DistinctCandidates(rows) {
      var i, j :| 0 <= i < j < |all| && all[i].id == all[j].id;
      assert j == |rows|;
      assert rows[i] in rows;
    }
  }

  lemma {:induction false} CollapseDistinct(rows: seq<Candidate>)
    requires DistinctCandidates(rows)
    ensures Collapse(rows) == rows
    decreases |rows|
  {
    if rows != [] {
      var shorter, last := rows[..|rows| - 1], rows[|rows| - 1];
      assert rows == shorter + [last];
      DistinctMore(shorter, last);
      CollapseDistinct(shorter);
    }
  }

  lemma {:induction false} AddNewKeeps(rows: seq<Candidate>, found: seq<Candidate>)
    requires forall c | c in found :: c.verdict == PendingReview
    ensures Reviewed(AddNew(rows, found)) == Reviewed(rows)
    ensures DistinctCandidates(rows) ==> DistinctCandidates(AddNew(rows, found))
    decreases |found|
  {
    if found != [] {
      var next := if HasCandidate(rows, found[0].id) then rows else rows + [found[0]];
      ReviewedAppend(rows, [found[0]]);
      assert Reviewed([found[0]]) == [] by { assert found[0] in found; }
      DistinctMore(rows, found[0]);
      AddNewKeeps(next, found[1..]);
    }
  }

  lemma {:induction false} ClaimsArePending(job: JobId, claims: seq<string>)
    ensures forall c | c in Claimed(job, claims) :: c.verdict == PendingReview
  {
    if claims != [] {
      ClaimsArePending(job, claims[1..]);
    }
  }

  lemma {:induction false} RevalidationMembers(rows: seq<Candidate>, policy: map<CandidateId, string>, id: CandidateId)
    requires HasCandidate(Revalidated(rows, policy), id)
    ensures HasCandidate(rows, id)
  {
    var tail := Revalidated(rows[1..], policy);
    var row :| row in Revalidated(rows, policy) && row.id == id;
    if row in tail {
      RevalidationMembers(rows[1..], policy, id);
      var r :| r in rows[1..] && r.id == id;
      assert r in rows;
    } else {
      assert rows[0] in rows;
    }
  }

  lemma DistinctFirst(row: Candidate, rest: seq<Candidate>)
    ensures DistinctCandidates([row] + rest) <==> !HasCandidate(rest, row.id) && DistinctCandidates(rest)
  {
    var all := [row] + rest;
    assert forall k | 0 <= k < |rest| :: all[k + 1] == rest[k];
    if DistinctCandidates(all) {
      forall i, j | 0 <= i < j < |rest| ensures rest[i].id != rest[j].id {
        assert all[i + 1].id != all[j + 1].id;
      }
      forall r | r in rest ensures r.id != row.id {
        var k :| 0 <= k < |rest| && rest[k] == r;
        assert all[0].id != all[k + 1].id;
      }
    }
  }

  lemma {:induction false} RevalidationKeepsIds(rows: seq<Candidate>, policy: map<CandidateId, string>)
    requires DistinctCandidates(rows)
    ensures DistinctCandidates(Revalidated(rows, policy))
  {
    hide DistinctCandidates;
    if rows == [] {
      assert Revalidated(rows, policy) == rows;
    } else {
      var row, tail := rows[0], Revalidated(rows[1..], policy);
      assert rows == [row] + rows[1..];
      DistinctFirst(row, rows[1..]);
      RevalidationKeepsIds(rows[1..], policy);
      assert !HasCandidate(tail, row.id) by {
        if HasCandidate(tail, row.id) {
          RevalidationMembers(rows[1..], policy, row.id);
        }
      }
      var changed := if row.id in policy then row.(content := policy[row.id]) else row;
      DistinctFirst(row, tail);
      DistinctFirst(changed, tail);
      assert [] + tail == tail;
    }
  }

  lemma {:induction false} RevalidationKeeps(rows: seq<Candidate>, policy: map<CandidateId, string>)
    ensures Reviewed(Revalidated(rows, policy)) == Reviewed(rows)
  {
    if rows != [] {
      var row, tail := rows[0], Revalidated(rows[1..], policy);
      RevalidationKeeps(rows[1..], policy);
      var changed := if row.id in policy then row.(content := policy[row.id]) else row;
      assert [] + tail == tail;
      assert ([row] + tail)[1..] == tail && ([changed] + tail)[1..] == tail;
    }
  }

  lemma {:induction false} DecisionKeepsIds(rows: seq<Candidate>, id: CandidateId, approve: bool, note: string)
    ensures |Decided(rows, id, approve, note)| == |rows|
    ensures forall k | 0 <= k < |rows| :: Decided(rows, id, approve, note)[k].id == rows[k].id
  {
    if rows != [] && rows[0].id != id {
      DecisionKeepsIds(rows[1..], id, approve, note);
      var rest := Decided(rows[1..], id, approve, note);
      forall k | 1 <= k < |rows| ensures Decided(rows, id, approve, note)[k].id == rows[k].id {
        assert Decided(rows, id, approve, note)[k] == rest[k - 1];
      }
    }
  }

  lemma FinalCons(row: Candidate, rest: seq<Candidate>)
    ensures multiset(Final([row] + rest)) ==
      (if row.verdict == Approved || row.verdict == Rejected then multiset{row} else multiset{}) + multiset(Final(rest))
  {
    assert ([row] + rest)[1..] == rest;
  }

  lemma {:induction false} DecisionKeepsFinal(rows: seq<Candidate>, id: CandidateId, approve: bool, note: string)
    ensures multiset(Final(rows)) <= multiset(Final(Decided(rows, id, approve, note)))
  {
    hide Final;
    if rows != [] {
      assert rows == [rows[0]] + rows[1..];
      FinalCons(rows[0], rows[1..]);
      if rows[0].id != id {
        DecisionKeepsFinal(rows[1..], id, approve, note);
        FinalCons(rows[0], Decided(rows[1..], id, approve, note));
      } else {
        FinalCons(rows[0].(verdict := if approve then Approved else Rejected, note := note), rows[1..]);
      }
    }
  }

  lemma {:induction false} FinalIsReviewed(rows: seq<Candidate>)
    ensures Final(rows) == Final(Reviewed(rows))
  {
    if rows != [] {
      FinalIsReviewed(rows[1..]);
      var first := rows[0];
      if first.verdict != PendingReview {
        assert ([first] + Reviewed(rows[1..]))[1..] == Reviewed(rows[1..]);
      } else {
        assert [] + Reviewed(rows[1..]) == Reviewed(rows[1..]);
      }
    }
  }

  /** Apart from a person's decision, no step alters, drops or reorders a reviewed row. */
  lemma ReviewedRowsStay(s: State, op: Op)
    requires DistinctCandidates(s.candidates)
    ensures DistinctCandidates(Step(s, op).candidates)
    ensures !op.Decide? ==> Reviewed(Step(s, op).candidates) == Reviewed(s.candidates)
  {
    hide Reviewed, Revalidated, Refused, Decided, AddNew, Collapse, Find, ReplaceFirst, SplitRows, IncorporateAll;
    CollapseDistinct(s.candidates);
    match op
    case Finish(outcome) =>
      if s.holding.Some? {
        WorkerKeepsReviewed(s.candidates, s.holding.value, outcome);
      }
    case Torn(outcome) =>
      if s.holding.Some? {
        WorkerKeepsReviewed(s.candidates, s.holding.value, outcome);
      }
    case Decide(id, approve, note) => DecisionKeepsIds(s.candidates, id, approve, note);
    case Revalidate(policy) =>
      RevalidationKeeps(s.candidates, policy);
      RevalidationKeepsIds(s.candidates, policy);
    case _ =>
  }

  lemma WorkerKeepsReviewed(rows: seq<Candidate>, original: Job, outcome: Outcome)
    requires DistinctCandidates(rows)
    ensures var next := AddNew(rows, Found(original, outcome));
      DistinctCandidates(next) && Reviewed(next) == Reviewed(rows)
  {
    if outcome.Success? {
      ClaimsArePending(original.id, outcome.claims);
    }
    AddNewKeeps(rows, Found(original, outcome));
  }

  lemma DecideStep(s: State, op: Op)
    requires op.Decide?
    ensures Step(s, op).candidates == Decided(s.candidates, op.candidate, op.approve, op.note)
  {
    hide Decided;
  }

  lemma FinalStays(s: State, op: Op)
    requires DistinctCandidates(s.candidates)
    ensures multiset(Final(s.candidates)) <= multiset(Final(Step(s, op).candidates))
  {
    hide Step, Final, Reviewed, Decided, DistinctCandidates;
    ReviewedRowsStay(s, op);
    FinalIsReviewed(s.candidates);
    FinalIsReviewed(Step(s, op).candidates);
    if op.Decide? {
      DecideStep(s, op);
      DecisionKeepsFinal(s.candidates, op.candidate, op.approve, op.note);
    }
  }

  /** Over any run every approval and every rejection stays, as one unaltered row. */
  lemma {:induction false} DecisionsAreFinal(s: State, ops: seq<Op>)
    requires DistinctCandidates(s.candidates)
    ensures multiset(Final(s.candidates)) <= multiset(Final(Run(s, ops).candidates))
    decreases |ops|
  {
    hide Step, Final, DistinctCandidates;
    if ops != [] {
      ReviewedRowsStay(s, ops[0]);
      FinalStays(s, ops[0]);
      DecisionsAreFinal(Step(s, ops[0]), ops[1..]);
    }
  }

  // ------------------------------------------------------------- interrupted checkpoints

  lemma {:induction false} AddNewTwice(rows: seq<Candidate>, found: seq<Candidate>)
    requires forall c | c in found :: HasCandidate(rows, c.id)
    ensures AddNew(rows, found) == rows
    decreases |found|
  {
    if found != [] {
      assert found[0] in found;
      AddNewTwice(rows, found[1..]);
    }
  }

  lemma {:induction false} AddNewHasAll(rows: seq<Candidate>, found: seq<Candidate>)
    ensures forall id | HasCandidate(rows, id) :: HasCandidate(AddNew(rows, found), id)
    ensures forall c | c in found :: HasCandidate(AddNew(rows, found), c.id)
    decreases |found|
  {
    if found != [] {
      var next := if HasCandidate(rows, found[0].id) then rows else rows + [found[0]];
      assert HasCandidate(next, found[0].id) by {
        assert next == rows + [found[0]] ==> found[0] in next;
      }
      forall id | HasCandidate(rows, id) ensures HasCandidate(next, id) {
        var r :| r in rows && r.id == id;
        assert r in next;
      }
      AddNewHasAll(next, found[1..]);
    }
  }

  /** A checkpoint that stopped between its two writes is completed by running the job
      again with the same result: the state is as if it had never stopped. */
  lemma TornIsRepaired(s: State, outcome: Outcome)
    requires s.holding.Some? && HoldsOpenJob(s) && DistinctCandidates(s.candidates)
    requires Unchanged(s.jobs, s.holding.value)
    ensures var id := s.holding.value.id;
      Run(s, [Torn(outcome), Read(id), Finish(outcome)]) == Step(s, Finish(outcome))
  {
    hide Reviewed, Find, ReplaceFirst, AddNew, Collapse;
    var original := s.holding.value;
    UnchangedIffFound(s.jobs, original);
    var found := Found(original, outcome);
    CollapseDistinct(s.candidates);
    var torn := Step(s, Torn(outcome));
    ReviewedRowsStay(s, Torn(outcome));
    CollapseDistinct(torn.candidates);
    AddNewHasAll(s.candidates, found);
    AddNewTwice(torn.candidates, found);
    var ops := [Torn(outcome), Read(original.id), Finish(outcome)];
    assert ops[1..] == [Read(original.id), Finish(outcome)] && ops[1..][1..] == [Finish(outcome)];
    var again := Step(torn, Read(original.id));
    assert again == torn.(holding := Some(original));
    assert Run(again, [Finish(outcome)]) == Step(again, Finish(outcome)) by { assert [Finish(outcome)][1..] == []; }
    assert Run(s, ops) == Run(torn, ops[1..]) == Run(again, [Finish(outcome)]);
  }
}
