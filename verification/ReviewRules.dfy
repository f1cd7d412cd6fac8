// What each single step does to the job it is about and to the candidates, row by row.
module ReviewRules {
  import opened Prelude
  import opened Segmentation
  import opened ReviewJobs
  import opened JobSplitting
  import opened ReviewMerge
  import opened ReviewQueue

  lemma {:induction false} ReplacedIsFound(jobs: seq<Job>, id: JobId, row: Job)
    requires Find(jobs, id).Some? && row.id == id
    ensures Find(ReplaceFirst(jobs, id, row), id) == Some(row)
  {
    if jobs[0].id != id {
      ReplacedIsFound(jobs[1..], id, row);
      assert ReplaceFirst(jobs, id, row)[1..] == ReplaceFirst(jobs[1..], id, row);
    }
  }

  // --------------------------------------------------------------------------- the worker

  /** The worker takes up exactly the first row of the id, and only while that is neither
      completed, resolved nor superseded. */
  lemma ReadIff(s: State, id: JobId)
    ensures var row := Find(s.jobs, id);
      Step(s, Read(id)) ==
        if row.Some? && row.value.status in {Queued, Failed} then s.(holding := row) else s
  {
  }

  /** A failed call leaves the row failed, and it can be taken up again. */
  lemma FailureCanBeRetried(s: State, details: string)
    requires s.holding.Some? && Unchanged(s.jobs, s.holding.value) && DistinctCandidates(s.candidates)
    ensures var failed := s.holding.value.(status := Failed, details := details);
      var t := Step(s, Finish(Failure(details)));
      && Find(t.jobs, failed.id) == Some(failed) && t.holding.None?
      && t.candidates == s.candidates && t.conflicts == s.conflicts
      && Step(t, Read(failed.id)) == t.(holding := Some(failed))
  {
    hide Find, ReplaceFirst, Collapse;
    var original := s.holding.value;
    UnchangedIffFound(s.jobs, original);
    ReplacedIsFound(s.jobs, original.id, original.(status := Failed, details := details));
    CollapseDistinct(s.candidates);
  }

  /** A completed call closes the row: it is completed, every claim is a candidate, new ones
      still to be reviewed, and it is not taken up again. */
  lemma SuccessIsFinal(s: State, details: string, claims: seq<string>)
    requires s.holding.Some? && Unchanged(s.jobs, s.holding.value) && DistinctCandidates(s.candidates)
    ensures var done := s.holding.value.(status := Completed, details := details);
      var t := Step(s, Finish(Success(details, claims)));
      && Find(t.jobs, done.id) == Some(done) && t.holding.None? && t.conflicts == s.conflicts
      && Step(t, Read(done.id)) == t
      && s.candidates <= t.candidates
      && (forall claim | claim in claims :: HasCandidate(t.candidates, CandidateId(done.id, claim)))
      && (forall c | c in t.candidates[|s.candidates|..] ::
            exists claim :: claim in claims && c == Candidate(CandidateId(done.id, claim), claim, PendingReview, ""))
  {
    hide Find, ReplaceFirst, Collapse, AddNew, Claimed;
    var original := s.holding.value;
    var found := Claimed(original.id, claims);
    UnchangedIffFound(s.jobs, original);
    ReplacedIsFound(s.jobs, original.id, original.(status := Completed, details := details));
    CollapseDistinct(s.candidates);
    AddNewHasAll(s.candidates, found);
    AddedAreFound(s.candidates, found);
    ClaimedAre(original.id, claims);
  }

  /** A checkpoint that stops between its two writes leaves every job as it is, the row to be
      taken up again, and every claim a candidate. */
  lemma TornCanBeRetried(s: State, outcome: Outcome)
    requires s.holding.Some? && Unchanged(s.jobs, s.holding.value) && DistinctCandidates(s.candidates)
    requires s.holding.value.status in {Queued, Failed}
    ensures var t, row := Step(s, Torn(outcome)), s.holding.value;
      && t == s.(candidates := t.candidates, holding := None) && s.candidates <= t.candidates
      && Step(t, Read(row.id)) == t.(holding := Some(row))
      && (outcome.Success? ==> forall claim | claim in outcome.claims :: HasCandidate(t.candidates, CandidateId(row.id, claim)))
  {
    hide Find, Collapse, AddNew, Claimed;
    var original := s.holding.value;
    var found := Found(original, outcome);
    UnchangedIffFound(s.jobs, original);
    CollapseDistinct(s.candidates);
    AddNewHasAll(s.candidates, found);
    AddedAreFound(s.candidates, found);
    if outcome.Success? {
      ClaimedAre(original.id, outcome.claims);
    }
  }

  lemma {:induction false} ClaimedAre(job: JobId, claims: seq<string>)
    ensures forall claim | claim in claims :: Candidate(CandidateId(job, claim), claim, PendingReview, "") in Claimed(job, claims)
    ensures forall c | c in Claimed(job, claims) ::
      exists claim :: claim in claims && c == Candidate(CandidateId(job, claim), claim, PendingReview, "")
  {
    if claims != [] {
      ClaimedAre(job, claims[1..]);
      assert claims == [claims[0]] + claims[1..];
    }
  }

  lemma {:induction false} AddedAreFound(rows: seq<Candidate>, found: seq<Candidate>)
    ensures rows <= AddNew(rows, found)
    ensures forall c | c in AddNew(rows, found)[|rows|..] :: c in found
    decreases |found|
  {
    if found != [] {
      var next := if HasCandidate(rows, found[0].id) then rows else rows + [found[0]];
      AddedAreFound(next, found[1..]);
      var all := AddNew(rows, found);
      forall c | c in all[|rows|..] ensures c in found {
        if |next| > |rows| && c == all[|rows|] {
          assert c == found[0];
        } else {
          assert c in all[|next|..];
        }
      }
    }
  }

  lemma {:induction false} OverwriteAt(rows: seq<Candidate>, row: Candidate)
    ensures |Overwrite(rows, row)| == |rows|
    ensures forall i | 0 <= i < |rows| :: Overwrite(rows, row)[i] == if rows[i].id == row.id then row else rows[i]
  {
    if rows != [] {
      OverwriteAt(rows[1..], row);
    }
  }

  /** One more row in the dictionary. */
  function Put(rows: seq<Candidate>, row: Candidate): seq<Candidate> {
    if HasCandidate(rows, row.id) then Overwrite(rows, row) else rows + [row]
  }

  lemma PutIs(rows: seq<Candidate>, row: Candidate)
    requires DistinctCandidates(rows)
    ensures DistinctCandidates(Put(rows, row)) && row in Put(rows, row)
    ensures forall c :: c in Put(rows, row) <==> c == row || (c in rows && c.id != row.id)
  {
    OverwriteAt(rows, row);
    var t := Put(rows, row);
    if known :| known in rows && known.id == row.id {
      var k :| 0 <= k < |rows| && rows[k] == known;
      assert t[k] == row;
    } else {
      assert t[|rows|] == row;
    }
    forall c | c in rows && c.id != row.id ensures c in t {
      var k :| 0 <= k < |rows| && rows[k] == c;
      assert t[k] == c;
    }
  }

  /** The row is the last one of its id. */
  predicate LastOfItsId(rows: seq<Candidate>, c: Candidate) {
    exists i :: 0 <= i < |rows| && rows[i] == c && forall j | i < j < |rows| :: rows[j].id != c.id
  }

  lemma LastOneMore(rows: seq<Candidate>, row: Candidate, c: Candidate)
    ensures LastOfItsId(rows + [row], c) <==> c == row || (LastOfItsId(rows, c) && c.id != row.id)
  {
    var all := rows + [row];
    assert all[|rows|] == row;
    if LastOfItsId(all, c) {
      var i :| 0 <= i < |all| && all[i] == c && forall j | i < j < |all| :: all[j].id != c.id;
      if i < |rows| {
        assert rows[i] == c && forall j | i < j < |rows| :: rows[j].id == all[j].id;
      }
    }
    if LastOfItsId(rows, c) && c.id != row.id {
      var i :| 0 <= i < |rows| && rows[i] == c && forall j | i < j < |rows| :: rows[j].id != c.id;
      assert all[i] == c && forall j | i < j < |all| :: all[j].id != c.id;
    }
  }

  /** The dictionary keeps exactly the last row of every id... */
  lemma {:induction false} CollapseIs(rows: seq<Candidate>)
    ensures DistinctCandidates(Collapse(rows))
    ensures forall c :: c in Collapse(rows) <==> LastOfItsId(rows, c)
    decreases |rows|
  {
    hide LastOfItsId, DistinctCandidates, Overwrite;
    if rows == [] {
      NothingIsLast();
    } else {
      var init, last := rows[..|rows| - 1], rows[|rows| - 1];
      assert rows == init + [last];
      CollapseIs(init);
      PutIs(Collapse(init), last);
      assert Collapse(rows) == Put(Collapse(init), last);
      forall c ensures c in Collapse(rows) <==> LastOfItsId(rows, c) {
        LastOneMore(init, last, c);
      }
    }
  }

  lemma NothingIsLast()
    ensures DistinctCandidates([]) && forall c :: !LastOfItsId([], c)
  {
  }

  /** ...at the place of its first one: a further row changes no order. */
  lemma CollapseKeepsPlaces(rows: seq<Candidate>, row: Candidate)
    ensures var before, after := Collapse(rows), Collapse(rows + [row]);
      |before| <= |after| <= |before| + 1 && forall i | 0 <= i < |before| :: after[i].id == before[i].id
  {
    assert (rows + [row])[..|rows|] == rows;
    OverwriteAt(Collapse(rows), row);
  }

  /** A closed row is never taken up again, as long as it is the only row of its id. */
  lemma ClosedIsNotReopened(s: State, ops: seq<Op>, job: Job)
    requires HoldsOpenJob(s) && job in s.jobs && job.status in {Completed, CompletedNoRelation, Superseded}
    requires DistinctIds(Run(s, ops).jobs)
    ensures Step(Run(s, ops), Read(job.id)) == Run(s, ops)
  {
    hide Run, Find;
    ClosedForever(s, ops, job);
    var later :| later in Run(s, ops).jobs && later.id == job.id && later.evidence == job.evidence && later.status == job.status;
    FindDistinct(Run(s, ops).jobs, later);
  }

  // ---------------------------------------------------------------------------- the people

  /** A person resolves exactly the first row of the id, and only while it is queued or
      failed; every other row stays. */
  lemma ResolvedIff(s: State, id: JobId, note: string)
    ensures var row := Find(s.jobs, id);
      var t := Step(s, Resolve(id, note));
      if row.Some? && row.value.status in {Queued, Failed}
      then t == s.(jobs := t.jobs) && Find(t.jobs, id) == Some(row.value.(status := CompletedNoRelation, details := note))
           && exists i: nat :: i < |s.jobs| == |t.jobs| && s.jobs[i] == row.value && t.jobs == s.jobs[i := t.jobs[i]]
      else t == s
  {
    hide Find, ReplaceFirst;
    var row := Find(s.jobs, id);
    if row.Some? && row.value.status in {Queued, Failed} {
      var closed := row.value.(status := CompletedNoRelation, details := note);
      FindIsHere(s.jobs, id);
      ReplacedIsFound(s.jobs, id, closed);
      FirstIndex(s.jobs, id, closed);
    }
  }

  lemma FindIsHere(jobs: seq<Job>, id: JobId)
    ensures Find(jobs, id).Some? ==> Find(jobs, id).value.id == id && Find(jobs, id).value in jobs
  {
    FindIsFirst(jobs, id);
  }

  /** A decision reaches exactly the candidate that it names, and only while that is still to
      be decided; every other candidate stays. */
  lemma DecidedIff(rows: seq<Candidate>, id: CandidateId, approve: bool, note: string, i: nat)
    requires DistinctCandidates(rows) && i < |rows|
    ensures |Decided(rows, id, approve, note)| == |rows|
    ensures Decided(rows, id, approve, note)[i] ==
      if rows[i].id == id && rows[i].verdict in {PendingReview, NeedsHumanReview}
      then rows[i].(verdict := if approve then Approved else Rejected, note := note) else rows[i]
    decreases |rows|
  {
    var rest := rows[1..];
    assert forall k | 0 <= k < |rest| :: rest[k] == rows[k + 1];
    if rows[0].id != id {
      if i > 0 {
        DecidedIff(rest, id, approve, note, i - 1);
      } else if rest != [] {
        DecidedIff(rest, id, approve, note, 0);
      }
    }
  }

  /** Revalidation keeps reviewed candidates, refreshes allowed pending ones and removes the
      others, which are all found among the rejected ones. */
  lemma {:induction false} RevalidatedIff(rows: seq<Candidate>, policy: map<CandidateId, string>, c: Candidate)
    ensures c in Revalidated(rows, policy) <==>
      || (c in rows && c.verdict != PendingReview)
      || (exists row :: row in rows && row.verdict == PendingReview && row.id in policy && c == row.(content := policy[row.id]))
  {
    if rows != [] {
      RevalidatedIff(rows[1..], policy, c);
      assert rows == [rows[0]] + rows[1..];
    }
  }

  lemma RefusedAreKept(rows: seq<Candidate>, policy: map<CandidateId, string>, known: seq<Candidate>)
    ensures known <= Refused(rows, policy, known)
    ensures forall row | row in rows && Dropped(row, policy) :: HasCandidate(Refused(rows, policy, known), row.id)
    ensures forall row | row in Refused(rows, policy, known)[|known|..] :: row in rows && Dropped(row, policy)
  {
    hide Dropped;
    RefusedGrow(rows, policy, known);
    forall row | row in rows && Dropped(row, policy) ensures HasCandidate(Refused(rows, policy, known), row.id) {
      RefusedHas(rows, policy, known, row);
    }
  }

  /** Revalidation removes the candidate. */
  predicate Dropped(row: Candidate, policy: map<CandidateId, string>) {
    row.verdict == PendingReview && row.id !in policy
  }

  lemma {:induction false} RefusedGrow(rows: seq<Candidate>, policy: map<CandidateId, string>, known: seq<Candidate>)
    ensures known <= Refused(rows, policy, known)
    ensures forall row | row in Refused(rows, policy, known)[|known|..] :: row in rows && Dropped(row, policy)
    decreases |rows|
  {
    hide HasCandidate;
    if rows != [] {
      var row := rows[0];
      var next := if Dropped(row, policy) && !HasCandidate(known, row.id) then known + [row] else known;
      RefusedGrow(rows[1..], policy, next);
      var all := Refused(rows, policy, known);
      assert all == Refused(rows[1..], policy, next);
      forall r | r in all[|known|..] ensures r in rows && Dropped(r, policy) {
        var i :| |known| <= i < |all| && all[i] == r;
        if i >= |next| {
          assert r in all[|next|..];
        } else {
          assert next[i] == row;
        }
      }
    }
  }

  lemma {:induction false} RefusedHas(rows: seq<Candidate>, policy: map<CandidateId, string>, known: seq<Candidate>, row: Candidate)
    requires row in rows && Dropped(row, policy)
    ensures HasCandidate(Refused(rows, policy, known), row.id)
    decreases |rows|
  {
    var first := rows[0];
    var next := if Dropped(first, policy) && !HasCandidate(known, first.id) then known + [first] else known;
    if row != first {
      RefusedHas(rows[1..], policy, next, row);
    } else {
      RefusedGrow(rows[1..], policy, next);
      var there :| there in next && there.id == row.id;
      assert there in Refused(rows, policy, known);
    }
  }

  /** Decisions and revalidation leave the jobs alone; splits and builds, the candidates. */
  lemma OtherStepsAre(s: State, op: Op)
    ensures var t := Step(s, op);
      match op
      case Decide(id, approve, note) => t.candidates == Decided(s.candidates, id, approve, note) && t == s.(candidates := t.candidates)
      case Revalidate(policy) =>
        && t.candidates == Revalidated(s.candidates, policy) && t.rejected == Refused(s.candidates, policy, s.rejected)
        && t == s.(candidates := t.candidates, rejected := t.rejected)
      case SplitOversized(library, max) =>
        var rows := SplitQueue(s.jobs, library, max, {Queued, Failed});
        t.jobs == (if rows.Some? then rows.value else s.jobs) && t == s.(jobs := t.jobs)
      case Build(generated) =>
        var rows := Preserve(s.jobs, generated);
        t.jobs == (if rows.Some? then rows.value else s.jobs) && t == s.(jobs := t.jobs)
      case _ => true
  {
    hide SplitQueue, Preserve, Decided, Revalidated, Refused;
  }

  // ---------------------------------------------------------------------- splits and merges

  /** A split is refused exactly for a limit below one, and only when a row would be cut. */
  lemma SplitAcceptedIff(jobs: seq<Job>, library: Library, max: int, targets: set<Status>)
    ensures var rows := SplitQueue(jobs, library, max, targets);
      && (rows.None? <==> max < 1 && exists job :: job in jobs && job.status in targets)
      && (rows.Some? ==> rows.value == Split(jobs, library, if max < 1 then 0 else max, targets))
  {
    hide Split;
  }

  /** The k-th child is a queued job of the parent's page and source for the k-th segment. */
  lemma {:induction false} ChildIs(parent: Job, segments: seq<seq<Document>>, k: nat)
    requires k < |segments|
    ensures |Children(parent, segments)| == |segments|
    ensures var child, ids := Children(parent, segments)[k], DocumentIds(segments[k]);
      child == Job(Extract(parent.page, ids), parent.page, parent.source, ids, Queued, Some(parent.id), [], None, "")
  {
    ChildrenEvidence(parent, segments);
    if k > 0 {
      ChildIs(parent, segments[1..], k - 1);
      assert Children(parent, segments)[k] == Children(parent, segments[1..])[k - 1];
    }
  }

  /** The row is `q` but for a parent link where a superseded row lists it, the superseded
      parent that `q` became, or a queued child of it. */
  ghost predicate DescendsFrom(row: Job, q: Job, jobs: seq<Job>, library: Library, max: nat, targets: set<Status>) {
    var names := SegmentNames(q, SegmentsOf(q, library, max));
    || (row == q.(parent := row.parent) && (row.parent == q.parent || (q.parent.None? && !Unlinked(jobs, q))))
    || (Oversized(q, library, max, targets) && row == q.(parent := row.parent, status := Superseded, children := names))
    || (Oversized(q, library, max, targets) && row.id in names && row.parent == Some(q.id) && row.status == Queued
        && row.page == q.page && row.source == q.source)
  }

  /** Every row of the rewritten queue descends from one of the queue. */
  lemma RewrittenRowIs(jobs: seq<Job>, library: Library, max: nat, targets: set<Status>, row: Job)
    requires row in Split(jobs, library, max, targets)
    ensures exists q :: q in jobs && DescendsFrom(row, q, jobs, library, max, targets)
  {
    hide ParentOf, Segments, Available, SplitRows, Unlinked, SegmentNames;
    RowOrigin(jobs, jobs, library, max, targets, row);
    var q :| q in jobs && row in SplitJob(Link(q, jobs), library, max, targets);
    var linked, segments := Link(q, jobs), SegmentsOf(q, library, max);
    UnlinkedStays(jobs, q);
    ChildrenNames(linked, segments);
    SamePageSameNames(linked, q, segments);
    if row in Children(linked, segments) {
      ChildrenMembers(linked, segments, row);
    }
    assert DescendsFrom(row, q, jobs, library, max, targets);
  }

  /** Every row that a merge adds is a generated row, or a revision of one that names it as
      its predecessor. */
  lemma {:induction false} MergedRowIs(rows: seq<Job>, generated: seq<Job>, row: Job)
    requires row in IncorporateAll(rows, generated) && row !in rows
    ensures exists item :: item in generated
              && (row == item || row == item.(id := RevisionId(item), predecessor := Some(item.id)))
    decreases |generated|
  {
    hide Find;
    if generated != [] {
      var next := Incorporate(rows, generated[0]);
      if row in next {
        assert generated[0] in generated;
      } else {
        MergedRowIs(next, generated[1..], row);
        var item :| item in generated[1..]
          && (row == item || row == item.(id := RevisionId(item), predecessor := Some(item.id)));
        assert item in generated;
      }
    }
  }
}
