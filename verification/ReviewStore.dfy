// The review files as one object; every method is one section under the review lock.
module ReviewStore {
  import opened Prelude
  import opened ReviewJobs
  import opened ReviewQueue

  class Files {
    var jobs: seq<Job>
    var candidates: seq<Candidate>
    var conflicts: seq<Conflict>
    var rejected: seq<Candidate>

    /** The stored rows together with the row the worker holds. */
    function View(holding: Option<Job>): State
      reads this
    {
      State(jobs, candidates, conflicts, rejected, holding)
    }

    constructor ()
      ensures View(None) == State([], [], [], [], None)
    {
      jobs, candidates, conflicts, rejected := [], [], [], [];
    }

    /** The position of the first row with the id. */
    method Locate(id: JobId) returns (at: Option<nat>)
      ensures at.Some? ==> at.value < |jobs| && jobs[at.value].id == id && Find(jobs, id) == Some(jobs[at.value])
      ensures at.Some? ==> forall k | 0 <= k < at.value :: jobs[k].id != id
      ensures at.None? ==> Find(jobs, id) == None
    {
      assert jobs[0..] == jobs;
      for i := 0 to |jobs|
        invariant Find(jobs, id) == Find(jobs[i..], id)
        invariant forall k | 0 <= k < i :: jobs[k].id != id
      {
        assert jobs[i..][0] == jobs[i] && jobs[i..][1..] == jobs[i + 1..];
        if jobs[i].id == id {
          return Some(i);
        }
      }
      at := None;
    }

    /** The dictionary of the stored candidates: a later row takes an earlier one's place. */
    method Table() returns (rows: seq<Candidate>)
      ensures rows == Collapse(candidates)
    {
      rows := [];
      assert candidates[..0] == [];
      for i := 0 to |candidates|
        invariant rows == Collapse(candidates[..i])
      {
        var row := candidates[i];
        assert candidates[..i + 1][..i] == candidates[..i] && candidates[..i + 1][i] == row;
        if exists known :: known in rows && known.id == row.id {
          rows := Overwrite(rows, row);
        } else {
          rows := rows + [row];
        }
      }
      assert candidates[..|candidates|] == candidates;
    }

    /** Commits one model result, or saves it aside when the job has changed. */
    method CheckpointExtraction(original: Job, updated: Job, found: seq<Candidate>) returns (ok: bool)
      requires updated.id == original.id
      modifies this
      ensures ok <==> old(Unchanged(jobs, original))
      ensures View(None) == Checkpoint(old(View(None)), original, updated, found)
    {
      UnchangedIffFound(jobs, original);
      var at := Locate(original.id);
      if at.None? || jobs[at.value] != original {
        conflicts := conflicts + [Conflict(original, updated, found)];
        return false;
      }
      var rows := Table();
      assert found[0..] == found;
      ghost var table := rows;
      for i := 0 to |found|
        invariant AddNew(table, found) == AddNew(rows, found[i..])
      {
        assert found[i..][0] == found[i] && found[i..][1..] == found[i + 1..];
        if !HasCandidate(rows, found[i].id) {
          rows := rows + [found[i]];
        }
      }
      assert found[|found|..] == [];
      candidates := rows;
      ReplacedAt(jobs, at.value, original.id, updated);
      jobs := jobs[at.value := updated];
      ok := true;
    }

    /** A person finds no eligible relation in a queued or failed job. */
    method ResolveNoEligibleRelation(id: JobId, note: string) returns (ok: bool)
      modifies this`jobs
      ensures forall holding :: View(holding) == Step(old(View(holding)), Resolve(id, note))
      ensures ok <==> old(Find(jobs, id).Some? && Pending(Find(jobs, id).value.status))
    {
      var at := Locate(id);
      if at.None? || !Pending(jobs[at.value].status) {
        return false;
      }
      var row := jobs[at.value].(status := CompletedNoRelation, details := note);
      ReplacedAt(jobs, at.value, id, row);
      jobs := jobs[at.value := row];
      ok := true;
    }

    /** Applies the current policy to the pending candidates. */
    method RevalidateExisting(policy: map<CandidateId, string>)
      modifies this`candidates, this`rejected
      ensures View(None) == Step(old(View(None)), Revalidate(policy))
    {
      hide Revalidated, Refused;
      var rows := candidates;
      var retained, refused := [], rejected;
      assert rows[0..] == rows;
      for i := 0 to |rows|
        invariant Revalidated(rows, policy) == retained + Revalidated(rows[i..], policy)
        invariant Refused(rows, policy, rejected) == Refused(rows[i..], policy, refused)
        invariant rejected == old(rejected)
      {
        RevalidateOne(rows, i, policy, refused);
        var row := rows[i];
        if row.verdict != PendingReview {
          retained := retained + [row];
        } else if row.id in policy {
          retained := retained + [row.(content := policy[row.id])];
        } else if !HasCandidate(refused, row.id) {
          refused := refused + [row];
        }
      }
      RevalidateNone(policy, refused);
      assert rows[|rows|..] == [] && retained + [] == retained;
      candidates, rejected := retained, refused;
    }
  }

  lemma RevalidateOne(rows: seq<Candidate>, i: nat, policy: map<CandidateId, string>, known: seq<Candidate>)
    requires i < |rows|
    ensures var row := rows[i];
      Revalidated(rows[i..], policy) ==
        (if row.verdict != PendingReview then [row]
         else if row.id in policy then [row.(content := policy[row.id])]
         else []) + Revalidated(rows[i + 1..], policy)
    ensures var row := rows[i];
      var refuse := row.verdict == PendingReview && row.id !in policy && !HasCandidate(known, row.id);
      Refused(rows[i..], policy, known) == Refused(rows[i + 1..], policy, if refuse then known + [row] else known)
  {
    assert rows[i..][0] == rows[i] && rows[i..][1..] == rows[i + 1..];
  }

  lemma RevalidateNone(policy: map<CandidateId, string>, known: seq<Candidate>)
    ensures Revalidated([], policy) == [] && Refused([], policy, known) == known
  {
  }

  lemma {:induction false} ReplacedAt(jobs: seq<Job>, i: nat, id: JobId, row: Job)
    requires i < |jobs| && jobs[i].id == id && forall k | 0 <= k < i :: jobs[k].id != id
    ensures ReplaceFirst(jobs, id, row) == jobs[i := row]
  {
    if i > 0 {
      assert jobs[0].id != id;
      ReplacedAt(jobs[1..], i - 1, id, row);
      assert [jobs[0]] + jobs[1..][i - 1 := row] == jobs[i := row];
    } else {
      assert [row] + jobs[1..] == jobs[0 := row];
    }
  }
}
