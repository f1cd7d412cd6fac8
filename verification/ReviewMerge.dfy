// Merging freshly generated review jobs into the queue without resetting earlier rows.
module ReviewMerge {
  import opened Prelude
  import opened ReviewJobs

  predicate SameEvidence(a: Job, b: Job) {
    multiset(a.evidence) == multiset(b.evidence)
  }

  function RevisionId(item: Job): JobId {
    Revision(item.id, multiset(item.evidence))
  }

  /** One pass of the merge loop over an ordered table of rows. */
  function Incorporate(rows: seq<Job>, item: Job): seq<Job> {
    match Find(rows, item.id)
    case None => rows + [item]
    case Some(prior) =>
      if SameEvidence(prior, item) then rows
      else if Find(rows, RevisionId(item)).Some? then rows
      else rows + [item.(id := RevisionId(item), predecessor := Some(item.id))]
  }

  function IncorporateAll(rows: seq<Job>, generated: seq<Job>): seq<Job>
    decreases |generated|
  {
    if generated == [] then rows else IncorporateAll(Incorporate(rows, generated[0]), generated[1..])
  }

  /** None is the error for a stored queue with a repeated id. */
  function Preserve(previous: seq<Job>, generated: seq<Job>): Option<seq<Job>> {
    if DistinctIds(previous) then Some(IncorporateAll(previous, generated)) else None
  }

  // --------------------------------------------------------------------------- tables

  /** `byId` is the dictionary whose ordered values are `rows`. */
  ghost predicate Indexes(byId: map<JobId, Job>, rows: seq<Job>) {
    && (forall row | row in rows :: row.id in byId && byId[row.id] == row)
    && (forall id | id in byId :: exists row :: row in rows && row.id == id)
  }

  lemma IndexFinds(byId: map<JobId, Job>, rows: seq<Job>, id: JobId)
    requires Indexes(byId, rows)
    ensures Find(rows, id) == if id in byId then Some(byId[id]) else None
  {
    FindIsFirst(rows, id);
  }

  lemma IndexGrows(byId: map<JobId, Job>, rows: seq<Job>, row: Job)
    requires Indexes(byId, rows) && row.id !in byId
    ensures Indexes(byId[row.id := row], rows + [row])
  {
    var grown := byId[row.id := row];
    forall id | id in grown ensures exists r :: r in rows + [row] && r.id == id {
      if id == row.id {
        assert row in rows + [row];
      } else {
        var r :| r in rows && r.id == id;
        assert r in rows + [row];
      }
    }
  }

  /** `byId` was filled from `rows` in order, a later row replacing an earlier one. */
  ghost predicate Collects(byId: map<JobId, Job>, rows: seq<Job>) {
    && (forall id :: id in byId <==> exists row :: row in rows && row.id == id)
    && |byId| <= |rows|
    && (|byId| == |rows| <==> DistinctIds(rows))
    && (DistinctIds(rows) ==> Indexes(byId, rows))
  }

  lemma CollectsOneMore(byId: map<JobId, Job>, rows: seq<Job>, row: Job)
    requires Collects(byId, rows)
    ensures Collects(byId[row.id := row], rows + [row])
  {
    var grown, all := byId[row.id := row], rows + [row];
    DistinctSnoc(rows, row);
    forall id ensures id in grown <==> exists r :: r in all && r.id == id {
      if id == row.id {
        assert row in all;
      } else if id in byId {
        var r :| r in rows && r.id == id;
        assert r in all;
      }
    }
    if row.id in byId {
      var r :| r in rows && r.id == row.id;
      assert |grown| == |byId| by { assert grown.Keys == byId.Keys; }
    } else {
      assert |grown| == |byId| + 1;
      assert forall k | 0 <= k < |rows| :: rows[k] in rows;
      if DistinctIds(rows) {
        IndexGrows(byId, rows, row);
      }
    }
  }

  /** The dictionary of the stored rows is as large as the queue exactly when no id
      repeats. */
  method IndexRows(rows: seq<Job>) returns (byId: map<JobId, Job>)
    ensures |byId| == |rows| <==> DistinctIds(rows)
    ensures DistinctIds(rows) ==> Indexes(byId, rows)
  {
    hide Indexes, DistinctIds;
    byId := map[];
    assert Collects(byId, rows[..0]) by { NothingCollected(); }
    for i := 0 to |rows|
      invariant Collects(byId, rows[..i])
    {
      assert rows[..i + 1] == rows[..i] + [rows[i]];
      CollectsOneMore(byId, rows[..i], rows[i]);
      byId := byId[rows[i].id := rows[i]];
    }
    assert rows[..|rows|] == rows;
  }

  lemma NothingCollected()
    ensures Collects(map[], [])
  {
  }

  lemma DistinctSnoc(rows: seq<Job>, row: Job)
    ensures DistinctIds(rows + [row]) <==> DistinctIds(rows) && forall k | 0 <= k < |rows| :: rows[k].id != row.id
  {
    var all := rows + [row];
    assert forall k | 0 <= k < |rows| :: all[k] == rows[k];
    assert all[|rows|] == row;
    if DistinctIds(all) {
      forall i, j | 0 <= i < j < |rows| ensures rows[i].id != rows[j].id {
        assert all[i].id != all[j].id;
      }
      forall k | 0 <= k < |rows| ensures rows[k].id != row.id {
        assert all[k].id != all[|rows|].id;
      }
    }
  }

  /** The merge loop over the dictionary of known rows. */
  method PreserveReviewJobs(previous: seq<Job>, generated: seq<Job>) returns (merged: Option<seq<Job>>)
    ensures merged == Preserve(previous, generated)
  {
    var byId := IndexRows(previous);
    if |byId| != |previous| {
      return None;
    }
    var rows := previous;
    assert generated[0..] == generated;
    for i := 0 to |generated|
      invariant Indexes(byId, rows)
      invariant IncorporateAll(previous, generated) == IncorporateAll(rows, generated[i..])
    {
      assert generated[i..][0] == generated[i] && generated[i..][1..] == generated[i + 1..];
      var item := generated[i];
      var key := item.id;
      ghost var before := rows;
      IndexFinds(byId, rows, key);
      IndexFinds(byId, rows, RevisionId(item));
      if key in byId {
        if multiset(byId[key].evidence) == multiset(item.evidence) {
          continue;
        }
        item := item.(predecessor := Some(key), id := Revision(key, multiset(item.evidence)));
      }
      if item.id !in byId {
        IndexGrows(byId, rows, item);
        byId := byId[item.id := item];
        rows := rows + [item];
      }
      assert rows == Incorporate(before, generated[i]);
    }
    assert generated[|generated|..] == [];
    merged := Some(rows);
  }

  // ------------------------------------------------------------------------- theorems

  lemma {:induction false} FindInLonger(rows: seq<Job>, more: seq<Job>, id: JobId)
    ensures Find(rows + more, id) == if Find(rows, id).Some? then Find(rows, id) else Find(more, id)
  {
    if rows == [] {
      assert rows + more == more;
    } else {
      assert (rows + more)[1..] == rows[1..] + more;
      FindInLonger(rows[1..], more, id);
    }
  }

  lemma IncorporateKeeps(rows: seq<Job>, item: Job)
    ensures rows <= Incorporate(rows, item)
    ensures DistinctIds(rows) ==> DistinctIds(Incorporate(rows, item))
  {
    FindIsFirst(rows, item.id);
    FindIsFirst(rows, RevisionId(item));
  }

  lemma {:induction false} IncorporateAllKeeps(rows: seq<Job>, generated: seq<Job>)
    ensures rows <= IncorporateAll(rows, generated)
    ensures DistinctIds(rows) ==> DistinctIds(IncorporateAll(rows, generated))
    decreases |generated|
  {
    if generated != [] {
      IncorporateKeeps(rows, generated[0]);
      IncorporateAllKeeps(Incorporate(rows, generated[0]), generated[1..]);
    }
  }

  /** A merge keeps every earlier row unchanged, in its place, and keeps ids distinct; it
      is refused if and only if the stored ids already repeat. */
  lemma PreserveKeeps(previous: seq<Job>, generated: seq<Job>)
    ensures Preserve(previous, generated).Some? <==> DistinctIds(previous)
    ensures var merged := Preserve(previous, generated);
      merged.Some? ==> previous <= merged.value && DistinctIds(merged.value)
  {
    IncorporateAllKeeps(previous, generated);
  }

  /** The generated row needs no new row: its evidence is under its own id or under the
      id of a revision. */
  predicate Settled(rows: seq<Job>, item: Job) {
    var prior := Find(rows, item.id);
    prior.Some? && (SameEvidence(prior.value, item) || Find(rows, RevisionId(item)).Some?)
  }

  lemma IncorporateSettles(rows: seq<Job>, item: Job)
    ensures Settled(Incorporate(rows, item), item)
    ensures Incorporate(rows, item) == rows <==> Settled(rows, item)
  {
    var revised := item.(id := RevisionId(item), predecessor := Some(item.id));
    FindInLonger(rows, [item], item.id);
    FindInLonger(rows, [revised], item.id);
    FindInLonger(rows, [revised], RevisionId(item));
    assert Incorporate(rows, item) != rows ==> |Incorporate(rows, item)| == |rows| + 1;
  }

  lemma SettledInLonger(rows: seq<Job>, longer: seq<Job>, item: Job)
    requires rows <= longer && Settled(rows, item)
    ensures Settled(longer, item)
  {
    assert longer == rows + longer[|rows|..];
    FindInLonger(rows, longer[|rows|..], item.id);
    FindInLonger(rows, longer[|rows|..], RevisionId(item));
  }

  lemma {:induction false} AllSettled(rows: seq<Job>, generated: seq<Job>, item: Job)
    requires item in generated
    ensures Settled(IncorporateAll(rows, generated), item)
    decreases |generated|
  {
    var next := Incorporate(rows, generated[0]);
    if item == generated[0] {
      IncorporateSettles(rows, item);
      IncorporateAllKeeps(next, generated[1..]);
      SettledInLonger(next, IncorporateAll(next, generated[1..]), item);
    } else {
      AllSettled(next, generated[1..], item);
    }
  }

  lemma {:induction false} SettledAddNothing(rows: seq<Job>, generated: seq<Job>)
    requires forall item | item in generated :: Settled(rows, item)
    ensures IncorporateAll(rows, generated) == rows
    decreases |generated|
  {
    if generated != [] {
      IncorporateSettles(rows, generated[0]);
      SettledAddNothing(rows, generated[1..]);
    }
  }

  /** Merging the same generated rows a second time changes nothing. */
  lemma PreserveIsIdempotent(previous: seq<Job>, generated: seq<Job>)
    requires DistinctIds(previous)
    ensures var merged := Preserve(previous, generated).value;
      Preserve(merged, generated) == Some(merged)
  {
    var merged := Preserve(previous, generated).value;
    PreserveKeeps(previous, generated);
    forall item | item in generated ensures Settled(merged, item) {
      AllSettled(previous, generated, item);
    }
    SettledAddNothing(merged, generated);
  }

  /** A row under a revision id carries the evidence that the id names. */
  ghost predicate Honest(rows: seq<Job>) {
    forall row | row in rows && row.id.Revision? :: multiset(row.evidence) == row.id.evidenceSet
  }

  lemma {:induction false} MergeIsHonest(rows: seq<Job>, generated: seq<Job>)
    requires Honest(rows) && Honest(generated)
    ensures Honest(IncorporateAll(rows, generated))
    decreases |generated|
  {
    if generated != [] {
      assert Honest(Incorporate(rows, generated[0]));
      MergeIsHonest(Incorporate(rows, generated[0]), generated[1..]);
    }
  }

  /** Every generated evidence set has a row of its own job, or of a revision of that job
      which names its predecessor's id. */
  lemma PreserveRepresents(previous: seq<Job>, generated: seq<Job>, item: Job)
    requires DistinctIds(previous) && Honest(previous) && Honest(generated) && item in generated
    ensures exists row :: row in Preserve(previous, generated).value
              && row.id in {item.id, RevisionId(item)} && SameEvidence(row, item)
  {
    var merged := Preserve(previous, generated).value;
    AllSettled(previous, generated, item);
    MergeIsHonest(previous, generated);
    FindIsFirst(merged, item.id);
    FindIsFirst(merged, RevisionId(item));
    var prior := Find(merged, item.id).value;
    if !SameEvidence(prior, item) {
      var row := Find(merged, RevisionId(item)).value;
      assert row in merged;
    }
  }
}
