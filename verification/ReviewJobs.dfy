// The relation-extraction job queue and the splitting of oversized pending jobs.
module ReviewJobs {
  import opened Prelude
  import opened Segmentation

  datatype Status = Queued | Failed | Completed | CompletedNoRelation | Superseded

  /** Deterministic job identifiers; stable_id is injective by construction.  Revision
      identifiers take the evidence sorted, that is, as a multiset. */
  datatype JobId =
    | Extract(page: string, evidence: seq<string>)
    | Revision(of: JobId, evidenceSet: multiset<string>)
    | Foreign(name: string)

  /** One row of the queue; `details` stands for the fields no step here looks at. */
  datatype Job = Job(id: JobId, page: string, source: string, evidence: seq<string>, status: Status,
                     parent: Option<JobId>, children: seq<JobId>, predecessor: Option<JobId>, details: string)

  /** The text of every known document. */
  type Library = map<string, string>

  function DocumentIds(docs: seq<Document>): seq<string> {
    if docs == [] then [] else [docs[0].id] + DocumentIds(docs[1..])
  }

  function Available(evidence: seq<string>, library: Library): seq<Document> {
    if evidence == [] then []
    else if evidence[0] in library then [Document(evidence[0], library[evidence[0]])] + Available(evidence[1..], library)
    else Available(evidence[1..], library)
  }

  function JobIds(jobs: seq<Job>): seq<JobId> {
    if jobs == [] then [] else [jobs[0].id] + JobIds(jobs[1..])
  }

  predicate DistinctIds(jobs: seq<Job>) {
    forall i, j | 0 <= i < j < |jobs| :: jobs[i].id != jobs[j].id
  }

  // ------------------------------------------------------- split_pending_relation_jobs

  /** The superseded job that lists `id` as a child; a later row wins. */
  function ParentOf(jobs: seq<Job>, id: JobId): Option<JobId> {
    if jobs == [] then None
    else
      var last := jobs[|jobs| - 1];
      if last.status == Superseded && id in last.children then Some(last.id)
      else ParentOf(jobs[..|jobs| - 1], id)
  }

  function Link(job: Job, all: seq<Job>): Job {
    if job.parent.None? && ParentOf(all, job.id).Some? then job.(parent := ParentOf(all, job.id)) else job
  }

  function Child(parent: Job, segment: seq<Document>): Job {
    var ids := DocumentIds(segment);
    Job(Extract(parent.page, ids), parent.page, parent.source, ids, Queued, Some(parent.id), [], None, "")
  }

  function Children(parent: Job, segments: seq<seq<Document>>): seq<Job> {
    if segments == [] then [] else [Child(parent, segments[0])] + Children(parent, segments[1..])
  }

  function SplitJob(job: Job, library: Library, max: nat, targets: set<Status>): seq<Job> {
    var segments := Segments(Available(job.evidence, library), max);
    if job.status !in targets || |segments| <= 1 then [job]
    else
      var children := Children(job, segments);
      [job.(status := Superseded, children := JobIds(children))] + children
  }

  function SplitRows(todo: seq<Job>, all: seq<Job>, library: Library, max: nat, targets: set<Status>): seq<Job> {
    if todo == [] then []
    else SplitJob(Link(todo[0], all), library, max, targets) + SplitRows(todo[1..], all, library, max, targets)
  }

  function Split(jobs: seq<Job>, library: Library, max: nat, targets: set<Status>): seq<Job> {
    SplitRows(jobs, jobs, library, max, targets)
  }

  /** None is the error for a limit below one, met at the first row to be segmented. */
  function SplitQueue(jobs: seq<Job>, library: Library, max: int, targets: set<Status>): Option<seq<Job>> {
    if max >= 1 then Some(Split(jobs, library, max, targets))
    else if AnyTarget(jobs, targets) then None
    else Some(Split(jobs, library, 0, targets))
  }

  method SplitOne(job: Job, library: Library, max: int, targets: set<Status>) returns (rows: Option<seq<Job>>)
    ensures rows.None? <==> max < 1 && job.status in targets
    ensures rows.Some? && max >= 1 ==> rows.value == SplitJob(job, library, max, targets)
    ensures rows.Some? && max < 1 ==> rows.value == SplitJob(job, library, 0, targets)
  {
    if job.status !in targets {
      return Some([job]);
    }
    var segments := SplitEvidence(Available(job.evidence, library), max);
    if segments.None? {
      return None;
    }
    if |segments.value| <= 1 {
      return Some([job]);
    }
    var children := Children(job, segments.value);
    rows := Some([job.(status := Superseded, children := JobIds(children))] + children);
  }

  lemma SplitRowsStep(jobs: seq<Job>, i: nat, library: Library, max: nat, targets: set<Status>)
    requires i <= |jobs|
    ensures SplitRows(jobs[i..], jobs, library, max, targets) ==
      if i == |jobs| then []
      else SplitJob(Link(jobs[i], jobs), library, max, targets) + SplitRows(jobs[i + 1..], jobs, library, max, targets)
  {
    hide SplitJob, Link;
    if i < |jobs| {
      assert jobs[i..][0] == jobs[i] && jobs[i..][1..] == jobs[i + 1..];
    }
  }

  predicate AnyTarget(jobs: seq<Job>, targets: set<Status>) {
    exists job :: job in jobs && job.status in targets
  }

  lemma AnyTargetStep(jobs: seq<Job>, i: nat, targets: set<Status>)
    requires i < |jobs|
    ensures AnyTarget(jobs[..i + 1], targets) <==> AnyTarget(jobs[..i], targets) || jobs[i].status in targets
    ensures jobs[i].status in targets ==> AnyTarget(jobs, targets)
  {
    var longer := jobs[..i + 1];
    assert longer == jobs[..i] + [jobs[i]];
    assert jobs[i] in jobs && longer[i] == jobs[i];
    if job :| job in jobs[..i] && job.status in targets {
      assert job in longer;
    }
  }

  /** The rows written so far and those still to come are the whole result. */
  ghost predicate Rewriting(jobs: seq<Job>, i: nat, library: Library, max: nat, targets: set<Status>, rewritten: seq<Job>)
    requires i <= |jobs|
  {
    Split(jobs, library, max, targets) == rewritten + SplitRows(jobs[i..], jobs, library, max, targets)
  }

  lemma RewriteOne(jobs: seq<Job>, i: nat, library: Library, max: nat, targets: set<Status>, rewritten: seq<Job>)
    requires i < |jobs| && Rewriting(jobs, i, library, max, targets, rewritten)
    ensures Rewriting(jobs, i + 1, library, max, targets, rewritten + SplitJob(Link(jobs[i], jobs), library, max, targets))
  {
    hide SplitJob, Link, SplitRows;
    SplitRowsStep(jobs, i, library, max, targets);
  }

  lemma RewriteEnds(jobs: seq<Job>, library: Library, max: nat, targets: set<Status>, rewritten: seq<Job>)
    ensures Rewriting(jobs, 0, library, max, targets, [])
    ensures Rewriting(jobs, |jobs|, library, max, targets, rewritten) ==> rewritten == Split(jobs, library, max, targets)
  {
    hide SplitRows;
    assert jobs[0..] == jobs;
    SplitRowsStep(jobs, |jobs|, library, max, targets);
    assert rewritten + [] == rewritten;
  }

  /** The loop that rewrites the queue. */
  method SplitPending(jobs: seq<Job>, library: Library, max: int, targets: set<Status>) returns (result: Option<seq<Job>>)
    ensures result == SplitQueue(jobs, library, max, targets)
  {
    hide SplitJob, ParentOf, Split, Rewriting, AnyTarget;
    ghost var limit := if max >= 1 then max else 0;
    var rewritten := [];
    assert !AnyTarget(jobs[..0], targets) by { NoTarget(targets); }
    RewriteEnds(jobs, library, limit, targets, rewritten);
    for i := 0 to |jobs|
      invariant Rewriting(jobs, i, library, limit, targets, rewritten)
      invariant max < 1 ==> !AnyTarget(jobs[..i], targets)
    {
      AnyTargetStep(jobs, i, targets);
      RewriteOne(jobs, i, library, limit, targets, rewritten);
      var job := jobs[i];
      var parent := ParentOf(jobs, job.id);
      if job.parent.None? && parent.Some? {
        job := job.(parent := parent);
      }
      assert job == Link(jobs[i], jobs);
      var rows := SplitOne(job, library, max, targets);
      if rows.None? {
        return None;
      }
      rewritten := rewritten + rows.value;
    }
    RewriteEnds(jobs, library, limit, targets, rewritten);
    assert jobs[..|jobs|] == jobs;
    result := Some(rewritten);
  }

  lemma NoTarget(targets: set<Status>)
    ensures !AnyTarget([], targets)
  {
  }

  // --------------------------------------------------------------------- conservation

  function EvidenceOf(jobs: seq<Job>): seq<string> {
    if jobs == [] then [] else jobs[0].evidence + EvidenceOf(jobs[1..])
  }

  lemma {:induction false} DocumentIdsAppend(a: seq<Document>, b: seq<Document>)
    ensures DocumentIds(a + b) == DocumentIds(a) + DocumentIds(b)
  {
    if a == [] {
      assert a + b == b;
    } else {
      assert (a + b)[1..] == a[1..] + b;
      DocumentIdsAppend(a[1..], b);
    }
  }

  lemma {:induction false} ChildrenEvidence(parent: Job, segments: seq<seq<Document>>)
    ensures EvidenceOf(Children(parent, segments)) == DocumentIds(Flatten(segments))
    ensures |Children(parent, segments)| == |segments|
  {
    if segments != [] {
      DocumentIdsAppend(segments[0], Flatten(segments[1..]));
      ChildrenEvidence(parent, segments[1..]);
      assert Children(parent, segments)[1..] == Children(parent, segments[1..]);
    }
  }

  /** Splitting conserves evidence: a split job keeps its own row, marked superseded with
      the ids of its children, and the children carry its available evidence in order. */
  lemma SplitConserves(job: Job, library: Library, max: nat, targets: set<Status>)
    ensures var rows := SplitJob(job, library, max, targets);
      rows != [] && rows[0].id == job.id && rows[0].evidence == job.evidence &&
      (rows != [job] ==> job.status in targets && rows[0].status == Superseded) &&
      (rows != [job] ==> rows[0].children == JobIds(rows[1..])) &&
      (rows != [job] ==> EvidenceOf(rows[1..]) == DocumentIds(Available(job.evidence, library)))
  {
    var docs := Available(job.evidence, library);
    var segments := Segments(docs, max);
    ContinueIsSegmentation([], docs, max);
    assert [] + docs == docs;
    ChildrenEvidence(job, segments);
  }

  // -------------------------------------------------------------------- looking rows up

  /** The first row with the given id. */
  function Find(rows: seq<Job>, id: JobId): Option<Job> {
    if rows == [] then None
    else if rows[0].id == id then Some(rows[0])
    else Find(rows[1..], id)
  }

  lemma {:induction false} FindIsFirst(rows: seq<Job>, id: JobId)
    ensures match Find(rows, id)
      case None => forall row | row in rows :: row.id != id
      case Some(found) => found in rows && found.id == id
  {
    if rows != [] {
      FindIsFirst(rows[1..], id);
    }
  }
}
