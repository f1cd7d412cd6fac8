// What splitting does to the identifiers of the queue, when it is stable, and what it
// conserves.
module JobSplitting {
  import opened Prelude
  import opened Segmentation
  import opened ReviewJobs

  // ---------------------------------------------------------------------- identifiers

  /** The groups into which a job's available evidence is cut. */
  function SegmentsOf(job: Job, library: Library, max: nat): seq<seq<Document>> {
    Segments(Available(job.evidence, library), max)
  }

  /** The job is to be split. */
  predicate Oversized(job: Job, library: Library, max: nat, targets: set<Status>) {
    job.status in targets && |SegmentsOf(job, library, max)| > 1
  }

  /** A child is named by the page and the evidence of its segment alone. */
  function SegmentName(job: Job, segment: seq<Document>): JobId {
    Extract(job.page, DocumentIds(segment))
  }

  function SegmentNames(job: Job, segments: seq<seq<Document>>): seq<JobId> {
    if segments == [] then [] else [SegmentName(job, segments[0])] + SegmentNames(job, segments[1..])
  }

  /** The names that splitting gives out for one job, and for a queue job by job. */
  function NamesFor(job: Job, library: Library, max: nat, targets: set<Status>): seq<JobId> {
    if Oversized(job, library, max, targets) then SegmentNames(job, SegmentsOf(job, library, max)) else []
  }

  function AllNames(jobs: seq<Job>, library: Library, max: nat, targets: set<Status>): seq<seq<JobId>> {
    if jobs == [] then [] else [NamesFor(jobs[0], library, max, targets)] + AllNames(jobs[1..], library, max, targets)
  }

  function Concat(lists: seq<seq<JobId>>): seq<JobId> {
    if lists == [] then [] else lists[0] + Concat(lists[1..])
  }

  lemma {:induction false} JobIdsAppend(a: seq<Job>, b: seq<Job>)
    ensures JobIds(a + b) == JobIds(a) + JobIds(b)
  {
    if a == [] {
      assert a + b == b;
    } else {
      assert (a + b)[1..] == a[1..] + b;
      JobIdsAppend(a[1..], b);
    }
  }

  lemma {:induction false} JobIdsAt(jobs: seq<Job>)
    ensures |JobIds(jobs)| == |jobs| && forall i | 0 <= i < |jobs| :: JobIds(jobs)[i] == jobs[i].id
  {
    if jobs != [] {
      JobIdsAt(jobs[1..]);
      forall i | 1 <= i < |jobs| ensures JobIds(jobs)[i] == jobs[i].id {
        assert JobIds(jobs)[i] == JobIds(jobs[1..])[i - 1];
      }
    }
  }

  lemma {:induction false} ChildrenNames(job: Job, segments: seq<seq<Document>>)
    ensures JobIds(Children(job, segments)) == SegmentNames(job, segments)
  {
    if segments != [] {
      ChildrenNames(job, segments[1..]);
      assert Children(job, segments)[1..] == Children(job, segments[1..]);
    }
  }

  lemma {:induction false} SamePageSameNames(a: Job, b: Job, segments: seq<seq<Document>>)
    requires a.page == b.page
    ensures SegmentNames(a, segments) == SegmentNames(b, segments)
  {
    if segments != [] {
      SamePageSameNames(a, b, segments[1..]);
    }
  }

  /** The rows that replace a job: its own id first, then the names of its segments. */
  lemma SplitJobIds(job: Job, all: seq<Job>, library: Library, max: nat, targets: set<Status>)
    ensures JobIds(SplitJob(Link(job, all), library, max, targets)) == [job.id] + NamesFor(job, library, max, targets)
  {
    hide ParentOf, Segments, Available, Children;
    var linked := Link(job, all);
    var segments := SegmentsOf(job, library, max);
    var rows := SplitJob(linked, library, max, targets);
    ChildrenNames(linked, segments);
    SamePageSameNames(linked, job, segments);
    if Oversized(job, library, max, targets) {
      assert rows[1..] == Children(linked, segments);
    } else {
      assert rows == [linked] && rows[1..] == [];
      assert [job.id] + [] == [job.id];
    }
  }

  lemma {:induction false} SplitRowsIds(todo: seq<Job>, all: seq<Job>, library: Library, max: nat, targets: set<Status>)
    ensures multiset(JobIds(SplitRows(todo, all, library, max, targets)))
         == multiset(JobIds(todo)) + multiset(Concat(AllNames(todo, library, max, targets)))
  {
    hide SplitJob, Link, NamesFor;
    if todo != [] {
      var rest := SplitRows(todo[1..], all, library, max, targets);
      var names, more := NamesFor(todo[0], library, max, targets), AllNames(todo[1..], library, max, targets);
      SplitRowsIds(todo[1..], all, library, max, targets);
      JobIdsAppend(SplitJob(Link(todo[0], all), library, max, targets), rest);
      SplitJobIds(todo[0], all, library, max, targets);
      assert ([names] + more)[1..] == more;
      assert Concat([names] + more) == names + Concat(more);
      assert JobIds(todo) == [todo[0].id] + JobIds(todo[1..]);
    }
  }

  predicate NoRepeats(ids: seq<JobId>) {
    forall i, j | 0 <= i < j < |ids| :: ids[i] != ids[j]
  }

  lemma {:induction false} NoRepeatsCount(ids: seq<JobId>)
    ensures NoRepeats(ids) <==> forall x :: multiset(ids)[x] <= 1
  {
    if ids != [] {
      var first, rest := ids[0], ids[1..];
      assert ids == [first] + rest;
      NoRepeatsCount(rest);
      assert NoRepeats(ids) <==> first !in rest && NoRepeats(rest) by { NoRepeatsCons(first, rest); }
      assert first in rest <==> multiset(rest)[first] >= 1;
      if forall x :: multiset(ids)[x] <= 1 {
        assert multiset(ids)[first] == 1 + multiset(rest)[first];
        forall x ensures multiset(rest)[x] <= 1 {
          assert multiset(ids)[x] >= multiset(rest)[x];
        }
      }
    }
  }

  lemma NoRepeatsCons(first: JobId, rest: seq<JobId>)
    ensures NoRepeats([first] + rest) <==> first !in rest && NoRepeats(rest)
  {
    var ids := [first] + rest;
    if NoRepeats(ids) {
      forall i, j | 0 <= i < j < |rest| ensures rest[i] != rest[j] {
        assert ids[i + 1] == rest[i] && ids[j + 1] == rest[j];
      }
      forall j | 0 <= j < |rest| ensures rest[j] != first {
        assert ids[0] != ids[j + 1];
      }
    }
  }

  lemma NoRepeatsParts(a: seq<JobId>, b: seq<JobId>)
    requires NoRepeats(a + b)
    ensures NoRepeats(a) && NoRepeats(b) && forall x | x in a :: x !in b
  {
    var all := a + b;
    forall i, j | 0 <= i < j < |a| ensures a[i] != a[j] {
      assert all[i] != all[j];
    }
    forall i, j | 0 <= i < j < |b| ensures b[i] != b[j] {
      assert all[|a| + i] != all[|a| + j];
    }
    forall x | x in a ensures x !in b {
      var i :| 0 <= i < |a| && a[i] == x;
      forall j | 0 <= j < |b| ensures b[j] != x {
        assert all[i] != all[|a| + j];
      }
    }
  }

  lemma NoRepeatsAppend(a: seq<JobId>, b: seq<JobId>)
    ensures NoRepeats(a + b) <==> NoRepeats(a) && NoRepeats(b) && forall x | x in a :: x !in b
  {
    if NoRepeats(a + b) {
      NoRepeatsParts(a, b);
    }
    if NoRepeats(a) && NoRepeats(b) && forall x | x in a :: x !in b {
      var all := a + b;
      forall i, j | 0 <= i < j < |all| ensures all[i] != all[j] {
        assert i < |a| ==> all[i] in a;
        assert j >= |a| ==> all[j] in b;
      }
    }
  }

  /** No two positions hold the same name. */
  predicate AllDiffer(lists: seq<seq<JobId>>) {
    forall i, k, j, l | 0 <= i < |lists| && 0 <= k < |lists[i]| && 0 <= j < |lists| && 0 <= l < |lists[j]| && (i != j || k != l) ::
      lists[i][k] != lists[j][l]
  }

  predicate Occurs(lists: seq<seq<JobId>>, x: JobId) {
    exists i :: 0 <= i < |lists| && x in lists[i]
  }

  lemma {:induction false} ConcatMembers(lists: seq<seq<JobId>>, x: JobId)
    ensures x in Concat(lists) <==> Occurs(lists, x)
  {
    if lists != [] {
      ConcatMembers(lists[1..], x);
      if Occurs(lists, x) {
        var i :| 0 <= i < |lists| && x in lists[i];
        assert i > 0 ==> lists[1..][i - 1] == lists[i];
      }
      if Occurs(lists[1..], x) {
        var i :| 0 <= i < |lists[1..]| && x in lists[1..][i];
        assert lists[i + 1] == lists[1..][i];
      }
    }
  }

  lemma DifferParts(first: seq<JobId>, rest: seq<seq<JobId>>)
    requires AllDiffer([first] + rest)
    ensures NoRepeats(first) && AllDiffer(rest) && forall x | x in first :: !Occurs(rest, x)
  {
    var lists := [first] + rest;
    forall k, l | 0 <= k < l < |first| ensures first[k] != first[l] {
      assert lists[0][k] != lists[0][l];
    }
    forall i, k, j, l | 0 <= i < |rest| && 0 <= k < |rest[i]| && 0 <= j < |rest| && 0 <= l < |rest[j]| && (i != j || k != l)
      ensures rest[i][k] != rest[j][l]
    {
      assert lists[i + 1][k] != lists[j + 1][l];
    }
    forall x | x in first ensures !Occurs(rest, x) {
      var k :| 0 <= k < |first| && first[k] == x;
      forall j, l | 0 <= j < |rest| && 0 <= l < |rest[j]| ensures x != rest[j][l] {
        assert lists[0][k] != lists[j + 1][l];
      }
    }
  }

  lemma DifferWhole(first: seq<JobId>, rest: seq<seq<JobId>>)
    requires NoRepeats(first) && AllDiffer(rest) && forall x | x in first :: !Occurs(rest, x)
    ensures AllDiffer([first] + rest)
  {
    var lists := [first] + rest;
    forall i, k, j, l | 0 <= i < |lists| && 0 <= k < |lists[i]| && 0 <= j < |lists| && 0 <= l < |lists[j]| && (i != j || k != l)
      ensures lists[i][k] != lists[j][l]
    {
      if i > 0 && j > 0 {
        assert rest[i - 1][k] != rest[j - 1][l];
      } else if i > 0 {
        FirstIsApart(first, rest, l, i - 1, k);
      } else if j > 0 {
        FirstIsApart(first, rest, k, j - 1, l);
      }
    }
  }

  lemma FirstIsApart(first: seq<JobId>, rest: seq<seq<JobId>>, k: nat, j: nat, l: nat)
    requires (forall x | x in first :: !Occurs(rest, x)) && k < |first| && j < |rest| && l < |rest[j]|
    ensures first[k] != rest[j][l]
  {
    assert first[k] in first && rest[j][l] in rest[j];
  }

  lemma DifferCons(first: seq<JobId>, rest: seq<seq<JobId>>)
    ensures AllDiffer([first] + rest) <==> NoRepeats(first) && AllDiffer(rest) && forall x | x in first :: !Occurs(rest, x)
  {
    hide AllDiffer, NoRepeats, Occurs;
    if AllDiffer([first] + rest) {
      DifferParts(first, rest);
    }
    if NoRepeats(first) && AllDiffer(rest) && forall x | x in first :: !Occurs(rest, x) {
      DifferWhole(first, rest);
    }
  }

  lemma {:induction false} ConcatNoRepeats(lists: seq<seq<JobId>>)
    ensures NoRepeats(Concat(lists)) <==> AllDiffer(lists)
  {
    hide NoRepeats, AllDiffer, Occurs;
    if lists == [] {
      NothingDiffers();
    } else {
      var first, rest := lists[0], lists[1..];
      ConcatNoRepeats(rest);
      NoRepeatsAppend(first, Concat(rest));
      DifferCons(first, rest);
      assert lists == [first] + rest;
      forall x ensures x in Concat(rest) <==> Occurs(rest, x) {
        ConcatMembers(rest, x);
      }
    }
  }

  lemma NothingDiffers()
    ensures NoRepeats([]) && AllDiffer([])
  {
  }

  lemma {:induction false} AllNamesAt(jobs: seq<Job>, library: Library, max: nat, targets: set<Status>)
    ensures |AllNames(jobs, library, max, targets)| == |jobs|
    ensures forall i | 0 <= i < |jobs| :: AllNames(jobs, library, max, targets)[i] == NamesFor(jobs[i], library, max, targets)
  {
    hide NamesFor;
    if jobs != [] {
      var rest := AllNames(jobs[1..], library, max, targets);
      AllNamesAt(jobs[1..], library, max, targets);
      forall i | 1 <= i < |jobs| ensures AllNames(jobs, library, max, targets)[i] == NamesFor(jobs[i], library, max, targets) {
        assert AllNames(jobs, library, max, targets)[i] == rest[i - 1] && jobs[1..][i - 1] == jobs[i];
      }
    }
  }

  lemma {:induction false} SegmentNamesAt(job: Job, segments: seq<seq<Document>>)
    ensures |SegmentNames(job, segments)| == |segments|
    ensures forall k | 0 <= k < |segments| :: SegmentNames(job, segments)[k] == SegmentName(job, segments[k])
  {
    hide SegmentName;
    if segments != [] {
      var rest := SegmentNames(job, segments[1..]);
      SegmentNamesAt(job, segments[1..]);
      forall k | 1 <= k < |segments| ensures SegmentNames(job, segments)[k] == SegmentName(job, segments[k]) {
        assert SegmentNames(job, segments)[k] == rest[k - 1] && segments[1..][k - 1] == segments[k];
      }
    }
  }

  /** `id` is what a segment of an oversized job of the queue would be called. */
  ghost predicate NamesSegment(jobs: seq<Job>, library: Library, max: nat, targets: set<Status>, id: JobId) {
    exists job, g :: job in jobs && Oversized(job, library, max, targets)
              && g in SegmentsOf(job, library, max) && id == SegmentName(job, g)
  }

  /** The k-th segment of the i-th job will become a row. */
  predicate IsSegment(jobs: seq<Job>, library: Library, max: nat, targets: set<Status>, i: nat, k: nat) {
    i < |jobs| && Oversized(jobs[i], library, max, targets) && k < |SegmentsOf(jobs[i], library, max)|
  }

  function SegmentAt(jobs: seq<Job>, library: Library, max: nat, targets: set<Status>, i: nat, k: nat): JobId
    requires IsSegment(jobs, library, max, targets, i, k)
  {
    SegmentName(jobs[i], SegmentsOf(jobs[i], library, max)[k])
  }

  /** No two segments of oversized jobs share page and document ids. */
  ghost predicate SegmentsDiffer(jobs: seq<Job>, library: Library, max: nat, targets: set<Status>) {
    forall i: nat, k: nat, j: nat, l: nat | IsSegment(jobs, library, max, targets, i, k)
        && IsSegment(jobs, library, max, targets, j, l) && (i != j || k != l) ::
      SegmentAt(jobs, library, max, targets, i, k) != SegmentAt(jobs, library, max, targets, j, l)
  }

  lemma NameIsSegment(jobs: seq<Job>, library: Library, max: nat, targets: set<Status>, i: nat, k: nat)
    ensures var names := AllNames(jobs, library, max, targets);
      |names| == |jobs| &&
      (IsSegment(jobs, library, max, targets, i, k) <==> i < |names| && k < |names[i]|) &&
      (i < |names| && k < |names[i]| ==> names[i][k] == SegmentAt(jobs, library, max, targets, i, k))
  {
    hide SegmentsOf, SegmentName;
    AllNamesAt(jobs, library, max, targets);
    if i < |jobs| {
      SegmentNamesAt(jobs[i], SegmentsOf(jobs[i], library, max));
    }
  }

  lemma SegmentsDifferIff(jobs: seq<Job>, library: Library, max: nat, targets: set<Status>)
    ensures SegmentsDiffer(jobs, library, max, targets) <==> AllDiffer(AllNames(jobs, library, max, targets))
  {
    hide IsSegment, SegmentAt, AllNames;
    forall i: nat, k: nat
      ensures var names := AllNames(jobs, library, max, targets);
        |names| == |jobs| &&
        (IsSegment(jobs, library, max, targets, i, k) <==> i < |names| && k < |names[i]|) &&
        (i < |names| && k < |names[i]| ==> names[i][k] == SegmentAt(jobs, library, max, targets, i, k))
    {
      NameIsSegment(jobs, library, max, targets, i, k);
    }
  }

  lemma NamesSegmentIff(jobs: seq<Job>, library: Library, max: nat, targets: set<Status>, id: JobId)
    ensures NamesSegment(jobs, library, max, targets, id) <==> id in Concat(AllNames(jobs, library, max, targets))
  {
    hide SegmentsOf, SegmentName, Concat, AllNames;
    var names := AllNames(jobs, library, max, targets);
    ConcatMembers(names, id);
    AllNamesAt(jobs, library, max, targets);
    if NamesSegment(jobs, library, max, targets, id) {
      var job, g :| job in jobs && Oversized(job, library, max, targets)
        && g in SegmentsOf(job, library, max) && id == SegmentName(job, g);
      var i :| 0 <= i < |jobs| && jobs[i] == job;
      SegmentNamesAt(job, SegmentsOf(job, library, max));
      var k :| 0 <= k < |SegmentsOf(job, library, max)| && SegmentsOf(job, library, max)[k] == g;
      assert names[i][k] == id;
    }
    if Occurs(names, id) {
      var i :| 0 <= i < |names| && id in names[i];
      SegmentNamesAt(jobs[i], SegmentsOf(jobs[i], library, max));
      var k :| 0 <= k < |names[i]| && names[i][k] == id;
      assert jobs[i] in jobs && SegmentsOf(jobs[i], library, max)[k] in SegmentsOf(jobs[i], library, max);
    }
  }

  /** No row is called like a segment to come. */
  ghost predicate NoRowTaken(jobs: seq<Job>, library: Library, max: nat, targets: set<Status>) {
    forall row | row in jobs :: !NamesSegment(jobs, library, max, targets, row.id)
  }

  lemma DistinctIffNoRepeats(jobs: seq<Job>)
    ensures DistinctIds(jobs) <==> NoRepeats(JobIds(jobs))
  {
    hide JobIds;
    JobIdsAt(jobs);
  }

  lemma RowIdsListed(jobs: seq<Job>, id: JobId)
    ensures id in JobIds(jobs) <==> exists row :: row in jobs && row.id == id
  {
    hide JobIds;
    JobIdsAt(jobs);
    if id in JobIds(jobs) {
      var i :| 0 <= i < |jobs| && JobIds(jobs)[i] == id;
      assert jobs[i] in jobs;
    }
    if row :| row in jobs && row.id == id {
      var i :| 0 <= i < |jobs| && jobs[i] == row;
      assert JobIds(jobs)[i] == id;
    }
  }

  /** The split queue has distinct ids if and only if the queue has, no row is already
      called like a segment of an oversized targeted job, and no two such segments share
      page and documents. */
  lemma SplitDistinctIff(jobs: seq<Job>, library: Library, max: nat, targets: set<Status>)
    ensures DistinctIds(Split(jobs, library, max, targets)) <==>
      DistinctIds(jobs) && NoRowTaken(jobs, library, max, targets) && SegmentsDiffer(jobs, library, max, targets)
  {
    hide DistinctIds, JobIds, AllNames, Concat, NoRepeats, SegmentsDiffer, AllDiffer, NamesSegment;
    var result := Split(jobs, library, max, targets);
    var names := Concat(AllNames(jobs, library, max, targets));
    var ids := JobIds(jobs) + names;
    SplitRowsIds(jobs, jobs, library, max, targets);
    DistinctIffNoRepeats(result);
    DistinctIffNoRepeats(jobs);
    NoRepeatsCount(JobIds(result));
    NoRepeatsCount(ids);
    assert multiset(ids) == multiset(JobIds(result));
    NoRepeatsAppend(JobIds(jobs), names);
    ConcatNoRepeats(AllNames(jobs, library, max, targets));
    SegmentsDifferIff(jobs, library, max, targets);
    forall id ensures NamesSegment(jobs, library, max, targets, id) <==> id in names {
      NamesSegmentIff(jobs, library, max, targets, id);
    }
    forall id ensures id in JobIds(jobs) <==> exists row :: row in jobs && row.id == id {
      RowIdsListed(jobs, id);
    }
  }

  /** One completed job for the first of two documents, and an oversized queued job for
      both. */
  function CollidingQueue(page: string, a: string, b: string): seq<Job> {
    [Job(Extract(page, [a, b]), page, "main_story", [a, b], Queued, None, [], None, ""),
     Job(Extract(page, [a]), page, "main_story", [a], Completed, None, [], None, "")]
  }

  lemma CollidingSegments(page: string, a: string, b: string, library: Library, max: nat)
    requires a in library && b in library && |library[a]| + |library[b]| > max
    ensures var big := CollidingQueue(page, a, b)[0];
      Oversized(big, library, max, {Queued, Failed})
      && exists g :: g in SegmentsOf(big, library, max) && SegmentName(big, g) == Extract(page, [a])
  {
    var docs := [Document(a, library[a]), Document(b, library[b])];
    assert Available([b], library) == [docs[1]] by { assert [b][1..] == []; }
    assert Available([a, b], library) == docs by { assert [a, b][1..] == [b]; }
    assert Total([docs[0]]) == |library[a]| by { TotalSnoc([], docs[0]); assert [] + [docs[0]] == [docs[0]]; }
    assert Continue([docs[1]], [], max) == [[docs[1]]];
    assert Continue([docs[0]], [docs[1]], max) == [[docs[0]], [docs[1]]] by { assert [docs[1]][1..] == []; }
    var segments := Segments(docs, max);
    assert segments == [[docs[0]], [docs[1]]] by { assert [] + [docs[0]] == [docs[0]] && docs[1..] == [docs[1]]; }
    assert DocumentIds([docs[0]]) == [a] by { assert [docs[0]][1..] == []; }
    var big := CollidingQueue(page, a, b)[0];
    assert SegmentsOf(big, library, max) == segments && [docs[0]] in segments;
    assert SegmentName(big, [docs[0]]) == Extract(page, [a]);
  }

  lemma CollidingNames(page: string, a: string, b: string, library: Library, max: nat)
    requires a in library && b in library && |library[a]| + |library[b]| > max
    ensures NamesSegment(CollidingQueue(page, a, b), library, max, {Queued, Failed}, Extract(page, [a]))
  {
    hide Oversized, SegmentsOf, SegmentName;
    CollidingSegments(page, a, b, library, max);
    assert CollidingQueue(page, a, b)[0] in CollidingQueue(page, a, b);
  }

  /** Such a collision is reachable: a queue with distinct ids whose split repeats one. */
  lemma SplitCanCollide(page: string, a: string, b: string, library: Library, max: nat)
    requires a in library && b in library && |library[a]| + |library[b]| > max
    ensures var jobs := CollidingQueue(page, a, b);
      DistinctIds(jobs) && !DistinctIds(Split(jobs, library, max, {Queued, Failed}))
  {
    hide NamesSegment, Split, SegmentsDiffer;
    var jobs := CollidingQueue(page, a, b);
    CollidingNames(page, a, b, library, max);
    assert jobs[1] in jobs && jobs[1].id == Extract(page, [a]);
    SplitDistinctIff(jobs, library, max, {Queued, Failed});
  }

  // ------------------------------------------------------------------- second split

  lemma {:induction false} AvailableOfIds(docs: seq<Document>, library: Library)
    requires forall d | d in docs :: d.id in library && library[d.id] == d.text
    ensures Available(DocumentIds(docs), library) == docs
  {
    if docs != [] {
      AvailableOfIds(docs[1..], library);
      assert docs == [docs[0]] + docs[1..];
    }
  }

  lemma {:induction false} AvailableIsKnown(evidence: seq<string>, library: Library)
    ensures forall d | d in Available(evidence, library) :: d.id in library && library[d.id] == d.text
  {
    if evidence != [] {
      AvailableIsKnown(evidence[1..], library);
    }
  }

  lemma {:induction false} FlattenMembers(groups: seq<seq<Document>>, g: seq<Document>)
    requires g in groups
    ensures forall d | d in g :: d in Flatten(groups)
  {
    if groups[0] != g {
      FlattenMembers(groups[1..], g);
    }
  }

  lemma {:induction false} ChildrenMembers(parent: Job, segments: seq<seq<Document>>, row: Job)
    requires row in Children(parent, segments)
    ensures exists g :: g in segments && row == Child(parent, g)
    ensures row.id in JobIds(Children(parent, segments))
  {
    if row == Child(parent, segments[0]) {
      assert segments[0] in segments;
    } else {
      ChildrenMembers(parent, segments[1..], row);
      assert Children(parent, segments)[1..] == Children(parent, segments[1..]);
    }
  }

  /** A row of a split job is not split again. */
  lemma RowStays(job: Job, library: Library, max: nat, targets: set<Status>, row: Job)
    requires Superseded !in targets && row in SplitJob(job, library, max, targets)
    ensures SplitJob(row, library, max, targets) == [row]
  {
    var docs := Available(job.evidence, library);
    var segments := Segments(docs, max);
    if row.status != Superseded && job.status in targets && |segments| > 1 {
      ChildrenMembers(job, segments, row);
      var g :| g in segments && row == Child(job, g);
      ContinueIsSegmentation([], docs, max);
      assert [] + docs == docs && Allowed(g, max);
      FlattenMembers(segments, g);
      AvailableIsKnown(job.evidence, library);
      AvailableOfIds(g, library);
      assert [] + g == g;
      AllowedStaysWhole([], g, max);
    }
  }

  lemma {:induction false} RowOrigin(todo: seq<Job>, all: seq<Job>, library: Library, max: nat, targets: set<Status>, row: Job)
    requires row in SplitRows(todo, all, library, max, targets)
    ensures exists q :: q in todo && row in SplitJob(Link(q, all), library, max, targets)
  {
    if row in SplitJob(Link(todo[0], all), library, max, targets) {
      assert todo[0] in todo;
    } else {
      RowOrigin(todo[1..], all, library, max, targets, row);
    }
  }

  lemma {:induction false} RowsArePlaced(todo: seq<Job>, all: seq<Job>, library: Library, max: nat, targets: set<Status>, q: Job)
    requires q in todo
    ensures forall row | row in SplitJob(Link(q, all), library, max, targets) :: row in SplitRows(todo, all, library, max, targets)
  {
    if q != todo[0] {
      RowsArePlaced(todo[1..], all, library, max, targets, q);
    }
  }

  lemma {:induction false} ParentIsListed(jobs: seq<Job>, id: JobId)
    ensures ParentOf(jobs, id).Some? <==> exists s :: s in jobs && s.status == Superseded && id in s.children
  {
    if jobs != [] {
      var last := jobs[|jobs| - 1];
      ParentIsListed(jobs[..|jobs| - 1], id);
      assert jobs == jobs[..|jobs| - 1] + [last];
    }
  }

  /** The row has no parent and no superseded row lists it. */
  ghost predicate Unlinked(jobs: seq<Job>, row: Job) {
    row.parent.None? && forall s | s in jobs && s.status == Superseded :: row.id !in s.children
  }

  lemma UnlinkedStays(jobs: seq<Job>, row: Job)
    ensures Unlinked(jobs, row) <==> row.parent.None? && ParentOf(jobs, row.id).None?
    ensures Link(row, jobs) == row || !Unlinked(jobs, row)
    ensures Link(row, jobs).parent.None? <==> Unlinked(jobs, row)
  {
    hide ParentOf;
    ParentIsListed(jobs, row.id);
  }

  /** A row without a parent descends from an unlinked row of the same id. */
  lemma UnlinkedOrigin(jobs: seq<Job>, library: Library, max: nat, targets: set<Status>, row: Job)
    requires row in Split(jobs, library, max, targets) && row.parent.None?
    ensures exists q :: q in jobs && q.id == row.id && Unlinked(jobs, q)
  {
    hide ParentOf, Segments, Available, Unlinked;
    RowOrigin(jobs, jobs, library, max, targets, row);
    var q :| q in jobs && row in SplitJob(Link(q, jobs), library, max, targets);
    var linked := Link(q, jobs);
    var segments := Segments(Available(linked.evidence, library), max);
    if row in Children(linked, segments) {
      ChildrenMembers(linked, segments, row);
      assert false;
    }
    assert linked.parent.None? && row.id == q.id;
    UnlinkedStays(jobs, q);
  }

  /** A superseded row that a job is rewritten to is the job as it was, or its parent row. */
  lemma SupersededRow(job: Job, library: Library, max: nat, targets: set<Status>, s: Job)
    requires s in SplitJob(job, library, max, targets) && s.status == Superseded
    ensures s == job || (Oversized(job, library, max, targets) && s.children == JobIds(Children(job, SegmentsOf(job, library, max))))
  {
    hide Segments, Available;
    var segments := SegmentsOf(job, library, max);
    if s in Children(job, segments) {
      ChildrenMembers(job, segments, s);
      assert false;
    }
  }

  /** A superseded row of the split queue lists what one of the queue listed, or names of
      segments. */
  lemma ListerOrigin(jobs: seq<Job>, library: Library, max: nat, targets: set<Status>, s: Job, id: JobId)
    requires s in Split(jobs, library, max, targets) && s.status == Superseded && id in s.children
    ensures (exists p :: p in jobs && p.status == Superseded && id in p.children) || NamesSegment(jobs, library, max, targets, id)
  {
    hide ParentOf, Segments, Available, SplitRows, SegmentName, Children, SplitJob;
    RowOrigin(jobs, jobs, library, max, targets, s);
    var p :| p in jobs && s in SplitJob(Link(p, jobs), library, max, targets);
    var linked := Link(p, jobs);
    var segments := SegmentsOf(p, library, max);
    SupersededRow(linked, library, max, targets, s);
    if s == linked {
      assert p.status == Superseded && id in p.children;
    } else {
      ChildrenNames(linked, segments);
      SamePageSameNames(linked, p, segments);
      SegmentNamesAt(p, segments);
      var k :| 0 <= k < |segments| && SegmentNames(p, segments)[k] == id;
      assert segments[k] in segments;
    }
  }

  lemma NotTakenStays(jobs: seq<Job>, library: Library, max: nat, targets: set<Status>, row: Job)
    requires forall r | r in jobs && Unlinked(jobs, r) :: !NamesSegment(jobs, library, max, targets, r.id)
    requires row in Split(jobs, library, max, targets)
    ensures Link(row, Split(jobs, library, max, targets)) == row
  {
    hide Split, NamesSegment, ParentOf;
    var once := Split(jobs, library, max, targets);
    ParentIsListed(once, row.id);
    if row.parent.None? && ParentOf(once, row.id).Some? {
      UnlinkedOrigin(jobs, library, max, targets, row);
      var s :| s in once && s.status == Superseded && row.id in s.children;
      ListerOrigin(jobs, library, max, targets, s, row.id);
    }
  }

  /** An unlinked row called like a segment gains a parent link in the second split. */
  lemma TakenIsLinked(jobs: seq<Job>, library: Library, max: nat, targets: set<Status>, r: Job)
    requires r in jobs && Unlinked(jobs, r) && NamesSegment(jobs, library, max, targets, r.id)
    ensures var once := Split(jobs, library, max, targets);
      exists row :: row in once && Link(row, once) != row
  {
    hide ParentOf, Segments, Available, Unlinked, SplitRows, SplitJob, SegmentName, Link;
    var once := Split(jobs, library, max, targets);
    var job, g :| job in jobs && Oversized(job, library, max, targets)
      && g in SegmentsOf(job, library, max) && r.id == SegmentName(job, g);
    UnlinkedStays(jobs, r);
    RowsArePlaced(jobs, jobs, library, max, targets, r);
    RowsArePlaced(jobs, jobs, library, max, targets, job);
    var segments := SegmentsOf(job, library, max);
    var s := ParentRow(job, jobs, library, max, targets);
    SegmentNamesAt(job, segments);
    var k :| 0 <= k < |segments| && segments[k] == g;
    assert s.children[k] == r.id && s in once;
    ParentIsListed(once, r.id);
    var row := FirstRow(r, library, max, targets);
    assert row in once && row.parent.None? && ParentOf(once, row.id).Some?;
    LinksUnlinked(row, once);
  }

  lemma LinksUnlinked(row: Job, all: seq<Job>)
    requires row.parent.None? && ParentOf(all, row.id).Some?
    ensures Link(row, all) != row
  {
    hide ParentOf;
  }

  /** The superseded row of a split job. */
  lemma ParentRow(job: Job, all: seq<Job>, library: Library, max: nat, targets: set<Status>) returns (s: Job)
    requires Oversized(job, library, max, targets)
    ensures s in SplitJob(Link(job, all), library, max, targets) && s.status == Superseded
    ensures s.children == SegmentNames(job, SegmentsOf(job, library, max))
  {
    hide ParentOf, Segments, Available, Children;
    var linked, segments := Link(job, all), SegmentsOf(job, library, max);
    ChildrenNames(linked, segments);
    SamePageSameNames(linked, job, segments);
    s := SplitJob(linked, library, max, targets)[0];
  }

  lemma FirstRow(r: Job, library: Library, max: nat, targets: set<Status>) returns (row: Job)
    ensures row in SplitJob(r, library, max, targets) && row.parent == r.parent && row.id == r.id
  {
    hide Segments, Available, Children;
    row := SplitJob(r, library, max, targets)[0];
  }

  lemma StaysWhenLinked(row: Job, all: seq<Job>, library: Library, max: nat, targets: set<Status>)
    requires SplitJob(row, library, max, targets) == [row]
    ensures SplitJob(Link(row, all), library, max, targets) == [Link(row, all)]
  {
    hide ParentOf, Segments, Available;
    if Oversized(row, library, max, targets) {
      ChildrenEvidence(row, SegmentsOf(row, library, max));
    }
  }

  /** A split that splits nothing adds parent links at most. */
  lemma {:induction false} OnlyLinks(todo: seq<Job>, all: seq<Job>, library: Library, max: nat, targets: set<Status>)
    requires forall row | row in todo :: SplitJob(row, library, max, targets) == [row]
    ensures var rows := SplitRows(todo, all, library, max, targets);
      |rows| == |todo| && forall i | 0 <= i < |todo| :: rows[i] == Link(todo[i], all)
  {
    hide SplitJob, Link;
    if todo != [] {
      assert todo[0] in todo;
      StaysWhenLinked(todo[0], all, library, max, targets);
      OnlyLinks(todo[1..], all, library, max, targets);
      var rows := SplitRows(todo, all, library, max, targets);
      assert rows == [Link(todo[0], all)] + SplitRows(todo[1..], all, library, max, targets);
      forall i | 1 <= i < |todo| ensures rows[i] == Link(todo[i], all) {
        assert rows[i] == SplitRows(todo[1..], all, library, max, targets)[i - 1] && todo[1..][i - 1] == todo[i];
      }
    }
  }

  lemma SplitRowsStaySplit(jobs: seq<Job>, library: Library, max: nat, targets: set<Status>)
    requires Superseded !in targets
    ensures forall row | row in Split(jobs, library, max, targets) :: SplitJob(row, library, max, targets) == [row]
  {
    hide SplitJob, Link;
    forall row | row in Split(jobs, library, max, targets) ensures SplitJob(row, library, max, targets) == [row] {
      RowOrigin(jobs, jobs, library, max, targets, row);
      var q :| q in jobs && row in SplitJob(Link(q, jobs), library, max, targets);
      RowStays(Link(q, jobs), library, max, targets, row);
    }
  }

  /** A second split changes no row if and only if no unlinked row of the queue is called
      like a segment of an oversized targeted job. */
  lemma SplitTwiceIff(jobs: seq<Job>, library: Library, max: nat, targets: set<Status>)
    requires Superseded !in targets
    ensures var once := Split(jobs, library, max, targets);
      (Split(once, library, max, targets) == once) <==>
      (forall r | r in jobs && Unlinked(jobs, r) :: !NamesSegment(jobs, library, max, targets, r.id))
  {
    hide SplitJob, Link, Unlinked, NamesSegment, SplitRows;
    var once := Split(jobs, library, max, targets);
    var twice := Split(once, library, max, targets);
    SplitRowsStaySplit(jobs, library, max, targets);
    OnlyLinks(once, once, library, max, targets);
    if r :| r in jobs && Unlinked(jobs, r) && NamesSegment(jobs, library, max, targets, r.id) {
      TakenIsLinked(jobs, library, max, targets, r);
      var row :| row in once && Link(row, once) != row;
      var i :| 0 <= i < |once| && once[i] == row;
      assert twice[i] != once[i];
    } else {
      forall i | 0 <= i < |once| ensures twice[i] == once[i] {
        assert once[i] in once;
        NotTakenStays(jobs, library, max, targets, once[i]);
      }
    }
  }

  /** In particular, a split that leaves distinct ids is stable. */
  lemma SplitIsIdempotent(jobs: seq<Job>, library: Library, max: nat, targets: set<Status>)
    requires Superseded !in targets && DistinctIds(Split(jobs, library, max, targets))
    ensures var once := Split(jobs, library, max, targets);
      Split(once, library, max, targets) == once
  {
    hide Split, NamesSegment, DistinctIds, SegmentsDiffer;
    SplitDistinctIff(jobs, library, max, targets);
    SplitTwiceIff(jobs, library, max, targets);
  }

  /** Distinct ids in the queue do not suffice: the second split of the colliding queue
      gives the completed row a parent. */
  lemma SecondSplitCanChange(page: string, a: string, b: string, library: Library, max: nat)
    requires a in library && b in library && |library[a]| + |library[b]| > max
    ensures var jobs := CollidingQueue(page, a, b);
      var once := Split(jobs, library, max, {Queued, Failed});
      DistinctIds(jobs) && Split(once, library, max, {Queued, Failed}) != once
  {
    hide NamesSegment, Split;
    var jobs := CollidingQueue(page, a, b);
    CollidingNames(page, a, b, library, max);
    assert jobs[1] in jobs && Unlinked(jobs, jobs[1]) && jobs[1].id == Extract(page, [a]);
    SplitTwiceIff(jobs, library, max, {Queued, Failed});
  }

  // ------------------------------------------------------------- conservation in the queue

  /** The rows that ids point to. */
  function RowsNamed(rows: seq<Job>, ids: seq<JobId>): seq<Job> {
    if ids == [] then []
    else
      var row := Find(rows, ids[0]);
      (if row.Some? then [row.value] else []) + RowsNamed(rows, ids[1..])
  }

  lemma FindDistinct(rows: seq<Job>, row: Job)
    requires DistinctIds(rows) && row in rows
    ensures Find(rows, row.id) == Some(row)
  {
    hide Find;
    FindIsFirst(rows, row.id);
    var found := Find(rows, row.id);
    if found.Some? {
      var i :| 0 <= i < |rows| && rows[i] == row;
      var j :| 0 <= j < |rows| && rows[j] == found.value;
    }
  }

  lemma {:induction false} RowsNamedAre(rows: seq<Job>, some: seq<Job>)
    requires DistinctIds(rows) && forall row | row in some :: row in rows
    ensures RowsNamed(rows, JobIds(some)) == some
  {
    hide Find, DistinctIds;
    if some != [] {
      assert some[0] in some;
      FindDistinct(rows, some[0]);
      RowsNamedAre(rows, some[1..]);
      assert JobIds(some)[1..] == JobIds(some[1..]);
      assert [some[0]] + some[1..] == some;
    }
  }

  /** Following the child ids of a split parent through the rewritten queue gives rows
      that together carry exactly its available evidence, in order. */
  lemma QueueConserves(jobs: seq<Job>, library: Library, max: nat, targets: set<Status>, job: Job)
    requires DistinctIds(Split(jobs, library, max, targets))
    requires job in jobs && Oversized(job, library, max, targets)
    ensures var rows := Split(jobs, library, max, targets);
      exists parent :: parent in rows && parent.id == job.id && parent.status == Superseded
        && EvidenceOf(RowsNamed(rows, parent.children)) == DocumentIds(Available(job.evidence, library))
  {
    hide ParentOf, Segments, Available, Children, RowsNamed, EvidenceOf, DistinctIds, SplitRows;
    var rows := Split(jobs, library, max, targets);
    var linked := Link(job, jobs);
    var mine := SplitJob(linked, library, max, targets);
    SplitConserves(linked, library, max, targets);
    RowsArePlaced(jobs, jobs, library, max, targets, job);
    assert |mine| > 1 by {
      ChildrenEvidence(linked, SegmentsOf(job, library, max));
    }
    assert mine[0] in mine && forall row | row in mine[1..] :: row in mine;
    RowsNamedAre(rows, mine[1..]);
    assert mine[0] in rows;
  }

}
