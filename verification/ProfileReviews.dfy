// Rebuilding persona profiles without losing annotations or earlier evidence.
module ProfileReviews {
  import opened Prelude

  /** A stored profile.  `notes` are the fields the builder only initialises, among them
      the review status; `sources` are the other fields that every build refreshes. */
  datatype Profile = Profile(id: string, evidence: Option<Evidence>, sources: map<string, string>,
                             notes: map<string, string>, history: seq<Evidence>, changed: bool, missing: bool)

  /** What one build produces for a profile. */
  datatype Fresh = Fresh(id: string, evidence: Evidence, sources: map<string, string>, notes: map<string, string>)

  /** Document ids by bucket. */
  type Evidence = map<string, seq<string>>

  function Find(rows: seq<Profile>, id: string): Option<Profile> {
    if rows == [] then None
    else if rows[0].id == id then Some(rows[0])
    else Find(rows[1..], id)
  }

  function Without(rows: seq<Profile>, id: string): seq<Profile> {
    if rows == [] then []
    else if rows[0].id == id then Without(rows[1..], id)
    else [rows[0]] + Without(rows[1..], id)
  }

  function Former(prior: Profile): Evidence {
    if prior.evidence.Some? then prior.evidence.value else map[]
  }

  /** A build meets a stored profile. */
  function Combine(prior: Profile, latest: Fresh): Profile {
    var merged := Profile(latest.id, Some(latest.evidence), prior.sources + latest.sources, latest.notes + prior.notes,
                          prior.history, prior.changed, prior.missing);
    if prior.evidence == Some(latest.evidence) then merged
    else merged.(history := if Former(prior) in prior.history then prior.history else prior.history + [Former(prior)],
                 changed := true)
  }

  function Introduce(latest: Fresh): Profile {
    Profile(latest.id, Some(latest.evidence), latest.sources, latest.notes, [], false, false)
  }

  function MarkMissing(rows: seq<Profile>): seq<Profile> {
    if rows == [] then [] else [rows[0].(missing := true)] + MarkMissing(rows[1..])
  }

  function Place(rows: seq<Profile>, latest: Fresh): Profile {
    var prior := Find(rows, latest.id);
    if prior.Some? then Combine(prior.value, latest) else Introduce(latest)
  }

  function Merge(previous: seq<Profile>, built: seq<Fresh>): seq<Profile>
    decreases |built|
  {
    if built == [] then MarkMissing(previous)
    else [Place(previous, built[0])] + Merge(Without(previous, built[0].id), built[1..])
  }

  predicate Distinct(rows: seq<Profile>) {
    forall i, j | 0 <= i < j < |rows| :: rows[i].id != rows[j].id
  }

  predicate DistinctBuilt(built: seq<Fresh>) {
    forall i, j | 0 <= i < j < |built| :: built[i].id != built[j].id
  }

  /** None is the error for a stored file with a repeated profile id. */
  function Preserve(previous: seq<Profile>, built: seq<Fresh>): Option<seq<Profile>> {
    if Distinct(previous) then Some(Merge(previous, built)) else None
  }

  lemma MergeStep(rows: seq<Profile>, built: seq<Fresh>, i: nat)
    requires i <= |built|
    ensures Merge(rows, built[i..]) ==
      if i == |built| then MarkMissing(rows)
      else [Place(rows, built[i])] + Merge(Without(rows, built[i].id), built[i + 1..])
  {
    hide Place, Without, MarkMissing;
    if i < |built| {
      assert built[i..][0] == built[i] && built[i..][1..] == built[i + 1..];
    }
  }

  /** A stored profile meets its fresh sources. */
  method Refresh(known: Profile, latest: Fresh) returns (combined: Profile)
    ensures combined == Combine(known, latest)
  {
    combined := Profile(latest.id, Some(latest.evidence), known.sources + latest.sources, latest.notes + known.notes,
                        known.history, known.changed, known.missing);
    if known.evidence != Some(latest.evidence) {
      var history := known.history;
      var evidence := Former(known);
      if evidence !in history {
        history := history + [evidence];
      }
      combined := combined.(history := history, changed := true);
    }
  }

  /** The loop that pops each rebuilt profile from the stored ones. */
  method PreserveProfiles(previous: seq<Profile>, built: seq<Fresh>) returns (merged: Option<seq<Profile>>)
    ensures merged == Preserve(previous, built)
  {
    hide Merge, Without, MarkMissing, Find, Distinct, Combine, Introduce;
    if !Distinct(previous) {
      return None;
    }
    var left, done := previous, [];
    assert built[0..] == built;
    for i := 0 to |built|
      invariant Merge(previous, built) == done + Merge(left, built[i..])
    {
      MergeStep(left, built, i);
      var latest := built[i];
      var prior := Find(left, latest.id);
      var row := Introduce(latest);
      if prior.Some? {
        row := Refresh(prior.value, latest);
      }
      done := done + [row];
      left := Without(left, latest.id);
    }
    MergeStep(left, built, |built|);
    merged := Some(done + MarkMissing(left));
  }

  // ------------------------------------------------------------------------ one build

  /** The profile is there and still knows an evidence value and every annotation of `prior`. */
  predicate Carries(row: Profile, id: string, evidence: Evidence) {
    row.id == id && (row.evidence == Some(evidence) || evidence in row.history)
  }

  ghost predicate Known(rows: seq<Profile>, id: string, evidence: Evidence) {
    exists row :: row in rows && Carries(row, id, evidence)
  }

  lemma {:induction false} FindIsFirst(rows: seq<Profile>, id: string)
    ensures match Find(rows, id)
      case None => forall row | row in rows :: row.id != id
      case Some(found) => found in rows && found.id == id
  {
    if rows != [] {
      FindIsFirst(rows[1..], id);
    }
  }

  lemma {:induction false} WithoutKeeps(rows: seq<Profile>, id: string)
    ensures forall row :: row in Without(rows, id) <==> row in rows && row.id != id
  {
    if rows != [] {
      WithoutKeeps(rows[1..], id);
    }
  }

  lemma {:induction false} WithoutDistinct(rows: seq<Profile>, id: string)
    requires Distinct(rows)
    ensures Distinct(Without(rows, id))
  {
    hide Distinct;
    if rows == [] {
      assert Without(rows, id) == rows;
    } else {
      var first, rest := rows[0], Without(rows[1..], id);
      assert rows == [first] + rows[1..];
      DistinctCons(first, rows[1..]);
      WithoutDistinct(rows[1..], id);
      WithoutKeeps(rows[1..], id);
      DistinctCons(first, rest);
    }
  }

  lemma {:induction false} MissingRows(rows: seq<Profile>, row: Profile)
    requires row in rows
    ensures row.(missing := true) in MarkMissing(rows)
  {
    if row != rows[0] {
      MissingRows(rows[1..], row);
    }
  }

  /** The row that replaces `prior` in the next build keeps its id, its annotations and
      every evidence value it ever carried. */
  ghost predicate Continues(prior: Profile, row: Profile) {
    && row.id == prior.id
    && (forall key | key in prior.notes :: key in row.notes && row.notes[key] == prior.notes[key])
    && (forall evidence | Carries(prior, prior.id, evidence) :: Carries(row, prior.id, evidence))
  }

  /** No profile disappears: every stored row is continued by a row of the merge. */
  lemma {:induction false} ProfileContinues(previous: seq<Profile>, built: seq<Fresh>, prior: Profile)
    requires Distinct(previous) && prior in previous
    ensures exists row :: row in Merge(previous, built) && Continues(prior, row)
    decreases |built|
  {
    if built == [] {
      MissingRows(previous, prior);
      assert Continues(prior, prior.(missing := true));
    } else if built[0].id == prior.id {
      FindIsFirst(previous, prior.id);
      assert Find(previous, prior.id).value == prior;
      assert Continues(prior, Place(previous, built[0]));
    } else {
      WithoutKeeps(previous, built[0].id);
      WithoutDistinct(previous, built[0].id);
      ProfileContinues(Without(previous, built[0].id), built[1..], prior);
    }
  }

  lemma {:induction false} BuiltIsPresent(previous: seq<Profile>, built: seq<Fresh>, latest: Fresh)
    requires latest in built
    ensures Known(Merge(previous, built), latest.id, latest.evidence)
    decreases |built|
  {
    if latest == built[0] {
      assert Place(previous, latest) in Merge(previous, built);
    } else {
      var left := Without(previous, built[0].id);
      BuiltIsPresent(left, built[1..], latest);
      var row :| row in Merge(left, built[1..]) && Carries(row, latest.id, latest.evidence);
      assert row in Merge(previous, built);
    }
  }

  lemma {:induction false} FindElsewhere(rows: seq<Profile>, gone: string, id: string)
    requires gone != id
    ensures Find(Without(rows, gone), id) == Find(rows, id)
  {
    if rows != [] {
      FindElsewhere(rows[1..], gone, id);
      if rows[0].id != gone {
        assert Without(rows, gone)[1..] == Without(rows[1..], gone);
      }
    }
  }

  /** The row of a profile that was built: the source fields are the new ones, a changed
      evidence value is flagged for review, and the flags otherwise stay.  In particular a
      profile that was missing once keeps that flag when its sources return. */
  lemma {:induction false} BuiltRow(previous: seq<Profile>, built: seq<Fresh>, latest: Fresh)
    requires DistinctBuilt(built) && latest in built
    ensures var prior := Find(previous, latest.id);
      exists row :: row in Merge(previous, built) && row.id == latest.id
        && row.evidence == Some(latest.evidence)
        && (forall key | key in latest.sources :: key in row.sources && row.sources[key] == latest.sources[key])
        && row.missing == (prior.Some? && prior.value.missing)
        && row.changed == (prior.Some? && (prior.value.changed || prior.value.evidence != Some(latest.evidence)))
    decreases |built|
  {
    var first, rest := built[0], built[1..];
    assert built == [first] + rest;
    DistinctBuiltCons(first, rest);
    if latest == first {
      assert Place(previous, latest) in Merge(previous, built);
    } else {
      FindElsewhere(previous, first.id, latest.id);
      BuiltRow(Without(previous, first.id), rest, latest);
      assert Merge(previous, built) == [Place(previous, first)] + Merge(Without(previous, first.id), rest);
    }
  }

  // ------------------------------------------------------------------- the whole merge

  /** The one map over the other: its keys win. */
  predicate Overlaid(result: map<string, string>, under: map<string, string>, over: map<string, string>) {
    && result.Keys == under.Keys + over.Keys
    && forall key | key in result :: result[key] == if key in over then over[key] else under[key]
  }

  /** A stored profile after a build that names it.  Built source fields win over stored ones,
      stored notes over built ones.  Only changed evidence goes to the history, once, an empty
      one for a profile that had none, and is flagged; both flags stay. */
  predicate Refreshed(prior: Profile, latest: Fresh, row: Profile) {
    && row.id == prior.id == latest.id
    && row.evidence == Some(latest.evidence)
    && Overlaid(row.sources, prior.sources, latest.sources)
    && Overlaid(row.notes, latest.notes, prior.notes)
    && row.missing == prior.missing
    && match prior.evidence
       case Some(e) =>
         && (e == latest.evidence ==> row.history == prior.history && row.changed == prior.changed)
         && (e != latest.evidence ==> row.changed && Recorded(row.history, prior.history, e))
       case None => row.changed && Recorded(row.history, prior.history, map[])
  }

  predicate Recorded(history: seq<Evidence>, before: seq<Evidence>, former: Evidence) {
    (former in before && history == before) || (former !in before && history == before + [former])
  }

  /** A profile that was not stored. */
  predicate Initial(latest: Fresh, row: Profile) {
    && row.id == latest.id && row.evidence == Some(latest.evidence)
    && row.sources == latest.sources && row.notes == latest.notes
    && row.history == [] && !row.changed && !row.missing
  }

  lemma CombineRefreshes(prior: Profile, latest: Fresh)
    requires prior.id == latest.id
    ensures Refreshed(prior, latest, Combine(prior, latest))
  {
  }

  predicate Named(built: seq<Fresh>, id: string) {
    exists f :: f in built && f.id == id
  }

  lemma MissingAt(rows: seq<Profile>, i: nat)
    requires i < |rows|
    ensures |MarkMissing(rows)| == |rows| && MarkMissing(rows)[i] == rows[i].(missing := true)
  {
    if i > 0 {
      MissingAt(rows[1..], i - 1);
    } else if |rows| > 1 {
      MissingAt(rows[1..], 0);
    }
  }

  /** A build is refused exactly when the stored file repeats a profile. */
  lemma PreserveIff(previous: seq<Profile>, built: seq<Fresh>)
    ensures var merged := Preserve(previous, built);
      && (merged.None? <==> exists i, j :: 0 <= i < j < |previous| && previous[i].id == previous[j].id)
      && (merged.Some? ==> merged.value == Merge(previous, built))
  {
    hide Merge;
  }

  /** First the built profiles in the order of the build: each one is its stored profile
      refreshed, or new when none is stored. */
  lemma {:induction false} BuiltRowsAre(previous: seq<Profile>, built: seq<Fresh>, i: nat)
    requires Distinct(previous) && DistinctBuilt(built) && i < |built|
    ensures i < |Merge(previous, built)|
    ensures forall prior | prior in previous && prior.id == built[i].id :: Refreshed(prior, built[i], Merge(previous, built)[i])
    ensures (forall prior | prior in previous :: prior.id != built[i].id) ==> Initial(built[i], Merge(previous, built)[i])
    decreases |built|
  {
    hide Refreshed, Initial, Combine, Introduce;
    var first, rest := built[0], built[1..];
    assert built == [first] + rest;
    DistinctBuiltCons(first, rest);
    var left := Without(previous, first.id);
    WithoutKeeps(previous, first.id);
    WithoutDistinct(previous, first.id);
    FindIsFirst(previous, first.id);
    if i > 0 {
      BuiltRowsAre(left, rest, i - 1);
      assert built[i] in rest;
      assert Merge(previous, built)[i] == Merge(left, rest)[i - 1];
    } else {
      var prior := Find(previous, first.id);
      if prior.Some? {
        CombineRefreshes(prior.value, first);
      } else {
        InitialIs(first);
      }
    }
  }

  lemma InitialIs(latest: Fresh)
    ensures Initial(latest, Introduce(latest))
  {
  }

  /** The stored profiles that the build does not name, in their order. */
  function Unbuilt(previous: seq<Profile>, built: seq<Fresh>): seq<Profile> {
    if previous == [] then []
    else if Named(built, previous[0].id) then Unbuilt(previous[1..], built)
    else [previous[0]] + Unbuilt(previous[1..], built)
  }

  lemma {:induction false} UnbuiltWithout(previous: seq<Profile>, first: Fresh, rest: seq<Fresh>)
    ensures Unbuilt(Without(previous, first.id), rest) == Unbuilt(previous, [first] + rest)
  {
    if previous != [] {
      UnbuiltWithout(previous[1..], first, rest);
      var row := previous[0];
      assert Named([first] + rest, row.id) <==> first.id == row.id || Named(rest, row.id) by {
        assert first in [first] + rest && forall f :: f in [first] + rest <==> f == first || f in rest;
      }
      if row.id != first.id {
        assert Without(previous, first.id)[1..] == Without(previous[1..], first.id);
      }
    }
  }

  lemma {:induction false} NoneBuilt(previous: seq<Profile>)
    ensures Unbuilt(previous, []) == previous
  {
    if previous != [] {
      NoneBuilt(previous[1..]);
    }
  }

  /** After them the stored profiles that the build does not name, in their order and
      unaltered but for the mark. */
  lemma {:induction false} UnbuiltRowsAre(previous: seq<Profile>, built: seq<Fresh>)
    ensures |Merge(previous, built)| == |built| + |Unbuilt(previous, built)|
    ensures forall i | 0 <= i < |Unbuilt(previous, built)| ::
      Merge(previous, built)[|built| + i] == Unbuilt(previous, built)[i].(missing := true)
    decreases |built|
  {
    hide Place;
    if built == [] {
      NoneBuilt(previous);
      MissingIds(previous);
      IdsAt(previous);
      IdsAt(MarkMissing(previous));
      forall i | 0 <= i < |previous| ensures MarkMissing(previous)[i] == previous[i].(missing := true) {
        MissingAt(previous, i);
      }
    } else {
      var left := Without(previous, built[0].id);
      UnbuiltWithout(previous, built[0], built[1..]);
      assert built == [built[0]] + built[1..];
      UnbuiltRowsAre(left, built[1..]);
    }
  }

  // --------------------------------------------------------------- repeated identifiers

  function Ids(rows: seq<Profile>): seq<string> {
    if rows == [] then [] else [rows[0].id] + Ids(rows[1..])
  }

  lemma {:induction false} MissingIds(rows: seq<Profile>)
    ensures Ids(MarkMissing(rows)) == Ids(rows)
  {
    if rows != [] {
      MissingIds(rows[1..]);
      assert MarkMissing(rows)[1..] == MarkMissing(rows[1..]);
    }
  }

  lemma {:induction false} IdsAt(rows: seq<Profile>)
    ensures |Ids(rows)| == |rows| && forall i | 0 <= i < |rows| :: Ids(rows)[i] == rows[i].id
  {
    if rows != [] {
      IdsAt(rows[1..]);
      forall i | 1 <= i < |rows| ensures Ids(rows)[i] == rows[i].id {
        assert Ids(rows)[i] == Ids(rows[1..])[i - 1];
      }
    }
  }

  lemma MissingDistinct(rows: seq<Profile>)
    requires Distinct(rows)
    ensures Distinct(MarkMissing(rows))
  {
    MissingIds(rows);
    IdsAt(rows);
    IdsAt(MarkMissing(rows));
  }

  lemma {:induction false} MissingOrigin(rows: seq<Profile>, row: Profile)
    requires row in MarkMissing(rows)
    ensures exists prior :: prior in rows && prior.id == row.id
  {
    if row == MarkMissing(rows)[0] {
      assert rows[0] in rows;
    } else {
      assert row in MarkMissing(rows[1..]);
      MissingOrigin(rows[1..], row);
    }
  }

  lemma {:induction false} MergeOrigin(previous: seq<Profile>, built: seq<Fresh>, row: Profile)
    requires row in Merge(previous, built)
    ensures (exists prior :: prior in previous && prior.id == row.id) || (exists f :: f in built && f.id == row.id)
    decreases |built|
  {
    if built == [] {
      MissingOrigin(previous, row);
    } else if row == Place(previous, built[0]) {
      assert built[0] in built;
    } else {
      var left := Without(previous, built[0].id);
      WithoutKeeps(previous, built[0].id);
      MergeOrigin(left, built[1..], row);
      if prior :| prior in left && prior.id == row.id {
        assert prior in previous;
      }
    }
  }

  lemma DistinctCons(first: Profile, rest: seq<Profile>)
    ensures Distinct([first] + rest) <==> Distinct(rest) && forall row | row in rest :: row.id != first.id
  {
    var rows := [first] + rest;
    assert forall k | 0 <= k < |rest| :: rows[k + 1] == rest[k];
    if Distinct(rows) {
      forall i, j | 0 <= i < j < |rest| ensures rest[i].id != rest[j].id {
        assert rows[i + 1].id != rows[j + 1].id;
      }
      forall row | row in rest ensures row.id != first.id {
        var k :| 0 <= k < |rest| && rest[k] == row;
        assert rows[0].id != rows[k + 1].id;
      }
    }
  }

  lemma DistinctBuiltCons(first: Fresh, rest: seq<Fresh>)
    ensures DistinctBuilt([first] + rest) <==> DistinctBuilt(rest) && forall f | f in rest :: f.id != first.id
  {
    var built := [first] + rest;
    assert forall k | 0 <= k < |rest| :: built[k + 1] == rest[k];
    if DistinctBuilt(built) {
      forall i, j | 0 <= i < j < |rest| ensures rest[i].id != rest[j].id {
        assert built[i + 1].id != built[j + 1].id;
      }
      forall f | f in rest ensures f.id != first.id {
        var k :| 0 <= k < |rest| && rest[k] == f;
        assert built[0].id != built[k + 1].id;
      }
    }
  }

  /** The stored file stays readable for the next build if and only if this build names no
      profile twice. */
  lemma {:induction false} MergeDistinctIff(previous: seq<Profile>, built: seq<Fresh>)
    requires Distinct(previous)
    ensures Distinct(Merge(previous, built)) <==> DistinctBuilt(built)
    decreases |built|
  {
    if built == [] {
      MissingDistinct(previous);
    } else {
      var first, rest := built[0], built[1..];
      var left := Without(previous, first.id);
      assert built == [first] + rest;
      WithoutKeeps(previous, first.id);
      WithoutDistinct(previous, first.id);
      MergeDistinctIff(left, rest);
      DistinctCons(Place(previous, first), Merge(left, rest));
      DistinctBuiltCons(first, rest);
      FindIsFirst(previous, first.id);
      if f :| f in rest && f.id == first.id {
        BuiltIsPresent(left, rest, f);
      } else {
        forall row | row in Merge(left, rest) ensures row.id != first.id {
          MergeOrigin(left, rest, row);
        }
      }
    }
  }

  // --------------------------------------------------------------------- many builds

  /** A sequence of builds over the stored file; a refused build leaves it as it was. */
  function Builds(rows: seq<Profile>, builds: seq<seq<Fresh>>): seq<Profile>
    decreases |builds|
  {
    if builds == [] then rows
    else
      var merged := Preserve(rows, builds[0]);
      Builds(if merged.Some? then merged.value else rows, builds[1..])
  }

  lemma ContinuesTransitive(a: Profile, b: Profile, c: Profile)
    requires Continues(a, b) && Continues(b, c)
    ensures Continues(a, c)
  {
  }

  /** Over any sequence of builds each naming a profile at most once, every stored profile
      lives on with its annotations and all the evidence it ever carried. */
  lemma {:induction false} ProfilesOutliveBuilds(rows: seq<Profile>, builds: seq<seq<Fresh>>, prior: Profile)
    requires Distinct(rows) && prior in rows && forall b | b in builds :: DistinctBuilt(b)
    ensures exists row :: row in Builds(rows, builds) && Continues(prior, row)
    decreases |builds|
  {
    if builds == [] {
      assert Continues(prior, prior);
    } else {
      var next := Merge(rows, builds[0]);
      assert builds[0] in builds;
      MergeDistinctIff(rows, builds[0]);
      ProfileContinues(rows, builds[0], prior);
      var mid :| mid in next && Continues(prior, mid);
      ProfilesOutliveBuilds(next, builds[1..], mid);
      var row :| row in Builds(next, builds[1..]) && Continues(mid, row);
      ContinuesTransitive(prior, mid, row);
    }
  }

  /** Every evidence value that any build ever gave a profile is its current one or is in
      its evidence history at the end. */
  lemma {:induction false} EvidenceIsNeverLost(rows: seq<Profile>, builds: seq<seq<Fresh>>, k: nat, latest: Fresh)
    requires Distinct(rows) && forall b | b in builds :: DistinctBuilt(b)
    requires k < |builds| && latest in builds[k]
    ensures Known(Builds(rows, builds), latest.id, latest.evidence)
    decreases |builds|
  {
    var next := Merge(rows, builds[0]);
    assert builds[0] in builds;
    MergeDistinctIff(rows, builds[0]);
    if k > 0 {
      EvidenceIsNeverLost(next, builds[1..], k - 1, latest);
    } else {
      BuiltIsPresent(rows, builds[0], latest);
      var mid :| mid in next && Carries(mid, latest.id, latest.evidence);
      ProfilesOutliveBuilds(next, builds[1..], mid);
      var row :| row in Builds(next, builds[1..]) && Continues(mid, row);
      assert Carries(row, latest.id, latest.evidence);
    }
  }

  lemma FirstBuild(rows: seq<Profile>, built: seq<Fresh>, p: Fresh)
    requires rows == [] && built == [p]
    ensures Merge(rows, built) == [Introduce(p)]
  {
    assert Find(rows, p.id) == None && Without(rows, p.id) == rows && MarkMissing(rows) == [];
    assert built[1..] == [];
    assert Merge(rows, built[1..]) == [];
  }

  lemma NextBuild(rows: seq<Profile>, built: seq<Fresh>, row: Profile, p: Fresh)
    requires rows == [row] && row.id == p.id
    ensures built == [] ==> Merge(rows, built) == [row.(missing := true)]
    ensures built == [p] ==> Merge(rows, built) == [Combine(row, p)]
  {
    assert rows[1..] == [];
    assert Without(rows[1..], p.id) == [] && MarkMissing(rows[1..]) == [];
    if built == [p] {
      assert built[1..] == [];
      assert Merge(rows[1..], built[1..]) == [];
    }
  }

  /** A profile that leaves the sources and comes back unchanged is still marked missing
      after the third build. */
  lemma MissingMarkStays(p: Fresh)
    ensures Builds([], [[p], [], [p]]) == [Introduce(p).(missing := true)]
  {
    hide Merge;
    var none: seq<Profile> := [];
    var first, marked := [Introduce(p)], [Introduce(p).(missing := true)];
    var one: seq<Fresh> := [p];
    var builds := [one, [], one];
    FirstBuild(none, one, p);
    NextBuild(first, [], first[0], p);
    NextBuild(marked, one, marked[0], p);
    assert Combine(marked[0], p) == marked[0];
    assert builds[1..] == [[], one] && builds[2..] == [one] && builds[1..][1..] == builds[2..] && builds[2..][1..] == [];
    assert Builds(marked, builds[2..]) == marked;
    assert Builds(first, builds[1..]) == marked;
    assert Builds(none, builds) == marked;
  }
}
