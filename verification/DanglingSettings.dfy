// A restored slot reads its settings from the anchor it came from.  What retiring that
// anchor does, and how a host gets there.
module DanglingSettings {
  import opened Prelude
  import opened ReleaseModel
  import opened Baselines
  import opened Retention
  import opened RestoreCrash

  // ------------------------------------------------ what the restored slot depends on

  ghost predicate NamesAnchor(env: Environment, id: AnchorId) {
    exists leaf :: leaf in env.settings && PointsInto(env.settings[leaf], id)
  }

  /** Retiring an anchor keeps a slot's settings readable if and only if the slot's
      environment does not point into that anchor. */
  lemma RetireReadable(h: Host, id: AnchorId, backedUp: bool, env: Environment)
    requires Retire(h, Id(id), backedUp).ok && Readable(h, env)
    ensures Readable(Retire(h, Id(id), backedUp).host, env) <==> !NamesAnchor(env, id)
  {
    var h' := Retire(h, Id(id), backedUp).host;
    forall leaf | leaf in env.settings
      ensures ReadSource(h', env.settings[leaf]).Some? <==> !PointsInto(env.settings[leaf], id)
    {
      assert ReadSource(h, env.settings[leaf]).Some?;
    }
  }

  /** The id names the slot's present environment file. */
  ghost predicate OfEnvironment(id: AnchorId, slot: Slot) {
    slot.environment.Some? && id.identity.hashes.environment == Sha256(slot.environment.value)
  }

  lemma ArchiveOfEnvironment(h: Host, c: Colour)
    ensures Archive(h, c).id.Some? ==> OfEnvironment(Archive(h, c).id.value, SlotOf(h, c))
  {
  }

  lemma {:induction false} ArchiveEachOfEnvironment(h: Host, active: Colour, todo: seq<Colour>,
                                                    found: map<Colour, AnchorId>, budget: nat)
    requires forall c | c in found :: OfEnvironment(found[c], SlotOf(h, c))
    ensures var p := ArchiveEach(h, active, todo, found, budget);
      p.ok ==> forall c | c in p.found :: OfEnvironment(p.found[c], SlotOf(h, c))
    decreases |todo|
  {
    hide Archive, OfEnvironment;
    if todo != [] && budget > 0 {
      var c := todo[0];
      if SlotOf(h, c).marker.None? {
        ArchiveEachOfEnvironment(h, active, todo[1..], found, budget - 1);
      } else {
        var s := Archive(h, c);
        ArchiveGrows(h, c);
        ArchiveOfEnvironment(h, c);
        if s.id.Some? {
          assert forall d :: SlotOf(s.host, d) == SlotOf(h, d);
          ArchiveEachOfEnvironment(s.host, active, todo[1..], found[c := s.id.value], budget - 1);
        }
      }
    }
  }

  /** A successful archive_colours writes an index whose ids name the slots' environments,
      and changes nothing but the index and the anchors directory. */
  lemma IndexOfEnvironments(h: Host, stop: nat)
    requires ArchiveColours(h, stop).ok
    ensures var h' := ArchiveColours(h, stop).host;
      Grows(h, h') && h' == h.(anchors := h'.anchors, index := h'.index) && h'.index.Some? &&
      h'.index.value.active in h'.index.value.colours.Values &&
      forall c | c in h'.index.value.colours :: OfEnvironment(h'.index.value.colours[c], SlotOf(h, c))
  {
    var active := ActiveRelease(h).value.colour;
    ArchiveEachGrows(h, active, COLOURS, map[], stop);
    ArchiveEachOfEnvironment(h, active, COLOURS, map[], stop);
    assert active in COLOURS by { assert COLOURS[0] == Blue && COLOURS[1] == Green; }
    hide Archive, ArchiveEach, ActiveRelease;
  }

  lemma OwnEnvironment(h: Host, id: AnchorId, slot: Slot)
    requires Genuine(h) && Id(id) in h.anchors && OfEnvironment(id, slot)
    ensures !NamesAnchor(slot.environment.value, id)
  {
    var d := h.anchors[Id(id)];
    assert GenuineDir(id, d) && d.files.environment == slot.environment.value;
  }

  /** A slot whose environment points into an anchor, after that slot has been indexed: the
      index names the slot's own new anchor, so the first one is unprotected unless it is an
      active baseline or indexed for the other colour. */
  ghost predicate PointsOutside(h: Host, id: AnchorId, c: Colour) {
    && Genuine(h) && InstalledAnchor(h, id) && Id(id) !in h.retired && id !in ActiveBaselines(h.registry)
    && IndexIsFresh(h) && h.index.value.active in h.index.value.colours.Values
    && h.index.value.colours[Other(c)] != id
    && OfEnvironment(h.index.value.colours[c], SlotOf(h, c))
    && NamesAnchor(SlotOf(h, c).environment.value, id)
  }

  /** The retention rules allow exactly that: such an anchor, backed up, can be retired, and
      the slot can then no longer be archived, because its settings files are gone. */
  lemma RetireCanDangle(h: Host, id: AnchorId, c: Colour)
    requires PointsOutside(h, id, c)
    ensures Retire(h, Id(id), true).ok && !Archivable(Retire(h, Id(id), true).host, c)
  {
    hide GenuineDir, MarkerAgrees, NamesAnchor, VerifyAnchor;
    IndexLeavesUnprotected(h, id, c);
    RetiredSettingsMissing(Retire(h, Id(id), true).host, id, c);
  }

  lemma IndexLeavesUnprotected(h: Host, id: AnchorId, c: Colour)
    requires PointsOutside(h, id, c)
    ensures id !in Protected(h)
  {
    hide GenuineDir, MarkerAgrees, NamesAnchor, VerifyAnchor;
    if h.index.value.colours[c] == id {
      OwnEnvironment(h, id, SlotOf(h, c));
    }
    forall d | d in h.index.value.colours ensures h.index.value.colours[d] != id {
      assert d == c || d == Other(c);
    }
  }

  // ------------------------------------------------------------------ how it comes about

  /** The id under which archive_colours saves a colour, the blue slot first. */
  function SavedId(h: Host, c: Colour): Option<AnchorId> {
    if c == Blue then Archive(h, Blue).id else Archive(Archive(h, Blue).host, Green).id
  }

  lemma SavedCommit(h: Host, c: Colour)
    requires SavedId(h, c).Some?
    ensures var marker := SlotOf(h, c).marker;
      marker.Some? && |marker.value| == 4 && SavedId(h, c).value.commit == marker.value[1]
  {
    hide IsCommit, IsImageDigest, ConfigurationRoot, Readable, VerifyAnchor;
    ArchiveGrows(h, Blue);
  }

  lemma NoMarkerNoChange(h: Host, c: Colour)
    ensures SlotOf(h, c).marker.None? ==> Archive(h, c) == Archived(h, None)
  {
  }

  /** The two rounds of the loop over the colours. */
  lemma FirstRound(h: Host, active: Colour)
    ensures ArchiveEach(h, active, COLOURS, map[], 3) ==
      if SlotOf(h, Blue).marker.None? then
        (if active == Blue then Progress(h, false, map[]) else ArchiveEach(h, active, [Green], map[], 2))
      else if Archive(h, Blue).id.None? then Progress(Archive(h, Blue).host, false, map[])
      else ArchiveEach(Archive(h, Blue).host, active, [Green], map[Blue := Archive(h, Blue).id.value], 2)
  {
    hide Archive;
    assert COLOURS[0] == Blue && COLOURS[1..] == [Green];
    var s := Archive(h, Blue);
    if s.id.Some? {
      assert map[][Blue := s.id.value] == map[Blue := s.id.value];
    }
  }

  lemma LastRound(h: Host, active: Colour, found: map<Colour, AnchorId>)
    ensures ArchiveEach(h, active, [Green], found, 2) ==
      if SlotOf(h, Green).marker.None? then
        (if active == Green then Progress(h, false, found) else Progress(h, true, found))
      else if Archive(h, Green).id.None? then Progress(Archive(h, Green).host, false, found)
      else Progress(Archive(h, Green).host, true, found[Green := Archive(h, Green).id.value])
  {
    hide Archive;
    assert [Green][1..] == [];
  }

  /** The map holds the saved id of every slot that has a marker. */
  ghost predicate FoundSaved(h: Host, found: map<Colour, AnchorId>) {
    && (forall c: Colour :: c in found <==> SlotOf(h, c).marker.Some?)
    && (forall c: Colour | c in found :: SavedId(h, c) == Some(found[c]))
  }

  /** The loop passes when every slot with a marker is saved and the active one has a
      marker; it has then found exactly the ids of the slots with markers. */
  lemma LoopVerdict(h: Host, active: Colour)
    ensures var p := ArchiveEach(h, active, COLOURS, map[], 3);
      (p.ok <==> SlotOf(h, active).marker.Some? && forall c: Colour :: SlotOf(h, c).marker.Some? ==> SavedId(h, c).Some?) &&
      (p.ok ==> FoundSaved(h, p.found))
  {
    hide Archive, ArchiveEach, OnlyAnchorsGrow;
    var first := Archive(h, Blue);
    ArchiveKeepsSlot(h, Green);
    ArchiveNeedsMarker(h, Blue);
    NoMarkerNoChange(h, Blue);
    FirstRound(h, active);
    if first.id.Some? {
      LastRound(first.host, active, map[Blue := first.id.value]);
    } else {
      LastRound(h, active, map[]);
    }
    BothColours(h);
  }

  lemma ArchiveKeepsSlot(h: Host, c: Colour)
    ensures SlotOf(Archive(h, Blue).host, c) == SlotOf(h, c)
  {
    hide Archive;
    ArchiveGrows(h, Blue);
  }

  lemma BothColours(h: Host)
    ensures (forall c: Colour :: SlotOf(h, c).marker.Some? ==> SavedId(h, c).Some?) <==>
      (SlotOf(h, Blue).marker.Some? ==> SavedId(h, Blue).Some?) && (SlotOf(h, Green).marker.Some? ==> SavedId(h, Green).Some?)
  {
    hide SavedId;
    if (SlotOf(h, Blue).marker.Some? ==> SavedId(h, Blue).Some?) && (SlotOf(h, Green).marker.Some? ==> SavedId(h, Green).Some?) {
      forall c: Colour | SlotOf(h, c).marker.Some? ensures SavedId(h, c).Some? {
        match c
        case Blue =>
        case Green =>
      }
    }
  }

  /** What a successful archive_colours indexes, in terms of the host before. */
  lemma IndexedIds(h: Host)
    requires ArchiveColours(h, 3).ok
    ensures var h' := ArchiveColours(h, 3).host;
      h'.index.Some? && FoundSaved(h, h'.index.value.colours)
  {
    hide ArchiveEach, ActiveRelease, SavedId;
    LoopVerdict(h, ActiveRelease(h).value.colour);
  }

  /** The new index is fresh exactly when both slots have a marker. */
  lemma IndexIsFreshIff(h: Host)
    requires ArchiveColours(h, 3).ok
    ensures IndexIsFresh(ArchiveColours(h, 3).host) <==> forall c: Colour :: SlotOf(h, c).marker.Some?
  {
    hide ArchiveColours, SavedId;
    var h' := ArchiveColours(h, 3).host;
    IndexedIds(h);
    IndexOfEnvironments(h, 3);
    forall c: Colour | SlotOf(h, c).marker.Some?
      ensures |SlotOf(h, c).marker.value| == 4 && h'.index.value.colours[c].commit == SlotOf(h, c).marker.value[1]
    {
      SavedCommit(h, c);
    }
    forall c: Colour ensures SlotOf(h', c) == SlotOf(h, c) {
    }
  }

  /** Archiving after a restore leads there exactly when the anchor is neither retired nor
      an active baseline, both slots have a marker and the other one is not saved under
      the anchor's id. */
  lemma IndexingPointsOutside(h: Host, id: AnchorId, c: Colour)
    requires Genuine(h) && ArchiveColours(h, 3).ok && InstalledAnchor(h, id)
    requires SlotOf(h, c).environment.Some? && NamesAnchor(SlotOf(h, c).environment.value, id)
    ensures PointsOutside(ArchiveColours(h, 3).host, id, c) <==>
      && Id(id) !in h.retired && id !in ActiveBaselines(h.registry)
      && (forall d: Colour :: SlotOf(h, d).marker.Some?) && SavedId(h, Other(c)) != Some(id)
  {
    hide ArchiveColours, GenuineDir, NamesAnchor, VerifyAnchor, OfEnvironment, IndexIsFresh, SavedId, Genuine;
    var h' := ArchiveColours(h, 3).host;
    IndexOfEnvironments(h, 3);
    IndexedIds(h);
    IndexIsFreshIff(h);
    GrowsKeeps(h, h');
    StepGenuine(h, OpArchive(3));
    ApplyArchive(h);
    assert SlotOf(h', c) == SlotOf(h, c);
    if forall d: Colour :: SlotOf(h, d).marker.Some? {
      FreshHasBoth(h', c);
    }
  }

  lemma FreshHasBoth(h: Host, c: Colour)
    requires IndexIsFresh(h)
    ensures h.index.Some? && c in h.index.value.colours && Other(c) in h.index.value.colours
  {
  }

  lemma ApplyArchive(h: Host)
    ensures Apply(h, OpArchive(3)) == ArchiveColours(h, 3).host
  {
  }

  /** Two slots that each can be archived can be archived together. */
  lemma BothArchivable(h: Host)
    requires Genuine(h) && ActiveRelease(h).Some? && forall c: Colour :: Archivable(h, c)
    ensures ArchiveColours(h, 3).ok
  {
    hide Archive, ArchiveEach, ActiveRelease, Archivable, Genuine;
    var h1 := Archive(h, Blue).host;
    ArchiveSucceeds(h, Blue);
    ArchiveGenuine(h, Blue);
    ArchiveGrows(h, Blue);
    StaysArchivable(h, h1, Green);
    ArchiveSucceeds(h1, Green);
    ArchivableHasMarker(h, Blue);
    ArchivableHasMarker(h, Green);
    ArchivableHasMarker(h, ActiveRelease(h).value.colour);
    LoopVerdict(h, ActiveRelease(h).value.colour);
    BothColours(h);
  }

  lemma ArchivableHasMarker(h: Host, c: Colour)
    ensures Archivable(h, c) ==> SlotOf(h, c).marker.Some? && |SlotOf(h, c).marker.value| == 4
  {
  }

  lemma StaysArchivable(h: Host, h': Host, c: Colour)
    requires Grows(h, h') && SlotOf(h', c) == SlotOf(h, c) && h'.settings == h.settings && Archivable(h, c)
    ensures Archivable(h', c)
  {
    hide MarkerAgrees;
    var env := SlotOf(h, c).environment.value;
    forall leaf | leaf in env.settings ensures ReadSource(h', env.settings[leaf]).Some? {
      assert ReadSource(h, env.settings[leaf]).Some?;
    }
  }

  /** Every host on which a restore of an anchor with settings files and then archiving
      succeed gets there, provided that the anchor is neither retired nor an active baseline
      and that the other slot holds another commit.  All retention guarantees still hold,
      retiring the anchor is accepted, and the slot is then lost to archiving. */
  lemma RestoreThenRetire(h: Host, id: AnchorId, c: Colour)
    requires Genuine(h) && RollbackReady(h) && Restore(h, id, c, WRITES + 1).ok
    requires ArchiveColours(Restore(h, id, c, WRITES + 1).host, 3).ok
    requires h.anchors[Id(id)].Anchor? && h.anchors[Id(id)].files.settings != map[]
    requires Id(id) !in h.retired && id !in ActiveBaselines(h.registry) && OtherCommit(h, id, c)
    ensures var indexed := Run(h, [OpRestore(id, c, WRITES + 1), OpArchive(3)]);
      Genuine(indexed) && RollbackReady(indexed) && PointsOutside(indexed, id, c)
    ensures var retired := Run(h, [OpRestore(id, c, WRITES + 1), OpArchive(3), OpRetire(Id(id), true)]);
      RollbackReady(retired) && Id(id) !in retired.anchors && !Archivable(retired, c)
  {
    hide Restore, Archive, ArchiveColours, Archivable, Genuine, RollbackReady, Restorable, PointsOutside, SavedId, Retire, OtherCommit;
    var h1 := Restore(h, id, c, WRITES + 1).host;
    var h2 := ArchiveColours(h1, 3).host;
    RunOfTwo(h, OpRestore(id, c, WRITES + 1), OpArchive(3));
    RunOfThree(h, OpRestore(id, c, WRITES + 1), OpArchive(3), OpRetire(Id(id), true));
    RestoreReady(h, id, c, WRITES + 1);
    ArchiveColoursReady(h1, 3);
    RestoreGenuine(h, id, c, WRITES + 1);
    StepGenuine(h1, OpArchive(3));
    ApplyArchive(h1);
    RestoreNamesAnchor(h, id, c);
    RestoreLeaves(h, id, c);
    RestoredSlotHasMarker(h, id, c);
    OtherSavedElsewhere(h, h1, id, c);
    IndexingPointsOutside(h1, id, c);
    RetireCanDangle(h2, id, c);
    RetireReady(h2, Id(id), true);
    RetiredIsGone(h2, id);
  }

  /** The slot of the other colour holds another commit than the anchor. */
  predicate OtherCommit(h: Host, id: AnchorId, c: Colour) {
    var marker := SlotOf(h, Other(c)).marker;
    marker.Some? && |marker.value| >= 2 && marker.value[1] != id.commit
  }

  lemma RestoredSlotHasMarker(h: Host, id: AnchorId, c: Colour)
    requires Restore(h, id, c, WRITES + 1).ok
    ensures SlotOf(Restore(h, id, c, WRITES + 1).host, c).marker.Some?
  {
    hide Restore;
    RestoredHost(h, id, c);
  }

  lemma RunOfTwo(h: Host, a: Op, b: Op)
    ensures Run(h, [a, b]) == Apply(Apply(h, a), b)
  {
    hide Apply;
    assert [a, b][1..] == [b] && [b][1..] == [];
    assert Run(Apply(h, a), [b]) == Apply(Apply(h, a), b);
  }

  lemma RunOfThree(h: Host, a: Op, b: Op, c: Op)
    ensures Run(h, [a, b, c]) == Apply(Apply(Apply(h, a), b), c)
  {
    hide Apply;
    assert [a, b, c][1..] == [b, c];
    RunOfTwo(Apply(h, a), b, c);
  }

  lemma RetiredIsGone(h: Host, id: AnchorId)
    requires Retire(h, Id(id), true).ok
    ensures Id(id) !in Retire(h, Id(id), true).host.anchors
  {
  }

  /** What a restore leaves as it was. */
  lemma RestoreLeaves(h: Host, id: AnchorId, c: Colour)
    ensures var h' := Restore(h, id, c, WRITES + 1).host;
      && h'.retired == h.retired && h'.registry == h.registry && h'.settings == h.settings && Grows(h, h')
      && ActiveRelease(h') == ActiveRelease(h) && SlotOf(h', Other(c)) == SlotOf(h, Other(c))
  {
    hide Restore, ActiveRelease;
    RestoreKeepsOther(h, id, c, WRITES + 1, Other(c));
    OnlySlotsAndAnchors(h, id, c);
    var h' := Restore(h, id, c, WRITES + 1).host;
    SlotsDoNotMatter(h, h');
  }

  lemma OnlySlotsAndAnchors(h: Host, id: AnchorId, c: Colour)
    ensures var h' := Restore(h, id, c, WRITES + 1).host;
      Grows(h, h') && h' == h.(anchors := h'.anchors, slots := h'.slots)
  {
    hide Archive, Restorable, RestoredSlot, Written, InstalledAnchor;
    ArchiveGrows(h, c);
  }

  lemma SlotsDoNotMatter(h: Host, h': Host)
    requires h' == h.(anchors := h'.anchors, slots := h'.slots)
    ensures ActiveRelease(h') == ActiveRelease(h)
  {
  }

  lemma RestoredArchivable(h: Host, id: AnchorId, c: Colour)
    requires Genuine(h) && Restore(h, id, c, WRITES + 1).ok && Archivable(h, Other(c))
    ensures var h' := Restore(h, id, c, WRITES + 1).host;
      ActiveRelease(h').Some? && forall d: Colour :: Archivable(h', d)
  {
    hide Archive, RestoredSlot, Archivable, Genuine, ActiveRelease, Restore;
    var h' := Restore(h, id, c, WRITES + 1).host;
    RestoreRoundTrip(h, id, c);
    RestoreLeaves(h, id, c);
    RestoreOutcome(h, id, c, WRITES + 1);
    StaysArchivable(h, h', Other(c));
    forall d: Colour ensures Archivable(h', d) {
      assert d == c || d == Other(c);
    }
  }

  lemma OtherSavedElsewhere(h: Host, h': Host, id: AnchorId, c: Colour)
    requires OtherCommit(h, id, c) && SlotOf(h', Other(c)) == SlotOf(h, Other(c)) && SlotOf(h', c).marker.Some?
    ensures (forall d: Colour :: SlotOf(h', d).marker.Some?) && SavedId(h', Other(c)) != Some(id)
  {
    hide SavedId;
    forall d: Colour ensures SlotOf(h', d).marker.Some? {
      assert d == c || d == Other(c);
    }
    if SavedId(h', Other(c)).Some? {
      SavedCommit(h', Other(c));
    }
  }

  // ----------------------------------------------------------------------- an actual run

  datatype Release = Release(commit: string, application: string, embedding: string)

  predicate ValidRelease(r: Release) {
    IsCommit(r.commit) && IsImageDigest(r.application) && IsImageDigest(r.embedding)
  }

  function SettingsOf(settings: bool): map<Leaf, Source> {
    if settings then map[PublicEnv := Trusted("/etc/project-snow/public.env")] else map[]
  }

  /** A staged slot; `settings` says whether its environment names a settings file. */
  function StagedSlot(c: Colour, r: Release, settings: bool): Slot {
    Slot(Some(Environment(map["PUBLIC_API_IMAGE" := r.application, "EMBEDDING_IMAGE" := r.embedding], SettingsOf(settings))),
         Some(Manifest(r.commit, "1.1.0", r.application, r.embedding, None)),
         Some(Binding(r.commit, ColourName(c), ConfigurationRoot(r.commit), map[])),
         Some([ColourName(c), r.commit, r.application, r.embedding]), None)
  }

  /** A new host: release `a` runs in the blue slot, release `b` is staged in the green one
      with a settings file; nothing has been archived yet. */
  function NewHost(a: Release, b: Release): Host {
    var blue := StagedSlot(Blue, a, false);
    Host(map[Blue := blue, Green := StagedSlot(Green, b, true)], "blue", blue.marker.value, blue.manifest.value,
         blue.config.value, blue.environment.value, map["/etc/project-snow/public.env" := "settings"],
         map[b.commit := map[]], map[], map[], None, Registry([], []))
  }

  lemma NewHostIsSound(a: Release, b: Release)
    requires ValidRelease(a) && ValidRelease(b)
    ensures var h := NewHost(a, b);
      Genuine(h) && RollbackReady(h) && ActiveRelease(h) == Some(Active(Blue, a.commit, a.application))
  {
    hide IsCommit, IsImageDigest, ConfigurationRoot;
  }

  lemma NewHostIsArchivable(a: Release, b: Release, c: Colour)
    requires ValidRelease(a) && ValidRelease(b)
    ensures Archivable(NewHost(a, b), c)
  {
    hide IsCommit, IsImageDigest, ConfigurationRoot;
    var h := NewHost(a, b);
    match c
    case Blue =>
      assert SlotOf(h, Blue) == StagedSlot(Blue, a, false);
    case Green =>
      assert SlotOf(h, Green) == StagedSlot(Green, b, true);
      assert ReadSource(h, Trusted("/etc/project-snow/public.env")) == Some("settings");
  }

  lemma StagedContent(a: Release, b: Release)
    requires ValidRelease(a) && ValidRelease(b)
    ensures var h := NewHost(a, b);
      Archivable(h, Green) &&
      var f := Captured(h, Green);
      f.settings == map[PublicEnv := "settings"] && f.config == Binding(b.commit, "green", ConfigurationRoot(b.commit), map[])
      && f.environment == StagedSlot(Green, b, true).environment.value && |f.marker| == 4 && f.marker[1] == b.commit
  {
    hide IsCommit, IsImageDigest, ConfigurationRoot, Archivable;
    NewHostIsArchivable(a, b, Green);
    var h := NewHost(a, b);
    assert ReadSource(h, Trusted("/etc/project-snow/public.env")) == Some("settings");
  }

  /** The id under which the green slot is saved is the id it would get alone. */
  lemma GreenSavedAlone(a: Release, b: Release)
    requires ValidRelease(a) && ValidRelease(b)
    ensures var h := NewHost(a, b);
      Archivable(h, Green) && SavedId(h, Green) == Some(ArchiveId(h, Green))
  {
    hide IsCommit, IsImageDigest, ConfigurationRoot, Archive, Genuine, Archivable, IdOf;
    var h := NewHost(a, b);
    var mid := Archive(h, Blue).host;
    NewHostIsSound(a, b);
    NewHostIsArchivable(a, b, Green);
    ArchiveGrows(h, Blue);
    ArchiveGenuine(h, Blue);
    StaysArchivable(h, mid, Green);
    ArchiveSucceeds(mid, Green);
    ArchiveNames(mid, Green);
    var slot := SlotOf(h, Green);
    assert slot == StagedSlot(Green, b, true) && SlotOf(mid, Green) == slot;
    assert Captured(mid, Green).settings == Captured(h, Green).settings;
    assert Captured(mid, Green) == Captured(h, Green);
  }

  /** A genuine anchor installed under the id of some files holds those files. */
  lemma InstalledFiles(h: Host, f: Files)
    requires |f.marker| == 4 && Genuine(h) && Id(IdOf(f)) in h.anchors
    ensures var d := h.anchors[Id(IdOf(f))]; d.Anchor? && d.files == f && d.meta.commit == f.marker[1]
  {
    var d := h.anchors[Id(IdOf(f))];
    assert GenuineDir(IdOf(f), d);
    SameHashes(d.files, f);
  }

  lemma IndexedIsProtected(h: Host, c: Colour)
    requires RollbackReady(h) && h.index.Some? && c in h.index.value.colours
    ensures InstalledAnchor(h, h.index.value.colours[c])
  {
    hide InstalledAnchor;
    assert h.index.value.colours[c] in Protected(h);
  }

  /** Archiving the new host saves the green slot, settings file included. */
  lemma FirstArchive(a: Release, b: Release)
    requires ValidRelease(a) && ValidRelease(b)
    ensures var h := NewHost(a, b);
      Archivable(h, Green) &&
      var h1, x := ArchiveColours(h, 3).host, ArchiveId(h, Green);
      && Apply(h, OpArchive(3)) == h1 && Genuine(h1) && RollbackReady(h1)
      && Grows(h, h1) && h1 == h.(anchors := h1.anchors, index := h1.index) && InstalledAnchor(h1, x)
      && h1.anchors[Id(x)].Anchor? && h1.anchors[Id(x)].files == Captured(h, Green) && h1.anchors[Id(x)].meta.commit == b.commit
  {
    hide ArchiveColours, Archivable, Genuine, RollbackReady, VerifyAnchor, Captured, ActiveRelease, SavedId, ValidRelease, IdOf, SlotOf;
    var h := NewHost(a, b);
    var h1 := ArchiveColours(h, 3).host;
    forall c: Colour ensures Archivable(h, c) {
      NewHostIsArchivable(a, b, c);
    }
    NewHostIsSound(a, b);
    BothArchivable(h);
    StepGenuine(h, OpArchive(3));
    ApplyArchive(h);
    ArchiveColoursReady(h, 3);
    IndexOfEnvironments(h, 3);
    IndexedIds(h);
    ArchivableHasMarker(h, Green);
    GreenSavedAlone(a, b);
    IndexedIsProtected(h1, Green);
    StagedContent(a, b);
    InstalledFiles(h1, Captured(h, Green));
  }

  lemma SharedImagesAbsent(a: Release, b: Release)
    ensures SharedImagesMatch(StagedSlot(Green, b, true).environment.value, StagedSlot(Blue, a, false).environment.value)
  {
    var k := SHARED_KEYS;
    assert |k[0]| == 14 && |k[1]| == 12 && |k[2]| == 11 && |k[3]| == 18;
    assert |"PUBLIC_API_IMAGE"| == 16 && |"EMBEDDING_IMAGE"| == 15;
  }

  /** The saved release can be restored into its own slot. */
  lemma FirstRestore(a: Release, b: Release)
    requires ValidRelease(a) && ValidRelease(b)
    ensures var h := NewHost(a, b);
      Archivable(h, Green) && Restore(ArchiveColours(h, 3).host, ArchiveId(h, Green), Green, WRITES + 1).ok
  {
    hide ArchiveColours, Archivable, Genuine, RollbackReady, VerifyAnchor, Captured, Archive, ActiveRelease, ValidRelease, ArchiveId,
      SharedImagesMatch, RestoredSlot, ConfigurationRoot;
    var h := NewHost(a, b);
    FirstArchive(a, b);
    StagedContent(a, b);
    NewHostIsSound(a, b);
    SharedImagesAbsent(a, b);
    var h1, x := ArchiveColours(h, 3).host, ArchiveId(h, Green);
    SameActive(h, h1);
    assert Restorable(h1, x, Green);
    StaysArchivable(h, h1, Green);
    ArchiveSucceeds(h1, Green);
  }

  lemma SameActive(h: Host, h': Host)
    requires h' == h.(anchors := h'.anchors, index := h'.index)
    ensures ActiveRelease(h') == ActiveRelease(h) && forall c :: SlotOf(h', c) == SlotOf(h, c)
  {
  }

  /** It happens: on a new host, archive, restore the staged release into its own slot,
      archive again.  All retention guarantees hold all along; retiring the first anchor is
      accepted, and the slot's settings are gone. */
  lemma PointsOutsideHappens(a: Release, b: Release)
    requires ValidRelease(a) && ValidRelease(b) && a.commit != b.commit
    ensures var h := NewHost(a, b);
      Genuine(h) && RollbackReady(h) && Archivable(h, Green) &&
      var x := ArchiveId(h, Green);
      var indexed := Run(h, [OpArchive(3), OpRestore(x, Green, WRITES + 1), OpArchive(3)]);
      var retired := Run(h, [OpArchive(3), OpRestore(x, Green, WRITES + 1), OpArchive(3), OpRetire(Id(x), true)]);
      && RollbackReady(indexed) && PointsOutside(indexed, x, Green)
      && RollbackReady(retired) && Id(x) !in retired.anchors && !Archivable(retired, Green)
  {
    hide ArchiveColours, Archivable, Genuine, RollbackReady, VerifyAnchor, Captured, Archive, ActiveRelease, ValidRelease, ArchiveId,
      Restore, PointsOutside, Apply, Run;
    var h := NewHost(a, b);
    NewHostIsSound(a, b);
    FirstArchive(a, b);
    FirstRestore(a, b);
    StagedContent(a, b);
    var h1, x := ArchiveColours(h, 3).host, ArchiveId(h, Green);
    SameActive(h, h1);
    NewHostIsArchivable(a, b, Blue);
    StaysArchivable(h, h1, Blue);
    BlueCommit(a, b);
    assert PublicEnv in h1.anchors[Id(x)].files.settings;
    RestoredArchivable(h1, x, Green);
    RestoreGenuine(h1, x, Green, WRITES + 1);
    BothArchivable(Restore(h1, x, Green, WRITES + 1).host);
    RestoreThenRetire(h1, x, Green);
    RunFrom(h, OpArchive(3), [OpRestore(x, Green, WRITES + 1), OpArchive(3)]);
    RunFrom(h, OpArchive(3), [OpRestore(x, Green, WRITES + 1), OpArchive(3), OpRetire(Id(x), true)]);
    assert [OpArchive(3)] + [OpRestore(x, Green, WRITES + 1), OpArchive(3)] == [OpArchive(3), OpRestore(x, Green, WRITES + 1), OpArchive(3)];
    assert [OpArchive(3)] + [OpRestore(x, Green, WRITES + 1), OpArchive(3), OpRetire(Id(x), true)]
        == [OpArchive(3), OpRestore(x, Green, WRITES + 1), OpArchive(3), OpRetire(Id(x), true)];
  }

  lemma BlueCommit(a: Release, b: Release)
    requires ValidRelease(a) && ValidRelease(b)
    ensures var h := NewHost(a, b);
      && SlotOf(h, Blue).marker.Some? && |SlotOf(h, Blue).marker.value| == 4 && SlotOf(h, Blue).marker.value[1] == a.commit
      && Archivable(h, Green) && ArchiveId(h, Green).commit == b.commit
      && h.retired == map[] && ActiveBaselines(h.registry) == {}
  {
    hide Archivable, Captured;
    StagedContent(a, b);
  }

  lemma RunFrom(h: Host, op: Op, ops: seq<Op>)
    ensures Run(h, [op] + ops) == Run(Apply(h, op), ops)
  {
    hide Apply;
    assert ([op] + ops)[1..] == ops;
  }

  lemma RetiredSettingsMissing(h: Host, id: AnchorId, c: Colour)
    requires Id(id) !in h.anchors && SlotOf(h, c).environment.Some?
    requires NamesAnchor(SlotOf(h, c).environment.value, id)
    ensures !Archivable(h, c)
  {
    hide MarkerAgrees;
    var env := SlotOf(h, c).environment.value;
    var leaf :| leaf in env.settings && PointsInto(env.settings[leaf], id);
    assert ReadSource(h, env.settings[leaf]).None?;
  }

  /** restore_colour puts a slot in that position: its environment points into the anchor
      whenever the anchor carries settings files. */
  lemma RestoreNamesAnchor(h: Host, id: AnchorId, c: Colour)
    requires Genuine(h) && Restore(h, id, c, WRITES + 1).ok && h.anchors[Id(id)].files.settings != map[]
    ensures var h' := Restore(h, id, c, WRITES + 1).host;
      InstalledAnchor(h', id) && SlotOf(h', c).environment.Some? &&
      NamesAnchor(SlotOf(h', c).environment.value, id)
  {
    hide Restore, GenuineDir, Genuine, ConfigurationRetained, SharedImagesMatch, ActiveRelease, VerifyAnchor, ConfigurationRoot;
    RestoreOutcome(h, id, c, WRITES + 1);
    RestoredHost(h, id, c);
    var d := h.anchors[Id(id)];
    var leaf :| leaf in d.files.settings;
    assert PointsInto(RestoredSlot(id, d, c).environment.value.settings[leaf], id);
  }
}
