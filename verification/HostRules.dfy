// When each release operation is accepted and what it leaves, read off the host's files
// alone.
module HostRules {
  import opened Prelude
  import opened ReleaseModel
  import opened Retention
  import opened RestoreCrash

  // -------------------------------------------------------------------- running release

  /** The running release is what marker, colour file, manifest and environment all say. */
  lemma ActiveReleaseIff(h: Host, a: Active)
    ensures ActiveRelease(h) == Some(a) <==>
      && h.activeColour == (if a.colour == Blue then "blue" else "green")
      && |h.current| == 4 && h.current[..3] == [h.activeColour, a.commit, a.image]
      && IsCommit(a.commit) && IsImageDigest(a.image) && IsImageDigest(h.current[3])
      && h.currentManifest.commit == a.commit && h.currentManifest.application == a.image
      && "PUBLIC_API_IMAGE" in h.runtime.values && h.runtime.values["PUBLIC_API_IMAGE"] == a.image
  {
    hide IsCommit, IsImageDigest;
    assert "blue" != "green" by { assert "blue"[0] != "green"[0]; }
    if |h.current| == 4 {
      assert h.current[..3] == [h.current[0], h.current[1], h.current[2]];
    }
  }

  // --------------------------------------------------------------------------- anchors

  /** Verification pins the content: two directories that verify under one id hold the same
      files for the same commit, and one that archive_colour made verifies under its id. */
  lemma VerifiedContent(id: AnchorId, d: Dir, e: Dir)
    requires VerifyAnchor(id, d) && VerifyAnchor(id, e)
    ensures d.files == e.files && d.meta.commit == e.meta.commit == id.commit && d.meta.releaseId == id
  {
    SameHashes(d.files, e.files);
  }

  lemma MadeAnchorVerifies(f: Files)
    requires |f.marker| == 4
    ensures VerifyAnchor(IdOf(f), DirOf(f)) && IdOf(f).commit == f.marker[1] && DirOf(f).files == f
  {
  }

  /** Under the name of the legacy baseline only its intact snapshot verifies. */
  lemma NamedIff(n: Name, d: Dir)
    ensures n.LegacyBaseline? ==> (VerifyNamed(n, d) <==> d.LegacyDir? && d.intact)
    ensures n.Id? ==> (VerifyNamed(n, d) <==> VerifyAnchor(n.id, d))
  {
    hide VerifyAnchor;
  }

  /** A settings pointer can be followed: into the trusted settings, or to a settings file
      of an anchor that is installed. */
  predicate CanFollow(h: Host, s: Source) {
    match s
    case Trusted(path) => path in h.settings
    case InAnchor(id, leaf) => Id(id) in h.anchors && h.anchors[Id(id)].Anchor? && leaf in h.anchors[Id(id)].files.settings
    case Untrusted(_) => false
  }

  lemma FollowIff(h: Host, s: Source)
    ensures ReadSource(h, s).Some? <==> CanFollow(h, s)
  {
  }

  /** On every reachable host a colour can be archived exactly when its four files exist,
      name one commit and its images, and every settings pointer can be followed; the new
      anchor then holds those files and the texts behind the pointers. */
  lemma ArchiveAcceptedIff(h: Host, c: Colour)
    requires Genuine(h)
    ensures var slot := SlotOf(h, c);
      Archive(h, c).id.Some? <==>
        && slot.marker.Some? && slot.manifest.Some? && slot.config.Some? && slot.environment.Some?
        && |slot.marker.value| == 4 && slot.marker.value[0] == (if c == Blue then "blue" else "green")
        && IsCommit(slot.marker.value[1]) && IsImageDigest(slot.marker.value[2]) && IsImageDigest(slot.marker.value[3])
        && slot.manifest.value.commit == slot.marker.value[1] && slot.config.value.commit == slot.marker.value[1]
        && slot.config.value.colour == slot.marker.value[0]
        && slot.config.value.root == "releases/configurations/" + slot.marker.value[1]
        && Get(slot.environment.value.values, "PUBLIC_API_IMAGE") == Some(slot.marker.value[2])
        && Get(slot.environment.value.values, "EMBEDDING_IMAGE") == Some(slot.marker.value[3])
        && forall leaf | leaf in slot.environment.value.settings :: CanFollow(h, slot.environment.value.settings[leaf])
  {
    ArchiveSucceeds(h, c);
    var slot := SlotOf(h, c);
    if slot.environment.Some? {
      forall leaf | leaf in slot.environment.value.settings
        ensures ReadSource(h, slot.environment.value.settings[leaf]).Some? <==> CanFollow(h, slot.environment.value.settings[leaf])
      {
        FollowIff(h, slot.environment.value.settings[leaf]);
      }
    }
    hide IsCommit, IsImageDigest, Archive, Genuine, ReadSource, CanFollow;
  }

  lemma ArchivedFiles(h: Host, c: Colour)
    requires Genuine(h) && Archive(h, c).id.Some?
    ensures var id, slot, h' := Archive(h, c).id.value, SlotOf(h, c), Archive(h, c).host;
      Id(id) in h'.anchors && h'.anchors[Id(id)].Anchor? &&
      var f := h'.anchors[Id(id)].files;
      && slot.marker == Some(f.marker) && slot.manifest == Some(f.manifest) && slot.config == Some(f.config)
      && slot.environment == Some(f.environment) && f.settings.Keys == f.environment.settings.Keys
      && (forall leaf | leaf in f.settings :: ReadSource(h, f.environment.settings[leaf]) == Some(f.settings[leaf]))
      && (Id(id) in h.anchors ==> h' == h)
  {
    hide IsCommit, IsImageDigest, ReadSource, MarkerAgrees;
    var f := Captured(h, c);
    if Id(ArchiveId(h, c)) in h.anchors {
      assert GenuineDir(ArchiveId(h, c), h.anchors[Id(ArchiveId(h, c))]);
      SameHashes(h.anchors[Id(ArchiveId(h, c))].files, f);
    }
    forall leaf | leaf in f.settings ensures ReadSource(h, f.environment.settings[leaf]) == Some(f.settings[leaf]) {
      assert ReadSource(h, f.environment.settings[leaf]).Some?;
    }
  }

  /** The host after the blue release, if there is one, has been archived. */
  function AfterBlue(h: Host): Host {
    if SlotOf(h, Blue).marker.Some? then Archive(h, Blue).host else h
  }

  predicate Saved(h: Host, c: Colour) {
    SlotOf(h, c).marker.Some? ==> Archive(h, c).id.Some?
  }

  /** Both colours are archived and the index is written exactly when there is a running
      release, its own slot has a marker, archiving accepts each slot that has one, and the
      process lives through all three effects.  The index then names exactly those slots'
      anchors; otherwise it stays as it is. */
  lemma ArchiveColoursIff(h: Host, stop: nat)
    ensures var s, active := ArchiveColours(h, stop), ActiveRelease(h);
      && (s.ok <==>
            && stop >= 3 && active.Some? && SlotOf(h, active.value.colour).marker.Some?
            && Saved(h, Blue) && Saved(AfterBlue(h), Green))
      && (!s.ok ==> s.host.index == h.index)
      && (s.ok ==>
            && s.host.index.Some? && Indexes(s.host.index.value.colours, h)
            && s.host.index.value.active == s.host.index.value.colours[active.value.colour])
  {
    hide ActiveRelease, Archive, ArchiveEach, Saved, Indexes;
    var active := ActiveRelease(h);
    if active.Some? {
      assert COLOURS == [Blue, Green];
      EachIs(h, active.value.colour, stop);
    }
  }

  /** One round of the loop over the colours. */
  lemma RoundIs(h: Host, active: Colour, c: Colour, rest: seq<Colour>, found: map<Colour, AnchorId>, budget: nat)
    ensures ArchiveEach(h, active, [c] + rest, found, budget) ==
      if budget == 0 then Progress(h, false, found)
      else if SlotOf(h, c).marker.Some? then
        var s := Archive(h, c);
        if s.id.Some? then ArchiveEach(s.host, active, rest, found[c := s.id.value], budget - 1) else Progress(s.host, false, found)
      else if c == active then Progress(h, false, found)
      else ArchiveEach(h, active, rest, found, budget - 1)
  {
    hide Archive;
    assert ([c] + rest)[1..] == rest;
  }

  lemma ArchiveKeepsSlots(h: Host, c: Colour)
    ensures var h' := Archive(h, c).host; h'.index == h.index && forall d :: SlotOf(h', d) == SlotOf(h, d)
  {
    ArchiveGrows(h, c);
    hide Archive;
  }

  predicate Indexes(found: map<Colour, AnchorId>, h: Host) {
    && (forall c: Colour :: c in found <==> SlotOf(h, c).marker.Some?)
    && (SlotOf(h, Blue).marker.Some? ==> Some(found[Blue]) == Archive(h, Blue).id)
    && (SlotOf(h, Green).marker.Some? ==> Some(found[Green]) == Archive(AfterBlue(h), Green).id)
  }

  lemma EachIs(h: Host, active: Colour, stop: nat)
    ensures var p, k := ArchiveEach(h, active, [Blue, Green], map[], stop), AfterBlue(h);
      && (p.ok <==> stop >= 2 && SlotOf(h, active).marker.Some? && Saved(h, Blue) && Saved(k, Green))
      && p.host.index == h.index && (p.ok ==> Indexes(p.found, h))
  {
    hide Archive, ArchiveEach;
    var k := AfterBlue(h);
    ArchiveKeepsSlots(h, Blue);
    ArchiveKeepsSlots(k, Green);
    assert [Blue, Green] == [Blue] + [Green] && [Green] == [Green] + [];
    RoundIs(h, active, Blue, [Green], map[], stop);
    if stop >= 1 && Saved(h, Blue) {
      var first := if SlotOf(h, Blue).marker.Some? then map[Blue := Archive(h, Blue).id.value] else map[];
      RoundIs(k, active, Green, [], first, stop - 1);
      forall host, found, budget ensures ArchiveEach(host, active, [], found, budget) == Progress(host, true, found) {
        NoRoundLeft(host, active, found, budget);
      }
      var p := ArchiveEach(h, active, [Blue, Green], map[], stop);
      if p.ok {
        assert p.found == if SlotOf(k, Green).marker.Some? then first[Green := Archive(k, Green).id.value] else first;
        forall c: Colour ensures c in p.found <==> SlotOf(h, c).marker.Some? {
          match c
          case Blue =>
          case Green =>
        }
      }
    }
  }

  lemma NoRoundLeft(h: Host, active: Colour, found: map<Colour, AnchorId>, budget: nat)
    ensures ArchiveEach(h, active, [], found, budget) == Progress(h, true, found)
  {
  }

  // ------------------------------------------------------------------ marks and retirement

  /** Two numbers and a zero, with dots between them. */
  ghost predicate FeatureForm(version: string) {
    exists major, minor :: Numeric(major) && Numeric(minor) && version == major + "." + minor + ".0"
  }

  predicate Numeric(s: string) {
    s != "" && forall c | c in s :: '0' <= c <= '9'
  }

  lemma DigitsIff(s: string)
    ensures IsDigits(s) <==> Numeric(s)
  {
    if Numeric(s) {
      assert forall i | 0 <= i < |s| :: s[i] in s;
    }
  }

  lemma TwoDots(major: string, minor: string)
    ensures var version := major + "." + minor + ".0";
      var i, j := |major|, |major| + 1 + |minor|;
      && |version| == j + 2 && version[..i] == major && version[i] == '.' && version[i + 1..j] == minor && version[j] == '.'
      && version[j + 1..] == "0"
  {
  }

  lemma FeatureHasForm(version: string, i: nat, j: nat)
    requires i < j < |version| && version[i] == '.' && version[j] == '.' && version[j + 1..] == "0"
    ensures version == version[..i] + "." + version[i + 1..j] + ".0"
  {
    var rest := version[j..];
    assert rest == ['.'] + version[j + 1..] == ".0";
    assert version == version[..i] + [version[i]] + version[i + 1..j] + rest;
  }

  lemma DottedIsFeature(version: string, i: nat, j: nat)
    requires i < j < |version| && version[i] == '.' && version[j] == '.' && version[j + 1..] == "0"
    requires IsDigits(version[..i]) && IsDigits(version[i + 1..j])
    ensures IsFeatureVersion(version) && FeatureForm(version)
  {
    hide IsDigits, Numeric;
    DigitsIff(version[..i]);
    DigitsIff(version[i + 1..j]);
    FeatureHasForm(version, i, j);
  }

  lemma FormIsFeature(major: string, minor: string)
    requires Numeric(major) && Numeric(minor)
    ensures IsFeatureVersion(major + "." + minor + ".0")
  {
    hide IsDigits, Numeric, IsFeatureVersion;
    TwoDots(major, minor);
    DigitsIff(major);
    DigitsIff(minor);
    DottedIsFeature(major + "." + minor + ".0", |major|, |major| + 1 + |minor|);
  }

  lemma FeatureIff(version: string)
    ensures IsFeatureVersion(version) <==> FeatureForm(version)
  {
    hide IsDigits, Numeric;
    if IsFeatureVersion(version) {
      var i, j :| 0 <= i < j < |version| && version[i] == '.' && version[j] == '.' &&
        IsDigits(version[..i]) && IsDigits(version[i + 1..j]) && version[j + 1..] == "0";
      DottedIsFeature(version, i, j);
    } else if FeatureForm(version) {
      var major, minor :| Numeric(major) && Numeric(minor) && version == major + "." + minor + ".0";
      FormIsFeature(major, minor);
    }
  }

  /** The anchor may become a baseline. */
  ghost predicate Markable(h: Host, id: AnchorId, grandfathered: AnchorId) {
    InstalledAnchor(h, id) &&
    var version := h.anchors[Id(id)].files.manifest.appVersion;
    if version == "1.0.0" then id == grandfathered else FeatureForm(version)
  }

  /** A baseline is marked exactly when its anchor is installed and verifies and its version
      is a feature release, or 1.0.0 for the one grandfathered anchor; nothing but the
      registry changes, and what enters it is taken from the anchor. */
  lemma MarkAcceptedIff(h: Host, id: AnchorId, grandfathered: AnchorId, now: int)
    ensures Mark(h, id, grandfathered, now).ok <==> Markable(h, id, grandfathered)
    ensures var s := Mark(h, id, grandfathered, now); s.host == h.(registry := s.host.registry) && (!s.ok ==> s.host == h)
    ensures var s := Mark(h, id, grandfathered, now);
      s.ok ==> s.host.registry.active[..1] == [Baseline(id, h.anchors[Id(id)].files.manifest.appVersion, id.commit, now)]
  {
    if InstalledAnchor(h, id) {
      FeatureIff(h.anchors[Id(id)].files.manifest.appVersion);
    }
  }

  /** An anchor is retired exactly when it is there and not in the retired area yet, the
      index names the commit that each colour's marker names, and, for all but the legacy
      baseline, it verifies, is backed up, and is neither indexed nor an active baseline. */
  lemma RetireAcceptedIff(h: Host, n: Name, backedUp: bool)
    ensures var s := Retire(h, n, backedUp);
      && (s.ok <==>
            && n in h.anchors && n !in h.retired && h.index.Some?
            && (forall c: Colour :: SlotOf(h, c).marker.Some? && |SlotOf(h, c).marker.value| >= 2
                  && c in h.index.value.colours && h.index.value.colours[c].commit == SlotOf(h, c).marker.value[1])
            && (n.Id? ==>
                  && backedUp && InstalledAnchor(h, n.id) && n.id != h.index.value.active
                  && (forall c | c in h.index.value.colours :: h.index.value.colours[c] != n.id)
                  && (forall b | b in h.registry.active :: b.id != n.id)))
      && (s.ok ==> s.host == h.(anchors := h.anchors - {n}, retired := h.retired[n := h.anchors[n]]))
      && (!s.ok ==> s.host == h)
  {
    hide VerifyAnchor;
    if n.Id? && h.index.Some? {
      ProtectedIff(h, n.id);
    }
  }

  lemma ProtectedIff(h: Host, id: AnchorId)
    requires h.index.Some?
    ensures id in Protected(h) <==>
      || id == h.index.value.active
      || (exists c :: c in h.index.value.colours && h.index.value.colours[c] == id)
      || (exists b :: b in h.registry.active && b.id == id)
  {
    var index := h.index.value;
    assert id in index.colours.Values <==> exists c :: c in index.colours && index.colours[c] == id;
  }

  /** A retired anchor can be brought back exactly while its place is free, and is then
      gone from the retired area; retiring and bringing back is the identity. */
  lemma UnretireUndoesRetire(h: Host, n: Name, backedUp: bool)
    requires Retire(h, n, backedUp).ok
    ensures var s := Unretire(Retire(h, n, backedUp).host, n);
      s.host == h && (n.Id? ==> s.ok)
  {
    hide VerifyAnchor, IndexIsFresh, Protected;
    var h' := Retire(h, n, backedUp).host;
    assert h'.anchors[n := h.anchors[n]] == h.anchors;
    assert h'.retired - {n} == h.retired;
  }

  lemma UnretireAcceptedIff(h: Host, n: Name)
    ensures var s := Unretire(h, n);
      && (s.host != h <==> n in h.retired && n !in h.anchors)
      && (s.host != h ==> s.host == h.(anchors := h.anchors[n := h.retired[n]], retired := h.retired - {n}))
      && (s.ok <==> s.host != h && VerifyNamed(n, h.retired[n]))
  {
    hide VerifyNamed;
  }

  // -------------------------------------------------------------------------- restoring

  /** Without a running release nothing is restored, and the running release's own colour
      is never restored into. */
  lemma RunningIsNotRestored(h: Host, id: AnchorId, c: Colour, k: nat)
    requires ActiveRelease(h).None? || ActiveRelease(h).value.colour == c
    ensures Restore(h, id, c, k) == Step(h, false)
  {
    hide ActiveRelease, InstalledAnchor;
  }

  /** No step but staging into it touches the running release's slot. */
  lemma RunningSlotStays(h: Host, op: Op)
    requires ActiveRelease(h).Some?
    requires var c := ActiveRelease(h).value.colour; !(op.OpStage? && op.colour == c)
    ensures var c := ActiveRelease(h).value.colour; SlotOf(Apply(h, op), c) == SlotOf(h, c)
  {
    hide ActiveRelease, ArchiveEach, Restore;
    var c := ActiveRelease(h).value.colour;
    match op
    case OpArchive(stop) => ArchiveEachGrows(h, c, COLOURS, map[], stop);
    case OpRestore(id, d, k) =>
      if d == c {
        RunningIsNotRestored(h, id, c, k);
      } else {
        RestoreKeepsOther(h, id, d, k, c);
      }
    case _ =>
  }

  /** A restore runs to its end exactly when there is a running release of the other colour,
      the anchor is installed and verifies, its shared images other than the embedding image
      are the running ones, the configuration it was released with is still there unchanged,
      and a slot that has a marker could be saved first. */
  lemma RestoreAcceptedIff(h: Host, id: AnchorId, c: Colour, k: nat)
    requires Genuine(h)
    ensures Restore(h, id, c, k).ok <==>
      && k >= 5 && ActiveRelease(h).Some? && ActiveRelease(h).value.colour != c
      && InstalledAnchor(h, id)
      && var f := h.anchors[Id(id)].files;
        && (forall key | key in {"POSTGRES_IMAGE", "QDRANT_IMAGE", "NEO4J_IMAGE", "EGRESS_PROXY_IMAGE"} ::
              Get(f.environment.values, key) == Get(h.runtime.values, key))
        && f.config.root == "releases/configurations/" + id.commit && id.commit in h.configurations
        && (forall name | name in f.config.hashes :: name in h.configurations[id.commit]
              && f.config.hashes[name] == Sha256(h.configurations[id.commit][name]))
        && (SlotOf(h, c).marker.Some? ==> Archivable(h, c))
  {
    hide ActiveRelease, Archive, Archivable, RestoredSlot, SharedImagesMatch, Genuine;
    ArchiveSucceeds(h, c);
    if Id(id) in h.anchors && h.anchors[Id(id)].Anchor? {
      SharedImagesIff(h.anchors[Id(id)].files.environment, h.runtime);
    }
  }

  /** What is in the slot after the first `k` effects of an accepted restore: one file after
      the other is the anchor's, with the upstream of the new colour and settings that point
      into the anchor, and last the stage receipt is gone. */
  lemma RestoredFiles(h: Host, id: AnchorId, c: Colour, k: nat)
    requires Restore(h, id, c, 5).ok
    ensures var s, before, d := Restore(h, id, c, k), SlotOf(h, c), h.anchors[Id(id)];
      var after, f, name := SlotOf(s.host, c), d.files, if c == Blue then "blue" else "green";
      && (s.ok <==> k >= 5)
      && after.environment == (if k == 0 then before.environment else Some(PointedInto(f, id, name)))
      && after.manifest == (if k <= 1 then before.manifest else Some(f.manifest))
      && after.config == (if k <= 2 then before.config else Some(f.config.(colour := name)))
      && after.marker == (if k <= 3 then before.marker else Some([name, d.meta.commit, d.meta.application, d.meta.embedding]))
      && after.stageReceipt == (if k <= 4 then before.stageReceipt else None)
  {
    hide Restorable, Archive;
    assert Restorable(h, id, c);
    RestorableIsAnchor(h, id, c);
    var saved := if SlotOf(h, c).marker.Some? then Archive(h, c) else Archived(h, Some(id));
    assert saved.id.Some?;
    assert Restore(h, id, c, k).host.slots == saved.host.slots[c := Written(SlotOf(h, c), RestoredSlot(id, h.anchors[Id(id)], c), k)];
    SettingsPointInto(h.anchors[Id(id)].files, id);
  }

  lemma RestorableIsAnchor(h: Host, id: AnchorId, c: Colour)
    requires Restorable(h, id, c)
    ensures Id(id) in h.anchors && h.anchors[Id(id)].Anchor?
  {
    hide ActiveRelease;
  }

  /** An anchor's environment for one colour, with its settings inside the anchor. */
  function PointedInto(f: Files, id: AnchorId, name: string): Environment {
    Environment(f.environment.values["SNOW_UPSTREAM" := "public-api-" + name + ":8000"],
                map leaf | leaf in f.environment.settings.Keys + f.settings.Keys ::
                  if leaf in f.settings then InAnchor(id, leaf) else f.environment.settings[leaf])
  }

  lemma SettingsPointInto(f: Files, id: AnchorId)
    ensures f.environment.settings + (map leaf | leaf in f.settings :: InAnchor(id, leaf)) ==
      map leaf | leaf in f.environment.settings.Keys + f.settings.Keys ::
        if leaf in f.settings then InAnchor(id, leaf) else f.environment.settings[leaf]
  {
  }

  /** Staging, promotion and new settings replace what is theirs and nothing else. */
  lemma OutsideStepsAre(h: Host, op: Op)
    ensures var t := Apply(h, op);
      match op
      case OpStage(c, slot) => t == h.(slots := t.slots) && SlotOf(t, c) == slot && forall d | d != c :: SlotOf(t, d) == SlotOf(h, d)
      case OpPromote(c, words, manifest, config, runtime) =>
        && t == h.(activeColour := t.activeColour, current := words, currentManifest := manifest, currentConfig := config, runtime := t.runtime)
        && t.activeColour == c && t.runtime == runtime
      case OpSettings(settings, configurations) =>
        && t == h.(settings := settings, configurations := t.configurations) && t.configurations == configurations
      case _ => true
  {
  }

  lemma SharedImagesIff(a: Environment, b: Environment)
    ensures SharedImagesMatch(a, b) <==>
      forall key | key in {"POSTGRES_IMAGE", "QDRANT_IMAGE", "NEO4J_IMAGE", "EGRESS_PROXY_IMAGE"} :: Get(a.values, key) == Get(b.values, key)
  {
    var k := SHARED_KEYS;
    assert k[0] == "POSTGRES_IMAGE" && k[1] == "QDRANT_IMAGE" && k[2] == "NEO4J_IMAGE" && k[3] == "EGRESS_PROXY_IMAGE";
    if SharedImagesMatch(a, b) {
      forall key | key in {"POSTGRES_IMAGE", "QDRANT_IMAGE", "NEO4J_IMAGE", "EGRESS_PROXY_IMAGE"} ensures Get(a.values, key) == Get(b.values, key) {
        var i :| 0 <= i < 4 && k[i] == key;
      }
    }
  }
}
