// restore_colour rewrites a slot with four ordered writes.  What happens when it is
// killed between two of them, and what the restored slot depends on afterwards.
module RestoreCrash {
  import opened Prelude
  import opened ReleaseModel
  import opened Retention

  predicate FilesAgree(c: Colour, f: Files) {
    MarkerAgrees(c, f.marker, f.manifest, f.config, f.environment)
  }

  /** What archive_colour makes: named by its content, internally consistent, with every
      settings file its environment points to, and never pointing into itself. */
  ghost predicate GenuineDir(id: AnchorId, d: Dir) {
    d.Anchor? && |d.files.marker| == 4 && id == IdOf(d.files) && d == DirOf(d.files) &&
    (FilesAgree(Blue, d.files) || FilesAgree(Green, d.files)) &&
    d.files.settings.Keys == d.files.environment.settings.Keys &&
    forall leaf | leaf in d.files.environment.settings :: !PointsInto(d.files.environment.settings[leaf], id)
  }

  predicate PointsInto(s: Source, id: AnchorId) {
    s.InAnchor? && s.anchor == id
  }

  ghost predicate Genuine(h: Host) {
    (forall id | Id(id) in h.anchors :: GenuineDir(id, h.anchors[Id(id)])) &&
    (forall id | Id(id) in h.retired :: GenuineDir(id, h.retired[Id(id)]))
  }

  /** Equal digests mean equal files. */
  lemma SameHashes(f: Files, g: Files)
    requires HashFiles(f) == HashFiles(g)
    ensures f == g
  {
    var hf, hg := HashFiles(f), HashFiles(g);
    assert f.settings.Keys == hf.settings.Keys && g.settings.Keys == hg.settings.Keys;
    forall leaf | leaf in f.settings ensures f.settings[leaf] == g.settings[leaf] {
      assert hf.settings[leaf] == hg.settings[leaf];
    }
    assert f.settings == g.settings;
  }

  lemma CapturedGenuine(h: Host, c: Colour)
    requires Archivable(h, c) && Id(ArchiveId(h, c)) !in h.anchors
    ensures GenuineDir(ArchiveId(h, c), DirOf(Captured(h, c)))
  {
    var f := Captured(h, c);
    assert FilesAgree(c, f);
    forall leaf | leaf in f.environment.settings
      ensures !PointsInto(f.environment.settings[leaf], ArchiveId(h, c))
    {
      assert ReadSource(h, f.environment.settings[leaf]).Some?;
    }
  }

  lemma ArchiveGenuine(h: Host, c: Colour)
    requires Genuine(h)
    ensures Genuine(Archive(h, c).host)
  {
    if Archivable(h, c) && Id(ArchiveId(h, c)) !in h.anchors {
      CapturedGenuine(h, c);
    }
    hide GenuineDir, Archivable, ArchiveId, Captured;
  }

  lemma {:induction false} ArchiveEachGenuine(h: Host, active: Colour, todo: seq<Colour>,
                                              found: map<Colour, AnchorId>, budget: nat)
    requires Genuine(h)
    ensures Genuine(ArchiveEach(h, active, todo, found, budget).host)
    decreases |todo|
  {
    hide Archive, GenuineDir;
    if todo != [] && budget > 0 {
      var c := todo[0];
      if SlotOf(h, c).marker.None? {
        ArchiveEachGenuine(h, active, todo[1..], found, budget - 1);
      } else {
        ArchiveGenuine(h, c);
        var s := Archive(h, c);
        if s.id.Some? {
          ArchiveEachGenuine(s.host, active, todo[1..], found[c := s.id.value], budget - 1);
        }
      }
    }
  }

  lemma RestoreGenuine(h: Host, id: AnchorId, c: Colour, k: nat)
    requires Genuine(h)
    ensures Genuine(Restore(h, id, c, k).host)
  {
    hide Archive, GenuineDir, RestoredSlot, Restorable, Written;
    ArchiveGenuine(h, c);
  }

  lemma StepGenuine(h: Host, op: Op)
    requires Genuine(h)
    ensures Genuine(Apply(h, op))
  {
    hide Archive, GenuineDir, ArchiveEach, Archivable;
    match op
    case OpArchive(stop) =>
      if ActiveRelease(h).Some? {
        ArchiveEachGenuine(h, ActiveRelease(h).value.colour, COLOURS, map[], stop);
      }
    case OpRestore(id, c, k) => RestoreGenuine(h, id, c, k);
    case _ =>
  }

  /** Every anchor on the host is one that archive_colour made, after any run. */
  lemma {:induction false} RunGenuine(h: Host, ops: seq<Op>)
    requires Genuine(h)
    ensures Genuine(Run(h, ops))
    decreases |ops|
  {
    if ops != [] {
      StepGenuine(h, ops[0]);
      RunGenuine(Apply(h, ops[0]), ops[1..]);
    }
  }

  // -------------------------------------------------------------------- crash points

  /** The anchor repeats the slot's application and embedding images. */
  predicate SameImages(slot: Slot, d: Dir)
    requires slot.marker.Some? && |slot.marker.value| == 4 && d.Anchor?
  {
    slot.marker.value[2] == d.meta.application && slot.marker.value[3] == d.meta.embedding
  }

  predicate SameCommit(slot: Slot, d: Dir)
    requires slot.marker.Some? && |slot.marker.value| == 4 && d.Anchor?
  {
    slot.marker.value[1] == d.meta.commit
  }

  /** archive_colour's verdict on the slot left by a restore killed after `k` writes. */
  predicate PrefixPasses(slot: Slot, d: Dir, k: nat)
    requires slot.marker.Some? && |slot.marker.value| == 4 && d.Anchor?
  {
    k == 0 || k >= WRITES || (SameImages(slot, d) && (k >= 2 ==> SameCommit(slot, d)))
  }

  lemma RestoredEnvironmentReadable(h: Host, id: AnchorId, c: Colour)
    requires Id(id) in h.anchors && GenuineDir(id, h.anchors[Id(id)])
    ensures var slot := RestoredSlot(id, h.anchors[Id(id)], c);
      Readable(h, slot.environment.value) &&
      (forall leaf | leaf in slot.environment.value.settings :: PointsInto(slot.environment.value.settings[leaf], id))
  {
  }

  lemma RestoredSlotAgrees(id: AnchorId, d: Dir, c: Colour)
    requires GenuineDir(id, d)
    ensures var t := RestoredSlot(id, d, c);
      MarkerAgrees(c, t.marker.value, t.manifest.value, t.config.value, t.environment.value)
  {
  }

  predicate Complete(slot: Slot) {
    slot.environment.Some? && slot.manifest.Some? && slot.config.Some? && slot.marker.Some?
  }

  predicate SlotAgrees(c: Colour, slot: Slot) {
    Complete(slot) &&
    MarkerAgrees(c, slot.marker.value, slot.manifest.value, slot.config.value, slot.environment.value)
  }

  /** Half old, half new files agree with each other only in the stated cases. */
  lemma MixedAgrees(c: Colour, slot: Slot, id: AnchorId, d: Dir, k: nat)
    requires SlotAgrees(c, slot) && GenuineDir(id, d)
    ensures SlotAgrees(c, Written(slot, RestoredSlot(id, d, c), k)) <==> PrefixPasses(slot, d, k)
  {
    RestoredSlotAgrees(id, d, c);
    hide IsCommit, IsImageDigest, GenuineDir, ConfigurationRoot;
  }

  lemma StillReadable(h: Host, h': Host, env: Environment)
    requires OnlyAnchorsGrow(h, h') && Readable(h, env)
    ensures Readable(h', env)
  {
    forall leaf | leaf in env.settings ensures ReadSource(h', env.settings[leaf]).Some? {
      assert ReadSource(h, env.settings[leaf]).Some?;
    }
  }

  lemma ArchivableSplits(h: Host, c: Colour, slot: Slot)
    requires slot.environment.Some? ==> Readable(h, slot.environment.value)
    ensures Archivable(h.(slots := h.slots[c := slot]), c) <==> SlotAgrees(c, slot)
  {
    var h' := h.(slots := h.slots[c := slot]);
    assert SlotOf(h', c) == slot;
    if slot.environment.Some? {
      forall leaf | leaf in slot.environment.value.settings
        ensures ReadSource(h', slot.environment.value.settings[leaf]) == ReadSource(h, slot.environment.value.settings[leaf])
      {
      }
    }
    hide MarkerAgrees;
  }

  lemma ArchiveNeedsAgreement(h: Host, c: Colour)
    requires Archive(h, c).id.Some?
    ensures SlotAgrees(c, SlotOf(h, c)) && Readable(h, SlotOf(h, c).environment.value)
  {
    hide MarkerAgrees, Readable, VerifyAnchor;
  }

  /** The exact crash behaviour: over a slot that archive_colour accepts, the slot left by
      any prefix of the writes is accepted if and only if PrefixPasses; the running release
      does not move. */
  lemma PrefixVerdict(h: Host, id: AnchorId, c: Colour, k: nat)
    requires Genuine(h) && Restorable(h, id, c)
    requires Archive(h, c).id.Some?
    ensures var h' := Restore(h, id, c, k).host;
      (Archivable(h', c) <==> PrefixPasses(SlotOf(h, c), h.anchors[Id(id)], k)) &&
      ActiveRelease(h') == ActiveRelease(h)
  {
    hide MarkerAgrees, Archive, PrefixPasses, GenuineDir, Readable, InstalledAnchor, SharedImagesMatch, IsCommit, IsImageDigest, Genuine;
    ArchiveNeedsAgreement(h, c);
    GenuineInstalled(h, id, c);
    IsAnAnchor(id, h.anchors[Id(id)]);
    var d, saved, slot := h.anchors[Id(id)], Archive(h, c).host, SlotOf(h, c);
    var written := Written(slot, RestoredSlot(id, d, c), k);
    ArchiveGrows(h, c);
    MixedAgrees(c, slot, id, d, k);
    RestoredEnvironmentReadable(saved, id, c);
    StillReadable(h, saved, slot.environment.value);
    hide Written, RestoredSlot, SlotAgrees, Archivable;
    ArchivableSplits(saved, c, written);
  }

  /** A genuine anchor of the same name never makes archive_colour fail. */
  lemma ArchiveSucceeds(h: Host, c: Colour)
    requires Genuine(h)
    ensures Archive(h, c).id.Some? <==> Archivable(h, c)
  {
    hide MarkerAgrees, Readable;
    if Archivable(h, c) && Id(ArchiveId(h, c)) in h.anchors {
      assert GenuineDir(ArchiveId(h, c), h.anchors[Id(ArchiveId(h, c))]);
    }
  }

  /** The slot has a marker, but its files disagree. */
  predicate Torn(h: Host, c: Colour) {
    SlotOf(h, c).marker.Some? && !SlotAgrees(c, SlotOf(h, c))
  }

  lemma TornRefused(h: Host, c: Colour)
    requires Torn(h, c)
    ensures Archive(h, c) == Archived(h, None)
    ensures forall id, k: nat :: Restore(h, id, c, k) == Step(h, false)
  {
    hide MarkerAgrees, Restorable, RestoredSlot;
  }

  lemma {:induction false} ArchiveEachTorn(h: Host, active: Colour, todo: seq<Colour>, found: map<Colour, AnchorId>,
                                           budget: nat, c: Colour)
    requires Torn(h, c) && c in todo
    ensures !ArchiveEach(h, active, todo, found, budget).ok
    decreases |todo|
  {
    hide Archive, MarkerAgrees, Torn;
    if budget > 0 {
      var d := todo[0];
      if SlotOf(h, d).marker.None? {
        if c != d && d != active {
          ArchiveEachTorn(h, active, todo[1..], found, budget - 1, c);
        } else if c == d {
          assert SlotOf(h, c).marker.Some? by { TornHasMarker(h, c); }
        }
      } else {
        var s := Archive(h, d);
        ArchiveGrows(h, d);
        if c == d {
          TornRefused(h, c);
        } else if s.id.Some? {
          TornIsOfTheSlot(h, s.host, c);
          ArchiveEachTorn(s.host, active, todo[1..], found[d := s.id.value], budget - 1, c);
        }
      }
    }
  }

  lemma TornHasMarker(h: Host, c: Colour)
    requires Torn(h, c)
    ensures SlotOf(h, c).marker.Some?
  {
  }

  lemma TornIsOfTheSlot(h: Host, h': Host, c: Colour)
    requires SlotOf(h', c) == SlotOf(h, c)
    ensures Torn(h', c) <==> Torn(h, c)
  {
  }

  lemma TornBlocksArchiving(h: Host, c: Colour)
    requires Torn(h, c)
    ensures forall stop: nat :: !ArchiveColours(h, stop).ok
  {
    hide Torn, ArchiveEach, ActiveRelease;
    forall stop: nat ensures !ArchiveColours(h, stop).ok {
      if ActiveRelease(h).Some? {
        EveryColourListed(c);
        ArchiveEachTorn(h, ActiveRelease(h).value.colour, COLOURS, map[], stop, c);
      }
    }
  }

  lemma EveryColourListed(c: Colour)
    ensures c in COLOURS
  {
    assert COLOURS[0] == Blue && COLOURS[1] == Green;
  }

  predicate StagesInto(op: Op, c: Colour) {
    op.OpStage? && op.colour == c
  }

  lemma RestoreKeepsOther(h: Host, id: AnchorId, d: Colour, k: nat, c: Colour)
    requires c != d
    ensures SlotOf(Restore(h, id, d, k).host, c) == SlotOf(h, c)
  {
    hide Archive, Restorable, RestoredSlot, Written;
    ArchiveGrows(h, d);
  }

  /** Only staging rewrites a torn slot. */
  lemma TornStays(h: Host, op: Op, c: Colour)
    requires Torn(h, c) && !StagesInto(op, c)
    ensures SlotOf(Apply(h, op), c) == SlotOf(h, c)
  {
    hide Torn, Restore, ArchiveEach, ActiveRelease;
    match op
    case OpArchive(stop) =>
      if ActiveRelease(h).Some? {
        ArchiveEachGrows(h, ActiveRelease(h).value.colour, COLOURS, map[], stop);
      }
    case OpRestore(id, d, k) =>
      if d == c {
        TornRefused(h, c);
      } else {
        RestoreKeepsOther(h, id, d, k, c);
      }
    case _ =>
  }

  lemma {:induction false} TornForever(h: Host, ops: seq<Op>, c: Colour)
    requires Torn(h, c) && forall op | op in ops :: !StagesInto(op, c)
    ensures Torn(Run(h, ops), c) && SlotOf(Run(h, ops), c) == SlotOf(h, c)
    decreases |ops|
  {
    hide Torn, Apply, StagesInto;
    if ops != [] {
      assert ops[0] in ops;
      TornStays(h, ops[0], c);
      TornIsOfTheSlot(h, Apply(h, ops[0]), c);
      TornForever(Apply(h, ops[0]), ops[1..], c);
    }
  }

  lemma FailedPrefixIsTorn(h: Host, id: AnchorId, c: Colour, k: nat)
    requires Genuine(h) && Restorable(h, id, c) && Archive(h, c).id.Some?
    requires !PrefixPasses(SlotOf(h, c), h.anchors[Id(id)], k)
    ensures Torn(Restore(h, id, c, k).host, c)
  {
    hide MarkerAgrees, PrefixPasses, RestoredSlot, GenuineDir, Readable, SharedImagesMatch;
    var h' := Restore(h, id, c, k).host;
    MixedAgrees(c, SlotOf(h, c), id, h.anchors[Id(id)], k);
    ArchiveGrows(h, c);
    assert SlotOf(h', c) == Written(SlotOf(h, c), RestoredSlot(id, h.anchors[Id(id)], c), k);
    RestoredHasMarker(id, h.anchors[Id(id)], c);
  }

  lemma RestoredHasMarker(id: AnchorId, d: Dir, c: Colour)
    requires d.Anchor?
    ensures RestoredSlot(id, d, c).marker.Some?
  {
  }

  /** No anchor is ever made from a half-restored slot: whenever the prefix fails, then
      after any further steps that do not stage into the slot it is still as the crash left
      it, archive_colour refuses it and leaves the host alone, archive_colours fails as a
      whole, and every restore into it is refused, whichever anchor it names. */
  lemma HalfRestoredIsStuck(h: Host, id: AnchorId, c: Colour, k: nat, ops: seq<Op>)
    requires Genuine(h) && Restorable(h, id, c) && Archive(h, c).id.Some?
    requires !PrefixPasses(SlotOf(h, c), h.anchors[Id(id)], k)
    requires forall op | op in ops :: !StagesInto(op, c)
    ensures var crashed := Restore(h, id, c, k).host;
      var later := Run(crashed, ops);
      && SlotOf(later, c) == SlotOf(crashed, c)
      && Archive(later, c) == Archived(later, None)
      && (forall stop: nat :: !ArchiveColours(later, stop).ok)
      && (forall again, j: nat :: Restore(later, again, c, j) == Step(later, false))
  {
    hide Torn, PrefixPasses, Restorable, Restore, Archive, ArchiveColours, Genuine, StagesInto, Run;
    var crashed := Restore(h, id, c, k).host;
    FailedPrefixIsTorn(h, id, c, k);
    TornForever(crashed, ops, c);
    TornRefused(Run(crashed, ops), c);
    TornBlocksArchiving(Run(crashed, ops), c);
  }

  /** Repeating an interrupted restore works exactly when the prefix passes. */
  lemma RetryVerdict(h: Host, id: AnchorId, c: Colour, k: nat)
    requires Genuine(h) && Restorable(h, id, c) && Archive(h, c).id.Some?
    ensures var h' := Restore(h, id, c, k).host;
      Restore(h', id, c, WRITES + 1).ok <==> PrefixPasses(SlotOf(h, c), h.anchors[Id(id)], k)
  {
    hide Archivable, PrefixPasses, RestoredSlot, GenuineDir, Restorable, Restore, Archive, Genuine;
    var h' := Restore(h, id, c, k).host;
    PrefixVerdict(h, id, c, k);
    RestoreGenuine(h, id, c, k);
    ArchiveSucceeds(h', c);
    RestorableAgain(h, id, c, k);
    RestoreOutcome(h, id, c, k);
    RestoreOutcome(h', id, c, WRITES + 1);
  }

  lemma RestoreOutcome(h: Host, id: AnchorId, c: Colour, k: nat)
    ensures var s := Restore(h, id, c, k);
      (s.ok <==> Restorable(h, id, c) && (SlotOf(h, c).marker.Some? ==> Archive(h, c).id.Some?) && k > WRITES) &&
      (Archive(h, c).id.Some? ==> SlotOf(h, c).marker.Some? && SlotOf(s.host, c).marker.Some?)
  {
    ArchiveGrows(h, c);
    ArchiveNeedsMarker(h, c);
    hide Restorable, Archive;
  }

  lemma ArchiveNeedsMarker(h: Host, c: Colour)
    ensures Archive(h, c).id.Some? ==> SlotOf(h, c).marker.Some?
  {
  }

  lemma RestorableAgain(h: Host, id: AnchorId, c: Colour, k: nat)
    requires Restorable(h, id, c)
    ensures Restorable(Restore(h, id, c, k).host, id, c)
  {
    ArchiveGrows(h, c);
    hide Archive, RestoredSlot, ConfigurationRoot, SharedImagesMatch;
  }

  // -------------------------------------------------------------------- complete restore

  lemma RestoredHost(h: Host, id: AnchorId, c: Colour)
    requires Restore(h, id, c, WRITES + 1).ok
    ensures var h' := Restore(h, id, c, WRITES + 1).host;
      && Id(id) in h.anchors && h.anchors[Id(id)].Anchor? && Id(id) in h'.anchors && h'.anchors[Id(id)] == h.anchors[Id(id)]
      && SlotOf(h', c) == RestoredSlot(id, h.anchors[Id(id)], c)
      && (forall d | d != c :: SlotOf(h', d) == SlotOf(h, d))
  {
    hide Archive, RestoredSlot, ConfigurationRetained, SharedImagesMatch, ActiveRelease;
    ArchiveGrows(h, c);
  }

  lemma RestoredSettings(h: Host, id: AnchorId, c: Colour)
    requires Id(id) in h.anchors && GenuineDir(id, h.anchors[Id(id)])
    requires SlotOf(h, c).(stageReceipt := None) == RestoredSlot(id, h.anchors[Id(id)], c)
    ensures Archivable(h, c) && Captured(h, c).settings == h.anchors[Id(id)].files.settings
  {
    hide VerifyAnchor, MarkerAgrees, Readable, GenuineDir;
    var d := h.anchors[Id(id)];
    IsAnAnchor(id, d);
    RestoredSlotAgrees(id, d, c);
    RestoredEnvironmentReadable(h, id, c);
    var environment := SlotOf(h, c).environment.value;
    assert environment == RestoredSlot(id, d, c).environment.value;
    assert Archivable(h, c) by { hide RestoredSlot; RestoredHasMarker(id, d, c); }
    RestoredSources(h, id, c);
  }

  lemma RestoredSources(h: Host, id: AnchorId, c: Colour)
    requires Id(id) in h.anchors && GenuineDir(id, h.anchors[Id(id)])
    ensures var d := h.anchors[Id(id)];
      var settings := RestoredSlot(id, d, c).environment.value.settings;
      settings.Keys == d.files.settings.Keys && forall leaf | leaf in settings :: ReadSource(h, settings[leaf]) == Some(d.files.settings[leaf])
  {
    hide IsCommit, IsImageDigest, ConfigurationRoot, VerifyAnchor;
  }

  /** Archive and restore are inverse: archiving a completely restored slot succeeds and
      captures the anchor's own manifest, settings, images and configuration again, for the
      slot's colour; the environment differs in its upstream alone.  The other slot stays. */
  lemma RestoreRoundTrip(h: Host, id: AnchorId, c: Colour)
    requires Genuine(h) && Restore(h, id, c, WRITES + 1).ok
    ensures var h', was := Restore(h, id, c, WRITES + 1).host, h.anchors[Id(id)];
      was.Anchor? && Archivable(h', c) && Archive(h', c).id == Some(ArchiveId(h', c)) &&
      var now := Captured(h', c);
      && now.manifest == was.files.manifest && now.settings == was.files.settings
      && now.marker == [ColourName(c)] + was.files.marker[1..]
      && now.config == was.files.config.(colour := ColourName(c))
      && now.environment.values == was.files.environment.values["SNOW_UPSTREAM" := "public-api-" + ColourName(c) + ":8000"]
      && SlotOf(h', c).stageReceipt.None? && SlotOf(h', Other(c)) == SlotOf(h, Other(c))
  {
    hide IsCommit, IsImageDigest, ConfigurationRoot, VerifyAnchor, Restore, Archive, Archivable, Restorable;
    var h' := Restore(h, id, c, WRITES + 1).host;
    RestoredHost(h, id, c);
    RestoreGenuine(h, id, c, WRITES + 1);
    RestoredSettings(h', id, c);
    ArchiveSucceeds(h', c);
    ArchiveNames(h', c);
  }

  lemma ArchiveNames(h: Host, c: Colour)
    ensures Archive(h, c).id.Some? ==> Archivable(h, c) && Archive(h, c).id.value == ArchiveId(h, c)
  {
    hide Archivable, VerifyAnchor;
  }

  // ----------------------------------------------------------- a slot without a marker

  lemma FreshSlotEnds(h: Host, id: AnchorId, c: Colour, k: nat)
    requires Restorable(h, id, c) && SlotOf(h, c).marker.None?
    ensures var h' := Restore(h, id, c, k).host;
      && h'.anchors == h.anchors && h'.slots == h.slots[c := Written(SlotOf(h, c), RestoredSlot(id, h.anchors[Id(id)], c), k)]
  {
    hide Restorable, RestoredSlot, Archive;
  }

  /** Once the marker is written such a slot can be archived. */
  lemma FreshSlotArchivable(h: Host, id: AnchorId, c: Colour, k: nat)
    requires Genuine(h) && Restorable(h, id, c) && SlotOf(h, c).marker.None? && k >= WRITES
    ensures Archive(Restore(h, id, c, k).host, c).id.Some?
  {
    hide Restorable, RestoredSlot, Archive, Archivable, Genuine, Restore, Captured, GenuineDir;
    GenuineInstalled(h, id, c);
    IsAnAnchor(id, h.anchors[Id(id)]);
    var h', target := Restore(h, id, c, k).host, RestoredSlot(id, h.anchors[Id(id)], c);
    FreshSlotEnds(h, id, c, k);
    RestoredSlotShape(id, h.anchors[Id(id)], c);
    assert SlotOf(h', c).(stageReceipt := None) == target;
    RestoredSettings(h', id, c);
    RestoreGenuine(h, id, c, k);
    ArchiveSucceeds(h', c);
  }

  lemma IsAnAnchor(id: AnchorId, d: Dir)
    requires GenuineDir(id, d)
    ensures d.Anchor?
  {
  }

  /** Into a slot that never had a marker, an interrupted restore can always be repeated and
      leaves the slots as an uninterrupted one; until the marker is written the whole host
      is the same. */
  lemma FreshSlotRetry(h: Host, id: AnchorId, c: Colour, k: nat)
    requires Genuine(h) && Restorable(h, id, c) && SlotOf(h, c).marker.None?
    ensures var whole := Restore(h, id, c, WRITES + 1);
      var again := Restore(Restore(h, id, c, k).host, id, c, WRITES + 1);
      whole.ok && again.ok && again.host.slots == whole.host.slots && (k < WRITES ==> again == whole)
  {
    hide Restorable, RestoredSlot, Archive, Genuine, GenuineDir;
    GenuineInstalled(h, id, c);
    IsAnAnchor(id, h.anchors[Id(id)]);
    var h', target := Restore(h, id, c, k).host, RestoredSlot(id, h.anchors[Id(id)], c);
    RestorableAgain(h, id, c, k);
    FreshSlotEnds(h, id, c, k);
    if k >= WRITES {
      FreshSlotArchivable(h, id, c, k);
      ArchiveGrows(h', c);
    }
    assert h'.slots[c := Written(SlotOf(h', c), target, WRITES + 1)]
        == h.slots[c := Written(SlotOf(h, c), target, WRITES + 1)];
  }

  lemma RestoredSlotShape(id: AnchorId, d: Dir, c: Colour)
    requires d.Anchor?
    ensures RestoredSlot(id, d, c).stageReceipt.None?
  {
  }

  lemma GenuineInstalled(h: Host, id: AnchorId, c: Colour)
    requires Genuine(h) && Restorable(h, id, c)
    ensures Id(id) in h.anchors && GenuineDir(id, h.anchors[Id(id)])
  {
    hide GenuineDir;
  }
}
