// Archiving, marking, retiring and restoring recovery anchors.
module Retention {
  import opened Prelude
  import opened ReleaseModel
  import opened Baselines

  /** Result of an operation: the host afterwards and whether the operation succeeded.
      An operation that raises may still have changed the host. */
  datatype Step = Step(host: Host, ok: bool)

  // ---------------------------------------------------------------- archive_colour

  predicate MarkerAgrees(c: Colour, words: seq<string>, manifest: Manifest, config: Binding, env: Environment) {
    |words| == 4 && words[0] == ColourName(c) &&
    IsCommit(words[1]) && IsImageDigest(words[2]) && IsImageDigest(words[3]) &&
    manifest.commit == words[1] && config.commit == words[1] && config.colour == ColourName(c) &&
    Get(env.values, "PUBLIC_API_IMAGE") == Some(words[2]) &&
    Get(env.values, "EMBEDDING_IMAGE") == Some(words[3]) &&
    config.root == ConfigurationRoot(words[1])
  }

  predicate Archivable(h: Host, c: Colour) {
    var slot := SlotOf(h, c);
    slot.marker.Some? && slot.manifest.Some? && slot.config.Some? && slot.environment.Some? &&
    MarkerAgrees(c, slot.marker.value, slot.manifest.value, slot.config.value, slot.environment.value) &&
    Readable(h, slot.environment.value)
  }

  function Captured(h: Host, c: Colour): Files
    requires Archivable(h, c)
  {
    var slot := SlotOf(h, c);
    var env := slot.environment.value;
    Files(slot.marker.value, slot.manifest.value, slot.config.value, env,
          map leaf | leaf in env.settings :: ReadSource(h, env.settings[leaf]).value)
  }

  function IdOf(f: Files): AnchorId
    requires |f.marker| == 4
  {
    AnchorId(f.marker[1], IdentityOf(HashFiles(f)))
  }

  function DirOf(f: Files): Dir
    requires |f.marker| == 4
  {
    Anchor(Metadata(IdOf(f), f.marker[1], f.marker[0], f.marker[2], f.marker[3], HashFiles(f)), f)
  }

  function ArchiveId(h: Host, c: Colour): AnchorId
    requires Archivable(h, c)
  {
    IdOf(Captured(h, c))
  }

  /** Result of archive_colour: the host, and the anchor's id unless it raised. */
  datatype Archived = Archived(host: Host, id: Option<AnchorId>)

  /** archive_colour: an existing anchor is verified and kept, a new one is added. */
  function Archive(h: Host, c: Colour): Archived {
    if !Archivable(h, c) then Archived(h, None)
    else
      var id := ArchiveId(h, c);
      if Id(id) !in h.anchors then Archived(h.(anchors := h.anchors[Id(id) := DirOf(Captured(h, c))]), Some(id))
      else if VerifyAnchor(id, h.anchors[Id(id)]) then Archived(h, Some(id))
      else Archived(h, None)
  }

  // --------------------------------------------------------------- archive_colours

  /** How far the loop over the colours got: the host, whether every colour passed, and
      the anchors found so far. */
  datatype Progress = Progress(host: Host, ok: bool, found: map<Colour, AnchorId>)

  /** The loop over the colours, killed after `budget` rounds.  A colour without a marker
      is skipped unless it is the active one. */
  function ArchiveEach(h: Host, active: Colour, todo: seq<Colour>, found: map<Colour, AnchorId>, budget: nat)
    : (r: Progress)
    ensures r.ok ==> found.Keys <= r.found.Keys && (active in todo ==> active in r.found)
    decreases |todo|
  {
    if todo == [] then Progress(h, true, found)
    else if budget == 0 then Progress(h, false, found)
    else
      var c := todo[0];
      if SlotOf(h, c).marker.None? then
        if c == active then Progress(h, false, found)
        else ArchiveEach(h, active, todo[1..], found, budget - 1)
      else
        var s := Archive(h, c);
        if s.id.None? then Progress(s.host, false, found)
        else ArchiveEach(s.host, active, todo[1..], found[c := s.id.value], budget - 1)
  }

  const COLOURS := [Blue, Green]

  /** archive_colours, killed after `stop` of its three effects (blue, green, index). */
  function ArchiveColours(h: Host, stop: nat): Step {
    var active := ActiveRelease(h);
    if active.None? then Step(h, false)
    else
      assert active.value.colour in COLOURS by { assert COLOURS[0] == Blue && COLOURS[1] == Green; }
      var p := ArchiveEach(h, active.value.colour, COLOURS, map[], stop);
      if !p.ok || stop <= |COLOURS| then Step(p.host, false)
      else Step(p.host.(index := Some(Index(p.found[active.value.colour], p.found))), true)
  }

  // ------------------------------------------------------------------ baseline_mark

  predicate IsDigits(s: string) {
    |s| > 0 && forall i | 0 <= i < |s| :: '0' <= s[i] <= '9'
  }

  /** x.Y.0: two dots, decimal fields, last field exactly 0. */
  predicate IsFeatureVersion(s: string) {
    exists i, j :: 0 <= i < j < |s| && s[i] == '.' && s[j] == '.' &&
      IsDigits(s[..i]) && IsDigits(s[i + 1..j]) && s[j + 1..] == "0"
  }

  /** 1.0.0 was reused by many builds, so it is accepted for one release only. */
  predicate MayBeBaseline(id: AnchorId, version: string, grandfathered: AnchorId) {
    if version == "1.0.0" then id == grandfathered else IsFeatureVersion(version)
  }

  function Mark(h: Host, id: AnchorId, grandfathered: AnchorId, now: int): Step {
    if !InstalledAnchor(h, id) then Step(h, false)
    else
      var dir := h.anchors[Id(id)];
      var version := dir.files.manifest.appVersion;
      if !MayBeBaseline(id, version, grandfathered) then Step(h, false)
      else Step(h.(registry := MarkRegistry(h.registry, Baseline(id, version, dir.meta.commit, now))), true)
  }

  // --------------------------------------------------------------------- retirement

  function Referenced(h: Host): set<AnchorId> {
    if h.index.None? then {} else h.index.value.colours.Values + {h.index.value.active}
  }

  function Protected(h: Host): set<AnchorId> {
    Referenced(h) + ActiveBaselines(h.registry)
  }

  /** The index names, for each colour, an anchor of the commit now in that slot. */
  predicate IndexIsFresh(h: Host) {
    h.index.Some? &&
    forall c: Colour :: var marker := SlotOf(h, c).marker;
      marker.Some? && |marker.value| >= 2 && c in h.index.value.colours &&
      h.index.value.colours[c].commit == marker.value[1]
  }

  /** anchor_retire.  `backedUp` is the verdict of the backup precondition. */
  function Retire(h: Host, n: Name, backedUp: bool): Step {
    if n in h.anchors && IndexIsFresh(h) &&
       (n.Id? ==> VerifyNamed(n, h.anchors[n]) && n.id !in Protected(h)) &&
       (backedUp || n == LegacyBaseline) && n !in h.retired
    then Step(h.(anchors := h.anchors - {n}, retired := h.retired[n := h.anchors[n]]), true)
    else Step(h, false)
  }

  /** anchor_unretire moves first and verifies afterwards. */
  function Unretire(h: Host, n: Name): Step {
    if n in h.retired && n !in h.anchors
    then Step(h.(anchors := h.anchors[n := h.retired[n]], retired := h.retired - {n}), VerifyNamed(n, h.retired[n]))
    else Step(h, false)
  }

  // ------------------------------------------------------------------ restore_colour

  const SHARED_KEYS := ["POSTGRES_IMAGE", "QDRANT_IMAGE", "NEO4J_IMAGE", "EGRESS_PROXY_IMAGE"]

  /** Every shared image other than the embedding image matches the running runtime. */
  predicate SharedImagesMatch(a: Environment, b: Environment) {
    forall i | 0 <= i < |SHARED_KEYS| :: Get(a.values, SHARED_KEYS[i]) == Get(b.values, SHARED_KEYS[i])
  }

  predicate ConfigurationRetained(h: Host, commit: string, binding: Binding) {
    binding.root == ConfigurationRoot(commit) && commit in h.configurations &&
    forall name | name in binding.hashes ::
      name in h.configurations[commit] && Sha256(h.configurations[commit][name]) == binding.hashes[name]
  }

  predicate Restorable(h: Host, id: AnchorId, c: Colour) {
    var active := ActiveRelease(h);
    active.Some? && c != active.value.colour && InstalledAnchor(h, id) &&
    SharedImagesMatch(h.anchors[Id(id)].files.environment, h.runtime) &&
    ConfigurationRetained(h, h.anchors[Id(id)].meta.commit, h.anchors[Id(id)].files.config)
  }

  /** The slot contents restore_colour publishes. */
  function RestoredSlot(id: AnchorId, d: Dir, c: Colour): Slot
    requires d.Anchor?
  {
    var f := d.files;
    Slot(Some(Environment(f.environment.values["SNOW_UPSTREAM" := "public-api-" + ColourName(c) + ":8000"],
                          f.environment.settings + map leaf | leaf in f.settings :: InAnchor(id, leaf))),
         Some(f.manifest),
         Some(f.config.(colour := ColourName(c))),
         Some([ColourName(c), d.meta.commit, d.meta.application, d.meta.embedding]),
         None)
  }

  const WRITES := 4

  /** The first `k` of the four ordered writes: environment, manifest, binding, marker;
      one more step removes the stage receipt. */
  function Written(slot: Slot, target: Slot, k: nat): Slot {
    Slot(if k >= 1 then target.environment else slot.environment,
         if k >= 2 then target.manifest else slot.manifest,
         if k >= 3 then target.config else slot.config,
         if k >= 4 then target.marker else slot.marker,
         if k >= 5 then target.stageReceipt else slot.stageReceipt)
  }

  /** restore_colour, killed after `k` writes; it finishes when k exceeds WRITES. */
  function Restore(h: Host, id: AnchorId, c: Colour, k: nat): Step {
    if !Restorable(h, id, c) then Step(h, false)
    else
      var saved := if SlotOf(h, c).marker.Some? then Archive(h, c) else Archived(h, Some(id));
      if saved.id.None? then Step(saved.host, false)
      else
        var slot := Written(SlotOf(h, c), RestoredSlot(id, h.anchors[Id(id)], c), k);
        Step(saved.host.(slots := saved.host.slots[c := slot]), k > WRITES)
  }

  // ----------------------------------------------------------------------- any run

  /** Operations of the maintenance helper, and what the release runner and operators
      may do to the rest of the host in between. */
  datatype Op =
    | OpArchive(stop: nat)
    | OpMark(id: AnchorId, grandfathered: AnchorId, now: int)
    | OpRetire(name: Name, backedUp: bool)
    | OpUnretire(name: Name)
    | OpRestore(id: AnchorId, colour: Colour, writes: nat)
    | OpStage(colour: Colour, slot: Slot)
    | OpPromote(activeColour: string, current: seq<string>, manifest: Manifest, config: Binding, runtime: Environment)
    | OpSettings(settings: map<string, string>, configurations: map<string, map<string, string>>)

  ghost function Apply(h: Host, op: Op): Host {
    match op
    case OpArchive(stop) => ArchiveColours(h, stop).host
    case OpMark(id, g, now) => Mark(h, id, g, now).host
    case OpRetire(n, backedUp) => Retire(h, n, backedUp).host
    case OpUnretire(n) => Unretire(h, n).host
    case OpRestore(id, c, k) => Restore(h, id, c, k).host
    case OpStage(c, slot) => h.(slots := h.slots[c := slot])
    case OpPromote(c, words, manifest, config, runtime) =>
      h.(activeColour := c, current := words, currentManifest := manifest, currentConfig := config, runtime := runtime)
    case OpSettings(s, k) => h.(settings := s, configurations := k)
  }

  ghost function Run(h: Host, ops: seq<Op>): Host
    decreases |ops|
  {
    if ops == [] then h else Run(Apply(h, ops[0]), ops[1..])
  }

  /** The bytes `d` are on the host under the name `n`. */
  ghost predicate Holds(h: Host, n: Name, d: Dir) {
    (n in h.anchors && h.anchors[n] == d) || (n in h.retired && h.retired[n] == d)
  }

  ghost predicate Kept(h: Host, h': Host) {
    forall n, d :: Holds(h, n, d) ==> Holds(h', n, d)
  }

  /** Every protected anchor is intact where a rollback looks for it. */
  ghost predicate RollbackReady(h: Host) {
    forall id | id in Protected(h) :: InstalledAnchor(h, id)
  }

  /** The anchors directory only gained entries. */
  ghost predicate Grows(h: Host, h': Host) {
    h'.retired == h.retired && h'.registry == h.registry &&
    forall n | n in h.anchors :: n in h'.anchors && h'.anchors[n] == h.anchors[n]
  }

  lemma GrowsKeeps(h: Host, h': Host)
    requires Grows(h, h')
    ensures Kept(h, h')
    ensures forall id :: InstalledAnchor(h, id) ==> InstalledAnchor(h', id)
  {
  }

  /** Only the anchors directory changed, by gaining entries. */
  ghost predicate OnlyAnchorsGrow(h: Host, h': Host) {
    Grows(h, h') && h' == h.(anchors := h'.anchors)
  }

  lemma CapturedVerifies(h: Host, c: Colour)
    requires Archivable(h, c)
    ensures VerifyAnchor(ArchiveId(h, c), DirOf(Captured(h, c)))
  {
    hide Readable, IsCommit, IsImageDigest;
  }

  lemma ArchiveGrows(h: Host, c: Colour)
    ensures var s := Archive(h, c);
      OnlyAnchorsGrow(h, s.host) &&
      (s.id.Some? ==> InstalledAnchor(s.host, s.id.value))
  {
    hide VerifyAnchor, ArchiveId, Captured, DirOf, Archivable;
    if Archivable(h, c) {
      CapturedVerifies(h, c);
    }
  }

  ghost predicate AllInstalled(h: Host, found: map<Colour, AnchorId>) {
    forall c | c in found :: InstalledAnchor(h, found[c])
  }

  lemma FoundCarries(h: Host, h': Host, found: map<Colour, AnchorId>, c: Colour, id: AnchorId)
    requires Grows(h, h') && AllInstalled(h, found) && InstalledAnchor(h', id)
    ensures AllInstalled(h', found) && AllInstalled(h', found[c := id])
  {
    GrowsKeeps(h, h');
  }

  lemma GrowsTransitive(a: Host, b: Host, c: Host)
    requires OnlyAnchorsGrow(a, b) && OnlyAnchorsGrow(b, c)
    ensures OnlyAnchorsGrow(a, c)
  {
  }

  lemma {:induction false} ArchiveEachGrows(h: Host, active: Colour, todo: seq<Colour>,
                                            found: map<Colour, AnchorId>, budget: nat)
    requires AllInstalled(h, found)
    ensures var p := ArchiveEach(h, active, todo, found, budget);
      OnlyAnchorsGrow(h, p.host) && (p.ok ==> AllInstalled(p.host, p.found))
    decreases |todo|
  {
    hide Archive, InstalledAnchor, AllInstalled;
    if todo != [] && budget > 0 {
      var c := todo[0];
      if SlotOf(h, c).marker.None? {
        ArchiveEachGrows(h, active, todo[1..], found, budget - 1);
      } else {
        var s := Archive(h, c);
        ArchiveGrows(h, c);
        if s.id.Some? {
          FoundCarries(h, s.host, found, c, s.id.value);
          var found' := found[c := s.id.value];
          ArchiveEachGrows(s.host, active, todo[1..], found', budget - 1);
          var p := ArchiveEach(s.host, active, todo[1..], found', budget - 1);
          assert ArchiveEach(h, active, todo, found, budget) == p;
          GrowsTransitive(h, s.host, p.host);
        }
      }
    }
  }

  lemma ReadyCarries(h: Host, h': Host)
    requires RollbackReady(h) && Grows(h, h')
    requires h'.index == h.index || forall id | id in Referenced(h') :: InstalledAnchor(h', id)
    ensures RollbackReady(h') && Kept(h, h')
  {
    GrowsKeeps(h, h');
    forall id | id in Protected(h') ensures InstalledAnchor(h', id) {
      if id in ActiveBaselines(h.registry) {
        assert id in Protected(h);
      } else {
        assert id in Referenced(h');
        if h'.index == h.index {
          assert id in Protected(h);
        }
      }
    }
  }

  lemma ActiveIsFound(h: Host, active: Colour, stop: nat)
    ensures var p := ArchiveEach(h, active, COLOURS, map[], stop); p.ok ==> active in p.found
  {
    assert active in COLOURS by { assert COLOURS[0] == Blue && COLOURS[1] == Green; }
  }

  lemma NewIndexInstalled(h: Host, found: map<Colour, AnchorId>, active: Colour)
    requires AllInstalled(h, found) && active in found
    ensures var h' := h.(index := Some(Index(found[active], found)));
      forall id | id in Referenced(h') :: InstalledAnchor(h', id)
  {
    hide VerifyAnchor;
  }

  lemma ArchiveColoursReady(h: Host, stop: nat)
    requires RollbackReady(h)
    ensures RollbackReady(ArchiveColours(h, stop).host) && Kept(h, ArchiveColours(h, stop).host)
  {
    hide ActiveRelease, ArchiveEach, InstalledAnchor, RollbackReady, Kept;
    if ActiveRelease(h).Some? {
      var active := ActiveRelease(h).value.colour;
      var p := ArchiveEach(h, active, COLOURS, map[], stop);
      ArchiveEachGrows(h, active, COLOURS, map[], stop);
      ActiveIsFound(h, active, stop);
      if p.ok {
        NewIndexInstalled(p.host, p.found, active);
      }
      ReadyCarries(h, ArchiveColours(h, stop).host);
    } else {
      ReadyCarries(h, h);
    }
  }

  lemma RestoreReady(h: Host, id: AnchorId, c: Colour, k: nat)
    requires RollbackReady(h)
    ensures RollbackReady(Restore(h, id, c, k).host) && Kept(h, Restore(h, id, c, k).host)
  {
    hide Archive, Restorable, RestoredSlot, RollbackReady, Kept;
    ArchiveGrows(h, c);
    assert Grows(h, Restore(h, id, c, k).host);
    ReadyCarries(h, Restore(h, id, c, k).host);
  }

  lemma MarkReady(h: Host, id: AnchorId, grandfathered: AnchorId, now: int)
    requires RollbackReady(h)
    ensures RollbackReady(Mark(h, id, grandfathered, now).host)
    ensures Kept(h, Mark(h, id, grandfathered, now).host)
  {
    var h' := Mark(h, id, grandfathered, now).host;
    if Mark(h, id, grandfathered, now).ok {
      var dir := h.anchors[Id(id)];
      MarkActive(h.registry, Baseline(id, dir.files.manifest.appVersion, dir.meta.commit, now));
    }
    forall x | x in Protected(h') ensures InstalledAnchor(h', x) {
      assert x == id || x in Protected(h);
    }
  }

  lemma RetireReady(h: Host, n: Name, backedUp: bool)
    requires RollbackReady(h)
    ensures RollbackReady(Retire(h, n, backedUp).host) && Kept(h, Retire(h, n, backedUp).host)
  {
    var h' := Retire(h, n, backedUp).host;
    forall x | x in Protected(h') ensures InstalledAnchor(h', x) {
      assert x in Protected(h) && InstalledAnchor(h, x);
    }
  }

  /** One step of the helper or of its environment keeps both halves of the guarantee. */
  lemma StepReady(h: Host, op: Op)
    requires RollbackReady(h)
    ensures RollbackReady(Apply(h, op)) && Kept(h, Apply(h, op))
  {
    var h' := Apply(h, op);
    match op
    case OpArchive(stop) => ArchiveColoursReady(h, stop);
    case OpMark(id, g, now) => MarkReady(h, id, g, now);
    case OpRetire(n, backedUp) => RetireReady(h, n, backedUp);
    case OpRestore(id, c, k) => RestoreReady(h, id, c, k);
    case OpUnretire(n) =>
      forall x | x in Protected(h') ensures InstalledAnchor(h', x) {
        assert x in Protected(h) && InstalledAnchor(h, x);
      }
    case _ => ReadyCarries(h, h');
  }

  /** In every reachable state each anchor named by latest.json and each active baseline
      is intact under releases/anchors, and nothing ever archived is lost or altered. */
  lemma {:induction false} RunReady(h: Host, ops: seq<Op>)
    requires RollbackReady(h)
    ensures RollbackReady(Run(h, ops)) && Kept(h, Run(h, ops))
    decreases |ops|
  {
    if ops != [] {
      StepReady(h, ops[0]);
      RunReady(Apply(h, ops[0]), ops[1..]);
    }
  }
}
