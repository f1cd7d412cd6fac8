// Image collection: what image_gc_plan offers for deletion, and why deleting it can
// never remove an image that a retained release, the runtime or a container needs.
module ImageGc {
  import opened Prelude
  import opened ReleaseModel
  import opened Retention

  /** A container uses the runnable image it reports and, with containerd, the index image
      that the daemon counts it for. */
  datatype Container = Container(image: string, index: string)

  /** The daemon: installed images with their tags and digests, what every reference
      resolves to, and all containers. */
  datatype Daemon = Daemon(images: map<string, set<string>>, names: map<string, string>,
                           containers: map<string, Container>)

  const SNOW_REPOSITORIES := {"ghcr.io/x1aob/project_snow-public", "ghcr.io/x1aob/project_snow-embedding"}

  function FirstAt(s: string): (n: nat)
    ensures n <= |s|
  {
    if s == "" || s[0] == '@' then 0 else 1 + FirstAt(s[1..])
  }

  function LastColon(s: string): (n: nat)
    ensures n <= |s|
  {
    if s == "" then 0 else if s[|s| - 1] == ':' then |s| - 1
    else var n := LastColon(s[..|s| - 1]); if n == |s| - 1 then |s| else n
  }

  /** `repo@sha256:...` or `repo:tag` without its digest or tag. */
  function RepositoryOf(reference: string): string {
    if '@' in reference then reference[..FirstAt(reference)] else reference[..LastColon(reference)]
  }

  predicate IsBareIdentity(s: string) {
    |s| == 71 && s[..7] == "sha256:" && IsSha256Hex(s[7..])
  }

  // ------------------------------------------------------- protected_image_references

  function Digests(values: map<string, string>): set<string> {
    set v | v in values.Values && IsImageDigest(v)
  }

  function DirReferences(d: Dir): set<string> {
    match d
    case Anchor(_, files) => Digests(files.environment.values)
    case LegacyDir(references, _) => references
  }

  function SlotReferences(s: Slot): set<string> {
    (if s.environment.Some? then Digests(s.environment.value.values) else {}) +
    (if s.manifest.Some? then ManifestReferences(s.manifest.value) else {})
  }

  function ManifestReferences(m: Manifest): set<string> {
    set r | r in {m.application, m.embedding} && IsImageDigest(r)
  }

  /** An anchor that fails verification, or an entry of unknown form, disables collection. */
  predicate Reconciled(h: Host, strays: set<string>) {
    strays == {} && forall n | n in h.anchors :: VerifyNamed(n, h.anchors[n])
  }

  function ProtectedReferences(h: Host): set<string> {
    (set n, r | n in h.anchors && r in DirReferences(h.anchors[n]) :: r) +
    (set c, r | c in h.slots && r in SlotReferences(h.slots[c]) :: r) +
    Digests(h.runtime.values) + ManifestReferences(h.currentManifest)
  }

  // ------------------------------------------------------------------- image_gc_plan

  function ContainerImages(d: Daemon): set<string> {
    (set c | c in d.containers :: d.containers[c].image) + (set c | c in d.containers :: d.containers[c].index)
  }

  function ProtectedIds(d: Daemon, references: set<string>): set<string> {
    ContainerImages(d) +
    (set r | r in references && IsBareIdentity(r)) +
    (set r | r in references && r in d.names :: d.names[r])
  }

  predicate SnowOnly(coordinates: set<string>) {
    coordinates != {} && forall r | r in coordinates :: RepositoryOf(r) in SNOW_REPOSITORIES
  }

  function Candidates(d: Daemon, references: set<string>): set<string> {
    set i | i in d.images && i !in ProtectedIds(d, references) && SnowOnly(d.images[i])
  }

  predicate Plannable(h: Host, strays: set<string>, d: Daemon) {
    Reconciled(h, strays) && forall r | r in ProtectedReferences(h) :: r in d.names
  }

  /** None when a protected reference is missing or the anchors are not reconciled. */
  function Plan(h: Host, strays: set<string>, d: Daemon): Option<set<string>> {
    if Plannable(h, strays, d) then Some(Candidates(d, ProtectedReferences(h))) else None
  }

  // ---------------------------------------------------------------- the daemon's steps

  predicate InUse(d: Daemon, i: string) {
    i in ContainerImages(d)
  }

  /** `docker image rm`, not forced: refused for an image in use. */
  function RemoveImage(d: Daemon, i: string): Daemon {
    if InUse(d, i) then d
    else d.(images := d.images - {i}, names := map r | r in d.names && d.names[r] != i :: d.names[r])
  }

  datatype World = World(host: Host, strays: set<string>, daemon: Daemon)

  datatype Event =
    | HostOp(op: Op)
    | Start(name: string, container: Container)
    | Stop(name: string)
    | Pull(reference: string, image: string)
    | Delete(image: string)

  ghost function Happen(w: World, e: Event): World {
    match e
    case HostOp(op) => w.(host := Apply(w.host, op))
    case Start(n, c) => if n in w.daemon.containers then w
      else w.(daemon := w.daemon.(containers := w.daemon.containers[n := c]))
    case Stop(n) => w.(daemon := w.daemon.(containers := w.daemon.containers - {n}))
    case Pull(r, i) => if r in w.daemon.names then w
      else w.(daemon := w.daemon.(names := w.daemon.names[r := i],
        images := w.daemon.images[i := (if i in w.daemon.images then w.daemon.images[i] else {}) + {r}]))
    case Delete(i) =>
      var plan := Plan(w.host, w.strays, w.daemon);
      if plan.Some? && i in plan.value then w.(daemon := RemoveImage(w.daemon, i)) else w
  }

  ghost function Unfold(w: World, events: seq<Event>): World
    decreases |events|
  {
    if events == [] then w else Unfold(Happen(w, events[0]), events[1..])
  }

  /** The reference names this image. */
  predicate Refers(d: Daemon, r: string, i: string) {
    r in d.names && d.names[r] == i
  }

  /** The reference names this image and the image is installed. */
  predicate Resolves(d: Daemon, r: string, i: string) {
    Refers(d, r, i) && i in d.images
  }

  /** A reference of a repository: its bare name, any digest, or one tag. */
  predicate IsOf(reference: string, repository: string) {
    || reference == repository
    || repository + "@" <= reference
    || (repository + ":" <= reference &&
        var tag := reference[|repository| + 1..];
        ':' !in tag && '@' !in tag)
  }

  predicate FromSnow(reference: string) {
    IsOf(reference, "ghcr.io/x1aob/project_snow-public") || IsOf(reference, "ghcr.io/x1aob/project_snow-embedding")
  }

  lemma {:induction false} FirstAtIs(a: string, b: string)
    requires '@' !in a
    ensures FirstAt(a + "@" + b) == |a|
  {
    if a != "" {
      assert forall c | c in a[1..] :: c in a;
      assert (a + "@" + b)[1..] == a[1..] + "@" + b;
      FirstAtIs(a[1..], b);
    }
  }

  lemma {:induction false} BeforeFirstAt(s: string)
    ensures '@' !in s[..FirstAt(s)] && (FirstAt(s) < |s| ==> s[FirstAt(s)] == '@') && (FirstAt(s) == |s| <==> '@' !in s)
  {
    if s != "" && s[0] != '@' {
      BeforeFirstAt(s[1..]);
      assert s == [s[0]] + s[1..];
      assert s[..FirstAt(s)] == [s[0]] + s[1..][..FirstAt(s[1..])];
    }
  }

  lemma {:induction false} AfterLastColon(s: string)
    ensures var n := LastColon(s);
      if n == |s| then ':' !in s else s[n] == ':' && ':' !in s[n + 1..]
  {
    if s != "" && s[|s| - 1] != ':' {
      var init := s[..|s| - 1];
      AfterLastColon(init);
      assert s == init + [s[|s| - 1]];
      var n := LastColon(init);
      if n < |init| {
        assert s[n + 1..] == init[n + 1..] + [s[|s| - 1]];
      }
    }
  }

  /** Cutting a digest or a tag off leaves the repository exactly for its references. */
  lemma RepositoryIff(reference: string, repository: string)
    requires '@' !in repository && ':' !in repository
    ensures RepositoryOf(reference) == repository <==> IsOf(reference, repository)
  {
    hide FirstAt, LastColon;
    var n := if '@' in reference then FirstAt(reference) else LastColon(reference);
    BeforeFirstAt(reference);
    AfterLastColon(reference);
    if RepositoryOf(reference) == repository && n < |reference| {
      assert reference == repository + [reference[n]] + reference[n + 1..];
      assert n == |repository|;
    }
    if IsOf(reference, repository) {
      if repository + "@" <= reference {
        assert reference[|repository|] == (repository + "@")[|repository|] == '@';
        FirstAtIs(repository, reference[|repository| + 1..]);
        assert reference == repository + "@" + reference[|repository| + 1..];
      } else if reference != repository {
        TagIsLast(reference, repository);
      } else {
        assert n == |reference|;
      }
    }
  }

  lemma {:induction false} LastColonIs(s: string, p: nat)
    requires p < |s| && s[p] == ':' && ':' !in s[p + 1..]
    ensures LastColon(s) == p
  {
    if p < |s| - 1 {
      var init := s[..|s| - 1];
      assert s[p + 1..] == init[p + 1..] + [s[|s| - 1]];
      LastColonIs(init, p);
    }
  }

  lemma TagIsLast(reference: string, repository: string)
    requires '@' !in repository && ':' !in repository && repository + ":" <= reference
    requires var tag := reference[|repository| + 1..]; ':' !in tag && '@' !in tag
    ensures '@' !in reference && LastColon(reference) == |repository| && reference[..|repository|] == repository
  {
    hide LastColon;
    var tag := reference[|repository| + 1..];
    assert reference == repository + ":" + tag;
    LastColonIs(reference, |repository|);
  }

  lemma SnowNames(reference: string)
    ensures RepositoryOf(reference) in SNOW_REPOSITORIES <==> FromSnow(reference)
  {
    hide IsOf, RepositoryOf;
    var public, embedding := "ghcr.io/x1aob/project_snow-public", "ghcr.io/x1aob/project_snow-embedding";
    assert '@' !in public && ':' !in public && '@' !in embedding && ':' !in embedding;
    RepositoryIff(reference, public);
    RepositoryIff(reference, embedding);
  }

  /** An image named by its own identity. */
  lemma BareIff(s: string)
    ensures IsBareIdentity(s) <==> exists digest :: |digest| == 64 && HexDigits(digest) && s == "sha256:" + digest
  {
    hide HexDigits, IsSha256Hex;
    if IsBareIdentity(s) {
      IdentifierIff(s[7..]);
      assert s == "sha256:" + s[7..];
    }
    if digest :| |digest| == 64 && HexDigits(digest) && s == "sha256:" + digest {
      IdentifierIff(digest);
      assert s[..7] == "sha256:" && s[7..] == digest;
    }
  }

  /** Nothing offered for deletion is used by a container, is what a protected reference
      resolves to, or carries a name outside the two Snow repositories. */
  lemma CandidatesAreFree(w: World, i: string)
    requires var plan := Plan(w.host, w.strays, w.daemon); plan.Some? && i in plan.value
    ensures !InUse(w.daemon, i) && i in w.daemon.images && w.daemon.images[i] != {}
    ensures forall r | r in ProtectedReferences(w.host) :: r in w.daemon.names && w.daemon.names[r] != i && (IsBareIdentity(r) ==> r != i)
    ensures forall c | c in w.daemon.images[i] :: FromSnow(c)
  {
    hide RepositoryOf, FromSnow, SNOW_REPOSITORIES;
    forall c | c in w.daemon.images[i] ensures FromSnow(c) {
      SnowNames(c);
    }
  }

  /** And everything else of Snow's is offered: with all anchors verified and all protected
      images there, an installed image is a candidate exactly when no container uses it, no
      protected reference is or names it, and it has names, all of them Snow's. */
  lemma CandidatesIff(w: World, i: string)
    ensures var plan := Plan(w.host, w.strays, w.daemon);
      (plan.Some? <==>
        && w.strays == {} && (forall n | n in w.host.anchors :: VerifyNamed(n, w.host.anchors[n]))
        && (forall r | r in ProtectedReferences(w.host) :: r in w.daemon.names)) &&
      (plan.Some? ==> (i in plan.value <==>
        && i in w.daemon.images
        && (forall c | c in w.daemon.containers :: w.daemon.containers[c].image != i && w.daemon.containers[c].index != i)
        && (forall r | r in ProtectedReferences(w.host) :: w.daemon.names[r] != i && (IsBareIdentity(r) ==> r != i))
        && w.daemon.images[i] != {} && (forall c | c in w.daemon.images[i] :: FromSnow(c))))
  {
    hide RepositoryOf, FromSnow, SNOW_REPOSITORIES, VerifyNamed, ProtectedReferences, IsBareIdentity;
    forall c ensures RepositoryOf(c) in SNOW_REPOSITORIES <==> FromSnow(c) {
      SnowNames(c);
    }
  }

  /** A reference is protected exactly when a retained file names it. */
  lemma ProtectedReferenceIff(h: Host, r: string)
    ensures r in ProtectedReferences(h) <==>
      || (exists n :: n in h.anchors && if h.anchors[n].Anchor? then Named(h.anchors[n].files.environment.values, r)
            else r in h.anchors[n].references)
      || (exists c :: c in h.slots && InSlot(h.slots[c], r))
      || Named(h.runtime.values, r) || InManifest(h.currentManifest, r)
  {
    hide DirReferences, SlotReferences, Digests, ManifestReferences, Named, InManifest;
    NamedIff(h.runtime.values, r);
    InManifestIff(h.currentManifest, r);
    forall n | n in h.anchors
      ensures r in DirReferences(h.anchors[n]) <==>
        if h.anchors[n].Anchor? then Named(h.anchors[n].files.environment.values, r) else r in h.anchors[n].references
    {
      DirReferenceIff(h.anchors[n], r);
    }
    forall c | c in h.slots ensures r in SlotReferences(h.slots[c]) <==> InSlot(h.slots[c], r) {
      SlotReferenceIff(h.slots[c], r);
    }
    assert r in ProtectedReferences(h) <==>
      || (exists n :: n in h.anchors && r in DirReferences(h.anchors[n]))
      || (exists c :: c in h.slots && r in SlotReferences(h.slots[c]))
      || r in Digests(h.runtime.values) || r in ManifestReferences(h.currentManifest);
  }

  lemma NamedIff(values: map<string, string>, r: string)
    ensures r in Digests(values) <==> Named(values, r)
  {
    hide IsImageDigest;
    if Named(values, r) {
      var key :| key in values && values[key] == r;
      assert r in values.Values;
    }
  }

  lemma InManifestIff(m: Manifest, r: string)
    ensures r in ManifestReferences(m) <==> InManifest(m, r)
  {
    hide IsImageDigest;
  }

  lemma DirReferenceIff(d: Dir, r: string)
    ensures r in DirReferences(d) <==> if d.Anchor? then Named(d.files.environment.values, r) else r in d.references
  {
    hide Named, Digests;
    if d.Anchor? {
      NamedIff(d.files.environment.values, r);
    }
  }

  /** One of the slot's files names the reference. */
  predicate InSlot(s: Slot, r: string) {
    (s.environment.Some? && Named(s.environment.value.values, r)) || (s.manifest.Some? && InManifest(s.manifest.value, r))
  }

  lemma SlotReferenceIff(s: Slot, r: string)
    ensures r in SlotReferences(s) <==> InSlot(s, r)
  {
    hide Named, InManifest, Digests, ManifestReferences;
    if s.environment.Some? {
      NamedIff(s.environment.value.values, r);
    }
    if s.manifest.Some? {
      InManifestIff(s.manifest.value, r);
    }
  }

  /** An environment names the immutable reference. */
  predicate Named(values: map<string, string>, r: string) {
    IsImageDigest(r) && exists key :: key in values && values[key] == r
  }

  predicate InManifest(m: Manifest, r: string) {
    IsImageDigest(r) && (r == m.application || r == m.embedding)
  }

  /** A reference that is pinned by a digest and names the image. */
  predicate Pins(d: Daemon, values: map<string, string>, i: string) {
    exists key :: key in values && IsImageDigest(values[key]) && Refers(d, values[key], i)
  }

  /** File by file: no candidate is an image pinned by the running environment, by a slot's
      or a retained anchor's environment, by the current or a slot's manifest, or by the
      legacy baseline. */
  lemma CandidatesAreUnpinned(w: World, i: string)
    requires var plan := Plan(w.host, w.strays, w.daemon); plan.Some? && i in plan.value
    ensures !Pins(w.daemon, w.host.runtime.values, i)
    ensures forall c | c in w.host.slots && w.host.slots[c].environment.Some? ::
      !Pins(w.daemon, w.host.slots[c].environment.value.values, i)
    ensures forall n | n in w.host.anchors && w.host.anchors[n].Anchor? ::
      !Pins(w.daemon, w.host.anchors[n].files.environment.values, i)
    ensures forall n, r | n in w.host.anchors && w.host.anchors[n].LegacyDir? && r in w.host.anchors[n].references ::
      !Refers(w.daemon, r, i)
    ensures forall c | c in w.host.slots && w.host.slots[c].manifest.Some? ::
      !NamesImage(w.daemon, w.host.slots[c].manifest.value, i)
    ensures !NamesImage(w.daemon, w.host.currentManifest, i)
  {
    hide Plan, IsImageDigest, FromSnow;
    CandidatesAreFree(w, i);
    var h := w.host;
    forall c | c in h.slots && h.slots[c].environment.Some? ensures !Pins(w.daemon, h.slots[c].environment.value.values, i) {
      assert Digests(h.slots[c].environment.value.values) <= SlotReferences(h.slots[c]) <= ProtectedReferences(h);
    }
    forall c | c in h.slots && h.slots[c].manifest.Some? ensures !NamesImage(w.daemon, h.slots[c].manifest.value, i) {
      assert ManifestReferences(h.slots[c].manifest.value) <= SlotReferences(h.slots[c]) <= ProtectedReferences(h);
    }
    forall n | n in h.anchors ensures DirReferences(h.anchors[n]) <= ProtectedReferences(h) {
    }
    assert Digests(h.runtime.values) <= ProtectedReferences(h);
    assert ManifestReferences(h.currentManifest) <= ProtectedReferences(h);
  }

  predicate NamesImage(d: Daemon, m: Manifest, i: string) {
    (IsImageDigest(m.application) && Refers(d, m.application, i)) || (IsImageDigest(m.embedding) && Refers(d, m.embedding, i))
  }

  /** One event keeps every protected reference of the host resolved to the same installed
      image. */
  lemma EventResolves(w: World, e: Event, r: string, i: string)
    requires r in ProtectedReferences(w.host) && Resolves(w.daemon, r, i)
    ensures Resolves(Happen(w, e).daemon, r, i)
  {
    if e.Delete? {
      var plan := Plan(w.host, w.strays, w.daemon);
      if plan.Some? && e.image in plan.value {
        CandidatesAreFree(w, e.image);
      }
    }
  }

  // --------------------------------------------------------- rollback images over a run

  ghost predicate ProtectedThroughout(w: World, events: seq<Event>, id: AnchorId)
    decreases |events|
  {
    id in Protected(w.host) && (events == [] || ProtectedThroughout(Happen(w, events[0]), events[1..], id))
  }

  /** The images an anchor's environment pins; the anchor's id already determines them. */
  function PinnedBy(id: AnchorId): set<string> {
    Digests(id.identity.hashes.environment.payload.values)
  }

  lemma PinnedIsProtected(h: Host, id: AnchorId)
    requires InstalledAnchor(h, id)
    ensures PinnedBy(id) <= ProtectedReferences(h)
  {
    assert DirReferences(h.anchors[Id(id)]) == PinnedBy(id);
  }

  lemma HostStepReady(w: World, e: Event)
    requires RollbackReady(w.host)
    ensures RollbackReady(Happen(w, e).host)
  {
    hide Apply, Plan, RollbackReady, RemoveImage;
    if e.HostOp? {
      StepReady(w.host, e.op);
    }
  }

  /** While an anchor stays the index's or an active baseline, no interleaving of release
      operations, container starts and stops, pulls and planned deletions uninstalls one of
      its images: a rollback to it finds every image it found before. */
  lemma {:induction false} RollbackImagesStay(w: World, events: seq<Event>, id: AnchorId, r: string, i: string)
    requires RollbackReady(w.host) && ProtectedThroughout(w, events, id)
    requires r in PinnedBy(id) && Resolves(w.daemon, r, i)
    ensures Resolves(Unfold(w, events).daemon, r, i)
    decreases |events|
  {
    hide Happen, Plan, Protected, PinnedBy, ProtectedReferences, RollbackReady, InstalledAnchor, Resolves;
    if events != [] {
      assert InstalledAnchor(w.host, id) by { ReadyInstalled(w.host, id); }
      PinnedIsProtected(w.host, id);
      EventResolves(w, events[0], r, i);
      HostStepReady(w, events[0]);
      RollbackImagesStay(Happen(w, events[0]), events[1..], id, r, i);
    }
  }

  lemma ReadyInstalled(h: Host, id: AnchorId)
    requires RollbackReady(h) && id in Protected(h)
    ensures InstalledAnchor(h, id)
  {
  }

  /** Collection never blocks itself: after removing a candidate every protected reference
      still resolves and exactly the other candidates remain. */
  lemma RemovalKeepsCandidates(d: Daemon, references: set<string>, i: string)
    requires (forall r | r in references :: r in d.names) && i in Candidates(d, references)
    ensures var d' := RemoveImage(d, i);
      (forall r | r in references :: r in d'.names) && Candidates(d', references) == Candidates(d, references) - {i}
  {
    hide SnowOnly, IsBareIdentity, SNOW_REPOSITORIES;
    var d' := RemoveImage(d, i);
    assert i in ProtectedIds(d, references) || !InUse(d, i);
    forall r | r in references ensures r in d'.names && d'.names[r] == d.names[r] {
      assert d.names[r] in ProtectedIds(d, references);
    }
    assert (set r | r in references && r in d'.names :: d'.names[r]) == (set r | r in references && r in d.names :: d.names[r]);
    assert ProtectedIds(d', references) == ProtectedIds(d, references);
  }

  // -------------------------------------------------------------- the helper's methods

  /** What other users of the daemon may do between two commands: start containers from
      installed images and pull new references.  Nothing disappears. */
  ghost predicate Extends(d: Daemon, d': Daemon) {
    (forall r | r in d.names :: r in d'.names && d'.names[r] == d.names[r]) &&
    (forall i | i in d.images :: i in d'.images) &&
    (forall c | c in d.containers :: c in d'.containers && d'.containers[c] == d.containers[c])
  }

  ghost predicate Running(d: Daemon, c: string) {
    c in d.containers && d.containers[c].image in d.images && d.containers[c].index in d.images
  }

  /** Collection went wrong nowhere: protected references resolve to the same installed
      images, running containers keep their images, and only requested images are gone. */
  ghost predicate Spared(references: set<string>, d: Daemon, d': Daemon, requested: seq<string>) {
    (forall r | r in references && r in d.names ::
      Refers(d', r, d.names[r]) && (d.names[r] in d.images ==> d.names[r] in d'.images)) &&
    (forall c | Running(d, c) :: Running(d', c)) &&
    (forall i | i in d.images && i !in d'.images :: i in requested)
  }

  lemma SparedExtends(references: set<string>, d: Daemon, mid: Daemon, d': Daemon, requested: seq<string>)
    requires Spared(references, d, mid, requested) && Extends(mid, d')
    ensures Spared(references, d, d', requested)
  {
  }

  /** A planned image stays free until the command runs: a reference pulled in between is
      not protected, and a container started in between makes the daemon refuse. */
  lemma SparedRemoval(w: World, d: Daemon, d': Daemon, i: string, requested: seq<string>)
    requires var plan := Plan(w.host, w.strays, w.daemon); plan.Some? && i in plan.value
    requires Extends(w.daemon, d') && i in requested
    requires Spared(ProtectedReferences(w.host), d, d', requested)
    ensures Spared(ProtectedReferences(w.host), d, RemoveImage(d', i), requested)
  {
    hide SnowOnly, IsBareIdentity, ProtectedReferences, Reconciled;
    CandidatesAreFree(w, i);
    var references := ProtectedReferences(w.host);
    assert Plannable(w.host, w.strays, w.daemon);
    forall r | r in references && r in d.names ensures Refers(RemoveImage(d', i), r, d.names[r]) && d.names[r] != i {
      assert r in w.daemon.names && w.daemon.names[r] != i && d'.names[r] == w.daemon.names[r];
    }
    if !InUse(d', i) {
      forall c | Running(d, c) ensures Running(RemoveImage(d', i), c) {
        assert Running(d', c) && d'.containers[c].image in ContainerImages(d') && d'.containers[c].index in ContainerImages(d');
      }
    }
  }

  lemma NothingProtected(d: Daemon)
    ensures ProtectedIds(d, {}) == ContainerImages(d)
  {
  }

  lemma ProtectOneMore(d: Daemon, references: set<string>, r: string)
    requires r in d.names
    ensures ProtectedIds(d, references + {r})
         == ProtectedIds(d, references) + (if IsBareIdentity(r) then {r} else {}) + {d.names[r]}
  {
    hide IsBareIdentity, ContainerImages;
  }

  class Collector {
    const host: Host
    const strays: set<string>
    var daemon: Daemon

    constructor (host: Host, strays: set<string>, daemon: Daemon)
      ensures this.host == host && this.strays == strays && this.daemon == daemon
    {
      this.host, this.strays, this.daemon := host, strays, daemon;
    }

    method Others()
      modifies this`daemon
      ensures Extends(old(daemon), daemon)
    {
      var steps: nat :| true;
      for k := 0 to steps
        invariant Extends(old(daemon), daemon)
      {
        var start: bool := *;
        var name: string := *;
        var container: Container := *;
        var image: string := *;
        if start && name !in daemon.containers && container.image in daemon.images && container.index in daemon.images {
          daemon := daemon.(containers := daemon.containers[name := container]);
        } else if !start && name !in daemon.names {
          var coordinates := if image in daemon.images then daemon.images[image] else {};
          daemon := daemon.(images := daemon.images[image := coordinates + {name}], names := daemon.names[name := image]);
        }
      }
    }

    /** image_gc_plan: collects the protected ids set by set, then filters the images. */
    method ImageGcPlan() returns (plan: Option<set<string>>)
      ensures plan == Plan(host, strays, daemon)
    {
      hide ProtectedReferences, Reconciled, ProtectedIds, SnowOnly, IsBareIdentity;
      NothingProtected(daemon);
      if !Reconciled(host, strays) {
        return None;
      }
      var references := ProtectedReferences(host);
      var ids := ContainerImages(daemon);
      var todo := references;
      assert references - todo == {};
      while todo != {}
        invariant todo <= references
        invariant forall r | r in references - todo :: r in daemon.names
        invariant ids == ProtectedIds(daemon, references - todo)
      {
        var r :| r in todo;
        if r !in daemon.names {
          return None;
        }
        ProtectOneMore(daemon, references - todo, r);
        assert references - (todo - {r}) == references - todo + {r};
        if IsBareIdentity(r) {
          ids := ids + {r};
        }
        ids := ids + {daemon.names[r]};
        todo := todo - {r};
      }
      assert references - todo == references;
      plan := Some(set i | i in daemon.images && i !in ids && SnowOnly(daemon.images[i]));
    }

    /** One deletion attempt: refused, done, or reported as failed although it happened. */
    method RemoveOne(image: string) returns (ok: bool)
      modifies this`daemon
      ensures daemon == old(daemon) || daemon == RemoveImage(old(daemon), image)
      ensures ok ==> image !in daemon.images
    {
      var refused: bool := *;
      var reported: bool := *;
      if refused || InUse(daemon, image) {
        return false;
      }
      daemon := RemoveImage(daemon, image);
      ok := reported;
    }

    /** delete_planned_images, with other users active before every command. */
    method DeletePlannedImages(requested: seq<string>) returns (ok: bool, removed: seq<string>)
      modifies this`daemon
      ensures removed <= requested && (ok ==> removed == requested)
      ensures Spared(ProtectedReferences(host), old(daemon), daemon, requested)
    {
      hide ProtectedReferences, Spared, Extends, Plan, RemoveImage;
      removed := [];
      SparedStart(ProtectedReferences(host), daemon, requested);
      if requested == [] || exists i, j :: 0 <= i < j < |requested| && requested[i] == requested[j] {
        return false, [];
      }
      for k := 0 to |requested|
        invariant removed == requested[..k]
        invariant Spared(ProtectedReferences(host), old(daemon), daemon, requested)
      {
        var image := requested[k];
        label start:
        Others();
        SparedExtends(ProtectedReferences(host), old(daemon), old@start(daemon), daemon, requested);
        var plan := ImageGcPlan();
        if plan.None? || image !in plan.value {
          return false, removed;
        }
        label planned:
        Others();
        SparedExtends(ProtectedReferences(host), old(daemon), old@planned(daemon), daemon, requested);
        SparedRemoval(World(host, strays, old@planned(daemon)), old(daemon), daemon, image, requested);
        var done := RemoveOne(image);
        if !done {
          return false, removed;
        }
        removed := removed + [image];
      }
      ok := true;
    }
  }

  lemma SparedStart(references: set<string>, d: Daemon, requested: seq<string>)
    ensures Spared(references, d, d, requested)
  {
  }
}
