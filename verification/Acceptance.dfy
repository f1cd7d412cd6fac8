// Manual promotion is bound to a reviewed, expiring receipt: what a successful verify
// says about the present, and when a receipt can never verify again.
module Acceptance {
  import opened Prelude
  import opened ReleaseModel
  import opened Candidates

  datatype Container = Container(id: string, imageId: string, image: string, running: bool)
  datatype Build = Build(revision: string, appVersion: string, frontend: Option<Frontend>)

  /** SHA-256 of a bound file, one injective constructor for each kind of file. */
  datatype FileDigest =
    | OfText(text: string) | OfWords(words: seq<string>) | OfManifest(manifest: Manifest)
    | OfConfig(config: Binding) | OfEnvironment(environment: Environment) | OfPending(pending: Pending)

  /** The eleven files a receipt binds. */
  datatype BoundFiles = BoundFiles(
    activeColour: FileDigest, current: FileDigest, currentManifest: FileDigest, currentConfig: FileDigest,
    runtime: FileDigest, pending: FileDigest,
    marker: FileDigest, manifest: FileDigest, config: FileDigest, stage: FileDigest, environment: FileDigest)

  datatype PublicIdentity = PublicIdentity(source: Source, sha: FileDigest)

  datatype Snapshot = Snapshot(files: BoundFiles, currentPublic: PublicIdentity, candidatePublic: PublicIdentity,
                               candidate: Container, running: Container, frontend: Frontend)

  datatype Evidence = Evidence(commit: string, expectedCurrent: string, checks: map<string, bool>)

  datatype Receipt = Receipt(colour: Colour, commit: string, expectedCurrent: string,
                             preparedAt: int, expiresAt: int, snapshot: Snapshot, evidence: Evidence)

  /** A receipt is stored under the digest of its own bytes. */
  datatype ReceiptId = ReceiptId(of: Receipt)

  datatype Approval = Approval(receipt: ReceiptId, commit: string, colour: Colour,
                               expectedCurrent: string, approvedAt: int)

  datatype World = World(host: Host, clock: int, pending: Option<Pending>,
                         containers: map<Colour, Container>, imageIds: map<string, string>, builds: map<string, Build>,
                         receipts: map<ReceiptId, Receipt>, approvals: map<(Colour, string), Approval>)

  const CHECKS := {"api_health", "build_identity", "data_media", "browser_smoke", "rollback_baseline"}
  const DEFAULT_PUBLIC := Trusted("/etc/project-snow/public.env")

  // -------------------------------------------------------------------------- snapshot

  /** The one running API of a colour, when it runs exactly the expected image. */
  function ContainerIdentity(w: World, c: Colour, image: string): Option<Container> {
    if c in w.containers && w.containers[c].image == image && w.containers[c].running &&
       image in w.imageIds && w.containers[c].imageId == w.imageIds[image]
    then Some(w.containers[c]) else None
  }

  function PublicSource(env: Environment): Source {
    if PublicEnv in env.settings then env.settings[PublicEnv] else DEFAULT_PUBLIC
  }

  function PublicIdentityOf(h: Host, env: Environment): Option<PublicIdentity> {
    match ReadSource(h, PublicSource(env))
    case None => None
    case Some(text) => Some(PublicIdentity(PublicSource(env), OfText(text)))
  }

  /** Reservation, marker, manifest and stage receipt name the same candidate. */
  predicate CandidateAgrees(w: World, c: Colour, commit: string, expected: string) {
    var active := ActiveRelease(w.host);
    var slot := SlotOf(w.host, c);
    active.Some? && active.value.colour != c && active.value.commit == expected &&
    w.pending.Some? && w.pending.value.colour == c && w.pending.value.commit == commit &&
    w.pending.value.base == expected &&
    slot.marker.Some? && slot.manifest.Some? && slot.config.Some? && slot.environment.Some? && slot.stageReceipt.Some? &&
    slot.marker.value == [ColourName(c), commit, slot.manifest.value.application, slot.manifest.value.embedding] &&
    slot.manifest.value.commit == commit && w.pending.value.manifestSha == Sha256(slot.manifest.value) &&
    slot.manifest.value.frontend.Some? &&
    |slot.stageReceipt.value| == 6 && slot.stageReceipt.value[0] == "project-snow-stage-receipt-1" &&
    IsSha256Hex(slot.stageReceipt.value[1]) && slot.stageReceipt.value[2..] == slot.marker.value
  }

  function BoundFilesOf(w: World, c: Colour): BoundFiles
    requires var slot := SlotOf(w.host, c);
      slot.marker.Some? && slot.manifest.Some? && slot.config.Some? && slot.environment.Some? && slot.stageReceipt.Some? &&
      w.pending.Some?
  {
    var h, slot := w.host, SlotOf(w.host, c);
    BoundFiles(OfText(h.activeColour), OfWords(h.current), OfManifest(h.currentManifest), OfConfig(h.currentConfig),
               OfEnvironment(h.runtime), OfPending(w.pending.value),
               OfWords(slot.marker.value), OfManifest(slot.manifest.value), OfConfig(slot.config.value),
               OfWords(slot.stageReceipt.value), OfEnvironment(slot.environment.value))
  }

  predicate BuildAgrees(w: World, id: string, m: Manifest) {
    id in w.builds && w.builds[id].revision == m.commit && w.builds[id].appVersion == m.appVersion &&
    w.builds[id].frontend == m.frontend
  }

  /** snapshot: None when any check on the candidate or the running release fails. */
  function SnapshotOf(w: World, c: Colour, commit: string, expected: string): Option<Snapshot> {
    if !IsCommit(commit) || !IsCommit(expected) || !CandidateAgrees(w, c, commit, expected) then None
    else
      var slot := SlotOf(w.host, c);
      var m := slot.manifest.value;
      var active := ActiveRelease(w.host).value;
      var candidate := ContainerIdentity(w, c, m.application);
      var running := ContainerIdentity(w, active.colour, active.image);
      var currentPublic := PublicIdentityOf(w.host, w.host.runtime);
      var candidatePublic := PublicIdentityOf(w.host, slot.environment.value);
      if candidate.None? || running.None? || currentPublic.None? || candidatePublic.None? ||
         !BuildAgrees(w, candidate.value.id, m) then None
      else Some(Snapshot(BoundFilesOf(w, c), currentPublic.value, candidatePublic.value,
                         candidate.value, running.value, m.frontend.value))
  }

  // --------------------------------------------------------- prepare, approve, verify

  predicate EvidencePasses(e: Evidence, commit: string, expected: string) {
    e.commit == commit && e.expectedCurrent == expected &&
    forall name | name in CHECKS :: name in e.checks && e.checks[name]
  }

  function NewReceipt(w: World, c: Colour, commit: string, expected: string, e: Evidence, ttl: int): Option<Receipt> {
    var observed := SnapshotOf(w, c, commit, expected);
    if 60 <= ttl <= 86400 && EvidencePasses(e, commit, expected) && observed.Some?
    then Some(Receipt(c, commit, expected, w.clock, w.clock + ttl, observed.value, e))
    else None
  }

  function LoadReceipt(w: World, id: ReceiptId): Option<Receipt> {
    if id in w.receipts && ReceiptId(w.receipts[id]) == id then Some(w.receipts[id]) else None
  }

  /** validate_receipt; `elapsed` is the time the probes took. */
  predicate ReceiptHolds(w: World, r: Receipt, expected: string, elapsed: nat) {
    r.preparedAt <= w.clock < r.expiresAt &&
    60 <= r.expiresAt - r.preparedAt <= 86400 && r.expectedCurrent == expected &&
    SnapshotOf(w, r.colour, r.commit, expected) == Some(r.snapshot) &&
    w.clock + elapsed < r.expiresAt
  }

  function NewApproval(w: World, id: ReceiptId, expected: string, elapsed: nat): Option<Approval> {
    var r := LoadReceipt(w, id);
    if r.Some? && ReceiptHolds(w, r.value, expected, elapsed)
    then Some(Approval(id, r.value.commit, r.value.colour, expected, w.clock)) else None
  }

  /** verify: the approved receipt, or None when it raises. */
  function Verify(w: World, c: Colour, commit: string, elapsed: nat): Option<Receipt> {
    if !IsCommit(commit) || (c, commit) !in w.approvals then None
    else
      var approval := w.approvals[(c, commit)];
      var r := LoadReceipt(w, approval.receipt);
      if approval.colour == c && approval.commit == commit && r.Some? && r.value.colour == c && r.value.commit == commit &&
         ReceiptHolds(w, r.value, approval.expectedCurrent, elapsed) && r.value.preparedAt <= approval.approvedAt <= w.clock
      then r else None
  }

  // ------------------------------------------------------------------------- any run

  /** One operation.  Every operation takes time; recordings are strictly later than
      everything before them.  `Outside` is any other change to the host and its
      containers, including a promotion. */
  datatype Op =
    | Prepare(colour: Colour, commit: string, expected: string, evidence: Evidence, ttl: int)
    | Approve(receipt: ReceiptId, expected: string, elapsed: nat)
    | Reserve(colour: Colour, manifest: Manifest)
    | Release(commit: string, promoted: bool)
    | Wait(seconds: nat)
    | Outside(host: Host, containers: map<Colour, Container>, imageIds: map<string, string>, builds: map<string, Build>)

  function Apply(w: World, op: Op): World {
    match op
    case Prepare(c, commit, expected, e, ttl) =>
      var r := NewReceipt(w, c, commit, expected, e, ttl);
      if r.Some? && ReceiptId(r.value) !in w.receipts then w.(receipts := w.receipts[ReceiptId(r.value) := r.value]) else w
    case Approve(id, expected, elapsed) =>
      var a := NewApproval(w, id, expected, elapsed);
      if a.Some? then w.(approvals := w.approvals[(a.value.colour, a.value.commit) := a.value]) else w
    case Reserve(c, m) =>
      var p := Record(w.host, w.pending, c, m, w.clock + 1);
      if p.Some? then w.(clock := w.clock + 1, pending := p) else w
    case Release(commit, promoted) => w.(pending := Discard(w.host, w.pending, commit, promoted))
    case Wait(seconds) => w.(clock := w.clock + seconds)
    case Outside(h, containers, imageIds, builds) =>
      w.(host := h, containers := containers, imageIds := imageIds, builds := builds)
  }

  function Run(w: World, ops: seq<Op>): World
    decreases |ops|
  {
    if ops == [] then w else Run(Apply(w, ops[0]), ops[1..])
  }

  /** Nothing that a receipt binds differs between the two worlds, file by file. */
  predicate SameRelease(a: World, b: World, c: Colour) {
    a.host.activeColour == b.host.activeColour && a.host.current == b.host.current &&
    a.host.currentManifest == b.host.currentManifest && a.host.currentConfig == b.host.currentConfig &&
    a.host.runtime == b.host.runtime && a.pending == b.pending &&
    SlotOf(a.host, c) == SlotOf(b.host, c) &&
    PublicSource(a.host.runtime) == PublicSource(b.host.runtime) &&
    ReadSource(a.host, PublicSource(a.host.runtime)) == ReadSource(b.host, PublicSource(b.host.runtime)) &&
    (SlotOf(a.host, c).environment.Some? ==>
      ReadSource(a.host, PublicSource(SlotOf(a.host, c).environment.value)) ==
      ReadSource(b.host, PublicSource(SlotOf(b.host, c).environment.value)))
  }

  predicate SameContainers(a: World, b: World, c: Colour) {
    c in a.containers && c in b.containers && a.containers[c] == b.containers[c] &&
    Other(c) in a.containers && Other(c) in b.containers && a.containers[Other(c)] == b.containers[Other(c)]
  }

  lemma EqualSnapshots(a: World, b: World, c: Colour, commit: string, expected: string)
    requires SnapshotOf(a, c, commit, expected).Some?
    requires SnapshotOf(a, c, commit, expected) == SnapshotOf(b, c, commit, expected)
    ensures SameRelease(a, b, c) && SameContainers(a, b, c)
  {
    var active := ActiveRelease(a.host).value;
    assert active == ActiveRelease(b.host).value;
    assert active.colour == Other(c);
  }

  /** The receipt was issued in world `w`, while the evidence passed. */
  predicate IssuedIn(w: World, r: Receipt) {
    60 <= r.expiresAt - r.preparedAt <= 86400 && r.preparedAt == w.clock &&
    EvidencePasses(r.evidence, r.commit, r.expectedCurrent) &&
    SnapshotOf(w, r.colour, r.commit, r.expectedCurrent) == Some(r.snapshot)
  }

  /** The worlds a run passes through, in order. */
  function History(w: World, ops: seq<Op>): (hs: seq<World>)
    ensures |hs| == |ops| + 1 && hs[0] == w && hs[|ops|] == Run(w, ops)
    decreases |ops|
  {
    if ops == [] then [w] else [w] + History(Apply(w, ops[0]), ops[1..])
  }

  /** Every receipt found after a run was there before it or was issued during it. */
  lemma {:induction false} ReceiptsAreIssued(w: World, ops: seq<Op>, id: ReceiptId)
    requires id in Run(w, ops).receipts && id !in w.receipts
    ensures exists i :: 0 <= i <= |ops| && IssuedIn(History(w, ops)[i], Run(w, ops).receipts[id])
    decreases |ops|
  {
    hide Apply, IssuedIn;
    if ops != [] {
      var next := Apply(w, ops[0]);
      if id in next.receipts {
        ReceiptsStay(next, ops[1..], id);
        IssuedNow(w, ops[0], id);
        assert History(w, ops)[0] == w;
      } else {
        ReceiptsAreIssued(next, ops[1..], id);
        var i :| 0 <= i <= |ops| - 1 && IssuedIn(History(next, ops[1..])[i], Run(w, ops).receipts[id]);
        assert History(w, ops)[i + 1] == History(next, ops[1..])[i];
      }
    }
  }

  lemma IssuedNow(w: World, op: Op, id: ReceiptId)
    requires id in Apply(w, op).receipts && id !in w.receipts
    ensures IssuedIn(w, Apply(w, op).receipts[id])
  {
    hide SnapshotOf, NewApproval, Record, Discard;
  }

  lemma {:induction false} ReceiptsStay(w: World, ops: seq<Op>, id: ReceiptId)
    requires id in w.receipts
    ensures id in Run(w, ops).receipts && Run(w, ops).receipts[id] == w.receipts[id]
    decreases |ops|
  {
    hide SnapshotOf, NewReceipt, NewApproval, Record, Discard;
    if ops != [] {
      ReceiptsStay(Apply(w, ops[0]), ops[1..], id);
    }
  }

  /** What a successful verify means.  Started without receipts, there was a moment in the
      run when prepare saw every required check pass; since then no bound file, no public
      environment file and neither API container differs; the expected release is still the
      active one; the window is between one minute and 24 hours, and it has not run out even
      counting the time of the probes; the approval lies between preparation and now. */
  lemma VerifyMeansUnchanged(w: World, ops: seq<Op>, c: Colour, commit: string, elapsed: nat)
    requires w.receipts == map[] && Verify(Run(w, ops), c, commit, elapsed).Some?
    ensures var now, r := Run(w, ops), Verify(Run(w, ops), c, commit, elapsed).value;
      exists i :: 0 <= i <= |ops| && var before := History(w, ops)[i];
        IssuedIn(before, r) && SameRelease(before, now, c) && SameContainers(before, now, c) &&
        ActiveRelease(now.host).Some? && ActiveRelease(now.host).value.commit == r.expectedCurrent &&
        r.commit == commit && r.colour == c && now.clock + elapsed < r.expiresAt &&
        r.preparedAt <= now.approvals[(c, commit)].approvedAt <= now.clock
  {
    hide Run, IssuedIn, SameRelease, SameContainers, ActiveRelease, Verify, SnapshotOf;
    var now, r := Run(w, ops), Verify(Run(w, ops), c, commit, elapsed).value;
    VerifiedHolds(now, c, commit, elapsed);
    ReceiptsAreIssued(w, ops, ReceiptId(r));
    var i :| 0 <= i <= |ops| && IssuedIn(History(w, ops)[i], r);
    IssuedSnapshot(History(w, ops)[i], r);
    EqualSnapshots(History(w, ops)[i], now, c, commit, r.expectedCurrent);
  }

  lemma IssuedSnapshot(w: World, r: Receipt)
    requires IssuedIn(w, r)
    ensures SnapshotOf(w, r.colour, r.commit, r.expectedCurrent) == Some(r.snapshot)
  {
    hide SnapshotOf;
  }

  /** What verify has checked, in the present. */
  lemma VerifiedHolds(w: World, c: Colour, commit: string, elapsed: nat)
    requires Verify(w, c, commit, elapsed).Some?
    ensures var r := Verify(w, c, commit, elapsed).value;
      && ReceiptId(r) in w.receipts && w.receipts[ReceiptId(r)] == r && r.colour == c && r.commit == commit
      && SnapshotOf(w, c, commit, r.expectedCurrent) == Some(r.snapshot) && w.clock + elapsed < r.expiresAt
      && (c, commit) in w.approvals && r.preparedAt <= w.approvals[(c, commit)].approvedAt <= w.clock
      && ReceiptHolds(w, r, r.expectedCurrent, elapsed)
      && ActiveRelease(w.host).Some? && ActiveRelease(w.host).value.commit == r.expectedCurrent
  {
    hide ActiveRelease, ContainerIdentity, PublicIdentityOf, BuildAgrees;
  }

  // ------------------------------------------------------------------------ revocation

  /** The recording time of the reservation a receipt binds. */
  function BoundTime(r: Receipt): int {
    if r.snapshot.files.pending.OfPending? then r.snapshot.files.pending.pending.recordedAt else 0
  }

  /** No reservation as old as `t` is left. */
  predicate Superseded(w: World, t: int) {
    t <= w.clock && (w.pending.Some? ==> w.pending.value.recordedAt > t)
  }

  /** Nothing was recorded in the future. */
  predicate Timely(w: World) {
    (w.pending.Some? ==> w.pending.value.recordedAt <= w.clock) &&
    forall id | id in w.receipts :: BoundTime(w.receipts[id]) <= w.clock
  }

  lemma TimelyStep(w: World, op: Op)
    requires Timely(w)
    ensures Timely(Apply(w, op)) && w.clock <= Apply(w, op).clock
    ensures forall t :: Superseded(w, t) ==> Superseded(Apply(w, op), t)
  {
    hide ContainerIdentity, PublicIdentityOf, BuildAgrees, NewApproval, EvidencePasses, ActiveRelease;
  }

  lemma {:induction false} SupersededForever(w: World, ops: seq<Op>, t: int)
    requires Timely(w) && Superseded(w, t)
    ensures Timely(Run(w, ops)) && Superseded(Run(w, ops), t)
    decreases |ops|
  {
    hide Apply;
    if ops != [] {
      TimelyStep(w, ops[0]);
      SupersededForever(Apply(w, ops[0]), ops[1..], t);
    }
  }

  lemma SupersededFails(w: World, r: Receipt, elapsed: nat)
    requires Superseded(w, BoundTime(r))
    ensures !ReceiptHolds(w, r, r.expectedCurrent, elapsed)
  {
  }

  /** The operation ended the reservation: completed, discarded, or recorded again. */
  predicate EndsReservation(w: World, op: Op) {
    match op
    case Release(commit, promoted) => Discards(w.host, w.pending, commit, promoted)
    case Reserve(c, m) => Record(w.host, w.pending, c, m, w.clock + 1).Some?
    case _ => false
  }

  lemma RunOfOne(w: World, op: Op)
    ensures Run(w, [op]) == Apply(w, op)
  {
    hide Apply;
    assert [op][1..] == [];
  }

  lemma EndSupersedes(w: World, end: Op)
    requires Timely(w) && EndsReservation(w, end)
    ensures forall id | id in w.receipts :: Superseded(Apply(w, end), BoundTime(w.receipts[id]))
  {
    hide ActiveRelease;
  }

  /** Once a reservation has been completed, discarded or recorded again, no receipt that
      existed before can ever verify, whatever happens afterwards. */
  lemma EndedReservationRevokes(w: World, end: Op, later: seq<Op>, c: Colour, commit: string, elapsed: nat)
    requires Timely(w) && EndsReservation(w, end)
    ensures var v := Verify(Run(Apply(w, end), later), c, commit, elapsed);
      v.Some? ==> ReceiptId(v.value) !in w.receipts
  {
    hide Run, Apply, Verify, ReceiptHolds, EndsReservation, Timely, Superseded, BoundTime;
    var next := Apply(w, end);
    var now := Run(next, later);
    var v := Verify(now, c, commit, elapsed);
    TimelyStep(w, end);
    EndSupersedes(w, end);
    if v.Some? {
      VerifiedHolds(now, c, commit, elapsed);
    }
    if v.Some? && ReceiptId(v.value) in w.receipts {
      var r := w.receipts[ReceiptId(v.value)];
      assert r == v.value by {
        ReceiptsStay(w, [end], ReceiptId(v.value));
        RunOfOne(w, end);
        ReceiptsStay(next, later, ReceiptId(v.value));
      }
      SupersededForever(next, later, BoundTime(r));
      SupersededFails(now, r, elapsed);
    }
  }

  lemma OnlyPendingDiffers(w: World, p: Pending, r: Receipt)
    requires w.pending.Some? && SnapshotOf(w, r.colour, r.commit, r.expectedCurrent).Some?
    ensures var before, after := SnapshotOf(w, r.colour, r.commit, r.expectedCurrent),
                                 SnapshotOf(w.(pending := Some(p)), r.colour, r.commit, r.expectedCurrent);
      after == before <==> p == w.pending.value
  {
    hide ActiveRelease, ContainerIdentity, PublicIdentityOf, BuildAgrees, IsCommit, IsSha256Hex;
    var w' := w.(pending := Some(p));
    SameContainerIdentity(w, p);
    if p != w.pending.value && SnapshotOf(w', r.colour, r.commit, r.expectedCurrent).Some? {
      assert BoundFilesOf(w', r.colour).pending == OfPending(p);
      assert BoundFilesOf(w, r.colour).pending == OfPending(w.pending.value);
    }
  }

  lemma SameContainerIdentity(w: World, p: Pending)
    ensures forall c, image :: ContainerIdentity(w.(pending := Some(p)), c, image) == ContainerIdentity(w, c, image)
    ensures forall id, m :: BuildAgrees(w.(pending := Some(p)), id, m) <==> BuildAgrees(w, id, m)
  {
  }

  lemma ReRecorded(h: Host, p: Pending, c: Colour, m: Manifest, at: int)
    requires ActiveRelease(h).Some? && ActiveRelease(h).value.colour == Other(p.colour) && ActiveRelease(h).value.commit == p.base
    requires Record(h, Some(p), c, m, at).Some? && m.commit == p.commit
    ensures Record(h, Some(p), c, m, at).value == p.(recordedAt := at)
  {
    hide ActiveRelease, IsCommit;
  }

  /** The strictly increasing clock is what revokes: a receipt that holds still holds after
      its candidate has been recorded again if and only if the recording time is the same. */
  lemma SameInstantKeeps(w: World, r: Receipt, c: Colour, m: Manifest, at: int, elapsed: nat)
    requires w.pending.Some? && ReceiptHolds(w, r, r.expectedCurrent, elapsed)
    requires m.commit == r.commit && Record(w.host, w.pending, c, m, at).Some?
    ensures ReceiptHolds(w.(pending := Record(w.host, w.pending, c, m, at)), r, r.expectedCurrent, elapsed)
      <==> at == w.pending.value.recordedAt
  {
    hide ActiveRelease, IsCommit, Record;
    var p := w.pending.value;
    HoldingCandidate(w, r, elapsed);
    ReRecorded(w.host, p, c, m, at);
    OnlyPendingDiffers(w, p.(recordedAt := at), r);
    hide SnapshotOf;
  }

  lemma HoldingCandidate(w: World, r: Receipt, elapsed: nat)
    requires w.pending.Some? && ReceiptHolds(w, r, r.expectedCurrent, elapsed)
    ensures var p, active := w.pending.value, ActiveRelease(w.host);
      && p.commit == r.commit && active.Some? && active.value.commit == p.base && active.value.colour == Other(p.colour)
  {
    hide ActiveRelease, IsCommit;
  }
}
