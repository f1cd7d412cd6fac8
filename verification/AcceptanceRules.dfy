// When each step of the candidate protocol is accepted, read off the host alone, and that
// an undisturbed candidate gets through.
module AcceptanceRules {
  import opened Prelude
  import opened ReleaseModel
  import opened Candidates
  import opened Acceptance

  // ----------------------------------------------------------------------- reservations

  /** A reservation is written exactly for a complete commit and the inactive colour, while
      no other commit than this or the active one is reserved, and not for other manifest
      bytes of the same commit; it names just that, based on the running release. */
  lemma RecordAcceptedIff(h: Host, pending: Option<Pending>, c: Colour, m: Manifest, at: int)
    ensures var p, active := Record(h, pending, c, m, at), ActiveRelease(h);
      && (p.Some? <==>
            && active.Some? && c != active.value.colour && IsCommit(m.commit)
            && (pending.None? || pending.value.commit == m.commit || pending.value.commit == active.value.commit)
            && (pending.Some? && pending.value.commit == m.commit ==> pending.value.manifestSha == Sha256(m)))
      && (p.Some? ==> p.value == Pending(c, m.commit, active.value.commit, Sha256(m), at))
  {
    hide ActiveRelease, IsCommit;
  }

  /** A reservation ends exactly on a request that names its commit, and as completed only
      when that commit is the running one. */
  lemma DiscardAcceptedIff(h: Host, pending: Option<Pending>, commit: string, promoted: bool)
    ensures var left, active := Discard(h, pending, commit, promoted), ActiveRelease(h);
      && (left != pending <==>
            && pending.Some? && pending.value.commit == commit && IsCommit(commit)
            && (promoted ==> active.Some? && active.value.commit == commit))
      && (left != pending ==> left.None?)
  {
    hide ActiveRelease, IsCommit;
  }

  /** A refused reservation changes nothing, and an accepted one replaces the reservation at a
      later time than everything before; a release ends it or leaves it.  Other programs and
      the clock change what is theirs. */
  lemma ReservationsAndOthersAre(w: World, op: Op)
    ensures var t, active := Apply(w, op), ActiveRelease(w.host);
      match op
      case Reserve(c, m) =>
        if active.Some? && c != active.value.colour && IsCommit(m.commit)
           && (w.pending.None? || w.pending.value.commit == m.commit || w.pending.value.commit == active.value.commit)
           && (w.pending.Some? && w.pending.value.commit == m.commit ==> w.pending.value.manifestSha == Sha256(m))
        then t == w.(clock := w.clock + 1, pending := Some(Pending(c, m.commit, active.value.commit, Sha256(m), w.clock + 1)))
        else t == w
      case Release(commit, promoted) =>
        t == w.(pending := t.pending) && (t.pending == w.pending || t.pending.None?)
      case Wait(seconds) => t == w.(clock := w.clock + seconds)
      case Outside(h, containers, imageIds, builds) =>
        && t.host == h && t.containers == containers && t.imageIds == imageIds && t.builds == builds
        && t.clock == w.clock && t.pending == w.pending && t.receipts == w.receipts && t.approvals == w.approvals
      case Prepare(_, _, _, _, _) => t == w.(receipts := t.receipts) && forall id | id in w.receipts :: id in t.receipts && t.receipts[id] == w.receipts[id]
      case Approve(_, _, _) => t == w.(approvals := t.approvals)
  {
    hide ActiveRelease, IsCommit, NewReceipt, NewApproval, Record, Discard;
    if op.Reserve? {
      RecordAcceptedIff(w.host, w.pending, op.colour, op.manifest, w.clock + 1);
    }
    if op.Release? {
      DiscardAcceptedIff(w.host, w.pending, op.commit, op.promoted);
    }
  }

  // -------------------------------------------------------------------------- snapshots

  /** The colour's one API container is running exactly this image. */
  predicate RunsImage(w: World, c: Colour, image: string) {
    && c in w.containers && w.containers[c].running && w.containers[c].image == image
    && image in w.imageIds && w.imageIds[image] == w.containers[c].imageId
  }

  /** The public settings an environment names, or the default ones, can be read. */
  predicate PublicReadable(h: Host, env: Environment) {
    ReadSource(h, if PublicEnv in env.settings then env.settings[PublicEnv] else Trusted("/etc/project-snow/public.env")).Some?
  }

  /** Reservation, marker, manifest and stage receipt of the slot name this candidate. */
  predicate StagedCandidate(w: World, c: Colour, commit: string, base: string) {
    var slot := SlotOf(w.host, c);
    && slot.marker.Some? && slot.manifest.Some? && slot.config.Some? && slot.environment.Some? && slot.stageReceipt.Some?
    && var m, stage := slot.manifest.value, slot.stageReceipt.value;
      && m.commit == commit && m.frontend.Some?
      && slot.marker.value == [if c == Blue then "blue" else "green", commit, m.application, m.embedding]
      && |stage| == 6 && stage[0] == "project-snow-stage-receipt-1" && IsSha256Hex(stage[1]) && stage[2..] == slot.marker.value
      && w.pending.Some? && w.pending.value == Pending(c, commit, base, Sha256(m), w.pending.value.recordedAt)
  }

  lemma ContainerIff(w: World, c: Colour, image: string)
    ensures ContainerIdentity(w, c, image) == if RunsImage(w, c, image) then Some(w.containers[c]) else None
  {
  }

  lemma PublicIff(h: Host, env: Environment)
    ensures PublicIdentityOf(h, env).Some? <==> PublicReadable(h, env)
  {
    hide ReadSource;
  }

  lemma AgreesIff(w: World, c: Colour, commit: string, expected: string)
    ensures CandidateAgrees(w, c, commit, expected) <==>
      && ActiveRelease(w.host).Some? && ActiveRelease(w.host).value.colour != c && ActiveRelease(w.host).value.commit == expected
      && StagedCandidate(w, c, commit, expected)
  {
    hide ActiveRelease, IsSha256Hex;
  }

  /** A snapshot can be taken exactly when the candidate is reserved and staged on top of the
      expected running release, both API containers run exactly their images, both public
      settings files can be read, and the candidate reports the manifest's build. */
  lemma SnapshotIff(w: World, c: Colour, commit: string, expected: string)
    ensures var active, slot := ActiveRelease(w.host), SlotOf(w.host, c);
      SnapshotOf(w, c, commit, expected).Some? <==>
        && IsCommit(commit) && IsCommit(expected)
        && active.Some? && active.value.colour != c && active.value.commit == expected && StagedCandidate(w, c, commit, expected)
        && RunsImage(w, c, slot.manifest.value.application) && RunsImage(w, active.value.colour, active.value.image)
        && PublicReadable(w.host, w.host.runtime) && PublicReadable(w.host, slot.environment.value)
        && w.containers[c].id in w.builds
        && w.builds[w.containers[c].id] == Build(commit, slot.manifest.value.appVersion, slot.manifest.value.frontend)
  {
    hide ActiveRelease, IsCommit, ContainerIdentity, PublicIdentityOf, CandidateAgrees, RunsImage, PublicReadable, BoundFilesOf;
    AgreesIff(w, c, commit, expected);
    if CandidateAgrees(w, c, commit, expected) {
      var active, slot := ActiveRelease(w.host).value, SlotOf(w.host, c);
      ContainerIff(w, c, slot.manifest.value.application);
      ContainerIff(w, active.colour, active.image);
      PublicIff(w.host, w.host.runtime);
      PublicIff(w.host, slot.environment.value);
    }
  }

  // --------------------------------------------------------- prepare, approve and verify

  const REQUIRED: seq<string> := ["api_health", "build_identity", "data_media", "browser_smoke", "rollback_baseline"]

  /** A receipt is issued exactly for a lifetime of a minute to a day, evidence that names
      this candidate and release and passes all five checks, and a snapshot that can be
      taken; it carries that evidence and snapshot and the present time. */
  lemma ReceiptIssuedIff(w: World, c: Colour, commit: string, expected: string, e: Evidence, ttl: int)
    ensures var r, observed := NewReceipt(w, c, commit, expected, e, ttl), SnapshotOf(w, c, commit, expected);
      && (r.Some? <==>
            && 60 <= ttl <= 24 * 3600 && e.commit == commit && e.expectedCurrent == expected
            && (forall i | 0 <= i < |REQUIRED| :: REQUIRED[i] in e.checks && e.checks[REQUIRED[i]]) && observed.Some?)
      && (r.Some? ==> r.value == Receipt(c, commit, expected, w.clock, w.clock + ttl, observed.value, e))
  {
    hide SnapshotOf;
    var q := REQUIRED;
    forall name ensures name in CHECKS <==> exists i :: 0 <= i < |q| && q[i] == name {
      assert name in CHECKS <==> name in {q[0], q[1], q[2], q[3], q[4]};
    }
  }

  /** The receipt still describes what is there, and its window is open now and after the
      probes. */
  predicate StillHolds(w: World, r: Receipt, elapsed: nat) {
    && r.preparedAt <= w.clock && w.clock + elapsed < r.expiresAt
    && 60 <= r.expiresAt - r.preparedAt <= 24 * 3600
    && SnapshotOf(w, r.colour, r.commit, r.expectedCurrent) == Some(r.snapshot)
  }

  lemma HoldsIff(w: World, r: Receipt, expected: string, elapsed: nat)
    ensures ReceiptHolds(w, r, expected, elapsed) <==> r.expectedCurrent == expected && StillHolds(w, r, elapsed)
  {
    hide SnapshotOf;
  }

  /** A receipt is approved exactly when it is stored under the digest of its bytes, was
      issued for the release that is expected, and still holds; the approval names it and
      the present time. */
  lemma ApprovalGrantedIff(w: World, id: ReceiptId, expected: string, elapsed: nat)
    ensures var a := NewApproval(w, id, expected, elapsed);
      && (a.Some? <==>
            && id in w.receipts && ReceiptId(w.receipts[id]) == id
            && w.receipts[id].expectedCurrent == expected && StillHolds(w, w.receipts[id], elapsed))
      && (a.Some? ==> a.value == Approval(id, w.receipts[id].commit, w.receipts[id].colour, expected, w.clock))
  {
    hide ReceiptHolds, StillHolds;
    if id in w.receipts {
      HoldsIff(w, w.receipts[id], expected, elapsed);
    }
  }

  /** Verification succeeds exactly when the candidate's approval names a stored receipt for
      this colour and commit that still holds, and was given between preparation and now. */
  lemma VerifiedIff(w: World, c: Colour, commit: string, elapsed: nat)
    ensures Verify(w, c, commit, elapsed).Some? <==>
      && IsCommit(commit) && (c, commit) in w.approvals
      && var a := w.approvals[(c, commit)];
        && a.colour == c && a.commit == commit && a.receipt in w.receipts && ReceiptId(w.receipts[a.receipt]) == a.receipt
        && var r := w.receipts[a.receipt];
          && r.colour == c && r.commit == commit && r.expectedCurrent == a.expectedCurrent && StillHolds(w, r, elapsed)
          && r.preparedAt <= a.approvedAt <= w.clock
  {
    hide ReceiptHolds, StillHolds, IsCommit;
    if (c, commit) in w.approvals && w.approvals[(c, commit)].receipt in w.receipts {
      HoldsIff(w, w.receipts[w.approvals[(c, commit)].receipt], w.approvals[(c, commit)].expectedCurrent, elapsed);
    }
  }

  /** Every approval found after a run was there before or was granted in a world in which
      its receipt was stored and still held. */
  ghost predicate GrantedIn(w: World, a: Approval) {
    exists elapsed: nat ::
      && a.receipt in w.receipts && StillHolds(w, w.receipts[a.receipt], elapsed)
      && a == Approval(a.receipt, w.receipts[a.receipt].commit, w.receipts[a.receipt].colour, w.receipts[a.receipt].expectedCurrent, w.clock)
  }

  lemma ApprovedNow(w: World, op: Op, key: (Colour, string))
    requires key in Apply(w, op).approvals && (key !in w.approvals || Apply(w, op).approvals[key] != w.approvals[key])
    ensures GrantedIn(w, Apply(w, op).approvals[key])
  {
    hide NewApproval, NewReceipt, Record, Discard, StillHolds;
    if op.Approve? {
      ApprovalGrantedIff(w, op.receipt, op.expected, op.elapsed);
    }
  }

  lemma {:induction false} ApprovalsAreGranted(w: World, ops: seq<Op>, key: (Colour, string))
    requires key in Run(w, ops).approvals
    ensures (key in w.approvals && Run(w, ops).approvals[key] == w.approvals[key])
         || exists i :: 0 <= i < |ops| && GrantedIn(History(w, ops)[i], Run(w, ops).approvals[key])
    decreases |ops|
  {
    hide Apply, GrantedIn;
    if ops != [] {
      var next := Apply(w, ops[0]);
      ApprovalsAreGranted(next, ops[1..], key);
      if key in next.approvals && Run(w, ops).approvals[key] == next.approvals[key] {
        if key !in w.approvals || next.approvals[key] != w.approvals[key] {
          ApprovedNow(w, ops[0], key);
          assert History(w, ops)[0] == w;
          assert GrantedIn(History(w, ops)[0], Run(w, ops).approvals[key]);
        }
      } else {
        var i :| 0 <= i < |ops| - 1 && GrantedIn(History(next, ops[1..])[i], Run(w, ops).approvals[key]);
        assert History(w, ops)[i + 1] == History(next, ops[1..])[i];
      }
    }
  }

  // ----------------------------------------------------------------------- getting through

  /** What the protocol reads apart from its own files is the same. */
  predicate SameSurroundings(a: World, b: World) {
    a.host == b.host && a.pending == b.pending && a.containers == b.containers && a.imageIds == b.imageIds && a.builds == b.builds
  }

  lemma SnapshotOfSurroundings(a: World, b: World, c: Colour, commit: string, expected: string)
    requires SameSurroundings(a, b)
    ensures SnapshotOf(a, c, commit, expected) == SnapshotOf(b, c, commit, expected)
  {
    hide ActiveRelease, PublicIdentityOf;
  }

  /** An undisturbed candidate gets through: prepared with passing evidence, approved and
      verified within its lifetime, whatever waiting lies between. */
  lemma UndisturbedIsVerified(w: World, c: Colour, commit: string, expected: string, e: Evidence, ttl: int,
                              first: nat, second: nat, elapsed: nat)
    requires SnapshotOf(w, c, commit, expected).Some? && NewReceipt(w, c, commit, expected, e, ttl).Some?
    requires first + second + elapsed < ttl
    requires ReceiptId(NewReceipt(w, c, commit, expected, e, ttl).value) !in w.receipts
    ensures var r := NewReceipt(w, c, commit, expected, e, ttl).value;
      Verify(Run(w, [Prepare(c, commit, expected, e, ttl), Wait(first), Approve(ReceiptId(r), expected, 0), Wait(second)]), c, commit, elapsed)
        == Some(r)
  {
    hide SnapshotOf, NewReceipt, Verify, Apply, Run, StillHolds, ReceiptHolds;
    ReceiptIssuedIff(w, c, commit, expected, e, ttl);
    var r := NewReceipt(w, c, commit, expected, e, ttl).value;
    var w2 := w.(receipts := w.receipts[ReceiptId(r) := r], clock := w.clock + first);
    var w4 := w2.(approvals := w2.approvals[(c, commit) := Approval(ReceiptId(r), commit, c, expected, w2.clock)], clock := w2.clock + second);
    PreparedAndWaited(w, c, commit, expected, e, ttl, first);
    SnapshotOfSurroundings(w, w2, c, commit, expected);
    ApprovedAndWaited(w2, r, second);
    SnapshotOfSurroundings(w, w4, c, commit, expected);
    SnapshotNeedsCommit(w, c, commit, expected);
    VerifiedNow(w4, r, elapsed);
    RunOfFour(w, Prepare(c, commit, expected, e, ttl), Wait(first), Approve(ReceiptId(r), expected, 0), Wait(second));
  }

  lemma PreparedAndWaited(w: World, c: Colour, commit: string, expected: string, e: Evidence, ttl: int, first: nat)
    requires NewReceipt(w, c, commit, expected, e, ttl).Some?
    requires ReceiptId(NewReceipt(w, c, commit, expected, e, ttl).value) !in w.receipts
    ensures var r := NewReceipt(w, c, commit, expected, e, ttl).value;
      Apply(Apply(w, Prepare(c, commit, expected, e, ttl)), Wait(first))
        == w.(receipts := w.receipts[ReceiptId(r) := r], clock := w.clock + first)
  {
    hide NewReceipt, NewApproval, Record, Discard;
  }

  lemma ApprovedAndWaited(w: World, r: Receipt, second: nat)
    requires ReceiptId(r) in w.receipts && w.receipts[ReceiptId(r)] == r
    requires r.preparedAt <= w.clock < r.expiresAt && 60 <= r.expiresAt - r.preparedAt <= 24 * 3600
    requires SnapshotOf(w, r.colour, r.commit, r.expectedCurrent) == Some(r.snapshot)
    ensures Apply(Apply(w, Approve(ReceiptId(r), r.expectedCurrent, 0)), Wait(second))
      == w.(approvals := w.approvals[(r.colour, r.commit) := Approval(ReceiptId(r), r.commit, r.colour, r.expectedCurrent, w.clock)],
            clock := w.clock + second)
  {
    hide NewReceipt, NewApproval, Record, Discard, SnapshotOf;
    ApprovalGrantedIff(w, ReceiptId(r), r.expectedCurrent, 0);
  }

  lemma VerifiedNow(w: World, r: Receipt, elapsed: nat)
    requires ReceiptId(r) in w.receipts && w.receipts[ReceiptId(r)] == r && (r.colour, r.commit) in w.approvals && IsCommit(r.commit)
    requires var a := w.approvals[(r.colour, r.commit)];
      a == Approval(ReceiptId(r), r.commit, r.colour, r.expectedCurrent, a.approvedAt) && r.preparedAt <= a.approvedAt <= w.clock
    requires w.clock + elapsed < r.expiresAt && 60 <= r.expiresAt - r.preparedAt <= 24 * 3600
    requires SnapshotOf(w, r.colour, r.commit, r.expectedCurrent) == Some(r.snapshot)
    ensures Verify(w, r.colour, r.commit, elapsed) == Some(r)
  {
    hide SnapshotOf, IsCommit, ReceiptHolds;
    HoldsIff(w, r, r.expectedCurrent, elapsed);
  }

  lemma SnapshotNeedsCommit(w: World, c: Colour, commit: string, expected: string)
    requires SnapshotOf(w, c, commit, expected).Some?
    ensures IsCommit(commit)
  {
    hide IsCommit, CandidateAgrees, ContainerIdentity, PublicIdentityOf;
  }

  lemma RunOfFour(w: World, a: Op, b: Op, c: Op, d: Op)
    ensures Run(w, [a, b, c, d]) == Apply(Apply(Apply(Apply(w, a), b), c), d)
  {
    hide Apply;
    assert [a, b, c, d][1..] == [b, c, d] && [b, c, d][1..] == [c, d] && [c, d][1..] == [d];
    RunOfOne(Apply(Apply(Apply(w, a), b), c), d);
    assert Run(Apply(Apply(w, a), b), [c, d]) == Run(Apply(Apply(Apply(w, a), b), c), [d]);
    assert Run(Apply(w, a), [b, c, d]) == Run(Apply(Apply(w, a), b), [c, d]);
  }
}
