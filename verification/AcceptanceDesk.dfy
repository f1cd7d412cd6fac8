// The files of the candidate protocol, updated in place: the reservation, the receipts
// and the approvals.
module AcceptanceDesk {
  import opened Prelude
  import opened ReleaseModel
  import opened Candidates
  import opened Acceptance
  import opened AcceptanceRules

  /** What the operations read but never change here. */
  datatype Surroundings = Surroundings(host: Host, containers: map<Colour, Container>, imageIds: map<string, string>,
                                       builds: map<string, Build>)

  class Desk {
    var around: Surroundings
    var clock: int
    var pending: Option<Pending>
    var receipts: map<ReceiptId, Receipt>
    var approvals: map<(Colour, string), Approval>

    function View(): World
      reads this
    {
      World(around.host, clock, pending, around.containers, around.imageIds, around.builds, receipts, approvals)
    }

    constructor (around: Surroundings, clock: int)
      ensures View() == World(around.host, clock, None, around.containers, around.imageIds, around.builds, map[], map[])
    {
      this.around, this.clock := around, clock;
      pending, receipts, approvals := None, map[], map[];
    }

    /** Writes a new receipt under the digest of its bytes; an existing file is an error. */
    method PrepareReceipt(c: Colour, commit: string, expected: string, evidence: Evidence, ttl: int) returns (id: Option<ReceiptId>)
      modifies this`receipts
      ensures View() == Apply(old(View()), Prepare(c, commit, expected, evidence, ttl))
      ensures id.Some? ==> id.value !in old(receipts) && id.value in receipts && IssuedIn(View(), receipts[id.value])
      ensures id.None? ==> receipts == old(receipts)
    {
      hide SnapshotOf;
      if !(60 <= ttl <= 86400) || !EvidencePasses(evidence, commit, expected) {
        return None;
      }
      var observed := SnapshotOf(View(), c, commit, expected);
      if observed.None? {
        return None;
      }
      var receipt := Receipt(c, commit, expected, clock, clock + ttl, observed.value, evidence);
      if ReceiptId(receipt) in receipts {
        return None;
      }
      SnapshotIgnoresReceipts(View(), receipts[ReceiptId(receipt) := receipt], c, commit, expected);
      receipts := receipts[ReceiptId(receipt) := receipt];
      id := Some(ReceiptId(receipt));
    }

    /** Records the operator's decision on a receipt that is stored, was issued for the
        expected release and still holds. */
    method ApproveReceipt(id: ReceiptId, expected: string, elapsed: nat) returns (ok: bool)
      modifies this`approvals
      ensures View() == Apply(old(View()), Approve(id, expected, elapsed))
      ensures ok <==> old(id in receipts && ReceiptId(receipts[id]) == id && receipts[id].expectedCurrent == expected
                          && StillHolds(View(), receipts[id], elapsed))
      ensures approvals == if ok then old(approvals)[(receipts[id].colour, receipts[id].commit) :=
          Approval(id, receipts[id].commit, receipts[id].colour, expected, clock)] else old(approvals)
    {
      hide SnapshotOf, StillHolds, ReceiptHolds, NewApproval;
      ApprovalGrantedIff(View(), id, expected, elapsed);
      if id in receipts {
        HoldsIff(View(), receipts[id], expected, elapsed);
      }
      var receipt := LoadReceipt(View(), id);
      if receipt.None? || !ReceiptHolds(View(), receipt.value, expected, elapsed) {
        return false;
      }
      var r := receipt.value;
      approvals := approvals[(r.colour, r.commit) := Approval(id, r.commit, r.colour, expected, clock)];
      ok := true;
    }

    /** Reads the approval, then the receipt it names, then the running system. */
    method VerifyCandidate(c: Colour, commit: string, elapsed: nat) returns (receipt: Option<Receipt>)
      ensures receipt == Verify(View(), c, commit, elapsed)
    {
      hide ReceiptHolds;
      if !IsCommit(commit) || (c, commit) !in approvals {
        return None;
      }
      var approval := approvals[(c, commit)];
      if approval.colour != c || approval.commit != commit {
        return None;
      }
      receipt := LoadReceipt(View(), approval.receipt);
      if receipt.None? || receipt.value.colour != c || receipt.value.commit != commit {
        return None;
      }
      if !ReceiptHolds(View(), receipt.value, approval.expectedCurrent, elapsed) {
        return None;
      }
      if !(receipt.value.preparedAt <= approval.approvedAt <= clock) {
        return None;
      }
    }

    /** record_candidate, one second later. */
    method RecordCandidate(c: Colour, m: Manifest) returns (ok: bool)
      modifies this`pending, this`clock
      ensures View() == Apply(old(View()), Reserve(c, m))
      ensures ok <==> EndsReservation(old(View()), Reserve(c, m))
    {
      var active := ActiveRelease(around.host);
      if active.None? || c == active.value.colour || !IsCommit(m.commit) {
        return false;
      }
      if pending.Some? && pending.value.commit !in {m.commit, active.value.commit} {
        return false;
      }
      if pending.Some? && pending.value.commit == m.commit && pending.value.manifestSha != Sha256(m) {
        return false;
      }
      clock := clock + 1;
      pending := Some(Pending(c, m.commit, active.value.commit, Sha256(m), clock));
      ok := true;
    }

    /** discard_candidate, and with `promoted` its completion. */
    method DiscardCandidate(commit: string, promoted: bool) returns (removed: bool)
      modifies this`pending
      ensures View() == Apply(old(View()), Release(commit, promoted))
      ensures removed <==> EndsReservation(old(View()), Release(commit, promoted))
    {
      if !IsCommit(commit) || pending.None? || pending.value.commit != commit {
        return false;
      }
      if promoted {
        var active := ActiveRelease(around.host);
        if active.None? || active.value.commit != commit {
          return false;
        }
      }
      pending := None;
      removed := true;
    }
  }

  lemma SnapshotIgnoresReceipts(w: World, receipts: map<ReceiptId, Receipt>, c: Colour, commit: string, expected: string)
    ensures SnapshotOf(w.(receipts := receipts), c, commit, expected) == SnapshotOf(w, c, commit, expected)
  {
    hide ActiveRelease, PublicIdentityOf;
  }
}
