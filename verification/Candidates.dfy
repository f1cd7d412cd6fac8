// The reservation of one release candidate between staging and promotion.
module Candidates {
  import opened Prelude
  import opened ReleaseModel

  datatype Pending = Pending(colour: Colour, commit: string, base: string,
                             manifestSha: Sha256<Manifest>, recordedAt: int)

  /** record_candidate: None when it raises.  A reservation for a release that is not
      active is replaced only by the same commit with the same manifest bytes. */
  function Record(h: Host, pending: Option<Pending>, c: Colour, m: Manifest, at: int): Option<Pending> {
    var active := ActiveRelease(h);
    if active.None? || c == active.value.colour || !IsCommit(m.commit) then None
    else if pending.Some? && pending.value.commit !in {m.commit, active.value.commit} then None
    else if pending.Some? && pending.value.commit == m.commit && pending.value.manifestSha != Sha256(m) then None
    else Some(Pending(c, m.commit, active.value.commit, Sha256(m), at))
  }

  /** Whether discard_candidate removes the reservation; otherwise it raises or finds none. */
  predicate Discards(h: Host, pending: Option<Pending>, commit: string, promoted: bool) {
    IsCommit(commit) && pending.Some? && pending.value.commit == commit &&
    (promoted ==> ActiveRelease(h).Some? && ActiveRelease(h).value.commit == commit)
  }

  function Discard(h: Host, pending: Option<Pending>, commit: string, promoted: bool): Option<Pending> {
    if Discards(h, pending, commit, promoted) then None else pending
  }
}
