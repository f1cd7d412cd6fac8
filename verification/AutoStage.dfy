// Automatic staging: two sections under the release lock with unlocked work between
// them, interleaved with the release runner and with operators.
module AutoStage {
  import opened Prelude
  import opened ReleaseModel
  import opened Candidates

  datatype Status = Attempting | Failed | Staged

  /** releases/auto-stage.json */
  datatype Attempt = Attempt(commit: string, colour: Colour, status: Status)

  /** How far the current invocation has come, with its local variables. */
  datatype Worker =
    | Idle
    | Chosen(commit: string, retry: bool, active: Active)
    | Proven(commit: string, retry: bool, active: Active, manifest: Manifest)
    | Published(commit: string, retry: bool, colour: Colour, manifest: Manifest)
    | Running(commit: string, colour: Colour)

  /** One launch of the release runner and the manifest it found in the inbox. */
  datatype Launch = Launch(commit: string, colour: Colour, retry: bool, manifest: Manifest)

  /** What the second locked section found when it published. */
  datatype Publication = Publication(commit: string, colour: Colour, running: Option<Active>, reserved: Option<Pending>)

  datatype State = State(host: Host, pending: Option<Pending>, file: Option<Attempt>, inbox: map<string, Manifest>,
                         worker: Worker, verified: set<(string, Manifest)>, published: seq<Publication>,
                         launches: seq<Launch>)

  /** The attempt file blocks an invocation that was not asked to retry. */
  predicate Blocks(file: Option<Attempt>, commit: string) {
    file.Some? && file.value.commit == commit && file.value.status != Staged
  }

  predicate FirstSectionPasses(s: State, commit: string, retry: bool) {
    var active := ActiveRelease(s.host);
    active.Some? && IsCommit(commit) && commit != active.value.commit &&
    (s.pending.Some? && s.pending.value.commit != active.value.commit ==> s.pending.value.commit == commit && retry) &&
    (Blocks(s.file, commit) ==> retry)
  }

  predicate SecondSectionPasses(s: State) {
    var now := ActiveRelease(s.host);
    s.worker.Proven? && now == Some(s.worker.active) &&
    (s.pending.Some? ==> s.pending.value.commit in {s.worker.commit, now.value.commit})
  }

  datatype Op =
    | FirstSection(main: string, retry: bool)
    | Proof(manifest: Manifest, accepted: bool)      // download, then the installed verifier's verdict
    | SecondSection
    | LaunchRunner
    | RunnerReserves(at: int)                        // candidate-record, called by the runner under the lock
    | Conclude(ok: bool)
    | GiveUp                                         // main moved, or the process died
    | OperatorRecords(colour: Colour, manifest: Manifest, at: int)
    | OperatorReleases(commit: string, promoted: bool)
    | Promote(host: Host)

  function Apply(s: State, op: Op): State {
    match op
    case FirstSection(main, retry) =>
      if s.worker.Idle? && FirstSectionPasses(s, main, retry)
      then s.(worker := Chosen(main, retry, ActiveRelease(s.host).value)) else s
    case Proof(m, accepted) =>
      if !s.worker.Chosen? then s
      else if !accepted then s.(worker := Idle)
      else s.(worker := Proven(s.worker.commit, s.worker.retry, s.worker.active, m),
              verified := s.verified + {(s.worker.commit, m)})
    case SecondSection =>
      if !s.worker.Proven? then s
      else if !SecondSectionPasses(s) then s.(worker := Idle)
      else
        var colour := Other(s.worker.active.colour);
        s.(file := Some(Attempt(s.worker.commit, colour, Attempting)),
           inbox := s.inbox[s.worker.commit := s.worker.manifest],
           worker := Published(s.worker.commit, s.worker.retry, colour, s.worker.manifest),
           published := s.published + [Publication(s.worker.commit, colour, ActiveRelease(s.host), s.pending)])
    case LaunchRunner =>
      if s.worker.Published? && s.worker.commit in s.inbox
      then s.(launches := s.launches + [Launch(s.worker.commit, s.worker.colour, s.worker.retry, s.inbox[s.worker.commit])],
              worker := Running(s.worker.commit, s.worker.colour)) else s
    case RunnerReserves(at) =>
      if s.worker.Running? && s.worker.commit in s.inbox
      then Reserve(s, s.worker.colour, s.inbox[s.worker.commit], at) else s
    case Conclude(ok) =>
      if s.worker.Running?
      then s.(file := Some(Attempt(s.worker.commit, s.worker.colour, if ok then Staged else Failed)), worker := Idle)
      else s
    case GiveUp => s.(worker := Idle)
    case OperatorRecords(c, m, at) => Reserve(s, c, m, at)
    case OperatorReleases(commit, promoted) => s.(pending := Discard(s.host, s.pending, commit, promoted))
    case Promote(h) => s.(host := h)
  }

  function Reserve(s: State, c: Colour, m: Manifest, at: int): State {
    var p := Record(s.host, s.pending, c, m, at);
    if p.Some? then s.(pending := p) else s
  }

  function Run(s: State, ops: seq<Op>): State
    decreases |ops|
  {
    if ops == [] then s else Run(Apply(s, ops[0]), ops[1..])
  }

  // ---------------------------------------------------------------------- reservations

  /** Along the run the commit never becomes the active one and no operator discards or
      completes it by name. */
  ghost predicate Undisturbed(s: State, ops: seq<Op>, commit: string)
    decreases |ops|
  {
    (ActiveRelease(s.host).Some? ==> ActiveRelease(s.host).value.commit != commit) &&
    (ops != [] ==> (ops[0].OperatorReleases? ==> ops[0].commit != commit) && Undisturbed(Apply(s, ops[0]), ops[1..], commit))
  }

  /** Whatever staging, the runner and operators do, the reservation of a candidate that is
      not active stays a reservation of the same commit with the same manifest bytes. */
  lemma {:induction false} ReservationStays(s: State, ops: seq<Op>)
    requires s.pending.Some? && Undisturbed(s, ops, s.pending.value.commit)
    ensures var p := Run(s, ops).pending;
      p.Some? && p.value.commit == s.pending.value.commit && p.value.manifestSha == s.pending.value.manifestSha
    decreases |ops|
  {
    if ops != [] {
      ReservationStep(s, ops[0]);
      ReservationStays(Apply(s, ops[0]), ops[1..]);
    }
  }

  lemma ReservationStep(s: State, op: Op)
    requires s.pending.Some? && (op.OperatorReleases? ==> op.commit != s.pending.value.commit)
    requires ActiveRelease(s.host).Some? ==> ActiveRelease(s.host).value.commit != s.pending.value.commit
    ensures var p := Apply(s, op).pending;
      p.Some? && p.value.commit == s.pending.value.commit && p.value.manifestSha == s.pending.value.manifestSha
  {
    hide ActiveRelease, FirstSectionPasses, SecondSectionPasses;
  }

  // ------------------------------------------------------------------------- launches

  /** Published bytes are verified bytes, and every launch used verified bytes. */
  ghost predicate OnlyVerified(s: State) {
    (s.worker.Proven? ==> (s.worker.commit, s.worker.manifest) in s.verified) &&
    (s.worker.Published? ==> (s.worker.commit, s.worker.manifest) in s.verified) &&
    (s.worker.Published? ==> s.worker.commit in s.inbox && s.inbox[s.worker.commit] == s.worker.manifest) &&
    forall l | l in s.launches :: (l.commit, l.manifest) in s.verified
  }

  /** The runner is only ever launched on a manifest the installed verifier accepted for
      exactly that commit. */
  lemma {:induction false} LaunchesAreVerified(s: State, ops: seq<Op>)
    requires OnlyVerified(s)
    ensures OnlyVerified(Run(s, ops))
    decreases |ops|
  {
    hide ActiveRelease, FirstSectionPasses, SecondSectionPasses, Record;
    if ops != [] {
      LaunchesAreVerified(Apply(s, ops[0]), ops[1..]);
    }
  }

  function LaunchCount(launches: seq<Launch>, commit: string): nat {
    if launches == [] then 0
    else LaunchCount(launches[..|launches| - 1], commit) + (if launches[|launches| - 1].commit == commit then 1 else 0)
  }

  /** The file names the commit as failed or interrupted and nobody is working on it. */
  ghost predicate Held(s: State, commit: string) {
    Blocks(s.file, commit) && (s.worker.Idle? || s.worker.commit != commit)
  }

  predicate WithoutRetry(ops: seq<Op>) {
    forall i | 0 <= i < |ops| && ops[i].FirstSection? :: !ops[i].retry
  }

  /** Somewhere along the run the file stopped naming the commit as unfinished. */
  ghost predicate Overwritten(s: State, ops: seq<Op>, commit: string)
    decreases |ops|
  {
    !Blocks(s.file, commit) || (ops != [] && Overwritten(Apply(s, ops[0]), ops[1..], commit))
  }

  lemma HeldStep(s: State, op: Op, commit: string)
    requires Held(s, commit) && (op.FirstSection? ==> !op.retry)
    ensures LaunchCount(Apply(s, op).launches, commit) == LaunchCount(s.launches, commit)
    ensures Held(Apply(s, op), commit) || !Blocks(Apply(s, op).file, commit)
  {
    hide ActiveRelease, SecondSectionPasses, Record;
    if op.LaunchRunner? && s.worker.Published? && s.worker.commit in s.inbox {
      assert Apply(s, op).launches[..|s.launches|] == s.launches;
    }
  }

  /** A failed or interrupted commit is not run again without an explicit retry for as long
      as auto-stage.json still names it. */
  lemma {:induction false} NoSilentRerun(s: State, ops: seq<Op>, commit: string)
    requires Held(s, commit) && WithoutRetry(ops)
    ensures Overwritten(s, ops, commit) || LaunchCount(Run(s, ops).launches, commit) == LaunchCount(s.launches, commit)
    decreases |ops|
  {
    hide Apply, Held, Blocks;
    if ops != [] {
      HeldStep(s, ops[0], commit);
      if Blocks(Apply(s, ops[0]).file, commit) {
        NoSilentRerun(Apply(s, ops[0]), ops[1..], commit);
      } else {
        assert Overwritten(Apply(s, ops[0]), ops[1..], commit);
      }
    }
  }

  /** Only the explicit retry lifts the block: from a held commit the same four steps
      launch the runner again exactly when retry was given. */
  lemma RetryDecides(s: State, commit: string, retry: bool, m: Manifest)
    requires s.worker.Idle? && Blocks(s.file, commit) && FirstSectionPasses(s, commit, true)
    ensures var end := Apply(Apply(Apply(Apply(s, FirstSection(commit, retry)), Proof(m, true)), SecondSection), LaunchRunner);
      end.launches == s.launches + (if retry then [Launch(commit, Other(ActiveRelease(s.host).value.colour), true, m)] else [])
  {
    hide ActiveRelease;
  }

  // ------------------------------------------------------------------ the two sections

  /** Main may be staged: a complete commit that is not running, with no other candidate
      reserved (the same one only on retry), and no unfinished attempt unless on retry. */
  predicate MayChoose(s: State, main: string, retry: bool) {
    var active := ActiveRelease(s.host);
    && active.Some? && IsCommit(main) && main != active.value.commit
    && (s.pending.None? || s.pending.value.commit == active.value.commit || (s.pending.value.commit == main && retry))
    && (s.file.Some? && s.file.value.commit == main && s.file.value.status in {Failed, Attempting} ==> retry)
  }

  lemma ChosenIff(s: State, main: string, retry: bool)
    requires s.worker.Idle?
    ensures Apply(s, FirstSection(main, retry)) ==
      if MayChoose(s, main, retry) then s.(worker := Chosen(main, retry, ActiveRelease(s.host).value)) else s
  {
    hide ActiveRelease, IsCommit;
  }

  /** Since the first section the running release is the same and no other candidate has
      been reserved. */
  predicate GapWasQuiet(s: State)
    requires s.worker.Proven?
  {
    && ActiveRelease(s.host) == Some(s.worker.active)
    && (s.pending.None? || s.pending.value.commit == s.worker.commit || s.pending.value.commit == s.worker.active.commit)
  }

  /** The second section publishes exactly after a quiet gap, for the colour that is not
      running; otherwise it leaves everything but the invocation as it is. */
  lemma PublishedIff(s: State)
    requires s.worker.Proven?
    ensures var t, w := Apply(s, SecondSection), s.worker;
      var colour := if w.active.colour == Blue then Green else Blue;
      t == if GapWasQuiet(s)
           then s.(file := Some(Attempt(w.commit, colour, Attempting)), inbox := s.inbox[w.commit := w.manifest],
                   worker := Published(w.commit, w.retry, colour, w.manifest),
                   published := s.published + [Publication(w.commit, colour, ActiveRelease(s.host), s.pending)])
           else s.(worker := Idle)
  {
    hide ActiveRelease;
  }

  /** The publication was for a colour that was not running, on top of the running release,
      while no third commit was reserved. */
  predicate Rightful(p: Publication) {
    && p.running.Some? && p.running.value.colour != p.colour && p.commit != p.running.value.commit
    && (p.reserved.Some? ==> p.reserved.value.commit == p.commit || p.reserved.value.commit == p.running.value.commit)
  }

  /** All publications were rightful, what is published or running was published, and every
      launch is of a publication. */
  ghost predicate Sound(s: State) {
    && (forall p | p in s.published :: Rightful(p))
    && (forall l | l in s.launches :: WasPublished(s, l.commit, l.colour))
    && (s.worker.Chosen? || s.worker.Proven? ==> s.worker.commit != s.worker.active.commit)
    && (s.worker.Published? || s.worker.Running? ==> WasPublished(s, s.worker.commit, s.worker.colour))
  }

  ghost predicate WasPublished(s: State, commit: string, colour: Colour) {
    exists p :: p in s.published && p.commit == commit && p.colour == colour
  }

  lemma StepIsSound(s: State, op: Op)
    requires Sound(s)
    ensures Sound(Apply(s, op))
  {
    hide ActiveRelease, Record, Discard, IsCommit;
    if op.SecondSection? && s.worker.Proven? && GapWasQuiet(s) {
      var t := Apply(s, op);
      PublishedIff(s);
      assert t.published[|s.published|] in t.published;
      forall commit, colour | WasPublished(s, commit, colour) ensures WasPublished(t, commit, colour) {
        var p :| p in s.published && p.commit == commit && p.colour == colour;
        assert p in t.published;
      }
    }
  }

  /** Under every interleaving the runner is only launched on a colour that was not running
      and a commit that no other reservation displaced when it was published. */
  lemma {:induction false} LaunchesAreRightful(s: State, ops: seq<Op>)
    requires Sound(s)
    ensures Sound(Run(s, ops))
    decreases |ops|
  {
    hide Apply, Sound;
    if ops != [] {
      StepIsSound(s, ops[0]);
      LaunchesAreRightful(Apply(s, ops[0]), ops[1..]);
    }
  }

  /** The runner's verdict is what the attempt file says afterwards, for this commit and
      colour, and the worker is free again. */
  lemma ConcludedIs(s: State, ok: bool)
    requires s.worker.Running?
    ensures Apply(s, Conclude(ok)) == s.(worker := Idle,
      file := Some(Attempt(s.worker.commit, s.worker.colour, if ok then Staged else Failed)))
  {
  }

  /** The steps of an invocation come in order: any other of them changes nothing. */
  lemma StepsComeInOrder(s: State, op: Op)
    requires (op.FirstSection? && !s.worker.Idle?) || (op.Proof? && !s.worker.Chosen?) || (op.SecondSection? && !s.worker.Proven?)
          || (op.LaunchRunner? && !s.worker.Published?) || ((op.RunnerReserves? || op.Conclude?) && !s.worker.Running?)
    ensures Apply(s, op) == s
  {
    hide ActiveRelease, Record, FirstSectionPasses, SecondSectionPasses;
  }

  /** Proof and runner change only what is theirs, and operators and promotions never touch
      the attempt file, the inbox or the invocation. */
  lemma OtherStepsAre(s: State, op: Op)
    ensures var t := Apply(s, op);
      match op
      case Proof(m, accepted) =>
        s.worker.Chosen? ==>
          t == if accepted
               then s.(worker := Proven(s.worker.commit, s.worker.retry, s.worker.active, m), verified := s.verified + {(s.worker.commit, m)})
               else s.(worker := Idle)
      case LaunchRunner =>
        s.worker.Published? && s.worker.commit in s.inbox ==>
          t == s.(worker := Running(s.worker.commit, s.worker.colour),
                  launches := s.launches + [Launch(s.worker.commit, s.worker.colour, s.worker.retry, s.inbox[s.worker.commit])])
      case RunnerReserves(at) =>
        s.worker.Running? && s.worker.commit in s.inbox ==>
          var p := Record(s.host, s.pending, s.worker.colour, s.inbox[s.worker.commit], at);
          t == s.(pending := if p.Some? then p else s.pending)
      case GiveUp => t == s.(worker := Idle)
      case OperatorRecords(c, m, at) =>
        var p := Record(s.host, s.pending, c, m, at);
        t == s.(pending := if p.Some? then p else s.pending)
      case OperatorReleases(commit, promoted) => t == s.(pending := Discard(s.host, s.pending, commit, promoted))
      case Promote(h) => t == s.(host := h)
      case _ => true
  {
    hide ActiveRelease, Record, Discard, FirstSectionPasses, SecondSectionPasses;
  }

  lemma RunOne(s: State, op: Op, ops: seq<Op>)
    ensures Run(s, [op] + ops) == Run(Apply(s, op), ops)
  {
    hide Apply;
    assert ([op] + ops)[0] == op && ([op] + ops)[1..] == ops;
  }

  lemma RunNone(s: State)
    ensures Run(s, []) == s
  {
  }

  /** The two sections of an undisturbed invocation. */
  lemma SectionsRun(s: State, main: string, retry: bool, m: Manifest)
    requires s.worker.Idle? && MayChoose(s, main, retry)
    ensures var a := ActiveRelease(s.host).value;
      var colour := if a.colour == Blue then Green else Blue;
      Run(s, [FirstSection(main, retry), Proof(m, true), SecondSection]) ==
        s.(file := Some(Attempt(main, colour, Attempting)), inbox := s.inbox[main := m], verified := s.verified + {(main, m)},
           worker := Published(main, retry, colour, m),
           published := s.published + [Publication(main, colour, Some(a), s.pending)])
  {
    hide Run, ActiveRelease, IsCommit, FirstSectionPasses, SecondSectionPasses;
    var a := ActiveRelease(s.host).value;
    var proven := s.(worker := Proven(main, retry, a, m), verified := s.verified + {(main, m)});
    ChosenIff(s, main, retry);
    PublishedIff(proven);
    assert [FirstSection(main, retry), Proof(m, true), SecondSection] == [FirstSection(main, retry)] + ([Proof(m, true)] + ([SecondSection] + []));
    RunOne(s, FirstSection(main, retry), [Proof(m, true)] + ([SecondSection] + []));
    RunOne(s.(worker := Chosen(main, retry, a)), Proof(m, true), [SecondSection] + []);
    RunOne(proven, SecondSection, []);
    RunNone(Apply(proven, SecondSection));
  }

  /** An undisturbed invocation: one launch for the colour that is not running, the candidate
      reserved on top of the running release, unless the same commit is reserved with other
      bytes, and the runner's verdict in the attempt file. */
  lemma WholeInvocation(s: State, main: string, retry: bool, m: Manifest, at: int, ok: bool)
    requires s.worker.Idle? && MayChoose(s, main, retry) && m.commit == main
    ensures var a := ActiveRelease(s.host).value;
      var colour := if a.colour == Blue then Green else Blue;
      var t := Run(Run(s, [FirstSection(main, retry), Proof(m, true), SecondSection]), [LaunchRunner, RunnerReserves(at), Conclude(ok)]);
      && t.worker.Idle? && t.host == s.host && t.inbox == s.inbox[main := m]
      && t.file == Some(Attempt(main, colour, if ok then Staged else Failed))
      && t.launches == s.launches + [Launch(main, colour, retry, m)]
      && t.pending == if s.pending.Some? && s.pending.value.commit == main && s.pending.value.manifestSha != Sha256(m) then s.pending
                      else Some(Pending(colour, main, a.commit, Sha256(m), at))
  {
    hide Run, IsCommit, ActiveRelease, FirstSectionPasses, SecondSectionPasses;
    SectionsRun(s, main, retry, m);
    var p := Run(s, [FirstSection(main, retry), Proof(m, true), SecondSection]);
    var l := Apply(p, LaunchRunner);
    var r := Apply(l, RunnerReserves(at));
    assert [LaunchRunner, RunnerReserves(at), Conclude(ok)] == [LaunchRunner] + ([RunnerReserves(at)] + ([Conclude(ok)] + []));
    RunOne(p, LaunchRunner, [RunnerReserves(at)] + ([Conclude(ok)] + []));
    RunOne(l, RunnerReserves(at), [Conclude(ok)] + []);
    RunOne(r, Conclude(ok), []);
    RunNone(Apply(r, Conclude(ok)));
  }

  // ---------------------------------------------------------------- the helper's steps

  class Stager {
    var host: Host
    var pending: Option<Pending>
    var file: Option<Attempt>
    var inbox: map<string, Manifest>
    var worker: Worker
    ghost var verified: set<(string, Manifest)>
    ghost var published: seq<Publication>
    ghost var launches: seq<Launch>

    ghost function View(): State
      reads this
    {
      State(host, pending, file, inbox, worker, verified, published, launches)
    }

    constructor (s: State)
      ensures View() == s
    {
      host, pending, file, inbox, worker := s.host, s.pending, s.file, s.inbox, s.worker;
      verified, published, launches := s.verified, s.published, s.launches;
    }

    /** First locked section; the status names the reason for stopping. */
    method Choose(main: string, retry: bool) returns (status: string)
      requires worker.Idle?
      modifies this`worker
      ensures View() == Apply(old(View()), FirstSection(main, retry))
      ensures status == "chosen" <==> worker.Chosen?
    {
      var active := ActiveRelease(host);
      if active.None? || !IsCommit(main) {
        return "error";
      }
      if main == active.value.commit {
        return "current";
      }
      if pending.Some? && pending.value.commit != active.value.commit {
        if pending.value.commit != main || !retry {
          return "awaiting-review";
        }
      }
      if file.Some? && file.value.commit == main && file.value.status in {Failed, Attempting} && !retry {
        return "retry-required";
      }
      worker := Chosen(main, retry, active.value);
      status := "chosen";
    }

    /** Second locked section: attempt file first, then the inbox. */
    method Publish() returns (done: bool)
      requires worker.Proven?
      modifies this`file, this`inbox, this`worker, this`published
      ensures View() == Apply(old(View()), SecondSection)
      ensures done <==> worker.Published?
      ensures done <==> GapWasQuiet(old(View()))
      ensures !done ==> file == old(file) && inbox == old(inbox) && published == old(published)
    {
      var now := ActiveRelease(host);
      if now != Some(worker.active) || (pending.Some? && pending.value.commit !in {worker.commit, now.value.commit}) {
        worker := Idle;
        return false;
      }
      var colour := if worker.active.colour == Blue then Green else Blue;
      file := Some(Attempt(worker.commit, colour, Attempting));
      inbox := inbox[worker.commit := worker.manifest];
      published := published + [Publication(worker.commit, colour, now, pending)];
      worker := Published(worker.commit, worker.retry, colour, worker.manifest);
      done := true;
    }

    /** The runner is launched, and its verdict is written to the attempt file. */
    method StartRunner()
      requires worker.Published? && worker.commit in inbox
      modifies this`worker, this`launches
      ensures View() == Apply(old(View()), LaunchRunner)
    {
      launches := launches + [Launch(worker.commit, worker.colour, worker.retry, inbox[worker.commit])];
      worker := Running(worker.commit, worker.colour);
    }

    method Finish(ok: bool)
      requires worker.Running?
      modifies this`file, this`worker
      ensures View() == Apply(old(View()), Conclude(ok))
    {
      file := Some(Attempt(worker.commit, worker.colour, if ok then Staged else Failed));
      worker := Idle;
    }
  }
}
