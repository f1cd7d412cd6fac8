// Authorizing and clearing swaps over time, and what the shared-dependency gate then accepts.
module SwapHistory {
  import opened Prelude
  import opened FieldFiles
  import opened SharedGate

  /** Root's calls, a call that stops while it writes the grant, a clear that stops after
      some of its unlinks, and promotions, which change what is running. */
  datatype Op =
    | AuthorizeEmbedding(from: string, to: string, probe: Probe, at: OneLine)
    | AuthorizeEgress(candidate: Release, parseOk: bool, at: OneLine)
    | Interrupted(call: Op, written: nat)
    | Clear(kind: Kind)
    | InterruptedClear(kind: Kind, unlinked: set<string>)
    | Promote(release: Release)

  /** The grant that a call writes; None when it is refused. */
  function Requested(s: Server, op: Op): Option<Grant> {
    match op
    case AuthorizeEmbedding(from, to, probe, at) =>
      if IsImageDigest(from) && IsImageDigest(to) && from != to && Reference(s.running, Embedding) == from
         && probe.passed && probe.from == from && probe.to == to
      then Some(Grant(Embedding, from, to, at, probe.digest)) else None
    case AuthorizeEgress(candidate, parseOk, at) =>
      var current, next := Reference(s.running, Egress), Reference(candidate, Egress);
      if parseOk && IsSha256Hex(current) && IsSha256Hex(next) && current != next
      then Some(Grant(Egress, current, next, at, "true")) else None
    case _ => None
  }

  /** The grant is valid. */
  lemma RequestedIsValid(s: Server, op: Op)
    ensures Requested(s, op).Some? ==> ValidGrant(Requested(s, op).value)
  {
  }

  function With(s: Server, kind: Kind, directory: Directory): Server {
    if kind == Embedding then s.(embedding := directory) else s.(egress := directory)
  }

  /** A text under the name of the grant's destination. */
  function File(s: Server, g: Grant, text: string): Server
    requires ValidGrant(g)
  {
    var directory := DirectoryOf(s, g.kind);
    var files := if directory.Some? then directory.value else map[];
    With(s, g.kind, Some(files[FileName(g.kind, g.to) := text]))
  }

  function Cleared(directory: Directory): Directory {
    if directory.Some? then Some(map[]) else None
  }

  function Unlinked(directory: Directory, names: set<string>): Directory {
    if directory.Some? then Some(directory.value - names) else None
  }

  function Step(s: Server, op: Op): Server {
    RequestedIsValid(s, op);
    match op
    case Clear(kind) => With(s, kind, Cleared(DirectoryOf(s, kind)))
    case InterruptedClear(kind, unlinked) => With(s, kind, Unlinked(DirectoryOf(s, kind), unlinked))
    case Promote(release) => s.(running := release)
    case Interrupted(call, written) =>
      RequestedIsValid(s, call);
      var g := Requested(s, call);
      if g.Some? && written < |Render(GrantFields(g.value))| - 1
      then File(s, g.value, Render(GrantFields(g.value))[..written]) else s
    case _ =>
      var g := Requested(s, op);
      if g.Some? then File(s, g.value, Render(GrantFields(g.value))) else s
  }

  function Run(s: Server, ops: seq<Op>): Server
    decreases |ops|
  {
    if ops == [] then s else Run(Step(s, ops[0]), ops[1..])
  }

  // --------------------------------------------------------------------------- ledger

  datatype Event = Granted(grant: Grant) | Torn(grant: Grant, written: nat) | Wiped(kind: Kind)
    | Dropped(kind: Kind, names: set<string>)

  function Emit(s: Server, op: Op): seq<Event> {
    match op
    case Clear(kind) => [Wiped(kind)]
    case InterruptedClear(kind, unlinked) => [Dropped(kind, unlinked)]
    case Promote(_) => []
    case Interrupted(call, written) =>
      var g := Requested(s, call);
      if g.Some? && written < |Render(GrantFields(g.value))| - 1 then [Torn(g.value, written)] else []
    case _ =>
      var g := Requested(s, op);
      if g.Some? then [Granted(g.value)] else []
  }

  function Log(s: Server, ops: seq<Op>): seq<Event>
    decreases |ops|
  {
    if ops == [] then [] else Emit(s, ops[0]) + Log(Step(s, ops[0]), ops[1..])
  }

  /** The event concerns the grant file with this name. */
  predicate Concerns(e: Event, kind: Kind, name: string) {
    match e
    case Wiped(k) => k == kind
    case Dropped(k, names) => k == kind && name in names
    case Granted(g) => g.kind == kind && ValidGrant(g) && FileName(kind, g.to) == name
    case Torn(g, _) => g.kind == kind && ValidGrant(g) && FileName(kind, g.to) == name
  }

  /** The last event that concerns the file. */
  function Latest(log: seq<Event>, kind: Kind, name: string): Option<Event> {
    if log == [] then None
    else if Concerns(log[|log| - 1], kind, name) then Some(log[|log| - 1])
    else Latest(log[..|log| - 1], kind, name)
  }

  /** The grant that survives for a destination names exactly this swap. */
  predicate Covered(log: seq<Event>, kind: Kind, current: string, candidate: string) {
    WellFormed(kind, candidate) &&
    var latest := Latest(log, kind, FileName(kind, candidate));
    latest.Some? && latest.value.Granted? && latest.value.grant.from == current && latest.value.grant.to == candidate
  }

  /** The text that the last event left in a file. */
  function Left(e: Option<Event>): Option<string> {
    match e
    case None => None
    case Some(Wiped(_)) => None
    case Some(Dropped(_, _)) => None
    case Some(Granted(g)) => Some(Render(GrantFields(g)))
    case Some(Torn(g, n)) =>
      if n < |Render(GrantFields(g))| - 1 then Some(Render(GrantFields(g))[..n]) else None
  }

  function Stored(directory: Directory, name: string): Option<string> {
    if directory.Some? && name in directory.value then Some(directory.value[name]) else None
  }

  /** Every grant file holds what the last event about it left. */
  ghost predicate Filed(s: Server, log: seq<Event>) {
    forall kind: Kind, name: string :: Stored(DirectoryOf(s, kind), name) == Left(Latest(log, kind, name))
  }

  lemma LatestOneMore(log: seq<Event>, e: Event, kind: Kind, name: string)
    ensures Latest(log + [e], kind, name) == if Concerns(e, kind, name) then Some(e) else Latest(log, kind, name)
  {
    assert (log + [e])[..|log|] == log;
  }

  lemma FileStores(s: Server, g: Grant, text: string, kind: Kind, name: string)
    requires ValidGrant(g)
    ensures Stored(DirectoryOf(File(s, g, text), kind), name) ==
      if kind == g.kind && name == FileName(kind, g.to) then Some(text) else Stored(DirectoryOf(s, kind), name)
  {
    hide WellFormed;
  }

  lemma FiledOne(s: Server, log: seq<Event>, e: Event, t: Server)
    requires Filed(s, log)
    requires match e
      case Wiped(kind) => t == With(s, kind, Cleared(DirectoryOf(s, kind)))
      case Dropped(kind, names) => t == With(s, kind, Unlinked(DirectoryOf(s, kind), names))
      case Granted(g) => ValidGrant(g) && t == File(s, g, Render(GrantFields(g)))
      case Torn(g, n) =>
        ValidGrant(g) && n < |Render(GrantFields(g))| - 1 && t == File(s, g, Render(GrantFields(g))[..n])
    ensures Filed(t, log + [e])
  {
    hide Render, GrantFields, FileName, ValidGrant, File;
    forall kind: Kind, name: string
      ensures Stored(DirectoryOf(t, kind), name) == Left(Latest(log + [e], kind, name))
    {
      LatestOneMore(log, e, kind, name);
      assert Stored(DirectoryOf(s, kind), name) == Left(Latest(log, kind, name));
      match e
      case Wiped(_) =>
      case Dropped(_, _) =>
      case Granted(g) => FileStores(s, g, Render(GrantFields(g)), kind, name);
      case Torn(g, n) => FileStores(s, g, Render(GrantFields(g))[..n], kind, name);
    }
  }

  lemma StepIsFiled(s: Server, log: seq<Event>, op: Op)
    requires Filed(s, log)
    ensures Filed(Step(s, op), log + Emit(s, op))
  {
    hide Filed, File, Render, GrantFields, ValidGrant, Requested, With;
    assert log + [] == log;
    RequestedIsValid(s, op);
    match op
    case Clear(kind) => FiledOne(s, log, Wiped(kind), Step(s, op));
    case InterruptedClear(kind, unlinked) => FiledOne(s, log, Dropped(kind, unlinked), Step(s, op));
    case Promote(release) => RunningIsNotFiled(s, log, release);
    case Interrupted(call, written) =>
      RequestedIsValid(s, call);
      var g := Requested(s, call);
      if g.Some? && written < |Render(GrantFields(g.value))| - 1 {
        FiledOne(s, log, Torn(g.value, written), Step(s, op));
      }
    case _ =>
      var g := Requested(s, op);
      if g.Some? {
        FiledOne(s, log, Granted(g.value), Step(s, op));
      }
  }

  lemma RunningIsNotFiled(s: Server, log: seq<Event>, release: Release)
    requires Filed(s, log)
    ensures Filed(s.(running := release), log)
  {
    forall kind: Kind, name: string
      ensures Stored(DirectoryOf(s.(running := release), kind), name) == Left(Latest(log, kind, name))
    {
      assert DirectoryOf(s.(running := release), kind) == DirectoryOf(s, kind);
    }
  }

  lemma {:induction false} RunIsFiled(s: Server, log: seq<Event>, ops: seq<Op>)
    requires Filed(s, log)
    ensures Filed(Run(s, ops), log + Log(s, ops))
    decreases |ops|
  {
    hide Filed, Step, Emit;
    if ops == [] {
      assert log + [] == log;
    } else {
      StepIsFiled(s, log, ops[0]);
      RunIsFiled(Step(s, ops[0]), log + Emit(s, ops[0]), ops[1..]);
      assert log + Emit(s, ops[0]) + Log(Step(s, ops[0]), ops[1..]) == log + Log(s, ops);
    }
  }

  // -------------------------------------------------------------------------- theorem

  lemma {:induction false} LatestConcerns(log: seq<Event>, kind: Kind, name: string)
    ensures Latest(log, kind, name).Some? ==> Concerns(Latest(log, kind, name).value, kind, name)
  {
    if log != [] {
      LatestConcerns(log[..|log| - 1], kind, name);
    }
  }

  /** Asking the directory answers what the ledger says. */
  lemma AskIff(s: Server, log: seq<Event>, kind: Kind, candidate: Release)
    requires Filed(s, log)
    ensures Ask(s, kind, candidate) == Authorized <==>
      Covered(log, kind, Reference(s.running, kind), Reference(candidate, kind))
  {
    hide Render, GrantFields, ValidGrant, WellFormed, Reference, Parse, Names;
    var current, next := Reference(s.running, kind), Reference(candidate, kind);
    if WellFormed(kind, next) {
      var name := FileName(kind, next);
      var directory := DirectoryOf(s, kind);
      assert Stored(directory, name) == Left(Latest(log, kind, name));
      LatestConcerns(log, kind, name);
      if Stored(directory, name).Some? {
        match Latest(log, kind, name).value
        case Granted(g) => WrittenGrantAuthorizes(g, directory.value, current, next);
        case Torn(g, n) => TornGrantRefused(g, n, directory.value, current, next);
      }
    }
  }

  /** Over every sequence of authorizations, clears, interrupted ones of both, and
      promotions, the gate accepts a candidate exactly when all other shared items are
      unchanged and each of the embedding image and the egress configuration is unchanged or covered by the surviving
      grant for its destination, naming exactly what runs now and what the candidate brings. */
  lemma GateOverHistory(start: Server, ops: seq<Op>, candidate: Release)
    requires start.embedding in {None, Some(map[])} && start.egress in {None, Some(map[])}
    ensures var s := Run(start, ops);
      var log := Log(start, ops);
      Gate(s, candidate) <==>
        && OthersSame(s.running, candidate)
        && (Same(s.running, candidate, Embedding)
            || Covered(log, Embedding, Reference(s.running, Embedding), Reference(candidate, Embedding)))
        && (Same(s.running, candidate, Egress)
            || Covered(log, Egress, Reference(s.running, Egress), Reference(candidate, Egress)))
  {
    hide Gate, OthersSame, Same, Ask, Covered, Run, Log, Reference;
    assert Filed(start, []);
    RunIsFiled(start, [], ops);
    assert [] + Log(start, ops) == Log(start, ops);
    AskIff(Run(start, ops), Log(start, ops), Embedding, candidate);
    AskIff(Run(start, ops), Log(start, ops), Egress, candidate);
    GateIff(Run(start, ops), candidate);
  }

  // ---------------------------------------------------------------------- directories

  predicate IsGrantName(name: string) {
    |name| == 68 && IsSha256Hex(name[..64]) && name[64..] == ".env"
  }

  /** One grant directory that is written and cleared in place. */
  class GrantDirectory {
    const kind: Kind
    var files: Directory

    constructor (kind: Kind)
      ensures this.kind == kind && files == None
    {
      this.kind := kind;
      files := None;
    }

    /** Writes a grant, replacing the one for the same destination. */
    method Write(g: Grant)
      requires g.kind == kind && ValidGrant(g)
      modifies this`files
      ensures forall s: Server | DirectoryOf(s, kind) == old(files) ::
        DirectoryOf(File(s, g, Render(GrantFields(g))), kind) == files
    {
      var known := if files.Some? then files.value else map[];
      files := Some(known[FileName(kind, g.to) := Render(GrantFields(g))]);
    }

    /** Removes the entries in listing order; an entry that is no grant stops the clearing,
        and the process may be killed after `stop` unlinks. */
    method Clear(listing: seq<string>, stop: nat) returns (removed: Option<seq<string>>)
      requires files.Some? ==> forall name :: name in files.value <==> name in listing
      modifies this`files
      ensures old(files).None? ==> files.None? && removed == Some([])
      ensures old(files).Some? && (forall name | name in listing :: IsGrantName(name)) && stop >= |listing| ==>
        files == Some(map[]) && removed == Some(listing)
      ensures removed.Some? ==> files == Cleared(old(files))
      ensures removed.None? ==> exists k: nat ::
        && k < |listing| && (k == stop || !IsGrantName(listing[k])) && (forall j | 0 <= j < k :: IsGrantName(listing[j]))
        && files == Unlinked(old(files), set j | 0 <= j < k :: listing[j])
    {
      if files.None? {
        return Some([]);
      }
      var left := files.value;
      for i := 0 to |listing|
        invariant files.Some? && files.value == left
        invariant left == old(files).value - (set j | 0 <= j < i :: listing[j])
        invariant forall j | 0 <= j < i :: IsGrantName(listing[j])
      {
        if i == stop || !IsGrantName(listing[i]) {
          return None;
        }
        left := left - {listing[i]};
        files := Some(left);
      }
      assert left == map[];
      removed := Some(listing);
    }
  }

  // ---------------------------------------------------------------------- who is granted

  /** An authorization of the embedding swap is written exactly for two different immutable
      references of which the first one runs, with a probe that passed for just these two. */
  lemma EmbeddingGrantedIff(s: Server, from: string, to: string, probe: Probe, at: OneLine)
    ensures var g := Requested(s, AuthorizeEmbedding(from, to, probe, at));
      && (g.Some? <==>
            && IsImageDigest(from) && IsImageDigest(to) && from != to
            && "EMBEDDING_IMAGE" in s.running.images && s.running.images["EMBEDDING_IMAGE"] == from
            && probe.passed && probe.from == from && probe.to == to)
      && (g.Some? ==> g.value == Grant(Embedding, from, to, at, probe.digest))
  {
    hide IsImageDigest;
    DigestIsSomething(from);
  }

  lemma DigestIsSomething(s: string)
    ensures IsImageDigest(s) ==> s != ""
  {
  }

  /** An authorization of the egress configuration is written exactly after a passing parse,
      for the two different digests that the running and the candidate release name. */
  lemma EgressGrantedIff(s: Server, candidate: Release, parseOk: bool, at: OneLine)
    ensures var g, path := Requested(s, AuthorizeEgress(candidate, parseOk, at)), "infra/egress-squid.conf";
      && (g.Some? <==>
            && parseOk && path in s.running.hashes && path in candidate.hashes
            && IsSha256Hex(s.running.hashes[path]) && IsSha256Hex(candidate.hashes[path])
            && s.running.hashes[path] != candidate.hashes[path])
      && (g.Some? ==> g.value == Grant(Egress, s.running.hashes[path], candidate.hashes[path], at, "true"))
  {
    assert !IsSha256Hex("");
    hide IsSha256Hex;
  }

  lemma OnlyCallsGrant(s: Server, op: Op)
    ensures Requested(s, op).Some? ==> op.AuthorizeEmbedding? || op.AuthorizeEgress?
  {
  }

  /** The call was accepted in this state for exactly this grant. */
  ghost predicate AskedFor(s: Server, op: Op, g: Grant) {
    Requested(s, op) == Some(g) && (op.AuthorizeEmbedding? || op.AuthorizeEgress?)
  }

  lemma {:induction false} RunPrefix(s: Server, ops: seq<Op>, k: nat)
    requires 0 < k <= |ops|
    ensures Run(s, ops[..k]) == Run(Step(s, ops[0]), ops[1..][..k - 1])
  {
    hide Step;
    assert ops[..k][0] == ops[0] && ops[..k][1..] == ops[1..][..k - 1];
  }

  /** Every grant in the history was asked for, and accepted, at some moment of it. */
  lemma {:induction false} GrantsWereAskedFor(s: Server, ops: seq<Op>, g: Grant)
    requires Granted(g) in Log(s, ops)
    ensures exists k: nat :: k < |ops| && AskedFor(Run(s, ops[..k]), ops[k], g)
    decreases |ops|
  {
    hide Step, Requested, AskedFor;
    if Granted(g) in Emit(s, ops[0]) {
      EmittedWasAskedFor(s, ops[0], g);
      assert ops[..0] == [];
      assert Run(s, ops[..0]) == s;
    } else {
      GrantsWereAskedFor(Step(s, ops[0]), ops[1..], g);
      var k: nat :| k < |ops[1..]| && AskedFor(Run(Step(s, ops[0]), ops[1..][..k]), ops[1..][k], g);
      RunPrefix(s, ops, k + 1);
      assert AskedFor(Run(s, ops[..k + 1]), ops[k + 1], g);
    }
  }

  lemma EmittedWasAskedFor(s: Server, op: Op, g: Grant)
    requires Granted(g) in Emit(s, op)
    ensures AskedFor(s, op, g)
  {
    hide Requested;
    OnlyCallsGrant(s, op);
  }

  /** So a surviving grant always goes back to a call that was accepted while its source was
      running, for exactly the swap that it covers. */
  lemma CoverWasAskedFor(start: Server, ops: seq<Op>, kind: Kind, current: string, candidate: string)
    requires Covered(Log(start, ops), kind, current, candidate)
    ensures exists k: nat, g: Grant :: k < |ops| && AskedFor(Run(start, ops[..k]), ops[k], g)
              && g.kind == kind && g.from == current && g.to == candidate
              && Reference(Run(start, ops[..k]).running, kind) == current
  {
    hide Run, Log, Requested, WellFormed, AskedFor;
    var log := Log(start, ops);
    var name := FileName(kind, candidate);
    LatestConcerns(log, kind, name);
    LatestIsLogged(log, kind, name);
    var g := Latest(log, kind, name).value.grant;
    GrantsWereAskedFor(start, ops, g);
    var k: nat :| k < |ops| && AskedFor(Run(start, ops[..k]), ops[k], g);
    AskedForRunning(Run(start, ops[..k]), ops[k], g);
  }

  lemma AskedForRunning(s: Server, op: Op, g: Grant)
    requires AskedFor(s, op, g)
    ensures Reference(s.running, g.kind) == g.from
  {
  }

  lemma {:induction false} LatestIsLogged(log: seq<Event>, kind: Kind, name: string)
    ensures Latest(log, kind, name).Some? ==> Latest(log, kind, name).value in log
  {
    hide Concerns;
    if log != [] {
      LatestIsLogged(log[..|log| - 1], kind, name);
    }
  }

  // --------------------------------------------------------------- one step at a time

  /** A promotion changes what is running and nothing else; clearing changes nothing but
      its own directory, where the unlinked files, or all, are gone. */
  lemma OtherStepsAre(s: Server, op: Op, kind: Kind, name: string)
    requires op.Promote? || op.Clear? || op.InterruptedClear?
    ensures var t := Step(s, op);
      && t.running == (if op.Promote? then op.release else s.running)
      && (DirectoryOf(t, kind).Some? <==> DirectoryOf(s, kind).Some?)
      && Stored(DirectoryOf(t, kind), name) ==
        if (op.Clear? && op.kind == kind) || (op.InterruptedClear? && op.kind == kind && name in op.unlinked) then None
        else Stored(DirectoryOf(s, kind), name)
  {
  }

  /** An accepted call changes nothing but the file of its destination, which then holds the
      grant; one that stops while it writes leaves the beginning there, unless only the last
      line break is missing, which is not a step of its own. */
  lemma CallsAre(s: Server, op: Op, written: nat, kind: Kind, name: string)
    requires op.AuthorizeEmbedding? || op.AuthorizeEgress?
    ensures var g, t, u := Requested(s, op), Step(s, op), Step(s, Interrupted(op, written));
      && t.running == u.running == s.running
      && (g.None? ==> t == s && u == s)
      && (g.Some? ==>
            var text, there := Render(GrantFields(g.value)), kind == g.value.kind && name == FileName(kind, g.value.to);
            && Stored(DirectoryOf(t, kind), name) == (if there then Some(text) else Stored(DirectoryOf(s, kind), name))
            && Stored(DirectoryOf(u, kind), name) ==
              (if there && written < |text| - 1 then Some(text[..written]) else Stored(DirectoryOf(s, kind), name)))
  {
    hide Render, GrantFields, FileName, ValidGrant, File;
    RequestedIsValid(s, op);
    FileKeepsRunning(s, op, written);
    var g := Requested(s, op);
    if g.Some? {
      var text := Render(GrantFields(g.value));
      FileStores(s, g.value, text, kind, name);
      if written < |text| - 1 {
        FileStores(s, g.value, text[..written], kind, name);
      }
    }
  }

  lemma FileKeepsRunning(s: Server, op: Op, written: nat)
    requires op.AuthorizeEmbedding? || op.AuthorizeEgress?
    ensures Step(s, op).running == s.running && Step(s, Interrupted(op, written)).running == s.running
  {
    hide Render, GrantFields, Requested;
  }

  /** A grant's file is named by sixty-four hexadecimal digits, and so is every file that
      clearing accepts: it never stops at a grant. */
  lemma GrantNameIff(name: string)
    ensures IsGrantName(name) <==> exists digest :: |digest| == 64 && HexDigits(digest) && name == digest + ".env"
  {
    hide HexDigits, IsSha256Hex;
    if IsGrantName(name) {
      IdentifierIff(name[..64]);
      assert name == name[..64] + ".env";
    }
    if digest :| |digest| == 64 && HexDigits(digest) && name == digest + ".env" {
      IdentifierIff(digest);
      assert name[..64] == digest && name[64..] == ".env";
    }
  }

  lemma GrantsAreCleared(g: Grant)
    requires ValidGrant(g)
    ensures IsGrantName(FileName(g.kind, g.to))
  {
  }
}
