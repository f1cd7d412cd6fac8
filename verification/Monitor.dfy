// Health monitoring with debounced alerts.
module Monitor {
  import opened Prelude

  datatype Severity = Ok | Warning | Critical

  datatype Observation = Observation(check: string, severity: Severity)

  /** The stored state of one check. */
  datatype Check = Check(observed: Severity, severity: Severity, streak: nat)

  datatype Transition = Transition(check: string, before: Severity, after: Severity, recovered: bool, streak: nat)

  /** What the state file holds. */
  datatype Stored = Nothing | Record(checks: map<string, Check>) | Unrecognized

  // -------------------------------------------------------------------------- collect

  datatype Queue = Queue(active: int, queued: int, activeLimit: int, queueLimit: int)

  datatype Internal = Internal(database: bool, dependencies: bool, queue: Option<Queue>, draining: bool)

  datatype Volume = Volume(total: int, free: int)

  /** What the probes returned; None where a probe failed. */
  datatype Probes = Probes(public: Option<bool>, internal: Option<Internal>, root: Option<Volume>, docker: Option<Volume>,
                           backupAge: Option<int>)

  function Used(v: Volume): real
    requires v.total != 0
  {
    100.0 * (v.total - v.free) as real / v.total as real
  }

  function DiskSeverity(root: Option<Volume>, docker: Option<Volume>): Severity {
    if root.None? || docker.None? || root.value.total == 0 || docker.value.total == 0 then Critical
    else
      var used := if Used(root.value) >= Used(docker.value) then Used(root.value) else Used(docker.value);
      if used >= 90.0 then Critical else if used >= 80.0 then Warning else Ok
  }

  function QueueSeverity(queue: Option<Queue>): Severity {
    match queue
    case None => Warning
    case Some(q) =>
      if q.active < 0 || q.queued < 0 || q.activeLimit < 1 || q.queueLimit < 1 then Warning
      else if q.active >= q.activeLimit && q.queued >= q.queueLimit then Warning
      else Ok
  }

  function InternalChecks(internal: Option<Internal>): seq<Observation> {
    match internal
    case None =>
      [Observation("database", Critical), Observation("retrieval", Critical), Observation("queue", Critical), Observation("draining", Critical)]
    case Some(health) =>
      [Observation("database", if health.database then Ok else Critical),
       Observation("retrieval", if health.dependencies then Ok else Warning),
       Observation("queue", QueueSeverity(health.queue)),
       Observation("draining", if health.draining then Warning else Ok)]
  }

  function Collect(p: Probes): seq<Observation> {
    [Observation("public", if p.public == Some(true) then Ok else Critical)]
    + InternalChecks(p.internal)
    + [Observation("disk", DiskSeverity(p.root, p.docker)),
       Observation("backup", if p.backupAge.Some? && 0 <= p.backupAge.value <= 26 * 3600 then Ok else Critical)]
  }

  const CHECK_NAMES: seq<string> := ["public", "database", "retrieval", "queue", "draining", "disk", "backup"]

  lemma CollectNames(p: Probes)
    ensures |Collect(p)| == |CHECK_NAMES| && forall i | 0 <= i < |CHECK_NAMES| :: Collect(p)[i].check == CHECK_NAMES[i]
  {
    hide DiskSeverity, QueueSeverity;
    var round, inner := Collect(p), InternalChecks(p.internal);
    assert |inner| == 4 && forall i | 0 <= i < 4 :: round[i + 1] == inner[i];
  }

  lemma NamesDiffer()
    ensures forall i, j | 0 <= i < j < |CHECK_NAMES| :: CHECK_NAMES[i] != CHECK_NAMES[j]
  {
    assert CHECK_NAMES[1][1] == 'a' && CHECK_NAMES[4][1] == 'r' && CHECK_NAMES[5][1] == 'i';
  }

  /** Whatever the probes do, every round reports the same seven checks, each once. */
  lemma CollectIsTotal(p: Probes)
    ensures |Collect(p)| == |CHECK_NAMES| && forall i | 0 <= i < |CHECK_NAMES| :: Collect(p)[i].check == CHECK_NAMES[i]
    ensures DistinctChecks(Collect(p)) && forall name | name in CHECK_NAMES :: Seen(Collect(p), name).Some?
  {
    hide Collect, CHECK_NAMES, Seen;
    CollectNames(p);
    NamesDiffer();
    forall name | name in CHECK_NAMES ensures Seen(Collect(p), name).Some? {
      var i :| 0 <= i < |CHECK_NAMES| && CHECK_NAMES[i] == name;
      SeenAt(Collect(p), i);
    }
  }

  // -------------------------------------------------------------------------- monitor

  function Threshold(name: string): nat {
    if name in {"disk", "backup"} then 1 else 3
  }

  function Before(checks: map<string, Check>, name: string): Check {
    if name in checks then checks[name] else Check(Ok, Ok, 0)
  }

  function Advance(before: Check, name: string, desired: Severity): Check {
    var streak := if desired != Ok then before.streak + 1 else 0;
    var effective := if streak >= Threshold(name) || desired == Ok then desired else before.severity;
    Check(desired, effective, streak)
  }

  function Emit(before: Check, after: Check, name: string): seq<Transition> {
    if after.severity == before.severity then []
    else [Transition(name, before.severity, after.severity, after.severity == Ok, after.streak)]
  }

  function Observe(previous: map<string, Check>, round: seq<Observation>): map<string, Check> {
    if round == [] then map[]
    else
      var init, o := round[..|round| - 1], round[|round| - 1];
      Observe(previous, init)[o.check := Advance(Before(previous, o.check), o.check, o.severity)]
  }

  function Transitions(previous: map<string, Check>, round: seq<Observation>): seq<Transition> {
    if round == [] then []
    else
      var init, o := round[..|round| - 1], round[|round| - 1];
      var before := Before(previous, o.check);
      Transitions(previous, init) + Emit(before, Advance(before, o.check, o.severity), o.check)
  }

  lemma ObserveNothing(previous: map<string, Check>)
    ensures Observe(previous, []) == map[] && Transitions(previous, []) == []
  {
  }

  lemma ObserveOneMore(previous: map<string, Check>, round: seq<Observation>, i: nat)
    requires i < |round|
    ensures var name := round[i].check;
      var before := Before(previous, name);
      var after := Advance(before, name, round[i].severity);
      && Observe(previous, round[..i + 1]) == Observe(previous, round[..i])[name := after]
      && Transitions(previous, round[..i + 1]) == Transitions(previous, round[..i]) + Emit(before, after, name)
  {
    hide Advance, Emit, Before;
    assert round[..i + 1][..i] == round[..i] && round[..i + 1][i] == round[i];
  }

  /** The monitor's state file. */
  class StateFile {
    var stored: Stored

    constructor ()
      ensures stored == Nothing
    {
      stored := Nothing;
    }

    /** One monitoring run; None is the error for a file of another schema. */
    method Run(round: seq<Observation>) returns (transitions: Option<seq<Transition>>)
      modifies this
      ensures old(stored).Unrecognized? ==> transitions.None? && stored == old(stored)
      ensures !old(stored).Unrecognized? ==>
        var previous := if old(stored).Record? then old(stored).checks else map[];
        stored == Record(Observe(previous, round)) && transitions == Some(Transitions(previous, round))
    {
      hide Observe, Transitions, Before, Threshold;
      if stored.Unrecognized? {
        return None;
      }
      var previous := if stored.Record? then stored.checks else map[];
      var states: map<string, Check>, emitted: seq<Transition> := map[], [];
      ObserveNothing(previous);
      assert round[..0] == [];
      for i := 0 to |round|
        invariant stored == old(stored)
        invariant states == Observe(previous, round[..i])
        invariant emitted == Transitions(previous, round[..i])
      {
        ObserveOneMore(previous, round, i);
        var name, desired := round[i].check, round[i].severity;
        var before := Before(previous, name);
        var streak := if desired != Ok then before.streak + 1 else 0;
        var effective := before.severity;
        if streak >= Threshold(name) || desired == Ok {
          effective := desired;
        }
        states := states[name := Check(desired, effective, streak)];
        if effective != before.severity {
          emitted := emitted + [Transition(name, before.severity, effective, effective == Ok, streak)];
        }
      }
      assert round[..|round|] == round;
      stored := Record(states);
      transitions := Some(emitted);
    }
  }

  // ------------------------------------------------------------------------ histories

  predicate DistinctChecks(round: seq<Observation>) {
    forall i, j | 0 <= i < j < |round| :: round[i].check != round[j].check
  }

  function Seen(round: seq<Observation>, name: string): Option<Severity> {
    if round == [] then None
    else if round[|round| - 1].check == name then Some(round[|round| - 1].severity)
    else Seen(round[..|round| - 1], name)
  }

  lemma {:induction false} SeenAt(round: seq<Observation>, i: nat)
    requires i < |round|
    ensures Seen(round, round[i].check).Some?
    decreases |round|
  {
    if round[|round| - 1].check != round[i].check {
      assert round[..|round| - 1][i] == round[i];
      SeenAt(round[..|round| - 1], i);
    }
  }

  /** The stored checks after a history of rounds, oldest first. */
  function Replay(history: seq<seq<Observation>>): map<string, Check> {
    if history == [] then map[] else Observe(Replay(history[..|history| - 1]), history[|history| - 1])
  }

  /** All transitions that a history emits. */
  function Emitted(history: seq<seq<Observation>>): seq<Transition> {
    if history == [] then []
    else
      var init, last := history[..|history| - 1], history[|history| - 1];
      Emitted(init) + Transitions(Replay(init), last)
  }

  /** The length of the unbroken run of failing observations at the end. */
  function Failing(history: seq<seq<Observation>>, name: string): nat {
    if history == [] then 0
    else
      var seen := Seen(history[|history| - 1], name);
      if seen.None? || seen.value == Ok then 0 else 1 + Failing(history[..|history| - 1], name)
  }

  /** The stateless rule: what was last seen, once the failing run is long enough. */
  function Rule(history: seq<seq<Observation>>, name: string): Severity {
    if history == [] then Ok
    else
      var seen := Seen(history[|history| - 1], name);
      if seen.None? || Failing(history, name) < Threshold(name) then Ok else seen.value
  }

  lemma {:induction false} ObserveAt(previous: map<string, Check>, round: seq<Observation>, name: string)
    ensures name in Observe(previous, round) <==> Seen(round, name).Some?
    ensures name in Observe(previous, round) ==>
      Observe(previous, round)[name] == Advance(Before(previous, name), name, Seen(round, name).value)
  {
    if round != [] && round[|round| - 1].check != name {
      ObserveAt(previous, round[..|round| - 1], name);
    }
  }

  /** Debouncing refines the stateless rule: over every history the stored streak is the
      length of the failing run and the stored severity is what the rule says. */
  lemma {:induction false} DebounceRefinesRule(history: seq<seq<Observation>>, name: string)
    ensures Before(Replay(history), name).severity == Rule(history, name)
    ensures Before(Replay(history), name).streak == Failing(history, name)
  {
    if history != [] {
      var init, last := history[..|history| - 1], history[|history| - 1];
      DebounceRefinesRule(init, name);
      ObserveAt(Replay(init), last, name);
      RuleDuringRun(init, name);
    }
  }

  /** While a failing run is short the rule still says that all is well. */
  lemma RuleDuringRun(history: seq<seq<Observation>>, name: string)
    ensures Failing(history, name) < Threshold(name) ==> Rule(history, name) == Ok
  {
  }

  /** Applies the transitions of one check in order, insisting that each starts from the
      severity that the one before ended with. */
  function Fold(transitions: seq<Transition>, name: string): Option<Severity> {
    if transitions == [] then Some(Ok)
    else
      var t := transitions[|transitions| - 1];
      var before := Fold(transitions[..|transitions| - 1], name);
      if t.check != name then before
      else if before == Some(t.before) then Some(t.after)
      else None
  }

  /** Applies transitions on top of a severity. */
  function FoldFrom(start: Option<Severity>, transitions: seq<Transition>, name: string): Option<Severity> {
    if transitions == [] then start
    else
      var t := transitions[|transitions| - 1];
      var before := FoldFrom(start, transitions[..|transitions| - 1], name);
      if t.check != name then before
      else if before == Some(t.before) then Some(t.after)
      else None
  }

  lemma {:induction false} FoldAppend(a: seq<Transition>, b: seq<Transition>, name: string)
    ensures Fold(a + b, name) == FoldFrom(Fold(a, name), b, name)
  {
    if b == [] {
      assert a + b == a;
    } else {
      assert (a + b)[..|a + b| - 1] == a + b[..|b| - 1];
      FoldAppend(a, b[..|b| - 1], name);
    }
  }

  lemma {:induction false} FoldFromAppend(start: Option<Severity>, a: seq<Transition>, b: seq<Transition>, name: string)
    ensures FoldFrom(start, a + b, name) == FoldFrom(FoldFrom(start, a, name), b, name)
  {
    if b == [] {
      assert a + b == a;
    } else {
      assert (a + b)[..|a + b| - 1] == a + b[..|b| - 1];
      FoldFromAppend(start, a, b[..|b| - 1], name);
    }
  }

  lemma FoldEmit(before: Check, after: Check, check: string, name: string, start: Severity)
    requires check == name ==> before.severity == start
    ensures FoldFrom(Some(start), Emit(before, after, check), name) == Some(if check == name then after.severity else start)
  {
    var emitted := Emit(before, after, check);
    if emitted != [] {
      assert emitted[..0] == [];
    }
  }

  /** The transitions of one round take a check from its stored severity to its new one. */
  lemma {:induction false} FoldRound(previous: map<string, Check>, round: seq<Observation>, name: string)
    requires DistinctChecks(round)
    ensures FoldFrom(Some(Before(previous, name).severity), Transitions(previous, round), name) ==
      Some(if Seen(round, name).Some? then Advance(Before(previous, name), name, Seen(round, name).value).severity
           else Before(previous, name).severity)
  {
    hide Advance;
    if round != [] {
      var init, o := round[..|round| - 1], round[|round| - 1];
      var before := Before(previous, o.check);
      var start := Before(previous, name).severity;
      FoldRound(previous, init, name);
      var emitted := Emit(before, Advance(before, o.check, o.severity), o.check);
      FoldFromAppend(Some(start), Transitions(previous, init), emitted, name);
      if o.check == name {
        NotSeen(init, name);
        FoldEmit(before, Advance(before, o.check, o.severity), o.check, name, start);
      } else {
        var reached := FoldFrom(Some(start), Transitions(previous, init), name).value;
        FoldEmit(before, Advance(before, o.check, o.severity), o.check, name, reached);
      }
    }
  }

  lemma {:induction false} NotSeen(round: seq<Observation>, name: string)
    requires forall o | o in round :: o.check != name
    ensures Seen(round, name) == None
  {
    if round != [] {
      assert round[|round| - 1] in round;
      NotSeen(round[..|round| - 1], name);
    }
  }

  /** Nothing is missing from the journal: for a check that every round reports, folding
      all transitions ever emitted, from `ok`, gives the severity the rule reports now. */
  lemma {:induction false} JournalIsComplete(history: seq<seq<Observation>>, name: string)
    requires forall round | round in history :: DistinctChecks(round) && Seen(round, name).Some?
    ensures Fold(Emitted(history), name) == Some(Rule(history, name))
  {
    hide Rule, Advance, DistinctChecks;
    if history == [] {
      DebounceRefinesRule(history, name);
    } else {
      var init, last := history[..|history| - 1], history[|history| - 1];
      assert last in history;
      JournalIsComplete(init, name);
      DebounceRefinesRule(init, name);
      DebounceRefinesRule(history, name);
      FoldAppend(Emitted(init), Transitions(Replay(init), last), name);
      FoldRound(Replay(init), last, name);
      ObserveAt(Replay(init), last, name);
    }
  }

  // --------------------------------------------------------------------------- in numbers

  /** What was last seen of a check, `ok` when nothing was. */
  function LastSeen(history: seq<seq<Observation>>, name: string): Severity {
    if history == [] || Seen(history[|history| - 1], name).None? then Ok else Seen(history[|history| - 1], name).value
  }

  /** Disk and backup alert on the first failing round, everything else on the third in a
      row, and the first good round clears every alert. */
  lemma AlertsWhen(history: seq<seq<Observation>>, name: string)
    ensures Before(Replay(history), name).severity ==
      if name == "disk" || name == "backup" then LastSeen(history, name)
      else if Failing(history, name) >= 3 then LastSeen(history, name)
      else Ok
  {
    hide Replay;
    DebounceRefinesRule(history, name);
  }

  /** The severity that each check has, probe by probe. */
  lemma CollectedIs(p: Probes)
    ensures Collect(p)[0].severity == (if p.public == Some(true) then Ok else Critical)
    ensures Collect(p)[1].severity == (if p.internal.Some? && p.internal.value.database then Ok else Critical)
    ensures Collect(p)[2].severity ==
      (if p.internal.None? then Critical else if p.internal.value.dependencies then Ok else Warning)
    ensures Collect(p)[4].severity ==
      (if p.internal.None? then Critical else if p.internal.value.draining then Warning else Ok)
    ensures Collect(p)[6].severity == (if p.backupAge.Some? && 0 <= p.backupAge.value <= 93600 then Ok else Critical)
  {
    hide DiskSeverity, QueueSeverity;
    var round, inner := Collect(p), InternalChecks(p.internal);
    assert |inner| == 4 && forall i | 0 <= i < 4 :: round[i + 1] == inner[i];
  }

  /** The queue is a warning when it cannot be judged or when both of its limits are used up. */
  lemma CollectedQueueIs(p: Probes)
    ensures Collect(p)[3].severity ==
      if p.internal.None? then Critical
      else match p.internal.value.queue
        case None => Warning
        case Some(q) =>
          if 0 <= q.active && 0 <= q.queued && 1 <= q.activeLimit && 1 <= q.queueLimit
             && (q.active < q.activeLimit || q.queued < q.queueLimit)
          then Ok else Warning
  {
    hide DiskSeverity;
    var round, inner := Collect(p), InternalChecks(p.internal);
    assert |inner| == 4 && round[3] == inner[2];
  }

  /** The fuller of the two volumes decides: critical from nine tenths on, a warning from
      eight tenths on. */
  lemma CollectedDiskIs(p: Probes)
    requires p.root.Some? && p.docker.Some? && p.root.value.total > 0 && p.docker.value.total > 0
    ensures var a, b := p.root.value, p.docker.value;
      Collect(p)[5].severity ==
        if 10 * (a.total - a.free) >= 9 * a.total || 10 * (b.total - b.free) >= 9 * b.total then Critical
        else if 10 * (a.total - a.free) >= 8 * a.total || 10 * (b.total - b.free) >= 8 * b.total then Warning
        else Ok
  {
    hide QueueSeverity;
    assert |InternalChecks(p.internal)| == 4;
    UsedIff(p.root.value);
    UsedIff(p.docker.value);
    hide Used;
  }

  lemma UsedIff(v: Volume)
    requires v.total > 0
    ensures Used(v) >= 90.0 <==> 10 * (v.total - v.free) >= 9 * v.total
    ensures Used(v) >= 80.0 <==> 10 * (v.total - v.free) >= 8 * v.total
  {
    var t, u := v.total as real, (v.total - v.free) as real;
    Scaled(u, t, 90.0);
    Scaled(u, t, 80.0);
    assert 10.0 * u >= 9.0 * t <==> 10 * (v.total - v.free) >= 9 * v.total;
    assert 10.0 * u >= 8.0 * t <==> 10 * (v.total - v.free) >= 8 * v.total;
  }

  lemma Scaled(u: real, t: real, percent: real)
    requires t > 0.0
    ensures 100.0 * u / t >= percent <==> 100.0 * u >= percent * t
  {
    var q := 100.0 * u / t;
    assert q * t == 100.0 * u;
    if q >= percent {
      assert (q - percent) * t >= 0.0;
    } else {
      assert (percent - q) * t > 0.0;
    }
  }

  /** Without the volumes' sizes the disk is critical. */
  lemma CollectedDiskUnknown(p: Probes)
    requires p.root.None? || p.docker.None?
    ensures Collect(p)[5].severity == Critical
  {
    hide QueueSeverity;
    assert |InternalChecks(p.internal)| == 4;
  }
}
