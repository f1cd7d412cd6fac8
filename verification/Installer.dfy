// Installing a helper generation as one transaction over links, unit files and the
// `current` pointer, when every publication and every undo step may fail before or after
// it has taken effect.
module Installer {
  import opened Prelude

  /** The mutable destinations: helper entries, systemd units and the generation pointer. */
  datatype Path = Module(name: string) | Unit(name: string) | Current

  datatype Entry = Absent | Link(target: string) | File(mode: nat, data: string)

  type Tree = map<Path, Entry>

  function Look(t: Tree, p: Path): Entry {
    if p in t then t[p] else Absent
  }

  /** A destination and a value for it: a publication step or a captured original. */
  datatype Change = Change(path: Path, entry: Entry)

  predicate Distinct(changes: seq<Change>) {
    forall i, j | 0 <= i < j < |changes| :: changes[i].path != changes[j].path
  }

  /** The publication plan: module links, then units, then `current`. */
  function Plan(modules: seq<string>, units: seq<(string, string)>, identity: string): seq<Change> {
    seq(|modules|, i requires 0 <= i < |modules| => Change(Module(modules[i]), Link("current/" + modules[i]))) +
    seq(|units|, i requires 0 <= i < |units| => Change(Unit(units[i].0), File(420, units[i].1))) +
    [Change(Current, Link("versions/" + identity))]
  }

  /** snapshot_target of every destination, in publication order. */
  function Capture(t: Tree, changes: seq<Change>): seq<Change> {
    seq(|changes|, i requires 0 <= i < |changes| => Change(changes[i].path, Look(t, changes[i].path)))
  }

  /** Every destination of the plan has its old or its new value; nothing else moved. */
  ghost predicate Between(start: Tree, t: Tree, changes: seq<Change>) {
    forall p :: Look(t, p) == Look(start, p) || Change(p, Look(t, p)) in changes
  }

  /** The pointer, published last, is new only while everything before it is new. */
  ghost predicate PointerLast(start: Tree, t: Tree, changes: seq<Change>)
    requires changes != []
  {
    var last := changes[|changes| - 1];
    Look(t, last.path) == Look(start, last.path) || forall i | 0 <= i < |changes| :: Look(t, changes[i].path) == changes[i].entry
  }

  ghost predicate Untouched(a: Tree, b: Tree) {
    forall p :: Look(a, p) == Look(b, p)
  }

  /** After the first `k` publication steps and the last `j` undo steps. */
  ghost predicate Reached(start: Tree, t: Tree, changes: seq<Change>, k: nat, j: nat) {
    forall p :: Look(t, p) == Expected(start, changes, k, j, p)
  }

  ghost function Expected(start: Tree, changes: seq<Change>, k: nat, j: nat, p: Path): Entry {
    if exists i :: 0 <= i < |changes| && i < k && i < |changes| - j && changes[i].path == p
    then var i :| 0 <= i < |changes| && i < k && i < |changes| - j && changes[i].path == p; changes[i].entry
    else Look(start, p)
  }

  datatype Outcome = Committed | RolledBack | RollbackIncomplete

  lemma ReachedBetween(start: Tree, t: Tree, changes: seq<Change>, k: nat, j: nat)
    requires changes != [] && Distinct(changes) && Reached(start, t, changes, k, j)
    requires k <= |changes|
    ensures Between(start, t, changes) && PointerLast(start, t, changes)
  {
    var last := |changes| - 1;
    if k == |changes| && j == 0 {
      forall i | 0 <= i < |changes| ensures Look(t, changes[i].path) == changes[i].entry {
        assert Look(t, changes[i].path) == Expected(start, changes, k, j, changes[i].path);
      }
    } else {
      assert Look(t, changes[last].path) == Expected(start, changes, k, j, changes[last].path);
    }
  }

  lemma StepForward(start: Tree, t: Tree, changes: seq<Change>, k: nat)
    requires Distinct(changes) && k < |changes| && Reached(start, t, changes, k, 0)
    ensures Reached(start, t[changes[k].path := changes[k].entry], changes, k + 1, 0)
  {
    var t' := t[changes[k].path := changes[k].entry];
    forall p ensures Look(t', p) == Expected(start, changes, k + 1, 0, p) {
      if p == changes[k].path {
        assert 0 <= k < |changes| && changes[k].path == p;
      } else {
        assert Look(t, p) == Expected(start, changes, k, 0, p);
      }
    }
  }

  lemma StepBack(start: Tree, t: Tree, changes: seq<Change>, k: nat, j: nat)
    requires Distinct(changes) && j < |changes| && Reached(start, t, changes, k, j)
    ensures var i := |changes| - 1 - j;
      Reached(start, t[changes[i].path := Look(start, changes[i].path)], changes, k, j + 1)
  {
    var i := |changes| - 1 - j;
    var t' := t[changes[i].path := Look(start, changes[i].path)];
    forall p ensures Look(t', p) == Expected(start, changes, k, j + 1, p) {
      assert Look(t, p) == Expected(start, changes, k, j, p);
    }
  }

  lemma UndoBetween(start: Tree, t: Tree, changes: seq<Change>, p: Path)
    requires Between(start, t, changes)
    ensures Between(start, t[p := Look(start, p)], changes)
  {
  }

  lemma FullyUndone(start: Tree, t: Tree, changes: seq<Change>, k: nat)
    requires Reached(start, t, changes, k, |changes|)
    ensures Untouched(start, t)
  {
    forall p ensures Look(start, p) == Look(t, p) {
      assert Look(t, p) == Expected(start, changes, k, |changes|, p);
    }
  }

  class Transaction {
    var tree: Tree
    /** Every state the destinations have been in. */
    ghost var past: seq<Tree>

    constructor (tree: Tree)
      ensures this.tree == tree && past == [tree]
    {
      this.tree, past := tree, [tree];
    }

    /** os.replace of one destination; it may fail before or after its effect. */
    method Replace(p: Path, e: Entry) returns (ok: bool)
      modifies this
      ensures tree == old(tree) || tree == old(tree)[p := e]
      ensures ok ==> tree == old(tree)[p := e]
      ensures past == old(past) + [tree]
    {
      var refused: bool := *;
      ok := *;
      if refused {
        ok := false;
      } else {
        tree := tree[p := e];
      }
      past := past + [tree];
    }

    /** Reloading the units or writing the receipt: may fail, touches no destination. */
    method Attempt() returns (ok: bool) {
      ok := *;
    }

    /** The publication steps in order, up to the first failure; `reached` steps took effect. */
    method Publish(changes: seq<Change>) returns (ok: bool, ghost reached: nat)
      requires changes != [] && Distinct(changes)
      modifies this
      ensures reached <= |changes| && Reached(old(tree), tree, changes, reached, 0)
      ensures ok ==> reached == |changes|
      ensures old(past) <= past
      ensures forall i | |old(past)| <= i < |past| ::
        Between(old(tree), past[i], changes) && PointerLast(old(tree), past[i], changes)
    {
      ok, reached := true, 0;
      var k := 0;
      while ok && k < |changes|
        invariant 0 <= k <= |changes| && reached <= |changes| && (ok ==> reached == k)
        invariant Reached(old(tree), tree, changes, reached, 0)
        invariant old(past) <= past
        invariant forall i | |old(past)| <= i < |past| ::
          Between(old(tree), past[i], changes) && PointerLast(old(tree), past[i], changes)
      {
        StepForward(old(tree), tree, changes, k);
        ghost var before := tree;
        ok := Replace(changes[k].path, changes[k].entry);
        reached := if ok || tree != before then k + 1 else k;
        ReachedBetween(old(tree), tree, changes, reached, 0);
        k := k + 1;
      }
    }

    /** The undo loop: last destination first, going on after a failure. */
    method Undo(saved: seq<Change>, ghost start: Tree, ghost changes: seq<Change>, ghost reached: nat)
      returns (failures: nat)
      requires changes != [] && Distinct(changes) && saved == Capture(start, changes)
      requires reached <= |changes| && Reached(start, tree, changes, reached, 0)
      modifies this
      ensures failures == 0 ==> Untouched(start, tree)
      ensures Between(start, tree, changes) && old(past) <= past
      ensures forall i | |old(past)| <= i < |past| :: Between(start, past[i], changes)
      ensures failures == 0 ==> forall i | |old(past)| <= i < |past| :: PointerLast(start, past[i], changes)
    {
      hide Reached, Between, PointerLast, Untouched;
      failures := 0;
      var j := 0;
      ReachedBetween(start, tree, changes, reached, 0);
      while j < |saved|
        invariant 0 <= j <= |saved|
        invariant failures == 0 ==> Reached(start, tree, changes, reached, j)
        invariant Between(start, tree, changes) && old(past) <= past
        invariant forall i | |old(past)| <= i < |past| :: Between(start, past[i], changes)
        invariant failures == 0 ==> forall i | |old(past)| <= i < |past| :: PointerLast(start, past[i], changes)
      {
        var original := saved[|saved| - 1 - j];
        if failures == 0 {
          StepBack(start, tree, changes, reached, j);
        }
        UndoBetween(start, tree, changes, original.path);
        var ok := Replace(original.path, original.entry);
        if !ok {
          failures := failures + 1;
        } else if failures == 0 {
          ReachedBetween(start, tree, changes, reached, j + 1);
        }
        j := j + 1;
      }
      if failures == 0 {
        FullyUndone(start, tree, changes, reached);
      }
    }

    /** install, from the capture of the originals on. */
    method Install(modules: seq<string>, units: seq<(string, string)>, identity: string) returns (outcome: Outcome)
      requires Distinct(Plan(modules, units, identity))
      modifies this
      ensures var changes := Plan(modules, units, identity);
        (outcome == Committed ==> forall p :: Look(tree, p) == Expected(old(tree), changes, |changes|, 0, p)) &&
        (outcome == RolledBack ==> Untouched(old(tree), tree)) &&
        old(past) <= past &&
        (forall i | |old(past)| <= i < |past| :: Between(old(tree), past[i], changes)) &&
        (outcome != RollbackIncomplete ==> forall i | |old(past)| <= i < |past| :: PointerLast(old(tree), past[i], changes))
    {
      var changes := Plan(modules, units, identity);
      ghost var start := tree;
      var saved := Capture(tree, changes);
      var ok, reached := Publish(changes);
      if ok {
        ok := Attempt();     // reload the units
      }
      if ok {
        ok := Attempt();     // record the receipt as committed
      }
      if ok {
        return Committed;
      }
      var failures := Undo(saved, start, changes, reached);
      var reloaded := Attempt();
      var recorded := Attempt();
      outcome := if failures == 0 && reloaded && recorded then RolledBack else RollbackIncomplete;
    }
  }

  // ------------------------------------------------------------------- one generation

  /** The generation a helper entry resolves to; None when it does not go through `current`. */
  function GenerationOf(t: Tree, name: string): Option<string> {
    if Look(t, Module(name)) == Link("current/" + name) && Look(t, Current).Link?
    then Some(Look(t, Current).target) else None
  }

  /** All helper entries resolve to one generation. */
  ghost predicate OneGeneration(t: Tree, modules: seq<string>) {
    exists g :: AllOf(t, modules, g)
  }

  predicate AllOf(t: Tree, modules: seq<string>, generation: string) {
    forall i | 0 <= i < |modules| :: GenerationOf(t, modules[i]) == Some(generation)
  }

  /** What the plan writes to a helper entry and to the pointer. */
  lemma PlanTargets(modules: seq<string>, units: seq<(string, string)>, identity: string, c: Change)
    requires c in Plan(modules, units, identity)
    ensures c.path.Module? ==> c.entry == Link("current/" + c.path.name)
    ensures c.path.Current? ==> c.entry == Link("versions/" + identity)
  {
    var plan := Plan(modules, units, identity);
    var i :| 0 <= i < |plan| && plan[i] == c;
    if i < |modules| {
      assert c == Change(Module(modules[i]), Link("current/" + modules[i]));
    } else if i < |modules| + |units| {
      assert c.path == Unit(units[i - |modules|].0);
    }
  }

  /** Upgrading an installation whose entries already are `current/<name>` links never
      shows a mixture: in every state between old and new, crashes and failed undo steps
      included, all entries resolve to one generation.  If the installation started
      otherwise, that is already false at the start. */
  lemma NeverAMixture(start: Tree, t: Tree, modules: seq<string>, units: seq<(string, string)>, identity: string)
    requires modules != [] && Between(start, t, Plan(modules, units, identity))
    requires OneGeneration(start, modules)
    ensures OneGeneration(t, modules)
    ensures GenerationOf(t, modules[0]) in {GenerationOf(start, modules[0]), Some("versions/" + identity)}
  {
    var changes := Plan(modules, units, identity);
    if Look(t, Current) != Look(start, Current) {
      PlanTargets(modules, units, identity, Change(Current, Look(t, Current)));
    }
    var g :| AllOf(start, modules, g);
    assert GenerationOf(start, modules[0]) == Some(g);
    forall i | 0 <= i < |modules| ensures GenerationOf(t, modules[i]) == Some(Look(t, Current).target) {
      assert GenerationOf(start, modules[i]) == Some(g);
      if Look(t, Module(modules[i])) != Look(start, Module(modules[i])) {
        PlanTargets(modules, units, identity, Change(Module(modules[i]), Look(t, Module(modules[i]))));
      }
    }
    assert AllOf(t, modules, Look(t, Current).target);
  }

  // ---------------------------------------------------------------------- what is installed

  lemma PlanHas(modules: seq<string>, units: seq<(string, string)>, identity: string)
    ensures var plan := Plan(modules, units, identity);
      && |plan| == |modules| + |units| + 1
      && (forall i | 0 <= i < |modules| :: plan[i] == Change(Module(modules[i]), Link("current/" + modules[i])))
      && (forall i | 0 <= i < |units| :: plan[|modules| + i] == Change(Unit(units[i].0), File(420, units[i].1)))
      && plan[|modules| + |units|] == Change(Current, Link("versions/" + identity))
  {
  }

  /** A committed installation has every helper entry go through `current`, every unit as
      delivered with mode 0644, the pointer on the new generation, and nothing else moved. */
  lemma CommittedIs(start: Tree, t: Tree, modules: seq<string>, units: seq<(string, string)>, identity: string)
    requires Distinct(Plan(modules, units, identity))
    requires var changes := Plan(modules, units, identity); forall p :: Look(t, p) == Expected(start, changes, |changes|, 0, p)
    ensures forall i | 0 <= i < |modules| :: Look(t, Module(modules[i])) == Link("current/" + modules[i])
    ensures forall i | 0 <= i < |units| :: Look(t, Unit(units[i].0)) == File(6 * 64 + 4 * 8 + 4, units[i].1)
    ensures Look(t, Current) == Link("versions/" + identity)
    ensures forall p | (forall m | m in modules :: p != Module(m)) && (forall u | u in units :: p != Unit(u.0)) && p != Current ::
      Look(t, p) == Look(start, p)
  {
    var plan := Plan(modules, units, identity);
    hide Plan;
    PlanHas(modules, units, identity);
    forall i | 0 <= i < |plan| ensures Look(t, plan[i].path) == plan[i].entry {
      PublishedEntry(start, plan, i);
    }
    forall i | 0 <= i < |modules| ensures Look(t, Module(modules[i])) == Link("current/" + modules[i]) {
      assert plan[i].path == Module(modules[i]);
    }
    forall i | 0 <= i < |units| ensures Look(t, Unit(units[i].0)) == File(420, units[i].1) {
      assert plan[|modules| + i].path == Unit(units[i].0);
    }
    assert plan[|modules| + |units|].path == Current;
    forall p | (forall m | m in modules :: p != Module(m)) && (forall u | u in units :: p != Unit(u.0)) && p != Current
      ensures Look(t, p) == Look(start, p)
    {
      forall i | 0 <= i < |plan| ensures plan[i].path != p {
        if i < |modules| {
          assert modules[i] in modules;
        } else if i < |modules| + |units| {
          assert units[i - |modules|] in units;
          assert plan[|modules| + (i - |modules|)].path == Unit(units[i - |modules|].0);
        }
      }
    }
  }

  /** A helper entry resolves to a generation exactly when it goes through `current`. */
  lemma GenerationIff(t: Tree, name: string, g: string)
    ensures GenerationOf(t, name) == Some(g) <==> Look(t, Module(name)) == Link("current/" + name) && Look(t, Current) == Link(g)
  {
  }

  /** So afterwards all helper entries resolve to the new generation. */
  lemma CommittedIsOneGeneration(start: Tree, t: Tree, modules: seq<string>, units: seq<(string, string)>, identity: string)
    requires Distinct(Plan(modules, units, identity))
    requires var changes := Plan(modules, units, identity); forall p :: Look(t, p) == Expected(start, changes, |changes|, 0, p)
    ensures OneGeneration(t, modules) && forall m | m in modules :: GenerationOf(t, m) == Some("versions/" + identity)
  {
    hide Plan, Expected;
    CommittedIs(start, t, modules, units, identity);
    var g := "versions/" + identity;
    assert AllOf(t, modules, g);
  }

  lemma PublishedEntry(start: Tree, changes: seq<Change>, i: nat)
    requires Distinct(changes) && i < |changes|
    ensures Expected(start, changes, |changes|, 0, changes[i].path) == changes[i].entry
  {
    assert 0 <= i < |changes| && changes[i].path == changes[i].path;
  }
}
