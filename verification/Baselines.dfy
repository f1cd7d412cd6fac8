// The baseline registry: at most two active baselines, newest first; older ones are
// demoted to `retirable` and never forgotten.
module Baselines {
  import opened ReleaseModel

  const MAX_ACTIVE := 2

  function Without(s: seq<Baseline>, id: AnchorId): seq<Baseline> {
    if s == [] then [] else if s[0].id == id then Without(s[1..], id) else [s[0]] + Without(s[1..], id)
  }

  lemma {:induction false} WithoutMembers(s: seq<Baseline>, id: AnchorId)
    ensures forall b :: b in Without(s, id) <==> b in s && b.id != id
  {
    if s != [] {
      WithoutMembers(s[1..], id);
      assert s == [s[0]] + s[1..];
    }
  }

  /** The registry after one mark. */
  function MarkRegistry(reg: Registry, entry: Baseline): Registry {
    var front := [entry] + Without(reg.active, entry.id);
    var rest := Without(reg.retirable, entry.id);
    if |front| <= MAX_ACTIVE then Registry(front, rest)
    else Registry(front[..MAX_ACTIVE], front[MAX_ACTIVE..] + rest)
  }

  function ActiveBaselines(reg: Registry): set<AnchorId> {
    set b | b in reg.active :: b.id
  }

  lemma MarkActive(reg: Registry, entry: Baseline)
    ensures ActiveBaselines(MarkRegistry(reg, entry)) <= ActiveBaselines(reg) + {entry.id}
  {
    WithoutMembers(reg.active, entry.id);
  }

  function MarkAll(reg: Registry, entries: seq<Baseline>): Registry {
    if entries == [] then reg else MarkRegistry(MarkAll(reg, entries[..|entries| - 1]), entries[|entries| - 1])
  }

  function All(reg: Registry): seq<Baseline> {
    reg.active + reg.retirable
  }

  /** The position of the last mark of `id`, -1 when it was never marked. */
  function LastMark(entries: seq<Baseline>, id: AnchorId): (r: int)
    ensures -1 <= r < |entries|
  {
    if entries == [] then -1
    else if entries[|entries| - 1].id == id then |entries| - 1
    else LastMark(entries[..|entries| - 1], id)
  }

  /** The marks of the ids in `s` get older from left to right. */
  ghost predicate Descending(s: seq<Baseline>, entries: seq<Baseline>) {
    forall i, j | 0 <= i < j < |s| :: LastMark(entries, s[i].id) > LastMark(entries, s[j].id)
  }

  /** `s` lists exactly the latest entry of every id ever marked, most recent mark first. */
  ghost predicate RecentFirst(s: seq<Baseline>, entries: seq<Baseline>) {
    (forall b | b in s :: LastMark(entries, b.id) >= 0 && b == entries[LastMark(entries, b.id)]) &&
    (forall e | e in entries :: exists b :: b in s && b.id == e.id) &&
    Descending(s, entries)
  }

  lemma {:induction false} WithoutAppend(a: seq<Baseline>, b: seq<Baseline>, id: AnchorId)
    ensures Without(a + b, id) == Without(a, id) + Without(b, id)
  {
    if a == [] {
      assert a + b == b;
    } else {
      assert (a + b)[0] == a[0] && (a + b)[1..] == a[1..] + b;
      WithoutAppend(a[1..], b, id);
    }
  }

  lemma {:induction false} WithoutDescending(s: seq<Baseline>, id: AnchorId, entries: seq<Baseline>)
    requires Descending(s, entries)
    ensures Descending(Without(s, id), entries)
    ensures |Without(s, id)| >= |s| - 1
  {
    hide LastMark;
    if s != [] {
      var rest := Without(s[1..], id);
      WithoutDescending(s[1..], id, entries);
      WithoutMembers(s[1..], id);
      if s[0].id == id {
        WithoutAbsent(s[1..], id, entries);
      } else {
        var r := Without(s, id);
        assert r == [s[0]] + rest;
        hide Without;
        forall i, j | 0 <= i < j < |r| ensures LastMark(entries, r[i].id) > LastMark(entries, r[j].id) {
          assert r[j] in rest && r[j] in s[1..];
          if i > 0 {
            assert r[i] == rest[i - 1] && r[j] == rest[j - 1];
          }
        }
      }
    }
  }

  lemma {:induction false} WithoutAbsent(s: seq<Baseline>, id: AnchorId, entries: seq<Baseline>)
    requires forall b | b in s :: LastMark(entries, b.id) != LastMark(entries, id)
    ensures Without(s, id) == s
  {
    if s != [] {
      WithoutAbsent(s[1..], id, entries);
      assert s[0] in s;
      assert s == [s[0]] + s[1..];
    }
  }

  lemma LastMarkSnoc(entries: seq<Baseline>, entry: Baseline, id: AnchorId)
    ensures LastMark(entries + [entry], id) == if id == entry.id then |entries| else LastMark(entries, id)
  {
    assert (entries + [entry])[..|entries|] == entries;
  }

  lemma MarkCovers(s: seq<Baseline>, entries: seq<Baseline>, entry: Baseline)
    requires forall e | e in entries :: exists b :: b in s && b.id == e.id
    ensures var s' := [entry] + Without(s, entry.id);
      forall e | e in entries + [entry] :: exists b :: b in s' && b.id == e.id
  {
    var s' := [entry] + Without(s, entry.id);
    WithoutMembers(s, entry.id);
    forall e | e in entries + [entry] ensures exists b :: b in s' && b.id == e.id {
      if e.id == entry.id {
        assert s'[0] == entry;
      } else {
        var b :| b in s && b.id == e.id;
        assert b in Without(s, entry.id) && b in s';
      }
    }
  }

  lemma MarkDescending(s: seq<Baseline>, entries: seq<Baseline>, entry: Baseline)
    requires Descending(s, entries)
    ensures Descending([entry] + Without(s, entry.id), entries + [entry])
  {
    var w := Without(s, entry.id);
    WithoutDescending(s, entry.id, entries);
    WithoutMembers(s, entry.id);
    LastMarkSnoc(entries, entry, entry.id);
    forall b | b in w ensures LastMark(entries + [entry], b.id) == LastMark(entries, b.id) {
      LastMarkSnoc(entries, entry, b.id);
    }
    forall i, j | 0 <= i < j < |w| + 1
      ensures LastMark(entries + [entry], ([entry] + w)[i].id) > LastMark(entries + [entry], ([entry] + w)[j].id)
    {
      assert w[j - 1] in w;
      if i > 0 {
        assert w[i - 1] in w;
      }
    }
  }

  /** Marking `entry` keeps the combined list in order of the last mark. */
  lemma MarkRecentFirst(s: seq<Baseline>, entries: seq<Baseline>, entry: Baseline)
    requires RecentFirst(s, entries)
    ensures RecentFirst([entry] + Without(s, entry.id), entries + [entry])
  {
    var s', entries' := [entry] + Without(s, entry.id), entries + [entry];
    WithoutMembers(s, entry.id);
    MarkCovers(s, entries, entry);
    MarkDescending(s, entries, entry);
    forall b | b in s' ensures LastMark(entries', b.id) >= 0 && b == entries'[LastMark(entries', b.id)] {
      LastMarkSnoc(entries, entry, b.id);
    }
  }

  /** Active holds the first two entries, or all of them. */
  ghost predicate Filled(reg: Registry) {
    |reg.active| == if |All(reg)| < MAX_ACTIVE then |All(reg)| else MAX_ACTIVE
  }

  lemma MarkMovesToFront(reg: Registry, entry: Baseline)
    ensures All(MarkRegistry(reg, entry)) == [entry] + Without(All(reg), entry.id)
  {
    var front, rest := [entry] + Without(reg.active, entry.id), Without(reg.retirable, entry.id);
    WithoutAppend(reg.active, reg.retirable, entry.id);
    if |front| > MAX_ACTIVE {
      assert front[..MAX_ACTIVE] + (front[MAX_ACTIVE..] + rest) == front + rest;
    }
  }

  lemma MarkFilled(reg: Registry, entries: seq<Baseline>, entry: Baseline)
    requires Filled(reg) && Descending(reg.active, entries)
    ensures Filled(MarkRegistry(reg, entry))
  {
    WithoutDescending(reg.active, entry.id, entries);
    if reg.retirable == [] {
      assert Without(reg.retirable, entry.id) == [];
    }
  }

  lemma ActiveDescending(reg: Registry, entries: seq<Baseline>)
    requires RecentFirst(All(reg), entries)
    ensures Descending(reg.active, entries)
  {
    assert forall k | 0 <= k < |reg.active| :: All(reg)[k] == reg.active[k];
  }

  lemma EmptyRegistry()
    ensures RecentFirst(All(MarkAll(Registry([], []), [])), []) && Filled(MarkAll(Registry([], []), []))
  {
  }

  /** After any sequence of marks from an empty registry, active followed by retirable
      lists every id ever marked once, by its latest entry and most recent mark first;
      active holds the first two.  Nothing is forgotten. */
  lemma {:induction false} RegistryIsRecentFirst(entries: seq<Baseline>)
    ensures RecentFirst(All(MarkAll(Registry([], []), entries)), entries)
    ensures Filled(MarkAll(Registry([], []), entries))
  {
    hide RecentFirst, Descending, Filled, MarkRegistry, LastMark;
    if entries == [] {
      EmptyRegistry();
    } else {
      var before, entry := entries[..|entries| - 1], entries[|entries| - 1];
      RegistryIsRecentFirst(before);
      var reg := MarkAll(Registry([], []), before);
      MarkRecentFirst(All(reg), before, entry);
      assert before + [entry] == entries;
      MarkMovesToFront(reg, entry);
      ActiveDescending(reg, before);
      MarkFilled(reg, before, entry);
    }
  }
}
