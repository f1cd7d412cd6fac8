// The release host as the helper updates it: each operation rewrites some of the
// host's fields in place and is proved against the specification in Retention.
module ReleaseHost {
  import opened Prelude
  import opened ReleaseModel
  import opened Baselines
  import opened Retention

  class HostState {
    var slots: map<Colour, Slot>
    var activeColour: string
    var current: seq<string>
    var currentManifest: Manifest
    var currentConfig: Binding
    var runtime: Environment
    var settings: map<string, string>
    var configurations: map<string, map<string, string>>
    var anchors: map<Name, Dir>
    var retired: map<Name, Dir>
    var index: Option<Index>
    var registry: Registry

    function View(): Host
      reads this
    {
      Host(slots, activeColour, current, currentManifest, currentConfig, runtime, settings, configurations,
           anchors, retired, index, registry)
    }

    constructor (h: Host)
      ensures View() == h
    {
      slots, activeColour, current, currentManifest := h.slots, h.activeColour, h.current, h.currentManifest;
      currentConfig, runtime, settings, configurations := h.currentConfig, h.runtime, h.settings, h.configurations;
      anchors, retired, index, registry := h.anchors, h.retired, h.index, h.registry;
    }

    method ArchiveColour(c: Colour) returns (id: Option<AnchorId>)
      modifies this`anchors
      ensures Archived(View(), id) == Archive(old(View()), c)
    {
      if !Archivable(View(), c) {
        return None;
      }
      var files := Captured(View(), c);
      var target := Id(IdOf(files));
      if target in anchors {
        return if VerifyAnchor(target.id, anchors[target]) then Some(target.id) else None;
      }
      anchors := anchors[target := DirOf(files)];
      id := Some(target.id);
    }

    /** The process is killed after `stop` of the three effects. */
    method ArchiveAll(stop: nat) returns (ok: bool)
      modifies this`anchors, this`index
      ensures Step(View(), ok) == ArchiveColours(old(View()), stop)
    {
      hide Archive, ActiveRelease, SlotOf;
      var active := ActiveRelease(View());
      if active.None? {
        return false;
      }
      var found: map<Colour, AnchorId> := map[];
      ghost var start := View();
      assert COLOURS[0..] == COLOURS;
      for i := 0 to |COLOURS|
        invariant i <= stop
        invariant index == old(index)
        invariant ArchiveEach(start, active.value.colour, COLOURS, map[], stop)
               == ArchiveEach(View(), active.value.colour, COLOURS[i..], found, stop - i)
      {
        assert COLOURS[i..][0] == COLOURS[i] && COLOURS[i..][1..] == COLOURS[i + 1..];
        if i == stop {
          return false;
        }
        var c := COLOURS[i];
        if SlotOf(View(), c).marker.Some? {
          var id := ArchiveColour(c);
          if id.None? {
            return false;
          }
          found := found[c := id.value];
        } else if c == active.value.colour {
          return false;
        }
      }
      assert COLOURS[|COLOURS|..] == [];
      EveryColour(active.value.colour);
      if stop <= |COLOURS| {
        return false;
      }
      index := Some(Index(found[active.value.colour], found));
      ok := true;
    }

    method BaselineMark(id: AnchorId, grandfathered: AnchorId, now: int) returns (ok: bool)
      modifies this`registry
      ensures Step(View(), ok) == Mark(old(View()), id, grandfathered, now)
    {
      hide MayBeBaseline, Without;
      if !InstalledAnchor(View(), id) {
        return false;
      }
      hide InstalledAnchor, VerifyAnchor;
      var dir := anchors[Id(id)];
      var version := dir.files.manifest.appVersion;
      if !MayBeBaseline(id, version, grandfathered) {
        return false;
      }
      var active := Without(registry.active, id);
      var retirable := Without(registry.retirable, id);
      active := [Baseline(id, version, dir.meta.commit, now)] + active;
      ghost var front, rest := active, retirable;
      while |active| > MAX_ACTIVE
        invariant |active| >= MAX_ACTIVE || active == front
        invariant |active| <= |front| && active == front[..|active|]
        invariant retirable == front[|active|..] + rest
      {
        retirable := [active[|active| - 1]] + retirable;
        active := active[..|active| - 1];
      }
      registry := Registry(active, retirable);
      ok := true;
    }

    method AnchorRetire(n: Name, backedUp: bool) returns (ok: bool)
      modifies this`anchors, this`retired
      ensures Step(View(), ok) == Retire(old(View()), n, backedUp)
    {
      if n !in anchors || !IndexIsFresh(View()) {
        return false;
      }
      if n.Id? {
        if !VerifyNamed(n, anchors[n]) || n.id in Protected(View()) {
          return false;
        }
      }
      if !(backedUp || n == LegacyBaseline) || n in retired {
        return false;
      }
      retired := retired[n := anchors[n]];
      anchors := anchors - {n};
      ok := true;
    }

    method AnchorUnretire(n: Name) returns (ok: bool)
      modifies this`anchors, this`retired
      ensures Step(View(), ok) == Unretire(old(View()), n)
    {
      if n !in retired || n in anchors {
        return false;
      }
      anchors := anchors[n := retired[n]];
      retired := retired - {n};
      ok := VerifyNamed(n, anchors[n]);
    }

    /** The ordered file writes; the process is killed after `writes` of them. */
    method PublishSlot(c: Colour, target: Slot, writes: nat) returns (finished: bool)
      requires target.stageReceipt.None?
      modifies this`slots
      ensures slots == old(slots)[c := Written(SlotOf(old(View()), c), target, writes)]
      ensures finished <==> writes > WRITES
    {
      ghost var before := SlotOf(View(), c);
      slots := slots[c := SlotOf(View(), c)];
      var done := 0;
      while done < WRITES + 1 && done < writes
        invariant done <= WRITES + 1 && done <= writes
        invariant slots == old(slots)[c := Written(before, target, done)]
      {
        var slot := slots[c];
        match done {
          case 0 => slot := slot.(environment := target.environment);
          case 1 => slot := slot.(manifest := target.manifest);
          case 2 => slot := slot.(config := target.config);
          case 3 => slot := slot.(marker := target.marker);
          case _ => slot := slot.(stageReceipt := None);
        }
        slots := slots[c := slot];
        done := done + 1;
      }
      assert Written(before, target, done) == Written(before, target, writes);
      finished := done > WRITES;
    }

    /** The process is killed after `writes` file operations. */
    method RestoreColour(id: AnchorId, c: Colour, writes: nat) returns (ok: bool)
      modifies this`anchors, this`slots
      ensures Step(View(), ok) == Restore(old(View()), id, c, writes)
    {
      hide Archive, Written, ConfigurationRetained, SharedImagesMatch, ActiveRelease;
      if !Restorable(View(), id, c) {
        return false;
      }
      var target := RestoredSlot(id, anchors[Id(id)], c);
      if SlotOf(View(), c).marker.Some? {
        ArchiveKeepsSlots(View(), c);
        var saved := ArchiveColour(c);
        if saved.None? {
          return false;
        }
      }
      ok := PublishSlot(c, target, writes);
    }
  }

  lemma EveryColour(c: Colour)
    ensures c in COLOURS
  {
    assert COLOURS[0] == Blue && COLOURS[1] == Green;
  }

  lemma ArchiveKeepsSlots(h: Host, c: Colour)
    ensures Archive(h, c).host == h.(anchors := Archive(h, c).host.anchors)
  {
  }
}
