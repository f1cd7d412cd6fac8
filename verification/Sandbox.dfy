// The disposable restore sandbox: every Docker command may succeed, fail without effect,
// or fail after it has taken effect, and closing must still leave nothing behind.
module Sandbox {
  import opened Prelude

  type ContainerId = nat
  type NetworkId = nat

  datatype Container = Container(name: string, owner: string)
  datatype Network = Network(name: string, owner: string)

  /** The Docker daemon.  Identifiers below `next` have been handed out; names of
      containers, networks and volumes are unique, as the daemon enforces. */
  datatype Daemon = Daemon(containers: map<ContainerId, Container>, networks: map<NetworkId, Network>,
                           volumes: map<string, string>, next: nat)

  datatype Reply<+T> = Answer(value: T) | Failure

  ghost predicate WellFormed(d: Daemon) {
    (forall i | i in d.containers :: i < d.next) && (forall i | i in d.networks :: i < d.next)
  }

  /** Resources that carry the drill's label. */
  function Labelled(d: Daemon, mark: string): (set<ContainerId>, set<NetworkId>, set<string>) {
    (set i | i in d.containers && d.containers[i].owner == mark,
     set i | i in d.networks && d.networks[i].owner == mark,
     set v | v in d.volumes && d.volumes[v] == mark)
  }

  /** Nothing labelled is left. */
  ghost predicate Clean(d: Daemon, mark: string) {
    (forall i | i in d.containers :: d.containers[i].owner != mark) &&
    (forall i | i in d.networks :: d.networks[i].owner != mark) &&
    (forall v | v in d.volumes :: d.volumes[v] != mark)
  }

  /** Everybody else's resources are exactly as they were. */
  ghost predicate OthersKept(d: Daemon, d': Daemon, mark: string) {
    (forall i | i in d.containers && d.containers[i].owner != mark :: i in d'.containers && d'.containers[i] == d.containers[i]) &&
    (forall i | i in d.networks && d.networks[i].owner != mark :: i in d'.networks && d'.networks[i] == d.networks[i]) &&
    (forall v | v in d.volumes && d.volumes[v] != mark :: v in d'.volumes && d'.volumes[v] == d.volumes[v])
  }

  const STATEFUL := {"postgres", "qdrant", "neo4j"}
  const ROLES := {"postgres", "api", "embedding", "qdrant", "neo4j"}

  function VolumeName(identity: string, role: string): string {
    identity + "-" + role
  }

  datatype Remnant = Discovery | ContainerLeft(container: ContainerId) | NetworkLeft(network: NetworkId) | VolumeLeft(volume: string)

  class Drill {
    const identity: string
    var daemon: Daemon
    var network: Option<NetworkId>
    var networkAttempted: bool
    var containers: seq<ContainerId>
    var containerNames: set<string>
    var volumes: seq<string>
    var plannedVolumes: set<string>
    var workDirectory: bool

    /** Every labelled resource is recorded, or its name is and discovery will look for it. */
    ghost predicate Tracked()
      reads this
    {
      WellFormed(daemon) &&
      (forall i | i in daemon.containers && daemon.containers[i].owner == identity ::
        daemon.containers[i].name in containerNames) &&
      (forall i | i in daemon.networks && daemon.networks[i].owner == identity ::
        networkAttempted && daemon.networks[i].name == identity && (network.Some? ==> network.value == i)) &&
      (forall v | v in daemon.volumes && daemon.volumes[v] == identity :: v in plannedVolumes) &&
      (forall role | role in STATEFUL && VolumeName(identity, role) in daemon.volumes ::
        daemon.volumes[VolumeName(identity, role)] == identity)
    }

    /** Every recorded resource is the drill's own (or already gone). */
    ghost predicate Owned()
      reads this
    {
      (forall i | i in containers :: i < daemon.next && (i in daemon.containers ==> daemon.containers[i].owner == identity)) &&
      (network.Some? ==> network.value < daemon.next) &&
      (network.Some? && network.value in daemon.networks ==> daemon.networks[network.value].owner == identity) &&
      (forall v | v in volumes :: v in daemon.volumes ==> daemon.volumes[v] == identity)
    }

    constructor (identity: string, daemon: Daemon)
      requires WellFormed(daemon) && Clean(daemon, identity)
      requires forall role | role in STATEFUL :: VolumeName(identity, role) !in daemon.volumes
      ensures this.identity == identity && this.daemon == daemon && workDirectory
      ensures Valid()
    {
      this.identity, this.daemon := identity, daemon;
      network, networkAttempted, containers, containerNames := None, false, [], {};
      volumes, plannedVolumes, workDirectory := [], {}, true;
    }

    // ----------------------------------------------------------- the daemon's commands

    method NetworkCreate(name: string) returns (r: Reply<NetworkId>)
      modifies this`daemon
      ensures (daemon == old(daemon) && r.Failure?) ||
        (daemon == old(daemon).(networks := old(daemon).networks[old(daemon).next := Network(name, identity)],
                                next := old(daemon).next + 1) &&
         (forall i | i in old(daemon).networks :: old(daemon).networks[i].name != name) &&
         (r.Answer? ==> r.value == old(daemon).next))
    {
      var refused: bool := *;
      var lost: bool := *;
      if refused || exists i | i in daemon.networks :: daemon.networks[i].name == name {
        return Failure;
      }
      r := if lost then Failure else Answer(daemon.next);
      daemon := daemon.(networks := daemon.networks[daemon.next := Network(name, identity)], next := daemon.next + 1);
    }

    method ContainerCreate(name: string) returns (r: Reply<ContainerId>)
      modifies this`daemon
      ensures (daemon == old(daemon) && r.Failure?) ||
        (daemon == old(daemon).(containers := old(daemon).containers[old(daemon).next := Container(name, identity)],
                                next := old(daemon).next + 1) &&
         (r.Answer? ==> r.value == old(daemon).next))
    {
      var refused: bool := *;
      var lost: bool := *;
      if refused || exists i | i in daemon.containers :: daemon.containers[i].name == name {
        return Failure;
      }
      r := if lost then Failure else Answer(daemon.next);
      daemon := daemon.(containers := daemon.containers[daemon.next := Container(name, identity)], next := daemon.next + 1);
    }

    /** Creating an existing volume succeeds and leaves it, and its owner, unchanged. */
    method VolumeCreate(name: string) returns (ok: bool)
      modifies this`daemon
      ensures (daemon == old(daemon) && (ok ==> name in daemon.volumes)) ||
        (daemon == old(daemon).(volumes := old(daemon).volumes[name := identity]) && name !in old(daemon).volumes)
    {
      var refused: bool := *;
      ok := *;
      if refused {
        return false;
      }
      if name !in daemon.volumes {
        daemon := daemon.(volumes := daemon.volumes[name := identity]);
      }
    }

    /** Removal may be refused, may happen, or may happen and be reported as failed. */
    method ContainerRemove(i: ContainerId) returns (ok: bool)
      modifies this`daemon
      ensures daemon == old(daemon) || daemon == old(daemon).(containers := old(daemon).containers - {i})
      ensures ok ==> i !in daemon.containers
    {
      var refused: bool := *;
      if refused {
        return false;
      }
      daemon := daemon.(containers := daemon.containers - {i});
      ok := *;
    }

    method NetworkRemove(i: NetworkId) returns (ok: bool)
      modifies this`daemon
      ensures daemon == old(daemon) || daemon == old(daemon).(networks := old(daemon).networks - {i})
      ensures ok ==> i !in daemon.networks
    {
      var refused: bool := *;
      if refused {
        return false;
      }
      daemon := daemon.(networks := daemon.networks - {i});
      ok := *;
    }

    method VolumeRemove(v: string) returns (ok: bool)
      modifies this`daemon
      ensures daemon == old(daemon) || daemon == old(daemon).(volumes := old(daemon).volumes - {v})
      ensures ok ==> v !in daemon.volumes
    {
      var refused: bool := *;
      if refused {
        return false;
      }
      daemon := daemon.(volumes := daemon.volumes - {v});
      ok := *;
    }

    /** A read-only command that may fail. */
    method Answered() returns (ok: bool) {
      ok := *;
    }

    // ------------------------------------------------------------------ open and create

    /** The acknowledged network exists under the drill's own name. */
    ghost predicate Live()
      reads this
    {
      network.Some? ==> network.value in daemon.networks && daemon.networks[network.value].name == identity
    }

    ghost predicate Valid()
      reads this
    {
      Tracked() && Owned() && Live()
    }

    method Open() returns (ok: bool)
      requires Valid()
      modifies this`daemon, this`network, this`networkAttempted
      ensures Valid() && OthersKept(old(daemon), daemon, identity)
      ensures ok ==> network.Some?
    {
      networkAttempted := true;
      var reply := NetworkCreate(identity);
      if reply.Failure? {
        return false;
      }
      network := Some(reply.value);
      ok := Answered();
    }

    /** Plans the volume's name before asking for it, and records it once acknowledged. */
    method CreateVolume(role: string) returns (ok: bool)
      requires Valid() && role in STATEFUL
      modifies this`daemon, this`volumes, this`plannedVolumes
      ensures Valid() && OthersKept(old(daemon), daemon, identity)
      ensures ok ==> VolumeName(identity, role) in volumes
    {
      var volume := VolumeName(identity, role);
      plannedVolumes := plannedVolumes + {volume};
      ok := VolumeCreate(volume);
      if ok {
        volumes := volumes + [volume];
      }
    }

    /** Plans the container's name before asking for it, and records its id once acknowledged. */
    method CreateContainer(name: string) returns (id: Option<ContainerId>)
      requires Valid()
      modifies this`daemon, this`containers, this`containerNames
      ensures Valid() && OthersKept(old(daemon), daemon, identity)
      ensures id.Some? ==> containers == old(containers) + [id.value]
      ensures id.None? ==> containers == old(containers)
    {
      containerNames := containerNames + {name};
      var reply := ContainerCreate(name);
      if reply.Failure? {
        return None;
      }
      containers := containers + [reply.value];
      id := Some(reply.value);
    }

    /** `suffix` is the random part of the container name.  `fits` is the verdict on the
        requested mounts, decided after the volume exists. */
    method Create(role: string, suffix: string, fits: bool) returns (id: Option<ContainerId>)
      requires Valid()
      modifies this`daemon, this`containers, this`containerNames, this`volumes, this`plannedVolumes
      ensures Valid() && OthersKept(old(daemon), daemon, identity)
      ensures id.Some? ==> role in ROLES && network.Some? && containers == old(containers) + [id.value]
      ensures id.Some? && role in STATEFUL ==> VolumeName(identity, role) in volumes
    {
      if role !in ROLES || network.None? {
        return None;
      }
      var present := Answered();
      if !present {
        return None;
      }
      if role in STATEFUL {
        var created := CreateVolume(role);
        if !created {
          return None;
        }
      }
      label volumeReady:
      if !fits {
        return None;
      }
      id := CreateContainer(identity + "-" + role + "-" + suffix);
      OthersKeptTransitive(old(daemon), old@volumeReady(daemon), daemon, identity);
    }

    // --------------------------------------------------------------------------- close

    /** Every labelled resource is recorded by its identifier. */
    ghost predicate Covered()
      reads this
    {
      (forall i | i in daemon.containers && daemon.containers[i].owner == identity :: i in containers) &&
      (forall i | i in daemon.networks && daemon.networks[i].owner == identity :: network == Some(i)) &&
      (forall v | v in daemon.volumes && daemon.volumes[v] == identity :: v in volumes)
    }

    /** Adds unacknowledged containers: their name must be one the drill planned. */
    method DiscoverContainers() returns (ok: bool)
      requires Tracked() && Owned()
      modifies this`containers
      ensures Tracked() && Owned()
      ensures ok ==> forall i | i in daemon.containers && daemon.containers[i].owner == identity :: i in containers
    {
      if containerNames == {} {
        return true;
      }
      var found := Labelled(daemon, identity).0;
      ok := Answered();
      if !ok || |found| > 16 {
        return false;
      }
      var todo := found;
      while todo != {}
        invariant todo <= found && Tracked() && Owned()
        invariant forall i | i in found - todo :: i in containers
      {
        var i :| i in todo;
        todo := todo - {i};
        if i !in containers {
          var inspected := Answered();
          if !inspected || daemon.containers[i].name !in containerNames {
            return false;
          }
          containers := containers + [i];
        }
      }
    }

    method DiscoverNetwork() returns (ok: bool)
      requires Tracked() && Owned()
      modifies this`network
      ensures Tracked() && Owned()
      ensures ok ==> forall i | i in daemon.networks && daemon.networks[i].owner == identity :: network == Some(i)
    {
      if !networkAttempted || network.Some? {
        return true;
      }
      var found := Labelled(daemon, identity).1;
      ok := Answered();
      if !ok || |found| > 1 {
        return false;
      }
      if found != {} {
        var i :| i in found;
        assert found == {i} by { assert |found - {i}| == 0; }
        var inspected := Answered();
        if !inspected || daemon.networks[i].name != identity {
          return false;
        }
        network := Some(i);
      }
      assert forall i | i in daemon.networks && daemon.networks[i].owner == identity :: i in found;
    }

    method DiscoverVolumes() returns (ok: bool)
      requires Tracked() && Owned()
      modifies this`volumes
      ensures Tracked() && Owned()
      ensures ok ==> forall v | v in daemon.volumes && daemon.volumes[v] == identity :: v in volumes
    {
      if plannedVolumes <= (set v | v in volumes) {
        return true;
      }
      var found := Labelled(daemon, identity).2;
      ok := Answered();
      if !ok || |found| > 3 {
        return false;
      }
      var todo := found;
      while todo != {}
        invariant todo <= found && Tracked() && Owned()
        invariant forall v | v in found - todo :: v in volumes
      {
        var v :| v in todo;
        todo := todo - {v};
        if v !in volumes {
          var inspected := Answered();
          if !inspected || v !in plannedVolumes {
            return false;
          }
          volumes := volumes + [v];
        }
      }
    }

    method RemoveContainers(remnants: seq<Remnant>) returns (left: seq<Remnant>)
      requires WellFormed(daemon) && Owned() && (remnants == [] ==> Covered())
      modifies this`daemon
      ensures WellFormed(daemon) && Owned() && OthersKept(old(daemon), daemon, identity)
      ensures remnants <= left
      ensures left == [] ==> Covered() && forall i | i in containers :: i !in daemon.containers
    {
      left := remnants;
      var k := |containers|;
      while k > 0
        invariant 0 <= k <= |containers|
        invariant WellFormed(daemon) && Owned() && OthersKept(old(daemon), daemon, identity)
        invariant remnants <= left
        invariant left == [] ==> Covered() && forall j | k <= j < |containers| :: containers[j] !in daemon.containers
      {
        k := k - 1;
        var ok := ContainerRemove(containers[k]);
        if !ok {
          left := left + [ContainerLeft(containers[k])];
        }
      }
    }

    method RemoveVolumes(remnants: seq<Remnant>) returns (left: seq<Remnant>)
      requires Owned()
      modifies this`daemon
      ensures Owned() && OthersKept(old(daemon), daemon, identity)
      ensures daemon.containers == old(daemon.containers) && daemon.networks == old(daemon.networks)
      ensures forall v | v in daemon.volumes :: v in old(daemon).volumes && daemon.volumes[v] == old(daemon).volumes[v]
      ensures remnants <= left
      ensures left == [] ==> forall v | v in volumes :: v !in daemon.volumes
    {
      left := remnants;
      var k := |volumes|;
      while k > 0
        invariant 0 <= k <= |volumes|
        invariant Owned() && OthersKept(old(daemon), daemon, identity)
        invariant daemon.containers == old(daemon.containers) && daemon.networks == old(daemon.networks)
        invariant forall v | v in daemon.volumes :: v in old(daemon).volumes && daemon.volumes[v] == old(daemon).volumes[v]
        invariant remnants <= left
        invariant left == [] ==> forall j | k <= j < |volumes| :: volumes[j] !in daemon.volumes
      {
        k := k - 1;
        var ok := VolumeRemove(volumes[k]);
        if !ok {
          left := left + [VolumeLeft(volumes[k])];
        }
      }
    }

    method Discover() returns (complete: bool)
      requires Tracked() && Owned()
      modifies this`network, this`containers, this`volumes
      ensures Tracked() && Owned() && (complete ==> Covered())
    {
      complete := DiscoverContainers();
      if complete {
        complete := DiscoverNetwork();
      }
      if complete {
        complete := DiscoverVolumes();
      }
    }

    /** Removes everything recorded, last created first, and reports what it could not
        remove.  An empty report means that nothing of the drill is left. */
    method Close() returns (remnants: seq<Remnant>)
      requires Valid()
      modifies this`daemon, this`network, this`containers, this`volumes
      ensures OthersKept(old(daemon), daemon, identity)
      ensures remnants == [] ==> Clean(daemon, identity)
    {
      var complete := Discover();
      remnants := RemoveContainers(if complete then [] else [Discovery]);
      label containersGone:
      if network.Some? {
        var ok := NetworkRemove(network.value);
        if !ok {
          remnants := remnants + [NetworkLeft(network.value)];
        }
      }
      label networkGone:
      assert remnants == [] ==> Covered() && forall i | i in daemon.networks :: daemon.networks[i].owner != identity;
      OthersKeptTransitive(old(daemon), old@containersGone(daemon), daemon, identity);
      remnants := RemoveVolumes(remnants);
      OthersKeptTransitive(old(daemon), old@networkGone(daemon), daemon, identity);
    }

    /** The whole drill: any sequence of creations, abandoned at the first failure, then
        clean-up.  The private work directory is deleted only when nothing is left. */
    method Perform(script: seq<(string, string, bool)>) returns (remnants: seq<Remnant>)
      requires Valid() && workDirectory
      modifies this
      ensures OthersKept(old(daemon), daemon, identity)
      ensures workDirectory <==> remnants != []
      ensures !workDirectory ==> Clean(daemon, identity)
    {
      var ok := Open();
      var k := 0;
      while ok && k < |script|
        modifies this`daemon, this`containers, this`containerNames, this`volumes, this`plannedVolumes
        invariant 0 <= k <= |script|
        invariant Valid() && OthersKept(old(daemon), daemon, identity)
      {
        label before:
        var id := Create(script[k].0, script[k].1, script[k].2);
        OthersKeptTransitive(old(daemon), old@before(daemon), daemon, identity);
        ok := id.Some?;
        k := k + 1;
      }
      label done:
      remnants := Close();
      OthersKeptTransitive(old(daemon), old@done(daemon), daemon, identity);
      workDirectory := remnants != [];
    }
  }

  lemma OthersKeptTransitive(a: Daemon, b: Daemon, c: Daemon, mark: string)
    requires OthersKept(a, b, mark) && OthersKept(b, c, mark)
    ensures OthersKept(a, c, mark)
  {
  }
}
