// The persistent upstream route, and which edge containers survive a release unchanged.
module Routing {
  import opened Prelude
  import opened ReleaseModel
  import opened Sorting

  /** One record of a container's mount list; `rest` are its other fields. */
  datatype Mount = Mount(destination: string, source: string, writable: bool, rest: string)

  /** An inspected container.  `volatile` are process times and endpoint addresses. */
  datatype Container = Container(id: string, image: string, config: string, hostConfig: string, mounts: seq<Mount>,
                                 networks: map<string, Option<string>>, volatile: string)

  // ---------------------------------------------------------------------- fingerprint

  function Codes(s: string): seq<int> {
    if s == [] then [] else [s[0] as int] + Codes(s[1..])
  }

  /** A string with its length in front. */
  function Field(s: string): seq<int> {
    [|s|] + Codes(s)
  }

  /** The sort key of a whole mount record. */
  function Key(m: Mount): seq<int> {
    Field(m.destination) + (Field(m.source) + ([if m.writable then 1 else 0] + Field(m.rest)))
  }

  function Keys(mounts: seq<Mount>): seq<seq<int>> {
    if mounts == [] then [] else [Key(mounts[0])] + Keys(mounts[1..])
  }

  /** The digest of the canonical document, as an injective constructor. */
  datatype Fingerprint = Fingerprint(id: string, image: string, config: string, hostConfig: string,
                                     mounts: seq<seq<int>>, networks: map<string, Option<string>>)

  function FingerprintOf(c: Container): Fingerprint {
    Fingerprint(c.id, c.image, c.config, c.hostConfig, Sort(Keys(c.mounts)), c.networks)
  }

  lemma {:induction false} CodesInjective(a: string, b: string, x: seq<int>, y: seq<int>)
    requires |a| == |b| && Codes(a) + x == Codes(b) + y
    ensures a == b && x == y
  {
    if a == [] {
      assert [] + x == x && [] + y == y;
    } else {
      assert Codes(a) + x == [a[0] as int] + (Codes(a[1..]) + x);
      assert Codes(b) + y == [b[0] as int] + (Codes(b[1..]) + y);
      assert (Codes(a) + x)[1..] == Codes(a[1..]) + x && (Codes(b) + y)[1..] == Codes(b[1..]) + y;
      assert (Codes(a) + x)[0] == a[0] as int && (Codes(b) + y)[0] == b[0] as int;
      CodesInjective(a[1..], b[1..], x, y);
      assert a == [a[0]] + a[1..] && b == [b[0]] + b[1..];
    }
  }

  lemma FieldInjective(a: string, b: string, x: seq<int>, y: seq<int>)
    requires Field(a) + x == Field(b) + y
    ensures a == b && x == y
  {
    assert (Field(a) + x)[0] == |a| && (Field(b) + y)[0] == |b|;
    assert (Field(a) + x)[1..] == Codes(a) + x && (Field(b) + y)[1..] == Codes(b) + y;
    CodesInjective(a, b, x, y);
  }

  lemma KeyInjective(a: Mount, b: Mount)
    requires Key(a) == Key(b)
    ensures a == b
  {
    var flagA, flagB := [if a.writable then 1 else 0], [if b.writable then 1 else 0];
    FieldInjective(a.destination, b.destination, Field(a.source) + (flagA + Field(a.rest)), Field(b.source) + (flagB + Field(b.rest)));
    FieldInjective(a.source, b.source, flagA + Field(a.rest), flagB + Field(b.rest));
    assert (flagA + Field(a.rest))[0] == flagA[0] && (flagB + Field(b.rest))[0] == flagB[0];
    assert (flagA + Field(a.rest))[1..] == Field(a.rest) + [] && (flagB + Field(b.rest))[1..] == Field(b.rest) + [];
    FieldInjective(a.rest, b.rest, [], []);
  }

  lemma {:induction false} KeysCount(mounts: seq<Mount>, m: Mount)
    ensures multiset(Keys(mounts))[Key(m)] == multiset(mounts)[m]
  {
    if mounts != [] {
      KeysCount(mounts[1..], m);
      if Key(mounts[0]) == Key(m) {
        KeyInjective(mounts[0], m);
      }
      assert mounts == [mounts[0]] + mounts[1..];
    }
  }

  lemma {:induction false} KeysAreKeys(mounts: seq<Mount>, key: seq<int>)
    requires key in Keys(mounts)
    ensures exists m :: m in mounts && Key(m) == key
  {
    if Key(mounts[0]) == key {
      assert mounts[0] in mounts;
    } else {
      KeysAreKeys(mounts[1..], key);
    }
  }

  lemma KeysSameMultiset(a: seq<Mount>, b: seq<Mount>)
    ensures multiset(Keys(a)) == multiset(Keys(b)) <==> multiset(a) == multiset(b)
  {
    if multiset(Keys(a)) == multiset(Keys(b)) {
      forall m ensures multiset(a)[m] == multiset(b)[m] {
        KeysCount(a, m);
        KeysCount(b, m);
      }
    }
    if multiset(a) == multiset(b) {
      forall key ensures multiset(Keys(a))[key] == multiset(Keys(b))[key] {
        if key in Keys(a) {
          KeysAreKeys(a, key);
          var m :| m in a && Key(m) == key;
          KeysCount(a, m);
          KeysCount(b, m);
        } else if key in Keys(b) {
          KeysAreKeys(b, key);
          var m :| m in b && Key(m) == key;
          KeysCount(a, m);
          KeysCount(b, m);
        }
      }
    }
  }

  /** Two fingerprints agree exactly when identity, image, configuration and networks agree
      and the mounts are the same records equally often, in whatever order. */
  lemma FingerprintIff(a: Container, b: Container)
    ensures FingerprintOf(a) == FingerprintOf(b) <==>
      && a.id == b.id && a.image == b.image && a.config == b.config && a.hostConfig == b.hostConfig
      && a.networks == b.networks
      && multiset(a.mounts) == multiset(b.mounts)
  {
    SortIsCanonical(Keys(a.mounts), Keys(b.mounts));
    KeysSameMultiset(a.mounts, b.mounts);
  }

  // ------------------------------------------------------------------------ the route

  const EDGE_SERVICES: set<string> := {"caddy", "cloudflared", "egress-proxy"}

  /** `ColourName` is "blue" or "green". */
  function RoutePayload(colour: Colour): string {
    "to public-api-" + ColourName(colour) + ":8000\n"
  }

  datatype EdgeBinding = EdgeBinding(containerId: string, container: Fingerprint, model: string)

  /** What looking for a service's running container gives. */
  datatype Live = Absent | Running(container: Container) | Ambiguous

  /** What a release asks for: whether its Caddyfile imports the route, the computed models
      (None when computing them fails) and the containers as they are now. */
  datatype Target = Target(supported: bool, models: Option<map<string, string>>, live: map<string, Live>)

  datatype Outcome = Refused | ReloadFailed | Prepared(retained: seq<string>, recreate: seq<string>)

  datatype Legacy = LegacyRefused | NeverRouted | RouteRestored

  function LiveOf(live: map<string, Live>, service: string): Live {
    if service in live then live[service] else Absent
  }

  /** The container runs the recorded model and has the recorded fingerprint. */
  predicate Keeps(service: string, target: Target, saved: map<string, EdgeBinding>) {
    var live := LiveOf(target.live, service);
    && live.Running? && target.models.Some? && service in target.models.value && service in saved
    && saved[service].model == target.models.value[service]
    && saved[service].container == FingerprintOf(live.container)
  }

  function Select(services: seq<string>, target: Target, saved: map<string, EdgeBinding>, keep: bool): seq<string> {
    if services == [] then []
    else
      var init, last := services[..|services| - 1], services[|services| - 1];
      Select(init, target, saved, keep) + if Keeps(last, target, saved) == keep then [last] else []
  }

  predicate KnownServices(services: seq<string>) {
    services != [] && forall s | s in services :: s in EDGE_SERVICES
  }

  /** Every request that `prepare` refuses before it writes anything. */
  predicate Preparable(services: seq<string>, target: Target, upstream: Option<string>, saved: Option<map<string, EdgeBinding>>,
                       active: Option<Colour>) {
    && KnownServices(services) && target.supported && (upstream.Some? || active.Some?)
    && (upstream.Some? ==> upstream.value in {RoutePayload(Blue), RoutePayload(Green)})
    && target.models.Some? && saved.Some?
    && forall s | s in services :: !LiveOf(target.live, s).Ambiguous?
  }

  predicate RouteMount(m: Mount) {
    m.destination == "/etc/project-snow-routing"
  }

  function RouteMounts(mounts: seq<Mount>): seq<Mount> {
    if mounts == [] then [] else (if RouteMount(mounts[0]) then [mounts[0]] else []) + RouteMounts(mounts[1..])
  }

  /** Caddy must mount the routing directory once, read-only. */
  predicate MountsRoute(c: Container, root: string) {
    var mounts := RouteMounts(c.mounts);
    |mounts| == 1 && mounts[0].source == root && !mounts[0].writable
  }

  predicate Bindable(service: string, target: Target, root: string) {
    var live := LiveOf(target.live, service);
    && live.Running? && target.models.Some? && service in target.models.value
    && (service == "caddy" ==> MountsRoute(live.container, root))
  }

  predicate Recordable(services: seq<string>, target: Target, upstream: Option<string>, saved: Option<map<string, EdgeBinding>>,
                       colour: Colour, root: string) {
    && KnownServices(services) && upstream == Some(RoutePayload(colour)) && target.models.Some? && saved.Some?
    && forall s | s in services :: Bindable(s, target, root)
  }

  function Bind(services: seq<string>, target: Target, saved: map<string, EdgeBinding>): map<string, EdgeBinding>
    requires target.models.Some?
    requires forall s | s in services :: LiveOf(target.live, s).Running? && s in target.models.value
  {
    if services == [] then saved
    else
      var init, last := services[..|services| - 1], services[|services| - 1];
      assert forall s | s in init :: s in services;
      var container := LiveOf(target.live, last).container;
      Bind(init, target, saved)[last := EdgeBinding(container.id, FingerprintOf(container), target.models.value[last])]
  }

  /** The routing directory together with the route that Caddy has loaded.  `bindings` is
      None when the binding file is not one of ours. */
  class RoutingDirectory {
    var upstream: Option<string>
    var bindings: Option<map<string, EdgeBinding>>
    var serving: Option<string>
    /** Whether the routing directory exists. */
    var present: bool
    const root: string

    constructor (root: string)
      ensures upstream == None && bindings == Some(map[]) && serving == None && !present && this.root == root
    {
      this.root := root;
      upstream, bindings, serving, present := None, Some(map[]), None, false;
    }

    /** Asks Caddy to load the file; a failure may come before or after the effect. */
    method Reload() returns (ok: bool)
      modifies this`serving
      ensures ok ==> serving == upstream
      ensures serving in {old(serving), upstream}
    {
      var effect: bool := *;
      ok := *;
      if ok || effect {
        serving := upstream;
      }
    }

    /** Points the route at a colour and says which services must be recreated.  `active` is
        the running release's colour, None when that is inconsistent. */
    method Prepare(services: seq<string>, target: Target, colour: Colour, active: Option<Colour>) returns (outcome: Outcome)
      modifies this`upstream, this`serving, this`present
      ensures present == (old(present) || (KnownServices(services) && target.supported))
      ensures outcome.Refused? <==> !old(Preparable(services, target, upstream, bindings, active))
      ensures outcome.Refused? ==> upstream == old(upstream) && serving == old(serving)
      ensures outcome.ReloadFailed? ==>
        && (old(upstream).Some? || active.Some?)
        && upstream == (if old(upstream).Some? then old(upstream) else Some(RoutePayload(active.value)))
        && Keeps("caddy", target, bindings.value) && "caddy" in services
      ensures outcome.Prepared? ==>
        && upstream == Some(RoutePayload(colour))
        && outcome.retained == Select(services, target, bindings.value, true)
        && outcome.recreate == Select(services, target, bindings.value, false)
        && ("caddy" in outcome.retained ==> serving == upstream)
        && ("caddy" !in outcome.retained ==> serving == old(serving))
    {
      hide Keeps, Select, RoutePayload, LiveOf, EDGE_SERVICES;
      if services == [] || exists s :: s in services && s !in EDGE_SERVICES {
        return Refused;
      }
      if !target.supported {
        return Refused;
      }
      present := true;
      if upstream.None? && active.None? {
        return Refused;
      }
      var previous := if upstream.Some? then upstream.value else RoutePayload(active.value);
      assert active.Some? ==> active.value.Blue? || active.value.Green?;
      if previous != RoutePayload(Blue) && previous != RoutePayload(Green) {
        return Refused;
      }
      if target.models.None? || bindings.None? {
        return Refused;
      }
      var saved := bindings.value;
      var retain, recreate: seq<string> := [], [];
      SelectNothing(target, saved);
      assert services[..0] == [];
      for i := 0 to |services|
        invariant upstream == old(upstream) && serving == old(serving) && present
        invariant forall k | 0 <= k < i :: !LiveOf(target.live, services[k]).Ambiguous?
        invariant retain == Select(services[..i], target, saved, true)
        invariant recreate == Select(services[..i], target, saved, false)
      {
        SelectStep(services, i, target, saved, true);
        SelectStep(services, i, target, saved, false);
        if LiveOf(target.live, services[i]).Ambiguous? {
          assert services[i] in services;
          return Refused;
        }
        if Keeps(services[i], target, saved) {
          retain := retain + [services[i]];
        } else {
          recreate := recreate + [services[i]];
        }
      }
      assert services[..|services|] == services;
      SelectMembers(services, target, saved, true, "caddy");
      upstream := Some(RoutePayload(colour));
      if "caddy" in retain {
        var ok := Reload();
        if !ok {
          upstream := Some(previous);
          var _ := Reload();
          return ReloadFailed;
        }
      }
      outcome := Prepared(retain, recreate);
    }

    /** Binds the running services to the models they were started from. */
    method RecordServices(services: seq<string>, target: Target, colour: Colour) returns (ok: bool)
      modifies this`bindings, this`present
      ensures present == (old(present) || KnownServices(services))
      ensures ok <==> old(Recordable(services, target, upstream, bindings, colour, root))
      ensures bindings == if ok then Some(Bind(services, target, old(bindings).value)) else old(bindings)
    {
      if services == [] || exists s :: s in services && s !in EDGE_SERVICES {
        return false;
      }
      present := true;
      if upstream != Some(RoutePayload(colour)) || target.models.None? || bindings.None? {
        return false;
      }
      var saved := bindings.value;
      for i := 0 to |services|
        invariant bindings == old(bindings) && present
        invariant forall s | s in services[..i] :: Bindable(s, target, root)
        invariant saved == Bind(services[..i], target, bindings.value)
      {
        assert services[..i + 1][..i] == services[..i] && services[..i + 1][i] == services[i];
        var service := services[i];
        if !Bindable(service, target, root) {
          return false;
        }
        var container := LiveOf(target.live, service).container;
        saved := saved[service := EdgeBinding(container.id, FingerprintOf(container), target.models.value[service])];
      }
      assert services[..|services|] == services;
      bindings := Some(saved);
      ok := true;
    }

    /** Keeps the startup file consistent for a release that does not import the route; a
        host that never had a routing directory is left alone. */
    method SelectLegacy(imports: bool, colour: Colour) returns (outcome: Legacy)
      modifies this`upstream
      ensures outcome == if imports then LegacyRefused else if present then RouteRestored else NeverRouted
      ensures upstream == if outcome == RouteRestored then Some(RoutePayload(colour)) else old(upstream)
    {
      if imports {
        return LegacyRefused;
      }
      if !present {
        return NeverRouted;
      }
      upstream := Some(RoutePayload(colour));
      outcome := RouteRestored;
    }
  }

  lemma {:induction false} SelectMembers(services: seq<string>, target: Target, saved: map<string, EdgeBinding>, keep: bool, s: string)
    ensures s in Select(services, target, saved, keep) <==> s in services && Keeps(s, target, saved) == keep
  {
    if services != [] {
      SelectMembers(services[..|services| - 1], target, saved, keep, s);
      assert services == services[..|services| - 1] + [services[|services| - 1]];
    }
  }

  lemma SelectStep(services: seq<string>, i: nat, target: Target, saved: map<string, EdgeBinding>, keep: bool)
    requires i < |services|
    ensures Select(services[..i + 1], target, saved, keep) ==
      Select(services[..i], target, saved, keep) + if Keeps(services[i], target, saved) == keep then [services[i]] else []
  {
    hide Keeps;
    assert services[..i + 1][..i] == services[..i] && services[..i + 1][i] == services[i];
  }

  /** Every request for a service is either retained or recreated: each service is listed
      in the two answers together as often as it was requested. */
  lemma {:induction false} SelectPartitions(services: seq<string>, target: Target, saved: map<string, EdgeBinding>, s: string)
    ensures multiset(Select(services, target, saved, true))[s] + multiset(Select(services, target, saved, false))[s]
         == multiset(services)[s]
  {
    hide Keeps, Select;
    if services != [] {
      var n := |services| - 1;
      SelectPartitions(services[..n], target, saved, s);
      SelectStep(services, n, target, saved, true);
      SelectStep(services, n, target, saved, false);
      assert services[..n + 1] == services == services[..n] + [services[n]];
    } else {
      SelectNothing(target, saved);
    }
  }

  lemma SelectNothing(target: Target, saved: map<string, EdgeBinding>)
    ensures Select([], target, saved, true) == [] && Select([], target, saved, false) == []
  {
  }

  // ------------------------------------------------------------------------ histories

  /** One accepted record: the services it bound and what was running then.  A request that
      satisfies `Recordable` is sound. */
  datatype Recorded = Recorded(services: seq<string>, target: Target)

  predicate Sound(r: Recorded) {
    r.target.models.Some? && forall s | s in r.services :: LiveOf(r.target.live, s).Running? && s in r.target.models.value
  }

  /** The bindings after the accepted records of a history, oldest first. */
  function Bindings(history: seq<Recorded>): map<string, EdgeBinding>
    requires forall r | r in history :: Sound(r)
  {
    if history == [] then map[]
    else
      var init, last := history[..|history| - 1], history[|history| - 1];
      assert Sound(last) && forall r | r in init :: r in history;
      Bind(last.services, last.target, Bindings(init))
  }

  /** The last record that bound the service. */
  function LastBound(history: seq<Recorded>, service: string): Option<Target> {
    if history == [] then None
    else if service in history[|history| - 1].services then Some(history[|history| - 1].target)
    else LastBound(history[..|history| - 1], service)
  }

  lemma {:induction false} BindAt(services: seq<string>, target: Target, saved: map<string, EdgeBinding>, s: string)
    requires target.models.Some?
    requires forall t | t in services :: LiveOf(target.live, t).Running? && t in target.models.value
    ensures var bound := Bind(services, target, saved);
      if s in services then s in bound
          && bound[s].container == FingerprintOf(LiveOf(target.live, s).container) && bound[s].model == target.models.value[s]
      else (s in bound <==> s in saved) && (s in saved ==> bound[s] == saved[s])
  {
    if services != [] {
      var init, last := services[..|services| - 1], services[|services| - 1];
      assert services == init + [last];
      assert last in services && forall t | t in init :: t in services;
      BindAt(init, target, saved, s);
    }
  }

  /** The container that ran when the service was last recorded, unchanged in everything
      that is not volatile, under the same model. */
  ghost predicate SameAsRecorded(earlier: Target, now: Target, service: string) {
    var before, after := LiveOf(earlier.live, service), LiveOf(now.live, service);
    && before.Running? && after.Running? && earlier.models.Some? && now.models.Some?
    && service in earlier.models.value && service in now.models.value
    && earlier.models.value[service] == now.models.value[service]
    && FingerprintOf(before.container) == FingerprintOf(after.container)
  }

  /** Over every history a service is retained exactly when its model and its container
      are those of the last record that bound it. */
  lemma {:induction false} RetainedIff(history: seq<Recorded>, target: Target, service: string)
    requires forall r | r in history :: Sound(r)
    ensures Keeps(service, target, Bindings(history)) <==>
      LastBound(history, service).Some? && SameAsRecorded(LastBound(history, service).value, target, service)
  {
    if history != [] {
      var init, last := history[..|history| - 1], history[|history| - 1];
      assert last in history && forall r | r in init :: r in history;
      BindAt(last.services, last.target, Bindings(init), service);
      if service !in last.services {
        RetainedIff(init, target, service);
      }
    }
  }

  // ----------------------------------------------------------------------------- in full

  lemma KnownIff(services: seq<string>)
    ensures KnownServices(services) <==>
      services != [] && forall s | s in services :: s == "caddy" || s == "cloudflared" || s == "egress-proxy"
  {
  }

  lemma PayloadIs()
    ensures RoutePayload(Blue) == "to public-api-blue:8000\n" && RoutePayload(Green) == "to public-api-green:8000\n"
  {
  }

  /** Preparing goes ahead exactly for known services, a release that imports the route, a
      present or default route that is one of the two, and models, bindings and containers
      that can be read. */
  lemma PrepareAcceptedIff(services: seq<string>, target: Target, upstream: Option<string>,
                           saved: Option<map<string, EdgeBinding>>, active: Option<Colour>)
    ensures Preparable(services, target, upstream, saved, active) <==>
      && services != [] && (forall s | s in services :: s == "caddy" || s == "cloudflared" || s == "egress-proxy")
      && target.supported && target.models.Some? && saved.Some?
      && (if upstream.Some? then upstream.value == "to public-api-blue:8000\n" || upstream.value == "to public-api-green:8000\n"
          else active.Some?)
      && (forall s | s in services && s in target.live :: target.live[s] != Ambiguous)
  {
    KnownIff(services);
    PayloadIs();
    hide RoutePayload, KnownServices;
  }

  /** Recording goes ahead exactly when the route is the target's and every named service
      runs and has a model; Caddy must mount the routing directory, and only it, read-only. */
  lemma RecordAcceptedIff(services: seq<string>, target: Target, upstream: Option<string>,
                          saved: Option<map<string, EdgeBinding>>, colour: Colour, root: string)
    ensures Recordable(services, target, upstream, saved, colour, root) <==>
      && services != [] && (forall s | s in services :: s == "caddy" || s == "cloudflared" || s == "egress-proxy")
      && upstream == Some(if colour == Blue then "to public-api-blue:8000\n" else "to public-api-green:8000\n")
      && target.models.Some? && saved.Some?
      && (forall s | s in services :: s in target.live && target.live[s].Running? && s in target.models.value)
      && ("caddy" in services ==> OneReadOnlyRoute(target.live["caddy"].container.mounts, root))
  {
    KnownIff(services);
    PayloadIs();
    hide RoutePayload, KnownServices;
    if "caddy" in services && "caddy" in target.live && target.live["caddy"].Running? {
      OneRouteIff(target.live["caddy"].container, root);
    }
    hide MountsRoute, OneReadOnlyRoute;
  }

  /** Exactly one mount is at the route's place, from the routing directory and read-only. */
  ghost predicate OneReadOnlyRoute(mounts: seq<Mount>, root: string) {
    exists i: nat :: i < |mounts|
      && mounts[i].destination == "/etc/project-snow-routing" && mounts[i].source == root && !mounts[i].writable
      && forall j | 0 <= j < |mounts| && j != i :: mounts[j].destination != "/etc/project-snow-routing"
  }

  lemma {:induction false} OneRouteFound(mounts: seq<Mount>, root: string)
    ensures OneReadOnlyRoute(mounts, root) <==>
      |RouteMounts(mounts)| == 1 && RouteMounts(mounts)[0].source == root && !RouteMounts(mounts)[0].writable
    ensures RouteMounts(mounts) == [] <==> forall m | m in mounts :: m.destination != "/etc/project-snow-routing"
  {
    if mounts != [] {
      var rest := mounts[1..];
      OneRouteFound(rest, root);
      assert forall k | 0 <= k < |rest| :: rest[k] == mounts[k + 1];
      assert mounts == [mounts[0]] + rest;
      if mounts[0].destination == "/etc/project-snow-routing" {
        if OneReadOnlyRoute(mounts, root) {
          var i: nat :| i < |mounts| && mounts[i].destination == "/etc/project-snow-routing" && mounts[i].source == root && !mounts[i].writable
            && forall j | 0 <= j < |mounts| && j != i :: mounts[j].destination != "/etc/project-snow-routing";
          assert i == 0;
          forall m | m in rest ensures m.destination != "/etc/project-snow-routing" {
            var k :| 0 <= k < |rest| && rest[k] == m;
            assert mounts[k + 1] == m;
          }
        }
        if RouteMounts(rest) == [] && mounts[0].source == root && !mounts[0].writable {
          forall j | 0 <= j < |mounts| && j != 0 ensures mounts[j].destination != "/etc/project-snow-routing" {
            assert rest[j - 1] in rest;
          }
          assert OneReadOnlyRoute(mounts, root);
        }
      } else {
        OneRouteLater(mounts, root);
      }
    }
  }

  lemma OneRouteLater(mounts: seq<Mount>, root: string)
    requires mounts != [] && mounts[0].destination != "/etc/project-snow-routing"
    ensures OneReadOnlyRoute(mounts, root) <==> OneReadOnlyRoute(mounts[1..], root)
  {
    var rest := mounts[1..];
    if OneReadOnlyRoute(mounts, root) {
      var i: nat :| i < |mounts| && mounts[i].destination == "/etc/project-snow-routing" && mounts[i].source == root && !mounts[i].writable
        && forall j | 0 <= j < |mounts| && j != i :: mounts[j].destination != "/etc/project-snow-routing";
      assert rest[i - 1] == mounts[i];
      forall j | 0 <= j < |rest| && j != i - 1 ensures rest[j].destination != "/etc/project-snow-routing" {
        assert rest[j] == mounts[j + 1];
      }
    }
    if OneReadOnlyRoute(rest, root) {
      var i: nat :| i < |rest| && rest[i].destination == "/etc/project-snow-routing" && rest[i].source == root && !rest[i].writable
        && forall j | 0 <= j < |rest| && j != i :: rest[j].destination != "/etc/project-snow-routing";
      assert mounts[i + 1] == rest[i];
      forall j | 0 <= j < |mounts| && j != i + 1 ensures mounts[j].destination != "/etc/project-snow-routing" {
        assert j > 0 ==> mounts[j] == rest[j - 1];
      }
    }
  }

  lemma OneRouteIff(c: Container, root: string)
    ensures MountsRoute(c, root) <==> OneReadOnlyRoute(c.mounts, root)
  {
    OneRouteFound(c.mounts, root);
  }
}
