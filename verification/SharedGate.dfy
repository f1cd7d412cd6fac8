// Shared dependencies at staging: nothing shared may change, except the embedding image and
// the egress configuration, and those only under a root-written grant for exactly that swap.
module SharedGate {
  import opened Prelude
  import opened Text
  import opened FieldFiles

  const SHARED_IMAGES: seq<string> := ["POSTGRES_IMAGE", "QDRANT_IMAGE", "NEO4J_IMAGE", "EMBEDDING_IMAGE", "EGRESS_PROXY_IMAGE"]
  const SHARED_CONFIGS: seq<string> := ["infra/postgres/postgresql.conf", "infra/neo4j-entrypoint.sh", "infra/egress-squid.conf"]

  /** The environment fields and the configuration hashes of one release. */
  datatype Release = Release(images: map<string, string>, hashes: map<string, string>)

  datatype Kind = Embedding | Egress

  /** The digest of a probe receipt. */
  type HexDigest = s: string | IsSha256Hex(s)
    witness seq(64, i => '0')

  /** A printed time stamp. */
  type OneLine = s: string | IsOneLine(s) witness ""

  datatype Probe = Probe(passed: bool, from: string, to: string, digest: HexDigest)

  /** The name of the shared item that a kind of grant is about. */
  function Item(kind: Kind): string {
    if kind == Embedding then "EMBEDDING_IMAGE" else "infra/egress-squid.conf"
  }

  predicate WellFormed(kind: Kind, reference: string) {
    if kind == Embedding then IsImageDigest(reference) else IsSha256Hex(reference)
  }

  function Schema(kind: Kind): string {
    if kind == Embedding then "project-snow-embedding-swap-1" else "project-snow-egress-swap-1"
  }

  function FromKey(kind: Kind): string {
    if kind == Embedding then "from" else "from_sha256"
  }

  function ToKey(kind: Kind): string {
    if kind == Embedding then "to" else "to_sha256"
  }

  function ProofKey(kind: Kind): string {
    if kind == Embedding then "probe_sha256" else "parse_ok"
  }

  predicate ProofHolds(kind: Kind, proof: string) {
    if kind == Embedding then IsSha256Hex(proof) else proof == "true"
  }

  /** Grants are filed under the destination digest alone. */
  function FileName(kind: Kind, reference: string): string
    requires WellFormed(kind, reference)
  {
    (if kind == Embedding then reference[|reference| - 64..] else reference) + ".env"
  }

  datatype Grant = Grant(kind: Kind, from: string, to: string, at: OneLine, proof: string)

  predicate ValidGrant(g: Grant) {
    WellFormed(g.kind, g.from) && WellFormed(g.kind, g.to) && ProofHolds(g.kind, g.proof)
  }

  function GrantFields(g: Grant): seq<Field> {
    [Field("schema", Schema(g.kind)), Field(FromKey(g.kind), g.from), Field(ToKey(g.kind), g.to),
     Field("approved_at", g.at), Field(ProofKey(g.kind), g.proof)]
  }

  function FieldNames(kind: Kind): set<string> {
    {"schema", FromKey(kind), ToKey(kind), "approved_at", ProofKey(kind)}
  }

  // -------------------------------------------------------------------- authorization

  /** A grant directory: file texts by name; None when it does not exist. */
  type Directory = Option<map<string, string>>

  datatype Answer = NotAuthorized | Malformed | Authorized

  predicate Names(kind: Kind, fields: map<string, string>, current: string, candidate: string) {
    && fields.Keys == FieldNames(kind)
    && fields["schema"] == Schema(kind)
    && WellFormed(kind, fields[FromKey(kind)]) && WellFormed(kind, fields[ToKey(kind)])
    && ProofHolds(kind, fields[ProofKey(kind)])
    && fields[FromKey(kind)] == current && fields[ToKey(kind)] == candidate
  }

  function Authorization(kind: Kind, directory: Directory, current: string, candidate: string): Answer {
    if directory.None? then NotAuthorized
    else if !WellFormed(kind, candidate) then Malformed
    else if FileName(kind, candidate) !in directory.value then NotAuthorized
    else
      var fields := Parse(Lower, directory.value[FileName(kind, candidate)]);
      if fields.Some? && Names(kind, fields.value, current, candidate) then Authorized else Malformed
  }

  lemma CommonKeys()
    ensures IsKey(Lower, "schema") && IsKey(Lower, "approved_at")
  {
  }

  lemma OwnKeys(kind: Kind)
    ensures IsKey(Lower, FromKey(kind)) && IsKey(Lower, ToKey(kind)) && IsKey(Lower, ProofKey(kind))
  {
    if kind == Embedding {
      assert IsKey(Lower, "from") && IsKey(Lower, "to") && IsKey(Lower, "probe_sha256");
    } else {
      assert IsKey(Lower, "from_sha256") && IsKey(Lower, "to_sha256") && IsKey(Lower, "parse_ok");
    }
  }

  lemma SchemaIsOneLine(kind: Kind)
    ensures IsOneLine(Schema(kind))
  {
  }

  lemma KeysDiffer(g: Grant)
    ensures DistinctKeys(GrantFields(g))
  {
    var f := GrantFields(g);
    assert f[0].key[0] == 's' && f[1].key[0] == 'f' && f[2].key[0] == 't' && f[3].key[0] == 'a' && f[4].key[0] == 'p';
  }

  lemma ProofIsOneLine(g: Grant)
    requires ValidGrant(g)
    ensures IsOneLine(g.proof)
  {
    if g.kind == Embedding {
      ReferenceIsOneLine(Egress, g.proof);
    }
  }

  lemma GrantIsWritable(g: Grant)
    requires ValidGrant(g)
    ensures Writable(Lower, GrantFields(g)) && DistinctKeys(GrantFields(g))
  {
    hide IsKey, IsImageDigest, IsSha256Hex, Schema, FromKey, ToKey, ProofKey, DistinctKeys;
    CommonKeys();
    OwnKeys(g.kind);
    SchemaIsOneLine(g.kind);
    ReferenceIsOneLine(g.kind, g.from);
    ReferenceIsOneLine(g.kind, g.to);
    ProofIsOneLine(g);
    KeysDiffer(g);
  }

  lemma ReferenceIsOneLine(kind: Kind, reference: string)
    requires WellFormed(kind, reference)
    ensures IsOneLine(reference)
  {
    if kind == Embedding {
      var n := |reference|;
      forall i | 0 <= i < n ensures !IsLineBreak(reference[i]) {
        if i < n - 72 {
          assert IsRepositoryChar(reference[i]);
        } else if i < n - 64 {
          assert reference[i] == reference[n - 72..n - 64][i - (n - 72)] == "@sha256:"[i - (n - 72)];
        } else {
          assert IsHex(reference[n - 64..][i - (n - 64)]);
        }
      }
    }
  }

  lemma GrantReadsBack(g: Grant)
    requires ValidGrant(g)
    ensures var m := Parse(Lower, Render(GrantFields(g)));
      && m.Some? && m.value.Keys == FieldNames(g.kind)
      && m.value["schema"] == Schema(g.kind) && m.value[FromKey(g.kind)] == g.from && m.value[ToKey(g.kind)] == g.to
      && m.value[ProofKey(g.kind)] == g.proof
  {
    hide Render, Parse, AsMap, DistinctKeys, Writable, Schema, FromKey, ToKey, ProofKey, ValidGrant;
    var fields := GrantFields(g);
    GrantIsWritable(g);
    RoundTrip(Lower, fields);
    AsMapHolds(fields);
    assert fields[0] in fields && fields[1] in fields && fields[2] in fields && fields[3] in fields && fields[4] in fields;
    assert AsMap(fields, map[]).Keys == FieldNames(g.kind);
  }

  /** A grant as written authorizes exactly the swap it names. */
  lemma WrittenGrantAuthorizes(g: Grant, files: map<string, string>, current: string, candidate: string)
    requires ValidGrant(g) && WellFormed(g.kind, candidate)
    requires FileName(g.kind, candidate) in files && files[FileName(g.kind, candidate)] == Render(GrantFields(g))
    ensures Authorization(g.kind, Some(files), current, candidate)
      == if g.from == current && g.to == candidate then Authorized else Malformed
  {
    hide Render, Parse, IsImageDigest, IsSha256Hex;
    GrantReadsBack(g);
  }

  /** A grant file whose writing stopped early authorizes nothing, unless all that is
      missing is the final line break. */
  lemma TornGrantRefused(g: Grant, n: nat, files: map<string, string>, current: string, candidate: string)
    requires ValidGrant(g) && WellFormed(g.kind, candidate) && n < |Render(GrantFields(g))| - 1
    requires FileName(g.kind, candidate) in files && files[FileName(g.kind, candidate)] == Render(GrantFields(g))[..n]
    ensures Authorization(g.kind, Some(files), current, candidate) == Malformed
  {
    hide Render, ParseLines, IsImageDigest;
    GrantIsWritable(g);
    CutText(Lower, GrantFields(g), n, map[]);
    var fields := Parse(Lower, Render(GrantFields(g))[..n]);
    if fields.Some? && ProofKey(g.kind) in fields.value {
      assert |fields.value[ProofKey(g.kind)]| < |g.proof|;
      CutProofFails(g.kind, g.proof, fields.value[ProofKey(g.kind)]);
    }
  }

  lemma CutProofFails(kind: Kind, proof: string, cut: string)
    requires ProofHolds(kind, proof) && |cut| < |proof|
    ensures !ProofHolds(kind, cut)
  {
  }

  // ----------------------------------------------------------------------------- gate

  predicate SameImage(running: Release, candidate: Release, key: string) {
    && key in running.images && IsImageDigest(running.images[key])
    && key in candidate.images && candidate.images[key] == running.images[key]
  }

  predicate SameConfig(running: Release, candidate: Release, path: string) {
    && path in running.hashes && IsSha256Hex(running.hashes[path])
    && path in candidate.hashes && candidate.hashes[path] == running.hashes[path]
  }

  function ChangedImages(running: Release, candidate: Release, keys: seq<string>): seq<string> {
    if keys == [] then []
    else (if SameImage(running, candidate, keys[0]) then [] else [keys[0]]) + ChangedImages(running, candidate, keys[1..])
  }

  function ChangedConfigs(running: Release, candidate: Release, paths: seq<string>): seq<string> {
    if paths == [] then []
    else (if SameConfig(running, candidate, paths[0]) then [] else [paths[0]]) + ChangedConfigs(running, candidate, paths[1..])
  }

  function Changed(running: Release, candidate: Release): seq<string> {
    ChangedImages(running, candidate, SHARED_IMAGES) + ChangedConfigs(running, candidate, SHARED_CONFIGS)
  }

  /** What a release says of the item of a kind; a missing entry reads as "". */
  function Reference(release: Release, kind: Kind): string {
    var entries := if kind == Embedding then release.images else release.hashes;
    if Item(kind) in entries then entries[Item(kind)] else ""
  }

  datatype Server = Server(running: Release, embedding: Directory, egress: Directory)

  function DirectoryOf(s: Server, kind: Kind): Directory {
    if kind == Embedding then s.embedding else s.egress
  }

  function Ask(s: Server, kind: Kind, candidate: Release): Answer {
    Authorization(kind, DirectoryOf(s, kind), Reference(s.running, kind), Reference(candidate, kind))
  }

  /** Whether staging may go on; a malformed grant and a missing entry are refusals. */
  function Gate(s: Server, candidate: Release): bool {
    var changed := Changed(s.running, candidate);
    if changed == [Item(Embedding)] && Item(Embedding) !in s.running.images then false
    else if changed == [Item(Embedding)] && Ask(s, Embedding, candidate) != NotAuthorized then
      Ask(s, Embedding, candidate) == Authorized
    else if changed == [Item(Egress)] && Ask(s, Egress, candidate) != NotAuthorized then
      Ask(s, Egress, candidate) == Authorized
    else if |changed| == 2 && Item(Embedding) in changed && Item(Egress) in changed then
      Item(Embedding) in s.running.images && Ask(s, Embedding, candidate) == Authorized && Ask(s, Egress, candidate) == Authorized
    else changed == []
  }

  /** The item of this kind is well formed and unchanged. */
  predicate Same(running: Release, candidate: Release, kind: Kind) {
    if kind == Embedding then SameImage(running, candidate, Item(kind)) else SameConfig(running, candidate, Item(kind))
  }

  /** Every shared item that no grant can cover is well formed and unchanged. */
  predicate OthersSame(running: Release, candidate: Release) {
    && (forall key | key in SHARED_IMAGES && key != Item(Embedding) :: SameImage(running, candidate, key))
    && (forall path | path in SHARED_CONFIGS && path != Item(Egress) :: SameConfig(running, candidate, path))
  }

  function ChangedOf(running: Release, candidate: Release, kind: Kind): seq<string> {
    if Same(running, candidate, kind) then [] else [Item(kind)]
  }

  lemma {:induction false} ImagesIn(running: Release, candidate: Release, keys: seq<string>, key: string)
    ensures key in ChangedImages(running, candidate, keys) <==> key in keys && !SameImage(running, candidate, key)
  {
    hide SameImage;
    if keys != [] {
      ImagesIn(running, candidate, keys[1..], key);
      assert keys == [keys[0]] + keys[1..];
    }
  }

  lemma {:induction false} ConfigsIn(running: Release, candidate: Release, paths: seq<string>, path: string)
    ensures path in ChangedConfigs(running, candidate, paths) <==> path in paths && !SameConfig(running, candidate, path)
  {
    hide SameConfig;
    if paths != [] {
      ConfigsIn(running, candidate, paths[1..], path);
      assert paths == [paths[0]] + paths[1..];
    }
  }

  predicate NoneTwice(names: seq<string>) {
    forall i, j | 0 <= i < j < |names| :: names[i] != names[j]
  }

  lemma {:induction false} OneImage(running: Release, candidate: Release, keys: seq<string>, only: string)
    requires NoneTwice(keys) && forall key | key in keys && key != only :: SameImage(running, candidate, key)
    ensures ChangedImages(running, candidate, keys) == if only in keys && !SameImage(running, candidate, only) then [only] else []
  {
    hide SameImage;
    if keys != [] {
      var rest := keys[1..];
      assert forall i | 0 <= i < |rest| :: rest[i] == keys[i + 1];
      OneImage(running, candidate, rest, only);
      assert keys == [keys[0]] + rest && keys[0] !in rest;
    }
  }

  lemma {:induction false} OneConfig(running: Release, candidate: Release, paths: seq<string>, only: string)
    requires NoneTwice(paths) && forall path | path in paths && path != only :: SameConfig(running, candidate, path)
    ensures ChangedConfigs(running, candidate, paths) == if only in paths && !SameConfig(running, candidate, only) then [only] else []
  {
    hide SameConfig;
    if paths != [] {
      var rest := paths[1..];
      assert forall i | 0 <= i < |rest| :: rest[i] == paths[i + 1];
      OneConfig(running, candidate, rest, only);
      assert paths == [paths[0]] + rest && paths[0] !in rest;
    }
  }

  lemma SharedNames()
    ensures NoneTwice(SHARED_IMAGES) && NoneTwice(SHARED_CONFIGS)
    ensures Item(Embedding) in SHARED_IMAGES && Item(Egress) in SHARED_CONFIGS
    ensures Item(Embedding) !in SHARED_CONFIGS && Item(Egress) !in SHARED_IMAGES
  {
    var k, p := SHARED_IMAGES, SHARED_CONFIGS;
    assert k[0][0] == 'P' && k[1][0] == 'Q' && k[2][0] == 'N' && k[3][1] == 'M' && k[4][1] == 'G';
    assert p[0][6] == 'p' && p[1][6] == 'n' && p[2][6] == 'e';
    assert k[3] == Item(Embedding) && p[2] == Item(Egress);
    assert Item(Egress)[0] == 'i' && Item(Embedding)[0] == 'E';
  }

  /** The list of changes, item by item. */
  lemma ChangedIs(running: Release, candidate: Release)
    ensures OthersSame(running, candidate) ==>
      Changed(running, candidate) == ChangedOf(running, candidate, Embedding) + ChangedOf(running, candidate, Egress)
  {
    hide SameImage, SameConfig, SHARED_IMAGES, SHARED_CONFIGS;
    SharedNames();
    if OthersSame(running, candidate) {
      OneImage(running, candidate, SHARED_IMAGES, Item(Embedding));
      OneConfig(running, candidate, SHARED_CONFIGS, Item(Egress));
    }
  }

  /** Any other change is on the list. */
  lemma OtherChange(running: Release, candidate: Release)
    requires !OthersSame(running, candidate)
    ensures exists item :: item in Changed(running, candidate) && item != Item(Embedding) && item != Item(Egress)
  {
    hide SameImage, SameConfig, SHARED_IMAGES, SHARED_CONFIGS;
    SharedNames();
    if key :| key in SHARED_IMAGES && key != Item(Embedding) && !SameImage(running, candidate, key) {
      ImagesIn(running, candidate, SHARED_IMAGES, key);
      assert key in Changed(running, candidate);
    } else {
      var path :| path in SHARED_CONFIGS && path != Item(Egress) && !SameConfig(running, candidate, path);
      ConfigsIn(running, candidate, SHARED_CONFIGS, path);
      assert path in Changed(running, candidate);
    }
  }

  lemma AuthorizedIsRunning(s: Server, candidate: Release)
    requires Ask(s, Embedding, candidate) == Authorized
    ensures Item(Embedding) in s.running.images
  {
  }

  lemma GateNeedsOthers(s: Server, candidate: Release)
    requires !OthersSame(s.running, candidate)
    ensures !Gate(s, candidate)
  {
    hide SameImage, SameConfig, Ask, OthersSame, Changed, Item, SHARED_IMAGES, SHARED_CONFIGS;
    SharedNames();
    OtherChange(s.running, candidate);
    var changed := Changed(s.running, candidate);
    var i :| 0 <= i < |changed| && changed[i] != Item(Embedding) && changed[i] != Item(Egress);
  }

  lemma GateWithOthers(s: Server, candidate: Release)
    requires OthersSame(s.running, candidate)
    ensures Gate(s, candidate) <==>
      && (Same(s.running, candidate, Embedding) || Ask(s, Embedding, candidate) == Authorized)
      && (Same(s.running, candidate, Egress) || Ask(s, Egress, candidate) == Authorized)
  {
    hide SameImage, SameConfig, Ask, OthersSame, Same, Changed, Item, SHARED_IMAGES, SHARED_CONFIGS;
    SharedNames();
    ChangedIs(s.running, candidate);
    if Ask(s, Embedding, candidate) == Authorized {
      AuthorizedIsRunning(s, candidate);
    }
    var e, g := Item(Embedding), Item(Egress);
    assert [e] + [] == [e] && [] + [g] == [g] && [e] + [g] == [e, g];
    assert [e][0] != [g][0];
  }

  /** The gate opens exactly when everything else is unchanged and each of the two items is
      unchanged or authorized. */
  lemma GateIff(s: Server, candidate: Release)
    ensures Gate(s, candidate) <==>
      && OthersSame(s.running, candidate)
      && (Same(s.running, candidate, Embedding) || Ask(s, Embedding, candidate) == Authorized)
      && (Same(s.running, candidate, Egress) || Ask(s, Egress, candidate) == Authorized)
  {
    hide Gate, OthersSame, Same, Ask;
    if OthersSame(s.running, candidate) {
      GateWithOthers(s, candidate);
    } else {
      GateNeedsOthers(s, candidate);
    }
  }
}
