// The release host's recovery state: the two colour slots, the immutable recovery
// anchors, the anchor index, the baseline registry and the retired area.
//
// Files are canonical records instead of bytes; a path that the code stores inside a
// file (PUBLIC_ENV_FILE, PUBLIC_MAILER_ENV_FILE) is a `Source`.  An anchor's name
// contains the digest of its files, so the types below are mutually recursive: an
// anchor can never name itself.
module ReleaseModel {
  import opened Prelude

  datatype Colour = Blue | Green

  function Other(c: Colour): Colour {
    if c == Blue then Green else Blue
  }

  function ColourName(c: Colour): string {
    match c case Blue => "blue" case Green => "green"
  }

  datatype Leaf = PublicEnv | MailerEnv

  /** Where an environment file says its settings live. */
  datatype Source =
    | Trusted(path: string)
    | InAnchor(anchor: AnchorId, leaf: Leaf)
    | Untrusted(path: string)

  /** A compose environment: plain fields, and the pointers to the public and mailer settings. */
  datatype Environment = Environment(values: map<string, string>, settings: map<Leaf, Source>)

  /** The signed frontend a release selects. */
  datatype Frontend = Frontend(track: string, version: string, bundle: string)

  /** A release manifest; image coordinates are joined to `image@digest` references. */
  datatype Manifest = Manifest(commit: string, appVersion: string, application: string, embedding: string,
                               frontend: Option<Frontend>)

  datatype Binding = Binding(commit: string, colour: string, root: string, hashes: map<string, Sha256<string>>)

  /** The files an anchor captures, and their digests as anchor.json lists them. */
  datatype Files = Files(marker: seq<string>, manifest: Manifest, config: Binding, environment: Environment,
                         settings: map<Leaf, string>)

  datatype Hashes = Hashes(marker: Sha256<seq<string>>, manifest: Sha256<Manifest>, config: Sha256<Binding>,
                           environment: Sha256<Environment>, settings: map<Leaf, Sha256<string>>)

  /** The digest of the list of file digests, again injective by construction. */
  datatype Identity = IdentityOf(hashes: Hashes)

  datatype AnchorId = AnchorId(commit: string, identity: Identity)

  datatype Metadata = Metadata(releaseId: AnchorId, commit: string, colour: string,
                               application: string, embedding: string, hashes: Hashes)

  /** An entry of releases/anchors or of retired/anchors.  The legacy baseline's own
      field-by-field validation is reduced to the flag `intact`. */
  datatype Name = Id(id: AnchorId) | LegacyBaseline
  datatype Dir = Anchor(meta: Metadata, files: Files) | LegacyDir(references: set<string>, intact: bool)

  datatype Index = Index(active: AnchorId, colours: map<Colour, AnchorId>)

  datatype Baseline = Baseline(id: AnchorId, appVersion: string, commit: string, markedAt: int)
  datatype Registry = Registry(active: seq<Baseline>, retirable: seq<Baseline>)

  /** One colour's files; any of them may be missing. */
  datatype Slot = Slot(environment: Option<Environment>, manifest: Option<Manifest>, config: Option<Binding>,
                       marker: Option<seq<string>>, stageReceipt: Option<seq<string>>)

  datatype Host = Host(
    slots: map<Colour, Slot>,
    activeColour: string, current: seq<string>, currentManifest: Manifest, currentConfig: Binding,
    runtime: Environment,
    settings: map<string, string>,
    configurations: map<string, map<string, string>>,
    anchors: map<Name, Dir>, retired: map<Name, Dir>,
    index: Option<Index>, registry: Registry)

  datatype Active = Active(colour: Colour, commit: string, image: string)

  function SlotOf(h: Host, c: Colour): Slot {
    if c in h.slots then h.slots[c] else Slot(None, None, None, None, None)
  }

  function Get(values: map<string, string>, key: string): Option<string> {
    if key in values then Some(values[key]) else None
  }

  function ConfigurationRoot(commit: string): string {
    "releases/configurations/" + commit
  }

  function HashFiles(f: Files): Hashes {
    Hashes(Sha256(f.marker), Sha256(f.manifest), Sha256(f.config), Sha256(f.environment),
           map leaf | leaf in f.settings :: Sha256(f.settings[leaf]))
  }

  /** The colour, commit and image of the running release, when marker, manifest and
      environment agree. */
  function ActiveRelease(h: Host): Option<Active> {
    if |h.current| == 4 && h.activeColour in {"blue", "green"} && h.current[0] == h.activeColour &&
       IsCommit(h.current[1]) && IsImageDigest(h.current[2]) && IsImageDigest(h.current[3]) &&
       h.currentManifest.commit == h.current[1] && h.currentManifest.application == h.current[2] &&
       Get(h.runtime.values, "PUBLIC_API_IMAGE") == Some(h.current[2])
    then Some(Active(if h.activeColour == "blue" then Blue else Green, h.current[1], h.current[2]))
    else None
  }

  predicate VerifyAnchor(id: AnchorId, d: Dir) {
    d.Anchor? && d.meta.releaseId == id && d.meta.hashes == HashFiles(d.files) &&
    id == AnchorId(d.meta.commit, IdentityOf(d.meta.hashes))
  }

  predicate VerifyNamed(n: Name, d: Dir) {
    match n
    case Id(id) => VerifyAnchor(id, d)
    case LegacyBaseline => d.LegacyDir? && d.intact
  }

  predicate InstalledAnchor(h: Host, id: AnchorId) {
    Id(id) in h.anchors && VerifyAnchor(id, h.anchors[Id(id)])
  }

  /** Text behind a settings pointer; None when it is outside the trusted roots or missing. */
  function ReadSource(h: Host, s: Source): Option<string> {
    match s
    case Trusted(path) => Get(h.settings, path)
    case Untrusted(_) => None
    case InAnchor(id, leaf) =>
      if Id(id) in h.anchors && h.anchors[Id(id)].Anchor? then
        var files := h.anchors[Id(id)].files;
        if leaf in files.settings then Some(files.settings[leaf]) else None
      else None
  }

  /** Every settings pointer of the environment can be followed. */
  predicate Readable(h: Host, env: Environment) {
    forall leaf | leaf in env.settings :: ReadSource(h, env.settings[leaf]).Some?
  }
}
