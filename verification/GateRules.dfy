// The shared-dependency gate in plain terms: names, file texts and digests.
module GateRules {
  import opened Prelude
  import opened FieldFiles
  import opened SharedGate

  // --------------------------------------------------------------------------- unchanged

  predicate EqualImage(running: Release, candidate: Release, key: string) {
    && key in running.images && key in candidate.images && running.images[key] == candidate.images[key]
    && IsImageDigest(running.images[key])
  }

  predicate EqualConfig(running: Release, candidate: Release, path: string) {
    && path in running.hashes && path in candidate.hashes && running.hashes[path] == candidate.hashes[path]
    && |running.hashes[path]| == 64 && HexDigits(running.hashes[path])
  }

  lemma ImageIff(running: Release, candidate: Release, key: string)
    ensures SameImage(running, candidate, key) <==> EqualImage(running, candidate, key)
  {
    hide IsImageDigest;
  }

  lemma ConfigIff(running: Release, candidate: Release, path: string)
    ensures SameConfig(running, candidate, path) <==> EqualConfig(running, candidate, path)
  {
    if path in running.hashes {
      IdentifierIff(running.hashes[path]);
    }
    hide IsSha256Hex, HexDigits;
  }

  /** The four other shared images and the two other shared files must be there, well formed
      and equal in both releases. */
  lemma OthersSameIff(running: Release, candidate: Release)
    ensures OthersSame(running, candidate) <==>
      && EqualImage(running, candidate, "POSTGRES_IMAGE") && EqualImage(running, candidate, "QDRANT_IMAGE")
      && EqualImage(running, candidate, "NEO4J_IMAGE") && EqualImage(running, candidate, "EGRESS_PROXY_IMAGE")
      && EqualConfig(running, candidate, "infra/postgres/postgresql.conf")
      && EqualConfig(running, candidate, "infra/neo4j-entrypoint.sh")
  {
    hide SameImage, SameConfig, EqualImage, EqualConfig;
    var k, p := SHARED_IMAGES, SHARED_CONFIGS;
    assert k[0] == "POSTGRES_IMAGE" && k[1] == "QDRANT_IMAGE" && k[2] == "NEO4J_IMAGE" && k[3] == "EMBEDDING_IMAGE" && k[4] == "EGRESS_PROXY_IMAGE";
    assert p[0] == "infra/postgres/postgresql.conf" && p[1] == "infra/neo4j-entrypoint.sh" && p[2] == "infra/egress-squid.conf";
    SharedNames();
    forall key ensures SameImage(running, candidate, key) <==> EqualImage(running, candidate, key) {
      ImageIff(running, candidate, key);
    }
    forall path ensures SameConfig(running, candidate, path) <==> EqualConfig(running, candidate, path) {
      ConfigIff(running, candidate, path);
    }
    assert forall key :: key in k <==> key == k[0] || key == k[1] || key == k[2] || key == k[3] || key == k[4];
    assert forall path :: path in p <==> path == p[0] || path == p[1] || path == p[2];
  }

  lemma SameIff(running: Release, candidate: Release)
    ensures Same(running, candidate, Embedding) <==> EqualImage(running, candidate, "EMBEDDING_IMAGE")
    ensures Same(running, candidate, Egress) <==> EqualConfig(running, candidate, "infra/egress-squid.conf")
  {
    ImageIff(running, candidate, "EMBEDDING_IMAGE");
    ConfigIff(running, candidate, "infra/egress-squid.conf");
    hide SameImage, SameConfig, EqualImage, EqualConfig;
  }

  // ------------------------------------------------------------------------------- grants

  lemma RenderOne(f: Field, rest: seq<Field>)
    ensures Render([f] + rest) == f.key + "=" + f.value + "\n" + Render(rest)
  {
    assert ([f] + rest)[1..] == rest;
    assert Line(f) + ['\n'] == f.key + "=" + f.value + "\n";
  }

  lemma RenderFive(a: Field, b: Field, c: Field, d: Field, e: Field)
    ensures Render([a, b, c, d, e]) ==
      a.key + "=" + a.value + "\n" + (b.key + "=" + b.value + "\n" + (c.key + "=" + c.value + "\n"
      + (d.key + "=" + d.value + "\n" + (e.key + "=" + e.value + "\n" + ""))))
  {
    hide Render;
    assert Render([]) == "" by { RenderNone(); }
    assert [a, b, c, d, e] == [a] + [b, c, d, e] && [b, c, d, e] == [b] + [c, d, e] && [c, d, e] == [c] + [d, e];
    assert [d, e] == [d] + [e] && [e] == [e] + [];
    RenderOne(a, [b, c, d, e]);
    RenderOne(b, [c, d, e]);
    RenderOne(c, [d, e]);
    RenderOne(d, [e]);
    RenderOne(e, []);
  }

  lemma RenderNone()
    ensures Render([]) == ""
  {
  }

  /** What a grant file says, byte by byte. */
  lemma GrantText(g: Grant)
    ensures Render(GrantFields(g)) ==
      match g.kind
      case Embedding =>
        "schema" + "=" + "project-snow-embedding-swap-1" + "\n" + ("from" + "=" + g.from + "\n" + ("to" + "=" + g.to + "\n"
        + ("approved_at" + "=" + g.at + "\n" + ("probe_sha256" + "=" + g.proof + "\n" + ""))))
      case Egress =>
        "schema" + "=" + "project-snow-egress-swap-1" + "\n" + ("from_sha256" + "=" + g.from + "\n" + ("to_sha256" + "=" + g.to + "\n"
        + ("approved_at" + "=" + g.at + "\n" + ("parse_ok" + "=" + g.proof + "\n" + ""))))
  {
    hide Render;
    var f := GrantFields(g);
    RenderFive(f[0], f[1], f[2], f[3], f[4]);
  }

  /** An embedding grant is filed under the digest of the image that it leads to, whatever
      the repository; an egress grant under the digest of the file. */
  lemma FileNameIs(name: string, digest: string)
    requires |digest| == 64
    ensures IsImageDigest(name + "@sha256:" + digest) ==> FileName(Embedding, name + "@sha256:" + digest) == digest + ".env"
    ensures IsSha256Hex(digest) ==> FileName(Egress, digest) == digest + ".env"
  {
    var reference := name + "@sha256:" + digest;
    assert reference[|reference| - 64..] == digest;
  }

  /** The file of an embedding grant that lets this swap through. */
  predicate EmbeddingGrant(fields: map<string, string>, from: string, to: string) {
    && fields.Keys == {"schema", "from", "to", "approved_at", "probe_sha256"}
    && fields["schema"] == "project-snow-embedding-swap-1" && fields["from"] == from && fields["to"] == to
    && IsImageDigest(from) && IsImageDigest(to) && |fields["probe_sha256"]| == 64 && HexDigits(fields["probe_sha256"])
  }

  /** The file of an egress grant that lets this swap through. */
  predicate EgressGrant(fields: map<string, string>, from: string, to: string) {
    && fields.Keys == {"schema", "from_sha256", "to_sha256", "approved_at", "parse_ok"}
    && fields["schema"] == "project-snow-egress-swap-1" && fields["from_sha256"] == from && fields["to_sha256"] == to
    && |from| == |to| == 64 && HexDigits(from) && HexDigits(to) && fields["parse_ok"] == "true"
  }

  lemma EmbeddingNamesIff(fields: map<string, string>, from: string, to: string)
    ensures Names(Embedding, fields, from, to) <==> EmbeddingGrant(fields, from, to)
  {
    hide IsImageDigest, HexDigits, IsSha256Hex;
    if "probe_sha256" in fields {
      IdentifierIff(fields["probe_sha256"]);
    }
  }

  lemma EgressNamesIff(fields: map<string, string>, from: string, to: string)
    ensures Names(Egress, fields, from, to) <==> EgressGrant(fields, from, to)
  {
    hide HexDigits, IsSha256Hex;
    IdentifierIff(from);
    IdentifierIff(to);
  }

  /** A swap is authorized exactly when the directory holds, under the name of the
      destination, a grant of the right schema and fields for just this swap. */
  lemma AuthorizedIff(s: Server, candidate: Release)
    ensures var from, to := Reference(s.running, Embedding), Reference(candidate, Embedding);
      Ask(s, Embedding, candidate) == Authorized <==>
        && s.embedding.Some? && IsImageDigest(to) && FileName(Embedding, to) in s.embedding.value
        && var fields := Parse(Lower, s.embedding.value[FileName(Embedding, to)]); fields.Some? && EmbeddingGrant(fields.value, from, to)
    ensures var from, to := Reference(s.running, Egress), Reference(candidate, Egress);
      Ask(s, Egress, candidate) == Authorized <==>
        && s.egress.Some? && IsSha256Hex(to) && FileName(Egress, to) in s.egress.value
        && var fields := Parse(Lower, s.egress.value[FileName(Egress, to)]); fields.Some? && EgressGrant(fields.value, from, to)
  {
    forall fields, from, to
      ensures Names(Embedding, fields, from, to) <==> EmbeddingGrant(fields, from, to)
      ensures Names(Egress, fields, from, to) <==> EgressGrant(fields, from, to)
    {
      EmbeddingNamesIff(fields, from, to);
      EgressNamesIff(fields, from, to);
    }
    hide Parse, Names, EmbeddingGrant, EgressGrant, IsImageDigest, IsSha256Hex;
  }

  /** What a release names for the two items; a missing entry reads as nothing. */
  lemma ReferenceIs(r: Release)
    ensures Reference(r, Embedding) == if "EMBEDDING_IMAGE" in r.images then r.images["EMBEDDING_IMAGE"] else ""
    ensures Reference(r, Egress) == if "infra/egress-squid.conf" in r.hashes then r.hashes["infra/egress-squid.conf"] else ""
  {
  }
}
