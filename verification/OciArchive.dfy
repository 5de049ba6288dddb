/** The Archive object: the same walk with mutable counters and a memo for expanded layers. */
module OciArchive {
  import opened Common
  import opened OciGraph

  const CHUNK := 1024 * 1024

  /** A failed count stays failed. */
  lemma {:induction false} VisitAllStaysNone(input: Input, st: State, ds: seq<Descriptor>, i: nat, count: nat,
                                             depth: nat)
    requires i <= count <= |ds| && depth <= 9 && VisitAll(input, st, ds, i, depth) == None
    ensures VisitAll(input, st, ds, count, depth) == None
  {
    if i < count {
      VisitAllStaysNone(input, st, ds, i, count - 1, depth);
    }
  }

  lemma {:induction false} LayersStayNone(input: Input, rootfs: nat, layers: seq<Descriptor>, diffIds: seq<string>,
                                          i: nat, count: nat)
    requires i <= count <= |layers| == |diffIds|
    requires forall k :: 0 <= k < |layers| ==> layers[k].digest in input.blobs
    requires Layers(input, rootfs, layers, diffIds, i) == None
    ensures Layers(input, rootfs, layers, diffIds, count) == None
  {
    if i < count {
      LayersStayNone(input, rootfs, layers, diffIds, i, count - 1);
    }
  }

  lemma {:induction false} StatementsStayNone(input: Input, metadata: nat, layers: seq<Descriptor>, subject: Key,
                                              i: nat, count: nat)
    requires i <= count <= |layers| && ReadStatements(input, metadata, layers, subject, i) == None
    ensures ReadStatements(input, metadata, layers, subject, count) == None
  {
    if i < count {
      StatementsStayNone(input, metadata, layers, subject, i, count - 1);
    }
  }

  class Archive {
    const input: Input
    var visited: nat
    var metadataBytes: nat
    var rootfsBytes: nat
    var leaves: seq<Descriptor>
    var images: seq<Image>
    var attestations: seq<Attested>
    var layerIdentities: map<(string, Media), (string, nat)>

    ghost function Abstract(): State
      reads this
    {
      State(visited, metadataBytes, rootfsBytes, leaves, images, attestations)
    }

    /** The memo holds what recomputing would give, and the root filesystem is within its budget. */
    ghost predicate Coherent()
      reads this
    {
      rootfsBytes <= MAX_ROOTFS_BYTES && forall key :: key in layerIdentities ==>
                      && key.0 in input.blobs && input.expand(key.1, input.blobs[key.0]).Some?
                      && var content := input.expand(key.1, input.blobs[key.0]).value;
                         |content| <= MAX_LAYER_BYTES && layerIdentities[key] == (input.sha(content), |content|)
    }

    constructor (input: Input, metadata: nat)
      ensures this.input == input && Coherent() && Abstract() == START.(metadata := metadata)
    {
      this.input := input;
      visited, metadataBytes, rootfsBytes := 0, metadata, 0;
      leaves, images, attestations := [], [], [];
      layerIdentities := map[];
    }

    method ReadJson(digest: string, maxBytes: nat) returns (r: Outcome<Document>)
      modifies this`metadataBytes
      ensures r.Returned? <==> OciGraph.ReadJson(input, old(metadataBytes), digest, maxBytes).Some?
      ensures r.Returned? ==>
                OciGraph.ReadJson(input, old(metadataBytes), digest, maxBytes).value == Read(r.value, metadataBytes)
    {
      if digest !in input.blobs { return Raised; }
      var raw := input.blobs[digest];
      if !(0 < |raw| <= maxBytes) { return Raised; }
      metadataBytes := metadataBytes + |raw|;
      if metadataBytes > MAX_JSON_TOTAL { return Raised; }
      var doc := input.parse(raw);
      r := if doc.Some? then Returned(doc.value) else Raised;
    }

    method Blob(d: Option<Descriptor>, media: set<Media>) returns (r: Outcome<Document>)
      modifies this`metadataBytes
      ensures r.Returned? <==> ReadBlob(input, old(metadataBytes), d, media).Some?
      ensures r.Returned? ==> ReadBlob(input, old(metadataBytes), d, media).value == Read(r.value, metadataBytes)
    {
      if d.None? || !ValidBlob(input, d.value, media) { return Raised; }
      r := ReadJson(d.value.digest, MAX_JSON);
    }

    /** layer_digest: the memo returns and charges exactly what expanding the layer again would. */
    method LayerDigest(layer: Descriptor) returns (r: Outcome<string>)
      requires Coherent() && layer.digest in input.blobs
      modifies this`rootfsBytes, this`layerIdentities
      ensures r.Returned? ==> Coherent()
      ensures r.Returned? <==> OciGraph.LayerDigest(input, old(rootfsBytes), layer).Some?
      ensures r.Returned? ==>
                OciGraph.LayerDigest(input, old(rootfsBytes), layer).value == LayerRead(r.value, rootfsBytes)
    {
      var key := (layer.digest, layer.media);
      if key in layerIdentities {
        var (checked, size) := layerIdentities[key];
        rootfsBytes := rootfsBytes + size;
        if rootfsBytes > MAX_ROOTFS_BYTES { return Raised; }
        return Returned(checked);
      }
      var expanded := input.expand(layer.media, input.blobs[layer.digest]);
      if expanded.None? { return Raised; }
      var content := expanded.value;
      var digest: Bytes := [];
      var size: nat := 0;
      while size < |content|
        invariant size <= |content| && digest == content[..size]
        invariant size > 0 ==> size <= MAX_LAYER_BYTES && rootfsBytes + size <= MAX_ROOTFS_BYTES
      {
        var chunk := content[size..Min(|content|, size + CHUNK)];
        size := size + |chunk|;
        if size > MAX_LAYER_BYTES || rootfsBytes + size > MAX_ROOTFS_BYTES { return Raised; }
        digest := digest + chunk;
      }
      TakeAll(content);
      rootfsBytes := rootfsBytes + size;
      layerIdentities := layerIdentities[key := (input.sha(digest), size)];
      r := Returned(input.sha(digest));
    }

    method CheckLayers(layers: seq<Descriptor>, diffIds: seq<string>) returns (ok: bool)
      requires Coherent() && |layers| == |diffIds|
      requires forall i :: 0 <= i < |layers| ==> layers[i].digest in input.blobs
      modifies this`rootfsBytes, this`layerIdentities
      ensures ok ==> Coherent()
      ensures ok <==> Layers(input, old(rootfsBytes), layers, diffIds, |layers|).Some?
      ensures ok ==> Layers(input, old(rootfsBytes), layers, diffIds, |layers|) == Some(rootfsBytes)
    {
      ghost var start := rootfsBytes;
      for i := 0 to |layers|
        invariant Coherent()
        invariant Layers(input, start, layers, diffIds, i) == Some(rootfsBytes)
      {
        var digest := LayerDigest(layers[i]);
        if digest != Returned(diffIds[i]) {
          LayersStayNone(input, start, layers, diffIds, i + 1, |layers|);
          return false;
        }
      }
      ok := true;
    }

    method VisitImage(d: Descriptor, doc: Document) returns (ok: bool)
      requires Coherent()
      modifies this
      ensures ok ==> Coherent()
      ensures ok <==> OciGraph.VisitImage(input, old(Abstract()), d, doc).Some?
      ensures ok ==> OciGraph.VisitImage(input, old(Abstract()), d, doc) == Some(Abstract())
    {
      var details := Blob(doc.config, {CONFIG});
      if details.Raised? || !ImageShape(input, d, doc, details.value) { return false; }
      ok := CheckLayers(doc.layers.value, details.value.diffIds.value);
      if !ok { return; }
      images := images + [Image(KeyOf(d), doc.config.value.digest)];
    }

    method Subject(d: Descriptor, doc: Document) returns (r: Outcome<Key>)
      modifies this`metadataBytes
      ensures r.Returned? <==> AttestationSubject(input, old(Abstract()), d, doc).Some?
      ensures r.Returned? ==> AttestationSubject(input, old(Abstract()), d, doc) == Some((r.value, metadataBytes))
    {
      var reference := Annotation(d, REFERENCE_DIGEST);
      if doc.artifactType.Some? {
        var details := Blob(doc.config, {EMPTY_CONFIG});
        if details.Raised? || doc.artifactType != Some(ATTESTATION) || d.artifactType !in {None, Some(ATTESTATION)} {
          return Raised;
        }
        if !details.value.blank || doc.config.value.size != 2 || doc.config.value.digest != input.sha([0x7b, 0x7d]) {
          return Raised;
        }
        if doc.subject.None? || !ValidBlob(input, doc.subject.value, {MANIFEST}) { return Raised; }
        if !SubjectPlatform(input, doc.subject.value) || reference !in {None, Some(doc.subject.value.digest)} {
          return Raised;
        }
        r := Returned(KeyOf(doc.subject.value));
      } else {
        if d.artifactType.Some? || doc.subject.Some? { return Raised; }
        var details := Blob(doc.config, {CONFIG});
        if details.Raised? || !(details.value.platform.os == details.value.platform.architecture == Some("unknown")) {
          return Raised;
        }
        if reference.None? || !ValidDigest(reference.value) || reference.value !in input.blobs { return Raised; }
        r := Returned(Key(MANIFEST, reference.value, |input.blobs[reference.value]|));
      }
    }

    method StatementTypes(layers: seq<Descriptor>, subject: Key) returns (r: Outcome<set<string>>)
      modifies this`metadataBytes
      ensures r.Returned? <==> ReadStatements(input, old(metadataBytes), layers, subject, |layers|).Some?
      ensures r.Returned? ==> ReadStatements(input, old(metadataBytes), layers, subject, |layers|)
                              == Some(Statements(metadataBytes, r.value))
    {
      ghost var start := metadataBytes;
      var types: set<string> := {};
      for i := 0 to |layers|
        invariant ReadStatements(input, start, layers, subject, i) == Some(Statements(metadataBytes, types))
      {
        var statement: Outcome<Document> := Raised;
        if ValidBlob(input, layers[i], {IN_TOTO}) {
          statement := ReadJson(layers[i].digest, MAX_ATTESTATION_JSON);
        }
        if statement.Raised? || !StatementNames(statement.value, subject) {
          StatementsStayNone(input, start, layers, subject, i + 1, |layers|);
          return Raised;
        }
        types := types + {statement.value.statement.value.predicateType};
      }
      r := Returned(types);
    }

    method VisitAttestation(d: Descriptor, doc: Document) returns (ok: bool)
      requires Coherent()
      modifies this`metadataBytes, this`attestations
      ensures Coherent()
      ensures ok <==> OciGraph.VisitAttestation(input, old(Abstract()), d, doc).Some?
      ensures ok ==> OciGraph.VisitAttestation(input, old(Abstract()), d, doc) == Some(Abstract())
    {
      if !AttestationPlatform(d) { return false; }
      var subject := Subject(d, doc);
      if subject.Raised? || doc.layers.None? || !(0 < |doc.layers.value| <= 4096) { return false; }
      var types := StatementTypes(doc.layers.value, subject.value);
      if types.Raised? { return false; }
      attestations := attestations + [Attested(d.digest, subject.value, types.value)];
      ok := true;
    }

    method VisitLeaf(d: Descriptor, doc: Document) returns (ok: bool)
      requires Coherent()
      modifies this
      ensures ok ==> Coherent()
      ensures ok <==> OciGraph.VisitLeaf(input, old(Abstract()), d, doc).Some?
      ensures ok ==> OciGraph.VisitLeaf(input, old(Abstract()), d, doc) == Some(Abstract())
    {
      if IsAttestation(d, doc) {
        ok := VisitAttestation(d, doc);
      } else {
        ok := PlainImage(d, doc);
        if ok { ok := VisitImage(d, doc); }
      }
      if !ok { return; }
      ok := !HasLeaf(leaves, d.digest);
      if ok { leaves := leaves + [d]; }
    }

    method WalkIndex(doc: Document, depth: nat) returns (ok: bool)
      requires Coherent() && depth <= 9
      modifies this
      ensures ok ==> Coherent()
      ensures ok <==> VisitIndex(input, old(Abstract()), doc, depth).Some?
      ensures ok ==> VisitIndex(input, old(Abstract()), doc, depth) == Some(Abstract())
      decreases 9 - depth, 1
    {
      if !IndexShape(doc) { return false; }
      var children := doc.manifests.value;
      ghost var start := Abstract();
      for i := 0 to |children|
        invariant Coherent()
        invariant VisitAll(input, start, children, i, depth) == Some(Abstract())
      {
        ok := Walk(children[i], depth);
        if !ok {
          VisitAllStaysNone(input, start, children, i + 1, |children|, depth);
          return;
        }
      }
      ok := true;
    }

    method Walk(d: Descriptor, depth: nat) returns (ok: bool)
      requires Coherent() && depth <= 9
      modifies this
      ensures ok ==> Coherent()
      ensures ok <==> Visit(input, old(Abstract()), d, depth).Some?
      ensures ok ==> Visit(input, old(Abstract()), d, depth) == Some(Abstract())
      decreases 9 - depth, 0
    {
      visited := visited + 1;
      if depth > 8 || visited > 1024 { return false; }
      var data := Blob(Some(d), {INDEX, MANIFEST});
      if data.Raised? || data.value.schemaVersion != Some(2) || data.value.mediaType !in {None, Some(d.media)} {
        return false;
      }
      if d.media == INDEX {
        ok := WalkIndex(data.value, depth + 1);
      } else {
        ok := VisitLeaf(d, data.value);
      }
    }

    /** The whole opening of an archive: accepted, with the same outcome, exactly when the plain recursion accepts. */
    method OpenGraph(root: Document) returns (ok: bool)
      requires Coherent() && Abstract() == START.(metadata := metadataBytes)
      modifies this
      ensures ok <==> Open(input, old(metadataBytes), root).Some?
      ensures ok ==> Open(input, old(metadataBytes), root) == Some(Abstract()) && rootfsBytes <= MAX_ROOTFS_BYTES
    {
      ok := WalkIndex(root, 0);
      if !ok { return; }
      ok := |images| == 1 && forall i :: 0 <= i < |attestations| ==> attestations[i].subject == images[0].descriptor;
    }
  }

  // ----- the root filesystem budget ----------------------------------------------------

  function ExpandedSize(input: Input, layer: Descriptor): nat
    requires layer.digest in input.blobs
  {
    match input.expand(layer.media, input.blobs[layer.digest])
    case None => 0
    case Some(content) => |content|
  }

  function TotalExpanded(input: Input, layers: seq<Descriptor>, count: nat): nat
    requires count <= |layers|
    requires forall i :: 0 <= i < |layers| ==> layers[i].digest in input.blobs
  {
    if count == 0 then 0 else TotalExpanded(input, layers, count - 1) + ExpandedSize(input, layers[count - 1])
  }

  /** The charge is the expanded size of every layer occurrence, repeats included, and stays within the budget. */
  lemma {:induction false} EveryOccurrenceIsCharged(input: Input, rootfs: nat, layers: seq<Descriptor>,
                                                    diffIds: seq<string>, count: nat)
    requires count <= |layers| == |diffIds| && rootfs <= MAX_ROOTFS_BYTES
    requires forall i :: 0 <= i < |layers| ==> layers[i].digest in input.blobs
    requires Layers(input, rootfs, layers, diffIds, count).Some?
    ensures Layers(input, rootfs, layers, diffIds, count).value == rootfs + TotalExpanded(input, layers, count)
    ensures rootfs + TotalExpanded(input, layers, count) <= MAX_ROOTFS_BYTES
    ensures forall i :: 0 <= i < count ==>
                          && input.expand(layers[i].media, input.blobs[layers[i].digest]).Some?
                          && input.sha(input.expand(layers[i].media, input.blobs[layers[i].digest]).value) == diffIds[i]
  {
    if count > 0 {
      EveryOccurrenceIsCharged(input, rootfs, layers, diffIds, count - 1);
    }
  }
}
