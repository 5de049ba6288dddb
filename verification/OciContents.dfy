/** What an opened archive holds, field by field: its image, its attestations, and what they must agree in. */
module OciContents {
  import opened Common
  import opened OciGraph
  import opened OciTree

  // ----- blobs and documents -----------------------------------------------------------

  predicate LowerHex(s: string) {
    forall i :: 0 <= i < |s| ==> '0' <= s[i] <= '9' || 'a' <= s[i] <= 'f'
  }

  ghost predicate IsDigest(digest: string) {
    exists hex :: digest == "sha256:" + hex && |hex| == 64 && LowerHex(hex)
  }

  lemma DigestShape(digest: string)
    ensures ValidDigest(digest) <==> IsDigest(digest)
  {
    if ValidDigest(digest) {
      var hex := digest[7..];
      assert digest == digest[..7] + hex;
    }
    if IsDigest(digest) {
      var hex :| digest == "sha256:" + hex && |hex| == 64 && LowerHex(hex);
      assert digest[..7] == "sha256:" && forall i :: 7 <= i < 71 ==> digest[i] == hex[i - 7];
    }
  }

  /** The inventory holds every blob under its own hash. */
  lemma InventoryMeans(input: Input)
    ensures Inventoried(input)
       <==> forall digest :: digest in input.blobs ==>
              IsDigest(digest) && input.sha(input.blobs[digest]) == digest
  {
    forall digest | digest in input.blobs
      ensures ValidDigest(digest) <==> IsDigest(digest)
    {
      DigestShape(digest);
    }
  }

  /** The descriptor names a blob of the archive, of its size, and nothing outside it. */
  ghost predicate Held(input: Input, d: Descriptor) {
    && IsDigest(d.digest) && d.digest in input.blobs && |input.blobs[d.digest]| == d.size && !d.urls
    && (d.data.Some? ==> d.media == EMPTY_CONFIG && d.data.value == "e30=")
  }

  /** The descriptor names a blob that parses to this document. */
  ghost predicate Holds(input: Input, d: Descriptor, doc: Document) {
    Held(input, d) && input.parse(input.blobs[d.digest]) == Some(doc)
  }

  lemma ValidIsHeld(input: Input, d: Descriptor, media: set<Media>)
    requires ValidBlob(input, d, media)
    ensures Held(input, d) && d.media in media
  {
    DigestShape(d.digest);
  }

  // ----- images ------------------------------------------------------------------------

  /** A layer expands to content of its diff ID. */
  ghost predicate LayerIs(input: Input, layer: Descriptor, diffId: string) {
    && Held(input, layer) && (layer.media == LAYER_TAR || layer.media == LAYER_GZIP || layer.media == LAYER_ZSTD)
    && IsDigest(diffId)
    && match input.expand(layer.media, input.blobs[layer.digest])
       case None => false
       case Some(content) => |content| <= 8589934592 && input.sha(content) == diffId
  }

  /** The config of an image: the input's version and revision as labels, and the descriptor's platform. */
  ghost predicate ConfigIs(input: Input, d: Descriptor, details: Document) {
    && details.labels.Some?
    && "org.opencontainers.image.version" in details.labels.value
    && details.labels.value["org.opencontainers.image.version"] == input.version
    && "org.opencontainers.image.revision" in details.labels.value
    && details.labels.value["org.opencontainers.image.revision"] == input.revision
    && d.platform.Some?
    && d.platform.value.os == Some(input.os) && details.platform.os == Some(input.os)
    && d.platform.value.architecture == Some(input.architecture)
    && details.platform.architecture == Some(input.architecture)
    && VariantFits(input.architecture, d.platform.value.variant)
    && VariantFits(input.architecture, details.platform.variant)
    && !d.platform.value.requirements && !details.platform.requirements
  }

  predicate VariantFits(architecture: string, variant: Option<string>) {
    variant.Some? ==> architecture == "arm64" && variant.value == "v8"
  }

  /** A runnable image: its manifest, its config, and every layer with the diff ID that the config has for it. */
  ghost predicate ImageIs(input: Input, d: Descriptor, doc: Document, config: string) {
    && d.artifactType.None? && doc.artifactType.None? && doc.subject.None?
    && "vnd.docker.reference.type" !in d.annotations
    && doc.config.Some? && doc.config.value.media == CONFIG && doc.config.value.digest == config
    && Held(input, doc.config.value) && input.parse(input.blobs[config]).Some?
    && var details := input.parse(input.blobs[config]).value;
       && ConfigIs(input, d, details)
       && doc.layers.Some? && details.diffIds.Some? && |doc.layers.value| == |details.diffIds.value| <= 4096
       && forall k :: 0 <= k < |doc.layers.value| ==> LayerIs(input, doc.layers.value[k], details.diffIds.value[k])
  }

  lemma {:induction false} LayersAre(input: Input, rootfs: nat, layers: seq<Descriptor>, diffIds: seq<string>,
                                     count: nat)
    requires count <= |layers| == |diffIds|
    requires forall i :: 0 <= i < |layers| ==> ValidBlob(input, layers[i], LAYER_TYPES) && ValidDigest(diffIds[i])
    requires forall i :: 0 <= i < |layers| ==> layers[i].digest in input.blobs
    requires Layers(input, rootfs, layers, diffIds, count).Some?
    ensures forall k :: 0 <= k < count ==> LayerIs(input, layers[k], diffIds[k])
  {
    if count > 0 {
      LayersAre(input, rootfs, layers, diffIds, count - 1);
      ValidIsHeld(input, layers[count - 1], LAYER_TYPES);
      DigestShape(diffIds[count - 1]);
    }
  }

  lemma VisitedImageIs(input: Input, st: State, d: Descriptor, doc: Document)
    requires PlainImage(d, doc) && VisitImage(input, st, d, doc).Some?
    ensures ImageIs(input, d, doc, doc.config.value.digest)
  {
    var details := input.parse(input.blobs[doc.config.value.digest]).value;
    ValidIsHeld(input, doc.config.value, {CONFIG});
    LayersAre(input, st.rootfs, doc.layers.value, details.diffIds.value, |doc.layers.value|);
  }

  // ----- attestations ------------------------------------------------------------------

  /** A layer of an attestation: an in-toto statement of a known type that names the subject. */
  ghost predicate StatementIs(input: Input, layer: Descriptor, subject: string, predicateType: string) {
    && Held(input, layer) && layer.media == IN_TOTO
    && match input.parse(input.blobs[layer.digest])
       case None => false
       case Some(doc) =>
         && doc.statement.Some? && doc.statement.value.known
         && doc.statement.value.predicateType == predicateType && predicateType != ""
         && subject in doc.statement.value.subjects
  }

  lemma {:induction false} StatementsAre(input: Input, metadata: nat, layers: seq<Descriptor>, subject: Key, count: nat)
    requires count <= |layers| && ReadStatements(input, metadata, layers, subject, count).Some?
    ensures var types := ReadStatements(input, metadata, layers, subject, count).value.types;
            && (forall k :: 0 <= k < count ==>
                  exists t :: t in types && StatementIs(input, layers[k], subject.digest, t))
            && (forall t :: t in types ==>
                  exists k :: 0 <= k < count && StatementIs(input, layers[k], subject.digest, t))
  {
    if count > 0 {
      StatementsAre(input, metadata, layers, subject, count - 1);
      var layer := layers[count - 1];
      ValidIsHeld(input, layer, {IN_TOTO});
      var t := input.parse(input.blobs[layer.digest]).value.statement.value.predicateType;
      assert StatementIs(input, layer, subject.digest, t);
    }
  }

  /** How an attestation names its subject: as its subject field, or by an annotation in the older form. */
  ghost predicate SubjectIs(input: Input, d: Descriptor, doc: Document, subject: Key) {
    if doc.artifactType.Some? then
      && doc.artifactType.value == "application/vnd.docker.attestation.manifest.v1+json"
      && (d.artifactType.Some? ==> d.artifactType == doc.artifactType)
      && doc.config.Some? && doc.config.value.media == EMPTY_CONFIG && doc.config.value.size == 2
      && doc.config.value.digest == input.sha([0x7b, 0x7d]) && Held(input, doc.config.value)
      && input.parse(input.blobs[doc.config.value.digest]).Some?
      && input.parse(input.blobs[doc.config.value.digest]).value.blank
      && doc.subject.Some? && Held(input, doc.subject.value) && doc.subject.value.media == MANIFEST
      && subject == Key(MANIFEST, doc.subject.value.digest, doc.subject.value.size)
      && (doc.subject.value.platform.Some? ==>
            && (doc.subject.value.platform.value.os.Some? ==> doc.subject.value.platform.value.os.value == "linux")
            && (doc.subject.value.platform.value.architecture.Some? ==>
                  doc.subject.value.platform.value.architecture.value == input.architecture))
      && ("vnd.docker.reference.digest" in d.annotations ==>
            d.annotations["vnd.docker.reference.digest"] == doc.subject.value.digest)
    else
      && d.artifactType.None? && doc.subject.None?
      && doc.config.Some? && doc.config.value.media == CONFIG && Held(input, doc.config.value)
      && "vnd.docker.reference.digest" in d.annotations
      && subject.media == MANIFEST && subject.digest == d.annotations["vnd.docker.reference.digest"]
      && IsDigest(subject.digest) && subject.digest in input.blobs && subject.size == |input.blobs[subject.digest]|
      && input.parse(input.blobs[doc.config.value.digest]).Some?
      && var details := input.parse(input.blobs[doc.config.value.digest]).value;
         details.platform.os == Some("unknown") && details.platform.architecture == Some("unknown")
  }

  /** An attestation: of unknown platform, with statements that all name the subject. */
  ghost predicate AttestationIs(input: Input, d: Descriptor, doc: Document, subject: Key, types: set<string>) {
    && d.platform.Some?
    && d.platform.value.os == Some("unknown") && d.platform.value.architecture == Some("unknown")
    && ("vnd.docker.reference.type" in d.annotations ==>
          d.annotations["vnd.docker.reference.type"] == "attestation-manifest")
    && SubjectIs(input, d, doc, subject)
    && doc.layers.Some? && 0 < |doc.layers.value| <= 4096
    && (forall k :: 0 <= k < |doc.layers.value| ==>
          exists t :: t in types && StatementIs(input, doc.layers.value[k], subject.digest, t))
    && (forall t :: t in types ==>
          exists k :: 0 <= k < |doc.layers.value| && StatementIs(input, doc.layers.value[k], subject.digest, t))
  }

  lemma NamedSubjectIs(input: Input, st: State, d: Descriptor, doc: Document)
    requires AttestationSubject(input, st, d, doc).Some?
    ensures SubjectIs(input, d, doc, AttestationSubject(input, st, d, doc).value.0)
  {
    if doc.artifactType.Some? {
      ValidIsHeld(input, doc.config.value, {EMPTY_CONFIG});
      ValidIsHeld(input, doc.subject.value, {MANIFEST});
    } else {
      ValidIsHeld(input, doc.config.value, {CONFIG});
      DigestShape(d.annotations[REFERENCE_DIGEST]);
    }
  }

  lemma VisitedAttestationIs(input: Input, st: State, d: Descriptor, doc: Document)
    requires VisitAttestation(input, st, d, doc).Some?
    ensures var after := VisitAttestation(input, st, d, doc).value;
            var a := after.attestations[|st.attestations|];
            && after == st.(metadata := after.metadata, attestations := st.attestations + [a])
            && a.digest == d.digest && AttestationIs(input, d, doc, a.subject, a.predicateTypes)
  {
    NamedSubjectIs(input, st, d, doc);
    var (subject, metadata) := AttestationSubject(input, st, d, doc).value;
    StatementsAre(input, metadata, doc.layers.value, subject, |doc.layers.value|);
  }

  // ----- the whole archive -------------------------------------------------------------

  /** The leaf is recorded for what it is: an attestation by its annotation or its type, an image otherwise. */
  ghost predicate LeafIs(input: Input, d: Descriptor, images: seq<Image>, attestations: seq<Attested>) {
    && Held(input, d) && d.media == MANIFEST && input.parse(input.blobs[d.digest]).Some?
    && var doc := input.parse(input.blobs[d.digest]).value;
       && doc.schemaVersion == Some(2) && (doc.mediaType.Some? ==> doc.mediaType.value == MANIFEST)
       && if || (&& "vnd.docker.reference.type" in d.annotations
                 && d.annotations["vnd.docker.reference.type"] == "attestation-manifest")
             || doc.artifactType == Some("application/vnd.docker.attestation.manifest.v1+json")
          then
            exists a :: a in attestations && a.digest == d.digest
                        && AttestationIs(input, d, doc, a.subject, a.predicateTypes)
          else
            exists m :: m in images && m.descriptor == Key(d.media, d.digest, d.size)
                        && ImageIs(input, d, doc, m.config)
  }

  ghost predicate LeavesAre(input: Input, st: State) {
    forall i :: 0 <= i < |st.leaves| ==> LeafIs(input, st.leaves[i], st.images, st.attestations)
  }

  lemma MoreRecords(input: Input, d: Descriptor, st: State, after: State)
    requires LeafIs(input, d, st.images, st.attestations)
    requires st.images <= after.images && st.attestations <= after.attestations
    ensures LeafIs(input, d, after.images, after.attestations)
  {
    assert forall m :: m in st.images ==> m in after.images;
    assert forall a :: a in st.attestations ==> a in after.attestations;
  }

  /** A new attestation is recorded as what it is. */
  lemma NewAttestationIs(input: Input, st: State, d: Descriptor, doc: Document, after: State)
    requires Held(input, d) && d.media == MANIFEST && input.parse(input.blobs[d.digest]) == Some(doc)
    requires doc.schemaVersion == Some(2) && (doc.mediaType.Some? ==> doc.mediaType.value == MANIFEST)
    requires IsAttestation(d, doc) && VisitAttestation(input, st, d, doc) == Some(after)
    ensures LeafIs(input, d, after.images, after.attestations)
  {
    VisitedAttestationIs(input, st, d, doc);
    assert after.attestations[|st.attestations|] in after.attestations;
  }

  lemma NewImageIs(input: Input, st: State, d: Descriptor, doc: Document, after: State)
    requires Held(input, d) && d.media == MANIFEST && input.parse(input.blobs[d.digest]) == Some(doc)
    requires doc.schemaVersion == Some(2) && (doc.mediaType.Some? ==> doc.mediaType.value == MANIFEST)
    requires !IsAttestation(d, doc) && PlainImage(d, doc) && VisitImage(input, st, d, doc) == Some(after)
    ensures LeafIs(input, d, after.images, after.attestations)
  {
    VisitedImageIs(input, st, d, doc);
    assert after.images[|st.images|] in after.images;
  }

  lemma OneMoreLeaf(input: Input, st: State, d: Descriptor, after: State)
    requires LeavesAre(input, st) && LeafIs(input, d, after.images, after.attestations)
    requires st.images <= after.images && st.attestations <= after.attestations && after.leaves == st.leaves + [d]
    ensures LeavesAre(input, after)
  {
    forall i | 0 <= i < |st.leaves|
      ensures LeafIs(input, after.leaves[i], after.images, after.attestations)
    {
      MoreRecords(input, st.leaves[i], st, after);
    }
  }

  lemma VisitedLeafIs(input: Input, st: State, d: Descriptor, doc: Document, after: State)
    requires ValidBlob(input, d, {INDEX, MANIFEST}) && d.media != INDEX
    requires input.parse(input.blobs[d.digest]) == Some(doc)
    requires doc.schemaVersion == Some(2) && doc.mediaType in {None, Some(d.media)}
    requires VisitLeaf(input, st, d, doc) == Some(after) && LeavesAre(input, st)
    ensures LeavesAre(input, after)
  {
    ValidIsHeld(input, d, {INDEX, MANIFEST});
    if IsAttestation(d, doc) {
      var visited := VisitAttestation(input, st, d, doc).value;
      NewAttestationIs(input, st, d, doc, visited);
      OneMoreLeaf(input, st, d, after);
    } else {
      var visited := VisitImage(input, st, d, doc).value;
      NewImageIs(input, st, d, doc, visited);
      OneMoreLeaf(input, st, d, after);
    }
  }

  /** One accepted step of the walk: the document it read, and where it went on. */
  lemma VisitEnters(input: Input, st: State, d: Descriptor, depth: nat) returns (doc: Document, entered: State)
    requires depth <= 9 && Visit(input, st, d, depth).Some?
    ensures depth <= 8 && ValidBlob(input, d, {INDEX, MANIFEST}) && input.parse(input.blobs[d.digest]) == Some(doc)
    ensures doc.schemaVersion == Some(2) && doc.mediaType in {None, Some(d.media)}
    ensures entered == st.(visited := entered.visited, metadata := entered.metadata)
    ensures d.media == INDEX ==>
              && IndexShape(doc)
              && Visit(input, st, d, depth)
                 == VisitAll(input, entered, doc.manifests.value, |doc.manifests.value|, depth + 1)
    ensures d.media != INDEX ==> Visit(input, st, d, depth) == VisitLeaf(input, entered, d, doc)
  {
    var read := ReadBlob(input, st.metadata, Some(d), {INDEX, MANIFEST}).value;
    doc, entered := read.doc, st.(visited := st.visited + 1, metadata := read.metadata);
  }

  lemma {:induction false} VisitedAllAre(input: Input, st: State, ds: seq<Descriptor>, count: nat, depth: nat)
    requires count <= |ds| && depth <= 9 && VisitAll(input, st, ds, count, depth).Some? && LeavesAre(input, st)
    ensures LeavesAre(input, VisitAll(input, st, ds, count, depth).value)
    decreases 9 - depth, 1, count
  {
    if count > 0 {
      VisitedAllAre(input, st, ds, count - 1, depth);
      VisitedAre(input, VisitAll(input, st, ds, count - 1, depth).value, ds[count - 1], depth);
    }
  }

  lemma {:induction false} VisitedAre(input: Input, st: State, d: Descriptor, depth: nat)
    requires depth <= 9 && Visit(input, st, d, depth).Some? && LeavesAre(input, st)
    ensures LeavesAre(input, Visit(input, st, d, depth).value)
    decreases 9 - depth, 0, 0
  {
    var doc, entered := VisitEnters(input, st, d, depth);
    if d.media == INDEX {
      VisitedAllAre(input, entered, doc.manifests.value, |doc.manifests.value|, depth + 1);
    } else {
      VisitedLeafIs(input, entered, d, doc, VisitLeaf(input, entered, d, doc).value);
    }
  }

  /**
   * Every leaf of an opened archive is what it must be: an image of the input's platform, version and revision whose
   * layers expand to the content of its config's diff IDs, or an attestation whose statements all name its subject.
   */
  lemma OpenedLeavesAre(input: Input, metadata: nat, root: Document)
    requires Open(input, metadata, root).Some?
    ensures LeavesAre(input, Open(input, metadata, root).value)
  {
    var start := START.(metadata := metadata);
    VisitedAllAre(input, start, root.manifests.value, |root.manifests.value|, 0);
  }

  /** Every statement of every attestation names the one image of the archive. */
  lemma StatementsNameTheImage(input: Input, metadata: nat, root: Document, d: Descriptor, k: nat)
    requires Open(input, metadata, root).Some? && d in Open(input, metadata, root).value.leaves
    requires || (&& "vnd.docker.reference.type" in d.annotations
                 && d.annotations["vnd.docker.reference.type"] == "attestation-manifest")
             || (&& d.digest in input.blobs && input.parse(input.blobs[d.digest]).Some?
                 && input.parse(input.blobs[d.digest]).value.artifactType
                    == Some("application/vnd.docker.attestation.manifest.v1+json"))
    requires d.digest in input.blobs && input.parse(input.blobs[d.digest]).Some?
    requires var doc := input.parse(input.blobs[d.digest]).value; doc.layers.Some? && k < |doc.layers.value|
    ensures |Open(input, metadata, root).value.images| == 1
    ensures var image := Open(input, metadata, root).value.images[0].descriptor.digest;
            var layer := input.parse(input.blobs[d.digest]).value.layers.value[k];
            && layer.digest in input.blobs && input.parse(input.blobs[layer.digest]).Some?
            && input.parse(input.blobs[layer.digest]).value.statement.Some?
            && image in input.parse(input.blobs[layer.digest]).value.statement.value.subjects
  {
    var st := Open(input, metadata, root).value;
    OpenedLeavesAre(input, metadata, root);
    var i :| 0 <= i < |st.leaves| && st.leaves[i] == d;
    assert LeafIs(input, st.leaves[i], st.images, st.attestations);
    var a :| a in st.attestations && a.digest == d.digest
             && AttestationIs(input, d, input.parse(input.blobs[d.digest]).value, a.subject, a.predicateTypes);
    var j :| 0 <= j < |st.attestations| && st.attestations[j] == a;
    assert st.attestations[j].subject == st.images[0].descriptor;
  }

  /** The one image: the config that its manifest names has the input's version and revision as labels. */
  lemma OpenedImageIsLabelled(input: Input, metadata: nat, root: Document) returns (details: Document)
    requires Open(input, metadata, root).Some?
    ensures var st := Open(input, metadata, root).value;
            && |st.images| == 1 && st.images[0].config in input.blobs
            && input.parse(input.blobs[st.images[0].config]) == Some(details)
    ensures details.labels.Some?
    ensures "org.opencontainers.image.version" in details.labels.value
    ensures details.labels.value["org.opencontainers.image.version"] == input.version
    ensures "org.opencontainers.image.revision" in details.labels.value
    ensures details.labels.value["org.opencontainers.image.revision"] == input.revision
  {
    var st := Open(input, metadata, root).value;
    OpenedLeavesAre(input, metadata, root);
    var i := AcceptedGraphHasOneImage(input, metadata, root);
    assert LeafIs(input, st.leaves[i], st.images, st.attestations);
    details := input.parse(input.blobs[st.images[0].config]).value;
  }

  // ----- the metadata budget -----------------------------------------------------------

  lemma {:induction false} StatementsAreBounded(input: Input, metadata: nat, layers: seq<Descriptor>, subject: Key,
                                                count: nat)
    requires 0 < count <= |layers| && ReadStatements(input, metadata, layers, subject, count).Some?
    ensures ReadStatements(input, metadata, layers, subject, count).value.metadata <= 32000000
  {
  }

  lemma {:induction false} VisitedAllIsBounded(input: Input, st: State, ds: seq<Descriptor>, count: nat, depth: nat)
    requires 0 < count <= |ds| && depth <= 9 && VisitAll(input, st, ds, count, depth).Some?
    ensures VisitAll(input, st, ds, count, depth).value.metadata <= 32000000
    decreases 9 - depth, 1, count
  {
    var before := VisitAll(input, st, ds, count - 1, depth).value;
    VisitedIsBounded(input, before, ds[count - 1], depth);
  }

  lemma {:induction false} VisitedIsBounded(input: Input, st: State, d: Descriptor, depth: nat)
    requires depth <= 9 && Visit(input, st, d, depth).Some?
    ensures Visit(input, st, d, depth).value.metadata <= 32000000
    decreases 9 - depth, 0, 0
  {
    var doc, entered := VisitEnters(input, st, d, depth);
    if d.media == INDEX {
      VisitedAllIsBounded(input, entered, doc.manifests.value, |doc.manifests.value|, depth + 1);
    } else if IsAttestation(d, doc) {
      var (subject, metadata) := AttestationSubject(input, entered, d, doc).value;
      StatementsAreBounded(input, metadata, doc.layers.value, subject, |doc.layers.value|);
    }
  }

  /** All documents that were read together stay within the budget. */
  lemma OpenedMetadataIsBounded(input: Input, metadata: nat, root: Document)
    requires Open(input, metadata, root).Some?
    ensures Open(input, metadata, root).value.metadata <= 32000000
  {
    var start := START.(metadata := metadata);
    VisitedAllIsBounded(input, start, root.manifests.value, |root.manifests.value|, 0);
  }

  // ----- the indexes above the leaves --------------------------------------------------

  /** An index document with these children, and nothing else to it. */
  ghost predicate IndexIs(doc: Document, children: seq<Descriptor>) {
    && doc.schemaVersion == Some(2) && (doc.mediaType.Some? ==> doc.mediaType.value == INDEX)
    && doc.subject.None? && doc.artifactType.None?
    && doc.manifests == Some(children) && 0 < |children| <= 1024
  }

  lemma UnfoldedIndexIs(input: Input, doc: Document, ts: seq<Tree>)
    requires UnfoldsIndex(input, doc, ts)
    ensures IndexIs(doc, seq(|ts|, i requires 0 <= i < |ts| => ts[i].d))
  {
    assert doc.manifests.value == seq(|ts|, i requires 0 <= i < |ts| => ts[i].d);
  }

  /** Every place in the graph of an accepted archive holds a blob of it; above the leaves stand plain indexes. */
  lemma AcceptedPlacesAre(input: Input, root: Document, t: Tree, p: Path)
    requires t.Branch? && UnfoldsIndex(input, root, t.children) && At(t, p).Some?
    ensures p == [] ==> IndexIs(root, seq(|t.children|, i requires 0 <= i < |t.children| => t.children[i].d))
    ensures p != [] ==>
              var node := At(t, p).value;
              && Held(input, node.d) && input.parse(input.blobs[node.d.digest]).Some?
              && (node.Leaf? ==> node.d.media == MANIFEST)
              && (node.Branch? ==>
                    && node.d.media == INDEX
                    && IndexIs(input.parse(input.blobs[node.d.digest]).value,
                               seq(|node.children|, i requires 0 <= i < |node.children| => node.children[i].d)))
  {
    UnfoldedIndexIs(input, root, t.children);
    if p != [] {
      AtUnfolds(input, t.children[p[0]], p[1..]);
      var node := At(t, p).value;
      ValidIsHeld(input, node.d, {INDEX, MANIFEST});
      if node.Branch? { UnfoldedIndexIs(input, input.parse(input.blobs[node.d.digest]).value, node.children); }
    }
  }
}
