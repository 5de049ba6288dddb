/** When one step of the walk accepts, said field by field and in both directions. */
module OciSteps {
  import opened Common
  import opened OciGraph
  import opened OciContents

  /** The blob is a document of a size that may be read, within what is left of the metadata budget. */
  ghost predicate Readable(input: Input, metadata: nat, digest: string, most: nat) {
    && digest in input.blobs && 0 < |input.blobs[digest]| <= most
    && metadata + |input.blobs[digest]| <= 32000000 && input.parse(input.blobs[digest]).Some?
  }

  lemma BlobIsHeld(input: Input, d: Descriptor, media: set<Media>)
    ensures ValidBlob(input, d, media) <==> Held(input, d) && d.media in media
  {
    DigestShape(d.digest);
  }

  lemma ReadExactly(input: Input, metadata: nat, d: Option<Descriptor>, media: set<Media>)
    ensures ReadBlob(input, metadata, d, media)
         == if d.Some? && Held(input, d.value) && d.value.media in media
               && Readable(input, metadata, d.value.digest, 2000000)
            then Some(Read(input.parse(input.blobs[d.value.digest]).value,
                           metadata + |input.blobs[d.value.digest]|))
            else None
  {
    if d.Some? { BlobIsHeld(input, d.value, media); }
  }

  // ----- images ------------------------------------------------------------------------

  /** The bytes that the first `count` layers expand to. */
  function ExpandedBytes(input: Input, layers: seq<Descriptor>, count: nat): nat
    requires count <= |layers|
  {
    if count == 0 then 0
    else
      ExpandedBytes(input, layers, count - 1)
      + if layers[count - 1].digest !in input.blobs then 0
        else
          match input.expand(layers[count - 1].media, input.blobs[layers[count - 1].digest])
          case None => 0
          case Some(content) => |content|
  }

  lemma {:induction false} LayersExactly(input: Input, rootfs: nat, layers: seq<Descriptor>, diffIds: seq<string>,
                                         count: nat)
    requires count <= |layers| == |diffIds|
    requires forall i :: 0 <= i < |layers| ==> layers[i].digest in input.blobs && Held(input, layers[i])
    requires forall i :: 0 <= i < |layers| ==> layers[i].media in LAYER_TYPES && IsDigest(diffIds[i])
    ensures Layers(input, rootfs, layers, diffIds, count)
         == if (forall k :: 0 <= k < count ==> LayerIs(input, layers[k], diffIds[k]))
               && (count == 0 || rootfs + ExpandedBytes(input, layers, count) <= 34359738368)
            then Some(rootfs + ExpandedBytes(input, layers, count)) else None
  {
    if count > 0 {
      LayersExactly(input, rootfs, layers, diffIds, count - 1);
    }
  }

  lemma PlatformExactly(input: Input, d: Descriptor, details: Document)
    ensures ImagePlatform(input, d, details) && ImageLabels(input, details) <==> ConfigIs(input, d, details)
  {
  }

  /** The layers and diff IDs of an image before anything is expanded. */
  ghost predicate LayersListed(input: Input, doc: Document, details: Document) {
    && doc.layers.Some? && details.diffIds.Some? && |doc.layers.value| == |details.diffIds.value| <= 4096
    && (forall k :: 0 <= k < |doc.layers.value| ==>
                      Held(input, doc.layers.value[k]) && doc.layers.value[k].media in LAYER_TYPES)
    && forall k :: 0 <= k < |details.diffIds.value| ==> IsDigest(details.diffIds.value[k])
  }

  lemma ListedExactly(input: Input, doc: Document, details: Document)
    ensures ImageLayers(input, doc, details) <==> LayersListed(input, doc, details)
  {
    if doc.layers.Some? {
      forall k | 0 <= k < |doc.layers.value|
        ensures ValidBlob(input, doc.layers.value[k], LAYER_TYPES)
           <==> Held(input, doc.layers.value[k]) && doc.layers.value[k].media in LAYER_TYPES
      {
        BlobIsHeld(input, doc.layers.value[k], LAYER_TYPES);
      }
    }
    if details.diffIds.Some? {
      forall k | 0 <= k < |details.diffIds.value|
        ensures ValidDigest(details.diffIds.value[k]) <==> IsDigest(details.diffIds.value[k])
      {
        DigestShape(details.diffIds.value[k]);
      }
    }
  }

  /** An image manifest is accepted exactly if it is an image of the input and fits what is left of both budgets. */
  lemma ImageIsAcceptedExactly(input: Input, st: State, d: Descriptor, doc: Document)
    requires PlainImage(d, doc)
    ensures VisitImage(input, st, d, doc).Some?
       <==> && doc.config.Some? && ImageIs(input, d, doc, doc.config.value.digest)
            && Readable(input, st.metadata, doc.config.value.digest, 2000000)
            && (doc.layers.value == []
                || st.rootfs + ExpandedBytes(input, doc.layers.value, |doc.layers.value|) <= 34359738368)
  {
    ReadExactly(input, st.metadata, doc.config, {CONFIG});
    if doc.config.Some? && doc.config.value.digest in input.blobs
       && input.parse(input.blobs[doc.config.value.digest]).Some? {
      var details := input.parse(input.blobs[doc.config.value.digest]).value;
      PlatformExactly(input, d, details);
      ListedExactly(input, doc, details);
      if ImageShape(input, d, doc, details) {
        LayersExactly(input, st.rootfs, doc.layers.value, details.diffIds.value, |doc.layers.value|);
      }
    }
  }

  // ----- attestations ------------------------------------------------------------------

  lemma SubjectExactly(input: Input, st: State, d: Descriptor, doc: Document, subject: Key)
    ensures AttestationSubject(input, st, d, doc).Some? && AttestationSubject(input, st, d, doc).value.0 == subject
       <==> && SubjectIs(input, d, doc, subject)
            && Readable(input, st.metadata, doc.config.value.digest, 2000000)
    ensures AttestationSubject(input, st, d, doc).Some? ==>
              && doc.config.Some? && doc.config.value.digest in input.blobs
              && AttestationSubject(input, st, d, doc).value.1
                 == st.metadata + |input.blobs[doc.config.value.digest]|
  {
    ReadExactly(input, st.metadata, doc.config, if doc.artifactType.Some? then {EMPTY_CONFIG} else {CONFIG});
    if doc.artifactType.Some? {
      if doc.subject.Some? { BlobIsHeld(input, doc.subject.value, {MANIFEST}); }
    } else if REFERENCE_DIGEST in d.annotations {
      DigestShape(d.annotations[REFERENCE_DIGEST]);
    }
  }

  /** The bytes of the blobs that the first `count` layers name. */
  function StoredBytes(input: Input, layers: seq<Descriptor>, count: nat): nat
    requires count <= |layers|
  {
    if count == 0 then 0
    else
      StoredBytes(input, layers, count - 1)
      + if layers[count - 1].digest in input.blobs then |input.blobs[layers[count - 1].digest]| else 0
  }

  /** The statement is of a size that may be read. */
  ghost predicate Sized(input: Input, layer: Descriptor) {
    layer.digest in input.blobs && 0 < |input.blobs[layer.digest]| <= 16777216
  }

  /** The layer is a statement that names the subject. */
  ghost predicate States(input: Input, layer: Descriptor, subject: string) {
    Sized(input, layer) && exists t :: StatementIs(input, layer, subject, t)
  }

  ghost predicate Stated(input: Input, layers: seq<Descriptor>, subject: Key, count: nat)
    requires count <= |layers|
  {
    forall k :: 0 <= k < count ==> States(input, layers[k], subject.digest)
  }

  /** One more statement. */
  lemma NextStatement(input: Input, metadata: nat, layers: seq<Descriptor>, subject: Key, count: nat)
    requires 0 < count <= |layers|
    ensures var before := ReadStatements(input, metadata, layers, subject, count - 1);
            var layer := layers[count - 1];
            ReadStatements(input, metadata, layers, subject, count).Some?
            <==> && before.Some? && States(input, layer, subject.digest)
                 && before.value.metadata + |input.blobs[layer.digest]| <= 32000000
    ensures ReadStatements(input, metadata, layers, subject, count).Some? ==>
              ReadStatements(input, metadata, layers, subject, count).value.metadata
              == ReadStatements(input, metadata, layers, subject, count - 1).value.metadata
                 + |input.blobs[layers[count - 1].digest]|
  {
    var layer := layers[count - 1];
    BlobIsHeld(input, layer, {IN_TOTO});
    if Held(input, layer) && input.parse(input.blobs[layer.digest]).Some? {
      var doc := input.parse(input.blobs[layer.digest]).value;
      if StatementNames(doc, subject) && layer.media == IN_TOTO {
        assert StatementIs(input, layer, subject.digest, doc.statement.value.predicateType);
      }
    }
  }

  lemma {:induction false} StatementsExactly(input: Input, metadata: nat, layers: seq<Descriptor>, subject: Key,
                                             count: nat)
    requires count <= |layers|
    ensures ReadStatements(input, metadata, layers, subject, count).Some?
       <==> Stated(input, layers, subject, count)
            && (count == 0 || metadata + StoredBytes(input, layers, count) <= 32000000)
    ensures ReadStatements(input, metadata, layers, subject, count).Some? ==>
              ReadStatements(input, metadata, layers, subject, count).value.metadata
              == metadata + StoredBytes(input, layers, count)
  {
    if count > 0 {
      StatementsExactly(input, metadata, layers, subject, count - 1);
      NextStatement(input, metadata, layers, subject, count);
    }
  }

  /** An attestation is accepted exactly if it names a subject that all its statements name, and fits the budget. */
  lemma AttestationIsAcceptedExactly(input: Input, st: State, d: Descriptor, doc: Document)
    ensures VisitAttestation(input, st, d, doc).Some?
       <==> && d.platform.Some?
            && d.platform.value.os == Some("unknown") && d.platform.value.architecture == Some("unknown")
            && ("vnd.docker.reference.type" in d.annotations ==>
                  d.annotations["vnd.docker.reference.type"] == "attestation-manifest")
            && doc.layers.Some? && 0 < |doc.layers.value| <= 4096
            && exists subject ::
                 && SubjectIs(input, d, doc, subject)
                 && Readable(input, st.metadata, doc.config.value.digest, 2000000)
                 && Stated(input, doc.layers.value, subject, |doc.layers.value|)
                 && st.metadata + |input.blobs[doc.config.value.digest]|
                    + StoredBytes(input, doc.layers.value, |doc.layers.value|) <= 32000000
  {
    forall subject: Key
      ensures AttestationSubject(input, st, d, doc).Some? && AttestationSubject(input, st, d, doc).value.0 == subject
         <==> && SubjectIs(input, d, doc, subject)
              && Readable(input, st.metadata, doc.config.value.digest, 2000000)
    {
      SubjectExactly(input, st, d, doc, subject);
    }
    if AttestationSubject(input, st, d, doc).Some? && doc.layers.Some? {
      var (subject, metadata) := AttestationSubject(input, st, d, doc).value;
      SubjectExactly(input, st, d, doc, subject);
      StatementsExactly(input, metadata, doc.layers.value, subject, |doc.layers.value|);
    }
  }

  // ----- leaves and indexes ------------------------------------------------------------

  /** An attestation by its annotation or its type. */
  predicate MarkedAsAttestation(d: Descriptor, doc: Document) {
    || (&& "vnd.docker.reference.type" in d.annotations
        && d.annotations["vnd.docker.reference.type"] == "attestation-manifest")
    || doc.artifactType == Some("application/vnd.docker.attestation.manifest.v1+json")
  }

  /** A leaf is visited as what it is marked to be, a plain image otherwise, and not a second time. */
  lemma LeafIsAcceptedExactly(input: Input, st: State, d: Descriptor, doc: Document)
    ensures VisitLeaf(input, st, d, doc).Some?
       <==> && (forall i :: 0 <= i < |st.leaves| ==> st.leaves[i].digest != d.digest)
            && if MarkedAsAttestation(d, doc) then VisitAttestation(input, st, d, doc).Some?
               else
                 && d.artifactType.None? && doc.artifactType.None? && doc.subject.None?
                 && "vnd.docker.reference.type" !in d.annotations && VisitImage(input, st, d, doc).Some?
  {
  }

  /** A descriptor is walked exactly within the bounds of depth and number, if its document can be read and fits. */
  lemma DescriptorIsAcceptedExactly(input: Input, st: State, d: Descriptor, depth: nat)
    requires depth <= 9
    ensures Visit(input, st, d, depth).Some?
       <==> && depth <= 8 && st.visited < 1024
            && Held(input, d) && (d.media == INDEX || d.media == MANIFEST)
            && Readable(input, st.metadata, d.digest, 2000000)
            && var doc := input.parse(input.blobs[d.digest]).value;
               var entered := st.(visited := st.visited + 1, metadata := st.metadata + |input.blobs[d.digest]|);
               && doc.schemaVersion == Some(2) && (doc.mediaType.Some? ==> doc.mediaType.value == d.media)
               && if d.media == INDEX then
                    && doc.manifests.Some? && IndexIs(doc, doc.manifests.value)
                    && VisitAll(input, entered, doc.manifests.value, |doc.manifests.value|, depth + 1).Some?
                  else VisitLeaf(input, entered, d, doc).Some?
  {
    ReadExactly(input, st.metadata, Some(d), {INDEX, MANIFEST});
    if d.digest in input.blobs && input.parse(input.blobs[d.digest]).Some? && depth <= 8 {
      var doc := input.parse(input.blobs[d.digest]).value;
      var entered := st.(visited := st.visited + 1, metadata := st.metadata + |input.blobs[d.digest]|);
      IndexExactly(input, entered, doc, depth + 1);
    }
  }

  lemma IndexExactly(input: Input, st: State, doc: Document, depth: nat)
    requires depth <= 9
    ensures VisitIndex(input, st, doc, depth).Some?
       <==> && doc.manifests.Some? && IndexIs(doc, doc.manifests.value)
            && VisitAll(input, st, doc.manifests.value, |doc.manifests.value|, depth).Some?
  {
  }

  /**
   * An archive opens exactly if its root is a plain index whose descriptors are all accepted in turn, and there is one
   * image, which every attestation has as its subject.
   */
  lemma ArchiveIsAcceptedExactly(input: Input, metadata: nat, root: Document)
    ensures Open(input, metadata, root).Some?
       <==> && root.manifests.Some? && IndexIs(root, root.manifests.value)
            && var walked := VisitAll(input, State(0, metadata, 0, [], [], []), root.manifests.value,
                                      |root.manifests.value|, 0);
               && walked.Some? && |walked.value.images| == 1
               && forall i :: 0 <= i < |walked.value.attestations| ==>
                                walked.value.attestations[i].subject == walked.value.images[0].descriptor
  {
    IndexExactly(input, START.(metadata := metadata), root, 0);
  }

  /** Descriptors are accepted one after the other, in their order. */
  lemma AllAreAcceptedInTurn(input: Input, st: State, ds: seq<Descriptor>, count: nat, depth: nat)
    requires count <= |ds| && depth <= 9
    ensures VisitAll(input, st, ds, count, depth).Some?
       <==> forall k :: 0 <= k < count ==>
              && VisitAll(input, st, ds, k, depth).Some?
              && Visit(input, VisitAll(input, st, ds, k, depth).value, ds[k], depth).Some?
    ensures VisitAll(input, st, ds, 0, depth) == Some(st)
    ensures forall k :: 0 < k <= count && VisitAll(input, st, ds, k - 1, depth).Some? ==>
              VisitAll(input, st, ds, k, depth)
              == Visit(input, VisitAll(input, st, ds, k - 1, depth).value, ds[k - 1], depth)
    decreases count
  {
    if count > 0 { AllAreAcceptedInTurn(input, st, ds, count - 1, depth); }
  }
}
