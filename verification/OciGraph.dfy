/** The walk of one OCI image layout, as the plain recursion that recomputes every layer digest. */
module OciGraph {
  import opened Common

  const MAX_JSON := 2_000_000
  const MAX_ATTESTATION_JSON := 16 * 1024 * 1024
  const MAX_JSON_TOTAL := 32_000_000
  const MAX_LAYER_BYTES := 8 * 1024 * 1024 * 1024
  const MAX_ROOTFS_BYTES := 32 * 1024 * 1024 * 1024
  const REFERENCE_TYPE := "vnd.docker.reference.type"
  const REFERENCE_DIGEST := "vnd.docker.reference.digest"
  const ATTESTATION := "application/vnd.docker.attestation.manifest.v1+json"
  const VERSION_LABEL := "org.opencontainers.image.version"
  const REVISION_LABEL := "org.opencontainers.image.revision"

  // ----- documents ---------------------------------------------------------------------

  datatype Media =
    | INDEX | MANIFEST | CONFIG | EMPTY_CONFIG | IN_TOTO
    | LAYER_TAR | LAYER_GZIP | LAYER_ZSTD
    | OTHER(name: string)

  /** requirements says that os.version, os.features or features is present and not empty. */
  datatype Platform = Platform(os: Option<string>, architecture: Option<string>, variant: Option<string>,
                               requirements: bool)

  datatype Descriptor = Descriptor(
    media: Media,
    digest: string,
    size: nat,
    platform: Option<Platform>,
    annotations: map<string, string>,
    artifactType: Option<string>,
    urls: bool,
    data: Option<string>)

  /** The part of a descriptor that identifies content. */
  datatype Key = Key(media: Media, digest: string, size: nat)

  function KeyOf(d: Descriptor): Key {
    Key(d.media, d.digest, d.size)
  }

  datatype Statement = Statement(known: bool, predicateType: string, subjects: seq<string>)

  /** A parsed JSON object; a field is None when the object lacks it. Any document may carry any field. */
  datatype Document = Document(
    schemaVersion: Option<int>,
    mediaType: Option<Media>,
    manifests: Option<seq<Descriptor>>,
    artifactType: Option<string>,
    subject: Option<Descriptor>,
    config: Option<Descriptor>,
    layers: Option<seq<Descriptor>>,
    platform: Platform,
    labels: Option<map<string, string>>,
    diffIds: Option<seq<string>>,
    statement: Option<Statement>,
    blank: bool)

  /** One input: its blobs by digest, the expected identity, and the library functions applied to bytes. */
  datatype Input = Input(
    blobs: map<string, Bytes>,
    os: string,
    architecture: string,
    version: string,
    revision: string,
    sha: Bytes -> string,
    parse: Bytes -> Option<Document>,
    expand: (Media, Bytes) -> Option<Bytes>)

  predicate ValidDigest(digest: string) {
    && |digest| == 71 && digest[..7] == "sha256:"
    && forall i :: 7 <= i < 71 ==> '0' <= digest[i] <= '9' || 'a' <= digest[i] <= 'f'
  }

  /** What inventory has checked of every blob. */
  predicate Inventoried(input: Input) {
    forall digest :: digest in input.blobs ==> ValidDigest(digest) && input.sha(input.blobs[digest]) == digest
  }

  // ----- state -------------------------------------------------------------------------

  datatype Image = Image(descriptor: Key, config: string)

  datatype Attested = Attested(digest: string, subject: Key, predicateTypes: set<string>)

  datatype State = State(
    visited: nat,
    metadata: nat,
    rootfs: nat,
    leaves: seq<Descriptor>,
    images: seq<Image>,
    attestations: seq<Attested>)

  const START := State(0, 0, 0, [], [], [])

  // ----- reading -----------------------------------------------------------------------

  /** The checks made on a descriptor before anything is read. */
  predicate ValidBlob(input: Input, d: Descriptor, media: set<Media>) {
    && ValidDigest(d.digest)
    && d.media in media
    && !d.urls
    && (d.data == None || (d.media == EMPTY_CONFIG && d.data == Some("e30=")))
    && d.digest in input.blobs
    && |input.blobs[d.digest]| == d.size
  }

  datatype Read = Read(doc: Document, metadata: nat)

  function ReadJson(input: Input, metadata: nat, digest: string, maxBytes: nat): Option<Read> {
    if digest !in input.blobs then None
    else
      var raw := input.blobs[digest];
      if !(0 < |raw| <= maxBytes) || metadata + |raw| > MAX_JSON_TOTAL then None
      else
        match input.parse(raw)
        case None => None
        case Some(doc) => Some(Read(doc, metadata + |raw|))
  }

  function ReadBlob(input: Input, metadata: nat, d: Option<Descriptor>, media: set<Media>): Option<Read> {
    if d.None? || !ValidBlob(input, d.value, media) then None
    else ReadJson(input, metadata, d.value.digest, MAX_JSON)
  }

  // ----- layers ------------------------------------------------------------------------

  const LAYER_TYPES := {LAYER_TAR, LAYER_GZIP, LAYER_ZSTD}

  datatype LayerRead = LayerRead(digest: string, rootfs: nat)

  /** The digest of a layer's expanded bytes, charged in full against the root filesystem budget. */
  function LayerDigest(input: Input, rootfs: nat, layer: Descriptor): Option<LayerRead>
    requires layer.digest in input.blobs
  {
    match input.expand(layer.media, input.blobs[layer.digest])
    case None => None
    case Some(content) =>
      if |content| > MAX_LAYER_BYTES || rootfs + |content| > MAX_ROOTFS_BYTES then None
      else Some(LayerRead(input.sha(content), rootfs + |content|))
  }

  /** Checking the first `count` layers against the config's diff ids. */
  function Layers(input: Input, rootfs: nat, layers: seq<Descriptor>, diffIds: seq<string>, count: nat): Option<nat>
    requires count <= |layers| == |diffIds|
    requires forall i :: 0 <= i < |layers| ==> layers[i].digest in input.blobs
  {
    if count == 0 then Some(rootfs)
    else
      match Layers(input, rootfs, layers, diffIds, count - 1)
      case None => None
      case Some(before) =>
        match LayerDigest(input, before, layers[count - 1])
        case None => None
        case Some(layer) => if layer.digest == diffIds[count - 1] then Some(layer.rootfs) else None
  }

  // ----- images and attestations -------------------------------------------------------

  predicate ImagePlatform(input: Input, d: Descriptor, details: Document) {
    && d.platform.Some?
    && d.platform.value.os == details.platform.os == Some(input.os)
    && d.platform.value.architecture == details.platform.architecture == Some(input.architecture)
    && d.platform.value.variant in Variants(input.architecture)
    && details.platform.variant in Variants(input.architecture)
    && !d.platform.value.requirements && !details.platform.requirements
  }

  function Variants(architecture: string): set<Option<string>> {
    if architecture == "arm64" then {None, Some("v8")} else {None}
  }

  predicate ImageLabels(input: Input, details: Document) {
    && details.labels.Some?
    && VERSION_LABEL in details.labels.value && details.labels.value[VERSION_LABEL] == input.version
    && REVISION_LABEL in details.labels.value && details.labels.value[REVISION_LABEL] == input.revision
  }

  predicate ImageLayers(input: Input, doc: Document, details: Document) {
    && doc.layers.Some? && |doc.layers.value| <= 4096
    && (forall i :: 0 <= i < |doc.layers.value| ==> ValidBlob(input, doc.layers.value[i], LAYER_TYPES))
    && details.diffIds.Some? && |details.diffIds.value| == |doc.layers.value|
    && forall i :: 0 <= i < |details.diffIds.value| ==> ValidDigest(details.diffIds.value[i])
  }

  /** Everything an image manifest must satisfy before its layers are expanded. */
  predicate ImageShape(input: Input, d: Descriptor, doc: Document, details: Document) {
    ImagePlatform(input, d, details) && ImageLabels(input, details) && ImageLayers(input, doc, details)
  }

  function VisitImage(input: Input, st: State, d: Descriptor, doc: Document): Option<State> {
    match ReadBlob(input, st.metadata, doc.config, {CONFIG})
    case None => None
    case Some(read) =>
      if !ImageShape(input, d, doc, read.doc) then None
      else
        match Layers(input, st.rootfs, doc.layers.value, read.doc.diffIds.value, |doc.layers.value|)
        case None => None
        case Some(rootfs) =>
          Some(st.(metadata := read.metadata, rootfs := rootfs,
                   images := st.images + [Image(KeyOf(d), doc.config.value.digest)]))
  }

  function Annotation(d: Descriptor, key: string): Option<string> {
    if key in d.annotations then Some(d.annotations[key]) else None
  }

  predicate AttestationPlatform(d: Descriptor) {
    && d.platform.Some?
    && d.platform.value.os == d.platform.value.architecture == Some("unknown")
    && Annotation(d, REFERENCE_TYPE) in {None, Some("attestation-manifest")}
  }

  predicate SubjectPlatform(input: Input, subject: Descriptor) {
    subject.platform.Some? ==>
      && (subject.platform.value.os in {None, Some("linux")})
      && (subject.platform.value.architecture in {None, Some(input.architecture)})
  }

  /** The subject an attestation names, with the metadata count after reading its config. */
  function AttestationSubject(input: Input, st: State, d: Descriptor, doc: Document): Option<(Key, nat)> {
    var reference := Annotation(d, REFERENCE_DIGEST);
    if doc.artifactType.Some? then
      match ReadBlob(input, st.metadata, doc.config, {EMPTY_CONFIG})
      case None => None
      case Some(read) =>
        if && doc.artifactType == Some(ATTESTATION) && d.artifactType in {None, Some(ATTESTATION)}
           && read.doc.blank && doc.config.value.size == 2
           && doc.config.value.digest == input.sha([0x7b, 0x7d])
           && doc.subject.Some? && ValidBlob(input, doc.subject.value, {MANIFEST})
           && SubjectPlatform(input, doc.subject.value)
           && reference in {None, Some(doc.subject.value.digest)}
        then Some((KeyOf(doc.subject.value), read.metadata)) else None
    else
      match ReadBlob(input, st.metadata, doc.config, {CONFIG})
      case None => None
      case Some(read) =>
        if && d.artifactType == None && doc.subject == None
           && read.doc.platform.os == read.doc.platform.architecture == Some("unknown")
           && reference.Some? && ValidDigest(reference.value) && reference.value in input.blobs
        then Some((Key(MANIFEST, reference.value, |input.blobs[reference.value]|), read.metadata)) else None
  }

  datatype Statements = Statements(metadata: nat, types: set<string>)

  predicate StatementNames(doc: Document, subject: Key) {
    && doc.statement.Some? && doc.statement.value.known && doc.statement.value.predicateType != ""
    && subject.digest in doc.statement.value.subjects
  }

  /** The in-toto statements in the first `count` layers, each naming the subject. */
  function ReadStatements(input: Input, metadata: nat, layers: seq<Descriptor>, subject: Key,
                          count: nat): Option<Statements>
    requires count <= |layers|
  {
    if count == 0 then Some(Statements(metadata, {}))
    else
      match ReadStatements(input, metadata, layers, subject, count - 1)
      case None => None
      case Some(before) =>
        if !ValidBlob(input, layers[count - 1], {IN_TOTO}) then None
        else
          match ReadJson(input, before.metadata, layers[count - 1].digest, MAX_ATTESTATION_JSON)
          case None => None
          case Some(read) =>
            if StatementNames(read.doc, subject)
            then Some(Statements(read.metadata, before.types + {read.doc.statement.value.predicateType})) else None
  }

  function VisitAttestation(input: Input, st: State, d: Descriptor, doc: Document): Option<State> {
    if !AttestationPlatform(d) then None
    else
      match AttestationSubject(input, st, d, doc)
      case None => None
      case Some((subject, metadata)) =>
        if doc.layers.None? || !(0 < |doc.layers.value| <= 4096) then None
        else
          match ReadStatements(input, metadata, doc.layers.value, subject, |doc.layers.value|)
          case None => None
          case Some(read) =>
            Some(st.(metadata := read.metadata,
                     attestations := st.attestations + [Attested(d.digest, subject, read.types)]))
  }

  predicate IsAttestation(d: Descriptor, doc: Document) {
    Annotation(d, REFERENCE_TYPE) == Some("attestation-manifest") || doc.artifactType == Some(ATTESTATION)
  }

  predicate PlainImage(d: Descriptor, doc: Document) {
    d.artifactType == None && doc.artifactType == None && doc.subject == None && REFERENCE_TYPE !in d.annotations
  }

  predicate HasLeaf(leaves: seq<Descriptor>, digest: string) {
    exists i :: 0 <= i < |leaves| && leaves[i].digest == digest
  }

  function VisitLeaf(input: Input, st: State, d: Descriptor, doc: Document): Option<State> {
    var visited :=
      if IsAttestation(d, doc) then VisitAttestation(input, st, d, doc)
      else if PlainImage(d, doc) then VisitImage(input, st, d, doc)
      else None;
    match visited
    case None => None
    case Some(after) =>
      if HasLeaf(after.leaves, d.digest) then None
      else Some(after.(leaves := after.leaves + [d]))
  }

  // ----- the walk ----------------------------------------------------------------------

  predicate IndexShape(doc: Document) {
    && doc.schemaVersion == Some(2) && doc.mediaType in {None, Some(INDEX)}
    && doc.subject == None && doc.artifactType == None
    && doc.manifests.Some? && 0 < |doc.manifests.value| <= 1024
  }

  function VisitIndex(input: Input, st: State, doc: Document, depth: nat): Option<State>
    requires depth <= 9
    decreases 9 - depth, 2, 0
  {
    if IndexShape(doc) then VisitAll(input, st, doc.manifests.value, |doc.manifests.value|, depth) else None
  }

  /** Walking the first `count` children of an index. */
  function VisitAll(input: Input, st: State, children: seq<Descriptor>, count: nat, depth: nat): Option<State>
    requires count <= |children| && depth <= 9
    decreases 9 - depth, 1, count
  {
    if count == 0 then Some(st)
    else
      match VisitAll(input, st, children, count - 1, depth)
      case None => None
      case Some(before) => Visit(input, before, children[count - 1], depth)
  }

  function Visit(input: Input, st: State, d: Descriptor, depth: nat): Option<State>
    requires depth <= 9
    decreases 9 - depth, 0, 0
  {
    if depth > 8 || st.visited + 1 > 1024 then None
    else
      match ReadBlob(input, st.metadata, Some(d), {INDEX, MANIFEST})
      case None => None
      case Some(read) =>
        var entered := st.(visited := st.visited + 1, metadata := read.metadata);
        if read.doc.schemaVersion != Some(2) || read.doc.mediaType !in {None, Some(d.media)} then None
        else if d.media == INDEX then VisitIndex(input, entered, read.doc, depth + 1)
        else VisitLeaf(input, entered, d, read.doc)
  }

  predicate CompleteGraph(st: State) {
    && |st.images| == 1
    && forall i :: 0 <= i < |st.attestations| ==> st.attestations[i].subject == st.images[0].descriptor
  }

  /** Opening an archive whose index.json parses to `root`; `metadata` bytes were read before the walk. */
  function Open(input: Input, metadata: nat, root: Document): Option<State> {
    match VisitIndex(input, START.(metadata := metadata), root, 0)
    case None => None
    case Some(st) => if CompleteGraph(st) then Some(st) else None
  }
}
