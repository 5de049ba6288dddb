/** An accepted archive whose graph is not a tree by digest: one document read as an index and as a manifest. */
module OciAmbiguity {
  import opened Common
  import opened OciGraph

  function Hex(c: char): string {
    "sha256:" + seq(64, _ => c)
  }

  const ANY := Platform(None, None, None, false)
  const UNKNOWN := Platform(Some("unknown"), Some("unknown"), None, false)
  const AMD64 := Platform(Some("linux"), Some("amd64"), None, false)
  const EMPTY := Document(None, None, None, None, None, None, None, ANY, None, None, None, false)

  function Plain(media: Media, digest: string): Descriptor {
    Descriptor(media, digest, 1, None, map[], None, false, None)
  }

  const IMAGE := Plain(MANIFEST, Hex('b')).(platform := Some(AMD64))
  const AS_INDEX := Plain(INDEX, Hex('a'))
  const AS_ATTESTATION := Plain(MANIFEST, Hex('a')).(
    platform := Some(UNKNOWN),
    annotations := map[REFERENCE_TYPE := "attestation-manifest", REFERENCE_DIGEST := Hex('b')])

  // no media type, and the fields of both kinds
  const BOTH := EMPTY.(schemaVersion := Some(2), manifests := Some([IMAGE]),
    config := Some(Plain(CONFIG, Hex('d'))), layers := Some([Plain(IN_TOTO, Hex('e'))]))
  const IMAGE_MANIFEST := EMPTY.(schemaVersion := Some(2), config := Some(Plain(CONFIG, Hex('c'))), layers := Some([]))
  const IMAGE_CONFIG := EMPTY.(platform := AMD64, diffIds := Some([]),
    labels := Some(map[VERSION_LABEL := "1", REVISION_LABEL := "r"]))
  const ATTESTATION_CONFIG := EMPTY.(platform := UNKNOWN)
  const STATEMENT := EMPTY.(statement := Some(Statement(true, "slsa", [Hex('b')])))
  const ROOT_INDEX := EMPTY.(schemaVersion := Some(2), manifests := Some([AS_INDEX, AS_ATTESTATION]))

  function Sha(raw: Bytes): string {
    if raw == [1] then Hex('a') else if raw == [2] then Hex('b') else if raw == [3] then Hex('c')
    else if raw == [4] then Hex('d') else if raw == [5] then Hex('e') else Hex('f')
  }

  function Parse(raw: Bytes): Option<Document> {
    if raw == [1] then Some(BOTH)
    else if raw == [2] then Some(IMAGE_MANIFEST)
    else if raw == [3] then Some(IMAGE_CONFIG)
    else if raw == [4] then Some(ATTESTATION_CONFIG) else if raw == [5] then Some(STATEMENT) else None
  }

  const INPUT := Input(
    map[Hex('a') := [1], Hex('b') := [2], Hex('c') := [3], Hex('d') := [4], Hex('e') := [5]],
    "linux", "amd64", "1", "r", Sha, Parse, (media, raw) => Some(raw))

  lemma HexDiffers()
    ensures forall c, d :: c != d ==> Hex(c) != Hex(d)
  {
    forall c, d | c != d
      ensures Hex(c) != Hex(d)
    {
      assert Hex(c)[7] == c && Hex(d)[7] == d;
    }
  }

  lemma HexIsValid(c: char)
    requires 'a' <= c <= 'f'
    ensures ValidDigest(Hex(c))
  {
    assert Hex(c)[..7] == "sha256:";
  }

  lemma Digests()
    ensures ValidDigest(Hex('a')) && ValidDigest(Hex('b')) && ValidDigest(Hex('c'))
    ensures ValidDigest(Hex('d')) && ValidDigest(Hex('e'))
  {
    HexIsValid('a');
    HexIsValid('b');
    HexIsValid('c');
    HexIsValid('d');
    HexIsValid('e');
  }

  predicate Holds(c: char, raw: Bytes) {
    Hex(c) in INPUT.blobs && INPUT.blobs[Hex(c)] == raw
  }

  lemma Blobs()
    ensures Holds('a', [1]) && Holds('b', [2]) && Holds('c', [3]) && Holds('d', [4]) && Holds('e', [5])
  {
    HexDiffers();
  }

  lemma BlobsAreInventoried()
    ensures OciGraph.Inventoried(INPUT)
  {
    Blobs();
    Digests();
    forall digest | digest in INPUT.blobs
      ensures ValidDigest(digest) && Sha(INPUT.blobs[digest]) == digest
    {
      assert digest == Hex('a') || digest == Hex('b') || digest == Hex('c') || digest == Hex('d') || digest == Hex('e');
    }
  }

  const WITH_IMAGE := State(2, 3, 0, [IMAGE], [Image(Key(MANIFEST, Hex('b'), 1), Hex('c'))], [])
  const FINAL := WITH_IMAGE.(visited := 3, metadata := 6, leaves := [IMAGE, AS_ATTESTATION],
    attestations := [Attested(Hex('a'), Key(MANIFEST, Hex('b'), 1), {"slsa"})])

  lemma ImageVisit()
    ensures Visit(INPUT, State(1, 1, 0, [], [], []), IMAGE, 1) == Some(WITH_IMAGE)
  {
    Blobs();
    Digests();
    var entered := State(2, 2, 0, [], [], []);
    assert ReadBlob(INPUT, 1, Some(IMAGE), {INDEX, MANIFEST}) == Some(Read(IMAGE_MANIFEST, 2));
    assert ReadBlob(INPUT, 2, IMAGE_MANIFEST.config, {CONFIG}) == Some(Read(IMAGE_CONFIG, 3));
    assert ImageShape(INPUT, IMAGE, IMAGE_MANIFEST, IMAGE_CONFIG);
    assert Layers(INPUT, 0, IMAGE_MANIFEST.layers.value, IMAGE_CONFIG.diffIds.value, 0) == Some(0);
    assert entered.images + [Image(KeyOf(IMAGE), Hex('c'))] == WITH_IMAGE.images;
    assert VisitImage(INPUT, entered, IMAGE, IMAGE_MANIFEST) == Some(WITH_IMAGE.(leaves := []));
    var none: seq<Descriptor> := [];
    assert none + [IMAGE] == WITH_IMAGE.leaves;
  }

  lemma IndexVisit()
    ensures Visit(INPUT, START, AS_INDEX, 0) == Some(WITH_IMAGE)
  {
    Blobs();
    Digests();
    assert ReadBlob(INPUT, 0, Some(AS_INDEX), {INDEX, MANIFEST}) == Some(Read(BOTH, 1));
    ImageVisit();
    var entered := State(1, 1, 0, [], [], []);
    assert VisitAll(INPUT, entered, [IMAGE], 0, 1) == Some(entered);
    assert VisitAll(INPUT, entered, [IMAGE], 1, 1) == Some(WITH_IMAGE);
  }

  const SUBJECT := Key(MANIFEST, Hex('b'), 1)

  lemma SubjectIsTheImage()
    ensures AttestationSubject(INPUT, WITH_IMAGE.(visited := 3, metadata := 4), AS_ATTESTATION, BOTH)
         == Some((SUBJECT, 5))
  {
    Blobs();
    Digests();
    assert ReadBlob(INPUT, 4, BOTH.config, {CONFIG}) == Some(Read(ATTESTATION_CONFIG, 5));
  }

  lemma StatementIsRead()
    ensures ReadStatements(INPUT, 5, BOTH.layers.value, SUBJECT, 1) == Some(Statements(6, {"slsa"}))
  {
    Blobs();
    Digests();
    var layers := BOTH.layers.value;
    assert ReadStatements(INPUT, 5, layers, SUBJECT, 0) == Some(Statements(5, {}));
    assert ReadJson(INPUT, 5, Hex('e'), MAX_ATTESTATION_JSON) == Some(Read(STATEMENT, 6));
    assert {} + {"slsa"} == {"slsa"};
    assert ValidBlob(INPUT, layers[0], {IN_TOTO}) && StatementNames(STATEMENT, SUBJECT);
  }

  lemma AttestationVisit()
    ensures Visit(INPUT, WITH_IMAGE, AS_ATTESTATION, 0) == Some(FINAL)
  {
    Blobs();
    Digests();
    HexDiffers();
    SubjectIsTheImage();
    StatementIsRead();
    var entered := WITH_IMAGE.(visited := 3, metadata := 4);
    assert ReadBlob(INPUT, 3, Some(AS_ATTESTATION), {INDEX, MANIFEST}) == Some(Read(BOTH, 4));
    assert WITH_IMAGE.attestations + [Attested(Hex('a'), SUBJECT, {"slsa"})] == FINAL.attestations;
    assert VisitAttestation(INPUT, entered, AS_ATTESTATION, BOTH) == Some(FINAL.(leaves := [IMAGE]));
    assert [IMAGE] + [AS_ATTESTATION] == FINAL.leaves;
  }

  lemma ChildrenVisit()
    ensures VisitAll(INPUT, START, [AS_INDEX, AS_ATTESTATION], 2, 0) == Some(FINAL)
  {
    IndexVisit();
    AttestationVisit();
    var ds := [AS_INDEX, AS_ATTESTATION];
    assert VisitAll(INPUT, START, ds, 0, 0) == Some(START);
    assert VisitAll(INPUT, START, ds, 1, 0) == Some(WITH_IMAGE);
  }

  /**
   * The walk accepts this inventoried archive although the document at Hex('a') is reached both as an index
   * and as an attestation manifest, so its digest has two positions in the graph.
   */
  lemma AmbiguousDocumentIsAccepted()
    ensures OciGraph.Inventoried(INPUT)
    ensures Open(INPUT, 0, ROOT_INDEX) == Some(FINAL)
    ensures ROOT_INDEX.manifests.value[0].digest == ROOT_INDEX.manifests.value[1].digest
  {
    BlobsAreInventoried();
    ChildrenVisit();
  }
}
