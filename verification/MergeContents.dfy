/** Which inputs are merged, and the two documents that the merge writes, said field by field. */
module MergeContents {
  import opened Common
  import opened OciGraph
  import opened OciContents
  import opened OciMerge

  /** A letter or a digit first, then letters, digits, dots, plus and minus signs; 128 characters at most. */
  ghost predicate IsVersion(version: string) {
    && 0 < |version| <= 128 && version[0] !in {'.', '+', '-'}
    && forall i :: 0 <= i < |version| ==>
         || 'a' <= version[i] <= 'z' || 'A' <= version[i] <= 'Z' || '0' <= version[i] <= '9'
         || version[i] in {'.', '+', '-'}
  }

  lemma VersionMeans(version: string)
    ensures ValidVersion(version) <==> IsVersion(version)
  {
    forall c: char
      ensures c in ".+-" <==> c in {'.', '+', '-'}
    {
      assert ".+-" == ['.', '+', '-'];
    }
  }

  lemma RevisionMeans(revision: string)
    ensures ValidRevision(revision) <==> |revision| == 40 && LowerHex(revision)
  {
  }

  /** The archive opens as the image of this architecture, version and revision. */
  ghost predicate OpensAs(lib: Library, source: Source, architecture: string, version: string, revision: string) {
    exists input: Input ::
      && input.blobs == source.blobs && input.os == "linux" && input.architecture == architecture
      && input.version == version && input.revision == revision
      && input.sha == lib.sha && input.parse == lib.parse && input.expand == lib.expand
      && Open(input, source.metadata, source.root).Some?
  }

  lemma OpensMeans(lib: Library, source: Source, architecture: string, version: string, revision: string)
    ensures Open(InputFor(lib, source, architecture, version, revision), source.metadata, source.root).Some?
       <==> OpensAs(lib, source, architecture, version, revision)
  {
    var it := InputFor(lib, source, architecture, version, revision);
    if input: Input :|
      && input.blobs == source.blobs && input.os == "linux" && input.architecture == architecture
      && input.version == version && input.revision == revision
      && input.sha == lib.sha && input.parse == lib.parse && input.expand == lib.expand
      && Open(input, source.metadata, source.root).Some? {
      assert input == it;
    }
  }

  /**
   * A merge is accepted exactly for one input of each platform, for a version and a revision of the right form, if
   * each opens as the image of its architecture in them and no blob of both has two sizes.
   */
  lemma MergeIsAcceptedExactly(lib: Library, inputs: map<string, Source>, version: string, revision: string)
    ensures Mergeable(lib, inputs, version, revision)
       <==> && (forall platform :: platform in inputs <==> platform == "linux/amd64" || platform == "linux/arm64")
            && IsVersion(version) && |revision| == 40 && LowerHex(revision)
            && OpensAs(lib, inputs["linux/amd64"], "amd64", version, revision)
            && OpensAs(lib, inputs["linux/arm64"], "arm64", version, revision)
            && forall digest :: digest in inputs["linux/amd64"].blobs && digest in inputs["linux/arm64"].blobs ==>
                 |inputs["linux/amd64"].blobs[digest]| == |inputs["linux/arm64"].blobs[digest]|
  {
    VersionMeans(version);
    RevisionMeans(revision);
    if inputs.Keys == {"linux/amd64", "linux/arm64"} {
      assert "linux/amd64" in inputs && "linux/arm64" in inputs;
      assert forall platform :: platform in inputs <==> platform in inputs.Keys;
      OpensMeans(lib, inputs["linux/amd64"], "amd64", version, revision);
      OpensMeans(lib, inputs["linux/arm64"], "arm64", version, revision);
    }
    if forall platform :: platform in inputs <==> platform == "linux/amd64" || platform == "linux/arm64" {
      assert inputs.Keys == {"linux/amd64", "linux/arm64"};
    }
  }

  /** An image index of schema 2 that lists these descriptors and has no other field. */
  ghost predicate Lists(doc: Document, manifests: seq<Descriptor>) {
    && doc.schemaVersion == Some(2) && doc.mediaType == Some(INDEX) && doc.manifests == Some(manifests)
    && doc.artifactType == None && doc.subject == None && doc.config == None && doc.layers == None
    && doc.labels == None && doc.diffIds == None && doc.statement == None && !doc.blank
    && doc.platform == Platform(None, None, None, false)
  }

  /** The descriptor of these bytes as an index, without any other field. */
  ghost predicate Describes(lib: Library, d: Descriptor, content: Bytes) {
    && d.media == INDEX && d.digest == lib.sha(content) && d.size == |content|
    && d.platform == None && d.annotations == map[] && d.artifactType == None && !d.urls && d.data == None
  }

  /**
   * What is written: an inner index of these leaves under its hash, next to the blobs of both inputs and no other,
   * and a root index of the one descriptor of that inner index.
   */
  lemma LayoutIs(lib: Library, a: Source, b: Source, leaves: seq<Descriptor>)
    returns (inner: Document, root: Document, d: Descriptor)
    ensures Lists(inner, leaves) && Lists(root, [d]) && Describes(lib, d, lib.canonical(inner))
    ensures MergedLayout(lib, a, b, leaves).root == lib.canonical(root)
    ensures MergedLayout(lib, a, b, leaves).blobs.Keys == a.blobs.Keys + b.blobs.Keys + {d.digest}
    ensures MergedLayout(lib, a, b, leaves).blobs[d.digest] == lib.canonical(inner)
  {
    inner := IndexOf(leaves);
    d := InnerDescriptor(lib, lib.canonical(inner));
    root := IndexOf([d]);
  }
}
