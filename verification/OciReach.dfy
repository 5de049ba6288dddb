/** Everything that can be reached from the root of a merged layout. */
module OciReach {
  import opened Common
  import opened OciGraph
  import opened OciTree
  import opened OciMerge

  // ----- reachability ------------------------------------------------------------------

  /** The document that a published file or blob holds. */
  function Parsed(lib: Library, blobs: map<string, Bytes>, d: Descriptor): Option<Document> {
    if d.digest in blobs then lib.parse(blobs[d.digest]) else None
  }

  /** next is named by the document of d, read as the media type of d says. */
  ghost predicate Names(lib: Library, blobs: map<string, Bytes>, d: Descriptor, next: Descriptor) {
    Parsed(lib, blobs, d).Some? && next in References(d.media, Parsed(lib, blobs, d).value)
  }

  /** A chain of descriptors, each named by the one before it and the first one by index.json. */
  ghost predicate Chain(lib: Library, layout: Layout, path: seq<Descriptor>) {
    && path != []
    && lib.parse(layout.root).Some? && path[0] in References(INDEX, lib.parse(layout.root).value)
    && forall k :: 0 < k < |path| ==> Names(lib, layout.blobs, path[k - 1], path[k])
  }

  // ----- one input ---------------------------------------------------------------------

  /**
   * d is content of this input: one of its blobs, of the declared size; and if it is a manifest then one of the
   * recorded leaves has the same blob.
   */
  ghost predicate Sound(input: Input, leaves: seq<Descriptor>, d: Descriptor) {
    && d.digest in input.blobs && |input.blobs[d.digest]| == d.size && d.media != INDEX
    && (d.media == MANIFEST ==> HasLeaf(leaves, d.digest))
  }

  lemma PartOf(doc: Document, d: Descriptor)
    requires d in References(MANIFEST, doc)
    ensures || doc.config == Some(d)
            || (doc.layers.Some? && d in doc.layers.value)
            || doc.subject == Some(d)
  {
  }

  /** The parts of a leaf are sound: a manifest among them is a subject, and that is the image. */
  lemma PartsAreSound(input: Input, metadata: nat, root: Document, i: nat, next: Descriptor)
    requires Open(input, metadata, root).Some? && i < |Open(input, metadata, root).value.leaves|
    requires var d := Open(input, metadata, root).value.leaves[i];
             DocOf(input, d).Some? && next in References(MANIFEST, DocOf(input, d).value)
    ensures Sound(input, Open(input, metadata, root).value.leaves, next)
  {
    var st := Open(input, metadata, root).value;
    var _ := AcceptedGraph(input, metadata, root);
    var doc := DocOf(input, st.leaves[i]).value;
    assert LeafShape(input, st.leaves[i]) && SubjectRecorded(input, st.attestations, st.leaves[i]);
    PartOf(doc, next);
    if doc.subject == Some(next) {
      var j :| 0 <= j < |st.attestations| && st.attestations[j].subject == KeyOf(next);
      var image := AcceptedGraphHasOneImage(input, metadata, root);
      assert KeyOf(next) == KeyOf(st.leaves[image]);
    }
  }

  /** What a sound descriptor names is sound. */
  lemma SoundStep(input: Input, metadata: nat, root: Document, d: Descriptor, next: Descriptor)
    requires Open(input, metadata, root).Some? && Sound(input, Open(input, metadata, root).value.leaves, d)
    requires DocOf(input, d).Some? && next in References(d.media, DocOf(input, d).value)
    ensures Sound(input, Open(input, metadata, root).value.leaves, next)
  {
    var leaves := Open(input, metadata, root).value.leaves;
    var i :| 0 <= i < |leaves| && leaves[i].digest == d.digest;
    assert DocOf(input, leaves[i]) == DocOf(input, d);
    PartsAreSound(input, metadata, root, i, next);
  }

  lemma LeavesAreSound(input: Input, metadata: nat, root: Document)
    requires Open(input, metadata, root).Some?
    ensures var leaves := Open(input, metadata, root).value.leaves;
            forall d :: d in leaves ==> Sound(input, leaves, d)
  {
    var _ := AcceptedGraph(input, metadata, root);
    var leaves := Open(input, metadata, root).value.leaves;
    forall d | d in leaves
      ensures Sound(input, leaves, d)
    {
      var i :| 0 <= i < |leaves| && leaves[i] == d;
      assert LeafShape(input, leaves[i]);
    }
  }

  // ----- both inputs -------------------------------------------------------------------

  /** The two opened inputs and their merged layout. */
  datatype Merge = Merge(lib: Library, a: Source, b: Source, version: string, revision: string) {
    function InputA(): Input { InputFor(lib, a, "amd64", version, revision) }

    function InputB(): Input { InputFor(lib, b, "arm64", version, revision) }

    function LeavesA(): seq<Descriptor> { OpenedLeaves(lib, a, "amd64", version, revision) }

    function LeavesB(): seq<Descriptor> { OpenedLeaves(lib, b, "arm64", version, revision) }

    function Leaves(): seq<Descriptor> { MergedLeaves(LeavesA(), LeavesB()) }

    function Published(): Layout { MergedLayout(lib, a, b, Leaves()) }

    function Inner(): Descriptor { InnerDescriptor(lib, lib.canonical(IndexOf(Leaves()))) }

    ghost predicate Opened() {
      Open(InputA(), a.metadata, a.root).Some? && Open(InputB(), b.metadata, b.root).Some?
    }

    ghost predicate Faithful() {
      Addressed(lib, a) && Addressed(lib, b) && IndexesComeBack(lib) && NoCollision(lib, Pool(lib, a, b, Leaves()))
    }

    ghost predicate FromA(d: Descriptor) { Sound(InputA(), LeavesA(), d) }

    ghost predicate FromB(d: Descriptor) { Sound(InputB(), LeavesB(), d) }

    /** d is the new inner index, or content of one of the inputs. */
    ghost predicate Known(d: Descriptor) {
      d == Inner() || FromA(d) || FromB(d)
    }
  }

  lemma InnerIsPublished(m: Merge)
    requires m.Opened() && m.Faithful()
    ensures m.lib.parse(m.Published().root) == Some(IndexOf([m.Inner()]))
    ensures Parsed(m.lib, m.Published().blobs, m.Inner()) == Some(IndexOf(m.Leaves()))
    ensures m.Inner().digest in m.Published().blobs && |m.Published().blobs[m.Inner().digest]| == m.Inner().size
  {
  }

  lemma LeafIsKnown(m: Merge, d: Descriptor)
    requires m.Opened() && d in m.Leaves()
    ensures m.FromA(d) || m.FromB(d)
  {
    MergedLeavesAreTheInputs(m.LeavesA(), m.LeavesB());
    assert d in multiset(m.Leaves());
    LeavesAreSound(m.InputA(), m.a.metadata, m.a.root);
    LeavesAreSound(m.InputB(), m.b.metadata, m.b.root);
  }

  /** What a known descriptor names in the merged layout is known. */
  lemma KnownStep(m: Merge, d: Descriptor, next: Descriptor)
    requires m.Opened() && m.Faithful() && m.Known(d) && Names(m.lib, m.Published().blobs, d, next)
    ensures m.Known(next)
  {
    MergedBlobsAreUnchanged(m.lib, m.a, m.b, m.Leaves());
    if d == m.Inner() {
      InnerIsPublished(m);
      LeafIsKnown(m, next);
    } else if m.FromA(d) {
      SoundStep(m.InputA(), m.a.metadata, m.a.root, d, next);
    } else {
      SoundStep(m.InputB(), m.b.metadata, m.b.root, d, next);
    }
  }

  lemma {:induction false} ChainIsKnown(m: Merge, path: seq<Descriptor>, k: nat)
    requires m.Opened() && m.Faithful() && Chain(m.lib, m.Published(), path) && k < |path|
    ensures m.Known(path[k])
  {
    if k == 0 {
      InnerIsPublished(m);
    } else {
      ChainIsKnown(m, path, k - 1);
      KnownStep(m, path[k - 1], path[k]);
    }
  }

  /**
   * Every descriptor that can be reached from the new index.json, along any chain of indexes, manifests, subjects,
   * configs and layers, resolves in the merged layout: a blob of the declared size under its own digest, which is the
   * new inner index or byte for byte what one of the inputs has under that digest; and an index or manifest parses.
   */
  lemma ReachableDescriptorsResolve(m: Merge, path: seq<Descriptor>, k: nat)
    requires m.Opened() && m.Faithful() && Chain(m.lib, m.Published(), path) && k < |path|
    ensures var d, blobs := path[k], m.Published().blobs;
            && d.digest in blobs && |blobs[d.digest]| == d.size && m.lib.sha(blobs[d.digest]) == d.digest
            && (|| (d == m.Inner() && blobs[d.digest] == m.lib.canonical(IndexOf(m.Leaves())))
                || (d.digest in m.a.blobs && blobs[d.digest] == m.a.blobs[d.digest])
                || (d.digest in m.b.blobs && blobs[d.digest] == m.b.blobs[d.digest]))
            && (d.media == INDEX || d.media == MANIFEST ==> Parsed(m.lib, blobs, d).Some?)
  {
    ChainIsKnown(m, path, k);
    MergedBlobsAreUnchanged(m.lib, m.a, m.b, m.Leaves());
    if path[k] == m.Inner() {
      InnerIsPublished(m);
    } else if m.FromA(path[k]) {
      SoundParses(m.InputA(), m.a.metadata, m.a.root, path[k]);
    } else {
      SoundParses(m.InputB(), m.b.metadata, m.b.root, path[k]);
    }
  }

  lemma SoundParses(input: Input, metadata: nat, root: Document, d: Descriptor)
    requires Open(input, metadata, root).Some? && Sound(input, Open(input, metadata, root).value.leaves, d)
    ensures d.media == MANIFEST ==> DocOf(input, d).Some?
  {
    var leaves := Open(input, metadata, root).value.leaves;
    if d.media == MANIFEST {
      var _ := AcceptedGraph(input, metadata, root);
      var i :| 0 <= i < |leaves| && leaves[i].digest == d.digest;
      assert LeafShape(input, leaves[i]);
    }
  }
}
