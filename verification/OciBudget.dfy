/** The root filesystem count of an opened archive. */
module OciBudget {
  import opened Common
  import opened OciGraph
  import opened OciTree
  import opened OciArchive

  /** The layers of a manifest's document, when they are all blobs. */
  function LayersOf(input: Input, d: Descriptor): (layers: seq<Descriptor>)
    ensures forall i :: 0 <= i < |layers| ==> layers[i].digest in input.blobs
  {
    var doc := DocOf(input, d);
    if doc.None? || doc.value.layers.None? then []
    else
      var layers := doc.value.layers.value;
      if forall i :: 0 <= i < |layers| ==> layers[i].digest in input.blobs then layers else []
  }

  /** The expanded bytes of all layers of an image, each occurrence counted. */
  function ImageBytes(input: Input, d: Descriptor): nat {
    TotalExpanded(input, LayersOf(input, d), |LayersOf(input, d)|)
  }

  function AllImageBytes(input: Input, leaves: seq<Descriptor>): nat {
    if leaves == [] then 0
    else
      var d := leaves[|leaves| - 1];
      AllImageBytes(input, leaves[..|leaves| - 1]) + if AttestationLeaf(input, d) then 0 else ImageBytes(input, d)
  }

  ghost predicate Charged(input: Input, st: State) {
    st.rootfs == AllImageBytes(input, st.leaves) <= MAX_ROOTFS_BYTES
  }

  lemma ImageIsCharged(input: Input, st: State, d: Descriptor, doc: Document)
    requires VisitImage(input, st, d, doc).Some? && DocOf(input, d) == Some(doc) && st.rootfs <= MAX_ROOTFS_BYTES
    ensures VisitImage(input, st, d, doc).value.rootfs == st.rootfs + ImageBytes(input, d) <= MAX_ROOTFS_BYTES
  {
    var details := ReadBlob(input, st.metadata, doc.config, {CONFIG}).value.doc;
    var layers := doc.layers.value;
    EveryOccurrenceIsCharged(input, st.rootfs, layers, details.diffIds.value, |layers|);
    assert LayersOf(input, d) == layers;
  }

  lemma LeafIsCharged(input: Input, st: State, d: Descriptor, doc: Document)
    requires VisitLeaf(input, st, d, doc).Some? && DocOf(input, d) == Some(doc) && Charged(input, st)
    ensures Charged(input, VisitLeaf(input, st, d, doc).value)
  {
    var after := VisitLeaf(input, st, d, doc).value;
    if !IsAttestation(d, doc) { ImageIsCharged(input, st, d, doc); }
    assert after.leaves == st.leaves + [d] && (st.leaves + [d])[..|st.leaves|] == st.leaves;
  }

  lemma {:induction false} VisitIsCharged(input: Input, st: State, d: Descriptor, depth: nat)
    requires depth <= 9 && Visit(input, st, d, depth).Some? && Charged(input, st)
    ensures Charged(input, Visit(input, st, d, depth).value)
    decreases 9 - depth, 0, 0
  {
    var read := ReadBlob(input, st.metadata, Some(d), {INDEX, MANIFEST}).value;
    var entered := st.(visited := st.visited + 1, metadata := read.metadata);
    if d.media == INDEX {
      var children := read.doc.manifests.value;
      VisitAllIsCharged(input, entered, children, |children|, depth + 1);
    } else {
      LeafIsCharged(input, entered, d, read.doc);
    }
  }

  lemma {:induction false} VisitAllIsCharged(input: Input, st: State, ds: seq<Descriptor>, count: nat, depth: nat)
    requires count <= |ds| && depth <= 9 && VisitAll(input, st, ds, count, depth).Some? && Charged(input, st)
    ensures Charged(input, VisitAll(input, st, ds, count, depth).value)
    decreases 9 - depth, 1, count
  {
    if count > 0 {
      VisitAllIsCharged(input, st, ds, count - 1, depth);
      VisitIsCharged(input, VisitAll(input, st, ds, count - 1, depth).value, ds[count - 1], depth);
    }
  }

  lemma {:induction false} OnlyImage(input: Input, leaves: seq<Descriptor>, image: nat, count: nat)
    requires image < |leaves| && count <= |leaves| && !AttestationLeaf(input, leaves[image])
    requires forall i :: 0 <= i < |leaves| && i != image ==> AttestationLeaf(input, leaves[i])
    ensures AllImageBytes(input, leaves[..count]) == if image < count then ImageBytes(input, leaves[image]) else 0
  {
    if count > 0 {
      OnlyImage(input, leaves, image, count - 1);
      assert leaves[..count][..count - 1] == leaves[..count - 1];
    }
  }

  /**
   * The root filesystem count of an opened archive is the expanded size of every layer occurrence of its one image,
   * and within the budget, although an expanded layer is remembered and not expanded again.
   */
  lemma OpenedImageIsCharged(input: Input, metadata: nat, root: Document, image: nat)
    requires Open(input, metadata, root).Some?
    requires var leaves := Open(input, metadata, root).value.leaves;
             image < |leaves| && !AttestationLeaf(input, leaves[image])
    ensures var st := Open(input, metadata, root).value;
            && DocOf(input, st.leaves[image]).Some? && DocOf(input, st.leaves[image]).value.layers.Some?
            && var layers := DocOf(input, st.leaves[image]).value.layers.value;
               && (forall i :: 0 <= i < |layers| ==> layers[i].digest in input.blobs)
               && st.rootfs == TotalExpanded(input, layers, |layers|) <= MAX_ROOTFS_BYTES
  {
    var st := Open(input, metadata, root).value;
    VisitAllIsCharged(input, START.(metadata := metadata), root.manifests.value, |root.manifests.value|, 0);
    var _ := AcceptedGraph(input, metadata, root);
    var other := AcceptedGraphHasOneImage(input, metadata, root);
    OnlyImage(input, st.leaves, image, |st.leaves|);
    TakeAll(st.leaves);
    assert LeafShape(input, st.leaves[image]);
    assert LayersOf(input, st.leaves[image]) == DocOf(input, st.leaves[image]).value.layers.value;
  }
}
