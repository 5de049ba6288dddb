/** Merging two opened archives into one layout. */
module OciMerge {
  import opened Common
  import opened OciGraph
  import opened OciTree
  import OciArchive
  import Sorting

  // ----- inputs ------------------------------------------------------------------------

  /** The library functions applied to bytes; canonical is the stable JSON encoding. */
  datatype Library = Library(
    sha: Bytes -> string,
    parse: Bytes -> Option<Document>,
    expand: (Media, Bytes) -> Option<Bytes>,
    canonical: Document -> Bytes)

  /** One archive file: its blobs, the metadata bytes read before the walk, and its index.json. */
  datatype Source = Source(blobs: map<string, Bytes>, metadata: nat, root: Document)

  function InputFor(lib: Library, source: Source, architecture: string, version: string, revision: string): Input {
    Input(source.blobs, "linux", architecture, version, revision, lib.sha, lib.parse, lib.expand)
  }

  predicate AsciiAlnum(c: char) {
    'a' <= c <= 'z' || 'A' <= c <= 'Z' || '0' <= c <= '9'
  }

  predicate ValidVersion(version: string) {
    && 1 <= |version| <= 128 && AsciiAlnum(version[0])
    && forall i :: 0 <= i < |version| ==> AsciiAlnum(version[i]) || version[i] in ".+-"
  }

  predicate ValidRevision(revision: string) {
    |revision| == 40 && forall i :: 0 <= i < 40 ==> '0' <= revision[i] <= '9' || 'a' <= revision[i] <= 'f'
  }

  // ----- the merged layout -------------------------------------------------------------

  function Os(d: Descriptor): string {
    if d.platform.Some? && d.platform.value.os.Some? then d.platform.value.os.value else ""
  }

  function Architecture(d: Descriptor): string {
    if d.platform.Some? && d.platform.value.architecture.Some? then d.platform.value.architecture.value else ""
  }

  /** The sort key (os is unknown, architecture, digest), compared like a tuple. */
  predicate LeafLe(a: Descriptor, b: Descriptor) {
    if (Os(a) == "unknown") != (Os(b) == "unknown") then Os(b) == "unknown"
    else if Architecture(a) != Architecture(b) then Sorting.StringLe(Architecture(a), Architecture(b))
    else Sorting.StringLe(a.digest, b.digest)
  }

  function IndexOf(manifests: seq<Descriptor>): Document {
    Document(Some(2), Some(INDEX), Some(manifests), None, None, None, None, Platform(None, None, None, false),
             None, None, None, false)
  }

  /** The published files: the root index and the blobs by digest. */
  datatype Layout = Layout(root: Bytes, blobs: map<string, Bytes>)

  function MergedLeaves(a: seq<Descriptor>, b: seq<Descriptor>): seq<Descriptor> {
    Sorting.Sort(LeafLe, a + b)
  }

  function InnerDescriptor(lib: Library, inner: Bytes): Descriptor {
    Descriptor(INDEX, lib.sha(inner), |inner|, None, map[], None, false, None)
  }

  function MergedLayout(lib: Library, a: Source, b: Source, leaves: seq<Descriptor>): Layout {
    var inner := lib.canonical(IndexOf(leaves));
    Layout(lib.canonical(IndexOf([InnerDescriptor(lib, inner)])), a.blobs + b.blobs + map[lib.sha(inner) := inner])
  }

  predicate SizesAgree(a: map<string, Bytes>, b: map<string, Bytes>) {
    forall digest :: digest in a && digest in b ==> |a[digest]| == |b[digest]|
  }

  /** Adding one archive's blobs to those collected so far. */
  method AddBlobs(collected: map<string, Bytes>, blobs: map<string, Bytes>) returns (r: Outcome<map<string, Bytes>>)
    ensures r.Returned? <==> SizesAgree(collected, blobs)
    ensures r.Returned? ==> r.value == collected + blobs
  {
    var result, remaining := collected, blobs.Keys;
    while remaining != {}
      invariant remaining <= blobs.Keys
      invariant forall digest :: digest in blobs.Keys - remaining && digest in collected ==>
                                   |collected[digest]| == |blobs[digest]|
      invariant result == collected + (blobs - remaining)
      decreases remaining
    {
      var digest :| digest in remaining;
      if digest in result && |result[digest]| != |blobs[digest]| { return Raised; }
      result := result[digest := blobs[digest]];
      remaining := remaining - {digest};
    }
    r := Returned(result);
  }

  predicate Mergeable(lib: Library, inputs: map<string, Source>, version: string, revision: string) {
    && inputs.Keys == {"linux/amd64", "linux/arm64"}
    && ValidVersion(version) && ValidRevision(revision)
    && var a, b := inputs["linux/amd64"], inputs["linux/arm64"];
       && Open(InputFor(lib, a, "amd64", version, revision), a.metadata, a.root).Some?
       && Open(InputFor(lib, b, "arm64", version, revision), b.metadata, b.root).Some?
       && SizesAgree(a.blobs, b.blobs)
  }

  function OpenedLeaves(lib: Library, source: Source, architecture: string, version: string,
                        revision: string): seq<Descriptor> {
    match Open(InputFor(lib, source, architecture, version, revision), source.metadata, source.root)
    case None => []
    case Some(st) => st.leaves
  }

  /** merge_archives: both inputs must be accepted, and the result is the merged layout. */
  method MergeArchives(lib: Library, inputs: map<string, Source>, version: string, revision: string)
    returns (r: Outcome<Layout>)
    ensures r.Returned? <==> Mergeable(lib, inputs, version, revision)
    ensures r.Returned? ==>
              var a, b := inputs["linux/amd64"], inputs["linux/arm64"];
              r.value == MergedLayout(lib, a, b, MergedLeaves(OpenedLeaves(lib, a, "amd64", version, revision),
                                                              OpenedLeaves(lib, b, "arm64", version, revision)))
  {
    if inputs.Keys != {"linux/amd64", "linux/arm64"} || !ValidVersion(version) || !ValidRevision(revision) {
      return Raised;
    }
    var a, b := inputs["linux/amd64"], inputs["linux/arm64"];
    var first := new OciArchive.Archive(InputFor(lib, a, "amd64", version, revision), a.metadata);
    var ok := first.OpenGraph(a.root);
    if !ok { return Raised; }
    var second := new OciArchive.Archive(InputFor(lib, b, "arm64", version, revision), b.metadata);
    ok := second.OpenGraph(b.root);
    if !ok { return Raised; }
    var leaves := Sorting.Sort(LeafLe, first.leaves + second.leaves);
    var inner := lib.canonical(IndexOf(leaves));
    var blobs := AddBlobs(map[], a.blobs);
    assert map[] + a.blobs == a.blobs;
    blobs := AddBlobs(blobs.value, b.blobs);
    if blobs.Raised? { return Raised; }
    r := Returned(Layout(lib.canonical(IndexOf([InnerDescriptor(lib, inner)])),
                         blobs.value + map[lib.sha(inner) := inner]));
  }

  // ----- the order of the leaves -------------------------------------------------------

  lemma LeafLeIsTotalPreorder()
    ensures Sorting.TotalPreorder(LeafLe)
  {
    forall x, y
      ensures LeafLe(x, y) || LeafLe(y, x)
    {
      Sorting.StringLeTotal(Architecture(x), Architecture(y));
      Sorting.StringLeTotal(x.digest, y.digest);
    }
    forall x, y, z | LeafLe(x, y) && LeafLe(y, z)
      ensures LeafLe(x, z)
    {
      LeafLeTransitive(x, y, z);
    }
  }

  lemma LeafLeTransitive(x: Descriptor, y: Descriptor, z: Descriptor)
    requires LeafLe(x, y) && LeafLe(y, z)
    ensures LeafLe(x, z)
  {
    if (Os(x) == "unknown") == (Os(y) == "unknown") == (Os(z) == "unknown") {
      var a, b, c := Architecture(x), Architecture(y), Architecture(z);
      if a == b == c {
        Sorting.StringLeTransitive(x.digest, y.digest, z.digest);
      } else if a != b && b != c {
        Sorting.StringLeTransitive(a, b, c);
        if a == c { Sorting.StringLeAntisymmetric(a, b); }
      }
    }
  }

  /** The merged index lists both inputs' leaves, each as often as before, runnable images first. */
  lemma MergedLeavesAreTheInputs(a: seq<Descriptor>, b: seq<Descriptor>)
    ensures multiset(MergedLeaves(a, b)) == multiset(a) + multiset(b)
    ensures forall i, j :: 0 <= i < j < |MergedLeaves(a, b)| && Os(MergedLeaves(a, b)[i]) == "unknown" ==>
                             Os(MergedLeaves(a, b)[j]) == "unknown"
  {
    LeafLeIsTotalPreorder();
    Sorting.SortKeepsElements(LeafLe, a + b);
    Sorting.SortSorts(LeafLe, a + b);
  }

  function Named(field: Option<string>): string {
    if field.Some? then field.value else ""
  }

  /**
   * The order of the merged index in full: leaves of unknown platform last, within these and within the others by
   * architecture, and within one architecture by digest, texts compared character by character.
   */
  lemma MergedOrder(a: seq<Descriptor>, b: seq<Descriptor>, i: nat, j: nat)
    requires i < j < |MergedLeaves(a, b)|
    requires forall d :: d in a + b ==> d.platform.Some?
    ensures MergedLeaves(a, b)[i].platform.Some? && MergedLeaves(a, b)[j].platform.Some?
    ensures var x, y := MergedLeaves(a, b)[i], MergedLeaves(a, b)[j];
            var p, q := x.platform.value, y.platform.value;
            && (p.os == Some("unknown") ==> q.os == Some("unknown"))
            && ((p.os == Some("unknown") <==> q.os == Some("unknown")) ==>
                  || Sorting.Precedes(Named(p.architecture), Named(q.architecture))
                  || (&& Named(p.architecture) == Named(q.architecture)
                      && (x.digest == y.digest || Sorting.Precedes(x.digest, y.digest))))
  {
    var leaves := MergedLeaves(a, b);
    LeafLeIsTotalPreorder();
    Sorting.SortKeepsElements(LeafLe, a + b);
    Sorting.SortSorts(LeafLe, a + b);
    assert leaves[i] in multiset(leaves) && leaves[j] in multiset(leaves);
    assert leaves[i] in multiset(a + b) && leaves[j] in multiset(a + b);
    Sorting.StringLeIsLexicographic(Architecture(leaves[i]), Architecture(leaves[j]));
    Sorting.StringLeIsLexicographic(leaves[i].digest, leaves[j].digest);
  }

  lemma EqualKeysEqualDigests(x: Descriptor, y: Descriptor)
    requires LeafLe(x, y) && LeafLe(y, x)
    ensures x.digest == y.digest
  {
    if Architecture(x) != Architecture(y) {
      Sorting.StringLeAntisymmetric(Architecture(x), Architecture(y));
    } else {
      Sorting.StringLeAntisymmetric(x.digest, y.digest);
    }
  }

  /** Leaves of the two inputs with one sort key are one descriptor. */
  ghost predicate KeysTellApart(a: seq<Descriptor>, b: seq<Descriptor>) {
    forall x, y :: x in a && y in b && LeafLe(x, y) && LeafLe(y, x) ==> x == y
  }

  /** Among leaves with different digests only one has the sort key of k. */
  lemma {:induction false} OnlyOneHasTheKey(k: Descriptor, s: seq<Descriptor>, i: nat)
    requires DistinctDigests(s) && i < |s| && LeafLe(k, s[i]) && LeafLe(s[i], k)
    ensures Sorting.SameKey(LeafLe, k, s) == [s[i]]
  {
    EqualKeysEqualDigests(k, s[i]);
    assert DistinctDigests(s[1..]) by { assert forall m :: 0 <= m < |s| - 1 ==> s[1..][m] == s[m + 1]; }
    if i == 0 {
      NoneHasTheKey(k, s[1..]);
    } else {
      if LeafLe(k, s[0]) && LeafLe(s[0], k) { EqualKeysEqualDigests(k, s[0]); }
      OnlyOneHasTheKey(k, s[1..], i - 1);
    }
  }

  lemma {:induction false} NoneHasTheKey(k: Descriptor, s: seq<Descriptor>)
    requires forall i :: 0 <= i < |s| ==> s[i].digest != k.digest
    ensures Sorting.SameKey(LeafLe, k, s) == []
  {
    if s != [] {
      if LeafLe(k, s[0]) && LeafLe(s[0], k) { EqualKeysEqualDigests(k, s[0]); }
      NoneHasTheKey(k, s[1..]);
    }
  }

  lemma SeparatedLeaves(a: seq<Descriptor>, b: seq<Descriptor>)
    requires DistinctDigests(a) && DistinctDigests(b) && KeysTellApart(a, b)
    ensures Sorting.SeparatesElements(LeafLe, a + b)
  {
    forall x, y | x in a + b && y in a + b && LeafLe(x, y) && LeafLe(y, x)
      ensures x == y
    {
      EqualKeysEqualDigests(x, y);
    }
  }

  /**
   * Whichever input comes first, the merged index is the same, exactly unless both have a leaf with one sort key but
   * different descriptors. Within one opened input the digests of leaves differ.
   */
  lemma MergeIgnoresInputOrder(a: seq<Descriptor>, b: seq<Descriptor>)
    requires DistinctDigests(a) && DistinctDigests(b)
    ensures MergedLeaves(a, b) == MergedLeaves(b, a) <==> KeysTellApart(a, b)
  {
    if KeysTellApart(a, b) {
      SeparatedLeaves(a, b);
      OneArrangement(a, b);
    } else {
      var x, y :| x in a && y in b && LeafLe(x, y) && LeafLe(y, x) && x != y;
      OrderShows(a, b, x, y);
    }
  }

  lemma OneArrangement(a: seq<Descriptor>, b: seq<Descriptor>)
    requires Sorting.SeparatesElements(LeafLe, a + b)
    ensures MergedLeaves(a, b) == MergedLeaves(b, a)
  {
    LeafLeIsTotalPreorder();
    Sorting.SortKeepsElements(LeafLe, a + b);
    Sorting.SortKeepsElements(LeafLe, b + a);
    Sorting.SortSorts(LeafLe, a + b);
    Sorting.SortSorts(LeafLe, b + a);
    assert multiset(a + b) == multiset(b + a);
    forall x | x in MergedLeaves(a, b)
      ensures x in a + b
    {
      assert x in multiset(a + b);
    }
    Sorting.SortedArrangementIsUnique(LeafLe, MergedLeaves(a, b), MergedLeaves(b, a));
  }

  lemma OrderShows(a: seq<Descriptor>, b: seq<Descriptor>, x: Descriptor, y: Descriptor)
    requires DistinctDigests(a) && DistinctDigests(b) && x in a && y in b && x != y && LeafLe(x, y) && LeafLe(y, x)
    ensures MergedLeaves(a, b) != MergedLeaves(b, a)
  {
    LeafLeIsTotalPreorder();
    var i :| 0 <= i < |a| && a[i] == x;
    var j :| 0 <= j < |b| && b[j] == y;
    OnlyOneHasTheKey(x, a, i);
    OnlyOneHasTheKey(x, b, j);
    Sorting.SameKeyConcat(LeafLe, x, a, b);
    Sorting.SameKeyConcat(LeafLe, x, b, a);
    Sorting.SortIsStable(LeafLe, x, a + b);
    Sorting.SortIsStable(LeafLe, x, b + a);
    assert [x] + [y] != [y] + [x] by { assert ([x] + [y])[0] != ([y] + [x])[0]; }
  }

  // ----- content -----------------------------------------------------------------------

  /** No two of these byte strings share a hash. */
  ghost predicate NoCollision(lib: Library, pool: set<Bytes>) {
    forall x, y :: x in pool && y in pool && lib.sha(x) == lib.sha(y) ==> x == y
  }

  ghost function Pool(lib: Library, a: Source, b: Source, leaves: seq<Descriptor>): set<Bytes> {
    a.blobs.Values + b.blobs.Values + {lib.canonical(IndexOf(leaves))}
  }

  ghost predicate Addressed(lib: Library, source: Source) {
    forall digest :: digest in source.blobs ==> lib.sha(source.blobs[digest]) == digest
  }

  /** Every blob of both inputs is in the merged layout, byte for byte, under the same digest. */
  lemma MergedBlobsAreUnchanged(lib: Library, a: Source, b: Source, leaves: seq<Descriptor>)
    requires Addressed(lib, a) && Addressed(lib, b) && NoCollision(lib, Pool(lib, a, b, leaves))
    ensures var blobs := MergedLayout(lib, a, b, leaves).blobs;
            && (forall digest :: digest in a.blobs ==> digest in blobs && blobs[digest] == a.blobs[digest])
            && (forall digest :: digest in b.blobs ==> digest in blobs && blobs[digest] == b.blobs[digest])
            && forall digest :: digest in blobs ==> lib.sha(blobs[digest]) == digest
  {
    forall digest | digest in MergedLayout(lib, a, b, leaves).blobs
      ensures digest in a.blobs ==> MergedLayout(lib, a, b, leaves).blobs[digest] == a.blobs[digest]
      ensures digest in b.blobs ==> MergedLayout(lib, a, b, leaves).blobs[digest] == b.blobs[digest]
      ensures lib.sha(MergedLayout(lib, a, b, leaves).blobs[digest]) == digest
    {
      MergedBlob(lib, a, b, leaves, digest);
    }
  }

  /** One blob of the merged layout has its own digest, and is what either input has under it. */
  lemma MergedBlob(lib: Library, a: Source, b: Source, leaves: seq<Descriptor>, digest: string)
    requires Addressed(lib, a) && Addressed(lib, b) && NoCollision(lib, Pool(lib, a, b, leaves))
    requires digest in MergedLayout(lib, a, b, leaves).blobs
    ensures var blob := MergedLayout(lib, a, b, leaves).blobs[digest];
            && lib.sha(blob) == digest
            && (digest in a.blobs ==> blob == a.blobs[digest])
            && (digest in b.blobs ==> blob == b.blobs[digest])
  {
    var blob := MergedLayout(lib, a, b, leaves).blobs[digest];
    var pool := Pool(lib, a, b, leaves);
    assert digest in a.blobs ==> a.blobs[digest] in a.blobs.Values;
    assert digest in b.blobs ==> b.blobs[digest] in b.blobs.Values;
    assert blob in pool;
  }

  /** The canonical JSON of a merged index parses to that index. */
  ghost predicate IndexesComeBack(lib: Library) {
    forall manifests :: lib.parse(lib.canonical(IndexOf(manifests))) == Some(IndexOf(manifests))
  }

  /** The merged layout read as an input for one architecture. */
  function MergedInput(lib: Library, layout: Layout, architecture: string, version: string, revision: string): Input {
    InputFor(lib, Source(layout.blobs, 0, IndexOf([])), architecture, version, revision)
  }

  /**
   * The descriptors that the merge writes resolve: the root names the inner index, which parses to the merged
   * leaves, and each leaf is a valid blob of the merged layout.
   */
  lemma MergedDescriptorsResolve(lib: Library, a: Source, b: Source, version: string, revision: string)
    requires Open(InputFor(lib, a, "amd64", version, revision), a.metadata, a.root).Some?
    requires Open(InputFor(lib, b, "arm64", version, revision), b.metadata, b.root).Some?
    requires Addressed(lib, a) && Addressed(lib, b)
    requires IndexesComeBack(lib)
    requires var leaves := MergedLeaves(OpenedLeaves(lib, a, "amd64", version, revision),
                                        OpenedLeaves(lib, b, "arm64", version, revision));
             NoCollision(lib, Pool(lib, a, b, leaves))
    ensures var leaves := MergedLeaves(OpenedLeaves(lib, a, "amd64", version, revision),
                                       OpenedLeaves(lib, b, "arm64", version, revision));
            var layout := MergedLayout(lib, a, b, leaves);
            var inner := InnerDescriptor(lib, lib.canonical(IndexOf(leaves)));
            && lib.parse(layout.root) == Some(IndexOf([inner]))
            && inner.digest in layout.blobs && |layout.blobs[inner.digest]| == inner.size
            && lib.parse(layout.blobs[inner.digest]) == Some(IndexOf(leaves))
            && forall i :: 0 <= i < |leaves| ==>
                             ValidBlob(MergedInput(lib, layout, "amd64", version, revision), leaves[i], {MANIFEST})
  {
    var la, lb := OpenedLeaves(lib, a, "amd64", version, revision), OpenedLeaves(lib, b, "arm64", version, revision);
    var leaves := MergedLeaves(la, lb);
    var layout := MergedLayout(lib, a, b, leaves);
    MergedBlobsAreUnchanged(lib, a, b, leaves);
    LeavesAreBlobs(lib, a, "amd64", version, revision);
    LeavesAreBlobs(lib, b, "arm64", version, revision);
    Sorting.SortKeepsElements(LeafLe, la + lb);
    forall i | 0 <= i < |leaves|
      ensures ValidBlob(MergedInput(lib, layout, "amd64", version, revision), leaves[i], {MANIFEST})
    {
      assert leaves[i] in multiset(leaves);
      assert leaves[i] in la || leaves[i] in lb;
    }
  }

  lemma LeavesAreBlobs(lib: Library, source: Source, architecture: string, version: string, revision: string)
    requires Open(InputFor(lib, source, architecture, version, revision), source.metadata, source.root).Some?
    ensures forall d :: d in OpenedLeaves(lib, source, architecture, version, revision) ==>
                          ValidBlob(InputFor(lib, source, architecture, version, revision), d, {MANIFEST})
  {
    var input := InputFor(lib, source, architecture, version, revision);
    var _ := AcceptedGraph(input, source.metadata, source.root);
    var leaves := OpenedLeaves(lib, source, architecture, version, revision);
    forall d | d in leaves
      ensures ValidBlob(input, d, {MANIFEST})
    {
      var k :| 0 <= k < |leaves| && leaves[k] == d;
      assert LeafShape(input, leaves[k]);
    }
  }

  /** A leaf of an accepted input has an unknown platform exactly if its document is an attestation. */
  lemma UnknownMeansAttestation(lib: Library, source: Source, architecture: string, version: string, revision: string,
                                d: Descriptor)
    requires Open(InputFor(lib, source, architecture, version, revision), source.metadata, source.root).Some?
    requires d in OpenedLeaves(lib, source, architecture, version, revision)
    ensures Os(d) == "unknown" <==> AttestationLeaf(InputFor(lib, source, architecture, version, revision), d)
  {
    var input := InputFor(lib, source, architecture, version, revision);
    var _ := AcceptedGraph(input, source.metadata, source.root);
    var leaves := OpenedLeaves(lib, source, architecture, version, revision);
    var k :| 0 <= k < |leaves| && leaves[k] == d;
    assert LeafShape(input, leaves[k]);
  }

  /** A leaf of this input that is an attestation, or an image, there. */
  ghost predicate LeafOfKind(lib: Library, source: Source, architecture: string, version: string, revision: string,
                             d: Descriptor, attestation: bool)
    requires Open(InputFor(lib, source, architecture, version, revision), source.metadata, source.root).Some?
  {
    && d in OpenedLeaves(lib, source, architecture, version, revision)
    && AttestationLeaf(InputFor(lib, source, architecture, version, revision), d) == attestation
  }

  /** In the merged index no image of either input comes behind an attestation of either input. */
  lemma ImagesComeFirst(lib: Library, a: Source, b: Source, version: string, revision: string, i: nat, j: nat)
    requires Open(InputFor(lib, a, "amd64", version, revision), a.metadata, a.root).Some?
    requires Open(InputFor(lib, b, "arm64", version, revision), b.metadata, b.root).Some?
    requires var leaves := MergedLeaves(OpenedLeaves(lib, a, "amd64", version, revision),
                                        OpenedLeaves(lib, b, "arm64", version, revision));
             && i < j < |leaves|
             && (|| LeafOfKind(lib, a, "amd64", version, revision, leaves[i], true)
                 || LeafOfKind(lib, b, "arm64", version, revision, leaves[i], true))
    ensures var leaves := MergedLeaves(OpenedLeaves(lib, a, "amd64", version, revision),
                                       OpenedLeaves(lib, b, "arm64", version, revision));
            && !LeafOfKind(lib, a, "amd64", version, revision, leaves[j], false)
            && !LeafOfKind(lib, b, "arm64", version, revision, leaves[j], false)
  {
    var la, lb := OpenedLeaves(lib, a, "amd64", version, revision), OpenedLeaves(lib, b, "arm64", version, revision);
    var leaves := MergedLeaves(la, lb);
    MergedLeavesAreTheInputs(la, lb);
    forall d | d in la
      ensures Os(d) == "unknown" <==> AttestationLeaf(InputFor(lib, a, "amd64", version, revision), d)
    {
      UnknownMeansAttestation(lib, a, "amd64", version, revision, d);
    }
    forall d | d in lb
      ensures Os(d) == "unknown" <==> AttestationLeaf(InputFor(lib, b, "arm64", version, revision), d)
    {
      UnknownMeansAttestation(lib, b, "arm64", version, revision, d);
    }
  }

  /** The images of the two platforms are different content: one config cannot name both architectures. */
  lemma ImagesOfPlatformsDiffer(lib: Library, a: Source, b: Source, version: string, revision: string, i: nat, j: nat)
    requires Open(InputFor(lib, a, "amd64", version, revision), a.metadata, a.root).Some?
    requires Open(InputFor(lib, b, "arm64", version, revision), b.metadata, b.root).Some?
    requires Addressed(lib, a) && Addressed(lib, b) && NoCollision(lib, Pool(lib, a, b, []))
    requires i < |OpenedLeaves(lib, a, "amd64", version, revision)|
    requires j < |OpenedLeaves(lib, b, "arm64", version, revision)|
    requires !AttestationLeaf(InputFor(lib, a, "amd64", version, revision),
                              OpenedLeaves(lib, a, "amd64", version, revision)[i])
    requires !AttestationLeaf(InputFor(lib, b, "arm64", version, revision),
                              OpenedLeaves(lib, b, "arm64", version, revision)[j])
    ensures OpenedLeaves(lib, a, "amd64", version, revision)[i].digest
         != OpenedLeaves(lib, b, "arm64", version, revision)[j].digest
  {
    var inputA, inputB := InputFor(lib, a, "amd64", version, revision), InputFor(lib, b, "arm64", version, revision);
    var _ := AcceptedGraph(inputA, a.metadata, a.root);
    var _ := AcceptedGraph(inputB, b.metadata, b.root);
    var x := OpenedLeaves(lib, a, "amd64", version, revision)[i];
    var y := OpenedLeaves(lib, b, "arm64", version, revision)[j];
    assert LeafShape(inputA, x) && LeafShape(inputB, y);
    if x.digest == y.digest {
      SameDocument(lib, a, b, version, revision, x.digest);
      SameDocument(lib, a, b, version, revision, DocOf(inputA, x).value.config.value.digest);
    }
  }

  lemma SameDocument(lib: Library, a: Source, b: Source, version: string, revision: string, digest: string)
    requires Addressed(lib, a) && Addressed(lib, b) && NoCollision(lib, Pool(lib, a, b, []))
    requires digest in a.blobs && digest in b.blobs
    ensures a.blobs[digest] == b.blobs[digest]
  {
    assert a.blobs[digest] in a.blobs.Values && b.blobs[digest] in b.blobs.Values;
  }
}
