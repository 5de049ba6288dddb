/** What an accepted walk says about the graph: it is a tree with one image. */
module OciTree {
  import opened Common
  import opened OciGraph

  /** The unfolding of a descriptor: an index with its children, or a manifest. */
  datatype Tree = Leaf(d: Descriptor) | Branch(d: Descriptor, children: seq<Tree>)

  /** t is what the blobs say hangs below t.d. */
  ghost predicate Unfolds(input: Input, t: Tree)
    decreases t
  {
    && ValidBlob(input, t.d, {INDEX, MANIFEST}) && input.parse(input.blobs[t.d.digest]).Some?
    && var doc := input.parse(input.blobs[t.d.digest]).value;
       && doc.mediaType in {None, Some(t.d.media)}
       && match t
          case Leaf(d) => d.media == MANIFEST
          case Branch(d, children) => d.media == INDEX && UnfoldsIndex(input, doc, children)
  }

  ghost predicate UnfoldsIndex(input: Input, doc: Document, children: seq<Tree>)
    decreases children
  {
    && IndexShape(doc) && |doc.manifests.value| == |children|
    && forall i :: 0 <= i < |children| ==> children[i].d == doc.manifests.value[i] && Unfolds(input, children[i])
  }

  function LeavesOf(t: Tree): seq<Descriptor>
    decreases t, 0
  {
    match t
    case Leaf(d) => [d]
    case Branch(_, children) => AllLeaves(children, |children|)
  }

  function AllLeaves(ts: seq<Tree>, count: nat): seq<Descriptor>
    requires count <= |ts|
    decreases ts, count
  {
    if count == 0 then [] else AllLeaves(ts, count - 1) + LeavesOf(ts[count - 1])
  }

  function Nodes(t: Tree): nat
    decreases t, 0
  {
    match t
    case Leaf(_) => 1
    case Branch(_, children) => 1 + AllNodes(children, |children|)
  }

  function AllNodes(ts: seq<Tree>, count: nat): nat
    requires count <= |ts|
    decreases ts, count
  {
    if count == 0 then 0 else AllNodes(ts, count - 1) + Nodes(ts[count - 1])
  }

  /** No node of t, placed at `depth`, lies deeper than the walk allows. */
  ghost predicate WithinDepth(t: Tree, depth: nat) {
    depth <= 8 && (t.Branch? ==> forall i :: 0 <= i < |t.children| ==> WithinDepth(t.children[i], depth + 1))
  }

  ghost predicate DistinctDigests(ds: seq<Descriptor>) {
    forall i, j :: 0 <= i < j < |ds| ==> ds[i].digest != ds[j].digest
  }

  function DocOf(input: Input, d: Descriptor): Option<Document> {
    if d.digest in input.blobs then input.parse(input.blobs[d.digest]) else None
  }

  predicate AttestationLeaf(input: Input, d: Descriptor) {
    DocOf(input, d).Some? && IsAttestation(d, DocOf(input, d).value)
  }

  /** Images and attestations are the leaves, split by kind and in walk order. */
  function ImageKeys(input: Input, leaves: seq<Descriptor>): seq<Key> {
    if leaves == [] then []
    else
      var d := leaves[|leaves| - 1];
      ImageKeys(input, leaves[..|leaves| - 1]) + if AttestationLeaf(input, d) then [] else [KeyOf(d)]
  }

  function AttestationDigests(input: Input, leaves: seq<Descriptor>): seq<string> {
    if leaves == [] then []
    else
      var d := leaves[|leaves| - 1];
      AttestationDigests(input, leaves[..|leaves| - 1]) + if AttestationLeaf(input, d) then [d.digest] else []
  }

  function Keys(images: seq<Image>): seq<Key> {
    seq(|images|, i requires 0 <= i < |images| => images[i].descriptor)
  }

  function Digests(attestations: seq<Attested>): seq<string> {
    seq(|attestations|, i requires 0 <= i < |attestations| => attestations[i].digest)
  }

  /** The descriptors that a document refers to, by the media type it is read as. */
  function References(media: Media, doc: Document): seq<Descriptor> {
    if media == INDEX then if doc.manifests.Some? then doc.manifests.value else []
    else if media == MANIFEST then
      (if doc.config.Some? then [doc.config.value] else [])
      + (if doc.layers.Some? then doc.layers.value else [])
      + (if doc.subject.Some? then [doc.subject.value] else [])
    else []
  }

  /** Config, layers and subject of a leaf are blobs of their declared sizes, and only the subject is a manifest. */
  predicate LeafParts(input: Input, doc: Document) {
    && doc.config.Some? && ValidBlob(input, doc.config.value, {CONFIG, EMPTY_CONFIG})
    && doc.layers.Some?
    && (forall i :: 0 <= i < |doc.layers.value| ==> ValidBlob(input, doc.layers.value[i], LAYER_TYPES + {IN_TOTO}))
    && (doc.subject.Some? ==> ValidBlob(input, doc.subject.value, {MANIFEST}))
  }

  /** A leaf's platform agrees with its kind, and an image's also with its config. */
  predicate LeafShape(input: Input, d: Descriptor) {
    && ValidBlob(input, d, {MANIFEST}) && DocOf(input, d).Some? && LeafParts(input, DocOf(input, d).value)
    && if AttestationLeaf(input, d) then AttestationPlatform(d)
       else
         var doc := DocOf(input, d).value;
         && doc.config.Some? && DocOf(input, doc.config.value).Some?
         && ImagePlatform(input, d, DocOf(input, doc.config.value).value)
  }

  /** A leaf's subject is one that an attestation has recorded. */
  predicate SubjectRecorded(input: Input, attestations: seq<Attested>, d: Descriptor) {
    DocOf(input, d).Some? && DocOf(input, d).value.subject.Some? ==>
      exists j :: 0 <= j < |attestations| && attestations[j].subject == KeyOf(DocOf(input, d).value.subject.value)
  }

  /** Every leaf is recorded once, under its kind. */
  ghost predicate Recorded(input: Input, st: State) {
    && DistinctDigests(st.leaves)
    && (forall i :: 0 <= i < |st.leaves| ==> LeafShape(input, st.leaves[i]))
    && (forall i :: 0 <= i < |st.leaves| ==> SubjectRecorded(input, st.attestations, st.leaves[i]))
    && Keys(st.images) == ImageKeys(input, st.leaves)
    && Digests(st.attestations) == AttestationDigests(input, st.leaves)
  }

  // ----- the walk unfolds a tree -------------------------------------------------------

  lemma {:induction false} StatementsAreBlobs(input: Input, metadata: nat, layers: seq<Descriptor>, subject: Key,
                                              count: nat)
    requires count <= |layers| && ReadStatements(input, metadata, layers, subject, count).Some?
    ensures forall i :: 0 <= i < count ==> ValidBlob(input, layers[i], {IN_TOTO})
  {
    if count > 0 { StatementsAreBlobs(input, metadata, layers, subject, count - 1); }
  }

  lemma ImageParts(input: Input, st: State, d: Descriptor, doc: Document)
    requires PlainImage(d, doc) && VisitImage(input, st, d, doc).Some?
    ensures LeafParts(input, doc) && doc.subject.None?
  {
  }

  lemma AttestationParts(input: Input, st: State, d: Descriptor, doc: Document)
    requires VisitAttestation(input, st, d, doc).Some?
    ensures LeafParts(input, doc)
    ensures var after := VisitAttestation(input, st, d, doc).value.attestations;
            && |after| == |st.attestations| + 1 && after[..|st.attestations|] == st.attestations
            && (doc.subject.Some? ==> after[|st.attestations|].subject == KeyOf(doc.subject.value))
  {
    var (subject, metadata) := AttestationSubject(input, st, d, doc).value;
    StatementsAreBlobs(input, metadata, doc.layers.value, subject, |doc.layers.value|);
  }

  /** The parts and the subject of a visited leaf are recorded. */
  lemma LeafPartsRecorded(input: Input, st: State, d: Descriptor, doc: Document)
    requires VisitLeaf(input, st, d, doc).Some? && Recorded(input, st) && DocOf(input, d) == Some(doc)
    ensures LeafParts(input, doc)
    ensures var after := VisitLeaf(input, st, d, doc).value;
            && after.leaves == st.leaves + [d]
            && forall i :: 0 <= i < |after.leaves| ==> SubjectRecorded(input, after.attestations, after.leaves[i])
  {
    var after := VisitLeaf(input, st, d, doc).value;
    if IsAttestation(d, doc) {
      AttestationParts(input, st, d, doc);
    } else {
      ImageParts(input, st, d, doc);
    }
    var before := st.attestations;
    assert |before| <= |after.attestations| && after.attestations[..|before|] == before;
    assert SubjectRecorded(input, after.attestations, d) by {
      if doc.subject.Some? { assert after.attestations[|before|].subject == KeyOf(doc.subject.value); }
    }
    forall i | 0 <= i < |st.leaves|
      ensures SubjectRecorded(input, after.attestations, st.leaves[i])
    {
      MoreAttestations(input, before, after.attestations, st.leaves[i]);
    }
  }

  lemma MoreAttestations(input: Input, before: seq<Attested>, after: seq<Attested>, d: Descriptor)
    requires SubjectRecorded(input, before, d) && |before| <= |after| && after[..|before|] == before
    ensures SubjectRecorded(input, after, d)
  {
    if DocOf(input, d).Some? && DocOf(input, d).value.subject.Some? {
      var key := KeyOf(DocOf(input, d).value.subject.value);
      var j :| 0 <= j < |before| && before[j].subject == key;
      assert after[j] == before[j];
    }
  }

  lemma LeafIsRecorded(input: Input, st: State, d: Descriptor, doc: Document)
    requires VisitLeaf(input, st, d, doc).Some? && Recorded(input, st) && DocOf(input, d) == Some(doc)
    requires ValidBlob(input, d, {MANIFEST})
    ensures var after := VisitLeaf(input, st, d, doc).value;
            after.leaves == st.leaves + [d] && after.visited == st.visited && Recorded(input, after)
  {
    var after := VisitLeaf(input, st, d, doc).value;
    assert after.leaves[..|st.leaves|] == st.leaves;
    var mid := if IsAttestation(d, doc) then VisitAttestation(input, st, d, doc) else VisitImage(input, st, d, doc);
    assert mid.value.leaves == st.leaves && !HasLeaf(st.leaves, d.digest);
    LeafPartsRecorded(input, st, d, doc);
    if IsAttestation(d, doc) {
      assert Digests(after.attestations) == Digests(st.attestations) + [d.digest];
    } else {
      assert Keys(after.images) == Keys(st.images) + [KeyOf(d)];
    }
  }

  /** t is the unfolding of d, within the depth the walk allows. */
  ghost predicate Hangs(input: Input, d: Descriptor, t: Tree, depth: nat) {
    t.d == d && Unfolds(input, t) && WithinDepth(t, depth)
  }

  ghost predicate HangAll(input: Input, ds: seq<Descriptor>, ts: seq<Tree>, count: nat, depth: nat) {
    count == |ts| <= |ds| && forall i :: 0 <= i < count ==> Hangs(input, ds[i], ts[i], depth)
  }

  /** The walk over ts took one state to the other. */
  ghost predicate Walked(input: Input, st: State, after: State, ts: seq<Tree>) {
    && after.leaves == st.leaves + AllLeaves(ts, |ts|)
    && after.visited == st.visited + AllNodes(ts, |ts|) <= 1024
    && Recorded(input, after)
  }

  lemma WalkedOneMore(input: Input, st: State, before: State, after: State, first: seq<Tree>, last: Tree, ts: seq<Tree>)
    requires Walked(input, st, before, first) && ts == first + [last]
    requires after.leaves == before.leaves + LeavesOf(last)
    requires after.visited == before.visited + Nodes(last) <= 1024 && Recorded(input, after)
    ensures Walked(input, st, after, ts)
  {
    OneMoreTree(first, last, ts, st.leaves);
  }

  lemma {:induction false} VisitUnfolds(input: Input, st: State, d: Descriptor, depth: nat) returns (t: Tree)
    requires depth <= 9 && Visit(input, st, d, depth).Some? && Recorded(input, st)
    ensures var after := Visit(input, st, d, depth).value;
            && Hangs(input, d, t, depth)
            && after.leaves == st.leaves + LeavesOf(t)
            && after.visited == st.visited + Nodes(t) <= 1024
            && Recorded(input, after)
    decreases 9 - depth, 0, 0
  {
    var read := ReadBlob(input, st.metadata, Some(d), {INDEX, MANIFEST}).value;
    var entered := st.(visited := st.visited + 1, metadata := read.metadata);
    if d.media == INDEX {
      var doc := read.doc;
      var children := VisitAllUnfolds(input, entered, doc.manifests.value, |doc.manifests.value|, depth + 1);
      t := Branch(d, children);
      assert Walked(input, entered, Visit(input, st, d, depth).value, children);
      assert forall i :: 0 <= i < |children| ==> Hangs(input, doc.manifests.value[i], children[i], depth + 1);
    } else {
      LeafIsRecorded(input, entered, d, read.doc);
      t := Leaf(d);
    }
  }

  lemma {:induction false} VisitAllUnfolds(input: Input, st: State, ds: seq<Descriptor>, count: nat, depth: nat)
    returns (ts: seq<Tree>)
    requires count <= |ds| && depth <= 9 && VisitAll(input, st, ds, count, depth).Some? && Recorded(input, st)
    requires st.visited <= 1024
    ensures var after := VisitAll(input, st, ds, count, depth).value;
            HangAll(input, ds, ts, count, depth) && Walked(input, st, after, ts)
    decreases 9 - depth, 1, count
  {
    if count == 0 {
      ts := [];
    } else {
      var before := VisitAll(input, st, ds, count - 1, depth).value;
      var first := VisitAllUnfolds(input, st, ds, count - 1, depth);
      var last := VisitUnfolds(input, before, ds[count - 1], depth);
      assert VisitAll(input, st, ds, count, depth) == Visit(input, before, ds[count - 1], depth);
      ts := first + [last];
      WalkedOneMore(input, st, before, VisitAll(input, st, ds, count, depth).value, first, last, ts);
    }
  }

  lemma OneMoreTree(first: seq<Tree>, last: Tree, ts: seq<Tree>, leaves: seq<Descriptor>)
    requires ts == first + [last]
    ensures AllNodes(ts, |ts|) == AllNodes(first, |first|) + Nodes(last)
    ensures leaves + AllLeaves(ts, |ts|) == leaves + AllLeaves(first, |first|) + LeavesOf(last)
  {
    PrefixSums(first, ts, |first|);
    LastTree(ts, |first|, last);
    Grouped(leaves, AllLeaves(first, |first|), LeavesOf(last));
  }

  lemma LastTree(ts: seq<Tree>, n: nat, last: Tree)
    requires n < |ts| && ts[n] == last
    ensures AllNodes(ts, n + 1) == AllNodes(ts, n) + Nodes(last)
    ensures AllLeaves(ts, n + 1) == AllLeaves(ts, n) + LeavesOf(last)
  {
  }

  lemma Grouped(a: seq<Descriptor>, b: seq<Descriptor>, c: seq<Descriptor>)
    ensures a + (b + c) == a + b + c
  {
  }

  lemma {:induction false} PrefixSums(a: seq<Tree>, b: seq<Tree>, count: nat)
    requires count <= |a| <= |b| && a == b[..|a|]
    ensures AllLeaves(a, count) == AllLeaves(b, count) && AllNodes(a, count) == AllNodes(b, count)
  {
    if count > 0 {
      PrefixSums(a, b, count - 1);
      assert a[count - 1] == b[count - 1];
    }
  }

  // ----- positions ---------------------------------------------------------------------

  /** Child numbers from the root down to a node. */
  type Path = seq<nat>

  function At(t: Tree, path: Path): Option<Tree>
    decreases |path|
  {
    if path == [] then Some(t)
    else if t.Branch? && path[0] < |t.children| then At(t.children[path[0]], path[1..])
    else None
  }

  lemma {:induction false} AtConcat(t: Tree, p: Path, q: Path)
    requires At(t, p).Some?
    ensures At(t, p + q) == At(At(t, p).value, q)
    decreases |p|
  {
    if p == [] {
      assert p + q == q;
    } else {
      assert (p + q)[1..] == p[1..] + q;
      AtConcat(t.children[p[0]], p[1..], q);
    }
  }

  lemma {:induction false} AtUnfolds(input: Input, t: Tree, p: Path)
    requires Unfolds(input, t) && At(t, p).Some?
    ensures Unfolds(input, At(t, p).value)
    decreases |p|
  {
    if p != [] {
      AtUnfolds(input, t.children[p[0]], p[1..]);
    }
  }

  /** Every index leads to a manifest, because no index is empty. */
  lemma {:induction false} LeafBelow(input: Input, t: Tree) returns (p: Path)
    requires Unfolds(input, t)
    ensures At(t, p).Some? && At(t, p).value.Leaf?
    decreases t
  {
    match t {
      case Leaf(_) => p := [];
      case Branch(_, children) =>
        var q := LeafBelow(input, children[0]);
        p := [0] + q;
        assert p[1..] == q;
    }
  }

  /** Blobs are content-addressed, so a descriptor's media and digest determine what hangs below. */
  lemma {:induction false} SameContentSameTree(input: Input, a: Tree, b: Tree)
    requires Unfolds(input, a) && Unfolds(input, b)
    requires a.d.media == b.d.media && a.d.digest == b.d.digest
    ensures a.Leaf? == b.Leaf?
    ensures a.Branch? ==> a.children == b.children
    decreases a
  {
    if a.Branch? {
      assert |a.children| == |b.children|;
      forall i | 0 <= i < |a.children|
        ensures a.children[i] == b.children[i]
      {
        SameContentSameTree(input, a.children[i], b.children[i]);
      }
    }
  }

  lemma {:induction false} LeavesSplit(ts: seq<Tree>, i: nat, count: nat)
    requires i < count <= |ts|
    ensures exists after :: AllLeaves(ts, count) == AllLeaves(ts, i) + LeavesOf(ts[i]) + after
    decreases count
  {
    if count == i + 1 {
      assert AllLeaves(ts, count) == AllLeaves(ts, i) + LeavesOf(ts[i]) + [];
    } else {
      LeavesSplit(ts, i, count - 1);
      var after :| AllLeaves(ts, count - 1) == AllLeaves(ts, i) + LeavesOf(ts[i]) + after;
      assert AllLeaves(ts, count) == AllLeaves(ts, i) + LeavesOf(ts[i]) + (after + LeavesOf(ts[count - 1]));
    }
  }

  lemma {:induction false} LeafAtIsListed(t: Tree, p: Path)
    requires At(t, p).Some? && At(t, p).value.Leaf?
    ensures At(t, p).value.d in LeavesOf(t)
    decreases |p|
  {
    if p != [] {
      LeafAtIsListed(t.children[p[0]], p[1..]);
      LeavesSplit(t.children, p[0], |t.children|);
    }
  }

  lemma {:induction false} EarlierLeafIsListed(ts: seq<Tree>, i: nat, count: nat, d: Descriptor)
    requires i < count <= |ts| && d in LeavesOf(ts[i])
    ensures d in AllLeaves(ts, count)
  {
    LeavesSplit(ts, i, count);
  }

  /** With distinct leaf digests, a leaf digest has one position. */
  lemma {:induction false} LeafHasOnePath(t: Tree, p: Path, q: Path)
    requires DistinctDigests(LeavesOf(t))
    requires At(t, p).Some? && At(t, p).value.Leaf? && At(t, q).Some? && At(t, q).value.Leaf?
    requires At(t, p).value.d.digest == At(t, q).value.d.digest
    ensures p == q
    decreases |p|
  {
    if t.Branch? {
      var i, j := p[0], q[0];
      if i == j {
        LeavesSplit(t.children, i, |t.children|);
        DistinctInside(AllLeaves(t.children, i), LeavesOf(t.children[i]), LeavesOf(t));
        LeafHasOnePath(t.children[i], p[1..], q[1..]);
        assert p == [i] + p[1..] && q == [j] + q[1..];
      } else if i < j {
        LeavesApart(t, p, q);
      } else {
        LeavesApart(t, q, p);
      }
    }
  }

  lemma DistinctInside(before: seq<Descriptor>, inside: seq<Descriptor>, whole: seq<Descriptor>)
    requires DistinctDigests(whole)
    requires exists after :: whole == before + inside + after
    ensures DistinctDigests(inside)
  {
    var after :| whole == before + inside + after;
    forall i, j | 0 <= i < j < |inside|
      ensures inside[i].digest != inside[j].digest
    {
      assert whole[|before| + i] == inside[i] && whole[|before| + j] == inside[j];
    }
  }

  lemma LeavesApart(t: Tree, p: Path, q: Path)
    requires t.Branch? && p != [] && q != [] && p[0] < q[0]
    requires At(t, p).Some? && At(t, p).value.Leaf? && At(t, q).Some? && At(t, q).value.Leaf?
    requires At(t, p).value.d.digest == At(t, q).value.d.digest
    ensures !DistinctDigests(LeavesOf(t))
  {
    var i, j := p[0], q[0];
    var x, y := At(t, p).value.d, At(t, q).value.d;
    LeafAtIsListed(t.children[i], p[1..]);
    LeafAtIsListed(t.children[j], q[1..]);
    EarlierLeafIsListed(t.children, i, j, x);
    LeavesSplit(t.children, j, |t.children|);
    var after :| LeavesOf(t) == AllLeaves(t.children, j) + LeavesOf(t.children[j]) + after;
    var a :| 0 <= a < |AllLeaves(t.children, j)| && AllLeaves(t.children, j)[a] == x;
    var b :| 0 <= b < |LeavesOf(t.children[j])| && LeavesOf(t.children[j])[b] == y;
    assert LeavesOf(t)[a] == x && LeavesOf(t)[|AllLeaves(t.children, j)| + b] == y;
  }

  /** Two positions with the same content are the same position: the unfolding shares nothing. */
  lemma NodeHasOnePath(input: Input, t: Tree, p: Path, q: Path)
    requires t.Branch? && (forall i :: 0 <= i < |t.children| ==> Unfolds(input, t.children[i]))
    requires DistinctDigests(LeavesOf(t))
    requires p != [] && q != [] && At(t, p).Some? && At(t, q).Some?
    requires At(t, p).value.d.media == At(t, q).value.d.media
    requires At(t, p).value.d.digest == At(t, q).value.d.digest
    ensures p == q
  {
    var a, b := At(t, p).value, At(t, q).value;
    AtUnfolds(input, t.children[p[0]], p[1..]);
    AtUnfolds(input, t.children[q[0]], q[1..]);
    SameContentSameTree(input, a, b);
    var r := LeafBelow(input, a);
    AtConcat(t, p, r);
    AtConcat(t, q, r);
    if r != [] {
      assert At(a, r) == At(b, r);
    }
    LeafHasOnePath(t, p + r, q + r);
    assert (p + r)[..|p|] == p && (q + r)[..|q|] == q;
  }

  // ----- main results ------------------------------------------------------------------

  const ROOT := Descriptor(INDEX, "index.json", 0, None, map[], None, false, None)

  /** An accepted archive's walk begins with nothing recorded. */
  lemma OpenVisits(input: Input, metadata: nat, root: Document, start: State)
    requires Open(input, metadata, root).Some? && start == START.(metadata := metadata)
    ensures IndexShape(root) && start.visited == 0 && start.leaves == [] && Recorded(input, start)
    ensures VisitAll(input, start, root.manifests.value, |root.manifests.value|, 0) == Open(input, metadata, root)
  {
  }

  /** The trees below the root, from how they hang there. */
  lemma HungBelowRoot(input: Input, root: Document, ts: seq<Tree>)
    requires IndexShape(root) && |ts| == |root.manifests.value|
    requires HangAll(input, root.manifests.value, ts, |ts|, 0)
    ensures UnfoldsIndex(input, root, ts) && forall i :: 0 <= i < |ts| ==> WithinDepth(ts[i], 0)
  {
    assert forall i :: 0 <= i < |ts| ==> Hangs(input, root.manifests.value[i], ts[i], 0);
  }

  /** The whole graph of an accepted archive, hung below its index.json. */
  lemma AcceptedGraph(input: Input, metadata: nat, root: Document) returns (t: Tree)
    requires Open(input, metadata, root).Some?
    ensures t.Branch? && t.d == ROOT && UnfoldsIndex(input, root, t.children)
    ensures var st := Open(input, metadata, root).value;
            && st.leaves == LeavesOf(t) && st.visited == AllNodes(t.children, |t.children|) <= 1024
            && Recorded(input, st)
    ensures forall i :: 0 <= i < |t.children| ==> WithinDepth(t.children[i], 0)
  {
    var start := START.(metadata := metadata);
    OpenVisits(input, metadata, root, start);
    var ts := VisitAllUnfolds(input, start, root.manifests.value, |root.manifests.value|, 0);
    HungBelowRoot(input, root, ts);
    t := Branch(ROOT, ts);
  }

  /**
   * Every accepted graph is a tree: no content is reached along two paths under one media type. A digest
   * can only be reached twice if its document names no media type and is used both as index and manifest.
   */
  lemma AcceptedGraphIsATree(input: Input, metadata: nat, root: Document, t: Tree, p: Path, q: Path)
    requires Open(input, metadata, root).Some?
    requires t.Branch? && UnfoldsIndex(input, root, t.children)
    requires Open(input, metadata, root).value.leaves == LeavesOf(t)
    requires p != q && p != [] && q != [] && At(t, p).Some? && At(t, q).Some?
    requires At(t, p).value.d.digest == At(t, q).value.d.digest
    ensures {At(t, p).value.d.media, At(t, q).value.d.media} == {INDEX, MANIFEST}
    ensures DocOf(input, At(t, p).value.d).Some? && DocOf(input, At(t, p).value.d).value.mediaType == None
  {
    var _ := AcceptedGraph(input, metadata, root);
    if At(t, p).value.d.media == At(t, q).value.d.media {
      NodeHasOnePath(input, t, p, q);
    }
    AtUnfolds(input, t.children[p[0]], p[1..]);
    AtUnfolds(input, t.children[q[0]], q[1..]);
  }

  lemma {:induction false} ImageKeysCount(input: Input, leaves: seq<Descriptor>, i: nat)
    requires i < |leaves| && !AttestationLeaf(input, leaves[i])
    ensures KeyOf(leaves[i]) in ImageKeys(input, leaves)
  {
    if i < |leaves| - 1 {
      ImageKeysCount(input, leaves[..|leaves| - 1], i);
    }
  }

  lemma {:induction false} ImageKeysSource(input: Input, leaves: seq<Descriptor>, key: Key) returns (i: nat)
    requires key in ImageKeys(input, leaves)
    ensures i < |leaves| && !AttestationLeaf(input, leaves[i]) && KeyOf(leaves[i]) == key
  {
    var last := |leaves| - 1;
    if !AttestationLeaf(input, leaves[last]) && KeyOf(leaves[last]) == key {
      i := last;
    } else {
      i := ImageKeysSource(input, leaves[..last], key);
    }
  }

  /** An accepted graph has exactly one runnable image, and it is the subject of every attestation. */
  lemma AcceptedGraphHasOneImage(input: Input, metadata: nat, root: Document) returns (image: nat)
    requires Open(input, metadata, root).Some?
    ensures var st := Open(input, metadata, root).value;
            && image < |st.leaves| && !AttestationLeaf(input, st.leaves[image])
            && (forall i :: 0 <= i < |st.leaves| && i != image ==> AttestationLeaf(input, st.leaves[i]))
            && forall i :: 0 <= i < |st.attestations| ==> st.attestations[i].subject == KeyOf(st.leaves[image])
  {
    var t := AcceptedGraph(input, metadata, root);
    var st := Open(input, metadata, root).value;
    assert Keys(st.images) == [st.images[0].descriptor];
    image := ImageKeysSource(input, st.leaves, st.images[0].descriptor);
    forall i | 0 <= i < |st.leaves| && i != image
      ensures AttestationLeaf(input, st.leaves[i])
    {
      if !AttestationLeaf(input, st.leaves[i]) {
        ImageKeysCount(input, st.leaves, i);
      }
    }
  }
}
