# Verified models of the release and recovery toolkit

This project models the parts of the toolkit whose correctness rests on whole runs or on inputs of any size, and
proves what they promise. `dafny verify dfyconfig.toml` checks all of it.

| module | models |
|---|---|
| RecoveryCatalog, RecoveryFraming, RecoveryPayload, RecoveryPrepare, StreamContents, PrepareMeaning | splitting originals into parts, the interleaved USTAR stream, and verification by demultiplexing (`scripts/arc_recovery_payload.py`) |
| DiskModel, Publication, DetachedOutputs, DetachedLinkCounts | publication by hard link under failing steps, interrupts, crashes and other processes (`scripts/arc_recovery_pipeline.py`, `scripts/arc_recovery_payload.py`, `scripts/assemble_native_container.py`) |
| OciGraph, OciTree, OciAmbiguity, OciArchive, OciBudget, OciMerge, OciReach, OciContents, OciSteps, MergeContents, Sorting | the budgeted walk of a content-addressed image graph, its layer memo, and the merge of two archives (`scripts/merge_oci_archives.py`) |
| NodeGraph, NodePaths, Splice, ScalarEditor, EditorMeaning | alias counting over a YAML node graph and the splice of text edits (`scripts/change_scope_migration.py`) |
| RecoveryPipeline | the process, byte-accounting and teardown protocol (`scripts/arc_recovery_pipeline.py`) |
| ArtifactGlob, ArtifactOverlap, ArtifactScope, ArtifactSteps | glob overlap of artifact selectors and their scoping to one attempt (`scripts/release_attempt_workflow.py`) |
| Readiness, ReadinessPools, ReadinessMeaning, PoolMeaning, PoolStates | verdicts from partial cluster snapshots (`scripts/arc_readiness.py`) |
| PermissionCaps, CallDeclarations | static permission caps over local workflow calls (`scripts/install_release.py`) |
| BuilderCleanup, BuilderMeaning | removal of an owned builder whatever fails on the way (`scripts/build_runner_image_artifacts.py`) |
| ControlText, ControlUpdate, ControlMeaning | Debian control paragraphs: parser, printer, update (`scripts/build_runner_gstreamer.py`) |
| LintCopy, LintSpans, LintMeaning, LintQueue, LintBlock | blanking a mapping entry without moving anything (`scripts/actionlint_compat.py`) |
| Common, PythonText | shared vocabulary and the Python string operations used above |

## How it is modelled

Code that changes state is a class or a method with loops, and each such method is proved to refine a specification
function; what the code promises is then proved of that function. A predicate that both share is proved equal to a
relation of its own, said by fields, texts and positions, so that method and specification cannot be wrong together:
the modules named Meaning, Contents, Steps, States, Spans, Paths and Declarations hold these. Exceptions are the
`Raised` outcome of a method or `false` in its answer; their texts are not modelled. Other processes, clocks, failing
system calls and short writes are nondeterministic steps, so the theorems hold of every interleaving and every failure
point.

SHA-256, the canonical JSON encoding, the tar header codec, decompression, JSON and YAML parsing and scalar quoting are
function parameters. Where a result needs more of them than being functions it says so: `Lawful` for the header codec
(a header of a name that an admitted catalog can hold decodes to what was encoded, a zero block is the end),
`IndexesComeBack` for the JSON encoding of a merged index, `NoCollision` for the hash on the byte strings at hand.

In the publication models the disk logs every link, unlink and look with its outcome, refused ones too, and every step
of other processes; that the log is true of the states before and after each step is part of the disk's invariant, and
what holds after a failure is stated on that log. Other processes come in two kinds. Arbitrary ones may create, replace,
rename and remove names; `gentle` ones leave alone the names that stand for our inodes. Every theorem says which kind it
needs. None covers others who give a guarded name one of our inodes, for instance by renaming the `.pending` file into
place: the final name of `durable_json`, of the manifest and of the evidence, and every detached output, are guarded in
this sense.

A partial snapshot is read as the objects it lists plus any list of unseen objects that its own completeness metadata
allows; a verdict is proved of every such completion.

## What turned out not to hold

Each of these has a lemma that shows it, and beside it the condition under which the code does what is promised.

- A document without `mediaType` can be reached both as an index and as a manifest, so one digest may have two
  positions in an accepted graph (`OciAmbiguity.AmbiguousDocumentIsAccepted`). Per media type the graph is a tree.
- The attempt suffix of a scoped upload is not compared, so a download pattern that matches only by that suffix is
  neither bound nor refused (`ArtifactScope.ScopedUploadIsMissed`, `ArtifactOverlap.SuffixHidesAnEdge`);
  `ArtifactScope.AllEdgesAreBound` and `ArtifactOverlap.SuffixedEdges` are the exact conditions.
- A second scoping run refuses a selector that begins with an expression and goes on behind it, such as
  `${{ matrix.target }}-x`, once the first run has scoped it (`ArtifactScope.SecondRunCanRefuse`). The exact condition is
  that the selector begins like an expression, does not end like one, holds no line feed and was scoped
  (`ArtifactScope.SecondRun`).
- An expression with a line feed inside is not recognised by the substitution, and one with closing braces in a quoted
  string is cut there; an edge is missed either way (`ArtifactOverlap.LineFeedHidesAnExpression`,
  `ArtifactOverlap.QuoteHidesAnExpression`). `ArtifactOverlap.EveryEdgeIsFound` is the exact condition, in the
  service's reading as in the pattern's.
- Removing a condition does not check how often its value is used. For an alias of an earlier value the recorded edit
  runs backwards and would repeat text (`ScalarEditor.AliasedConditionRunsBackwards`), or, for an alias of the value on
  the line above, is empty and leaves the condition where it is (`ScalarEditor.AliasedConditionStays`). The span holds
  the entry if and only if the value does not end before its key does (`ScalarEditor.SpanHoldsEntry`), and the edit runs
  forward exactly as `ScalarEditor.SpanRunsForward` says.
- A permission declaration that grants a level to a scope called `*` lets a blanket request through
  (`PermissionCaps.StarHoleIsAccepted`); `PermissionCaps.FiniteCheckSuffices` is the exact condition.
- Detached publication checks the link count of the outputs, not their identity, and checks identity a step before it
  unlinks. Two runs use these windows: one succeeds with a foreign output, one unlinks a foreign file
  (`DetachedOutputs.RoughOthersCanReplaceAnOutput`, `DetachedOutputs.RoughOthersCanLoseAFile`).
  `DetachedOutputs.SuccessIsExact` and `DetachedOutputs.UnlinksAreExact` are the exact conditions. A third run succeeds
  although an output's inode has a second name in the end, given after its look
  (`DetachedLinkCounts.RoughOthersCanAddAName`); `DetachedLinkCounts.LinkCountIsExact` is the exact condition. The
  rollbacks of `durable_json` and `prepare` have the same window between look and unlink; `Publication.RollbackIsExact`
  and `Publication.IdentityRollbackIsExact` say exactly when what they remove is ours.
- Detached publication rolls back errors only. An interrupt leaves the outputs that are linked by then
  (`DetachedOutputs.InterruptLeavesAnOutput`); `DetachedOutputs.InterruptLeavesOutputs` says exactly which.
- A readback that is interrupted by an exception outside `Exception` does replace the original cleanup error
  (`BuilderCleanup.Cleanup.InterruptReplacesTheFirstError`); `BuilderCleanup.Cleanup.HandleFailure` states exactly when,
  of the failure it is given, and `BuilderCleanup.Cleanup.FirstErrorIsReplacedExactly` of the first error of a run.
- Control text with other line boundaries than line feeds is accepted but does not print back
  (`ControlText.CarriageReturnsAreLost`); `ControlText.TextRoundTrip` is the exact condition.
- Blanking a queue that is the only entry before a trailing comma leaves no mapping; `LintQueue.CopyHidesOnlyTheQueue`
  states that this is the only such case among plain flow mappings, and `LintBlock.BlockCopyHidesOnlyTheQueue` that a
  block mapping vanishes exactly when the queue is its only entry.
- Verification accepts a stream whose first trailer block is not zero but is no readable header, because the tar reader
  then reports the end of the archive; the rest must be zero (`RecoveryFraming.NonzeroTrailerIsAccepted`).
  `RecoveryFraming.TrailerIsZeroExactly` is the exact condition for an all-zero trailer.
- The order of a merged index depends on which input comes first when both have a leaf with one sort key but different
  descriptors (`OciMerge.OrderShows`); `OciMerge.MergeIgnoresInputOrder` is the exact condition. The code always takes
  its inputs in one order.

## Model

| member | source | states |
|---|---|---|
| RecoveryCatalog.ChunksTelescope | scripts/arc_recovery_payload.py:107-122 | The part sizes of an admitted original add up to exactly its size, for every chunk size and every uneven last part |
| RecoveryCatalog.InterleavingKeepsOwnOrder | scripts/arc_recovery_payload.py:131-135 | The round-robin order gives back each original's parts in their own order and loses none, for any number of originals and uneven part counts |
| RecoveryCatalog.InterleavingIsAPermutation | scripts/arc_recovery_payload.py:131-135 | Every slot of every original occurs exactly once in the interleaved order, and nothing else occurs |
| RecoveryCatalog.InterleavingIsRoundRobin | scripts/arc_recovery_payload.py:131-135 | For any two places of the stream order the earlier part has the smaller number, or the same number and the earlier original; and only one list of exactly the existing parts is in this order |
| StreamContents.CatalogIsAdmittedExactly | scripts/arc_recovery_payload.py:76-128 | A catalog is admitted if and only if its names and hashes have their form, names differ, every part but the last is a full chunk and all make up the original, each part is named by its six-digit number, and budget and manifest are within their limits |
| RecoveryFraming.EntriesFit | scripts/arc_recovery_payload.py:271-274 | Names and sizes of an admitted catalog are valid USTAR header fields, so no member needs an extension header |
| RecoveryFraming.PackedStreamLength | scripts/arc_recovery_payload.py:271-274 | The emitted archive is exactly physical_size(catalog) bytes: headers, padding to 512, trailer, records of 10240 |
| RecoveryFraming.GatherIsWhole | scripts/arc_recovery_payload.py:411-426 | Bytes gathered per original in stream order are that original's parts in its own order |
| RecoveryFraming.PackedStreamUnpacks | scripts/arc_recovery_payload.py:401-432 | Reading the packed stream member by member yields the staged data and a clean trailer |
| RecoveryFraming.VerifyIsSound | scripts/arc_recovery_payload.py:392-439 | Whatever is accepted carries parts of the catalogued sizes and hashes, and their concatenation in each original's own order has the catalogued size and hash |
| RecoveryFraming.VerifiedBytesAreTheOriginals | scripts/arc_recovery_payload.py:392-439 | Unless a received original collides with the catalogued one, the bytes a stream delivers for it are its bytes |
| RecoveryFraming.PackThenVerify | scripts/arc_recovery_payload.py:351-444 | For every admitted catalog with matching staging, the packed stream is accepted exactly when the reassembled originals have their catalogued hashes |
| RecoveryFraming.UnreadableTrailerIsAccepted | scripts/arc_recovery_payload.py:402-432 | In any accepted stream the first trailer block may be exchanged for any block that is no readable header, and the stream is still accepted |
| RecoveryFraming.NonzeroTrailerIsAccepted | scripts/arc_recovery_payload.py:351-444 | The stream that pack emits for matching staging is accepted, and still is with an unreadable block that is not zero as the first block of its trailer |
| RecoveryFraming.TrailerIsZeroExactly | scripts/arc_recovery_payload.py:428-432 | The trailer of an accepted stream is all zero if and only if its first block is |
| StreamContents.StagingMatchesExactly | scripts/arc_recovery_payload.py:317-384 | A staging matches if and only if it holds the manifest of this catalog and every part with its size and hash, and nothing else |
| StreamContents.StreamIsAcceptedExactly | scripts/arc_recovery_payload.py:392-439 | A stream is accepted if and only if the catalog is admitted, the length is right, members of the catalogued names and sizes follow each other in round-robin order at block boundaries with their bytes or hashes, the tail is clean and the originals put together have their sizes and hashes |
| RecoveryPayload.Bounded.Read | scripts/arc_recovery_payload.py:281-286 | A read returns the next bytes of the stream, counts them, and fails as soon as more than the limit was read |
| RecoveryPayload.Bounded.Write | scripts/arc_recovery_payload.py:288-293 | A write appends all of the data or fails, and the count is the length of what was written |
| RecoveryPayload.CheckedPart.Take | scripts/arc_recovery_payload.py:301-307 | Bytes taken are counted and hashed in order, and more than the part's size is an error |
| RecoveryPayload.NextMember | scripts/arc_recovery_payload.py:402-411 | The next header is returned as a member only when it decodes; a zero block, an unreadable header or the end of input gives none |
| RecoveryPayload.ReadManifest | scripts/arc_recovery_payload.py:413-419 | The manifest member is accepted exactly when it equals the trusted catalog byte for byte |
| RecoveryPayload.ReadPart | scripts/arc_recovery_payload.py:420-426 | The block loop delivers exactly the part's bytes to its own hash and to the hash and total of its original |
| RecoveryPayload.ReadTail | scripts/arc_recovery_payload.py:428-432 | The tail loop accepts exactly an all-zero rest and reads it to the end |
| RecoveryPayload.VerifyMember | scripts/arc_recovery_payload.py:401-426 | One turn of the loop refines reading one entry of the stream specification |
| RecoveryPayload.VerifyMembers | scripts/arc_recovery_payload.py:397-426 | The whole loop accepts exactly when demultiplexing the expected entries succeeds, with the accumulated state it describes |
| RecoveryPayload.CheckTotals | scripts/arc_recovery_payload.py:434-439 | The final loop accepts exactly when every original has its catalogued size and hash |
| RecoveryPayload.Verify | scripts/arc_recovery_payload.py:392-444 | verify accepts a stream if and only if the stream specification accepts it, and reports each original's catalogued size |
| RecoveryPayload.WriteFrame | scripts/arc_recovery_payload.py:378-379 | Header, data and padding: exactly the frame of the entry is appended, and the answer is whether the data has the catalogued hash |
| RecoveryPayload.PackEntries | scripts/arc_recovery_payload.py:359-384 | The loop emits the frames of all entries in order; otherwise it has stopped at the first entry whose staged file does not match, with all earlier frames emitted, and of that entry nothing when the size differs and its frame when only the hash does |
| RecoveryPayload.CloseArchive | scripts/arc_recovery_payload.py:355-355 | Two zero blocks and the fill to a whole record close the archive |
| RecoveryPayload.Pack | scripts/arc_recovery_payload.py:351-389 | pack succeeds if and only if the staging matches the catalog, and then emits the packed stream of exactly physical_size bytes |
| RecoveryPrepare.WritePart | scripts/arc_recovery_payload.py:199-231 | The block loop stores exactly the next chunk of the source under an exclusive name and returns its hash |
| RecoveryPrepare.SplitOriginal | scripts/arc_recovery_payload.py:192-238 | All parts of one original are staged, its hashes recorded, earlier staging untouched; it fails only for a source of another size or hash, a part name in the way, the budget, or a gate that does not let it pass |
| RecoveryPrepare.WholeIsContent | scripts/arc_recovery_payload.py:192-231 | Joining the chunks of a file in order gives the file back |
| RecoveryPrepare.Prepare | scripts/arc_recovery_payload.py:138-268 | It succeeds exactly for inputs that can be prepared, if every gate lets it pass: no part name is ever in the way and the budget always suffices. Then it returns the one catalog that the inputs determine, and the staging matches it and holds the originals part by part |
| PrepareMeaning.PreparableExactly | scripts/arc_recovery_payload.py:138-184 | Inputs can be prepared if and only if there are 1 to 64 of them with a chunk of up to 256 MiB, at most 10000 parts and no more bytes than the maximum, names differ and have their form, each content has its declared size and hash, part hashes have their form, and both manifests fit |
| PrepareMeaning.CatalogIs | scripts/arc_recovery_payload.py:170-238 | The prepared catalog lists the inputs in order; part n of each has the size and hash of the source's bytes from n chunks on, up to a chunk |
| PrepareMeaning.PlanIs | scripts/arc_recovery_payload.py:170-184 | The catalog planned before anything is read has the same names and sizes, and zeros for the part hashes |
| RecoveryCatalog.PartNamesDiffer | scripts/arc_recovery_payload.py:170-184 | Different parts have different names, whatever their numbers |
| RecoveryPrepare.PreparedStagingSurvives | scripts/arc_recovery_payload.py:138-444 | prepare, pack and verify compose: what prepare staged is packed and accepted again, and the reassembled bytes are the prepared bytes |
| DiskModel.LinkNeverReplaces | scripts/arc_recovery_payload.py:255-255 | A link changes something if and only if the source is there, the target is free and the call does not fail; then the target is one more name of the inode that the source stands for, its link count grows by one, and every other name, file and link count is as before; otherwise the log tells of the failure |
| DiskModel.UnlinkRemovesOnly | scripts/assemble_native_container.py:204-208 | An unlink removes this one name, and one link of whatever inode it stands for at that moment, which the log records; every other name, file and link count stays, and an unlink is refused, changing nothing, if and only if the name is missing or the call fails and is logged |
| DiskModel.LogTellsOfEveryChange | scripts/assemble_native_container.py:187-209 | Every step of ours that changes a name is in the log with the name and inode before and after it, and a failed one with its cause |
| DiskModel.RefusedMeans | scripts/assemble_native_container.py:204-208 | An unlink was refused if and only if the log has a failed unlink of that name at a moment when it stood for an inode of ours |
| DiskModel.UnlinkUndoesLink | scripts/arc_recovery_payload.py:262-267 | Unlinking a name that was just linked gives back the state from before the link |
| Publication.WritePending | scripts/arc_recovery_pipeline.py:109-114 | The pending inode is complete and synced before anything is linked, whichever step fails |
| Publication.LinkFinal | scripts/arc_recovery_pipeline.py:115-122 | Linking publishes only a finished inode, and a failure after it is reported together with the fact that it was linked |
| Publication.Rollback | scripts/arc_recovery_pipeline.py:123-127 | The rollback unlinks the final name only after a look at it and a look at the pending name found one file; if a record of this call is still there afterwards, the log shows its unlink refused or the pending name taken away by others |
| Publication.DurableJson | scripts/arc_recovery_pipeline.py:99-131 | In every crash state the final name stands for no inode of this call or for its complete durable record; an existing record stops it at once; it succeeds exactly for a record that is short enough, under a free name, if none of its own steps failed, and the last of these is the sync and disk gate; the final name is unlinked only after it and the pending name were found to be one file; after a failure the record is there only if the log shows its unlink refused, or the pending name taken by rough others; with gentle others success publishes it and nothing foreign is unlinked |
| Publication.PublishManifest | scripts/arc_recovery_payload.py:239-268 | The same for prepare's manifest, which succeeds exactly if none of its steps failed, whose pending name is gone after success and whose rollback unlinks only a name just found to stand for the recorded inode, so that whatever others do only a refused unlink leaves the manifest after a failure |
| Publication.PublishEvidence | scripts/assemble_native_container.py:163-184 | It succeeds exactly if no step but the final unlink failed: the link is the last step that can fail; failure means nothing of ours at the final name, success the complete record; the final name is never unlinked, and the temporary is left only if its unlink was refused |
| Publication.FailureHasACause | scripts/arc_recovery_pipeline.py:99-131 | A step that fails without an error of its own found a name taken, a name missing or an inode number in use, and changed nothing |
| Publication.RollbackIsExact | scripts/arc_recovery_pipeline.py:123-127 | What the rollback of durable_json unlinked is ours if and only if the file it had found was ours and the two steps of others between its look and its unlink left the name as it was |
| Publication.IdentityRollbackIsExact | scripts/arc_recovery_payload.py:262-267 | The same for the manifest's rollback, with the one step of others between its look and its unlink |
| DetachedOutputs.LinkOutputs | scripts/assemble_native_container.py:191-195 | The loop links the outputs in order up to the first that fails or is interrupted, exactly as the specification run does, and counts those it has linked |
| DetachedOutputs.CheckUnaliased | scripts/assemble_native_container.py:200-203 | Accepts exactly when every output stood for an inode with one name at the step at which it was looked at |
| DetachedOutputs.RollbackOutputs | scripts/assemble_native_container.py:204-209 | The linked outputs are looked at one by one, in order, and each is unlinked exactly if it was found to be its own inode, until an interrupt |
| DetachedOutputs.PublishDetachedOutputs | scripts/assemble_native_container.py:187-209 | For every schedule of other processes, failures and interrupts the method runs exactly the specification run, of which the rows below speak: an error is rolled back, an interrupt is not |
| DetachedOutputs.SuccessIsExact | scripts/assemble_native_container.py:187-203 | After success an output stands for its own inode if and only if no step of others changed that name after its link |
| DetachedOutputs.GentleSuccess | scripts/assemble_native_container.py:187-203 | With gentle others success means that every output is its own inode and that inode has no other name |
| DetachedOutputs.FailureLeavesNone | scripts/assemble_native_container.py:187-209 | Whatever others do, after an error that was caught and rolled back an output stands for an inode of ours only if the log shows its own unlink refused |
| DetachedOutputs.InterruptLeavesOutputs | scripts/assemble_native_container.py:187-209 | When an interrupt ends the run or its rollback, an output not yet dealt with is its own inode if and only if it was linked and no step of others changed the name since; one dealt with is ours only if its unlink was refused |
| DetachedOutputs.InterruptLeavesAnOutput | scripts/assemble_native_container.py:187-209 | A concrete run, interrupted before the staging name is unlinked, that leaves its output and tries no unlink |
| DetachedLinkCounts.LinkCountIsExact | scripts/assemble_native_container.py:200-203 | After success an output that is its own inode has no other name if and only if no step of others since the look at it gave the inode a name that it still has |
| DetachedLinkCounts.RoughOthersCanAddAName | scripts/assemble_native_container.py:200-203 | A concrete run that succeeds although the inode of its first output has a second name in the end |
| DetachedOutputs.UnlinksAreExact | scripts/assemble_native_container.py:187-209 | What an unlink removed is ours if and only if the one step of others between the identity check and the unlink left that name alone |
| DetachedOutputs.RoughOthersCanReplaceAnOutput | scripts/assemble_native_container.py:191-203 | A concrete run of link, unlink and link-count check that succeeds although its output is foreign |
| DetachedOutputs.RoughOthersCanLoseAFile | scripts/assemble_native_container.py:204-209 | A concrete run whose rollback unlinks a foreign inode |
| OciTree.AcceptedGraph | scripts/merge_oci_archives.py:259-319 | Every accepted archive unfolds to a finite tree within the depth and visit bounds whose leaves are the recorded ones, in walk order, with config, layers and subject of each leaf blobs of their declared sizes |
| OciTree.NodeHasOnePath | scripts/merge_oci_archives.py:278-319 | In a graph of nonempty indexes with distinct leaf digests, two positions with the same content are the same position |
| OciTree.LeafHasOnePath | scripts/merge_oci_archives.py:315-319 | With distinct leaf digests a leaf digest has one position |
| OciTree.AcceptedGraphIsATree | scripts/merge_oci_archives.py:259-319 | No content is reached along two paths under one media type; a digest reached twice means a document without media type used both as index and as manifest |
| OciTree.AcceptedGraphHasOneImage | scripts/merge_oci_archives.py:173-180 | An accepted graph has exactly one runnable image, and it is the subject of every attestation |
| OciContents.OpenedLeavesAre | scripts/merge_oci_archives.py:278-533 | Every leaf of an opened archive is an image of the input's platform, version and revision whose layers expand to the content of its diff IDs, or an attestation whose statements all name its recorded subject |
| OciContents.OpenedImageIsLabelled | scripts/merge_oci_archives.py:321-352 | The config document of the one image has the input's version and revision under the two label keys |
| OciContents.StatementsNameTheImage | scripts/merge_oci_archives.py:429-533 | Every in-toto layer of every attestation of an opened archive holds a statement that names the digest of the archive's one image |
| OciContents.OpenedMetadataIsBounded | scripts/merge_oci_archives.py:214-226 | All metadata of an opened archive was read within 32,000,000 bytes |
| OciContents.AcceptedPlacesAre | scripts/merge_oci_archives.py:228-319 | Every place of an accepted graph holds a blob of the archive of its declared size; above the leaves stand plain indexes of 1 to 1024 children |
| OciContents.InventoryMeans | scripts/merge_oci_archives.py:182-212 | The inventory holds every blob under its own well-formed hash |
| OciSteps.ImageIsAcceptedExactly | scripts/merge_oci_archives.py:321-381 | An image is accepted if and only if its platform, variant, labels, layer list and expanded layers are those the input and its config ask for, within what is left of both budgets |
| OciSteps.AttestationIsAcceptedExactly | scripts/merge_oci_archives.py:429-533 | An attestation is accepted if and only if platform, reference, config, subject and every statement agree, in the current or the legacy form, within the metadata budget |
| OciSteps.LeafIsAcceptedExactly | scripts/merge_oci_archives.py:296-319 | A leaf is accepted if and only if no leaf of its digest was before and it is accepted as an attestation, when its artifact type or reference type says so, or else as an image |
| OciSteps.DescriptorIsAcceptedExactly | scripts/merge_oci_archives.py:278-319 | A descriptor is accepted if and only if depth, visits, blob and document allow it and what it leads to, an index or a leaf, is accepted |
| OciSteps.ArchiveIsAcceptedExactly | scripts/merge_oci_archives.py:165-180 | An archive is accepted if and only if its root is an index all of whose entries are, in turn, and it ends up with one image that is the subject of every attestation |
| OciAmbiguity.AmbiguousDocumentIsAccepted | scripts/merge_oci_archives.py:278-319 | A concrete inventoried archive is accepted although one document is reached as an index and as a manifest: the exception in the tree property is real |
| OciArchive.Archive.ReadJson | scripts/merge_oci_archives.py:214-226 | The parsed document is returned and charged against the metadata budget exactly as the plain recursion does |
| OciArchive.Archive.LayerDigest | scripts/merge_oci_archives.py:383-427 | The memo returns and charges exactly what expanding the layer again would, and stays coherent |
| OciArchive.Archive.CheckLayers | scripts/merge_oci_archives.py:371-375 | The loop accepts exactly when every layer's digest is its diff_id within the budget |
| OciArchive.Archive.VisitImage | scripts/merge_oci_archives.py:321-381 | An image is accepted, recorded and charged exactly as the plain recursion does |
| OciArchive.Archive.VisitAttestation | scripts/merge_oci_archives.py:429-533 | The same for an attestation, whose subject and statements must agree |
| OciArchive.Archive.WalkIndex | scripts/merge_oci_archives.py:259-276 | Walking an index fails and succeeds with the state of the plain recursion |
| OciArchive.Archive.Walk | scripts/merge_oci_archives.py:278-319 | One step of the recursive walk, refined from the object's counters, lists and memo to the plain recursion |
| OciArchive.Archive.OpenGraph | scripts/merge_oci_archives.py:165-170 | An archive is opened exactly when the plain recursion accepts, with the same leaves, images and attestations |
| OciArchive.EveryOccurrenceIsCharged | scripts/merge_oci_archives.py:383-427 | Checking a layer list adds the expanded size of every occurrence, repeats included, within the budget, and only if every expanded layer has its diff_id |
| OciBudget.OpenedImageIsCharged | scripts/merge_oci_archives.py:165-427 | rootfs_bytes of an opened archive is the sum of the expanded sizes of all layer occurrences of its one image, and within the budget |
| OciMerge.AddBlobs | scripts/merge_oci_archives.py:608-614 | Blobs are collected exactly when shared names agree in size |
| OciMerge.MergeArchives | scripts/merge_oci_archives.py:555-614 | The merge succeeds exactly when both inputs open and their shared blobs agree, and yields the merged layout |
| MergeContents.MergeIsAcceptedExactly | scripts/merge_oci_archives.py:555-614 | Two archives are merged if and only if there is one for each platform, version and revision have their form, each opens as the image of its architecture in them, and no shared blob has two sizes |
| MergeContents.LayoutIs | scripts/merge_oci_archives.py:587-630 | What is written, field by field: an inner index of the merged leaves under its own hash, next to exactly the blobs of both inputs, and a root index of the one descriptor of it |
| OciMerge.MergedLeavesAreTheInputs | scripts/merge_oci_archives.py:578-586 | The merged index lists both inputs' leaves, each as often as before, those of unknown platform last |
| OciMerge.ImagesComeFirst | scripts/merge_oci_archives.py:578-586 | For two inputs that open, no image of either comes behind an attestation of either in the merged index |
| OciMerge.MergedOrder | scripts/merge_oci_archives.py:578-586 | The order in full: unknown platforms last, within the others and within these by architecture, and within one architecture by digest, each by the characters |
| OciMerge.MergeIgnoresInputOrder | scripts/merge_oci_archives.py:574-586 | The merged index is the same whichever input comes first, if and only if no two leaves of the two inputs share a sort key and differ |
| OciMerge.MergedBlobsAreUnchanged | scripts/merge_oci_archives.py:607-630 | Every input blob is in the merged layout byte for byte under its own digest, and every blob there has the digest it is named by |
| OciMerge.MergedDescriptorsResolve | scripts/merge_oci_archives.py:587-606 | The new root parses to an index that names the inner index, that to the merged leaves, and every leaf is a blob of its declared size |
| OciReach.ReachableDescriptorsResolve | scripts/merge_oci_archives.py:587-630 | Every descriptor on any chain from the new index.json, through indexes, manifests, subjects, configs and layers, names a blob of the declared size with its own digest, which is the new inner index or byte for byte a blob of an input; and every index and manifest on it parses |
| OciMerge.ImagesOfPlatformsDiffer | scripts/merge_oci_archives.py:326-333 | The two platforms' images are different content, because one config cannot name both architectures |
| Sorting.SortedArrangementIsUnique | scripts/merge_oci_archives.py:580-586 | Two sorted arrangements of the same elements are equal when equal keys mean equal elements |
| Sorting.SortIsStable | scripts/merge_oci_archives.py:580-586 | The sort keeps elements with equal keys in their order |
| Sorting.StringLeIsLexicographic | scripts/merge_oci_archives.py:580-586 | The texts of the sort key are compared character by character, a beginning before what continues it |
| NodeGraph.CountingFailsOnCyclesOnly | scripts/change_scope_migration.py:53-71 | Counting fails if and only if some walk from the root meets a cycle |
| NodeGraph.CountsAreReachableInEdges | scripts/change_scope_migration.py:53-71 | Otherwise every count is the number of edges from reachable nodes, plus one for the root |
| NodeGraph.CountedOnceHasOnePath | scripts/change_scope_migration.py:73-89 | If every node along one path is counted once, no other path reaches its end |
| NodeGraph.LookupFindsAnUnsharedNode | scripts/change_scope_migration.py:73-89 | The node that a lookup returns has exactly one root-to-node path |
| NodePaths.LookupIsWhereThePathLeads | scripts/change_scope_migration.py:73-89 | A lookup finds a node if and only if the path leads to it, an index being the item at that place of a sequence and a name the value of the only entry with that key text in a block mapping, and every node on the way is counted once |
| ScalarEditor.Editor.CountNodes | scripts/change_scope_migration.py:53-71 | The recursive method with its mutable counts and sets refines the counting specification, and fails exactly where it does |
| ScalarEditor.Editor.NodeAt | scripts/change_scope_migration.py:73-89 | The loop over the path returns the node that the path leads to through nodes counted once, and raises if and only if there is none |
| ScalarEditor.Editor.Load | scripts/change_scope_migration.py:45-47 | Loading a document is refused exactly when an alias makes it cyclic |
| ScalarEditor.Editor.FoundIsUnshared | scripts/change_scope_migration.py:73-89 | A found node has no second place in the document |
| ScalarEditor.Editor.FoundIsWhereThePathLeads | scripts/change_scope_migration.py:73-89 | The same of a loaded editor: what it finds is where the path leads through nodes counted once |
| ScalarEditor.Editor.Set | scripts/change_scope_migration.py:97-111 | Accepted exactly for an unshared scalar whose new text can be written; records one edit of exactly its span with the quoted text or the indented block, or nothing if the value is already there |
| EditorMeaning.SetMeans | scripts/change_scope_migration.py:97-111 | Setting a value replaces exactly the scalar the path leads to, by the quoted value, or by a block of its lines two blanks behind the column of its first key; it fails if and only if there is no such scalar or column |
| EditorMeaning.BlockReadsBack | scripts/change_scope_migration.py:105-109 | Such a block reads back as the lines of the value, which closed by line feeds are the value again if and only if it ends with one and has no other line boundary |
| ScalarEditor.ConditionSpan | scripts/change_scope_migration.py:121-133 | The span starts at the key's line start, with only blanks before the key, and stops at a line start or the end of the text, not before the value's end |
| ScalarEditor.SpanRunsForward | scripts/change_scope_migration.py:121-133 | The span runs forward if and only if the value ends on the key's line or later, or on the line just above without being a block |
| ScalarEditor.SpanHoldsEntry | scripts/change_scope_migration.py:121-133 | The span holds the entry, key and value, if and only if the value does not end before its key does, that is, unless it is an alias written before its key |
| EditorMeaning.SpanMeans | scripts/change_scope_migration.py:121-133 | A condition's span is exactly the lines from its key's to its value's, and it is refused if and only if something but blanks stands before the key or text that is no comment behind the value |
| ScalarEditor.AliasedConditionRunsBackwards | scripts/change_scope_migration.py:120-135 | A concrete document, marker line first, that loads and whose condition is an alias of a value further up: behind the marker the span starts at 18 and stops at 8, and replacing it repeats the text in between |
| ScalarEditor.AliasedConditionStays | scripts/change_scope_migration.py:120-135 | The same for an alias of the value on the line above: the span is empty, and replacing it gives the source back with the condition in it |
| ScalarEditor.Editor.AliasedRemoval | scripts/change_scope_migration.py:120-135 | condition accepts the removal from the first of these documents and records the edit that runs backwards |
| ScalarEditor.Editor.NearRemoval | scripts/change_scope_migration.py:120-135 | condition accepts the removal from the second one and records the empty edit |
| ScalarEditor.Editor.RemoveCondition | scripts/change_scope_migration.py:120-135 | Accepted exactly when the job has an "if" entry with a span; records one empty edit of that span between line starts, which holds the entry if and only if its value does not end before its key, and says when it runs forward |
| EditorMeaning.ConditionMeans | scripts/change_scope_migration.py:120-121 | The entry that is looked at is the first one with the key text "if" in the mapping that the path leads to |
| ScalarEditor.Editor.InsertCondition | scripts/change_scope_migration.py:136-144 | Accepted exactly when the job's first entry starts its line; records one line at that line start, in the entry's column |
| ScalarEditor.Editor.Condition | scripts/change_scope_migration.py:113-144 | Whether the loaded job contains "if" decides, for every kind of node: with it the value is set or the entry removed, without it a line is inserted or nothing happens, each with exactly the edit of that operation; a job that cannot be looked up is an error |
| EditorMeaning.JobMeans | scripts/change_scope_migration.py:113-116 | The loaded job is the value of the last entry of its name in the value of the last entry named jobs |
| EditorMeaning.ContainsMeans | scripts/change_scope_migration.py:116-116 | "if" is in the loaded job as a key of a mapping, an item of a sequence or a part of the text of a scalar |
| ScalarEditor.Editor.Finish | scripts/change_scope_migration.py:146-157 | Accepted exactly when every edit ends before the one applied before it and the YAML checks pass, for backwards edits too; for edits that run forward that is pairwise disjointness, and the result is the simultaneous left-to-right splice |
| Splice.Apply | scripts/change_scope_migration.py:146-153 | The reverse-order loop accepts exactly the chained edits and applies them from the end; for edits that run forward it accepts exactly the pairwise disjoint ones and computes the simultaneous left-to-right splice |
| Splice.BackwardEditRepeats | scripts/change_scope_migration.py:152-152 | An edit that runs backwards removes nothing: the text between its ends stands twice in the result |
| Splice.OutsideTextSurvives | scripts/change_scope_migration.py:146-153 | Every character outside the edited spans is found in the result, moved by the growth of the edits before it |
| Splice.OutsideTextKeepsItsOrder | scripts/change_scope_migration.py:146-153 | Two characters outside the edited spans keep their order |
| Splice.ResultIgnoresRecordingOrder | scripts/change_scope_migration.py:149-149 | Recording the same edits in another order changes neither acceptance nor the text |
| RecoveryPipeline.Pipeline.ChildStatus | scripts/arc_recovery_pipeline.py:33-47 | An answer is the leader's status, and the leader is not reaped; a reaped child is an error |
| RecoveryPipeline.Pipeline.Launch | scripts/arc_recovery_pipeline.py:220-230 | A new child is a new process with a PID of its own and its stderr is listened to; a launch fails exactly if it is late or refused, and leaves the earlier children as they were |
| RecoveryPipeline.Pipeline.Keep | scripts/arc_recovery_pipeline.py:252-264 | Despite short writes the retained bytes, the count and the hash input stay the same thing, within the maximum; it fails only for too much output or a write that is refused |
| RecoveryPipeline.Pipeline.Receive | scripts/arc_recovery_pipeline.py:238-264 | One ready pipe: the end of its input closes it; a stderr chunk is counted and accepted exactly within the stderr maximum; an output chunk is kept whole or refused |
| RecoveryPipeline.Pipeline.Pump | scripts/arc_recovery_pipeline.py:233-265 | The event loop succeeds only when the end of every pipe was read, no child is running, the whole output is kept and no stderr is too long; it fails only if the environment refuses a step, the deadline passes, a child failed or the input is not acceptable |
| RecoveryPipeline.Pipeline.Promote | scripts/arc_recovery_pipeline.py:273-279 | The final name stands for exactly the retained bytes once linked |
| RecoveryPipeline.Pipeline.Attempt | scripts/arc_recovery_pipeline.py:216-280 | Success of the guarded part means all children exited with 0, every pipe was read to its end and its input kept, before the deadline, the expected size and hash, and promotion |
| RecoveryPipeline.Pipeline.KillAll | scripts/arc_recovery_pipeline.py:288-301 | Every signal goes out while all leaders are unreaped, so it hits the process it was meant for; success means each group had its signal, and a leader whose status cannot be read is skipped |
| RecoveryPipeline.Pipeline.ReapAll | scripts/arc_recovery_pipeline.py:302-309 | Children are reaped only after the last signal; each one that had exited gets exactly its status, and the answer is whether all were reaped |
| RecoveryPipeline.Pipeline.Run | scripts/arc_recovery_pipeline.py:216-319 | In every run the reported sizes and hash are those of the retained bytes, a beginning of the output within the maximum, and of the stderr input, and every signal hit its own leader; a run passes if and only if the environment let every step through in time, every child exited with 0, and the output and stderr read are within their limits and of the expected size and hash; then the whole output of pipes read to their end was promoted and every group was signalled |
| RecoveryPipeline.ReapedPidMayBeReused | scripts/arc_recovery_pipeline.py:284-286 | After reaping, one step of other processes is enough for the PID to stand for a stranger: why the order matters |
| ArtifactOverlap.GlobFits | scripts/release_attempt_workflow.py:44-50 | Whatever a glob matches begins with its literal prefix and ends with its literal suffix |
| ArtifactOverlap.StandsForFits | scripts/release_attempt_workflow.py:40-50 | The same for every string that a text with expressions can stand for, as a name or as a pattern |
| ArtifactOverlap.EveryEdgeIsFound | scripts/release_attempt_workflow.py:38-50 | As the pattern or the service reads expressions: every selector that shares a name with some expansion of the value overlaps it, if and only if the ends that are compared are ends of the value's own substituted text |
| ArtifactOverlap.NoMissedEdge | scripts/release_attempt_workflow.py:38-50 | As the pattern reads it, a value without the attempt suffix never misses an edge |
| ArtifactOverlap.SuffixedEdges | scripts/release_attempt_workflow.py:38-50 | A value with the suffix misses none if and only if its base has no literal end and leaves no expression open that the suffix completes |
| ArtifactOverlap.SuffixHidesAnEdge | scripts/release_attempt_workflow.py:38-50 | A concrete suffixed value and a selector that match one name and do not overlap |
| ArtifactOverlap.OverlapsIsNotExact | scripts/release_attempt_workflow.py:42-50 | The test over-approximates: two patterns overlap although no string is matched by both |
| ArtifactOverlap.SameReading | scripts/release_attempt_workflow.py:40-40 | Without line feeds and quotes the substitution finds exactly the service's expressions |
| ArtifactOverlap.LineFeedHidesAnExpression | scripts/release_attempt_workflow.py:40-40 | A concrete expression with a line feed inside that is not substituted, and an edge missed for it |
| ArtifactOverlap.QuoteHidesAnExpression | scripts/release_attempt_workflow.py:40-40 | A concrete expression with closing braces in a quoted string that is cut there, and an edge missed for it |
| ArtifactScope.EdgeIsScopedOrRefused | scripts/release_attempt_workflow.py:78-86 | A selector that can meet a local output is refused, is a release plan, or ends up with the attempt suffix and its own base, unless the service reads it otherwise and the compared ends are not its own |
| ArtifactScope.SecondRun | scripts/release_attempt_workflow.py:78-86 | A second run returns the same text, exactly unless the value begins like an expression, does not end like one, holds no line feed and was scoped; then it is refused |
| ArtifactScope.SecondRunCanRefuse | scripts/release_attempt_workflow.py:78-86 | The value "${{ matrix.target }}-x", when it is a selector, is scoped by a first run and refused by a second |
| ArtifactScope.SecondStep | scripts/release_attempt_workflow.py:89-108 | A second run over a scoped step changes nothing, exactly unless one of its selectors is such a value |
| ArtifactScope.SecondWorkflow | scripts/release_attempt_workflow.py:20-108 | A second run over a whole scoped workflow collects the same producer selectors anew and leaves every step as it is, exactly but for the steps with such a selector, which it refuses |
| ArtifactScope.Workflow.ProducerSelectors | scripts/release_attempt_workflow.py:20-35 | Returns exactly the selectors of all uploads, and raises exactly when an upload has no name or only stars |
| ArtifactScope.Workflow.ScopeOption | scripts/release_attempt_workflow.py:101-106 | One option is rewritten in place exactly as the specification says, and the answer tells whether it changed |
| ArtifactScope.Workflow.Scope | scripts/release_attempt_workflow.py:89-108 | Every step becomes what the specification says, it raises exactly when some step must, and the answer is whether anything changed |
| ArtifactScope.UploadIsScopedOrRefused | scripts/release_attempt_workflow.py:20-86 | A local upload gets the attempt suffix, or is refused as a dynamic name |
| ArtifactScope.LocalEdgesAreBound | scripts/release_attempt_workflow.py:20-108 | A download that can pick up a local upload under its scoped name is bound to this attempt exactly when it is an expression, has the suffix or overlaps a selector; and it always is when the compared ends of the scoped upload are its own |
| ArtifactSteps.StepIsScopedExactly | scripts/release_attempt_workflow.py:52-108 | By action and options alone: an upload, or a download without artifact-ids, gets every text under name or pattern that overlaps a selector suffixed over its own base, or is refused for an unknown expression or for not being of this run with one selector; any other step, and a download by artifact-ids, is unchanged or refused for mixed selectors |
| ArtifactScope.AllEdgesAreBound | scripts/release_attempt_workflow.py:20-108 | For one upload alone, every download that can pick up its scoped name is bound or refused, if and only if the compared ends of that name are its own |
| ArtifactScope.ScopedUploadIsMissed | scripts/release_attempt_workflow.py:20-108 | The upload x is scoped, the download pattern *-attempt-1 can pick up its first attempt, and scope neither binds nor refuses it |
| ArtifactScope.DownloadsHaveOneIdentity | scripts/release_attempt_workflow.py:53-75 | After scope every download either names exact artifact IDs and nothing else, or has one nonblank selector and no foreign run or repository |
| Readiness.CoveredSelection | scripts/arc_readiness.py:67-78 | A selection within a covered namespace is the same in every cluster the snapshot may come from |
| Readiness.NothingUnseen | scripts/arc_readiness.py:67-78 | A complete cluster-wide listing leaves nothing unseen |
| Readiness.PodVerdictHolds | scripts/arc_readiness.py:161-177 | Every verdict about a listener's Pods is true of every completion of the snapshot |
| Readiness.ListenerVerdictHolds | scripts/arc_readiness.py:180-203 | absent, ambiguous, scope-mismatch, terminating, pod-absent, not-ready, observed-ready and ready are each true of every completion |
| Readiness.CoveredListenerIsDecided | scripts/arc_readiness.py:161-203 | With everything listed and listeners fully named, no listener verdict stays unknown or merely observed |
| ReadinessMeaning.CoversMeans | scripts/arc_readiness.py:67-78 | A listing covers a namespace if and only if it is complete, without continuation or remaining items, for the whole cluster or under a nonempty prefix of the namespace |
| ReadinessMeaning.ListenerVerdictMeans | scripts/arc_readiness.py:81-177 | Each verdict about a listener, said by the two linking labels, the controlling owner and the fields of the objects |
| PoolStates.ListenerStateIsExact | scripts/arc_readiness.py:161-203 | For any listings, each listener state is reported if and only if its own condition on labels, owners, fields and coverage holds; the conditions exclude each other |
| PoolStates.LimitsAreExact | scripts/arc_readiness.py:136-151 | Registration and limits are reported of the sole, fully named listener in the scope of the pool and of no other: a positive scale-set ID, equal maxima and equal minima, a missing one standing for none |
| ReadinessPools.IdleIsReported | scripts/arc_readiness.py:206-244 | With everything listed, a pool is reported idle-scale-to-zero if and only if it is idle |
| ReadinessMeaning.IdleMeans | scripts/arc_readiness.py:206-244 | Idle, in terms of labels and fields: exactly one listener with the two labels, running in scope with the limits, and exactly one Pod it controls, which is ready; the pool current, with room and no minimum; no Pod that a runner controls |
| PoolStates.PoolStateIsExact | scripts/arc_readiness.py:206-244 | For any listings, each pool state and the worker counts are reported if and only if their own conditions hold |
| ReadinessPools.PoolVerdictHolds | scripts/arc_readiness.py:206-244 | A pool's worker count and state are true of every completion: idle-scale-to-zero means one ready, registered and reconciled listener with one owned Pod, no minimum and no workers |
| ReadinessPools.MatchingPools | scripts/arc_readiness.py:273-292 | One pass gives the eligible pools' descriptions and the verdict of the specification, and raises exactly on an eligible pool without a valid identity |
| ReadinessPools.ConfigurationVerdictHolds | scripts/arc_readiness.py:260-292 | absent, matched, ambiguous and scope-mismatch are each true of every completion |
| PoolMeaning.LabelsMean | scripts/arc_readiness.py:89-95 | A pool offers labels if and only if all it declares, or the name standing for them, are names of up to 100 characters and the wanted ones are among them |
| PoolMeaning.ScopeMeans | scripts/arc_readiness.py:98-111 | A pool belongs to a repository or its owner if and only if its URL is that of the host and this target, letter case aside; without such a URL its scope is unknown |
| PoolStates.ConfigurationIsExact | scripts/arc_readiness.py:260-292 | For any listing, each configuration verdict is given if and only if its own condition on labels, URLs and coverage holds |
| ReadinessPools.UnknownIsForced | scripts/arc_readiness.py:260-292 | Where an uncovered listing leaves the verdict unknown and some valid namespace is outside it, two unseen pools with valid identities there leave no definite verdict true of all completions |
| ReadinessPools.NoValidPoolIsUnseen | scripts/arc_readiness.py:67-78 | Without such a namespace a listing that ran to its end has missed no pool with a valid identity |
| ReadinessPools.IdleProfile | scripts/arc_readiness.py:206-318 | A profile reported idle has, in every completion, exactly one eligible pool, and that one is idle |
| PoolStates.ProfileStateIsExact | scripts/arc_readiness.py:295-318 | A profile has the state of the only pool that serves it, held with queued demand told apart, where every pool is listed and placed; otherwise it is unknown |
| PermissionCaps.ValidatePermissionCap | scripts/install_release.py:1513-1526 | The loop over the finite scope set accepts exactly when every compared scope is within the cap |
| PermissionCaps.FiniteCheckSuffices | scripts/install_release.py:1513-1526 | A request is within its caller on every scope, named or not, if and only if the finite check accepts it and it is not a blanket request against a caller that names the scope "*" |
| PermissionCaps.Smaller | scripts/install_release.py:1564-1571 | Each call leaves one workflow file fewer to enter, which is why the recursion ends |
| PermissionCaps.ValidateLocalCalls | scripts/install_release.py:1551-1571 | The recursive loop accepts exactly when every job of every called workflow passes its checks |
| PermissionCaps.AcceptedByPaths | scripts/install_release.py:1551-1571 | Acceptance holds if and only if every job that any call path ends in, however deep, passes its own checks |
| CallDeclarations.AcceptedByDeclarations | scripts/install_release.py:1551-1571 | By the declarations in the files alone: calls are accepted if and only if down every call path the nearest declaration from the last job upwards, its own before its workflow's before its caller's, is within the nearest one from its caller upwards, and each local call names a callable workflow file not entered before |
| CallDeclarations.OwnDeclarationIsCapped | scripts/install_release.py:1551-1571 | On an accepted path a called job's own declaration, whatever its workflow declares, is within the nearest declaration above the call |
| CallDeclarations.EffectiveIsNearest | scripts/install_release.py:1554-1556 | A job runs with the nearest declaration: its own, else that of its workflow, else that of its caller, else none |
| CallDeclarations.ScopeWithinMeans | scripts/install_release.py:1504-1526 | One scope is within the other: no access is, write allows all, and read allows read; words other than these are refused |
| CallDeclarations.LocalWorkflowIsNamed | scripts/install_release.py:1563-1565 | A reference is local if and only if it is the workflow directory, a stem of letters, digits, dashes and underscores, and .yml or .yaml |
| PermissionCaps.AcceptedPathsAreShort | scripts/install_release.py:1564-1571 | No accepted path enters a workflow file twice or one of its chain, so none is longer than there are files |
| PermissionCaps.PathWithinRoot | scripts/install_release.py:1551-1571 | Down any accepted call path the last job has at most its root job's level on every scope, if and only if the finite check accepts it against the root and it is no star hole there; without a star hole on the way it always does |
| PermissionCaps.StarHoleIsAccepted | scripts/install_release.py:1504-1526 | A caller that grants write to a scope called "*" lets a called job with write-all through: it has write where the caller has none |
| BuilderCleanup.Cleanup.ProbeBuilder | scripts/build_runner_image_artifacts.py:1609-1620 | None is answered only while no container has the name, and a container is returned only after its identity check |
| BuilderCleanup.Cleanup.ProbeVolume | scripts/build_runner_image_artifacts.py:1681-1692 | An answer tells whether the volume exists; an unexpected volume is an error |
| BuilderCleanup.Cleanup.ProbeInstance | scripts/build_runner_image_artifacts.py:1709-1715 | An answer tells whether the metadata exists; a link or another kind of file is an error |
| BuilderCleanup.Cleanup.RemoveContainer | scripts/build_runner_image_artifacts.py:1751-1753 | The removal is issued by the ID of a container that passed the identity check |
| BuilderCleanup.Cleanup.RemoveVolume | scripts/build_runner_image_artifacts.py:1767-1772 | The removal is issued only for a volume that an identified builder mounts or that was absent before |
| BuilderCleanup.Cleanup.RemoveBuilderResources | scripts/build_runner_image_artifacts.py:1742-1776 | Whatever step fails, every removal is justified, the log is an initial part of a run and the error of the failing step is the one raised; a normal return means the full run, no state volume, and no container or instance that others did not re-create meanwhile |
| BuilderMeaning.RemovalsAreOwn | scripts/build_runner_image_artifacts.py:1593-1606 | Every removal ever issued is of a container with the name, image, owner, ID form, limits and restart policy of the builder, or of the state volume, which was absent before or is the one writable state mount of such a container |
| BuilderMeaning.AssociatedMeans | scripts/build_runner_image_artifacts.py:1747-1750 | A container is associated with a volume if and only if exactly one of its mounts stands at the state directory and that is this volume, writable |
| BuilderMeaning.ClaimsMean | scripts/build_runner_image_artifacts.py:1709-1776 | What each completed absence step says: no container of the name, no instance metadata, no state volume |
| BuilderCleanup.RemovalsFollowTheirChecks | scripts/build_runner_image_artifacts.py:1742-1776 | In the log of every run each removal comes after the completed check it depends on |
| BuilderCleanup.RunSawAbsence | scripts/build_runner_image_artifacts.py:1742-1776 | The log of a full run holds the moments at which instance and container were seen absent, and each still is unless others re-created an object after that moment |
| BuilderCleanup.Cleanup.HandleFailure | scripts/build_runner_image_artifacts.py:1727-1739 | Given the failure, the handler records the readbacks in order, an inconclusive one as unknown, and raises that same failure again, exactly unless a readback was interrupted by an exception that is no Exception |
| BuilderCleanup.Cleanup.InterruptReplacesTheFirstError | scripts/build_runner_image_artifacts.py:1724-1739 | A log whose first probe failed and whose first readback was interrupted is that of a run that raises the interrupt and not its first error |
| BuilderCleanup.Cleanup.RemoveBuilder | scripts/build_runner_image_artifacts.py:1724-1739 | A failed run raises the very first error it met, exactly unless a readback was interrupted; a run that returns met none and leaves the objects absent as above |
| PythonText.BoundariesByNumber | scripts/build_runner_gstreamer.py:170-173 | The characters at which lines split and those that are stripped, by their code points |
| ControlText.ParseText | scripts/build_runner_gstreamer.py:170-182 | The line loop computes the parse of the specification, and fails exactly where it does |
| ControlText.TextRoundTrip | scripts/build_runner_gstreamer.py:170-197 | Printing the parse of accepted text gives the text back if and only if the text is empty or newline-terminated and has no other line boundary |
| ControlText.FieldsRoundTrip | scripts/build_runner_gstreamer.py:170-197 | Parsing the print of a parse gives the same fields: keys, order, continuation lines |
| ControlText.CarriageReturnsAreLost | scripts/build_runner_gstreamer.py:170-182 | A concrete accepted text with a carriage return that does not come back |
| ControlUpdate.PrintedFieldsComeBack | scripts/build_runner_gstreamer.py:170-197 | Fields come back from their print if and only if they are well formed |
| ControlUpdate.UpdateTouchesOnly | scripts/build_runner_gstreamer.py:185-197 | After the update every field has its old value, but for the four that are set and the paired dependency of the plugin package |
| ControlUpdate.UpdateKeepsOrder | scripts/build_runner_gstreamer.py:190-197 | The fields keep their order; only a missing maintainer or size is added at the end |
| ControlUpdate.ReplacedKeepsTheRest | scripts/build_runner_gstreamer.py:193-196 | The one old dependency is exchanged and the text around it kept |
| ControlUpdate.UpdateControl | scripts/build_runner_gstreamer.py:185-197 | Returns exactly for the expected package with one paired dependency, and what it returns parses back to the updated fields |
| ControlMeaning.UpdateIsExact | scripts/build_runner_gstreamer.py:185-197 | By the fields alone: a text is rewritten if and only if it parses to this package, version, architecture and source, the plugin package with the old dependency at exactly one place; then the four fields and that place hold the new texts, the size in decimal, and every other field what it held |
| ControlMeaning.CountMeans | scripts/build_runner_gstreamer.py:194-195 | A text counts once if and only if it stands somewhere and every other place of it overlaps that one |
| LintCopy.Blank | scripts/actionlint_compat.py:68-69 | One span is blanked in place, line breaks excepted, and nothing else is touched |
| LintCopy.Copy | scripts/actionlint_compat.py:50-70 | The copy is the source with exactly the selected spans blanked; malformed YAML comes back unchanged, an unsupported queue raises |
| LintSpans.CopyIsExact | scripts/actionlint_compat.py:19-70 | By the nodes alone: a document is refused if and only if the queue of the concurrency mapping of the document or of some job has no span, and the blanked characters are exactly those of the spans |
| LintSpans.SpanIsExact | scripts/actionlint_compat.py:25-49 | A queue has a span if and only if keys are texts that differ, it is the string single or max, max does not cancel, its value stands behind its key within the mapping, and in flow style a comma parts it from its neighbour; then it is the entry with the nearest such comma |
| LintCopy.LineBreaksStay | scripts/actionlint_compat.py:68-69 | Every line break stays where it was and none appears |
| LintCopy.BlankingIsIdempotent | scripts/actionlint_compat.py:67-69 | Blanking the same spans again, in any order, changes nothing |
| LintCopy.SpanStaysInside | scripts/actionlint_compat.py:40-47 | A span reaches from the key up to the first comma behind its entry, from the last comma before it to its value, or over the entry alone; without such a comma it is refused |
| LintMeaning.ReadWritten | scripts/actionlint_compat.py:25-47 | The reader of plain flow mappings gives back the entries of every written mapping |
| LintQueue.CopyHidesOnlyTheQueue | scripts/actionlint_compat.py:25-70 | A supported queue of a plain flow mapping always has a span, and the copy reads as the mapping without it, first, middle, last or only; exactly with a trailing comma after an only queue it is no mapping any more |
| LintQueue.CopyHidesOnlyTheQueues | scripts/actionlint_compat.py:50-70 | The same for every mapping when the queues of several separate mappings are blanked in one source |
| LintBlock.ReadWrittenBlock | scripts/actionlint_compat.py:25-47 | The reader of plain block mappings gives back the entries of every written mapping, comments left out |
| LintBlock.BlockCopyHidesOnlyTheQueue | scripts/actionlint_compat.py:25-70 | A supported queue of a plain block mapping always has a span, and the copy reads as the mapping without it, wherever its line stands; exactly when it is the only entry no mapping is left |

## Left out

- RecoveryPayload.NextMember: one header is one 512-byte block; GNU long names, pax members and the 10240-byte read-ahead of the tar library are not modelled.
- RecoveryPayload.Pack: file type, link and directory checks of the staging, and identity checks before and after reading, appear only as the requirement that a staged file has the catalogued bytes.
- RecoveryPayload.Bounded.Write: the wrapped output stream takes all it is given; a short write, which the code refuses, is not modelled here.
- RecoveryPrepare.Prepare: one gate stands for the disk gates, directory syncs and looks at a source that follow each other; path strings, file modes and the JSON shape checks of the inputs are not modelled, fields have their types.
- OciArchive.Archive.OpenGraph: the tar member checks of the inventory, the bookkeeping of metadata names and the check that the input file did not change during assembly are not modelled.
- OciMerge.MergeArchives: works on the inventoried blobs; writing the output tar, its publication and the result dictionary are not modelled.
- ScalarEditor.Editor.Finish: the two YAML loads and the tracked expected data are one acceptance predicate on the text; the marker and defaults checks of the constructor are not modelled; the concrete documents here begin with the marker.
- RecoveryPipeline.Pipeline.Run: input identities are one check of the environment; the intent and receipt records (see Publication.DurableJson), stderr hashes, the check that a status names the process asked for, and the macOS path for terminated groups are not modelled; each turn of the event loop takes at least one clock tick.
- DetachedOutputs.PublishDetachedOutputs: an interrupt arrives between two system calls, so one right after the last look is not told from success; the look at a staged file before its link, and looking at a name that exists, do not fail.
- Publication.Rollback: an interrupt during the rollback itself, which would end it, is not modelled; before the rollback an interrupt is a failing step like any other.
- ArtifactScope.Workflow.Scope: the steps of all jobs form one list; a step object shared by two jobs is not modelled. What a character class of a glob accepts is a parameter. The edges between uploads and downloads are stated for expressions as the substitution reads them; where the service reads them otherwise, ArtifactOverlap.EveryEdgeIsFound says what is found.
- Readiness.ListenerVerdictHolds: a JSON field of an unexpected type is treated like a missing one where the code treats them alike; the two are kept apart for limits, labels and scale-set names.
- ReadinessPools.MatchingPools: casefold is modelled on the ASCII characters that repository names and accepted URLs may hold; ready worker counts, demand validation and freshness of the snapshot are not modelled.
- PermissionCaps.ValidateLocalCalls: the CodeQL pin check is one flag of a workflow, and a workflow file that cannot be read or parsed is absent.
- BuilderCleanup.Cleanup.RemoveInstance: `docker buildx rm` changes the instance metadata only; timestamps and the returned container state are not modelled, and a renamed container counts as another one.
- LintQueue.CopyHidesOnlyTheQueue: flow mappings with plain scalars and only blanks around one comma between entries; comments between entries, quoted scalars with commas and nested collections are not covered by the reader.
- LintBlock.BlockCopyHidesOnlyTheQueue: block mappings with one entry a line, with comments behind entries; lines between entries, scalars over several lines and nested collections are not covered by the reader.
- Network, Docker, Git and systemd calls, disk-space arithmetic, workflow rendering, the package acceptance tables and the command-line entry points are not part of this model.
