/** prepare: splitting the originals into staged parts and cataloguing them. */
module RecoveryPrepare {
  import opened Common
  import opened RecoveryCatalog
  import opened RecoveryFraming
  import opened RecoveryPayload

  /** One declared input: its declared size and hash, and the bytes its file holds. */
  datatype Source = Source(name: string, bytes: nat, sha256: string, content: Bytes)

  function ZeroSha(): string {
    seq(64, _ => '0')
  }

  /** The catalog entry built before anything is written; its part hashes are still zero. */
  function Planned(source: Source, chunk: nat): Original
    requires chunk > 0
  {
    Original(source.name, source.bytes, source.sha256,
             seq(PartCount(source.bytes, chunk), n requires 0 <= n < PartCount(source.bytes, chunk) =>
               PartStartsInside(source.bytes, chunk, n);
               Part(PartName(source.name, n), PartBytes(source.bytes, chunk, n), ZeroSha())))
  }

  function TotalPlanned(inputs: seq<Source>, chunk: nat): nat
    requires chunk > 0
  {
    if inputs == [] then 0 else PartCount(inputs[0].bytes, chunk) + TotalPlanned(inputs[1..], chunk)
  }

  /** The bytes of part n of a file. */
  function Chunk(content: Bytes, chunk: nat, n: nat): Bytes
    requires chunk > 0 && n < PartCount(|content|, chunk)
  {
    PartStartsInside(|content|, chunk, n);
    content[n * chunk..n * chunk + PartBytes(|content|, chunk, n)]
  }

  /** The first `count` parts of a file are staged under their names with their hashes recorded. */
  ghost predicate Stored(codec: Codec, source: Source, chunk: nat, parts: seq<Part>, dir: Directory)
    requires chunk > 0
  {
    && |source.content| == source.bytes && |parts| <= PartCount(source.bytes, chunk)
    && forall n :: 0 <= n < |parts| ==>
                     && parts[n] == Part(PartName(source.name, n), |Chunk(source.content, chunk, n)|,
                                         codec.sha(Chunk(source.content, chunk, n)))
                     && parts[n].name in dir && dir[parts[n].name] == Chunk(source.content, chunk, n)
  }

  ghost predicate Completed(codec: Codec, source: Source, chunk: nat, original: Original, dir: Directory)
    requires chunk > 0
  {
    && original == Original(source.name, source.bytes, source.sha256, original.parts)
    && Stored(codec, source, chunk, original.parts, dir)
    && |original.parts| == PartCount(source.bytes, chunk)
    && codec.sha(source.content) == source.sha256
  }

  /**
   * Whether the environment lets us pass at each step: a disk gate with the write or the directory sync it guards, or
   * a look at whether a source is still what it was.
   */
  type Gates = nat -> bool

  ghost predicate Passed(gates: Gates, from: nat, until: nat) {
    forall k :: from <= k < until ==> gates(k)
  }

  /** Writing one part: read the source in blocks, hash and store them, under an exclusive name. */
  method WritePart(codec: Codec, gates: Gates, content: Bytes, start: nat, size: nat, name: string, dir: Directory,
                   written: nat, maximum: int, step: nat)
    returns (r: Outcome<string>, dir': Directory, written': nat, step': nat)
    requires start + size <= |content|
    ensures r.Returned? ==>
              && name !in dir
              && dir' == dir[name := content[start..start + size]]
              && r.value == codec.sha(content[start..start + size])
              && written' == written + size && (size > 0 ==> written' <= maximum)
    ensures step <= step' && (r.Returned? ==> Passed(gates, step, step'))
    ensures r.Raised? ==> name in dir || written + size > maximum || !Passed(gates, step, step')
  {
    r, dir', written', step' := Raised, dir, written, step;
    if name in dir { return; }
    var stored: Bytes := [];
    var remaining: nat := size;
    while remaining > 0
      invariant remaining <= size && stored == content[start..start + size - remaining]
      invariant written' == written + |stored| && (|stored| > 0 ==> written' <= maximum)
      invariant step <= step' && Passed(gates, step, step')
    {
      var at := start + size - remaining;
      var data := content[at..at + Min(BLOCK, remaining)];
      if written' + |data| > maximum { return; }
      step' := step' + 1;
      if !gates(step' - 1) { return; }
      SliceConcat(content, start, at, at + |data|);
      stored := stored + data;
      remaining := remaining - |data|;
      written' := written' + |data|;
    }
    step' := step' + 1;
    if !gates(step' - 1) { return; }
    r := Returned(codec.sha(stored));
    dir' := dir[name := stored];
  }

  function NamesOf(parts: seq<Part>): set<string> {
    set n | 0 <= n < |parts| :: parts[n].name
  }

  /** What was staged before stays as it was. */
  ghost predicate Kept(dir: Directory, dir': Directory) {
    forall name :: name in dir ==> name in dir' && dir'[name] == dir[name]
  }

  lemma StoredIsKept(codec: Codec, source: Source, chunk: nat, parts: seq<Part>, dir: Directory, dir': Directory)
    requires chunk > 0 && Stored(codec, source, chunk, parts, dir) && Kept(dir, dir')
    ensures Stored(codec, source, chunk, parts, dir')
  {
  }

  /** The next part of a partly staged original. */
  method StorePart(codec: Codec, gates: Gates, source: Source, chunk: nat, parts: seq<Part>, dir: Directory,
                   written: nat, maximum: int, step: nat)
    returns (r: Outcome<Part>, dir': Directory, written': nat, step': nat)
    requires chunk > 0 && Stored(codec, source, chunk, parts, dir) && |parts| < PartCount(source.bytes, chunk)
    ensures r.Returned? ==>
              && Stored(codec, source, chunk, parts + [r.value], dir')
              && Kept(dir, dir') && dir'.Keys == dir.Keys + {r.value.name}
              && written' == written + PartBytes(source.bytes, chunk, |parts|) <= maximum
    ensures step <= step' && (r.Returned? ==> Passed(gates, step, step'))
    ensures r.Raised? ==>
              || PartName(source.name, |parts|) in dir
              || written + PartBytes(source.bytes, chunk, |parts|) > maximum
              || !Passed(gates, step, step')
  {
    var n := |parts|;
    PartStartsInside(source.bytes, chunk, n);
    var name, size := PartName(source.name, n), PartBytes(source.bytes, chunk, n);
    var hash, dir1, total, next :=
      WritePart(codec, gates, source.content, n * chunk, size, name, dir, written, maximum, step);
    if hash.Raised? { return Raised, dir, written, next; }
    r, dir', written', step' := Returned(Part(name, size, hash.value)), dir1, total, next;
    StoredIsKept(codec, source, chunk, parts, dir, dir');
  }

  predicate Intact(codec: Codec, source: Source) {
    |source.content| == source.bytes && codec.sha(source.content) == source.sha256
  }

  /** A staged file is in the way of some part. */
  ghost predicate NameTaken(source: Source, chunk: nat, dir: Directory)
    requires chunk > 0
  {
    exists n: nat :: n < PartCount(source.bytes, chunk) && PartName(source.name, n) in dir
  }

  /** How many bytes the first n parts hold. */
  lemma StagedBytes(bytes: nat, chunk: nat, n: nat)
    requires chunk > 0 && n < PartCount(bytes, chunk)
    ensures Min(n * chunk, bytes) + PartBytes(bytes, chunk, n) == Min((n + 1) * chunk, bytes)
  {
    PartStartsInside(bytes, chunk, n);
    assert (n + 1) * chunk == n * chunk + chunk;
  }

  /** A part whose name is taken was not taken by the parts before it. */
  lemma TakenBefore(codec: Codec, source: Source, chunk: nat, parts: seq<Part>, dir: Directory, dir': Directory)
    requires chunk > 0 && '/' !in source.name && |parts| < PartCount(source.bytes, chunk)
    requires Stored(codec, source, chunk, parts, dir') && dir'.Keys == dir.Keys + NamesOf(parts)
    requires PartName(source.name, |parts|) in dir'
    ensures NameTaken(source, chunk, dir)
  {
    if PartName(source.name, |parts|) in NamesOf(parts) {
      var n :| 0 <= n < |parts| && parts[n].name == PartName(source.name, |parts|);
      PartNamesDiffer(source.name, n, source.name, |parts|);
    }
  }

  /** How far the splitting of one original has come. */
  datatype Split = Split(parts: seq<Part>, dir: Directory, written: nat, step: nat)

  ghost predicate Splitting(codec: Codec, gates: Gates, source: Source, chunk: nat, begin: Split, now: Split)
    requires chunk > 0
  {
    && Stored(codec, source, chunk, now.parts, now.dir)
    && now.dir.Keys == begin.dir.Keys + NamesOf(now.parts) && Kept(begin.dir, now.dir)
    && now.written == begin.written + Min(|now.parts| * chunk, source.bytes)
    && begin.step <= now.step && Passed(gates, begin.step, now.step)
  }

  lemma PassedOn(gates: Gates, from: nat, between: nat, until: nat)
    requires from <= between <= until && Passed(gates, from, between)
    ensures Passed(gates, from, until) <==> Passed(gates, between, until)
  {
  }

  /** One turn of the loop over the parts. */
  method SplitNext(codec: Codec, gates: Gates, source: Source, chunk: nat, ghost begin: Split, now: Split, maximum: int)
    returns (ok: bool, next: Split)
    requires chunk > 0 && '/' !in source.name && Splitting(codec, gates, source, chunk, begin, now)
    requires |now.parts| < PartCount(source.bytes, chunk)
    ensures ok ==> Splitting(codec, gates, source, chunk, begin, next) && |next.parts| == |now.parts| + 1
    ensures now.step <= next.step
    ensures !ok ==>
              || NameTaken(source, chunk, begin.dir) || begin.written + source.bytes > maximum
              || !Passed(gates, begin.step, next.step)
  {
    StagedBytes(source.bytes, chunk, |now.parts|);
    var part, dir, written, step :=
      StorePart(codec, gates, source, chunk, now.parts, now.dir, now.written, maximum, now.step);
    PassedOn(gates, begin.step, now.step, step);
    if part.Raised? {
      if PartName(source.name, |now.parts|) in now.dir {
        TakenBefore(codec, source, chunk, now.parts, begin.dir, now.dir);
      }
      return false, now.(step := step);
    }
    NamesSnoc(now.parts, part.value);
    ok, next := true, Split(now.parts + [part.value], dir, written, step);
  }

  /** Splitting one original: it fails only for a source that differs, a name in the way, the budget or a gate. */
  method SplitOriginal(codec: Codec, gates: Gates, source: Source, chunk: nat, dir: Directory, written: nat,
                       maximum: int, step: nat)
    returns (r: Outcome<Original>, dir': Directory, written': nat, step': nat)
    requires chunk > 0 && '/' !in source.name
    ensures r.Returned? ==>
              && Intact(codec, source) && Completed(codec, source, chunk, r.value, dir')
              && dir'.Keys == dir.Keys + NamesOf(r.value.parts) && Kept(dir, dir')
              && written' == written + source.bytes
    ensures step <= step' && (r.Returned? ==> Passed(gates, step, step'))
    ensures r.Raised? ==>
              || !Intact(codec, source) || NameTaken(source, chunk, dir) || written + source.bytes > maximum
              || !Passed(gates, step, step')
  {
    r, dir', written', step' := Raised, dir, written, step;
    if |source.content| != source.bytes { return; }
    var begin := Split([], dir, written, step);
    var now := begin;
    while |now.parts| < PartCount(source.bytes, chunk)
      invariant Splitting(codec, gates, source, chunk, begin, now)
      decreases PartCount(source.bytes, chunk) - |now.parts|
    {
      var ok;
      ok, now := SplitNext(codec, gates, source, chunk, begin, now, maximum);
      if !ok { return Raised, dir, written, now.step; }
    }
    PartsReachTheEnd(source.bytes, chunk);
    dir', written', step' := now.dir, now.written, now.step + 1;
    if !gates(now.step) || codec.sha(source.content) != source.sha256 { return; }
    r := Returned(Original(source.name, source.bytes, source.sha256, now.parts));
  }

  lemma NamesSnoc(parts: seq<Part>, part: Part)
    ensures NamesOf(parts + [part]) == NamesOf(parts) + {part.name}
  {
    forall name | name in NamesOf(parts)
      ensures name in NamesOf(parts + [part])
    {
      var n :| 0 <= n < |parts| && parts[n].name == name;
      assert (parts + [part])[n].name == name;
    }
    assert (parts + [part])[|parts|].name == part.name;
  }

  lemma PartNamesSnoc(files: seq<Original>, original: Original)
    ensures PartNames(files + [original]) == PartNames(files) + NamesOf(original.parts)
  {
    var more := files + [original];
    forall name | name in PartNames(files)
      ensures name in PartNames(more)
    {
      var f, n :| 0 <= f < |files| && 0 <= n < |files[f].parts| && files[f].parts[n].name == name;
      assert more[f].parts[n].name == name;
    }
    forall name | name in NamesOf(original.parts)
      ensures name in PartNames(more)
    {
      var n :| 0 <= n < |original.parts| && original.parts[n].name == name;
      assert more[|files|].parts[n].name == name;
    }
  }

  lemma ChunkEnds(content: Bytes, chunk: nat, n: nat)
    requires chunk > 0 && n < PartCount(|content|, chunk)
    ensures Chunk(content, chunk, n) + content[Min((n + 1) * chunk, |content|)..]
         == content[Min(n * chunk, |content|)..]
  {
    PartStartsInside(|content|, chunk, n);
    assert (n + 1) * chunk == n * chunk + chunk;
  }

  /** Joining the chunks from number lo on gives the rest of the file. */
  lemma {:induction false} JoinChunks(codec: Codec, source: Source, chunk: nat, files: seq<Original>, f: nat,
                                      dir: Directory,
                                      lo: nat)
    requires chunk > 0 && f < |files| && lo <= |files[f].parts|
    requires Completed(codec, source, chunk, files[f], dir)
    ensures JoinParts(StagedFrom(files, dir), f, Range(lo, |files[f].parts|))
         == source.content[Min(lo * chunk, |source.content|)..]
    decreases |files[f].parts| - lo
  {
    if lo == |files[f].parts| {
      PartsReachTheEnd(source.bytes, chunk);
    } else {
      JoinChunks(codec, source, chunk, files, f, dir, lo + 1);
      ChunkEnds(source.content, chunk, lo);
      var all := Range(lo, |files[f].parts|);
      assert all[0] == lo && all[1..] == Range(lo + 1, |files[f].parts|);
      assert StagedFrom(files, dir)[Slot(f, lo)] == Chunk(source.content, chunk, lo);
    }
  }

  lemma WholeIsContent(codec: Codec, source: Source, chunk: nat, files: seq<Original>, f: nat, dir: Directory)
    requires chunk > 0 && f < |files|
    requires Completed(codec, source, chunk, files[f], dir)
    ensures Whole(files, StagedFrom(files, dir), f) == source.content
  {
    JoinChunks(codec, source, chunk, files, f, dir, 0);
    assert source.content[0..] == source.content;
  }

  ghost predicate AllCompleted(codec: Codec, inputs: seq<Source>, chunk: nat, files: seq<Original>, dir: Directory)
    requires chunk > 0 && |files| <= |inputs|
  {
    forall f :: 0 <= f < |files| ==> Completed(codec, inputs[f], chunk, files[f], dir)
  }

  lemma CompletedStaging(codec: Codec, inputs: seq<Source>, chunk: nat, catalog: Catalog, dir: Directory)
    requires chunk > 0 && |catalog.files| <= |inputs|
    requires Inventoried(codec, catalog, dir) && AllCompleted(codec, inputs, chunk, catalog.files, dir)
    ensures StagingMatches(codec, catalog, dir)
  {
    forall f, n | 0 <= f < |catalog.files| && 0 <= n < |catalog.files[f].parts|
      ensures PartMatches(codec, catalog.files[f].parts[n], dir)
    {
      assert Completed(codec, inputs[f], chunk, catalog.files[f], dir);
    }
  }

  // ----- the catalog that prepare returns ----------------------------------------------

  /** The entry of one original, from its bytes alone. */
  function Hashed(codec: Codec, source: Source, chunk: nat): Original
    requires chunk > 0 && |source.content| == source.bytes
  {
    Original(source.name, source.bytes, source.sha256,
             seq(PartCount(source.bytes, chunk), n requires 0 <= n < PartCount(source.bytes, chunk) =>
               Part(PartName(source.name, n), |Chunk(source.content, chunk, n)|,
                    codec.sha(Chunk(source.content, chunk, n)))))
  }

  lemma CompletedIsHashed(codec: Codec, source: Source, chunk: nat, original: Original, dir: Directory)
    requires chunk > 0 && Completed(codec, source, chunk, original, dir)
    ensures original == Hashed(codec, source, chunk)
  {
    assert original.parts == Hashed(codec, source, chunk).parts;
  }

  predicate AllIntact(codec: Codec, inputs: seq<Source>) {
    forall i :: 0 <= i < |inputs| ==> Intact(codec, inputs[i])
  }

  function PlannedCatalog(inputs: seq<Source>, chunk: nat): Catalog
    requires chunk > 0
  {
    Catalog(1, chunk, seq(|inputs|, i requires 0 <= i < |inputs| => Planned(inputs[i], chunk)))
  }

  function HashedCatalog(codec: Codec, inputs: seq<Source>, chunk: nat): Catalog
    requires chunk > 0 && AllIntact(codec, inputs)
  {
    Catalog(1, chunk, seq(|inputs|, i requires 0 <= i < |inputs| => Hashed(codec, inputs[i], chunk)))
  }

  /** What inputs can be prepared. */
  predicate Preparable(codec: Codec, inputs: seq<Source>, chunk: int, maximum: int) {
    && 0 < |inputs| <= 64 && 0 < chunk <= MAX_CHUNK && TotalPlanned(inputs, chunk) <= MAX_PARTS
    && Admitted(codec, PlannedCatalog(inputs, chunk), maximum)
    && AllIntact(codec, inputs) && Admitted(codec, HashedCatalog(codec, inputs, chunk), maximum)
  }

  // ----- prepare -----------------------------------------------------------------------

  /** The names of the sources differ and can be parts of a path. */
  ghost predicate NamedApart(inputs: seq<Source>) {
    && (forall i :: 0 <= i < |inputs| ==> '/' !in inputs[i].name)
    && forall i, j :: 0 <= i < j < |inputs| ==> inputs[i].name != inputs[j].name
  }

  lemma NothingIsTaken(codec: Codec, inputs: seq<Source>, chunk: nat, files: seq<Original>, dir: Directory)
    requires chunk > 0 && NamedApart(inputs) && |files| < |inputs|
    requires AllCompleted(codec, inputs, chunk, files, dir) && dir.Keys == PartNames(files)
    ensures !NameTaken(inputs[|files|], chunk, dir)
  {
    var source := inputs[|files|];
    forall n: nat | n < PartCount(source.bytes, chunk)
      ensures PartName(source.name, n) !in dir
    {
      if PartName(source.name, n) in PartNames(files) {
        var f, m :| 0 <= f < |files| && 0 <= m < |files[f].parts| && files[f].parts[m].name == PartName(source.name, n);
        assert Completed(codec, inputs[f], chunk, files[f], dir);
        PartNamesDiffer(inputs[f].name, m, source.name, n);
      }
    }
  }

  lemma {:induction false} TotalSnoc(files: seq<Original>, original: Original)
    ensures TotalBytes(files + [original]) == TotalBytes(files) + original.bytes
  {
    if files != [] {
      assert (files + [original])[1..] == files[1..] + [original];
      TotalSnoc(files[1..], original);
    }
  }

  /** Originals of the same sizes as the first planned ones are no more in all. */
  lemma {:induction false} PrefixTotal(files: seq<Original>, planned: seq<Original>)
    requires |files| <= |planned| && forall i :: 0 <= i < |files| ==> files[i].bytes == planned[i].bytes
    ensures TotalBytes(files) <= TotalBytes(planned)
  {
    if files != [] { PrefixTotal(files[1..], planned[1..]); }
  }

  /** The budget for one more original. */
  lemma NextFits(files: seq<Original>, original: Original, planned: seq<Original>)
    requires |files| < |planned| && original.bytes == planned[|files|].bytes
    requires forall i :: 0 <= i < |files| ==> files[i].bytes == planned[i].bytes
    ensures TotalBytes(files) + original.bytes <= TotalBytes(planned)
  {
    TotalSnoc(files, original);
    PrefixTotal(files + [original], planned);
  }

  lemma NextCompleted(codec: Codec, inputs: seq<Source>, chunk: nat, files: seq<Original>, original: Original,
                      dir: Directory, dir': Directory)
    requires chunk > 0 && |files| < |inputs| && Kept(dir, dir')
    requires AllCompleted(codec, inputs, chunk, files, dir) && Completed(codec, inputs[|files|], chunk, original, dir')
    ensures AllCompleted(codec, inputs, chunk, files + [original], dir')
  {
    var more := files + [original];
    forall f | 0 <= f < |more|
      ensures Completed(codec, inputs[f], chunk, more[f], dir')
    {
      if f < |files| {
        assert Completed(codec, inputs[f], chunk, files[f], dir);
        StoredIsKept(codec, inputs[f], chunk, files[f].parts, dir, dir');
      }
    }
  }

  /** Splitting every original in turn. */
  method SplitAll(codec: Codec, gates: Gates, inputs: seq<Source>, chunk: nat, maximum: int,
                  ghost planned: seq<Original>)
    returns (r: Outcome<seq<Original>>, dir: Directory, step: nat)
    requires chunk > 0 && NamedApart(inputs) && |planned| == |inputs| && TotalBytes(planned) <= maximum
    requires forall i :: 0 <= i < |inputs| ==> planned[i].bytes == inputs[i].bytes
    ensures r.Returned? ==>
              && |r.value| == |inputs| && AllIntact(codec, inputs)
              && AllCompleted(codec, inputs, chunk, r.value, dir) && dir.Keys == PartNames(r.value)
              && Passed(gates, 0, step)
    ensures r.Raised? ==> !AllIntact(codec, inputs) || !Passed(gates, 0, step)
  {
    var files: seq<Original> := [];
    var written := 0;
    dir, step := map[], 0;
    while |files| < |inputs|
      invariant |files| <= |inputs| && AllCompleted(codec, inputs, chunk, files, dir) && dir.Keys == PartNames(files)
      invariant forall i :: 0 <= i < |files| ==> Intact(codec, inputs[i]) && files[i].bytes == inputs[i].bytes
      invariant written == TotalBytes(files) && Passed(gates, 0, step)
    {
      var source := inputs[|files|];
      NothingIsTaken(codec, inputs, chunk, files, dir);
      NextFits(files, Planned(source, chunk), planned);
      var original, dir', total, next := SplitOriginal(codec, gates, source, chunk, dir, written, maximum, step);
      step := next;
      if original.Raised? { return Raised, dir, step; }
      NextCompleted(codec, inputs, chunk, files, original.value, dir, dir');
      PartNamesSnoc(files, original.value);
      TotalSnoc(files, original.value);
      files, dir, written := files + [original.value], dir', total;
    }
    r := Returned(files);
  }

  lemma AdmittedIsNamedApart(codec: Codec, inputs: seq<Source>, chunk: nat, maximum: int)
    requires chunk > 0 && Admitted(codec, PlannedCatalog(inputs, chunk), maximum)
    ensures NamedApart(inputs)
  {
    var files := PlannedCatalog(inputs, chunk).files;
    assert forall i :: 0 <= i < |inputs| ==> files[i].name == inputs[i].name && CheckedOriginal(files[i], chunk);
  }

  lemma AllCompletedIsHashed(codec: Codec, inputs: seq<Source>, chunk: nat, files: seq<Original>, dir: Directory)
    requires chunk > 0 && |files| == |inputs| && AllIntact(codec, inputs)
    requires AllCompleted(codec, inputs, chunk, files, dir)
    ensures Catalog(1, chunk, files) == HashedCatalog(codec, inputs, chunk)
  {
    forall f | 0 <= f < |files|
      ensures files[f] == Hashed(codec, inputs[f], chunk)
    {
      CompletedIsHashed(codec, inputs[f], chunk, files[f], dir);
    }
  }

  lemma ManifestIsNoPart(codec: Codec, inputs: seq<Source>, chunk: nat, files: seq<Original>, dir: Directory)
    requires chunk > 0 && |files| == |inputs| && AllCompleted(codec, inputs, chunk, files, dir)
    ensures "manifest.json" !in PartNames(files)
  {
    forall f, n | 0 <= f < |files| && 0 <= n < |files[f].parts|
      ensures files[f].parts[n].name[0] == 'p'
    {
      assert Completed(codec, inputs[f], chunk, files[f], dir);
    }
  }

  /** The manifest among the staged parts. */
  method AddManifest(codec: Codec, inputs: seq<Source>, chunk: nat, catalog: Catalog, parts: Directory)
    returns (dir: Directory)
    requires chunk > 0 && |catalog.files| == |inputs| && parts.Keys == PartNames(catalog.files)
    requires AllCompleted(codec, inputs, chunk, catalog.files, parts)
    ensures StagingMatches(codec, catalog, dir) && AllCompleted(codec, inputs, chunk, catalog.files, dir)
  {
    ManifestIsNoPart(codec, inputs, chunk, catalog.files, parts);
    dir := parts["manifest.json" := codec.encode(catalog)];
    forall f | 0 <= f < |inputs|
      ensures Completed(codec, inputs[f], chunk, catalog.files[f], dir)
    {
      StoredIsKept(codec, inputs[f], chunk, catalog.files[f].parts, parts, dir);
    }
    CompletedStaging(codec, inputs, chunk, catalog, dir);
  }

  /**
   * prepare: it succeeds exactly for inputs that can be prepared, if every gate lets it pass, and then returns the one
   * catalog that the inputs determine, with a staging that matches it and holds the originals, part by part.
   */
  method Prepare(codec: Codec, gates: Gates, inputs: seq<Source>, chunk: int, maximum: int)
    returns (r: Outcome<Catalog>, dir: Directory, step: nat)
    ensures r.Returned? ==>
              && Preparable(codec, inputs, chunk, maximum) && Passed(gates, 0, step)
              && r.value == HashedCatalog(codec, inputs, chunk)
              && StagingMatches(codec, r.value, dir) && AllCompleted(codec, inputs, chunk, r.value.files, dir)
    ensures r.Raised? ==> !Preparable(codec, inputs, chunk, maximum) || !Passed(gates, 0, step)
  {
    r, dir, step := Raised, map[], 0;
    if !(0 < |inputs| <= 64) || !(0 < chunk <= MAX_CHUNK) || TotalPlanned(inputs, chunk) > MAX_PARTS { return; }
    var planned := PlannedCatalog(inputs, chunk);
    if !Admitted(codec, planned, maximum) { return; }
    AdmittedIsNamedApart(codec, inputs, chunk, maximum);
    var files, parts;
    files, parts, step := SplitAll(codec, gates, inputs, chunk, maximum, planned.files);
    if files.Raised? { return; }
    var catalog := Catalog(1, chunk, files.value);
    AllCompletedIsHashed(codec, inputs, chunk, files.value, parts);
    if !Admitted(codec, catalog, maximum) { return; }
    dir := AddManifest(codec, inputs, chunk, catalog, parts);
    r := Returned(catalog);
  }

  /**
   * The whole round trip: what prepare has staged, pack accepts and verify accepts again, and the
   * reassembled bytes of every original are the bytes that were prepared.
   */
  lemma PreparedStagingSurvives(codec: Codec, inputs: seq<Source>, catalog: Catalog, maximum: int, dir: Directory)
    requires Lawful(codec) && Admitted(codec, catalog, maximum) && StagingMatches(codec, catalog, dir)
    requires |catalog.files| == |inputs| && AllCompleted(codec, inputs, catalog.chunkBytes, catalog.files, dir)
    ensures Accepts(codec, catalog, maximum, PackedStream(codec, catalog, StagedFrom(catalog.files, dir)))
    ensures forall f :: 0 <= f < |inputs| ==>
                          Whole(catalog.files, StagedFrom(catalog.files, dir), f) == inputs[f].content
  {
    forall f | 0 <= f < |inputs|
      ensures Whole(catalog.files, StagedFrom(catalog.files, dir), f) == inputs[f].content
      ensures codec.sha(inputs[f].content) == catalog.files[f].sha256
    {
      WholeIsContent(codec, inputs[f], catalog.chunkBytes, catalog.files, f, dir);
    }
    MatchingStagingIsStaged(codec, catalog, dir);
    PackThenVerify(codec, catalog, maximum, StagedFrom(catalog.files, dir));
  }
}
