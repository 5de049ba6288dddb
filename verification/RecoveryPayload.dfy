/** prepare, pack and verify of the recovery payload, as the loops that run over files and streams. */
module RecoveryPayload {
  import opened Common
  import opened RecoveryCatalog
  import opened RecoveryFraming

  /** A byte-counting wrapper around one stream: either read from `stream` or written to `sink`. */
  class Bounded {
    const stream: Bytes
    const limit: nat
    var sink: Bytes
    var count: nat

    ghost predicate Reading()
      reads this
    {
      count <= |stream| && count <= limit + 1
    }

    ghost predicate Writing()
      reads this
    {
      |sink| == count <= limit
    }

    constructor (stream: Bytes, limit: nat)
      ensures this.stream == stream && this.limit == limit && sink == [] && count == 0
    {
      this.stream, this.limit, sink, count := stream, limit, [], 0;
    }

    method Read(size: nat) returns (r: Outcome<Bytes>)
      requires Reading() && size <= BLOCK
      modifies this`count
      ensures Reading()
      ensures count == Min(old(count) + Min(size, limit - old(count) + 1), |stream|)
      ensures r == if count <= limit then Returned(stream[old(count)..count]) else Raised
      ensures r.Raised? ==> |stream| > limit
    {
      var data := stream[count..Min(count + Min(size, limit - count + 1), |stream|)];
      count := count + |data|;
      r := if count <= limit then Returned(data) else Raised;
    }

    method Write(data: Bytes) returns (ok: bool)
      requires Writing()
      modifies this`count, this`sink
      ensures Writing()
      ensures ok == (old(count) + |data| <= limit)
      ensures sink == if ok then old(sink) + data else old(sink)
    {
      ok := count + |data| <= limit;
      if ok {
        sink := sink + data;
        count := count + |data|;
      }
    }
  }

  /** The running count and hash input of one part. */
  class CheckedPart {
    const part: Part
    var count: nat
    var digest: Bytes

    constructor (part: Part)
      ensures this.part == part && count == 0 && digest == []
    {
      this.part, count, digest := part, 0, [];
    }

    method Take(data: Bytes) returns (ok: bool)
      modifies this
      ensures count == old(count) + |data| && digest == old(digest) + data
      ensures ok == (count <= part.bytes)
    {
      count := count + |data|;
      digest := digest + data;
      ok := count <= part.bytes;
    }

    predicate Check(codec: Codec)
      reads this
    {
      count == part.bytes && codec.sha(digest) == part.sha256
    }
  }

  // ----- verify ------------------------------------------------------------------------

  /** The tar reader's next(): a member, or None at a zero block, an unreadable header or the end of input. */
  method NextMember(codec: Codec, bound: Bounded) returns (r: Outcome<Option<Member>>)
    requires bound.Reading() && bound.count <= bound.limit
    modifies bound`count
    ensures bound.Reading() && (r.Returned? ==> bound.count <= bound.limit)
    ensures r.Raised? ==> |bound.stream| > bound.limit
    ensures r.Returned? ==> bound.count == Min(old(bound.count) + HEADER, |bound.stream|)
    ensures r.Returned? ==>
              r.value == if old(bound.count) + HEADER <= |bound.stream|
                         then codec.parse(bound.stream[old(bound.count)..old(bound.count) + HEADER]) else None
  {
    var start := bound.count;
    var header := bound.Read(HEADER);
    if header.Raised? { return Raised; }
    r := Returned(if |header.value| < HEADER then None else codec.parse(header.value));
  }

  /** Skipping the padding behind a member; a stream that ends inside it is an error. */
  method SkipPadding(bound: Bounded, padding: nat) returns (ok: bool)
    requires bound.Reading() && bound.count <= bound.limit && padding < 512
    modifies bound`count
    ensures bound.Reading() && (ok ==> bound.count <= bound.limit)
    ensures ok ==> bound.count == old(bound.count) + padding
    ensures !ok ==> |bound.stream| > bound.limit || old(bound.count) + padding > |bound.stream|
  {
    var data := bound.Read(padding);
    ok := data.Returned? && |data.value| == padding;
  }

  lemma {:induction false} GatherSnoc(entries: seq<Entry>, contents: seq<Bytes>, entry: Entry, data: Bytes, file: nat)
    requires |entries| == |contents|
    ensures Gather(entries + [entry], contents + [data], file)
         == Gather(entries, contents, file) + (if entry.BelongsTo(file) then data else [])
  {
    if entries != [] {
      assert (entries + [entry])[1..] == entries[1..] + [entry];
      assert (contents + [data])[1..] == contents[1..] + [data];
      GatherSnoc(entries[1..], contents[1..], entry, data, file);
    }
  }

  type Sinks = map<string, Bytes>

  /** The hash input and byte total kept for every original are what the stream has delivered for it. */
  ghost predicate Accumulated(catalog: Catalog, entries: seq<Entry>, contents: seq<Bytes>, hashes: Sinks,
                              totals: map<string, int>)
    requires |entries| == |contents|
  {
    forall f :: 0 <= f < |catalog.files| ==>
                  && catalog.files[f].name in hashes && catalog.files[f].name in totals
                  && hashes[catalog.files[f].name] == Gather(entries, contents, f)
                  && totals[catalog.files[f].name] == |hashes[catalog.files[f].name]|
  }

  /** The entry is the manifest or names a part of the catalog. */
  predicate Owned(catalog: Catalog, entry: Entry) {
    entry.PartEntry? ==> SlotOf(catalog.files, entry.slot)
  }

  predicate NamesDiffer(catalog: Catalog) {
    forall f, g :: 0 <= f < g < |catalog.files| ==> catalog.files[f].name != catalog.files[g].name
  }

  lemma EntriesAreOwned(codec: Codec, catalog: Catalog)
    ensures forall i :: 0 <= i < |Entries(codec, catalog)| ==> Owned(catalog, Entries(codec, catalog)[i])
  {
    InterleavedSlots(catalog.files);
  }

  /** The manifest is read whole and compared byte for byte. */
  method ReadManifest(bound: Bounded, raw: Bytes) returns (ok: bool)
    requires bound.Reading() && bound.count <= bound.limit
    modifies bound`count
    ensures bound.Reading()
    ensures ok ==>
              && bound.count == old(bound.count) + |raw| <= bound.limit
              && raw == bound.stream[old(bound.count)..bound.count]
    ensures !ok ==>
              || |bound.stream| > bound.limit
              || old(bound.count) + |raw| > |bound.stream|
              || raw != bound.stream[old(bound.count)..old(bound.count) + |raw|]
  {
    ghost var start := bound.count;
    var collected: Bytes := [];
    while |collected| < |raw|
      invariant bound.Reading() && bound.count <= bound.limit
      invariant |collected| <= |raw| && bound.count == start + |collected|
      invariant collected == bound.stream[start..bound.count]
    {
      var block := bound.Read(Min(BLOCK, |raw| - |collected|));
      if block.Raised? || block.value == [] { return false; }
      SliceConcat(bound.stream, start, start + |collected|, bound.count);
      collected := collected + block.value;
    }
    ok := collected == raw;
  }

  /** A part is read in bounded blocks that feed its own hash and the hash and total of its original. */
  method ReadPart(codec: Codec, bound: Bounded, part: Part, name: string, hashes0: Sinks, totals0: map<string, int>)
    returns (ok: bool, hashes: Sinks, totals: map<string, int>, ghost data: Bytes)
    requires bound.Reading() && bound.count <= bound.limit
    requires name in hashes0 && name in totals0
    modifies bound`count
    ensures bound.Reading()
    ensures ok ==>
              && bound.count == old(bound.count) + part.bytes <= bound.limit
              && data == bound.stream[old(bound.count)..bound.count]
              && codec.sha(data) == part.sha256
              && hashes == hashes0[name := hashes0[name] + data]
              && totals == totals0[name := totals0[name] + |data|]
    ensures !ok ==>
              || |bound.stream| > bound.limit
              || old(bound.count) + part.bytes > |bound.stream|
              || codec.sha(bound.stream[old(bound.count)..old(bound.count) + part.bytes]) != part.sha256
  {
    ok, hashes, totals, data := false, hashes0, totals0, [];
    ghost var start := bound.count;
    var checked := new CheckedPart(part);
    assert hashes0[name] + [] == hashes0[name];
    while checked.count < part.bytes
      invariant bound.Reading() && bound.count <= bound.limit
      invariant checked.count <= part.bytes && bound.count == start + checked.count
      invariant checked.digest == bound.stream[start..bound.count]
      invariant hashes == hashes0[name := hashes0[name] + checked.digest]
      invariant totals == totals0[name := totals0[name] + checked.count]
    {
      var block := bound.Read(Min(BLOCK, part.bytes - checked.count));
      if block.Raised? || block.value == [] { return; }
      SliceConcat(bound.stream, start, start + checked.count, bound.count);
      assert hashes0[name] + checked.digest + block.value == hashes0[name] + (checked.digest + block.value);
      var within := checked.Take(block.value);
      if !within { return; }
      hashes := hashes[name := hashes[name] + block.value];
      totals := totals[name := totals[name] + |block.value|];
    }
    ok, data := checked.Check(codec), checked.digest;
  }

  lemma AccumulateOne(catalog: Catalog, entries: seq<Entry>, contents: seq<Bytes>, entry: Entry, data: Bytes,
                      hashes: Sinks, totals: map<string, int>)
    requires entry.PartEntry? && Owned(catalog, entry) && |entries| == |contents|
    requires NamesDiffer(catalog) && Accumulated(catalog, entries, contents, hashes, totals)
    ensures var name := catalog.files[entry.slot.file].name;
            Accumulated(catalog, entries + [entry], contents + [data],
                        hashes[name := hashes[name] + data], totals[name := totals[name] + |data|])
  {
    forall f | 0 <= f < |catalog.files| {
      GatherSnoc(entries, contents, entry, data, f);
    }
  }

  /** Reading the data of one entry. */
  method ReadContent(codec: Codec, bound: Bounded, catalog: Catalog, entry: Entry, ghost done: seq<Entry>,
                     ghost contents: seq<Bytes>, hashes0: Sinks, totals0: map<string, int>)
    returns (ok: bool, hashes: Sinks, totals: map<string, int>, ghost data: Bytes)
    requires bound.Reading() && bound.count <= bound.limit
    requires Owned(catalog, entry) && NamesDiffer(catalog)
    requires |done| == |contents| && Accumulated(catalog, done, contents, hashes0, totals0)
    modifies bound`count
    ensures bound.Reading()
    ensures ok ==>
              && bound.count == old(bound.count) + entry.Size() <= bound.limit
              && data == bound.stream[old(bound.count)..bound.count]
              && entry.Identified(codec, data)
              && Accumulated(catalog, done + [entry], contents + [data], hashes, totals)
    ensures !ok ==>
              || |bound.stream| > bound.limit
              || old(bound.count) + entry.Size() > |bound.stream|
              || !entry.Identified(codec, bound.stream[old(bound.count)..old(bound.count) + entry.Size()])
  {
    hashes, totals, data := hashes0, totals0, [];
    match entry {
      case Manifest(raw) =>
        ok := ReadManifest(bound, raw);
        data := raw;
        forall f | 0 <= f < |catalog.files| {
          GatherSnoc(done, contents, entry, data, f);
        }
      case PartEntry(slot, part) =>
        ok, hashes, totals, data := ReadPart(codec, bound, part, catalog.files[slot.file].name, hashes0, totals0);
        if ok { AccumulateOne(catalog, done, contents, entry, data, hashes0, totals0); }
    }
  }

  /** Everything that is left must be zero bytes, up to the end of the stream. */
  method ReadTail(bound: Bounded) returns (ok: bool)
    requires bound.Reading() && bound.count <= bound.limit
    modifies bound`count
    ensures bound.Reading()
    ensures ok ==> bound.count == |bound.stream|
                   && forall k :: old(bound.count) <= k < |bound.stream| ==> bound.stream[k] == 0
    ensures !ok ==> |bound.stream| > bound.limit
                    || exists k :: old(bound.count) <= k < |bound.stream| && bound.stream[k] != 0
  {
    var start := bound.count;
    var more := true;
    while more
      invariant bound.Reading() && start <= bound.count <= bound.limit
      invariant forall k :: start <= k < bound.count ==> bound.stream[k] == 0
      invariant !more ==> bound.count == |bound.stream|
      decreases more, |bound.stream| - bound.count
    {
      ghost var from := bound.count;
      var tail := bound.Read(RECORD);
      if tail.Raised? { return false; }
      if tail.value == [] {
        more := false;
      } else if !AllZero(tail.value) {
        ghost var k :| 0 <= k < |tail.value| && tail.value[k] != 0;
        assert bound.stream[from + k] != 0;
        return false;
      } else {
        forall k | from <= k < bound.count
          ensures bound.stream[k] == 0
        {
          assert bound.stream[k] == tail.value[k - from];
        }
      }
    }
    ok := true;
  }

  /** One turn of verify's loop: the next header, its data and the padding behind it. */
  method VerifyMember(codec: Codec, bound: Bounded, catalog: Catalog, entry: Entry, ghost done: seq<Entry>,
                      ghost contents: seq<Bytes>, hashes0: Sinks, totals0: map<string, int>)
    returns (ok: bool, hashes: Sinks, totals: map<string, int>, ghost data: Bytes)
    requires bound.Reading() && bound.count <= bound.limit
    requires Owned(catalog, entry)
    requires NamesDiffer(catalog)
    requires |done| == |contents| && Accumulated(catalog, done, contents, hashes0, totals0)
    modifies bound`count
    ensures bound.Reading()
    ensures bound.count <= |bound.stream|
    ensures ok ==>
              && bound.count <= bound.limit
              && ReadEntry(codec, bound.stream, entry, Unpacked(contents, old(bound.count)))
                 == Some(Unpacked(contents + [data], bound.count))
              && Accumulated(catalog, done + [entry], contents + [data], hashes, totals)
    ensures !ok ==> |bound.stream| > bound.limit
                    || ReadEntry(codec, bound.stream, entry, Unpacked(contents, old(bound.count))) == None
  {
    ok, hashes, totals, data := false, hashes0, totals0, [];
    var member := NextMember(codec, bound);
    if member != Returned(Some(Member(entry.Name(), entry.Size(), true))) { return; }
    ok, hashes, totals, data := ReadContent(codec, bound, catalog, entry, done, contents, hashes0, totals0);
    if !ok { return; }
    ok := SkipPadding(bound, Blocks(entry.Size()) - entry.Size());
  }

  method EmptySinks(catalog: Catalog) returns (hashes: Sinks, totals: map<string, int>)
    ensures Accumulated(catalog, [], [], hashes, totals)
  {
    var names := set f | 0 <= f < |catalog.files| :: catalog.files[f].name;
    hashes := map name | name in names :: [];
    totals := map name | name in names :: 0;
  }

  method VerifyMembers(codec: Codec, bound: Bounded, catalog: Catalog, expected: seq<Entry>)
    returns (ok: bool, hashes: Sinks, totals: map<string, int>, ghost contents: seq<Bytes>)
    requires bound.count == 0
    requires forall i :: 0 <= i < |expected| ==> Owned(catalog, expected[i])
    requires NamesDiffer(catalog)
    modifies bound`count
    ensures bound.Reading()
    ensures ok ==>
              && bound.count <= bound.limit && |contents| == |expected|
              && Demux(codec, bound.stream, expected, |expected|) == Some(Unpacked(contents, bound.count))
              && Accumulated(catalog, expected, contents, hashes, totals)
    ensures !ok ==> |bound.stream| > bound.limit || Demux(codec, bound.stream, expected, |expected|) == None
  {
    hashes, totals := EmptySinks(catalog);
    contents := [];
    var i := 0;
    ok := true;
    while i < |expected|
      invariant 0 <= i <= |expected| && |contents| == i
      invariant bound.Reading() && bound.count <= bound.limit
      invariant Demux(codec, bound.stream, expected, i) == Some(Unpacked(contents, bound.count))
      invariant Accumulated(catalog, expected[..i], contents, hashes, totals)
    {
      ghost var data: Bytes;
      ok, hashes, totals, data :=
        VerifyMember(codec, bound, catalog, expected[i], expected[..i], contents, hashes, totals);
      if !ok {
        if |bound.stream| <= bound.limit { DemuxStaysNone(codec, bound.stream, expected, i + 1, |expected|); }
        return;
      }
      TakeSnoc(expected, i);
      contents := contents + [data];
      i := i + 1;
    }
    TakeAll(expected);
  }

  /** No further member, and only zeros up to the end of the stream. */
  method CheckTrailer(codec: Codec, bound: Bounded) returns (ok: bool)
    requires bound.Reading() && bound.count <= bound.limit
    modifies bound`count
    ensures bound.Reading()
    ensures ok ==> bound.count == |bound.stream| && CleanTrailer(codec, bound.stream, old(bound.count))
    ensures !ok ==> |bound.stream| > bound.limit || !CleanTrailer(codec, bound.stream, old(bound.count))
  {
    var extra := NextMember(codec, bound);
    if extra != Returned(None) { return false; }
    ok := ReadTail(bound);
  }

  /** Every original has its catalogued size and hash. */
  method CheckTotals(codec: Codec, catalog: Catalog, ghost entries: seq<Entry>, ghost contents: seq<Bytes>,
                     hashes: Sinks, totals: map<string, int>)
    returns (ok: bool)
    requires |entries| == |contents| && Accumulated(catalog, entries, contents, hashes, totals)
    ensures ok <==> forall f :: 0 <= f < |catalog.files| ==> OriginalMatches(codec, catalog, entries, contents, f)
    ensures ok ==> forall f :: 0 <= f < |catalog.files| ==> totals[catalog.files[f].name] == catalog.files[f].bytes
  {
    for f := 0 to |catalog.files|
      invariant forall g :: 0 <= g < f ==> OriginalMatches(codec, catalog, entries, contents, g)
      invariant forall g :: 0 <= g < f ==> totals[catalog.files[g].name] == catalog.files[g].bytes
    {
      var name := catalog.files[f].name;
      if totals[name] != catalog.files[f].bytes || codec.sha(hashes[name]) != catalog.files[f].sha256 {
        assert !OriginalMatches(codec, catalog, entries, contents, f);
        return false;
      }
    }
    ok := true;
  }

  /** verify: accepts exactly the streams Accepts describes, and reports each original's catalogued size. */
  method Verify(codec: Codec, stream: Bytes, catalog: Catalog, maximum: int) returns (r: Outcome<map<string, int>>)
    ensures r.Returned? <==> Accepts(codec, catalog, maximum, stream)
    ensures r.Returned? ==> forall f :: 0 <= f < |catalog.files| ==>
                                          && catalog.files[f].name in r.value
                                          && r.value[catalog.files[f].name] == catalog.files[f].bytes
  {
    if !Admitted(codec, catalog, maximum) { return Raised; }
    EntriesFit(codec, catalog, maximum);
    EntriesAreOwned(codec, catalog);
    var expected := Entries(codec, catalog);
    var bound := new Bounded(stream, PhysicalSize(codec, catalog));
    var ok, hashes, totals, contents := VerifyMembers(codec, bound, catalog, expected);
    if !ok { return Raised; }
    ok := CheckTrailer(codec, bound);
    if !ok || bound.count != PhysicalSize(codec, catalog) { return Raised; }
    ok := CheckTotals(codec, catalog, expected, contents, hashes, totals);
    if !ok { return Raised; }
    r := Returned(totals);
  }

  // ----- pack --------------------------------------------------------------------------

  /** The regular files below one directory, by relative name. */
  type Directory = map<string, Bytes>

  function PartNames(files: seq<Original>): set<string> {
    set f, n | 0 <= f < |files| && 0 <= n < |files[f].parts| :: files[f].parts[n].name
  }

  /** check_staging: exactly the manifest and the parts, and the manifest is this catalog. */
  predicate Inventoried(codec: Codec, catalog: Catalog, dir: Directory) {
    && dir.Keys == {"manifest.json"} + PartNames(catalog.files)
    && dir["manifest.json"] == codec.encode(catalog)
  }

  predicate PartMatches(codec: Codec, part: Part, dir: Directory) {
    part.name in dir && |dir[part.name]| == part.bytes && codec.sha(dir[part.name]) == part.sha256
  }

  predicate StagingMatches(codec: Codec, catalog: Catalog, dir: Directory) {
    && Inventoried(codec, catalog, dir)
    && forall f, n :: 0 <= f < |catalog.files| && 0 <= n < |catalog.files[f].parts| ==>
                        PartMatches(codec, catalog.files[f].parts[n], dir)
  }

  function FileBytes(dir: Directory, name: string): Bytes {
    if name in dir then dir[name] else []
  }

  /** The staged bytes of every part of the catalog, read by name. */
  function StagedFrom(files: seq<Original>, dir: Directory): Staged {
    map f: nat, n: nat | f < |files| && n < |files[f].parts| :: Slot(f, n) := FileBytes(dir, files[f].parts[n].name)
  }

  lemma StagedEntry(codec: Codec, catalog: Catalog, dir: Directory, i: nat)
    requires i < |Entries(codec, catalog)| && Entries(codec, catalog)[i].PartEntry?
    ensures var entry := Entries(codec, catalog)[i];
            && SlotOf(catalog.files, entry.slot)
            && entry.part == catalog.files[entry.slot.file].parts[entry.slot.number]
            && DataOf(entry, StagedFrom(catalog.files, dir)) == FileBytes(dir, entry.part.name)
  {
    InterleavedSlots(catalog.files);
    var slot := Interleaved(catalog.files)[i - 1];
    assert Entries(codec, catalog)[i] == EntryOf(catalog.files, slot);
  }

  lemma MatchingStagingIsStaged(codec: Codec, catalog: Catalog, dir: Directory)
    requires StagingMatches(codec, catalog, dir)
    ensures StagedMatches(codec, Entries(codec, catalog), StagedFrom(catalog.files, dir))
    ensures AllStaged(catalog, StagedFrom(catalog.files, dir))
  {
    var entries := Entries(codec, catalog);
    var staged := StagedFrom(catalog.files, dir);
    forall i | 0 <= i < |entries|
      ensures |DataOf(entries[i], staged)| == entries[i].Size()
      ensures entries[i].Identified(codec, DataOf(entries[i], staged))
    {
      if entries[i].PartEntry? {
        StagedEntry(codec, catalog, dir, i);
        assert PartMatches(codec, entries[i].part, dir);
      }
    }
  }

  /** The data of one member, in pieces of at most 16 KiB that the running check sees as well. */
  method CopyData(bound: Bounded, checked: CheckedPart, data: Bytes)
    requires bound.Writing() && bound.count + |data| <= bound.limit
    requires checked.count == 0 && checked.digest == []
    modifies bound`count, bound`sink, checked
    ensures bound.Writing() && bound.sink == old(bound.sink) + data
    ensures checked.count == |data| && checked.digest == data
  {
    ghost var head := bound.sink;
    assert head + data[..0] == head;
    while checked.count < |data|
      invariant 0 <= checked.count <= |data| && checked.digest == data[..checked.count]
      invariant bound.Writing() && bound.sink == head + data[..checked.count]
    {
      var piece := data[checked.count..Min(|data|, checked.count + 16 * 1024)];
      assert data[..checked.count] + piece == data[..checked.count + |piece|];
      var fits := checked.Take(piece);
      var written := bound.Write(piece);
    }
    TakeAll(data);
  }

  /** Header, data and padding of one member. */
  method WriteFrame(codec: Codec, bound: Bounded, entry: Entry, data: Bytes) returns (ok: bool)
    requires Lawful(codec) && FitsUstar(entry.Name(), entry.Size()) && |data| == entry.Size()
    requires bound.Writing() && bound.count + FrameBytes(|data|) <= bound.limit
    modifies bound`count, bound`sink
    ensures bound.Writing()
    ensures bound.sink == old(bound.sink) + Frame(codec, entry, data)
    ensures entry.PartEntry? ==> (ok <==> codec.sha(data) == entry.part.sha256)
    ensures entry.Manifest? ==> ok
  {
    ok := bound.Write(codec.header(entry.Name(), entry.Size()));
    var checked := new CheckedPart(if entry.PartEntry? then entry.part else Part("", |data|, ""));
    CopyData(bound, checked, data);
    ok := bound.Write(Zeros(Blocks(|data|) - |data|));
    ok := entry.Manifest? || checked.Check(codec);
  }

  function EntryData(entry: Entry, dir: Directory): Bytes {
    if entry.Manifest? then entry.raw else FileBytes(dir, entry.part.name)
  }

  predicate EntryMatches(codec: Codec, entry: Entry, dir: Directory) {
    entry.PartEntry? ==> PartMatches(codec, entry.part, dir)
  }

  /** What pack emits for an entry: nothing when the file has another size, its frame even when the hash differs. */
  function Sent(codec: Codec, entry: Entry, dir: Directory): Bytes {
    if entry.PartEntry? && !(entry.part.name in dir && |dir[entry.part.name]| == entry.part.bytes) then []
    else Frame(codec, entry, EntryData(entry, dir))
  }

  /** One turn of pack's loop. */
  method PackEntry(codec: Codec, bound: Bounded, entry: Entry, dir: Directory) returns (ok: bool)
    requires Lawful(codec) && FitsUstar(entry.Name(), entry.Size())
    requires bound.Writing() && bound.count + FrameBytes(entry.Size()) <= bound.limit
    modifies bound`count, bound`sink
    ensures bound.Writing()
    ensures ok <==> EntryMatches(codec, entry, dir)
    ensures bound.sink == old(bound.sink) + Sent(codec, entry, dir)
    ensures ok ==> bound.count == old(bound.count) + FrameBytes(entry.Size())
  {
    match entry {
      case Manifest(raw) =>
        ok := WriteFrame(codec, bound, entry, raw);
      case PartEntry(_, part) =>
        ok := part.name in dir && |dir[part.name]| == part.bytes;
        if ok { ok := WriteFrame(codec, bound, entry, dir[part.name]); }
    }
  }

  /** sink holds the first i frames. */
  ghost predicate Emitted(codec: Codec, entries: seq<Entry>, staged: Staged, sink: Bytes, i: nat)
    requires i <= |entries|
  {
    sink + Frames(codec, entries, staged, i) == Frames(codec, entries, staged, 0)
  }

  lemma EmitOneMore(codec: Codec, entries: seq<Entry>, staged: Staged, dir: Directory, i: nat, before: Bytes)
    requires i < |entries| && Emitted(codec, entries, staged, before, i)
    requires EntryMatches(codec, entries[i], dir) && DataOf(entries[i], staged) == EntryData(entries[i], dir)
    ensures Emitted(codec, entries, staged, before + Sent(codec, entries[i], dir), i + 1)
  {
    Regroup(before, Frame(codec, entries[i], DataOf(entries[i], staged)), Frames(codec, entries, staged, i + 1));
  }

  /** Entry i is the first that does not match; all earlier frames have been emitted, and what was sent for it. */
  ghost predicate StopsAt(codec: Codec, entries: seq<Entry>, dir: Directory, staged: Staged, sink: Bytes, i: nat,
                          before: Bytes) {
    && i < |entries| && !EntryMatches(codec, entries[i], dir)
    && (forall k :: 0 <= k < i ==> EntryMatches(codec, entries[k], dir))
    && Emitted(codec, entries, staged, before, i) && sink == before + Sent(codec, entries[i], dir)
  }

  ghost predicate StopsAtFirst(codec: Codec, entries: seq<Entry>, dir: Directory, staged: Staged, sink: Bytes) {
    exists i, before :: StopsAt(codec, entries, dir, staged, sink, i, before)
  }

  lemma StopsHere(codec: Codec, entries: seq<Entry>, dir: Directory, staged: Staged, sink: Bytes, i: nat,
                  before: Bytes)
    requires StopsAt(codec, entries, dir, staged, sink, i, before)
    ensures StopsAtFirst(codec, entries, dir, staged, sink)
  {
  }

  lemma AllEmitted(codec: Codec, entries: seq<Entry>, staged: Staged, sink: Bytes)
    requires Emitted(codec, entries, staged, sink, |entries|)
    ensures sink == Frames(codec, entries, staged, 0)
  {
    assert sink + [] == sink;
  }

  /** What holds before entry i. */
  ghost predicate PackedUpTo(codec: Codec, entries: seq<Entry>, dir: Directory, staged: Staged, sink: Bytes, i: nat)
    requires i <= |entries|
  {
    && Emitted(codec, entries, staged, sink, i)
    && |sink| + SumFrames(entries, i) == SumFrames(entries, 0)
    && forall k :: 0 <= k < i ==> EntryMatches(codec, entries[k], dir)
  }

  method PackNext(codec: Codec, bound: Bounded, entries: seq<Entry>, dir: Directory, ghost staged: Staged, i: nat)
    returns (ok: bool)
    requires Lawful(codec) && i < |entries| && FitsUstar(entries[i].Name(), entries[i].Size())
    requires DataOf(entries[i], staged) == EntryData(entries[i], dir)
    requires bound.Writing() && PackedUpTo(codec, entries, dir, staged, bound.sink, i)
    requires SumFrames(entries, 0) <= bound.limit
    modifies bound`count, bound`sink
    ensures bound.Writing()
    ensures ok ==> PackedUpTo(codec, entries, dir, staged, bound.sink, i + 1)
    ensures !ok ==> StopsAtFirst(codec, entries, dir, staged, bound.sink)
  {
    ghost var before := bound.sink;
    ok := PackEntry(codec, bound, entries[i], dir);
    if ok {
      EmitOneMore(codec, entries, staged, dir, i, before);
    } else {
      StopsHere(codec, entries, dir, staged, bound.sink, i, before);
    }
  }

  /** The loop of pack stops at the first entry that does not match, and emits every frame otherwise. */
  method PackEntries(codec: Codec, bound: Bounded, entries: seq<Entry>, dir: Directory, ghost staged: Staged)
    returns (ok: bool)
    requires Lawful(codec) && AllFit(entries)
    requires forall k :: 0 <= k < |entries| ==> DataOf(entries[k], staged) == EntryData(entries[k], dir)
    requires bound.sink == [] && bound.count == 0 && SumFrames(entries, 0) <= bound.limit
    modifies bound`count, bound`sink
    ensures bound.Writing()
    ensures ok ==> (forall k :: 0 <= k < |entries| ==> EntryMatches(codec, entries[k], dir))
    ensures ok ==> bound.sink == Frames(codec, entries, staged, 0) && bound.count == SumFrames(entries, 0)
    ensures !ok ==> StopsAtFirst(codec, entries, dir, staged, bound.sink)
  {
    var i := 0;
    while i < |entries|
      invariant 0 <= i <= |entries| && bound.Writing() && PackedUpTo(codec, entries, dir, staged, bound.sink, i)
    {
      ok := PackNext(codec, bound, entries, dir, staged, i);
      if !ok { return; }
      i := i + 1;
    }
    AllEmitted(codec, entries, staged, bound.sink);
    ok := true;
  }

  method PackMembers(codec: Codec, bound: Bounded, catalog: Catalog, dir: Directory) returns (ok: bool)
    requires Lawful(codec) && AllFit(Entries(codec, catalog))
    requires Inventoried(codec, catalog, dir)
    requires bound.sink == [] && bound.count == 0 && SumFrames(Entries(codec, catalog), 0) <= bound.limit
    modifies bound`count, bound`sink
    ensures bound.Writing()
    ensures ok <==> StagingMatches(codec, catalog, dir)
    ensures ok ==>
              && bound.sink == Frames(codec, Entries(codec, catalog), StagedFrom(catalog.files, dir), 0)
              && bound.count == SumFrames(Entries(codec, catalog), 0)
  {
    EntriesReadTheirFiles(codec, catalog, dir);
    ok := PackEntries(codec, bound, Entries(codec, catalog), dir, StagedFrom(catalog.files, dir));
    MatchingIsEntrywise(codec, catalog, dir);
  }

  /** The two zero blocks and the fill to a whole record that close the archive. */
  method CloseArchive(bound: Bounded) returns (ok: bool)
    requires bound.Writing() && bound.limit == Records(bound.count + TRAILER)
    modifies bound`count, bound`sink
    ensures bound.Writing() && bound.count == bound.limit
    ensures var body := old(bound.sink) + Zeros(TRAILER);
            bound.sink == body + Zeros(Records(|body|) - |body|)
  {
    ok := bound.Write(Zeros(TRAILER));
    ok := bound.Write(Zeros(Records(bound.count) - bound.count));
  }

  method EmitArchive(codec: Codec, catalog: Catalog, dir: Directory) returns (r: Outcome<nat>, output: Bytes)
    requires Lawful(codec) && AllFit(Entries(codec, catalog)) && Inventoried(codec, catalog, dir)
    ensures r.Returned? <==> StagingMatches(codec, catalog, dir)
    ensures r.Returned? ==>
              && output == PackedStream(codec, catalog, StagedFrom(catalog.files, dir))
              && r.value == |output| == PhysicalSize(codec, catalog)
  {
    var bound := new Bounded([], PhysicalSize(codec, catalog));
    var ok := PackMembers(codec, bound, catalog, dir);
    if !ok { return Raised, bound.sink; }
    ok := CloseArchive(bound);
    output := bound.sink;
    if bound.count != PhysicalSize(codec, catalog) { return Raised, output; }
    r := Returned(bound.count);
  }

  /** pack: succeeds exactly on matching staging, and then emits the stream PackedStream describes. */
  method Pack(codec: Codec, catalog: Catalog, dir: Directory, maximum: int) returns (r: Outcome<nat>, output: Bytes)
    requires Lawful(codec)
    ensures r.Returned? <==> Admitted(codec, catalog, maximum) && StagingMatches(codec, catalog, dir)
    ensures r.Returned? ==>
              && output == PackedStream(codec, catalog, StagedFrom(catalog.files, dir))
              && r.value == |output| == PhysicalSize(codec, catalog)
  {
    if !Admitted(codec, catalog, maximum) || !Inventoried(codec, catalog, dir) { return Raised, []; }
    EntriesFit(codec, catalog, maximum);
    r, output := EmitArchive(codec, catalog, dir);
  }

  lemma EntriesReadTheirFiles(codec: Codec, catalog: Catalog, dir: Directory)
    ensures var entries := Entries(codec, catalog);
            forall k :: 0 <= k < |entries| ==>
                          DataOf(entries[k], StagedFrom(catalog.files, dir)) == EntryData(entries[k], dir)
  {
    var entries := Entries(codec, catalog);
    forall k | 0 <= k < |entries| && entries[k].PartEntry? {
      StagedEntry(codec, catalog, dir, k);
    }
  }

  /** Checking the entries one by one checks every part of the catalog. */
  lemma MatchingIsEntrywise(codec: Codec, catalog: Catalog, dir: Directory)
    requires Inventoried(codec, catalog, dir)
    ensures var entries := Entries(codec, catalog);
            StagingMatches(codec, catalog, dir)
            <==> forall k :: 0 <= k < |entries| ==> EntryMatches(codec, entries[k], dir)
  {
    var entries := Entries(codec, catalog);
    if forall k :: 0 <= k < |entries| ==> EntryMatches(codec, entries[k], dir) {
      AllPartsChecked(codec, catalog, dir);
    }
    if StagingMatches(codec, catalog, dir) {
      forall k | 0 <= k < |entries| && entries[k].PartEntry?
        ensures EntryMatches(codec, entries[k], dir)
      {
        StagedEntry(codec, catalog, dir, k);
      }
    }
  }

  lemma Regroup(a: Bytes, b: Bytes, c: Bytes)
    ensures a + b + c == a + (b + c)
  {
  }

  lemma AllPartsChecked(codec: Codec, catalog: Catalog, dir: Directory)
    requires forall k :: 0 <= k < |Entries(codec, catalog)| ==> EntryMatches(codec, Entries(codec, catalog)[k], dir)
    ensures forall f, n :: 0 <= f < |catalog.files| && 0 <= n < |catalog.files[f].parts| ==>
                             PartMatches(codec, catalog.files[f].parts[n], dir)
  {
    forall f, n | 0 <= f < |catalog.files| && 0 <= n < |catalog.files[f].parts|
      ensures PartMatches(codec, catalog.files[f].parts[n], dir)
    {
      var i := PartHasEntry(codec, catalog, f, n);
      assert EntryMatches(codec, Entries(codec, catalog)[i], dir);
    }
  }
}
