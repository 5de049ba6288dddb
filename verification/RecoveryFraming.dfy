/** The USTAR stream of a recovery catalog: what pack emits, what verify accepts, and how they meet. */
module RecoveryFraming {
  import opened Common
  import opened RecoveryCatalog

  const HEADER := 512
  const TRAILER := 1024
  const RECORD := 10240

  /** What the tar reader reports for one header block; regular excludes links, pax headers and sparse files. */
  datatype Member = Member(name: string, size: int, regular: bool)

  /** The library functions the payload relies on, taken as parameters. */
  datatype Codec = Codec(
    sha: Bytes -> string,
    encode: Catalog -> Bytes,
    header: (string, int) -> Bytes,
    parse: Bytes -> Option<Member>)

  /** The characters of the names that pack gives its members. */
  predicate MemberChar(c: char) {
    'a' <= c <= 'z' || '0' <= c <= '9' || c == '_' || c == '-' || c == '.' || c == '/'
  }

  /** A USTAR header has room for a 100 byte name and eleven octal size digits. */
  predicate FitsUstar(name: string, size: int) {
    && 0 < |name| <= 100 && 0 <= size < 0x2_0000_0000
    && (forall i :: 0 <= i < |name| ==> MemberChar(name[i])) && name[|name| - 1] != '/'
  }

  /** Header blocks of such members round-trip, and the all-zero block is read as the end of the archive. */
  ghost predicate Lawful(codec: Codec) {
    && codec.parse(Zeros(HEADER)) == None
    && forall name, size | FitsUstar(name, size) ::
         && |codec.header(name, size)| == HEADER
         && codec.parse(codec.header(name, size)) == Some(Member(name, size, true))
  }

  // ----- entries and sizes -------------------------------------------------------------

  datatype Entry = Manifest(raw: Bytes) | PartEntry(slot: Slot, part: Part) {
    function Name(): string {
      if Manifest? then "manifest.json" else part.name
    }

    function Size(): nat {
      if Manifest? then |raw| else part.bytes
    }

    predicate BelongsTo(file: nat) {
      PartEntry? && slot.file == file
    }

    /** The check verify makes on the bytes found under this entry. */
    predicate Identified(codec: Codec, data: Bytes) {
      if Manifest? then data == raw else codec.sha(data) == part.sha256
    }
  }

  function EntryOf(files: seq<Original>, slot: Slot): Entry
    requires SlotOf(files, slot)
  {
    PartEntry(slot, files[slot.file].parts[slot.number])
  }

  function PartEntries(files: seq<Original>, slots: seq<Slot>): (entries: seq<Entry>)
    requires forall i :: 0 <= i < |slots| ==> SlotOf(files, slots[i])
    ensures |entries| == |slots|
    ensures forall i :: 0 <= i < |slots| ==> entries[i] == EntryOf(files, slots[i])
  {
    seq(|slots|, i requires 0 <= i < |slots| => EntryOf(files, slots[i]))
  }

  function Entries(codec: Codec, catalog: Catalog): seq<Entry> {
    InterleavedSlots(catalog.files);
    [Manifest(codec.encode(catalog))] + PartEntries(catalog.files, Interleaved(catalog.files))
  }

  /** A member's data, padded to whole 512 byte blocks. */
  function Blocks(size: nat): (r: nat)
    ensures size <= r < size + 512
  {
    (size + 511) / 512 * 512
  }

  /** An archive, padded to whole 10240 byte records. */
  function Records(size: nat): (r: nat)
    ensures size <= r < size + 10240
  {
    (size + 10239) / 10240 * 10240
  }

  function FrameBytes(size: nat): nat {
    HEADER + Blocks(size)
  }

  predicate AllFit(entries: seq<Entry>) {
    forall i :: 0 <= i < |entries| ==> FitsUstar(entries[i].Name(), entries[i].Size())
  }

  function SumFrames(entries: seq<Entry>, from: nat): nat
    requires from <= |entries|
    decreases |entries| - from
  {
    if from == |entries| then 0 else FrameBytes(entries[from].Size()) + SumFrames(entries, from + 1)
  }

  predicate Admitted(codec: Codec, catalog: Catalog, maximum: int) {
    CheckCatalog(codec.encode(catalog), catalog, maximum)
  }

  /** Part names and sizes of an admitted catalog are valid USTAR fields. */
  lemma EntriesFit(codec: Codec, catalog: Catalog, maximum: int)
    requires Admitted(codec, catalog, maximum)
    ensures AllFit(Entries(codec, catalog))
  {
    var entries := Entries(codec, catalog);
    InterleavedSlots(catalog.files);
    forall i | 0 < i < |entries|
      ensures FitsUstar(entries[i].Name(), entries[i].Size())
    {
      var slot := Interleaved(catalog.files)[i - 1];
      assert entries[i] == EntryOf(catalog.files, slot);
      PartFits(catalog.files[slot.file], catalog.chunkBytes, slot.number);
    }
  }

  lemma PartFits(original: Original, chunk: nat, number: nat)
    requires 0 < chunk <= MAX_CHUNK && CheckedOriginal(original, chunk) && number < |original.parts|
    ensures FitsUstar(original.parts[number].name, original.parts[number].bytes)
  {
    PartStartsInside(original.bytes, chunk, number);
    DigitsAreShort(number);
    NameFits(original.name, ZeroPad(Digits(number), 6), original.parts[number].name);
  }

  lemma NameFits(original: string, number: string, name: string)
    requires ValidName(original) && |number| == 6 && forall i :: 0 <= i < 6 ==> '0' <= number[i] <= '9'
    requires name == "parts/" + original + "/" + number + ".part"
    ensures |name| <= 100 && (forall i :: 0 <= i < |name| ==> MemberChar(name[i])) && name[|name| - 1] != '/'
  {
  }

  lemma DigitsAreShort(n: nat)
    requires n < MAX_PARTS
    ensures var s := ZeroPad(Digits(n), 6); |s| == 6 && forall i :: 0 <= i < 6 ==> '0' <= s[i] <= '9'
  {
    assert |Digits(n)| <= 4 by {
      assert n >= 10 ==> |Digits(n)| == |Digits(n / 10)| + 1;
      assert n >= 100 ==> |Digits(n / 10)| == |Digits(n / 10 / 10)| + 1;
      assert n >= 1000 ==> |Digits(n / 10 / 10)| == |Digits(n / 10 / 10 / 10)| + 1;
    }
    PadOfDigits(Digits(n), 6);
  }

  lemma {:induction false} PadOfDigits(s: string, width: nat)
    requires forall i :: 0 <= i < |s| ==> '0' <= s[i] <= '9'
    ensures |ZeroPad(s, width)| == if |s| >= width then |s| else width
    ensures forall i :: 0 <= i < |ZeroPad(s, width)| ==> '0' <= ZeroPad(s, width)[i] <= '9'
    decreases width - |s|
  {
    if |s| < width { PadOfDigits(['0'] + s, width); }
  }

  function PhysicalSize(codec: Codec, catalog: Catalog): nat
  {
    Records(SumFrames(Entries(codec, catalog), 0) + TRAILER)
  }

  // ----- packing -----------------------------------------------------------------------

  /** The staged bytes of every part. */
  type Staged = map<Slot, Bytes>

  function DataOf(entry: Entry, staged: Staged): Bytes {
    if entry.Manifest? then entry.raw
    else if entry.slot in staged then staged[entry.slot] else []
  }

  function Frame(codec: Codec, entry: Entry, data: Bytes): Bytes {
    codec.header(entry.Name(), entry.Size()) + data + Zeros(Blocks(|data|) - |data|)
  }

  function Frames(codec: Codec, entries: seq<Entry>, staged: Staged, from: nat): Bytes
    requires from <= |entries|
    decreases |entries| - from
  {
    if from == |entries| then []
    else Frame(codec, entries[from], DataOf(entries[from], staged)) + Frames(codec, entries, staged, from + 1)
  }

  function PackedStream(codec: Codec, catalog: Catalog, staged: Staged): Bytes {
    var body := Frames(codec, Entries(codec, catalog), staged, 0) + Zeros(TRAILER);
    body + Zeros(Records(|body|) - |body|)
  }

  /** Each staged part has the size and hash its catalog entry names. */
  predicate StagedMatches(codec: Codec, entries: seq<Entry>, staged: Staged) {
    forall i :: 0 <= i < |entries| ==>
                  && |DataOf(entries[i], staged)| == entries[i].Size()
                  && entries[i].Identified(codec, DataOf(entries[i], staged))
  }

  lemma {:induction false} FramesLength(codec: Codec, entries: seq<Entry>, staged: Staged, from: nat)
    requires Lawful(codec)
    requires from <= |entries|
    requires AllFit(entries)
    requires StagedMatches(codec, entries, staged)
    ensures |Frames(codec, entries, staged, from)| == SumFrames(entries, from)
    decreases |entries| - from
  {
    if from < |entries| {
      FramesLength(codec, entries, staged, from + 1);
      var data := DataOf(entries[from], staged);
      assert |Frame(codec, entries[from], data)| == HEADER + |data| + (Blocks(|data|) - |data|);
    }
  }

  /** pack emits exactly physical_size(catalog) bytes. */
  lemma PackedStreamLength(codec: Codec, catalog: Catalog, maximum: int, staged: Staged)
    requires Lawful(codec) && Admitted(codec, catalog, maximum)
    requires StagedMatches(codec, Entries(codec, catalog), staged)
    ensures |PackedStream(codec, catalog, staged)| == PhysicalSize(codec, catalog)
  {
    EntriesFit(codec, catalog, maximum);
    FramesLength(codec, Entries(codec, catalog), staged, 0);
  }

  // ----- verifying ---------------------------------------------------------------------

  datatype Unpacked = Unpacked(contents: seq<Bytes>, end: nat)

  /** Reading one member behind what has been unpacked so far, checked against its entry. */
  function ReadEntry(codec: Codec, s: Bytes, entry: Entry, u: Unpacked): Option<Unpacked>
    requires u.end <= |s|
  {
    var next := u.end + FrameBytes(entry.Size());
    if next > |s| || codec.parse(s[u.end..u.end + HEADER]) != Some(Member(entry.Name(), entry.Size(), true)) then None
    else
      var data := s[u.end + HEADER..u.end + HEADER + entry.Size()];
      if entry.Identified(codec, data) then Some(Unpacked(u.contents + [data], next)) else None
  }

  /** Reading the first `count` members. */
  function Demux(codec: Codec, s: Bytes, entries: seq<Entry>, count: nat): (r: Option<Unpacked>)
    requires count <= |entries|
    ensures r.Some? ==> |r.value.contents| == count && r.value.end <= |s|
  {
    if count == 0 then Some(Unpacked([], 0))
    else
      match Demux(codec, s, entries, count - 1)
      case None => None
      case Some(u) => ReadEntry(codec, s, entries[count - 1], u)
  }

  /** After the last member the reader sees no further header, and everything behind that block is zero. */
  predicate CleanTrailer(codec: Codec, s: Bytes, pos: nat) {
    && (pos + HEADER <= |s| ==> codec.parse(s[pos..pos + HEADER]) == None)
    && forall k :: pos + HEADER <= k < |s| ==> s[k] == 0
  }

  /** The bytes of one original, concatenated in stream order. */
  function Gather(entries: seq<Entry>, contents: seq<Bytes>, file: nat): Bytes
    requires |entries| == |contents|
  {
    if entries == [] then []
    else
      (if entries[0].BelongsTo(file) then contents[0] else []) + Gather(entries[1..], contents[1..], file)
  }

  lemma {:induction false} DemuxFacts(codec: Codec, s: Bytes, entries: seq<Entry>, count: nat)
    requires count <= |entries|
    requires Demux(codec, s, entries, count).Some?
    ensures forall i :: 0 <= i < count ==>
                          && |Demux(codec, s, entries, count).value.contents[i]| == entries[i].Size()
                          && entries[i].Identified(codec, Demux(codec, s, entries, count).value.contents[i])
  {
    if count > 0 {
      DemuxFacts(codec, s, entries, count - 1);
    }
  }

  lemma {:induction false} DemuxStaysNone(codec: Codec, s: Bytes, entries: seq<Entry>, i: nat, count: nat)
    requires i <= count <= |entries|
    requires Demux(codec, s, entries, i) == None
    ensures Demux(codec, s, entries, count) == None
  {
    if i < count {
      DemuxStaysNone(codec, s, entries, i, count - 1);
    }
  }

  predicate OriginalMatches(codec: Codec, catalog: Catalog, entries: seq<Entry>, contents: seq<Bytes>, f: nat)
    requires |entries| == |contents| && f < |catalog.files|
  {
    && |Gather(entries, contents, f)| == catalog.files[f].bytes
    && codec.sha(Gather(entries, contents, f)) == catalog.files[f].sha256
  }

  /** What verify accepts, as one statement about the whole stream. */
  predicate Accepts(codec: Codec, catalog: Catalog, maximum: int, s: Bytes) {
    && Admitted(codec, catalog, maximum)
    && |s| == PhysicalSize(codec, catalog)
    && var entries := Entries(codec, catalog);
       var result := Demux(codec, s, entries, |entries|);
       && result.Some?
       && CleanTrailer(codec, s, result.value.end)
       && forall f :: 0 <= f < |catalog.files| ==> OriginalMatches(codec, catalog, entries, result.value.contents, f)
  }

  // ----- reassembly --------------------------------------------------------------------

  /** The listed parts of one original, concatenated in the order of the list. */
  function JoinParts(parts: Staged, file: nat, numbers: seq<nat>): Bytes {
    if numbers == [] then []
    else
      (if Slot(file, numbers[0]) in parts then parts[Slot(file, numbers[0])] else [])
      + JoinParts(parts, file, numbers[1..])
  }

  function Whole(files: seq<Original>, parts: Staged, file: nat): Bytes
    requires file < |files|
  {
    JoinParts(parts, file, Range(0, |files[file].parts|))
  }

  predicate Carries(entries: seq<Entry>, contents: seq<Bytes>, parts: Staged)
    requires |entries| == |contents|
  {
    forall i :: 0 <= i < |entries| && entries[i].PartEntry? ==>
                  entries[i].slot in parts && parts[entries[i].slot] == contents[i]
  }

  function EntrySlots(entries: seq<Entry>): seq<Slot> {
    if entries == [] then []
    else (if entries[0].PartEntry? then [entries[0].slot] else []) + EntrySlots(entries[1..])
  }

  lemma {:induction false} JoinConcat(parts: Staged, file: nat, a: seq<nat>, b: seq<nat>)
    ensures JoinParts(parts, file, a + b) == JoinParts(parts, file, a) + JoinParts(parts, file, b)
  {
    if a == [] {
      assert a + b == b;
    } else {
      assert (a + b)[1..] == a[1..] + b;
      JoinConcat(parts, file, a[1..], b);
    }
  }

  /** Gathering in stream order is joining the projected part numbers. */
  lemma {:induction false} GatherIsJoin(entries: seq<Entry>, contents: seq<Bytes>, parts: Staged, file: nat)
    requires |entries| == |contents|
    requires Carries(entries, contents, parts)
    ensures Gather(entries, contents, file) == JoinParts(parts, file, Project(EntrySlots(entries), file))
  {
    if entries != [] {
      GatherIsJoin(entries[1..], contents[1..], parts, file);
      var head := if entries[0].PartEntry? then [entries[0].slot] else [];
      ProjectConcat(head, EntrySlots(entries[1..]), file);
      JoinConcat(parts, file, Project(head, file), Project(EntrySlots(entries[1..]), file));
      assert JoinParts(parts, file, Project(head, file)) == if entries[0].BelongsTo(file) then contents[0] else [];
    }
  }

  lemma {:induction false} SlotsOfPartEntries(files: seq<Original>, slots: seq<Slot>)
    requires forall i :: 0 <= i < |slots| ==> SlotOf(files, slots[i])
    ensures EntrySlots(PartEntries(files, slots)) == slots
  {
    if slots != [] {
      assert PartEntries(files, slots)[1..] == PartEntries(files, slots[1..]);
      SlotsOfPartEntries(files, slots[1..]);
    }
  }

  lemma SlotsOfEntries(codec: Codec, catalog: Catalog)
    ensures EntrySlots(Entries(codec, catalog)) == Interleaved(catalog.files)
  {
    InterleavedSlots(catalog.files);
    SlotsOfPartEntries(catalog.files, Interleaved(catalog.files));
    assert Entries(codec, catalog)[1..] == PartEntries(catalog.files, Interleaved(catalog.files));
  }

  /** Whatever the order of the stream, each original comes out in its own part order. */
  lemma GatherIsWhole(codec: Codec, catalog: Catalog, contents: seq<Bytes>, parts: Staged, file: nat)
    requires |contents| == |Entries(codec, catalog)| && file < |catalog.files|
    requires Carries(Entries(codec, catalog), contents, parts)
    ensures Gather(Entries(codec, catalog), contents, file) == Whole(catalog.files, parts, file)
  {
    GatherIsJoin(Entries(codec, catalog), contents, parts, file);
    SlotsOfEntries(codec, catalog);
    InterleavingKeepsOwnOrder(catalog.files, file);
  }

  /** The parts of one original have its catalogued size together. */
  lemma {:induction false} JoinLength(files: seq<Original>, parts: Staged, file: nat, lo: nat)
    requires file < |files| && lo <= |files[file].parts|
    requires forall n :: 0 <= n < |files[file].parts| ==>
                           && Slot(file, n) in parts
                           && |parts[Slot(file, n)]| == files[file].parts[n].bytes
    ensures |JoinParts(parts, file, Range(lo, |files[file].parts|))|
         == SumParts(files[file].parts, |files[file].parts|) - SumParts(files[file].parts, lo)
    decreases |files[file].parts| - lo
  {
    if lo < |files[file].parts| {
      JoinLength(files, parts, file, lo + 1);
      var all := Range(lo, |files[file].parts|);
      assert all[0] == lo && all[1..] == Range(lo + 1, |files[file].parts|);
    }
  }

  lemma InterleavedDistinct(files: seq<Original>)
    ensures Distinct(Interleaved(files))
  {
    var slots := Interleaved(files);
    forall i, j | 0 <= i < j < |slots|
      ensures slots[i] != slots[j]
    {
      InterleavingIsAPermutation(files, slots[i]);
      if slots[i] == slots[j] {
        TwiceMeansTwo(slots, i, j);
      }
    }
  }

  /** Every catalogued part has its entry in the stream. */
  lemma PartHasEntry(codec: Codec, catalog: Catalog, f: nat, n: nat) returns (i: nat)
    requires f < |catalog.files| && n < |catalog.files[f].parts|
    ensures i < |Entries(codec, catalog)|
    ensures Entries(codec, catalog)[i] == PartEntry(Slot(f, n), catalog.files[f].parts[n])
  {
    InterleavedSlots(catalog.files);
    InterleavingIsAPermutation(catalog.files, Slot(f, n));
    var slots := Interleaved(catalog.files);
    assert Slot(f, n) in multiset(slots);
    var k: nat :| k < |slots| && slots[k] == Slot(f, n);
    i := k + 1;
    assert Entries(codec, catalog)[i] == EntryOf(catalog.files, slots[k]);
  }

  /** Interleaved slots are distinct, so the stream determines one content for every part. */
  lemma PartsOfStream(codec: Codec, catalog: Catalog, contents: seq<Bytes>) returns (parts: Staged)
    requires |contents| == |Entries(codec, catalog)|
    ensures Carries(Entries(codec, catalog), contents, parts)
  {
    var entries := Entries(codec, catalog);
    var slots := Interleaved(catalog.files);
    InterleavedSlots(catalog.files);
    InterleavedDistinct(catalog.files);
    parts := SlotMap(slots, contents[1..]);
    forall i | 0 <= i < |contents| && entries[i].PartEntry?
      ensures entries[i].slot in parts && parts[entries[i].slot] == contents[i]
    {
      var k: nat := i - 1;
      assert entries[i] == EntryOf(catalog.files, slots[k]);
      assert parts[slots[k]] == contents[1..][k];
    }
  }

  ghost function SlotMap(slots: seq<Slot>, contents: seq<Bytes>): (parts: Staged)
    requires |slots| == |contents| && Distinct(slots)
    ensures forall i :: 0 <= i < |slots| ==> slots[i] in parts && parts[slots[i]] == contents[i]
  {
    if slots == [] then map[]
    else SlotMap(slots[..|slots| - 1], contents[..|slots| - 1])[slots[|slots| - 1] := contents[|slots| - 1]]
  }

  lemma TwiceMeansTwo(slots: seq<Slot>, i: nat, j: nat)
    requires i < j < |slots| && slots[i] == slots[j]
    ensures multiset(slots)[slots[i]] >= 2
  {
    assert slots == slots[..i] + [slots[i]] + slots[i + 1..j] + [slots[j]] + slots[j + 1..];
  }

  // ----- main results ------------------------------------------------------------------

  /**
   * Soundness of verify: an accepted stream carries, for every original, parts of the catalogued
   * sizes and hashes whose concatenation in the original's own order has its size and hash.
   */
  lemma VerifyIsSound(codec: Codec, catalog: Catalog, maximum: int, s: Bytes) returns (parts: Staged)
    requires Accepts(codec, catalog, maximum, s)
    ensures StagedMatches(codec, Entries(codec, catalog), parts)
    ensures var entries := Entries(codec, catalog);
            Carries(entries, Demux(codec, s, entries, |entries|).value.contents, parts)
    ensures forall f, n :: 0 <= f < |catalog.files| && 0 <= n < |catalog.files[f].parts| ==>
                             && Slot(f, n) in parts
                             && |parts[Slot(f, n)]| == catalog.files[f].parts[n].bytes
                             && codec.sha(parts[Slot(f, n)]) == catalog.files[f].parts[n].sha256
    ensures forall f :: 0 <= f < |catalog.files| ==>
                          && |Whole(catalog.files, parts, f)| == catalog.files[f].bytes
                          && codec.sha(Whole(catalog.files, parts, f)) == catalog.files[f].sha256
  {
    EntriesFit(codec, catalog, maximum);
    var entries := Entries(codec, catalog);
    DemuxFacts(codec, s, entries, |entries|);
    var contents := Demux(codec, s, entries, |entries|).value.contents;
    parts := PartsOfStream(codec, catalog, contents);
    forall f, n | 0 <= f < |catalog.files| && 0 <= n < |catalog.files[f].parts|
      ensures && Slot(f, n) in parts
              && |parts[Slot(f, n)]| == catalog.files[f].parts[n].bytes
              && codec.sha(parts[Slot(f, n)]) == catalog.files[f].parts[n].sha256
    {
      var i := PartHasEntry(codec, catalog, f, n);
      assert contents[i] == parts[Slot(f, n)];
    }
    forall f | 0 <= f < |catalog.files|
      ensures && |Whole(catalog.files, parts, f)| == catalog.files[f].bytes
              && codec.sha(Whole(catalog.files, parts, f)) == catalog.files[f].sha256
    {
      assert OriginalMatches(codec, catalog, entries, contents, f);
      GatherIsWhole(codec, catalog, contents, parts, f);
    }
  }

  /** The bytes that a stream delivers for one original, in stream order. */
  function Received(codec: Codec, catalog: Catalog, s: Bytes, f: nat): Bytes {
    var entries := Entries(codec, catalog);
    var result := Demux(codec, s, entries, |entries|);
    if result.None? then [] else Gather(entries, result.value.contents, f)
  }

  /** What an accepted stream delivers for an original is all of its parts in its own order. */
  lemma ReceivedIsWhole(codec: Codec, catalog: Catalog, maximum: int, s: Bytes, parts: Staged, f: nat)
    requires Accepts(codec, catalog, maximum, s) && f < |catalog.files|
    requires StagedMatches(codec, Entries(codec, catalog), parts)
    requires var entries := Entries(codec, catalog);
             Carries(entries, Demux(codec, s, entries, |entries|).value.contents, parts)
    ensures Received(codec, catalog, s, f) == Whole(catalog.files, parts, f)
    ensures codec.sha(Received(codec, catalog, s, f)) == catalog.files[f].sha256
  {
    var entries := Entries(codec, catalog);
    var contents := Demux(codec, s, entries, |entries|).value.contents;
    assert OriginalMatches(codec, catalog, entries, contents, f);
    EntriesFit(codec, catalog, maximum);
    GatherIsWhole(codec, catalog, contents, parts, f);
  }

  predicate Collide(codec: Codec, x: Bytes, y: Bytes) {
    x != y && codec.sha(x) == codec.sha(y)
  }

  /** Unless the received bytes collide with them, they are the bytes that were catalogued. */
  lemma VerifiedBytesAreTheOriginals(codec: Codec, catalog: Catalog, maximum: int, s: Bytes, originals: seq<Bytes>)
    requires Accepts(codec, catalog, maximum, s) && |originals| == |catalog.files|
    requires forall f :: 0 <= f < |originals| ==> codec.sha(originals[f]) == catalog.files[f].sha256
    requires forall f :: 0 <= f < |originals| ==> !Collide(codec, Received(codec, catalog, s, f), originals[f])
    ensures forall f :: 0 <= f < |originals| ==> Received(codec, catalog, s, f) == originals[f]
  {
    var parts := VerifyIsSound(codec, catalog, maximum, s);
    forall f | 0 <= f < |originals|
      ensures codec.sha(Received(codec, catalog, s, f)) == codec.sha(originals[f])
    {
      ReceivedIsWhole(codec, catalog, maximum, s, parts, f);
    }
  }

  /** The data of all entries, in stream order. */
  function AllData(entries: seq<Entry>, staged: Staged): (all: seq<Bytes>)
    ensures |all| == |entries|
    ensures forall i :: 0 <= i < |entries| ==> all[i] == DataOf(entries[i], staged)
  {
    seq(|entries|, i requires 0 <= i < |entries| => DataOf(entries[i], staged))
  }

  /** Reading back the first `count` frames leaves exactly the others. */
  lemma {:induction false} DemuxOfFrames(codec: Codec, entries: seq<Entry>, staged: Staged, s: Bytes, count: nat,
                                         tail: Bytes)
    requires Lawful(codec)
    requires count <= |entries|
    requires AllFit(entries) && StagedMatches(codec, entries, staged)
    requires s == Frames(codec, entries, staged, 0) + tail
    ensures var u := Demux(codec, s, entries, count);
            && u.Some? && u.value.contents == AllData(entries, staged)[..count]
            && s[u.value.end..] == Frames(codec, entries, staged, count) + tail
  {
    if count == 0 {
      assert s[0..] == s;
    } else {
      DemuxOfFrames(codec, entries, staged, s, count - 1, tail);
      FramesUnfold(codec, entries, staged, count - 1, tail);
      DemuxOneMore(codec, entries, s, count, Demux(codec, s, entries, count - 1).value, AllData(entries, staged),
                   Frames(codec, entries, staged, count) + tail);
    }
  }

  lemma DemuxOneMore(codec: Codec, entries: seq<Entry>, s: Bytes, count: nat, u: Unpacked, all: seq<Bytes>, rest: Bytes)
    requires Lawful(codec) && 0 < count <= |entries| == |all|
    requires FitsUstar(entries[count - 1].Name(), entries[count - 1].Size())
    requires |all[count - 1]| == entries[count - 1].Size() && entries[count - 1].Identified(codec, all[count - 1])
    requires Demux(codec, s, entries, count - 1) == Some(u) && u.contents == all[..count - 1]
    requires s[u.end..] == Frame(codec, entries[count - 1], all[count - 1]) + rest
    ensures var v := Demux(codec, s, entries, count);
            v.Some? && v.value.contents == all[..count] && s[v.value.end..] == rest
  {
    ReadOneFrame(codec, entries[count - 1], all[count - 1], s, u, rest);
    TakeSnoc(all, count - 1);
  }

  lemma FramesUnfold(codec: Codec, entries: seq<Entry>, staged: Staged, i: nat, tail: Bytes)
    requires i < |entries|
    ensures Frames(codec, entries, staged, i) + tail
         == Frame(codec, entries[i], DataOf(entries[i], staged)) + (Frames(codec, entries, staged, i + 1) + tail)
  {
  }

  lemma ReadOneFrame(codec: Codec, entry: Entry, data: Bytes, s: Bytes, u: Unpacked, rest: Bytes)
    requires Lawful(codec) && FitsUstar(entry.Name(), entry.Size())
    requires |data| == entry.Size() && entry.Identified(codec, data)
    requires u.end <= |s| && s[u.end..] == Frame(codec, entry, data) + rest
    ensures u.end + FrameBytes(|data|) <= |s|
    ensures ReadEntry(codec, s, entry, u) == Some(Unpacked(u.contents + [data], u.end + FrameBytes(|data|)))
    ensures s[u.end + FrameBytes(|data|)..] == rest
  {
    var head := codec.header(entry.Name(), entry.Size());
    var view := s[u.end..];
    assert |Frame(codec, entry, data)| == FrameBytes(|data|);
    assert view[..HEADER] == head;
    assert s[u.end..u.end + HEADER] == view[..HEADER];
    assert view[HEADER..HEADER + |data|] == data;
    assert s[u.end + HEADER..u.end + HEADER + |data|] == view[HEADER..HEADER + |data|];
    assert view[FrameBytes(|data|)..] == rest;
  }

  /** The packed stream unpacks to the staged data and ends cleanly. */
  lemma PackedStreamUnpacks(codec: Codec, catalog: Catalog, maximum: int, staged: Staged) returns (end: nat)
    requires Lawful(codec) && Admitted(codec, catalog, maximum)
    requires StagedMatches(codec, Entries(codec, catalog), staged)
    ensures var entries, s := Entries(codec, catalog), PackedStream(codec, catalog, staged);
            && |s| == PhysicalSize(codec, catalog)
            && Demux(codec, s, entries, |entries|) == Some(Unpacked(AllData(entries, staged), end))
            && CleanTrailer(codec, s, end)
  {
    var entries := Entries(codec, catalog);
    var s := PackedStream(codec, catalog, staged);
    EntriesFit(codec, catalog, maximum);
    PackedStreamLength(codec, catalog, maximum, staged);
    var tail := PackedStreamShape(codec, catalog, staged);
    end := |Frames(codec, entries, staged, 0)|;
    DemuxOfFrames(codec, entries, staged, s, |entries|, tail);
    TakeAll(AllData(entries, staged));
  }

  lemma PackedStreamShape(codec: Codec, catalog: Catalog, staged: Staged) returns (tail: Bytes)
    requires codec.parse(Zeros(HEADER)) == None
    ensures var s, frames := PackedStream(codec, catalog, staged), Frames(codec, Entries(codec, catalog), staged, 0);
            s == frames + tail && CleanTrailer(codec, s, |frames|)
  {
    var frames := Frames(codec, Entries(codec, catalog), staged, 0);
    var fill := Zeros(Records(|frames| + TRAILER) - (|frames| + TRAILER));
    tail := Zeros(TRAILER) + fill;
    assert frames + Zeros(TRAILER) + fill == frames + tail;
    ZeroTail(codec, frames, PackedStream(codec, catalog, staged));
  }

  lemma ZeroTail(codec: Codec, frames: Bytes, s: Bytes)
    requires codec.parse(Zeros(HEADER)) == None
    requires s == frames + Zeros(TRAILER) + Zeros(Records(|frames| + TRAILER) - (|frames| + TRAILER))
    ensures CleanTrailer(codec, s, |frames|)
  {
    assert s[|frames|..|frames| + HEADER] == Zeros(HEADER);
  }

  /** Staged parts of the right sizes make up an original of the right size. */
  lemma StagedWhole(codec: Codec, catalog: Catalog, maximum: int, staged: Staged, f: nat)
    requires Admitted(codec, catalog, maximum) && f < |catalog.files|
    requires StagedMatches(codec, Entries(codec, catalog), staged)
    requires AllStaged(catalog, staged)
    ensures Gather(Entries(codec, catalog), AllData(Entries(codec, catalog), staged), f)
         == Whole(catalog.files, staged, f)
    ensures |Whole(catalog.files, staged, f)| == catalog.files[f].bytes
  {
    var entries := Entries(codec, catalog);
    InterleavedSlots(catalog.files);
    forall i | 0 <= i < |entries| && entries[i].PartEntry?
      ensures entries[i].slot in staged
    {
      assert entries[i] == EntryOf(catalog.files, Interleaved(catalog.files)[i - 1]);
    }
    GatherIsWhole(codec, catalog, AllData(entries, staged), staged, f);
    forall n | 0 <= n < |catalog.files[f].parts|
      ensures |staged[Slot(f, n)]| == catalog.files[f].parts[n].bytes
    {
      var i := PartHasEntry(codec, catalog, f, n);
      assert |DataOf(entries[i], staged)| == entries[i].Size();
    }
    JoinLength(catalog.files, staged, f, 0);
    ChunksTelescope(catalog.files[f], catalog.chunkBytes);
  }

  predicate AllStaged(catalog: Catalog, staged: Staged) {
    forall f, n :: 0 <= f < |catalog.files| && 0 <= n < |catalog.files[f].parts| ==> Slot(f, n) in staged
  }

  /**
   * Round trip: for an admitted catalog and matching staging, verify accepts what pack emits
   * exactly when the reassembled originals have their catalogued hashes; their sizes always agree.
   */
  lemma PackThenVerify(codec: Codec, catalog: Catalog, maximum: int, staged: Staged)
    requires Lawful(codec) && Admitted(codec, catalog, maximum)
    requires StagedMatches(codec, Entries(codec, catalog), staged) && AllStaged(catalog, staged)
    ensures Accepts(codec, catalog, maximum, PackedStream(codec, catalog, staged))
       <==> forall f :: 0 <= f < |catalog.files| ==>
                          codec.sha(Whole(catalog.files, staged, f)) == catalog.files[f].sha256
    ensures forall f :: 0 <= f < |catalog.files| ==>
                          |Whole(catalog.files, staged, f)| == catalog.files[f].bytes
  {
    var end := PackedStreamUnpacks(codec, catalog, maximum, staged);
    var entries := Entries(codec, catalog);
    forall f | 0 <= f < |catalog.files|
      ensures OriginalMatches(codec, catalog, entries, AllData(entries, staged), f)
         <==> codec.sha(Whole(catalog.files, staged, f)) == catalog.files[f].sha256
      ensures |Whole(catalog.files, staged, f)| == catalog.files[f].bytes
    {
      StagedWhole(codec, catalog, maximum, staged, f);
    }
  }

  // ----- the trailer -------------------------------------------------------------------

  lemma {:induction false} DemuxEnd(codec: Codec, s: Bytes, entries: seq<Entry>, count: nat)
    requires count <= |entries| && Demux(codec, s, entries, count).Some?
    ensures Demux(codec, s, entries, count).value.end + SumFrames(entries, count) == SumFrames(entries, 0)
  {
    if count > 0 { DemuxEnd(codec, s, entries, count - 1); }
  }

  /** Reading members looks at nothing behind them. */
  lemma {:induction false} DemuxReadsItsPrefix(codec: Codec, s: Bytes, t: Bytes, entries: seq<Entry>, count: nat,
                                               u: Unpacked)
    requires count <= |entries| && Demux(codec, s, entries, count) == Some(u)
    requires u.end <= |t| && s[..u.end] == t[..u.end]
    ensures Demux(codec, t, entries, count) == Some(u)
  {
    if count > 0 {
      var v := Demux(codec, s, entries, count - 1).value;
      assert s[..v.end] == s[..u.end][..v.end] == t[..v.end];
      DemuxReadsItsPrefix(codec, s, t, entries, count - 1, v);
      SameRead(codec, s, t, entries[count - 1], v, u);
    }
  }

  lemma SameRead(codec: Codec, s: Bytes, t: Bytes, entry: Entry, v: Unpacked, u: Unpacked)
    requires v.end <= |s| && ReadEntry(codec, s, entry, v) == Some(u) && u.end <= |s|
    requires u.end <= |t| && s[..u.end] == t[..u.end] && v.end <= |t|
    ensures ReadEntry(codec, t, entry, v) == Some(u)
  {
    SameSlice(s, t, v.end, v.end + HEADER, u.end);
    SameSlice(s, t, v.end + HEADER, v.end + HEADER + entry.Size(), u.end);
  }

  lemma SameSlice(s: Bytes, t: Bytes, a: nat, b: nat, end: nat)
    requires a <= b <= end <= |s| && end <= |t| && s[..end] == t[..end]
    ensures s[a..b] == t[a..b]
  {
    assert s[a..b] == s[..end][a..b];
    assert t[a..b] == t[..end][a..b];
  }

  /** Where the members of an accepted stream end. */
  function TrailerStart(codec: Codec, catalog: Catalog): nat {
    SumFrames(Entries(codec, catalog), 0)
  }

  lemma TrailerIsInside(codec: Codec, catalog: Catalog, maximum: int, s: Bytes)
    requires Accepts(codec, catalog, maximum, s)
    ensures var entries := Entries(codec, catalog);
            && Demux(codec, s, entries, |entries|).value.end == TrailerStart(codec, catalog)
            && TrailerStart(codec, catalog) + TRAILER <= |s|
  {
    var entries := Entries(codec, catalog);
    DemuxEnd(codec, s, entries, |entries|);
  }

  /** s with another block at `end`. */
  function WithBlock(s: Bytes, end: nat, block: Bytes): (t: Bytes)
    requires end + |block| <= |s|
    ensures |t| == |s| && t[..end] == s[..end] && t[end..end + |block|] == block
    ensures forall k :: end + |block| <= k < |s| ==> t[k] == s[k]
  {
    s[..end] + block + s[end + |block|..]
  }

  /** Any block that is no readable header may stand in for the first zero block of the trailer. */
  lemma UnreadableTrailerIsAccepted(codec: Codec, catalog: Catalog, maximum: int, s: Bytes, block: Bytes)
    requires Accepts(codec, catalog, maximum, s) && |block| == HEADER && codec.parse(block) == None
    ensures TrailerStart(codec, catalog) + |block| <= |s|
    ensures Accepts(codec, catalog, maximum, WithBlock(s, TrailerStart(codec, catalog), block))
  {
    TrailerIsInside(codec, catalog, maximum, s);
    var entries := Entries(codec, catalog);
    var t := WithBlock(s, TrailerStart(codec, catalog), block);
    DemuxReadsItsPrefix(codec, s, t, entries, |entries|, Demux(codec, s, entries, |entries|).value);
  }

  /** So pack's own stream, with such a block that is not zero in its trailer, is accepted like the stream itself. */
  lemma NonzeroTrailerIsAccepted(codec: Codec, catalog: Catalog, maximum: int, staged: Staged, block: Bytes)
    requires Lawful(codec) && Admitted(codec, catalog, maximum)
    requires StagedMatches(codec, Entries(codec, catalog), staged) && AllStaged(catalog, staged)
    requires forall f :: 0 <= f < |catalog.files| ==>
                           codec.sha(Whole(catalog.files, staged, f)) == catalog.files[f].sha256
    requires |block| == HEADER && codec.parse(block) == None && block != Zeros(HEADER)
    ensures var s, end := PackedStream(codec, catalog, staged), TrailerStart(codec, catalog);
            && end + HEADER <= |s| && s[end..end + HEADER] == Zeros(HEADER) && Accepts(codec, catalog, maximum, s)
            && WithBlock(s, end, block)[end..end + HEADER] == block != Zeros(HEADER)
            && Accepts(codec, catalog, maximum, WithBlock(s, end, block))
  {
    var s := PackedStream(codec, catalog, staged);
    PackThenVerify(codec, catalog, maximum, staged);
    UnreadableTrailerIsAccepted(codec, catalog, maximum, s, block);
    PackedTrailer(codec, catalog, maximum, staged);
  }

  lemma PackedTrailer(codec: Codec, catalog: Catalog, maximum: int, staged: Staged)
    requires Lawful(codec) && Admitted(codec, catalog, maximum)
    requires StagedMatches(codec, Entries(codec, catalog), staged)
    ensures var s, end := PackedStream(codec, catalog, staged), TrailerStart(codec, catalog);
            end + HEADER <= |s| && s[end..end + HEADER] == Zeros(HEADER)
  {
    EntriesFit(codec, catalog, maximum);
    FramesLength(codec, Entries(codec, catalog), staged, 0);
    var frames := Frames(codec, Entries(codec, catalog), staged, 0);
    var s := PackedStream(codec, catalog, staged);
    assert s == frames + Zeros(TRAILER) + Zeros(Records(|frames| + TRAILER) - (|frames| + TRAILER));
  }

  predicate ZeroBetween(s: Bytes, start: nat, stop: nat) {
    forall k :: start <= k < stop && k < |s| ==> s[k] == 0
  }

  /** The trailer of an accepted stream is all zero exactly when its first block is. */
  lemma TrailerIsZeroExactly(codec: Codec, catalog: Catalog, maximum: int, s: Bytes, end: nat)
    requires Accepts(codec, catalog, maximum, s) && end == TrailerStart(codec, catalog)
    ensures ZeroBetween(s, end, |s|) <==> ZeroBetween(s, end, end + HEADER)
  {
    TrailerIsInside(codec, catalog, maximum, s);
    var entries := Entries(codec, catalog);
    assert CleanTrailer(codec, s, Demux(codec, s, entries, |entries|).value.end);
  }
}
