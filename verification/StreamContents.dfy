/** Which catalogs, stagings and streams are accepted, said by names, sizes, hashes and positions. */
module StreamContents {
  import opened Common
  import opened RecoveryCatalog
  import opened RecoveryFraming
  import RecoveryPayload

  // ----- catalogs ----------------------------------------------------------------------

  predicate Lower(c: char) {
    'a' <= c <= 'z'
  }

  predicate Decimal(c: char) {
    '0' <= c <= '9'
  }

  ghost predicate IsName(name: string) {
    && name != "" && |name| <= 32 && Lower(name[0])
    && forall i :: 0 <= i < |name| ==> Lower(name[i]) || Decimal(name[i]) || name[i] in {'_', '-'}
  }

  ghost predicate IsHash(hash: string) {
    |hash| == 64 && forall i :: 0 <= i < |hash| ==> Decimal(hash[i]) || 'a' <= hash[i] <= 'f'
  }

  /** The part's number stands in its name with six digits. */
  ghost predicate IsPartName(name: string, original: string, n: nat) {
    exists digits :: SixDigits(digits, n) && name == "parts/" + original + "/" + digits + ".part"
  }

  ghost predicate SixDigits(digits: string, n: nat) {
    |digits| == 6 && (forall i :: 0 <= i < |digits| ==> Decimal(digits[i])) && Value(digits) == n
  }

  lemma {:induction false} DigitsAreValue(a: string, b: string)
    requires |a| == |b| && forall i :: 0 <= i < |a| ==> Decimal(a[i]) && Decimal(b[i])
    requires Value(a) == Value(b)
    ensures a == b
  {
    if a != "" {
      var n := |a| - 1;
      DigitsAreValue(a[..n], b[..n]);
      assert a == a[..n] + [a[n]] && b == b[..n] + [b[n]];
    }
  }

  lemma PartNameMeans(name: string, original: string, n: nat)
    requires n < MAX_PARTS
    ensures name == PartName(original, n) <==> IsPartName(name, original, n)
  {
    var digits := ZeroPad(Digits(n), 6);
    DigitsAreShort(n);
    ValueOfZeroPad(Digits(n), 6);
    ValueOfDigits(n);
    assert SixDigits(digits, n);
    if IsPartName(name, original, n) {
      var other :| SixDigits(other, n) && name == "parts/" + original + "/" + other + ".part";
      DigitsAreValue(digits, other);
    }
  }

  /** The parts are full chunks but for the last, which is not empty, and they make up the original. */
  ghost predicate CutUp(parts: seq<Part>, bytes: nat, chunk: nat) {
    && (forall n :: 0 <= n < |parts| - 1 ==> parts[n].bytes == chunk)
    && if parts == [] then bytes == 0
       else 0 < parts[|parts| - 1].bytes <= chunk && bytes == (|parts| - 1) * chunk + parts[|parts| - 1].bytes
  }

  /** As many parts as the size asks for, each of its part of the size. */
  ghost predicate Sized(parts: seq<Part>, bytes: nat, chunk: nat)
    requires chunk > 0
  {
    && |parts| == PartCount(bytes, chunk)
    && forall n :: 0 <= n < |parts| ==> parts[n].bytes == PartBytes(bytes, chunk, n)
  }

  lemma OneQuotient(q: nat, r: nat, e: nat, m: nat, d: nat)
    requires r < d && m < d && q * d + r == e * d + m
    ensures q == e
  {
    if q > e {
      FurtherOn(e, q, d);
    } else if q < e {
      FurtherOn(q, e, d);
    }
  }

  lemma Quotient(q: nat, r: nat, n: nat, d: nat)
    requires r < d && n == q * d + r
    ensures n / d == q
  {
    var e, m := n / d, n % d;
    assert n == e * d + m;
    OneQuotient(q, r, e, m, d);
  }

  lemma CutUpMeans(parts: seq<Part>, bytes: nat, chunk: nat)
    requires chunk > 0
    ensures Sized(parts, bytes, chunk) <==> CutUp(parts, bytes, chunk)
  {
    if Sized(parts, bytes, chunk) {
      SizedIsCut(parts, bytes, chunk);
    }
    if CutUp(parts, bytes, chunk) {
      CutIsSized(parts, bytes, chunk);
    }
  }

  lemma FullChunk(bytes: nat, chunk: nat, n: nat)
    requires chunk > 0 && n + 1 < PartCount(bytes, chunk)
    ensures PartBytes(bytes, chunk, n) == chunk
  {
    PartStartsInside(bytes, chunk, n + 1);
    assert (n + 1) * chunk == n * chunk + chunk;
  }

  lemma LastChunk(bytes: nat, chunk: nat, last: nat)
    requires chunk > 0 && last + 1 == PartCount(bytes, chunk)
    ensures 0 < PartBytes(bytes, chunk, last) <= chunk && bytes == last * chunk + PartBytes(bytes, chunk, last)
  {
    PartsReachTheEnd(bytes, chunk);
    PartStartsInside(bytes, chunk, last);
    assert (last + 1) * chunk == last * chunk + chunk;
  }

  lemma SizedIsCut(parts: seq<Part>, bytes: nat, chunk: nat)
    requires chunk > 0 && Sized(parts, bytes, chunk)
    ensures CutUp(parts, bytes, chunk)
  {
    if parts == [] {
      PartsReachTheEnd(bytes, chunk);
    } else {
      LastChunk(bytes, chunk, |parts| - 1);
    }
    forall n | 0 <= n < |parts| - 1
      ensures parts[n].bytes == chunk
    {
      FullChunk(bytes, chunk, n);
    }
  }

  lemma CutIsSized(parts: seq<Part>, bytes: nat, chunk: nat)
    requires chunk > 0 && CutUp(parts, bytes, chunk)
    ensures Sized(parts, bytes, chunk)
  {
    var c := |parts|;
    if c == 0 {
      Quotient(0, chunk - 1, bytes + chunk - 1, chunk);
    } else {
      var last := parts[c - 1].bytes;
      assert c * chunk == (c - 1) * chunk + chunk;
      Quotient(c, last - 1, bytes + chunk - 1, chunk);
      forall n: nat | n < c
        ensures parts[n].bytes == PartBytes(bytes, chunk, n)
      {
        if n < c - 1 { FurtherOn(n, c - 1, chunk); }
      }
    }
  }

  lemma FurtherOn(n: nat, last: nat, chunk: nat)
    requires n < last
    ensures n * chunk + chunk <= last * chunk
  {
    assert last * chunk == (last - n - 1) * chunk + (n + 1) * chunk;
  }

  /** One original with the inventory of its parts. */
  ghost predicate IsOriginal(original: Original, chunk: nat) {
    && IsName(original.name) && IsHash(original.sha256)
    && |original.parts| <= 10000 && CutUp(original.parts, original.bytes, chunk)
    && forall n :: 0 <= n < |original.parts| ==>
         IsPartName(original.parts[n].name, original.name, n) && IsHash(original.parts[n].sha256)
  }

  lemma OriginalMeans(original: Original, chunk: nat)
    requires chunk > 0
    ensures CheckedOriginal(original, chunk) <==> IsOriginal(original, chunk)
  {
    CutUpMeans(original.parts, original.bytes, chunk);
    if |original.parts| <= MAX_PARTS {
      forall n | 0 <= n < |original.parts|
        ensures original.parts[n].name == PartName(original.name, n)
           <==> IsPartName(original.parts[n].name, original.name, n)
      {
        PartNameMeans(original.parts[n].name, original.name, n);
      }
    }
  }

  /** The catalog of up to 64 originals of different names, with chunks of up to 256 MiB. */
  ghost predicate IsCatalog(catalog: Catalog) {
    && catalog.schema == 1 && 0 < catalog.chunkBytes <= 268435456 && 0 < |catalog.files| <= 64
    && (forall i :: 0 <= i < |catalog.files| ==> IsOriginal(catalog.files[i], catalog.chunkBytes))
    && forall i, j :: 0 <= i < j < |catalog.files| ==> catalog.files[i].name != catalog.files[j].name
  }

  /** A catalog is admitted exactly if it is one, within the budget of bytes, and with a manifest of at most 4 MiB. */
  lemma CatalogIsAdmittedExactly(encoded: Bytes, catalog: Catalog, maximum: int)
    ensures CheckCatalog(encoded, catalog, maximum)
       <==> IsCatalog(catalog) && TotalBytes(catalog.files) <= maximum && |encoded| <= 4194304
  {
    if catalog.chunkBytes > 0 {
      forall i | 0 <= i < |catalog.files|
        ensures CheckedOriginal(catalog.files[i], catalog.chunkBytes)
           <==> IsOriginal(catalog.files[i], catalog.chunkBytes)
      {
        OriginalMeans(catalog.files[i], catalog.chunkBytes);
      }
    }
  }

  // ----- staging -----------------------------------------------------------------------

  /** The part of this number of this original. */
  ghost predicate PartAt(catalog: Catalog, f: nat, n: nat, part: Part) {
    f < |catalog.files| && n < |catalog.files[f].parts| && catalog.files[f].parts[n] == part
  }

  ghost predicate NamesAPart(catalog: Catalog, name: string) {
    exists f: nat, n: nat, part :: PartAt(catalog, f, n, part) && part.name == name
  }

  /** A staging matches exactly if it holds this manifest and every part, with its size and hash, and nothing else. */
  lemma StagingMatchesExactly(codec: Codec, catalog: Catalog, dir: RecoveryPayload.Directory)
    ensures RecoveryPayload.StagingMatches(codec, catalog, dir)
       <==> && (forall name :: name in dir <==> name == "manifest.json" || NamesAPart(catalog, name))
            && dir["manifest.json"] == codec.encode(catalog)
            && forall f: nat, n: nat, part :: PartAt(catalog, f, n, part) ==>
                 |dir[part.name]| == part.bytes && codec.sha(dir[part.name]) == part.sha256
  {
    var names := RecoveryPayload.PartNames(catalog.files);
    forall name: string
      ensures name in names <==> NamesAPart(catalog, name)
    {
      if name in names {
        var f: nat, n: nat :| f < |catalog.files| && n < |catalog.files[f].parts|
                              && catalog.files[f].parts[n].name == name;
        assert PartAt(catalog, f, n, catalog.files[f].parts[n]);
      }
    }
    if forall name :: name in dir <==> name == "manifest.json" || NamesAPart(catalog, name) {
      assert dir.Keys == {"manifest.json"} + names;
      assert "manifest.json" in dir;
      forall f: nat, n: nat | f < |catalog.files| && n < |catalog.files[f].parts|
        ensures PartAt(catalog, f, n, catalog.files[f].parts[n]) && catalog.files[f].parts[n].name in dir
      {
      }
    }
    if dir.Keys == {"manifest.json"} + names {
      assert forall name :: name in dir <==> name in dir.Keys;
    }
  }

  // ----- streams -----------------------------------------------------------------------

  /** The slot of a part that the catalog has. */
  ghost predicate StandsFor(catalog: Catalog, entry: Entry) {
    entry.PartEntry? && PartAt(catalog, entry.slot.file, entry.slot.number, entry.part)
  }

  /** Part numbers come first, and within one number the originals in their order. */
  ghost predicate Before(a: Entry, b: Entry)
    requires a.PartEntry? && b.PartEntry?
  {
    a.slot.number < b.slot.number || (a.slot.number == b.slot.number && a.slot.file < b.slot.file)
  }

  ghost predicate HasSlot(entries: seq<Entry>, slot: Slot) {
    exists k :: 0 < k < |entries| && entries[k].PartEntry? && entries[k].slot == slot
  }

  /** The entries in stream order: the manifest, then every part in its round. */
  ghost predicate AreEntries(codec: Codec, catalog: Catalog, entries: seq<Entry>) {
    && entries != [] && entries[0] == Manifest(codec.encode(catalog))
    && (forall k :: 0 < k < |entries| ==> StandsFor(catalog, entries[k]))
    && (forall f: nat, n: nat, part :: PartAt(catalog, f, n, part) ==> HasSlot(entries, Slot(f, n)))
    && forall j, k :: 0 < j < k < |entries| ==> Before(entries[j], entries[k])
  }

  lemma EntryAfter(codec: Codec, catalog: Catalog, k: nat)
    requires k < |Interleaved(catalog.files)|
    ensures |Entries(codec, catalog)| == |Interleaved(catalog.files)| + 1
    ensures SlotOf(catalog.files, Interleaved(catalog.files)[k])
    ensures Entries(codec, catalog)[k + 1] == EntryOf(catalog.files, Interleaved(catalog.files)[k])
  {
    InterleavedSlots(catalog.files);
  }

  lemma EntriesAre(codec: Codec, catalog: Catalog)
    ensures AreEntries(codec, catalog, Entries(codec, catalog))
  {
    var entries, slots := Entries(codec, catalog), Interleaved(catalog.files);
    InterleavingIsRoundRobin(catalog.files, slots);
    forall k | 0 < k < |entries|
      ensures StandsFor(catalog, entries[k]) && entries[k].slot == slots[k - 1]
    {
      EntryAfter(codec, catalog, k - 1);
    }
    forall f: nat, n: nat, part | PartAt(catalog, f, n, part)
      ensures HasSlot(entries, Slot(f, n))
    {
      InterleavingIsAPermutation(catalog.files, Slot(f, n));
      var k :| 0 <= k < |slots| && slots[k] == Slot(f, n);
      EntryAfter(codec, catalog, k);
    }
  }

  /** No other list of entries is in this order. */
  lemma OnlyEntries(codec: Codec, catalog: Catalog, entries: seq<Entry>)
    requires AreEntries(codec, catalog, entries)
    ensures entries == Entries(codec, catalog)
  {
    var slots: seq<Slot> := seq(|entries| - 1, k requires 0 <= k < |entries| - 1 => SlotAfter(catalog, entries, k));
    forall i, j | 0 <= i < j < |slots|
      ensures slots[i].number < slots[j].number || (slots[i].number == slots[j].number && slots[i].file < slots[j].file)
    {
      assert Before(entries[i + 1], entries[j + 1]);
    }
    forall slot: Slot
      ensures slot in slots <==> slot.file < |catalog.files| && slot.number < |catalog.files[slot.file].parts|
    {
      HasThisSlot(codec, catalog, entries, slots, slot);
    }
    InterleavingIsRoundRobin(catalog.files, slots);
    assert slots == Interleaved(catalog.files);
    assert |Entries(codec, catalog)| == |slots| + 1;
    forall k | 0 < k < |entries|
      ensures entries[k] == Entries(codec, catalog)[k]
    {
      EntryAfter(codec, catalog, k - 1);
      assert StandsFor(catalog, entries[k]) && entries[k].slot == slots[k - 1];
    }
  }

  ghost function SlotAfter(catalog: Catalog, entries: seq<Entry>, k: nat): Slot
    requires k + 1 < |entries| && forall k :: 0 < k < |entries| ==> StandsFor(catalog, entries[k])
  {
    assert StandsFor(catalog, entries[k + 1]);
    entries[k + 1].slot
  }

  lemma HasThisSlot(codec: Codec, catalog: Catalog, entries: seq<Entry>, slots: seq<Slot>, slot: Slot)
    requires AreEntries(codec, catalog, entries) && |slots| == |entries| - 1
    requires forall k :: 0 <= k < |slots| ==> slots[k] == SlotAfter(catalog, entries, k)
    ensures slot in slots <==> slot.file < |catalog.files| && slot.number < |catalog.files[slot.file].parts|
  {
    if slot in slots {
      var k :| 0 <= k < |slots| && slots[k] == slot;
      assert StandsFor(catalog, entries[k + 1]);
    }
    if slot.file < |catalog.files| && slot.number < |catalog.files[slot.file].parts| {
      assert PartAt(catalog, slot.file, slot.number, catalog.files[slot.file].parts[slot.number]);
      assert HasSlot(entries, slot);
      var k :| 0 < k < |entries| && entries[k].PartEntry? && entries[k].slot == slot;
      assert slots[k - 1] == slot;
    }
  }

  /** A regular member of this name and size, its data filled up to a whole block. */
  ghost predicate MemberAt(codec: Codec, s: Bytes, name: string, size: nat, from: nat, next: nat) {
    && from + 512 + size <= next < from + 512 + size + 512 && (next - from) % 512 == 0 && next <= |s|
    && codec.parse(s[from..from + 512]) == Some(Member(name, size, true))
  }

  ghost function ContentAt(s: Bytes, from: nat, size: nat): Bytes
    requires from + 512 + size <= |s|
  {
    s[from + 512..from + 512 + size]
  }

  /** The entry's member stands here, with the manifest's own bytes or the part's hash. */
  ghost predicate EntryStands(codec: Codec, s: Bytes, entry: Entry, from: nat, next: nat) {
    match entry
    case Manifest(raw) =>
      MemberAt(codec, s, "manifest.json", |raw|, from, next) && ContentAt(s, from, |raw|) == raw
    case PartEntry(_, part) =>
      MemberAt(codec, s, part.name, part.bytes, from, next)
      && codec.sha(ContentAt(s, from, part.bytes)) == part.sha256
  }

  /** The members follow each other from the start of the stream; member k starts at at[k]. */
  ghost predicate Stand(codec: Codec, s: Bytes, entries: seq<Entry>, at: seq<nat>, count: nat) {
    && |at| == count + 1 <= |entries| + 1 && at[0] == 0
    && forall k :: 0 <= k < count ==> EntryStands(codec, s, entries[k], at[k], at[k + 1])
  }

  ghost predicate HasContents(s: Bytes, entries: seq<Entry>, at: seq<nat>, contents: seq<Bytes>) {
    && |contents| <= |at| && |contents| <= |entries|
    && forall k :: 0 <= k < |contents| ==>
         && at[k] + 512 + entries[k].Size() <= |s|
         && contents[k] == ContentAt(s, at[k], entries[k].Size())
  }

  lemma BlocksMean(size: nat, padded: nat)
    ensures padded == Blocks(size) <==> size <= padded < size + 512 && padded % 512 == 0
  {
  }

  lemma EntryReads(codec: Codec, s: Bytes, entry: Entry, u: Unpacked, next: nat)
    requires u.end <= |s|
    ensures ReadEntry(codec, s, entry, u).Some? && ReadEntry(codec, s, entry, u).value.end == next
       <==> EntryStands(codec, s, entry, u.end, next)
    ensures ReadEntry(codec, s, entry, u).Some? ==>
              && u.end + 512 + entry.Size() <= |s|
              && ReadEntry(codec, s, entry, u).value.contents == u.contents + [ContentAt(s, u.end, entry.Size())]
  {
    if next >= u.end + 512 { BlocksMean(entry.Size(), next - u.end - 512); }
    assert HEADER == 512;
  }

  lemma {:induction false} DemuxStands(codec: Codec, s: Bytes, entries: seq<Entry>, count: nat) returns (at: seq<nat>)
    requires count <= |entries| && Demux(codec, s, entries, count).Some?
    ensures Stand(codec, s, entries, at, count)
    ensures var u := Demux(codec, s, entries, count).value;
            u.end == at[count] && HasContents(s, entries, at, u.contents)
  {
    if count == 0 {
      at := [0];
    } else {
      var front := DemuxStands(codec, s, entries, count - 1);
      var before, u := Demux(codec, s, entries, count - 1).value, Demux(codec, s, entries, count).value;
      EntryReads(codec, s, entries[count - 1], before, u.end);
      at := front + [u.end];
      forall k | 0 <= k < count
        ensures EntryStands(codec, s, entries[k], at[k], at[k + 1])
      {
        if k < count - 1 { assert at[k] == front[k] && at[k + 1] == front[k + 1]; }
      }
    }
  }

  lemma {:induction false} StandsDemux(codec: Codec, s: Bytes, entries: seq<Entry>, at: seq<nat>, count: nat)
    requires count <= |entries| && count < |at| && at[0] == 0
    requires forall k :: 0 <= k < count ==> EntryStands(codec, s, entries[k], at[k], at[k + 1])
    ensures Demux(codec, s, entries, count).Some? && Demux(codec, s, entries, count).value.end == at[count]
    ensures HasContents(s, entries, at, Demux(codec, s, entries, count).value.contents)
  {
    if count > 0 {
      StandsDemux(codec, s, entries, at, count - 1);
      EntryReads(codec, s, entries[count - 1], Demux(codec, s, entries, count - 1).value, at[count]);
    }
  }

  /** Behind the members: one block that is no header, or none at all, and nothing but zeros after it. */
  ghost predicate EndsAt(codec: Codec, s: Bytes, end: nat) {
    && (end + 512 <= |s| ==> codec.parse(s[end..end + 512]) == None)
    && forall k :: end + 512 <= k < |s| ==> s[k] == 0
  }

  /** The stream holds every entry of the catalog, and the originals put together from them. */
  ghost predicate IsStream(codec: Codec, catalog: Catalog, s: Bytes, entries: seq<Entry>, at: seq<nat>,
                           contents: seq<Bytes>) {
    && AreEntries(codec, catalog, entries)
    && Stand(codec, s, entries, at, |entries|) && |contents| == |entries| && HasContents(s, entries, at, contents)
    && EndsAt(codec, s, at[|entries|]) && AreOriginals(codec, catalog, entries, contents)
  }

  /** What the members hold of an original is, in stream order, of its size and hash. */
  ghost predicate AreOriginals(codec: Codec, catalog: Catalog, entries: seq<Entry>, contents: seq<Bytes>)
    requires |contents| == |entries|
  {
    forall f :: 0 <= f < |catalog.files| ==>
      && |Gather(entries, contents, f)| == catalog.files[f].bytes
      && codec.sha(Gather(entries, contents, f)) == catalog.files[f].sha256
  }

  lemma TrailerMeans(codec: Codec, s: Bytes, end: nat)
    ensures CleanTrailer(codec, s, end) <==> EndsAt(codec, s, end)
  {
  }

  /** The members of the stream, told from the entries they are read by. */
  ghost predicate Delivers(codec: Codec, catalog: Catalog, s: Bytes, entries: seq<Entry>, r: Option<Unpacked>)
    requires r.Some? ==> |r.value.contents| == |entries|
  {
    r.Some? && CleanTrailer(codec, s, r.value.end)
    && forall f :: 0 <= f < |catalog.files| ==> OriginalMatches(codec, catalog, entries, r.value.contents, f)
  }

  lemma AcceptedDelivers(codec: Codec, catalog: Catalog, maximum: int, s: Bytes)
    ensures var entries := Entries(codec, catalog);
            Accepts(codec, catalog, maximum, s)
            <==> && Admitted(codec, catalog, maximum) && |s| == PhysicalSize(codec, catalog)
                 && Delivers(codec, catalog, s, entries, Demux(codec, s, entries, |entries|))
  {
  }

  lemma AcceptedMeans(codec: Codec, catalog: Catalog, maximum: int, s: Bytes, entries: seq<Entry>,
                      r: Option<Unpacked>)
    requires r.Some? ==> |r.value.contents| == |entries|
    ensures Delivers(codec, catalog, s, entries, r)
       <==> r.Some? && EndsAt(codec, s, r.value.end) && AreOriginals(codec, catalog, entries, r.value.contents)
  {
    if r.Some? {
      TrailerMeans(codec, s, r.value.end);
      forall f | 0 <= f < |catalog.files|
        ensures OriginalMatches(codec, catalog, entries, r.value.contents, f)
           <==> && |Gather(entries, r.value.contents, f)| == catalog.files[f].bytes
                && codec.sha(Gather(entries, r.value.contents, f)) == catalog.files[f].sha256
      {
      }
    }
  }

  lemma AcceptedStands(codec: Codec, catalog: Catalog, maximum: int, s: Bytes, entries: seq<Entry>)
    returns (at: seq<nat>, contents: seq<Bytes>)
    requires Accepts(codec, catalog, maximum, s) && entries == Entries(codec, catalog)
    ensures IsStream(codec, catalog, s, entries, at, contents)
  {
    EntriesAre(codec, catalog);
    AcceptedDelivers(codec, catalog, maximum, s);
    AcceptedMeans(codec, catalog, maximum, s, entries, Demux(codec, s, entries, |entries|));
    at := DemuxStands(codec, s, entries, |entries|);
    contents := Demux(codec, s, entries, |entries|).value.contents;
  }

  lemma SameContents(s: Bytes, entries: seq<Entry>, at: seq<nat>, a: seq<Bytes>, b: seq<Bytes>)
    requires HasContents(s, entries, at, a) && HasContents(s, entries, at, b) && |a| == |b|
    ensures a == b
  {
  }

  lemma StandsAccepted(codec: Codec, catalog: Catalog, maximum: int, s: Bytes, entries: seq<Entry>, at: seq<nat>,
                       contents: seq<Bytes>)
    requires IsStream(codec, catalog, s, entries, at, contents)
    requires Admitted(codec, catalog, maximum) && |s| == PhysicalSize(codec, catalog)
    ensures Accepts(codec, catalog, maximum, s)
  {
    OnlyEntries(codec, catalog, entries);
    StandsDemux(codec, s, entries, at, |entries|);
    SameContents(s, entries, at, Demux(codec, s, entries, |entries|).value.contents, contents);
    AcceptedDelivers(codec, catalog, maximum, s);
    AcceptedMeans(codec, catalog, maximum, s, entries, Demux(codec, s, entries, |entries|));
  }

  /** A stream is accepted exactly if it stands like this: catalog, length, members, trailer and originals. */
  lemma StreamIsAcceptedExactly(codec: Codec, catalog: Catalog, maximum: int, s: Bytes)
    ensures Accepts(codec, catalog, maximum, s)
       <==> && IsCatalog(catalog) && TotalBytes(catalog.files) <= maximum && |codec.encode(catalog)| <= 4194304
            && |s| == PhysicalSize(codec, catalog)
            && exists entries, at, contents :: IsStream(codec, catalog, s, entries, at, contents)
  {
    CatalogIsAdmittedExactly(codec.encode(catalog), catalog, maximum);
    if Accepts(codec, catalog, maximum, s) {
      var at, contents := AcceptedStands(codec, catalog, maximum, s, Entries(codec, catalog));
    }
    if entries, at, contents :| IsStream(codec, catalog, s, entries, at, contents) {
      if Admitted(codec, catalog, maximum) && |s| == PhysicalSize(codec, catalog) {
        StandsAccepted(codec, catalog, maximum, s, entries, at, contents);
      }
    }
  }
}
