/** The recovery catalog: admission, chunk geometry and the round-robin order of parts. */
module RecoveryCatalog {
  import opened Common

  const BLOCK := 1024 * 1024
  const MAX_MANIFEST := 4 * BLOCK
  const MAX_CHUNK := 256 * BLOCK
  const MAX_PARTS := 10000

  // integer() fields are natural numbers by type; the JSON shape of a catalog is not modelled
  datatype Part = Part(name: string, bytes: nat, sha256: string)

  datatype Original = Original(name: string, bytes: nat, sha256: string, parts: seq<Part>)

  datatype Catalog = Catalog(schema: int, chunkBytes: int, files: seq<Original>)

  /** One part of the stream: which original it belongs to, and its number there. */
  datatype Slot = Slot(file: nat, number: nat)

  // ----- admission ---------------------------------------------------------------------

  function ZeroPad(s: string, width: nat): string
    decreases width - |s|
  {
    if |s| >= width then s else ZeroPad(['0'] + s, width)
  }

  function PartName(original: string, number: nat): string {
    "parts/" + original + "/" + ZeroPad(Digits(number), 6) + ".part"
  }

  predicate ValidName(name: string) {
    && 1 <= |name| <= 32
    && 'a' <= name[0] <= 'z'
    && forall i :: 0 <= i < |name| ==>
                     'a' <= name[i] <= 'z' || '0' <= name[i] <= '9' || name[i] == '_' || name[i] == '-'
  }

  predicate ValidSha(sha: string) {
    |sha| == 64 && forall i :: 0 <= i < 64 ==> '0' <= sha[i] <= '9' || 'a' <= sha[i] <= 'f'
  }

  function PartCount(bytes: nat, chunk: nat): nat
    requires chunk > 0
  {
    (bytes + chunk - 1) / chunk
  }

  function PartBytes(bytes: nat, chunk: nat, number: nat): int {
    Min(chunk, bytes - number * chunk)
  }

  predicate CheckedOriginal(original: Original, chunk: nat)
    requires chunk > 0
  {
    && ValidName(original.name)
    && ValidSha(original.sha256)
    && |original.parts| == PartCount(original.bytes, chunk)
    && |original.parts| <= MAX_PARTS
    && forall n :: 0 <= n < |original.parts| ==>
                     && original.parts[n].name == PartName(original.name, n)
                     && original.parts[n].bytes == PartBytes(original.bytes, chunk, n)
                     && ValidSha(original.parts[n].sha256)
  }

  function TotalBytes(files: seq<Original>): nat {
    if files == [] then 0 else files[0].bytes + TotalBytes(files[1..])
  }

  /** What check_catalog accepts; encoded is the canonical JSON text of the catalog. */
  predicate CheckCatalog(encoded: Bytes, catalog: Catalog, maximum: int) {
    && catalog.schema == 1
    && 0 < catalog.chunkBytes <= MAX_CHUNK
    && 0 < |catalog.files| <= 64
    && (forall i :: 0 <= i < |catalog.files| ==> CheckedOriginal(catalog.files[i], catalog.chunkBytes))
    && (forall i, j :: 0 <= i < j < |catalog.files| ==> catalog.files[i].name != catalog.files[j].name)
    && TotalBytes(catalog.files) <= maximum
    && |encoded| <= MAX_MANIFEST
  }

  // ----- chunk geometry ----------------------------------------------------------------

  /** Every part but the last is full, and the last one is not empty. */
  lemma PartStartsInside(bytes: nat, chunk: nat, n: nat)
    requires chunk > 0
    requires n < PartCount(bytes, chunk)
    ensures n * chunk < bytes
    ensures 0 < PartBytes(bytes, chunk, n) <= chunk
  {
    var count := PartCount(bytes, chunk);
    assert count * chunk <= bytes + chunk - 1;
    assert (n + 1) * chunk <= count * chunk;
    assert (n + 1) * chunk == n * chunk + chunk;
  }

  lemma PartsReachTheEnd(bytes: nat, chunk: nat)
    requires chunk > 0
    ensures PartCount(bytes, chunk) * chunk >= bytes
  {
    var total := bytes + chunk - 1;
    assert total == total / chunk * chunk + total % chunk;
  }

  function SumParts(parts: seq<Part>, count: nat): int
    requires count <= |parts|
  {
    if count == 0 then 0 else SumParts(parts, count - 1) + parts[count - 1].bytes
  }

  lemma {:induction false} PartialTelescope(original: Original, chunk: nat, n: nat)
    requires chunk > 0
    requires CheckedOriginal(original, chunk)
    requires n <= |original.parts|
    ensures SumParts(original.parts, n) == Min(n * chunk, original.bytes)
  {
    if n > 0 {
      PartialTelescope(original, chunk, n - 1);
      PartStartsInside(original.bytes, chunk, n - 1);
      assert n * chunk == (n - 1) * chunk + chunk;
    }
  }

  /** The chunk sizes of an admitted original add up to exactly its size. */
  lemma ChunksTelescope(original: Original, chunk: nat)
    requires chunk > 0
    requires CheckedOriginal(original, chunk)
    ensures SumParts(original.parts, |original.parts|) == original.bytes
  {
    PartialTelescope(original, chunk, |original.parts|);
    PartsReachTheEnd(original.bytes, chunk);
  }

  // ----- interleaving ------------------------------------------------------------------

  function MaxParts(files: seq<Original>): nat {
    if files == [] then 0
    else
      var rest := MaxParts(files[1..]);
      if |files[0].parts| > rest then |files[0].parts| else rest
  }

  /** One turn over the originals from index `from`, each giving its part `number` if it has one. */
  function Round(files: seq<Original>, number: nat, from: nat): seq<Slot>
    requires from <= |files|
    decreases |files| - from
  {
    if from == |files| then []
    else
      (if number < |files[from].parts| then [Slot(from, number)] else []) + Round(files, number, from + 1)
  }

  function Rounds(files: seq<Original>, number: nat, total: nat): seq<Slot>
    decreases total - number
  {
    if number >= total then [] else Round(files, number, 0) + Rounds(files, number + 1, total)
  }

  function Interleaved(files: seq<Original>): seq<Slot> {
    Rounds(files, 0, MaxParts(files))
  }

  predicate SlotOf(files: seq<Original>, slot: Slot) {
    slot.file < |files| && slot.number < |files[slot.file].parts|
  }

  /** The part numbers of one original, in stream order. */
  function Project(slots: seq<Slot>, file: nat): seq<nat> {
    if slots == [] then []
    else (if slots[0].file == file then [slots[0].number] else []) + Project(slots[1..], file)
  }

  function Range(lo: nat, hi: nat): seq<nat>
    decreases hi - lo
  {
    if lo >= hi then [] else [lo] + Range(lo + 1, hi)
  }

  lemma {:induction false} ProjectConcat(a: seq<Slot>, b: seq<Slot>, file: nat)
    ensures Project(a + b, file) == Project(a, file) + Project(b, file)
  {
    if a == [] {
      assert a + b == b;
    } else {
      var head := if a[0].file == file then [a[0].number] else [];
      assert (a + b)[0] == a[0] && (a + b)[1..] == a[1..] + b;
      ProjectConcat(a[1..], b, file);
      assert Project(a + b, file) == head + Project(a[1..] + b, file);
    }
  }

  lemma {:induction false} ProjectRound(files: seq<Original>, number: nat, from: nat, file: nat)
    requires from <= |files|
    ensures Project(Round(files, number, from), file)
         == if from <= file < |files| && number < |files[file].parts| then [number] else []
    decreases |files| - from
  {
    if from < |files| {
      var head := if number < |files[from].parts| then [Slot(from, number)] else [];
      ProjectConcat(head, Round(files, number, from + 1), file);
      ProjectRound(files, number, from + 1, file);
    }
  }

  lemma {:induction false} ProjectRounds(files: seq<Original>, number: nat, total: nat, file: nat)
    requires file < |files| && |files[file].parts| <= total
    ensures Project(Rounds(files, number, total), file) == Range(number, |files[file].parts|)
    decreases total - number
  {
    if number < total {
      ProjectConcat(Round(files, number, 0), Rounds(files, number + 1, total), file);
      ProjectRound(files, number, 0, file);
      ProjectRounds(files, number + 1, total, file);
    }
  }

  lemma {:induction false} MaxPartsIsUpperBound(files: seq<Original>, file: nat)
    requires file < |files|
    ensures |files[file].parts| <= MaxParts(files)
  {
    if file > 0 {
      MaxPartsIsUpperBound(files[1..], file - 1);
    }
  }

  /** Interleaving keeps every original's own part order and loses none of its parts. */
  lemma InterleavingKeepsOwnOrder(files: seq<Original>, file: nat)
    requires file < |files|
    ensures Project(Interleaved(files), file) == Range(0, |files[file].parts|)
  {
    MaxPartsIsUpperBound(files, file);
    ProjectRounds(files, 0, MaxParts(files), file);
  }

  lemma {:induction false} SlotsOfRound(files: seq<Original>, number: nat, from: nat)
    requires from <= |files|
    ensures forall slot :: slot in Round(files, number, from) ==> SlotOf(files, slot)
    decreases |files| - from
  {
    if from < |files| {
      SlotsOfRound(files, number, from + 1);
    }
  }

  lemma {:induction false} SlotsOfRounds(files: seq<Original>, number: nat, total: nat)
    ensures forall slot :: slot in Rounds(files, number, total) ==> SlotOf(files, slot)
    decreases total - number
  {
    if number < total {
      SlotsOfRound(files, number, 0);
      SlotsOfRounds(files, number + 1, total);
    }
  }

  lemma InterleavedSlots(files: seq<Original>)
    ensures forall i :: 0 <= i < |Interleaved(files)| ==> SlotOf(files, Interleaved(files)[i])
  {
    SlotsOfRounds(files, 0, MaxParts(files));
    assert forall i :: 0 <= i < |Interleaved(files)| ==> Interleaved(files)[i] in Interleaved(files);
  }

  lemma {:induction false} ProjectCounts(slots: seq<Slot>, slot: Slot)
    ensures multiset(slots)[slot] == multiset(Project(slots, slot.file))[slot.number]
  {
    if slots != [] {
      var head := if slots[0].file == slot.file then [slots[0].number] else [];
      assert slots == [slots[0]] + slots[1..];
      assert Project(slots, slot.file) == head + Project(slots[1..], slot.file);
      ProjectCounts(slots[1..], slot);
    }
  }

  lemma {:induction false} RangeCounts(lo: nat, hi: nat, n: nat)
    ensures multiset(Range(lo, hi))[n] == if lo <= n < hi then 1 else 0
    decreases hi - lo
  {
    if lo < hi {
      RangeCounts(lo + 1, hi, n);
    }
  }

  /** The interleaved order is a permutation of all parts: each one occurs exactly once. */
  lemma InterleavingIsAPermutation(files: seq<Original>, slot: Slot)
    ensures multiset(Interleaved(files))[slot] == if SlotOf(files, slot) then 1 else 0
  {
    SlotsOfRounds(files, 0, MaxParts(files));
    if slot.file < |files| {
      ProjectCounts(Interleaved(files), slot);
      InterleavingKeepsOwnOrder(files, slot.file);
      RangeCounts(0, |files[slot.file].parts|, slot.number);
    }
  }

  /** Part numbers come first, and within one number the originals in their catalogued order. */
  ghost predicate InRounds(slots: seq<Slot>) {
    forall i, j :: 0 <= i < j < |slots| ==>
                     || slots[i].number < slots[j].number
                     || (slots[i].number == slots[j].number && slots[i].file < slots[j].file)
  }

  lemma {:induction false} RoundInOrder(files: seq<Original>, number: nat, from: nat)
    requires from <= |files|
    ensures InRounds(Round(files, number, from))
    ensures forall i :: 0 <= i < |Round(files, number, from)| ==>
              Round(files, number, from)[i].number == number && Round(files, number, from)[i].file >= from
    decreases |files| - from
  {
    if from < |files| { RoundInOrder(files, number, from + 1); }
  }

  lemma {:induction false} RoundsInOrder(files: seq<Original>, number: nat, total: nat)
    ensures InRounds(Rounds(files, number, total))
    ensures forall i :: 0 <= i < |Rounds(files, number, total)| ==> Rounds(files, number, total)[i].number >= number
    decreases total - number
  {
    if number < total {
      RoundInOrder(files, number, 0);
      RoundsInOrder(files, number + 1, total);
    }
  }

  lemma {:induction false} OneSuchOrder(a: seq<Slot>, b: seq<Slot>)
    requires InRounds(a) && InRounds(b) && forall slot :: slot in a <==> slot in b
    ensures a == b
  {
    assert b == [] || b[0] in a;
    if a != [] {
      assert a[0] in b;
      var i :| 0 <= i < |b| && b[i] == a[0];
      var j :| 0 <= j < |a| && a[j] == b[0];
      assert a[0] == b[0];
      forall slot
        ensures slot in a[1..] <==> slot in b[1..]
      {
        assert slot in a <==> slot == a[0] || slot in a[1..];
        assert slot in b <==> slot == b[0] || slot in b[1..];
      }
      OneSuchOrder(a[1..], b[1..]);
    }
  }

  /**
   * The stream order is round robin: parts of a smaller number come first, and parts of one number in the order of
   * their originals. Only one list of exactly the existing parts is in this order.
   */
  lemma InterleavingIsRoundRobin(files: seq<Original>, slots: seq<Slot>)
    ensures forall i, j :: 0 <= i < j < |Interleaved(files)| ==>
              var a, b := Interleaved(files)[i], Interleaved(files)[j];
              a.number < b.number || (a.number == b.number && a.file < b.file)
    ensures slots == Interleaved(files)
       <==> InRounds(slots) && forall slot: Slot ::
              slot in slots <==> slot.file < |files| && slot.number < |files[slot.file].parts|
  {
    var all := Interleaved(files);
    RoundsInOrder(files, 0, MaxParts(files));
    forall slot: Slot
      ensures slot in all <==> slot.file < |files| && slot.number < |files[slot.file].parts|
    {
      InterleavingIsAPermutation(files, slot);
      assert slot in multiset(all) <==> slot in all;
    }
    if InRounds(slots) && forall slot: Slot ::
         slot in slots <==> slot.file < |files| && slot.number < |files[slot.file].parts| {
      OneSuchOrder(slots, all);
    }
  }

  // ----- part names --------------------------------------------------------------------

  /** The number that a string of digits stands for. */
  function Value(s: string): int {
    if s == [] then 0 else 10 * Value(s[..|s| - 1]) + (s[|s| - 1] as int - '0' as int)
  }

  lemma {:induction false} ValueOfDigits(n: nat)
    ensures Value(Digits(n)) == n
  {
    if n >= 10 {
      ValueOfDigits(n / 10);
      assert Digits(n)[..|Digits(n)| - 1] == Digits(n / 10);
    } else {
      assert Digits(n)[..0] == [];
    }
  }

  lemma {:induction false} ValueOfPadded(s: string)
    ensures Value(['0'] + s) == Value(s)
  {
    var padded := ['0'] + s;
    if s == [] {
      assert padded[..0] == [];
    } else {
      ValueOfPadded(s[..|s| - 1]);
      assert padded[..|padded| - 1] == ['0'] + s[..|s| - 1];
    }
  }

  lemma {:induction false} ValueOfZeroPad(s: string, width: nat)
    ensures Value(ZeroPad(s, width)) == Value(s)
    decreases width - |s|
  {
    if |s| < width {
      ValueOfZeroPad(['0'] + s, width);
      ValueOfPadded(s);
    }
  }

  /** Two texts that agree up to a first slash agree before and behind it. */
  lemma SplitAtSlash(a: string, x: string, b: string, y: string)
    requires a + "/" + x == b + "/" + y && '/' !in a && '/' !in b
    ensures a == b && x == y
  {
    var whole := a + "/" + x;
    assert whole[|a|] == '/' && whole[|b|] == '/';
    assert forall i :: 0 <= i < |a| ==> whole[i] == a[i];
    assert forall i :: 0 <= i < |b| ==> whole[i] == b[i];
    assert |a| == |b|;
    assert a == whole[..|a|] && b == whole[..|b|];
    assert x == whole[|a| + 1..] && y == whole[|b| + 1..];
  }

  lemma PartNameShape(name: string, n: nat)
    ensures PartName(name, n) == "parts/" + (name + "/" + (ZeroPad(Digits(n), 6) + ".part"))
  {
  }

  /** Different parts have different names, whatever their numbers. */
  lemma PartNamesDiffer(a: string, n: nat, b: string, m: nat)
    requires PartName(a, n) == PartName(b, m) && '/' !in a && '/' !in b
    ensures a == b && n == m
  {
    PartNameShape(a, n);
    PartNameShape(b, m);
    var x, y := ZeroPad(Digits(n), 6) + ".part", ZeroPad(Digits(m), 6) + ".part";
    assert a + "/" + x == PartName(a, n)[6..] && b + "/" + y == PartName(b, m)[6..];
    SplitAtSlash(a, x, b, y);
    assert ZeroPad(Digits(n), 6) == x[..|x| - 5] && ZeroPad(Digits(m), 6) == y[..|y| - 5];
    ValueOfZeroPad(Digits(n), 6);
    ValueOfZeroPad(Digits(m), 6);
    ValueOfDigits(n);
    ValueOfDigits(m);
  }
}
