/** Which inputs can be prepared, and the catalog they give, said by names, sizes, hashes and ranges of bytes. */
module PrepareMeaning {
  import opened Common
  import opened RecoveryCatalog
  import opened RecoveryFraming
  import opened RecoveryPrepare
  import opened StreamContents

  /** The bytes of part n: a chunk, or what is left of the file. */
  ghost function RangeOf(content: Bytes, chunk: nat, n: nat): Bytes {
    if n * chunk > |content| then []
    else if n * chunk + chunk <= |content| then content[n * chunk..n * chunk + chunk]
    else content[n * chunk..]
  }

  /** How many chunks a file of this size begins. */
  ghost predicate Begins(bytes: nat, chunk: nat, count: nat) {
    if bytes == 0 then count == 0 else count > 0 && (count - 1) * chunk < bytes <= (count - 1) * chunk + chunk
  }

  lemma CountBegins(bytes: nat, chunk: nat, count: nat)
    requires chunk > 0
    ensures count == PartCount(bytes, chunk) <==> Begins(bytes, chunk, count)
  {
    CountIsBegun(bytes, chunk);
    if Begins(bytes, chunk, count) {
      if bytes == 0 {
        Quotient(0, chunk - 1, chunk - 1, chunk);
      } else {
        var last := bytes - (count - 1) * chunk;
        assert count * chunk == (count - 1) * chunk + chunk;
        Quotient(count, last - 1, bytes + chunk - 1, chunk);
      }
    }
  }

  lemma CountIsBegun(bytes: nat, chunk: nat)
    requires chunk > 0
    ensures Begins(bytes, chunk, PartCount(bytes, chunk))
  {
    var count := PartCount(bytes, chunk);
    if bytes == 0 {
      Quotient(0, chunk - 1, chunk - 1, chunk);
    } else {
      PartsReachTheEnd(bytes, chunk);
      assert count > 0;
      PartStartsInside(bytes, chunk, count - 1);
      assert count * chunk == (count - 1) * chunk + chunk;
    }
  }

  lemma ChunkMeans(content: Bytes, chunk: nat, n: nat)
    requires chunk > 0 && n < PartCount(|content|, chunk)
    ensures Chunk(content, chunk, n) == RangeOf(content, chunk, n)
  {
    PartStartsInside(|content|, chunk, n);
  }

  // ----- the catalog -------------------------------------------------------------------

  /** The catalog entry of an input, its parts told by their names, sizes and hashes. */
  ghost predicate Catalogues(codec: Codec, source: Source, chunk: nat, original: Original) {
    && original.name == source.name && original.bytes == source.bytes && original.sha256 == source.sha256
    && Begins(source.bytes, chunk, |original.parts|)
    && forall n :: 0 <= n < |original.parts| ==>
         && original.parts[n].name == PartName(source.name, n)
         && original.parts[n].bytes == |RangeOf(source.content, chunk, n)|
         && original.parts[n].sha256 == codec.sha(RangeOf(source.content, chunk, n))
  }

  lemma HashedCatalogues(codec: Codec, source: Source, chunk: nat)
    requires chunk > 0 && |source.content| == source.bytes
    ensures Catalogues(codec, source, chunk, Hashed(codec, source, chunk))
  {
    var original := Hashed(codec, source, chunk);
    CountBegins(source.bytes, chunk, |original.parts|);
    forall n | 0 <= n < |original.parts|
      ensures original.parts[n].bytes == |RangeOf(source.content, chunk, n)|
      ensures original.parts[n].sha256 == codec.sha(RangeOf(source.content, chunk, n))
    {
      ChunkMeans(source.content, chunk, n);
    }
  }

  /** The catalog of prepared inputs: one entry for each, in their order. */
  lemma CatalogIs(codec: Codec, inputs: seq<Source>, chunk: nat)
    requires chunk > 0 && AllIntact(codec, inputs)
    ensures var catalog := HashedCatalog(codec, inputs, chunk);
            && catalog.schema == 1 && catalog.chunkBytes == chunk && |catalog.files| == |inputs|
            && forall i :: 0 <= i < |inputs| ==> Catalogues(codec, inputs[i], chunk, catalog.files[i])
  {
    forall i | 0 <= i < |inputs|
      ensures Catalogues(codec, inputs[i], chunk, HashedCatalog(codec, inputs, chunk).files[i])
    {
      assert Intact(codec, inputs[i]);
      HashedCatalogues(codec, inputs[i], chunk);
    }
  }

  /** The catalog that is planned before anything is read: the same names and sizes, and hashes of zeros. */
  lemma PlanIs(inputs: seq<Source>, chunk: nat, i: nat, n: nat)
    requires chunk > 0 && i < |inputs| && n * chunk < inputs[i].bytes
    ensures var original := PlannedCatalog(inputs, chunk).files[i];
            && original.name == inputs[i].name && original.bytes == inputs[i].bytes
            && original.sha256 == inputs[i].sha256
            && Begins(inputs[i].bytes, chunk, |original.parts|) && n < |original.parts|
            && original.parts[n].name == PartName(inputs[i].name, n)
            && original.parts[n].bytes == Min(chunk, inputs[i].bytes - n * chunk)
            && |original.parts[n].sha256| == 64 && forall k :: 0 <= k < 64 ==> original.parts[n].sha256[k] == '0'
  {
    CountIsBegun(inputs[i].bytes, chunk);
    NumbersInside(inputs[i].bytes, chunk, n);
  }

  // ----- the inputs --------------------------------------------------------------------

  function SumOf(numbers: seq<nat>): nat {
    if numbers == [] then 0 else SumOf(numbers[..|numbers| - 1]) + numbers[|numbers| - 1]
  }

  lemma {:induction false} SumFirst(n: nat, rest: seq<nat>)
    ensures SumOf([n] + rest) == n + SumOf(rest)
  {
    var all := [n] + rest;
    if rest == [] {
      assert all[..0] == [];
    } else {
      SumFirst(n, rest[..|rest| - 1]);
      assert all[..|all| - 1] == [n] + rest[..|rest| - 1];
    }
  }

  lemma {:induction false} TotalIsSum(files: seq<Original>, numbers: seq<nat>)
    requires |numbers| == |files| && forall i :: 0 <= i < |files| ==> numbers[i] == files[i].bytes
    ensures TotalBytes(files) == SumOf(numbers)
  {
    if files != [] {
      TotalIsSum(files[1..], numbers[1..]);
      SumFirst(numbers[0], numbers[1..]);
      assert numbers == [numbers[0]] + numbers[1..];
    }
  }

  lemma {:induction false} PlannedIsSum(inputs: seq<Source>, chunk: nat, numbers: seq<nat>)
    requires chunk > 0 && |numbers| == |inputs|
    requires forall i :: 0 <= i < |inputs| ==> Begins(inputs[i].bytes, chunk, numbers[i])
    ensures TotalPlanned(inputs, chunk) == SumOf(numbers)
  {
    if inputs != [] {
      CountBegins(inputs[0].bytes, chunk, numbers[0]);
      PlannedIsSum(inputs[1..], chunk, numbers[1..]);
      SumFirst(numbers[0], numbers[1..]);
      assert numbers == [numbers[0]] + numbers[1..];
    }
  }

  function Sizes(inputs: seq<Source>): seq<nat> {
    seq(|inputs|, i requires 0 <= i < |inputs| => inputs[i].bytes)
  }

  /** How many parts each input has. */
  ghost predicate Counts(inputs: seq<Source>, chunk: nat, counts: seq<nat>) {
    |counts| == |inputs| && forall i :: 0 <= i < |inputs| ==> Begins(inputs[i].bytes, chunk, counts[i])
  }

  /** The input names itself, its size and its hash rightly, and so are the hashes of its parts. */
  ghost predicate IsInput(codec: Codec, source: Source, chunk: nat) {
    && IsName(source.name) && IsHash(source.sha256)
    && |source.content| == source.bytes && codec.sha(source.content) == source.sha256
    && forall n: nat :: n * chunk < source.bytes ==> IsHash(codec.sha(RangeOf(source.content, chunk, n)))
  }

  ghost predicate NamesDiffer(inputs: seq<Source>) {
    forall i, j :: 0 <= i < j < |inputs| ==> inputs[i].name != inputs[j].name
  }

  ghost predicate AllInputs(codec: Codec, inputs: seq<Source>, chunk: nat) {
    && (forall i :: 0 <= i < |inputs| ==> IsInput(codec, inputs[i], chunk))
    && NamesDiffer(inputs)
  }

  lemma HashMeans(hash: string)
    ensures ValidSha(hash) <==> IsHash(hash)
  {
  }

  lemma NumbersInside(bytes: nat, chunk: nat, n: nat)
    requires chunk > 0
    ensures n < PartCount(bytes, chunk) <==> n * chunk < bytes
  {
    var count := PartCount(bytes, chunk);
    PartsReachTheEnd(bytes, chunk);
    if n < count {
      PartStartsInside(bytes, chunk, n);
    } else if count < n {
      FurtherOn(count, n, chunk);
    }
  }

  lemma PlannedIsChecked(source: Source, chunk: nat)
    requires chunk > 0 && PartCount(source.bytes, chunk) <= MAX_PARTS
    ensures CheckedOriginal(Planned(source, chunk), chunk) <==> IsName(source.name) && IsHash(source.sha256)
  {
    HashMeans(source.sha256);
    assert ValidSha(ZeroSha());
  }

  lemma HashedIsChecked(codec: Codec, source: Source, chunk: nat)
    requires chunk > 0 && PartCount(source.bytes, chunk) <= MAX_PARTS && Intact(codec, source)
    ensures CheckedOriginal(Hashed(codec, source, chunk), chunk) <==> IsInput(codec, source, chunk)
  {
    HashMeans(source.sha256);
    var original := Hashed(codec, source, chunk);
    forall n: nat | n * chunk < source.bytes
      ensures n < |original.parts| && original.parts[n].sha256 == codec.sha(RangeOf(source.content, chunk, n))
      ensures original.parts[n].bytes == PartBytes(source.bytes, chunk, n)
    {
      NumbersInside(source.bytes, chunk, n);
      ChunkMeans(source.content, chunk, n);
      PartStartsInside(source.bytes, chunk, n);
    }
    forall n | 0 <= n < |original.parts|
      ensures n * chunk < source.bytes
    {
      NumbersInside(source.bytes, chunk, n);
    }
  }

  lemma {:induction false} EachIsPlanned(inputs: seq<Source>, chunk: nat, i: nat)
    requires chunk > 0 && i < |inputs|
    ensures PartCount(inputs[i].bytes, chunk) <= TotalPlanned(inputs, chunk)
  {
    if i > 0 { EachIsPlanned(inputs[1..], chunk, i - 1); }
  }

  /** The names differ, and each input can be catalogued with its hashes. */
  ghost predicate Cataloguable(codec: Codec, inputs: seq<Source>, chunk: nat)
    requires chunk > 0
  {
    && AllIntact(codec, inputs)
    && (forall i :: 0 <= i < |inputs| ==> CheckedOriginal(Planned(inputs[i], chunk), chunk)
                                          && CheckedOriginal(Hashed(codec, inputs[i], chunk), chunk))
    && NamesDiffer(inputs)
  }

  lemma CataloguableMeans(codec: Codec, inputs: seq<Source>, chunk: nat)
    requires chunk > 0 && TotalPlanned(inputs, chunk) <= MAX_PARTS
    ensures Cataloguable(codec, inputs, chunk) <==> AllInputs(codec, inputs, chunk)
  {
    forall i | 0 <= i < |inputs|
      ensures PartCount(inputs[i].bytes, chunk) <= MAX_PARTS
      ensures CheckedOriginal(Planned(inputs[i], chunk), chunk) <==> IsName(inputs[i].name) && IsHash(inputs[i].sha256)
      ensures Intact(codec, inputs[i]) ==>
                (CheckedOriginal(Hashed(codec, inputs[i], chunk), chunk) <==> IsInput(codec, inputs[i], chunk))
    {
      EachIsPlanned(inputs, chunk, i);
      PlannedIsChecked(inputs[i], chunk);
      if Intact(codec, inputs[i]) { HashedIsChecked(codec, inputs[i], chunk); }
    }
  }

  lemma AdmittedMeans(codec: Codec, inputs: seq<Source>, chunk: nat, maximum: int, files: seq<Original>)
    requires 0 < |inputs| <= 64 && 0 < chunk <= MAX_CHUNK && |files| == |inputs|
    requires forall i :: 0 <= i < |files| ==> files[i].name == inputs[i].name && files[i].bytes == inputs[i].bytes
    ensures Admitted(codec, Catalog(1, chunk, files), maximum)
       <==> && (forall i :: 0 <= i < |files| ==> CheckedOriginal(files[i], chunk))
            && NamesDiffer(inputs)
            && SumOf(Sizes(inputs)) <= maximum && |codec.encode(Catalog(1, chunk, files))| <= 4194304
  {
    TotalIsSum(files, Sizes(inputs));
    if NamesDiffer(inputs) {
      forall i, j | 0 <= i < j < |files|
        ensures files[i].name != files[j].name
      {
        assert inputs[i].name != inputs[j].name;
      }
    }
    if forall i, j :: 0 <= i < j < |files| ==> files[i].name != files[j].name {
      forall i, j | 0 <= i < j < |inputs|
        ensures inputs[i].name != inputs[j].name
      {
        assert files[i].name != files[j].name;
      }
    }
  }

  lemma PlannedAdmitted(codec: Codec, inputs: seq<Source>, chunk: nat, maximum: int)
    requires 0 < |inputs| <= 64 && 0 < chunk <= MAX_CHUNK
    ensures Admitted(codec, PlannedCatalog(inputs, chunk), maximum)
       <==> && (forall i :: 0 <= i < |inputs| ==> CheckedOriginal(Planned(inputs[i], chunk), chunk))
            && NamesDiffer(inputs) && SumOf(Sizes(inputs)) <= maximum
            && |codec.encode(PlannedCatalog(inputs, chunk))| <= 4194304
  {
    var files := PlannedCatalog(inputs, chunk).files;
    assert forall i :: 0 <= i < |inputs| ==> files[i] == Planned(inputs[i], chunk);
    AdmittedMeans(codec, inputs, chunk, maximum, files);
  }

  lemma HashedAdmitted(codec: Codec, inputs: seq<Source>, chunk: nat, maximum: int)
    requires 0 < |inputs| <= 64 && 0 < chunk <= MAX_CHUNK && AllIntact(codec, inputs)
    ensures Admitted(codec, HashedCatalog(codec, inputs, chunk), maximum)
       <==> && (forall i :: 0 <= i < |inputs| ==> CheckedOriginal(Hashed(codec, inputs[i], chunk), chunk))
            && NamesDiffer(inputs) && SumOf(Sizes(inputs)) <= maximum
            && |codec.encode(HashedCatalog(codec, inputs, chunk))| <= 4194304
  {
    var files := HashedCatalog(codec, inputs, chunk).files;
    assert forall i :: 0 <= i < |inputs| ==> files[i] == Hashed(codec, inputs[i], chunk);
    AdmittedMeans(codec, inputs, chunk, maximum, files);
  }

  lemma BothAdmitted(codec: Codec, inputs: seq<Source>, chunk: nat, maximum: int)
    requires 0 < |inputs| <= 64 && 0 < chunk <= MAX_CHUNK && AllIntact(codec, inputs)
    ensures Admitted(codec, PlannedCatalog(inputs, chunk), maximum)
            && Admitted(codec, HashedCatalog(codec, inputs, chunk), maximum)
       <==> && Cataloguable(codec, inputs, chunk) && SumOf(Sizes(inputs)) <= maximum
            && |codec.encode(PlannedCatalog(inputs, chunk))| <= 4194304
            && |codec.encode(HashedCatalog(codec, inputs, chunk))| <= 4194304
  {
    PlannedAdmitted(codec, inputs, chunk, maximum);
    HashedAdmitted(codec, inputs, chunk, maximum);
  }

  /** No more than 10000 parts are planned in all. */
  ghost predicate FewParts(inputs: seq<Source>, chunk: nat) {
    exists counts :: Counts(inputs, chunk, counts) && SumOf(counts) <= 10000
  }

  lemma FewPartsMeans(inputs: seq<Source>, chunk: nat)
    requires chunk > 0
    ensures TotalPlanned(inputs, chunk) <= MAX_PARTS <==> FewParts(inputs, chunk)
  {
    var counts: seq<nat> := seq(|inputs|, i requires 0 <= i < |inputs| => PartCount(inputs[i].bytes, chunk));
    forall i | 0 <= i < |inputs|
      ensures Begins(inputs[i].bytes, chunk, counts[i])
    {
      CountIsBegun(inputs[i].bytes, chunk);
    }
    PlannedIsSum(inputs, chunk, counts);
    assert Counts(inputs, chunk, counts);
    if other :| Counts(inputs, chunk, other) && SumOf(other) <= 10000 {
      PlannedIsSum(inputs, chunk, other);
    }
  }

  /**
   * Inputs can be prepared exactly if there are 1 to 64 of them with chunks of up to 256 MiB, at most 10000 parts and
   * no more bytes than the maximum, each naming its size and hash rightly, and manifests of at most 4 MiB.
   */
  lemma PreparableExactly(codec: Codec, inputs: seq<Source>, chunk: int, maximum: int)
    ensures Preparable(codec, inputs, chunk, maximum)
       <==> && 0 < |inputs| <= 64 && 0 < chunk <= 268435456 && FewParts(inputs, chunk)
            && AllInputs(codec, inputs, chunk) && SumOf(Sizes(inputs)) <= maximum
            && |codec.encode(PlannedCatalog(inputs, chunk))| <= 4194304
            && AllIntact(codec, inputs) && |codec.encode(HashedCatalog(codec, inputs, chunk))| <= 4194304
  {
    if 0 < |inputs| <= 64 && 0 < chunk <= MAX_CHUNK {
      FewPartsMeans(inputs, chunk);
      if TotalPlanned(inputs, chunk) <= MAX_PARTS { CataloguableMeans(codec, inputs, chunk); }
      if AllIntact(codec, inputs) { BothAdmitted(codec, inputs, chunk, maximum); }
    }
  }
}
