/** Which paragraphs are rewritten, and what the rewritten ones hold, said by their fields and texts. */
module ControlMeaning {
  import opened Common
  import opened PythonText
  import opened ControlText
  import opened ControlUpdate

  // ----- occurrences -------------------------------------------------------------------

  /** The text t stands in s at place k. */
  ghost predicate StandsAt(s: string, t: string, k: nat) {
    k + |t| <= |s| && forall i :: 0 <= i < |t| ==> s[k + i] == t[i]
  }

  lemma StandsMeans(s: string, t: string, k: nat)
    requires k + |t| <= |s|
    ensures s[k..k + |t|] == t <==> StandsAt(s, t, k)
  {
    if s[k..k + |t|] == t {
      forall i | 0 <= i < |t|
        ensures s[k + i] == t[i]
      {
        assert s[k..k + |t|][i] == t[i];
      }
    }
    if StandsAt(s, t, k) {
      assert forall i :: 0 <= i < |t| ==> s[k..k + |t|][i] == t[i];
    }
  }

  lemma {:induction false} FindMeans(s: string, t: string, from: nat)
    requires from <= |s|
    ensures Find(s, t, from).None? ==> forall k: nat :: from <= k ==> !StandsAt(s, t, k)
    ensures Find(s, t, from).Some? ==> StandsAt(s, t, Find(s, t, from).value)
    ensures Find(s, t, from).Some? ==>
              forall k: nat :: from <= k < Find(s, t, from).value ==> !StandsAt(s, t, k)
    decreases |s| - from
  {
    if from + |t| <= |s| {
      StandsMeans(s, t, from);
      if s[from..from + |t|] != t && from < |s| { FindMeans(s, t, from + 1); }
    }
  }

  /** One place, and every other one overlaps it. */
  ghost predicate StandsOnce(s: string, t: string) {
    exists k: nat :: OnlyPlace(s, t, k)
  }

  ghost predicate OnlyPlace(s: string, t: string, k: nat) {
    StandsAt(s, t, k) && forall j: nat :: StandsAt(s, t, j) ==> k <= j < k + |t|
  }

  /** A text counts once exactly if it stands somewhere and at no other place clear of the first. */
  lemma CountMeans(s: string, t: string)
    requires t != ""
    ensures CountsOnce(s, t) <==> StandsOnce(s, t)
    ensures CountsOnce(s, t) ==> OnlyPlace(s, t, Find(s, t, 0).value)
  {
    FindMeans(s, t, 0);
    if Find(s, t, 0).Some? {
      var k := Find(s, t, 0).value;
      FindMeans(s, t, k + |t|);
      if CountsOnce(s, t) {
        assert OnlyPlace(s, t, k);
      }
      if j: nat :| OnlyPlace(s, t, j) {
        assert k == j;
      }
    }
  }

  // ----- the old dependency ------------------------------------------------------------

  const OLD := "libgstreamer-plugins-bad1.0-0" + " (= " + "1.24.2-1ubuntu4" + ")"
  const NEW := "libgstreamer-plugins-bad1.0-0" + " (= " + ("1.24.2-1ubuntu4" + "+victron1") + ")"

  lemma Pairs()
    ensures OLD_PAIR == OLD && NEW_PAIR == NEW
  {
  }

  predicate NoParenthesis(s: string) {
    forall i :: 0 <= i < |s| ==> s[i] != ')'
  }

  lemma JoinNoParenthesis(a: string, b: string)
    requires NoParenthesis(a) && NoParenthesis(b)
    ensures NoParenthesis(a + b)
  {
  }

  lemma OldEndsOnce(last: int)
    requires last == |OLD| - 1
    ensures last > 0 && NoParenthesis(OLD[..last]) && OLD[last] == ')'
  {
    var package, version := "libgstreamer-plugins-bad1.0-0", "1.24.2-1ubuntu4";
    assert NoParenthesis(package) && NoParenthesis(" (= ") && NoParenthesis(version);
    JoinNoParenthesis(package, " (= ");
    JoinNoParenthesis(package + " (= ", version);
    assert OLD[..last] == package + " (= " + version;
  }

  /** The text stands at exactly one place. */
  ghost predicate AtOnePlace(s: string, t: string, k: nat) {
    StandsAt(s, t, k) && forall j: nat :: StandsAt(s, t, j) ==> j == k
  }

  /** Two places of a text whose last character stands nowhere else in it do not overlap. */
  lemma NoOverlap(s: string, t: string, j: nat, k: nat)
    requires t != "" && forall i :: 0 <= i < |t| - 1 ==> t[i] != t[|t| - 1]
    requires StandsAt(s, t, k) && StandsAt(s, t, j) && k <= j < k + |t|
    ensures j == k
  {
    var last := |t| - 1;
    var i := k + last - j;
    assert s[k + last] == t[last] && s[j + i] == t[i];
  }

  /** For the old dependency that is exactly one place, and the new one takes this place. */
  lemma OldPairMeans(s: string)
    ensures CountsOnce(s, OLD_PAIR) <==> exists k: nat :: AtOnePlace(s, OLD, k)
    ensures forall k: nat :: AtOnePlace(s, OLD, k) ==>
              CountsOnce(s, OLD_PAIR) && Replaced(s, OLD_PAIR, NEW_PAIR) == s[..k] + NEW + s[k + |OLD|..]
  {
    Pairs();
    CountMeans(s, OLD);
    OldEndsOnce(|OLD| - 1);
    if CountsOnce(s, OLD) {
      var k: nat := Find(s, OLD, 0).value;
      forall j: nat | StandsAt(s, OLD, j)
        ensures j == k
      {
        NoOverlap(s, OLD, j, k);
      }
      assert AtOnePlace(s, OLD, k);
    }
    forall k: nat | AtOnePlace(s, OLD, k)
      ensures CountsOnce(s, OLD_PAIR) && Replaced(s, OLD_PAIR, NEW_PAIR) == s[..k] + NEW + s[k + |OLD|..]
    {
      assert OnlyPlace(s, OLD, k);
      assert StandsAt(s, OLD, Find(s, OLD, 0).value);
    }
  }

  // ----- fields ------------------------------------------------------------------------

  lemma {:induction false} GetMeans(fs: seq<Field>, key: string, value: string)
    requires KeysDiffer(fs)
    ensures Get(fs, key) == Some(value) <==> Field(key, value) in fs
    decreases |fs|
  {
    if fs != [] {
      var front, last := fs[..|fs| - 1], fs[|fs| - 1];
      assert fs == front + [last];
      GetMeans(front, key, value);
      assert forall i :: 0 <= i < |front| ==> front[i] == fs[i] && front[i].key != last.key;
    }
  }

  /** Only the paragraph of this package in the known version and source is rewritten. */
  ghost predicate Rewritable(fs: seq<Field>, package: string, arch: string) {
    && Field("Package", package) in fs && Field("Version", "1.24.2-1ubuntu4") in fs
    && Field("Architecture", arch) in fs && Field("Source", "gst-plugins-bad1.0") in fs
    && (package == "gstreamer1.0-plugins-bad" ==>
          exists value, k: nat :: Field("Depends", value) in fs && AtOnePlace(value, OLD, k))
  }

  lemma RewritableMeans(fs: seq<Field>, package: string, arch: string)
    requires KeysDiffer(fs)
    ensures Expected(fs, package, arch) && Paired(fs, package) <==> Rewritable(fs, package, arch)
  {
    GetMeans(fs, "Package", package);
    GetMeans(fs, "Version", VERSION);
    GetMeans(fs, "Architecture", arch);
    GetMeans(fs, "Source", SOURCE);
    var depends := Get(fs, "Depends");
    if depends.Some? {
      GetMeans(fs, "Depends", depends.value);
      OldPairMeans(depends.value);
    }
    if value, k: nat :| Field("Depends", value) in fs && AtOnePlace(value, OLD, k) {
      GetMeans(fs, "Depends", value);
      OldPairMeans(value);
    }
  }

  /** The number in decimal, with a minus sign before a negative one. */
  ghost predicate IsDecimal(text: string, n: int) {
    if n >= 0 then IsNumeral(text, n) else text != "" && text[0] == '-' && IsNumeral(text[1..], -n)
  }

  /** Digits only, none of them a leading zero, that count up to n. */
  ghost predicate IsNumeral(text: string, n: nat) {
    && text != "" && (forall i :: 0 <= i < |text| ==> '0' <= text[i] <= '9') && (text[0] == '0' ==> |text| == 1)
    && Counted(text) == n
  }

  /** The sum of the digits, each weighted by its place. */
  function Counted(text: string): nat {
    if text == "" then 0
    else
      var d := text[|text| - 1];
      10 * Counted(text[..|text| - 1]) + if '0' <= d <= '9' then d as int - '0' as int else 0
  }

  lemma {:induction false} NumeralMeans(n: nat)
    ensures IsNumeral(Digits(n), n)
    ensures n > 0 ==> Digits(n)[0] != '0'
  {
    if n < 10 {
      assert Digits(n)[..0] == "";
    } else {
      NumeralMeans(n / 10);
      var front := Digits(n / 10);
      assert Digits(n)[..|Digits(n)| - 1] == front && Digits(n)[0] == front[0];
    }
  }

  lemma DecimalMeans(n: int)
    ensures IsDecimal(Decimal(n), n)
  {
    NumeralMeans(if n < 0 then -n else n);
    if n < 0 { assert Decimal(n)[1..] == Digits(-n); }
  }

  /** What a field of the rewritten paragraph holds. */
  ghost predicate Holds(fs: seq<Field>, package: string, kib: int, key: string, value: string) {
    if key == "Version" then value == "1.24.2-1ubuntu4" + "+victron1"
    else if key == "Source" then value == "gst-plugins-bad1.0" + " (" + ("1.24.2-1ubuntu4" + "+victron1") + ")"
    else if key == "Maintainer" then value == "alvit <272257197+4alvit" + "@users.noreply.github.com>"
    else if key == "Installed-Size" then IsDecimal(value, kib)
    else if key == "Depends" && package == "gstreamer1.0-plugins-bad" then
      exists was, k: nat :: Field(key, was) in fs && AtOnePlace(was, OLD, k)
                            && value == was[..k] + NEW + was[k + |OLD|..]
    else Field(key, value) in fs
  }

  lemma DependsHolds(fs: seq<Field>, kib: int, value: string)
    requires KeysDiffer(fs) && Paired(fs, PLUGINS)
    requires Replaced(Get(fs, "Depends").value, OLD_PAIR, NEW_PAIR) == value
    ensures Holds(fs, PLUGINS, kib, "Depends", value)
  {
    var was := Get(fs, "Depends").value;
    GetMeans(fs, "Depends", was);
    OldPairMeans(was);
    var k: nat :| AtOnePlace(was, OLD, k);
    assert Field("Depends", was) in fs;
  }

  lemma FieldHolds(fs: seq<Field>, package: string, kib: int, key: string, value: string)
    requires KeysDiffer(fs) && Paired(fs, package)
    requires Get(Updated(fs, package, kib), key) == Some(value)
    ensures Holds(fs, package, kib, key, value)
  {
    UpdateTouchesOnly(fs, package, kib, key);
    if key == "Installed-Size" {
      DecimalMeans(kib);
    } else if key == "Depends" && package == PLUGINS {
      DependsHolds(fs, kib, value);
    } else if key !in {"Version", "Source", "Maintainer"} {
      GetMeans(fs, key, value);
    }
  }

  /**
   * The rewriting, for any text: it is refused exactly if the text does not parse or its fields are not those of this
   * package; and every field of the result holds what the rule for its key says.
   */
  lemma UpdateIsExact(text: string, package: string, arch: string, kib: int)
    ensures Parse(text).Some? ==> KeysDiffer(Parse(text).value)
    ensures (&& Parse(text).Some? && Expected(Parse(text).value, package, arch)
             && Paired(Parse(text).value, package))
       <==> Parse(text).Some? && Rewritable(Parse(text).value, package, arch)
    ensures Parse(text).Some? && Rewritable(Parse(text).value, package, arch) ==>
              forall f :: f in Updated(Parse(text).value, package, kib) ==>
                Holds(Parse(text).value, package, kib, f.key, f.value)
  {
    if Parse(text).Some? {
      var fs := Parse(text).value;
      SplitHasNoBreak(text);
      ParsedIsWellFormed(SplitLines(text));
      RewritableMeans(fs, package, arch);
      if Rewritable(fs, package, arch) {
        UpdatedIsWellFormed(fs, package, kib);
        forall f | f in Updated(fs, package, kib)
          ensures Holds(fs, package, kib, f.key, f.value)
        {
          GetMeans(Updated(fs, package, kib), f.key, f.value);
          FieldHolds(fs, package, kib, f.key, f.value);
        }
      }
    }
  }
}
