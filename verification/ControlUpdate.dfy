/** Rewriting the control paragraph of a rebuilt package: which fields change, and that the result parses back. */
module ControlUpdate {
  import opened Common
  import opened PythonText
  import opened ControlText

  // ----- fields that survive printing --------------------------------------------------

  /** A key holds no separator of its own and starts no continuation. */
  predicate KeyOk(key: string) {
    NoBreak(key) && !Continues(key) && forall i :: 0 <= i < |key| - 1 ==> !(key[i] == ':' && key[i + 1] == ' ')
  }

  /** The only line boundaries in a value are line feeds that a blank follows. */
  predicate ValueOk(value: string) {
    forall i :: 0 <= i < |value| && LineBreak(value[i]) ==>
                  value[i] == '\n' && i + 1 < |value| && (value[i + 1] == ' ' || value[i + 1] == '\t')
  }

  /** The last line of a value, and what stands before it. */
  lemma ValueParts(value: string) returns (k: nat)
    requires ValueOk(value)
    ensures k == LineStart(value, |value|) <= |value|
    ensures NoBreak(value[k..])
    ensures k > 0 ==> value[k - 1] == '\n' && Continues(value[k..]) && ValueOk(value[..k - 1])
  {
    k := LineStart(value, |value|);
    if k > 0 {
      assert LineBreak(value[k - 1]);
      forall i | 0 <= i < k - 1 && LineBreak(value[i])
        ensures i + 1 < k - 1
      {
        assert value[i + 1] == ' ' || value[i + 1] == '\t';
      }
    }
  }

  predicate KeysDiffer(fs: seq<Field>) {
    forall i, j :: 0 <= i < j < |fs| ==> fs[i].key != fs[j].key
  }

  predicate FieldsOk(fs: seq<Field>) {
    forall i :: 0 <= i < |fs| ==> KeyOk(fs[i].key) && ValueOk(fs[i].value)
  }

  predicate WellFormed(fs: seq<Field>) {
    KeysDiffer(fs) && FieldsOk(fs)
  }

  lemma {:induction false} SeparatorAt(s: string, from: nat, k: nat)
    requires from <= k && k + 2 <= |s| && s[k] == ':' && s[k + 1] == ' '
    requires forall i :: from <= i < k ==> !(s[i] == ':' && s[i + 1] == ' ')
    ensures Separator(s, from) == Some(k)
    decreases k - from
  {
    if from < k { SeparatorAt(s, from + 1, k); }
  }

  /** The first line of a field parses to its key and to the rest of the line. */
  lemma AddFirst(fs: seq<Field>, key: string, value: string)
    requires KeyOk(key) && !HasKey(fs, key)
    ensures AddLine(fs, key + ": " + value) == Some(fs + [Field(key, value)])
  {
    var line := key + ": " + value;
    forall i | 0 <= i < |key|
      ensures !(line[i] == ':' && line[i + 1] == ' ')
    {
      assert line[i] == key[i];
      if i < |key| - 1 { assert line[i + 1] == key[i + 1]; }
    }
    assert line[|key|] == ':' && line[|key| + 1] == ' ';
    SeparatorAt(line, 0, |key|);
    assert line[..|key|] == key && line[|key| + 2..] == value;
    assert line[0] == if key == "" then ':' else key[0];
  }

  lemma ParseSnoc(lines: seq<string>, fs: seq<Field>, line: string)
    requires ParseLines(lines) == Some(fs)
    ensures ParseLines(lines + [line]) == AddLine(fs, line)
  {
    assert (lines + [line])[..|lines|] == lines;
  }

  lemma {:induction false} FieldTextIsPlain(key: string, value: string)
    requires KeyOk(key) && ValueOk(value)
    ensures PlainLines(FieldText(Field(key, value)))
    decreases |value|
  {
    var k := ValueParts(value);
    if k == 0 {
      assert value[0..] == value;
      FirstIsPlain(key, value);
    } else {
      FieldTextIsPlain(key, value[..k - 1]);
      PlainSnoc(FieldText(Field(key, value[..k - 1])), value[k..]);
      FieldTextEnd(key, value, k);
    }
  }

  lemma FirstIsPlain(key: string, value: string)
    requires NoBreak(key) && NoBreak(value)
    ensures NoBreak(key + ": " + value) && PlainLines(FieldText(Field(key, value)))
    ensures FieldText(Field(key, value)) == key + ": " + value + "\n"
  {
  }

  lemma FieldTextEnd(key: string, value: string, k: nat)
    requires 0 < k <= |value| && value[k - 1] == '\n'
    ensures FieldText(Field(key, value)) == FieldText(Field(key, value[..k - 1])) + value[k..] + "\n"
  {
    assert value == value[..k - 1] + "\n" + value[k..];
  }

  /** A printed field parses to itself, whatever fields stand before it. */
  lemma {:induction false} ParseField(lines: seq<string>, fs: seq<Field>, key: string, value: string)
    requires ParseLines(lines) == Some(fs) && KeyOk(key) && ValueOk(value) && !HasKey(fs, key)
    ensures ParseLines(lines + SplitLines(FieldText(Field(key, value)))) == Some(fs + [Field(key, value)])
    decreases |value|
  {
    var k := ValueParts(value);
    if k == 0 {
      assert value[0..] == value;
      ParseOneLineField(lines, fs, key, value);
    } else {
      var short, line := value[..k - 1], value[k..];
      ParseField(lines, fs, key, short);
      var before := SplitLines(FieldText(Field(key, short)));
      calc {
        ParseLines(lines + SplitLines(FieldText(Field(key, value))));
        { SplitLast(key, value, k); }
        ParseLines(lines + (before + [line]));
        { assert lines + (before + [line]) == (lines + before) + [line]; }
        ParseLines((lines + before) + [line]);
        { ContinuedField(lines + before, fs, key, short, line); }
        Some(fs + [Field(key, short + "\n" + line)]);
        { assert short + "\n" + line == value; }
        Some(fs + [Field(key, value)]);
      }
    }
  }

  lemma ParseOneLineField(lines: seq<string>, fs: seq<Field>, key: string, value: string)
    requires ParseLines(lines) == Some(fs) && KeyOk(key) && NoBreak(value) && !HasKey(fs, key)
    ensures ParseLines(lines + SplitLines(FieldText(Field(key, value)))) == Some(fs + [Field(key, value)])
  {
    var line := key + ": " + value;
    FirstIsPlain(key, value);
    calc {
      ParseLines(lines + SplitLines(FieldText(Field(key, value))));
      { OneLine(line); }
      ParseLines(lines + [line]);
      { ParseSnoc(lines, fs, line); }
      AddLine(fs, line);
      { AddFirst(fs, key, value); }
      Some(fs + [Field(key, value)]);
    }
  }

  lemma SplitLast(key: string, value: string, k: nat)
    requires 0 < k <= |value| && value[k - 1] == '\n' && NoBreak(value[k..])
    requires KeyOk(key) && ValueOk(value[..k - 1])
    ensures SplitLines(FieldText(Field(key, value))) == SplitLines(FieldText(Field(key, value[..k - 1]))) + [value[k..]]
  {
    FieldTextIsPlain(key, value[..k - 1]);
    FieldTextEnd(key, value, k);
    var a, b := FieldText(Field(key, value[..k - 1])), value[k..] + "\n";
    calc {
      SplitLines(FieldText(Field(key, value)));
      { assert FieldText(Field(key, value)) == a + b; }
      SplitLines(a + b);
      { SplitConcat(a, b); }
      SplitLines(a) + SplitLines(b);
      { OneLine(value[k..]); }
      SplitLines(a) + [value[k..]];
    }
  }

  lemma ContinuedField(lines: seq<string>, fs: seq<Field>, key: string, short: string, line: string)
    requires ParseLines(lines) == Some(fs + [Field(key, short)]) && Continues(line)
    ensures ParseLines(lines + [line]) == Some(fs + [Field(key, short + "\n" + line)])
  {
    var all := fs + [Field(key, short)];
    ParseSnoc(lines, all, line);
    assert all[..|all| - 1] == fs;
  }

  lemma {:induction false} PrintIsPlain(fs: seq<Field>)
    requires FieldsOk(fs)
    ensures PlainLines(Print(fs))
    decreases |fs|
  {
    if fs != [] {
      var n := |fs| - 1;
      PrintIsPlain(fs[..n]);
      FieldTextIsPlain(fs[n].key, fs[n].value);
      PlainConcat(Print(fs[..n]), FieldText(fs[n]));
    }
  }

  lemma PlainConcat(a: string, b: string)
    requires PlainLines(a) && PlainLines(b)
    ensures PlainLines(a + b)
  {
  }

  lemma {:induction false} WellFormedParses(fs: seq<Field>)
    requires WellFormed(fs)
    ensures Parse(Print(fs)) == Some(fs)
    decreases |fs|
  {
    if fs != [] {
      var n := |fs| - 1;
      var front := fs[..n];
      WellFormedParses(front);
      calc {
        Parse(Print(fs));
        ParseLines(SplitLines(Print(front) + FieldText(fs[n])));
        { PrintIsPlain(front); SplitConcat(Print(front), FieldText(fs[n])); }
        ParseLines(SplitLines(Print(front)) + SplitLines(FieldText(fs[n])));
        { ParseField(SplitLines(Print(front)), front, fs[n].key, fs[n].value); }
        Some(front + [fs[n]]);
        { assert front + [fs[n]] == fs; }
        Some(fs);
      }
    }
  }

  // ----- every parsed field survives ---------------------------------------------------

  lemma ContinuedIsOk(value: string, line: string)
    requires ValueOk(value) && NoBreak(line) && Continues(line)
    ensures ValueOk(value + "\n" + line)
  {
    var all := value + "\n" + line;
    assert forall j :: |value| < j < |all| ==> all[j] == line[j - |value| - 1];
    forall i | 0 <= i < |all| && LineBreak(all[i])
      ensures all[i] == '\n' && i + 1 < |all| && (all[i + 1] == ' ' || all[i + 1] == '\t')
    {
      if i < |value| { assert all[i] == value[i] && all[i + 1] == value[i + 1]; }
    }
  }

  lemma LineParts(line: string, k: nat)
    requires NoBreak(line) && !Continues(line) && Separator(line, 0) == Some(k)
    ensures KeyOk(line[..k]) && ValueOk(line[k + 2..])
  {
  }

  lemma AddLineIsWellFormed(fs: seq<Field>, line: string)
    requires WellFormed(fs) && NoBreak(line) && AddLine(fs, line).Some?
    ensures WellFormed(AddLine(fs, line).value)
  {
    if Continues(line) {
      ContinuedIsOk(fs[|fs| - 1].value, line);
    } else {
      LineParts(line, Separator(line, 0).value);
    }
  }

  lemma {:induction false} ParsedIsWellFormed(lines: seq<string>)
    requires AllNoBreak(lines) && ParseLines(lines).Some?
    ensures WellFormed(ParseLines(lines).value)
    decreases |lines|
  {
    if lines != [] {
      var n := |lines| - 1;
      ParsedIsWellFormed(lines[..n]);
      AddLineIsWellFormed(ParseLines(lines[..n]).value, lines[n]);
    }
  }

  /** Fields come back from their own print exactly when they are well formed; every parse is. */
  lemma PrintedFieldsComeBack(fs: seq<Field>)
    ensures Parse(Print(fs)) == Some(fs) <==> WellFormed(fs)
  {
    if WellFormed(fs) { WellFormedParses(fs); }
    if Parse(Print(fs)) == Some(fs) {
      SplitHasNoBreak(Print(fs));
      ParsedIsWellFormed(SplitLines(Print(fs)));
    }
  }

  // ----- the update --------------------------------------------------------------------

  const VERSION := "1.24.2-1ubuntu4"
  const NEW_VERSION := VERSION + "+victron1"
  const SOURCE := "gst-plugins-bad1.0"
  const LIB_PACKAGE := "libgstreamer-plugins-bad1.0-0"
  const PLUGINS := "gstreamer1.0-plugins-bad"
  const ACCOUNT := "alvit <272257197+4alvit"
  const HOST := "@users.noreply.github.com>"
  const MAINTAINER := ACCOUNT + HOST
  const OLD_PAIR := LIB_PACKAGE + " (= " + VERSION + ")"
  const NEW_PAIR := LIB_PACKAGE + " (= " + NEW_VERSION + ")"

  function Get(fs: seq<Field>, key: string): Option<string> {
    if fs == [] then None
    else if fs[|fs| - 1].key == key then Some(fs[|fs| - 1].value)
    else Get(fs[..|fs| - 1], key)
  }

  /** dict assignment: in place where the key is known, at the end where it is new. */
  function Put(fs: seq<Field>, key: string, value: string): seq<Field> {
    if fs == [] then [Field(key, value)]
    else if fs[|fs| - 1].key == key then fs[..|fs| - 1] + [Field(key, value)]
    else if HasKey(fs, key) then Put(fs[..|fs| - 1], key, value) + [fs[|fs| - 1]]
    else fs + [Field(key, value)]
  }

  /** Where t first stands in s. */
  function Find(s: string, t: string, from: nat): (k: Option<nat>)
    requires from <= |s|
    ensures k.Some? ==> from <= k.value && k.value + |t| <= |s| && s[k.value..k.value + |t|] == t
    decreases |s| - from
  {
    if from + |t| > |s| then None
    else if s[from..from + |t|] == t then Some(from)
    else if from == |s| then None
    else Find(s, t, from + 1)
  }

  /** str.count(old) == 1. */
  predicate CountsOnce(s: string, t: string) {
    var k := Find(s, t, 0);
    k.Some? && Find(s, t, k.value + |t|).None?
  }

  function Replaced(s: string, t: string, u: string): string
    requires CountsOnce(s, t)
  {
    var k := Find(s, t, 0).value;
    s[..k] + u + s[k + |t|..]
  }

  function Decimal(n: int): string {
    if n < 0 then "-" + Digits(-n) else Digits(n)
  }

  predicate Expected(fs: seq<Field>, package: string, arch: string) {
    && Get(fs, "Package") == Some(package) && Get(fs, "Version") == Some(VERSION)
    && Get(fs, "Architecture") == Some(arch) && Get(fs, "Source") == Some(SOURCE)
  }

  predicate Paired(fs: seq<Field>, package: string) {
    package == PLUGINS ==> Get(fs, "Depends").Some? && CountsOnce(Get(fs, "Depends").value, OLD_PAIR)
  }

  /** The fields that every package gets. */
  function Renewed(fs: seq<Field>, kib: int): seq<Field> {
    Put(Put(Put(Put(fs, "Version", NEW_VERSION), "Source", SOURCE + " (" + NEW_VERSION + ")"),
            "Maintainer", MAINTAINER), "Installed-Size", Decimal(kib))
  }

  function Updated(fs: seq<Field>, package: string, kib: int): seq<Field>
    requires Paired(fs, package)
  {
    if package == PLUGINS then
      Put(Renewed(fs, kib), "Depends", Replaced(Get(fs, "Depends").value, OLD_PAIR, NEW_PAIR))
    else Renewed(fs, kib)
  }

  function Keys(fs: seq<Field>): seq<string> {
    seq(|fs|, i requires 0 <= i < |fs| => fs[i].key)
  }

  lemma {:induction false} GetIsHas(fs: seq<Field>, key: string)
    ensures Get(fs, key).Some? <==> HasKey(fs, key)
    decreases |fs|
  {
    if fs != [] {
      GetIsHas(fs[..|fs| - 1], key);
      HasSnoc(fs, key);
    }
  }

  lemma HasSnoc(fs: seq<Field>, key: string)
    requires fs != []
    ensures HasKey(fs, key) <==> HasKey(fs[..|fs| - 1], key) || fs[|fs| - 1].key == key
  {
    var front := fs[..|fs| - 1];
    forall i | 0 <= i < |front|
      ensures front[i] == fs[i]
    {
    }
  }

  /** An assignment sets its own key and keeps every other one. */
  lemma {:induction false} PutGet(fs: seq<Field>, key: string, value: string, other: string)
    ensures Get(Put(fs, key, value), other) == if other == key then Some(value) else Get(fs, other)
    decreases |fs|
  {
    if fs != [] && fs[|fs| - 1].key != key && HasKey(fs, key) {
      var n := |fs| - 1;
      PutGet(fs[..n], key, value, other);
      assert Put(fs, key, value)[..|Put(fs, key, value)| - 1] == Put(fs[..n], key, value);
    } else if fs != [] && fs[|fs| - 1].key != key {
      assert Put(fs, key, value)[..|fs|] == fs;
    } else if fs != [] {
      assert Put(fs, key, value)[..|fs| - 1] == fs[..|fs| - 1];
    }
  }

  /** Known keys stay where they are; a new one goes to the end. */
  lemma {:induction false} PutKeys(fs: seq<Field>, key: string, value: string)
    ensures Keys(Put(fs, key, value)) == Keys(fs) + if HasKey(fs, key) then [] else [key]
    decreases |fs|
  {
    if fs != [] && fs[|fs| - 1].key != key && HasKey(fs, key) {
      HasSnoc(fs, key);
      PutKeys(fs[..|fs| - 1], key, value);
      var p := Put(fs[..|fs| - 1], key, value);
      assert |p| == |Keys(p)| == |fs| - 1;
      forall i | 0 <= i < |fs|
        ensures Keys(Put(fs, key, value))[i] == Keys(fs)[i]
      {
        if i < |fs| - 1 { assert p[i].key == Keys(p)[i] == Keys(fs[..|fs| - 1])[i]; }
      }
    }
  }

  lemma {:induction false} PutFieldsOk(fs: seq<Field>, key: string, value: string)
    requires FieldsOk(fs) && KeyOk(key) && ValueOk(value)
    ensures FieldsOk(Put(fs, key, value))
    decreases |fs|
  {
    if fs != [] && fs[|fs| - 1].key != key && HasKey(fs, key) {
      PutFieldsOk(fs[..|fs| - 1], key, value);
    }
  }

  lemma PutWellFormed(fs: seq<Field>, key: string, value: string)
    requires WellFormed(fs) && KeyOk(key) && ValueOk(value)
    ensures WellFormed(Put(fs, key, value))
  {
    PutFieldsOk(fs, key, value);
    PutKeys(fs, key, value);
    var p := Put(fs, key, value);
    assert |p| == |Keys(p)|;
    forall i, j | 0 <= i < j < |p|
      ensures p[i].key != p[j].key
    {
      assert p[i].key == Keys(p)[i] && p[j].key == Keys(p)[j];
      assert Keys(p)[i] == fs[i].key;
      if j < |fs| { assert Keys(p)[j] == fs[j].key; }
    }
  }

  lemma PairShape()
    ensures |OLD_PAIR| > 0 && OLD_PAIR[0] == 'l' && NoBreak(NEW_PAIR)
  {
    assert NoBreak(LIB_PACKAGE) && LIB_PACKAGE[0] == 'l';
    assert NoBreak(" (= ") && NoBreak(")");
    NewVersionNoBreak();
    JoinNoBreak(LIB_PACKAGE, " (= ");
    JoinNoBreak(LIB_PACKAGE + " (= ", NEW_VERSION);
    JoinNoBreak(LIB_PACKAGE + " (= " + NEW_VERSION, ")");
  }

  lemma JoinNoBreak(a: string, b: string)
    requires NoBreak(a) && NoBreak(b)
    ensures NoBreak(a + b)
  {
  }

  /** The one old dependency is exchanged, everything around it kept. */
  lemma ReplacedKeepsTheRest(s: string)
    requires CountsOnce(s, OLD_PAIR)
    ensures exists a, b :: s == a + OLD_PAIR + b && Replaced(s, OLD_PAIR, NEW_PAIR) == a + NEW_PAIR + b
  {
    var t := OLD_PAIR;
    var k := Find(s, t, 0).value;
    var a, b := s[..k], s[k + |t|..];
    assert s == a + t + b;
  }

  lemma ExchangedIsOk(a: string, b: string)
    requires ValueOk(a + OLD_PAIR + b)
    ensures ValueOk(a + NEW_PAIR + b)
  {
    var s, t := a + OLD_PAIR + b, a + NEW_PAIR + b;
    PairShape();
    assert forall j :: |a| <= j < |a| + |NEW_PAIR| ==> t[j] == NEW_PAIR[j - |a|];
    forall i | 0 <= i < |t| && LineBreak(t[i])
      ensures t[i] == '\n' && i + 1 < |t| && (t[i + 1] == ' ' || t[i + 1] == '\t')
    {
      if i < |a| {
        assert t[i] == s[i];
        assert s[i + 1] == if i + 1 < |a| then a[i + 1] else OLD_PAIR[0];
      } else if i >= |a| + |NEW_PAIR| {
        var j := i - |NEW_PAIR| + |OLD_PAIR|;
        assert t[i] == s[j] && LineBreak(s[j]);
        assert s[j + 1] == t[i + 1];
      }
    }
  }

  lemma DigitsNoBreak(n: nat)
    ensures NoBreak(Digits(n))
  {
  }

  lemma MaintainerNoBreak()
    ensures NoBreak(MAINTAINER)
  {
    assert NoBreak(ACCOUNT) && NoBreak(HOST);
    JoinNoBreak(ACCOUNT, HOST);
  }

  lemma NewVersionNoBreak()
    ensures NoBreak(NEW_VERSION)
  {
    assert NoBreak(VERSION) && NoBreak("+victron1");
    JoinNoBreak(VERSION, "+victron1");
  }

  lemma NewSourceNoBreak()
    ensures NoBreak(SOURCE + " (" + NEW_VERSION + ")")
  {
    NewVersionNoBreak();
    assert NoBreak(SOURCE) && NoBreak(" (") && NoBreak(")");
    JoinNoBreak(SOURCE, " (");
    JoinNoBreak(SOURCE + " (", NEW_VERSION);
    JoinNoBreak(SOURCE + " (" + NEW_VERSION, ")");
  }

  lemma DecimalNoBreak(n: int)
    ensures NoBreak(Decimal(n))
  {
    DigitsNoBreak(if n < 0 then -n else n);
  }

  lemma KeysOk()
    ensures KeyOk("Version") && KeyOk("Source") && KeyOk("Maintainer") && KeyOk("Installed-Size") && KeyOk("Depends")
  {
  }

  /** What every package's field holds after the update. */
  function RenewedValue(fs: seq<Field>, kib: int, key: string): Option<string> {
    if key == "Installed-Size" then Some(Decimal(kib))
    else if key == "Maintainer" then Some(MAINTAINER)
    else if key == "Source" then Some(SOURCE + " (" + NEW_VERSION + ")")
    else if key == "Version" then Some(NEW_VERSION)
    else Get(fs, key)
  }

  lemma RenewedFields(fs: seq<Field>, kib: int, key: string)
    ensures Get(Renewed(fs, kib), key) == RenewedValue(fs, kib, key)
  {
    var a := Put(fs, "Version", NEW_VERSION);
    var b := Put(a, "Source", SOURCE + " (" + NEW_VERSION + ")");
    var c := Put(b, "Maintainer", MAINTAINER);
    PutGet(fs, "Version", NEW_VERSION, key);
    PutGet(a, "Source", SOURCE + " (" + NEW_VERSION + ")", key);
    PutGet(b, "Maintainer", MAINTAINER, key);
    PutGet(c, "Installed-Size", Decimal(kib), key);
  }

  /** Which fields an update changes, and to what: every other field keeps its value. */
  lemma UpdateTouchesOnly(fs: seq<Field>, package: string, kib: int, key: string)
    requires Paired(fs, package)
    ensures Get(Updated(fs, package, kib), key)
         == if package == PLUGINS && key == "Depends" then Some(Replaced(Get(fs, "Depends").value, OLD_PAIR, NEW_PAIR))
            else RenewedValue(fs, kib, key)
  {
    RenewedFields(fs, kib, key);
    if package == PLUGINS {
      PutGet(Renewed(fs, kib), "Depends", Replaced(Get(fs, "Depends").value, OLD_PAIR, NEW_PAIR), key);
    }
  }

  /** The fields keep their order; only a maintainer or a size that was missing is added, at the end. */
  lemma UpdateKeepsOrder(fs: seq<Field>, package: string, arch: string, kib: int)
    requires Expected(fs, package, arch) && Paired(fs, package)
    ensures Keys(Updated(fs, package, kib))
         == Keys(fs) + (if HasKey(fs, "Maintainer") then [] else ["Maintainer"])
            + (if HasKey(fs, "Installed-Size") then [] else ["Installed-Size"])
  {
    var a := Put(fs, "Version", NEW_VERSION);
    var b := Put(a, "Source", SOURCE + " (" + NEW_VERSION + ")");
    var c := Put(b, "Maintainer", MAINTAINER);
    StillHas(fs, "Version", NEW_VERSION, "Version");
    StillHas(fs, "Version", NEW_VERSION, "Source");
    StillHas(fs, "Version", NEW_VERSION, "Maintainer");
    StillHas(fs, "Version", NEW_VERSION, "Installed-Size");
    StillHas(a, "Source", SOURCE + " (" + NEW_VERSION + ")", "Maintainer");
    StillHas(a, "Source", SOURCE + " (" + NEW_VERSION + ")", "Installed-Size");
    StillHas(b, "Maintainer", MAINTAINER, "Installed-Size");
    KnownKeys(fs, package, arch);
    PutKeys(fs, "Version", NEW_VERSION);
    PutKeys(a, "Source", SOURCE + " (" + NEW_VERSION + ")");
    PutKeys(b, "Maintainer", MAINTAINER);
    PutKeys(c, "Installed-Size", Decimal(kib));
    if package == PLUGINS { DependsKeepsOrder(fs, kib); }
  }

  lemma KnownKeys(fs: seq<Field>, package: string, arch: string)
    requires Expected(fs, package, arch)
    ensures HasKey(fs, "Version") && HasKey(fs, "Source")
  {
    GetIsHas(fs, "Version");
    GetIsHas(fs, "Source");
  }

  lemma DependsKeepsOrder(fs: seq<Field>, kib: int)
    requires Paired(fs, PLUGINS)
    ensures Keys(Updated(fs, PLUGINS, kib)) == Keys(Renewed(fs, kib))
  {
    RenewedFields(fs, kib, "Depends");
    GetIsHas(Renewed(fs, kib), "Depends");
    PutKeys(Renewed(fs, kib), "Depends", Replaced(Get(fs, "Depends").value, OLD_PAIR, NEW_PAIR));
  }

  lemma StillHas(fs: seq<Field>, key: string, value: string, other: string)
    ensures HasKey(Put(fs, key, value), other) <==> HasKey(fs, other) || other == key
  {
    PutGet(fs, key, value, other);
    GetIsHas(fs, other);
    GetIsHas(Put(fs, key, value), other);
  }

  lemma {:induction false} GetIsOk(fs: seq<Field>, key: string)
    requires FieldsOk(fs) && Get(fs, key).Some?
    ensures ValueOk(Get(fs, key).value)
    decreases |fs|
  {
    if fs[|fs| - 1].key != key { GetIsOk(fs[..|fs| - 1], key); }
  }

  lemma UpdatedIsWellFormed(fs: seq<Field>, package: string, kib: int)
    requires WellFormed(fs) && Paired(fs, package)
    ensures WellFormed(Updated(fs, package, kib))
  {
    RenewedIsWellFormed(fs, kib);
    if package == PLUGINS {
      var was := Get(fs, "Depends").value;
      GetIsOk(fs, "Depends");
      ReplacedKeepsTheRest(was);
      var a, b :| was == a + OLD_PAIR + b && Replaced(was, OLD_PAIR, NEW_PAIR) == a + NEW_PAIR + b;
      ExchangedIsOk(a, b);
      KeysOk();
      PutWellFormed(Renewed(fs, kib), "Depends", Replaced(was, OLD_PAIR, NEW_PAIR));
    }
  }

  lemma RenewedIsWellFormed(fs: seq<Field>, kib: int)
    requires WellFormed(fs)
    ensures WellFormed(Renewed(fs, kib))
  {
    KeysOk();
    NewVersionNoBreak();
    NewSourceNoBreak();
    MaintainerNoBreak();
    DecimalNoBreak(kib);
    var a := Put(fs, "Version", NEW_VERSION);
    var b := Put(a, "Source", SOURCE + " (" + NEW_VERSION + ")");
    var c := Put(b, "Maintainer", MAINTAINER);
    PutWellFormed(fs, "Version", NEW_VERSION);
    PutWellFormed(a, "Source", SOURCE + " (" + NEW_VERSION + ")");
    PutWellFormed(b, "Maintainer", MAINTAINER);
    PutWellFormed(c, "Installed-Size", Decimal(kib));
  }

  /** The rewritten paragraph parses back to the updated fields; anything unexpected is refused. */
  method UpdateControl(text: string, package: string, arch: string, kib: int) returns (r: Outcome<string>)
    ensures r.Returned? <==>
              && Parse(text).Some? && Expected(Parse(text).value, package, arch) && Paired(Parse(text).value, package)
    ensures r.Returned? ==> Parse(r.value) == Some(Updated(Parse(text).value, package, kib))
    ensures r.Returned? ==> r.value == Print(Updated(Parse(text).value, package, kib))
  {
    var parsed := ParseText(text);
    if parsed.None? || !Expected(parsed.value, package, arch) {
      return Raised;
    }
    var value := parsed.value;
    SplitHasNoBreak(text);
    ParsedIsWellFormed(SplitLines(text));
    value := Put(value, "Version", NEW_VERSION);
    value := Put(value, "Source", SOURCE + " (" + NEW_VERSION + ")");
    value := Put(value, "Maintainer", MAINTAINER);
    value := Put(value, "Installed-Size", Decimal(kib));
    RenewedFields(parsed.value, kib, "Depends");
    if package == PLUGINS {
      var depends := Get(value, "Depends");
      if depends.None? || !CountsOnce(depends.value, OLD_PAIR) {
        return Raised;
      }
      value := Put(value, "Depends", Replaced(depends.value, OLD_PAIR, NEW_PAIR));
    }
    UpdatedIsWellFormed(parsed.value, package, kib);
    WellFormedParses(value);
    return Returned(Print(value));
  }
}
