/** Debian control paragraphs: parser, printer, and the round trips between text and fields. */
module ControlText {
  import opened Common
  import opened PythonText

  datatype Field = Field(key: string, value: string)

  predicate NoBreak(s: string) {
    forall i :: 0 <= i < |s| ==> !LineBreak(s[i])
  }

  predicate Continues(line: string) {
    line != "" && (line[0] == ' ' || line[0] == '\t')
  }

  /** Where ": " first stands in s. */
  function Separator(s: string, from: nat): (k: Option<nat>)
    requires from <= |s|
    ensures k.Some? ==> from <= k.value && k.value + 2 <= |s| && s[k.value] == ':' && s[k.value + 1] == ' '
    ensures k.Some? ==> forall i :: from <= i < k.value ==> !(s[i] == ':' && s[i + 1] == ' ')
    decreases |s| - from
  {
    if from + 2 > |s| then None
    else if s[from] == ':' && s[from + 1] == ' ' then Some(from)
    else Separator(s, from + 1)
  }

  predicate HasKey(fs: seq<Field>, key: string) {
    exists i :: 0 <= i < |fs| && fs[i].key == key
  }

  // ----- parser and printer ------------------------------------------------------------

  /** A continuation belongs to the latest field; any other line starts a new one. */
  function AddLine(fs: seq<Field>, line: string): Option<seq<Field>> {
    if Continues(line) then
      if fs == [] then None
      else
        var last := fs[|fs| - 1];
        Some(fs[..|fs| - 1] + [Field(last.key, last.value + "\n" + line)])
    else
      match Separator(line, 0)
      case None => None
      case Some(k) => if HasKey(fs, line[..k]) then None else Some(fs + [Field(line[..k], line[k + 2..])])
  }

  function ParseLines(lines: seq<string>): Option<seq<Field>> {
    if lines == [] then Some([])
    else
      match ParseLines(lines[..|lines| - 1])
      case None => None
      case Some(fs) => AddLine(fs, lines[|lines| - 1])
  }

  function Parse(text: string): Option<seq<Field>> {
    ParseLines(SplitLines(text))
  }

  function FieldText(f: Field): string {
    f.key + ": " + f.value + "\n"
  }

  function Print(fs: seq<Field>): string {
    if fs == [] then "" else Print(fs[..|fs| - 1]) + FieldText(fs[|fs| - 1])
  }

  lemma {:induction false} PrefixFails(lines: seq<string>, i: nat)
    requires i <= |lines| && ParseLines(lines[..i]).None?
    ensures ParseLines(lines).None?
    decreases |lines| - i
  {
    if i == |lines| {
      assert lines[..i] == lines;
    } else {
      assert lines[..i + 1][..i] == lines[..i];
      PrefixFails(lines, i + 1);
    }
  }

  method ParseText(text: string) returns (result: Option<seq<Field>>)
    ensures result == Parse(text)
  {
    var lines := SplitLines(text);
    var fs: seq<Field> := [];
    for i := 0 to |lines|
      invariant ParseLines(lines[..i]) == Some(fs)
    {
      var line := lines[i];
      assert lines[..i + 1][..i] == lines[..i];
      if Continues(line) {
        if fs == [] {
          PrefixFails(lines, i + 1);
          return None;
        }
        var current := fs[|fs| - 1];
        fs := fs[..|fs| - 1] + [Field(current.key, current.value + "\n" + line)];
      } else {
        var k := Separator(line, 0);
        if k.None? || HasKey(fs, line[..k.value]) {
          PrefixFails(lines, i + 1);
          return None;
        }
        fs := fs + [Field(line[..k.value], line[k.value + 2..])];
      }
    }
    assert lines[..|lines|] == lines;
    result := Some(fs);
  }

  // ----- lines -------------------------------------------------------------------------

  /** Every line closed by a line feed. */
  function Unlines(lines: seq<string>): string {
    if lines == [] then "" else Unlines(lines[..|lines| - 1]) + lines[|lines| - 1] + "\n"
  }

  /** Empty or newline-terminated text without any other line boundary. */
  predicate PlainLines(text: string) {
    && (text == "" || text[|text| - 1] == '\n')
    && forall i :: 0 <= i < |text| ==> (LineBreak(text[i]) ==> text[i] == '\n')
  }

  predicate AllNoBreak(lines: seq<string>) {
    forall i :: 0 <= i < |lines| ==> NoBreak(lines[i])
  }

  lemma {:induction false} SplitHasNoBreak(text: string)
    ensures AllNoBreak(SplitLines(text))
    decreases |text|
  {
    if text != "" {
      var k := LineEnd(text, 0);
      if k < |text| { SplitHasNoBreak(text[k + BreakLength(text, k)..]); }
    }
  }

  lemma LineEndOf(line: string, rest: string)
    requires NoBreak(line)
    ensures LineEnd(line + "\n" + rest, 0) == |line|
  {
    var s := line + "\n" + rest;
    assert s[|line|] == '\n';
    forall i | 0 <= i < |line|
      ensures !LineBreak(s[i])
    {
      assert s[i] == line[i];
    }
  }

  lemma SplitFirst(line: string, rest: string)
    requires NoBreak(line)
    ensures SplitLines(line + "\n" + rest) == [line] + SplitLines(rest)
  {
    var s := line + "\n" + rest;
    LineEndOf(line, rest);
    assert s[|line|] == '\n' && s[..|line|] == line && s[|line| + 1..] == rest;
  }

  lemma SplitAt(s: string, k: nat)
    requires k < |s| && s[k] == '\n' && NoBreak(s[..k])
    ensures SplitLines(s) == [s[..k]] + SplitLines(s[k + 1..])
  {
    assert s == s[..k] + "\n" + s[k + 1..];
    SplitFirst(s[..k], s[k + 1..]);
  }

  /** The first line of a plain text. */
  lemma FirstLine(a: string) returns (k: nat)
    requires PlainLines(a) && a != ""
    ensures k < |a| && a[k] == '\n' && NoBreak(a[..k]) && PlainLines(a[k + 1..])
  {
    k := LineEnd(a, 0);
    assert k < |a|;
    PlainTail(a, k + 1);
  }

  /** A text that ends with its last line feed splits before whatever follows it. */
  lemma {:induction false} SplitConcat(a: string, b: string)
    requires PlainLines(a)
    ensures SplitLines(a + b) == SplitLines(a) + SplitLines(b)
    decreases |a|
  {
    if a == "" {
      assert a + b == b;
    } else {
      var k := FirstLine(a);
      SplitConcat(a[k + 1..], b);
      calc {
        SplitLines(a + b);
        { SplitAtConcat(a, b, k); }
        [a[..k]] + SplitLines(a[k + 1..] + b);
        [a[..k]] + (SplitLines(a[k + 1..]) + SplitLines(b));
        ([a[..k]] + SplitLines(a[k + 1..])) + SplitLines(b);
        { SplitAt(a, k); }
        SplitLines(a) + SplitLines(b);
      }
    }
  }

  lemma SplitAtConcat(a: string, b: string, k: nat)
    requires k < |a| && a[k] == '\n' && NoBreak(a[..k])
    ensures SplitLines(a + b) == [a[..k]] + SplitLines(a[k + 1..] + b)
  {
    assert (a + b)[..k] == a[..k] && (a + b)[k + 1..] == a[k + 1..] + b;
    SplitAt(a + b, k);
  }

  lemma PlainTail(a: string, k: nat)
    requires PlainLines(a) && k <= |a|
    ensures PlainLines(a[k..])
  {
    forall i | 0 <= i < |a[k..]|
      ensures LineBreak(a[k..][i]) ==> a[k..][i] == '\n'
    {
      assert a[k..][i] == a[k + i];
    }
  }

  lemma {:induction false} UnlinesIsPlain(lines: seq<string>)
    requires AllNoBreak(lines)
    ensures PlainLines(Unlines(lines))
    decreases |lines|
  {
    if lines != [] {
      var n := |lines| - 1;
      UnlinesIsPlain(lines[..n]);
      PlainSnoc(Unlines(lines[..n]), lines[n]);
    }
  }

  lemma PlainSnoc(text: string, line: string)
    requires PlainLines(text) && NoBreak(line)
    ensures PlainLines(text + line + "\n")
  {
  }

  lemma OneLine(line: string)
    requires NoBreak(line)
    ensures SplitLines(line + "\n") == [line]
  {
    assert line + "\n" == line + "\n" + "";
    SplitFirst(line, "");
  }

  lemma {:induction false} SplitUnlines(lines: seq<string>)
    requires AllNoBreak(lines)
    ensures SplitLines(Unlines(lines)) == lines
    decreases |lines|
  {
    if lines != [] {
      var n := |lines| - 1;
      SplitUnlines(lines[..n]);
      UnlinesIsPlain(lines[..n]);
      assert Unlines(lines) == Unlines(lines[..n]) + (lines[n] + "\n");
      SplitConcat(Unlines(lines[..n]), lines[n] + "\n");
      OneLine(lines[n]);
    }
  }

  lemma {:induction false} UnlinesFirst(line: string, rest: seq<string>)
    ensures Unlines([line] + rest) == line + "\n" + Unlines(rest)
    decreases |rest|
  {
    var all := [line] + rest;
    if rest == [] {
      assert all == [line] && all[..0] == [];
    } else {
      var n := |rest| - 1;
      assert all[..n + 1] == [line] + rest[..n] && all[n + 1] == rest[n];
      UnlinesFirst(line, rest[..n]);
    }
  }

  lemma {:induction false} PlainIsUnlined(text: string)
    requires PlainLines(text)
    ensures Unlines(SplitLines(text)) == text
    decreases |text|
  {
    if text != "" {
      var k := FirstLine(text);
      calc {
        Unlines(SplitLines(text));
        { SplitAt(text, k); }
        Unlines([text[..k]] + SplitLines(text[k + 1..]));
        { UnlinesFirst(text[..k], SplitLines(text[k + 1..])); }
        text[..k] + "\n" + Unlines(SplitLines(text[k + 1..]));
        { PlainIsUnlined(text[k + 1..]); }
        text[..k] + "\n" + text[k + 1..];
        text;
      }
    }
  }

  /** Splitting forgets nothing of a text exactly when its only line boundaries are closing line feeds. */
  lemma UnlinesSplit(text: string)
    ensures Unlines(SplitLines(text)) == text <==> PlainLines(text)
  {
    SplitHasNoBreak(text);
    UnlinesIsPlain(SplitLines(text));
    if PlainLines(text) { PlainIsUnlined(text); }
  }

  // ----- text, fields, text ------------------------------------------------------------

  lemma PrintSnoc(fs: seq<Field>, f: Field)
    ensures Print(fs + [f]) == Print(fs) + FieldText(f)
  {
    assert (fs + [f])[..|fs|] == fs;
  }

  lemma PrintAddLine(fs: seq<Field>, line: string)
    requires AddLine(fs, line).Some?
    ensures Print(AddLine(fs, line).value) == Print(fs) + line + "\n"
  {
    if Continues(line) {
      var n := |fs| - 1;
      var last := fs[n];
      PrintSnoc(fs[..n], Field(last.key, last.value + "\n" + line));
      assert FieldText(Field(last.key, last.value + "\n" + line)) == FieldText(last) + line + "\n";
    } else {
      var k := Separator(line, 0).value;
      PrintSnoc(fs, Field(line[..k], line[k + 2..]));
      assert line == line[..k] + ": " + line[k + 2..];
    }
  }

  lemma {:induction false} PrintParsed(lines: seq<string>)
    requires ParseLines(lines).Some?
    ensures Print(ParseLines(lines).value) == Unlines(lines)
    decreases |lines|
  {
    if lines != [] {
      var n := |lines| - 1;
      PrintParsed(lines[..n]);
      PrintAddLine(ParseLines(lines[..n]).value, lines[n]);
    }
  }

  /** Printing the parse gives the text back, exactly for plain newline-terminated text. */
  lemma TextRoundTrip(text: string)
    requires Parse(text).Some?
    ensures Print(Parse(text).value) == text <==> PlainLines(text)
  {
    PrintParsed(SplitLines(text));
    UnlinesSplit(text);
  }

  /** Parsing the print of a parse gives its fields back: keys, order, continuation lines. */
  lemma FieldsRoundTrip(text: string)
    requires Parse(text).Some?
    ensures Parse(Print(Parse(text).value)) == Parse(text)
  {
    PrintParsed(SplitLines(text));
    SplitHasNoBreak(text);
    SplitUnlines(SplitLines(text));
  }

  /** Carriage returns are lost as part of a line boundary, so this accepted text does not come back. */
  lemma CarriageReturnsAreLost()
    ensures Parse("a: b\r\n").Some? && Print(Parse("a: b\r\n").value) != "a: b\r\n"
  {
    var text, line := "a: b\r\n", "a: b";
    assert LineEnd(text, 0) == 4 && BreakLength(text, 4) == 2;
    assert text[..4] == line && text[6..] == "";
    assert [line][..0] == [];
    assert Separator(line, 0) == Separator(line, 1) == Some(1);
    assert ParseLines([line]) == AddLine([], line);
    assert !PlainLines(text) by { assert LineBreak(text[4]); }
    TextRoundTrip(text);
  }
}
