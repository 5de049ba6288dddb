/** What blanking does to a flow mapping: read again, it has every entry but its queue. */
module LintMeaning {
  import opened Common
  import opened PythonText
  import opened LintCopy

  /** One entry as it is written: blanks, key, separator, value, blanks. */
  datatype Entry = Entry(before: string, key: string, colon: string, value: string, after: string)

  predicate Gap(s: string) {
    forall i :: 0 <= i < |s| ==> s[i] == ' ' || s[i] == '\t' || s[i] == '\r' || s[i] == '\n'
  }

  predicate Token(s: string) {
    && s != "" && !Space(s[0]) && !Space(s[|s| - 1])
    && forall i :: 0 <= i < |s| ==> s[i] != ',' && s[i] != '{' && s[i] != '}'
  }

  /** A colon with blanks around it. */
  predicate Colon(s: string) {
    exists k :: 0 <= k < |s| && s[k] == ':' && Gap(s[..k]) && Gap(s[k + 1..])
  }

  predicate Plain(e: Entry) {
    && Gap(e.before) && Token(e.key) && ':' !in e.key && Colon(e.colon) && Token(e.value) && Gap(e.after)
  }

  predicate AllPlain(es: seq<Entry>) {
    forall i :: 0 <= i < |es| ==> Plain(es[i])
  }

  // ----- writing -----------------------------------------------------------------------

  function EntryText(e: Entry): string {
    e.before + e.key + e.colon + e.value + e.after
  }

  /** Entries with a comma after each. */
  function Heads(es: seq<Entry>): string {
    if es == [] then "" else Heads(es[..|es| - 1]) + EntryText(es[|es| - 1]) + ","
  }

  /** Entries with a comma before each. */
  function Tails(es: seq<Entry>): string {
    if es == [] then "" else "," + EntryText(es[0]) + Tails(es[1..])
  }

  /** What stands before the closing brace: a trailing comma with blanks, or nothing. */
  function Trail(trailing: Option<string>): string {
    if trailing.Some? then "," + trailing.value else ""
  }

  /** Entries with commas between them. */
  function Body(es: seq<Entry>): string
    requires es != []
  {
    EntryText(es[0]) + Tails(es[1..])
  }

  function FlowText(es: seq<Entry>, trailing: Option<string>): string
    requires es != []
  {
    "{" + Body(es) + Trail(trailing) + "}"
  }

  // ----- reading -----------------------------------------------------------------------

  function SplitCommas(s: string): seq<string>
    decreases |s|
  {
    var k := FindOrEnd(s, ',', 0);
    if k == |s| then [s] else [s[..k]] + SplitCommas(s[k + 1..])
  }

  function ReadEntry(piece: string): Option<(string, string)> {
    var k := FindOrEnd(piece, ':', 0);
    if k == |piece| || Strip(piece[..k]) == "" then None else Some((Strip(piece[..k]), Strip(piece[k + 1..])))
  }

  function ReadEntries(pieces: seq<string>): Option<seq<(string, string)>> {
    if pieces == [] then Some([])
    else
      match (ReadEntry(pieces[0]), ReadEntries(pieces[1..]))
      case (Some(e), Some(rest)) => Some([e] + rest)
      case (_, _) => None
  }

  /** A plain flow mapping: entries between commas; one trailing comma may follow an entry, but not stand alone. */
  function ReadFlow(text: string): Option<seq<(string, string)>> {
    if |text| < 2 || text[0] != '{' || text[|text| - 1] != '}' then None
    else
      var pieces := SplitCommas(text[1..|text| - 1]);
      var last := |pieces| - 1;
      if |pieces| == 1 && Strip(pieces[0]) == "" then Some([])
      else if |pieces| > 1 && Strip(pieces[last]) == "" then ReadEntries(pieces[..last])
      else ReadEntries(pieces)
  }

  function Meaning(es: seq<Entry>): seq<(string, string)> {
    seq(|es|, i requires 0 <= i < |es| => (es[i].key, es[i].value))
  }

  // ----- reading what was written ------------------------------------------------------

  lemma FindAt(s: string, c: char, k: nat)
    requires k <= |s| && (k < |s| ==> s[k] == c) && forall i :: 0 <= i < k ==> s[i] != c
    ensures FindOrEnd(s, c, 0) == k
  {
  }

  lemma SplitComma(first: string, rest: string)
    requires ',' !in first
    ensures SplitCommas(first + "," + rest) == [first] + SplitCommas(rest)
  {
    var s := first + "," + rest;
    assert forall i :: 0 <= i < |first| ==> s[i] == first[i] && first[i] in first;
    FindAt(s, ',', |first|);
    assert s[..|first|] == first && s[|first| + 1..] == rest;
  }

  lemma SplitOne(s: string)
    requires ',' !in s
    ensures SplitCommas(s) == [s]
  {
    assert forall i :: 0 <= i < |s| ==> s[i] in s;
    FindAt(s, ',', |s|);
  }

  lemma GapHasNone(s: string)
    requires Gap(s)
    ensures ',' !in s && ':' !in s
  {
  }

  lemma EntryHasNoComma(e: Entry)
    requires Plain(e)
    ensures ',' !in EntryText(e)
  {
    GapHasNone(e.before);
    GapHasNone(e.after);
    var k :| 0 <= k < |e.colon| && e.colon[k] == ':' && Gap(e.colon[..k]) && Gap(e.colon[k + 1..]);
    GapHasNone(e.colon[..k]);
    GapHasNone(e.colon[k + 1..]);
    assert e.colon == e.colon[..k] + ":" + e.colon[k + 1..];
  }

  lemma {:induction false} LeftStripGap(gap: string, s: string)
    requires Gap(gap) && (s == "" || !Space(s[0]))
    ensures LeftStrip(gap + s) == s
    decreases |gap|
  {
    if gap == "" {
      assert gap + s == s;
    } else {
      assert (gap + s)[1..] == gap[1..] + s;
      LeftStripGap(gap[1..], s);
    }
  }

  lemma {:induction false} RightStripGap(s: string, gap: string)
    requires Gap(gap) && (s == "" || !Space(s[|s| - 1]))
    ensures RightStrip(s + gap) == s
    decreases |gap|
  {
    if gap == "" {
      assert s + gap == s;
    } else {
      assert (s + gap)[..|s + gap| - 1] == s + gap[..|gap| - 1];
      RightStripGap(s, gap[..|gap| - 1]);
    }
  }

  lemma StripPadded(a: string, token: string, b: string)
    requires Gap(a) && Token(token) && Gap(b)
    ensures Strip(a + token + b) == token
  {
    assert a + token + b == a + (token + b);
    LeftStripGap(a, token + b);
    RightStripGap(token, b);
  }

  lemma StripGap(gap: string)
    requires Gap(gap)
    ensures Strip(gap) == ""
  {
    assert gap + "" == gap;
    LeftStripGap(gap, "");
  }

  lemma JoinGaps(a: string, b: string)
    requires Gap(a) && Gap(b)
    ensures Gap(a + b)
  {
  }

  /** The first colon of an entry is its separator. */
  lemma ColonAt(left: string, right: string)
    requires ':' !in left
    ensures FindOrEnd(left + ":" + right, ':', 0) == |left|
  {
    var s := left + ":" + right;
    assert forall i :: 0 <= i < |left| ==> s[i] == left[i] && left[i] in left;
    FindAt(s, ':', |left|);
  }

  lemma ReadOneEntry(e: Entry)
    requires Plain(e)
    ensures ReadEntry(EntryText(e)) == Some((e.key, e.value))
  {
    var k :| 0 <= k < |e.colon| && e.colon[k] == ':' && Gap(e.colon[..k]) && Gap(e.colon[k + 1..]);
    var left, right := e.before + e.key + e.colon[..k], e.colon[k + 1..] + e.value + e.after;
    GapHasNone(e.before);
    GapHasNone(e.colon[..k]);
    assert EntryText(e) == left + ":" + right by { assert e.colon == e.colon[..k] + ":" + e.colon[k + 1..]; }
    ColonAt(left, right);
    assert (left + ":" + right)[..|left|] == left && (left + ":" + right)[|left| + 1..] == right;
    StripPadded(e.before, e.key, e.colon[..k]);
    StripPadded(e.colon[k + 1..], e.value, e.after);
  }

  function Texts(es: seq<Entry>): seq<string> {
    seq(|es|, i requires 0 <= i < |es| => EntryText(es[i]))
  }

  lemma {:induction false} ReadAllEntries(es: seq<Entry>)
    requires AllPlain(es)
    ensures ReadEntries(Texts(es)) == Some(Meaning(es))
    decreases |es|
  {
    if es != [] {
      ReadOneEntry(es[0]);
      ReadAllEntries(es[1..]);
      assert Texts(es)[1..] == Texts(es[1..]);
      assert Meaning(es) == [(es[0].key, es[0].value)] + Meaning(es[1..]);
    }
  }

  lemma BodyStep(es: seq<Entry>)
    requires |es| > 1
    ensures Body(es) == EntryText(es[0]) + "," + Body(es[1..])
  {
  }

  lemma {:induction false} SplitBody(es: seq<Entry>)
    requires es != [] && AllPlain(es)
    ensures SplitCommas(Body(es)) == Texts(es)
    decreases |es|
  {
    EntryHasNoComma(es[0]);
    if |es| == 1 {
      assert Body(es) == EntryText(es[0]);
      SplitOne(EntryText(es[0]));
      assert Texts(es) == [EntryText(es[0])];
    } else {
      calc {
        SplitCommas(Body(es));
        { BodyStep(es); }
        SplitCommas(EntryText(es[0]) + "," + Body(es[1..]));
        { SplitComma(EntryText(es[0]), Body(es[1..])); }
        [EntryText(es[0])] + SplitCommas(Body(es[1..]));
        { SplitBody(es[1..]); }
        [EntryText(es[0])] + Texts(es[1..]);
        Texts(es);
      }
    }
  }

  lemma {:induction false} SplitTrailed(es: seq<Entry>, gap: string)
    requires es != [] && AllPlain(es) && Gap(gap)
    ensures SplitCommas(Body(es) + "," + gap) == Texts(es) + [gap]
    decreases |es|
  {
    EntryHasNoComma(es[0]);
    if |es| == 1 {
      assert Body(es) == EntryText(es[0]);
      SplitComma(EntryText(es[0]), gap);
      GapHasNone(gap);
      SplitOne(gap);
      assert Texts(es) == [EntryText(es[0])];
    } else {
      calc {
        SplitCommas(Body(es) + "," + gap);
        { BodyStep(es); TrailedStep(EntryText(es[0]), Body(es[1..]), gap); }
        SplitCommas(EntryText(es[0]) + "," + (Body(es[1..]) + "," + gap));
        { SplitComma(EntryText(es[0]), Body(es[1..]) + "," + gap); }
        [EntryText(es[0])] + SplitCommas(Body(es[1..]) + "," + gap);
        { SplitTrailed(es[1..], gap); }
        [EntryText(es[0])] + (Texts(es[1..]) + [gap]);
        Texts(es) + [gap];
      }
    }
  }

  lemma TrailedStep(a: string, b: string, c: string)
    ensures a + "," + b + "," + c == a + "," + (b + "," + c)
  {
  }

  lemma EntryIsNotBlank(e: Entry)
    requires Plain(e)
    ensures Strip(EntryText(e)) != ""
  {
    assert e.key[0] in EntryText(e);
    StripKeeps(EntryText(e), e.key[0]);
  }

  /** Reading braces around a body of known pieces. */
  lemma ReadBraces(body: string, pieces: seq<string>)
    requires SplitCommas(body) == pieces && pieces != []
    ensures ReadFlow("{" + body + "}")
         == if |pieces| == 1 && Strip(pieces[0]) == "" then Some([])
            else if |pieces| > 1 && Strip(pieces[|pieces| - 1]) == "" then ReadEntries(pieces[..|pieces| - 1])
            else ReadEntries(pieces)
  {
    var text := "{" + body + "}";
    assert text[1..|text| - 1] == body;
  }

  lemma ReadBare(es: seq<Entry>)
    requires es != [] && AllPlain(es)
    ensures ReadFlow("{" + Body(es) + "}") == Some(Meaning(es))
  {
    var last := |es| - 1;
    SplitBody(es);
    ReadBraces(Body(es), Texts(es));
    EntryIsNotBlank(es[last]);
    assert Texts(es)[last] == EntryText(es[last]);
    ReadAllEntries(es);
  }

  lemma ReadTrailed(es: seq<Entry>, gap: string)
    requires es != [] && AllPlain(es) && Gap(gap)
    ensures ReadFlow("{" + (Body(es) + "," + gap) + "}") == Some(Meaning(es))
  {
    SplitTrailed(es, gap);
    ReadBraces(Body(es) + "," + gap, Texts(es) + [gap]);
    StripGap(gap);
    assert (Texts(es) + [gap])[..|es|] == Texts(es);
    ReadAllEntries(es);
  }

  /** Reading a written mapping gives its entries, with or without a trailing comma. */
  lemma ReadWritten(es: seq<Entry>, trailing: Option<string>)
    requires es != [] && AllPlain(es) && (trailing.Some? ==> Gap(trailing.value))
    ensures ReadFlow(FlowText(es, trailing)) == Some(Meaning(es))
  {
    match trailing
    case None =>
      ReadBare(es);
      assert FlowText(es, trailing) == "{" + Body(es) + "}";
    case Some(gap) =>
      ReadTrailed(es, gap);
      assert FlowText(es, trailing) == "{" + (Body(es) + "," + gap) + "}";
  }
}
