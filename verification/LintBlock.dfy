/** What blanking does to a block mapping: its line of the queue becomes blank, and the rest reads as before. */
module LintBlock {
  import opened Common
  import opened PythonText
  import opened LintCopy
  import opened LintMeaning
  import opened LintQueue

  /** One entry on its line: key, separator, value, blanks, and perhaps a comment. */
  datatype Line = Line(key: string, colon: string, value: string, after: string, comment: string)

  /** A plain scalar on one line. */
  predicate Word(s: string) {
    s != "" && !Space(s[0]) && !Space(s[|s| - 1]) && '\n' !in s && '#' !in s
  }

  predicate PlainLine(l: Line) {
    && Word(l.key) && ':' !in l.key && Colon(l.colon) && '\n' !in l.colon && Word(l.value)
    && Gap(l.after) && '\n' !in l.after && '\n' !in l.comment && (l.comment != "" ==> l.comment[0] == '#')
  }

  predicate AllLines(ls: seq<Line>) {
    forall i :: 0 <= i < |ls| ==> PlainLine(ls[i])
  }

  // ----- writing -----------------------------------------------------------------------

  function Margin(n: nat): (r: string)
    ensures |r| == n
  {
    seq(n, _ => ' ')
  }

  function Written(l: Line): string {
    l.key + l.colon + l.value
  }

  function LineText(l: Line, n: nat): string {
    Margin(n) + Written(l) + (l.after + l.comment)
  }

  function LineTexts(ls: seq<Line>, n: nat): seq<string> {
    seq(|ls|, i requires 0 <= i < |ls| => LineText(ls[i], n))
  }

  /** Lines with line feeds between them. */
  function Joined(texts: seq<string>): string
    requires texts != []
  {
    if |texts| == 1 then texts[0] else texts[0] + "\n" + Joined(texts[1..])
  }

  /** A source with a block mapping of this margin in it. */
  function BlockSource(pre: string, ls: seq<Line>, n: nat, post: string): string
    requires ls != []
  {
    pre + Joined(LineTexts(ls, n)) + post
  }

  // ----- reading -----------------------------------------------------------------------

  function SplitLines(s: string): seq<string>
    decreases |s|
  {
    var k := FindOrEnd(s, '\n', 0);
    if k == |s| then [s] else [s[..k]] + SplitLines(s[k + 1..])
  }

  /** A line up to its comment. */
  function Cut(line: string): string {
    line[..FindOrEnd(line, '#', 0)]
  }

  function Indent(line: string): nat {
    if line != "" && line[0] == ' ' then 1 + Indent(line[1..]) else 0
  }

  /** The margin of the first line that is not blank. */
  function FirstIndent(lines: seq<string>): Option<nat> {
    if lines == [] then None
    else if Strip(Cut(lines[0])) == "" then FirstIndent(lines[1..])
    else Some(Indent(lines[0]))
  }

  /** What one line adds: nothing if it is blank or a comment, an entry if it has this margin. */
  function ReadLine(line: string, n: nat): Option<seq<(string, string)>> {
    var text := Cut(line);
    if Strip(text) == "" then Some([])
    else if Indent(text) != n || ReadEntry(text).None? then None
    else Some([ReadEntry(text).value])
  }

  function Flatten<T>(parts: seq<Option<seq<T>>>): Option<seq<T>> {
    if parts == [] then Some([])
    else
      match (parts[0], Flatten(parts[1..]))
      case (Some(first), Some(rest)) => Some(first + rest)
      case (_, _) => None
  }

  function Readings(lines: seq<string>, n: nat): seq<Option<seq<(string, string)>>> {
    seq(|lines|, i requires 0 <= i < |lines| => ReadLine(lines[i], n))
  }

  function ReadLines(lines: seq<string>, n: nat): Option<seq<(string, string)>> {
    Flatten(Readings(lines, n))
  }

  /** A plain block mapping; with no entry left there is no mapping. */
  function ReadBlock(text: string): Option<seq<(string, string)>> {
    var lines := SplitLines(text);
    match FirstIndent(lines)
    case None => None
    case Some(n) => ReadLines(lines, n)
  }

  function Entries(ls: seq<Line>): seq<(string, string)> {
    seq(|ls|, i requires 0 <= i < |ls| => (ls[i].key, ls[i].value))
  }

  // ----- one line ----------------------------------------------------------------------

  lemma CutAtComment(text: string, comment: string)
    requires '#' !in text && (comment != "" ==> comment[0] == '#')
    ensures Cut(text + comment) == text
  {
    var line := text + comment;
    assert forall i :: 0 <= i < |text| ==> line[i] == text[i] && text[i] in text;
    FindAt(line, '#', |text|);
  }

  lemma GapHasNoSign(s: string)
    requires Gap(s)
    ensures ':' !in s && '#' !in s
  {
  }

  lemma ColonHasNoComment(colon: string)
    requires Colon(colon)
    ensures '#' !in colon
  {
    var k :| 0 <= k < |colon| && colon[k] == ':' && Gap(colon[..k]) && Gap(colon[k + 1..]);
    GapHasNoSign(colon[..k]);
    GapHasNoSign(colon[k + 1..]);
    assert colon == colon[..k] + ":" + colon[k + 1..];
  }

  lemma MarginIsGap(n: nat)
    ensures Gap(Margin(n))
  {
  }

  lemma {:induction false} IndentOfMargin(n: nat, s: string)
    requires s != "" && s[0] != ' '
    ensures Indent(Margin(n) + s) == n
  {
    if n == 0 {
      assert Margin(0) + s == s;
    } else {
      assert (Margin(n) + s)[1..] == Margin(n - 1) + s;
      IndentOfMargin(n - 1, s);
    }
  }

  lemma StripWord(a: string, word: string, b: string)
    requires Gap(a) && Word(word) && Gap(b)
    ensures Strip(a + word + b) == word
  {
    assert a + word + b == a + (word + b);
    LeftStripGap(a, word + b);
    RightStripGap(word, b);
  }

  /** A written line without its comment. */
  function Bare(l: Line, n: nat): string {
    Margin(n) + Written(l) + l.after
  }

  lemma CutWritten(l: Line, n: nat)
    requires PlainLine(l)
    ensures Cut(LineText(l, n)) == Bare(l, n)
  {
    MarginIsGap(n);
    GapHasNoSign(Margin(n));
    ColonHasNoComment(l.colon);
    GapHasNoSign(l.after);
    CutAtComment(Bare(l, n), l.comment);
    assert LineText(l, n) == Bare(l, n) + l.comment;
  }

  lemma BareIsNotBlank(l: Line, n: nat)
    requires PlainLine(l)
    ensures Strip(Bare(l, n)) != "" && Indent(Bare(l, n)) == n
  {
    assert l.key[0] in Bare(l, n);
    StripKeeps(Bare(l, n), l.key[0]);
    var rest := Written(l) + l.after;
    assert Bare(l, n) == Margin(n) + rest && rest[0] == l.key[0];
    IndentOfMargin(n, rest);
  }

  lemma ReadAround(a: string, key: string, b: string, c: string, value: string, d: string)
    requires Gap(a) && Word(key) && ':' !in key && Gap(b) && Gap(c) && Word(value) && Gap(d)
    ensures ReadEntry((a + key + b) + ":" + (c + value + d)) == Some((key, value))
  {
    var left, right := a + key + b, c + value + d;
    GapHasNoSign(a);
    GapHasNoSign(b);
    ColonAt(left, right);
    assert (left + ":" + right)[..|left|] == left && (left + ":" + right)[|left| + 1..] == right;
    StripWord(a, key, b);
    StripWord(c, value, d);
  }

  lemma BareAround(margin: string, key: string, b: string, c: string, value: string, d: string)
    ensures margin + (key + (b + ":" + c) + value) + d == (margin + key + b) + ":" + (c + value + d)
  {
  }

  lemma ReadBareLine(l: Line, n: nat)
    requires PlainLine(l)
    ensures ReadEntry(Bare(l, n)) == Some((l.key, l.value))
  {
    var k :| 0 <= k < |l.colon| && l.colon[k] == ':' && Gap(l.colon[..k]) && Gap(l.colon[k + 1..]);
    assert l.colon == l.colon[..k] + ":" + l.colon[k + 1..];
    MarginIsGap(n);
    BareAround(Margin(n), l.key, l.colon[..k], l.colon[k + 1..], l.value, l.after);
    ReadAround(Margin(n), l.key, l.colon[..k], l.colon[k + 1..], l.value, l.after);
  }

  lemma ReadWrittenLine(l: Line, n: nat)
    requires PlainLine(l)
    ensures ReadLine(LineText(l, n), n) == Some([(l.key, l.value)])
  {
    CutWritten(l, n);
    BareIsNotBlank(l, n);
    ReadBareLine(l, n);
  }

  // ----- all lines ---------------------------------------------------------------------

  /** No line holds a line feed. */
  predicate Unbroken(texts: seq<string>) {
    forall i :: 0 <= i < |texts| ==> '\n' !in texts[i]
  }

  lemma {:induction false} SplitJoined(texts: seq<string>)
    requires texts != [] && Unbroken(texts)
    ensures SplitLines(Joined(texts)) == texts
    decreases |texts|
  {
    var first, s := texts[0], Joined(texts);
    assert forall i :: 0 <= i < |first| ==> s[i] == first[i] && first[i] in first;
    FindAt(s, '\n', |first|);
    if |texts| > 1 {
      assert s[..|first|] == first && s[|first| + 1..] == Joined(texts[1..]);
      SplitJoined(texts[1..]);
    }
  }

  lemma Regroup3<T>(a: seq<T>, b: seq<T>, c: seq<T>)
    ensures a + b + c == a + (b + c)
  {
  }

  lemma {:induction false} FlattenConcat<T>(a: seq<Option<seq<T>>>, b: seq<Option<seq<T>>>)
    requires Flatten(a).Some? && Flatten(b).Some?
    ensures Flatten(a + b) == Some(Flatten(a).value + Flatten(b).value)
    decreases |a|
  {
    if a == [] {
      assert a + b == b && [] + Flatten(b).value == Flatten(b).value;
    } else {
      assert (a + b)[1..] == a[1..] + b;
      FlattenConcat(a[1..], b);
      Regroup3(a[0].value, Flatten(a[1..]).value, Flatten(b).value);
    }
  }

  function Singles<T>(items: seq<T>): seq<Option<seq<T>>> {
    seq(|items|, i requires 0 <= i < |items| => Some([items[i]]))
  }

  lemma {:induction false} FlattenSingles<T>(items: seq<T>)
    ensures Flatten(Singles(items)) == Some(items)
    decreases |items|
  {
    var parts := Singles(items);
    if items == [] {
      assert parts == [];
    } else {
      assert parts[0] == Some([items[0]]) && parts[1..] == Singles(items[1..]);
      FlattenSingles(items[1..]);
      assert [items[0]] + items[1..] == items;
    }
  }

  /** A part that adds nothing. */
  lemma FlattenHole<T>(front: seq<T>, rest: seq<T>)
    ensures Flatten(Singles(front) + ([Some([])] + Singles(rest))) == Some(front + rest)
  {
    var behind := [Some([])] + Singles(rest);
    FlattenSingles(front);
    FlattenSingles(rest);
    assert behind[0] == Some([]) && behind[1..] == Singles(rest) && [] + rest == rest;
    FlattenConcat(Singles(front), behind);
  }

  lemma ReadingsOfLines(ls: seq<Line>, n: nat)
    requires AllLines(ls)
    ensures Readings(LineTexts(ls, n), n) == Singles(Entries(ls))
  {
    forall i | 0 <= i < |ls|
      ensures ReadLine(LineText(ls[i], n), n) == Some([Entries(ls)[i]])
    {
      ReadWrittenLine(ls[i], n);
    }
  }

  lemma FirstLineIndent(l: Line, n: nat, rest: seq<string>)
    requires PlainLine(l)
    ensures FirstIndent([LineText(l, n)] + rest) == Some(n)
  {
    CutWritten(l, n);
    BareIsNotBlank(l, n);
    assert LineText(l, n) == Margin(n) + (Written(l) + (l.after + l.comment));
    IndentOfMargin(n, Written(l) + (l.after + l.comment));
  }

  lemma LinesAreUnbroken(ls: seq<Line>, n: nat)
    requires AllLines(ls)
    ensures Unbroken(LineTexts(ls, n))
  {
    MarginIsGap(n);
    forall i | 0 <= i < |ls|
      ensures '\n' !in LineText(ls[i], n)
    {
      assert PlainLine(ls[i]);
      assert '\n' !in Margin(n);
    }
  }

  /** Reading a written block mapping gives its entries. */
  lemma ReadWrittenBlock(ls: seq<Line>, n: nat)
    requires ls != [] && AllLines(ls)
    ensures ReadBlock(Joined(LineTexts(ls, n))) == Some(Entries(ls))
  {
    var texts := LineTexts(ls, n);
    LinesAreUnbroken(ls, n);
    SplitJoined(texts);
    FirstLineIndent(ls[0], n, texts[1..]);
    assert texts == [texts[0]] + texts[1..];
    ReadingsOfLines(ls, n);
    FlattenSingles(Entries(ls));
  }

  // ----- one line blanked --------------------------------------------------------------

  /** The line that is left of an entry. */
  function Blanks(l: Line, n: nat): string {
    Margin(n) + Spaces(Written(l)) + (l.after + l.comment)
  }

  lemma BlanksAreBlank(l: Line, n: nat)
    requires PlainLine(l)
    ensures Strip(Cut(Blanks(l, n))) == "" && ReadLine(Blanks(l, n), n) == Some([]) && '\n' !in Blanks(l, n)
  {
    var gap := Margin(n) + Spaces(Written(l)) + l.after;
    MarginIsGap(n);
    SpacesAreGap(Written(l));
    JoinGaps(Margin(n), Spaces(Written(l)));
    JoinGaps(Margin(n) + Spaces(Written(l)), l.after);
    GapHasNoSign(gap);
    CutAtComment(gap, l.comment);
    assert Blanks(l, n) == gap + l.comment;
    StripGap(gap);
    assert '\n' !in Written(l);
    assert forall i :: 0 <= i < |Written(l)| ==> Written(l)[i] in Written(l);
    assert '\n' !in Spaces(Written(l)) && '\n' !in Margin(n);
  }

  /** The lines with one of them blanked. */
  function BlankedLines(ls: seq<Line>, n: nat, q: nat): seq<string>
    requires q < |ls|
  {
    LineTexts(ls, n)[q := Blanks(ls[q], n)]
  }

  lemma BlankedReading(ls: seq<Line>, n: nat, q: nat, i: nat, line: string)
    requires AllLines(ls) && q < |ls| && i < |ls| && line == BlankedLines(ls, n, q)[i]
    ensures ReadLine(line, n) == Some(if i == q then [] else [Entries(ls)[i]])
  {
    if i == q {
      BlanksAreBlank(ls[q], n);
    } else {
      ReadWrittenLine(ls[i], n);
    }
  }

  lemma ReadingsOfBlanked(ls: seq<Line>, n: nat, q: nat, readings: seq<Option<seq<(string, string)>>>)
    requires AllLines(ls) && q < |ls| && readings == Readings(BlankedLines(ls, n, q), n)
    ensures readings == Singles(Entries(ls[..q])) + ([Some([])] + Singles(Entries(ls[q + 1..])))
  {
    forall i | 0 <= i < |ls|
      ensures readings[i] == Some(if i == q then [] else [Entries(ls)[i]])
    {
      BlankedReading(ls, n, q, i, BlankedLines(ls, n, q)[i]);
    }
  }

  lemma ReadBlanked(ls: seq<Line>, n: nat, q: nat)
    requires AllLines(ls) && q < |ls|
    ensures ReadLines(BlankedLines(ls, n, q), n) == Some(Without(Entries(ls), q))
  {
    ReadingsOfBlanked(ls, n, q, Readings(BlankedLines(ls, n, q), n));
    FlattenHole(Entries(ls[..q]), Entries(ls[q + 1..]));
    assert Entries(ls[..q]) + Entries(ls[q + 1..]) == Without(Entries(ls), q);
  }

  lemma IndentOfBlanked(ls: seq<Line>, n: nat, q: nat)
    requires AllLines(ls) && q < |ls|
    ensures FirstIndent(BlankedLines(ls, n, q)) == if |ls| == 1 then None else Some(n)
  {
    var lines := BlankedLines(ls, n, q);
    BlanksAreBlank(ls[q], n);
    if q > 0 {
      FirstLineIndent(ls[0], n, lines[1..]);
      assert lines == [LineText(ls[0], n)] + lines[1..];
    } else if |ls| > 1 {
      FirstLineIndent(ls[1], n, lines[2..]);
      assert lines[1..] == [LineText(ls[1], n)] + lines[2..];
    } else {
      assert lines[1..] == [];
    }
  }

  /** With one line blanked a block mapping reads as before without that entry; without its only one it is gone. */
  lemma ReadBlankedBlock(ls: seq<Line>, n: nat, q: nat)
    requires AllLines(ls) && q < |ls|
    ensures ReadBlock(Joined(BlankedLines(ls, n, q)))
         == if |ls| == 1 then None else Some(Without(Entries(ls), q))
  {
    var lines := BlankedLines(ls, n, q);
    LinesAreUnbroken(ls, n);
    BlanksAreBlank(ls[q], n);
    SplitJoined(lines);
    IndentOfBlanked(ls, n, q);
    ReadBlanked(ls, n, q);
  }

  // ----- marks -------------------------------------------------------------------------

  /** What stands before line i, and behind it. */
  function Front(texts: seq<string>, i: nat): string
    requires i < |texts|
  {
    if i == 0 then "" else texts[0] + "\n" + Front(texts[1..], i - 1)
  }

  function Back(texts: seq<string>, i: nat): string
    requires i < |texts|
  {
    if i == |texts| - 1 then "" else "\n" + Joined(texts[i + 1..])
  }

  lemma {:induction false} JoinedAt(texts: seq<string>, i: nat)
    requires i < |texts|
    ensures Joined(texts) == Front(texts, i) + texts[i] + Back(texts, i)
    decreases |texts|
  {
    if i == 0 {
      JoinedAtFirst(texts);
    } else {
      JoinedAt(texts[1..], i - 1);
      JoinedBehind(texts, i, texts[1..]);
    }
  }

  lemma JoinedAtFirst(texts: seq<string>)
    requires texts != []
    ensures Joined(texts) == Front(texts, 0) + texts[0] + Back(texts, 0)
  {
    assert "" + texts[0] == texts[0] && texts[0] + "" == texts[0];
    if |texts| > 1 { Regroup3(texts[0], "\n", Joined(texts[1..])); }
  }

  /** Line i counted from the second line on. */
  lemma JoinedBehind(texts: seq<string>, i: nat, rest: seq<string>)
    requires 0 < i < |texts| && rest == texts[1..]
    requires Joined(rest) == Front(rest, i - 1) + rest[i - 1] + Back(rest, i - 1)
    ensures Joined(texts) == Front(texts, i) + texts[i] + Back(texts, i)
  {
    assert rest[i..] == texts[i + 1..] && rest[i - 1] == texts[i];
    var first, front, back := texts[0] + "\n", Front(rest, i - 1), Back(rest, i - 1);
    Regroup3(first, front + texts[i], back);
    Regroup3(first, front, texts[i]);
  }

  lemma {:induction false} SameFront(texts: seq<string>, other: seq<string>, i: nat)
    requires i < |texts| && i < |other| && forall j :: 0 <= j < i ==> texts[j] == other[j]
    ensures Front(texts, i) == Front(other, i)
    decreases i
  {
    if i > 0 { SameFront(texts[1..], other[1..], i - 1); }
  }

  /** The node of the entry on line i, when the first line starts at position at. */
  function LineNode(ls: seq<Line>, n: nat, at: nat, i: nat): Pair
    requires i < |ls|
  {
    var l := ls[i];
    var key := at + |Front(LineTexts(ls, n), i)| + n;
    var value := key + |l.key| + |l.colon|;
    Pair(Scalar(l.key, STR, key, key + |l.key|), Scalar(l.value, STR, value, value + |l.value|))
  }

  /** The node of the mapping; a block mapping may be marked as ending behind its last value. */
  function BlockNode(ls: seq<Line>, n: nat, at: nat, end: nat): Node {
    Mapping(seq(|ls|, i requires 0 <= i < |ls| => LineNode(ls, n, at, i)), false, at + n, end)
  }

  /** Where the entry on line q is written. */
  function LineSpan(ls: seq<Line>, n: nat, at: nat, q: nat): Span
    requires q < |ls|
  {
    var start := at + |Front(LineTexts(ls, n), q)| + n;
    Span(start, start + |Written(ls[q])|)
  }

  ghost predicate QueueOnLine(ls: seq<Line>, n: nat, at: nat, end: nat, q: nat) {
    && q < |ls| && AllLines(ls) && ls[q].key == "queue" && LineNode(ls, n, at, q).value.end <= end
    && FieldOf(BlockNode(ls, n, at, end), "queue").Some? && Supported(BlockNode(ls, n, at, end))
  }

  /** The span of a queue on its own line is the entry as it is written. */
  lemma SpanOfLine(ls: seq<Line>, n: nat, at: nat, end: nat, q: nat, node: Node, source: string)
    requires QueueOnLine(ls, n, at, end, q) && node == BlockNode(ls, n, at, end)
    ensures QueueSpan(node, source) == Returned(LineSpan(ls, n, at, q))
  {
    assert PlainLine(ls[q]);
    assert node.entries[q] == LineNode(ls, n, at, q);
    var i := IndexOf(node.entries, "queue", 0).value;
    assert Names(node.entries[q].key, "queue");
    assert i == q;
  }

  lemma RegroupLine(pre: string, front: string, margin: string, b: string, rest: string, back: string, post: string)
    ensures (pre + front + margin) + b + (rest + back + post) == pre + (front + (margin + b + rest) + back) + post
  {
  }

  /** Blanking the entry of one line blanks that line. */
  lemma BlankLine(pre: string, ls: seq<Line>, n: nat, post: string, q: nat, span: Span)
    requires q < |ls| && span == LineSpan(ls, n, |pre|, q)
    ensures Blanked(BlockSource(pre, ls, n, post), [span]) == pre + Joined(BlankedLines(ls, n, q)) + post
  {
    var texts, lines, l := LineTexts(ls, n), BlankedLines(ls, n, q), ls[q];
    var front, back, rest := Front(texts, q), Back(texts, q), l.after + l.comment;
    JoinedAt(texts, q);
    JoinedAt(lines, q);
    SameFront(texts, lines, q);
    assert lines[q + 1..] == texts[q + 1..];
    RegroupLine(pre, front, Margin(n), Written(l), rest, back, post);
    RegroupLine(pre, front, Margin(n), Spaces(Written(l)), rest, back, post);
    assert span == Span(|pre + front + Margin(n)|, |pre + front + Margin(n)| + |Written(l)|);
    BlankMiddle(pre + front + Margin(n), Written(l), rest + back + post);
  }

  /** With this span blanked, the copy differs inside the mapping only, and reads there as meaning says. */
  ghost predicate BlockCopyReads(source: string, span: Span, pre: string, post: string,
                                 meaning: Option<seq<(string, string)>>)
  {
    var copy := Blanked(source, [span]);
    && |pre| + |post| <= |copy| && pre <= copy && copy[|copy| - |post|..] == post
    && ReadBlock(Inside(copy, pre, post)) == meaning
  }

  lemma CopyOfBlock(source: string, span: Span, pre: string, left: string, post: string,
                    meaning: Option<seq<(string, string)>>)
    requires Blanked(source, [span]) == pre + left + post && ReadBlock(left) == meaning
    ensures BlockCopyReads(source, span, pre, post, meaning)
  {
    InsideCopy(pre, left, post);
  }

  /**
   * Every supported queue of a plain block mapping has a span, and with it blanked the mapping reads as before without
   * its queue, whatever comments stand on its lines; exactly when the queue is the only entry, no mapping is left.
   */
  lemma BlockCopyHidesOnlyTheQueue(pre: string, ls: seq<Line>, n: nat, post: string, end: nat, q: nat)
    returns (span: Span)
    requires QueueOnLine(ls, n, |pre|, end, q)
    ensures QueueSpan(BlockNode(ls, n, |pre|, end), BlockSource(pre, ls, n, post)) == Returned(span)
    ensures BlockCopyReads(BlockSource(pre, ls, n, post), span, pre, post,
                           if |ls| == 1 then None else Some(Without(Entries(ls), q)))
  {
    span := LineSpan(ls, n, |pre|, q);
    SpanOfLine(ls, n, |pre|, end, q, BlockNode(ls, n, |pre|, end), BlockSource(pre, ls, n, post));
    BlankLine(pre, ls, n, post, q, span);
    ReadBlankedBlock(ls, n, q);
    CopyOfBlock(BlockSource(pre, ls, n, post), span, pre, Joined(BlankedLines(ls, n, q)), post,
                if |ls| == 1 then None else Some(Without(Entries(ls), q)));
  }
}
