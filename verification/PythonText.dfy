/** The string operations of Python that the text transforms rely on. */
module PythonText {

  /** The line boundaries str.splitlines() recognises. */
  predicate LineBreak(c: char) {
    || c == '\n' || c == '\r' || c == '\U{000B}' || c == '\U{000C}'
    || c == '\U{001C}' || c == '\U{001D}' || c == '\U{001E}' || c == '\U{0085}'
    || c == '\U{2028}' || c == '\U{2029}'
  }

  /** What str.strip() removes. */
  predicate Space(c: char) {
    || '\t' <= c <= '\r' || '\U{001C}' <= c <= ' ' || c == '\U{0085}' || c == '\U{00A0}' || c == '\U{1680}'
    || '\U{2000}' <= c <= '\U{200A}' || c == '\U{2028}' || c == '\U{2029}' || c == '\U{202F}'
    || c == '\U{205F}' || c == '\U{3000}'
  }

  /** The same by code point. */
  lemma BoundariesByNumber(c: char)
    ensures LineBreak(c) <==> c as int in {10, 11, 12, 13, 28, 29, 30, 133, 8232, 8233}
    ensures Space(c)
       <==> || 9 <= c as int <= 13 || 28 <= c as int <= 32 || 8192 <= c as int <= 8202
            || c as int in {133, 160, 5760, 8232, 8233, 8239, 8287, 12288}
  {
  }

  predicate AllSpace(s: string) {
    forall i :: 0 <= i < |s| ==> Space(s[i])
  }

  function LeftStrip(s: string): string {
    if s != [] && Space(s[0]) then LeftStrip(s[1..]) else s
  }

  function RightStrip(s: string): string {
    if s != [] && Space(s[|s| - 1]) then RightStrip(s[..|s| - 1]) else s
  }

  function Strip(s: string): string {
    RightStrip(LeftStrip(s))
  }

  /** Stripping removes blanks only. */
  lemma {:induction false} StripKeeps(s: string, c: char)
    requires c in s && !Space(c)
    ensures c in Strip(s)
  {
    LeftStripKeeps(s, c);
    RightStripKeeps(LeftStrip(s), c);
  }

  lemma {:induction false} LeftStripKeeps(s: string, c: char)
    requires c in s && !Space(c)
    ensures c in LeftStrip(s)
  {
    if Space(s[0]) {
      assert s == [s[0]] + s[1..];
      LeftStripKeeps(s[1..], c);
    }
  }

  lemma {:induction false} RightStripKeeps(s: string, c: char)
    requires c in s && !Space(c)
    ensures c in RightStrip(s)
  {
    if Space(s[|s| - 1]) {
      assert s == s[..|s| - 1] + [s[|s| - 1]];
      RightStripKeeps(s[..|s| - 1], c);
    }
  }

  /** The first index from `from` on that holds a line boundary, or the length. */
  function LineEnd(s: string, from: nat): (k: nat)
    requires from <= |s|
    ensures from <= k <= |s|
    ensures k < |s| ==> LineBreak(s[k])
    ensures forall i :: from <= i < k ==> !LineBreak(s[i])
    decreases |s| - from
  {
    if from == |s| || LineBreak(s[from]) then from else LineEnd(s, from + 1)
  }

  /** A line boundary is one character, except for a carriage return with its line feed. */
  function BreakLength(s: string, k: nat): (n: nat)
    requires k < |s|
    ensures 1 <= n <= 2 && k + n <= |s|
  {
    if s[k] == '\r' && k + 1 < |s| && s[k + 1] == '\n' then 2 else 1
  }

  function SplitLines(s: string): seq<string> {
    if s == [] then []
    else
      var k := LineEnd(s, 0);
      if k == |s| then [s] else [s[..k]] + SplitLines(s[k + BreakLength(s, k)..])
  }

  /** str.find of one character, or the length when it is absent. */
  function FindOrEnd(s: string, c: char, from: nat): (k: nat)
    requires from <= |s|
    ensures from <= k <= |s| && (k < |s| ==> s[k] == c)
    ensures forall i :: from <= i < k ==> s[i] != c
    decreases |s| - from
  {
    if from == |s| || s[from] == c then from else FindOrEnd(s, c, from + 1)
  }

  /** str.rfind("\n", 0, end) + 1: where the line holding position `end` starts. */
  function LineStart(s: string, end: nat): (k: nat)
    requires end <= |s|
    ensures k <= end && (k > 0 ==> s[k - 1] == '\n')
    ensures forall i :: k <= i < end ==> s[i] != '\n'
  {
    if end == 0 || s[end - 1] == '\n' then end else LineStart(s, end - 1)
  }

  function Repeat(c: char, count: nat): string {
    seq(count, _ => c)
  }
}
