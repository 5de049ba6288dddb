/** Globs over artifact names, and the literal ends of a pattern. */
module ArtifactGlob {
  import opened Common

  // ----- names -------------------------------------------------------------------------

  predicate StartsWith(s: string, prefix: string) {
    |prefix| <= |s| && s[..|prefix|] == prefix
  }

  predicate EndsWith(s: string, suffix: string) {
    |suffix| <= |s| && s[|s| - |suffix|..] == suffix
  }

  // ----- globs -------------------------------------------------------------------------

  function SkipTo(p: string, j: nat): nat
    requires j <= |p|
    ensures j <= SkipTo(p, j) <= |p| && (SkipTo(p, j) < |p| ==> p[SkipTo(p, j)] == ']')
    decreases |p| - j
  {
    if j == |p| || p[j] == ']' then j else SkipTo(p, j + 1)
  }

  /** The closing bracket of the character class that p begins with; an unclosed bracket is a literal. */
  function ClassEnd(p: string): (j: Option<nat>)
    requires p != [] && p[0] == '['
    ensures j.Some? ==> 0 < j.value < |p| && p[j.value] == ']'
  {
    var a := if 1 < |p| && p[1] == '!' then 2 else 1;
    var b := if a < |p| && p[a] == ']' then a + 1 else a;
    var j := SkipTo(p, b);
    if j < |p| then Some(j) else None
  }

  /** What a character class accepts, whatever its rules are. */
  type Classes = (string, char) -> bool

  /** fnmatch: does the whole of s match the pattern p? */
  predicate Glob(classes: Classes, p: string, s: string)
    decreases |p|, |s|
  {
    if p == [] then s == []
    else if p[0] == '*' then Glob(classes, p[1..], s) || (s != [] && Glob(classes, p, s[1..]))
    else if p[0] == '?' then s != [] && Glob(classes, p[1..], s[1..])
    else if p[0] == '[' && ClassEnd(p).Some? then
      s != [] && classes(p[1..ClassEnd(p).value], s[0]) && Glob(classes, p[ClassEnd(p).value + 1..], s[1..])
    else s != [] && s[0] == p[0] && Glob(classes, p[1..], s[1..])
  }

  predicate OpensGlob(c: char) { c == '[' || c == '*' || c == '?' }

  predicate ClosesGlob(c: char) { c == ']' || c == '*' || c == '?' }

  predicate Plain(s: string) {
    forall i :: 0 <= i < |s| ==> !ClosesGlob(s[i])
  }

  /** The text before the first glob character, and after the last one. */
  function LiteralPrefix(s: string): string {
    if s == [] || OpensGlob(s[0]) then [] else [s[0]] + LiteralPrefix(s[1..])
  }

  function LiteralSuffix(s: string): string {
    if s == [] || ClosesGlob(s[|s| - 1]) then [] else LiteralSuffix(s[..|s| - 1]) + [s[|s| - 1]]
  }

  // ----- literal ends ------------------------------------------------------------------

  /** s begins and ends like the literal ends of the pattern. */
  ghost predicate Fits(p: string, s: string) {
    StartsWith(s, LiteralPrefix(p)) && EndsWith(s, LiteralSuffix(p))
  }

  lemma {:induction false} SuffixOfConcat(a: string, b: string)
    ensures LiteralSuffix(a + b) == if Plain(b) then LiteralSuffix(a) + b else LiteralSuffix(b)
  {
    if b == [] {
      assert a + b == a;
    } else {
      var last := |b| - 1;
      assert (a + b)[..|a + b| - 1] == a + b[..last];
      SuffixOfConcat(a, b[..last]);
      if ClosesGlob(b[last]) {
        assert !Plain(b);
      } else {
        assert Plain(b) <==> Plain(b[..last]) by {
          if Plain(b[..last]) { PlainSnoc(b); }
        }
        assert b == b[..last] + [b[last]];
      }
    }
  }

  lemma PlainSnoc(b: string)
    requires b != [] && Plain(b[..|b| - 1]) && !ClosesGlob(b[|b| - 1])
    ensures Plain(b)
  {
    forall i | 0 <= i < |b|
      ensures !ClosesGlob(b[i])
    {
      if i < |b| - 1 { assert b[..|b| - 1][i] == b[i]; }
    }
  }

  lemma {:induction false} SuffixIsPlain(s: string)
    ensures Plain(LiteralSuffix(s)) && EndsWith(s, LiteralSuffix(s))
  {
    if s != [] && !ClosesGlob(s[|s| - 1]) {
      SuffixIsPlain(s[..|s| - 1]);
    }
  }

  // ----- a matched string fits the pattern ---------------------------------------------

  lemma {:induction false} GlobFitsPrefix(classes: Classes, p: string, s: string)
    requires Glob(classes, p, s)
    ensures StartsWith(s, LiteralPrefix(p))
    decreases |p|
  {
    if p != [] && !OpensGlob(p[0]) {
      GlobFitsPrefix(classes, p[1..], s[1..]);
    }
  }

  /** A character class has a closing bracket. */
  lemma PlainHasNoClass(p: string)
    requires p != [] && p[0] == '[' && Plain(p)
    ensures ClassEnd(p).None?
  {
  }

  lemma PlainTail(p: string, k: nat)
    requires Plain(p) && k <= |p|
    ensures Plain(p[k..])
  {
    forall i | 0 <= i < |p[k..]|
      ensures !ClosesGlob(p[k..][i])
    {
      assert p[k..][i] == p[i + k];
    }
  }

  /** Without closing glob characters a pattern is the text itself. */
  lemma {:induction false} PlainGlobIsLiteral(classes: Classes, p: string, s: string)
    requires Plain(p) && Glob(classes, p, s)
    ensures s == p
    decreases |p|
  {
    if p != [] {
      assert !ClosesGlob(p[0]);
      PlainTail(p, 1);
      if p[0] == '[' { PlainHasNoClass(p); }
      PlainGlobIsLiteral(classes, p[1..], s[1..]);
      assert s == [s[0]] + s[1..];
    }
  }

  lemma PlainSuffix(s: string)
    requires Plain(s)
    ensures LiteralSuffix(s) == s
  {
    SuffixOfConcat([], s);
    assert [] + s == s;
  }

  /** A head that ends with a glob character adds nothing to the literal suffix. */
  lemma ClosedHead(head: string, rest: string)
    requires head != [] && ClosesGlob(head[|head| - 1])
    ensures LiteralSuffix(head + rest) == LiteralSuffix(rest)
  {
    SuffixOfConcat(head, rest);
    if Plain(rest) { PlainSuffix(rest); }
  }

  lemma SuffixOfLonger(s: string, k: nat, x: string)
    requires k <= |s| && EndsWith(s[k..], x)
    ensures EndsWith(s, x)
  {
    assert s[k..][|s[k..]| - |x|..] == s[|s| - |x|..];
  }

  /** One more literal character in front. */
  lemma LiteralHead(c: char, rest: string, s: string)
    requires s != [] && s[0] == c && EndsWith(s[1..], LiteralSuffix(rest))
    requires Plain(rest) ==> s[1..] == rest
    ensures EndsWith(s, LiteralSuffix([c] + rest))
  {
    SuffixOfConcat([c], rest);
    if Plain(rest) {
      assert s == [c] + rest;
      SuffixIsPlain([c] + rest);
    } else {
      SuffixOfLonger(s, 1, LiteralSuffix(rest));
    }
  }

  /** The part of p that its first match step consumes when that is no star. */
  function HeadLength(p: string): (k: nat)
    requires p != []
    ensures 1 <= k <= |p|
  {
    if p[0] == '[' && ClassEnd(p).Some? then ClassEnd(p).value + 1 else 1
  }

  lemma HeadStep(p: string, s: string)
    requires p != [] && s != [] && EndsWith(s[1..], LiteralSuffix(p[HeadLength(p)..]))
    requires HeadLength(p) == 1 ==> p[0] == '?' || (s[0] == p[0] && (Plain(p[1..]) ==> s[1..] == p[1..]))
    ensures EndsWith(s, LiteralSuffix(p))
  {
    var k := HeadLength(p);
    assert p == p[..k] + p[k..];
    if k == 1 && p[0] != '?' {
      assert p[..k] == [p[0]];
      LiteralHead(p[0], p[1..], s);
    } else {
      ClosedHead(p[..k], p[k..]);
      SuffixOfLonger(s, 1, LiteralSuffix(p[k..]));
    }
  }

  lemma {:induction false} GlobFitsSuffix(classes: Classes, p: string, s: string)
    requires Glob(classes, p, s)
    ensures EndsWith(s, LiteralSuffix(p))
    decreases |p|, |s|
  {
    if p == [] {
    } else if p[0] == '*' {
      assert p == [p[0]] + p[1..];
      ClosedHead([p[0]], p[1..]);
      if Glob(classes, p[1..], s) {
        GlobFitsSuffix(classes, p[1..], s);
      } else {
        GlobFitsSuffix(classes, p, s[1..]);
        SuffixOfLonger(s, 1, LiteralSuffix(p));
      }
    } else {
      var rest := p[HeadLength(p)..];
      GlobFitsSuffix(classes, rest, s[1..]);
      if Plain(rest) { PlainGlobIsLiteral(classes, rest, s[1..]); }
      HeadStep(p, s);
    }
  }

  lemma GlobFits(classes: Classes, p: string, s: string)
    requires Glob(classes, p, s)
    ensures Fits(p, s)
  {
    GlobFitsPrefix(classes, p, s);
    GlobFitsSuffix(classes, p, s);
  }

  // ----- comparing ends ----------------------------------------------------------------

  lemma {:induction false} PrefixIsPrefix(p: string)
    ensures StartsWith(p, LiteralPrefix(p))
  {
    if p != [] && !OpensGlob(p[0]) {
      PrefixIsPrefix(p[1..]);
      assert p == [p[0]] + p[1..];
    }
  }

  /** A literal end that w has is part of the literal end of w as a pattern. */
  lemma {:induction false} KeepsPrefix(p: string, w: string)
    requires StartsWith(w, LiteralPrefix(p))
    ensures StartsWith(LiteralPrefix(w), LiteralPrefix(p))
    decreases |p|
  {
    if p != [] && !OpensGlob(p[0]) {
      assert LiteralPrefix(p)[0] == p[0] && LiteralPrefix(p)[1..] == LiteralPrefix(p[1..]);
      assert w[0] == w[..|LiteralPrefix(p)|][0];
      assert w[1..][..|LiteralPrefix(p[1..])|] == w[..|LiteralPrefix(p)|][1..];
      KeepsPrefix(p[1..], w[1..]);
    }
  }

  lemma KeepsSuffix(p: string, w: string)
    requires EndsWith(w, LiteralSuffix(p))
    ensures EndsWith(LiteralSuffix(w), LiteralSuffix(p))
  {
    SuffixIsPlain(p);
    PlainEnd(w, LiteralSuffix(p));
  }

  /** A plain end of w is part of its literal suffix. */
  lemma PlainEnd(w: string, x: string)
    requires Plain(x) && EndsWith(w, x)
    ensures EndsWith(LiteralSuffix(w), x)
  {
    var front := w[..|w| - |x|];
    assert w == front + x;
    SuffixOfConcat(front, x);
    assert LiteralSuffix(w)[|LiteralSuffix(front)|..] == x;
  }

  lemma PrefixOfPrefix(s: string, a: string, b: string)
    requires StartsWith(s, a) && StartsWith(a, b)
    ensures StartsWith(s, b)
  {
    assert s[..|b|] == s[..|a|][..|b|];
  }

  lemma SuffixOfSuffix(s: string, a: string, b: string)
    requires EndsWith(s, a) && EndsWith(a, b)
    ensures EndsWith(s, b)
  {
    assert s[|s| - |b|..] == s[|s| - |a|..][|a| - |b|..];
  }

  lemma PrefixesCompare(s: string, a: string, b: string)
    requires StartsWith(s, a) && StartsWith(s, b)
    ensures StartsWith(a, b) || StartsWith(b, a)
  {
    if |a| <= |b| {
      assert b[..|a|] == s[..|b|][..|a|] == s[..|a|];
    } else {
      assert a[..|b|] == s[..|a|][..|b|] == s[..|b|];
    }
  }

  lemma SuffixesCompare(s: string, a: string, b: string)
    requires EndsWith(s, a) && EndsWith(s, b)
    ensures EndsWith(a, b) || EndsWith(b, a)
  {
    if |a| <= |b| {
      assert b[|b| - |a|..] == s[|s| - |b|..][|b| - |a|..] == s[|s| - |a|..];
    } else {
      assert a[|a| - |b|..] == s[|s| - |a|..][|a| - |b|..] == s[|s| - |b|..];
    }
  }

  lemma DifferentStart(a: string, b: string)
    requires a != [] && b != [] && a[0] != b[0]
    ensures !StartsWith(a, b)
  {
    if |b| <= |a| { assert a[..|b|][0] != b[0]; }
  }

  // ----- patterns that match -----------------------------------------------------------

  /** A pattern of literals and question marks matches strings of its own length only. */
  lemma {:induction false} FixedLength(classes: Classes, p: string, s: string)
    requires '*' !in p && '[' !in p && Glob(classes, p, s)
    ensures |s| == |p|
    decreases |p|
  {
    if p != [] {
      assert p[0] in p;
      FixedLength(classes, p[1..], s[1..]);
    }
  }

  /** A text without closing glob characters matches itself: its brackets are unclosed. */
  lemma {:induction false} PlainMatches(classes: Classes, t: string)
    requires Plain(t)
    ensures Glob(classes, t, t)
  {
    if t != [] {
      assert !ClosesGlob(t[0]);
      PlainTail(t, 1);
      if t[0] == '[' { PlainHasNoClass(t); }
      PlainMatches(classes, t[1..]);
    }
  }

  /** A star in front of a plain text matches whatever ends with that text. */
  lemma {:induction false} StarMatches(classes: Classes, t: string, s: string)
    requires Plain(t) && EndsWith(s, t)
    ensures Glob(classes, ['*'] + t, s)
    decreases |s|
  {
    assert (['*'] + t)[1..] == t;
    if |s| == |t| {
      assert s == t;
      PlainMatches(classes, t);
    } else {
      assert s[1..][|s[1..]| - |t|..] == s[|s| - |t|..];
      StarMatches(classes, t, s[1..]);
    }
  }

  predicate NoGlob(s: string) {
    forall i :: 0 <= i < |s| ==> !OpensGlob(s[i])
  }

  lemma {:induction false} PrefixHasNoGlob(p: string)
    ensures NoGlob(LiteralPrefix(p))
  {
    if p != [] && !OpensGlob(p[0]) { PrefixHasNoGlob(p[1..]); }
  }

  lemma NoGlobTail(t: string)
    requires NoGlob(t) && t != []
    ensures NoGlob(t[1..])
  {
    forall i | 0 <= i < |t[1..]|
      ensures !OpensGlob(t[1..][i])
    {
      assert t[1..][i] == t[i + 1];
    }
  }

  /** A star behind a literal text matches whatever begins with that text. */
  lemma {:induction false} StarMatchesRest(classes: Classes, t: string, s: string)
    requires NoGlob(t) && StartsWith(s, t)
    ensures Glob(classes, t + ['*'], s)
    decreases |t|
  {
    if t == [] {
      assert t + ['*'] == ['*'] + [];
      assert s[|s|..] == [];
      StarMatches(classes, [], s);
    } else {
      assert !OpensGlob(t[0]) && s[0] == s[..|t|][0];
      NoGlobTail(t);
      assert (t + ['*'])[1..] == t[1..] + ['*'];
      assert s[1..][..|t| - 1] == s[..|t|][1..];
      StarMatchesRest(classes, t[1..], s[1..]);
    }
  }

  lemma {:induction false} PrefixBeforeStar(t: string)
    requires NoGlob(t)
    ensures LiteralPrefix(t + ['*']) == t
  {
    if t != [] {
      assert !OpensGlob(t[0]);
      NoGlobTail(t);
      assert (t + ['*'])[1..] == t[1..] + ['*'];
      PrefixBeforeStar(t[1..]);
    }
  }
}
