/** When may an artifact selector and an artifact name meet? Expressions and the over-approximation by literal ends. */
module ArtifactOverlap {
  import opened Common
  import opened ArtifactGlob

  const RUN_ID := "${{ github.run_id }}"
  const RUN_ATTEMPT := "${{ github.run_attempt }}"
  const SUFFIX := "-run-" + RUN_ID + "-attempt-" + RUN_ATTEMPT

  function RemoveSuffix(s: string): string {
    if EndsWith(s, SUFFIX) then s[..|s| - |SUFFIX|] else s
  }

  // ----- expressions, in two readings --------------------------------------------------

  /**
   * Where an expression ends: as the substitution's pattern has it, at the first closing braces on the same line; or
   * as the workflow service reads it, at the first closing braces outside single quotes, on whatever line.
   */
  datatype Reading = AsPattern | AsService

  function Close(s: string, from: nat): (k: Option<nat>)
    ensures k.Some? ==> from <= k.value && k.value + 2 <= |s| && s[k.value] == s[k.value + 1] == '}'
    decreases |s| - from
  {
    if from + 2 > |s| then None
    else if s[from] == '}' && s[from + 1] == '}' then Some(from)
    else if s[from] == '\n' then None
    else Close(s, from + 1)
  }

  function ServiceClose(s: string, from: nat, quoted: bool): (k: Option<nat>)
    ensures k.Some? ==> from <= k.value && k.value + 2 <= |s| && s[k.value] == s[k.value + 1] == '}'
    decreases |s| - from
  {
    if from + 2 > |s| then None
    else if s[from] == '\'' then ServiceClose(s, from + 1, !quoted)
    else if !quoted && s[from] == '}' && s[from + 1] == '}' then Some(from)
    else ServiceClose(s, from + 1, quoted)
  }

  /** The end of the expression that s begins with, if it begins with one. */
  function ExpressionEnd(r: Reading, s: string): (k: Option<nat>)
    ensures k.Some? ==> 5 <= k.value <= |s| && s[k.value - 2] == s[k.value - 1] == '}'
  {
    if !StartsWith(s, "${{") then None
    else
      match if r == AsPattern then Close(s, 3) else ServiceClose(s, 3, false)
      case None => None
      case Some(k) => Some(k + 2)
  }

  /** Every expression replaced by a star. */
  function Substitute(r: Reading, s: string): string {
    if s == [] then []
    else
      match ExpressionEnd(r, s)
      case Some(k) => ['*'] + Substitute(r, s[k..])
      case None => [s[0]] + Substitute(r, s[1..])
  }

  /** w is s with every expression replaced by some text of its own. */
  ghost predicate Expands(r: Reading, s: string, w: string)
    decreases |s|
  {
    if s == [] then w == []
    else
      match ExpressionEnd(r, s)
      case Some(k) => exists n :: 0 <= n <= |w| && Expands(r, s[k..], w[n..])
      case None => w != [] && w[0] == s[0] && Expands(r, s[1..], w[1..])
  }

  /** A text with expressions stands for s: some expansion of it is s, or matches s as a pattern. */
  ghost predicate StandsFor(classes: Classes, r: Reading, u: string, s: string) {
    exists w :: Expands(r, u, w) && (w == s || Glob(classes, w, s))
  }

  // ----- overlap -----------------------------------------------------------------------

  predicate PrefixesMeet(a: string, b: string) {
    StartsWith(a, b) || StartsWith(b, a)
  }

  predicate SuffixesMeet(a: string, b: string) {
    EndsWith(a, b) || EndsWith(b, a)
  }

  predicate EndsMeet(p: string, q: string) {
    PrefixesMeet(LiteralPrefix(p), LiteralPrefix(q)) && SuffixesMeet(LiteralSuffix(p), LiteralSuffix(q))
  }

  /** The selector form of a text: its suffix removed, its expressions replaced by stars. */
  function Selector(text: string): string {
    Substitute(AsPattern, RemoveSuffix(text))
  }

  predicate Overlaps(classes: Classes, value: string, selector: string) {
    || Glob(classes, selector, Selector(value))
    || Glob(classes, Selector(value), selector)
    || EndsMeet(Selector(value), selector)
  }

  lemma GlobEndsMeet(classes: Classes, p: string, q: string)
    requires Glob(classes, p, q)
    ensures EndsMeet(p, q)
  {
    GlobFits(classes, p, q);
    KeepsPrefix(p, q);
    KeepsSuffix(p, q);
  }

  /** The two glob tests add nothing: an overlap is that the literal ends meet. */
  lemma OverlapsIsEndsMeet(classes: Classes, value: string, selector: string)
    ensures Overlaps(classes, value, selector) <==> EndsMeet(Selector(value), selector)
  {
    if Glob(classes, selector, Selector(value)) { GlobEndsMeet(classes, selector, Selector(value)); }
    if Glob(classes, Selector(value), selector) { GlobEndsMeet(classes, Selector(value), selector); }
  }

  // ----- an expansion fits the substituted text ----------------------------------------

  lemma {:induction false} ExpansionFitsPrefix(r: Reading, u: string, w: string)
    requires Expands(r, u, w)
    ensures StartsWith(w, LiteralPrefix(Substitute(r, u)))
    decreases |u|
  {
    if u != [] && ExpressionEnd(r, u).None? && !OpensGlob(u[0]) {
      ExpansionFitsPrefix(r, u[1..], w[1..]);
    }
  }

  lemma {:induction false} ExpansionFitsSuffix(r: Reading, u: string, w: string)
    requires Expands(r, u, w)
    ensures EndsWith(w, LiteralSuffix(Substitute(r, u)))
    ensures Plain(Substitute(r, u)) ==> w == Substitute(r, u)
    decreases |u|
  {
    if u != [] {
      match ExpressionEnd(r, u)
      case Some(k) =>
        var n :| 0 <= n <= |w| && Expands(r, u[k..], w[n..]);
        ExpansionFitsSuffix(r, u[k..], w[n..]);
        StarStep(Substitute(r, u[k..]), w, n);
      case None =>
        ExpansionFitsSuffix(r, u[1..], w[1..]);
        ExpansionStep(u[0], Substitute(r, u[1..]), w);
    }
  }

  lemma StarStep(rest: string, w: string, n: nat)
    requires n <= |w| && EndsWith(w[n..], LiteralSuffix(rest))
    ensures EndsWith(w, LiteralSuffix(['*'] + rest)) && !Plain(['*'] + rest)
  {
    ClosedHead(['*'], rest);
    SuffixOfLonger(w, n, LiteralSuffix(rest));
    assert ClosesGlob((['*'] + rest)[0]);
  }

  lemma ExpansionStep(c: char, rest: string, w: string)
    requires w != [] && w[0] == c && EndsWith(w[1..], LiteralSuffix(rest))
    requires Plain(rest) ==> w[1..] == rest
    ensures EndsWith(w, LiteralSuffix([c] + rest))
    ensures Plain([c] + rest) ==> w == [c] + rest
  {
    LiteralHead(c, rest, w);
    if Plain([c] + rest) {
      PlainTail([c] + rest, 1);
      assert ([c] + rest)[1..] == rest;
      assert w == [c] + w[1..];
    }
  }

  /** Whatever a text stands for has the fixed ends of its substituted form. */
  lemma StandsForFits(classes: Classes, r: Reading, u: string, s: string)
    requires StandsFor(classes, r, u, s)
    ensures Fits(Substitute(r, u), s)
  {
    var w :| Expands(r, u, w) && (w == s || Glob(classes, w, s));
    ExpansionFitsPrefix(r, u, w);
    ExpansionFitsSuffix(r, u, w);
    if w != s { MatchKeepsEnds(classes, Substitute(r, u), w, s); }
  }

  lemma MatchKeepsEnds(classes: Classes, p: string, w: string, s: string)
    requires Fits(p, w) && Glob(classes, w, s)
    ensures Fits(p, s)
  {
    GlobFits(classes, w, s);
    KeepsPrefix(p, w);
    KeepsSuffix(p, w);
    PrefixOfPrefix(s, LiteralPrefix(w), LiteralPrefix(p));
    SuffixOfSuffix(s, LiteralSuffix(w), LiteralSuffix(p));
  }

  lemma FitsMeet(p: string, q: string, s: string)
    requires Fits(p, s) && Fits(q, s)
    ensures EndsMeet(p, q)
  {
    PrefixesCompare(s, LiteralPrefix(p), LiteralPrefix(q));
    SuffixesCompare(s, LiteralSuffix(p), LiteralSuffix(q));
  }

  // ----- no missed edge ----------------------------------------------------------------

  /** Every edge of this value is found: a name that value and selector can both mean makes them overlap. */
  ghost predicate FindsEveryEdge(classes: Classes, r: Reading, value: string) {
    forall selector, s :: StandsFor(classes, r, value, s) && Glob(classes, selector, s) ==>
                            Overlaps(classes, value, selector)
  }

  /** The ends that are compared are ends of everything the value can mean. */
  predicate EndsAgree(r: Reading, value: string) {
    && StartsWith(LiteralPrefix(Substitute(r, value)), LiteralPrefix(Selector(value)))
    && EndsWith(LiteralSuffix(Substitute(r, value)), LiteralSuffix(Selector(value)))
  }

  lemma AgreeingEndsFit(classes: Classes, r: Reading, value: string, s: string)
    requires EndsAgree(r, value) && StandsFor(classes, r, value, s)
    ensures Fits(Selector(value), s)
  {
    StandsForFits(classes, r, value, s);
    PrefixOfPrefix(s, LiteralPrefix(Substitute(r, value)), LiteralPrefix(Selector(value)));
    SuffixOfSuffix(s, LiteralSuffix(Substitute(r, value)), LiteralSuffix(Selector(value)));
  }

  lemma AgreeingEndsMissNothing(classes: Classes, r: Reading, value: string)
    requires EndsAgree(r, value)
    ensures FindsEveryEdge(classes, r, value)
  {
    forall selector, s | StandsFor(classes, r, value, s) && Glob(classes, selector, s)
      ensures Overlaps(classes, value, selector)
    {
      AgreeingEndsFit(classes, r, value, s);
      GlobFits(classes, selector, s);
      FitsMeet(Selector(value), selector, s);
    }
  }

  // ----- one expansion that shows a missed edge ----------------------------------------

  /** The text with every expression replaced by one character. */
  function Fill(r: Reading, u: string, y: char): string {
    if u == [] then []
    else
      match ExpressionEnd(r, u)
      case Some(k) => [y] + Fill(r, u[k..], y)
      case None => [u[0]] + Fill(r, u[1..], y)
  }

  lemma {:induction false} FillExpands(r: Reading, u: string, y: char)
    ensures Expands(r, u, Fill(r, u, y))
    decreases |u|
  {
    if u != [] {
      match ExpressionEnd(r, u)
      case Some(k) =>
        FillExpands(r, u[k..], y);
        assert Fill(r, u, y)[1..] == Fill(r, u[k..], y);
      case None =>
        FillExpands(r, u[1..], y);
        assert Fill(r, u, y)[1..] == Fill(r, u[1..], y);
    }
  }

  lemma {:induction false} OwnExpansion(r: Reading, u: string)
    ensures Expands(r, u, u)
    decreases |u|
  {
    if u != [] {
      match ExpressionEnd(r, u)
      case Some(k) => OwnExpansion(r, u[k..]);
      case None => OwnExpansion(r, u[1..]);
    }
  }

  /** A literal prefix that is too short for the comparison stops at an expression. */
  ghost predicate PrefixBreaks(p: string, q: string, filled: string, y: char) {
    StartsWith(q, p) && |p| < |q| && StartsWith(filled, p + [y])
  }

  lemma BreakStep(c: char, p: string, q: string, filled: string, y: char)
    requires StartsWith(p, q) || PrefixBreaks(p, q, filled, y)
    ensures StartsWith([c] + p, [c] + q) || PrefixBreaks([c] + p, [c] + q, [c] + filled, y)
  {
    if StartsWith(p, q) {
      assert ([c] + p)[..|[c] + q|] == [c] + p[..|q|];
    } else {
      assert ([c] + q)[..|[c] + p|] == [c] + q[..|p|];
      assert [c] + p + [y] == [c] + (p + [y]);
      assert ([c] + filled)[..|p| + 2] == [c] + filled[..|p| + 1];
    }
  }

  lemma {:induction false} PrefixBreak(r: Reading, b: string, x: string, y: char)
    ensures var p := LiteralPrefix(Substitute(r, b + x));
            var q := LiteralPrefix(Substitute(AsPattern, b));
            StartsWith(p, q) || PrefixBreaks(p, q, Fill(r, b + x, y), y)
    decreases |b|
  {
    if b != [] && ExpressionEnd(AsPattern, b).None? && !OpensGlob(b[0]) {
      var u := b + x;
      match ExpressionEnd(r, u)
      case Some(k) =>
        PrefixBreaksAtOnce(LiteralPrefix(Substitute(AsPattern, b)), Fill(r, u[k..], y), y);
      case None =>
        assert u[1..] == b[1..] + x && u[0] == b[0];
        PrefixBreak(r, b[1..], x, y);
        BreakStep(b[0], LiteralPrefix(Substitute(r, u[1..])), LiteralPrefix(Substitute(AsPattern, b[1..])),
                  Fill(r, u[1..], y), y);
    }
  }

  lemma PrefixBreaksAtOnce(q: string, rest: string, y: char)
    requires q != []
    ensures PrefixBreaks("", q, [y] + rest, y)
  {
    assert ([y] + rest)[..1] == "" + [y];
  }

  /** What stands in front of the literal suffix: nothing, an expression, or a glob character of the text. */
  ghost predicate SuffixBreaks(u: string, sub: string, filled: string, y: char) {
    if Plain(sub) then sub == u && filled == u
    else
      || EndsWith(filled, [y] + LiteralSuffix(sub))
      || GlobBreak(u, LiteralSuffix(sub))
  }

  ghost predicate GlobBreak(u: string, x: string) {
    EndsWith(u, x) && |x| < |u| && ClosesGlob(u[|u| - |x| - 1])
  }

  lemma {:induction false} SuffixBreak(r: Reading, u: string, y: char)
    ensures SuffixBreaks(u, Substitute(r, u), Fill(r, u, y), y)
    decreases |u|
  {
    if u != [] {
      match ExpressionEnd(r, u)
      case Some(k) =>
        SuffixBreak(r, u[k..], y);
        BreakAtExpression(u, k, Substitute(r, u[k..]), Fill(r, u[k..], y), y);
      case None =>
        SuffixBreak(r, u[1..], y);
        BreakAtLiteral(u, Substitute(r, u[1..]), Fill(r, u[1..], y), y);
    }
  }

  lemma BreakAtExpression(u: string, k: nat, sub: string, filled: string, y: char)
    requires k <= |u| && SuffixBreaks(u[k..], sub, filled, y)
    ensures SuffixBreaks(u, ['*'] + sub, [y] + filled, y)
  {
    ClosedHead(['*'], sub);
    assert ClosesGlob((['*'] + sub)[0]);
    if Plain(sub) {
      PlainSuffix(sub);
    } else {
      InheritBreak(u, k, LiteralSuffix(sub), filled, [y], y);
    }
  }

  lemma InheritBreak(u: string, k: nat, x: string, filled: string, head: string, y: char)
    requires k <= |u| && (EndsWith(filled, [y] + x) || GlobBreak(u[k..], x))
    ensures EndsWith(head + filled, [y] + x) || GlobBreak(u, x)
  {
    if EndsWith(filled, [y] + x) {
      assert (head + filled)[|head|..] == filled;
      SuffixOfLonger(head + filled, |head|, [y] + x);
    } else {
      SuffixOfLonger(u, k, x);
    }
  }

  lemma BreakAtLiteral(u: string, sub: string, filled: string, y: char)
    requires u != [] && SuffixBreaks(u[1..], sub, filled, y)
    ensures SuffixBreaks(u, [u[0]] + sub, [u[0]] + filled, y)
  {
    assert u == [u[0]] + u[1..];
    if Plain(sub) {
      PlainSuffix(sub);
      if ClosesGlob(u[0]) {
        ClosedHead([u[0]], sub);
        assert ClosesGlob(([u[0]] + sub)[0]);
      }
    } else {
      SuffixOfConcat([u[0]], sub);
      NotPlainTail(u[0], sub);
      InheritBreak(u, 1, LiteralSuffix(sub), filled, [u[0]], y);
    }
  }

  lemma NotPlainTail(c: char, sub: string)
    requires !Plain(sub)
    ensures !Plain([c] + sub)
  {
    if Plain([c] + sub) { PlainTail([c] + sub, 1); }
  }

  // ----- the attempt suffix as the end of a text ---------------------------------------

  lemma {:induction false} CloseAt(s: string, from: nat, k: nat)
    requires from <= k && k + 2 <= |s| && s[k] == s[k + 1] == '}'
    requires forall i :: from <= i < k ==> s[i] != '}' && s[i] != '\n' && s[i] != '\''
    ensures Close(s, from) == ServiceClose(s, from, false) == Some(k)
    decreases k - from
  {
    if from < k { CloseAt(s, from + 1, k); }
  }

  lemma AttemptShape()
    ensures |RUN_ATTEMPT| == 25 && RUN_ATTEMPT[..3] == "${{" && RUN_ATTEMPT[23] == RUN_ATTEMPT[24] == '}'
    ensures forall i :: 3 <= i < 23 ==> RUN_ATTEMPT[i] != '}' && RUN_ATTEMPT[i] != '\n' && RUN_ATTEMPT[i] != '\''
    ensures forall i :: 0 <= i < 23 ==> RUN_ATTEMPT[i] != '}'
  {
  }

  /** An expression that begins before the attempt ends before it or takes it in whole. */
  lemma NoPartialAttempt(r: Reading, b: string)
    requires ExpressionEnd(r, b + RUN_ATTEMPT).Some?
    ensures var k := ExpressionEnd(r, b + RUN_ATTEMPT).value; k <= |b| || k == |b + RUN_ATTEMPT|
  {
    AttemptShape();
    var u := b + RUN_ATTEMPT;
    var k := ExpressionEnd(r, u).value;
    assert |b| < k ==> u[k - 1] == RUN_ATTEMPT[k - 1 - |b|];
    assert |b| + 1 < k ==> u[k - 2] == RUN_ATTEMPT[k - 2 - |b|];
  }

  lemma AttemptIsAnExpression(r: Reading)
    ensures ExpressionEnd(r, RUN_ATTEMPT) == Some(|RUN_ATTEMPT|)
  {
    AttemptShape();
    CloseAt(RUN_ATTEMPT, 3, 23);
  }

  /** However the text before it is read, a text that ends with the attempt ends with an expression. */
  lemma {:induction false} EndsWithAttempt(r: Reading, b: string, y: char)
    ensures LiteralSuffix(Substitute(r, b + RUN_ATTEMPT)) == ""
    ensures EndsWith(Fill(r, b + RUN_ATTEMPT, y), [y])
    decreases |b|
  {
    var u := b + RUN_ATTEMPT;
    if b == [] {
      assert u == RUN_ATTEMPT;
      AttemptIsAnExpression(r);
      LastExpression(r, u, y);
    } else {
      match ExpressionEnd(r, u)
      case Some(k) =>
        NoPartialAttempt(r, b);
        if k == |u| {
          LastExpression(r, u, y);
        } else {
          assert u[k..] == b[k..] + RUN_ATTEMPT;
          EndsWithAttempt(r, b[k..], y);
          KeepEnd('*', y, Substitute(r, u[k..]), Fill(r, u[k..], y), y);
        }
      case None =>
        assert u[1..] == b[1..] + RUN_ATTEMPT;
        EndsWithAttempt(r, b[1..], y);
        KeepEnd(u[0], u[0], Substitute(r, u[1..]), Fill(r, u[1..], y), y);
    }
  }

  lemma LastExpression(r: Reading, u: string, y: char)
    requires ExpressionEnd(r, u) == Some(|u|)
    ensures LiteralSuffix(Substitute(r, u)) == "" && EndsWith(Fill(r, u, y), [y])
  {
    assert u[|u|..] == [];
    assert Substitute(r, u) == ['*'] && Fill(r, u, y) == [y];
  }

  lemma KeepEnd(c: char, d: char, sub: string, filled: string, y: char)
    requires sub != [] && LiteralSuffix(sub) == "" && EndsWith(filled, [y])
    ensures LiteralSuffix([c] + sub) == "" && EndsWith([d] + filled, [y])
  {
    assert ([d] + filled)[1..] == filled;
    SuffixOfLonger([d] + filled, 1, [y]);
    SuffixOfConcat([c], sub);
  }

  // ----- the exact condition -----------------------------------------------------------

  /** A text's literal end is an end of the text itself. */
  lemma OwnEnds(r: Reading, u: string)
    ensures EndsWith(u, LiteralSuffix(Substitute(r, u)))
  {
    OwnExpansion(r, u);
    ExpansionFitsSuffix(r, u, u);
  }

  /** A literal suffix that is too short for the comparison stops at an expression. */
  ghost predicate SuffixFallsShort(x: string, q: string, filled: string, y: char) {
    EndsWith(q, x) && |x| < |q| && EndsWith(filled, [y] + x)
  }

  lemma ShortSuffix(r: Reading, value: string, y: char)
    ensures var x, q := LiteralSuffix(Substitute(r, value)), LiteralSuffix(Selector(value));
            EndsWith(x, q) || SuffixFallsShort(x, q, Fill(r, value, y), y)
  {
    var x, q := LiteralSuffix(Substitute(r, value)), LiteralSuffix(Selector(value));
    if EndsWith(value, SUFFIX) {
      var b := value[..|value| - |RUN_ATTEMPT|];
      SuffixEnd(value);
      EndsWithAttempt(r, b, y);
      assert [y] + x == [y];
    } else if !EndsWith(x, q) {
      OwnEnds(r, value);
      OwnEnds(AsPattern, value);
      SuffixesCompare(value, x, q);
      SuffixBreak(r, value, y);
      SuffixIsPlain(Selector(value));
      NoGlobBreak(value, Substitute(r, value), q);
    }
  }

  lemma SuffixEnd(value: string)
    requires EndsWith(value, SUFFIX)
    ensures |RUN_ATTEMPT| <= |value| && value == value[..|value| - |RUN_ATTEMPT|] + RUN_ATTEMPT
  {
    var n := |value| - |SUFFIX|;
    assert value == value[..n] + ("-run-" + RUN_ID + "-attempt-") + RUN_ATTEMPT by {
      assert value == value[..n] + value[n..];
    }
  }

  /** A longer plain end leaves no room for a glob character in front of the shorter one. */
  lemma NoGlobBreak(value: string, sub: string, q: string)
    requires EndsWith(value, q) && EndsWith(q, LiteralSuffix(sub)) && Plain(q) && |LiteralSuffix(sub)| < |q|
    ensures !GlobBreak(value, LiteralSuffix(sub)) && !(Plain(sub) && sub == value)
  {
    var x := LiteralSuffix(sub);
    assert value[|value| - |x| - 1] == value[|value| - |q|..][|q| - |x| - 1] == q[|q| - |x| - 1];
    if Plain(sub) { PlainSuffix(sub); }
  }

  /** A letter that differs from c. */
  function Another(c: char): (y: char)
    ensures y != c && (y == 'a' || y == 'b')
  {
    if c == 'a' then 'b' else 'a'
  }

  lemma MissedBySuffix(classes: Classes, r: Reading, value: string) returns (selector: string, s: string, y: char)
    requires !EndsWith(LiteralSuffix(Substitute(r, value)), LiteralSuffix(Selector(value)))
    ensures StandsFor(classes, r, value, s) && Glob(classes, selector, s) && !Overlaps(classes, value, selector)
    ensures selector == ['*'] + ([y] + LiteralSuffix(Substitute(r, value))) && (y == 'a' || y == 'b')
  {
    var x, q := LiteralSuffix(Substitute(r, value)), LiteralSuffix(Selector(value));
    y := Another(if |x| < |q| then q[|q| - |x| - 1] else 'a');
    ShortSuffix(r, value, y);
    s := Fill(r, value, y);
    FillExpands(r, value, y);
    var t := [y] + x;
    SuffixIsPlain(Substitute(r, value));
    PlainCons(y, x);
    StarMatches(classes, t, s);
    selector := ['*'] + t;
    ClosedHead(['*'], t);
    PlainSuffix(t);
    ApartAtEnd(q, x, y);
    OverlapsIsEndsMeet(classes, value, selector);
  }

  lemma PlainCons(y: char, x: string)
    requires Plain(x) && !ClosesGlob(y)
    ensures Plain([y] + x)
  {
  }

  lemma ApartAtEnd(q: string, x: string, y: char)
    requires |x| < |q| && q[|q| - |x| - 1] != y
    ensures !SuffixesMeet(q, [y] + x)
  {
    var t := [y] + x;
    assert q[|q| - |t|..][0] == q[|q| - |x| - 1] != t[0];
  }

  lemma MissedByPrefix(classes: Classes, r: Reading, value: string) returns (selector: string, s: string, y: char)
    requires !StartsWith(LiteralPrefix(Substitute(r, value)), LiteralPrefix(Selector(value)))
    ensures StandsFor(classes, r, value, s) && Glob(classes, selector, s) && !Overlaps(classes, value, selector)
    ensures selector == LiteralPrefix(Substitute(r, value)) + [y] + ['*'] && (y == 'a' || y == 'b')
  {
    var p, q := LiteralPrefix(Substitute(r, value)), LiteralPrefix(Selector(value));
    y := Another(if |p| < |q| then q[|p|] else 'a');
    BaseAndRest(value);
    PrefixBreak(r, RemoveSuffix(value), value[|RemoveSuffix(value)|..], y);
    s := Fill(r, value, y);
    FillExpands(r, value, y);
    var t := p + [y];
    PrefixHasNoGlob(Substitute(r, value));
    StarMatchesRest(classes, t, s);
    selector := t + ['*'];
    PrefixBeforeStar(t);
    ApartAtStart(q, p, y);
    OverlapsIsEndsMeet(classes, value, selector);
  }

  lemma BaseAndRest(value: string)
    ensures |RemoveSuffix(value)| <= |value|
    ensures value == RemoveSuffix(value) + value[|RemoveSuffix(value)|..]
  {
  }

  lemma ApartAtStart(q: string, p: string, y: char)
    requires |p| < |q| && q[|p|] != y
    ensures !PrefixesMeet(q, p + [y])
  {
    var t := p + [y];
    assert q[..|t|][|p|] == q[|p|] != t[|p|];
  }

  /** No edge of the value is missed, in either reading, exactly when the compared ends are its own. */
  lemma EveryEdgeIsFound(classes: Classes, r: Reading, value: string)
    ensures FindsEveryEdge(classes, r, value) <==> EndsAgree(r, value)
  {
    if EndsAgree(r, value) {
      AgreeingEndsMissNothing(classes, r, value);
    } else {
      var selector, s, y;
      if !EndsWith(LiteralSuffix(Substitute(r, value)), LiteralSuffix(Selector(value))) {
        selector, s, y := MissedBySuffix(classes, r, value);
      } else {
        selector, s, y := MissedByPrefix(classes, r, value);
      }
      assert !FindsEveryEdge(classes, r, value);
    }
  }

  /** As the pattern reads it, a value without the attempt suffix never misses an edge. */
  lemma NoMissedEdge(classes: Classes, value: string)
    requires !EndsWith(value, SUFFIX)
    ensures FindsEveryEdge(classes, AsPattern, value)
  {
    EveryEdgeIsFound(classes, AsPattern, value);
  }

  lemma RemovedSuffix(base: string)
    ensures EndsWith(base + SUFFIX, SUFFIX) && RemoveSuffix(base + SUFFIX) == base
  {
    assert (base + SUFFIX)[|base|..] == SUFFIX && (base + SUFFIX)[..|base|] == base;
  }

  /**
   * With the suffix it misses none exactly when its base has no literal end, and the suffix does not complete an
   * expression that the base left open.
   */
  lemma SuffixedEdges(classes: Classes, base: string)
    ensures FindsEveryEdge(classes, AsPattern, base + SUFFIX)
       <==> && LiteralSuffix(Substitute(AsPattern, base)) == ""
            && StartsWith(LiteralPrefix(Substitute(AsPattern, base + SUFFIX)),
                          LiteralPrefix(Substitute(AsPattern, base)))
  {
    EveryEdgeIsFound(classes, AsPattern, base + SUFFIX);
    RemovedSuffix(base);
    var b := (base + SUFFIX)[..|base + SUFFIX| - |RUN_ATTEMPT|];
    SuffixEnd(base + SUFFIX);
    EndsWithAttempt(AsPattern, b, 'a');
    var q := LiteralSuffix(Substitute(AsPattern, base));
    assert q == "" ==> ""[|""| - |q|..] == q;
  }

  /** An upload overlaps its own selector. */
  lemma OwnSelector(classes: Classes, name: string)
    ensures Overlaps(classes, name, Selector(name))
  {
  }

  /** The fixed ends are all that is compared: these two overlap although no string is matched by both. */
  lemma OverlapsIsNotExact(classes: Classes, s: string)
    ensures Overlaps(classes, "a?", "a??")
    ensures !(Glob(classes, "a?", s) && Glob(classes, "a??", s))
  {
    var v := Selector("a?");
    assert v[..1] == "a" && v == "a?";
    assert LiteralPrefix("a?") == "a" && LiteralPrefix("a??") == "a";
    assert LiteralSuffix("a?") == [] && LiteralSuffix("a??") == [];
    if Glob(classes, "a?", s) { FixedLength(classes, "a?", s); }
    if Glob(classes, "a??", s) { FixedLength(classes, "a??", s); }
  }

  // ----- edges that are missed ---------------------------------------------------------

  lemma Regroup(u: string, rest: string)
    requires u != []
    ensures u + rest == [u[0]] + (u[1..] + rest)
  {
  }

  lemma LiteralFill(c: char, rest: string, y: char)
    requires c != '$'
    ensures Fill(AsPattern, [c] + rest, y) == [c] + Fill(AsPattern, rest, y)
  {
    assert ([c] + rest)[1..] == rest;
    assert |[c] + rest| >= 3 ==> ([c] + rest)[..3][0] == c;
  }

  /** A text without a dollar sign is read as it stands. */
  lemma {:induction false} LiteralHeadFills(u: string, rest: string, y: char)
    requires '$' !in u
    ensures Fill(AsPattern, u + rest, y) == u + Fill(AsPattern, rest, y)
  {
    if u == [] {
      assert u + rest == rest;
    } else {
      assert u[0] in u;
      LiteralHeadFills(u[1..], rest, y);
      LiteralFill(u[0], u[1..] + rest, y);
      Regroup(u, rest);
      Regroup(u, Fill(AsPattern, rest, y));
    }
  }

  lemma RunShape()
    ensures |RUN_ID| == 20 && RUN_ID[..3] == "${{" && RUN_ID[18] == RUN_ID[19] == '}'
    ensures forall i :: 3 <= i < 18 ==> RUN_ID[i] != '}' && RUN_ID[i] != '\n' && RUN_ID[i] != '\''
  {
  }

  lemma RunFills(rest: string, y: char)
    ensures Fill(AsPattern, RUN_ID + rest, y) == [y] + Fill(AsPattern, rest, y)
  {
    RunShape();
    var u := RUN_ID + rest;
    assert u[..3] == RUN_ID[..3];
    CloseAt(u, 3, 18);
    assert u[20..] == rest;
  }

  /** The first attempt of run 1, if the name is x. */
  lemma FirstAttempt()
    ensures Fill(AsPattern, "x" + SUFFIX, '1') == "x-run-1-attempt-1"
  {
    var rest := "-attempt-" + RUN_ATTEMPT;
    calc {
      Fill(AsPattern, "x" + SUFFIX, '1');
      { assert "x" + SUFFIX == "x-run-" + (RUN_ID + rest); }
      Fill(AsPattern, "x-run-" + (RUN_ID + rest), '1');
      { LiteralHeadFills("x-run-", RUN_ID + rest, '1'); }
      "x-run-" + Fill(AsPattern, RUN_ID + rest, '1');
      { RunFills(rest, '1'); }
      "x-run-" + ("1" + Fill(AsPattern, rest, '1'));
      { LiteralHeadFills("-attempt-", RUN_ATTEMPT, '1'); AttemptFills('1'); }
      "x-run-" + ("1" + ("-attempt-" + "1"));
      "x-run-1-attempt-1";
    }
  }

  lemma AttemptFills(y: char)
    ensures Fill(AsPattern, RUN_ATTEMPT, y) == [y]
  {
    AttemptIsAnExpression(AsPattern);
    assert RUN_ATTEMPT[25..] == [];
  }

  /** A suffixed upload name and a pattern that can mean the same artifact, without an overlap. */
  lemma SuffixHidesAnEdge(classes: Classes)
    ensures StandsFor(classes, AsPattern, "x" + SUFFIX, "x-run-1-attempt-1")
    ensures Glob(classes, "*-attempt-1", "x-run-1-attempt-1")
    ensures !Overlaps(classes, "x" + SUFFIX, "*-attempt-1")
  {
    FirstAttempt();
    FillExpands(AsPattern, "x" + SUFFIX, '1');
    AttemptPattern(classes);
    RemovedSuffix("x");
    XIsApart(classes, "x" + SUFFIX);
  }

  lemma AttemptPattern(classes: Classes)
    ensures Glob(classes, "*-attempt-1", "x-run-1-attempt-1")
    ensures LiteralSuffix("*-attempt-1") == "-attempt-1"
  {
    var t := "-attempt-1";
    assert "*-attempt-1" == ['*'] + t;
    assert "x-run-1-attempt-1"[7..] == t;
    StarMatches(classes, t, "x-run-1-attempt-1");
    ClosedHead(['*'], t);
    PlainSuffix(t);
  }

  lemma XIsApart(classes: Classes, value: string)
    requires RemoveSuffix(value) == "x"
    ensures !Overlaps(classes, value, "*-attempt-1")
  {
    AttemptPattern(classes);
    NoExpression("x");
    PlainSuffix("x");
    ApartAtEnd("-attempt-1", "", 'x');
    assert ['x'] + "" == "x";
    OverlapsIsEndsMeet(classes, value, "*-attempt-1");
  }

  /** The substitution does not see an expression with a line feed inside; the service does. */
  lemma LineFeedHidesAnExpression(classes: Classes)
    ensures StandsFor(classes, AsService, "${{\n}}", "a") && Glob(classes, "a", "a")
    ensures !Overlaps(classes, "${{\n}}", "a")
  {
    var v := "${{\n}}";
    assert v[..3] == "${{";
    assert ServiceClose(v, 4, false) == Some(4);
    assert ExpressionEnd(AsService, v) == Some(6);
    assert Expands(AsService, v[6..], "a"[1..]);
    assert Expands(AsService, v, "a");
    assert Glob(classes, "a"[1..], "a"[1..]);
    assert Close(v, 3).None?;
    assert RemoveSuffix(v) == v;
    assert LiteralPrefix(Selector(v))[0] == '$' && LiteralPrefix("a")[0] == 'a';
    DifferentStart(LiteralPrefix(Selector(v)), LiteralPrefix("a"));
    DifferentStart(LiteralPrefix("a"), LiteralPrefix(Selector(v)));
    OverlapsIsEndsMeet(classes, v, "a");
  }

  const QUOTED := "${{ '}}' }}-x"

  /** The substitution closes an expression at braces inside a quoted string; the service does not. */
  lemma QuoteHidesAnExpression(classes: Classes, value: string, name: string)
    requires value == "${{ '}}' }}-x" && name == "a-x"
    ensures StandsFor(classes, AsService, value, name) && Glob(classes, name, name)
    ensures !Overlaps(classes, value, name)
  {
    QuotedMeans();
    RestIsPlain();
    PlainMatches(classes, name);
    QuotedSuffix(value);
    QuotedIsApart(classes, value, name);
  }

  lemma QuotedSuffix(value: string)
    requires value == QUOTED
    ensures LiteralSuffix(Selector(value)) == REST
  {
    assert value[|value| - 1] == 'x' && SUFFIX[|SUFFIX| - 1] == '}';
    QuotedReadings();
    RestIsPlain();
    ClosedHead("*", REST);
  }

  lemma QuotedMeans()
    ensures Expands(AsService, QUOTED, "a-x")
  {
    QuotedReadings();
    OwnExpansion(AsService, "-x");
    assert QUOTED[11..] == "-x" && "a-x"[1..] == "-x";
    assert Expands(AsService, QUOTED[11..], "a-x"[1..]);
  }

  const REST := "' }}-x"

  lemma QuotedIsApart(classes: Classes, value: string, name: string)
    requires LiteralSuffix(Selector(value)) == REST && name == "a-x" == LiteralSuffix(name)
    ensures !Overlaps(classes, value, name)
  {
    ApartAtEnd(REST, "-x", 'a');
    assert ['a'] + "-x" == name;
    OverlapsIsEndsMeet(classes, value, name);
  }

  lemma RestIsPlain()
    ensures LiteralSuffix(REST) == REST && LiteralSuffix("a-x") == "a-x" && REST[3] == '}' && |REST| == 6
    ensures Plain("a-x")
  {
    PlainSuffix(REST);
    PlainSuffix("a-x");
  }

  lemma QuotedReadings()
    ensures ExpressionEnd(AsService, QUOTED) == Some(11)
    ensures Substitute(AsPattern, QUOTED) == "*" + REST
  {
    assert QUOTED[..3] == "${{";
    assert ServiceClose(QUOTED, 7, true) == Some(9);
    assert ServiceClose(QUOTED, 5, true) == Some(9);
    assert Close(QUOTED, 5) == Some(5);
    assert QUOTED[7..] == REST;
    NoExpression(REST);
  }

  lemma {:induction false} NoExpression(u: string)
    requires '$' !in u
    ensures Substitute(AsPattern, u) == u
  {
    if u != [] {
      assert u[0] in u;
      NoExpression(u[1..]);
    }
  }

  lemma {:induction false} SameClose(s: string, from: nat)
    requires '\n' !in s && '\'' !in s
    ensures ServiceClose(s, from, false) == Close(s, from)
    decreases |s| - from
  {
    if from + 2 <= |s| {
      assert s[from] in s;
      SameClose(s, from + 1);
    }
  }

  /** Without a line feed and without quotes the two readings are one. */
  lemma {:induction false} SameReading(u: string)
    requires '\n' !in u && '\'' !in u
    ensures Substitute(AsService, u) == Substitute(AsPattern, u)
  {
    if u != [] {
      SameClose(u, 3);
      var k := if ExpressionEnd(AsPattern, u).Some? then ExpressionEnd(AsPattern, u).value else 1;
      SameReading(u[k..]);
    }
  }

  // ----- the patterns that miss an edge are read as they stand --------------------------

  lemma {:induction false} CloseConcat(s: string, x: string, from: nat)
    requires Close(s, from).Some?
    ensures Close(s + x, from) == Close(s, from)
    decreases |s| - from
  {
    if s[from] != '}' || s[from + 1] != '}' { CloseConcat(s, x, from + 1); }
  }

  /** What follows an expression does not change where it ends. */
  lemma EndConcat(s: string, x: string)
    requires ExpressionEnd(AsPattern, s).Some?
    ensures ExpressionEnd(AsPattern, s + x) == ExpressionEnd(AsPattern, s)
  {
    assert (s + x)[..3] == s[..3];
    CloseConcat(s, x, 3);
  }

  /** An expression does not end behind the last brace. */
  lemma {:induction false} CloseWithin(s: string, x: string, from: nat)
    requires '}' !in x && Close(s + x, from).Some?
    ensures Close(s, from) == Close(s + x, from)
    decreases |s| - from
  {
    var k := Close(s + x, from).value;
    assert forall i :: 0 <= i < |x| ==> x[i] != '}';
    if s[from] != '}' || s[from + 1] != '}' { CloseWithin(s, x, from + 1); }
  }

  lemma EndWithin(s: string, x: string)
    requires '}' !in x && ExpressionEnd(AsPattern, s + x).Some?
    ensures ExpressionEnd(AsPattern, s).Some?
  {
    CloseWithin(s, x, 3);
    assert s[..3] == (s + x)[..3];
  }

  lemma {:induction false} NoBraceNoExpression(x: string)
    requires '}' !in x
    ensures Substitute(AsPattern, x) == x
  {
    if x != [] {
      assert forall i :: 0 <= i < |x| ==> x[i] != '}';
      NoBraceNoExpression(x[1..]);
    }
  }

  /** The literal prefix of a substituted text holds no expression, and nothing without a brace completes one. */
  lemma {:induction false} PrefixHoldsNoExpression(u: string, x: string)
    requires '}' !in x
    ensures var t := LiteralPrefix(Substitute(AsPattern, u)) + x; Substitute(AsPattern, t) == t
  {
    var p := LiteralPrefix(Substitute(AsPattern, u));
    if p == [] {
      assert p + x == x;
      NoBraceNoExpression(x);
    } else {
      var rest := LiteralPrefix(Substitute(AsPattern, u[1..]));
      PrefixHoldsNoExpression(u[1..], x);
      NoneAtStart(u, p, x);
      assert p + x == [u[0]] + (rest + x);
      SubstituteHead(u[0], rest + x, p + x);
    }
  }

  lemma SubstituteHead(c: char, rest: string, t: string)
    requires t == [c] + rest && ExpressionEnd(AsPattern, t).None? && Substitute(AsPattern, rest) == rest
    ensures Substitute(AsPattern, t) == t
  {
    assert t[1..] == rest;
  }

  lemma NoneAtStart(u: string, p: string, x: string)
    requires '}' !in x && u != [] && ExpressionEnd(AsPattern, u).None? && p == LiteralPrefix(Substitute(AsPattern, u))
    ensures ExpressionEnd(AsPattern, p + x).None?
  {
    OwnExpansion(AsPattern, u);
    ExpansionFitsPrefix(AsPattern, u, u);
    assert u == p + u[|p|..];
    if ExpressionEnd(AsPattern, p).Some? { EndConcat(p, u[|p|..]); }
    if ExpressionEnd(AsPattern, p + x).Some? { EndWithin(p, x); }
  }
}
