/** Keeping release artifact names inside one workflow run attempt. */
module ArtifactScope {
  import opened Common
  import opened PythonText
  import opened ArtifactGlob
  import opened ArtifactOverlap

  const PLAN_NAMES := {
    "inputs.release_plan_artifact", "inputs.release-plan-artifact",
    "needs.prepare.outputs.plan_artifact", "steps.metadata.outputs.plan_artifact"
  }

  datatype Value = Text(text: string) | Other(kind: int)

  datatype Step = Step(uses: string, options: map<string, Value>)

  // ----- one selector ------------------------------------------------------------------

  function ScopedName(s: string): string {
    if EndsWith(s, SUFFIX) then s else s + SUFFIX
  }

  /** The whole text is one expression, as the pattern has it: no line feed between the braces. */
  predicate FullExpression(s: string) {
    StartsWith(s, "${{") && |s| >= 5 && EndsWith(s, "}}") && '\n' !in s[3..|s| - 2]
  }

  predicate PlanName(s: string)
    requires FullExpression(s)
  {
    Strip(s[3..|s| - 2]) in PLAN_NAMES
  }

  predicate AnyOverlap(classes: Classes, value: string, selectors: set<string>) {
    exists selector :: selector in selectors && Overlaps(classes, value, selector)
  }

  function ScopeText(classes: Classes, value: string, selectors: set<string>): Outcome<string> {
    if FullExpression(value) then if PlanName(value) then Returned(value) else Raised
    else if AnyOverlap(classes, value, selectors) then Returned(ScopedName(value))
    else Returned(value)
  }

  /** Nothing but a string is ever rewritten or refused. */
  function ScopeSelector(classes: Classes, value: Value, selectors: set<string>): Outcome<Value> {
    if value.Other? then Returned(value)
    else match ScopeText(classes, value.text, selectors)
      case Returned(text) => Returned(Text(text))
      case Raised => Raised
  }

  /**
   * A selector that can meet a local output is refused, is a release plan, or ends up bound to the attempt: always
   * when the service reads it like the pattern, and otherwise whenever the ends that are compared are its own.
   */
  lemma EdgeIsScopedOrRefused(
      classes: Classes, r: Reading, value: string, selectors: set<string>, selector: string, s: string)
    requires selector in selectors && Glob(classes, selector, s) && StandsFor(classes, r, value, s)
    ensures match ScopeText(classes, value, selectors)
            case Raised => FullExpression(value) && !PlanName(value)
            case Returned(text) =>
              || (FullExpression(value) && PlanName(value) && text == value)
              || (EndsWith(text, SUFFIX) && RemoveSuffix(text) == RemoveSuffix(value))
              || (r == AsService && !EndsAgree(r, value) && text == value)
  {
    if !FullExpression(value) && !EndsWith(value, SUFFIX) && EndsAgree(r, value) {
      EveryEdgeIsFound(classes, r, value);
      assert AnyOverlap(classes, value, selectors);
    }
    ScopedNameKeepsTheBase(value);
  }

  lemma ScopedNameKeepsTheBase(value: string)
    ensures EndsWith(ScopedName(value), SUFFIX) && RemoveSuffix(ScopedName(value)) == RemoveSuffix(value)
  {
    if !EndsWith(value, SUFFIX) {
      assert (value + SUFFIX)[|value|..] == SUFFIX && (value + SUFFIX)[..|value|] == value;
    }
  }

  // ----- a second run ------------------------------------------------------------------

  /**
   * The selectors that a first run turns into a text it would refuse: they begin like an expression, but do not end
   * like one, and with the suffix they do both. An expression with literal text behind it is the ordinary case.
   */
  predicate BeginsWithExpression(classes: Classes, value: string, selectors: set<string>) {
    && StartsWith(value, "${{") && '\n' !in value && !EndsWith(value, "}}")
    && AnyOverlap(classes, value, selectors)
  }

  lemma SuffixShape()
    ensures |SUFFIX| == 59 && SUFFIX[0] == '-' && SUFFIX[7] == '{' && SUFFIX[57] == SUFFIX[58] == '}'
    ensures '\n' !in SUFFIX
  {
    RunShape();
    AttemptShape();
    assert RUN_ID[2] == '{' && SUFFIX[5 + 2] == RUN_ID[2];
    assert SUFFIX[34 + 23] == RUN_ATTEMPT[23] && SUFFIX[34 + 24] == RUN_ATTEMPT[24];
    assert '\n' !in RUN_ID && '\n' !in RUN_ATTEMPT;
  }

  lemma PlanNamesHoldNo(name: string, c: char)
    requires name in PLAN_NAMES && (c == '{' || c == '}' || c == '\'')
    ensures c !in name
  {
  }

  /** What lies between the braces of a suffixed text. */
  lemma SuffixedInside(v: string)
    requires |v| >= 3
    ensures (v + SUFFIX)[3..|v + SUFFIX| - 2] == v[3..] + SUFFIX[..57]
    ensures EndsWith(v + SUFFIX, "}}")
  {
    SuffixShape();
    assert (v + SUFFIX)[|v| + 57..] == SUFFIX[57..] == "}}";
  }

  lemma SuffixedIsNoPlan(v: string)
    requires |v| >= 3 && FullExpression(v + SUFFIX)
    ensures !PlanName(v + SUFFIX)
  {
    var inside := (v + SUFFIX)[3..|v + SUFFIX| - 2];
    SuffixedInside(v);
    SuffixShape();
    assert inside[|v| - 3 + 7] == SUFFIX[..57][7] == '{';
    StripKeeps(inside, '{');
    if PlanName(v + SUFFIX) { PlanNamesHoldNo(Strip(inside), '{'); }
  }

  lemma SuffixedStart(v: string)
    ensures StartsWith(v + SUFFIX, "${{") <==> StartsWith(v, "${{")
  {
    SuffixShape();
    var u := v + SUFFIX;
    if |v| < 3 {
      assert u[..3][|v|] == u[|v|] == '-';
    } else {
      assert u[..3] == v[..3];
    }
  }

  /** A text that opens and ends like an expression is one, unless a line feed stands in between. */
  lemma ClosedIsFull(v: string)
    requires StartsWith(v, "${{") && EndsWith(v, "}}") && '\n' !in v
    ensures FullExpression(v)
  {
    assert v[|v| - 2] == v[|v| - 2..][0];
    assert v[1] == v[..3][1] && v[2] == v[..3][2];
  }

  /** When the suffixed text is one whole expression. */
  lemma SuffixedIsFull(v: string)
    requires !FullExpression(v)
    ensures FullExpression(v + SUFFIX) <==> StartsWith(v, "${{") && '\n' !in v && !EndsWith(v, "}}")
  {
    SuffixedStart(v);
    SuffixShape();
    if StartsWith(v, "${{") {
      SuffixedInside(v);
      assert v == v[..3] + v[3..];
      assert v[..3] == "${{";
      assert '\n' in v <==> '\n' in v[3..] + SUFFIX[..57];
      if EndsWith(v, "}}") && '\n' !in v { ClosedIsFull(v); }
    }
  }

  /** A second run keeps what the first one returned, exactly unless it began like an expression and did not end so. */
  lemma SecondRun(classes: Classes, value: string, selectors: set<string>)
    requires ScopeText(classes, value, selectors).Returned?
    ensures ScopeText(classes, ScopeText(classes, value, selectors).value, selectors)
         == if BeginsWithExpression(classes, value, selectors) then Raised else ScopeText(classes, value, selectors)
  {
    var u := ScopeText(classes, value, selectors).value;
    if u == value {
      if BeginsWithExpression(classes, value, selectors) { NotClosedChanges(value); }
    } else {
      assert u == value + SUFFIX;
      SuffixedIsFull(value);
      ScopedNameKeepsTheBase(value);
      if FullExpression(u) {
        SuffixedIsNoPlan(value);
      } else {
        SameOverlap(classes, u, value, selectors);
      }
    }
  }

  lemma NotClosedChanges(value: string)
    requires !EndsWith(value, "}}")
    ensures ScopedName(value) != value && !FullExpression(value)
  {
    SuffixShape();
    assert EndsWith(SUFFIX, "}}") by { assert SUFFIX[57..] == "}}"; }
    if EndsWith(value, SUFFIX) { SuffixOfSuffix(value, SUFFIX, "}}"); }
  }

  lemma SameOverlap(classes: Classes, u: string, v: string, selectors: set<string>)
    requires RemoveSuffix(u) == RemoveSuffix(v)
    ensures AnyOverlap(classes, u, selectors) <==> AnyOverlap(classes, v, selectors)
  {
    forall selector: string
      ensures Overlaps(classes, u, selector) <==> Overlaps(classes, v, selector)
    {
    }
  }

  /** An ordinary matrix artifact name that the first run scopes and the second refuses. */
  lemma SecondRunCanRefuse(classes: Classes, value: string, selectors: set<string>)
    requires value == "${{ matrix.target }}-x" && Selector(value) in selectors
    ensures ExpressionEnd(AsPattern, value) == Some(|value| - 2)
    ensures ScopeText(classes, value, selectors) == Returned(value + SUFFIX)
    ensures ScopeText(classes, value + SUFFIX, selectors) == Raised
  {
    MatrixName(value);
    OwnSelector(classes, value);
    assert BeginsWithExpression(classes, value, selectors);
    NotClosedChanges(value);
    SecondRun(classes, value, selectors);
  }

  lemma MatrixName(value: string)
    requires value == "${{ matrix.target }}-x"
    ensures StartsWith(value, "${{") && '\n' !in value && !EndsWith(value, "}}")
    ensures ExpressionEnd(AsPattern, value) == Some(|value| - 2)
  {
    assert value[|value| - 1] == 'x' && value[..3] == "${{";
    LastOf(value, "}}");
    CloseAt(value, 3, 18);
  }

  // ----- one step ----------------------------------------------------------------------

  function Action(uses: string): string {
    uses[..FindOrEnd(uses, '@', 0)]
  }

  /** ${{ expression }} with any blanks inside the braces. */
  predicate CurrentRun(value: Value, expression: string) {
    && value.Text?
    && var s := value.text;
       StartsWith(s, "${{") && |s| >= 5 && EndsWith(s, "}}") && Strip(s[3..|s| - 2]) == expression
  }

  predicate Blank(value: Value) {
    value.Other? || Strip(value.text) == ""
  }

  /** Returned(true) leaves the step alone; Returned(false) has exactly one named selector of the current run. */
  function SeparateDownload(options: map<string, Value>): Outcome<bool> {
    if "artifact-ids" in options then
      if Blank(options["artifact-ids"]) || "name" in options || "pattern" in options then Raised else Returned(true)
    else if "run-id" in options && !CurrentRun(options["run-id"], "github.run_id") then Raised
    else if "repository" in options && !CurrentRun(options["repository"], "github.repository") then Raised
    else if ("name" in options) == ("pattern" in options) then Raised
    else if Blank(options[if "name" in options then "name" else "pattern"]) then Raised
    else Returned(false)
  }

  function ScopeKey(classes: Classes, options: map<string, Value>, key: string, selectors: set<string>)
    : Outcome<map<string, Value>>
  {
    if key !in options then Returned(options)
    else match ScopeSelector(classes, options[key], selectors)
      case Returned(value) => Returned(options[key := value])
      case Raised => Raised
  }

  /** Some(false) is a step of no interest, Some(true) one whose selectors are scoped. */
  function Selected(step: Step): Outcome<bool> {
    if Action(step.uses) == "actions/upload-artifact" then Returned(true)
    else if Action(step.uses) != "actions/download-artifact" then Returned(false)
    else match SeparateDownload(step.options)
      case Returned(separate) => Returned(!separate)
      case Raised => Raised
  }

  function ScopeOptions(classes: Classes, options: map<string, Value>, selectors: set<string>)
    : Outcome<map<string, Value>>
  {
    match ScopeKey(classes, options, "name", selectors)
    case Returned(named) => ScopeKey(classes, named, "pattern", selectors)
    case Raised => Raised
  }

  function ScopeStep(classes: Classes, step: Step, selectors: set<string>): Outcome<Step> {
    match Selected(step)
    case Raised => Raised
    case Returned(false) => Returned(step)
    case Returned(true) =>
      match ScopeOptions(classes, step.options, selectors)
      case Returned(options) => Returned(step.(options := options))
      case Raised => Raised
  }

  /** The selectors of a step that a second run would refuse. */
  predicate Unstable(classes: Classes, options: map<string, Value>, key: string, selectors: set<string>) {
    key in options && options[key].Text? && BeginsWithExpression(classes, options[key].text, selectors)
  }

  lemma ScopedTextIsNotBlank(classes: Classes, text: string, selectors: set<string>)
    requires ScopeText(classes, text, selectors).Returned?
    ensures Strip(ScopeText(classes, text, selectors).value) == "" ==> Strip(text) == ""
  {
    var u := ScopeText(classes, text, selectors).value;
    if u != text {
      SuffixShape();
      assert u == text + SUFFIX && u[|text| + 7] == '{';
      StripKeeps(u, '{');
    }
  }

  lemma ScopedKeyTwice(classes: Classes, options: map<string, Value>, key: string, selectors: set<string>)
    requires ScopeKey(classes, options, key, selectors).Returned?
    ensures var once := ScopeKey(classes, options, key, selectors).value;
            && once.Keys == options.Keys
            && (forall k :: k in options && k != key ==> once[k] == options[k])
            && (key in options && Blank(once[key]) ==> Blank(options[key]))
            && ScopeKey(classes, once, key, selectors)
               == if Unstable(classes, options, key, selectors) then Raised else Returned(once)
  {
    if key in options && options[key].Text? {
      SecondRun(classes, options[key].text, selectors);
      ScopedTextIsNotBlank(classes, options[key].text, selectors);
      var once := ScopeKey(classes, options, key, selectors).value;
      assert once[key := once[key]] == once;
    } else if key in options {
      assert options[key := options[key]] == options;
    }
  }

  lemma ScopedOptionsTwice(classes: Classes, options: map<string, Value>, selectors: set<string>)
    requires ScopeOptions(classes, options, selectors).Returned?
    ensures var once := ScopeOptions(classes, options, selectors).value;
            && once.Keys == options.Keys
            && (forall k :: k in options && k != "name" && k != "pattern" ==> once[k] == options[k])
            && (forall k :: k in options && Blank(once[k]) ==> Blank(options[k]))
            && ScopeOptions(classes, once, selectors)
               == if Unstable(classes, options, "name", selectors) || Unstable(classes, options, "pattern", selectors)
                  then Raised else Returned(once)
  {
    var named := ScopeKey(classes, options, "name", selectors).value;
    var once := ScopeKey(classes, named, "pattern", selectors).value;
    ScopedKeyTwice(classes, options, "name", selectors);
    ScopedKeyTwice(classes, named, "pattern", selectors);
    SameKey(classes, named, once, "name", selectors);
    assert Unstable(classes, named, "pattern", selectors) <==> Unstable(classes, options, "pattern", selectors);
  }

  /** One key's scoping looks at that key only. */
  lemma SameKey(classes: Classes, a: map<string, Value>, b: map<string, Value>, key: string, selectors: set<string>)
    requires key in a <==> key in b
    requires key in a ==> a[key] == b[key]
    ensures match ScopeKey(classes, a, key, selectors)
            case Raised => ScopeKey(classes, b, key, selectors).Raised?
            case Returned(x) => x == a ==> ScopeKey(classes, b, key, selectors) == Returned(b)
  {
    if key in a && ScopeKey(classes, a, key, selectors) == Returned(a) {
      assert ScopeSelector(classes, a[key], selectors).value == a[key];
      assert b[key := b[key]] == b;
    }
  }

  lemma SameDownload(a: map<string, Value>, b: map<string, Value>)
    requires SeparateDownload(a) == Returned(false) && a.Keys == b.Keys
    requires forall k :: k in a && k != "name" && k != "pattern" ==> a[k] == b[k]
    requires forall k :: k in a && Blank(b[k]) ==> Blank(a[k])
    ensures SeparateDownload(b) == Returned(false)
  {
  }

  /** A second run over a scoped step changes nothing, exactly unless one of its selectors is such a text. */
  lemma SecondStep(classes: Classes, step: Step, selectors: set<string>)
    requires ScopeStep(classes, step, selectors).Returned?
    ensures var once := ScopeStep(classes, step, selectors).value;
            ScopeStep(classes, once, selectors)
            == if Selected(step).value
                  && (|| Unstable(classes, step.options, "name", selectors)
                      || Unstable(classes, step.options, "pattern", selectors))
               then Raised else Returned(once)
  {
    if Selected(step) == Returned(true) {
      var once := ScopeStep(classes, step, selectors).value;
      ScopedOptionsTwice(classes, step.options, selectors);
      if Action(step.uses) == "actions/download-artifact" {
        SameDownload(step.options, once.options);
      }
      assert once.(options := once.options) == once;
    }
  }

  // ----- the workflow ------------------------------------------------------------------

  predicate Produces(step: Step) {
    Action(step.uses) == "actions/upload-artifact"
  }

  /** A build upload names itself, with something besides stars. */
  predicate NamedProducer(step: Step) {
    && "name" in step.options && step.options["name"].Text? && step.options["name"].text != ""
    && exists c :: c in Selector(step.options["name"].text) && c != '*'
  }

  predicate AllNamed(steps: seq<Step>) {
    forall i :: 0 <= i < |steps| && Produces(steps[i]) ==> NamedProducer(steps[i])
  }

  function ProducerName(step: Step): string {
    if "name" in step.options && step.options["name"].Text? then step.options["name"].text else ""
  }

  /** The selectors of all uploads. */
  function Producers(steps: seq<Step>): set<string> {
    set i | 0 <= i < |steps| && Produces(steps[i]) :: Selector(ProducerName(steps[i]))
  }

  lemma OneMoreProducer(steps: seq<Step>, i: nat)
    requires i < |steps|
    ensures Producers(steps[..i + 1])
         == Producers(steps[..i]) + if Produces(steps[i]) then {Selector(ProducerName(steps[i]))} else {}
    ensures AllNamed(steps[..i + 1]) <==> AllNamed(steps[..i]) && (Produces(steps[i]) ==> NamedProducer(steps[i]))
    ensures !AllNamed(steps[..i + 1]) ==> !AllNamed(steps)
  {
    var before, after := steps[..i], steps[..i + 1];
    assert after == before + [steps[i]];
    forall x
      ensures x in Producers(after) <==>
              x in Producers(before) || (Produces(steps[i]) && x == Selector(ProducerName(steps[i])))
    {
      if x in Producers(before) {
        var j :| 0 <= j < i && Produces(before[j]) && x == Selector(ProducerName(before[j]));
        assert after[j] == before[j];
      }
      if x in Producers(after) {
        var j :| 0 <= j <= i && Produces(after[j]) && x == Selector(ProducerName(after[j]));
        if j < i { assert after[j] == before[j]; }
      }
      if Produces(steps[i]) { assert after[i] == steps[i]; }
    }
    assert forall j :: 0 <= j < i ==> after[j] == before[j];
  }

  predicate OnlyStars(s: string) {
    forall i :: 0 <= i < |s| ==> s[i] == '*'
  }

  class Workflow {
    var steps: seq<Step>   // the steps of all jobs, in order

    constructor (steps: seq<Step>)
      ensures this.steps == steps
    {
      this.steps := steps;
    }

    /** One selector for each upload; an upload without a literal name is refused. */
    method ProducerSelectors() returns (r: Outcome<set<string>>)
      ensures r == if AllNamed(steps) then Returned(Producers(steps)) else Raised
    {
      var selectors: set<string> := {};
      for i := 0 to |steps|
        invariant AllNamed(steps[..i]) && selectors == Producers(steps[..i])
      {
        var step := steps[i];
        OneMoreProducer(steps, i);
        if Action(step.uses) != "actions/upload-artifact" {
          continue;
        }
        if "name" !in step.options || step.options["name"].Other? || step.options["name"].text == "" {
          return Raised;
        }
        var selector := Selector(step.options["name"].text);
        if OnlyStars(selector) {
          return Raised;
        }
        var k :| 0 <= k < |selector| && selector[k] != '*';
        assert selector[k] in selector;
        selectors := selectors + {selector};
      }
      assert steps[..|steps|] == steps;
      return Returned(selectors);
    }

    /** Every step scoped in place; the answer says whether anything changed. */
    method Scope(classes: Classes, selectors: set<string>) returns (r: Outcome<bool>)
      modifies this
      ensures |steps| == |old(steps)|
      ensures r.Returned? <==> forall i :: 0 <= i < |steps| ==> ScopeStep(classes, old(steps[i]), selectors).Returned?
      ensures r.Returned? ==> forall i :: 0 <= i < |steps| ==>
                ScopeStep(classes, old(steps[i]), selectors) == Returned(steps[i])
      ensures r.Returned? ==> (r.value <==> steps != old(steps))
    {
      var changed := false;
      ghost var was := steps;
      for i := 0 to |steps|
        invariant |steps| == |was| && steps[i..] == was[i..]
        invariant forall j :: 0 <= j < i ==> ScopeStep(classes, was[j], selectors) == Returned(steps[j])
        invariant changed <==> steps != was
      {
        assert steps[i] == steps[i..][0] == was[i..][0] == was[i];
        var selected := Selected(steps[i]);
        if selected.Raised? {
          return Raised;
        }
        if selected.value {
          var again := ScopeOption(classes, i, "name", selectors);
          if again.Raised? {
            return Raised;
          }
          var twice := ScopeOption(classes, i, "pattern", selectors);
          if twice.Raised? {
            return Raised;
          }
          changed := changed || again.value || twice.value;
        }
      }
      return Returned(changed);
    }

    method ScopeOption(classes: Classes, i: nat, key: string, selectors: set<string>) returns (r: Outcome<bool>)
      requires i < |steps|
      modifies this
      ensures match ScopeKey(classes, old(steps[i].options), key, selectors)
              case Raised => r.Raised? && steps == old(steps)
              case Returned(options) =>
                && r == Returned(options != old(steps[i].options))
                && steps == old(steps)[i := old(steps[i]).(options := options)]
    {
      if key !in steps[i].options {
        assert steps == steps[i := steps[i]];
        return Returned(false);
      }
      var value := steps[i].options[key];
      var scoped := ScopeSelector(classes, value, selectors);
      if scoped.Raised? {
        return Raised;
      }
      if scoped.value == value {
        assert steps[i].options[key := value] == steps[i].options;
        assert steps == steps[i := steps[i]];
        return Returned(false);
      }
      ghost var options := steps[i].options;
      steps := steps[i := steps[i].(options := steps[i].options[key := scoped.value])];
      assert steps[i].options[key] != options[key];
      return Returned(true);
    }
  }

  /** Bound to this attempt, or the name of a release plan. */
  predicate Bound(value: Value) {
    && value.Text?
    && (EndsWith(value.text, SUFFIX) || (FullExpression(value.text) && PlanName(value.text)))
  }

  /** When a text ends up bound to the attempt, or as a plan name. */
  lemma BoundExactly(classes: Classes, text: string, selectors: set<string>)
    requires ScopeText(classes, text, selectors).Returned?
    ensures Bound(Text(ScopeText(classes, text, selectors).value))
       <==> FullExpression(text) || EndsWith(text, SUFFIX) || AnyOverlap(classes, text, selectors)
  {
    ScopedNameKeepsTheBase(text);
  }

  lemma ScopedOptionIsBound(classes: Classes, options: map<string, Value>, key: string, selectors: set<string>)
    requires key in options && options[key].Text? && (key == "name" || key == "pattern")
    requires ScopeOptions(classes, options, selectors).Returned?
    ensures var once, text := ScopeOptions(classes, options, selectors).value, options[key].text;
            && key in once
            && (Bound(once[key])
                <==> FullExpression(text) || EndsWith(text, SUFFIX) || AnyOverlap(classes, text, selectors))
  {
    BoundExactly(classes, options[key].text, selectors);
    if key == "pattern" {
      assert ScopeKey(classes, options, "name", selectors).value[key] == options[key];
    }
  }

  // ----- edges between the names as scope leaves them ----------------------------------

  /** A download of the text can pick up an artifact of the upload. */
  ghost predicate Edge(classes: Classes, upload: string, download: string, s: string) {
    StandsFor(classes, AsPattern, upload, s) && StandsFor(classes, AsPattern, download, s)
  }

  /** A plan name is nothing but one expression. */
  lemma PlanIsOneStar(name: string)
    requires FullExpression(name) && PlanName(name)
    ensures Selector(name) == "*"
  {
    PlanIsOneExpression(name);
    SuffixShape();
    assert Substitute(AsPattern, name) == "*" by { assert name[|name|..] == []; }
    if EndsWith(name, SUFFIX) {
      var v := name[..|name| - |SUFFIX|];
      assert name == v + SUFFIX;
      SuffixedStart(v);
      if |v| >= 3 { SuffixedIsNoPlan(v); }
    }
  }

  lemma PlanIsOneExpression(name: string)
    requires FullExpression(name) && PlanName(name)
    ensures ExpressionEnd(AsPattern, name) == Some(|name|)
  {
    var inside := name[3..|name| - 2];
    PlanNamesHoldNo(Strip(inside), '}');
    PlanNamesHoldNo(Strip(inside), '\'');
    if '}' in inside { StripKeeps(inside, '}'); }
    if '\'' in inside { StripKeeps(inside, '\''); }
    assert forall i :: 3 <= i < |name| - 2 ==> name[i] == inside[i - 3];
    CloseAt(name, 3, |name| - 2);
  }

  /** A local upload is refused, or its name gets the suffix. */
  lemma UploadIsScopedOrRefused(classes: Classes, name: string, selectors: set<string>)
    requires Selector(name) in selectors && !OnlyStars(Selector(name))
    ensures match ScopeText(classes, name, selectors)
            case Raised => FullExpression(name)
            case Returned(text) => text == ScopedName(name)
  {
    if FullExpression(name) {
      if PlanName(name) { PlanIsOneStar(name); }
    } else {
      OwnSelector(classes, name);
      assert AnyOverlap(classes, name, selectors);
    }
  }

  /** An edge to the scoped upload is found when the upload's compared ends are still its own. */
  lemma EdgeIsFound(classes: Classes, name: string, text: string, s: string)
    requires Edge(classes, ScopedName(name), text, s) && EndsAgree(AsPattern, ScopedName(name))
    ensures EndsWith(text, SUFFIX) || Overlaps(classes, text, Selector(name))
  {
    if !EndsWith(text, SUFFIX) {
      ScopedNameKeepsTheBase(name);
      AgreeingEndsFit(classes, AsPattern, ScopedName(name), s);
      AgreeingEndsFit(classes, AsPattern, text, s);
      FitsMeet(Selector(text), Selector(name), s);
    }
  }

  /**
   * A download that can pick up a local upload, under the name the upload has after scope, is bound to this attempt
   * exactly when it is an expression, has the suffix already or overlaps a selector; and it is one of these whenever
   * the upload's compared ends are still its own.
   */
  lemma LocalEdgesAreBound(classes: Classes, producer: Step, step: Step, key: string, s: string, selectors: set<string>)
    requires Produces(producer) && NamedProducer(producer) && Selector(producer.options["name"].text) in selectors
    requires || Action(step.uses) == "actions/upload-artifact"
             || (Action(step.uses) == "actions/download-artifact" && "artifact-ids" !in step.options)
    requires (key == "name" || key == "pattern") && key in step.options && step.options[key].Text?
    requires Edge(classes, ScopedName(producer.options["name"].text), step.options[key].text, s)
    ensures match ScopeStep(classes, step, selectors)
            case Raised => true
            case Returned(once) =>
              var text := step.options[key].text;
              && key in once.options
              && (Bound(once.options[key])
                  <==> FullExpression(text) || EndsWith(text, SUFFIX) || AnyOverlap(classes, text, selectors))
              && (EndsAgree(AsPattern, ScopedName(producer.options["name"].text)) ==> Bound(once.options[key]))
  {
    var name, text := producer.options["name"].text, step.options[key].text;
    if ScopeOptions(classes, step.options, selectors).Returned? {
      ScopedOptionIsBound(classes, step.options, key, selectors);
      if EndsAgree(AsPattern, ScopedName(name)) {
        EdgeIsFound(classes, name, text, s);
      }
    }
  }

  /** Whatever can pick up the scoped upload is bound or refused. */
  ghost predicate EveryEdgeIsBound(classes: Classes, name: string, selectors: set<string>) {
    forall text, s :: Edge(classes, ScopedName(name), text, s) ==>
                        match ScopeText(classes, text, selectors)
                        case Raised => true
                        case Returned(scoped) => Bound(Text(scoped))
  }

  /** A selector text that the service and the overlap test take as it stands. */
  lemma PlainSelector(text: string)
    requires Substitute(AsPattern, text) == text && text != [] && text[|text| - 1] != '}'
    ensures !EndsWith(text, SUFFIX) && !FullExpression(text) && Selector(text) == text
  {
    NotSuffixed(text, SUFFIX);
    LastOf(text, "}}");
  }

  lemma NotSuffixed(text: string, suffix: string)
    requires suffix == SUFFIX && text != [] && text[|text| - 1] != '}'
    ensures !EndsWith(text, suffix)
  {
    SuffixShape();
    LastOf(text, suffix);
  }

  lemma LastOf(s: string, x: string)
    requires x != []
    ensures EndsWith(s, x) ==> s[|s| - 1] == x[|x| - 1]
  {
    if EndsWith(s, x) { assert s[|s| - |x|..][|x| - 1] == s[|s| - 1]; }
  }

  lemma UnboundEdge(classes: Classes, name: string) returns (text: string, s: string)
    requires !EndsAgree(AsPattern, ScopedName(name))
    ensures StandsFor(classes, AsPattern, ScopedName(name), s) && Glob(classes, text, s)
    ensures !Overlaps(classes, ScopedName(name), text)
    ensures Substitute(AsPattern, text) == text && text != [] && text[|text| - 1] != '}'
  {
    var value := ScopedName(name);
    ScopedNameKeepsTheBase(name);
    SuffixEnd(value);
    EndsWithAttempt(AsPattern, value[..|value| - |RUN_ATTEMPT|], 'a');
    var y;
    if !EndsWith(LiteralSuffix(Substitute(AsPattern, value)), LiteralSuffix(Selector(value))) {
      text, s, y := MissedBySuffix(classes, AsPattern, value);
      NoBraceNoExpression(text);
    } else {
      text, s, y := MissedByPrefix(classes, AsPattern, value);
      PrefixHoldsNoExpression(value, [y] + ['*']);
      assert text == LiteralPrefix(Substitute(AsPattern, value)) + ([y] + ['*']);
    }
  }

  /** For one upload alone: every edge to its scoped name is bound exactly when its compared ends are still its own. */
  lemma AllEdgesAreBound(classes: Classes, name: string)
    ensures EveryEdgeIsBound(classes, name, {Selector(name)}) <==> EndsAgree(AsPattern, ScopedName(name))
  {
    var selectors := {Selector(name)};
    if EndsAgree(AsPattern, ScopedName(name)) {
      forall text, s | Edge(classes, ScopedName(name), text, s) && ScopeText(classes, text, selectors).Returned?
        ensures Bound(Text(ScopeText(classes, text, selectors).value))
      {
        EdgeIsFound(classes, name, text, s);
        BoundExactly(classes, text, selectors);
      }
    } else {
      var text, s := UnboundEdge(classes, name);
      UnboundText(classes, name, text, s);
    }
  }

  lemma UnboundText(classes: Classes, name: string, text: string, s: string)
    requires StandsFor(classes, AsPattern, ScopedName(name), s) && Glob(classes, text, s)
    requires !Overlaps(classes, ScopedName(name), text)
    requires Substitute(AsPattern, text) == text && text != [] && text[|text| - 1] != '}'
    ensures Edge(classes, ScopedName(name), text, s)
    ensures ScopeText(classes, text, {Selector(name)}) == Returned(text) && !Bound(Text(text))
  {
    PlainSelector(text);
    OwnExpansion(AsPattern, text);
    ScopedNameKeepsTheBase(name);
    OverlapsIsEndsMeet(classes, ScopedName(name), text);
    OverlapsIsEndsMeet(classes, text, Selector(name));
  }

  /**
   * The attempt suffix of an upload is not compared: this download can pick up the upload x of any first attempt, and
   * scope neither binds nor refuses it.
   */
  lemma ScopedUploadIsMissed(classes: Classes, upload: string, download: string, s: string)
    requires upload == "x" && download == "*-attempt-1" && s == "x-run-1-attempt-1"
    ensures ScopeText(classes, upload, {Selector(upload)}) == Returned(upload + SUFFIX)
    ensures Edge(classes, upload + SUFFIX, download, s)
    ensures ScopeText(classes, download, {Selector(upload)}) == Returned(download) && !Bound(Text(download))
  {
    NoBraceNoExpression(upload);
    NoBraceNoExpression(download);
    PlainSelector(upload);
    assert ScopedName(upload) == upload + SUFFIX;
    SuffixHidesAnEdge(classes);
    UnboundText(classes, upload, download, s);
    UploadIsScopedOrRefused(classes, upload, {Selector(upload)});
  }

  // ----- a second run over the whole workflow ------------------------------------------

  lemma ScopedProducer(classes: Classes, step: Step, selectors: set<string>)
    requires Produces(step) && ScopeStep(classes, step, selectors).Returned?
    ensures var once := ScopeStep(classes, step, selectors).value;
            && Produces(once) && Selector(ProducerName(once)) == Selector(ProducerName(step))
            && (NamedProducer(step) ==> NamedProducer(once))
  {
    var name := ProducerName(step);
    ScopedNameKeepsTheBase(name);
    var named := ScopeKey(classes, step.options, "name", selectors).value;
    assert "name" in named ==> ScopeStep(classes, step, selectors).value.options["name"] == named["name"];
  }

  predicate UnstableStep(classes: Classes, step: Step, selectors: set<string>) {
    && Selected(step) == Returned(true)
    && (Unstable(classes, step.options, "name", selectors) || Unstable(classes, step.options, "pattern", selectors))
  }

  /**
   * Scoping a scoped workflow again, with the uploads' selectors collected anew: they are the same selectors, and every
   * step stays as it is, except that each step with a selector that begins like an expression and does not end
   * like one, and was scoped, is now refused.
   */
  lemma SecondWorkflow(classes: Classes, steps: seq<Step>, once: seq<Step>, pattern: string)
    requires AllNamed(steps) && |once| == |steps|
    requires forall i :: 0 <= i < |steps| ==>
               ScopeStep(classes, steps[i], {pattern} + Producers(steps)) == Returned(once[i])
    ensures AllNamed(once) && Producers(once) == Producers(steps)
    ensures forall i :: 0 <= i < |steps| ==>
              ScopeStep(classes, once[i], {pattern} + Producers(once))
              == if UnstableStep(classes, steps[i], {pattern} + Producers(steps)) then Raised else Returned(once[i])
  {
    var selectors := {pattern} + Producers(steps);
    forall i | 0 <= i < |steps|
      ensures Produces(once[i]) <==> Produces(steps[i])
      ensures Produces(steps[i]) ==>
                Selector(ProducerName(once[i])) == Selector(ProducerName(steps[i])) && NamedProducer(once[i])
      ensures ScopeStep(classes, once[i], selectors)
           == if UnstableStep(classes, steps[i], selectors) then Raised else Returned(once[i])
    {
      SecondStep(classes, steps[i], selectors);
      if Produces(steps[i]) { ScopedProducer(classes, steps[i], selectors); }
      assert ScopeStep(classes, steps[i], selectors).value == once[i];
    }
    SameProducers(steps, once);
  }

  lemma SameProducers(a: seq<Step>, b: seq<Step>)
    requires |a| == |b|
    requires forall i :: 0 <= i < |a| ==> (Produces(b[i]) <==> Produces(a[i]))
    requires forall i :: 0 <= i < |a| && Produces(a[i]) ==>
               Selector(ProducerName(b[i])) == Selector(ProducerName(a[i]))
    ensures Producers(a) == Producers(b)
  {
    forall x
      ensures x in Producers(a) <==> x in Producers(b)
    {
      if x in Producers(a) {
        var i :| 0 <= i < |a| && Produces(a[i]) && x == Selector(ProducerName(a[i]));
        assert Produces(b[i]) && x == Selector(ProducerName(b[i]));
      }
      if x in Producers(b) {
        var i :| 0 <= i < |b| && Produces(b[i]) && x == Selector(ProducerName(b[i]));
        assert Produces(a[i]) && x == Selector(ProducerName(a[i]));
      }
    }
  }

  /** A scoped download belongs to the current run and has one selector; any other one names exact artifacts. */
  lemma DownloadsHaveOneIdentity(classes: Classes, step: Step, selectors: set<string>)
    requires Action(step.uses) == "actions/download-artifact" && ScopeStep(classes, step, selectors).Returned?
    ensures var once := ScopeStep(classes, step, selectors).value.options;
            if "artifact-ids" in once then
              once == step.options && !Blank(once["artifact-ids"]) && "name" !in once && "pattern" !in once
            else
              && ("run-id" in once ==> CurrentRun(once["run-id"], "github.run_id"))
              && ("repository" in once ==> CurrentRun(once["repository"], "github.repository"))
              && ("name" in once <==> "pattern" !in once)
              && !Blank(once[if "name" in once then "name" else "pattern"])
  {
    if Selected(step) == Returned(true) {
      ScopedOptionsTwice(classes, step.options, selectors);
      SameDownload(step.options, ScopeStep(classes, step, selectors).value.options);
    }
  }
}
