/** What scope does to one step, by its action and its options alone. */
module ArtifactSteps {
  import opened Common
  import opened PythonText
  import opened ArtifactGlob
  import opened ArtifactOverlap
  import opened ArtifactScope

  const UPLOAD := "actions/upload-artifact"
  const DOWNLOAD := "actions/download-artifact"

  /** The step uses this action, at some version or at none. */
  ghost predicate Runs(step: Step, action: string) {
    step.uses == action || action + "@" <= step.uses
  }

  lemma ActionIsRun(step: Step, action: string)
    requires '@' !in action
    ensures Action(step.uses) == action <==> Runs(step, action)
  {
    var k := FindOrEnd(step.uses, '@', 0);
    assert step.uses == step.uses[..k] + step.uses[k..];
    assert forall i :: 0 <= i < |action| ==> action[i] in action;
    if action + "@" <= step.uses {
      assert step.uses[|action|] == (action + "@")[|action|];
      assert forall i :: 0 <= i < |action| ==> step.uses[i] == (action + "@")[i];
      assert step.uses[..|action|] == (action + "@")[..|action|] == action;
    }
  }

  // ----- texts -------------------------------------------------------------------------

  /** One expression with this text between its braces, and nothing else. */
  ghost predicate Braces(text: string, inside: string) {
    text == "${{" + inside + "}}" && '\n' !in inside
  }

  ghost predicate Dynamic(text: string) {
    exists inside :: Braces(text, inside)
  }

  /** The name of a release plan, with blanks around it. */
  ghost predicate NamesAPlan(text: string) {
    exists inside :: Braces(text, inside) && Strip(inside) in PLAN_NAMES
  }

  lemma BracesAreFull(text: string, inside: string)
    requires Braces(text, inside)
    ensures FullExpression(text) && text[3..|text| - 2] == inside
  {
    assert text[..3] == "${{" && text[|text| - 2..] == "}}";
  }

  lemma FullHasBraces(text: string)
    requires FullExpression(text)
    ensures Braces(text, text[3..|text| - 2])
  {
    var inside := text[3..|text| - 2];
    assert text == text[..3] + inside + text[|text| - 2..];
  }

  lemma DynamicIsFull(text: string)
    ensures Dynamic(text) <==> FullExpression(text)
    ensures NamesAPlan(text) <==> FullExpression(text) && PlanName(text)
  {
    if FullExpression(text) { FullHasBraces(text); }
    if Dynamic(text) {
      var inside :| Braces(text, inside);
      BracesAreFull(text, inside);
    }
    if NamesAPlan(text) {
      var inside :| Braces(text, inside) && Strip(inside) in PLAN_NAMES;
      BracesAreFull(text, inside);
    }
  }

  // ----- the current run ---------------------------------------------------------------

  /** ${{ expression }}, with any blanks inside the braces. */
  ghost predicate IsExpression(value: Value, expression: string) {
    value.Text? && exists a, b :: AllSpace(a) && AllSpace(b) && value.text == "${{" + a + expression + b + "}}"
  }

  lemma {:induction false} LeftStripDrops(s: string) returns (blanks: string)
    ensures s == blanks + LeftStrip(s) && AllSpace(blanks)
  {
    if s != [] && Space(s[0]) {
      var rest := LeftStripDrops(s[1..]);
      blanks := [s[0]] + rest;
      assert s == [s[0]] + s[1..];
    } else {
      blanks := "";
    }
  }

  lemma {:induction false} RightStripDrops(s: string) returns (blanks: string)
    ensures s == RightStrip(s) + blanks && AllSpace(blanks)
  {
    if s != [] && Space(s[|s| - 1]) {
      var rest := RightStripDrops(s[..|s| - 1]);
      blanks := rest + [s[|s| - 1]];
      assert s == s[..|s| - 1] + [s[|s| - 1]];
    } else {
      blanks := "";
    }
  }

  lemma {:induction false} LeftStripBlanks(blanks: string, s: string)
    requires AllSpace(blanks) && (s == "" || !Space(s[0]))
    ensures LeftStrip(blanks + s) == s
    decreases |blanks|
  {
    if blanks == "" {
      assert blanks + s == s;
    } else {
      assert (blanks + s)[1..] == blanks[1..] + s;
      LeftStripBlanks(blanks[1..], s);
    }
  }

  lemma {:induction false} RightStripBlanks(s: string, blanks: string)
    requires AllSpace(blanks) && (s == "" || !Space(s[|s| - 1]))
    ensures RightStrip(s + blanks) == s
    decreases |blanks|
  {
    if blanks == "" {
      assert s + blanks == s;
    } else {
      assert (s + blanks)[..|s + blanks| - 1] == s + blanks[..|blanks| - 1];
      RightStripBlanks(s, blanks[..|blanks| - 1]);
    }
  }

  /** A text strips to this word exactly if it is the word between blanks. */
  lemma StripIs(s: string, word: string)
    requires word != "" && !Space(word[0]) && !Space(word[|word| - 1])
    ensures Strip(s) == word <==> exists a, b :: AllSpace(a) && AllSpace(b) && s == a + word + b
  {
    if Strip(s) == word {
      var a := LeftStripDrops(s);
      var b := RightStripDrops(LeftStrip(s));
      assert s == a + word + b;
    }
    if exists a, b :: AllSpace(a) && AllSpace(b) && s == a + word + b {
      var a, b :| AllSpace(a) && AllSpace(b) && s == a + word + b;
      assert s == a + (word + b);
      LeftStripBlanks(a, word + b);
      RightStripBlanks(word, b);
    }
  }

  lemma BracesAround(text: string, inside: string)
    ensures text == "${{" + inside + "}}"
       <==> StartsWith(text, "${{") && |text| >= 5 && EndsWith(text, "}}") && text[3..|text| - 2] == inside
  {
    if text == "${{" + inside + "}}" {
      assert text[..3] == "${{" && text[|text| - 2..] == "}}" && text[3..|text| - 2] == inside;
    } else if |text| >= 5 {
      assert text == text[..3] + text[3..|text| - 2] + text[|text| - 2..];
    }
  }

  lemma Regroup(open: string, a: string, word: string, b: string, close: string)
    ensures open + a + word + b + close == open + (a + word + b) + close
  {
  }

  lemma CurrentRunIs(value: Value, expression: string)
    requires expression != "" && !Space(expression[0]) && !Space(expression[|expression| - 1])
    ensures CurrentRun(value, expression) <==> IsExpression(value, expression)
  {
    if CurrentRun(value, expression) {
      var inside := value.text[3..|value.text| - 2];
      StripIs(inside, expression);
      var a, b :| AllSpace(a) && AllSpace(b) && inside == a + expression + b;
      BracesAround(value.text, inside);
      Regroup("${{", a, expression, b, "}}");
    }
    if IsExpression(value, expression) { ExpressionIsCurrentRun(value, expression); }
  }

  lemma ExpressionIsCurrentRun(value: Value, expression: string)
    requires expression != "" && !Space(expression[0]) && !Space(expression[|expression| - 1])
    requires IsExpression(value, expression)
    ensures CurrentRun(value, expression)
  {
    var a, b :| AllSpace(a) && AllSpace(b) && value.text == "${{" + a + expression + b + "}}";
    var inside := a + expression + b;
    Regroup("${{", a, expression, b, "}}");
    BracesAround(value.text, inside);
    StripIs(inside, expression);
  }

  /** A string with something in it. */
  ghost predicate Filled(value: Value) {
    value.Text? && exists i :: 0 <= i < |value.text| && !Space(value.text[i])
  }

  lemma FilledIsNotBlank(value: Value)
    ensures Filled(value) <==> !Blank(value)
  {
    if value.Text? {
      var s := value.text;
      if Filled(value) {
        var i :| 0 <= i < |s| && !Space(s[i]);
        StripKeeps(s, s[i]);
      } else {
        assert s + "" == s && AllSpace(s);
        LeftStripBlanks(s, "");
      }
    }
  }

  // ----- the step ----------------------------------------------------------------------

  /** What becomes of one name or pattern. */
  ghost predicate OptionScoped(classes: Classes, before: Value, after: Value, selectors: set<string>) {
    if before.Other? then after == before
    else if Dynamic(before.text) then NamesAPlan(before.text) && after == before
    else if exists selector :: selector in selectors && Overlaps(classes, before.text, selector) then
      && after.Text? && |after.text| >= |SUFFIX| && after.text[|after.text| - |SUFFIX|..] == SUFFIX
      && (after.text == before.text || after.text == before.text + SUFFIX)
    else after == before
  }

  /** A step whose selectors have been scoped, and nothing else. */
  ghost predicate StepScoped(classes: Classes, before: Step, after: Step, selectors: set<string>) {
    && after.uses == before.uses && after.options.Keys == before.options.Keys
    && forall key :: key in before.options ==>
         if key == "name" || key == "pattern" then
           OptionScoped(classes, before.options[key], after.options[key], selectors)
         else after.options[key] == before.options[key]
  }

  /** The download is of this run and selects by exactly one name or pattern. */
  ghost predicate OneSelector(options: map<string, Value>) {
    && ("run-id" in options ==> IsExpression(options["run-id"], "github.run_id"))
    && ("repository" in options ==> IsExpression(options["repository"], "github.repository"))
    && ("name" in options <==> "pattern" !in options)
    && ("name" in options ==> Filled(options["name"])) && ("pattern" in options ==> Filled(options["pattern"]))
  }

  /** The option is an expression that cannot be resolved here. */
  ghost predicate Unresolved(options: map<string, Value>, key: string) {
    key in options && options[key].Text? && Dynamic(options[key].text) && !NamesAPlan(options[key].text)
  }

  lemma KeyScoped(classes: Classes, options: map<string, Value>, key: string, selectors: set<string>)
    ensures match ScopeKey(classes, options, key, selectors)
            case Raised => Unresolved(options, key)
            case Returned(after) =>
              && !Unresolved(options, key) && after.Keys == options.Keys
              && (forall k :: k in options && k != key ==> after[k] == options[k])
              && (key in options ==> OptionScoped(classes, options[key], after[key], selectors))
  {
    if key in options && options[key].Text? {
      DynamicIsFull(options[key].text);
      ScopedNameKeepsTheBase(options[key].text);
    }
  }

  lemma OptionsScoped(classes: Classes, step: Step, selectors: set<string>)
    ensures match ScopeOptions(classes, step.options, selectors)
            case Raised => Unresolved(step.options, "name") || Unresolved(step.options, "pattern")
            case Returned(after) =>
              && !Unresolved(step.options, "name") && !Unresolved(step.options, "pattern")
              && StepScoped(classes, step, step.(options := after), selectors)
  {
    KeyScoped(classes, step.options, "name", selectors);
    match ScopeKey(classes, step.options, "name", selectors)
    case Raised =>
    case Returned(named) => KeyScoped(classes, named, "pattern", selectors);
  }

  lemma DownloadIsSeparate(options: map<string, Value>)
    ensures "artifact-ids" in options ==>
              SeparateDownload(options)
              == if Filled(options["artifact-ids"]) && "name" !in options && "pattern" !in options then Returned(true)
                 else Raised
    ensures "artifact-ids" !in options ==>
              SeparateDownload(options) == if OneSelector(options) then Returned(false) else Raised
  {
    forall key | key in options
      ensures Filled(options[key]) <==> !Blank(options[key])
    {
      FilledIsNotBlank(options[key]);
    }
    if "run-id" in options { CurrentRunIs(options["run-id"], "github.run_id"); }
    if "repository" in options { CurrentRunIs(options["repository"], "github.repository"); }
  }

  /** The names and patterns of this step are looked at. */
  ghost predicate Scopable(step: Step) {
    Runs(step, UPLOAD) || (Runs(step, DOWNLOAD) && "artifact-ids" !in step.options)
  }

  /**
   * By its action and options alone: an upload, or a download without artifact IDs, has each text under "name" and
   * "pattern" that overlaps a selector suffixed over its own base, plan names and everything else kept, and is refused
   * exactly for an expression that names no plan or for a download that is not of this run with one selector. A
   * download by artifact IDs is kept, or refused when it also selects otherwise. Any other step is kept.
   */
  lemma StepIsScopedExactly(classes: Classes, step: Step, selectors: set<string>)
    ensures Scopable(step) ==>
              match ScopeStep(classes, step, selectors)
              case Returned(after) => StepScoped(classes, step, after, selectors)
              case Raised =>
                || (Runs(step, DOWNLOAD) && !OneSelector(step.options))
                || Unresolved(step.options, "name") || Unresolved(step.options, "pattern")
    ensures Scopable(step) && (|| (Runs(step, DOWNLOAD) && !OneSelector(step.options))
                               || Unresolved(step.options, "name") || Unresolved(step.options, "pattern")) ==>
              ScopeStep(classes, step, selectors).Raised?
    ensures Runs(step, DOWNLOAD) && "artifact-ids" in step.options ==>
              ScopeStep(classes, step, selectors)
              == if Filled(step.options["artifact-ids"]) && "name" !in step.options && "pattern" !in step.options
                 then Returned(step) else Raised
    ensures !Runs(step, UPLOAD) && !Runs(step, DOWNLOAD) ==> ScopeStep(classes, step, selectors) == Returned(step)
  {
    ActionIsRun(step, UPLOAD);
    ActionIsRun(step, DOWNLOAD);
    DownloadIsSeparate(step.options);
    OptionsScoped(classes, step, selectors);
  }
}
