/** What the editor records, said by paths, entries and texts instead of its own lookups. */
module EditorMeaning {
  import opened Common
  import opened PythonText
  import opened NodeGraph
  import opened NodePaths
  import opened Splice
  import opened ScalarEditor
  import ControlText

  // ----- literal blocks ----------------------------------------------------------------

  /** The lines of a block that is indented by this many blanks; None for a text that is no such block. */
  function ReadBlock(text: string, indent: nat): Option<seq<string>>
    decreases |text|
  {
    if text == "" then Some([])
    else
      var k := FindOrEnd(text, '\n', 0);
      if k == |text| || k < indent || (exists i :: 0 <= i < indent && text[i] != ' ') then None
      else
        match ReadBlock(text[k + 1..], indent)
        case None => None
        case Some(lines) => Some([text[indent..k]] + lines)
  }

  lemma ReadFirst(indent: nat, line: string, rest: string, k: nat)
    requires '\n' !in line && k == indent + |line|
    ensures var text := Repeat(' ', indent) + line + "\n" + rest;
            && FindOrEnd(text, '\n', 0) == k && text[k + 1..] == rest && text[indent..k] == line
            && forall i :: 0 <= i < indent ==> text[i] == ' '
  {
    var text := Repeat(' ', indent) + line + "\n" + rest;
    assert text[k] == '\n';
    forall i | 0 <= i < k
      ensures text[i] != '\n'
    {
      if i >= indent { assert text[i] == line[i - indent]; }
    }
  }

  lemma {:induction false} BlockIsRead(column: nat, lines: seq<string>)
    requires forall i :: 0 <= i < |lines| ==> '\n' !in lines[i]
    ensures ReadBlock(IndentedLines(column, lines), column + 2) == Some(lines)
  {
    if lines != [] {
      BlockIsRead(column, lines[1..]);
      ReadFirst(column + 2, lines[0], IndentedLines(column, lines[1..]), column + 2 + |lines[0]|);
      assert lines == [lines[0]] + lines[1..];
    }
  }

  lemma NoFeedInLines(value: string)
    ensures forall i :: 0 <= i < |SplitLines(value)| ==> '\n' !in SplitLines(value)[i]
  {
    ControlText.SplitHasNoBreak(value);
    forall i | 0 <= i < |SplitLines(value)|
      ensures '\n' !in SplitLines(value)[i]
    {
      assert ControlText.NoBreak(SplitLines(value)[i]);
    }
  }

  /**
   * A literal block reads back as the lines of its value, two blanks behind the column of its key; closed by line
   * feeds these lines are the value again exactly if it ends with one and has no other kind of line boundary.
   */
  lemma BlockReadsBack(column: nat, value: string)
    ensures var block := LiteralBlock(column, SplitLines(value));
            && block[..2] == "|\n" && ReadBlock(block[2..], column + 2) == Some(SplitLines(value))
            && (ControlText.Unlines(SplitLines(value)) == value <==> ControlText.PlainLines(value))
  {
    NoFeedInLines(value);
    BlockIsRead(column, SplitLines(value));
    ControlText.UnlinesSplit(value);
    assert LiteralBlock(column, SplitLines(value))[2..] == IndentedLines(column, SplitLines(value));
  }

  // ----- entries -----------------------------------------------------------------------

  ghost predicate FirstHolding(pairs: seq<(Id, Id)>, value: Id, i: nat) {
    i < |pairs| && pairs[i].1 == value && forall j :: 0 <= j < i ==> pairs[j].1 != value
  }

  /** The key of entry i is a scalar with this text. */
  ghost predicate KeyIs(g: Graph, pairs: seq<(Id, Id)>, name: string, i: nat) {
    i < |pairs| && pairs[i].0 in g && g[pairs[i].0].kind.ScalarNode? && g[pairs[i].0].kind.value == name
  }

  ghost predicate FirstNamed(g: Graph, pairs: seq<(Id, Id)>, name: string, i: nat) {
    KeyIs(g, pairs, name, i) && forall j: nat :: j < i ==> !KeyIs(g, pairs, name, j)
  }

  ghost predicate LastNamed(g: Graph, pairs: seq<(Id, Id)>, name: string, i: nat) {
    KeyIs(g, pairs, name, i) && forall j: nat :: i < j ==> !KeyIs(g, pairs, name, j)
  }

  lemma {:induction false} EntryOfValueMeans(pairs: seq<(Id, Id)>, value: Id, i: nat)
    ensures EntryOfValue(pairs, value) == Some(i) <==> FirstHolding(pairs, value, i)
    ensures EntryOfValue(pairs, value).Some? ==> EntryOfValue(pairs, value).value < |pairs|
  {
    if pairs != [] && pairs[0].1 != value {
      EntryOfValueMeans(pairs[1..], value, if i > 0 then i - 1 else 0);
      assert forall j :: 1 <= j < |pairs| ==> pairs[j] == pairs[1..][j - 1];
      if i > 0 { assert FirstHolding(pairs[1..], value, i - 1) <==> FirstHolding(pairs, value, i); }
    }
  }

  lemma {:induction false} EntryOfKeyMeans(g: Graph, pairs: seq<(Id, Id)>, name: string)
    ensures match EntryOfKey(g, pairs, name)
            case None => forall j: nat :: !KeyIs(g, pairs, name, j)
            case Some(i) => FirstNamed(g, pairs, name, i)
  {
    if pairs != [] && !HasText(g, pairs[0].0, name) {
      EntryOfKeyMeans(g, pairs[1..], name);
      forall j: nat | 0 < j
        ensures KeyIs(g, pairs, name, j) <==> KeyIs(g, pairs[1..], name, j - 1)
      {
        if j < |pairs| { assert pairs[j] == pairs[1..][j - 1]; }
      }
    }
  }

  lemma {:induction false} LastEntryMeans(g: Graph, pairs: seq<(Id, Id)>, name: string)
    ensures match LastEntry(g, pairs, name)
            case None => forall j: nat :: !KeyIs(g, pairs, name, j)
            case Some(i) => LastNamed(g, pairs, name, i)
    decreases |pairs|
  {
    if pairs != [] {
      var n := |pairs| - 1;
      if !HasText(g, pairs[n].0, name) {
        LastEntryMeans(g, pairs[..n], name);
        forall j: nat
          ensures KeyIs(g, pairs, name, j) <==> KeyIs(g, pairs[..n], name, j)
        {
        }
      }
    }
  }

  // ----- the loaded document -----------------------------------------------------------

  /** Loading keeps the last of several entries with one key. */
  ghost predicate LoadsAs(g: Graph, id: Id, name: string, child: Id) {
    id in g && g[id].kind.MappingNode?
    && exists i: nat :: LastNamed(g, g[id].kind.pairs, name, i) && g[id].kind.pairs[i].1 == child
  }

  lemma LoadedMeans(g: Graph, id: Id, name: string, child: Id)
    requires Closed(g) && id in g
    ensures LoadedChild(g, id, name) == Some(child) <==> LoadsAs(g, id, name, child)
  {
    if g[id].kind.MappingNode? {
      var pairs := g[id].kind.pairs;
      LastEntryMeans(g, pairs, name);
      if i: nat, j: nat :| LastNamed(g, pairs, name, i) && LastEntry(g, pairs, name) == Some(j) {
        assert i == j;
      }
    }
  }

  ghost predicate StandsAt(s: string, t: string, k: nat) {
    k + |t| <= |s| && forall i :: 0 <= i < |t| ==> s[k + i] == t[i]
  }

  lemma {:induction false} WithinMeans(text: string, value: string)
    ensures Within(text, value) <==> exists k: nat :: StandsAt(value, text, k)
  {
    if text <= value {
      assert StandsAt(value, text, 0);
    } else if value != [] {
      WithinMeans(text, value[1..]);
      forall k: nat
        ensures StandsAt(value, text, k + 1) <==> StandsAt(value[1..], text, k)
      {
        assert value == [value[0]] + value[1..];
      }
      if k: nat :| StandsAt(value, text, k) {
        if k == 0 { PrefixStands(value, text); }
        assert k > 0 && StandsAt(value[1..], text, k - 1);
      }
    } else if k: nat :| StandsAt(value, text, k) {
      PrefixStands(value, text);
    }
  }

  lemma PrefixStands(value: string, text: string)
    ensures StandsAt(value, text, 0) ==> text <= value
  {
    if StandsAt(value, text, 0) { assert forall i :: 0 <= i < |text| ==> text[i] == value[0 + i]; }
  }

  /** A condition is there: as a key of a mapping, an item of a sequence, or within the text of a scalar. */
  ghost predicate HasCondition(g: Graph, id: Id)
    requires id in g
  {
    match g[id].kind
    case ScalarNode(value, _) => exists k: nat :: StandsAt(value, "if", k)
    case SequenceNode(items) =>
      exists item :: item in items && item in g && g[item].kind.ScalarNode? && g[item].kind.value == "if"
    case MappingNode(pairs, _) => exists i: nat :: KeyIs(g, pairs, "if", i)
  }

  lemma ContainsMeans(g: Graph, id: Id)
    requires id in g
    ensures Contains(g, id, "if") <==> HasCondition(g, id)
  {
    match g[id].kind
    case ScalarNode(value, _) => WithinMeans("if", value);
    case SequenceNode(items) =>
      if i :| 0 <= i < |items| && HasText(g, items[i], "if") {
        assert items[i] in items;
      }
      if item :| item in items && item in g && g[item].kind.ScalarNode? && g[item].kind.value == "if" {
        var i :| 0 <= i < |items| && items[i] == item;
        assert HasText(g, items[i], "if");
      }
    case MappingNode(pairs, _) =>
      if i: nat :| KeyIs(g, pairs, "if", i) {
        assert HasText(g, pairs[i].0, "if");
      }
      if i: nat :| i < |pairs| && HasText(g, pairs[i].0, "if") {
        assert KeyIs(g, pairs, "if", i);
      }
  }

  // ----- what is recorded --------------------------------------------------------------

  /** The path leads to this node of the editor's document. */
  ghost predicate PathTo(editor: Editor, path: seq<Part>, id: Id)
    reads editor
  {
    LeadsTo(editor.tree, editor.root, editor.nodeCounts, path, id)
  }

  /** The column of the first key that holds the node, in the mapping that the path to it passes last. */
  ghost predicate ColumnOf(editor: Editor, path: seq<Part>, id: Id, column: nat)
    reads editor
  {
    path != [] && ColumnUnder(editor, path[..|path| - 1], id, column)
  }

  ghost predicate ColumnUnder(editor: Editor, front: seq<Part>, id: Id, column: nat)
    reads editor
  {
    exists parent: Id, i: nat :: HoldsAt(editor, front, parent, id, i, column)
  }

  ghost predicate HoldsAt(editor: Editor, path: seq<Part>, parent: Id, id: Id, i: nat, column: nat)
    reads editor
  {
    && PathTo(editor, path, parent) && parent in editor.tree && editor.tree[parent].kind.MappingNode?
    && FirstHolding(editor.tree[parent].kind.pairs, id, i)
    && editor.tree[parent].kind.pairs[i].0 in editor.tree
    && editor.tree[editor.tree[parent].kind.pairs[i].0].startColumn == column
  }

  lemma ColumnMeans(editor: Editor, front: seq<Part>, id: Id, column: nat)
    requires editor.Valid()
    ensures ColumnUnder(editor, front, id, column)
       <==> editor.Found(front).Some? && editor.KeyColumn(editor.Found(front).value, id) == Some(column)
  {
    var found := editor.Found(front);
    forall parent: Id
      ensures PathTo(editor, front, parent) <==> found == Some(parent)
    {
      editor.FoundIsWhereThePathLeads(front, parent);
    }
    if found.Some? && editor.tree[found.value].kind.MappingNode? {
      var pairs := editor.tree[found.value].kind.pairs;
      forall i: nat
        ensures EntryOfValue(pairs, id) == Some(i) <==> FirstHolding(pairs, id, i)
        ensures FirstHolding(pairs, id, i) ==> pairs[i].0 in editor.tree
      {
        EntryOfValueMeans(pairs, id, i);
        if i < |pairs| { PairsAreNodes(editor.tree, found.value, i); }
      }
      if editor.KeyColumn(found.value, id) == Some(column) {
        var i := EntryOfValue(pairs, id).value;
        assert HoldsAt(editor, front, found.value, id, i, column);
      }
    }
  }

  /** The text that stands for the value: quoted on one line, or a block of its lines under the key. */
  ghost predicate Renders(editor: Editor, path: seq<Part>, id: Id, value: string, quote: string -> string, text: string)
    reads editor
  {
    if '\n' !in value then text == quote(value)
    else exists column: nat :: ColumnOf(editor, path, id, column) && IsBlock(text, column, value)
  }

  /** A literal block of the lines of the value, two blanks behind the column. */
  ghost predicate IsBlock(text: string, column: nat, value: string) {
    |text| >= 2 && text[..2] == "|\n" && ReadBlock(text[2..], column + 2) == Some(SplitLines(value))
  }

  lemma ReplacementRenders(editor: Editor, path: seq<Part>, id: Id, value: string, quote: string -> string)
    requires editor.Valid()
    ensures var r := editor.Replacement(path, id, value, quote);
            && (r.Some? ==> Renders(editor, path, id, value, quote, r.value))
            && (r.None? ==> forall text :: !Renders(editor, path, id, value, quote, text))
  {
    if '\n' in value && path != [] {
      var front := path[..|path| - 1];
      var parent := editor.Found(front);
      forall column: nat
        ensures ColumnOf(editor, path, id, column)
           <==> parent.Some? && editor.KeyColumn(parent.value, id) == Some(column)
      {
        ColumnMeans(editor, front, id, column);
      }
      if parent.Some? && editor.KeyColumn(parent.value, id).Some? {
        BlockIsBlock(editor.KeyColumn(parent.value, id).value, value);
      }
    }
  }

  lemma BlockIsBlock(column: nat, value: string)
    ensures IsBlock(LiteralBlock(column, SplitLines(value)), column, value)
  {
    BlockReadsBack(column, value);
  }

  /** The scalar at the path is rendered anew, unless it has the value already. */
  ghost predicate Sets(editor: Editor, path: seq<Part>, value: string, quote: string -> string, before: seq<Edit>,
                       after: seq<Edit>)
    reads editor
  {
    exists id: Id :: PathTo(editor, path, id) && id in editor.tree && editor.tree[id].kind.ScalarNode?
                     && SetsAt(editor, path, id, value, quote, before, after)
  }

  ghost predicate SetsAt(editor: Editor, path: seq<Part>, id: Id, value: string, quote: string -> string,
                         before: seq<Edit>, after: seq<Edit>)
    requires id in editor.tree && editor.tree[id].kind.ScalarNode?
    reads editor
  {
    if editor.tree[id].kind.value == value then after == before
    else exists text :: Renders(editor, path, id, value, quote, text)
                        && after == before + [Edit(editor.tree[id].start, editor.tree[id].end, text)]
  }

  /** Setting a value succeeds and records exactly this, or it fails for want of it and records nothing. */
  lemma SetMeans(editor: Editor, path: seq<Part>, value: string, quote: string -> string, ok: bool,
                 before: seq<Edit>, after: seq<Edit>)
    requires editor.Valid() && editor.Sets(path, value, quote, ok, before, after)
    ensures ok ==> Sets(editor, path, value, quote, before, after)
    ensures !ok ==> after == before && forall other :: !Sets(editor, path, value, quote, before, other)
  {
    forall id: Id
      ensures PathTo(editor, path, id) <==> editor.Found(path) == Some(id)
    {
      editor.FoundIsWhereThePathLeads(path, id);
    }
    if editor.Found(path).Some? {
      ReplacementRenders(editor, path, editor.Found(path).value, value, quote);
    }
  }

  /** The first entry of that name in the mapping at the path, with its key and its value. */
  ghost predicate ConditionAt(editor: Editor, job: seq<Part>, key: Node, value: Node)
    reads editor
  {
    exists id: Id, i: nat :: EntryIn(editor, job, id, i, key, value)
  }

  ghost predicate EntryIn(editor: Editor, job: seq<Part>, id: Id, i: nat, key: Node, value: Node)
    reads editor
  {
    && PathTo(editor, job, id) && id in editor.tree && editor.tree[id].kind.MappingNode?
    && FirstNamed(editor.tree, editor.tree[id].kind.pairs, "if", i)
    && editor.tree[id].kind.pairs[i].0 in editor.tree && editor.tree[editor.tree[id].kind.pairs[i].0] == key
    && editor.tree[id].kind.pairs[i].1 in editor.tree && editor.tree[editor.tree[id].kind.pairs[i].1] == value
  }

  lemma ConditionMeans(editor: Editor, job: seq<Part>, key: Node, value: Node)
    requires editor.Valid()
    ensures editor.ConditionEntry(job) == Some((key, value)) <==> ConditionAt(editor, job, key, value)
  {
    var found := editor.Found(job);
    forall id: Id
      ensures PathTo(editor, job, id) <==> found == Some(id)
    {
      editor.FoundIsWhereThePathLeads(job, id);
    }
    if found.Some? && editor.tree[found.value].kind.MappingNode? {
      var pairs := editor.tree[found.value].kind.pairs;
      EntryOfKeyMeans(editor.tree, pairs, "if");
      if EntryOfKey(editor.tree, pairs, "if").Some? {
        var i: nat := EntryOfKey(editor.tree, pairs, "if").value;
        editor.EntryIs(job, found.value, i);
        FirstIsOne(editor.tree, pairs, "if", i);
        assert EntryIn(editor, job, found.value, i, editor.tree[pairs[i].0], editor.tree[pairs[i].1]);
      }
    }
  }

  lemma FirstIsOne(g: Graph, pairs: seq<(Id, Id)>, name: string, i: nat)
    requires FirstNamed(g, pairs, name, i)
    ensures forall j: nat :: FirstNamed(g, pairs, name, j) ==> j == i
  {
  }

  /** The job as it is loaded, from the last entries of these names. */
  lemma JobMeans(editor: Editor, job: string, id: Id)
    requires editor.Valid()
    ensures editor.LoadedJob(job) == Some(id)
       <==> exists jobs :: LoadsAs(editor.tree, editor.root, "jobs", jobs) && LoadsAs(editor.tree, jobs, job, id)
  {
    forall jobs: Id
      ensures LoadedChild(editor.tree, editor.root, "jobs") == Some(jobs)
         <==> LoadsAs(editor.tree, editor.root, "jobs", jobs)
    {
      LoadedMeans(editor.tree, editor.root, "jobs", jobs);
    }
    forall jobs: Id | jobs in editor.tree
      ensures LoadedChild(editor.tree, jobs, job) == Some(id) <==> LoadsAs(editor.tree, jobs, job, id)
    {
      LoadedMeans(editor.tree, jobs, job, id);
    }
  }

  // ----- the lines of a condition ------------------------------------------------------

  /** The line that holds position at starts here. */
  ghost predicate StartsLine(source: string, at: nat, start: nat) {
    start <= at <= |source| && (start == 0 || source[start - 1] == '\n')
    && forall i :: start <= i < at ==> source[i] != '\n'
  }

  /** The line that holds position at ends here, before its line feed or with the source. */
  ghost predicate EndsLine(source: string, at: nat, stop: nat) {
    at <= stop <= |source| && (stop == |source| || source[stop] == '\n')
    && forall i :: at <= i < stop ==> source[i] != '\n'
  }

  /** Blank, or a comment: the first character that is not blank is a number sign. */
  ghost predicate NoText(source: string, from: nat, until: nat)
    requires from <= until <= |source|
  {
    forall k :: from <= k < until && !Space(source[k]) && (forall i :: from <= i < k ==> Space(source[i])) ==>
      source[k] == '#'
  }

  lemma FirstOf(s: string) returns (k: nat)
    ensures k <= |s| && (forall i :: 0 <= i < k ==> Space(s[i])) && (k < |s| ==> !Space(s[k]))
  {
    k := 0;
    while k < |s| && Space(s[k])
      invariant k <= |s| && forall i :: 0 <= i < k ==> Space(s[i])
    {
      k := k + 1;
    }
  }

  lemma {:induction false} BlankStrips(s: string)
    requires AllSpace(s)
    ensures Strip(s) == ""
  {
    if s != "" { BlankStrips(s[1..]); }
  }

  lemma TailMeans(source: string, from: nat, until: nat)
    requires from <= until <= |source|
    ensures var tail := Strip(source[from..until]);
            tail != "" && tail[0] != '#' <==> !NoText(source, from, until)
  {
    var s := source[from..until];
    var k := FirstOf(s);
    forall i | from <= i < until
      ensures source[i] == s[i - from]
    {
    }
    if k < |s| {
      FirstNonblank(s, k);
      assert source[from + k] == s[k];
    } else {
      BlankStrips(s);
    }
  }

  /** The lines from the key's to the value's: nothing but blanks before the key, and no text behind the value. */
  ghost predicate LinesOf(source: string, key: Node, value: Node, start: nat, stop: nat) {
    && StartsLine(source, key.start, start) && (forall i :: start <= i < key.start ==> Space(source[i]))
    && value.end <= |source|
    && if value.kind.ScalarNode? && value.kind.literal && value.endColumn == 0 then stop == value.end
       else exists last: nat :: EndsLine(source, value.end, last) && NoText(source, value.end, last)
                                && stop == if last < |source| then last + 1 else last
  }

  /** A condition's span is exactly that of these lines, and it is refused exactly if they hold something else. */
  lemma SpanMeans(source: string, key: Node, value: Node, start: nat, stop: nat)
    requires key.start <= |source| && value.start <= value.end <= |source|
    requires value.endColumn == 0 ==> AtLineStart(source, value.end)
    ensures ConditionSpan(source, key, value) == Returned((start, stop)) <==> LinesOf(source, key, value, start, stop)
  {
    var first := LineStart(source, key.start);
    assert StartsLine(source, key.start, start) <==> start == first;
    forall i | first <= i < key.start
      ensures source[i] == source[first..key.start][i - first]
    {
    }
    assert AllSpace(source[first..key.start]) <==> forall i :: first <= i < key.start ==> Space(source[i]);
    if !EndsAsBlock(value) {
      var last: nat := FindOrEnd(source, '\n', value.end);
      TailMeans(source, value.end, last);
      assert forall other: nat :: EndsLine(source, value.end, other) <==> other == last;
    }
  }
}
