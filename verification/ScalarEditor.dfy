/** The YAML scalar editor: alias counting, path lookup, recorded edits and the final splice. */
module ScalarEditor {
  import opened Common
  import opened NodeGraph
  import opened NodePaths
  import opened PythonText
  import opened Splice

  const MARKER := "# Generated by venus-os-ci-toolkit/scripts/install_release.py; edit .release-policy.json.\n"

  /**
   * Marks are positions in the source, and column zero is the start of a line. A scalar with a text is written at its
   * marks, and no value ends within a scalar key of its own.
   */
  ghost predicate WellMarked(source: string, tree: Graph) {
    forall id :: id in tree ==> MarkedNode(source, tree[id]) && MarkedEntries(tree, tree[id])
  }

  predicate MarkedNode(source: string, node: Node) {
    && node.start <= node.end <= |source|
    && (node.endColumn == 0 ==> AtLineStart(source, node.end))
    && (node.kind.ScalarNode? && node.kind.value != "" ==> Written(source, node))
  }

  /** Something is written there that is neither blank nor the start of a comment. */
  predicate Written(source: string, node: Node) {
    node.start < node.end <= |source| && !Space(source[node.start]) && source[node.start] != '#'
  }

  ghost predicate MarkedEntries(tree: Graph, node: Node) {
    node.kind.MappingNode? ==>
      forall i :: 0 <= i < |node.kind.pairs| ==> MarkedEntry(tree, node.kind.pairs[i].0, node.kind.pairs[i].1)
  }

  predicate MarkedEntry(tree: Graph, key: Id, value: Id) {
    key in tree && value in tree && tree[key].kind.ScalarNode? && tree[key].kind.value != "" ==>
      tree[value].end <= tree[key].start || tree[key].end <= tree[value].end
  }

  predicate AtLineStart(source: string, k: nat) {
    k == 0 || (k <= |source| && LineBreak(source[k - 1]))
  }

  /** A multi-line value as a literal block, indented under its key. */
  function LiteralBlock(column: nat, lines: seq<string>): string {
    "|\n" + IndentedLines(column, lines)
  }

  function IndentedLines(column: nat, lines: seq<string>): string {
    if lines == [] then [] else Repeat(' ', column + 2) + lines[0] + "\n" + IndentedLines(column, lines[1..])
  }

  /** The first entry of a mapping that holds this value node, or has this key. */
  function EntryOfValue(pairs: seq<(Id, Id)>, value: Id): Option<nat> {
    if pairs == [] then None
    else if pairs[0].1 == value then Some(0)
    else
      match EntryOfValue(pairs[1..], value)
      case None => None
      case Some(i) => Some(i + 1)
  }

  function EntryOfKey(g: Graph, pairs: seq<(Id, Id)>, name: string): Option<nat> {
    if pairs == [] then None
    else if HasText(g, pairs[0].0, name) then Some(0)
    else
      match EntryOfKey(g, pairs[1..], name)
      case None => None
      case Some(i) => Some(i + 1)
  }

  lemma {:induction false} EntryOfValueIsIn(pairs: seq<(Id, Id)>, value: Id)
    ensures EntryOfValue(pairs, value).Some? ==>
              var i := EntryOfValue(pairs, value).value; i < |pairs| && pairs[i].1 == value
  {
    if pairs != [] { EntryOfValueIsIn(pairs[1..], value); }
  }

  lemma {:induction false} EntryOfKeyIsIn(g: Graph, pairs: seq<(Id, Id)>, name: string)
    ensures EntryOfKey(g, pairs, name).Some? ==>
              var i := EntryOfKey(g, pairs, name).value; i < |pairs| && HasText(g, pairs[i].0, name)
  {
    if pairs != [] { EntryOfKeyIsIn(g, pairs[1..], name); }
  }

  lemma PairsAreNodes(g: Graph, id: Id, i: nat)
    requires Closed(g) && id in g && g[id].kind.MappingNode? && i < |g[id].kind.pairs|
    ensures g[id].kind.pairs[i].0 in g && g[id].kind.pairs[i].1 in g
  {
    FlattenAt(g[id].kind.pairs, i);
    assert Children(g, id)[2 * i] in g && Children(g, id)[2 * i + 1] in g;
  }

  lemma {:induction false} CountAllStaysNone(g: Graph, ids: seq<Id>, i: nat, count: nat, active: set<Id>, t: Tally)
    requires Closed(g) && (forall k :: 0 <= k < |ids| ==> ids[k] in g) && i <= count <= |ids|
    requires CountAll(g, ids, i, active, t) == None
    ensures CountAll(g, ids, count, active, t) == None
  {
    if i < count {
      CountAllStaysNone(g, ids, i, count - 1, active, t);
    }
  }

  lemma {:induction false} LookupStaysNone(g: Graph, root: Id, counts: map<Id, nat>, path: seq<Part>, i: nat,
                                           count: nat)
    requires Closed(g) && root in g && i <= count <= |path| && Lookup(g, root, counts, path, i) == None
    ensures Lookup(g, root, counts, path, count) == None
  {
    if i < count {
      LookupStaysNone(g, root, counts, path, i, count - 1);
    }
  }

  // ----- the span of a condition -------------------------------------------------------

  /** A | or > block that ends at the start of a line. */
  predicate EndsAsBlock(value: Node) {
    value.kind.ScalarNode? && value.kind.literal && value.endColumn == 0
  }

  /** The lines of a job's condition, from the start of its key's line to the end of its value's line. */
  function ConditionSpan(source: string, key: Node, value: Node): (r: Outcome<(nat, nat)>)
    requires key.start <= |source| && value.start <= value.end <= |source|
    requires value.endColumn == 0 ==> AtLineStart(source, value.end)
    ensures r.Returned? ==>
              var (start, stop) := r.value;
              && start <= key.start && AtLineStart(source, start) && AllSpace(source[start..key.start])
              && value.end <= stop <= |source| && (stop == |source| || AtLineStart(source, stop))
  {
    var start := LineStart(source, key.start);
    if !AllSpace(source[start..key.start]) then Raised
    else if EndsAsBlock(value) then Returned((start, value.end))
    else
      var nextLine := FindOrEnd(source, '\n', value.end);
      var tail := Strip(source[value.end..nextLine]);
      if tail != "" && tail[0] != '#' then Raised else Returned((start, Min(nextLine + 1, |source|)))
  }

  /**
   * The span runs forward exactly when the value ends on the key's line or later, or on the line just above it without
   * being a block. A value written elsewhere, which an alias allows, may end before that.
   */
  lemma SpanRunsForward(source: string, key: Node, value: Node)
    requires key.start <= |source| && value.start <= value.end <= |source|
    requires value.endColumn == 0 ==> AtLineStart(source, value.end)
    requires ConditionSpan(source, key, value).Returned?
    ensures var (start, stop) := ConditionSpan(source, key, value).value;
            start <= stop <==> (value.end < start ==> !EndsAsBlock(value) && '\n' !in source[value.end..start - 1])
  {
    var start := LineStart(source, key.start);
    if value.end < start && !EndsAsBlock(value) {
      var nextLine := FindOrEnd(source, '\n', value.end);
      assert source[start - 1] == '\n';
      var between := source[value.end..start - 1];
      if nextLine < start - 1 {
        assert between[nextLine - value.end] == '\n';
      } else {
        assert forall i :: 0 <= i < |between| ==> between[i] == source[value.end + i];
      }
    }
  }

  /**
   * The span holds the key exactly when the value ends behind it, and then the value's end as well: a value written
   * before its key, which only an alias can be, leaves the entry where it is, because the span ends before the key.
   */
  lemma SpanHoldsEntry(source: string, key: Node, value: Node)
    requires Written(source, key) && MarkedNode(source, value) && (value.end <= key.start || key.end <= value.end)
    requires ConditionSpan(source, key, value).Returned?
    ensures var (start, stop) := ConditionSpan(source, key, value).value;
            && (start <= key.start && key.end <= stop <==> key.end <= value.end)
            && (key.end <= value.end <==> key.start < stop)
  {
    var start := LineStart(source, key.start);
    if value.end <= key.start && !EndsAsBlock(value) {
      var nextLine := FindOrEnd(source, '\n', value.end);
      if key.start < nextLine {
        KeyInTail(source, start, key.start, value.end, nextLine);
      }
      assert source[key.start] != '\n';
    }
  }

  /** A tail that runs over the key is no comment. */
  lemma KeyInTail(source: string, start: nat, at: nat, from: nat, until: nat)
    requires start <= at < until <= |source| && from <= at && AllSpace(source[start..at])
    requires !Space(source[at]) && source[at] != '#'
    requires start == LineStart(source, at) && forall i :: from <= i < until ==> source[i] != '\n'
    ensures var tail := Strip(source[from..until]); tail != "" && tail[0] != '#'
  {
    assert start > 0 ==> source[start - 1] == '\n';
    var tail := source[from..until];
    assert forall i :: 0 <= i < at - from ==> tail[i] == source[start..at][from - start + i];
    FirstNonblank(tail, at - from);
  }

  lemma {:induction false} FirstNonblank(s: string, k: nat)
    requires k < |s| && !Space(s[k]) && forall i :: 0 <= i < k ==> Space(s[i])
    ensures Strip(s) != "" && Strip(s)[0] == s[k]
    decreases k
  {
    LeftStripTo(s, k);
    RightStripKeepsHead(s[k..]);
  }

  lemma {:induction false} LeftStripTo(s: string, k: nat)
    requires k < |s| && !Space(s[k]) && forall i :: 0 <= i < k ==> Space(s[i])
    ensures LeftStrip(s) == s[k..]
    decreases k
  {
    if k > 0 {
      assert forall i :: 0 <= i < k - 1 ==> s[1..][i] == s[i + 1];
      LeftStripTo(s[1..], k - 1);
      assert s[1..][k - 1..] == s[k..];
    }
  }

  lemma {:induction false} RightStripKeepsHead(s: string)
    requires s != "" && !Space(s[0])
    ensures RightStrip(s) != "" && RightStrip(s)[0] == s[0]
  {
    if Space(s[|s| - 1]) { RightStripKeepsHead(s[..|s| - 1]); }
  }

  /**
   * The edit is empty, starts at the line start of the key and ends at a line start behind the value's end. It deletes
   * the entry exactly when the value ends behind its key; otherwise it stops before the key. It runs forward exactly
   * when the value ends on the key's line or later, or, not being a block, on the line just above.
   */
  ghost predicate WholeLines(source: string, key: Node, value: Node, e: Edit) {
    && e.text == "" && e.start <= key.start <= |source| && value.end <= e.stop <= |source|
    && AtLineStart(source, e.start) && AllSpace(source[e.start..key.start])
    && (e.stop == |source| || AtLineStart(source, e.stop))
    && (key.end <= e.stop <==> key.end <= value.end) && (key.end <= value.end <==> key.start < e.stop)
    && (e.start <= e.stop
        <==> (value.end < e.start ==> !EndsAsBlock(value) && '\n' !in source[value.end..e.start - 1]))
  }

  lemma SpanIsWhole(source: string, key: Node, value: Node)
    requires Written(source, key) && MarkedNode(source, value) && (value.end <= key.start || key.end <= value.end)
    requires ConditionSpan(source, key, value).Returned?
    ensures var (start, stop) := ConditionSpan(source, key, value).value;
            WholeLines(source, key, value, Edit(start, stop, ""))
  {
    SpanRunsForward(source, key, value);
    SpanHoldsEntry(source, key, value);
  }

  // ----- what the document has ---------------------------------------------------------

  /** The last entry with this key, which is the one that a loaded mapping keeps. */
  function LastEntry(g: Graph, pairs: seq<(Id, Id)>, name: string): (k: Option<nat>)
    ensures k.Some? ==> k.value < |pairs| && HasText(g, pairs[k.value].0, name)
    ensures k.None? ==> forall i :: 0 <= i < |pairs| ==> !HasText(g, pairs[i].0, name)
  {
    if pairs == [] then None
    else if HasText(g, pairs[|pairs| - 1].0, name) then Some(|pairs| - 1)
    else LastEntry(g, pairs[..|pairs| - 1], name)
  }

  /** The loaded value under a key; None stands for the KeyError or TypeError. */
  function LoadedChild(g: Graph, id: Id, name: string): (r: Option<Id>)
    requires Closed(g) && id in g
    ensures r.Some? ==> r.value in g
  {
    if !g[id].kind.MappingNode? || LastEntry(g, g[id].kind.pairs, name).None? then None
    else
      var i := LastEntry(g, g[id].kind.pairs, name).value;
      (PairsAreNodes(g, id, i); Some(g[id].kind.pairs[i].1))
  }

  predicate Within(text: string, value: string) {
    text <= value || (value != [] && Within(text, value[1..]))
  }

  /** Python's text in value, for a loaded value. */
  predicate Contains(g: Graph, id: Id, text: string)
    requires id in g
  {
    match g[id].kind
    case ScalarNode(value, _) => Within(text, value)
    case SequenceNode(items) => exists i :: 0 <= i < |items| && HasText(g, items[i], text)
    case MappingNode(pairs, _) => exists i :: 0 <= i < |pairs| && HasText(g, pairs[i].0, text)
  }

  // ----- aliased conditions ------------------------------------------------------------

  lemma CountLeaf(g: Graph, id: Id, active: set<Id>, t: Tally)
    requires Closed(g) && id in g && id !in active && (Children(g, id) == [] || id in t.seen)
    ensures CountNode(g, id, active, t) == Some(Visit(t, id))
  {
    if id in t.seen { assert t.seen + {id} == t.seen; }
  }

  function Visit(t: Tally, id: Id): Tally {
    Tally(t.seen + {id}, Bump(t.counts, id))
  }

  /** Counting a mapping of one entry. */
  lemma CountEntry(g: Graph, id: Id, key: Id, value: Id, active: set<Id>, t: Tally, u: Tally, v: Tally)
    requires Closed(g) && id in g && id !in active && id !in t.seen && Children(g, id) == [key, value]
    requires key in g && value in g
    requires CountNode(g, key, active + {id}, Visit(t, id)) == Some(u)
    requires CountNode(g, value, active + {id}, u) == Some(v)
    ensures CountNode(g, id, active, t) == Some(v)
  {
    assert CountAll(g, [key, value], 0, active + {id}, Visit(t, id)) == Some(Visit(t, id));
    assert CountAll(g, [key, value], 1, active + {id}, Visit(t, id)) == Some(u);
  }

  lemma CountFour(g: Graph, ids: seq<Id>, active: set<Id>, t: Tally, u: Tally, v: Tally)
    requires Closed(g) && |ids| == 4 && forall i :: 0 <= i < 4 ==> ids[i] in g
    requires CountNode(g, ids[0], active, t) == Some(Visit(t, ids[0]))
    requires CountNode(g, ids[1], active, Visit(t, ids[0])) == Some(u)
    requires CountNode(g, ids[2], active, u) == Some(v)
    ensures CountAll(g, ids, 4, active, t) == CountNode(g, ids[3], active, v)
  {
    assert CountAll(g, ids, 0, active, t) == Some(t);
    assert CountAll(g, ids, 1, active, t) == Some(Visit(t, ids[0]));
    assert CountAll(g, ids, 2, active, t) == Some(u);
    assert CountAll(g, ids, 3, active, t) == Some(v);
  }

  /** The path to the job j of these documents, and the child numbers it is found by. */
  lemma JobIsFound(g: Graph, counts: map<Id, nat>, path: seq<Part>, k: nat, jobs: Id, job: Id)
    requires Closed(g) && {0, jobs, job} <= g.Keys && path == [KeyPart("jobs"), KeyPart("j")]
    requires {0, jobs, job} <= counts.Keys && counts[0] == counts[jobs] == counts[job] == 1
    requires Select(g, 0, path[0]) == Some(k) && k < |Children(g, 0)| && Children(g, 0)[k] == jobs
    requires Select(g, jobs, path[1]) == Some(1) && 1 < |Children(g, jobs)| && Children(g, jobs)[1] == job
    ensures Lookup(g, 0, counts, path, 2) == Some([k, 1])
    ensures Follow(g, 0, [k, 1]) == Some(job)
  {
    assert Lookup(g, 0, counts, path, 0) == Some([]);
    assert Follow(g, 0, [k]) == Some(jobs) by { assert [k][..0] == []; }
    assert [] + [k] == [k];
    assert Lookup(g, 0, counts, path, 1) == Some([k]);
    assert [k] + [1] == [k, 1] && [k, 1][..1] == [k];
  }

  lemma OnlyMatch(g: Graph, pairs: seq<(Id, Id)>, name: string)
    requires |pairs| == 1 && HasText(g, pairs[0].0, name)
    ensures Matches(g, pairs, name, 1) == [0]
  {
    assert Matches(g, pairs, name, 0) == [];
  }

  lemma SecondMatch(g: Graph, pairs: seq<(Id, Id)>, name: string)
    requires |pairs| == 2 && !HasText(g, pairs[0].0, name) && HasText(g, pairs[1].0, name)
    ensures Matches(g, pairs, name, 2) == [1]
  {
    assert Matches(g, pairs, name, 0) == [];
    assert Matches(g, pairs, name, 1) == [];
  }

  // ----- the value far above its alias

  const FAR := "a: &x c\njobs:\n j:\n  if: *x\n"

  /** The composed tree of a text with FAR from position n on: node 2 is the value of a and of the condition. */
  ghost predicate FarTree(g: Graph, n: nat) {
    && g.Keys == {0, 1, 2, 3, 4, 5, 6, 7}
    && g[0] == Node(MappingNode([(1, 2), (3, 4)], false), n, n + 27, 0, 0)
    && g[1] == Node(ScalarNode("a", false), n, n + 1, 0, 1) && g[2] == Node(ScalarNode("c", false), n + 3, n + 7, 3, 7)
    && g[3] == Node(ScalarNode("jobs", false), n + 8, n + 12, 0, 4)
    && g[4] == Node(MappingNode([(5, 6)], false), n + 15, n + 27, 1, 0)
    && g[5] == Node(ScalarNode("j", false), n + 15, n + 16, 1, 2)
    && g[6] == Node(MappingNode([(7, 2)], false), n + 20, n + 27, 2, 0)
    && g[7] == Node(ScalarNode("if", false), n + 20, n + 22, 2, 4)
  }

  lemma FarChildren(g: Graph, n: nat)
    requires FarTree(g, n)
    ensures Children(g, 0) == [1, 2, 3, 4] && Children(g, 4) == [5, 6] && Children(g, 6) == [7, 2]
    ensures forall id :: id in {1, 2, 3, 5, 7} ==> Children(g, id) == []
    ensures Closed(g)
  {
    assert [(1, 2), (3, 4)][1..] == [(3, 4)];
  }

  /** The job's mapping counts its key, and the shared value once more. */
  lemma CountFarJob(g: Graph, n: nat, t: Tally)
    requires FarTree(g, n) && Closed(g) && t.seen == {0, 1, 2, 3, 4, 5}
    ensures CountNode(g, 6, {0, 4}, t) == Some(Visit(Visit(Visit(t, 6), 7), 2))
  {
    FarChildren(g, n);
    var inside := {0, 4} + {6};
    CountLeaf(g, 7, inside, Visit(t, 6));
    CountLeaf(g, 2, inside, Visit(Visit(t, 6), 7));
    CountEntry(g, 6, 7, 2, {0, 4}, t, Visit(Visit(t, 6), 7), Visit(Visit(Visit(t, 6), 7), 2));
  }

  lemma CountFarJobs(g: Graph, n: nat, t: Tally)
    requires FarTree(g, n) && Closed(g) && t.seen == {0, 1, 2, 3}
    ensures CountNode(g, 4, {0}, t) == Some(Visit(Visit(Visit(Visit(Visit(t, 4), 5), 6), 7), 2))
  {
    FarChildren(g, n);
    assert {0} + {4} == {0, 4};
    CountLeaf(g, 5, {0, 4}, Visit(t, 4));
    var u := Visit(Visit(t, 4), 5);
    CountFarJob(g, n, u);
    CountEntry(g, 4, 5, 6, {0}, t, u, Visit(Visit(Visit(u, 6), 7), 2));
  }

  lemma FarCounts(g: Graph, n: nat)
    requires FarTree(g, n) && Closed(g)
    ensures CountDocument(g, 0).Some?
    ensures var counts := CountDocument(g, 0).value.counts;
            {0, 2, 4, 6} <= counts.Keys && counts[0] == counts[4] == counts[6] == 1 && counts[2] == 2
  {
    FarChildren(g, n);
    var start := Visit(Tally({}, map[]), 0);
    var ids, inside := [1, 2, 3, 4], {} + {0};
    assert inside == {0};
    CountLeaf(g, 1, inside, start);
    CountLeaf(g, 2, inside, Visit(start, 1));
    var u := Visit(Visit(start, 1), 2);
    CountLeaf(g, 3, inside, u);
    CountFarJobs(g, n, Visit(u, 3));
    CountFour(g, ids, inside, start, u, Visit(u, 3));
    assert CountNode(g, 0, {}, Tally({}, map[])) == CountAll(g, ids, 4, inside, start);
  }

  lemma FarJobIsFound(g: Graph, n: nat, counts: map<Id, nat>, path: seq<Part>)
    requires FarTree(g, n) && Closed(g) && path == [KeyPart("jobs"), KeyPart("j")]
    requires {0, 4, 6} <= counts.Keys && counts[0] == counts[4] == counts[6] == 1
    ensures Lookup(g, 0, counts, path, 2) == Some([3, 1]) && Follow(g, 0, [3, 1]) == Some(6)
  {
    FarChildren(g, n);
    SecondMatch(g, g[0].kind.pairs, "jobs");
    OnlyMatch(g, g[4].kind.pairs, "j");
    JobIsFound(g, counts, path, 3, 4, 6);
  }

  lemma FarIsMarked(g: Graph)
    requires FarTree(g, |MARKER|)
    ensures WellMarked(MARKER + FAR, g)
  {
    forall id | id in g
      ensures MarkedNode(MARKER + FAR, g[id])
    {
      FarNode(g, id, MARKER, MARKER + FAR, |MARKER|);
    }
  }

  lemma FarNode(g: Graph, id: Id, head: string, source: string, n: nat)
    requires FarTree(g, n) && id in g && source == head + FAR && n == |head|
    requires AtLineStart(source, n)
    ensures MarkedNode(source, g[id])
  {
    assert |FAR| == 27 && source[n] == 'a' && source[n + 3] == '&' && source[n + 8] == 'j' && source[n + 15] == 'j';
    assert source[n + 20] == 'i' && source[n + 26] == '\n';
  }

  /** The key's line starts at 18 behind the marker, and the value's line ends before 8. */
  lemma FarSpan(head: string, source: string, n: nat, key: Node, value: Node)
    requires source == head + FAR && n == |head|
    requires key.start == n + 20 && value.start == n + 3 && value.end == n + 7 && value.endColumn == 7
    requires value.kind == ScalarNode("c", false)
    ensures ConditionSpan(source, key, value) == Returned((n + 18, n + 8))
  {
    assert |FAR| == 27 && source[n + 17] == '\n' && source[n + 7] == '\n' && source[n + 18] == source[n + 19] == ' ';
    assert LineStart(source, n + 18) == n + 18;
    assert LineStart(source, n + 19) == n + 18;
    assert FindOrEnd(source, '\n', n + 7) == n + 7;
    assert source[n + 7..n + 7] == "";
  }

  /**
   * A condition that is an alias of a value further up: the document loads, and the edit that removes its lines would
   * start at 18 and stop at 8 behind the marker, which repeats the text in between instead of removing any.
   */
  lemma AliasedConditionRunsBackwards(g: Graph, source: string, n: nat)
    requires source == MARKER + "a: &x c\njobs:\n j:\n  if: *x\n" && n == |MARKER| && FarTree(g, n)
    ensures Closed(g) && WellMarked(source, g) && CountDocument(g, 0).Some?
    ensures ConditionSpan(source, g[7], g[2]) == Returned((n + 18, n + 8))
    ensures Replace(source, Edit(n + 18, n + 8, "")) == MARKER + FAR[..18] + FAR[8..]
  {
    FarChildren(g, n);
    FarCounts(g, n);
    FarIsMarked(g);
    FarSpan(MARKER, source, n, g[7], g[2]);
    assert source[..n + 18] == MARKER + FAR[..18] && source[n + 8..] == FAR[8..];
  }

  // ----- the value on the line above

  const NEAR := "jobs:\n j:\n  a: &x c\n  if: *x\n"

  /** The composed tree of a text with NEAR from position n on: node 6 is the value of a and of the condition. */
  ghost predicate NearTree(g: Graph, n: nat) {
    && g.Keys == {0, 1, 2, 3, 4, 5, 6, 7}
    && g[0] == Node(MappingNode([(1, 2)], false), n, n + 29, 0, 0)
    && g[1] == Node(ScalarNode("jobs", false), n, n + 4, 0, 4)
    && g[2] == Node(MappingNode([(3, 4)], false), n + 7, n + 29, 1, 0)
    && g[3] == Node(ScalarNode("j", false), n + 7, n + 8, 1, 2)
    && g[4] == Node(MappingNode([(5, 6), (7, 6)], false), n + 12, n + 29, 2, 0)
    && g[5] == Node(ScalarNode("a", false), n + 12, n + 13, 2, 3)
    && g[6] == Node(ScalarNode("c", false), n + 15, n + 19, 5, 9)
    && g[7] == Node(ScalarNode("if", false), n + 22, n + 24, 2, 4)
  }

  lemma NearChildren(g: Graph, n: nat)
    requires NearTree(g, n)
    ensures Children(g, 0) == [1, 2] && Children(g, 2) == [3, 4] && Children(g, 4) == [5, 6, 7, 6]
    ensures forall id :: id in {1, 3, 5, 6, 7} ==> Children(g, id) == []
    ensures Closed(g)
  {
    assert [(5, 6), (7, 6)][1..] == [(7, 6)];
  }

  lemma CountNearJob(g: Graph, n: nat, t: Tally)
    requires NearTree(g, n) && Closed(g) && t.seen == {0, 1, 2, 3}
    ensures CountNode(g, 4, {0, 2}, t) == Some(Visit(Visit(Visit(Visit(Visit(t, 4), 5), 6), 7), 6))
  {
    NearChildren(g, n);
    var inside, start := {0, 2} + {4}, Visit(t, 4);
    CountLeaf(g, 5, inside, start);
    CountLeaf(g, 6, inside, Visit(start, 5));
    var u := Visit(Visit(start, 5), 6);
    CountLeaf(g, 7, inside, u);
    CountLeaf(g, 6, inside, Visit(u, 7));
    CountFour(g, [5, 6, 7, 6], inside, start, u, Visit(u, 7));
    assert CountNode(g, 4, {0, 2}, t) == CountAll(g, [5, 6, 7, 6], 4, inside, start);
  }

  lemma NearCounts(g: Graph, n: nat)
    requires NearTree(g, n) && Closed(g)
    ensures CountDocument(g, 0).Some?
    ensures var counts := CountDocument(g, 0).value.counts;
            {0, 2, 4, 6} <= counts.Keys && counts[0] == counts[2] == counts[4] == 1 && counts[6] == 2
  {
    NearChildren(g, n);
    var start := Tally({}, map[]);
    assert {} + {0} == {0} && {0} + {2} == {0, 2};
    CountLeaf(g, 1, {0}, Visit(start, 0));
    var u := Visit(Visit(start, 0), 1);
    CountLeaf(g, 3, {0, 2}, Visit(u, 2));
    var v := Visit(Visit(u, 2), 3);
    CountNearJob(g, n, v);
    var w := Visit(Visit(Visit(Visit(Visit(v, 4), 5), 6), 7), 6);
    CountEntry(g, 2, 3, 4, {0}, u, v, w);
    CountEntry(g, 0, 1, 2, {}, start, u, w);
  }

  lemma NearJobIsFound(g: Graph, n: nat, counts: map<Id, nat>, path: seq<Part>)
    requires NearTree(g, n) && Closed(g) && path == [KeyPart("jobs"), KeyPart("j")]
    requires {0, 2, 4} <= counts.Keys && counts[0] == counts[2] == counts[4] == 1
    ensures Lookup(g, 0, counts, path, 2) == Some([1, 1]) && Follow(g, 0, [1, 1]) == Some(4)
  {
    NearChildren(g, n);
    OnlyMatch(g, g[0].kind.pairs, "jobs");
    OnlyMatch(g, g[2].kind.pairs, "j");
    JobIsFound(g, counts, path, 1, 2, 4);
  }

  lemma NearIsMarked(g: Graph)
    requires NearTree(g, |MARKER|)
    ensures WellMarked(MARKER + NEAR, g)
  {
    forall id | id in g
      ensures MarkedNode(MARKER + NEAR, g[id])
    {
      NearNode(g, id, MARKER, MARKER + NEAR, |MARKER|);
    }
  }

  lemma NearNode(g: Graph, id: Id, head: string, source: string, n: nat)
    requires NearTree(g, n) && id in g && source == head + NEAR && n == |head|
    requires AtLineStart(source, n)
    ensures MarkedNode(source, g[id])
  {
    assert |NEAR| == 29 && NEAR[7] == 'j' && source[n] == 'j' && source[n + 7] == 'j';
    assert source[n + 12] == 'a' && source[n + 15] == '&';
    assert source[n + 22] == 'i' && source[n + 28] == '\n';
  }

  lemma NearSpan(head: string, source: string, n: nat, key: Node, value: Node)
    requires source == head + NEAR && n == |head|
    requires key.start == n + 22 && value.start == n + 15 && value.end == n + 19 && value.endColumn == 9
    requires value.kind == ScalarNode("c", false)
    ensures ConditionSpan(source, key, value) == Returned((n + 20, n + 20))
  {
    assert |NEAR| == 29 && source[n + 19] == '\n' && source[n + 20] == source[n + 21] == ' ';
    assert LineStart(source, n + 20) == n + 20;
    assert LineStart(source, n + 21) == n + 20;
    assert FindOrEnd(source, '\n', n + 19) == n + 19;
    assert source[n + 19..n + 19] == "";
  }

  lemma NearEntry(g: Graph, n: nat)
    requires NearTree(g, n)
    ensures EntryOfKey(g, g[4].kind.pairs, "if") == Some(1)
  {
    assert [(5, 6), (7, 6)][1..] == [(7, 6)];
    assert EntryOfKey(g, [(7, 6)], "if") == Some(0);
  }

  /**
   * A condition that is an alias of the value on the line above: the document loads, and the edit that removes its
   * lines is empty. It runs forward, but the condition stays in the text.
   */
  lemma AliasedConditionStays(g: Graph, source: string, n: nat)
    requires source == MARKER + "jobs:\n j:\n  a: &x c\n  if: *x\n" && n == |MARKER| && NearTree(g, n)
    ensures Closed(g) && WellMarked(source, g) && CountDocument(g, 0).Some?
    ensures ConditionSpan(source, g[7], g[6]) == Returned((n + 20, n + 20))
    ensures Replace(source, Edit(n + 20, n + 20, "")) == source
  {
    NearChildren(g, n);
    NearCounts(g, n);
    NearIsMarked(g);
    NearSpan(MARKER, source, n, g[7], g[6]);
    assert source == source[..n + 20] + "" + source[n + 20..];
  }

  class Editor {
    const source: string
    const tree: Graph
    const root: Id
    var nodeCounts: map<Id, nat>
    var active: set<Id>
    var seen: set<Id>
    var edits: seq<Edit>

    ghost predicate Valid()
      reads this
    {
      Closed(tree) && root in tree && WellMarked(source, tree) && InRange(source, edits)
    }

    constructor (source: string, tree: Graph, root: Id)
      requires Closed(tree) && root in tree && WellMarked(source, tree)
      ensures this.source == source && this.tree == tree && this.root == root && Valid()
      ensures nodeCounts == map[] && active == {} && seen == {} && edits == []
    {
      this.source, this.tree, this.root := source, tree, root;
      nodeCounts, active, seen, edits := map[], {}, {}, [];
    }

    /** count_nodes: fails and succeeds, with the same counts, exactly as CountNode describes. */
    method CountNodes(id: Id) returns (ok: bool)
      requires Valid() && id in tree
      modifies this`nodeCounts, this`active, this`seen
      ensures ok <==> CountNode(tree, id, old(active), Tally(old(seen), old(nodeCounts))).Some?
      ensures ok ==>
                CountNode(tree, id, old(active), Tally(old(seen), old(nodeCounts))) == Some(Tally(seen, nodeCounts))
      ensures ok ==> active == old(active)
      decreases tree.Keys - seen
    {
      nodeCounts := Bump(nodeCounts, id);
      if id in active { return false; }
      if id in seen { return true; }
      active, seen := active + {id}, seen + {id};
      var children := Children(tree, id);
      ghost var inside, entered := active, Tally(seen, nodeCounts);
      for i := 0 to |children|
        invariant active == inside && entered.seen <= seen
        invariant CountAll(tree, children, i, inside, entered) == Some(Tally(seen, nodeCounts))
      {
        ok := CountNodes(children[i]);
        if !ok {
          CountAllStaysNone(tree, children, i + 1, |children|, inside, entered);
          return;
        }
      }
      assert active - {id} == old(active);
      active := active - {id};
      ok := true;
    }

    /** node(path): walks the components down, requiring every node on the way to be counted once. */
    method NodeAt(path: seq<Part>) returns (r: Outcome<Id>)
      requires Valid()
      ensures r.Returned? <==> Lookup(tree, root, nodeCounts, path, |path|).Some?
      ensures r.Returned? ==> r.value in tree
                              && Follow(tree, root, Lookup(tree, root, nodeCounts, path, |path|).value) == Some(r.value)
      ensures r.Returned? ==> LeadsTo(tree, root, nodeCounts, path, r.value)
      ensures r.Raised? ==> forall id: Id :: !LeadsTo(tree, root, nodeCounts, path, id)
    {
      r := Walk(path);
      forall id: Id
        ensures LeadsTo(tree, root, nodeCounts, path, id) <==> r == Returned(id)
      {
        LookupIsWhereThePathLeads(tree, root, nodeCounts, path, id);
      }
    }

    method Walk(path: seq<Part>) returns (r: Outcome<Id>)
      requires Valid()
      ensures r.Returned? <==> Lookup(tree, root, nodeCounts, path, |path|).Some?
      ensures r.Returned? ==> r.value in tree
                              && Follow(tree, root, Lookup(tree, root, nodeCounts, path, |path|).value) == Some(r.value)
    {
      var node := root;
      if !CountedAs1(node) {
        LookupStaysNone(tree, root, nodeCounts, path, 0, |path|);
        return Raised;
      }
      for i := 0 to |path|
        invariant node in tree
        invariant Lookup(tree, root, nodeCounts, path, i).Some?
        invariant Follow(tree, root, Lookup(tree, root, nodeCounts, path, i).value) == Some(node)
      {
        var k := Select(tree, node, path[i]);
        ghost var before := node;
        if k.Some? {
          SelectIsAChild(tree, node, path[i]);
          node := Children(tree, node)[k.value];
        }
        if k.None? || !CountedAs1(node) {
          LookupStaysNone(tree, root, nodeCounts, path, i + 1, |path|);
          return Raised;
        }
        var steps := Lookup(tree, root, nodeCounts, path, i).value;
        assert (steps + [k.value])[..|steps|] == steps;
      }
      r := Returned(node);
    }

    predicate CountedAs1(id: Id)
      reads this
    {
      id in nodeCounts && nodeCounts[id] == 1
    }

    /** The counts are those of the whole document. */
    ghost predicate Loaded()
      requires Valid()
      reads this
    {
      CountDocument(tree, root).Some? && CountDocument(tree, root).value.counts == nodeCounts
    }

    /** Counting the document: refused exactly when an alias makes it cyclic. */
    method Load() returns (ok: bool)
      requires Valid() && nodeCounts == map[] && active == {} && seen == {}
      modifies this`nodeCounts, this`active, this`seen
      ensures ok <==> !CycleReachable(tree, root)
      ensures ok ==> Loaded()
    {
      CountingFailsOnCyclesOnly(tree, root);
      ok := CountNodes(root);
    }

    /** The node an accepted lookup ends at. */
    ghost function Found(path: seq<Part>): (id: Option<Id>)
      requires Valid()
      reads this
      ensures id.Some? ==> id.value in tree
    {
      var steps := Lookup(tree, root, nodeCounts, path, |path|);
      if steps.None? then None else Follow(tree, root, steps.value)
    }

    /** The edit belongs to a node that has no second place in the document. */
    ghost predicate Unshared(path: seq<Part>)
      requires Valid()
      reads this
    {
      && Lookup(tree, root, nodeCounts, path, |path|).Some?
      && var steps := Lookup(tree, root, nodeCounts, path, |path|).value;
         forall other :: Follow(tree, root, other) == Follow(tree, root, steps) ==> other == steps
    }

    /** A node is found exactly where the path leads through nodes that are all counted once. */
    lemma FoundIsWhereThePathLeads(path: seq<Part>, id: Id)
      requires Valid()
      ensures Found(path) == Some(id) <==> LeadsTo(tree, root, nodeCounts, path, id)
    {
      LookupIsWhereThePathLeads(tree, root, nodeCounts, path, id);
    }

    lemma FoundIsUnshared(path: seq<Part>)
      requires Valid() && Loaded() && Found(path).Some?
      ensures Unshared(path)
    {
      forall other | Follow(tree, root, other) == Follow(tree, root, Lookup(tree, root, nodeCounts, path, |path|).value)
        ensures other == Lookup(tree, root, nodeCounts, path, |path|).value
      {
        LookupFindsAnUnsharedNode(tree, root, path, other);
      }
    }

    /** The column of the first key in this mapping that holds the value node. */
    function KeyColumn(parent: Id, id: Id): Option<nat>
      requires Closed(tree) && parent in tree
    {
      if !tree[parent].kind.MappingNode? then None
      else
        var pairs := tree[parent].kind.pairs;
        match EntryOfValue(pairs, id)
        case None => None
        case Some(i) =>
          (EntryOfValueIsIn(pairs, id); PairsAreNodes(tree, parent, i); Some(tree[pairs[i].0].startColumn))
    }

    /** The new text of a scalar: quoted, or a literal block under its key when it has several lines. */
    ghost function Replacement(path: seq<Part>, id: Id, value: string, quote: string -> string): Option<string>
      requires Valid()
      reads this
    {
      if '\n' !in value then Some(quote(value))
      else if path == [] || Found(path[..|path| - 1]).None? then None
      else match KeyColumn(Found(path[..|path| - 1]).value, id)
        case None => None
        case Some(column) => Some(LiteralBlock(column, SplitLines(value)))
    }

    /** The outcome of set: one edit of exactly the scalar's span, or none when it already has the value. */
    ghost predicate Sets(path: seq<Part>, value: string, quote: string -> string, ok: bool, before: seq<Edit>,
                         after: seq<Edit>)
      requires Valid()
      reads this
    {
      && (ok <==> && Found(path).Some? && tree[Found(path).value].kind.ScalarNode?
                  && (|| tree[Found(path).value].kind.value == value
                      || Replacement(path, Found(path).value, value, quote).Some?))
      && if !ok then after == before
         else
           var node := tree[Found(path).value];
           && Unshared(path)
           && if node.kind.value == value then after == before
              else
                after == before + [Edit(node.start, node.end, Replacement(path, Found(path).value, value, quote).value)]
    }

    /** set: replaces exactly the text of one unshared scalar, unless it already has the value. */
    method Set(path: seq<Part>, value: string, quote: string -> string) returns (ok: bool)
      requires Valid() && Loaded()
      modifies this`edits
      ensures Valid() && Sets(path, value, quote, ok, old(edits), edits)
    {
      var id := NodeAt(path);
      if id.Raised? || !tree[id.value].kind.ScalarNode? { return false; }
      FoundIsUnshared(path);
      var node := tree[id.value];
      if node.kind.value == value { return true; }
      var replacement := quote(value);
      if '\n' in value {
        if path == [] { return false; }
        var parent := NodeAt(path[..|path| - 1]);
        if parent.Raised? { return false; }
        var column := KeyColumn(parent.value, id.value);
        if column.None? { return false; }
        replacement := LiteralBlock(column.value, SplitLines(value));
      }
      edits := edits + [Edit(node.start, node.end, replacement)];
      ok := true;
    }

    /** The first "if" entry of the job, as condition looks for it. */
    ghost function ConditionEntry(job: seq<Part>): (r: Option<(Node, Node)>)
      requires Valid()
      reads this
      ensures r.Some? ==> && Written(source, r.value.0) && MarkedNode(source, r.value.1)
                          && (r.value.1.end <= r.value.0.start || r.value.0.end <= r.value.1.end)
    {
      if Found(job).None? || !tree[Found(job).value].kind.MappingNode? then None
      else
        var id := Found(job).value;
        var pairs := tree[id].kind.pairs;
        match EntryOfKey(tree, pairs, "if")
        case None => None
        case Some(i) =>
          (EntryOfKeyIsIn(tree, pairs, "if"); PairsAreNodes(tree, id, i); Some((tree[pairs[i].0], tree[pairs[i].1])))
    }

    /** The outcome of a removal: one empty edit of the entry's lines. */
    ghost predicate Removes(job: seq<Part>, ok: bool, before: seq<Edit>, after: seq<Edit>)
      requires Valid()
      reads this
    {
      var entry := ConditionEntry(job);
      var span := if entry.None? then Raised else ConditionSpan(source, entry.value.0, entry.value.1);
      && (ok <==> span.Returned?)
      && after == if ok then before + [Edit(span.value.0, span.value.1, "")] else before
    }

    /** What the recorded edit of a removal is. */
    ghost predicate RemovesLines(job: seq<Part>, e: Edit)
      requires Valid()
      reads this
    {
      ConditionEntry(job).Some? && WholeLines(source, ConditionEntry(job).value.0, ConditionEntry(job).value.1, e)
    }

    lemma EntryIs(job: seq<Part>, id: Id, i: nat)
      requires Valid() && id in tree && Found(job) == Some(id) && tree[id].kind.MappingNode?
      requires i < |tree[id].kind.pairs| && EntryOfKey(tree, tree[id].kind.pairs, "if") == Some(i)
      ensures tree[id].kind.pairs[i].0 in tree && tree[id].kind.pairs[i].1 in tree
      ensures ConditionEntry(job) == Some((tree[tree[id].kind.pairs[i].0], tree[tree[id].kind.pairs[i].1]))
    {
      PairsAreNodes(tree, id, i);
    }

    lemma RemovalIsWhole(job: seq<Part>, key: Node, value: Node)
      requires Valid() && ConditionEntry(job) == Some((key, value)) && ConditionSpan(source, key, value).Returned?
      ensures var (start, stop) := ConditionSpan(source, key, value).value; RemovesLines(job, Edit(start, stop, ""))
    {
      SpanIsWhole(source, key, value);
    }

    /** condition with no value: removes the whole lines of the job's "if" entry. */
    method RemoveCondition(job: seq<Part>) returns (ok: bool)
      requires Valid() && Loaded()
      modifies this`edits
      ensures Valid() && Removes(job, ok, old(edits), edits)
      ensures ok ==> RemovesLines(job, edits[|old(edits)|])
    {
      var id := NodeAt(job);
      if id.Raised? || !tree[id.value].kind.MappingNode? { return false; }
      var pairs := tree[id.value].kind.pairs;
      var entry := EntryOfKey(tree, pairs, "if");
      if entry.None? { return false; }
      EntryOfKeyIsIn(tree, pairs, "if");
      PairsAreNodes(tree, id.value, entry.value);
      var key, value := tree[pairs[entry.value].0], tree[pairs[entry.value].1];
      EntryIs(job, id.value, entry.value);
      var span := ConditionSpan(source, key, value);
      if span.Raised? { return false; }
      edits := edits + [Edit(span.value.0, span.value.1, "")];
      RemovalIsWhole(job, key, value);
      ok := true;
    }

    /** The edits that condition records for the two aliased documents. */
    lemma AliasedRemoval(before: seq<Edit>, n: nat)
      requires Valid() && Loaded() && source == MARKER + FAR && n == |MARKER| && root == 0 && FarTree(tree, n)
      ensures Removes([KeyPart("jobs"), KeyPart("j")], true, before, before + [Edit(n + 18, n + 8, "")])
    {
      var path := [KeyPart("jobs"), KeyPart("j")];
      FarCounts(tree, n);
      FarJobIsFound(tree, n, nodeCounts, path);
      assert EntryOfKey(tree, tree[6].kind.pairs, "if") == Some(0);
      EntryIs(path, 6, 0);
      FarSpan(MARKER, source, n, tree[7], tree[2]);
    }

    lemma NearRemoval(before: seq<Edit>, n: nat)
      requires Valid() && Loaded() && source == MARKER + NEAR && n == |MARKER| && root == 0 && NearTree(tree, n)
      ensures Removes([KeyPart("jobs"), KeyPart("j")], true, before, before + [Edit(n + 20, n + 20, "")])
    {
      var path := [KeyPart("jobs"), KeyPart("j")];
      NearCounts(tree, n);
      NearJobIsFound(tree, n, nodeCounts, path);
      NearEntry(tree, n);
      EntryIs(path, 4, 1);
      NearSpan(MARKER, source, n, tree[7], tree[6]);
    }

    /** The key of the job's first entry, if a line can be put in front of it. */
    ghost function FirstKey(job: seq<Part>): (r: Option<Node>)
      requires Valid()
      reads this
      ensures r.Some? ==> r.value.start <= |source| && AllSpace(source[LineStart(source, r.value.start)..r.value.start])
    {
      if || Found(job).None? || !tree[Found(job).value].kind.MappingNode?
         || tree[Found(job).value].kind.pairs == [] then None
      else
        (PairsAreNodes(tree, Found(job).value, 0);
         var first := tree[tree[Found(job).value].kind.pairs[0].0];
         if AllSpace(source[LineStart(source, first.start)..first.start]) then Some(first) else None)
    }

    /** The outcome of an insertion: one line at the line start of the job's first entry, in its column. */
    ghost predicate Inserts(job: seq<Part>, value: string, quote: string -> string, ok: bool, before: seq<Edit>,
                            after: seq<Edit>)
      requires Valid()
      reads this
    {
      && (ok <==> FirstKey(job).Some?)
      && if !ok then after == before
         else
           var first := FirstKey(job).value;
           var at := LineStart(source, first.start);
           after == before + [Edit(at, at, Repeat(' ', first.startColumn) + "if: " + quote(value) + "\n")]
    }

    /** condition for a job without one: inserts a line in front of the job's first entry. */
    method InsertCondition(job: seq<Part>, value: string, quote: string -> string) returns (ok: bool)
      requires Valid() && Loaded()
      modifies this`edits
      ensures Valid() && Inserts(job, value, quote, ok, old(edits), edits)
    {
      var id := NodeAt(job);
      if id.Raised? || !tree[id.value].kind.MappingNode? || tree[id.value].kind.pairs == [] { return false; }
      PairsAreNodes(tree, id.value, 0);
      var first := tree[tree[id.value].kind.pairs[0].0];
      var start := LineStart(source, first.start);
      if !AllSpace(source[start..first.start]) { return false; }
      edits := edits + [Edit(start, start, Repeat(' ', first.startColumn) + "if: " + quote(value) + "\n")];
      ok := true;
    }

    /** The loaded job; None stands for the error of looking it up. */
    function LoadedJob(job: string): (r: Option<Id>)
      requires Closed(tree) && root in tree
      ensures r.Some? ==> r.value in tree
    {
      match LoadedChild(tree, root, "jobs")
      case None => None
      case Some(jobs) => LoadedChild(tree, jobs, job)
    }

    /** condition: sets, removes or inserts, depending on whether the loaded job has a condition already. */
    method Condition(job: string, value: Option<string>, quote: string -> string) returns (ok: bool)
      requires Valid() && Loaded()
      modifies this`edits
      ensures Valid()
      ensures LoadedJob(job).None? ==> !ok && edits == old(edits)
      ensures LoadedJob(job).Some? ==>
                var path := [KeyPart("jobs"), KeyPart(job)];
                if !Contains(tree, LoadedJob(job).value, "if") then
                  if value.None? then ok && edits == old(edits)
                  else Inserts(path, value.value, quote, ok, old(edits), edits)
                else if value.None? then Removes(path, ok, old(edits), edits)
                else Sets(path + [KeyPart("if")], value.value, quote, ok, old(edits), edits)
    {
      var path := [KeyPart("jobs"), KeyPart(job)];
      var current := LoadedJob(job);
      if current.None? { return false; }
      if Contains(tree, current.value, "if") {
        if value.Some? {
          ok := Set(path + [KeyPart("if")], value.value, quote);
        } else {
          ok := RemoveCondition(path);
        }
      } else if value.Some? {
        ok := InsertCondition(path, value.value, quote);
      } else {
        ok := true;
      }
    }

    /** finish: the splice of the recorded edits, if the two YAML checks accept it. */
    method Finish(accepted: string -> bool) returns (r: Outcome<string>)
      requires Valid()
      ensures |Descending(edits)| == |edits|
      ensures r.Returned? <==> && Chained(Descending(edits), |edits|)
                               && accepted(Replaced(source, Descending(edits), |edits|))
      ensures r.Returned? ==> r.value == Replaced(source, Descending(edits), |edits|)
      ensures Fits(source, edits) ==>
                (r.Returned? <==> Disjoint(edits) && accepted(Forward(source, Ascending(edits), 0)))
      ensures Fits(source, edits) && r.Returned? ==> r.value == Forward(source, Ascending(edits), 0)
    {
      r := Apply(source, edits);
      if r.Returned? && !accepted(r.value) { return Raised; }
    }
  }
}
