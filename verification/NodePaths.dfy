/** Where a path leads, said without the lookup: item by index, value by the only key with that text. */
module NodePaths {
  import opened Common
  import opened NodeGraph

  /** Entry k of a mapping is the only one whose key is a scalar with this text. */
  ghost predicate OnlyEntry(g: Graph, pairs: seq<(Id, Id)>, name: string, k: nat) {
    && k < |pairs|
    && forall j {:trigger pairs[j]} :: 0 <= j < |pairs| ==>
         (j == k <==> pairs[j].0 in g && g[pairs[j].0].kind.ScalarNode? && g[pairs[j].0].kind.value == name)
  }

  /** One component of a path leads from one node to another. */
  ghost predicate LeadsOn(g: Graph, id: Id, part: Part, next: Id)
    requires id in g
  {
    match part
    case ItemPart(index) =>
      g[id].kind.SequenceNode? && index < |g[id].kind.items| && g[id].kind.items[index] == next
    case KeyPart(name) =>
      g[id].kind.MappingNode? && !g[id].kind.flow && exists k: nat ::
        OnlyEntry(g, g[id].kind.pairs, name, k) && g[id].kind.pairs[k].1 == next
  }

  /** The path leads from the root through these nodes, one more than it has components. */
  ghost predicate Leads(g: Graph, root: Id, path: seq<Part>, nodes: seq<Id>) {
    && |nodes| == |path| + 1 && nodes[0] == root && (forall i :: 0 <= i < |nodes| ==> nodes[i] in g)
    && forall i :: 0 <= i < |path| ==> LeadsOn(g, nodes[i], path[i], nodes[i + 1])
  }

  ghost predicate EachOnce(counts: map<Id, nat>, nodes: seq<Id>) {
    forall i :: 0 <= i < |nodes| ==> nodes[i] in counts && counts[nodes[i]] == 1
  }

  /** The path leads to this node, and every node on the way, this one included, is counted once. */
  ghost predicate LeadsTo(g: Graph, root: Id, counts: map<Id, nat>, path: seq<Part>, id: Id) {
    exists nodes :: Leads(g, root, path, nodes) && EachOnce(counts, nodes) && nodes[|path|] == id
  }

  // ----- one component -----------------------------------------------------------------

  /** The matching entry numbers are just those, in increasing order. */
  lemma {:induction false} MatchesExactly(g: Graph, pairs: seq<(Id, Id)>, name: string, count: nat)
    requires count <= |pairs|
    ensures forall j :: j in Matches(g, pairs, name, count) <==> 0 <= j < count && HasText(g, pairs[j].0, name)
    ensures Distinct(Matches(g, pairs, name, count))
  {
    if count > 0 { MatchesExactly(g, pairs, name, count - 1); }
  }

  lemma OneMatch(g: Graph, pairs: seq<(Id, Id)>, name: string, k: nat)
    ensures Matches(g, pairs, name, |pairs|) == [k] <==> OnlyEntry(g, pairs, name, k)
  {
    var matches := Matches(g, pairs, name, |pairs|);
    MatchesExactly(g, pairs, name, |pairs|);
    if OnlyEntry(g, pairs, name, k) {
      assert HasText(g, pairs[k].0, name);
      assert matches[0] in matches && matches[|matches| - 1] in matches;
      assert matches == [k];
    }
    if matches == [k] {
      assert k in matches;
      assert forall j :: j in matches <==> j == k;
    }
  }

  lemma OneMatchIsOnly(g: Graph, pairs: seq<(Id, Id)>, name: string, matches: seq<nat>)
    requires matches == Matches(g, pairs, name, |pairs|)
    ensures |matches| == 1 ==> OnlyEntry(g, pairs, name, matches[0])
    ensures forall k: nat :: OnlyEntry(g, pairs, name, k) ==> matches == [k]
  {
    if |matches| == 1 { OneMatch(g, pairs, name, matches[0]); }
    forall k: nat | OnlyEntry(g, pairs, name, k)
      ensures matches == [k]
    {
      OneMatch(g, pairs, name, k);
    }
  }

  /** The value of entry k, as a child of its mapping. */
  lemma ValueOfEntry(g: Graph, id: Id, k: nat)
    requires id in g && g[id].kind.MappingNode? && k < |g[id].kind.pairs|
    ensures 2 * k + 1 < |Children(g, id)| && Children(g, id)[2 * k + 1] == g[id].kind.pairs[k].1
  {
    FlattenAt(g[id].kind.pairs, k);
  }

  /** The child that a component selects is the next node. */
  ghost predicate SelectsNext(g: Graph, id: Id, part: Part, next: Id)
    requires id in g
  {
    var k := Select(g, id, part);
    k.Some? && k.value < |Children(g, id)| && Children(g, id)[k.value] == next
  }

  lemma NameLeadsOn(g: Graph, id: Id, name: string, next: Id, matches: seq<nat>)
    requires id in g && g[id].kind.MappingNode? && !g[id].kind.flow
    requires matches == Matches(g, g[id].kind.pairs, name, |g[id].kind.pairs|)
    ensures LeadsOn(g, id, KeyPart(name), next)
       <==> |matches| == 1 && matches[0] < |g[id].kind.pairs| && g[id].kind.pairs[matches[0]].1 == next
  {
    OneMatchIsOnly(g, g[id].kind.pairs, name, matches);
    MatchesAreEntries(g, g[id].kind.pairs, name, |g[id].kind.pairs|);
  }

  lemma SelectLeadsOn(g: Graph, id: Id, part: Part, next: Id)
    requires id in g
    ensures LeadsOn(g, id, part, next) <==> SelectsNext(g, id, part, next)
  {
    if part.KeyPart? && g[id].kind.MappingNode? && !g[id].kind.flow {
      var matches := Matches(g, g[id].kind.pairs, part.name, |g[id].kind.pairs|);
      NameLeadsOn(g, id, part.name, next, matches);
      MatchesAreEntries(g, g[id].kind.pairs, part.name, |g[id].kind.pairs|);
      if |matches| == 1 { ValueOfEntry(g, id, matches[0]); }
    }
  }

  // ----- the whole path ----------------------------------------------------------------

  lemma LeadsStep(g: Graph, root: Id, counts: map<Id, nat>, path: seq<Part>, id: Id, part: Part, next: Id)
    requires LeadsTo(g, root, counts, path, id) && id in g && LeadsOn(g, id, part, next)
    requires next in g && next in counts && counts[next] == 1
    ensures LeadsTo(g, root, counts, path + [part], next)
  {
    var nodes :| Leads(g, root, path, nodes) && EachOnce(counts, nodes) && nodes[|path|] == id;
    var more := nodes + [next];
    forall i | 0 <= i < |path + [part]|
      ensures LeadsOn(g, more[i], (path + [part])[i], more[i + 1])
    {
      if i < |path| { assert LeadsOn(g, nodes[i], path[i], nodes[i + 1]); }
    }
    assert Leads(g, root, path + [part], more);
  }

  /** A lookup that succeeds has gone where the path leads. */
  lemma {:induction false} LookupLeads(g: Graph, root: Id, counts: map<Id, nat>, path: seq<Part>, count: nat)
    requires Closed(g) && root in g && count <= |path| && Lookup(g, root, counts, path, count).Some?
    ensures LeadsTo(g, root, counts, path[..count], Follow(g, root, Lookup(g, root, counts, path, count).value).value)
  {
    if count == 0 {
      assert Leads(g, root, [], [root]) && EachOnce(counts, [root]);
      assert path[..0] == [];
    } else {
      LookupLeads(g, root, counts, path, count - 1);
      var before := Lookup(g, root, counts, path, count - 1).value;
      var steps := Lookup(g, root, counts, path, count).value;
      assert steps[..|steps| - 1] == before;
      var id, next := Follow(g, root, before).value, Follow(g, root, steps).value;
      SelectLeadsOn(g, id, path[count - 1], next);
      LeadsStep(g, root, counts, path[..count - 1], id, path[count - 1], next);
      assert path[..count - 1] + [path[count - 1]] == path[..count];
    }
  }

  /** Where a path leads through nodes that are counted once, the lookup goes. */
  lemma {:induction false} LeadsIsFound(g: Graph, root: Id, counts: map<Id, nat>, path: seq<Part>, nodes: seq<Id>,
                                        count: nat)
    requires Closed(g) && root in g && Leads(g, root, path, nodes) && EachOnce(counts, nodes) && count <= |path|
    ensures Lookup(g, root, counts, path, count).Some?
    ensures Follow(g, root, Lookup(g, root, counts, path, count).value) == Some(nodes[count])
  {
    if count > 0 {
      LeadsIsFound(g, root, counts, path, nodes, count - 1);
      var before := Lookup(g, root, counts, path, count - 1).value;
      assert LeadsOn(g, nodes[count - 1], path[count - 1], nodes[count]);
      SelectLeadsOn(g, nodes[count - 1], path[count - 1], nodes[count]);
      var k := Select(g, nodes[count - 1], path[count - 1]).value;
      assert (before + [k])[..|before|] == before;
    }
  }

  /**
   * The lookup finds a node if and only if the path leads to it, an index being the item at that place and a name the
   * value of the only entry with that key text in a block mapping, and every node on the way is counted once.
   */
  lemma LookupIsWhereThePathLeads(g: Graph, root: Id, counts: map<Id, nat>, path: seq<Part>, id: Id)
    requires Closed(g) && root in g
    ensures LeadsTo(g, root, counts, path, id)
       <==> var steps := Lookup(g, root, counts, path, |path|); steps.Some? && Follow(g, root, steps.value) == Some(id)
  {
    if Lookup(g, root, counts, path, |path|).Some? {
      LookupLeads(g, root, counts, path, |path|);
      assert path[..|path|] == path;
    }
    if LeadsTo(g, root, counts, path, id) {
      var nodes :| Leads(g, root, path, nodes) && EachOnce(counts, nodes) && nodes[|path|] == id;
      LeadsIsFound(g, root, counts, path, nodes, |path|);
    }
  }
}
