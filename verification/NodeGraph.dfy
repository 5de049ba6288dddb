/** The composed YAML node graph: aliases make nodes shared, and may even make the graph cyclic. */
module NodeGraph {
  import opened Common

  /** Node identities, as id() gives them. */
  type Id = nat

  /** literal says that a scalar is a | or > block. */
  datatype Kind =
    | ScalarNode(value: string, literal: bool)
    | MappingNode(pairs: seq<(Id, Id)>, flow: bool)
    | SequenceNode(items: seq<Id>)

  /** A node with its source marks. */
  datatype Node = Node(kind: Kind, start: nat, end: nat, startColumn: nat, endColumn: nat)

  type Graph = map<Id, Node>

  /** The keys and values of a mapping, in turn. */
  function Flatten(pairs: seq<(Id, Id)>): seq<Id> {
    if pairs == [] then [] else [pairs[0].0, pairs[0].1] + Flatten(pairs[1..])
  }

  lemma {:induction false} FlattenAt(pairs: seq<(Id, Id)>, i: nat)
    requires i < |pairs|
    ensures |Flatten(pairs)| == 2 * |pairs|
    ensures Flatten(pairs)[2 * i] == pairs[i].0 && Flatten(pairs)[2 * i + 1] == pairs[i].1
  {
    if i > 0 {
      FlattenAt(pairs[1..], i - 1);
    } else if |pairs| > 1 {
      FlattenAt(pairs[1..], 0);
    }
  }

  function Children(g: Graph, id: Id): seq<Id>
    requires id in g
  {
    match g[id].kind
    case ScalarNode(_, _) => []
    case MappingNode(pairs, _) => Flatten(pairs)
    case SequenceNode(items) => items
  }

  ghost predicate Closed(g: Graph) {
    forall id, k {:trigger Children(g, id)[k]} :: id in g && 0 <= k < |Children(g, id)| ==> Children(g, id)[k] in g
  }

  // ----- paths -------------------------------------------------------------------------

  /** The node reached from id by child numbers. */
  function Follow(g: Graph, id: Id, steps: seq<nat>): Option<Id>
    requires Closed(g) && id in g
    ensures Follow(g, id, steps).Some? ==> Follow(g, id, steps).value in g
  {
    if steps == [] then Some(id)
    else
      var last := |steps| - 1;
      match Follow(g, id, steps[..last])
      case None => None
      case Some(parent) =>
        if steps[last] < |Children(g, parent)| then Some(Children(g, parent)[steps[last]]) else None
  }

  ghost predicate Reachable(g: Graph, root: Id, id: Id)
    requires Closed(g) && root in g
  {
    exists steps :: Follow(g, root, steps) == Some(id)
  }

  /** Some walk from the root meets a node it has already passed through. */
  ghost predicate CycleReachable(g: Graph, root: Id)
    requires Closed(g) && root in g
  {
    exists steps, i :: 0 <= i < |steps| && Revisits(g, root, steps, i)
  }

  ghost predicate Revisits(g: Graph, root: Id, steps: seq<nat>, i: nat)
    requires Closed(g) && root in g && i <= |steps|
  {
    Follow(g, root, steps).Some? && Follow(g, root, steps) == Follow(g, root, steps[..i])
  }

  // ----- incoming edges ----------------------------------------------------------------

  /** The way a node is reached in one step: as the document root, or as child k of another node. */
  datatype Edge = Root | Child(parent: Id, k: nat)

  predicate EdgeOf(g: Graph, e: Edge) {
    e.Child? ==> e.parent in g && e.k < |Children(g, e.parent)|
  }

  function Target(g: Graph, root: Id, e: Edge): Id
    requires EdgeOf(g, e)
  {
    match e
    case Root => root
    case Child(parent, k) => Children(g, parent)[k]
  }

  /** All edges that start at one of the given nodes, and the root edge. */
  ghost predicate EdgesFrom(g: Graph, nodes: set<Id>, edges: set<Edge>) {
    forall e :: e in edges <==> EdgeOf(g, e) && (e.Child? ==> e.parent in nodes)
  }

  ghost function Incoming(g: Graph, root: Id, edges: set<Edge>, id: Id): set<Edge>
    requires forall e :: e in edges ==> EdgeOf(g, e)
  {
    set e | e in edges && Target(g, root, e) == id
  }

  /** counts is the number of edges into each node. */
  ghost predicate Counts(g: Graph, root: Id, edges: set<Edge>, counts: map<Id, nat>) {
    && (forall e :: e in edges ==> EdgeOf(g, e))
    && (forall id :: id in counts ==> counts[id] == |Incoming(g, root, edges, id)|)
    && forall e :: e in edges ==> Target(g, root, e) in counts
  }

  lemma OneMoreEdge(g: Graph, root: Id, edges: set<Edge>, counts: map<Id, nat>, e: Edge)
    requires Counts(g, root, edges, counts) && e !in edges && EdgeOf(g, e)
    ensures var id := Target(g, root, e);
            Counts(g, root, edges + {e}, counts[id := (if id in counts then counts[id] else 0) + 1])
  {
    var id := Target(g, root, e);
    var more := counts[id := (if id in counts then counts[id] else 0) + 1];
    forall v | v in more
      ensures more[v] == |Incoming(g, root, edges + {e}, v)|
    {
      IncomingSnoc(g, root, edges, e, v);
      if v !in counts { NoneIncoming(g, root, edges, counts, v); }
    }
    forall x | x in edges + {e}
      ensures Target(g, root, x) in more
    {
    }
  }

  /** A node that was not counted has no edge into it. */
  lemma NoneIncoming(g: Graph, root: Id, edges: set<Edge>, counts: map<Id, nat>, v: Id)
    requires Counts(g, root, edges, counts) && v !in counts
    ensures Incoming(g, root, edges, v) == {}
  {
  }

  lemma IncomingSnoc(g: Graph, root: Id, edges: set<Edge>, e: Edge, v: Id)
    requires (forall x :: x in edges ==> EdgeOf(g, x)) && EdgeOf(g, e) && e !in edges
    ensures |Incoming(g, root, edges + {e}, v)|
         == |Incoming(g, root, edges, v)| + if v == Target(g, root, e) then 1 else 0
  {
    var before, after := Incoming(g, root, edges, v), Incoming(g, root, edges + {e}, v);
    assert e !in before;
    if v == Target(g, root, e) {
      assert after == before + {e};
    } else {
      assert after == before;
    }
  }

  // ----- one path per uncounted-twice node ---------------------------------------------

  lemma OnlyEdge(g: Graph, root: Id, edges: set<Edge>, id: Id, a: Edge, b: Edge)
    requires forall e :: e in edges ==> EdgeOf(g, e)
    requires a in Incoming(g, root, edges, id) && b in Incoming(g, root, edges, id)
    requires |Incoming(g, root, edges, id)| == 1
    ensures a == b
  {
    if a != b {
      assert {a, b} <= Incoming(g, root, edges, id);
      SubsetSize({a, b}, Incoming(g, root, edges, id));
    }
  }

  lemma {:induction false} SubsetSize<T>(a: set<T>, b: set<T>)
    requires a <= b
    ensures |a| <= |b|
    decreases a
  {
    if a != {} {
      var x :| x in a;
      SubsetSize(a - {x}, b - {x});
    }
  }

  ghost function LastEdge(g: Graph, root: Id, steps: seq<nat>): Edge
    requires Closed(g) && root in g && Follow(g, root, steps).Some?
  {
    if steps == [] then Root else Child(Follow(g, root, steps[..|steps| - 1]).value, steps[|steps| - 1])
  }

  lemma LastEdgeIsIncoming(g: Graph, root: Id, nodes: set<Id>, edges: set<Edge>, steps: seq<nat>)
    requires Closed(g) && root in g && EdgesFrom(g, nodes, edges) && Follow(g, root, steps).Some?
    requires forall id :: Reachable(g, root, id) ==> id in nodes
    ensures LastEdge(g, root, steps) in Incoming(g, root, edges, Follow(g, root, steps).value)
  {
    if steps != [] {
      assert Reachable(g, root, Follow(g, root, steps[..|steps| - 1]).value);
    }
  }

  /** Every node on the way from the root, both ends included, has one incoming edge. */
  ghost predicate CountedOnce(g: Graph, root: Id, edges: set<Edge>, steps: seq<nat>)
    requires Closed(g) && root in g && (forall e :: e in edges ==> EdgeOf(g, e))
    requires Follow(g, root, steps).Some?
  {
    && |Incoming(g, root, edges, Follow(g, root, steps).value)| == 1
    && (steps != [] ==> CountedOnce(g, root, edges, steps[..|steps| - 1]))
  }

  /** If every node along one path is counted once, no other path reaches its end. */
  lemma {:induction false} CountedOnceHasOnePath(g: Graph, root: Id, nodes: set<Id>, edges: set<Edge>, a: seq<nat>,
                                                 b: seq<nat>)
    requires Closed(g) && root in g && EdgesFrom(g, nodes, edges)
    requires forall id :: Reachable(g, root, id) ==> id in nodes
    requires Follow(g, root, a).Some? && Follow(g, root, b) == Follow(g, root, a)
    requires CountedOnce(g, root, edges, a)
    ensures a == b
    decreases |a|
  {
    LastEdgeIsIncoming(g, root, nodes, edges, a);
    LastEdgeIsIncoming(g, root, nodes, edges, b);
    OnlyEdge(g, root, edges, Follow(g, root, a).value, LastEdge(g, root, a), LastEdge(g, root, b));
    if a != [] {
      CountedOnceHasOnePath(g, root, nodes, edges, a[..|a| - 1], b[..|b| - 1]);
      assert a == a[..|a| - 1] + [a[|a| - 1]] && b == b[..|b| - 1] + [b[|b| - 1]];
    }
  }

  // ----- finishing order ---------------------------------------------------------------

  /** Finished nodes with their finishing numbers: all children finish before their parent. */
  ghost predicate Finished(g: Graph, done: map<Id, nat>) {
    && (forall id :: id in done ==> id in g)
    && forall id, k :: id in done && 0 <= k < |Children(g, id)| ==>
                         Children(g, id)[k] in done && done[Children(g, id)[k]] < done[id]
  }

  /** From a finished node every walk stays finished and moves strictly backwards. */
  lemma {:induction false} WalksGoBack(g: Graph, root: Id, done: map<Id, nat>, steps: seq<nat>, i: nat)
    requires Closed(g) && root in g && Finished(g, done) && root in done
    requires i <= |steps| && Follow(g, root, steps).Some?
    ensures Follow(g, root, steps).value in done
    ensures Follow(g, root, steps[..i]).Some? && Follow(g, root, steps[..i]).value in done
    ensures i < |steps| ==> done[Follow(g, root, steps).value] < done[Follow(g, root, steps[..i]).value]
    decreases |steps|
  {
    TakeAll(steps);
    if steps != [] {
      var last := |steps| - 1;
      if i < |steps| {
        assert steps[..last][..i] == steps[..i];
        WalksGoBack(g, root, done, steps[..last], i);
        if i == last { TakeAll(steps[..last]); }
      } else {
        WalksGoBack(g, root, done, steps[..last], last);
      }
    }
  }

  /** A finished traversal from the root excludes cycles and has met everything reachable. */
  lemma FinishedIsAcyclic(g: Graph, root: Id, done: map<Id, nat>)
    requires Closed(g) && root in g && Finished(g, done) && root in done
    ensures !CycleReachable(g, root)
    ensures forall id :: Reachable(g, root, id) ==> id in done
  {
    forall steps, i | 0 <= i < |steps| && Revisits(g, root, steps, i)
      ensures false
    {
      WalksGoBack(g, root, done, steps, i);
    }
    forall id | Reachable(g, root, id)
      ensures id in done
    {
      var steps :| Follow(g, root, steps) == Some(id);
      WalksGoBack(g, root, done, steps, |steps|);
    }
  }

  // ----- counting, as a function -------------------------------------------------------

  datatype Tally = Tally(seen: set<Id>, counts: map<Id, nat>)

  function Bump(counts: map<Id, nat>, id: Id): map<Id, nat> {
    counts[id := (if id in counts then counts[id] else 0) + 1]
  }

  /** count_nodes: None is the error on a cycle; active holds the nodes being counted around this call. */
  function CountNode(g: Graph, id: Id, active: set<Id>, t: Tally): (r: Option<Tally>)
    requires Closed(g) && id in g
    ensures r.Some? ==> t.seen <= r.value.seen && id in r.value.seen
    decreases g.Keys - t.seen, 0, 0
  {
    var counted := Bump(t.counts, id);
    if id in active then None
    else if id in t.seen then Some(Tally(t.seen, counted))
    else CountAll(g, Children(g, id), |Children(g, id)|, active + {id}, Tally(t.seen + {id}, counted))
  }

  /** Counting the first `count` of some children. */
  function CountAll(g: Graph, ids: seq<Id>, count: nat, active: set<Id>, t: Tally): (r: Option<Tally>)
    requires Closed(g) && (forall i :: 0 <= i < |ids| ==> ids[i] in g) && count <= |ids|
    ensures r.Some? ==> t.seen <= r.value.seen
    decreases g.Keys - t.seen, 1, count
  {
    if count == 0 then Some(t)
    else
      match CountAll(g, ids, count - 1, active, t)
      case None => None
      case Some(u) =>
        assert g.Keys - u.seen <= g.Keys - t.seen;
        CountNode(g, ids[count - 1], active, u)
  }

  // ----- a raised error is a cycle -----------------------------------------------------

  ghost predicate OnPath(g: Graph, root: Id, steps: seq<nat>, id: Id)
    requires Closed(g) && root in g
  {
    exists i :: 0 <= i < |steps| && Follow(g, root, steps[..i]) == Some(id)
  }

  lemma {:induction false} ErrorIsACycle(g: Graph, root: Id, id: Id, steps: seq<nat>, active: set<Id>, t: Tally)
    requires Closed(g) && root in g && Follow(g, root, steps) == Some(id) && CountNode(g, id, active, t) == None
    requires forall v :: v in active ==> OnPath(g, root, steps, v)
    ensures CycleReachable(g, root)
    decreases g.Keys - t.seen, 0, 0
  {
    if id in active {
      var i :| 0 <= i < |steps| && Follow(g, root, steps[..i]) == Some(id);
      assert Revisits(g, root, steps, i);
    } else {
      ErrorBelowIsACycle(g, root, id, |Children(g, id)|, steps, active + {id},
                         Tally(t.seen + {id}, Bump(t.counts, id)));
    }
  }

  lemma {:induction false} ErrorBelowIsACycle(g: Graph, root: Id, parent: Id, count: nat, steps: seq<nat>,
                                              active: set<Id>, t: Tally)
    requires Closed(g) && root in g && Follow(g, root, steps) == Some(parent) && count <= |Children(g, parent)|
    requires CountAll(g, Children(g, parent), count, active, t) == None
    requires forall v :: v in active ==> v == parent || OnPath(g, root, steps, v)
    ensures CycleReachable(g, root)
    decreases g.Keys - t.seen, 1, count
  {
    var before := CountAll(g, Children(g, parent), count - 1, active, t);
    if before == None {
      ErrorBelowIsACycle(g, root, parent, count - 1, steps, active, t);
    } else {
      var longer := steps + [count - 1];
      assert longer[..|steps|] == steps;
      forall v | v in active
        ensures OnPath(g, root, longer, v)
      {
        if v == parent {
          assert Follow(g, root, longer[..|steps|]) == Some(v);
        } else {
          var i :| 0 <= i < |steps| && Follow(g, root, steps[..i]) == Some(v);
          assert longer[..i] == steps[..i];
        }
      }
      assert g.Keys - before.value.seen <= g.Keys - t.seen;
      ErrorIsACycle(g, root, Children(g, parent)[count - 1], longer, active, before.value);
    }
  }

  // ----- success finishes everything met -----------------------------------------------

  datatype Order = Order(done: map<Id, nat>, clock: nat)

  /** What has been seen is either active or finished. */
  ghost predicate Ordered(g: Graph, active: set<Id>, seen: set<Id>, o: Order) {
    && seen == active + o.done.Keys && active !! o.done.Keys && seen <= g.Keys
    && Finished(g, o.done)
    && forall id :: id in o.done ==> o.done[id] < o.clock
  }

  lemma {:induction false} CountNodeFinishes(g: Graph, id: Id, active: set<Id>, t: Tally, o: Order) returns (o': Order)
    requires Closed(g) && id in g && CountNode(g, id, active, t).Some? && Ordered(g, active, t.seen, o)
    ensures Ordered(g, active, CountNode(g, id, active, t).value.seen, o')
    ensures o.done.Keys <= o'.done.Keys && id in o'.done
    decreases g.Keys - t.seen, 0, 0
  {
    if id in t.seen {
      o' := o;
    } else {
      var inner := Tally(t.seen + {id}, Bump(t.counts, id));
      var below := CountAllFinishes(g, Children(g, id), |Children(g, id)|, active + {id}, inner, o);
      o' := Order(below.done[id := below.clock], below.clock + 1);
    }
  }

  lemma {:induction false} CountAllFinishes(g: Graph, ids: seq<Id>, count: nat, active: set<Id>, t: Tally, o: Order)
    returns (o': Order)
    requires Closed(g) && (forall i :: 0 <= i < |ids| ==> ids[i] in g) && count <= |ids|
    requires CountAll(g, ids, count, active, t).Some? && Ordered(g, active, t.seen, o)
    ensures Ordered(g, active, CountAll(g, ids, count, active, t).value.seen, o')
    ensures o.done.Keys <= o'.done.Keys && forall i :: 0 <= i < count ==> ids[i] in o'.done
    decreases g.Keys - t.seen, 1, count
  {
    if count == 0 {
      o' := o;
    } else {
      var u := CountAll(g, ids, count - 1, active, t).value;
      assert g.Keys - u.seen <= g.Keys - t.seen;
      var first := CountAllFinishes(g, ids, count - 1, active, t, o);
      o' := CountNodeFinishes(g, ids[count - 1], active, u, first);
    }
  }

  // ----- everything met is reachable ---------------------------------------------------

  lemma ChildIsReachable(g: Graph, root: Id, parent: Id, k: nat)
    requires Closed(g) && root in g && parent in g && Reachable(g, root, parent) && k < |Children(g, parent)|
    ensures Reachable(g, root, Children(g, parent)[k])
  {
    var steps :| Follow(g, root, steps) == Some(parent);
    assert (steps + [k])[..|steps|] == steps;
    assert Follow(g, root, steps + [k]) == Some(Children(g, parent)[k]);
  }

  lemma {:induction false} CountNodeReaches(g: Graph, root: Id, id: Id, active: set<Id>, t: Tally)
    requires Closed(g) && root in g && id in g && CountNode(g, id, active, t).Some?
    requires Reachable(g, root, id) && forall v :: v in t.seen ==> Reachable(g, root, v)
    ensures forall v :: v in CountNode(g, id, active, t).value.seen ==> Reachable(g, root, v)
    decreases g.Keys - t.seen, 0, 0
  {
    if id !in t.seen {
      CountAllReaches(g, root, id, |Children(g, id)|, active + {id}, Tally(t.seen + {id}, Bump(t.counts, id)));
    }
  }

  lemma {:induction false} CountAllReaches(g: Graph, root: Id, parent: Id, count: nat, active: set<Id>, t: Tally)
    requires Closed(g) && root in g && parent in g && count <= |Children(g, parent)|
    requires CountAll(g, Children(g, parent), count, active, t).Some?
    requires Reachable(g, root, parent) && forall v :: v in t.seen ==> Reachable(g, root, v)
    ensures forall v :: v in CountAll(g, Children(g, parent), count, active, t).value.seen ==> Reachable(g, root, v)
    decreases g.Keys - t.seen, 1, count
  {
    if count > 0 {
      var u := CountAll(g, Children(g, parent), count - 1, active, t).value;
      assert g.Keys - u.seen <= g.Keys - t.seen;
      CountAllReaches(g, root, parent, count - 1, active, t);
      ChildIsReachable(g, root, parent, count - 1);
      CountNodeReaches(g, root, Children(g, parent)[count - 1], active, u);
    }
  }

  // ----- the counts are the edges ------------------------------------------------------

  ghost function ChildEdges(parent: Id, count: nat): set<Edge> {
    set k: nat | k < count :: Child(parent, k)
  }

  /** All edges that start at one of the given nodes. */
  ghost function EdgesOf(g: Graph, nodes: set<Id>): set<Edge>
    requires nodes <= g.Keys
  {
    set id, k: nat | id in nodes && k < |Children(g, id)| :: Child(id, k)
  }

  ghost predicate StartInside(edges: set<Edge>, nodes: set<Id>) {
    forall e :: e in edges && e.Child? ==> e.parent in nodes
  }

  lemma {:induction false} CountNodeTallies(g: Graph, root: Id, id: Id, e: Edge, active: set<Id>, t: Tally,
                                            walked: set<Edge>)
    requires Closed(g) && root in g && id in g && CountNode(g, id, active, t).Some?
    requires t.seen <= g.Keys && StartInside(walked, t.seen) && Counts(g, root, walked, t.counts)
    requires EdgeOf(g, e) && Target(g, root, e) == id && e !in walked && (e.Child? ==> e.parent in t.seen)
    ensures var r := CountNode(g, id, active, t).value;
            r.seen <= g.Keys && Counts(g, root, walked + {e} + EdgesOf(g, r.seen - t.seen), r.counts)
    decreases g.Keys - t.seen, 0, 0
  {
    OneMoreEdge(g, root, walked, t.counts, e);
    var counted := Bump(t.counts, id);
    if id in t.seen {
      assert walked + {e} + EdgesOf(g, t.seen - t.seen) == walked + {e};
    } else {
      var inner := Tally(t.seen + {id}, counted);
      CountAllTallies(g, root, id, |Children(g, id)|, active + {id}, inner, walked + {e});
      var r := CountNode(g, id, active, t).value;
      assert EdgesOf(g, r.seen - t.seen) == ChildEdges(id, |Children(g, id)|) + EdgesOf(g, r.seen - inner.seen);
      assert walked + {e} + EdgesOf(g, r.seen - t.seen)
          == walked + {e} + ChildEdges(id, |Children(g, id)|) + EdgesOf(g, r.seen - inner.seen);
    }
  }

  lemma {:induction false} CountAllTallies(g: Graph, root: Id, parent: Id, count: nat, active: set<Id>, t: Tally,
                                           walked: set<Edge>)
    requires Closed(g) && root in g && parent in g && count <= |Children(g, parent)|
    requires CountAll(g, Children(g, parent), count, active, t).Some?
    requires t.seen <= g.Keys && parent in t.seen && StartInside(walked, t.seen) && Counts(g, root, walked, t.counts)
    requires forall k: nat :: Child(parent, k) !in walked
    ensures var r := CountAll(g, Children(g, parent), count, active, t).value;
            && r.seen <= g.Keys
            && Counts(g, root, walked + ChildEdges(parent, count) + EdgesOf(g, r.seen - t.seen), r.counts)
    decreases g.Keys - t.seen, 1, count
  {
    if count == 0 {
      assert walked + ChildEdges(parent, 0) + EdgesOf(g, t.seen - t.seen) == walked;
    } else {
      var u := CountAll(g, Children(g, parent), count - 1, active, t).value;
      assert g.Keys - u.seen <= g.Keys - t.seen;
      CountAllTallies(g, root, parent, count - 1, active, t, walked);
      var before := walked + ChildEdges(parent, count - 1) + EdgesOf(g, u.seen - t.seen);
      var e := Child(parent, count - 1);
      CountNodeTallies(g, root, Children(g, parent)[count - 1], e, active, u, before);
      var r := CountAll(g, Children(g, parent), count, active, t).value;
      EdgesAddUp(g, walked, parent, count - 1, t.seen, u.seen, r.seen);
    }
  }

  lemma EdgesAddUp(g: Graph, walked: set<Edge>, parent: Id, k: nat, a: set<Id>, b: set<Id>, c: set<Id>)
    requires a <= b <= c <= g.Keys
    ensures walked + ChildEdges(parent, k) + EdgesOf(g, b - a) + {Child(parent, k)} + EdgesOf(g, c - b)
         == walked + ChildEdges(parent, k + 1) + EdgesOf(g, c - a)
  {
    assert ChildEdges(parent, k + 1) == ChildEdges(parent, k) + {Child(parent, k)};
    assert EdgesOf(g, c - a) == EdgesOf(g, b - a) + EdgesOf(g, c - b);
  }

  // ----- main results ------------------------------------------------------------------

  /** Counting a document from its root. */
  function CountDocument(g: Graph, root: Id): Option<Tally>
    requires Closed(g) && root in g
  {
    CountNode(g, root, {}, Tally({}, map[]))
  }

  /** Counting fails exactly when some walk from the root meets a cycle. */
  lemma CountingFailsOnCyclesOnly(g: Graph, root: Id)
    requires Closed(g) && root in g
    ensures CountDocument(g, root) == None <==> CycleReachable(g, root)
  {
    if CountDocument(g, root) == None {
      ErrorIsACycle(g, root, root, [], {}, Tally({}, map[]));
    } else {
      var o := CountNodeFinishes(g, root, {}, Tally({}, map[]), Order(map[], 0));
      FinishedIsAcyclic(g, root, o.done);
    }
  }

  lemma SeenIsReachable(g: Graph, root: Id)
    requires Closed(g) && root in g && CountDocument(g, root).Some?
    ensures var r := CountDocument(g, root).value;
            r.seen <= g.Keys && forall id :: id in r.seen <==> id in g && Reachable(g, root, id)
  {
    var start := Tally({}, map[]);
    var o := CountNodeFinishes(g, root, {}, start, Order(map[], 0));
    FinishedIsAcyclic(g, root, o.done);
    assert Follow(g, root, []) == Some(root);
    CountNodeReaches(g, root, root, {}, start);
  }

  lemma CountsOfDocument(g: Graph, root: Id)
    requires Closed(g) && root in g && CountDocument(g, root).Some?
    ensures var r := CountDocument(g, root).value;
            r.seen <= g.Keys && Counts(g, root, {Root} + EdgesOf(g, r.seen), r.counts)
  {
    CountNodeTallies(g, root, root, Root, {}, Tally({}, map[]), {});
    var r := CountDocument(g, root).value;
    assert r.seen - {} == r.seen && {} + {Root} + EdgesOf(g, r.seen) == {Root} + EdgesOf(g, r.seen);
  }

  /** Otherwise it has seen exactly the reachable nodes, and counted the edges into each, the root's own included. */
  lemma CountsAreReachableInEdges(g: Graph, root: Id)
    requires Closed(g) && root in g && CountDocument(g, root).Some?
    ensures var r := CountDocument(g, root).value;
            && r.seen <= g.Keys && (forall id :: id in r.seen <==> id in g && Reachable(g, root, id))
            && Counts(g, root, {Root} + EdgesOf(g, r.seen), r.counts)
            && EdgesFrom(g, r.seen, {Root} + EdgesOf(g, r.seen))
            && forall id :: id in r.seen ==> id in r.counts
  {
    SeenIsReachable(g, root);
    CountsOfDocument(g, root);
    var r := CountDocument(g, root).value;
    forall id | id in r.seen
      ensures id in r.counts
    {
      SeenIsCounted(g, root, r, id);
    }
  }

  lemma SeenIsCounted(g: Graph, root: Id, r: Tally, id: Id)
    requires Closed(g) && root in g && r.seen <= g.Keys
    requires forall v :: v in g && Reachable(g, root, v) ==> v in r.seen
    requires Counts(g, root, {Root} + EdgesOf(g, r.seen), r.counts)
    requires id in g && Reachable(g, root, id)
    ensures id in r.counts
  {
    var steps :| Follow(g, root, steps) == Some(id);
    if steps == [] {
      assert Target(g, root, Root) == id;
    } else {
      var parent := Follow(g, root, steps[..|steps| - 1]).value;
      assert Reachable(g, root, parent);
      var e := Child(parent, steps[|steps| - 1]);
      assert e in EdgesOf(g, r.seen) && Target(g, root, e) == id;
    }
  }

  // ----- looking a path up -------------------------------------------------------------

  datatype Part = KeyPart(name: string) | ItemPart(index: nat)

  /** The key text of a mapping entry; a key that is no scalar equals no text. */
  predicate HasText(g: Graph, id: Id, text: string) {
    id in g && g[id].kind.ScalarNode? && g[id].kind.value == text
  }

  /** The entry numbers whose key is the given text. */
  function Matches(g: Graph, pairs: seq<(Id, Id)>, name: string, count: nat): seq<nat>
    requires count <= |pairs|
  {
    if count == 0 then []
    else Matches(g, pairs, name, count - 1) + if HasText(g, pairs[count - 1].0, name) then [count - 1] else []
  }

  lemma {:induction false} MatchesAreEntries(g: Graph, pairs: seq<(Id, Id)>, name: string, count: nat)
    requires count <= |pairs|
    ensures forall j :: 0 <= j < |Matches(g, pairs, name, count)| ==> Matches(g, pairs, name, count)[j] < count
  {
    if count > 0 {
      MatchesAreEntries(g, pairs, name, count - 1);
    }
  }

  /** The child number one path component selects: a sequence item, or the value of the only matching key. */
  function Select(g: Graph, id: Id, part: Part): Option<nat>
    requires id in g
  {
    match g[id].kind
    case SequenceNode(items) =>
      if part.ItemPart? && part.index < |items| then Some(part.index) else None
    case MappingNode(pairs, flow) =>
      if flow || part.ItemPart? then None
      else
        var matches := Matches(g, pairs, part.name, |pairs|);
        if |matches| == 1 then Some(2 * matches[0] + 1) else None
    case ScalarNode(_, _) => None
  }

  lemma SelectIsAChild(g: Graph, id: Id, part: Part)
    requires id in g && Select(g, id, part).Some?
    ensures Select(g, id, part).value < |Children(g, id)|
  {
    if g[id].kind.MappingNode? {
      var pairs := g[id].kind.pairs;
      MatchesAreEntries(g, pairs, part.name, |pairs|);
      FlattenAt(pairs, Matches(g, pairs, part.name, |pairs|)[0]);
    }
  }

  /**
   * node(path) for the first `count` components: the child numbers to a node that is, like all above it, counted once.
   */
  function Lookup(g: Graph, root: Id, counts: map<Id, nat>, path: seq<Part>, count: nat): (r: Option<seq<nat>>)
    requires Closed(g) && root in g && count <= |path|
    ensures r.Some? ==> |r.value| == count && Follow(g, root, r.value).Some?
    ensures r.Some? ==> var id := Follow(g, root, r.value).value; id in counts && counts[id] == 1
  {
    if count == 0 then if root in counts && counts[root] == 1 then Some([]) else None
    else
      match Lookup(g, root, counts, path, count - 1)
      case None => None
      case Some(steps) =>
        var id := Follow(g, root, steps).value;
        match Select(g, id, path[count - 1])
        case None => None
        case Some(k) =>
          SelectIsAChild(g, id, path[count - 1]);
          assert (steps + [k])[..|steps|] == steps;
          var child := Children(g, id)[k];
          if child in counts && counts[child] == 1 then Some(steps + [k]) else None
  }

  lemma {:induction false} LookupCountsOnce(g: Graph, root: Id, counts: map<Id, nat>, edges: set<Edge>,
                                            path: seq<Part>, count: nat)
    requires Closed(g) && root in g && count <= |path| && Lookup(g, root, counts, path, count).Some?
    requires Counts(g, root, edges, counts)
    ensures CountedOnce(g, root, edges, Lookup(g, root, counts, path, count).value)
  {
    if count > 0 {
      LookupCountsOnce(g, root, counts, edges, path, count - 1);
      var before := Lookup(g, root, counts, path, count - 1).value;
      var steps := Lookup(g, root, counts, path, count).value;
      assert steps[..|steps| - 1] == before;
    }
  }

  /** The node an accepted lookup returns has one root-to-node path, so its text stands for one location only. */
  lemma LookupFindsAnUnsharedNode(g: Graph, root: Id, path: seq<Part>, other: seq<nat>)
    requires Closed(g) && root in g && CountDocument(g, root).Some?
    requires var counts := CountDocument(g, root).value.counts;
             && Lookup(g, root, counts, path, |path|).Some?
             && Follow(g, root, other) == Follow(g, root, Lookup(g, root, counts, path, |path|).value)
    ensures other == Lookup(g, root, CountDocument(g, root).value.counts, path, |path|).value
  {
    var r := CountDocument(g, root).value;
    CountsAreReachableInEdges(g, root);
    var edges := {Root} + EdgesOf(g, r.seen);
    LookupCountsOnce(g, root, r.counts, edges, path, |path|);
    forall id | Reachable(g, root, id)
      ensures id in r.seen
    {
      var steps :| Follow(g, root, steps) == Some(id);
    }
    CountedOnceHasOnePath(g, root, r.seen, edges, Lookup(g, root, r.counts, path, |path|).value, other);
  }
}
