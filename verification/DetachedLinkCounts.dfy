/** How many names a published output's inode has in the end, whatever others did after it was looked at. */
module DetachedLinkCounts {
  import opened Common
  import opened DiskModel
  import opened DetachedOutputs

  /** Step j, one of others, gave the inode this name. */
  ghost predicate Gave(w: World, j: nat, name: string, inode: nat)
    requires Recorded(w)
  {
    && j < |w.events| && w.events[j].Foreign?
    && !StandsFor(w.history[j], name, inode) && StandsFor(w.history[j + 1], name, inode)
  }

  ghost predicate GaveSince(w: World, t: nat, name: string, inode: nat)
    requires Recorded(w)
  {
    exists j :: t <= j < |w.events| && Gave(w, j, name, inode)
  }

  /** Since step t others gave the inode a name besides its own one, and it still has it. */
  ghost predicate AliasedSince(w: World, t: nat, own: string, inode: nat)
    requires Recorded(w)
  {
    exists name :: name != own && StandsFor(w.state, name, inode) && GaveSince(w, t, name, inode)
  }

  /** Every name of the inode is one it had before, or was given to it by others since step t. */
  ghost predicate Explained(w: World, t: nat, before: State, inode: nat)
    requires Recorded(w)
  {
    forall name :: StandsFor(w.state, name, inode) ==> StandsFor(before, name, inode) || GaveSince(w, t, name, inode)
  }

  ghost predicate ExplainedSoFar(w: World, t: nat, before: State, inode: nat) {
    Recorded(w) && t <= |w.events| && Explained(w, t, before, inode)
  }

  lemma GivingStays(w: World, e: Event, s: State, t: nat, name: string, inode: nat)
    requires Recorded(w) && GaveSince(w, t, name, inode)
    ensures GaveSince(Add(w, e, s), t, name, inode)
  {
    var j :| t <= j < |w.events| && Gave(w, j, name, inode);
    var next := Add(w, e, s);
    assert next.events[j] == w.events[j] && next.history[j] == w.history[j] && next.history[j + 1] == w.history[j + 1];
    assert Gave(next, j, name, inode);
  }

  /** A step of others explains what it gives, and a look gives nothing. */
  lemma StepExplains(w: World, e: Event, s: State, t: nat, before: State, inode: nat)
    requires Recorded(w) && t <= |w.events| && Explained(w, t, before, inode)
    requires e.Foreign? || s.names == w.state.names
    ensures Explained(Add(w, e, s), t, before, inode)
  {
    var next, last := Add(w, e, s), |w.events|;
    assert next.events[last] == e && next.history[last] == w.state && next.history[last + 1] == s;
    forall name | StandsFor(s, name, inode) && !StandsFor(before, name, inode)
      ensures GaveSince(next, t, name, inode)
    {
      if StandsFor(w.state, name, inode) {
        GivingStays(w, e, s, t, name, inode);
      } else {
        assert Gave(next, last, name, inode);
      }
    }
  }

  lemma CheckOneExplains(u: Job, w: World, k: nat, t: nat, before: State, inode: nat, next: World)
    requires Shaped(u) && k < |u.outputs| && next == CheckOne(u, w, k).world
    requires ExplainedSoFar(w, t, before, inode)
    ensures ExplainedSoFar(next, t, before, inode)
  {
    var here := OthersStep(u.env, u.manners, w);
    StepExplains(w, Foreign, here.state, t, before, inode);
    if !Interrupted(u.env, here) {
      StepExplains(here, LookedUp(u.outputs[k], Found(here, u.outputs[k])), here.state, t, before, inode);
    }
  }

  /** All later looks of the run. */
  lemma {:induction false} LaterLooksExplain(u: Job, w: World, k: nat, n: nat, t: nat, before: State, inode: nat)
    requires Shaped(u) && k <= n <= |u.outputs| && CheckFirst(u, w, n).end.Passed?
    requires ExplainedSoFar(CheckFirst(u, w, k).world, t, before, inode)
    ensures ExplainedSoFar(CheckFirst(u, w, n).world, t, before, inode)
    ensures CheckFirst(u, w, k).world.events <= CheckFirst(u, w, n).world.events
    ensures CheckFirst(u, w, k).world.history <= CheckFirst(u, w, n).world.history
  {
    if k < n {
      LaterLooksExplain(u, w, k, n - 1, t, before, inode);
      CheckNext(u, w, n);
      CheckOneExplains(u, CheckFirst(u, w, n - 1).world, n - 1, t, before, inode, CheckFirst(u, w, n).world);
    }
  }

  lemma SingleName(names: set<string>, own: string)
    requires own in names && |names| == 1
    ensures names == {own}
  {
    var rest := names - {own};
    assert names == rest + {own};
    assert |rest| == 0;
  }

  /** An inode with this name has one link exactly if no other name stands for it. */
  lemma OneLink(s: State, own: string, inode: nat)
    requires StandsFor(s, own, inode)
    ensures LinkCount(s, inode) == 1 <==> forall name :: StandsFor(s, name, inode) ==> name == own
  {
    var names := set name | name in s.names && s.names[name] == inode;
    assert forall name :: name in names <==> StandsFor(s, name, inode);
    assert own in names;
    assert (forall name :: name in names ==> name == own) ==> names == {own};
    if LinkCount(s, inode) == 1 { SingleName(names, own); }
  }

  lemma DisturbanceStays(early: World, late: World, start: nat, name: string)
    requires Recorded(early) && Recorded(late) && early.events <= late.events && early.history <= late.history
    requires Undisturbed(late, start, name)
    ensures Undisturbed(early, start, name)
  {
    forall j | start <= j < |early.events|
      ensures LeavesAlone(early, j, name)
    {
      assert LeavesAlone(late, j, name);
      assert early.events[j] == late.events[j] && early.history[j] == late.history[j];
      assert early.history[j + 1] == late.history[j + 1];
    }
  }

  /** Where the checks of a run begin. */
  function Detached(u: Job, w: World): World
    requires Shaped(u)
  {
    DetachFirst(u, LinkFirst(u, w, |u.outputs|).world, |u.outputs|).world
  }

  /** The disk as output k is looked at. */
  function LookedAt(u: Job, w: World, k: nat): World
    requires Shaped(u) && k < |u.outputs|
  {
    OthersStep(u.env, u.manners, CheckFirst(u, Detached(u, w), k).world)
  }

  /** A successful run ends with its checks. */
  lemma ChecksPassed(u: Job, w: World)
    requires Shaped(u) && Publish(u, w).end.Passed?
    ensures CheckFirst(u, Detached(u, w), |u.outputs|).end.Passed?
    ensures CheckFirst(u, Detached(u, w), |u.outputs|).world == Publish(u, w).world
  {
  }

  lemma ChecksAreExact(u: Job, w: World, k: nat)
    requires Ready(u, w) && k <= |u.outputs| && Publish(u, w).end.Passed?
    ensures var p := CheckFirst(u, Detached(u, w), k);
            && Inv(u, p.world, |u.outputs|, |u.outputs|) && |w.events| <= |p.world.events|
            && Exact(u, p.world, |w.events|, |u.outputs|)
  {
    var n, start := |u.outputs|, |w.events|;
    LinkFirstIsExact(u, w, n);
    DetachFirstIsExact(u, LinkFirst(u, w, n).world, start, n);
    CheckFirstIsExact(u, Detached(u, w), start, k);
  }

  /** What holds when an output that is still undisturbed in the end was looked at. */
  lemma UndisturbedAtTheLook(u: Job, w: World, k: nat, here: World)
    requires Ready(u, w) && k < |u.outputs| && Publish(u, w).end.Passed? && here == LookedAt(u, w, k)
    requires Recorded(Publish(u, w).world) && Undisturbed(Publish(u, w).world, |w.events|, u.outputs[k])
    requires here.events <= Publish(u, w).world.events && here.history <= Publish(u, w).world.history
    ensures Recorded(here) && StandsFor(here.state, u.outputs[k], u.owned[k])
  {
    var n, start := |u.outputs|, |w.events|;
    ChecksAreExact(u, w, k);
    OthersKeepExact(u, CheckFirst(u, Detached(u, w), k).world, start, n, n);
    DisturbanceStays(here, Publish(u, w).world, start, u.outputs[k]);
    assert ExactAt(u, here, start, n, k);
  }

  lemma PassedSoFar(u: Job, w: World, k: nat, n: nat)
    requires Shaped(u) && k <= n <= |u.outputs| && CheckFirst(u, w, n).end.Passed?
    ensures CheckFirst(u, w, k).end.Passed?
  {
    if !CheckFirst(u, w, k).end.Passed? { CheckStaysEnded(u, w, k, n); }
  }

  /** A look of a run that passes them all. */
  lemma LookPassed(u: Job, w: World, k: nat, here: World)
    requires Shaped(u) && k < |u.outputs| && CheckFirst(u, w, |u.outputs|).end.Passed?
    requires here == OthersStep(u.env, u.manners, CheckFirst(u, w, k).world)
    ensures CheckFirst(u, w, k + 1) == Progress(LookStep(here, u.outputs[k]), k + 1, Passed)
    ensures Unaliased(here.state, u.outputs[k])
  {
    PassedSoFar(u, w, k, |u.outputs|);
    PassedSoFar(u, w, k + 1, |u.outputs|);
    CheckNext(u, w, k + 1);
  }

  /** The look at output k and all that follows. */
  lemma FromTheLook(u: Job, w: World, k: nat, here: World, final: World)
    requires Ready(u, w) && k < |u.outputs| && Publish(u, w).end.Passed?
    requires here == LookedAt(u, w, k) && final == Publish(u, w).world
    ensures Recorded(here) && Recorded(final) && Explained(final, |here.events|, here.state, u.owned[k])
    ensures LookStep(here, u.outputs[k]).events <= final.events && LookStep(here, u.outputs[k]).history <= final.history
    ensures Unaliased(here.state, u.outputs[k])
  {
    var n, begin := |u.outputs|, Detached(u, w);
    ChecksPassed(u, w);
    ChecksAreExact(u, w, k);
    LookPassed(u, begin, k, here);
    LaterLooksExplain(u, begin, k + 1, n, |here.events|, here.state, u.owned[k]);
  }

  /**
   * After success an output that is its own inode has no other name exactly if no step of others since the look at it
   * gave the inode a name that it still has. The look is the last moment at which the code counts.
   */
  lemma LinkCountIsExact(u: Job, w: World, k: nat, here: World, final: World)
    requires Ready(u, w) && k < |u.outputs| && Publish(u, w).end.Passed?
    requires here == LookedAt(u, w, k) && final == Publish(u, w).world
    requires StandsFor(final.state, u.outputs[k], u.owned[k])
    ensures Recorded(final) && |here.events| < |final.events|
    ensures final.events[|here.events|] == LookedUp(u.outputs[k], Some(u.owned[k]))
    ensures LinkCount(final.state, u.owned[k]) == 1 <==> !AliasedSince(final, |here.events|, u.outputs[k], u.owned[k])
  {
    var own, inode := u.outputs[k], u.owned[k];
    FromTheLook(u, w, k, here, final);
    assert LookStep(here, own).events[|here.events|] == final.events[|here.events|];
    assert here.history <= LookStep(here, own).history && here.events <= LookStep(here, own).events;
    SuccessIsExact(u, w, k);
    UndisturbedAtTheLook(u, w, k, here);
    OneLink(here.state, own, inode);
    OneLink(final.state, own, inode);
  }

  // ----- a run in which a name is added after the look ---------------------------------

  const F1 := File([], true)

  /** Two files, inodes 1 and 2; while the second output is looked at, others give the first one's inode a name. */
  function Pair(): Job {
    var idle, aliased := State(map[], map[], {}), State(map["o1" := 1, "o2" := 2, "x" := 1], Both(), {1, 2});
    Job(i => Move(if i == 10 then aliased else idle, false, false, 0, 0),
        Manners({"o1", "o2"}, {"s1", "s2"}, false), ["s1", "s2"], ["o1", "o2"], [1, 2])
  }

  function Both(): map<nat, File> {
    map[1 := F1, 2 := F1]
  }

  function Start(): World {
    var s := State(map["s1" := 1, "s2" := 2], Both(), {1, 2});
    World(s, [s], [])
  }

  /** The run stands after this many steps with these names. */
  ghost predicate At(w: World, steps: nat, names: map<string, nat>) {
    |w.events| == steps && w.state == State(names, Both(), {1, 2})
  }

  lemma Idle(u: Job, w: World, steps: nat, names: map<string, nat>)
    requires u == Pair() && At(w, steps, names) && steps != 10
    ensures OthersStep(u.env, u.manners, w) == Add(w, Foreign, w.state)
    ensures At(OthersStep(u.env, u.manners, w), steps + 1, names)
  {
  }

  lemma PairIsReady(u: Job, w: World)
    requires u == Pair() && w == Start()
    ensures Ready(u, w)
  {
  }

  lemma PairBegins(u: Job, w: World)
    requires u == Pair() && w == Start()
    ensures LinkFirst(u, w, 1).end.Passed?
    ensures At(LinkFirst(u, w, 1).world, 2, map["s1" := 1, "s2" := 2, "o1" := 1])
  {
    assert LinkFirst(u, w, 0) == Progress(w, 0, Passed);
    Idle(u, w, 0, w.state.names);
    assert LinkFirst(u, w, 1) == LinkOne(u, w, 0);
    assert w.state.names["o1" := 1] == map["s1" := 1, "s2" := 2, "o1" := 1];
  }

  lemma PairLinks(u: Job, w: World)
    requires u == Pair() && w == Start()
    ensures LinkFirst(u, w, 2).end.Passed?
    ensures At(LinkFirst(u, w, 2).world, 4, map["s1" := 1, "s2" := 2, "o1" := 1, "o2" := 2])
  {
    PairBegins(u, w);
    var first := LinkFirst(u, w, 1);
    Idle(u, first.world, 2, map["s1" := 1, "s2" := 2, "o1" := 1]);
    assert LinkFirst(u, w, 2) == LinkOne(u, first.world, 1);
  }

  lemma PairDetaches(u: Job, w: World)
    requires u == Pair() && At(w, 4, map["s1" := 1, "s2" := 2, "o1" := 1, "o2" := 2])
    ensures DetachFirst(u, w, 2).end.Passed? && At(DetachFirst(u, w, 2).world, 8, map["o1" := 1, "o2" := 2])
  {
    var first := DetachFirst(u, w, 1);
    assert DetachFirst(u, w, 0) == Progress(w, 0, Passed);
    Idle(u, w, 4, w.state.names);
    assert first == DetachOne(u, w, 0);
    assert w.state.names - {"s1"} == map["s2" := 2, "o1" := 1, "o2" := 2];
    Idle(u, first.world, 6, map["s2" := 2, "o1" := 1, "o2" := 2]);
    assert DetachFirst(u, w, 2) == DetachOne(u, first.world, 1);
    assert first.world.state.names - {"s2"} == map["o1" := 1, "o2" := 2];
  }

  lemma PairChecks(u: Job, w: World)
    requires u == Pair() && At(w, 8, map["o1" := 1, "o2" := 2])
    ensures CheckFirst(u, w, 2).end.Passed?
    ensures At(CheckFirst(u, w, 2).world, 12, map["o1" := 1, "o2" := 2, "x" := 1])
  {
    var first := CheckFirst(u, w, 1);
    assert CheckFirst(u, w, 0) == Progress(w, 0, Passed);
    Idle(u, w, 8, w.state.names);
    assert first == CheckOne(u, w, 0);
    OneLink(w.state, "o1", 1);
    assert At(first.world, 10, w.state.names);
    var aliased := State(map["o1" := 1, "o2" := 2, "x" := 1], Both(), {1, 2});
    assert OthersMay(w.state, aliased, u.manners);
    OneLink(aliased, "o2", 2);
    assert CheckFirst(u, w, 2) == CheckOne(u, first.world, 1);
  }

  lemma PairHasAnAlias(w: World)
    requires At(w, 12, map["o1" := 1, "o2" := 2, "x" := 1])
    ensures StandsFor(w.state, "o1", 1) && LinkCount(w.state, 1) != 1
  {
    OneLink(w.state, "o1", 1);
    assert StandsFor(w.state, "x", 1);
  }

  /** A run that succeeds although the inode of its first output has a second name in the end. */
  lemma RoughOthersCanAddAName()
    ensures var p := Publish(Pair(), Start());
            && Ready(Pair(), Start()) && p.end.Passed?
            && StandsFor(p.world.state, "o1", 1) && LinkCount(p.world.state, 1) != 1
  {
    var u := Pair();
    PairIsReady(u, Start());
    PairLinks(u, Start());
    var linked := LinkFirst(u, Start(), 2).world;
    PairDetaches(u, linked);
    var detached := DetachFirst(u, linked, 2).world;
    PairChecks(u, detached);
    PairHasAnAlias(CheckFirst(u, detached, 2).world);
  }
}
