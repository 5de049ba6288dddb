/** Names and inodes of a directory, shared with other processes that act between any two steps. */
module DiskModel {
  import opened Common

  /** The bytes a reader sees, and whether exactly these bytes would survive a crash. */
  datatype File = File(bytes: Bytes, synced: bool)

  /** The whole state; ours are the inodes this process has created. */
  datatype State = State(names: map<string, nat>, files: map<nat, File>, ours: set<nat>)

  /**
   * One step, as the log has it. Every attempt to link, unlink or look up a name is there with its outcome; checked
   * is the inode that the caller had found under the name before. OwnFile and OwnFailed are the other steps of ours:
   * on a file of ours, a directory sync or a gate.
   */
  datatype Event =
    | Foreign
    | OwnFile
    | OwnFailed
    | CreateFailed(name: string)
    | Linked(name: string, inode: nat)
    | LinkFailed(name: string, source: string)
    | Unlinked(name: string, inode: nat, checked: nat)
    | UnlinkFailed(name: string, checked: nat)
    | LookedUp(name: string, found: Option<nat>)

  /** The present state, every state before it, and the steps between them. */
  datatype World = World(state: State, history: seq<State>, events: seq<Event>)

  /**
   * What the environment does at one step: the state others leave, whether and how a call of ours fails, and whether
   * an exception arrives instead of it that is no error of the call, such as KeyboardInterrupt.
   */
  datatype Move = Move(others: State, fails: bool, interrupts: bool, inode: nat, kept: nat)

  type Env = nat -> Move

  ghost predicate Sound(s: State) {
    && (forall inode :: inode in s.ours ==> inode in s.files)
    && (forall name :: name in s.names ==> s.names[name] in s.files)
  }

  /** The log is complete: step k leads from history[k] to history[k + 1]. */
  ghost predicate Recorded(w: World) {
    |w.history| == |w.events| + 1 && w.history[|w.events|] == w.state
  }

  predicate Same(a: map<string, nat>, b: map<string, nat>, name: string) {
    (name in a <==> name in b) && (name in a && name in b ==> a[name] == b[name])
  }

  predicate Ours(s: State, name: string) {
    name in s.names && s.names[name] in s.ours
  }

  predicate StandsFor(s: State, name: string, inode: nat) {
    name in s.names && s.names[name] == inode
  }

  /** Which names other processes leave alone. */
  datatype Manners = Manners(guarded: set<string>, private: set<string>, gentle: bool)

  /**
   * What other processes may do in one step. They may create, replace, rename and remove names and write their own
   * files, but not write ours, not touch private names, and not give a guarded name one of our inodes. Gentle ones
   * also leave every name of our inodes alone and add none.
   */
  predicate OthersMay(a: State, b: State, manners: Manners) {
    && b.ours == a.ours
    && (forall inode :: inode in a.ours ==> inode in a.files && inode in b.files && b.files[inode] == a.files[inode])
    && (forall name :: name in b.names ==> b.names[name] in b.files)
    && (forall name :: name in manners.private ==> Same(a.names, b.names, name))
    && (forall name :: name in manners.guarded ==> Ours(b, name) ==> Same(a.names, b.names, name))
    && (manners.gentle ==>
          && (forall name :: name in a.names ==> Ours(a, name) ==> Same(a.names, b.names, name))
          && (forall name :: name in b.names ==> Ours(b, name) ==> Same(a.names, b.names, name)))
  }

  /** The number of names an inode has. */
  function LinkCount(s: State, inode: nat): nat {
    |set name | name in s.names && s.names[name] == inode|
  }

  // ----- steps -------------------------------------------------------------------------

  function Add(w: World, e: Event, s: State): World {
    World(s, w.history + [s], w.events + [e])
  }

  function Now(env: Env, w: World): Move {
    env(|w.events|)
  }

  /** An interrupt arrives before the next step; one that arrives right after a step comes before the one behind it. */
  predicate Interrupted(env: Env, w: World) {
    Now(env, w).interrupts
  }

  /** Other processes run. */
  function OthersStep(env: Env, manners: Manners, w: World): World {
    var next := Now(env, w).others;
    Add(w, Foreign, if OthersMay(w.state, next, manners) then next else w.state)
  }

  /** link never replaces a name; it may also fail for any other reason. */
  predicate Links(env: Env, w: World, source: string, target: string) {
    source in w.state.names && target !in w.state.names && !Now(env, w).fails
  }

  function LinkStep(env: Env, w: World, source: string, target: string): World {
    if Links(env, w, source, target) then
      var inode := w.state.names[source];
      Add(w, Linked(target, inode), w.state.(names := w.state.names[target := inode]))
    else Add(w, LinkFailed(target, source), w.state)
  }

  /** unlink removes whatever the name stands for now. */
  predicate Unlinks(env: Env, w: World, name: string) {
    name in w.state.names && !Now(env, w).fails
  }

  function UnlinkStep(env: Env, w: World, name: string, checked: nat): World {
    if Unlinks(env, w, name) then
      Add(w, Unlinked(name, w.state.names[name], checked), w.state.(names := w.state.names - {name}))
    else Add(w, UnlinkFailed(name, checked), w.state)
  }

  function Lookup(s: State, name: string): Option<nat> {
    if name in s.names then Some(s.names[name]) else None
  }

  function Found(w: World, name: string): Option<nat> {
    Lookup(w.state, name)
  }

  function LookStep(w: World, name: string): World {
    Add(w, LookedUp(name, Found(w, name)), w.state)
  }

  /**
   * A link changes something exactly if the source is there, the target is free and the call does not fail. Then the
   * target is one more name of the source's inode, and every other name, every file and every other link count is as
   * before; otherwise nothing changes, and the log tells of the failure.
   */
  lemma LinkNeverReplaces(env: Env, w: World, source: string, target: string, inode: nat)
    ensures var next := LinkStep(env, w, source, target);
            && next.state.files == w.state.files && next.state.ours == w.state.ours
            && (forall name :: name in w.state.names ==> StandsFor(next.state, name, w.state.names[name]))
            && (target in w.state.names || source !in w.state.names || env(|w.events|).fails ==>
                  next.state == w.state && next.events == w.events + [LinkFailed(target, source)])
            && (next.state != w.state
                <==> target !in w.state.names && source in w.state.names && !env(|w.events|).fails)
            && (next.state != w.state ==>
                  && next.state.names.Keys == w.state.names.Keys + {target}
                  && next.state.names[target] == next.state.names[source]
                  && next.events == w.events + [Linked(target, next.state.names[source])])
            && LinkCount(next.state, inode)
               == LinkCount(w.state, inode)
                  + if next.state != w.state && next.state.names[source] == inode then 1 else 0
  {
    var next := LinkStep(env, w, source, target);
    var names := set name | name in w.state.names && w.state.names[name] == inode;
    var names' := set name | name in next.state.names && next.state.names[name] == inode;
    if Links(env, w, source, target) {
      assert next.state.names.Keys == w.state.names.Keys + {target};
      assert names' == if w.state.names[source] == inode then names + {target} else names;
    } else {
      assert names' == names;
    }
  }

  /**
   * An unlink removes just this name: every other name, every file and every other link count is as before. The log
   * records which inode stood there and which one the caller had found; a refused unlink changes nothing.
   */
  lemma UnlinkRemovesOnly(env: Env, w: World, name: string, checked: nat, inode: nat)
    ensures var next := UnlinkStep(env, w, name, checked);
            && next.state.files == w.state.files && next.state.ours == w.state.ours
            && (forall other :: other != name ==> Same(w.state.names, next.state.names, other))
            && (next.state != w.state <==> name in w.state.names && !env(|w.events|).fails)
            && (next.state != w.state ==> name !in next.state.names)
            && (next.state != w.state ==> next.events == w.events + [Unlinked(name, w.state.names[name], checked)])
            && (next.state == w.state ==> next.events == w.events + [UnlinkFailed(name, checked)])
            && LinkCount(next.state, inode)
               == LinkCount(w.state, inode)
                  - if next.state != w.state && w.state.names[name] == inode then 1 else 0
  {
    var next := UnlinkStep(env, w, name, checked);
    var names := set n | n in w.state.names && w.state.names[n] == inode;
    var names' := set n | n in next.state.names && next.state.names[n] == inode;
    if Unlinks(env, w, name) {
      assert names' == if w.state.names[name] == inode then names - {name} else names;
    } else {
      assert names' == names;
    }
  }

  /** Unlinking a name that was just linked brings back the names from before the link. */
  lemma UnlinkUndoesLink(env: Env, w: World, source: string, target: string, checked: nat)
    requires var linked := LinkStep(env, w, source, target); linked.state != w.state && !Now(env, linked).fails
    ensures var linked := LinkStep(env, w, source, target); UnlinkStep(env, linked, target, checked).state == w.state
  {
    var linked := LinkStep(env, w, source, target);
    assert linked.state.names - {target} == w.state.names;
  }

  // ----- the log is true ---------------------------------------------------------------

  /** What an event says of the step: the states before and after it, and for a failure its cause. */
  ghost predicate Describes(e: Event, move: Move, manners: Manners, a: State, b: State) {
    match e
    case Foreign => b == a || OthersMay(a, b, manners)
    case OwnFile => !move.fails
    case OwnFailed => move.fails && b.names == a.names
    case CreateFailed(name) => b == a && (name in a.names || move.inode in a.files || move.fails)
    case Linked(name, inode) => name !in a.names && b == a.(names := a.names[name := inode])
    case LinkFailed(name, source) => b == a && (name in a.names || source !in a.names || move.fails)
    case Unlinked(name, inode, _) => StandsFor(a, name, inode) && b == a.(names := a.names - {name})
    case UnlinkFailed(name, _) => b == a && (name !in a.names || move.fails)
    case LookedUp(name, found) => b == a && found == Lookup(a, name)
  }

  ghost predicate DescribedAt(env: Env, manners: Manners, w: World, j: nat)
    requires Recorded(w) && j < |w.events|
  {
    Describes(w.events[j], env(j), manners, w.history[j], w.history[j + 1])
  }

  /** Every event of the log describes its step. */
  ghost predicate Truthful(env: Env, manners: Manners, w: World)
    requires Recorded(w)
  {
    forall j {:trigger DescribedAt(env, manners, w, j)} :: 0 <= j < |w.events| ==> DescribedAt(env, manners, w, j)
  }

  lemma StaysTrue(env: Env, manners: Manners, w: World, e: Event, s: State)
    requires Recorded(w) && Truthful(env, manners, w) && Describes(e, Now(env, w), manners, w.state, s)
    ensures Truthful(env, manners, Add(w, e, s))
  {
    var next := Add(w, e, s);
    forall j | 0 <= j < |next.events|
      ensures DescribedAt(env, manners, next, j)
    {
      if j < |w.events| {
        assert DescribedAt(env, manners, w, j);
        assert next.events[j] == w.events[j] && next.history[j] == w.history[j];
        assert next.history[j + 1] == w.history[j + 1];
      }
    }
  }

  /** Names change as the log tells: by our links and unlinks, our file operations and others, and not otherwise. */
  lemma LogTellsOfEveryChange(env: Env, manners: Manners, w: World, j: nat)
    requires Recorded(w) && Truthful(env, manners, w) && j < |w.events|
    ensures var a, b := w.history[j], w.history[j + 1];
            match w.events[j]
            case Foreign => true
            case OwnFile => true
            case OwnFailed => b.names == a.names
            case Linked(name, inode) => name !in a.names && b.names == a.names[name := inode] && b.files == a.files
            case Unlinked(name, inode, _) =>
              name in a.names && a.names[name] == inode && b.names == a.names - {name} && b.files == a.files
            case LookedUp(name, found) =>
              b == a && found == if name in a.names then Some(a.names[name]) else None
            case LinkFailed(name, source) => b == a && (name in a.names || source !in a.names || env(j).fails)
            case UnlinkFailed(name, _) => b == a && (name !in a.names || env(j).fails)
            case CreateFailed(name) => b == a && (name in a.names || env(j).inode in a.files || env(j).fails)
  {
    assert DescribedAt(env, manners, w, j);
  }

  // ----- what the log says -------------------------------------------------------------

  /** Step j tried to unlink the name while it stood for an inode of ours, and failed. */
  ghost predicate FailedUnlink(w: World, j: nat, name: string)
    requires Recorded(w)
  {
    j < |w.events| && w.events[j].UnlinkFailed? && w.events[j].name == name && Ours(w.history[j], name)
  }

  /** Some unlink of the name since step `start` failed although the name stood for an inode of ours. */
  ghost predicate UnlinkWasRefused(w: World, start: nat, name: string)
    requires Recorded(w)
  {
    exists j :: start <= j < |w.events| && FailedUnlink(w, j, name)
  }

  lemma RefusedMeans(w: World, start: nat, name: string)
    requires Recorded(w)
    ensures UnlinkWasRefused(w, start, name)
       <==> exists j, checked :: start <= j < |w.events| && w.events[j] == UnlinkFailed(name, checked)
                                 && name in w.history[j].names && w.history[j].names[name] in w.history[j].ours
  {
    if j: nat :| start <= j < |w.events| && FailedUnlink(w, j, name) {
      assert w.events[j] == UnlinkFailed(name, w.events[j].checked);
    }
    if j, checked :| start <= j < |w.events| && w.events[j] == UnlinkFailed(name, checked)
                     && name in w.history[j].names && w.history[j].names[name] in w.history[j].ours {
      assert FailedUnlink(w, j, name);
    }
  }

  /** A new empty file of ours. */
  function Created(s: State, name: string, inode: nat): State {
    State(s.names[name := inode], s.files[inode := File([], false)], s.ours + {inode})
  }

  function Written(s: State, inode: nat, file: File): State {
    s.(files := s.files[inode := file])
  }

  function OwnStep(ok: bool): Event {
    if ok then OwnFile else OwnFailed
  }

  /** The disk as the methods of this process see it. */
  class Disk {
    var world: World
    const env: Env
    const manners: Manners

    constructor (env: Env, manners: Manners, world: World)
      ensures this.env == env && this.manners == manners && this.world == world
    {
      this.env, this.manners, this.world := env, manners, world;
    }

    ghost predicate Valid()
      reads this
    {
      Sound(world.state) && Recorded(world) && Truthful(env, manners, world)
    }

    /** Nothing of the log is lost. */
    twostate predicate Grown()
      reads this
    {
      Valid() && old(world.history) <= world.history && old(world.events) <= world.events
    }

    method Others()
      requires Valid()
      modifies this
      ensures Grown() && world == OthersStep(env, manners, old(world))
      ensures OthersMay(old(world.state), world.state, manners) || world.state == old(world.state)
    {
      StaysTrue(env, manners, world, Foreign, OthersStep(env, manners, world).state);
      world := OthersStep(env, manners, world);
    }

    /** open with "x": fails when the name exists, or for any other reason. */
    method Create(name: string) returns (r: Outcome<nat>)
      requires Valid()
      modifies this
      ensures Grown()
      ensures r.Raised? ==> world == Add(old(world), CreateFailed(name), old(world.state))
      ensures r.Returned? ==> r.value !in old(world.state).files && name !in old(world.state).names
      ensures r.Returned? ==> world == Add(old(world), OwnFile, Created(old(world.state), name, r.value))
    {
      var s, move := world.state, Now(env, world);
      if name in s.names || move.inode in s.files || move.fails {
        StaysTrue(env, manners, world, CreateFailed(name), s);
        world := Add(world, CreateFailed(name), s);
        return Raised;
      }
      StaysTrue(env, manners, world, OwnFile, Created(s, name, move.inode));
      world := Add(world, OwnFile, Created(s, name, move.inode));
      return Returned(move.inode);
    }

    /** Writing through an open file: on failure some prefix may have reached it. */
    method Write(inode: nat, data: Bytes) returns (ok: bool, ghost kept: Bytes)
      requires Valid() && inode in world.state.ours
      modifies this
      ensures Grown()
      ensures kept <= data && (ok ==> kept == data) && (ok <==> !Now(env, old(world)).fails)
      ensures world == Add(old(world), OwnStep(ok), Written(old(world.state), inode, File(kept, false)))
    {
      var move := Now(env, world);
      var written := if move.fails && move.kept < |data| then data[..move.kept] else data;
      ok, kept := !move.fails, written;
      var next := Written(world.state, inode, File(written, false));
      StaysTrue(env, manners, world, OwnStep(ok), next);
      world := Add(world, OwnStep(ok), next);
    }

    /** fsync of a file: once it returns, its present bytes survive a crash. */
    method Sync(inode: nat) returns (ok: bool)
      requires Valid() && inode in world.state.ours
      modifies this
      ensures Grown() && (ok <==> !Now(env, old(world)).fails)
      ensures world == Add(old(world), OwnStep(ok),
                           if ok then Written(old(world.state), inode, File(old(world.state).files[inode].bytes, true))
                           else old(world.state))
    {
      ok := !Now(env, world).fails;
      var next :=
        if ok then Written(world.state, inode, File(world.state.files[inode].bytes, true)) else world.state;
      StaysTrue(env, manners, world, OwnStep(ok), next);
      world := Add(world, OwnStep(ok), next);
    }

    /** A step that may fail and changes no name and no file: a directory sync or a disk-space gate. */
    method Gate() returns (ok: bool)
      requires Valid()
      modifies this
      ensures Grown() && world == Add(old(world), OwnStep(ok), old(world.state))
      ensures ok <==> !Now(env, old(world)).fails
    {
      ok := !Now(env, world).fails;
      StaysTrue(env, manners, world, OwnStep(ok), world.state);
      world := Add(world, OwnStep(ok), world.state);
    }

    /** stat: what the name stands for now. */
    method Stat(name: string) returns (found: Option<nat>)
      requires Valid()
      modifies this
      ensures Grown() && world == LookStep(old(world), name) && found == Found(old(world), name)
    {
      found := Found(world, name);
      StaysTrue(env, manners, world, LookedUp(name, found), world.state);
      world := LookStep(world, name);
    }

    method Link(source: string, target: string) returns (ok: bool)
      requires Valid()
      modifies this
      ensures Grown() && world == LinkStep(env, old(world), source, target)
      ensures ok <==> Links(env, old(world), source, target)
    {
      ok := Links(env, world, source, target);
      ghost var next := LinkStep(env, world, source, target);
      StaysTrue(env, manners, world, next.events[|world.events|], next.state);
      world := LinkStep(env, world, source, target);
    }

    /** checked is what the caller believes the name to stand for. */
    method Unlink(name: string, checked: nat) returns (ok: bool)
      requires Valid()
      modifies this
      ensures Grown() && world == UnlinkStep(env, old(world), name, checked)
      ensures ok <==> Unlinks(env, old(world), name)
    {
      ok := Unlinks(env, world, name);
      ghost var next := UnlinkStep(env, world, name, checked);
      StaysTrue(env, manners, world, next.events[|world.events|], next.state);
      world := UnlinkStep(env, world, name, checked);
    }
  }
}
