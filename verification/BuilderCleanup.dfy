/** Removing an owned builder: its container, its instance metadata and its state volume, whatever fails on the way. */
module BuilderCleanup {
  import opened Common

  /** interrupt marks the exceptions that are no Exception: they pass through `except Exception`. */
  datatype Failure = Failure(tag: int, interrupt: bool)

  datatype Result<+T> = Ok(value: T) | Failed(error: Failure)

  datatype Mount = Mount(destination: string, kind: string, name: string, writable: bool)

  datatype Container = Container(id: string, name: string, image: string, env: seq<string>, limited: bool,
                                 restart: string, mounts: seq<Mount>)

  datatype Volume = Volume(driver: string, scope: string, options: bool)

  datatype Metadata = RegularFile | Link | OtherFile

  /** known holds every container there ever was: an ID keeps denoting the same one. */
  datatype World = World(containers: map<string, Container>, volumes: map<string, Volume>, instance: Option<Metadata>,
                         known: map<string, Container>)

  predicate Possible(w: World) {
    forall id :: id in w.containers ==>
                   id in w.known && w.known[id] == w.containers[id] && w.containers[id].id == id
  }

  /** Other processes may do anything but make an ID denote another container. */
  predicate OthersMay(a: World, b: World) {
    Possible(b) && forall id :: id in a.known ==> id in b.known && b.known[id] == a.known[id]
  }

  datatype Status = Started | Completed | StepFailed | Inconclusive

  /** One entry of the log; a failed step records its error. */
  datatype Observation = Observation(step: string, identity: string, status: Status, error: Option<Failure>,
                                     present: Option<bool>)

  /** One docker rm or docker volume rm command. */
  datatype Removal = RemovedContainer(container: Container) | RemovedVolume(name: string)

  function ContainerName(name: string): string { "buildx_buildkit_" + name + "0" }

  function StateVolume(name: string): string { "buildx_buildkit_" + name + "0_state" }

  predicate HexId(id: string) {
    |id| == 64 && forall i :: 0 <= i < |id| ==> '0' <= id[i] <= '9' || 'a' <= id[i] <= 'f'
  }

  predicate BuilderIdentity(c: Container, name: string, owner: string, image: string) {
    && c.name == "/" + ContainerName(name) && c.image == image
    && "RUNNER_ARTIFACT_OWNER=" + owner in c.env
    && HexId(c.id) && c.limited && c.restart == "no"
  }

  function StateMounts(mounts: seq<Mount>): seq<Mount> {
    if mounts == [] then []
    else (if mounts[0].destination == "/var/lib/buildkit" then [mounts[0]] else []) + StateMounts(mounts[1..])
  }

  /** The container's one state mount is the named volume. */
  predicate Associated(c: Container, volume: string) {
    var state := StateMounts(c.mounts);
    |state| == 1 && state[0].kind == "volume" && state[0].name == volume && state[0].writable
  }

  predicate ContainerAbsent(w: World, name: string) {
    forall id :: id in w.containers ==> w.containers[id].name != "/" + ContainerName(name)
  }

  predicate AllAbsent(w: World, name: string) {
    ContainerAbsent(w, name) && w.instance.None? && StateVolume(name) !in w.volumes
  }

  // ----- what others did, and what the log claims --------------------------------------

  /** One turn of other processes. */
  datatype Turn = Turn(before: World, after: World)

  /** The three objects that are gone stay gone. */
  predicate StaysAbsent(a: World, b: World, name: string) {
    && (ContainerAbsent(a, name) ==> ContainerAbsent(b, name))
    && (a.instance.None? ==> b.instance.None?)
    && (StateVolume(name) !in a.volumes ==> StateVolume(name) !in b.volumes)
  }

  /** In no turn from number `from` on did others create a container, an instance or a volume of the builder's names. */
  ghost predicate Calm(turns: seq<Turn>, from: nat, name: string) {
    forall k :: from <= k < |turns| ==> StaysAbsent(turns[k].before, turns[k].after, name)
  }

  /** What a completed step of this name says about the world. */
  predicate Claims(step: string, w: World, name: string) {
    if step == "verify-container-absent" || step == "probe-instance-container" then ContainerAbsent(w, name)
    else if step == "verify-instance-absent" then w.instance.None?
    else if step == "verify-volume-absent" then StateVolume(name) !in w.volumes
    else true
  }

  /** The world when a log entry was finished, and how many turns others had had by then. */
  datatype Moment = Moment(world: World, turns: nat)

  /** A completed step told the truth, and it is still true unless others re-created something since. */
  ghost predicate TruthAt(o: Observation, m: Moment, turns: seq<Turn>, world: World, name: string) {
    o.status == Completed ==>
      && Claims(o.step, m.world, name) && m.turns <= |turns|
      && (Calm(turns, m.turns, name) ==> Claims(o.step, world, name))
  }

  ghost predicate Truthful(log: seq<Observation>, seen: seq<Moment>, turns: seq<Turn>, world: World, name: string) {
    |seen| == |log| && forall i :: 0 <= i < |log| ==> TruthAt(log[i], seen[i], turns, world, name)
  }

  lemma ClaimStays(step: string, a: World, b: World, name: string)
    requires Claims(step, a, name) && StaysAbsent(a, b, name)
    ensures Claims(step, b, name)
  {
  }

  lemma TurnKeepsTruth(log: seq<Observation>, seen: seq<Moment>, turns: seq<Turn>, a: World, b: World, name: string)
    requires Truthful(log, seen, turns, a, name)
    ensures Truthful(log, seen, turns + [Turn(a, b)], b, name)
  {
    var more := turns + [Turn(a, b)];
    forall i | 0 <= i < |log|
      ensures TruthAt(log[i], seen[i], more, b, name)
    {
      assert TruthAt(log[i], seen[i], turns, a, name);
      if log[i].status == Completed && Calm(more, seen[i].turns, name) {
        CalmBefore(turns, Turn(a, b), seen[i].turns, name);
        ClaimStays(log[i].step, a, b, name);
      }
    }
  }

  lemma CalmBefore(turns: seq<Turn>, t: Turn, from: nat, name: string)
    requires from <= |turns| && Calm(turns + [t], from, name)
    ensures Calm(turns, from, name) && StaysAbsent(t.before, t.after, name)
  {
    var more := turns + [t];
    assert more[|turns|] == t;
    forall k | from <= k < |turns|
      ensures StaysAbsent(turns[k].before, turns[k].after, name)
    {
      assert more[k] == turns[k];
    }
  }

  lemma RemovalKeepsTruth(log: seq<Observation>, seen: seq<Moment>, turns: seq<Turn>, a: World, b: World, name: string)
    requires Truthful(log, seen, turns, a, name) && StaysAbsent(a, b, name)
    ensures Truthful(log, seen, turns, b, name)
  {
    forall i | 0 <= i < |log|
      ensures TruthAt(log[i], seen[i], turns, b, name)
    {
      assert TruthAt(log[i], seen[i], turns, a, name);
      if Claims(log[i].step, a, name) { ClaimStays(log[i].step, a, b, name); }
    }
  }

  /** A new last entry, or another one in its place. */
  lemma EntryKeepsTruth(log: seq<Observation>, seen: seq<Moment>, turns: seq<Turn>, world: World, name: string,
                        o: Observation, m: Moment)
    requires Truthful(log, seen, turns, world, name) && TruthAt(o, m, turns, world, name)
    ensures Truthful(log + [o], seen + [m], turns, world, name)
  {
  }

  lemma ShorterIsTruthful(log: seq<Observation>, seen: seq<Moment>, turns: seq<Turn>, world: World, name: string)
    requires Truthful(log, seen, turns, world, name) && log != []
    ensures Truthful(log[..|log| - 1], seen[..|log| - 1], turns, world, name)
  {
  }

  // ----- the order of the steps --------------------------------------------------------

  function ContainerSteps(container: bool): seq<string> {
    ["probe-container"] + if container then ["remove-container"] else []
  }

  function InstanceSteps(instance: bool): seq<string> {
    if instance then ["probe-instance-container", "remove-instance"] else []
  }

  const ABSENCE_STEPS := ["verify-instance-absent", "verify-container-absent"]

  function VolumeSteps(volume: bool): seq<string> {
    ["probe-volume"] + (if volume then ["remove-volume"] else []) + ["verify-volume-absent"]
  }

  /** The steps of a whole run, by whether the container, the instance and the volume were found. */
  function Steps(container: bool, instance: bool, volume: bool): seq<string> {
    VolumeStart(container, instance) + VolumeSteps(volume)
  }

  /** The steps before the volume is looked at. */
  function VolumeStart(container: bool, instance: bool): seq<string> {
    ContainerSteps(container) + InstanceSteps(instance) + ABSENCE_STEPS
  }

  function StepNames(log: seq<Observation>): seq<string> {
    seq(|log|, i requires 0 <= i < |log| => log[i].step)
  }

  ghost predicate AllCompleted(log: seq<Observation>) {
    forall i :: 0 <= i < |log| ==> log[i].status == Completed
  }

  /** A run's log so far: completed steps in order. */
  ghost predicate Done(log: seq<Observation>, steps: seq<string>) {
    AllCompleted(log) && StepNames(log) == steps
  }

  /** A stopped run's log: an initial part of a run, all of it completed but perhaps the last step. */
  ghost predicate Stopped(log: seq<Observation>) {
    && log != [] && AllCompleted(log[..|log| - 1]) && log[|log| - 1].status in {Completed, StepFailed}
    && exists c, i, v :: StepNames(log) <= Steps(c, i, v)
  }

  /** One more step of a whole run: either the log goes on, or the run stops here. */
  lemma OneMore(before: seq<Observation>, after: seq<Observation>, start: nat, steps: seq<string>, o: Observation,
                c: bool, i: bool, v: bool)
    requires start <= |before| && after == before + [o] && Done(before[start..], steps)
    requires o.status in {Completed, StepFailed} && steps + [o.step] <= Steps(c, i, v)
    ensures o.status == Completed ==> Done(after[start..], steps + [o.step])
    ensures Stopped(after[start..])
  {
    var log := before[start..];
    assert after[start..] == log + [o];
    assert (log + [o])[..|log|] == log;
    assert StepNames(log + [o]) == steps + [o.step];
  }

  lemma ContainerOrder(v: bool)
    ensures [] + ["probe-container"] <= Steps(true, true, v)
    ensures ["probe-container"] + ["remove-container"] <= Steps(true, true, v)
  {
  }

  lemma InstanceOrder(c: bool, v: bool)
    ensures ContainerSteps(c) <= Steps(c, true, v)
    ensures ContainerSteps(c) + ["probe-instance-container"] <= Steps(c, true, v)
    ensures (ContainerSteps(c) + ["probe-instance-container"]) + ["remove-instance"] <= Steps(c, true, v)
    ensures (ContainerSteps(c) + ["probe-instance-container"]) + ["remove-instance"]
         == ContainerSteps(c) + InstanceSteps(true)
  {
    var s := ContainerSteps(c);
    assert s + InstanceSteps(true) == (s + ["probe-instance-container"]) + ["remove-instance"];
    assert Steps(c, true, v) == s + (InstanceSteps(true) + ABSENCE_STEPS + VolumeSteps(v));
  }

  lemma AbsenceOrder(c: bool, i: bool, v: bool)
    ensures var s := ContainerSteps(c) + InstanceSteps(i);
            && s + ["verify-instance-absent"] <= Steps(c, i, v)
            && (s + ["verify-instance-absent"]) + ["verify-container-absent"] <= Steps(c, i, v)
            && (s + ["verify-instance-absent"]) + ["verify-container-absent"] == VolumeStart(c, i)
  {
    var s := ContainerSteps(c) + InstanceSteps(i);
    assert s + ABSENCE_STEPS == (s + ["verify-instance-absent"]) + ["verify-container-absent"];
    assert Steps(c, i, v) == (s + ABSENCE_STEPS) + VolumeSteps(v);
  }

  lemma VolumeOrder(c: bool, i: bool, v: bool)
    ensures VolumeStart(c, i) + ["probe-volume"] <= Steps(c, i, v)
    ensures (VolumeStart(c, i) + ["probe-volume"]) + ["remove-volume"] <= Steps(c, i, true)
    ensures (if v then (VolumeStart(c, i) + ["probe-volume"]) + ["remove-volume"]
             else VolumeStart(c, i) + ["probe-volume"])
            + ["verify-volume-absent"] == Steps(c, i, v)
  {
    var s := VolumeStart(c, i);
    assert s + VolumeSteps(true) == ((s + ["probe-volume"]) + ["remove-volume"]) + ["verify-volume-absent"];
    assert s + VolumeSteps(false) == (s + ["probe-volume"]) + ["verify-volume-absent"];
  }

  lemma DoneIsStopped(log: seq<Observation>, steps: seq<string>, c: bool, i: bool, v: bool)
    requires Done(log, steps) && steps != [] && steps <= Steps(c, i, v)
    ensures Stopped(log)
  {
    assert |log| == |StepNames(log)|;
  }

  /** Where a removal stands among the steps of a whole run, and what stands before it. */
  lemma RemovalPosition(c: bool, i: bool, v: bool, k: nat)
    requires k < |Steps(c, i, v)|
    ensures Steps(c, i, v)[k] == "remove-container" ==> k > 0 && Steps(c, i, v)[k - 1] == "probe-container"
    ensures Steps(c, i, v)[k] == "remove-instance" ==> k > 0 && Steps(c, i, v)[k - 1] == "probe-instance-container"
    ensures Steps(c, i, v)[k] == "remove-volume" ==> k > 1 && Steps(c, i, v)[k - 2] == "verify-container-absent"
  {
  }

  /** In the log of every run, stopped or not, each removal comes after the completed check it depends on. */
  lemma RemovalsFollowTheirChecks(log: seq<Observation>, k: nat)
    requires Stopped(log) && k < |log|
    ensures log[k].step == "remove-container" ==>
              k > 0 && log[k - 1].step == "probe-container" && log[k - 1].status == Completed
    ensures log[k].step == "remove-instance" ==>
              k > 0 && log[k - 1].step == "probe-instance-container" && log[k - 1].status == Completed
    ensures log[k].step == "remove-volume" ==>
              k > 1 && log[k - 2].step == "verify-container-absent" && log[k - 2].status == Completed
  {
    var c, i, v :| StepNames(log) <= Steps(c, i, v);
    RemovalPosition(c, i, v, k);
    forall j | 0 <= j <= k
      ensures log[j].step == Steps(c, i, v)[j] && (j < k ==> log[j].status == Completed)
    {
      assert StepNames(log)[j] == log[j].step;
      if j < k { assert log[..|log| - 1][j] == log[j]; }
    }
  }

  /**
   * The log of a returned run holds the moments at which instance and container were seen to be absent. They still
   * are, unless others re-created one of the objects after that moment.
   */
  lemma RunSawAbsence(log: seq<Observation>, seen: seq<Moment>, turns: seq<Turn>, world: World, name: string,
                      start: nat,
                      c: bool, i: bool, v: bool)
    requires Truthful(log, seen, turns, world, name) && start <= |log| && Done(log[start..], Steps(c, i, v))
    ensures var k := start + |VolumeStart(c, i)|;
            && k <= |log|
            && seen[k - 2].world.instance.None? && ContainerAbsent(seen[k - 1].world, name)
            && (Calm(turns, seen[k - 2].turns, name) ==> world.instance.None?)
            && (Calm(turns, seen[k - 1].turns, name) ==> ContainerAbsent(world, name))
  {
    var n := |VolumeStart(c, i)|;
    VerifySteps(c, i, v);
    assert |StepNames(log[start..])| == |log[start..]|;
    assert StepNames(log[start..])[n - 2] == log[start + n - 2].step && log[start..][n - 2] == log[start + n - 2];
    assert StepNames(log[start..])[n - 1] == log[start + n - 1].step && log[start..][n - 1] == log[start + n - 1];
    assert TruthAt(log[start + n - 2], seen[start + n - 2], turns, world, name);
    assert TruthAt(log[start + n - 1], seen[start + n - 1], turns, world, name);
  }

  lemma VerifySteps(c: bool, i: bool, v: bool)
    ensures var n := |VolumeStart(c, i)|;
            && 2 <= n < |Steps(c, i, v)|
            && Steps(c, i, v)[n - 2] == "verify-instance-absent" && Steps(c, i, v)[n - 1] == "verify-container-absent"
  {
  }

  /** A log that grew twice: what the first growth added is still there. */
  lemma LogGrew(a: seq<Observation>, b: seq<Observation>, c: seq<Observation>)
    requires a <= b <= c
    ensures a <= c && c[|a|..|b|] == b[|a|..]
  {
    assert b == c[..|b|];
  }

  lemma FirstRaised(a: seq<Failure>, error: Failure, c: seq<Failure>)
    requires a + [error] <= c
    ensures a <= c && |c| > |a| && c[|a|] == error
  {
    assert (a + [error])[|a|] == c[|a|];
  }

  /** What a step raised, if anything. */
  function ErrorOf<T>(r: Result<T>): Option<Failure> {
    if r.Ok? then None else Some(r.error)
  }

  /** The entry that a finished step leaves. */
  function Entry(step: string, identity: string, error: Option<Failure>): Observation {
    Observation(step, identity, if error.None? then Completed else StepFailed, error, None)
  }

  class Cleanup {
    const name: string
    const owner: string
    const image: string
    const absentBefore: bool   // the state volume was proven absent before the builder was made
    var world: World
    var observations: seq<Observation>
    ghost var seen: seq<Moment>        // the moment of each observation
    ghost var turns: seq<Turn>         // what others did
    ghost var raised: seq<Failure>     // every exception raised, in order
    ghost var checked: set<string>     // container IDs that passed the identity check
    ghost var mounted: set<string>     // volumes such a container mounts as its state
    ghost var removals: seq<Removal>

    ghost predicate Valid()
      reads this
    {
      && Possible(world)
      && (forall id :: id in checked ==> id in world.known && BuilderIdentity(world.known[id], name, owner, image))
      && (forall v :: v in mounted ==> exists id :: id in checked && Associated(world.known[id], v))
      && Truthful(observations, seen, turns, world, name)
    }

    ghost predicate Justified(r: Removal)
      reads this`mounted
    {
      match r
      case RemovedContainer(c) => BuilderIdentity(c, name, owner, image)
      case RemovedVolume(v) => v == StateVolume(name) && (v in mounted || absentBefore)
    }

    /** No removal was issued but of an identified builder, or of a volume that is ours. */
    ghost predicate Careful()
      reads this`mounted, this`removals
    {
      forall k :: 0 <= k < |removals| ==> Justified(removals[k])
    }

    /** Unless others re-create one of the three objects meanwhile, those that are gone stay gone. */
    twostate predicate Lasts()
      reads this
    {
      && old(turns) <= turns
      && (Calm(turns, |old(turns)|, name) ==> StaysAbsent(old(world), world, name))
    }

    /** A failed call raised exactly the error it answers with; any other call raised nothing. */
    twostate predicate Raises(error: Option<Failure>)
      reads this
    {
      raised == if error.None? then old(raised) else old(raised) + [error.value]
    }

    constructor (name: string, owner: string, image: string, absentBefore: bool, world: World)
      requires Possible(world)
      ensures Valid() && Careful() && removals == [] && observations == [] && this.world == world
      ensures this.name == name && this.owner == owner && this.image == image && this.absentBefore == absentBefore
    {
      this.name, this.owner, this.image, this.absentBefore := name, owner, image, absentBefore;
      this.world, this.observations, this.seen, this.turns, this.raised := world, [], [], [], [];
      this.checked, this.mounted, this.removals := {}, {}, [];
    }

    method Others()
      requires Valid()
      modifies this`world, this`turns
      ensures Valid() && Lasts() && turns == old(turns) + [Turn(old(world), world)]
    {
      var next: World := *;
      ghost var was := world;
      if OthersMay(world, next) {
        world := next;
      }
      TurnKeepsTruth(observations, seen, turns, was, world, name);
      turns := turns + [Turn(was, world)];
      assert turns[|old(turns)|] == Turn(was, world);
    }

    /** Raising an exception. */
    method Fault() returns (f: Failure)
      modifies this`raised
      ensures Raises(Some(f))
    {
      var tag: int := *;
      var interrupt: bool := *;
      f := Failure(tag, interrupt);
      raised := raised + [f];
    }

    // ----- probes ----------------------------------------------------------------------

    /** None only while no container has the name; anything else must pass the identity check. */
    method ProbeBuilder() returns (r: Result<Option<Container>>)
      requires Valid()
      modifies this`world, this`turns, this`raised, this`checked
      ensures Valid() && Lasts() && Raises(ErrorOf(r)) && old(checked) <= checked
      ensures r == Ok(None) ==> ContainerAbsent(world, name)
      ensures r.Ok? && r.value.Some? ==> r.value.value.id in checked && world.known[r.value.value.id] == r.value.value
    {
      Others();
      var answered: bool := *;
      if !answered {
        var f := Fault();
        return Failed(f);
      }
      var found: seq<string> := *;   // the IDs that docker inspect reports
      if found == [] && ContainerAbsent(world, name) {
        return Ok(None);
      }
      if |found| != 1 || found[0] !in world.containers {
        var f := Fault();
        return Failed(f);
      }
      var item := world.containers[found[0]];
      if !BuilderIdentity(item, name, owner, image) {
        var f := Fault();
        return Failed(f);
      }
      checked := checked + {item.id};
      return Ok(Some(item));
    }

    method ProbeInstance() returns (r: Result<bool>)
      requires Valid()
      modifies this`world, this`turns, this`raised
      ensures Valid() && Lasts() && Raises(ErrorOf(r))
      ensures r.Ok? ==> (r.value <==> world.instance.Some?)
    {
      Others();
      if world.instance == Some(Link) || world.instance == Some(OtherFile) {
        var f := Fault();
        return Failed(f);
      }
      return Ok(world.instance.Some?);
    }

    method ProbeVolume() returns (r: Result<bool>)
      requires Valid()
      modifies this`world, this`turns, this`raised
      ensures Valid() && Lasts() && Raises(ErrorOf(r))
      ensures r.Ok? ==> (r.value <==> StateVolume(name) in world.volumes)
    {
      Others();
      var answered: bool := *;
      var volume := StateVolume(name);
      if !answered || (volume in world.volumes && world.volumes[volume] != Volume("local", "local", false)) {
        var f := Fault();
        return Failed(f);
      }
      return Ok(volume in world.volumes);
    }

    // ----- removals --------------------------------------------------------------------

    /** A command answers, whatever it did: it may fail after it took effect. */
    method Answer() returns (r: Result<()>)
      modifies this`raised
      ensures Raises(ErrorOf(r))
    {
      var ok: bool := *;
      if ok {
        return Ok(());
      }
      var f := Fault();
      return Failed(f);
    }

    /** The world with some of our objects removed. */
    method Shrink(next: World)
      requires Valid() && Possible(next) && next.known == world.known && StaysAbsent(world, next, name)
      modifies this`world
      ensures Valid() && world == next
    {
      RemovalKeepsTruth(observations, seen, turns, world, next, name);
      world := next;
    }

    /** docker rm --force ID: only for a container that passed the identity check. */
    method RemoveContainer(id: string) returns (r: Result<()>)
      requires Valid() && Careful() && id in checked
      modifies this`world, this`turns, this`raised, this`removals
      ensures Valid() && Careful() && Lasts() && Raises(ErrorOf(r))
      ensures removals == old(removals) + [RemovedContainer(old(world.known[id]))]
    {
      removals := removals + [RemovedContainer(world.known[id])];
      Others();
      var effective: bool := *;
      if effective {
        Shrink(world.(containers := world.containers - {id}));
      }
      r := Answer();
    }

    /** docker buildx rm --force NAME: the private instance metadata. */
    method RemoveInstance() returns (r: Result<()>)
      requires Valid()
      modifies this`world, this`turns, this`raised
      ensures Valid() && Lasts() && Raises(ErrorOf(r))
    {
      Others();
      var effective: bool := *;
      if effective {
        Shrink(world.(instance := None));
      }
      r := Answer();
    }

    /** docker volume rm VOLUME: only when the volume is ours. */
    method RemoveVolume() returns (r: Result<()>)
      requires Valid() && Careful() && (StateVolume(name) in mounted || absentBefore)
      modifies this`world, this`turns, this`raised, this`removals
      ensures Valid() && Careful() && Lasts() && Raises(ErrorOf(r))
      ensures removals == old(removals) + [RemovedVolume(StateVolume(name))]
    {
      removals := removals + [RemovedVolume(StateVolume(name))];
      DropVolume();
      r := Answer();
    }

    method DropVolume()
      requires Valid()
      modifies this`world, this`turns
      ensures Valid() && Lasts()
    {
      Others();
      var effective: bool := *;
      if effective {
        Shrink(world.(volumes := world.volumes - {StateVolume(name)}));
      }
    }

    // ----- recorded steps --------------------------------------------------------------

    method Begin(step: string, identity: string)
      requires Valid()
      modifies this`observations, this`seen
      ensures Valid()
      ensures observations == old(observations) + [Observation(step, identity, Started, None, None)]
    {
      var o := Observation(step, identity, Started, None, None);
      EntryKeepsTruth(observations, seen, turns, world, name, o, Moment(world, |turns|));
      observations := observations + [o];
      seen := seen + [Moment(world, |turns|)];
    }

    /** The last entry replaced; a completed step must be true now. */
    method Amend(o: Observation)
      requires Valid() && observations != [] && (o.status == Completed ==> Claims(o.step, world, name))
      modifies this`observations, this`seen
      ensures Valid() && observations == old(observations)[..|old(observations)| - 1] + [o]
    {
      var last := |observations| - 1;
      ShorterIsTruthful(observations, seen, turns, world, name);
      EntryKeepsTruth(observations[..last], seen[..last], turns, world, name, o, Moment(world, |turns|));
      observations := observations[..last] + [o];
      seen := seen[..last] + [Moment(world, |turns|)];
    }

    method Finish(error: Option<Failure>)
      requires Valid() && observations != []
      requires error.None? ==> Claims(observations[|observations| - 1].step, world, name)
      modifies this`observations, this`seen
      ensures Valid()
      ensures var last := |old(observations)| - 1;
              observations == old(observations)[..last]
                + [old(observations)[last].(status := if error.None? then Completed else StepFailed, error := error)]
    {
      Amend(observations[|observations| - 1].(status := if error.None? then Completed else StepFailed, error := error));
    }

    /** A step that claims nothing about the world. */
    predicate Plain(step: string) {
      step !in {"verify-container-absent", "probe-instance-container", "verify-instance-absent", "verify-volume-absent"}
    }

    method StepProbeBuilder(step: string) returns (r: Result<Option<Container>>)
      requires Valid() && Plain(step)
      modifies this`world, this`turns, this`raised, this`checked, this`observations, this`seen
      ensures Valid() && Lasts() && Raises(ErrorOf(r)) && old(checked) <= checked
      ensures r == Ok(None) ==> ContainerAbsent(world, name)
      ensures r.Ok? && r.value.Some? ==> r.value.value.id in checked && world.known[r.value.value.id] == r.value.value
      ensures observations == old(observations) + [Entry(step, name, ErrorOf(r))]
    {
      Begin(step, name);
      r := ProbeBuilder();
      Finish(ErrorOf(r));
    }

    /** The builder must not be there. */
    method ExpectNoBuilder() returns (r: Result<()>)
      requires Valid()
      modifies this`world, this`turns, this`raised, this`checked
      ensures Valid() && Lasts() && Raises(ErrorOf(r)) && old(checked) <= checked
      ensures r.Ok? ==> ContainerAbsent(world, name)
    {
      var item := ProbeBuilder();
      if item.Failed? {
        return Failed(item.error);
      }
      if item.value.Some? {
        var f := Fault();
        return Failed(f);
      }
      return Ok(());
    }

    method StepBuilderAbsent(step: string) returns (r: Result<()>)
      requires Valid() && (step == "verify-container-absent" || step == "probe-instance-container")
      modifies this`world, this`turns, this`raised, this`checked, this`observations, this`seen
      ensures Valid() && Lasts() && Raises(ErrorOf(r)) && old(checked) <= checked
      ensures r.Ok? ==> ContainerAbsent(world, name)
      ensures observations == old(observations) + [Entry(step, name, ErrorOf(r))]
    {
      Begin(step, name);
      r := ExpectNoBuilder();
      Finish(ErrorOf(r));
    }

    method StepRemoveContainer(id: string) returns (r: Result<()>)
      requires Valid() && Careful() && id in checked
      modifies this`world, this`turns, this`raised, this`removals, this`observations, this`seen
      ensures Valid() && Careful() && Lasts() && Raises(ErrorOf(r))
      ensures removals == old(removals) + [RemovedContainer(old(world.known[id]))]
      ensures observations == old(observations) + [Entry("remove-container", id, ErrorOf(r))]
    {
      Begin("remove-container", id);
      r := RemoveContainer(id);
      Finish(ErrorOf(r));
    }

    method StepRemoveInstance() returns (r: Result<()>)
      requires Valid()
      modifies this`world, this`turns, this`raised, this`observations, this`seen
      ensures Valid() && Lasts() && Raises(ErrorOf(r))
      ensures observations == old(observations) + [Entry("remove-instance", name, ErrorOf(r))]
    {
      Begin("remove-instance", name);
      r := RemoveInstance();
      Finish(ErrorOf(r));
    }

    method StepInstanceAbsent() returns (r: Result<()>)
      requires Valid()
      modifies this`world, this`turns, this`raised, this`observations, this`seen
      ensures Valid() && Lasts() && Raises(ErrorOf(r))
      ensures r.Ok? ==> world.instance.None?
      ensures observations == old(observations) + [Entry("verify-instance-absent", name, ErrorOf(r))]
    {
      Begin("verify-instance-absent", name);
      var present := ProbeInstance();
      if present.Failed? {
        r := Failed(present.error);
      } else if present.value {
        var f := Fault();
        r := Failed(f);
      } else {
        r := Ok(());
      }
      Finish(ErrorOf(r));
    }

    method StepProbeInstance(step: string) returns (r: Result<bool>)
      requires Valid() && Plain(step)
      modifies this`world, this`turns, this`raised, this`observations, this`seen
      ensures Valid() && Lasts() && Raises(ErrorOf(r))
      ensures r.Ok? ==> (r.value <==> world.instance.Some?)
      ensures observations == old(observations) + [Entry(step, name, ErrorOf(r))]
    {
      Begin(step, name);
      r := ProbeInstance();
      Finish(ErrorOf(r));
    }

    method StepProbeVolume(step: string) returns (r: Result<bool>)
      requires Valid() && Plain(step)
      modifies this`world, this`turns, this`raised, this`observations, this`seen
      ensures Valid() && Lasts() && Raises(ErrorOf(r))
      ensures r.Ok? ==> (r.value <==> StateVolume(name) in world.volumes)
      ensures observations == old(observations) + [Entry(step, StateVolume(name), ErrorOf(r))]
    {
      Begin(step, StateVolume(name));
      r := ProbeVolume();
      Finish(ErrorOf(r));
    }

    method StepRemoveVolume() returns (r: Result<()>)
      requires Valid() && Careful() && (StateVolume(name) in mounted || absentBefore)
      modifies this`world, this`turns, this`raised, this`removals, this`observations, this`seen
      ensures Valid() && Careful() && Lasts() && Raises(ErrorOf(r))
      ensures removals == old(removals) + [RemovedVolume(StateVolume(name))]
      ensures observations == old(observations) + [Entry("remove-volume", StateVolume(name), ErrorOf(r))]
    {
      Begin("remove-volume", StateVolume(name));
      r := RemoveVolume();
      Finish(ErrorOf(r));
    }

    method StepVolumeAbsent() returns (r: Result<()>)
      requires Valid()
      modifies this`world, this`turns, this`raised, this`observations, this`seen
      ensures Valid() && Lasts() && Raises(ErrorOf(r))
      ensures r.Ok? ==> StateVolume(name) !in world.volumes
      ensures observations == old(observations) + [Entry("verify-volume-absent", StateVolume(name), ErrorOf(r))]
    {
      Begin("verify-volume-absent", StateVolume(name));
      var present := ProbeVolume();
      if present.Failed? {
        r := Failed(present.error);
      } else if present.value {
        var f := Fault();
        r := Failed(f);
      } else {
        r := Ok(());
      }
      Finish(ErrorOf(r));
    }

    // ----- the run, in three parts -----------------------------------------------------

    /** The container, found, identified and associated with the volume. */
    method IdentifyContainer() returns (r: Result<Option<Container>>, ghost o: Observation)
      requires Valid() && Careful()
      modifies this`world, this`turns, this`raised, this`checked, this`mounted, this`observations, this`seen
      ensures Valid() && Careful() && old(mounted) <= mounted
      ensures Lasts() && Raises(ErrorOf(r))
      ensures r.Ok? && r.value.Some? ==> StateVolume(name) in mounted && r.value.value.id in checked
      ensures observations == old(observations) + [o]
      ensures Stopped([o]) && (r.Ok? ==> Done([o], ["probe-container"]))
    {
      r := StepProbeBuilder("probe-container");
      o := Entry("probe-container", name, ErrorOf(r));
      FirstEntry(o);
      if r.Ok? && r.value.Some? {
        if Associated(r.value.value, StateVolume(name)) {
          mounted := mounted + {StateVolume(name)};
        } else {
          var f := Fault();
          r := Failed(f);
        }
      }
    }

    lemma FirstEntry(o: Observation)
      requires o.step == "probe-container" && o.status in {Completed, StepFailed}
      ensures Stopped([o]) && (o.status == Completed ==> Done([o], ["probe-container"]))
    {
      ContainerOrder(true);
      OneMore([], [o], 0, [], o, true, true, true);
      assert [o][0..] == [o];
    }

    /** The container, removed by its ID. */
    method RemoveOwnedContainer() returns (r: Result<Option<Container>>)
      requires Valid() && Careful()
      modifies this
      ensures Valid() && Careful() && old(mounted) <= mounted && old(removals) <= removals
      ensures Lasts() && Raises(ErrorOf(r))
      ensures r.Ok? && r.value.Some? ==> StateVolume(name) in mounted
      ensures |old(observations)| <= |observations| && observations[..|old(observations)|] == old(observations)
      ensures var log := observations[|old(observations)|..];
              if r.Ok? then Done(log, ContainerSteps(r.value.Some?)) else Stopped(log)
    {
      ghost var start := |observations|;
      ghost var o;
      r, o := IdentifyContainer();
      assert observations[start..] == [o];
      if r.Ok? && r.value.Some? {
        var gone := RemoveIdentified(r.value.value, start);
        if gone.Failed? {
          r := Failed(gone.error);
        }
      }
    }

    /** The container that the probe identified. */
    method RemoveIdentified(c: Container, ghost start: nat) returns (r: Result<()>)
      requires Valid() && Careful() && c.id in checked
      requires start <= |observations| && Done(observations[start..], ["probe-container"])
      modifies this`world, this`turns, this`raised, this`removals, this`observations, this`seen
      ensures Valid() && Careful() && old(removals) <= removals
      ensures start <= |observations| && observations[..start] == old(observations)[..start]
      ensures Lasts() && Raises(ErrorOf(r))
      ensures if r.Ok? then Done(observations[start..], ContainerSteps(true)) else Stopped(observations[start..])
    {
      ContainerOrder(true);
      ghost var log := observations;
      r := StepRemoveContainer(c.id);
      OneMore(log, observations, start, ["probe-container"], Entry("remove-container", c.id, ErrorOf(r)),
              true, true, true);
    }

    /** The instance metadata: only while no container has the builder's name. */
    method RemoveOwnedInstance(ghost start: nat, ghost c: bool) returns (r: Result<bool>)
      requires Valid() && start <= |observations| && Done(observations[start..], ContainerSteps(c))
      modifies this`world, this`turns, this`raised, this`checked, this`observations, this`seen
      ensures Valid() && start <= |observations| && observations[..start] == old(observations)[..start]
      ensures Lasts() && Raises(ErrorOf(r))
      ensures if r.Ok? then Done(observations[start..], ContainerSteps(c) + InstanceSteps(r.value))
              else Stopped(observations[start..])
    {
      ghost var steps := ContainerSteps(c);
      InstanceOrder(c, true);
      var present := ProbeInstance();
      if present.Failed? {
        DoneIsStopped(observations[start..], steps, c, true, true);
        return Failed(present.error);
      }
      if !present.value {
        assert steps + InstanceSteps(false) == steps;
        return Ok(false);
      }
      var gone := DeleteInstance(start, c);
      return if gone.Failed? then Failed(gone.error) else Ok(true);
    }

    method DeleteInstance(ghost start: nat, ghost c: bool) returns (r: Result<()>)
      requires Valid() && start <= |observations| && Done(observations[start..], ContainerSteps(c))
      modifies this`world, this`turns, this`raised, this`checked, this`observations, this`seen
      ensures Valid() && start <= |observations| && observations[..start] == old(observations)[..start]
      ensures Lasts() && Raises(ErrorOf(r))
      ensures if r.Ok? then Done(observations[start..], ContainerSteps(c) + InstanceSteps(true))
              else Stopped(observations[start..])
    {
      ghost var steps := ContainerSteps(c);
      InstanceOrder(c, true);
      ghost var log := observations;
      r := StepBuilderAbsent("probe-instance-container");
      OneMore(log, observations, start, steps, Entry("probe-instance-container", name, ErrorOf(r)), c, true, true);
      if r.Failed? {
        return;
      }
      log := observations;
      r := StepRemoveInstance();
      OneMore(log, observations, start, steps + ["probe-instance-container"],
              Entry("remove-instance", name, ErrorOf(r)), c, true, true);
    }

    /** Instance and container are both looked for again. */
    method VerifyAbsence(ghost start: nat, ghost c: bool, ghost i: bool) returns (r: Result<()>)
      requires Valid() && start <= |observations|
      requires Done(observations[start..], ContainerSteps(c) + InstanceSteps(i))
      modifies this`world, this`turns, this`raised, this`checked, this`observations, this`seen
      ensures Valid() && start <= |observations| && observations[..start] == old(observations)[..start]
      ensures Lasts() && Raises(ErrorOf(r))
      ensures r.Ok? ==> ContainerAbsent(world, name) && (Calm(turns, |old(turns)|, name) ==> world.instance.None?)
      ensures if r.Ok? then Done(observations[start..], VolumeStart(c, i)) else Stopped(observations[start..])
    {
      ghost var steps := ContainerSteps(c) + InstanceSteps(i);
      AbsenceOrder(c, i, true);
      ghost var log := observations;
      r := StepInstanceAbsent();
      OneMore(log, observations, start, steps, Entry("verify-instance-absent", name, ErrorOf(r)), c, i, true);
      if r.Failed? {
        return;
      }
      log := observations;
      r := StepBuilderAbsent("verify-container-absent");
      OneMore(log, observations, start, steps + ["verify-instance-absent"],
              Entry("verify-container-absent", name, ErrorOf(r)), c, i, true);
    }

    /** The state volume: removed only when it was the owned container's, or absent before the builder was made. */
    method RemoveStateVolume(associated: bool, ghost start: nat, ghost c: bool, ghost i: bool)
      returns (r: Result<bool>)
      requires Valid() && Careful() && start <= |observations| && (associated ==> StateVolume(name) in mounted)
      requires Done(observations[start..], VolumeStart(c, i))
      modifies this`world, this`turns, this`raised, this`removals, this`observations, this`seen
      ensures Valid() && Careful() && old(removals) <= removals
      ensures start <= |observations| && observations[..start] == old(observations)[..start]
      ensures Lasts() && Raises(ErrorOf(r))
      ensures if r.Ok? then
                Done(observations[start..],
                     if r.value then (VolumeStart(c, i) + ["probe-volume"]) + ["remove-volume"]
                     else VolumeStart(c, i) + ["probe-volume"])
              else Stopped(observations[start..])
    {
      VolumeOrder(c, i, true);
      ghost var log := observations;
      var present := StepProbeVolume("probe-volume");
      OneMore(log, observations, start, VolumeStart(c, i), Entry("probe-volume", StateVolume(name), ErrorOf(present)),
              c, i, true);
      if present.Failed? || !present.value {
        return present;
      }
      var gone := DeleteStateVolume(associated, start, c, i);
      return if gone.Failed? then Failed(gone.error) else Ok(true);
    }

    method DeleteStateVolume(associated: bool, ghost start: nat, ghost c: bool, ghost i: bool) returns (r: Result<()>)
      requires Valid() && Careful() && start <= |observations| && (associated ==> StateVolume(name) in mounted)
      requires Done(observations[start..], VolumeStart(c, i) + ["probe-volume"])
      modifies this`world, this`turns, this`raised, this`removals, this`observations, this`seen
      ensures Valid() && Careful() && old(removals) <= removals
      ensures start <= |observations| && observations[..start] == old(observations)[..start]
      ensures Lasts() && Raises(ErrorOf(r))
      ensures if r.Ok? then Done(observations[start..], (VolumeStart(c, i) + ["probe-volume"]) + ["remove-volume"])
              else Stopped(observations[start..])
    {
      VolumeOrder(c, i, true);
      if !(associated || absentBefore) {
        DoneIsStopped(observations[start..], VolumeStart(c, i) + ["probe-volume"], c, i, true);
        var f := Fault();
        return Failed(f);
      }
      ghost var log := observations;
      r := StepRemoveVolume();
      OneMore(log, observations, start, VolumeStart(c, i) + ["probe-volume"],
              Entry("remove-volume", StateVolume(name), ErrorOf(r)), c, i, true);
    }

    method VerifyVolumeAbsence(ghost start: nat, ghost c: bool, ghost i: bool, ghost v: bool) returns (r: Result<()>)
      requires Valid() && start <= |observations|
      requires Done(observations[start..],
                    if v then (VolumeStart(c, i) + ["probe-volume"]) + ["remove-volume"]
                    else VolumeStart(c, i) + ["probe-volume"])
      modifies this`world, this`turns, this`raised, this`observations, this`seen
      ensures Valid() && start <= |observations| && observations[..start] == old(observations)[..start]
      ensures Lasts() && Raises(ErrorOf(r))
      ensures r.Ok? ==> StateVolume(name) !in world.volumes
      ensures if r.Ok? then Done(observations[start..], Steps(c, i, v)) else Stopped(observations[start..])
    {
      VolumeOrder(c, i, v);
      ghost var steps := if v then (VolumeStart(c, i) + ["probe-volume"]) + ["remove-volume"]
                         else VolumeStart(c, i) + ["probe-volume"];
      ghost var log := observations;
      r := StepVolumeAbsent();
      OneMore(log, observations, start, steps, Entry("verify-volume-absent", StateVolume(name), ErrorOf(r)), c, i, v);
    }

    /** The instance and the container, gone for good. */
    method ClearInstance(ghost start: nat, ghost c: bool) returns (r: Result<()>, ghost i: bool)
      requires Valid() && start <= |observations| && Done(observations[start..], ContainerSteps(c))
      modifies this`world, this`turns, this`raised, this`checked, this`observations, this`seen
      ensures Valid() && start <= |observations| && observations[..start] == old(observations)[..start]
      ensures Lasts() && Raises(ErrorOf(r))
      ensures r.Ok? ==> ContainerAbsent(world, name) && (Calm(turns, |old(turns)|, name) ==> world.instance.None?)
      ensures if r.Ok? then Done(observations[start..], VolumeStart(c, i)) else Stopped(observations[start..])
    {
      i := false;
      var instance := RemoveOwnedInstance(start, c);
      if instance.Failed? {
        r := Failed(instance.error);
      } else {
        i := instance.value;
        r := VerifyAbsence(start, c, i);
      }
    }

    /** The volume, gone for good. */
    method ClearVolume(associated: bool, ghost start: nat, ghost c: bool, ghost i: bool) returns (r: Result<()>)
      requires Valid() && Careful() && start <= |observations| && (associated ==> StateVolume(name) in mounted)
      requires Done(observations[start..], VolumeStart(c, i))
      modifies this`world, this`turns, this`raised, this`removals, this`observations, this`seen
      ensures Valid() && Careful() && old(removals) <= removals
      ensures start <= |observations| && observations[..start] == old(observations)[..start]
      ensures Lasts() && Raises(ErrorOf(r))
      ensures r.Ok? ==> StateVolume(name) !in world.volumes
      ensures if r.Ok? then exists v :: Done(observations[start..], Steps(c, i, v)) else Stopped(observations[start..])
    {
      var volume := RemoveStateVolume(associated, start, c, i);
      if volume.Failed? {
        r := Failed(volume.error);
      } else {
        r := VerifyVolumeAbsence(start, c, i, volume.value);
      }
    }

    /** Whatever fails: removals are justified and the log tells how far the run came. Only a full run returns. */
    method RemoveBuilderResources() returns (r: Result<Option<Container>>)
      requires Valid() && Careful()
      modifies this
      ensures Valid() && Careful() && old(observations) <= observations && old(removals) <= removals
      ensures Lasts() && Raises(ErrorOf(r))
      ensures r.Ok? ==> StateVolume(name) !in world.volumes
      ensures r.Ok? && Calm(turns, |old(turns)|, name) ==> AllAbsent(world, name)
      ensures var log := observations[|old(observations)|..];
              if r.Ok? then exists i, v :: Done(log, Steps(r.value.Some?, i, v)) else Stopped(log)
    {
      ghost var start, before := |observations|, observations;
      r := RemoveOwnedContainer();
      assert before == observations[..start];
      if r.Ok? {
        ghost var c := r.value.Some?;
        ghost var i;
        var cleared: Result<()>;
        cleared, i := ClearInstance(start, c);
        if cleared.Ok? {
          cleared := ClearVolume(r.value.Some?, start, c, i);
        }
        if cleared.Failed? {
          r := Failed(cleared.error);
        }
      }
      assert before == observations[..start];
    }

    // ----- the readback ----------------------------------------------------------------

    /** The end of one readback: record its finding, or that there is none. */
    method Conclude(r: Result<bool>)
      requires Valid() && observations != [] && Plain(observations[|observations| - 1].step)
      modifies this`observations, this`seen
      ensures Valid()
      ensures var last := |old(observations)| - 1;
              observations == old(observations)[..last] + [Concluded(old(observations)[last], r)]
    {
      Amend(Concluded(observations[|observations| - 1], r));
    }

    /** An inconclusive read is no absence; an interrupt leaves the entry as the step left it. */
    function Concluded(o: Observation, r: Result<bool>): Observation {
      match r
      case Ok(present) => o.(present := Some(present))
      case Failed(error) => if error.interrupt then o else o.(status := Inconclusive)
    }

    /** One readback of three. */
    method ReadBack(which: nat) returns (r: Result<bool>)
      requires Valid() && which < 3
      modifies this`world, this`turns, this`raised, this`checked, this`observations, this`seen
      ensures Valid() && Lasts() && Raises(ErrorOf(r)) && old(checked) <= checked
      ensures observations == old(observations) + [ReadbackEntry(which, r)]
    {
      if which == 0 {
        var item := StepProbeBuilder("readback-container");
        r := if item.Failed? then Failed(item.error) else Ok(item.value.Some?);
      } else if which == 1 {
        r := StepProbeInstance("readback-instance");
      } else {
        r := StepProbeVolume("readback-volume");
      }
      Conclude(r);
    }

    /** The entry of one readback: what it found, or unknown with its error; an interrupt leaves it failed. */
    ghost function ReadbackEntry(which: nat, r: Result<bool>): Observation {
      var step :=
        if which == 0 then "readback-container" else if which == 1 then "readback-instance" else "readback-volume";
      Concluded(Entry(step, if which == 2 then StateVolume(name) else name, ErrorOf(r)), r)
    }

    /** The entries of the readbacks, in order; all but the last were not interrupted. */
    ghost predicate ReadBacks(log: seq<Observation>, start: nat, answers: seq<Result<bool>>) {
      && |answers| <= 3 && |log| == start + |answers|
      && (forall k :: 0 <= k < |answers| ==> log[start + k] == ReadbackEntry(k, answers[k]))
      && (forall k :: 0 <= k < |answers| - 1 ==> !Interrupts(answers[k]))
    }

    lemma OneMoreReadBack(log: seq<Observation>, start: nat, answers: seq<Result<bool>>, answer: Result<bool>)
      requires ReadBacks(log, start, answers) && |answers| < 3
      requires answers != [] ==> !Interrupts(answers[|answers| - 1])
      ensures ReadBacks(log + [ReadbackEntry(|answers|, answer)], start, answers + [answer])
    {
    }

    /**
     * The handler of a failure: three readbacks that are recorded and forgotten, then the failure it was given is
     * raised again. Only an interrupt during a readback takes its place.
     */
    method HandleFailure(failure: Failure) returns (out: Failure, ghost answers: seq<Result<bool>>)
      requires Valid()
      modifies this`world, this`turns, this`raised, this`checked, this`observations, this`seen
      ensures Valid() && old(observations) <= observations && old(raised) <= raised
      ensures ReadBacks(observations, |old(observations)|, answers) && answers != []
      ensures if Interrupts(answers[|answers| - 1]) then
                out == answers[|answers| - 1].error && |raised| > |old(raised)| && out == raised[|raised| - 1]
              else |answers| == 3 && out == failure
    {
      answers := [];
      for which := 0 to 3
        invariant Valid() && old(observations) <= observations && old(raised) <= raised
        invariant |answers| == which && ReadBacks(observations, |old(observations)|, answers)
        invariant which > 0 ==> !Interrupts(answers[which - 1])
      {
        ghost var log := observations;
        var answer := ReadBack(which);
        OneMoreReadBack(log, |old(observations)|, answers, answer);
        answers := answers + [answer];
        if answer.Failed? && answer.error.interrupt {
          return answer.error, answers;
        }
      }
      out := failure;
    }

    /**
     * How a failed run ends: a stopped log from `start` on, then the readbacks; it raises the first error since error
     * number `first`, or the last one when a readback was interrupted.
     */
    ghost predicate Recovered(log: seq<Observation>, start: nat, errors: seq<Failure>, first: nat,
                              answers: seq<Result<bool>>, error: Failure)
    {
      && answers != [] && start + |answers| <= |log|
      && Stopped(log[start..|log| - |answers|]) && ReadBacks(log, |log| - |answers|, answers)
      && first < |errors| && error == errors[if Interrupts(answers[|answers| - 1]) then |errors| - 1 else first]
    }

    /** A recovered run raises another error than its first one exactly if a readback was interrupted by another one. */
    lemma FirstErrorIsReplacedExactly(log: seq<Observation>, start: nat, errors: seq<Failure>, first: nat,
                                      answers: seq<Result<bool>>, error: Failure)
      requires Recovered(log, start, errors, first, answers, error)
      ensures error != errors[first]
         <==> Interrupts(answers[|answers| - 1]) && errors[|errors| - 1] != errors[first]
    {
    }

    /** The log of a run whose first probe fails and whose first readback is interrupted. */
    ghost function InterruptedLog(failure: Failure, interrupt: Failure): seq<Observation> {
      [Entry("probe-container", name, Some(failure)), ReadbackEntry(0, Failed(interrupt))]
    }

    /** A run that does not raise the error that made it fail. */
    lemma InterruptReplacesTheFirstError(failure: Failure, interrupt: Failure)
      requires interrupt.interrupt && failure != interrupt
      ensures Recovered(InterruptedLog(failure, interrupt), 0, [failure, interrupt], 0, [Failed(interrupt)], interrupt)
      ensures InterruptedLog(failure, interrupt)[0].error == Some(failure) && interrupt != [failure, interrupt][0]
    {
      var log, answers := InterruptedLog(failure, interrupt), [Failed(interrupt)];
      var stopped := log[..|log| - |answers|];
      assert stopped == [Entry("probe-container", name, Some(failure))];
      assert Steps(false, false, false)[0] == "probe-container";
      assert StepNames(stopped) == ["probe-container"] <= Steps(false, false, false);
      assert ReadBacks(log, 1, answers);
    }

    lemma Recovers(began: seq<Observation>, stopped: seq<Observation>, log: seq<Observation>, earlier: seq<Failure>,
                   failure: Failure, errors: seq<Failure>, answers: seq<Result<bool>>, error: Failure)
      requires began <= stopped <= log && Stopped(stopped[|began|..]) && earlier + [failure] <= errors
      requires answers != [] && ReadBacks(log, |stopped|, answers)
      requires error == if Interrupts(answers[|answers| - 1]) then errors[|errors| - 1] else failure
      ensures Recovered(log, |began|, errors, |earlier|, answers, error)
    {
      LogGrew(began, stopped, log);
      FirstRaised(earlier, failure, errors);
      assert log[|began|..|log| - |answers|] == stopped[|began|..];
    }

    /** The handler, seen from the run that began with these logs. */
    method RecoverFrom(ghost began: seq<Observation>, ghost earlier: seq<Failure>, failure: Failure)
      returns (out: Failure, ghost answers: seq<Result<bool>>)
      requires Valid() && began <= observations && Stopped(observations[|began|..]) && raised == earlier + [failure]
      modifies this`world, this`turns, this`raised, this`checked, this`observations, this`seen
      ensures Valid() && began <= observations && earlier <= raised
      ensures Recovered(observations, |began|, raised, |earlier|, answers, out)
    {
      ghost var stopped := observations;
      out, answers := HandleFailure(failure);
      Recovers(began, stopped, observations, earlier, failure, raised, answers, out);
      LogGrew(began, stopped, observations);
      FirstRaised(earlier, failure, raised);
    }

    /**
     * A run that fails raises the very first error it met, whatever the readbacks after it did, unless one of them
     * was interrupted. A run that returns leaves no state volume, and no container or instance that others did not
     * re-create since it began.
     */
    method RemoveBuilder() returns (r: Result<Option<Container>>, ghost answers: seq<Result<bool>>)
      requires Valid() && Careful()
      modifies this
      ensures Valid() && Careful() && old(removals) <= removals && old(observations) <= observations
      ensures old(raised) <= raised
      ensures r.Ok? ==> raised == old(raised) && StateVolume(name) !in world.volumes
      ensures r.Ok? && Calm(turns, |old(turns)|, name) ==> AllAbsent(world, name)
      ensures r.Ok? ==> exists i, v ::
                Done(observations[|old(observations)|..], Steps(r.value.Some?, i, v))
      ensures r.Failed? ==> Recovered(observations, |old(observations)|, raised, |old(raised)|, answers, r.error)
    {
      ghost var began, earlier := observations, raised;
      r := RemoveBuilderResources();
      answers := [];
      if r.Failed? {
        var out;
        out, answers := RecoverFrom(began, earlier, r.error);
        r := Failed(out);
      }
    }
  }

  predicate Interrupts(r: Result<bool>) {
    r.Failed? && r.error.interrupt
  }
}
