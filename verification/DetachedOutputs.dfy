/** Publishing several verified outputs at once, by linking and then detaching them from staging. */
module DetachedOutputs {
  import opened Common
  import opened DiskModel
  import opened Publication

  /** What one publication is about: the staged names, their outputs, and the inodes to publish. */
  datatype Job = Job(env: Env, manners: Manners, staging: seq<string>, outputs: seq<string>, owned: seq<nat>)

  /** How a part of the run ends: all steps passed, one failed with an error that is caught, or an interrupt came. */
  datatype End = Passed | Failed | Cut

  datatype Progress = Progress(world: World, done: nat, end: End)

  // ----- the protocol, step by step ----------------------------------------------------

  predicate Shaped(u: Job) {
    |u.staging| == |u.outputs| == |u.owned|
  }

  function Ended(ok: bool): End {
    if ok then Passed else Failed
  }

  function LinkOne(u: Job, w: World, k: nat): Progress
    requires Shaped(u) && k < |u.outputs|
  {
    var here := OthersStep(u.env, u.manners, w);
    if Interrupted(u.env, here) then Progress(here, k, Cut)
    else
      var ok := Links(u.env, here, u.staging[k], u.outputs[k]);
      Progress(LinkStep(u.env, here, u.staging[k], u.outputs[k]), if ok then k + 1 else k, Ended(ok))
  }

  /** Linking the first n staged files to their outputs; done counts the links made. */
  function LinkFirst(u: Job, w: World, n: nat): (p: Progress)
    requires Shaped(u) && n <= |u.outputs|
    ensures p.done <= n && (p.end.Passed? ==> p.done == n)
  {
    if n == 0 then Progress(w, 0, Passed)
    else
      var p := LinkFirst(u, w, n - 1);
      if p.end.Passed? then LinkOne(u, p.world, n - 1) else p
  }

  function DetachOne(u: Job, w: World, k: nat): Progress
    requires Shaped(u) && k < |u.outputs|
  {
    var here := OthersStep(u.env, u.manners, w);
    if Interrupted(u.env, here) then Progress(here, k, Cut)
    else
      Progress(UnlinkStep(u.env, here, u.staging[k], u.owned[k]), k + 1, Ended(Unlinks(u.env, here, u.staging[k])))
  }

  /** Unlinking the first n staging names. */
  function DetachFirst(u: Job, w: World, n: nat): (p: Progress)
    requires Shaped(u) && n <= |u.outputs|
    ensures p.done <= n && (p.end.Passed? ==> p.done == n)
  {
    if n == 0 then Progress(w, 0, Passed)
    else
      var p := DetachFirst(u, w, n - 1);
      if p.end.Passed? then DetachOne(u, p.world, n - 1) else p
  }

  /** The name stands for an inode that has no other name. */
  predicate Unaliased(s: State, name: string) {
    name in s.names && LinkCount(s, s.names[name]) == 1
  }

  function CheckOne(u: Job, w: World, k: nat): Progress
    requires Shaped(u) && k < |u.outputs|
  {
    var here := OthersStep(u.env, u.manners, w);
    if Interrupted(u.env, here) then Progress(here, k, Cut)
    else Progress(LookStep(here, u.outputs[k]), k + 1, Ended(Unaliased(here.state, u.outputs[k])))
  }

  /** Looking at the first n outputs; each must have one link then. */
  function CheckFirst(u: Job, w: World, n: nat): (p: Progress)
    requires Shaped(u) && n <= |u.outputs|
    ensures p.done <= n && (p.end.Passed? ==> p.done == n)
  {
    if n == 0 then Progress(w, 0, Passed)
    else
      var p := CheckFirst(u, w, n - 1);
      if p.end.Passed? then CheckOne(u, p.world, n - 1) else p
  }

  /** Rolling back one output: unlinked if it is found to be ours; errors are suppressed, an interrupt is not. */
  function UndoOne(u: Job, w: World, k: nat): Progress
    requires Shaped(u) && k < |u.outputs|
  {
    var here := OthersStep(u.env, u.manners, w);
    if Interrupted(u.env, here) then Progress(here, k, Cut)
    else
      var looked := LookStep(here, u.outputs[k]);
      if Found(here, u.outputs[k]) == Some(u.owned[k]) then UndoFound(u, looked, k)
      else Progress(looked, k + 1, Passed)
  }

  /** The output was found to be ours. */
  function UndoFound(u: Job, w: World, k: nat): Progress
    requires Shaped(u) && k < |u.outputs|
  {
    var here := OthersStep(u.env, u.manners, w);
    if Interrupted(u.env, here) then Progress(here, k, Cut)
    else Progress(UnlinkStep(u.env, here, u.outputs[k], u.owned[k]), k + 1, Passed)
  }

  /** Rolling back the first n outputs; done counts those that were reached. */
  function UndoFirst(u: Job, w: World, n: nat): (p: Progress)
    requires Shaped(u) && n <= |u.outputs|
    ensures p.done <= n && (p.end.Passed? ==> p.done == n) && !p.end.Failed?
  {
    if n == 0 then Progress(w, 0, Passed)
    else
      var p := UndoFirst(u, w, n - 1);
      if p.end.Passed? then UndoOne(u, p.world, n - 1) else p
  }

  /** Everything up to the decision. */
  function Attempt(u: Job, w: World): (p: Progress)
    requires Shaped(u)
    ensures p.done <= |u.outputs|
  {
    var n := |u.outputs|;
    var linked := LinkFirst(u, w, n);
    if !linked.end.Passed? then linked
    else
      var detached := DetachFirst(u, linked.world, n);
      if !detached.end.Passed? then Progress(detached.world, n, detached.end)
      else
        var checked := CheckFirst(u, detached.world, n);
        Progress(checked.world, n, checked.end)
  }

  /** The whole publication: only a failure that is caught is rolled back, unless an interrupt stops that too. */
  function Publish(u: Job, w: World): Progress
    requires Shaped(u)
  {
    var p := Attempt(u, w);
    if !p.end.Failed? then p
    else
      var undone := UndoFirst(u, p.world, p.done);
      Progress(undone.world, p.done, if undone.end.Cut? then Cut else Failed)
  }

  // ----- the methods run it ------------------------------------------------------------

  lemma {:induction false} LinkStaysEnded(u: Job, w: World, i: nat, n: nat)
    requires Shaped(u) && i <= n <= |u.outputs| && !LinkFirst(u, w, i).end.Passed?
    ensures LinkFirst(u, w, n) == LinkFirst(u, w, i)
  {
    if i < n { LinkStaysEnded(u, w, i, n - 1); }
  }

  lemma {:induction false} DetachStaysEnded(u: Job, w: World, i: nat, n: nat)
    requires Shaped(u) && i <= n <= |u.outputs| && !DetachFirst(u, w, i).end.Passed?
    ensures DetachFirst(u, w, n) == DetachFirst(u, w, i)
  {
    if i < n { DetachStaysEnded(u, w, i, n - 1); }
  }

  lemma {:induction false} CheckStaysEnded(u: Job, w: World, i: nat, n: nat)
    requires Shaped(u) && i <= n <= |u.outputs| && !CheckFirst(u, w, i).end.Passed?
    ensures CheckFirst(u, w, n) == CheckFirst(u, w, i)
  {
    if i < n { CheckStaysEnded(u, w, i, n - 1); }
  }

  lemma {:induction false} UndoStaysEnded(u: Job, w: World, i: nat, n: nat)
    requires Shaped(u) && i <= n <= |u.outputs| && !UndoFirst(u, w, i).end.Passed?
    ensures UndoFirst(u, w, n) == UndoFirst(u, w, i)
  {
    if i < n { UndoStaysEnded(u, w, i, n - 1); }
  }

  lemma LinkNext(u: Job, w: World, n: nat)
    requires Shaped(u) && 0 < n <= |u.outputs| && LinkFirst(u, w, n - 1).end.Passed?
    ensures LinkFirst(u, w, n) == LinkOne(u, LinkFirst(u, w, n - 1).world, n - 1)
  {
  }

  lemma DetachNext(u: Job, w: World, n: nat)
    requires Shaped(u) && 0 < n <= |u.outputs| && DetachFirst(u, w, n - 1).end.Passed?
    ensures DetachFirst(u, w, n) == DetachOne(u, DetachFirst(u, w, n - 1).world, n - 1)
  {
  }

  lemma CheckNext(u: Job, w: World, n: nat)
    requires Shaped(u) && 0 < n <= |u.outputs| && CheckFirst(u, w, n - 1).end.Passed?
    ensures CheckFirst(u, w, n) == CheckOne(u, CheckFirst(u, w, n - 1).world, n - 1)
  {
  }

  lemma UndoNext(u: Job, w: World, n: nat)
    requires Shaped(u) && 0 < n <= |u.outputs| && UndoFirst(u, w, n - 1).end.Passed?
    ensures UndoFirst(u, w, n) == UndoOne(u, UndoFirst(u, w, n - 1).world, n - 1)
  {
  }

  /** The disk on which this job runs. */
  ghost predicate On(disk: Disk, u: Job)
    reads disk
  {
    disk.Valid() && disk.env == u.env && disk.manners == u.manners && Shaped(u)
  }

  /** The disk shows where a part of the run has come to. */
  ghost predicate Shows(disk: Disk, u: Job, p: Progress)
    reads disk
  {
    On(disk, u) && disk.world == p.world
  }

  method LinkOutput(disk: Disk, u: Job, k: nat) returns (end: End)
    requires On(disk, u) && k < |u.outputs|
    modifies disk
    ensures On(disk, u)
    ensures Progress(disk.world, if end.Passed? then k + 1 else k, end) == LinkOne(u, old(disk.world), k)
  {
    disk.Others();
    if Interrupted(disk.env, disk.world) { return Cut; }
    var ok := disk.Link(u.staging[k], u.outputs[k]);
    end := Ended(ok);
  }

  method LinkNextOutput(disk: Disk, u: Job, k: nat, ghost w: World) returns (end: End)
    requires On(disk, u) && k < |u.outputs| && LinkFirst(u, w, k) == Progress(disk.world, k, Passed)
    modifies disk
    ensures Shows(disk, u, LinkFirst(u, w, k + 1))
    ensures LinkFirst(u, w, k + 1) == Progress(disk.world, if end.Passed? then k + 1 else k, end)
    ensures !end.Passed? ==> LinkFirst(u, w, |u.outputs|) == LinkFirst(u, w, k + 1)
  {
    LinkNext(u, w, k + 1);
    end := LinkOutput(disk, u, k);
    if !end.Passed? { LinkStaysEnded(u, w, k + 1, |u.outputs|); }
  }

  /** Linking every staged file to its output, without replacing anything. */
  method LinkOutputs(disk: Disk, u: Job) returns (end: End, linked: nat)
    requires On(disk, u)
    modifies disk
    ensures On(disk, u) && Progress(disk.world, linked, end) == LinkFirst(u, old(disk.world), |u.outputs|)
  {
    linked := 0;
    while linked < |u.outputs|
      invariant linked <= |u.outputs| && On(disk, u)
      invariant LinkFirst(u, old(disk.world), linked) == Progress(disk.world, linked, Passed)
    {
      end := LinkNextOutput(disk, u, linked, old(disk.world));
      if !end.Passed? { return; }
      linked := linked + 1;
    }
    end := Passed;
  }

  method UnlinkStaged(disk: Disk, u: Job, k: nat) returns (end: End)
    requires On(disk, u) && k < |u.outputs|
    modifies disk
    ensures On(disk, u) && Progress(disk.world, if end.Cut? then k else k + 1, end) == DetachOne(u, old(disk.world), k)
  {
    disk.Others();
    if Interrupted(disk.env, disk.world) { return Cut; }
    var ok := disk.Unlink(u.staging[k], u.owned[k]);
    end := Ended(ok);
  }

  method UnlinkNext(disk: Disk, u: Job, k: nat, ghost w: World) returns (end: End)
    requires On(disk, u) && k < |u.outputs| && DetachFirst(u, w, k) == Progress(disk.world, k, Passed)
    modifies disk
    ensures Shows(disk, u, DetachFirst(u, w, k + 1)) && end == DetachFirst(u, w, k + 1).end
    ensures !end.Passed? ==> DetachFirst(u, w, |u.outputs|) == DetachFirst(u, w, k + 1)
  {
    DetachNext(u, w, k + 1);
    end := UnlinkStaged(disk, u, k);
    if !end.Passed? { DetachStaysEnded(u, w, k + 1, |u.outputs|); }
  }

  /** Unlinking the staging names. */
  method UnlinkStaging(disk: Disk, u: Job) returns (end: End)
    requires On(disk, u)
    modifies disk
    ensures Shows(disk, u, DetachFirst(u, old(disk.world), |u.outputs|))
    ensures end == DetachFirst(u, old(disk.world), |u.outputs|).end
  {
    for k := 0 to |u.staging|
      invariant On(disk, u) && DetachFirst(u, old(disk.world), k) == Progress(disk.world, k, Passed)
    {
      end := UnlinkNext(disk, u, k, old(disk.world));
      if !end.Passed? { return; }
    }
    end := Passed;
  }

  method CheckOutput(disk: Disk, u: Job, k: nat) returns (end: End)
    requires On(disk, u) && k < |u.outputs|
    modifies disk
    ensures On(disk, u) && Progress(disk.world, if end.Cut? then k else k + 1, end) == CheckOne(u, old(disk.world), k)
  {
    disk.Others();
    if Interrupted(disk.env, disk.world) { return Cut; }
    end := Ended(Unaliased(disk.world.state, u.outputs[k]));
    var _ := disk.Stat(u.outputs[k]);
  }

  method CheckNextOutput(disk: Disk, u: Job, k: nat, ghost w: World) returns (end: End)
    requires On(disk, u) && k < |u.outputs| && CheckFirst(u, w, k) == Progress(disk.world, k, Passed)
    modifies disk
    ensures Shows(disk, u, CheckFirst(u, w, k + 1)) && end == CheckFirst(u, w, k + 1).end
    ensures !end.Passed? ==> CheckFirst(u, w, |u.outputs|) == CheckFirst(u, w, k + 1)
  {
    CheckNext(u, w, k + 1);
    end := CheckOutput(disk, u, k);
    if !end.Passed? { CheckStaysEnded(u, w, k + 1, |u.outputs|); }
  }

  /** Every output must have one link when it is looked at. */
  method CheckUnaliased(disk: Disk, u: Job) returns (end: End)
    requires On(disk, u)
    modifies disk
    ensures Shows(disk, u, CheckFirst(u, old(disk.world), |u.outputs|))
    ensures end == CheckFirst(u, old(disk.world), |u.outputs|).end
  {
    for k := 0 to |u.outputs|
      invariant On(disk, u) && CheckFirst(u, old(disk.world), k) == Progress(disk.world, k, Passed)
    {
      end := CheckNextOutput(disk, u, k, old(disk.world));
      if !end.Passed? { return; }
    }
    end := Passed;
  }

  method RollbackOutput(disk: Disk, u: Job, k: nat) returns (end: End)
    requires On(disk, u) && k < |u.outputs|
    modifies disk
    ensures On(disk, u) && Progress(disk.world, if end.Cut? then k else k + 1, end) == UndoOne(u, old(disk.world), k)
  {
    disk.Others();
    if Interrupted(disk.env, disk.world) { return Cut; }
    var found := disk.Stat(u.outputs[k]);
    if found == Some(u.owned[k]) {
      disk.Others();
      if Interrupted(disk.env, disk.world) { return Cut; }
      var _ := disk.Unlink(u.outputs[k], u.owned[k]);
    }
    end := Passed;
  }

  method RollbackNext(disk: Disk, u: Job, k: nat, n: nat, ghost w: World) returns (end: End)
    requires On(disk, u) && k < n <= |u.outputs| && UndoFirst(u, w, k) == Progress(disk.world, k, Passed)
    modifies disk
    ensures Shows(disk, u, UndoFirst(u, w, k + 1)) && end == UndoFirst(u, w, k + 1).end
    ensures !end.Passed? ==> UndoFirst(u, w, n) == UndoFirst(u, w, k + 1)
  {
    UndoNext(u, w, k + 1);
    end := RollbackOutput(disk, u, k);
    if !end.Passed? { UndoStaysEnded(u, w, k + 1, n); }
  }

  /** Unlinking every output that is still found to be ours. */
  method RollbackOutputs(disk: Disk, u: Job, linked: nat) returns (end: End)
    requires On(disk, u) && linked <= |u.outputs|
    modifies disk
    ensures Shows(disk, u, UndoFirst(u, old(disk.world), linked))
    ensures end == UndoFirst(u, old(disk.world), linked).end
  {
    for k := 0 to linked
      invariant On(disk, u) && UndoFirst(u, old(disk.world), k) == Progress(disk.world, k, Passed)
    {
      end := RollbackNext(disk, u, k, linked, old(disk.world));
      if !end.Passed? { return; }
    }
    end := Passed;
  }

  /** publish_detached_outputs: runs the protocol exactly, in whatever way others, failing calls and interrupts act. */
  method PublishDetachedOutputs(disk: Disk, u: Job) returns (end: End)
    requires On(disk, u)
    modifies disk
    ensures On(disk, u)
    ensures var p := Publish(u, old(disk.world)); disk.world == p.world && end == p.end
  {
    var linked;
    end, linked := LinkOutputs(disk, u);
    if end.Passed? {
      end := UnlinkStaging(disk, u);
      if end.Passed? { end := CheckUnaliased(disk, u); }
    }
    if end.Failed? {
      var undone := RollbackOutputs(disk, u, linked);
      if undone.Cut? { end := Cut; }
    }
  }

  // ----- what every run keeps ----------------------------------------------------------

  /** The staging names stand for the inodes to publish, from index `from` on. */
  ghost predicate Staged(u: Job, s: State, from: nat)
    requires Shaped(u)
  {
    forall k :: from <= k < |u.staging| ==> StandsFor(s, u.staging[k], u.owned[k])
  }

  /** An output that stands for an inode of ours stands for its own one, and its number is below hi. */
  ghost predicate Placed(u: Job, s: State, hi: nat)
    requires Shaped(u)
  {
    forall k :: 0 <= k < |u.outputs| && Ours(s, u.outputs[k]) ==> k < hi && s.names[u.outputs[k]] == u.owned[k]
  }

  ghost predicate NamesApart(u: Job)
    requires Shaped(u)
  {
    && Distinct(u.staging) && Distinct(u.outputs)
    && forall i, j :: 0 <= i < |u.staging| && 0 <= j < |u.outputs| ==> u.staging[i] != u.outputs[j]
  }

  /** Others leave the staging names alone and cannot give an output one of our inodes. */
  ghost predicate Guarded(u: Job)
    requires Shaped(u)
  {
    && (forall k :: 0 <= k < |u.staging| ==> u.staging[k] in u.manners.private)
    && (forall k :: 0 <= k < |u.outputs| ==> u.outputs[k] in u.manners.guarded)
  }

  ghost predicate AllOurs(u: Job, s: State) {
    forall k :: 0 <= k < |u.owned| ==> u.owned[k] in s.ours
  }

  /** Between any two steps: the staging names from `from` on and the outputs below hi are in place. */
  ghost predicate Inv(u: Job, w: World, from: nat, hi: nat) {
    && Shaped(u) && NamesApart(u) && Guarded(u) && Sound(w.state) && Recorded(w) && AllOurs(u, w.state)
    && Staged(u, w.state, from) && Placed(u, w.state, hi)
  }

  /** Where a publication may begin: everything staged, no output one of ours. */
  ghost predicate Ready(u: Job, w: World) {
    Inv(u, w, 0, 0)
  }

  lemma OthersKeepInv(u: Job, w: World, from: nat, hi: nat)
    requires Inv(u, w, from, hi)
    ensures Inv(u, OthersStep(u.env, u.manners, w), from, hi)
    ensures OthersStep(u.env, u.manners, w).state.ours == w.state.ours
  {
    var a, b := w.state, OthersStep(u.env, u.manners, w).state;
    if OthersMay(a, b, u.manners) {
      OthersKeepPlaces(u, a, b, from, hi);
    }
  }

  lemma OthersKeepPlaces(u: Job, a: State, b: State, from: nat, hi: nat)
    requires Shaped(u) && Guarded(u) && OthersMay(a, b, u.manners)
    requires Staged(u, a, from) && Placed(u, a, hi)
    ensures Staged(u, b, from) && Placed(u, b, hi)
  {
    forall k | from <= k < |u.staging|
      ensures StandsFor(b, u.staging[k], u.owned[k])
    {
      assert Same(a.names, b.names, u.staging[k]);
    }
    forall k | 0 <= k < |u.outputs| && Ours(b, u.outputs[k])
      ensures k < hi && b.names[u.outputs[k]] == u.owned[k]
    {
      assert Same(a.names, b.names, u.outputs[k]);
    }
  }

  lemma LinkKeepsInv(u: Job, w: World, n: nat)
    requires Inv(u, w, 0, n) && n < |u.outputs|
    ensures var next := LinkStep(u.env, w, u.staging[n], u.outputs[n]);
            Inv(u, next, 0, if Links(u.env, w, u.staging[n], u.outputs[n]) then n + 1 else n)
  {
  }

  lemma UnlinkStagedKeepsInv(u: Job, w: World, n: nat, hi: nat)
    requires Inv(u, w, n, hi) && n < |u.staging|
    ensures Inv(u, UnlinkStep(u.env, w, u.staging[n], u.owned[n]), n + 1, hi)
  {
  }

  lemma UnlinkOutputKeepsInv(u: Job, w: World, k: nat, from: nat, hi: nat)
    requires Inv(u, w, from, hi) && k < |u.outputs|
    ensures Inv(u, UnlinkStep(u.env, w, u.outputs[k], u.owned[k]), from, hi)
  {
  }

  // ----- undisturbed outputs -----------------------------------------------------------

  /** Since step `start` no step of others changed the name while it stood for an inode of ours. */
  ghost predicate Undisturbed(w: World, start: nat, name: string)
    requires Recorded(w)
  {
    forall j :: start <= j < |w.events| ==> LeavesAlone(w, j, name)
  }

  ghost predicate LeavesAlone(w: World, j: nat, name: string)
    requires Recorded(w) && j < |w.events|
  {
    w.events[j].Foreign? && Ours(w.history[j], name) ==> Same(w.history[j].names, w.history[j + 1].names, name)
  }

  lemma UndisturbedAdd(w: World, e: Event, s: State, start: nat, name: string)
    requires Recorded(w) && start <= |w.events|
    ensures Undisturbed(Add(w, e, s), start, name)
       <==> Undisturbed(w, start, name) && (e.Foreign? && Ours(w.state, name) ==> Same(w.state.names, s.names, name))
  {
    var next, last := Add(w, e, s), |w.events|;
    assert next.history[last] == w.state && next.history[last + 1] == s && next.events[last] == e;
    assert LeavesAlone(next, last, name)
      <==> (e.Foreign? && Ours(w.state, name) ==> Same(w.state.names, s.names, name));
    forall j | start <= j < last
      ensures LeavesAlone(next, j, name) <==> LeavesAlone(w, j, name)
    {
      assert next.history[j] == w.history[j] && next.history[j + 1] == w.history[j + 1];
    }
  }

  /** A linked output stands for its own inode exactly while it is undisturbed, and one not yet linked is. */
  ghost predicate Exact(u: Job, w: World, start: nat, done: nat)
    requires Shaped(u) && Recorded(w)
  {
    forall k :: 0 <= k < |u.outputs| ==> ExactAt(u, w, start, done, k)
  }

  ghost predicate ExactAt(u: Job, w: World, start: nat, done: nat, k: nat)
    requires Shaped(u) && Recorded(w) && k < |u.outputs|
  {
    && (Undisturbed(w, start, u.outputs[k]) <==> (k < done ==> StandsFor(w.state, u.outputs[k], u.owned[k])))
    && (u.manners.gentle ==> Undisturbed(w, start, u.outputs[k]))
  }

  lemma OthersKeepExactAt(u: Job, w: World, start: nat, from: nat, done: nat, k: nat)
    requires Inv(u, w, from, done) && start <= |w.events| && k < |u.outputs| && ExactAt(u, w, start, done, k)
    ensures Recorded(OthersStep(u.env, u.manners, w)) && ExactAt(u, OthersStep(u.env, u.manners, w), start, done, k)
  {
    var next := OthersStep(u.env, u.manners, w);
    UndisturbedAdd(w, Foreign, next.state, start, u.outputs[k]);
    if OthersMay(w.state, next.state, u.manners) { assert u.outputs[k] in u.manners.guarded; }
  }

  lemma OthersKeepExact(u: Job, w: World, start: nat, from: nat, done: nat)
    requires Inv(u, w, from, done) && start <= |w.events| && Exact(u, w, start, done)
    ensures Inv(u, OthersStep(u.env, u.manners, w), from, done)
    ensures Exact(u, OthersStep(u.env, u.manners, w), start, done)
  {
    OthersKeepInv(u, w, from, done);
    forall k | 0 <= k < |u.outputs|
      ensures ExactAt(u, OthersStep(u.env, u.manners, w), start, done, k)
    {
      OthersKeepExactAt(u, w, start, from, done, k);
    }
  }

  /** Our own steps on other names change nothing about an output. */
  lemma OwnStepKeepsExact(u: Job, w: World, e: Event, s: State, start: nat, done: nat, k: nat)
    requires Shaped(u) && Recorded(w) && start <= |w.events| && k < |u.outputs| && ExactAt(u, w, start, done, k)
    requires !e.Foreign? && Same(w.state.names, s.names, u.outputs[k])
    ensures ExactAt(u, Add(w, e, s), start, done, k)
  {
    UndisturbedAdd(w, e, s, start, u.outputs[k]);
  }

  lemma LinkKeepsExact(u: Job, w: World, start: nat, n: nat)
    requires Inv(u, w, 0, n) && start <= |w.events| && n < |u.outputs| && Exact(u, w, start, n)
    ensures var next := LinkStep(u.env, w, u.staging[n], u.outputs[n]);
            var done := if Links(u.env, w, u.staging[n], u.outputs[n]) then n + 1 else n;
            Inv(u, next, 0, done) && Exact(u, next, start, done)
  {
    var next := LinkStep(u.env, w, u.staging[n], u.outputs[n]);
    var done := if Links(u.env, w, u.staging[n], u.outputs[n]) then n + 1 else n;
    LinkKeepsInv(u, w, n);
    forall k | 0 <= k < |u.outputs|
      ensures ExactAt(u, next, start, done, k)
    {
      assert ExactAt(u, w, start, n, k);
      UndisturbedAdd(w, next.events[|w.events|], next.state, start, u.outputs[k]);
    }
  }

  /** Linking so far, started in w. */
  ghost predicate Linking(u: Job, w: World, p: Progress) {
    && p.done <= |u.outputs| && Inv(u, p.world, 0, p.done) && w.events <= p.world.events
    && Exact(u, p.world, |w.events|, p.done)
  }

  lemma LinkOneIsExact(u: Job, w: World, p: Progress, next: Progress)
    requires Linking(u, w, p) && p.done < |u.outputs| && next == LinkOne(u, p.world, p.done)
    ensures Linking(u, w, next)
  {
    OthersKeepExact(u, p.world, |w.events|, 0, p.done);
    LinkKeepsExact(u, OthersStep(u.env, u.manners, p.world), |w.events|, p.done);
  }

  lemma {:induction false} LinkFirstIsExact(u: Job, w: World, n: nat)
    requires Ready(u, w) && n <= |u.outputs|
    ensures Linking(u, w, LinkFirst(u, w, n))
  {
    if n > 0 {
      LinkFirstIsExact(u, w, n - 1);
      var p := LinkFirst(u, w, n - 1);
      if p.end.Passed? {
        LinkOneIsExact(u, w, p, LinkFirst(u, w, n));
      }
    }
  }

  lemma UnlinkStagedKeepsExact(u: Job, w: World, start: nat, n: nat)
    requires Inv(u, w, n, |u.outputs|) && start <= |w.events| && n < |u.staging| && Exact(u, w, start, |u.outputs|)
    ensures var next := UnlinkStep(u.env, w, u.staging[n], u.owned[n]);
            Inv(u, next, n + 1, |u.outputs|) && Exact(u, next, start, |u.outputs|)
  {
    var next := UnlinkStep(u.env, w, u.staging[n], u.owned[n]);
    UnlinkStagedKeepsInv(u, w, n, |u.outputs|);
    forall k | 0 <= k < |u.outputs|
      ensures ExactAt(u, next, start, |u.outputs|, k)
    {
      OwnStepKeepsExact(u, w, next.events[|w.events|], next.state, start, |u.outputs|, k);
    }
  }

  lemma DetachOneIsExact(u: Job, w: World, start: nat, k: nat, next: Progress)
    requires Inv(u, w, k, |u.outputs|) && start <= |w.events| && Exact(u, w, start, |u.outputs|)
    requires k < |u.outputs| && next == DetachOne(u, w, k)
    ensures Inv(u, next.world, if next.end.Passed? then k + 1 else |u.outputs|, |u.outputs|)
    ensures w.events <= next.world.events && Exact(u, next.world, start, |u.outputs|)
  {
    OthersKeepExact(u, w, start, k, |u.outputs|);
    UnlinkStagedKeepsExact(u, OthersStep(u.env, u.manners, w), start, k);
  }

  lemma {:induction false} DetachFirstIsExact(u: Job, w: World, start: nat, n: nat)
    requires Inv(u, w, 0, |u.outputs|) && start <= |w.events| && Exact(u, w, start, |u.outputs|) && n <= |u.outputs|
    ensures var p := DetachFirst(u, w, n);
            && Inv(u, p.world, if p.end.Passed? then n else |u.outputs|, |u.outputs|) && w.events <= p.world.events
            && Exact(u, p.world, start, |u.outputs|)
  {
    if n > 0 {
      DetachFirstIsExact(u, w, start, n - 1);
      var p := DetachFirst(u, w, n - 1);
      if p.end.Passed? {
        DetachNext(u, w, n);
        DetachOneIsExact(u, p.world, start, n - 1, DetachFirst(u, w, n));
      }
    }
  }

  lemma LookKeepsExact(u: Job, w: World, name: string, start: nat, from: nat, done: nat)
    requires Inv(u, w, from, done) && start <= |w.events| && Exact(u, w, start, done)
    ensures Inv(u, LookStep(w, name), from, done) && Exact(u, LookStep(w, name), start, done)
  {
    forall k | 0 <= k < |u.outputs|
      ensures ExactAt(u, LookStep(w, name), start, done, k)
    {
      OwnStepKeepsExact(u, w, LookedUp(name, Found(w, name)), w.state, start, done, k);
    }
  }

  lemma {:induction false} CheckFirstIsExact(u: Job, w: World, start: nat, n: nat)
    requires Inv(u, w, |u.outputs|, |u.outputs|) && start <= |w.events| && Exact(u, w, start, |u.outputs|)
    requires n <= |u.outputs|
    ensures var p := CheckFirst(u, w, n);
            && Inv(u, p.world, |u.outputs|, |u.outputs|) && w.events <= p.world.events
            && Exact(u, p.world, start, |u.outputs|)
  {
    if n > 0 {
      CheckFirstIsExact(u, w, start, n - 1);
      var p := CheckFirst(u, w, n - 1);
      if p.end.Passed? {
        OthersKeepExact(u, p.world, start, |u.outputs|, |u.outputs|);
        LookKeepsExact(u, OthersStep(u.env, u.manners, p.world), u.outputs[n - 1], start, |u.outputs|, |u.outputs|);
      }
    }
  }

  lemma AttemptIsExact(u: Job, w: World)
    requires Ready(u, w)
    ensures var p := Attempt(u, w);
            && Inv(u, p.world, |u.outputs|, p.done) && w.events <= p.world.events
            && Exact(u, p.world, |w.events|, p.done)
  {
    var n, start := |u.outputs|, |w.events|;
    LinkFirstIsExact(u, w, n);
    var linked := LinkFirst(u, w, n);
    if linked.end.Passed? {
      DetachFirstIsExact(u, linked.world, start, n);
      var detached := DetachFirst(u, linked.world, n);
      if detached.end.Passed? { CheckFirstIsExact(u, detached.world, start, n); }
    }
  }

  /** Success leaves an output its own inode exactly if no step of others changed that name after its link. */
  lemma SuccessIsExact(u: Job, w: World, k: nat)
    requires Ready(u, w) && k < |u.outputs| && Publish(u, w).end.Passed?
    ensures Recorded(Publish(u, w).world)
    ensures StandsFor(Publish(u, w).world.state, u.outputs[k], u.owned[k])
       <==> Undisturbed(Publish(u, w).world, |w.events|, u.outputs[k])
  {
    AttemptIsExact(u, w);
    assert ExactAt(u, Attempt(u, w).world, |w.events|, |u.outputs|, k);
  }

  // ----- gentle others -----------------------------------------------------------------

  lemma GentleOthersKeepCounts(a: State, b: State, manners: Manners, inode: nat)
    requires OthersMay(a, b, manners) && manners.gentle && inode in a.ours
    ensures LinkCount(b, inode) == LinkCount(a, inode)
  {
    forall name
      ensures StandsFor(a, name, inode) <==> StandsFor(b, name, inode)
    {
      GentleOthersKeep(a, b, manners, name);
    }
    assert (set name | name in a.names && a.names[name] == inode)
        == (set name | name in b.names && b.names[name] == inode);
  }

  ghost predicate OneLinkEach(u: Job, s: State, n: nat) {
    forall j :: 0 <= j < n && j < |u.owned| ==> LinkCount(s, u.owned[j]) == 1
  }

  lemma GentleCheckOne(u: Job, w: World, start: nat, k: nat, next: Progress)
    requires Inv(u, w, |u.outputs|, |u.outputs|) && start <= |w.events| && Exact(u, w, start, |u.outputs|)
    requires u.manners.gentle && k < |u.outputs| && next == CheckOne(u, w, k) && next.end.Passed?
    requires OneLinkEach(u, w.state, k)
    ensures OneLinkEach(u, next.world.state, k + 1)
  {
    OthersKeepExact(u, w, start, |u.outputs|, |u.outputs|);
    var here := OthersStep(u.env, u.manners, w);
    assert ExactAt(u, here, start, |u.outputs|, k);
    forall j | 0 <= j < k
      ensures LinkCount(here.state, u.owned[j]) == 1
    {
      if OthersMay(w.state, here.state, u.manners) {
        GentleOthersKeepCounts(w.state, here.state, u.manners, u.owned[j]);
      }
    }
  }

  lemma {:induction false} GentleCheck(u: Job, w: World, start: nat, n: nat)
    requires Inv(u, w, |u.outputs|, |u.outputs|) && start <= |w.events| && Exact(u, w, start, |u.outputs|)
    requires u.manners.gentle && n <= |u.outputs| && CheckFirst(u, w, n).end.Passed?
    ensures OneLinkEach(u, CheckFirst(u, w, n).world.state, n)
  {
    if n > 0 {
      GentleCheck(u, w, start, n - 1);
      CheckFirstIsExact(u, w, start, n - 1);
      CheckNext(u, w, n);
      GentleCheckOne(u, CheckFirst(u, w, n - 1).world, start, n - 1, CheckFirst(u, w, n));
    }
  }

  /** With gentle others success means every output is its own inode, and that inode has no other name. */
  lemma GentleSuccess(u: Job, w: World)
    requires Ready(u, w) && u.manners.gentle && Publish(u, w).end.Passed?
    ensures var s := Publish(u, w).world.state;
            && OneLinkEach(u, s, |u.outputs|)
            && forall k :: 0 <= k < |u.outputs| ==> StandsFor(s, u.outputs[k], u.owned[k])
  {
    var n, start := |u.outputs|, |w.events|;
    AttemptIsExact(u, w);
    LinkFirstIsExact(u, w, n);
    DetachFirstIsExact(u, LinkFirst(u, w, n).world, start, n);
    GentleCheck(u, DetachFirst(u, LinkFirst(u, w, n).world, n).world, start, n);
    forall k | 0 <= k < n
      ensures StandsFor(Publish(u, w).world.state, u.outputs[k], u.owned[k])
    {
      assert ExactAt(u, Publish(u, w).world, start, n, k);
    }
  }

  // ----- what was unlinked -------------------------------------------------------------

  /**
   * An unlink at step j followed a step of others, before which the name stood for an inode of ours. What it removed
   * was ours exactly if that one step left the name alone.
   */
  ghost predicate UnlinkExact(u: Job, w: World, j: nat)
    requires Recorded(w) && j < |w.events|
  {
    var e := w.events[j];
    e.Unlinked? ==>
      && j > 0 && w.events[j - 1].Foreign?
      && StandsFor(w.history[j - 1], e.name, e.checked) && e.checked in w.state.ours
      && (e.inode in w.state.ours <==> Same(w.history[j - 1].names, w.history[j].names, e.name))
      && (u.manners.gentle ==> e.inode in w.state.ours)
  }

  ghost predicate UnlinksExact(u: Job, w: World, start: nat)
    requires Recorded(w)
  {
    forall j :: start <= j < |w.events| ==> UnlinkExact(u, w, j)
  }

  lemma OtherEventKeepsUnlinks(u: Job, w: World, e: Event, s: State, start: nat)
    requires Recorded(w) && UnlinksExact(u, w, start) && s.ours == w.state.ours && !e.Unlinked?
    ensures UnlinksExact(u, Add(w, e, s), start)
  {
    var next := Add(w, e, s);
    forall j | start <= j < |next.events|
      ensures UnlinkExact(u, next, j)
    {
      if j < |w.events| {
        assert UnlinkExact(u, w, j) && next.events[j] == w.events[j] && next.history[j] == w.history[j];
      }
    }
  }

  lemma OthersKeepUnlinks(u: Job, w: World, from: nat, hi: nat, start: nat)
    requires Inv(u, w, from, hi) && UnlinksExact(u, w, start)
    ensures Inv(u, OthersStep(u.env, u.manners, w), from, hi) && UnlinksExact(u, OthersStep(u.env, u.manners, w), start)
  {
    OthersKeepInv(u, w, from, hi);
    OtherEventKeepsUnlinks(u, w, Foreign, OthersStep(u.env, u.manners, w).state, start);
  }

  /** Others run once, then a name is unlinked that stood for one of ours before. */
  lemma UnlinkAfterOthers(u: Job, w: World, from: nat, hi: nat, start: nat, name: string, checked: nat)
    requires Inv(u, w, from, hi) && UnlinksExact(u, w, start) && (name in u.staging || name in u.outputs)
    requires StandsFor(w.state, name, checked) && checked in w.state.ours
    ensures var next := UnlinkStep(u.env, OthersStep(u.env, u.manners, w), name, checked);
            Recorded(next) && UnlinksExact(u, next, start)
  {
    var here := OthersStep(u.env, u.manners, w);
    var next := UnlinkStep(u.env, here, name, checked);
    OthersKeepUnlinks(u, w, from, hi, start);
    var last := |here.events|;
    assert next.history[last - 1] == here.history[last - 1] == w.state && next.history[last] == here.state;
    assert next.events[last - 1] == here.events[last - 1] == Foreign;
    if OthersMay(w.state, here.state, u.manners) { KeptIsOurs(u, w.state, here.state, name); }
    assert UnlinkExact(u, next, last);
    forall j | start <= j < last
      ensures UnlinkExact(u, next, j)
    {
      assert UnlinkExact(u, here, j) && next.events[j] == here.events[j] && next.history[j] == here.history[j];
    }
  }

  /** A name of this job that stood for one of ours does so after a step of others exactly if it was left alone. */
  lemma KeptIsOurs(u: Job, a: State, b: State, name: string)
    requires Shaped(u) && Guarded(u) && OthersMay(a, b, u.manners) && (name in u.staging || name in u.outputs)
    requires Ours(a, name)
    ensures Ours(b, name) <==> Same(a.names, b.names, name)
    ensures u.manners.gentle ==> Same(a.names, b.names, name)
  {
    if name in u.staging {
      assert Same(a.names, b.names, name);
    } else {
      assert name in u.manners.guarded;
    }
  }

  lemma {:induction false} LinkFirstUnlinksNothing(u: Job, w: World, start: nat, n: nat)
    requires Ready(u, w) && n <= |u.outputs| && UnlinksExact(u, w, start)
    ensures Recorded(LinkFirst(u, w, n).world) && UnlinksExact(u, LinkFirst(u, w, n).world, start)
  {
    LinkFirstIsExact(u, w, n);
    if n > 0 {
      LinkFirstUnlinksNothing(u, w, start, n - 1);
      var p := LinkFirst(u, w, n - 1);
      if p.end.Passed? {
        LinkFirstIsExact(u, w, n - 1);
        OthersKeepUnlinks(u, p.world, 0, n - 1, start);
        var here := OthersStep(u.env, u.manners, p.world);
        var next := LinkStep(u.env, here, u.staging[n - 1], u.outputs[n - 1]);
        OtherEventKeepsUnlinks(u, here, next.events[|here.events|], next.state, start);
      }
    }
  }

  lemma DetachOneUnlinks(u: Job, w: World, start: nat, k: nat, next: Progress)
    requires Inv(u, w, k, |u.outputs|) && k < |u.outputs| && UnlinksExact(u, w, start) && next == DetachOne(u, w, k)
    ensures Recorded(next.world) && UnlinksExact(u, next.world, start)
  {
    OthersKeepUnlinks(u, w, k, |u.outputs|, start);
    assert StandsFor(w.state, u.staging[k], u.owned[k]);
    UnlinkAfterOthers(u, w, k, |u.outputs|, start, u.staging[k], u.owned[k]);
  }

  lemma DetachNextUnlinks(u: Job, w: World, start: nat, n: nat, p: Progress, next: Progress)
    requires Inv(u, w, 0, |u.outputs|) && start <= |w.events| && Exact(u, w, start, |u.outputs|)
    requires 0 < n <= |u.outputs| && p == DetachFirst(u, w, n - 1) && next == DetachFirst(u, w, n) && p.end.Passed?
    requires Recorded(p.world) && UnlinksExact(u, p.world, start)
    ensures Recorded(next.world) && UnlinksExact(u, next.world, start)
  {
    DetachFirstIsExact(u, w, start, n - 1);
    DetachNext(u, w, n);
    DetachOneUnlinks(u, p.world, start, n - 1, next);
  }

  lemma {:induction false} DetachFirstUnlinks(u: Job, w: World, start: nat, n: nat)
    requires Inv(u, w, 0, |u.outputs|) && start <= |w.events| && Exact(u, w, start, |u.outputs|) && n <= |u.outputs|
    requires UnlinksExact(u, w, start)
    ensures Recorded(DetachFirst(u, w, n).world) && UnlinksExact(u, DetachFirst(u, w, n).world, start)
  {
    if n > 0 {
      DetachFirstUnlinks(u, w, start, n - 1);
      var p := DetachFirst(u, w, n - 1);
      if p.end.Passed? { DetachNextUnlinks(u, w, start, n, p, DetachFirst(u, w, n)); }
    }
  }

  lemma {:induction false} CheckFirstUnlinksNothing(u: Job, w: World, start: nat, n: nat)
    requires Inv(u, w, |u.outputs|, |u.outputs|) && start <= |w.events| && Exact(u, w, start, |u.outputs|)
    requires n <= |u.outputs| && UnlinksExact(u, w, start)
    ensures Recorded(CheckFirst(u, w, n).world) && UnlinksExact(u, CheckFirst(u, w, n).world, start)
  {
    if n > 0 {
      CheckFirstUnlinksNothing(u, w, start, n - 1);
      var p := CheckFirst(u, w, n - 1);
      if p.end.Passed? {
        CheckFirstIsExact(u, w, start, n - 1);
        OthersKeepUnlinks(u, p.world, |u.outputs|, |u.outputs|, start);
        var here := OthersStep(u.env, u.manners, p.world);
        OtherEventKeepsUnlinks(u, here, LookedUp(u.outputs[n - 1], Found(here, u.outputs[n - 1])), here.state, start);
      }
    }
  }

  lemma AttemptUnlinks(u: Job, w: World)
    requires Ready(u, w)
    ensures Recorded(Attempt(u, w).world) && UnlinksExact(u, Attempt(u, w).world, |w.events|)
  {
    var n, start := |u.outputs|, |w.events|;
    LinkFirstIsExact(u, w, n);
    LinkFirstUnlinksNothing(u, w, start, n);
    var linked := LinkFirst(u, w, n);
    if linked.end.Passed? {
      DetachFirstIsExact(u, linked.world, start, n);
      DetachFirstUnlinks(u, linked.world, start, n);
      var detached := DetachFirst(u, linked.world, n);
      if detached.end.Passed? { CheckFirstUnlinksNothing(u, detached.world, start, n); }
    }
  }

  // ----- rollback ----------------------------------------------------------------------

  /** An output that is still ours had its unlink refused. */
  ghost predicate UndoneAt(u: Job, w: World, start: nat, k: nat)
    requires Shaped(u) && Recorded(w) && k < |u.outputs|
  {
    Ours(w.state, u.outputs[k]) ==> UnlinkWasRefused(w, start, u.outputs[k])
  }

  ghost predicate Undone(u: Job, w: World, start: nat, n: nat)
    requires Shaped(u) && Recorded(w) && n <= |u.outputs|
  {
    forall k :: 0 <= k < n ==> UndoneAt(u, w, start, k)
  }

  lemma RefusalStays(w: World, e: Event, s: State, start: nat, name: string)
    requires Recorded(w) && UnlinkWasRefused(w, start, name)
    ensures UnlinkWasRefused(Add(w, e, s), start, name)
  {
    var j :| start <= j < |w.events| && FailedUnlink(w, j, name);
    var next := Add(w, e, s);
    assert next.events[j] == w.events[j] && next.history[j] == w.history[j];
    assert FailedUnlink(next, j, name);
  }

  /** A step that gives no output one of our inodes keeps what was undone. */
  lemma StepKeepsUndone(u: Job, w: World, e: Event, s: State, start: nat, n: nat)
    requires Shaped(u) && Recorded(w) && n <= |u.outputs| && Undone(u, w, start, n)
    requires forall k :: 0 <= k < n && Ours(s, u.outputs[k]) ==> Ours(w.state, u.outputs[k])
    ensures Undone(u, Add(w, e, s), start, n)
  {
    forall k | 0 <= k < n
      ensures UndoneAt(u, Add(w, e, s), start, k)
    {
      assert UndoneAt(u, w, start, k);
      if Ours(s, u.outputs[k]) { RefusalStays(w, e, s, start, u.outputs[k]); }
    }
  }

  lemma OthersKeepUndone(u: Job, w: World, from: nat, hi: nat, start: nat, n: nat)
    requires Inv(u, w, from, hi) && n <= |u.outputs| && Undone(u, w, start, n)
    ensures Recorded(OthersStep(u.env, u.manners, w)) && Undone(u, OthersStep(u.env, u.manners, w), start, n)
    ensures forall k :: 0 <= k < |u.outputs| && Ours(OthersStep(u.env, u.manners, w).state, u.outputs[k]) ==>
                          Ours(w.state, u.outputs[k])
  {
    var next := OthersStep(u.env, u.manners, w);
    forall k | 0 <= k < |u.outputs| && Ours(next.state, u.outputs[k])
      ensures Ours(w.state, u.outputs[k])
    {
      if OthersMay(w.state, next.state, u.manners) { assert Same(w.state.names, next.state.names, u.outputs[k]); }
    }
    StepKeepsUndone(u, w, Foreign, next.state, start, n);
  }

  /** The unlink of one output: afterwards it is not ours, or the unlink was refused. */
  lemma UnlinkUndoes(u: Job, w: World, from: nat, hi: nat, start: nat, k: nat)
    requires Inv(u, w, from, hi) && start <= |w.events| && k < |u.outputs| && Undone(u, w, start, k)
    ensures var next := UnlinkStep(u.env, w, u.outputs[k], u.owned[k]);
            Inv(u, next, from, hi) && Undone(u, next, start, k + 1)
  {
    var next := UnlinkStep(u.env, w, u.outputs[k], u.owned[k]);
    UnlinkOutputKeepsInv(u, w, k, from, hi);
    StepKeepsUndone(u, w, next.events[|w.events|], next.state, start, k);
    assert next.history[|w.events|] == w.state;
    if Ours(next.state, u.outputs[k]) { assert FailedUnlink(next, |w.events|, u.outputs[k]); }
    assert UndoneAt(u, next, start, k);
  }

  /** Rolling back, with the first n outputs done and nothing done to the others. */
  ghost predicate Undoing(u: Job, w: World, from: nat, hi: nat, start: nat, n: nat) {
    && Inv(u, w, from, hi) && start <= |w.events| && n <= |u.outputs|
    && Undone(u, w, start, n) && UnlinksExact(u, w, start) && ExactFrom(u, w, start, hi, n)
  }

  ghost predicate ExactFrom(u: Job, w: World, start: nat, hi: nat, n: nat)
    requires Shaped(u) && Recorded(w)
  {
    forall k :: n <= k < |u.outputs| ==> ExactAt(u, w, start, hi, k)
  }

  lemma OthersKeepUndoing(u: Job, w: World, from: nat, hi: nat, start: nat, n: nat)
    requires Undoing(u, w, from, hi, start, n)
    ensures Undoing(u, OthersStep(u.env, u.manners, w), from, hi, start, n)
  {
    OthersKeepUnlinks(u, w, from, hi, start);
    OthersKeepUndone(u, w, from, hi, start, n);
    forall k | n <= k < |u.outputs|
      ensures ExactAt(u, OthersStep(u.env, u.manners, w), start, hi, k)
    {
      OthersKeepExactAt(u, w, start, from, hi, k);
    }
  }

  lemma LookKeepsUndoing(u: Job, w: World, name: string, from: nat, hi: nat, start: nat, n: nat)
    requires Undoing(u, w, from, hi, start, n)
    ensures Undoing(u, LookStep(w, name), from, hi, start, n)
  {
    var e := LookedUp(name, Found(w, name));
    StepKeepsUndone(u, w, e, w.state, start, n);
    OtherEventKeepsUnlinks(u, w, e, w.state, start);
    forall k | n <= k < |u.outputs|
      ensures ExactAt(u, LookStep(w, name), start, hi, k)
    {
      OwnStepKeepsExact(u, w, e, w.state, start, hi, k);
    }
  }

  lemma UnlinkKeepsOthersExact(u: Job, w: World, from: nat, hi: nat, start: nat, k: nat)
    requires Undoing(u, w, from, hi, start, k) && k < |u.outputs|
    ensures Recorded(UnlinkStep(u.env, w, u.outputs[k], u.owned[k]))
    ensures ExactFrom(u, UnlinkStep(u.env, w, u.outputs[k], u.owned[k]), start, hi, k + 1)
  {
    var next := UnlinkStep(u.env, w, u.outputs[k], u.owned[k]);
    forall i | k + 1 <= i < |u.outputs|
      ensures ExactAt(u, next, start, hi, i)
    {
      OwnStepKeepsExact(u, w, next.events[|w.events|], next.state, start, hi, i);
    }
  }

  lemma UndoFoundWorks(u: Job, w: World, from: nat, hi: nat, start: nat, k: nat, after: Progress)
    requires Undoing(u, w, from, hi, start, k) && k < |u.outputs| && after == UndoFound(u, w, k)
    requires AllOurs(u, w.state) && StandsFor(w.state, u.outputs[k], u.owned[k])
    ensures Undoing(u, after.world, from, hi, start, after.done)
  {
    var here := OthersStep(u.env, u.manners, w);
    OthersKeepUndoing(u, w, from, hi, start, k);
    if !Interrupted(u.env, here) {
      UnlinkAfterOthers(u, w, from, hi, start, u.outputs[k], u.owned[k]);
      UnlinkUndoes(u, here, from, hi, start, k);
      UnlinkKeepsOthersExact(u, here, from, hi, start, k);
    }
  }

  lemma UndoOneWorks(u: Job, w: World, from: nat, hi: nat, start: nat, k: nat, after: Progress)
    requires Undoing(u, w, from, hi, start, k) && k < |u.outputs| && after == UndoOne(u, w, k)
    ensures Undoing(u, after.world, from, hi, start, after.done)
  {
    var here := OthersStep(u.env, u.manners, w);
    OthersKeepUndoing(u, w, from, hi, start, k);
    if !Interrupted(u.env, here) {
      var looked := LookStep(here, u.outputs[k]);
      LookKeepsUndoing(u, here, u.outputs[k], from, hi, start, k);
      if Found(here, u.outputs[k]) == Some(u.owned[k]) {
        UndoFoundWorks(u, looked, from, hi, start, k, after);
      } else {
        assert UndoneAt(u, looked, start, k);
      }
    }
  }

  lemma {:induction false} UndoFirstWorks(u: Job, w: World, from: nat, hi: nat, start: nat, n: nat, after: Progress)
    requires Undoing(u, w, from, hi, start, 0) && n <= |u.outputs| && after == UndoFirst(u, w, n)
    ensures Undoing(u, after.world, from, hi, start, after.done)
    decreases n
  {
    if n == 0 {
      assert after == Progress(w, 0, Passed);
    } else {
      var before := UndoFirst(u, w, n - 1);
      UndoFirstWorks(u, w, from, hi, start, n - 1, before);
      if before.end.Passed? { UndoOneWorks(u, before.world, from, hi, start, n - 1, after); }
    }
  }

  /** How many outputs the rollback had dealt with when the run ended. */
  function Reached(u: Job, w: World): nat
    requires Shaped(u)
  {
    var p := Attempt(u, w);
    if p.end.Failed? then UndoFirst(u, p.world, p.done).done else 0
  }

  lemma PublishWorks(u: Job, w: World)
    requires Ready(u, w)
    ensures Undoing(u, Publish(u, w).world, |u.outputs|, Publish(u, w).done, |w.events|, Reached(u, w))
  {
    var p := Attempt(u, w);
    AttemptIsExact(u, w);
    AttemptUnlinks(u, w);
    if p.end.Failed? {
      UndoFirstWorks(u, p.world, |u.outputs|, p.done, |w.events|, p.done, UndoFirst(u, p.world, p.done));
    }
  }

  /**
   * After a failure that was caught an output stands for an inode of ours only if its own unlink was refused, whatever
   * others did. So when no unlink of an output was refused, none is left.
   */
  lemma FailureLeavesNone(u: Job, w: World, k: nat)
    requires Ready(u, w) && k < |u.outputs| && Publish(u, w).end.Failed?
    ensures Recorded(Publish(u, w).world)
    ensures Ours(Publish(u, w).world.state, u.outputs[k]) ==>
              UnlinkWasRefused(Publish(u, w).world, |w.events|, u.outputs[k])
  {
    PublishWorks(u, w);
    if k < Publish(u, w).done { assert UndoneAt(u, Publish(u, w).world, |w.events|, k); }
  }

  /**
   * An interrupt ends the run without a rollback, or ends the rollback. An output that was not dealt with then is still
   * its own inode exactly if it had been linked and no step of others changed it since; the ones dealt with are as
   * after any failure.
   */
  lemma InterruptLeavesOutputs(u: Job, w: World, k: nat)
    requires Ready(u, w) && k < |u.outputs| && Publish(u, w).end.Cut?
    ensures Recorded(Publish(u, w).world)
    ensures k >= Reached(u, w) ==>
              (StandsFor(Publish(u, w).world.state, u.outputs[k], u.owned[k])
               <==> k < Publish(u, w).done && Undisturbed(Publish(u, w).world, |w.events|, u.outputs[k]))
    ensures k < Reached(u, w) && Ours(Publish(u, w).world.state, u.outputs[k]) ==>
              UnlinkWasRefused(Publish(u, w).world, |w.events|, u.outputs[k])
  {
    PublishWorks(u, w);
    if k < Reached(u, w) {
      assert UndoneAt(u, Publish(u, w).world, |w.events|, k);
    } else {
      assert ExactAt(u, Publish(u, w).world, |w.events|, Publish(u, w).done, k);
    }
  }

  /** Every unlink of a run, however it ends, is exact in this sense; with gentle others nothing foreign is unlinked. */
  lemma UnlinksAreExact(u: Job, w: World)
    requires Ready(u, w)
    ensures Recorded(Publish(u, w).world) && UnlinksExact(u, Publish(u, w).world, |w.events|)
  {
    PublishWorks(u, w);
  }

  // ----- three runs ----------------------------------------------------

  const F := File([], true)

  /**
   * One staged file, inode 1, and one output; at step `at` others put inode 2 in its place, leaving these names; one
   * step of ours fails and one is interrupted.
   */
  function Rough(at: nat, failing: nat, cut: nat, left: map<string, nat>): Job {
    var idle, replaced := State(map[], map[], {}), Replaced(left);
    Job(i => Move(if i == at then replaced else idle, i == failing, i == cut, 0, 0),
        Manners({"out"}, {"staged"}, false), ["staged"], ["out"], [1])
  }

  function Replaced(left: map<string, nat>): State {
    State(left["out" := 2], map[1 := F, 2 := F], {1})
  }

  function Beginning(): World {
    var s := State(map["staged" := 1], map[1 := F], {1});
    World(s, [s], [])
  }

  /** A step at which others do nothing they may. */
  lemma IdleStep(u: Job, at: nat, failing: nat, cut: nat, left: map<string, nat>, w: World)
    requires u == Rough(at, failing, cut, left) && |w.events| != at && w.state.ours == {1}
    ensures OthersStep(u.env, u.manners, w) == Add(w, Foreign, w.state)
  {
  }

  /** The step in which others replace the output. */
  lemma ReplacingStep(u: Job, failing: nat, cut: nat, left: map<string, nat>, w: World)
    requires u == Rough(|w.events|, failing, cut, left) && w.state.ours == {1} && w.state.files == map[1 := F]
    requires Same(w.state.names, left, "staged") && forall name :: name in left ==> left[name] == 1
    ensures OthersStep(u.env, u.manners, w) == Add(w, Foreign, Replaced(left))
  {
    assert OthersMay(w.state, Replaced(left), u.manners);
  }

  /** The link, for any later steps. */
  lemma RoughLinks(u: Job, at: nat, failing: nat, cut: nat, left: map<string, nat>) returns (w: World)
    requires u == Rough(at, failing, cut, left) && at > 1 && failing > 1 && cut > 1
    ensures Ready(u, Beginning()) && LinkFirst(u, Beginning(), 1) == Progress(w, 1, Passed)
    ensures w.events == [Foreign, Linked("out", 1)]
    ensures w.state == State(map["staged" := 1, "out" := 1], map[1 := F], {1})
  {
    IdleStep(u, at, failing, cut, left, Beginning());
    var here := OthersStep(u.env, u.manners, Beginning());
    w := LinkStep(u.env, here, "staged", "out");
    assert LinkFirst(u, Beginning(), 0) == Progress(Beginning(), 0, Passed);
    assert map["staged" := 1]["out" := 1] == map["staged" := 1, "out" := 1];
  }

  /** The first run up to the check: the staging name unlinked, others idle so far. */
  lemma RoughDetaches(u: Job) returns (w: World)
    requires u == Rough(4, 9, 9, map[])
    ensures LinkFirst(u, Beginning(), 1).end.Passed?
    ensures DetachFirst(u, LinkFirst(u, Beginning(), 1).world, 1) == Progress(w, 1, Passed)
    ensures |w.events| == 4 && w.state == State(map["out" := 1], map[1 := F], {1})
  {
    var linked := RoughLinks(u, 4, 9, 9, map[]);
    IdleStep(u, 4, 9, 9, map[], linked);
    var here := OthersStep(u.env, u.manners, linked);
    w := UnlinkStep(u.env, here, "staged", 1);
    assert DetachFirst(u, linked, 0) == Progress(linked, 0, Passed);
    assert map["staged" := 1, "out" := 1] - {"staged"} == map["out" := 1];
  }

  /** A run that succeeds although its output is foreign: others replaced it just before the link-count check. */
  lemma RoughOthersCanReplaceAnOutput()
    ensures var u := Rough(4, 9, 9, map[]);
            var p := Publish(u, Beginning());
            Ready(u, Beginning()) && p.end.Passed? && StandsFor(p.world.state, "out", 2) && 2 !in p.world.state.ours
  {
    var u := Rough(4, 9, 9, map[]);
    var linked := RoughLinks(u, 4, 9, 9, map[]);
    var detached := RoughDetaches(u);
    ReplacingStep(u, 9, 9, map[], detached);
    var here := OthersStep(u.env, u.manners, detached);
    assert (set name | name in here.state.names && here.state.names[name] == 2) == {"out"};
    assert CheckFirst(u, detached, 0) == Progress(detached, 0, Passed);
    assert Unaliased(here.state, "out");
    assert CheckFirst(u, detached, 1) == Progress(LookStep(here, "out"), 1, Passed);
  }

  /** The second run up to its rollback: the staging name could not be unlinked. */
  lemma RoughFails(u: Job) returns (w: World)
    requires u == Rough(6, 3, 9, map["staged" := 1])
    ensures Ready(u, Beginning()) && Attempt(u, Beginning()) == Progress(w, 1, Failed)
    ensures |w.events| == 4 && w.state == State(map["staged" := 1, "out" := 1], map[1 := F], {1})
  {
    var linked := RoughLinks(u, 6, 3, 9, map["staged" := 1]);
    IdleStep(u, 6, 3, 9, map["staged" := 1], linked);
    var here := OthersStep(u.env, u.manners, linked);
    w := UnlinkStep(u.env, here, "staged", 1);
    assert DetachFirst(u, linked, 0) == Progress(linked, 0, Passed);
    assert DetachFirst(u, linked, 1) == Progress(w, 1, Failed);
  }

  /** A run that unlinks a foreign inode: others replaced the output between the rollback's look and its unlink. */
  lemma RoughOthersCanLoseAFile()
    ensures var u := Rough(6, 3, 9, map["staged" := 1]);
            var w := Publish(u, Beginning()).world;
            Ready(u, Beginning()) && |w.events| == 8 && w.events[7] == Unlinked("out", 2, 1) && 2 !in w.state.ours
  {
    var u, left := Rough(6, 3, 9, map["staged" := 1]), map["staged" := 1];
    var failed := RoughFails(u);
    IdleStep(u, 6, 3, 9, left, failed);
    var looked := LookStep(OthersStep(u.env, u.manners, failed), "out");
    ReplacingStep(u, 3, 9, left, looked);
    var here := OthersStep(u.env, u.manners, looked);
    assert UndoFirst(u, failed, 0) == Progress(failed, 0, Passed);
    assert UndoFirst(u, failed, 1) == Progress(UnlinkStep(u.env, here, "out", 1), 1, Passed);
  }

  /** A run that leaves its output behind: interrupted before the staging name is unlinked, it rolls nothing back. */
  lemma InterruptLeavesAnOutput()
    ensures var u := Rough(9, 9, 3, map[]);
            var p := Publish(u, Beginning());
            && Ready(u, Beginning()) && p.end.Cut? && StandsFor(p.world.state, "out", 1) && 1 in p.world.state.ours
            && p.world.events == [Foreign, Linked("out", 1), Foreign]
  {
    var u := Rough(9, 9, 3, map[]);
    var linked := RoughLinks(u, 9, 9, 3, map[]);
    IdleStep(u, 9, 9, 3, map[], linked);
    var here := OthersStep(u.env, u.manners, linked);
    assert DetachFirst(u, linked, 0) == Progress(linked, 0, Passed);
    assert DetachFirst(u, linked, 1) == Progress(here, 0, Cut);
  }
}
