/** Publishing a complete record under a final name: pending file, sync, no-clobber link, rollback. */
module Publication {
  import opened Common
  import opened DiskModel

  const MAX_METADATA := 256 * 1024

  /** If the final name stands for an inode made by this call, it holds the complete record, and durably so. */
  ghost predicate Complete(s: State, path: string, before: set<nat>, raw: Bytes) {
    path in s.names && s.names[path] in s.ours - before ==>
      s.names[path] in s.files && s.files[s.names[path]] == File(raw, true)
  }

  /** This holds in every state since the call began: whichever of them a crash leaves behind. */
  ghost predicate AlwaysComplete(history: seq<State>, start: nat, path: string, before: set<nat>, raw: Bytes) {
    forall k :: start <= k < |history| ==> Complete(history[k], path, before, raw)
  }

  ghost predicate HoldsNew(s: State, path: string, before: set<nat>) {
    path in s.names && s.names[path] in s.ours - before
  }

  /** The new inodes are just mine, and it is finished. */
  ghost predicate Finished(s: State, before: set<nat>, mine: nat, raw: Bytes) {
    mine !in before && s.ours == before + {mine} && mine in s.files && s.files[mine] == File(raw, true)
  }

  /** Under gentle others a name keeps standing for an inode of ours, or for none of ours. */
  ghost predicate Kept(a: State, b: State, name: string) {
    && (Ours(a, name) ==> name in b.names && b.names[name] == a.names[name])
    && (Ours(b, name) ==> name in a.names && a.names[name] == b.names[name])
  }

  ghost predicate OursUntouched(a: State, b: State) {
    && b.ours == a.ours
    && forall inode :: inode in a.ours ==> inode in a.files && inode in b.files && b.files[inode] == a.files[inode]
  }

  // ----- the log of one call -----------------------------------------------------------

  /** A publication is under way: the call began at step `start`, when our inodes were `before`. */
  ghost predicate UnderWay(disk: Disk, start: nat, path: string, before: set<nat>, raw: Bytes)
    reads disk
  {
    && disk.Valid() && path in disk.manners.guarded && start <= |disk.world.events|
    && AlwaysComplete(disk.world.history, start, path, before, raw)
  }

  /** Everything linked or unlinked since step `start` is this one name. */
  ghost predicate OnlyTouches(events: seq<Event>, start: nat, path: string) {
    forall j :: start <= j < |events| && (events[j].Linked? || events[j].Unlinked?) ==> events[j].name == path
  }

  /** Nothing but inodes made since then was unlinked. */
  ghost predicate UnlinksOnlyNew(events: seq<Event>, start: nat, s: State, before: set<nat>) {
    forall j :: start <= j < |events| && events[j].Unlinked? ==> events[j].inode in s.ours - before
  }

  /** The pending name was looked up and no longer stood for the inode made for it. */
  ghost predicate PendingWasLost(events: seq<Event>, start: nat, pending: string, s: State, before: set<nat>) {
    exists j :: start <= j < |events| && LostPending(events[j], pending, s, before)
  }

  ghost predicate LostPending(e: Event, pending: string, s: State, before: set<nat>) {
    e.LookedUp? && e.name == pending && (e.found.None? || e.found.value !in s.ours - before)
  }

  /** The last step was a directory sync or disk gate that did not fail. */
  ghost predicate GatePassed(disk: Disk)
    reads disk
  {
    var last := |disk.world.events| - 1;
    last >= 0 && disk.world.events[last].OwnFile?
  }

  /** A step of ours that failed; that the log is truthful gives the cause of each. */
  predicate Fails(e: Event) {
    e.OwnFailed? || e.CreateFailed? || e.LinkFailed? || e.UnlinkFailed?
  }

  ghost predicate Smooth(events: seq<Event>, start: nat) {
    forall j :: start <= j < |events| ==> !Fails(events[j])
  }

  lemma SmoothSplits(early: seq<Event>, late: seq<Event>, start: nat)
    requires start <= |early| && early <= late
    ensures Smooth(late, start) <==> Smooth(early, start) && Smooth(late, |early|)
  {
    assert forall j :: start <= j < |early| ==> early[j] == late[j];
  }

  lemma LastFails(events: seq<Event>, start: nat)
    requires start < |events| && Fails(events[|events| - 1])
    ensures !Smooth(events, start)
  {
  }

  /** An attempt to unlink a name. */
  predicate Removes(e: Event) {
    e.Unlinked? || e.UnlinkFailed?
  }

  ghost predicate NoRemovals(events: seq<Event>, start: nat) {
    forall j :: start <= j < |events| ==> !Removes(events[j])
  }

  /** Only the final name was ever unlinked, and only after it and the pending name were found to be one file. */
  ghost predicate RemovesTheSameFile(events: seq<Event>, start: nat, path: string, pending: string) {
    forall j :: start <= j < |events| && Removes(events[j]) ==> FoundTheSame(events, start, j, path, pending)
  }

  ghost predicate FoundTheSame(events: seq<Event>, start: nat, j: nat, path: string, pending: string)
    requires j < |events| && Removes(events[j])
  {
    && j >= start + 4 && events[j].name == path
    && events[j - 4] == LookedUp(path, Some(events[j].checked)) && events[j - 3].Foreign?
    && events[j - 2] == LookedUp(pending, Some(events[j].checked)) && events[j - 1].Foreign?
  }

  lemma OneRemoval(looked: seq<Event>, events: seq<Event>, path: string, pending: string, inode: nat)
    requires |looked| >= 4 && |events| == |looked| + 2 && looked <= events && NoRemovals(looked, |looked| - 4)
    requires looked[|looked| - 3] == LookedUp(path, Some(inode)) && looked[|looked| - 2].Foreign?
    requires looked[|looked| - 1] == LookedUp(pending, Some(inode)) && events[|looked|].Foreign?
    requires var last := events[|looked| + 1]; Removes(last) && last.name == path && last.checked == inode
    ensures RemovesTheSameFile(events, |looked| - 4, path, pending)
  {
    assert forall j :: |looked| - 4 <= j < |looked| ==> events[j] == looked[j];
  }

  /** The final name was unlinked only after it was found to stand for an inode made by this call. */
  ghost predicate RemovesItsOwn(events: seq<Event>, start: nat, final: string, s: State, before: set<nat>) {
    forall j :: start <= j < |events| && Removes(events[j]) && events[j].name == final ==>
                  FoundItsOwn(events, start, j, final, s, before)
  }

  ghost predicate FoundItsOwn(events: seq<Event>, start: nat, j: nat, final: string, s: State, before: set<nat>)
    requires j < |events| && Removes(events[j])
  {
    && j >= start + 2 && events[j - 2] == LookedUp(final, Some(events[j].checked)) && events[j - 1].Foreign?
    && events[j].checked in s.ours - before
  }

  lemma OthersKeep(a: State, b: State, manners: Manners, path: string, before: set<nat>, raw: Bytes)
    requires OthersMay(a, b, manners) && path in manners.guarded && Complete(a, path, before, raw)
    ensures Complete(b, path, before, raw) && (HoldsNew(b, path, before) ==> HoldsNew(a, path, before))
  {
    assert Ours(b, path) ==> Same(a.names, b.names, path);
  }

  lemma GentleOthersKeep(a: State, b: State, manners: Manners, name: string)
    requires OthersMay(a, b, manners) && manners.gentle
    ensures Kept(a, b, name)
  {
    assert Ours(a, name) ==> Same(a.names, b.names, name);
    assert Ours(b, name) ==> Same(a.names, b.names, name);
  }

  /** Other processes run while a record is being published. */
  method Wait(disk: Disk, ghost start: nat, path: string, ghost other: string, ghost before: set<nat>, ghost raw: Bytes)
    requires UnderWay(disk, start, path, before, raw)
    modifies disk
    ensures UnderWay(disk, start, path, before, raw) && disk.Grown()
    ensures disk.world.events == old(disk.world.events) + [Foreign]
    ensures OursUntouched(old(disk.world.state), disk.world.state)
    ensures HoldsNew(disk.world.state, path, before) ==> HoldsNew(old(disk.world.state), path, before)
    ensures disk.manners.gentle ==> Kept(old(disk.world.state), disk.world.state, path)
    ensures disk.manners.gentle ==> Kept(old(disk.world.state), disk.world.state, other)
  {
    ghost var was := disk.world.state;
    assert Complete(was, path, before, raw) by { assert disk.world.history[|disk.world.events|] == was; }
    disk.Others();
    if OthersMay(was, disk.world.state, disk.manners) {
      OthersKeep(was, disk.world.state, disk.manners, path, before, raw);
      if disk.manners.gentle {
        GentleOthersKeep(was, disk.world.state, disk.manners, path);
        GentleOthersKeep(was, disk.world.state, disk.manners, other);
      }
    }
  }

  /** A pending file is created under its own name, written and synced, before anything is linked. */
  method WritePending(disk: Disk, ghost start: nat, path: string, pending: string, raw: Bytes)
    returns (r: Outcome<nat>, created: bool)
    requires UnderWay(disk, start, path, disk.world.state.ours, raw) && path != pending
    modifies disk
    ensures UnderWay(disk, start, path, old(disk.world.state).ours, raw) && disk.Grown()
    ensures NoNames(disk.world.events, |old(disk.world.events)|)
    ensures !HoldsNew(disk.world.state, path, old(disk.world.state).ours)
    ensures !created ==> r.Raised? && disk.world.state.ours == old(disk.world.state).ours
    ensures r.Returned? ==> Finished(disk.world.state, old(disk.world.state).ours, r.value, raw)
    ensures r.Returned? && disk.manners.gentle ==> StandsFor(disk.world.state, pending, r.value)
    ensures r.Returned? <==> Smooth(disk.world.events, |old(disk.world.events)|)
  {
    ghost var before := disk.world.state.ours;
    Wait(disk, start, path, pending, before, raw);
    r, created := Raised, false;
    var mine := disk.Create(pending);
    if mine.Raised? {
      LastFails(disk.world.events, |old(disk.world.events)|);
      return;
    }
    created := true;
    ghost var soFar := disk.world.events;
    var ok := Fill(disk, start, path, pending, before, mine.value, raw);
    SmoothSplits(soFar, disk.world.events, |old(disk.world.events)|);
    if ok { r := mine; }
  }

  /** No name was linked or unlinked since step `start`. */
  ghost predicate NoNames(events: seq<Event>, start: nat) {
    forall j :: start <= j < |events| ==>
                  events[j].Foreign? || events[j].OwnFile? || events[j].OwnFailed? || events[j].CreateFailed?
  }

  /** Writing the new pending file and syncing it. */
  method Fill(disk: Disk, ghost start: nat, path: string, pending: string, ghost before: set<nat>, mine: nat,
              raw: Bytes)
    returns (ok: bool)
    requires UnderWay(disk, start, path, before, raw) && path != pending && !HoldsNew(disk.world.state, path, before)
    requires mine !in before && disk.world.state.ours == before + {mine} && StandsFor(disk.world.state, pending, mine)
    modifies disk
    ensures UnderWay(disk, start, path, before, raw) && disk.Grown()
    ensures NoNames(disk.world.events, |old(disk.world.events)|)
    ensures !HoldsNew(disk.world.state, path, before)
    ensures ok ==> Finished(disk.world.state, before, mine, raw)
    ensures ok && disk.manners.gentle ==> StandsFor(disk.world.state, pending, mine)
    ensures ok <==> Smooth(disk.world.events, |old(disk.world.events)|)
  {
    ok := WriteMine(disk, start, path, pending, before, mine, raw);
    if !ok {
      LastFails(disk.world.events, |old(disk.world.events)|);
      return;
    }
    Wait(disk, start, path, pending, before, raw);
    ok := disk.Sync(mine);
    if !ok { LastFails(disk.world.events, |old(disk.world.events)|); }
  }

  method WriteMine(disk: Disk, ghost start: nat, path: string, ghost pending: string, ghost before: set<nat>,
                   mine: nat, raw: Bytes)
    returns (ok: bool)
    requires UnderWay(disk, start, path, before, raw) && path != pending && !HoldsNew(disk.world.state, path, before)
    requires mine !in before && disk.world.state.ours == before + {mine} && StandsFor(disk.world.state, pending, mine)
    modifies disk
    ensures UnderWay(disk, start, path, before, raw) && disk.Grown() && !HoldsNew(disk.world.state, path, before)
    ensures disk.world.events == old(disk.world.events) + [Foreign, OwnStep(ok)]
    ensures disk.world.state.ours == old(disk.world.state).ours
    ensures ok ==> disk.world.state.files[mine].bytes == raw
    ensures disk.manners.gentle ==> StandsFor(disk.world.state, pending, mine)
  {
    Wait(disk, start, path, pending, before, raw);
    ghost var kept;
    ok, kept := disk.Write(mine, raw);
  }

  /** Linking the finished pending file under the final name, between directory syncs and disk gates. */
  method LinkFinal(disk: Disk, ghost start: nat, path: string, pending: string, ghost before: set<nat>,
                   ghost mine: nat, ghost raw: Bytes)
    returns (linked: bool, ok: bool)
    requires UnderWay(disk, start, path, before, raw) && path != pending
    requires Finished(disk.world.state, before, mine, raw) && !HoldsNew(disk.world.state, path, before)
    requires disk.manners.gentle ==> StandsFor(disk.world.state, pending, mine)
    modifies disk
    ensures UnderWay(disk, start, path, before, raw) && disk.Grown() && Finished(disk.world.state, before, mine, raw)
    ensures OnlyTouches(disk.world.events, |old(disk.world.events)|, path)
    ensures NoRemovals(disk.world.events, |old(disk.world.events)|)
    ensures ok ==> linked && GatePassed(disk)
    ensures !linked ==> !HoldsNew(disk.world.state, path, before)
    ensures linked ==> var j := |old(disk.world.events)| + 2;
                       j < |disk.world.events| && disk.world.events[j].Linked? && disk.world.events[j].name == path
    ensures disk.manners.gentle ==> StandsFor(disk.world.state, pending, mine)
    ensures disk.manners.gentle && linked ==> StandsFor(disk.world.state, path, mine)
    ensures ok <==> Smooth(disk.world.events, |old(disk.world.events)|)
  {
    linked := false;
    ok := disk.Gate();
    if !ok {
      LastFails(disk.world.events, |old(disk.world.events)|);
      return;
    }
    linked, ok := LinkAndSync(disk, start, path, pending, before, mine, raw);
    if linked && !ok { LastFails(disk.world.events, |old(disk.world.events)|); }
  }

  /** The link and the gate behind it. */
  method LinkAndSync(disk: Disk, ghost start: nat, path: string, pending: string, ghost before: set<nat>,
                     ghost mine: nat, ghost raw: Bytes)
    returns (linked: bool, ok: bool)
    requires UnderWay(disk, start, path, before, raw) && path != pending
    requires Finished(disk.world.state, before, mine, raw) && !HoldsNew(disk.world.state, path, before)
    requires disk.manners.gentle ==> StandsFor(disk.world.state, pending, mine)
    modifies disk
    ensures UnderWay(disk, start, path, before, raw) && disk.Grown() && Finished(disk.world.state, before, mine, raw)
    ensures |disk.world.events| == |old(disk.world.events)| + (if linked then 3 else 2)
    ensures disk.world.events[|old(disk.world.events)|].Foreign?
    ensures var next := disk.world.events[|old(disk.world.events)| + 1];
            if linked then next.Linked? && next.name == path else next == LinkFailed(path, pending)
    ensures linked ==> disk.world.events[|old(disk.world.events)| + 2] == OwnStep(ok)
    ensures ok ==> linked
    ensures !linked ==> !HoldsNew(disk.world.state, path, before)
    ensures disk.manners.gentle ==> StandsFor(disk.world.state, pending, mine)
    ensures disk.manners.gentle && linked ==> StandsFor(disk.world.state, path, mine)
  {
    linked := LinkPending(disk, start, path, pending, before, mine, raw);
    ok := false;
    if linked { ok := disk.Gate(); }
  }

  /** The link itself: the final name gets the finished inode, or stays as it is. */
  method LinkPending(disk: Disk, ghost start: nat, path: string, pending: string, ghost before: set<nat>,
                     ghost mine: nat, ghost raw: Bytes)
    returns (linked: bool)
    requires UnderWay(disk, start, path, before, raw) && path != pending
    requires Finished(disk.world.state, before, mine, raw) && !HoldsNew(disk.world.state, path, before)
    requires disk.manners.gentle ==> StandsFor(disk.world.state, pending, mine)
    modifies disk
    ensures UnderWay(disk, start, path, before, raw) && disk.Grown() && Finished(disk.world.state, before, mine, raw)
    ensures |disk.world.events| == |old(disk.world.events)| + 2 && disk.world.events[|old(disk.world.events)|].Foreign?
    ensures var last := disk.world.events[|old(disk.world.events)| + 1];
            if linked then last.Linked? && last.name == path else last == LinkFailed(path, pending)
    ensures !linked ==> !HoldsNew(disk.world.state, path, before)
    ensures disk.manners.gentle ==> StandsFor(disk.world.state, pending, mine)
    ensures disk.manners.gentle && linked ==> StandsFor(disk.world.state, path, mine)
  {
    Wait(disk, start, path, pending, before, raw);
    linked := disk.Link(pending, path);
  }

  /** Unlinking the final name after it was found to stand for `checked`. */
  method Undo(disk: Disk, ghost start: nat, path: string, ghost before: set<nat>, checked: nat, ghost raw: Bytes)
    requires UnderWay(disk, start, path, before, raw)
    modifies disk
    ensures UnderWay(disk, start, path, before, raw) && disk.Grown()
    ensures disk.world.state.ours == old(disk.world.state).ours
    ensures OnlyTouches(disk.world.events, |old(disk.world.events)|, path)
    ensures |disk.world.events| == |old(disk.world.events)| + 2 && disk.world.events[|old(disk.world.events)|].Foreign?
    ensures var last := disk.world.events[|old(disk.world.events)| + 1];
            Removes(last) && last.name == path && last.checked == checked
    ensures disk.manners.gentle && StandsFor(old(disk.world.state), path, checked)
            && checked in old(disk.world.state).ours - before ==>
              UnlinksOnlyNew(disk.world.events, |old(disk.world.events)|, disk.world.state, before)
    ensures HoldsNew(disk.world.state, path, before) ==>
              UnlinkWasRefused(disk.world, |old(disk.world.events)|, path)
  {
    Wait(disk, start, path, path, before, raw);
    ghost var attempt, was := |disk.world.events|, disk.world.state;
    var _ := disk.Unlink(path, checked);
    assert disk.world.history[attempt] == was;
    if HoldsNew(disk.world.state, path, before) { assert FailedUnlink(disk.world, attempt, path); }
  }

  /** Looking the pending name up; others may have taken it. */
  method LookAtPending(disk: Disk, ghost start: nat, path: string, pending: string, ghost before: set<nat>,
                       ghost mine: nat, ghost raw: Bytes)
    returns (there: Option<nat>)
    requires UnderWay(disk, start, path, before, raw) && Finished(disk.world.state, before, mine, raw)
    modifies disk
    ensures UnderWay(disk, start, path, before, raw) && disk.Grown()
    ensures disk.world.state.ours == old(disk.world.state).ours
    ensures NothingLinked(disk.world.events, |old(disk.world.events)|)
    ensures disk.world.events == old(disk.world.events) + [Foreign, LookedUp(pending, there)]
    ensures HoldsNew(disk.world.state, path, before) ==> Found(old(disk.world), path) == Some(mine)
    ensures there != Some(mine) ==>
              PendingWasLost(disk.world.events, |old(disk.world.events)|, pending, disk.world.state, before)
    ensures disk.manners.gentle && StandsFor(old(disk.world.state), pending, mine) ==> there == Some(mine)
    ensures disk.manners.gentle && StandsFor(old(disk.world.state), path, mine) ==>
              StandsFor(disk.world.state, path, mine)
  {
    Wait(disk, start, path, pending, before, raw);
    ghost var look := |disk.world.events|;
    there := disk.Stat(pending);
    assert disk.world.events[look] == LookedUp(pending, there);
    if there != Some(mine) { assert LostPending(disk.world.events[look], pending, disk.world.state, before); }
  }

  ghost predicate NothingLinked(events: seq<Event>, start: nat) {
    forall j :: start <= j < |events| ==> !events[j].Linked? && !events[j].Unlinked?
  }

  /** After a rollback from step `from`: if our record is still at the final name, the log says why. */
  ghost predicate UndoneOrExcused(disk: Disk, from: nat, path: string, pending: string, before: set<nat>)
    requires disk.Valid()
    reads disk
  {
    HoldsNew(disk.world.state, path, before) ==>
      || UnlinkWasRefused(disk.world, from, path)
      || (!disk.manners.gentle && PendingWasLost(disk.world.events, from, pending, disk.world.state, before))
  }

  /** The final name stood for `here`; it is unlinked if the pending name stands for the same file. */
  method UndoIfSame(disk: Disk, ghost start: nat, path: string, pending: string, ghost before: set<nat>,
                    ghost mine: nat, here: nat, ghost raw: Bytes)
    requires UnderWay(disk, start, path, before, raw) && path != pending
    requires Finished(disk.world.state, before, mine, raw) && Found(disk.world, path) == Some(here)
    requires |disk.world.events| >= 2 && disk.world.events[|disk.world.events| - 1] == LookedUp(path, Some(here))
    requires NoRemovals(disk.world.events, |disk.world.events| - 2)
    requires disk.manners.gentle ==> StandsFor(disk.world.state, pending, mine) && here == mine
    modifies disk
    ensures UnderWay(disk, start, path, before, raw) && disk.Grown()
    ensures disk.world.state.ours == old(disk.world.state).ours
    ensures OnlyTouches(disk.world.events, |old(disk.world.events)|, path)
    ensures RemovesTheSameFile(disk.world.events, |old(disk.world.events)| - 2, path, pending)
    ensures disk.manners.gentle ==>
              UnlinksOnlyNew(disk.world.events, |old(disk.world.events)|, disk.world.state, before)
    ensures UndoneOrExcused(disk, |old(disk.world.events)|, path, pending, before)
  {
    var there := LookAtPending(disk, start, path, pending, before, mine, raw);
    ghost var looked := disk.world.events;
    assert looked[|looked| - 3] == LookedUp(path, Some(here)) && looked[|looked| - 1] == LookedUp(pending, there);
    assert NoRemovals(looked, |looked| - 4);
    if there == Some(here) {
      Undo(disk, start, path, before, here, raw);
      OneRemoval(looked, disk.world.events, path, pending, here);
    }
  }

  /**
   * durable_json's rollback: unlink the final name if it is still the same file as the pending one. If our record is
   * still there afterwards, its unlink was refused, or rough others had taken the pending name away.
   */
  method Rollback(disk: Disk, ghost start: nat, path: string, pending: string, ghost before: set<nat>,
                  ghost mine: nat, ghost raw: Bytes)
    requires UnderWay(disk, start, path, before, raw) && path != pending
    requires Finished(disk.world.state, before, mine, raw)
    requires disk.manners.gentle ==> StandsFor(disk.world.state, pending, mine)
    requires disk.manners.gentle ==> StandsFor(disk.world.state, path, mine)
    modifies disk
    ensures UnderWay(disk, start, path, before, raw) && disk.Grown()
    ensures disk.world.state.ours == old(disk.world.state).ours
    ensures OnlyTouches(disk.world.events, |old(disk.world.events)|, path)
    ensures RemovesTheSameFile(disk.world.events, |old(disk.world.events)|, path, pending)
    ensures disk.manners.gentle ==>
              UnlinksOnlyNew(disk.world.events, |old(disk.world.events)|, disk.world.state, before)
    ensures UndoneOrExcused(disk, |old(disk.world.events)|, path, pending, before)
  {
    Wait(disk, start, path, pending, before, raw);
    var here := disk.Stat(path);
    if here.Some? {
      UndoIfSame(disk, start, path, pending, before, mine, here.value, raw);
    }
  }

  /** The link with the checks behind it, and the rollback when one of them fails. */
  method LinkOrUndo(disk: Disk, ghost start: nat, path: string, pending: string, ghost before: set<nat>,
                    ghost mine: nat, ghost raw: Bytes)
    returns (ok: bool)
    requires UnderWay(disk, start, path, before, raw) && path != pending
    requires Finished(disk.world.state, before, mine, raw) && !HoldsNew(disk.world.state, path, before)
    requires disk.manners.gentle ==> StandsFor(disk.world.state, pending, mine)
    modifies disk
    ensures UnderWay(disk, start, path, before, raw) && disk.Grown()
    ensures disk.world.state.ours == old(disk.world.state).ours
    ensures OnlyTouches(disk.world.events, |old(disk.world.events)|, path)
    ensures RemovesTheSameFile(disk.world.events, |old(disk.world.events)|, path, pending)
    ensures disk.manners.gentle ==>
              UnlinksOnlyNew(disk.world.events, |old(disk.world.events)|, disk.world.state, before)
    ensures ok ==> GatePassed(disk)
    ensures disk.manners.gentle && ok ==> HoldsNew(disk.world.state, path, before)
    ensures !ok ==> UndoneOrExcused(disk, |old(disk.world.events)|, path, pending, before)
    ensures ok <==> Smooth(disk.world.events, |old(disk.world.events)|)
  {
    var linked;
    linked, ok := LinkFinal(disk, start, path, pending, before, mine, raw);
    ghost var soFar := disk.world.events;
    if !ok && linked {
      Rollback(disk, start, path, pending, before, mine, raw);
      SmoothSplits(soFar, disk.world.events, |old(disk.world.events)|);
    }
  }

  /**
   * durable_json: in every state a crash can leave behind, the final name stands for no inode of this call or for
   * the complete durable record, and an existing final name stops it at once. After a failure our record is at the
   * final name only if unlinking it was refused or others had taken the pending name; with gentle others success
   * publishes the record, nothing foreign is unlinked, and only a refused unlink leaves the record. It fails only for
   * a record that is too long, a name that exists, or a step of its own that failed.
   */
  method DurableJson(disk: Disk, path: string, pending: string, raw: Bytes) returns (ok: bool)
    requires disk.Valid() && path in disk.manners.guarded && path != pending
    modifies disk
    ensures disk.Valid() && disk.Grown()
    ensures AlwaysComplete(disk.world.history, |old(disk.world.events)|, path, old(disk.world.state).ours, raw)
    ensures path in old(disk.world.state).names ==> !ok && disk.world == old(disk.world)
    ensures OnlyTouches(disk.world.events, |old(disk.world.events)|, path)
    ensures RemovesTheSameFile(disk.world.events, |old(disk.world.events)|, path, pending)
    ensures disk.manners.gentle ==>
              UnlinksOnlyNew(disk.world.events, |old(disk.world.events)|, disk.world.state, old(disk.world.state).ours)
    ensures ok ==> GatePassed(disk)
    ensures disk.manners.gentle && ok ==> HoldsNew(disk.world.state, path, old(disk.world.state).ours)
    ensures !ok ==> UndoneOrExcused(disk, |old(disk.world.events)|, path, pending, old(disk.world.state).ours)
    ensures ok <==> |raw| <= MAX_METADATA && path !in old(disk.world.state).names
                    && Smooth(disk.world.events, |old(disk.world.events)|)
  {
    ghost var start, before := |disk.world.events|, disk.world.state.ours;
    if |raw| > MAX_METADATA || path in disk.world.state.names { return false; }
    ok := disk.Gate();
    if !ok {
      LastFails(disk.world.events, |old(disk.world.events)|);
      return;
    }
    ok := WriteAndLink(disk, start, path, pending, raw);
  }

  /** The part of durable_json behind its first gate. */
  method WriteAndLink(disk: Disk, ghost start: nat, path: string, pending: string, raw: Bytes) returns (ok: bool)
    requires UnderWay(disk, start, path, disk.world.state.ours, raw) && path != pending
    modifies disk
    ensures UnderWay(disk, start, path, old(disk.world.state).ours, raw) && disk.Grown()
    ensures OnlyTouches(disk.world.events, |old(disk.world.events)|, path)
    ensures RemovesTheSameFile(disk.world.events, |old(disk.world.events)|, path, pending)
    ensures disk.manners.gentle ==>
              UnlinksOnlyNew(disk.world.events, |old(disk.world.events)|, disk.world.state, old(disk.world.state).ours)
    ensures ok ==> GatePassed(disk)
    ensures disk.manners.gentle && ok ==> HoldsNew(disk.world.state, path, old(disk.world.state).ours)
    ensures !ok ==> UndoneOrExcused(disk, |old(disk.world.events)|, path, pending, old(disk.world.state).ours)
    ensures ok <==> Smooth(disk.world.events, |old(disk.world.events)|)
  {
    ghost var before := disk.world.state.ours;
    var mine, _ := WritePending(disk, start, path, pending, raw);
    if mine.Raised? { return false; }
    ghost var soFar := disk.world.events;
    ok := LinkOrUndo(disk, start, path, pending, before, mine.value, raw);
    SmoothSplits(soFar, disk.world.events, |old(disk.world.events)|);
  }

  /** The manifest's link and the end of its pending name, and the rollback when one of the steps fails. */
  method PlaceOrUndo(disk: Disk, ghost start: nat, final: string, pending: string, ghost before: set<nat>, mine: nat,
                     ghost raw: Bytes)
    returns (ok: bool)
    requires UnderWay(disk, start, final, before, raw) && final != pending
    requires Finished(disk.world.state, before, mine, raw) && !HoldsNew(disk.world.state, final, before)
    requires disk.manners.gentle ==> StandsFor(disk.world.state, pending, mine)
    modifies disk
    ensures UnderWay(disk, start, final, before, raw) && disk.Grown()
    ensures disk.world.state.ours == old(disk.world.state).ours
    ensures RemovesItsOwn(disk.world.events, |old(disk.world.events)|, final, disk.world.state, before)
    ensures disk.manners.gentle ==>
              UnlinksOnlyNew(disk.world.events, |old(disk.world.events)|, disk.world.state, before)
    ensures ok ==> GatePassed(disk)
    ensures disk.manners.gentle && ok ==>
              HoldsNew(disk.world.state, final, before) && pending !in disk.world.state.names
    ensures !ok && HoldsNew(disk.world.state, final, before) ==>
              UnlinkWasRefused(disk.world, |old(disk.world.events)|, final)
    ensures ok <==> Smooth(disk.world.events, |old(disk.world.events)|)
  {
    var linked;
    linked, ok := LinkAndDrop(disk, start, final, pending, before, mine, raw);
    ghost var soFar := disk.world.events;
    if !ok && linked {
      RollbackByIdentity(disk, start, final, before, mine, raw);
      SmoothSplits(soFar, disk.world.events, |old(disk.world.events)|);
    }
  }

  /**
   * prepare's manifest step: as durable_json, but the pending name goes away, and rollback goes by recorded identity,
   * so that whatever others do only a refused unlink leaves the manifest after a failure.
   */
  method PublishManifest(disk: Disk, final: string, pending: string, raw: Bytes) returns (ok: bool)
    requires disk.Valid() && final in disk.manners.guarded && final != pending
    modifies disk
    ensures disk.Valid() && disk.Grown()
    ensures AlwaysComplete(disk.world.history, |old(disk.world.events)|, final, old(disk.world.state).ours, raw)
    ensures disk.manners.gentle ==>
              UnlinksOnlyNew(disk.world.events, |old(disk.world.events)|, disk.world.state, old(disk.world.state).ours)
    ensures ok ==> GatePassed(disk)
    ensures disk.manners.gentle && ok ==>
              HoldsNew(disk.world.state, final, old(disk.world.state).ours) && pending !in disk.world.state.names
    ensures RemovesItsOwn(disk.world.events, |old(disk.world.events)|, final, disk.world.state,
                          old(disk.world.state).ours)
    ensures !ok && HoldsNew(disk.world.state, final, old(disk.world.state).ours) ==>
              UnlinkWasRefused(disk.world, |old(disk.world.events)|, final)
    ensures ok <==> Smooth(disk.world.events, |old(disk.world.events)|)
  {
    ghost var start := |disk.world.events|;
    ok := disk.Gate();
    if !ok {
      LastFails(disk.world.events, |old(disk.world.events)|);
      return;
    }
    ok := WriteAndPlace(disk, start, final, pending, raw);
  }

  /** The part of the manifest step behind its first gate. */
  method WriteAndPlace(disk: Disk, ghost start: nat, final: string, pending: string, raw: Bytes) returns (ok: bool)
    requires UnderWay(disk, start, final, disk.world.state.ours, raw) && final != pending
    modifies disk
    ensures UnderWay(disk, start, final, old(disk.world.state).ours, raw) && disk.Grown()
    ensures disk.manners.gentle ==>
              UnlinksOnlyNew(disk.world.events, |old(disk.world.events)|, disk.world.state, old(disk.world.state).ours)
    ensures ok ==> GatePassed(disk)
    ensures disk.manners.gentle && ok ==>
              HoldsNew(disk.world.state, final, old(disk.world.state).ours) && pending !in disk.world.state.names
    ensures RemovesItsOwn(disk.world.events, |old(disk.world.events)|, final, disk.world.state,
                          old(disk.world.state).ours)
    ensures !ok && HoldsNew(disk.world.state, final, old(disk.world.state).ours) ==>
              UnlinkWasRefused(disk.world, |old(disk.world.events)|, final)
    ensures ok <==> Smooth(disk.world.events, |old(disk.world.events)|)
  {
    ghost var before := disk.world.state.ours;
    var mine, _ := WritePending(disk, start, final, pending, raw);
    if mine.Raised? { return false; }
    ghost var soFar := disk.world.events;
    ok := PlaceOrUndo(disk, start, final, pending, before, mine.value, raw);
    SmoothSplits(soFar, disk.world.events, |old(disk.world.events)|);
  }

  /** The name was never unlinked. */
  ghost predicate KeepsName(events: seq<Event>, start: nat, name: string) {
    forall j :: start <= j < |events| && Removes(events[j]) ==> events[j].name != name
  }

  /** The manifest's link, and the end of its pending name. */
  method LinkAndDrop(disk: Disk, ghost start: nat, final: string, pending: string, ghost before: set<nat>, mine: nat,
                     ghost raw: Bytes)
    returns (linked: bool, ok: bool)
    requires UnderWay(disk, start, final, before, raw) && final != pending
    requires Finished(disk.world.state, before, mine, raw) && !HoldsNew(disk.world.state, final, before)
    requires disk.manners.gentle ==> StandsFor(disk.world.state, pending, mine)
    modifies disk
    ensures UnderWay(disk, start, final, before, raw) && disk.Grown() && Finished(disk.world.state, before, mine, raw)
    ensures disk.manners.gentle ==>
              UnlinksOnlyNew(disk.world.events, |old(disk.world.events)|, disk.world.state, before)
    ensures KeepsName(disk.world.events, |old(disk.world.events)|, final)
    ensures !linked ==> !ok && !HoldsNew(disk.world.state, final, before)
    ensures ok ==> GatePassed(disk)
    ensures disk.manners.gentle && linked ==> StandsFor(disk.world.state, final, mine)
    ensures disk.manners.gentle && ok ==> pending !in disk.world.state.names
    ensures ok <==> Smooth(disk.world.events, |old(disk.world.events)|)
  {
    linked, ok := LinkFinal(disk, start, final, pending, before, mine, raw);
    ghost var soFar := disk.world.events;
    if ok {
      ok := DropPending(disk, start, final, pending, before, mine, raw);
      SmoothSplits(soFar, disk.world.events, |old(disk.world.events)|);
    }
  }

  method DropPending(disk: Disk, ghost start: nat, final: string, pending: string, ghost before: set<nat>, mine: nat,
                     ghost raw: Bytes)
    returns (ok: bool)
    requires UnderWay(disk, start, final, before, raw) && final != pending
    requires Finished(disk.world.state, before, mine, raw)
    requires disk.manners.gentle ==> StandsFor(disk.world.state, pending, mine)
    requires disk.manners.gentle ==> StandsFor(disk.world.state, final, mine)
    modifies disk
    ensures UnderWay(disk, start, final, before, raw) && disk.Grown() && Finished(disk.world.state, before, mine, raw)
    ensures disk.manners.gentle ==>
              UnlinksOnlyNew(disk.world.events, |old(disk.world.events)|, disk.world.state, before)
    ensures KeepsName(disk.world.events, |old(disk.world.events)|, final)
    ensures ok ==> GatePassed(disk)
    ensures disk.manners.gentle ==> StandsFor(disk.world.state, final, mine)
    ensures disk.manners.gentle && ok ==> pending !in disk.world.state.names
    ensures ok <==> Smooth(disk.world.events, |old(disk.world.events)|)
  {
    Wait(disk, start, final, pending, before, raw);
    ok := disk.Unlink(pending, mine);
    if ok { ok := disk.Gate(); }
    if !ok { LastFails(disk.world.events, |old(disk.world.events)|); }
  }

  method RollbackByIdentity(disk: Disk, ghost start: nat, final: string, ghost before: set<nat>, mine: nat,
                            ghost raw: Bytes)
    requires UnderWay(disk, start, final, before, raw) && Finished(disk.world.state, before, mine, raw)
    modifies disk
    ensures UnderWay(disk, start, final, before, raw) && disk.Grown()
    ensures disk.world.state.ours == old(disk.world.state).ours
    ensures RemovesItsOwn(disk.world.events, |old(disk.world.events)|, final, disk.world.state, before)
    ensures disk.manners.gentle ==>
              UnlinksOnlyNew(disk.world.events, |old(disk.world.events)|, disk.world.state, before)
    ensures HoldsNew(disk.world.state, final, before) ==>
              UnlinkWasRefused(disk.world, |old(disk.world.events)|, final)
  {
    Wait(disk, start, final, final, before, raw);
    var here := disk.Stat(final);
    if here == Some(mine) {
      Undo(disk, start, final, before, mine, raw);
    }
  }

  /** Nothing but unlinks failed. */
  ghost predicate OnlyUnlinksFail(events: seq<Event>, start: nat) {
    forall j :: start <= j < |events| && Fails(events[j]) ==> events[j].UnlinkFailed?
  }

  lemma OnlyUnlinksFailSplits(early: seq<Event>, late: seq<Event>, start: nat)
    requires start <= |early| && early <= late
    ensures OnlyUnlinksFail(late, start) <==> OnlyUnlinksFail(early, start) && OnlyUnlinksFail(late, |early|)
  {
    assert forall j :: start <= j < |early| ==> early[j] == late[j];
  }

  /** publish_evidence: the link is the last step that can fail; a temporary left behind is no failure. */
  method PublishEvidence(disk: Disk, path: string, temporary: string, payload: Bytes) returns (ok: bool)
    requires disk.Valid() && path in disk.manners.guarded && path != temporary
    modifies disk
    ensures disk.Valid() && disk.Grown()
    ensures AlwaysComplete(disk.world.history, |old(disk.world.events)|, path, old(disk.world.state).ours, payload)
    ensures disk.manners.gentle && ok ==> HoldsNew(disk.world.state, path, old(disk.world.state).ours)
    ensures !ok ==> !HoldsNew(disk.world.state, path, old(disk.world.state).ours)
    ensures KeepsName(disk.world.events, |old(disk.world.events)|, path)
    ensures HoldsNew(disk.world.state, temporary, old(disk.world.state).ours) ==>
              UnlinkWasRefused(disk.world, |old(disk.world.events)|, temporary)
    ensures ok <==> OnlyUnlinksFail(disk.world.events, |old(disk.world.events)|)
  {
    ghost var start, before := |disk.world.events|, disk.world.state.ours;
    var created;
    ok, created := WriteAndLinkEvidence(disk, start, path, temporary, payload);
    ghost var soFar := disk.world.events;
    if created {
      DropTemporary(disk, start, path, temporary, before, payload);
      OnlyUnlinksFailSplits(soFar, disk.world.events, start);
    }
  }

  /** The guarded part of publish_evidence. */
  method WriteAndLinkEvidence(disk: Disk, ghost start: nat, path: string, temporary: string, payload: Bytes)
    returns (ok: bool, created: bool)
    requires UnderWay(disk, start, path, disk.world.state.ours, payload) && path != temporary
    modifies disk
    ensures UnderWay(disk, start, path, old(disk.world.state).ours, payload) && disk.Grown()
    ensures disk.manners.gentle && ok ==> HoldsNew(disk.world.state, path, old(disk.world.state).ours)
    ensures !ok ==> !HoldsNew(disk.world.state, path, old(disk.world.state).ours)
    ensures NoRemovals(disk.world.events, |old(disk.world.events)|)
    ensures !created ==> !ok && disk.world.state.ours == old(disk.world.state).ours
    ensures ok <==> Smooth(disk.world.events, |old(disk.world.events)|)
  {
    ghost var before := disk.world.state.ours;
    var mine;
    mine, created := WritePending(disk, start, path, temporary, payload);
    if mine.Raised? { return false, created; }
    ghost var soFar := disk.world.events;
    ok := LinkPending(disk, start, path, temporary, before, mine.value, payload);
    SmoothSplits(soFar, disk.world.events, |old(disk.world.events)|);
  }

  /** A temporary that cannot be unlinked is left behind. */
  method DropTemporary(disk: Disk, ghost start: nat, path: string, temporary: string, ghost before: set<nat>,
                       ghost payload: Bytes)
    requires UnderWay(disk, start, path, before, payload) && path != temporary
    modifies disk
    ensures UnderWay(disk, start, path, before, payload) && disk.Grown()
    ensures disk.world.state.ours == old(disk.world.state).ours
    ensures HoldsNew(disk.world.state, path, before) ==> HoldsNew(old(disk.world.state), path, before)
    ensures KeepsName(disk.world.events, |old(disk.world.events)|, path)
    ensures HoldsNew(disk.world.state, temporary, before) ==>
              UnlinkWasRefused(disk.world, |old(disk.world.events)|, temporary)
    ensures disk.manners.gentle && HoldsNew(old(disk.world.state), path, before) ==>
              HoldsNew(disk.world.state, path, before)
    ensures OnlyUnlinksFail(disk.world.events, |old(disk.world.events)|)
  {
    Wait(disk, start, path, path, before, payload);
    ghost var attempt, was := |disk.world.events|, disk.world.state;
    var _ := disk.Unlink(temporary, 0);
    assert disk.world.history[attempt] == was;
    if HoldsNew(disk.world.state, temporary, before) { assert FailedUnlink(disk.world, attempt, temporary); }
  }

  // ----- what the log tells ------------------------------------------------------------

  /** A step that fails without an error of its own found a name taken, a name missing, or an inode number in use. */
  lemma FailureHasACause(env: Env, manners: Manners, w: World, j: nat)
    requires Recorded(w) && Truthful(env, manners, w) && j < |w.events| && Fails(w.events[j]) && !env(j).fails
    ensures w.history[j + 1] == w.history[j] && !w.events[j].OwnFailed?
    ensures w.events[j].UnlinkFailed? ==> w.events[j].name !in w.history[j].names
    ensures w.events[j].CreateFailed? ==>
              w.events[j].name in w.history[j].names || env(j).inode in w.history[j].files
    ensures w.events[j].LinkFailed? ==>
              w.events[j].name in w.history[j].names || w.events[j].source !in w.history[j].names
  {
    assert DescribedAt(env, manners, w, j);
  }

  /** A step of others leaves a guarded name one of our inodes only by leaving it alone. */
  lemma OthersKeepGuarded(env: Env, manners: Manners, w: World, j: nat, name: string)
    requires Recorded(w) && Truthful(env, manners, w) && j < |w.events| && w.events[j].Foreign?
    requires name in manners.guarded
    ensures var a, b := w.history[j], w.history[j + 1];
            && (Ours(b, name) ==> Ours(a, name) && Same(a.names, b.names, name))
            && b.ours == a.ours
            && (manners.gentle && Ours(a, name) ==> Same(a.names, b.names, name))
  {
    assert DescribedAt(env, manners, w, j);
  }

  lemma LookChangesNothing(env: Env, manners: Manners, w: World, j: nat)
    requires Recorded(w) && Truthful(env, manners, w) && j < |w.events| && w.events[j].LookedUp?
    ensures w.history[j + 1] == w.history[j] && w.events[j].found == Lookup(w.history[j], w.events[j].name)
  {
    assert DescribedAt(env, manners, w, j);
  }

  lemma UnlinkTakesWhatStands(env: Env, manners: Manners, w: World, j: nat)
    requires Recorded(w) && Truthful(env, manners, w) && j < |w.events| && w.events[j].Unlinked?
    ensures StandsFor(w.history[j], w.events[j].name, w.events[j].inode)
  {
    assert DescribedAt(env, manners, w, j);
  }

  /**
   * durable_json's rollback: what it unlinked was the file it had found exactly if the two steps of others between its
   * look and its unlink left the name as it was, and it was a file of ours exactly if the found one was, too.
   */
  lemma RollbackIsExact(env: Env, manners: Manners, w: World, start: nat, j: nat, path: string, pending: string)
    requires Recorded(w) && Truthful(env, manners, w) && path in manners.guarded
    requires j < |w.events| && w.events[j].Unlinked? && FoundTheSame(w.events, start, j, path, pending)
    ensures StandsFor(w.history[j - 4], path, w.events[j].checked)
    ensures StandsFor(w.history[j - 2], pending, w.events[j].checked)
    ensures w.events[j].inode == w.events[j].checked <==> Same(w.history[j - 4].names, w.history[j].names, path)
    ensures Ours(w.history[j], path)
       <==> Ours(w.history[j - 4], path) && Same(w.history[j - 4].names, w.history[j].names, path)
    ensures manners.gentle && Ours(w.history[j - 4], path) ==> Ours(w.history[j], path)
  {
    LookChangesNothing(env, manners, w, j - 4);
    OthersKeepGuarded(env, manners, w, j - 3, path);
    LookChangesNothing(env, manners, w, j - 2);
    OthersKeepGuarded(env, manners, w, j - 1, path);
    UnlinkTakesWhatStands(env, manners, w, j);
  }

  /** The manifest's rollback, which has one step of others between its look and its unlink. */
  lemma IdentityRollbackIsExact(env: Env, manners: Manners, w: World, start: nat, j: nat, final: string,
                                before: set<nat>)
    requires Recorded(w) && Truthful(env, manners, w) && final in manners.guarded
    requires j < |w.events| && w.events[j].Unlinked? && w.events[j].name == final
    requires FoundItsOwn(w.events, start, j, final, w.state, before)
    ensures StandsFor(w.history[j - 2], final, w.events[j].checked)
    ensures w.events[j].inode == w.events[j].checked <==> Same(w.history[j - 2].names, w.history[j].names, final)
    ensures Ours(w.history[j], final)
       <==> Ours(w.history[j - 2], final) && Same(w.history[j - 2].names, w.history[j].names, final)
    ensures manners.gentle && Ours(w.history[j - 2], final) ==> Ours(w.history[j], final)
  {
    LookChangesNothing(env, manners, w, j - 2);
    OthersKeepGuarded(env, manners, w, j - 1, final);
    UnlinkTakesWhatStands(env, manners, w, j);
  }
}
