/** Which container is the owned builder, which volume is its own, and what is absent, said by their fields. */
module BuilderMeaning {
  import opened Common
  import opened BuilderCleanup

  /** The owned builder: its name, image and owner, a container ID of its own, the limits and no restart. */
  ghost predicate IsBuilder(c: Container, name: string, owner: string, image: string) {
    && c.name == "/buildx_buildkit_" + name + "0" && c.image == image
    && (exists i :: 0 <= i < |c.env| && c.env[i] == "RUNNER_ARTIFACT_OWNER=" + owner)
    && |c.id| == 64 && (forall i :: 0 <= i < 64 ==> '0' <= c.id[i] <= '9' || 'a' <= c.id[i] <= 'f')
    && c.limited && c.restart == "no"
  }

  /** Exactly one mount stands at the state directory, and it is this volume, mounted to be written. */
  ghost predicate StateIs(c: Container, volume: string) {
    exists i: nat :: OnlyMount(c.mounts, i) && c.mounts[i].kind == "volume" && c.mounts[i].name == volume
                     && c.mounts[i].writable
  }

  ghost predicate OnlyMount(mounts: seq<Mount>, i: nat) {
    && i < |mounts| && mounts[i].destination == "/var/lib/buildkit"
    && forall j :: 0 <= j < |mounts| && mounts[j].destination == "/var/lib/buildkit" ==> j == i
  }

  ghost predicate NoContainer(w: World, name: string) {
    forall id :: id in w.containers ==> w.containers[id].name != "/buildx_buildkit_" + name + "0"
  }

  ghost predicate NoVolume(w: World, name: string) {
    "buildx_buildkit_" + name + "0_state" !in w.volumes
  }

  lemma IdentityMeans(c: Container, name: string, owner: string, image: string)
    ensures BuilderIdentity(c, name, owner, image) <==> IsBuilder(c, name, owner, image)
  {
    var full := "/" + ContainerName(name);
    assert full == "/buildx_buildkit_" + name + "0";
  }

  lemma {:induction false} NoStateMount(mounts: seq<Mount>)
    ensures StateMounts(mounts) == []
       <==> forall i :: 0 <= i < |mounts| ==> mounts[i].destination != "/var/lib/buildkit"
  {
    if mounts != [] {
      NoStateMount(mounts[1..]);
      assert forall i :: 1 <= i < |mounts| ==> mounts[i] == mounts[1..][i - 1];
    }
  }

  lemma {:induction false} OneStateMount(mounts: seq<Mount>, i: nat)
    requires OnlyMount(mounts, i)
    ensures StateMounts(mounts) == [mounts[i]]
  {
    if i == 0 {
      NoStateMount(mounts[1..]);
    } else {
      assert mounts[1..][i - 1] == mounts[i];
      OneStateMount(mounts[1..], i - 1);
    }
  }

  lemma {:induction false} StateMountStands(mounts: seq<Mount>) returns (i: nat)
    requires |StateMounts(mounts)| == 1
    ensures OnlyMount(mounts, i)
  {
    if mounts[0].destination == "/var/lib/buildkit" {
      NoStateMount(mounts[1..]);
      assert forall j :: 1 <= j < |mounts| ==> mounts[j] == mounts[1..][j - 1];
      i := 0;
    } else {
      var k := StateMountStands(mounts[1..]);
      assert forall j :: 1 <= j < |mounts| ==> mounts[j] == mounts[1..][j - 1];
      i := k + 1;
    }
  }

  lemma AssociatedMeans(c: Container, volume: string)
    ensures Associated(c, volume) <==> StateIs(c, volume)
  {
    if Associated(c, volume) {
      var i := StateMountStands(c.mounts);
      OneStateMount(c.mounts, i);
      assert OnlyMount(c.mounts, i);
    }
    if i: nat :| OnlyMount(c.mounts, i) {
      OneStateMount(c.mounts, i);
    }
  }

  lemma AbsenceMeans(w: World, name: string)
    ensures ContainerAbsent(w, name) <==> NoContainer(w, name)
    ensures AllAbsent(w, name) <==> NoContainer(w, name) && w.instance == None && NoVolume(w, name)
  {
    assert "/" + ContainerName(name) == "/buildx_buildkit_" + name + "0";
  }

  /** What a completed step of this name says: the absent object is absent. */
  lemma ClaimsMean(w: World, name: string)
    ensures Claims("verify-container-absent", w, name) <==> NoContainer(w, name)
    ensures Claims("probe-instance-container", w, name) <==> NoContainer(w, name)
    ensures Claims("verify-instance-absent", w, name) <==> w.instance == None
    ensures Claims("verify-volume-absent", w, name) <==> NoVolume(w, name)
  {
    AbsenceMeans(w, name);
  }

  /** Others re-create none of the three objects in any turn from this one on. */
  lemma CalmMeans(turns: seq<Turn>, from: nat, name: string)
    ensures Calm(turns, from, name)
       <==> forall k :: from <= k < |turns| ==>
              && (NoContainer(turns[k].before, name) ==> NoContainer(turns[k].after, name))
              && (turns[k].before.instance == None ==> turns[k].after.instance == None)
              && (NoVolume(turns[k].before, name) ==> NoVolume(turns[k].after, name))
  {
    forall w: World
      ensures ContainerAbsent(w, name) <==> NoContainer(w, name)
    {
      AbsenceMeans(w, name);
    }
  }

  /**
   * Every removal that was issued: a container that is the owned builder, or the builder's state volume, which was
   * absent before the builder was made, or is the one state mount of a container that is the owned builder.
   */
  lemma RemovalsAreOwn(cleanup: Cleanup, k: nat)
    requires cleanup.Valid() && cleanup.Careful() && k < |cleanup.removals|
    ensures match cleanup.removals[k]
            case RemovedContainer(c) => IsBuilder(c, cleanup.name, cleanup.owner, cleanup.image)
            case RemovedVolume(v) =>
              && v == "buildx_buildkit_" + cleanup.name + "0_state"
              && (cleanup.absentBefore
                  || exists c :: IsBuilder(c, cleanup.name, cleanup.owner, cleanup.image) && StateIs(c, v))
  {
    match cleanup.removals[k]
    case RemovedContainer(c) =>
      assert cleanup.Justified(cleanup.removals[k]);
      IdentityMeans(c, cleanup.name, cleanup.owner, cleanup.image);
    case RemovedVolume(v) =>
      assert cleanup.Justified(cleanup.removals[k]);
      if v in cleanup.mounted {
        var id :| id in cleanup.checked && Associated(cleanup.world.known[id], v);
        IdentityMeans(cleanup.world.known[id], cleanup.name, cleanup.owner, cleanup.image);
        AssociatedMeans(cleanup.world.known[id], v);
      }
  }
}
