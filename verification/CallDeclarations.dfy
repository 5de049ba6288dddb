/** What acceptance of local calls means, in terms of the declarations that stand in the files. */
module CallDeclarations {
  import opened Common
  import opened PermissionCaps

  // ----- declarations along a path -----------------------------------------------------

  /** The last job of a path. */
  function LastJob(files: Files, w: Workflow, path: seq<nat>): Job
    requires CallPath(files, w, path)
    decreases |path|
  {
    if |path| == 1 then w.jobs[path[0]] else LastJob(files, files[w.jobs[path[0]].uses], path[1..])
  }

  /** From the root down, the declaration of each workflow on the path and, behind it, that of its job on the path. */
  function Declarations(files: Files, w: Workflow, path: seq<nat>): (r: seq<Option<Permissions>>)
    requires CallPath(files, w, path)
    ensures |r| == 2 * |path|
    decreases |path|
  {
    var job := w.jobs[path[0]];
    [w.permissions, job.permissions] + if |path| == 1 then [] else Declarations(files, files[job.uses], path[1..])
  }

  /** Declaration i is p, and none is made behind it. */
  ghost predicate LastMade(ds: seq<Option<Permissions>>, i: nat, p: Permissions) {
    i < |ds| && ds[i] == Some(p) && forall j :: i < j < |ds| ==> ds[j].None?
  }

  /** p is the last declaration made, or the empty one when there is none. */
  ghost predicate Nearest(ds: seq<Option<Permissions>>, p: Permissions) {
    || (exists i :: LastMade(ds, i, p))
    || (p == Scopes(map[]) && forall i :: 0 <= i < |ds| ==> ds[i].None?)
  }

  function NearestOf(ds: seq<Option<Permissions>>): Permissions {
    if ds == [] then Scopes(map[])
    else if ds[|ds| - 1].Some? then ds[|ds| - 1].value
    else NearestOf(ds[..|ds| - 1])
  }

  lemma NoneBehind(ds: seq<Option<Permissions>>, init: seq<Option<Permissions>>, p: Permissions)
    requires ds == init + [None]
    ensures Nearest(ds, p) <==> Nearest(init, p)
  {
    assert forall i :: 0 <= i < |init| ==> init[i] == ds[i];
    assert ds[|init|] == None;
    if i: nat :| LastMade(ds, i, p) { assert i < |init| && LastMade(init, i, p); }
    if i: nat :| LastMade(init, i, p) { assert LastMade(ds, i, p); }
  }

  lemma {:induction false} NearestIsOne(ds: seq<Option<Permissions>>, p: Permissions)
    ensures Nearest(ds, p) <==> p == NearestOf(ds)
  {
    if ds != [] {
      var last := |ds| - 1;
      if ds[last].None? {
        NearestIsOne(ds[..last], p);
        NoneBehind(ds, ds[..last], p);
      } else {
        assert LastMade(ds, last, ds[last].value);
      }
    }
  }

  lemma NearestAdded(ds: seq<Option<Permissions>>, outer: Option<Permissions>, inner: Option<Permissions>)
    ensures NearestOf(ds + [outer, inner])
         == if inner.Some? then inner.value else if outer.Some? then outer.value else NearestOf(ds)
  {
    var all := ds + [outer, inner];
    assert all[..|all| - 1] == ds + [outer];
    assert (ds + [outer])[..|ds|] == ds;
  }

  // ----- acceptance by declarations ----------------------------------------------------

  /** A reference to one workflow file of this repository. */
  ghost predicate NamesAWorkflow(uses: string) {
    exists stem :: stem != "" && PlainStem(stem)
                   && (|| uses == "./.github/workflows/" + stem + ".yml"
                       || uses == "./.github/workflows/" + stem + ".yaml")
  }

  predicate PlainStem(stem: string) {
    forall i :: 0 <= i < |stem| ==>
                  || 'A' <= stem[i] <= 'Z' || 'a' <= stem[i] <= 'z' || '0' <= stem[i] <= '9'
                  || stem[i] == '_' || stem[i] == '-'
  }

  lemma NameBehindDirectory(uses: string, name: string, k: nat)
    requires uses == DIRECTORY + name && k <= |name|
    ensures uses[|DIRECTORY|..] == name && name == name[..k] + name[k..]
  {
  }

  lemma LocalWorkflowHasAStem(uses: string)
    requires LocalWorkflow(uses)
    ensures NamesAWorkflow(uses)
  {
    var name := uses[|DIRECTORY|..];
    var k :| 0 < k <= |name| && (name[k..] == ".yml" || name[k..] == ".yaml")
             && forall i :: 0 <= i < k ==> WorkflowNameChar(name[i]);
    assert uses == DIRECTORY + name;
    NameBehindDirectory(uses, name, k);
    assert PlainStem(name[..k]);
    assert uses == "./.github/workflows/" + name[..k] + name[k..];
  }

  lemma StemIsLocal(uses: string, stem: string, extension: string)
    requires uses == DIRECTORY + stem + extension && stem != "" && PlainStem(stem)
    requires extension == ".yml" || extension == ".yaml"
    ensures LocalWorkflow(uses)
  {
    var name := uses[|DIRECTORY|..];
    assert name == stem + extension && name[|stem|..] == extension;
    assert forall i :: 0 <= i < |stem| ==> name[i] == stem[i];
  }

  lemma LocalWorkflowIsNamed(uses: string)
    ensures LocalWorkflow(uses) <==> NamesAWorkflow(uses)
  {
    if LocalWorkflow(uses) { LocalWorkflowHasAStem(uses); }
    if NamesAWorkflow(uses) {
      var stem :| stem != "" && PlainStem(stem) && (uses == "./.github/workflows/" + stem + ".yml"
                                                    || uses == "./.github/workflows/" + stem + ".yaml");
      StemIsLocal(uses, stem, if uses == DIRECTORY + stem + ".yml" then ".yml" else ".yaml");
    }
  }

  /** The call of a job, if it is a local one: a workflow file, entered for the first time, that may be called. */
  ghost predicate CallIsSound(files: Files, job: Job, entered: set<string>) {
    |job.uses| >= 2 && job.uses[..2] == "./" ==>
      && NamesAWorkflow(job.uses) && job.uses !in entered && job.uses in files
      && files[job.uses].callable && files[job.uses].pinned
  }

  /** The last job of the path, with these declarations above the path and these files entered before it. */
  ghost predicate EndSound(files: Files, w: Workflow, above: seq<Option<Permissions>>, entered: set<string>,
                           path: seq<nat>, capped: bool)
    requires CallPath(files, w, path)
    decreases |path|
  {
    var job := w.jobs[path[0]];
    var here := above + [w.permissions, job.permissions];
    if |path| == 1 then
      (capped ==> CapAccepts(NearestOf(here), NearestOf(above))) && CallIsSound(files, job, entered)
    else EndSound(files, files[job.uses], here, entered + {job.uses}, path[1..], true)
  }

  /** Where the walk down the calls stands: what is allowed is the nearest declaration above. */
  ghost predicate Matches(above: seq<Option<Permissions>>, allowed: Option<Permissions>) {
    if allowed.Some? then allowed.value == NearestOf(above) else above == []
  }

  lemma NothingWithinBlank(p: Permissions)
    ensures !CapAccepts(p, Word(""))
  {
    assert !ScopeWithin(p, Word(""), "*");
  }

  lemma RunsWithNearest(w: Workflow, allowed: Option<Permissions>, job: Job, above: seq<Option<Permissions>>)
    requires Matches(above, allowed) && allowed != Some(Word(""))
    ensures JobPermissions(w, allowed, job) == NearestOf(above + [w.permissions, job.permissions])
  {
    NearestAdded(above, w.permissions, job.permissions);
  }

  lemma JobIsSound(files: Files, w: Workflow, allowed: Option<Permissions>, chain: set<string>, job: Job,
                   above: seq<Option<Permissions>>)
    requires Matches(above, allowed)
    ensures var here := above + [w.permissions, job.permissions];
            JobAccepted(files, w, allowed, chain, job)
            <==> (allowed.Some? ==> CapAccepts(NearestOf(here), NearestOf(above))) && CallIsSound(files, job, chain)
  {
    LocalWorkflowIsNamed(job.uses);
    if allowed == Some(Word("")) {
      NothingWithinBlank(JobPermissions(w, allowed, job));
      NothingWithinBlank(NearestOf(above + [w.permissions, job.permissions]));
    } else {
      RunsWithNearest(w, allowed, job, above);
    }
  }

  lemma {:induction false} AcceptedEndIsSound(files: Files, w: Workflow, allowed: Option<Permissions>,
                                              chain: set<string>, above: seq<Option<Permissions>>, path: seq<nat>)
    requires CallsAccepted(files, w, allowed, chain) && CallPath(files, w, path) && Matches(above, allowed)
    ensures EndSound(files, w, above, chain, path, allowed.Some?)
    decreases |path|
  {
    var job := w.jobs[path[0]];
    assert CallAccepted(files, w, allowed, chain, path[0]);
    JobIsSound(files, w, allowed, chain, job, above);
    if |path| > 1 {
      NotBlank(files, w, allowed, chain, job);
      RunsWithNearest(w, allowed, job, above);
      AcceptedEndIsSound(files, files[job.uses], Some(JobPermissions(w, allowed, job)), chain + {job.uses},
                         above + [w.permissions, job.permissions], path[1..]);
    }
  }

  lemma NotBlank(files: Files, w: Workflow, allowed: Option<Permissions>, chain: set<string>, job: Job)
    requires JobAccepted(files, w, allowed, chain, job)
    ensures allowed != Some(Word(""))
  {
    NothingWithinBlank(JobPermissions(w, allowed, job));
  }

  lemma {:induction false} SoundEndsAreAccepted(files: Files, w: Workflow, allowed: Option<Permissions>,
                                                chain: set<string>, above: seq<Option<Permissions>>)
    requires Matches(above, allowed)
    requires forall path :: CallPath(files, w, path) ==> EndSound(files, w, above, chain, path, allowed.Some?)
    ensures CallsAccepted(files, w, allowed, chain)
    decreases |files.Keys - chain|
  {
    forall i | 0 <= i < |w.jobs|
      ensures CallAccepted(files, w, allowed, chain, i)
    {
      var job := w.jobs[i];
      assert CallPath(files, w, [i]);
      JobIsSound(files, w, allowed, chain, job, above);
      if Local(job.uses) {
        Smaller(files.Keys, chain, job.uses);
        NotBlank(files, w, allowed, chain, job);
        RunsWithNearest(w, allowed, job, above);
        var here := above + [w.permissions, job.permissions];
        forall path | CallPath(files, files[job.uses], path)
          ensures EndSound(files, files[job.uses], here, chain + {job.uses}, path, true)
        {
          assert ([i] + path)[1..] == path;
          assert CallPath(files, w, [i] + path);
        }
        SoundEndsAreAccepted(files, files[job.uses], Some(JobPermissions(w, allowed, job)), chain + {job.uses}, here);
      }
    }
  }

  // ----- the path as a whole -----------------------------------------------------------

  /** The workflow files that a path enters. */
  function EnteredFiles(files: Files, w: Workflow, path: seq<nat>): set<string>
    requires CallPath(files, w, path)
    decreases |path|
  {
    if |path| == 1 then {}
    else {w.jobs[path[0]].uses} + EnteredFiles(files, files[w.jobs[path[0]].uses], path[1..])
  }

  /** The walk down the path, unrolled. */
  lemma {:induction false} EndSoundIs(files: Files, w: Workflow, above: seq<Option<Permissions>>, entered: set<string>,
                                      path: seq<nat>, capped: bool)
    requires CallPath(files, w, path)
    ensures var ds := Declarations(files, w, path);
            EndSound(files, w, above, entered, path, capped)
            <==> && (capped || |path| > 1 ==>
                       CapAccepts(NearestOf(above + ds), NearestOf(above + ds[..|ds| - 2])))
                 && CallIsSound(files, LastJob(files, w, path), entered + EnteredFiles(files, w, path))
    decreases |path|
  {
    var job := w.jobs[path[0]];
    var own := [w.permissions, job.permissions];
    var ds := Declarations(files, w, path);
    if |path| == 1 {
      assert ds == own && ds[..0] == [] && above + [] == above && entered + {} == entered;
    } else {
      var rest := Declarations(files, files[job.uses], path[1..]);
      EndSoundIs(files, files[job.uses], above + own, entered + {job.uses}, path[1..], true);
      assert ds[..|ds| - 2] == own + rest[..|rest| - 2];
      Regroup(above, own, rest);
      Regroup(above, own, rest[..|rest| - 2]);
      assert entered + {job.uses} + EnteredFiles(files, files[job.uses], path[1..])
          == entered + EnteredFiles(files, w, path);
    }
  }

  lemma Regroup<T>(a: seq<T>, b: seq<T>, c: seq<T>)
    ensures a + b + c == a + (b + c)
  {
  }

  ghost predicate NearestAreCapped(ds: seq<Option<Permissions>>, callers: seq<Option<Permissions>>) {
    forall p, q :: Nearest(ds, p) && Nearest(callers, q) ==> CapAccepts(p, q)
  }

  /** What a job on a path runs with, and what its caller runs with, by the declarations alone. */
  ghost predicate Allows(files: Files, root: Workflow, path: seq<nat>)
    requires CallPath(files, root, path)
  {
    var ds := Declarations(files, root, path);
    && (|path| > 1 ==> NearestAreCapped(ds, ds[..|ds| - 2]))
    && CallIsSound(files, LastJob(files, root, path), EnteredFiles(files, root, path))
  }

  lemma NothingAbove<T>(ds: seq<T>, above: seq<T>)
    requires above == []
    ensures above + ds == ds
  {
  }

  lemma EndSoundAtRoot(files: Files, root: Workflow, path: seq<nat>, ds: seq<Option<Permissions>>,
                       callers: seq<Option<Permissions>>, entered: set<string>)
    requires CallPath(files, root, path) && entered == EnteredFiles(files, root, path)
    requires ds == Declarations(files, root, path) && callers == ds[..|ds| - 2]
    ensures EndSound(files, root, [], {}, path, false)
       <==> && (|path| > 1 ==> CapAccepts(NearestOf(ds), NearestOf(callers)))
            && CallIsSound(files, LastJob(files, root, path), entered)
  {
    EndSoundIs(files, root, [], {}, path, false);
    NothingAbove(ds, []);
    NothingAbove(callers, []);
    assert {} + entered == entered;
  }

  lemma AllowsIsEndSound(files: Files, root: Workflow, path: seq<nat>)
    requires CallPath(files, root, path)
    ensures Allows(files, root, path) <==> EndSound(files, root, [], {}, path, false)
  {
    var ds := Declarations(files, root, path);
    EndSoundAtRoot(files, root, path, ds, ds[..|ds| - 2], EnteredFiles(files, root, path));
    AllowsIsNearest(files, root, path, ds, ds[..|ds| - 2]);
  }

  lemma AllowsIsNearest(files: Files, root: Workflow, path: seq<nat>, ds: seq<Option<Permissions>>,
                        callers: seq<Option<Permissions>>)
    requires CallPath(files, root, path)
    requires ds == Declarations(files, root, path) && callers == ds[..|ds| - 2]
    ensures Allows(files, root, path)
       <==> && (|path| > 1 ==> CapAccepts(NearestOf(ds), NearestOf(callers)))
            && CallIsSound(files, LastJob(files, root, path), EnteredFiles(files, root, path))
  {
    NearestAre(ds, callers);
  }

  lemma NearestAre(a: seq<Option<Permissions>>, b: seq<Option<Permissions>>)
    ensures CapAccepts(NearestOf(a), NearestOf(b)) <==> NearestAreCapped(a, b)
  {
    forall p: Permissions
      ensures Nearest(a, p) <==> p == NearestOf(a)
    {
      NearestIsOne(a, p);
    }
    forall p: Permissions
      ensures Nearest(b, p) <==> p == NearestOf(b)
    {
      NearestIsOne(b, p);
    }
    assert Nearest(a, NearestOf(a)) && Nearest(b, NearestOf(b));
  }

  /**
   * A root workflow's calls are accepted if and only if on every call path the nearest declaration from the last job
   * upwards is within the nearest one from its caller upwards, and each local call names a workflow file that may be
   * called and was not entered before. A job's own declaration is nearer than its workflow's, and that nearer than the
   * caller's.
   */
  lemma AcceptedByDeclarations(files: Files, root: Workflow)
    ensures CallsAccepted(files, root, None, {})
       <==> forall path :: CallPath(files, root, path) ==> Allows(files, root, path)
  {
    if CallsAccepted(files, root, None, {}) {
      forall path | CallPath(files, root, path)
        ensures Allows(files, root, path)
      {
        AcceptedEndIsSound(files, root, None, {}, [], path);
        AllowsIsEndSound(files, root, path);
      }
    }
    if forall path :: CallPath(files, root, path) ==> Allows(files, root, path) {
      forall path | CallPath(files, root, path)
        ensures EndSound(files, root, [], {}, path, false)
      {
        AllowsIsEndSound(files, root, path);
      }
      SoundEndsAreAccepted(files, root, None, {}, []);
    }
  }

  lemma {:induction false} LastDeclarations(files: Files, w: Workflow, path: seq<nat>)
    requires CallPath(files, w, path)
    ensures Declarations(files, w, path)[2 * |path| - 1] == LastJob(files, w, path).permissions
    decreases |path|
  {
    if |path| > 1 { LastDeclarations(files, files[w.jobs[path[0]].uses], path[1..]); }
  }

  /**
   * A called job's own declaration, whatever its workflow declares, is within the nearest declaration above the call:
   * that of the calling job, else of its workflow, else of its own caller, and so on.
   */
  lemma OwnDeclarationIsCapped(files: Files, root: Workflow, path: seq<nat>, p: Permissions, q: Permissions)
    requires CallsAccepted(files, root, None, {}) && CallPath(files, root, path) && |path| > 1
    requires LastJob(files, root, path).permissions == Some(p)
    requires Nearest(Declarations(files, root, path)[..2 * |path| - 2], q)
    ensures CapAccepts(p, q)
  {
    AcceptedByDeclarations(files, root);
    assert Allows(files, root, path);
    LastDeclarations(files, root, path);
    assert LastMade(Declarations(files, root, path), 2 * |path| - 1, p);
  }

  lemma {:induction false} EffectiveFrom(files: Files, w: Workflow, allowed: Option<Permissions>, chain: set<string>,
                                         above: seq<Option<Permissions>>, path: seq<nat>)
    requires CallsAccepted(files, w, allowed, chain) && CallPath(files, w, path) && Matches(above, allowed)
    ensures Effective(files, w, allowed, path) == NearestOf(above + Declarations(files, w, path))
    decreases |path|
  {
    var job := w.jobs[path[0]];
    var own := [w.permissions, job.permissions];
    assert CallAccepted(files, w, allowed, chain, path[0]);
    NotBlank(files, w, allowed, chain, job);
    RunsWithNearest(w, allowed, job, above);
    if |path| == 1 {
      assert Declarations(files, w, path) == own;
    } else {
      EffectiveFrom(files, files[job.uses], Some(JobPermissions(w, allowed, job)), chain + {job.uses}, above + own,
                    path[1..]);
      Regroup(above, own, Declarations(files, files[job.uses], path[1..]));
    }
  }

  /** On an accepted path the last job runs with the nearest declaration, or with none when nobody declares any. */
  lemma EffectiveIsNearest(files: Files, root: Workflow, path: seq<nat>)
    requires CallsAccepted(files, root, None, {}) && CallPath(files, root, path)
    ensures Nearest(Declarations(files, root, path), Effective(files, root, None, path))
  {
    var ds := Declarations(files, root, path);
    EffectiveFrom(files, root, None, {}, [], path);
    assert [] + ds == ds;
    NearestIsOne(ds, NearestOf(ds));
  }

  // ----- levels ------------------------------------------------------------------------

  /** The words of a declaration for one scope, where it is understood. */
  ghost predicate Grants(p: Permissions, scope: string, level: string) {
    match p
    case Scopes(levels) => if scope in levels then levels[scope] == level else level == "none"
    case Word(text) => (text == "read-all" && level == "read") || (text == "write-all" && level == "write")
  }

  /** One scope is within the caller's: no access is, write access allows all, and read access allows itself. */
  lemma ScopeWithinMeans(requested: Permissions, allowed: Permissions, scope: string)
    ensures ScopeWithin(requested, allowed, scope)
       <==> exists need, cap :: Grants(requested, scope, need) && Grants(allowed, scope, cap)
              && need in {"none", "read", "write"} && cap in {"none", "read", "write"}
              && (need == "none" || cap == "write" || (need == "read" && cap == "read"))
  {
    if PermissionLevel(requested, scope).Returned? && PermissionLevel(allowed, scope).Returned? {
      var need, cap := PermissionLevel(requested, scope).value, PermissionLevel(allowed, scope).value;
      assert Grants(requested, scope, need) && Grants(allowed, scope, cap);
      assert forall level :: Grants(requested, scope, level) ==> level == need;
      assert forall level :: Grants(allowed, scope, level) ==> level == cap;
    }
  }
}
