/** Static permission caps over local workflow calls: a finite comparison that has to bound every scope. */
module PermissionCaps {
  import opened Common

  /** A permissions declaration: named scopes with their levels, or one word. */
  datatype Permissions = Scopes(levels: map<string, string>) | Word(text: string)

  datatype Job = Job(permissions: Option<Permissions>, uses: string)

  /** callable: `on` holds workflow_call; pinned: the CodeQL pins are accepted. */
  datatype Workflow = Workflow(permissions: Option<Permissions>, jobs: seq<Job>, callable: bool, pinned: bool)

  type Files = map<string, Workflow>

  // ----- one declaration against another -----------------------------------------------

  function PermissionLevel(p: Permissions, scope: string): Outcome<string> {
    match p
    case Scopes(levels) => Returned(if scope in levels then levels[scope] else "none")
    case Word(text) =>
      if text == "read-all" then Returned("read")
      else if text == "write-all" then Returned("write")
      else Raised
  }

  function Rank(level: string): Option<nat> {
    if level == "none" then Some(0)
    else if level == "read" then Some(1)
    else if level == "write" then Some(2)
    else None
  }

  /** The rank a declaration gives to a scope; None where the declaration or the level is not understood. */
  function Level(p: Permissions, scope: string): Option<nat> {
    match PermissionLevel(p, scope)
    case Returned(level) => Rank(level)
    case Raised => None
  }

  function NamedScopes(p: Permissions): set<string> {
    if p.Scopes? then p.levels.Keys else {}
  }

  predicate ScopeWithin(requested: Permissions, allowed: Permissions, scope: string) {
    Level(requested, scope).Some? && Level(allowed, scope).Some?
    && Level(requested, scope).value <= Level(allowed, scope).value
  }

  /** Every scope the check compares: the ones either side names, and "*". */
  ghost predicate CapAccepts(requested: Permissions, allowed: Permissions) {
    forall scope :: scope in {"*"} + NamedScopes(requested) + NamedScopes(allowed) ==>
                      ScopeWithin(requested, allowed, scope)
  }

  /** No scope at all, named or not, is higher than the caller's. */
  ghost predicate Within(requested: Permissions, allowed: Permissions) {
    forall scope :: ScopeWithin(requested, allowed, scope)
  }

  /** A blanket request against a caller that gives a level to a scope called "*". */
  predicate StarHole(requested: Permissions, allowed: Permissions) {
    requested.Word? && allowed.Scopes? && "*" in allowed.levels
  }

  method ValidatePermissionCap(requested: Permissions, allowed: Permissions) returns (ok: bool)
    ensures ok <==> CapAccepts(requested, allowed)
  {
    var scopes := {"*"};
    if requested.Scopes? {
      scopes := scopes + requested.levels.Keys;
    }
    if allowed.Scopes? {
      scopes := scopes + allowed.levels.Keys;
    }
    var todo := scopes;
    while todo != {}
      invariant todo <= scopes == {"*"} + NamedScopes(requested) + NamedScopes(allowed)
      invariant forall scope :: scope in scopes - todo ==> ScopeWithin(requested, allowed, scope)
      decreases |todo|
    {
      var scope :| scope in todo;
      todo := todo - {scope};
      assert scope in {"*"} + NamedScopes(requested) + NamedScopes(allowed);
      assert CapAccepts(requested, allowed) ==> ScopeWithin(requested, allowed, scope);
      var need := PermissionLevel(requested, scope);
      var cap := PermissionLevel(allowed, scope);
      if need.Raised? || cap.Raised? {
        return false;
      }
      if Rank(need.value).None? || Rank(cap.value).None? || Rank(need.value).value > Rank(cap.value).value {
        return false;
      }
    }
    return true;
  }

  /** A name that none of these is. */
  lemma {:induction false} UnusedName(names: set<string>) returns (name: string)
    ensures name !in names
    decreases |names|
  {
    name := LongerThan(names);
    assert name !in names;
  }

  /** A text longer than every one of these. */
  ghost function LongerThan(names: set<string>): (name: string)
    ensures forall n :: n in names ==> |n| < |name|
    decreases |names|
  {
    if names == {} then "x"
    else
      var n :| n in names;
      var rest := LongerThan(names - {n});
      if |n| < |rest| then rest else n + "x"
  }

  /** A request is within its caller on every scope exactly when the finite check accepts it and it is no star hole. */
  lemma FiniteCheckSuffices(requested: Permissions, allowed: Permissions)
    ensures Within(requested, allowed) <==> CapAccepts(requested, allowed) && !StarHole(requested, allowed)
  {
    if StarHole(requested, allowed) {
      var scope := UnusedName(allowed.levels.Keys);
      assert !ScopeWithin(requested, allowed, scope);
    } else if CapAccepts(requested, allowed) {
      assert ScopeWithin(requested, allowed, "*");
      forall scope: string
        ensures ScopeWithin(requested, allowed, scope)
      {
        if scope in NamedScopes(requested) + NamedScopes(allowed) {
        } else if requested.Word? && allowed.Scopes? {
          assert Level(allowed, "*") == Some(0);
        }
      }
    }
  }

  // ----- local calls -------------------------------------------------------------------

  predicate WorkflowNameChar(c: char) {
    'A' <= c <= 'Z' || 'a' <= c <= 'z' || '0' <= c <= '9' || c == '_' || c == '-'
  }

  const DIRECTORY := "./.github/workflows/"

  predicate Local(uses: string) {
    "./" <= uses
  }

  /** One workflow file of this repository, by its path. */
  predicate LocalWorkflow(uses: string) {
    && DIRECTORY <= uses
    && var name := uses[|DIRECTORY|..];
       (exists k :: 0 < k <= |name| && (name[k..] == ".yml" || name[k..] == ".yaml")
                    && forall i :: 0 <= i < k ==> WorkflowNameChar(name[i]))
  }

  /** What a job runs with: its own declaration, its workflow's, or what its caller allows. */
  function JobPermissions(w: Workflow, allowed: Option<Permissions>, job: Job): Permissions {
    if job.permissions.Some? then job.permissions.value
    else if w.permissions.Some? then w.permissions.value
    else if allowed.Some? && allowed.value != Word("") then allowed.value
    else Scopes(map[])
  }

  /** A call that can be followed: a workflow file that exists, may be called, and is not being validated already. */
  predicate Followed(files: Files, chain: set<string>, job: Job) {
    && Local(job.uses) && LocalWorkflow(job.uses) && job.uses !in chain
    && job.uses in files && files[job.uses].callable
  }

  /** What is checked of one job itself. */
  ghost predicate JobAccepted(files: Files, w: Workflow, allowed: Option<Permissions>, chain: set<string>, job: Job) {
    && (allowed.Some? ==> CapAccepts(JobPermissions(w, allowed, job), allowed.value))
    && (Local(job.uses) ==> Followed(files, chain, job) && files[job.uses].pinned)
  }

  ghost predicate CallAccepted(files: Files, w: Workflow, allowed: Option<Permissions>, chain: set<string>, i: nat)
    requires i < |w.jobs|
    decreases |files.Keys - chain|, 0
  {
    && JobAccepted(files, w, allowed, chain, w.jobs[i])
    && (Local(w.jobs[i].uses) ==>
          (Smaller(files.Keys, chain, w.jobs[i].uses);
           CallsAccepted(files, files[w.jobs[i].uses], Some(JobPermissions(w, allowed, w.jobs[i])),
                         chain + {w.jobs[i].uses})))
  }

  ghost predicate CallsAccepted(files: Files, w: Workflow, allowed: Option<Permissions>, chain: set<string>)
    decreases |files.Keys - chain|, 1
  {
    forall i :: 0 <= i < |w.jobs| ==> CallAccepted(files, w, allowed, chain, i)
  }

  /** Each call leaves one workflow file fewer to enter: this is why the recursion ends. */
  lemma Smaller(keys: set<string>, chain: set<string>, reference: string)
    requires reference in keys && reference !in chain
    ensures |keys - (chain + {reference})| < |keys - chain|
  {
    assert keys - (chain + {reference}) == (keys - chain) - {reference};
  }

  /** Recursion over the calls; the chain holds the workflow files being validated. */
  method ValidateLocalCalls(files: Files, w: Workflow, allowed: Option<Permissions>, chain: set<string>)
    returns (ok: bool)
    ensures ok <==> w.pinned && CallsAccepted(files, w, allowed, chain)
    decreases |files.Keys - chain|
  {
    if !w.pinned {
      return false;
    }
    for i := 0 to |w.jobs|
      invariant forall j :: 0 <= j < i ==> CallAccepted(files, w, allowed, chain, j)
    {
      var job := w.jobs[i];
      var permissions := JobPermissions(w, allowed, job);
      ghost var here := CallAccepted(files, w, allowed, chain, i);
      if allowed.Some? {
        var within := ValidatePermissionCap(permissions, allowed.value);
        if !within {
          assert !here;
          return false;
        }
      }
      if !Local(job.uses) {
        continue;
      }
      if !LocalWorkflow(job.uses) || job.uses in chain || job.uses !in files || !files[job.uses].callable {
        assert !here;
        return false;
      }
      Smaller(files.Keys, chain, job.uses);
      var nested := ValidateLocalCalls(files, files[job.uses], Some(permissions), chain + {job.uses});
      if !nested {
        assert !here;
        return false;
      }
    }
    return true;
  }

  // ----- call paths --------------------------------------------------------------------

  /** A call path: the job numbers from a job of w down through the workflows that are called. */
  ghost predicate CallPath(files: Files, w: Workflow, path: seq<nat>)
    decreases |path|
  {
    && path != [] && path[0] < |w.jobs|
    && (|path| > 1 ==>
          && var job := w.jobs[path[0]];
             Local(job.uses) && job.uses in files && CallPath(files, files[job.uses], path[1..]))
  }

  /** What the last job of a path runs with. */
  ghost function Effective(files: Files, w: Workflow, allowed: Option<Permissions>, path: seq<nat>): Permissions
    requires CallPath(files, w, path)
    decreases |path|
  {
    var job := w.jobs[path[0]];
    var permissions := JobPermissions(w, allowed, job);
    if |path| == 1 then permissions else Effective(files, files[job.uses], Some(permissions), path[1..])
  }

  /** No job on the path makes a blanket request of a caller that names the scope "*". */
  ghost predicate NoStarHole(files: Files, w: Workflow, allowed: Option<Permissions>, path: seq<nat>)
    requires CallPath(files, w, path)
    decreases |path|
  {
    var job := w.jobs[path[0]];
    var permissions := JobPermissions(w, allowed, job);
    && (allowed.Some? ==> !StarHole(permissions, allowed.value))
    && (|path| > 1 ==> NoStarHole(files, files[job.uses], Some(permissions), path[1..]))
  }

  lemma WithinTransitive(a: Permissions, b: Permissions, c: Permissions)
    requires Within(a, b) && Within(b, c)
    ensures Within(a, c)
  {
    forall scope: string
      ensures ScopeWithin(a, c, scope)
    {
      assert ScopeWithin(a, b, scope) && ScopeWithin(b, c, scope);
    }
  }

  /** Down any accepted path, the last job has no more than what the path was allowed, on any scope. */
  lemma {:induction false} PathWithinAllowed(files: Files, w: Workflow, allowed: Permissions, chain: set<string>,
                                             path: seq<nat>)
    requires CallsAccepted(files, w, Some(allowed), chain)
    requires CallPath(files, w, path) && NoStarHole(files, w, Some(allowed), path)
    ensures Within(Effective(files, w, Some(allowed), path), allowed)
    decreases |path|
  {
    var job := w.jobs[path[0]];
    var permissions := JobPermissions(w, Some(allowed), job);
    assert CallAccepted(files, w, Some(allowed), chain, path[0]);
    FiniteCheckSuffices(permissions, allowed);
    if |path| > 1 {
      PathWithinAllowed(files, files[job.uses], permissions, chain + {job.uses}, path[1..]);
      WithinTransitive(Effective(files, w, Some(allowed), path), permissions, allowed);
    }
  }

  /**
   * However deep the calls go, the last job of an accepted path has no more on any scope than the root job exactly if
   * the finite check would accept it against the root and is not fooled there; without a star hole on the way it
   * always has no more.
   */
  lemma PathWithinRoot(files: Files, root: Workflow, path: seq<nat>)
    requires CallsAccepted(files, root, None, {}) && CallPath(files, root, path) && |path| > 1
    ensures var last, first := Effective(files, root, None, path), Effective(files, root, None, path[..1]);
            && (Within(last, first) <==> CapAccepts(last, first) && !StarHole(last, first))
            && (NoStarHole(files, root, None, path) ==> Within(last, first))
  {
    var job := root.jobs[path[0]];
    assert CallAccepted(files, root, None, {}, path[0]);
    assert path[..1][0] == path[0];
    FiniteCheckSuffices(Effective(files, root, None, path), Effective(files, root, None, path[..1]));
    if NoStarHole(files, root, None, path) {
      PathWithinAllowed(files, files[job.uses], JobPermissions(root, None, job), {} + {job.uses}, path[1..]);
    }
  }

  /** The workflow files that a path calls, in order. */
  ghost function Entered(files: Files, w: Workflow, path: seq<nat>): (r: seq<string>)
    requires CallPath(files, w, path)
    ensures |r| == |path| - 1
    decreases |path|
  {
    var job := w.jobs[path[0]];
    if |path| == 1 then [] else [job.uses] + Entered(files, files[job.uses], path[1..])
  }

  /** No accepted path enters a workflow file twice, or one of its chain, so none is longer than there are files. */
  lemma {:induction false} AcceptedPathsAreShort(files: Files, w: Workflow, allowed: Option<Permissions>,
                                                 chain: set<string>, path: seq<nat>)
    requires CallsAccepted(files, w, allowed, chain) && CallPath(files, w, path)
    ensures Distinct(Entered(files, w, path))
    ensures forall k :: 0 <= k < |path| - 1 ==>
              Entered(files, w, path)[k] in files && Entered(files, w, path)[k] !in chain
    ensures |path| <= |files.Keys - chain| + 1
    decreases |path|
  {
    if |path| > 1 {
      var job := w.jobs[path[0]];
      assert CallAccepted(files, w, allowed, chain, path[0]);
      Smaller(files.Keys, chain, job.uses);
      AcceptedPathsAreShort(files, files[job.uses], Some(JobPermissions(w, allowed, job)), chain + {job.uses},
                            path[1..]);
      var rest := Entered(files, files[job.uses], path[1..]);
      assert forall k :: 0 <= k < |rest| ==> rest[k] in files && rest[k] !in chain + {job.uses};
    }
  }

  /** The job at the end of a path passes its own checks. */
  ghost predicate EndAccepted(files: Files, w: Workflow, allowed: Option<Permissions>, chain: set<string>,
                              path: seq<nat>)
    requires CallPath(files, w, path)
    decreases |path|
  {
    var job := w.jobs[path[0]];
    if |path| == 1 then JobAccepted(files, w, allowed, chain, job)
    else EndAccepted(files, files[job.uses], Some(JobPermissions(w, allowed, job)), chain + {job.uses}, path[1..])
  }

  lemma {:induction false} AcceptedPathEnds(files: Files, w: Workflow, allowed: Option<Permissions>, chain: set<string>,
                                            path: seq<nat>)
    requires CallsAccepted(files, w, allowed, chain) && CallPath(files, w, path)
    ensures EndAccepted(files, w, allowed, chain, path)
    decreases |path|
  {
    var job := w.jobs[path[0]];
    assert CallAccepted(files, w, allowed, chain, path[0]);
    if |path| > 1 {
      AcceptedPathEnds(files, files[job.uses], Some(JobPermissions(w, allowed, job)), chain + {job.uses}, path[1..]);
    }
  }

  lemma {:induction false} AllPathsAccepted(files: Files, w: Workflow, allowed: Option<Permissions>, chain: set<string>)
    requires forall path :: CallPath(files, w, path) ==> EndAccepted(files, w, allowed, chain, path)
    ensures CallsAccepted(files, w, allowed, chain)
    decreases |files.Keys - chain|
  {
    forall i | 0 <= i < |w.jobs|
      ensures CallAccepted(files, w, allowed, chain, i)
    {
      var job := w.jobs[i];
      assert CallPath(files, w, [i]);
      if Local(job.uses) {
        Smaller(files.Keys, chain, job.uses);
        var permissions := Some(JobPermissions(w, allowed, job));
        forall path | CallPath(files, files[job.uses], path)
          ensures EndAccepted(files, files[job.uses], permissions, chain + {job.uses}, path)
        {
          assert ([i] + path)[1..] == path;
          assert CallPath(files, w, [i] + path);
        }
        AllPathsAccepted(files, files[job.uses], permissions, chain + {job.uses});
      }
    }
  }

  /** Every job that any call path ends in passes its own checks. */
  ghost predicate EveryEndAccepted(files: Files, w: Workflow, allowed: Option<Permissions>, chain: set<string>) {
    forall path :: CallPath(files, w, path) ==> EndAccepted(files, w, allowed, chain, path)
  }

  /** Acceptance is exactly that. */
  lemma AcceptedByPaths(files: Files, w: Workflow, allowed: Option<Permissions>, chain: set<string>)
    ensures CallsAccepted(files, w, allowed, chain) <==> EveryEndAccepted(files, w, allowed, chain)
  {
    if CallsAccepted(files, w, allowed, chain) {
      forall path | CallPath(files, w, path)
        ensures EndAccepted(files, w, allowed, chain, path)
      {
        AcceptedPathEnds(files, w, allowed, chain, path);
      }
    }
    if EveryEndAccepted(files, w, allowed, chain) {
      AllPathsAccepted(files, w, allowed, chain);
    }
  }

  // ----- where the finite check is not enough ------------------------------------------

  /** A root job that gives "write" to a scope called "*" lets a called job have write on everything. */
  lemma StarHoleIsAccepted()
    ensures var reference := "./.github/workflows/a.yml";
            var called := Workflow(Some(Word("write-all")), [Job(None, "")], true, true);
            var root := Workflow(None, [Job(Some(Scopes(map["*" := "write"])), reference)], false, true);
            var files := map[reference := called];
            && CallsAccepted(files, root, None, {})
            && CallPath(files, root, [0, 0])
            && Level(Effective(files, root, None, [0, 0]), "contents") == Some(2)
            && Level(Effective(files, root, None, [0]), "contents") == Some(0)
  {
    var reference := "./.github/workflows/a.yml";
    var called := Workflow(Some(Word("write-all")), [Job(None, "")], true, true);
    var starred := Scopes(map["*" := "write"]);
    var root := Workflow(None, [Job(Some(starred), reference)], false, true);
    var files := map[reference := called];
    assert reference[|DIRECTORY|..] == "a.yml" && "a.yml"[1..] == ".yml";
    assert LocalWorkflow(reference);
    assert CapAccepts(Word("write-all"), starred);
    assert CallAccepted(files, called, Some(starred), {reference}, 0);
    assert {} + {reference} == {reference};
    assert CallAccepted(files, root, None, {}, 0);
    assert [0, 0][1..] == [0];
  }
}
