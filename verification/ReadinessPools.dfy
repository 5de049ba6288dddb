/** Runner pools: which ones a profile selects, and what may be said of the one it matches. */
module ReadinessPools {
  import opened Common
  import opened Readiness

  // ----- labels and scope --------------------------------------------------------------

  predicate NameChar(c: char) {
    'A' <= c <= 'Z' || 'a' <= c <= 'z' || '0' <= c <= '9' || c == '_' || c == '.' || c == '-'
  }

  predicate NameText(s: string) {
    s != "" && forall i :: 0 <= i < |s| ==> NameChar(s[i])
  }

  predicate ValidName(name: Option<string>) {
    name.Some? && NameText(name.value) && |name.value| <= 100
  }

  /** The labels, if there are any and none of them is malformed. */
  function ReadLabels(labels: seq<Option<string>>): Option<set<string>> {
    if labels == [] || exists i :: 0 <= i < |labels| && !ValidName(labels[i]) then None
    else Some(set i | 0 <= i < |labels| :: labels[i].value)
  }

  /** The declared labels, or the scale set's own name when there are none; None when any of them is malformed. */
  function PoolLabels(pool: Resource): Option<set<string>> {
    ReadLabels(
      if pool.spec.runnerLabels.Some? then pool.spec.runnerLabels.value
      else [if pool.spec.scaleSetName.Some? then pool.spec.scaleSetName.value else pool.meta.name])
  }

  datatype Binding = OwnRepository | OwnOrganization | Different | BindingUnknown

  function LowerChar(c: char): char {
    if 'A' <= c <= 'Z' then c + 32 as char else c
  }

  /** casefold() of the characters a repository or an accepted URL may hold. */
  function Lower(s: string): string {
    seq(|s|, i requires 0 <= i < |s| => LowerChar(s[i]))
  }

  /** The text before the first slash. */
  function Organization(s: string): string {
    if s == "" || s[0] == '/' then "" else [s[0]] + Organization(s[1..])
  }

  /** An organization, or an organization and a repository. */
  predicate Target(s: string) {
    var o := Organization(s);
    NameText(o) && (|o| == |s| || (|o| < |s| && NameText(s[|o| + 1..])))
  }

  function TargetOf(url: string): Option<string> {
    if !(HOST <= url) then None
    else
      var rest := url[|HOST|..];
      var body := if rest != "" && rest[|rest| - 1] == '/' then rest[..|rest| - 1] else rest;
      if Target(body) then Some(body) else None
  }

  function Scope(pool: Resource, repository: string): Binding {
    if pool.spec.url.None? then BindingUnknown
    else match TargetOf(pool.spec.url.value)
      case None => BindingUnknown
      case Some(target) =>
        if Lower(target) == Lower(repository) then OwnRepository
        else if Lower(target) == Lower(Organization(repository)) then OwnOrganization
        else Different
  }

  // ----- one pool ----------------------------------------------------------------------

  datatype Admission = Unspecified | AdmissionUnknown | Held | Enabled

  function AdmissionState(spec: Spec): Admission {
    match spec.maxRunners
    case Absent => Unspecified
    case NotNumber => AdmissionUnknown
    case Number(n) => if n < 0 then AdmissionUnknown else if n == 0 then Held else Enabled
  }

  datatype PoolState = PoolTerminating | PoolHeld | HeldWithDemand | IdleScaleToZero | WorkersObserved | PoolUnknown

  function PoolStateOf(pool: Resource, current: bool, listening: Listening, workers: Option<nat>): PoolState {
    if pool.meta.deleting then PoolTerminating
    else if AdmissionState(pool.spec) == Held then PoolHeld
    else if !(&& AdmissionState(pool.spec) == Enabled && current && listening.state == ListenerReady
              && listening.registered && listening.limits == LimitsMatched) then PoolUnknown
    else if workers == Some(0) && pool.spec.minRunners == Number(0) then IdleScaleToZero
    else if workers.Some? && workers.value > 0 then WorkersObserved
    else PoolUnknown
  }

  datatype Description = Description(pool: Resource, workers: Option<nat>, observedWorkers: nat, listening: Listening,
                                     state: PoolState)

  predicate ValidIdentity(pool: Resource) {
    ValidName(pool.meta.namespace) && ValidName(pool.meta.name)
  }

  predicate Current(pool: Resource) {
    pool.meta.generation.Number? && pool.meta.generation.value > 0
    && pool.status.observedGeneration == pool.meta.generation
  }

  function Describe(pool: Resource, listeners: Collection, pods: Collection): Description {
    var observed := |Workers(Items(pods), pool)|;
    var workers := if Covers(pods, pool.meta.namespace) then Some(observed) else None;
    var listening := DescribeListener(pool, listeners, pods);
    Description(pool, workers, observed, listening, PoolStateOf(pool, Current(pool), listening, workers))
  }

  ghost predicate WorkerVerdict(d: Description, pods: seq<Resource>) {
    && (d.workers.Some? ==> d.workers.value == |Workers(pods, d.pool)|)
    && d.observedWorkers <= |Workers(pods, d.pool)|
  }

  /** The pool's one listener has registered its scale set and runs with the pool's limits, none of them a minimum. */
  ghost predicate Reconciled(pool: Resource, listeners: seq<Resource>) {
    var linked := LinkedTo(listeners, pool);
    && |linked| == 1 && Current(pool)
    && linked[0].spec.scaleSetId.Number? && linked[0].spec.scaleSetId.value > 0
    && pool.spec.maxRunners.Number? && pool.spec.maxRunners.value > 0
    && linked[0].spec.maxRunners == pool.spec.maxRunners
    && (linked[0].spec.minRunners.Absent? ==> pool.spec.minRunners == Number(0))
    && (!linked[0].spec.minRunners.Absent? ==> linked[0].spec.minRunners == pool.spec.minRunners)
  }

  /** Idle, scaled to zero: one registered, ready and reconciled listener, no minimum, and no worker. */
  ghost predicate Idle(pool: Resource, listeners: seq<Resource>, pods: seq<Resource>) {
    && OneReadyListener(pool, listeners, pods) && Reconciled(pool, listeners)
    && !pool.meta.deleting && pool.spec.minRunners == Number(0) && Workers(pods, pool) == []
  }

  ghost predicate StateVerdict(d: Description, listeners: seq<Resource>, pods: seq<Resource>) {
    match d.state
    case IdleScaleToZero => Idle(d.pool, listeners, pods)
    case WorkersObserved =>
      OneReadyListener(d.pool, listeners, pods) && Reconciled(d.pool, listeners) && Workers(pods, d.pool) != []
    case PoolHeld => d.pool.spec.maxRunners == Number(0)
    case PoolTerminating => d.pool.meta.deleting
    case HeldWithDemand => false
    case PoolUnknown => true
  }

  /** What the verdicts about a pool say of the whole cluster. */
  ghost predicate PoolVerdict(d: Description, listeners: seq<Resource>, pods: seq<Resource>) {
    && ListenerVerdict(d.listening.state, d.pool, listeners, pods)
    && WorkerVerdict(d, pods)
    && StateVerdict(d, listeners, pods)
  }

  lemma WorkerVerdictHolds(pool: Resource, listeners: Collection, pods: Collection, morePods: seq<Resource>)
    requires MayMiss(pods, morePods)
    ensures WorkerVerdict(Describe(pool, listeners, pods), Items(pods) + morePods)
  {
    ObservedSelection(pods, morePods, pod => Worker(pod, pool));
    if Covers(pods, pool.meta.namespace) {
      CoveredSelection(pods, morePods, pool.meta.namespace, pod => Worker(pod, pool));
    }
  }

  /** A listener found ready was the only one, and its limits are what was compared. */
  lemma ReadyIsReconciled(pool: Resource, listeners: Collection, pods: Collection, more: seq<Resource>)
    requires MayMiss(listeners, more)
    requires PoolStateOf(pool, Current(pool), DescribeListener(pool, listeners, pods), Some(0)) == IdleScaleToZero
          || PoolStateOf(pool, Current(pool), DescribeListener(pool, listeners, pods), Some(1)) == WorkersObserved
    ensures Reconciled(pool, Items(listeners) + more)
  {
    NothingUnseen(listeners, more);
    assert Items(listeners) + more == Items(listeners);
  }

  lemma StateFollows(pool: Resource, listeners: Collection, pods: Collection, more: seq<Resource>,
                     allPods: seq<Resource>)
    requires MayMiss(listeners, more)
    requires ListenerVerdict(DescribeListener(pool, listeners, pods).state, pool, Items(listeners) + more, allPods)
    requires WorkerVerdict(Describe(pool, listeners, pods), allPods)
    ensures StateVerdict(Describe(pool, listeners, pods), Items(listeners) + more, allPods)
  {
    var d := Describe(pool, listeners, pods);
    if d.state == IdleScaleToZero {
      ReadyIsReconciled(pool, listeners, pods, more);
      assert |Workers(allPods, pool)| == 0;
    } else if d.state == WorkersObserved {
      ReadyIsReconciled(pool, listeners, pods, more);
    }
  }

  /** With everything listed, an idle pool is also reported idle: the verdict is exact. */
  lemma IdleIsReported(pool: Resource, listeners: Collection, pods: Collection)
    requires Covers(listeners, None) && Covers(pods, None)
    requires forall l :: l in LinkedTo(Items(listeners), pool) ==> Named(l.meta)
    ensures Describe(pool, listeners, pods).state == IdleScaleToZero <==> Idle(pool, Items(listeners), Items(pods))
  {
    var linked := LinkedTo(Items(listeners), pool);
    if Idle(pool, Items(listeners), Items(pods)) {
      assert linked[0] in linked;
      assert ListenerPodState(linked[0], pool, listeners, pods) == ListenerReady;
    } else {
      PoolVerdictHolds(pool, listeners, pods, [], []);
      assert Items(listeners) + [] == Items(listeners) && Items(pods) + [] == Items(pods);
    }
  }

  lemma PoolVerdictHolds(pool: Resource, listeners: Collection, pods: Collection,
                         moreListeners: seq<Resource>, morePods: seq<Resource>)
    requires MayMiss(listeners, moreListeners) && MayMiss(pods, morePods)
    ensures PoolVerdict(Describe(pool, listeners, pods), Items(listeners) + moreListeners, Items(pods) + morePods)
  {
    ListenerVerdictHolds(pool, listeners, pods, moreListeners, morePods);
    WorkerVerdictHolds(pool, listeners, pods, morePods);
    StateFollows(pool, listeners, pods, moreListeners, Items(pods) + morePods);
  }

  // ----- selecting pools ---------------------------------------------------------------

  predicate Carries(pool: Resource, wanted: set<string>) {
    PoolLabels(pool).Some? && wanted <= PoolLabels(pool).value
  }

  predicate Eligible(pool: Resource, repository: string, wanted: set<string>) {
    Carries(pool, wanted) && Scope(pool, repository) in {OwnRepository, OwnOrganization}
  }

  /** A pool that can be placed neither inside nor outside the selection. */
  predicate Unreadable(pool: Resource, repository: string, wanted: set<string>) {
    PoolLabels(pool).None? || (Carries(pool, wanted) && Scope(pool, repository) == BindingUnknown)
  }

  predicate ElsewherePool(pool: Resource, repository: string, wanted: set<string>) {
    Carries(pool, wanted) && Scope(pool, repository) == Different
  }

  function EligibleIn(s: seq<Resource>, repository: string, wanted: set<string>): seq<Resource> {
    Where(s, pool => Eligible(pool, repository, wanted))
  }

  datatype Configuration = Ambiguous | Unknown | Matched | ScopeMismatch | NoPool

  function ConfigurationState(matches: nat, unknown: bool, elsewhere: bool): Configuration {
    if matches > 1 then Ambiguous
    else if unknown then Unknown
    else if matches > 0 then Matched
    else if elsewhere then ScopeMismatch
    else NoPool
  }

  predicate AnyUnreadable(s: seq<Resource>, repository: string, wanted: set<string>) {
    exists i :: 0 <= i < |s| && Unreadable(s[i], repository, wanted)
  }

  predicate AnyElsewhere(s: seq<Resource>, repository: string, wanted: set<string>) {
    exists i :: 0 <= i < |s| && ElsewherePool(s[i], repository, wanted)
  }

  function Verdict(repository: string, wanted: set<string>, pools: Collection): Configuration {
    ConfigurationState(|EligibleIn(Items(pools), repository, wanted)|,
                       !Covers(pools, None) || AnyUnreadable(Items(pools), repository, wanted),
                       AnyElsewhere(Items(pools), repository, wanted))
  }

  /** The descriptions of the eligible pools, in order. */
  function DescribeAll(s: seq<Resource>, listeners: Collection, pods: Collection): seq<Description> {
    seq(|s|, i requires 0 <= i < |s| => Describe(s[i], listeners, pods))
  }

  function MatchesIn(s: seq<Resource>, repository: string, wanted: set<string>, listeners: Collection, pods: Collection)
    : seq<Description>
  {
    DescribeAll(EligibleIn(s, repository, wanted), listeners, pods)
  }

  lemma MatchesSnoc(s: seq<Resource>, i: nat, repository: string, wanted: set<string>, listeners: Collection,
                    pods: Collection)
    requires i < |s|
    ensures MatchesIn(s[..i + 1], repository, wanted, listeners, pods)
         == MatchesIn(s[..i], repository, wanted, listeners, pods)
            + if Eligible(s[i], repository, wanted) then [Describe(s[i], listeners, pods)] else []
  {
    WhereConcat(s[..i], [s[i]], pool => Eligible(pool, repository, wanted));
    assert s[..i + 1] == s[..i] + [s[i]];
  }

  lemma UnreadableSnoc(s: seq<Resource>, i: nat, repository: string, wanted: set<string>)
    requires i < |s|
    ensures AnyUnreadable(s[..i + 1], repository, wanted)
       <==> AnyUnreadable(s[..i], repository, wanted) || Unreadable(s[i], repository, wanted)
  {
    var before, after := s[..i], s[..i + 1];
    assert after == before + [s[i]];
    if Unreadable(s[i], repository, wanted) {
      assert after[i] == s[i];
    } else if AnyUnreadable(before, repository, wanted) {
      var j :| 0 <= j < i && Unreadable(before[j], repository, wanted);
      assert after[j] == before[j];
    }
  }

  lemma ElsewhereSnoc(s: seq<Resource>, i: nat, repository: string, wanted: set<string>)
    requires i < |s|
    ensures AnyElsewhere(s[..i + 1], repository, wanted)
       <==> AnyElsewhere(s[..i], repository, wanted) || ElsewherePool(s[i], repository, wanted)
  {
    var before, after := s[..i], s[..i + 1];
    assert after == before + [s[i]];
    if ElsewherePool(s[i], repository, wanted) {
      assert after[i] == s[i];
    } else if AnyElsewhere(before, repository, wanted) {
      var j :| 0 <= j < i && ElsewherePool(before[j], repository, wanted);
      assert after[j] == before[j];
    }
  }

  /** Every eligible pool has a valid identity. */
  predicate AllIdentified(s: seq<Resource>, repository: string, wanted: set<string>) {
    forall i :: 0 <= i < |s| && Eligible(s[i], repository, wanted) ==> ValidIdentity(s[i])
  }

  lemma IdentifiedSnoc(s: seq<Resource>, i: nat, repository: string, wanted: set<string>)
    requires i < |s|
    ensures AllIdentified(s[..i + 1], repository, wanted)
       <==> AllIdentified(s[..i], repository, wanted) && (Eligible(s[i], repository, wanted) ==> ValidIdentity(s[i]))
    ensures AllIdentified(s, repository, wanted) ==> AllIdentified(s[..i + 1], repository, wanted)
  {
    assert s[..i + 1] == s[..i] + [s[i]];
  }

  /** One pass over the observed pools; an eligible pool without a valid identity makes the snapshot invalid. */
  method MatchingPools(repository: string, wanted: set<string>, pools: Collection, listeners: Collection,
                       pods: Collection)
    returns (matches: seq<Description>, configuration: Outcome<Configuration>)
    ensures configuration.Raised? <==> !AllIdentified(Items(pools), repository, wanted)
    ensures configuration.Returned? ==>
              && matches == MatchesIn(Items(pools), repository, wanted, listeners, pods)
              && configuration.value == Verdict(repository, wanted, pools)
  {
    matches := [];
    var elsewhere := false;
    var unknown := !Covers(pools, None);
    var items := Items(pools);
    for i := 0 to |items|
      invariant AllIdentified(items[..i], repository, wanted)
      invariant matches == MatchesIn(items[..i], repository, wanted, listeners, pods)
      invariant unknown <==> !Covers(pools, None) || AnyUnreadable(items[..i], repository, wanted)
      invariant elsewhere <==> AnyElsewhere(items[..i], repository, wanted)
    {
      var pool := items[i];
      MatchesSnoc(items, i, repository, wanted, listeners, pods);
      IdentifiedSnoc(items, i, repository, wanted);
      UnreadableSnoc(items, i, repository, wanted);
      ElsewhereSnoc(items, i, repository, wanted);
      var available := PoolLabels(pool);
      if available.None? {
        unknown := true;
        continue;
      }
      if !(wanted <= available.value) {
        continue;
      }
      var binding := Scope(pool, repository);
      if binding == Different {
        elsewhere := true;
      } else if binding == BindingUnknown {
        unknown := true;
      } else if !ValidIdentity(pool) {
        return matches, Raised;
      } else {
        matches := matches + [Describe(pool, listeners, pods)];
      }
    }
    assert items[..|items|] == items;
    configuration := Returned(ConfigurationState(|matches|, unknown, elsewhere));
  }

  /** What each verdict about a profile's configuration says of the whole cluster. */
  ghost predicate ConfigurationVerdict(verdict: Configuration, pools: seq<Resource>, repository: string,
                                       wanted: set<string>) {
    var eligible := |EligibleIn(pools, repository, wanted)|;
    match verdict
    case Ambiguous => eligible > 1
    case Matched => eligible == 1
    case ScopeMismatch => eligible == 0 && AnyElsewhere(pools, repository, wanted)
    case NoPool => forall i :: 0 <= i < |pools| ==> !Carries(pools[i], wanted)
    case Unknown => true
  }

  lemma ConfigurationVerdictHolds(repository: string, wanted: set<string>, pools: Collection, more: seq<Resource>)
    requires MayMiss(pools, more)
    ensures ConfigurationVerdict(Verdict(repository, wanted, pools), Items(pools) + more, repository, wanted)
  {
    ObservedSelection(pools, more, pool => Eligible(pool, repository, wanted));
    if Covers(pools, None) {
      NothingUnseen(pools, more);
      assert Items(pools) + more == Items(pools);
      if Verdict(repository, wanted, pools) == NoPool { NoneCarries(repository, wanted, Items(pools)); }
    }
  }

  lemma NoneCarries(repository: string, wanted: set<string>, s: seq<Resource>)
    requires EligibleIn(s, repository, wanted) == []
    requires !AnyUnreadable(s, repository, wanted) && !AnyElsewhere(s, repository, wanted)
    ensures forall i :: 0 <= i < |s| ==> !Carries(s[i], wanted)
  {
    forall i | 0 <= i < |s|
      ensures !Carries(s[i], wanted)
    {
      assert !Unreadable(s[i], repository, wanted) && !ElsewherePool(s[i], repository, wanted);
      if Eligible(s[i], repository, wanted) { SomeWhere(s, pool => Eligible(pool, repository, wanted), i); }
    }
  }

  // ----- unknown is the only sound answer then -----------------------------------------

  /** A pool with this identity that offers these labels to this repository. */
  function Offering(namespace: string, name: string, labels: seq<string>, repository: string): Resource {
    Resource(Meta(Some(namespace), Some(name), None, false, map[], [], Absent),
             Spec(Some(HOST + repository), Some(seq(|labels|, i requires 0 <= i < |labels| => Some(labels[i]))),
                  None, Absent, Absent, Absent),
             Status("", [], [], Absent))
  }

  function LabelSet(labels: seq<string>): set<string> {
    set i | 0 <= i < |labels| :: labels[i]
  }

  lemma OfferedLabels(namespace: string, name: string, labels: seq<string>, repository: string)
    requires labels != [] && forall i :: 0 <= i < |labels| ==> ValidName(Some(labels[i]))
    ensures PoolLabels(Offering(namespace, name, labels, repository)) == Some(LabelSet(labels))
  {
    var offered := Offering(namespace, name, labels, repository).spec.runnerLabels.value;
    forall i | 0 <= i < |offered|
      ensures ValidName(offered[i])
    {
      assert offered[i] == Some(labels[i]);
    }
    assert PoolLabels(Offering(namespace, name, labels, repository)).Some?;
    SameLabels(labels, PoolLabels(Offering(namespace, name, labels, repository)).value, offered);
  }

  lemma SameLabels(labels: seq<string>, available: set<string>, offered: seq<Option<string>>)
    requires |offered| == |labels| && forall i :: 0 <= i < |labels| ==> offered[i] == Some(labels[i])
    requires available == set i | 0 <= i < |offered| :: offered[i].value
    ensures available == LabelSet(labels)
  {
    forall i | 0 <= i < |labels|
      ensures labels[i] in available
    {
      assert offered[i].value in available;
    }
  }

  lemma {:induction false} OrganizationIsPrefix(s: string)
    ensures Organization(s) <= s
    ensures |Organization(s)| < |s| ==> s[|Organization(s)|] == '/'
  {
    if s != "" && s[0] != '/' { OrganizationIsPrefix(s[1..]); }
  }

  lemma OfferedScope(namespace: string, name: string, labels: seq<string>, repository: string)
    requires Target(repository)
    ensures Scope(Offering(namespace, name, labels, repository), repository) == OwnRepository
  {
    OrganizationIsPrefix(repository);
    var last := |repository| - 1;
    var o := Organization(repository);
    assert NameChar(repository[last]) by {
      if |o| == |repository| { assert o == repository && NameChar(o[last]); }
      else { assert repository[|o| + 1..][last - |o| - 1] == repository[last]; }
    }
    assert (HOST + repository)[|HOST|..] == repository;
  }

  ghost predicate Taken(pools: seq<Resource>, namespace: string, name: string) {
    exists i :: 0 <= i < |pools| && pools[i].meta.namespace == Some(namespace) && pools[i].meta.name == Some(name)
  }

  /** Definite verdicts that are true of both clusters. */
  ghost predicate SomeVerdictFits(a: seq<Resource>, b: seq<Resource>, repository: string, wanted: set<string>) {
    exists verdict :: verdict != Unknown && ConfigurationVerdict(verdict, a, repository, wanted)
                      && ConfigurationVerdict(verdict, b, repository, wanted)
  }

  /**
   * Where an uncovered listing leaves the verdict open, the cluster may still turn out either way: some valid namespace
   * is outside the listing, and two more pools in it, with valid names of their own, leave no definite verdict true.
   */
  lemma UnknownIsForced(repository: string, labels: seq<string>, pools: Collection, namespace: string, first: string,
                        second: string) returns (more: seq<Resource>)
    requires Target(repository)
    requires labels != [] && forall i :: 0 <= i < |labels| ==> ValidName(Some(labels[i]))
    requires Verdict(repository, LabelSet(labels), pools) == Unknown && !Covers(pools, None)
    requires ValidName(Some(namespace)) && !Covers(pools, Some(namespace))
    requires ValidName(Some(first)) && ValidName(Some(second)) && first != second
    requires !Taken(Items(pools), namespace, first) && !Taken(Items(pools), namespace, second)
    ensures MayMiss(pools, []) && MayMiss(pools, more)
    ensures |more| == 2 && (forall i :: 0 <= i < 2 ==> ValidIdentity(more[i]))
    ensures more[0].meta.name == Some(first) && more[1].meta.name == Some(second)
    ensures forall i :: 0 <= i < 2 ==> more[i].meta.namespace == Some(namespace)
    ensures AllIdentified(Items(pools), repository, LabelSet(labels)) ==>
              AllIdentified(Items(pools) + more, repository, LabelSet(labels))
    ensures !SomeVerdictFits(Items(pools) + [], Items(pools) + more, repository, LabelSet(labels))
  {
    var wanted := LabelSet(labels);
    var a, b := Offering(namespace, first, labels, repository), Offering(namespace, second, labels, repository);
    more := [a, b];
    OfferedLabels(namespace, first, labels, repository);
    OfferedLabels(namespace, second, labels, repository);
    OfferedScope(namespace, first, labels, repository);
    OfferedScope(namespace, second, labels, repository);
    TwoMore(repository, wanted, Items(pools), a, b);
    assert Items(pools) + [] == Items(pools);
  }

  /** Without such a namespace a listing that ran to its end has missed no pool with a valid identity. */
  lemma NoValidPoolIsUnseen(pools: Collection, more: seq<Resource>)
    requires Exhausted(pools) && MayMiss(pools, more)
    requires forall namespace :: ValidName(Some(namespace)) ==> Covers(pools, Some(namespace))
    ensures forall i :: 0 <= i < |more| ==> !ValidIdentity(more[i])
  {
    forall i | 0 <= i < |more|
      ensures !ValidIdentity(more[i])
    {
      var namespace := more[i].meta.namespace;
      assert namespace.Some? ==> namespace == Some(namespace.value);
    }
  }

  lemma TwoMore(repository: string, wanted: set<string>, s: seq<Resource>, a: Resource, b: Resource)
    requires Eligible(a, repository, wanted) && Eligible(b, repository, wanted)
    ensures |EligibleIn(s + [a, b], repository, wanted)| == |EligibleIn(s, repository, wanted)| + 2
    ensures Carries((s + [a, b])[|s|], wanted)
  {
    var p := pool => Eligible(pool, repository, wanted);
    WhereConcat(s, [a, b], p);
    WhereConcat([a], [b], p);
    assert [a] + [b] == [a, b] && [a][1..] == [] && [b][1..] == [];
    assert Where([a], p) == [a] && Where([b], p) == [b];
  }

  // ----- one profile -------------------------------------------------------------------

  function ProfileState(configuration: Configuration, matches: seq<Description>, demand: Option<nat>): PoolState {
    var state := if configuration == Matched && |matches| == 1 then matches[0].state else PoolUnknown;
    if state == PoolHeld && demand.Some? && demand.value > 0 then HeldWithDemand else state
  }

  /** A profile reported idle: one eligible pool in the whole cluster, one ready listener, and no worker at all. */
  lemma IdleProfile(repository: string, wanted: set<string>, pools: Collection, listeners: Collection, pods: Collection,
                    morePools: seq<Resource>, moreListeners: seq<Resource>, morePods: seq<Resource>,
                    demand: Option<nat>)
    requires MayMiss(pools, morePools) && MayMiss(listeners, moreListeners) && MayMiss(pods, morePods)
    requires ProfileState(Verdict(repository, wanted, pools),
                          MatchesIn(Items(pools), repository, wanted, listeners, pods), demand)
             == IdleScaleToZero
    ensures var eligible := EligibleIn(Items(pools) + morePools, repository, wanted);
            && |eligible| == 1
            && Idle(eligible[0], Items(listeners) + moreListeners, Items(pods) + morePods)
  {
    var observed := EligibleIn(Items(pools), repository, wanted);
    MatchIsComplete(repository, wanted, pools, morePools);
    PoolVerdictHolds(observed[0], listeners, pods, moreListeners, morePods);
  }

  lemma MatchIsComplete(repository: string, wanted: set<string>, pools: Collection, more: seq<Resource>)
    requires MayMiss(pools, more) && Verdict(repository, wanted, pools) == Matched
    ensures |EligibleIn(Items(pools), repository, wanted)| == 1
    ensures EligibleIn(Items(pools) + more, repository, wanted) == EligibleIn(Items(pools), repository, wanted)
  {
    NothingUnseen(pools, more);
    assert Items(pools) + more == Items(pools);
  }
}
