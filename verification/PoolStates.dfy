/** When each state is reported, for any listing: the states of listeners, pools and profiles, by fields and labels. */
module PoolStates {
  import opened Common
  import opened Readiness
  import opened ReadinessPools
  import opened ReadinessMeaning
  import opened PoolMeaning

  // ----- listeners ---------------------------------------------------------------------

  ghost predicate NonEmpty(text: Option<string>) {
    text.Some? && |text.value| > 0
  }

  /** The only listener linked to the pool; it names itself completely. */
  ghost predicate SoleListener(listeners: seq<Resource>, pool: Resource, l: nat) {
    && OnlyListener(listeners, pool, l)
    && NonEmpty(listeners[l].meta.name) && NonEmpty(listeners[l].meta.namespace) && NonEmpty(listeners[l].meta.uid)
  }

  /** The sole listener is there in the scope of the pool. */
  ghost predicate Listens(listeners: seq<Resource>, pool: Resource, l: nat) {
    SoleListener(listeners, pool, l) && listeners[l].spec.url == pool.spec.url && !listeners[l].meta.deleting
  }

  ghost predicate NoListener(listeners: seq<Resource>, pool: Resource) {
    forall i :: 0 <= i < |listeners| ==> !Links(listeners[i], pool)
  }

  /** The condition under which each state of a listener is reported. */
  ghost predicate ListenerReported(state: ListenerState, pool: Resource, listeners: Collection, pods: Collection) {
    var seen, owned := Items(listeners), Items(pods);
    match state
    case ListenerAbsent => NoListener(seen, pool) && Complete(listeners, None)
    case ScopeDiffers => exists l: nat :: SoleListener(seen, pool, l) && seen[l].spec.url != pool.spec.url
    case Terminating =>
      exists l: nat :: SoleListener(seen, pool, l) && seen[l].spec.url == pool.spec.url && seen[l].meta.deleting
    case ListenerAmbiguous =>
      TwoListeners(seen, pool) || exists l: nat :: Listens(seen, pool, l) && TwoPods(owned, seen[l], pool)
    case PodAbsent =>
      exists l: nat :: Listens(seen, pool, l) && NoPod(owned, seen[l], pool) && Complete(pods, seen[l].meta.namespace)
    case NotReady =>
      exists l: nat, d: nat :: Listens(seen, pool, l) && OnlyPod(owned, seen[l], pool, d) && !IsReady(owned[d])
    case ListenerReady =>
      exists l: nat, d: nat :: Listens(seen, pool, l) && OnlyPod(owned, seen[l], pool, d) && IsReady(owned[d])
                               && Complete(listeners, None) && Complete(pods, seen[l].meta.namespace)
    case ObservedReady =>
      exists l: nat, d: nat :: Listens(seen, pool, l) && OnlyPod(owned, seen[l], pool, d) && IsReady(owned[d])
                               && !(Complete(listeners, None) && Complete(pods, seen[l].meta.namespace))
    case ListenerUnknown =>
      || (NoListener(seen, pool) && !Complete(listeners, None))
      || (exists l: nat :: OnlyListener(seen, pool, l) && !SoleListener(seen, pool, l))
      || exists l: nat :: Listens(seen, pool, l) && NoPod(owned, seen[l], pool)
                          && !Complete(pods, seen[l].meta.namespace)
  }

  /** What is reported of the Pods of a pool's one listener. */
  ghost predicate PodReported(state: ListenerState, l: Resource, pool: Resource, listeners: Collection,
                              pods: Collection) {
    var owned := Items(pods);
    match state
    case ListenerAmbiguous => TwoPods(owned, l, pool)
    case PodAbsent => NoPod(owned, l, pool) && Complete(pods, l.meta.namespace)
    case NotReady => exists d: nat :: OnlyPod(owned, l, pool, d) && !IsReady(owned[d])
    case ListenerReady => exists d: nat :: OnlyPod(owned, l, pool, d) && IsReady(owned[d])
                                           && Complete(listeners, None) && Complete(pods, l.meta.namespace)
    case ObservedReady => exists d: nat :: OnlyPod(owned, l, pool, d) && IsReady(owned[d])
                                           && !(Complete(listeners, None) && Complete(pods, l.meta.namespace))
    case ListenerUnknown => NoPod(owned, l, pool) && !Complete(pods, l.meta.namespace)
    case _ => false
  }

  lemma PodStateIsReported(l: Resource, pool: Resource, listeners: Collection, pods: Collection)
    requires !l.meta.deleting
    ensures PodReported(ListenerPodState(l, pool, listeners, pods), l, pool, listeners, pods)
  {
    var owned := ListenerPods(Items(pods), l, pool);
    CoversMeans(listeners, None, []);
    CoversMeans(pods, l.meta.namespace, []);
    TwoOwned(Items(pods), l, pool);
    NoneOwned(Items(pods), l, pool);
    if |owned| == 1 {
      ListenerPodsMean(Items(pods), l, pool);
      var d: nat :| OnlyPod(Items(pods), l, pool, d);
      PodsMean(Items(pods)[d], l, pool);
    }
  }

  /** Each state is reported under its condition ... */
  lemma ListenerStateIsReported(pool: Resource, listeners: Collection, pods: Collection)
    ensures ListenerReported(DescribeListener(pool, listeners, pods).state, pool, listeners, pods)
  {
    var seen := Items(listeners);
    var linked := LinkedTo(seen, pool);
    LinkedToMeans(seen, pool);
    CoversMeans(listeners, None, []);
    if |linked| == 1 {
      var l: nat :| OnlyListener(seen, pool, l);
      assert linked == [seen[l]];
      if Named(seen[l].meta) {
        assert SoleListener(seen, pool, l);
        if seen[l].spec.url == pool.spec.url && !seen[l].meta.deleting {
          assert Listens(seen, pool, l);
          PodStateIsReported(seen[l], pool, listeners, pods);
        }
      } else {
        assert !SoleListener(seen, pool, l);
      }
    }
  }

  /** Which listener a condition speaks of. */
  ghost predicate Concerns(state: ListenerState, pool: Resource, listeners: Collection, pods: Collection, l: nat) {
    && OnlyListener(Items(listeners), pool, l)
    && if !SoleListener(Items(listeners), pool, l) then state == ListenerUnknown
       else if Items(listeners)[l].spec.url != pool.spec.url then state == ScopeDiffers
       else if Items(listeners)[l].meta.deleting then state == Terminating
       else PodReported(state, Items(listeners)[l], pool, listeners, pods)
  }

  /** The conditions that speak of the number of listeners alone. */
  ghost predicate Counted(state: ListenerState, pool: Resource, listeners: Collection) {
    || (state == ListenerAmbiguous && TwoListeners(Items(listeners), pool))
    || (NoListener(Items(listeners), pool)
        && state == if Complete(listeners, None) then ListenerAbsent else ListenerUnknown)
  }

  ghost predicate CountedOrConcerned(state: ListenerState, pool: Resource, listeners: Collection, pods: Collection) {
    Counted(state, pool, listeners) || exists l: nat :: Concerns(state, pool, listeners, pods, l)
  }

  lemma ConditionConcerns(state: ListenerState, pool: Resource, listeners: Collection, pods: Collection)
    requires ListenerReported(state, pool, listeners, pods)
    ensures CountedOrConcerned(state, pool, listeners, pods)
  {
    var seen, owned := Items(listeners), Items(pods);
    if state == ListenerUnknown {
      if l: nat :| OnlyListener(seen, pool, l) && !SoleListener(seen, pool, l) {
        assert Concerns(state, pool, listeners, pods, l);
      } else if l: nat :| Listens(seen, pool, l) && NoPod(owned, seen[l], pool)
                          && !Complete(pods, seen[l].meta.namespace) {
        assert Concerns(state, pool, listeners, pods, l);
      }
    } else if state == ListenerAmbiguous && !TwoListeners(seen, pool) {
      var l: nat :| Listens(seen, pool, l) && TwoPods(owned, seen[l], pool);
      assert Concerns(state, pool, listeners, pods, l);
    } else if state == PodAbsent {
      var l: nat :| Listens(seen, pool, l) && NoPod(owned, seen[l], pool) && Complete(pods, seen[l].meta.namespace);
      assert Concerns(state, pool, listeners, pods, l);
    } else if state == NotReady {
      var l: nat, d: nat :| Listens(seen, pool, l) && OnlyPod(owned, seen[l], pool, d) && !IsReady(owned[d]);
      assert Concerns(state, pool, listeners, pods, l);
    } else if state == ScopeDiffers {
      var l: nat :| SoleListener(seen, pool, l) && seen[l].spec.url != pool.spec.url;
      assert Concerns(state, pool, listeners, pods, l);
    } else if state == Terminating {
      var l: nat :| SoleListener(seen, pool, l) && seen[l].spec.url == pool.spec.url && seen[l].meta.deleting;
      assert Concerns(state, pool, listeners, pods, l);
    } else if state == ListenerReady || state == ObservedReady {
      ReadyConcerns(state, pool, listeners, pods);
    }
  }

  lemma ReadyConcerns(state: ListenerState, pool: Resource, listeners: Collection, pods: Collection)
    requires state == ListenerReady || state == ObservedReady
    requires ListenerReported(state, pool, listeners, pods)
    ensures exists l: nat :: Concerns(state, pool, listeners, pods, l)
  {
    var seen, owned := Items(listeners), Items(pods);
    var l: nat, d: nat :| Listens(seen, pool, l) && OnlyPod(owned, seen[l], pool, d) && IsReady(owned[d])
                          && (state == ListenerReady
                              <==> Complete(listeners, None) && Complete(pods, seen[l].meta.namespace));
    assert Concerns(state, pool, listeners, pods, l);
  }

  lemma OnePodState(a: ListenerState, b: ListenerState, l: Resource, pool: Resource, listeners: Collection,
                    pods: Collection)
    requires PodReported(a, l, pool, listeners, pods) && PodReported(b, l, pool, listeners, pods)
    ensures a == b
  {
    TwoOwned(Items(pods), l, pool);
    NoneOwned(Items(pods), l, pool);
    ListenerPodsMean(Items(pods), l, pool);
  }

  lemma OneCondition(a: ListenerState, b: ListenerState, pool: Resource, listeners: Collection, pods: Collection)
    requires CountedOrConcerned(a, pool, listeners, pods) && CountedOrConcerned(b, pool, listeners, pods)
    ensures a == b
  {
    if l: nat :| Concerns(a, pool, listeners, pods, l) {
      ConcernsOne(a, pool, listeners, pods, l);
    }
    if l: nat :| Concerns(b, pool, listeners, pods, l) {
      ConcernsOne(b, pool, listeners, pods, l);
    }
    if l: nat, m: nat :| Concerns(a, pool, listeners, pods, l) && Concerns(b, pool, listeners, pods, m) {
      assert l == m;
      OneConcern(a, b, pool, listeners, pods, l);
    }
  }

  /** ... and under no other: the conditions exclude each other. */
  lemma ConditionsExclude(a: ListenerState, b: ListenerState, pool: Resource, listeners: Collection, pods: Collection)
    requires ListenerReported(a, pool, listeners, pods) && ListenerReported(b, pool, listeners, pods)
    ensures a == b
  {
    ConditionConcerns(a, pool, listeners, pods);
    ConditionConcerns(b, pool, listeners, pods);
    OneCondition(a, b, pool, listeners, pods);
  }

  lemma ConcernsOne(state: ListenerState, pool: Resource, listeners: Collection, pods: Collection, l: nat)
    requires Concerns(state, pool, listeners, pods, l)
    ensures !TwoListeners(Items(listeners), pool) && !NoListener(Items(listeners), pool)
  {
  }

  lemma OneConcern(a: ListenerState, b: ListenerState, pool: Resource, listeners: Collection, pods: Collection, l: nat)
    requires Concerns(a, pool, listeners, pods, l) && Concerns(b, pool, listeners, pods, l)
    ensures a == b
  {
    if PodReported(a, Items(listeners)[l], pool, listeners, pods)
       && PodReported(b, Items(listeners)[l], pool, listeners, pods) {
      OnePodState(a, b, Items(listeners)[l], pool, listeners, pods);
    }
  }

  /** For any listings, a listener's state is reported exactly under its condition. */
  lemma ListenerStateIsExact(state: ListenerState, pool: Resource, listeners: Collection, pods: Collection)
    ensures DescribeListener(pool, listeners, pods).state == state
       <==> ListenerReported(state, pool, listeners, pods)
  {
    ListenerStateIsReported(pool, listeners, pods);
    if ListenerReported(state, pool, listeners, pods) {
      ConditionsExclude(state, DescribeListener(pool, listeners, pods).state, pool, listeners, pods);
    }
  }

  // ----- pools -------------------------------------------------------------------------

  /** The sole listener in the scope of the pool, terminating or not. */
  ghost predicate InPoolScope(listeners: seq<Resource>, pool: Resource, l: nat) {
    SoleListener(listeners, pool, l) && listeners[l].spec.url == pool.spec.url
  }

  /** The limits can be compared: both maxima are numbers. */
  ghost predicate HasMaxima(listener: Resource, pool: Resource) {
    listener.spec.maxRunners.Number? && pool.spec.maxRunners.Number?
  }

  /** The limits are the same; a listener without a minimum of its own has none. */
  ghost predicate SameLimits(listener: Resource, pool: Resource) {
    && HasMaxima(listener, pool) && listener.spec.maxRunners == pool.spec.maxRunners
    && pool.spec.minRunners.Number? && pool.spec.minRunners.value >= 0
    && listener.spec.minRunners in {Absent, pool.spec.minRunners}
    && (listener.spec.minRunners == Absent ==> pool.spec.minRunners == Number(0))
  }

  /** The listener has a scale set and the limits of a pool that admits runners. */
  ghost predicate HasLimits(listener: Resource, pool: Resource) {
    && listener.spec.scaleSetId.Number? && listener.spec.scaleSetId.value > 0
    && SameLimits(listener, pool) && pool.spec.maxRunners.value > 0
  }

  /** Registration and limits are reported of the sole listener in the pool's scope, and of no other. */
  lemma LimitsAreExact(pool: Resource, listeners: Collection, pods: Collection)
    ensures var seen, d := Items(listeners), DescribeListener(pool, listeners, pods);
            && (d.registered <==> exists l: nat :: InPoolScope(seen, pool, l) && seen[l].spec.scaleSetId.Number?
                                                   && seen[l].spec.scaleSetId.value > 0)
            && (d.limits == LimitsMatched
                <==> exists l: nat :: InPoolScope(seen, pool, l) && SameLimits(seen[l], pool))
            && (d.limits == LimitsPending
                <==> exists l: nat :: InPoolScope(seen, pool, l) && HasMaxima(seen[l], pool)
                                      && !SameLimits(seen[l], pool))
  {
    var seen := Items(listeners);
    LinkedToMeans(seen, pool);
    if |LinkedTo(seen, pool)| == 1 {
      var l: nat :| OnlyListener(seen, pool, l);
      assert LinkedTo(seen, pool) == [seen[l]];
      assert Named(seen[l].meta) && seen[l].spec.url == pool.spec.url <==> InPoolScope(seen, pool, l);
    }
  }

  /** The pool is current, and its sole listener is seen to run with its limits and one ready Pod. */
  ghost predicate Operating(pool: Resource, listeners: Collection, pods: Collection) {
    && pool.meta.generation.Number? && pool.meta.generation.value > 0
    && pool.status.observedGeneration == pool.meta.generation
    && exists l: nat, d: nat :: RunsWith(pool, listeners, pods, l, d)
  }

  ghost predicate RunsWith(pool: Resource, listeners: Collection, pods: Collection, l: nat, d: nat) {
    && Listens(Items(listeners), pool, l) && HasLimits(Items(listeners)[l], pool)
    && OnlyPod(Items(pods), Items(listeners)[l], pool, d) && IsReady(Items(pods)[d])
    && Complete(listeners, None) && Complete(pods, Items(listeners)[l].meta.namespace)
  }

  lemma OperatingMeans(pool: Resource, listeners: Collection, pods: Collection)
    ensures var listening := DescribeListener(pool, listeners, pods);
            (&& AdmissionState(pool.spec) == Enabled && Current(pool) && listening.state == ListenerReady
             && listening.registered && listening.limits == LimitsMatched)
            <==> Operating(pool, listeners, pods)
  {
    var seen := Items(listeners);
    ListenerStateIsExact(ListenerReady, pool, listeners, pods);
    LinkedToMeans(seen, pool);
    if DescribeListener(pool, listeners, pods).state == ListenerReady {
      var l: nat, d: nat :| Listens(seen, pool, l) && OnlyPod(Items(pods), seen[l], pool, d) && IsReady(Items(pods)[d])
                            && Complete(listeners, None) && Complete(pods, seen[l].meta.namespace);
      assert LinkedTo(seen, pool) == [seen[l]];
      assert HasLimits(seen[l], pool) ==> RunsWith(pool, listeners, pods, l, d);
    }
    if l: nat, d: nat :| RunsWith(pool, listeners, pods, l, d) {
      assert LinkedTo(seen, pool) == [seen[l]];
    }
  }

  /** How many workers of the pool were seen. */
  ghost function WorkersSeen(pool: Resource, pods: Collection): nat {
    |set i | 0 <= i < |Items(pods)| && IsWorker(Items(pods)[i], pool)|
  }

  lemma {:induction false} Distinct(at: seq<nat>, values: set<int>)
    requires forall k, l :: 0 <= k < l < |at| ==> at[k] < at[l]
    requires values == set k | 0 <= k < |at| :: at[k]
    ensures |values| == |at|
  {
    if at != [] {
      var last := |at| - 1;
      var rest: set<int> := set k | 0 <= k < |at[..last]| :: at[..last][k];
      Distinct(at[..last], rest);
      assert values == rest + {at[last]};
      assert at[last] !in rest;
    }
  }

  lemma WorkersAreCounted(pool: Resource, pods: Collection)
    ensures |Workers(Items(pods), pool)| == WorkersSeen(pool, pods)
  {
    var s := Items(pods);
    var p: Resource -> bool := pod => Worker(pod, pool);
    var at := Places(s, p);
    var values: set<int> := set k | 0 <= k < |at| :: at[k];
    Distinct(at, values);
    var places: set<int> := set i | 0 <= i < |s| && IsWorker(s[i], pool);
    forall i | 0 <= i < |s|
      ensures p(s[i]) <==> IsWorker(s[i], pool)
    {
      PodsMean(s[i], s[i], pool);
    }
    PlacesAre(s, p, Where(s, p), at, values, places);
  }

  lemma PlacesAre(s: seq<Resource>, p: Resource -> bool, w: seq<Resource>, at: seq<nat>, values: set<int>,
                  places: set<int>)
    requires PlacedAt(s, p, w, at)
    requires values == set k | 0 <= k < |at| :: at[k]
    requires forall i :: i in places <==> 0 <= i < |s| && p(s[i])
    ensures values == places
  {
    forall i | i in places
      ensures i in values
    {
      assert i in at;
    }
    forall i | i in values
      ensures i in places
    {
      var k :| 0 <= k < |at| && at[k] == i;
      assert s[at[k]] == w[k];
    }
  }

  /** When each state of a pool is reported; workers are counted only where every Pod of its namespace is listed. */
  ghost predicate PoolReported(state: PoolState, pool: Resource, listeners: Collection, pods: Collection) {
    var counted, count := Complete(pods, pool.meta.namespace), WorkersSeen(pool, pods);
    match state
    case PoolTerminating => pool.meta.deleting
    case PoolHeld => !pool.meta.deleting && pool.spec.maxRunners == Number(0)
    case IdleScaleToZero =>
      && !pool.meta.deleting && Operating(pool, listeners, pods) && counted && count == 0
      && pool.spec.minRunners == Number(0)
    case WorkersObserved => !pool.meta.deleting && Operating(pool, listeners, pods) && counted && count > 0
    case HeldWithDemand => false
    case PoolUnknown =>
      && !pool.meta.deleting && pool.spec.maxRunners != Number(0)
      && (Operating(pool, listeners, pods) ==> !counted || (count == 0 && pool.spec.minRunners != Number(0)))
  }

  /** For any listings, the state of a pool is reported exactly under its condition, and so is the count of workers. */
  lemma PoolStateIsExact(state: PoolState, pool: Resource, listeners: Collection, pods: Collection)
    ensures var d := Describe(pool, listeners, pods);
            && (d.state == state <==> PoolReported(state, pool, listeners, pods))
            && d.pool == pool && d.observedWorkers == WorkersSeen(pool, pods)
            && d.workers == if Complete(pods, pool.meta.namespace) then Some(WorkersSeen(pool, pods)) else None
  {
    OperatingMeans(pool, listeners, pods);
    WorkersAreCounted(pool, pods);
    CoversMeans(pods, pool.meta.namespace, []);
  }

  // ----- profiles ----------------------------------------------------------------------

  /** The pool offers these labels to this repository, or to its owner. */
  ghost predicate Serves(pool: Resource, repository: string, wanted: set<string>) {
    && Offers(pool, wanted) && pool.spec.url.Some?
    && exists target ::
         && UrlOf(pool.spec.url.value, target)
         && (|| SameLetters(target, repository)
             || exists owner :: OwnerOf(repository, owner) && SameLetters(target, owner))
  }

  /** The pool cannot be placed: its labels are malformed, or it offers these labels under no readable URL. */
  ghost predicate Obscure(pool: Resource, wanted: set<string>) {
    || !Readable(pool)
    || (Offers(pool, wanted) && (pool.spec.url.None? || forall target :: !UrlOf(pool.spec.url.value, target)))
  }

  /** The pool offers these labels elsewhere. */
  ghost predicate Elsewhere(pool: Resource, repository: string, wanted: set<string>) {
    Offers(pool, wanted) && !Serves(pool, repository, wanted) && !Obscure(pool, wanted)
  }

  lemma ServesMeans(pool: Resource, repository: string, wanted: set<string>)
    ensures Eligible(pool, repository, wanted) <==> Serves(pool, repository, wanted)
    ensures Unreadable(pool, repository, wanted) <==> Obscure(pool, wanted)
    ensures ElsewherePool(pool, repository, wanted) <==> Elsewhere(pool, repository, wanted)
  {
    LabelsMean(pool, wanted);
    PoolMeaning.ScopeMeans(pool, repository);
  }

  /** Only the pool at place i serves. */
  ghost predicate OnlyServer(pools: seq<Resource>, repository: string, wanted: set<string>, i: nat) {
    && i < |pools| && Serves(pools[i], repository, wanted)
    && forall j :: 0 <= j < |pools| && Serves(pools[j], repository, wanted) ==> j == i
  }

  ghost predicate TwoServers(pools: seq<Resource>, repository: string, wanted: set<string>) {
    exists i, j :: 0 <= i < j < |pools| && Serves(pools[i], repository, wanted) && Serves(pools[j], repository, wanted)
  }

  ghost predicate NoServer(pools: seq<Resource>, repository: string, wanted: set<string>) {
    forall i :: 0 <= i < |pools| ==> !Serves(pools[i], repository, wanted)
  }

  /** Every pool is listed, and each of them can be placed. */
  ghost predicate AllPlaced(pools: Collection, wanted: set<string>) {
    Complete(pools, None) && forall i :: 0 <= i < |Items(pools)| ==> !Obscure(Items(pools)[i], wanted)
  }

  lemma ServersAre(pools: seq<Resource>, repository: string, wanted: set<string>)
    ensures |EligibleIn(pools, repository, wanted)| > 1 <==> TwoServers(pools, repository, wanted)
    ensures EligibleIn(pools, repository, wanted) == [] <==> NoServer(pools, repository, wanted)
    ensures |EligibleIn(pools, repository, wanted)| == 1
       <==> exists i: nat :: OnlyServer(pools, repository, wanted, i)
    ensures forall i: nat :: OnlyServer(pools, repository, wanted, i)
              ==> EligibleIn(pools, repository, wanted) == [pools[i]]
  {
    var p: Resource -> bool := pool => Eligible(pool, repository, wanted);
    forall pool: Resource
      ensures p(pool) <==> Serves(pool, repository, wanted)
    {
      ServesMeans(pool, repository, wanted);
    }
    WhereMeans(pools, p);
    forall i: nat
      ensures OnlyAt(pools, p, i) <==> OnlyServer(pools, repository, wanted, i)
    {
    }
  }

  ghost predicate OneServer(pools: seq<Resource>, repository: string, wanted: set<string>) {
    exists i: nat :: OnlyServer(pools, repository, wanted, i)
  }

  ghost predicate SomeElsewhere(pools: seq<Resource>, repository: string, wanted: set<string>) {
    exists i :: 0 <= i < |pools| && Elsewhere(pools[i], repository, wanted)
  }

  ghost predicate NoneOffers(pools: seq<Resource>, wanted: set<string>) {
    forall i :: 0 <= i < |pools| ==> !Offers(pools[i], wanted)
  }

  /** When each verdict about a profile's configuration is given. */
  ghost predicate ConfigurationReported(verdict: Configuration, repository: string, wanted: set<string>,
                                        pools: Collection) {
    var seen := Items(pools);
    match verdict
    case Ambiguous => TwoServers(seen, repository, wanted)
    case Unknown => !TwoServers(seen, repository, wanted) && !AllPlaced(pools, wanted)
    case Matched => AllPlaced(pools, wanted) && OneServer(seen, repository, wanted)
    case ScopeMismatch =>
      AllPlaced(pools, wanted) && NoServer(seen, repository, wanted) && SomeElsewhere(seen, repository, wanted)
    case NoPool => AllPlaced(pools, wanted) && NoneOffers(seen, wanted)
  }

  lemma UnknownMeans(repository: string, wanted: set<string>, pools: Collection)
    ensures !Covers(pools, None) || AnyUnreadable(Items(pools), repository, wanted) <==> !AllPlaced(pools, wanted)
    ensures AnyElsewhere(Items(pools), repository, wanted) <==> SomeElsewhere(Items(pools), repository, wanted)
  {
    var seen := Items(pools);
    CoversMeans(pools, None, []);
    forall i | 0 <= i < |seen|
      ensures Unreadable(seen[i], repository, wanted) <==> Obscure(seen[i], wanted)
      ensures ElsewherePool(seen[i], repository, wanted) <==> Elsewhere(seen[i], repository, wanted)
    {
      ServesMeans(seen[i], repository, wanted);
    }
  }

  /** Where every pool can be placed, none offers the labels exactly if none serves and none is elsewhere. */
  lemma NoneOffersMeans(repository: string, wanted: set<string>, pools: Collection)
    requires AllPlaced(pools, wanted)
    ensures NoneOffers(Items(pools), wanted)
       <==> NoServer(Items(pools), repository, wanted) && !SomeElsewhere(Items(pools), repository, wanted)
  {
  }

  lemma HowMany(pools: seq<Resource>, repository: string, wanted: set<string>, n: nat)
    requires n == |EligibleIn(pools, repository, wanted)|
    ensures n > 1 <==> TwoServers(pools, repository, wanted)
    ensures n == 0 <==> NoServer(pools, repository, wanted)
    ensures n == 1 <==> OneServer(pools, repository, wanted)
  {
    ServersAre(pools, repository, wanted);
  }

  /** For any listing, a verdict is given exactly under its condition. */
  lemma ConfigurationIsExact(verdict: Configuration, repository: string, wanted: set<string>, pools: Collection)
    ensures Verdict(repository, wanted, pools) == verdict
       <==> ConfigurationReported(verdict, repository, wanted, pools)
  {
    HowMany(Items(pools), repository, wanted, |EligibleIn(Items(pools), repository, wanted)|);
    UnknownMeans(repository, wanted, pools);
    if AllPlaced(pools, wanted) { NoneOffersMeans(repository, wanted, pools); }
  }

  /** A profile's state, by that of its pool: a held pool with queued jobs is reported as such. */
  ghost predicate Reported(state: PoolState, pool: Resource, listeners: Collection, pods: Collection,
                           demand: Option<nat>) {
    && PoolReported(if state == HeldWithDemand then PoolHeld else state, pool, listeners, pods)
    && (state == HeldWithDemand ==> demand.Some? && demand.value > 0)
    && (state == PoolHeld ==> demand in {None, Some(0)})
  }

  lemma ReportedIsExact(state: PoolState, pool: Resource, listeners: Collection, pods: Collection, demand: Option<nat>)
    ensures ProfileState(Matched, [Describe(pool, listeners, pods)], demand) == state
       <==> Reported(state, pool, listeners, pods, demand)
  {
    PoolStateIsExact(state, pool, listeners, pods);
    PoolStateIsExact(PoolHeld, pool, listeners, pods);
  }

  /** A profile's state is that of the only pool that serves it, where every pool is listed; it is unknown otherwise. */
  lemma ProfileStateIsExact(state: PoolState, repository: string, wanted: set<string>, pools: Collection,
                            listeners: Collection, pods: Collection, demand: Option<nat>)
    ensures ProfileState(Verdict(repository, wanted, pools),
                         MatchesIn(Items(pools), repository, wanted, listeners, pods), demand) == state
       <==> if ConfigurationReported(Matched, repository, wanted, pools) then
              exists i: nat :: OnlyServer(Items(pools), repository, wanted, i)
                               && Reported(state, Items(pools)[i], listeners, pods, demand)
            else state == PoolUnknown
  {
    var seen := Items(pools);
    ConfigurationIsExact(Matched, repository, wanted, pools);
    if ConfigurationReported(Matched, repository, wanted, pools) {
      var i: nat :| OnlyServer(seen, repository, wanted, i);
      ServersAre(seen, repository, wanted);
      assert MatchesIn(seen, repository, wanted, listeners, pods) == [Describe(seen[i], listeners, pods)];
      ReportedIsExact(state, seen[i], listeners, pods, demand);
    }
  }
}
