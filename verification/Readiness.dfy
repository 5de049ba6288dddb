/** Runner readiness from partial snapshots: every verdict must hold of each cluster the snapshot may come from. */
module Readiness {
  import opened Common

  const NAME_LABEL := "actions.github.com/scale-set-name"
  const NAMESPACE_LABEL := "actions.github.com/scale-set-namespace"
  const HOST := "https://github.com/"

  // ----- objects -----------------------------------------------------------------------

  /** A field that should be a number. */
  datatype Field = Absent | Number(value: int) | NotNumber

  datatype Owner = Owner(kind: string, controller: bool, uid: Option<string>)

  datatype Meta = Meta(namespace: Option<string>, name: Option<string>, uid: Option<string>, deleting: bool,
                       labels: map<string, string>, owners: seq<Owner>, generation: Field)

  /** runnerLabels is None when the field is absent; a label that is no string is None. */
  datatype Spec = Spec(url: Option<string>, runnerLabels: Option<seq<Option<string>>>,
                       scaleSetName: Option<Option<string>>, maxRunners: Field, minRunners: Field, scaleSetId: Field)

  datatype Status = Status(phase: string, conditions: seq<(string, string)>, containersReady: seq<bool>,
                           observedGeneration: Field)

  datatype Resource = Resource(meta: Meta, spec: Spec, status: Status)

  // ----- what a listing covers ---------------------------------------------------------

  /** One observed listing; items is None when the listing holds none, remaining is its remainingItemCount. */
  datatype Collection = Collection(complete: bool, items: Option<seq<Resource>>, continues: bool, remaining: Field,
                                   clusterAll: bool, prefixes: seq<Option<string>>)

  function Items(c: Collection): seq<Resource> {
    if c.items.Some? then c.items.value else []
  }

  /** The listing ran to its end. */
  predicate Exhausted(c: Collection) {
    && c.complete && c.items.Some? && !c.continues
    && (c.remaining.Absent? || c.remaining == Number(0))
  }

  predicate UnderPrefix(namespace: string, prefix: Option<string>) {
    prefix.Some? && prefix.value != "" && prefix.value <= namespace
  }

  predicate InScope(c: Collection, namespace: Option<string>) {
    || c.clusterAll
    || (namespace.Some? && exists i :: 0 <= i < |c.prefixes| && UnderPrefix(namespace.value, c.prefixes[i]))
  }

  predicate Covers(c: Collection, namespace: Option<string>) {
    Exhausted(c) && InScope(c, namespace)
  }

  /** unseen may be what the listing left out: a listing that ran to its end misses nothing in its scope. */
  ghost predicate MayMiss(c: Collection, unseen: seq<Resource>) {
    Exhausted(c) ==> forall i :: 0 <= i < |unseen| ==> !InScope(c, unseen[i].meta.namespace)
  }

  // ----- selections --------------------------------------------------------------------

  function Where(s: seq<Resource>, p: Resource -> bool): (w: seq<Resource>)
    ensures forall i :: 0 <= i < |w| ==> p(w[i]) && w[i] in s
  {
    if s == [] then [] else (if p(s[0]) then [s[0]] else []) + Where(s[1..], p)
  }

  lemma {:induction false} WhereConcat(a: seq<Resource>, b: seq<Resource>, p: Resource -> bool)
    ensures Where(a + b, p) == Where(a, p) + Where(b, p)
  {
    if a == [] {
      assert a + b == b;
    } else {
      assert (a + b)[1..] == a[1..] + b;
      WhereConcat(a[1..], b, p);
    }
  }

  lemma {:induction false} NoneWhere(s: seq<Resource>, p: Resource -> bool)
    requires forall i :: 0 <= i < |s| ==> !p(s[i])
    ensures Where(s, p) == []
  {
    if s != [] { NoneWhere(s[1..], p); }
  }

  lemma {:induction false} SomeWhere(s: seq<Resource>, p: Resource -> bool, i: nat)
    requires i < |s| && p(s[i])
    ensures s[i] in Where(s, p)
  {
    if i > 0 { SomeWhere(s[1..], p, i - 1); }
  }

  /** A selection within a covered namespace is complete. */
  lemma CoveredSelection(c: Collection, unseen: seq<Resource>, namespace: Option<string>, p: Resource -> bool)
    requires Covers(c, namespace) && MayMiss(c, unseen)
    requires forall i :: 0 <= i < |unseen| && p(unseen[i]) ==> unseen[i].meta.namespace == namespace
    ensures Where(Items(c) + unseen, p) == Where(Items(c), p)
  {
    WhereConcat(Items(c), unseen, p);
    NoneWhere(unseen, p);
  }

  /** Full coverage leaves nothing unseen. */
  lemma NothingUnseen(c: Collection, unseen: seq<Resource>)
    requires Covers(c, None) && MayMiss(c, unseen)
    ensures unseen == []
  {
    assert unseen != [] ==> !InScope(c, unseen[0].meta.namespace);
  }

  /** What was observed stays true. */
  lemma ObservedSelection(c: Collection, unseen: seq<Resource>, p: Resource -> bool)
    ensures |Where(Items(c) + unseen, p)| >= |Where(Items(c), p)|
    ensures forall x :: x in Where(Items(c), p) ==> x in Where(Items(c) + unseen, p)
  {
    WhereConcat(Items(c), unseen, p);
  }

  // ----- links -------------------------------------------------------------------------

  function Label(item: Resource, key: string): Option<string> {
    if key in item.meta.labels then Some(item.meta.labels[key]) else None
  }

  predicate Linked(item: Resource, pool: Resource) {
    Label(item, NAME_LABEL) == pool.meta.name && Label(item, NAMESPACE_LABEL) == pool.meta.namespace
  }

  predicate OwnedBy(item: Resource, kind: string, uid: Option<string>) {
    exists i :: 0 <= i < |item.meta.owners| && Owns(item.meta.owners[i], kind, uid)
  }

  predicate Owns(owner: Owner, kind: string, uid: Option<string>) {
    owner.kind == kind && owner.controller && (uid.Some? ==> owner.uid == uid)
  }

  predicate Ready(pod: Resource) {
    && !pod.meta.deleting
    && pod.status.phase == "Running"
    && ("Ready", "True") in pod.status.conditions
    && pod.status.containersReady != [] && false !in pod.status.containersReady
  }

  predicate ListenerPod(pod: Resource, listener: Resource, pool: Resource) {
    && pod.meta.namespace == listener.meta.namespace && Linked(pod, pool)
    && OwnedBy(pod, "AutoscalingListener", listener.meta.uid)
  }

  predicate Worker(pod: Resource, pool: Resource) {
    pod.meta.namespace == pool.meta.namespace && Linked(pod, pool) && OwnedBy(pod, "EphemeralRunner", None)
  }

  function LinkedTo(s: seq<Resource>, pool: Resource): seq<Resource> {
    Where(s, item => Linked(item, pool))
  }

  function ListenerPods(s: seq<Resource>, listener: Resource, pool: Resource): seq<Resource> {
    Where(s, pod => ListenerPod(pod, listener, pool))
  }

  function Workers(s: seq<Resource>, pool: Resource): seq<Resource> {
    Where(s, pod => Worker(pod, pool))
  }

  // ----- listeners ---------------------------------------------------------------------

  datatype ListenerState =
    | ListenerUnknown | ListenerAbsent | ListenerAmbiguous | ScopeDiffers | Terminating | PodAbsent | NotReady
    | ListenerReady | ObservedReady

  datatype Limits = LimitsUnknown | LimitsPending | LimitsMatched

  datatype Listening = Listening(state: ListenerState, registered: bool, limits: Limits)

  function ListenerPodState(listener: Resource, pool: Resource, listeners: Collection,
                            pods: Collection): ListenerState {
    var owned := ListenerPods(Items(pods), listener, pool);
    if listener.meta.deleting then Terminating
    else if |owned| > 1 then ListenerAmbiguous
    else if owned == [] then
      if Covers(pods, listener.meta.namespace) then PodAbsent else ListenerUnknown
    else if !Ready(owned[0]) then NotReady
    else if Covers(listeners, None) && Covers(pods, listener.meta.namespace) then ListenerReady
    else ObservedReady
  }

  function ListenerCapacity(pool: Spec, listener: Spec): Limits {
    if !listener.maxRunners.Number? || !pool.maxRunners.Number? then LimitsUnknown
    else if !pool.minRunners.Number? || pool.minRunners.value < 0 then LimitsPending
    else if listener.maxRunners == pool.maxRunners
            && (if listener.minRunners.Absent? then pool.minRunners.value == 0
                else listener.minRunners == pool.minRunners) then LimitsMatched
    else LimitsPending
  }

  predicate Named(meta: Meta) {
    && meta.name.Some? && meta.name.value != "" && meta.namespace.Some? && meta.namespace.value != ""
    && meta.uid.Some? && meta.uid.value != ""
  }

  function DescribeListener(pool: Resource, listeners: Collection, pods: Collection): Listening {
    var candidates := LinkedTo(Items(listeners), pool);
    if candidates == [] then
      Listening(if Covers(listeners, None) then ListenerAbsent else ListenerUnknown, false, LimitsUnknown)
    else if |candidates| > 1 then Listening(ListenerAmbiguous, false, LimitsUnknown)
    else
      var listener := candidates[0];
      if !Named(listener.meta) then Listening(ListenerUnknown, false, LimitsUnknown)
      else if listener.spec.url != pool.spec.url then Listening(ScopeDiffers, false, LimitsUnknown)
      else Listening(ListenerPodState(listener, pool, listeners, pods),
                     listener.spec.scaleSetId.Number? && listener.spec.scaleSetId.value > 0,
                     ListenerCapacity(pool.spec, listener.spec))
  }

  /** The one listener of a pool, with the one Pod it owns. */
  ghost predicate OneReadyListener(pool: Resource, listeners: seq<Resource>, pods: seq<Resource>) {
    var linked := LinkedTo(listeners, pool);
    && |linked| == 1 && !linked[0].meta.deleting && linked[0].spec.url == pool.spec.url
    && var owned := ListenerPods(pods, linked[0], pool);
       |owned| == 1 && Ready(owned[0])
  }

  /** What each verdict about a listener says of the whole cluster. */
  ghost predicate ListenerVerdict(state: ListenerState, pool: Resource, listeners: seq<Resource>, pods: seq<Resource>) {
    match state
    case ListenerUnknown => true
    case ListenerAbsent => LinkedTo(listeners, pool) == []
    case ListenerAmbiguous =>
      || |LinkedTo(listeners, pool)| > 1
      || exists l :: l in LinkedTo(listeners, pool) && |ListenerPods(pods, l, pool)| > 1
    case ScopeDiffers => exists l :: l in LinkedTo(listeners, pool) && l.spec.url != pool.spec.url
    case Terminating => exists l :: l in LinkedTo(listeners, pool) && l.meta.deleting
    case PodAbsent => exists l :: l in LinkedTo(listeners, pool) && ListenerPods(pods, l, pool) == []
    case NotReady =>
      exists l, pod :: l in LinkedTo(listeners, pool) && pod in ListenerPods(pods, l, pool) && !Ready(pod)
    case ObservedReady =>
      exists l, pod :: l in LinkedTo(listeners, pool) && pod in ListenerPods(pods, l, pool) && Ready(pod)
    case ListenerReady => OneReadyListener(pool, listeners, pods)
  }

  /** Everything said about a listener's Pods stays true with whatever was not seen. */
  lemma PodVerdictHolds(listener: Resource, pool: Resource, listeners: Collection, pods: Collection,
                        moreListeners: seq<Resource>, morePods: seq<Resource>)
    requires MayMiss(listeners, moreListeners) && MayMiss(pods, morePods)
    requires LinkedTo(Items(listeners), pool) == [listener] && listener.spec.url == pool.spec.url
    ensures ListenerVerdict(ListenerPodState(listener, pool, listeners, pods), pool,
                            Items(listeners) + moreListeners, Items(pods) + morePods)
  {
    ObservedSelection(listeners, moreListeners, item => Linked(item, pool));
    ObservedSelection(pods, morePods, pod => ListenerPod(pod, listener, pool));
    assert listener in LinkedTo(Items(listeners) + moreListeners, pool);
    var owned := ListenerPods(Items(pods), listener, pool);
    if owned != [] { assert owned[0] in ListenerPods(Items(pods) + morePods, listener, pool); }
    if Covers(pods, listener.meta.namespace) {
      CoveredSelection(pods, morePods, listener.meta.namespace, pod => ListenerPod(pod, listener, pool));
    }
    if Covers(listeners, None) {
      NothingUnseen(listeners, moreListeners);
      assert Items(listeners) + moreListeners == Items(listeners);
    }
  }

  lemma ListenerVerdictHolds(pool: Resource, listeners: Collection, pods: Collection,
                             moreListeners: seq<Resource>, morePods: seq<Resource>)
    requires MayMiss(listeners, moreListeners) && MayMiss(pods, morePods)
    ensures ListenerVerdict(DescribeListener(pool, listeners, pods).state, pool,
                            Items(listeners) + moreListeners, Items(pods) + morePods)
  {
    var candidates := LinkedTo(Items(listeners), pool);
    ObservedSelection(listeners, moreListeners, item => Linked(item, pool));
    if candidates == [] {
      if Covers(listeners, None) {
        NothingUnseen(listeners, moreListeners);
        assert Items(listeners) + moreListeners == Items(listeners);
      }
    } else if |candidates| == 1 {
      assert candidates == [candidates[0]];
      assert candidates[0] in LinkedTo(Items(listeners) + moreListeners, pool);
      if candidates[0].spec.url == pool.spec.url {
        PodVerdictHolds(candidates[0], pool, listeners, pods, moreListeners, morePods);
      }
    }
  }

  /** With everything listed, nothing about a listener stays open but one that names itself incompletely. */
  lemma CoveredListenerIsDecided(pool: Resource, listeners: Collection, pods: Collection)
    requires Covers(listeners, None) && Covers(pods, None)
    requires forall l :: l in LinkedTo(Items(listeners), pool) ==> Named(l.meta)
    ensures DescribeListener(pool, listeners, pods).state !in {ListenerUnknown, ObservedReady}
  {
    var candidates := LinkedTo(Items(listeners), pool);
    if |candidates| == 1 { assert candidates[0] in candidates; }
  }
}
