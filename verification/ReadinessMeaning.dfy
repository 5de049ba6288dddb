/** The verdicts of the readiness report, said by labels, owners and fields. */
module ReadinessMeaning {
  import opened Common
  import opened Readiness
  import opened ReadinessPools

  // ----- objects -----------------------------------------------------------------------

  /** The label is there with this value, or missing where no value is given. */
  ghost predicate HasLabel(item: Resource, key: string, value: Option<string>) {
    match value
    case Some(text) => key in item.meta.labels && item.meta.labels[key] == text
    case None => key !in item.meta.labels
  }

  /** Both linking labels name the pool: its name, and its namespace. */
  ghost predicate Links(item: Resource, pool: Resource) {
    && HasLabel(item, "actions.github.com/scale-set-name", pool.meta.name)
    && HasLabel(item, "actions.github.com/scale-set-namespace", pool.meta.namespace)
  }

  ghost predicate ControlledBy(item: Resource, kind: string, uid: Option<string>) {
    exists owner :: owner in item.meta.owners && owner.kind == kind && owner.controller
                    && (uid.Some? ==> owner.uid == uid)
  }

  /** A Pod of the pool's listener: in the listener's namespace, with the pool's labels, controlled by the listener. */
  ghost predicate IsListenerPod(pod: Resource, listener: Resource, pool: Resource) {
    && pod.meta.namespace == listener.meta.namespace && Links(pod, pool)
    && ControlledBy(pod, "AutoscalingListener", listener.meta.uid)
  }

  ghost predicate IsWorker(pod: Resource, pool: Resource) {
    pod.meta.namespace == pool.meta.namespace && Links(pod, pool) && ControlledBy(pod, "EphemeralRunner", None)
  }

  ghost predicate IsReady(pod: Resource) {
    && !pod.meta.deleting && pod.status.phase == "Running" && ("Ready", "True") in pod.status.conditions
    && |pod.status.containersReady| > 0
    && forall i :: 0 <= i < |pod.status.containersReady| ==> pod.status.containersReady[i]
  }

  lemma LinkedMeans(item: Resource, pool: Resource)
    ensures Linked(item, pool) <==> Links(item, pool)
  {
  }

  lemma OwnedMeans(item: Resource, kind: string, uid: Option<string>)
    ensures OwnedBy(item, kind, uid) <==> ControlledBy(item, kind, uid)
  {
    if OwnedBy(item, kind, uid) {
      var i :| 0 <= i < |item.meta.owners| && Owns(item.meta.owners[i], kind, uid);
      assert item.meta.owners[i] in item.meta.owners;
    }
    if ControlledBy(item, kind, uid) {
      var owner :| owner in item.meta.owners && owner.kind == kind && owner.controller
                   && (uid.Some? ==> owner.uid == uid);
      var i :| 0 <= i < |item.meta.owners| && item.meta.owners[i] == owner;
      assert Owns(item.meta.owners[i], kind, uid);
    }
  }

  lemma PodsMean(pod: Resource, listener: Resource, pool: Resource)
    ensures ListenerPod(pod, listener, pool) <==> IsListenerPod(pod, listener, pool)
    ensures Worker(pod, pool) <==> IsWorker(pod, pool)
    ensures Ready(pod) <==> IsReady(pod)
  {
    LinkedMeans(pod, pool);
    OwnedMeans(pod, "AutoscalingListener", listener.meta.uid);
    OwnedMeans(pod, "EphemeralRunner", None);
    assert false !in pod.status.containersReady
      <==> forall i :: 0 <= i < |pod.status.containersReady| ==> pod.status.containersReady[i];
  }

  // ----- selections by place -----------------------------------------------------------

  ghost predicate NoneOf(s: seq<Resource>, p: Resource -> bool) {
    forall i :: 0 <= i < |s| ==> !p(s[i])
  }

  /** The item at place i is the only one. */
  ghost predicate OnlyAt(s: seq<Resource>, p: Resource -> bool, i: nat) {
    i < |s| && p(s[i]) && forall j :: 0 <= j < |s| && p(s[j]) ==> j == i
  }

  ghost predicate Several(s: seq<Resource>, p: Resource -> bool) {
    exists i, j :: 0 <= i < j < |s| && p(s[i]) && p(s[j])
  }

  /** The places of what is selected, in order. */
  ghost predicate PlacedAt(s: seq<Resource>, p: Resource -> bool, w: seq<Resource>, at: seq<nat>) {
    && |at| == |w|
    && (forall k :: 0 <= k < |at| ==> at[k] < |s| && s[at[k]] == w[k] && p(w[k]))
    && (forall k, l :: 0 <= k < l < |at| ==> at[k] < at[l])
    && forall i :: 0 <= i < |s| && p(s[i]) ==> i in at
  }

  /** Placed in the list behind the first item. */
  ghost predicate PlacedBehind(s: seq<Resource>, p: Resource -> bool, w: seq<Resource>, at: seq<nat>) {
    && |at| == |w|
    && (forall k :: 0 <= k < |at| ==> 0 < at[k] < |s| && s[at[k]] == w[k] && p(w[k]))
    && (forall k, l :: 0 <= k < l < |at| ==> at[k] < at[l])
    && forall i :: 0 < i < |s| && p(s[i]) ==> i in at
  }

  lemma OneFurther(s: seq<Resource>, p: Resource -> bool, w: seq<Resource>, rest: seq<nat>) returns (at: seq<nat>)
    requires s != [] && PlacedAt(s[1..], p, w, rest)
    ensures PlacedBehind(s, p, w, at)
  {
    at := seq(|rest|, k requires 0 <= k < |rest| => rest[k] + 1);
    forall k | 0 <= k < |at|
      ensures 0 < at[k] < |s| && s[at[k]] == w[k] && p(w[k])
    {
      assert at[k] == rest[k] + 1 && s[1..][rest[k]] == s[rest[k] + 1];
    }
    forall k, l | 0 <= k < l < |at|
      ensures at[k] < at[l]
    {
      assert rest[k] < rest[l];
    }
    forall i | 0 < i < |s| && p(s[i])
      ensures i in at
    {
      assert s[1..][i - 1] == s[i];
      var k :| 0 <= k < |rest| && rest[k] == i - 1;
      assert at[k] == i;
    }
  }

  lemma WithTheFirst(s: seq<Resource>, p: Resource -> bool, w: seq<Resource>, at: seq<nat>)
    requires s != [] && p(s[0]) && PlacedBehind(s, p, w, at)
    ensures PlacedAt(s, p, [s[0]] + w, [0] + at)
  {
    var all, more := [s[0]] + w, [0] + at;
    forall k | 0 <= k < |more|
      ensures more[k] < |s| && s[more[k]] == all[k] && p(all[k])
    {
      if k > 0 { assert more[k] == at[k - 1] && all[k] == w[k - 1]; }
    }
    forall k, l | 0 <= k < l < |more|
      ensures more[k] < more[l]
    {
      assert more[l] == at[l - 1] && (k > 0 ==> more[k] == at[k - 1]);
    }
    assert forall i :: i in at ==> i in more;
    assert more[0] == 0;
  }

  lemma {:induction false} Places(s: seq<Resource>, p: Resource -> bool) returns (at: seq<nat>)
    ensures PlacedAt(s, p, Where(s, p), at)
  {
    if s == [] {
      at := [];
    } else {
      var rest := Places(s[1..], p);
      at := OneFurther(s, p, Where(s[1..], p), rest);
      if p(s[0]) {
        WithTheFirst(s, p, Where(s[1..], p), at);
        at := [0] + at;
      } else {
        assert Where(s, p) == Where(s[1..], p);
      }
    }
  }

  lemma PlacesTell(s: seq<Resource>, p: Resource -> bool, w: seq<Resource>, at: seq<nat>)
    requires PlacedAt(s, p, w, at)
    ensures w == [] <==> NoneOf(s, p)
    ensures |w| == 1 ==> OnlyAt(s, p, at[0])
    ensures forall i: nat :: OnlyAt(s, p, i) ==> w == [s[i]]
    ensures |w| > 1 <==> Several(s, p)
  {
    assert w != [] ==> p(s[at[0]]);
    assert |at| > 1 ==> at[0] < at[1];
    forall i: nat | OnlyAt(s, p, i)
      ensures w == [s[i]]
    {
      assert i in at && forall k :: 0 <= k < |at| ==> at[k] == i;
    }
    if |w| > 1 { assert at[0] < at[1] && p(s[at[0]]) && p(s[at[1]]); }
    if Several(s, p) {
      var i, j :| 0 <= i < j < |s| && p(s[i]) && p(s[j]);
      assert i in at && j in at;
    }
  }

  /** What a selection says: none, exactly one, or several. */
  lemma WhereMeans(s: seq<Resource>, p: Resource -> bool)
    ensures Where(s, p) == [] <==> NoneOf(s, p)
    ensures |Where(s, p)| == 1 <==> exists i: nat :: OnlyAt(s, p, i)
    ensures forall i: nat :: OnlyAt(s, p, i) ==> Where(s, p) == [s[i]]
    ensures |Where(s, p)| > 1 <==> Several(s, p)
  {
    var at := Places(s, p);
    PlacesTell(s, p, Where(s, p), at);
  }

  lemma {:induction false} InWhere(s: seq<Resource>, p: Resource -> bool, x: Resource)
    ensures x in Where(s, p) <==> x in s && p(x)
  {
    if x in s && p(x) {
      var i :| 0 <= i < |s| && s[i] == x;
      SomeWhere(s, p, i);
    }
  }

  // ----- listeners and Pods of a pool --------------------------------------------------

  ghost predicate OnlyListener(listeners: seq<Resource>, pool: Resource, l: nat) {
    l < |listeners| && Links(listeners[l], pool)
    && forall i :: 0 <= i < |listeners| && Links(listeners[i], pool) ==> i == l
  }

  ghost predicate OnlyPod(pods: seq<Resource>, listener: Resource, pool: Resource, d: nat) {
    d < |pods| && IsListenerPod(pods[d], listener, pool)
    && forall i :: 0 <= i < |pods| && IsListenerPod(pods[i], listener, pool) ==> i == d
  }

  ghost predicate NoWorker(pods: seq<Resource>, pool: Resource) {
    forall i :: 0 <= i < |pods| ==> !IsWorker(pods[i], pool)
  }

  lemma LinkedToMeans(listeners: seq<Resource>, pool: Resource)
    ensures LinkedTo(listeners, pool) == [] <==> forall i :: 0 <= i < |listeners| ==> !Links(listeners[i], pool)
    ensures |LinkedTo(listeners, pool)| == 1 <==> exists l: nat :: OnlyListener(listeners, pool, l)
    ensures forall l: nat :: OnlyListener(listeners, pool, l) ==> LinkedTo(listeners, pool) == [listeners[l]]
    ensures |LinkedTo(listeners, pool)| > 1
       <==> exists i, j :: 0 <= i < j < |listeners| && Links(listeners[i], pool) && Links(listeners[j], pool)
    ensures forall x :: x in LinkedTo(listeners, pool) <==> x in listeners && Links(x, pool)
  {
    var p: Resource -> bool := item => Linked(item, pool);
    forall x: Resource
      ensures p(x) <==> Links(x, pool)
      ensures x in Where(listeners, p) <==> x in listeners && p(x)
    {
      LinkedMeans(x, pool);
      InWhere(listeners, p, x);
    }
    WhereMeans(listeners, p);
    forall l: nat
      ensures OnlyAt(listeners, p, l) <==> OnlyListener(listeners, pool, l)
    {
    }
  }

  lemma ListenerPodsMean(pods: seq<Resource>, listener: Resource, pool: Resource)
    ensures ListenerPods(pods, listener, pool) == []
       <==> forall i :: 0 <= i < |pods| ==> !IsListenerPod(pods[i], listener, pool)
    ensures |ListenerPods(pods, listener, pool)| == 1 <==> exists d: nat :: OnlyPod(pods, listener, pool, d)
    ensures forall d: nat :: OnlyPod(pods, listener, pool, d) ==> ListenerPods(pods, listener, pool) == [pods[d]]
    ensures |ListenerPods(pods, listener, pool)| > 1
       <==> exists i, j :: 0 <= i < j < |pods| && IsListenerPod(pods[i], listener, pool)
                           && IsListenerPod(pods[j], listener, pool)
    ensures forall x :: x in ListenerPods(pods, listener, pool) <==> x in pods && IsListenerPod(x, listener, pool)
  {
    var p: Resource -> bool := pod => ListenerPod(pod, listener, pool);
    forall x: Resource
      ensures p(x) <==> IsListenerPod(x, listener, pool)
      ensures x in Where(pods, p) <==> x in pods && p(x)
    {
      PodsMean(x, listener, pool);
      InWhere(pods, p, x);
    }
    WhereMeans(pods, p);
    forall d: nat
      ensures OnlyAt(pods, p, d) <==> OnlyPod(pods, listener, pool, d)
    {
    }
  }

  lemma WorkersMean(pods: seq<Resource>, pool: Resource)
    ensures Workers(pods, pool) == [] <==> NoWorker(pods, pool)
  {
    var p: Resource -> bool := pod => Worker(pod, pool);
    forall x: Resource
      ensures p(x) <==> IsWorker(x, pool)
    {
      PodsMean(x, x, pool);
    }
    WhereMeans(pods, p);
  }

  /** The one listener of the pool, running and in the pool's scope, and the one Pod it has, which is ready. */
  ghost predicate ReadyListener(pool: Resource, listeners: seq<Resource>, pods: seq<Resource>, l: nat, d: nat) {
    && OnlyListener(listeners, pool, l) && !listeners[l].meta.deleting && listeners[l].spec.url == pool.spec.url
    && OnlyPod(pods, listeners[l], pool, d) && IsReady(pods[d])
  }

  lemma ReadyListenerMeans(pool: Resource, listeners: seq<Resource>, pods: seq<Resource>)
    ensures OneReadyListener(pool, listeners, pods)
       <==> exists l: nat, d: nat :: ReadyListener(pool, listeners, pods, l, d)
  {
    LinkedToMeans(listeners, pool);
    if |LinkedTo(listeners, pool)| == 1 {
      var l: nat :| OnlyListener(listeners, pool, l);
      ListenerPodsMean(pods, listeners[l], pool);
      forall pod: Resource
        ensures Ready(pod) <==> IsReady(pod)
      {
        PodsMean(pod, pod, pool);
      }
      if |ListenerPods(pods, listeners[l], pool)| == 1 {
        var d: nat :| OnlyPod(pods, listeners[l], pool, d);
        assert OneReadyListener(pool, listeners, pods) <==> ReadyListener(pool, listeners, pods, l, d);
      }
    }
  }

  /** Two listeners of one pool. */
  ghost predicate TwoListeners(listeners: seq<Resource>, pool: Resource) {
    exists i, j :: 0 <= i < j < |listeners| && Links(listeners[i], pool) && Links(listeners[j], pool)
  }

  /** Two Pods of one listener. */
  ghost predicate TwoPods(pods: seq<Resource>, l: Resource, pool: Resource) {
    exists i, j :: 0 <= i < j < |pods| && IsListenerPod(pods[i], l, pool) && IsListenerPod(pods[j], l, pool)
  }

  ghost predicate NoPod(pods: seq<Resource>, l: Resource, pool: Resource) {
    forall i :: 0 <= i < |pods| ==> !IsListenerPod(pods[i], l, pool)
  }

  /** What each verdict about a listener says, by the two labels and the owner. */
  ghost predicate VerdictMeans(state: ListenerState, pool: Resource, listeners: seq<Resource>, pods: seq<Resource>) {
    match state
    case ListenerUnknown => true
    case ListenerAbsent => forall i :: 0 <= i < |listeners| ==> !Links(listeners[i], pool)
    case ListenerAmbiguous =>
      || TwoListeners(listeners, pool)
      || exists l :: l in listeners && Links(l, pool) && TwoPods(pods, l, pool)
    case ScopeDiffers => exists l :: l in listeners && Links(l, pool) && l.spec.url != pool.spec.url
    case Terminating => exists l :: l in listeners && Links(l, pool) && l.meta.deleting
    case PodAbsent =>
      exists l :: l in listeners && Links(l, pool) && NoPod(pods, l, pool)
    case NotReady =>
      exists l, pod :: l in listeners && Links(l, pool) && pod in pods && IsListenerPod(pod, l, pool) && !IsReady(pod)
    case ObservedReady =>
      exists l, pod :: l in listeners && Links(l, pool) && pod in pods && IsListenerPod(pod, l, pool) && IsReady(pod)
    case ListenerReady => exists l: nat, d: nat :: ReadyListener(pool, listeners, pods, l, d)
  }

  lemma TwoLinked(listeners: seq<Resource>, pool: Resource)
    ensures |LinkedTo(listeners, pool)| > 1 <==> TwoListeners(listeners, pool)
  {
    LinkedToMeans(listeners, pool);
  }

  lemma TwoOwned(pods: seq<Resource>, l: Resource, pool: Resource)
    ensures |ListenerPods(pods, l, pool)| > 1 <==> TwoPods(pods, l, pool)
  {
    ListenerPodsMean(pods, l, pool);
  }

  lemma NoneOwned(pods: seq<Resource>, l: Resource, pool: Resource)
    ensures ListenerPods(pods, l, pool) == [] <==> NoPod(pods, l, pool)
  {
    ListenerPodsMean(pods, l, pool);
  }

  lemma InLinked(listeners: seq<Resource>, pool: Resource, x: Resource)
    ensures x in LinkedTo(listeners, pool) <==> x in listeners && Links(x, pool)
  {
    LinkedMeans(x, pool);
    InWhere(listeners, item => Linked(item, pool), x);
  }

  lemma InOwned(pods: seq<Resource>, l: Resource, pool: Resource, x: Resource)
    ensures x in ListenerPods(pods, l, pool) <==> x in pods && IsListenerPod(x, l, pool)
  {
    PodsMean(x, l, pool);
    InWhere(pods, pod => ListenerPod(pod, l, pool), x);
  }

  lemma AmbiguityMeans(pool: Resource, listeners: seq<Resource>, pods: seq<Resource>)
    ensures ListenerVerdict(ListenerAmbiguous, pool, listeners, pods)
       <==> VerdictMeans(ListenerAmbiguous, pool, listeners, pods)
  {
    TwoLinked(listeners, pool);
    if l :| l in LinkedTo(listeners, pool) && |ListenerPods(pods, l, pool)| > 1 {
      InLinked(listeners, pool, l);
      TwoOwned(pods, l, pool);
    }
    if l :| l in listeners && Links(l, pool) && TwoPods(pods, l, pool) {
      InLinked(listeners, pool, l);
      TwoOwned(pods, l, pool);
    }
  }

  lemma AbsenceMeans(pool: Resource, listeners: seq<Resource>, pods: seq<Resource>)
    ensures ListenerVerdict(PodAbsent, pool, listeners, pods) <==> VerdictMeans(PodAbsent, pool, listeners, pods)
  {
    if l :| l in LinkedTo(listeners, pool) && ListenerPods(pods, l, pool) == [] {
      InLinked(listeners, pool, l);
      NoneOwned(pods, l, pool);
    }
    if l :| l in listeners && Links(l, pool) && NoPod(pods, l, pool) {
      InLinked(listeners, pool, l);
      NoneOwned(pods, l, pool);
    }
  }

  lemma PodStateMeans(state: ListenerState, pool: Resource, listeners: seq<Resource>, pods: seq<Resource>, ok: bool)
    requires state == if ok then ObservedReady else NotReady
    ensures ListenerVerdict(state, pool, listeners, pods) <==> VerdictMeans(state, pool, listeners, pods)
  {
    if l, pod :| l in LinkedTo(listeners, pool) && pod in ListenerPods(pods, l, pool) && Ready(pod) == ok {
      InLinked(listeners, pool, l);
      InOwned(pods, l, pool, pod);
      PodsMean(pod, l, pool);
    }
    if l, pod :| l in listeners && Links(l, pool) && pod in pods && IsListenerPod(pod, l, pool) && IsReady(pod) == ok {
      InLinked(listeners, pool, l);
      InOwned(pods, l, pool, pod);
      PodsMean(pod, l, pool);
    }
  }

  lemma ListenerFieldMeans(state: ListenerState, pool: Resource, listeners: seq<Resource>, pods: seq<Resource>)
    requires state == ScopeDiffers || state == Terminating
    ensures ListenerVerdict(state, pool, listeners, pods) <==> VerdictMeans(state, pool, listeners, pods)
  {
    forall l: Resource
      ensures l in LinkedTo(listeners, pool) <==> l in listeners && Links(l, pool)
    {
      InLinked(listeners, pool, l);
    }
  }

  /** Each verdict about a listener says exactly this of the cluster. */
  lemma ListenerVerdictMeans(state: ListenerState, pool: Resource, listeners: seq<Resource>, pods: seq<Resource>)
    ensures ListenerVerdict(state, pool, listeners, pods) <==> VerdictMeans(state, pool, listeners, pods)
  {
    if state == ListenerAmbiguous {
      AmbiguityMeans(pool, listeners, pods);
    } else if state == PodAbsent {
      AbsenceMeans(pool, listeners, pods);
    } else if state == NotReady || state == ObservedReady {
      PodStateMeans(state, pool, listeners, pods, state == ObservedReady);
    } else if state == ListenerReady {
      ReadyListenerMeans(pool, listeners, pods);
    } else if state == ScopeDiffers || state == Terminating {
      ListenerFieldMeans(state, pool, listeners, pods);
    } else {
      LinkedToMeans(listeners, pool);
    }
  }

  /**
   * Idle, scaled to zero: exactly one listener carries the pool's two labels; it runs in the pool's scope, has a scale
   * set and the pool's limits, and controls exactly one Pod with these labels, which is ready; the pool is current, has
   * room and no minimum; and no Pod with these labels in the pool's namespace is controlled by a runner.
   */
  lemma IdleMeans(pool: Resource, listeners: seq<Resource>, pods: seq<Resource>)
    ensures Idle(pool, listeners, pods)
       <==> && (exists l: nat, d: nat ::
                  && ReadyListener(pool, listeners, pods, l, d)
                  && listeners[l].spec.scaleSetId.Number? && listeners[l].spec.scaleSetId.value > 0
                  && listeners[l].spec.maxRunners == pool.spec.maxRunners
                  && (listeners[l].spec.minRunners == Number(0) || listeners[l].spec.minRunners.Absent?))
            && pool.meta.generation.Number? && pool.meta.generation.value > 0
            && pool.status.observedGeneration == pool.meta.generation && !pool.meta.deleting
            && pool.spec.maxRunners.Number? && pool.spec.maxRunners.value > 0 && pool.spec.minRunners == Number(0)
            && NoWorker(pods, pool)
  {
    ReadyListenerMeans(pool, listeners, pods);
    LinkedToMeans(listeners, pool);
    WorkersMean(pods, pool);
  }

  // ----- coverage ----------------------------------------------------------------------

  /** The listing says of itself that it holds every object of its kind that there is in this namespace. */
  ghost predicate Complete(c: Collection, namespace: Option<string>) {
    && c.complete && c.items.Some? && !c.continues && (c.remaining == Absent || c.remaining == Number(0))
    && (c.clusterAll
        || exists prefix :: Some(prefix) in c.prefixes && |prefix| > 0
                            && namespace.Some? && |prefix| <= |namespace.value|
                            && namespace.value[..|prefix|] == prefix)
  }

  /**
   * A listing covers a namespace exactly if it is complete, without continuation or remaining items, for the whole
   * cluster or under a nonempty prefix of the namespace; and what it may have missed is what it does not cover.
   */
  lemma CoversMeans(c: Collection, namespace: Option<string>, unseen: seq<Resource>)
    ensures Covers(c, namespace) <==> Complete(c, namespace)
    ensures MayMiss(c, unseen) <==> forall x :: x in unseen ==> !Complete(c, x.meta.namespace)
    ensures Items(c) == match c.items case Some(items) => items case None => []
  {
    ScopeMeans(c, namespace);
    forall x | x in unseen
      ensures Covers(c, x.meta.namespace) <==> Complete(c, x.meta.namespace)
    {
      ScopeMeans(c, x.meta.namespace);
    }
    if MayMiss(c, unseen) {
      forall x | x in unseen
        ensures !Complete(c, x.meta.namespace)
      {
        var i :| 0 <= i < |unseen| && unseen[i] == x;
      }
    }
    if forall x :: x in unseen ==> !Complete(c, x.meta.namespace) {
      forall i | 0 <= i < |unseen|
        ensures !Covers(c, unseen[i].meta.namespace)
      {
        assert unseen[i] in unseen;
      }
    }
  }

  lemma ScopeMeans(c: Collection, namespace: Option<string>)
    ensures Covers(c, namespace) <==> Complete(c, namespace)
  {
    if Covers(c, namespace) && !c.clusterAll {
      var i :| 0 <= i < |c.prefixes| && UnderPrefix(namespace.value, c.prefixes[i]);
      assert c.prefixes[i] == Some(c.prefixes[i].value) && c.prefixes[i] in c.prefixes;
    }
    if Complete(c, namespace) && !c.clusterAll {
      var prefix :| Some(prefix) in c.prefixes && |prefix| > 0 && namespace.Some? && |prefix| <= |namespace.value|
                    && namespace.value[..|prefix|] == prefix;
      var i :| 0 <= i < |c.prefixes| && c.prefixes[i] == Some(prefix);
      assert UnderPrefix(namespace.value, c.prefixes[i]);
    }
  }
}
