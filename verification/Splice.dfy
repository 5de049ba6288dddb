/** Applying recorded text edits from the end of the source backwards. */
module Splice {
  import opened Common
  import Sorting

  /** Replace source[start..stop] by text; start == stop inserts. */
  datatype Edit = Edit(start: nat, stop: nat, text: string)

  /** Python compares the tuples (start, stop, text). */
  predicate EditLe(a: Edit, b: Edit) {
    if a.start != b.start then a.start < b.start
    else if a.stop != b.stop then a.stop < b.stop
    else Sorting.StringLe(a.text, b.text)
  }

  predicate EditGe(a: Edit, b: Edit) {
    EditLe(b, a)
  }

  ghost predicate Fits(source: string, edits: seq<Edit>) {
    forall i :: 0 <= i < |edits| ==> edits[i].start <= edits[i].stop <= |source|
  }

  /** No two edits claim the same text, and no insertion falls inside a replaced span. */
  ghost predicate Disjoint(edits: seq<Edit>) {
    forall i, j :: 0 <= i < j < |edits| ==> Apart(edits[i], edits[j])
  }

  predicate Apart(a: Edit, b: Edit) {
    a.stop <= b.start || b.stop <= a.start
  }

  /** The simultaneous left-to-right splice of edits given in source order, from position `from` on. */
  function Forward(source: string, edits: seq<Edit>, from: nat): string
    requires from <= |source|
  {
    if edits == [] then source[from..]
    else if from <= edits[0].start <= edits[0].stop <= |source| then
      source[from..edits[0].start] + edits[0].text + Forward(source, edits[1..], edits[0].stop)
    else source[from..]
  }

  function Reverse<T>(s: seq<T>): seq<T>
  {
    seq(|s|, i requires 0 <= i < |s| => s[|s| - 1 - i])
  }

  /** The edits in the order finish applies them, and in source order. */
  function Descending(edits: seq<Edit>): seq<Edit> {
    Sorting.Sort(EditGe, edits)
  }

  function Ascending(edits: seq<Edit>): seq<Edit> {
    Reverse(Descending(edits))
  }

  /** Each edit ends before the one finish has applied just before it. */
  ghost predicate Chained(descending: seq<Edit>, count: nat)
    requires count <= |descending|
  {
    forall i :: 0 < i < count ==> descending[i].stop <= descending[i - 1].start
  }

  // ----- order -------------------------------------------------------------------------

  lemma EditGeIsTotalPreorder()
    ensures Sorting.TotalPreorder(EditGe)
  {
    forall x, y
      ensures EditGe(x, y) || EditGe(y, x)
    {
      Sorting.StringLeTotal(x.text, y.text);
    }
    forall x, y, z | EditGe(x, y) && EditGe(y, z)
      ensures EditGe(x, z)
    {
      if x.start == y.start == z.start && x.stop == y.stop == z.stop {
        Sorting.StringLeTransitive(z.text, y.text, x.text);
      }
    }
  }

  lemma EditGeSeparates(s: seq<Edit>)
    ensures Sorting.SeparatesElements(EditGe, s)
  {
    forall x, y | x in s && y in s && EditGe(x, y) && EditGe(y, x)
      ensures x == y
    {
      Sorting.StringLeAntisymmetric(x.text, y.text);
    }
  }

  /** The order of application depends on which edits were recorded, not on when. */
  lemma DescendingIgnoresRecordingOrder(a: seq<Edit>, b: seq<Edit>)
    requires multiset(a) == multiset(b)
    ensures Descending(a) == Descending(b)
  {
    EditGeIsTotalPreorder();
    Sorting.SortKeepsElements(EditGe, a);
    Sorting.SortKeepsElements(EditGe, b);
    Sorting.SortSorts(EditGe, a);
    Sorting.SortSorts(EditGe, b);
    EditGeSeparates(Descending(a));
    Sorting.SortedArrangementIsUnique(EditGe, Descending(a), Descending(b));
  }

  /** Pairwise disjointness does not depend on the order of the list. */
  lemma DisjointIgnoresOrder(a: seq<Edit>, b: seq<Edit>)
    requires multiset(a) == multiset(b) && Disjoint(a)
    ensures Disjoint(b)
  {
    forall i, j | 0 <= i < j < |b|
      ensures Apart(b[i], b[j])
    {
      if b[i] == b[j] {
        assert b == b[..i] + [b[i]] + b[i + 1..j] + [b[j]] + b[j + 1..];
        assert multiset(a)[b[i]] >= 2;
        var p, q := TwoPositions(a, b[i]);
      } else {
        assert b[i] in multiset(a) && b[j] in multiset(a);
        var p :| 0 <= p < |a| && a[p] == b[i];
        var q :| 0 <= q < |a| && a[q] == b[j];
        if p < q { assert Apart(a[p], a[q]); } else { assert Apart(a[q], a[p]); }
      }
    }
  }

  lemma TwoPositions(a: seq<Edit>, e: Edit) returns (p: nat, q: nat)
    requires multiset(a)[e] >= 2
    ensures p < q < |a| && a[p] == e && a[q] == e
  {
    p :| 0 <= p < |a| && a[p] == e;
    var rest := a[..p] + a[p + 1..];
    WithoutOne(a, p);
    q :| 0 <= q < |rest| && rest[q] == e;
    if q < p { p, q := q, p; } else { q := q + 1; }
  }

  lemma WithoutOne(a: seq<Edit>, p: nat)
    requires p < |a| && multiset(a)[a[p]] >= 2
    ensures a[p] in a[..p] + a[p + 1..]
  {
    var rest := a[..p] + a[p + 1..];
    assert a == a[..p] + [a[p]] + a[p + 1..];
    assert multiset(a) == multiset(rest) + multiset{a[p]};
    assert a[p] in multiset(rest);
  }

  /** In application order, pairwise disjoint means chained, and the other way round. */
  lemma ChainedMeansDisjoint(source: string, descending: seq<Edit>)
    requires Sorting.IsSorted(EditGe, descending) && Fits(source, descending)
    ensures Chained(descending, |descending|) <==> Disjoint(descending)
  {
    if Chained(descending, |descending|) {
      forall i, j | 0 <= i < j < |descending|
        ensures Apart(descending[i], descending[j])
      {
        ChainReaches(source, descending, i, j);
      }
    }
    if Disjoint(descending) {
      forall i | 0 < i < |descending|
        ensures descending[i].stop <= descending[i - 1].start
      {
        assert Apart(descending[i - 1], descending[i]) && EditGe(descending[i - 1], descending[i]);
      }
    }
  }

  lemma {:induction false} ChainReaches(source: string, descending: seq<Edit>, i: nat, j: nat)
    requires i < j < |descending| && Fits(source, descending) && Chained(descending, |descending|)
    ensures descending[j].stop <= descending[i].start
  {
    if i + 1 < j {
      ChainReaches(source, descending, i, j - 1);
    }
  }

  // ----- surviving text ----------------------------------------------------------------

  /** How far text at position k has moved: the growth of all edits that end at or before it. */
  function Shift(edits: seq<Edit>, k: nat): int {
    if edits == [] then 0
    else (if edits[0].stop <= k then |edits[0].text| - (edits[0].stop - edits[0].start) else 0) + Shift(edits[1..], k)
  }

  /** Edits in source order, none before `from`. */
  ghost predicate Ordered(source: string, edits: seq<Edit>, from: nat) {
    if edits == [] then from <= |source|
    else from <= edits[0].start <= edits[0].stop <= |source| && Ordered(source, edits[1..], edits[0].stop)
  }

  lemma {:induction false} ShiftIsZeroBefore(source: string, edits: seq<Edit>, from: nat, k: nat)
    requires Ordered(source, edits, from) && k < from
    ensures Shift(edits, k) == 0
  {
    if edits != [] {
      ShiftIsZeroBefore(source, edits[1..], edits[0].stop, k);
    }
  }

  ghost predicate Outside(edits: seq<Edit>, k: nat) {
    forall i :: 0 <= i < |edits| ==> k < edits[i].start || edits[i].stop <= k
  }

  lemma OutsideTail(edits: seq<Edit>, k: nat)
    requires edits != [] && Outside(edits, k)
    ensures Outside(edits[1..], k) && (k < edits[0].start || edits[0].stop <= k)
  {
    assert forall i :: 0 <= i < |edits[1..]| ==> edits[1..][i] == edits[i + 1];
  }

  /** Every character outside the edited spans is found again, moved by its shift. */
  lemma {:induction false} OutsideTextSurvives(source: string, edits: seq<Edit>, from: nat, k: nat)
    requires Ordered(source, edits, from) && from <= k < |source| && Outside(edits, k)
    ensures 0 <= k - from + Shift(edits, k) < |Forward(source, edits, from)|
    ensures Forward(source, edits, from)[k - from + Shift(edits, k)] == source[k]
  {
    if edits != [] {
      var e := edits[0];
      OutsideTail(edits, k);
      var head, tail := source[from..e.start] + e.text, Forward(source, edits[1..], e.stop);
      assert Forward(source, edits, from) == head + tail;
      if e.stop <= k {
        OutsideTextSurvives(source, edits[1..], e.stop, k);
        assert (head + tail)[|head| + (k - e.stop + Shift(edits[1..], k))] == source[k];
      } else {
        ShiftIsZeroBefore(source, edits[1..], e.stop, k);
        assert (head + tail)[k - from] == source[k];
      }
    }
  }

  /** Two characters outside the edited spans keep their order. */
  lemma {:induction false} OutsideTextKeepsItsOrder(source: string, edits: seq<Edit>, from: nat, k: nat, m: nat)
    requires Ordered(source, edits, from) && from <= k < m < |source| && Outside(edits, k) && Outside(edits, m)
    ensures k + Shift(edits, k) < m + Shift(edits, m)
  {
    if edits != [] {
      var e := edits[0];
      OutsideTail(edits, k);
      OutsideTail(edits, m);
      if e.stop <= k {
        OutsideTextKeepsItsOrder(source, edits[1..], e.stop, k, m);
      } else {
        ShiftIsZeroBefore(source, edits[1..], e.stop, k);
        if e.stop <= m {
          ShiftNeverPassesTheStart(source, edits[1..], e.stop, m);
        } else {
          ShiftIsZeroBefore(source, edits[1..], e.stop, m);
        }
      }
    }
  }

  lemma {:induction false} ShiftNeverPassesTheStart(source: string, edits: seq<Edit>, from: nat, m: nat)
    requires Ordered(source, edits, from) && from <= m < |source| && Outside(edits, m)
    ensures from <= m + Shift(edits, m)
  {
    if edits != [] {
      var e := edits[0];
      OutsideTail(edits, m);
      if e.stop <= m {
        ShiftNeverPassesTheStart(source, edits[1..], e.stop, m);
      } else {
        ShiftIsZeroBefore(source, edits[1..], e.stop, m);
      }
    }
  }

  /** The chained edits, put in source order, are ordered. */
  lemma {:induction false} ReversedChainIsOrdered(source: string, descending: seq<Edit>, from: nat)
    requires Fits(source, descending) && Chained(descending, |descending|)
    requires from <= |source| && (descending != [] ==> from <= descending[|descending| - 1].start)
    ensures Ordered(source, Reverse(descending), from)
    decreases |descending|
  {
    if descending != [] {
      var last := |descending| - 1;
      ReverseLast(descending);
      ReversedChainIsOrdered(source, descending[..last], descending[last].stop);
    }
  }

  lemma ReverseLast<T>(s: seq<T>)
    requires s != []
    ensures Reverse(s) == [s[|s| - 1]] + Reverse(s[..|s| - 1])
    ensures Reverse(s)[0] == s[|s| - 1] && Reverse(s)[1..] == Reverse(s[..|s| - 1])
  {
  }

  // ----- finish ------------------------------------------------------------------------

  ghost predicate InRange(source: string, edits: seq<Edit>) {
    forall i :: 0 <= i < |edits| ==> edits[i].start <= |source| && edits[i].stop <= |source|
  }

  /** One replacement, with the slices of Python: a stop before the start repeats what lies between. */
  function Replace(result: string, e: Edit): string {
    result[..Min(e.start, |result|)] + e.text + result[Min(e.stop, |result|)..]
  }

  /** The first `count` edits applied one after the other. */
  function Replaced(source: string, edits: seq<Edit>, count: nat): string
    requires count <= |edits|
  {
    if count == 0 then source else Replace(Replaced(source, edits, count - 1), edits[count - 1])
  }

  /** An edit that runs backwards removes nothing: the text between its ends stands twice. */
  lemma BackwardEditRepeats(source: string, e: Edit)
    requires e.stop <= e.start <= |source|
    ensures var between := source[e.stop..e.start];
            Replace(source, e) == source[..e.stop] + between + e.text + between + source[e.start..]
  {
    assert source[..e.start] == source[..e.stop] + source[e.stop..e.start];
    assert source[e.stop..] == source[e.stop..e.start] + source[e.start..];
  }

  /** The loop of finish: accepted exactly when every edit ends before the one applied just before it. */
  method ApplyInOrder(source: string, descending: seq<Edit>) returns (r: Outcome<string>)
    requires InRange(source, descending) && Sorting.IsSorted(EditGe, descending)
    ensures r.Returned? <==> Chained(descending, |descending|)
    ensures r.Returned? ==> r.value == Replaced(source, descending, |descending|)
  {
    var end, result := |source| + 1, source;
    var i := 0;
    while i < |descending|
      invariant 0 <= i <= |descending| && Chained(descending, i)
      invariant end == if i == 0 then |source| + 1 else descending[i - 1].start
      invariant if i == 0 then result == source else end <= |result|
      invariant result == Replaced(source, descending, i)
    {
      var e := descending[i];
      if e.stop > end { return Raised; }
      assert i > 0 ==> EditGe(descending[i - 1], e);
      result := result[..e.start] + e.text + result[e.stop..];
      end := e.start;
      i := i + 1;
    }
    r := Returned(result);
  }

  /**
   * finish without its YAML checks: the recorded edits, applied from the end of the source backwards. For edits that do
   * not run backwards this accepts exactly the pairwise disjoint ones, and gives the simultaneous left-to-right splice.
   */
  method Apply(source: string, edits: seq<Edit>) returns (r: Outcome<string>)
    requires InRange(source, edits)
    ensures |Descending(edits)| == |edits|
    ensures r.Returned? <==> Chained(Descending(edits), |edits|)
    ensures r.Returned? ==> r.value == Replaced(source, Descending(edits), |edits|)
    ensures Fits(source, edits) ==> (r.Returned? <==> Disjoint(edits))
    ensures Fits(source, edits) && r.Returned? ==>
              r.value == Forward(source, Ascending(edits), 0) && Ordered(source, Ascending(edits), 0)
  {
    SortedFacts(source, edits);
    r := ApplyInOrder(source, Descending(edits));
    if Fits(source, edits) && r.Returned? { ForwardResult(source, edits, Descending(edits)); }
  }

  lemma ForwardResult(source: string, edits: seq<Edit>, descending: seq<Edit>)
    requires descending == Descending(edits) && |descending| == |edits|
    requires Fits(source, edits) && Chained(descending, |descending|)
    ensures Replaced(source, descending, |edits|) == Forward(source, Ascending(edits), 0)
    ensures Ordered(source, Ascending(edits), 0)
  {
    SortedFacts(source, edits);
    ReplacedIsForward(source, Descending(edits), |edits|);
    SplicedForward(source, edits, Replaced(source, Descending(edits), |edits|));
  }

  /** Chained edits that run forward, applied backwards, leave the source in front and the splice behind. */
  lemma {:induction false} ReplacedIsForward(source: string, descending: seq<Edit>, i: nat)
    requires Fits(source, descending) && i <= |descending| && Chained(descending, i)
    ensures i > 0 ==> var end := descending[i - 1].start;
                      Replaced(source, descending, i)
                      == source[..end] + Forward(source, Reverse(descending[..i]), end)
  {
    if i > 0 {
      ReplacedIsForward(source, descending, i - 1);
      BackwardStep(source, descending, i - 1, Replaced(source, descending, i - 1));
    }
  }

  lemma SplicedForward(source: string, edits: seq<Edit>, result: string)
    requires |Descending(edits)| == |edits|
    requires Fits(source, edits) && Chained(Descending(edits), |edits|)
    requires if edits == [] then result == source
             else var end := Descending(edits)[|edits| - 1].start;
                  end <= |source|
                  && result == source[..end] + Forward(source, Reverse(Descending(edits)[..|edits|]), end)
    ensures result == Forward(source, Ascending(edits), 0) && Ordered(source, Ascending(edits), 0)
  {
    var descending := Descending(edits);
    TakeAll(descending);
    SortedFacts(source, edits);
    ReversedChainIsOrdered(source, descending, 0);
    if edits != [] {
      FirstSplice(source, Ascending(edits), descending[|edits| - 1].start);
    }
  }

  lemma SortedFacts(source: string, edits: seq<Edit>)
    requires InRange(source, edits)
    ensures |Descending(edits)| == |edits| && Sorting.IsSorted(EditGe, Descending(edits))
    ensures InRange(source, Descending(edits))
    ensures Fits(source, edits) ==> Fits(source, Descending(edits))
    ensures Fits(source, edits) ==> (Chained(Descending(edits), |edits|) <==> Disjoint(edits))
  {
    EditGeIsTotalPreorder();
    Sorting.SortSorts(EditGe, edits);
    Sorting.SortKeepsElements(EditGe, edits);
    Sorting.SameLength(edits, Descending(edits));
    forall i | 0 <= i < |Descending(edits)|
      ensures Descending(edits)[i] in edits
    {
      assert Descending(edits)[i] in multiset(edits);
    }
    if Fits(source, edits) {
      ChainedMeansDisjoint(source, Descending(edits));
      if Disjoint(edits) { DisjointIgnoresOrder(edits, Descending(edits)); }
      if Disjoint(Descending(edits)) { DisjointIgnoresOrder(Descending(edits), edits); }
    }
  }

  lemma BackwardStep(source: string, descending: seq<Edit>, i: nat, result: string)
    requires i < |descending| && Fits(source, descending)
    requires i > 0 ==> descending[i].stop <= descending[i - 1].start
    requires i == 0 ==> result == source
    requires i > 0 ==>
               result == source[..descending[i - 1].start]
                         + Forward(source, Reverse(descending[..i]), descending[i - 1].start)
    ensures var e := descending[i];
            && e.stop <= |result|
            && result[..e.start] + e.text + result[e.stop..]
               == source[..e.start] + Forward(source, Reverse(descending[..i + 1]), e.start)
  {
    var e := descending[i];
    assert descending[..i + 1][..i] == descending[..i];
    ReverseLast(descending[..i + 1]);
    var later := Reverse(descending[..i]);
    if i == 0 {
      assert Forward(source, later, e.stop) == source[e.stop..];
    } else {
      ReverseLast(descending[..i]);
      assert descending[..i][i - 1] == descending[i - 1];
      ForwardFromEarlier(source, later, e.stop, descending[i - 1].start);
    }
    assert Forward(source, Reverse(descending[..i + 1]), e.start) == [] + e.text + Forward(source, later, e.stop);
  }

  /** Starting earlier only copies more of the source in front. */
  lemma ForwardFromEarlier(source: string, edits: seq<Edit>, early: nat, late: nat)
    requires early <= late <= |source|
    requires edits != [] && late == edits[0].start <= edits[0].stop <= |source|
    ensures Forward(source, edits, early) == source[early..late] + Forward(source, edits, late)
  {
  }

  lemma FirstSplice(source: string, edits: seq<Edit>, first: nat)
    requires edits != [] && first == edits[0].start <= edits[0].stop <= |source|
    ensures source[..first] + Forward(source, edits, first) == Forward(source, edits, 0)
  {
    ForwardFromEarlier(source, edits, 0, first);
    assert source[0..first] == source[..first];
  }

  /** Recording the same edits in another order changes neither acceptance nor the text. */
  lemma ResultIgnoresRecordingOrder(source: string, a: seq<Edit>, b: seq<Edit>)
    requires multiset(a) == multiset(b)
    ensures Disjoint(a) <==> Disjoint(b)
    ensures Descending(a) == Descending(b)
    ensures Forward(source, Ascending(a), 0) == Forward(source, Ascending(b), 0)
  {
    if Disjoint(a) { DisjointIgnoresOrder(a, b); }
    if Disjoint(b) { DisjointIgnoresOrder(b, a); }
    DescendingIgnoresRecordingOrder(a, b);
  }
}
