/** Where the queue of a flow mapping stands, and what is left when its span is blanked. */
module LintQueue {
  import opened Common
  import opened PythonText
  import opened LintCopy
  import opened LintMeaning

  // ----- marks -------------------------------------------------------------------------

  /** The node of entry i of a mapping whose entries start at position base. */
  function EntryNode(es: seq<Entry>, base: nat, i: nat): Pair
    requires i < |es|
  {
    var e := es[i];
    var key := base + |Heads(es[..i])| + |e.before|;
    var value := key + |e.key| + |e.colon|;
    Pair(Scalar(e.key, STR, key, key + |e.key|), Scalar(e.value, STR, value, value + |e.value|))
  }

  /** The node of FlowText(es, trailing) when its brace stands at position at. */
  function FlowNode(es: seq<Entry>, trailing: Option<string>, at: nat): Node
    requires es != []
  {
    Mapping(seq(|es|, i requires 0 <= i < |es| => EntryNode(es, at + 1, i)), true, at, at + |FlowText(es, trailing)|)
  }

  function Spaces(s: string): (r: string)
    ensures |r| == |s|
    ensures forall i :: 0 <= i < |s| ==> r[i] == Shown(s[i])
  {
    seq(|s|, i requires 0 <= i < |s| => Shown(s[i]))
  }

  function Without<T>(s: seq<T>, i: nat): seq<T>
    requires i < |s|
  {
    s[..i] + s[i + 1..]
  }

  /** Key, separator and value of an entry. */
  function Core(e: Entry): string {
    e.key + e.colon + e.value
  }

  // ----- pieces of the text ------------------------------------------------------------

  lemma {:induction false} TailsConcat(a: seq<Entry>, b: seq<Entry>)
    ensures Tails(a + b) == Tails(a) + Tails(b)
    decreases |a|
  {
    if a == [] {
      assert a + b == b;
    } else {
      assert (a + b)[1..] == a[1..] + b;
      TailsConcat(a[1..], b);
    }
  }

  /** Commas after or commas between: the same text. */
  lemma {:induction false} HeadsAreTails(front: seq<Entry>, e: Entry)
    ensures Heads(front) + EntryText(e) == Body(front + [e])
    decreases |front|
  {
    if front == [] {
      assert front + [e] == [e];
    } else {
      var n := |front| - 1;
      calc {
        Heads(front) + EntryText(e);
        (Heads(front[..n]) + EntryText(front[n])) + "," + EntryText(e);
        { HeadsAreTails(front[..n], front[n]); assert front[..n] + [front[n]] == front; }
        Body(front) + "," + EntryText(e);
        { BodySnoc(front, e); }
        Body(front + [e]);
      }
    }
  }

  lemma BodySnoc(front: seq<Entry>, e: Entry)
    requires front != []
    ensures Body(front + [e]) == Body(front) + "," + EntryText(e)
  {
    BodyConcat(front, [e]);
    assert [e][1..] == [];
  }

  lemma BodyAt(es: seq<Entry>, i: nat)
    requires i < |es|
    ensures Body(es) == Heads(es[..i]) + EntryText(es[i]) + Tails(es[i + 1..])
  {
    var front, rest := es[..i] + [es[i]], es[i + 1..];
    assert es == front + rest;
    calc {
      Body(front + rest);
      { BodyConcat(front, rest); }
      Body(front) + Tails(rest);
      { HeadsAreTails(es[..i], es[i]); }
      Heads(es[..i]) + EntryText(es[i]) + Tails(rest);
    }
  }

  lemma BodyConcat(front: seq<Entry>, rest: seq<Entry>)
    requires front != []
    ensures Body(front + rest) == Body(front) + Tails(rest)
  {
    assert (front + rest)[1..] == front[1..] + rest;
    TailsConcat(front[1..], rest);
  }

  lemma BlankMiddle(a: string, b: string, c: string)
    ensures Blanked(a + b + c, [Span(|a|, |a| + |b|)]) == a + Spaces(b) + c
  {
    var s, spans := a + b + c, [Span(|a|, |a| + |b|)];
    forall i: nat | i < |s|
      ensures Blanked(s, spans)[i] == (a + Spaces(b) + c)[i]
    {
      assert spans[0].start == |a| && spans[0].end == |a| + |b|;
    }
  }

  lemma {:induction false} FirstCommaFrom(s: string, from: nat, k: nat, until: nat)
    requires from <= k < until && k < |s| && s[k] == ',' && forall i :: from <= i < k ==> s[i] != ','
    ensures FirstComma(s, from, until) == Some(k)
    decreases k - from
  {
    if from < k { FirstCommaFrom(s, from + 1, k, until); }
  }

  lemma {:induction false} LastCommaFrom(s: string, from: nat, k: nat, until: nat)
    requires from <= k < until <= |s| && s[k] == ',' && forall i :: k < i < until ==> s[i] != ','
    ensures LastComma(s, from, until) == Some(k)
    decreases until
  {
    if k < until - 1 { LastCommaFrom(s, from, k, until - 1); }
  }

  /** The one comma between two entries, found from either side. */
  lemma CommaBetween(a: string, gap1: string, gap2: string, c: string, from: nat, k: nat, until: nat)
    requires Gap(gap1) && Gap(gap2)
    requires from == |a| && k == from + |gap1| && until == k + 1 + |gap2|
    ensures FirstComma(a + gap1 + "," + gap2 + c, from, until) == Some(k)
    ensures LastComma(a + gap1 + "," + gap2 + c, from, until) == Some(k)
  {
    var s := a + gap1 + "," + gap2 + c;
    assert s[k] == ',';
    assert forall i :: from <= i < k ==> s[i] == gap1[i - from];
    assert forall i :: k < i < until ==> s[i] == gap2[i - k - 1];
    FirstCommaFrom(s, from, k, until);
    LastCommaFrom(s, from, k, until);
  }

  lemma SpacesAreGap(s: string)
    ensures Gap(Spaces(s))
  {
  }

  // ----- the entry after takes the blanks ----------------------------------------------

  /** The layout that is left when a later entry follows the queue. */
  function JoinedNext(es: seq<Entry>, q: nat): seq<Entry>
    requires q + 1 < |es|
  {
    var e, next := es[q], es[q + 1];
    var gap := e.before + Spaces(Core(e) + e.after + ",") + next.before;
    es[..q] + [next.(before := gap)] + es[q + 2..]
  }

  lemma JoinedNextIsPlain(es: seq<Entry>, q: nat)
    requires q + 1 < |es| && AllPlain(es)
    ensures AllPlain(JoinedNext(es, q)) && Meaning(JoinedNext(es, q)) == Without(Meaning(es), q)
  {
    var e, next := es[q], es[q + 1];
    SpacesAreGap(Core(e) + e.after + ",");
    JoinGaps(e.before, Spaces(Core(e) + e.after + ","));
    JoinGaps(e.before + Spaces(Core(e) + e.after + ","), next.before);
    var joined := JoinedNext(es, q);
    forall i | 0 <= i < |joined|
      ensures Plain(joined[i])
      ensures Meaning(joined)[i] == Without(Meaning(es), q)[i]
    {
      assert i < q ==> joined[i] == es[i];
      assert i > q ==> joined[i] == es[i + 1];
    }
  }

  /** The text around the queue when an entry follows: what is blanked is the entry with its comma. */
  lemma NextPieces(es: seq<Entry>, q: nat)
    requires q + 1 < |es|
    ensures Body(es) == (Heads(es[..q]) + es[q].before) + (Core(es[q]) + es[q].after + ",")
                        + (EntryText(es[q + 1]) + Tails(es[q + 2..]))
  {
    BodyAt(es, q);
    assert es[q + 1..][0] == es[q + 1] && es[q + 1..][1..] == es[q + 2..];
    EntryParts(es[q]);
  }

  /** The same text once the queue is blanked. */
  lemma JoinedNextPieces(es: seq<Entry>, q: nat)
    requires q + 1 < |es|
    ensures Body(JoinedNext(es, q))
         == (Heads(es[..q]) + es[q].before) + Spaces(Core(es[q]) + es[q].after + ",")
            + (EntryText(es[q + 1]) + Tails(es[q + 2..]))
  {
    var joined := JoinedNext(es, q);
    BodyAt(joined, q);
    assert joined[..q] == es[..q] && joined[q + 1..] == es[q + 2..];
    PaddedEntry(es[q + 1], es[q].before + Spaces(Core(es[q]) + es[q].after + ","));
  }

  lemma EntryParts(e: Entry)
    ensures EntryText(e) == e.before + Core(e) + e.after == e.before + (Core(e) + e.after)
  {
  }

  lemma PaddedEntry(e: Entry, gap: string)
    ensures EntryText(e.(before := gap + e.before)) == gap + EntryText(e)
  {
  }

  // ----- the entry before takes the blanks ---------------------------------------------

  /** The layout that is left when the queue is the last of several entries. */
  function JoinedLast(es: seq<Entry>): seq<Entry>
    requires |es| > 1
  {
    var n := |es| - 1;
    var e, previous := es[n], es[n - 1];
    var gap := previous.after + Spaces("," + e.before + Core(e)) + e.after;
    es[..n - 1] + [previous.(after := gap)]
  }

  lemma JoinedLastIsPlain(es: seq<Entry>)
    requires |es| > 1 && AllPlain(es)
    ensures AllPlain(JoinedLast(es)) && Meaning(JoinedLast(es)) == Without(Meaning(es), |es| - 1)
  {
    var n := |es| - 1;
    var e, previous := es[n], es[n - 1];
    var b := "," + e.before + Core(e);
    SpacesAreGap(b);
    JoinGaps(previous.after, Spaces(b));
    JoinGaps(previous.after + Spaces(b), e.after);
    var joined := JoinedLast(es);
    forall i | 0 <= i < |joined|
      ensures Plain(joined[i])
      ensures Meaning(joined)[i] == Without(Meaning(es), n)[i]
    {
      assert i < n - 1 ==> joined[i] == es[i];
    }
  }

  lemma ExtendedEntry(e: Entry, gap: string)
    ensures EntryText(e.(after := e.after + gap)) == EntryText(e) + gap
  {
  }

  /** The text around a queue that is last: what is blanked is the entry with the comma before it. */
  lemma LastPieces(es: seq<Entry>)
    requires |es| > 1
    ensures var n := |es| - 1;
            Body(es) == (Heads(es[..n - 1]) + EntryText(es[n - 1])) + ("," + es[n].before + Core(es[n])) + es[n].after
  {
    var n := |es| - 1;
    BodyAt(es, n);
    assert es[n + 1..] == [] && es[..n][..n - 1] == es[..n - 1];
    EntryParts(es[n]);
  }

  lemma JoinedLastPieces(es: seq<Entry>)
    requires |es| > 1
    ensures var n := |es| - 1;
            Body(JoinedLast(es))
            == (Heads(es[..n - 1]) + EntryText(es[n - 1])) + Spaces("," + es[n].before + Core(es[n])) + es[n].after
  {
    var n := |es| - 1;
    var gap := Spaces("," + es[n].before + Core(es[n])) + es[n].after;
    var joined := JoinedLast(es);
    BodyAt(joined, n - 1);
    assert joined[..n - 1] == es[..n - 1] && joined[n..] == [];
    ExtendedEntry(es[n - 1], gap);
    assert es[n - 1].after + gap == es[n - 1].after + Spaces("," + es[n].before + Core(es[n])) + es[n].after;
  }

  // ----- the span ----------------------------------------------------------------------

  lemma QueueIndex(es: seq<Entry>, trailing: Option<string>, at: nat, q: nat)
    requires q < |es| && es[q].key == "queue"
    ensures FieldOf(FlowNode(es, trailing, at), "queue").Some?
    ensures DistinctKeys(FlowNode(es, trailing, at).entries) ==>
              IndexOf(FlowNode(es, trailing, at).entries, "queue", 0) == Some(q)
  {
    var entries := FlowNode(es, trailing, at).entries;
    assert entries[q] == EntryNode(es, at + 1, q) && Names(entries[q].key, "queue");
  }

  /** A source text with a flow mapping in it. */
  function Source(pre: string, es: seq<Entry>, trailing: Option<string>, post: string): string
    requires es != []
  {
    pre + FlowText(es, trailing) + post
  }

  /** Everything after the entries. */
  function Rest(trailing: Option<string>, post: string): string {
    Trail(trailing) + "}" + post
  }

  lemma SourceParts(pre: string, es: seq<Entry>, trailing: Option<string>, post: string, a: string, b: string,
                    c: string)
    requires es != [] && Body(es) == a + b + c
    ensures Source(pre, es, trailing, post) == (pre + "{" + a) + b + (c + Rest(trailing, post))
    ensures |FlowText(es, trailing)| >= 2 + |a| + |b| + |c|
  {
    RegroupCopy(pre, a, b, c, Trail(trailing), post);
  }

  ghost predicate QueueAt(es: seq<Entry>, trailing: Option<string>, at: nat, q: nat) {
    && q < |es| && AllPlain(es) && es[q].key == "queue" && (trailing.Some? ==> Gap(trailing.value))
    && FieldOf(FlowNode(es, trailing, at), "queue").Some? && Supported(FlowNode(es, trailing, at))
  }

  lemma NextStart(es: seq<Entry>, q: nat)
    requires q + 1 < |es|
    ensures |Heads(es[..q + 1])| == |Heads(es[..q])| + |es[q].before| + |Core(es[q])| + |es[q].after| + 1
  {
    assert es[..q + 1][..q] == es[..q];
    EntryParts(es[q]);
  }

  /** The queue's node lies where the queue is written, inside the mapping. */
  lemma Placed(es: seq<Entry>, trailing: Option<string>, at: nat, q: nat)
    requires q < |es|
    ensures InPlace(FlowNode(es, trailing, at), q) || es[q].value == ""
    ensures var pair := FlowNode(es, trailing, at).entries[q];
            var start := at + 1 + |Heads(es[..q])| + |es[q].before|;
            pair.key.start == start && pair.value.end == start + |Core(es[q])|
  {
    BodyAt(es, q);
    EntryParts(es[q]);
    assert FlowNode(es, trailing, at).entries[q] == EntryNode(es, at + 1, q);
  }

  lemma Regroup(a: string, core: string, after: string, before: string, entry: string, tails: string, rest: string)
    ensures a + (core + after + ",") + (((before + entry) + tails) + rest)
         == (a + core) + after + "," + before + (entry + tails + rest)
  {
  }

  /** The source around the comma that separates entry i from the next one. */
  lemma AroundComma(pre: string, es: seq<Entry>, trailing: Option<string>, post: string, i: nat)
    returns (before: string, rest: string)
    requires i + 1 < |es|
    ensures Source(pre, es, trailing, post) == before + es[i].after + "," + es[i + 1].before + rest
    ensures |before| == |pre| + 1 + |Heads(es[..i])| + |es[i].before| + |Core(es[i])|
  {
    var a := pre + "{" + (Heads(es[..i]) + es[i].before);
    var e, tails := Core(es[i + 1]) + es[i + 1].after, Tails(es[i + 2..]);
    before, rest := a + Core(es[i]), e + tails + Rest(trailing, post);
    calc {
      Source(pre, es, trailing, post);
      { NextPieces(es, i);
        SourceParts(pre, es, trailing, post, Heads(es[..i]) + es[i].before, Core(es[i]) + es[i].after + ",",
                    EntryText(es[i + 1]) + tails); }
      a + (Core(es[i]) + es[i].after + ",") + ((EntryText(es[i + 1]) + tails) + Rest(trailing, post));
      { EntryParts(es[i + 1]); }
      a + (Core(es[i]) + es[i].after + ",") + (((es[i + 1].before + e) + tails) + Rest(trailing, post));
      { Regroup(a, Core(es[i]), es[i].after, es[i + 1].before, e, tails, Rest(trailing, post)); }
      before + es[i].after + "," + es[i + 1].before + rest;
    }
  }

  /** That comma, between the marks of the two nodes. */
  lemma EntryComma(pre: string, es: seq<Entry>, trailing: Option<string>, post: string, i: nat, from: nat, until: nat)
    requires i + 1 < |es| && Gap(es[i].after) && Gap(es[i + 1].before)
    requires from == |pre| + 1 + |Heads(es[..i])| + |es[i].before| + |Core(es[i])|
    requires until == from + |es[i].after| + 1 + |es[i + 1].before|
    ensures FirstComma(Source(pre, es, trailing, post), from, until) == Some(from + |es[i].after|)
    ensures LastComma(Source(pre, es, trailing, post), from, until) == Some(from + |es[i].after|)
  {
    var before, rest := AroundComma(pre, es, trailing, post, i);
    CommaBetween(before, es[i].after, es[i + 1].before, rest, from, from + |es[i].after|, until);
  }

  /** The marks of an entry and of the next one. */
  lemma PairMarks(es: seq<Entry>, trailing: Option<string>, at: nat, i: nat)
    requires i + 1 < |es|
    ensures var entries := FlowNode(es, trailing, at).entries;
            && entries[i].value.end == at + 1 + |Heads(es[..i])| + |es[i].before| + |Core(es[i])|
            && entries[i + 1].key.start == entries[i].value.end + |es[i].after| + 1 + |es[i + 1].before|
  {
    Placed(es, trailing, at, i);
    Placed(es, trailing, at, i + 1);
    NextStart(es, i);
  }

  /** What QueueSpan answers once the comma after the entry is known. */
  lemma SpanBeforeComma(c: Node, source: string, q: nat, k: nat, span: Span)
    requires c.Mapping? && c.flow && FieldOf(c, "queue").Some? && IndexOf(c.entries, "queue", 0) == Some(q)
    requires Supported(c) && InPlace(c, q) && q + 1 < |c.entries|
    requires FirstComma(source, c.entries[q].value.end, c.entries[q + 1].key.start) == Some(k)
    requires span == Span(c.entries[q].key.start, k + 1)
    ensures QueueSpan(c, source) == Returned(span)
  {
  }

  /** What QueueSpan answers once the comma before the last entry is known. */
  lemma SpanAfterComma(c: Node, source: string, p: nat, k: nat, span: Span)
    requires c.Mapping? && c.flow && FieldOf(c, "queue").Some? && IndexOf(c.entries, "queue", 0) == Some(p + 1)
    requires p + 2 == |c.entries| && Supported(c) && InPlace(c, p + 1)
    requires LastComma(source, c.entries[p].value.end, c.entries[p + 1].key.start) == Some(k)
    requires span == Span(k, c.entries[p + 1].value.end)
    ensures QueueSpan(c, source) == Returned(span)
  {
  }

  lemma SpanAlone(c: Node, source: string)
    requires c.Mapping? && FieldOf(c, "queue").Some? && Supported(c) && InPlace(c, 0) && |c.entries| == 1
    ensures QueueSpan(c, source) == Returned(Span(c.entries[0].key.start, c.entries[0].value.end))
  {
  }

  lemma PlainPair(es: seq<Entry>, i: nat)
    requires AllPlain(es) && i + 1 < |es|
    ensures Gap(es[i].after) && Gap(es[i + 1].before)
  {
    assert Plain(es[i]) && Plain(es[i + 1]);
  }

  /** The queue's node, as QueueSpan finds it. */
  lemma QueueNode(es: seq<Entry>, trailing: Option<string>, at: nat, q: nat)
    requires QueueAt(es, trailing, at, q)
    ensures IndexOf(FlowNode(es, trailing, at).entries, "queue", 0) == Some(q) && InPlace(FlowNode(es, trailing, at), q)
    ensures Supported(FlowNode(es, trailing, at))
  {
    assert Plain(es[q]);
    QueueIndex(es, trailing, at, q);
    Placed(es, trailing, at, q);
  }

  /** The comma between two nodes. */
  lemma NodeComma(pre: string, es: seq<Entry>, trailing: Option<string>, post: string, i: nat, node: Node,
                  source: string)
    requires i + 1 < |es| && Gap(es[i].after) && Gap(es[i + 1].before)
    requires node == FlowNode(es, trailing, |pre|) && source == Source(pre, es, trailing, post)
    ensures var k := node.entries[i].value.end + |es[i].after|;
            && FirstComma(source, node.entries[i].value.end, node.entries[i + 1].key.start) == Some(k)
            && LastComma(source, node.entries[i].value.end, node.entries[i + 1].key.start) == Some(k)
  {
    PairMarks(es, trailing, |pre|, i);
    EntryComma(pre, es, trailing, post, i, node.entries[i].value.end, node.entries[i + 1].key.start);
  }

  /** The span by the marks: the entry with the comma after it, with the comma before it, or alone. */
  function MarkedSpan(es: seq<Entry>, node: Node, q: nat): Span
    requires node.Mapping? && |node.entries| == |es| && q < |es|
  {
    if q + 1 < |es| then Span(node.entries[q].key.start, node.entries[q].value.end + |es[q].after| + 1)
    else if q > 0 then Span(node.entries[q - 1].value.end + |es[q - 1].after|, node.entries[q].value.end)
    else Span(node.entries[q].key.start, node.entries[q].value.end)
  }

  /** The comma behind a queue that another entry follows. */
  lemma NextComma(pre: string, es: seq<Entry>, trailing: Option<string>, post: string, q: nat, node: Node,
                  source: string, k: nat)
    requires q + 1 < |es| && AllPlain(es)
    requires node == FlowNode(es, trailing, |pre|) && source == Source(pre, es, trailing, post)
    requires k == node.entries[q].value.end + |es[q].after|
    ensures q + 1 < |node.entries|
    ensures FirstComma(source, node.entries[q].value.end, node.entries[q + 1].key.start) == Some(k)
  {
    PlainPair(es, q);
    NodeComma(pre, es, trailing, post, q, node, source);
  }

  lemma NextMarks(pre: string, es: seq<Entry>, trailing: Option<string>, post: string, q: nat, node: Node,
                  source: string, span: Span)
    requires q + 1 < |es| && QueueAt(es, trailing, |pre|, q)
    requires node == FlowNode(es, trailing, |pre|) && source == Source(pre, es, trailing, post)
    requires span == MarkedSpan(es, node, q)
    ensures QueueSpan(node, source) == Returned(span)
  {
    var k := node.entries[q].value.end + |es[q].after|;
    QueueNode(es, trailing, |pre|, q);
    NextComma(pre, es, trailing, post, q, node, source, k);
    SpanBeforeComma(node, source, q, k, span);
  }

  lemma PreviousMarks(pre: string, es: seq<Entry>, trailing: Option<string>, post: string, p: nat, node: Node,
                      source: string, span: Span)
    requires p + 2 == |es| && QueueAt(es, trailing, |pre|, p + 1)
    requires node == FlowNode(es, trailing, |pre|) && source == Source(pre, es, trailing, post)
    requires span == Span(node.entries[p].value.end + |es[p].after|, node.entries[p + 1].value.end)
    ensures QueueSpan(node, source) == Returned(span)
  {
    QueueNode(es, trailing, |pre|, p + 1);
    PlainPair(es, p);
    NodeComma(pre, es, trailing, post, p, node, source);
    SpanAfterComma(node, source, p, node.entries[p].value.end + |es[p].after|, span);
  }

  lemma SpanByMarks(pre: string, es: seq<Entry>, trailing: Option<string>, post: string, q: nat, node: Node,
                    source: string, span: Span)
    requires QueueAt(es, trailing, |pre|, q)
    requires node == FlowNode(es, trailing, |pre|) && source == Source(pre, es, trailing, post)
    requires span == MarkedSpan(es, node, q)
    ensures QueueSpan(node, source) == Returned(span)
  {
    if q + 1 < |es| {
      NextMarks(pre, es, trailing, post, q, node, source, span);
    } else if q > 0 {
      PreviousMarks(pre, es, trailing, post, q - 1, node, source, span);
    } else {
      QueueNode(es, trailing, |pre|, q);
      SpanAlone(node, source);
    }
  }

  // ----- the meaning -------------------------------------------------------------------

  /** The mapping's own text in the copy. */
  function Inside(copy: string, pre: string, post: string): string
    requires |pre| + |post| <= |copy|
  {
    copy[|pre|..|copy| - |post|]
  }

  /** With this span blanked, the copy differs inside the mapping only, and reads there as meaning says. */
  ghost predicate CopyReads(source: string, span: Span, pre: string, post: string,
                            meaning: Option<seq<(string, string)>>)
  {
    var copy := Blanked(source, [span]);
    && |pre| + |post| <= |copy| && pre <= copy && copy[|copy| - |post|..] == post
    && ReadFlow(Inside(copy, pre, post)) == meaning
  }

  /** The source with one part of its mapping blanked. */
  lemma BlankedPart(pre: string, es: seq<Entry>, trailing: Option<string>, post: string, a: string, b: string,
                    c: string)
    requires es != [] && Body(es) == a + b + c
    ensures Blanked(Source(pre, es, trailing, post), [Span(|pre| + 1 + |a|, |pre| + 1 + |a| + |b|)])
         == pre + ("{" + (a + Spaces(b) + c) + Trail(trailing) + "}") + post
  {
    var head, rest := pre + "{" + a, c + Rest(trailing, post);
    SourceParts(pre, es, trailing, post, a, b, c);
    BlankMiddle(head, b, rest);
    RegroupCopy(pre, a, Spaces(b), c, Trail(trailing), post);
  }

  lemma RegroupCopy(pre: string, a: string, b: string, c: string, trail: string, post: string)
    ensures (pre + "{" + a) + b + (c + (trail + "}" + post)) == pre + ("{" + (a + b + c) + trail + "}") + post
  {
  }

  /** Reading the copy comes down to reading the mapping that its blanks leave. */
  lemma CopyOf(pre: string, es: seq<Entry>, trailing: Option<string>, post: string, a: string, b: string, c: string,
               left: string, span: Span)
    requires es != [] && Body(es) == a + b + c && left == "{" + (a + Spaces(b) + c) + Trail(trailing) + "}"
    requires span.start == |pre| + 1 + |a| && span.end == |pre| + 1 + |a| + |b|
    ensures CopyReads(Source(pre, es, trailing, post), span, pre, post, ReadFlow(left))
  {
    assert span == Span(|pre| + 1 + |a|, |pre| + 1 + |a| + |b|);
    BlankedPart(pre, es, trailing, post, a, b, c);
    InsideCopy(pre, left, post);
  }

  lemma InsideCopy(pre: string, left: string, post: string)
    ensures var copy := pre + left + post;
            pre <= copy && copy[|copy| - |post|..] == post && Inside(copy, pre, post) == left
  {
  }

  lemma BlankGap(before: string, b: string, after: string)
    requires Gap(before) && Gap(after)
    ensures Gap(before + Spaces(b) + after)
  {
    SpacesAreGap(b);
    JoinGaps(before, Spaces(b));
    JoinGaps(before + Spaces(b), after);
  }

  /** Blanks between braces are the empty mapping. */
  lemma OnlyBlank(gap: string)
    requires Gap(gap)
    ensures ReadFlow("{" + gap + "}") == Some([])
  {
    GapHasNone(gap);
    StripGap(gap);
    SplitOne(gap);
    ReadBraces(gap, [gap]);
  }

  lemma OnlyReads(gap: string, trailing: Option<string>)
    requires Gap(gap) && (trailing.Some? ==> Gap(trailing.value))
    ensures ReadFlow("{" + gap + Trail(trailing) + "}") == if trailing.Some? then None else Some([])
  {
    match trailing
    case None =>
      OnlyBlank(gap);
      assert "{" + gap + Trail(trailing) + "}" == "{" + gap + "}";
    case Some(more) =>
      OnlyTrailed(gap, more);
      assert "{" + gap + Trail(trailing) + "}" == "{" + (gap + "," + more) + "}";
  }

  /** A comma with nothing but blanks around it is no mapping. */
  lemma OnlyTrailed(gap: string, more: string)
    requires Gap(gap) && Gap(more)
    ensures ReadFlow("{" + (gap + "," + more) + "}").None?
  {
    GapHasNone(gap);
    GapHasNone(more);
    SplitComma(gap, more);
    SplitOne(more);
    ReadBraces(gap + "," + more, [gap, more]);
    StripGap(more);
    assert [gap, more][..1] == [gap];
    assert forall i :: 0 <= i < |gap| ==> gap[i] in gap;
    FindAt(gap, ':', |gap|);
    assert ReadEntry(gap).None?;
  }

  lemma NextReads(es: seq<Entry>, trailing: Option<string>, q: nat)
    requires q + 1 < |es| && AllPlain(es) && (trailing.Some? ==> Gap(trailing.value))
    ensures ReadFlow(FlowText(JoinedNext(es, q), trailing)) == Some(Without(Meaning(es), q))
  {
    JoinedNextIsPlain(es, q);
    ReadWritten(JoinedNext(es, q), trailing);
  }

  lemma LastReads(es: seq<Entry>, trailing: Option<string>)
    requires |es| > 1 && AllPlain(es) && (trailing.Some? ==> Gap(trailing.value))
    ensures ReadFlow(FlowText(JoinedLast(es), trailing)) == Some(Without(Meaning(es), |es| - 1))
  {
    JoinedLastIsPlain(es);
    ReadWritten(JoinedLast(es), trailing);
  }

  /** A queue that another entry follows. */
  lemma NextCopy(pre: string, es: seq<Entry>, trailing: Option<string>, post: string, q: nat, span: Span)
    requires q + 1 < |es| && AllPlain(es) && (trailing.Some? ==> Gap(trailing.value))
    requires span.start == |pre| + 1 + |Heads(es[..q])| + |es[q].before|
    requires span.end == span.start + |Core(es[q])| + |es[q].after| + 1
    ensures CopyReads(Source(pre, es, trailing, post), span, pre, post, Some(Without(Meaning(es), q)))
  {
    NextPieces(es, q);
    JoinedNextPieces(es, q);
    NextReads(es, trailing, q);
    CopyOf(pre, es, trailing, post, Heads(es[..q]) + es[q].before, Core(es[q]) + es[q].after + ",",
           EntryText(es[q + 1]) + Tails(es[q + 2..]), FlowText(JoinedNext(es, q), trailing), span);
  }

  /** A queue that is the last of several entries. */
  lemma LastCopy(pre: string, es: seq<Entry>, trailing: Option<string>, post: string, n: nat, span: Span)
    requires |es| == n + 1 > 1 && AllPlain(es) && (trailing.Some? ==> Gap(trailing.value))
    requires span.start == |pre| + 1 + |Heads(es[..n - 1])| + |EntryText(es[n - 1])|
    requires span.end == span.start + 1 + |es[n].before| + |Core(es[n])|
    ensures CopyReads(Source(pre, es, trailing, post), span, pre, post, Some(Without(Meaning(es), n)))
  {
    LastPieces(es);
    JoinedLastPieces(es);
    LastReads(es, trailing);
    CopyOf(pre, es, trailing, post, Heads(es[..n - 1]) + EntryText(es[n - 1]), "," + es[n].before + Core(es[n]),
           es[n].after, FlowText(JoinedLast(es), trailing), span);
  }

  /** A queue that is the only entry. */
  lemma OnlyCopy(pre: string, es: seq<Entry>, trailing: Option<string>, post: string, span: Span)
    requires |es| == 1 && AllPlain(es) && (trailing.Some? ==> Gap(trailing.value))
    requires span.start == |pre| + 1 + |es[0].before| && span.end == span.start + |Core(es[0])|
    ensures CopyReads(Source(pre, es, trailing, post), span, pre, post, if trailing.Some? then None else Some([]))
  {
    assert Plain(es[0]);
    var a, b, c := es[0].before, Core(es[0]), es[0].after;
    EntryParts(es[0]);
    assert Body(es) == a + b + c;
    BlankGap(a, b, c);
    OnlyReads(a + Spaces(b) + c, trailing);
    CopyOf(pre, es, trailing, post, a, b, c, "{" + (a + Spaces(b) + c) + Trail(trailing) + "}", span);
  }

  /** The marks as lengths of the written entries. */
  lemma MarkLengths(es: seq<Entry>, trailing: Option<string>, at: nat, q: nat)
    requires q < |es|
    ensures var pair := FlowNode(es, trailing, at).entries[q];
            && pair.key.start == at + 1 + |Heads(es[..q])| + |es[q].before|
            && pair.value.end == pair.key.start + |Core(es[q])|
    ensures q > 0 ==>
              var start := FlowNode(es, trailing, at).entries[q - 1].value.end + |es[q - 1].after|;
              && start == at + 1 + |Heads(es[..q - 1])| + |EntryText(es[q - 1])|
              && FlowNode(es, trailing, at).entries[q].key.start == start + 1 + |es[q].before|
  {
    Placed(es, trailing, at, q);
    if q > 0 {
      Placed(es, trailing, at, q - 1);
      NextStart(es, q - 1);
      EntryParts(es[q - 1]);
    }
  }

  /** What the copy reads as, with the span that the marks give. */
  lemma MarkedCopy(pre: string, es: seq<Entry>, trailing: Option<string>, post: string, q: nat, span: Span)
    requires q < |es| && AllPlain(es) && (trailing.Some? ==> Gap(trailing.value))
    requires span == MarkedSpan(es, FlowNode(es, trailing, |pre|), q)
    ensures CopyReads(Source(pre, es, trailing, post), span, pre, post,
                      if |es| == 1 && trailing.Some? then None else Some(Without(Meaning(es), q)))
  {
    MarkLengths(es, trailing, |pre|, q);
    if q + 1 < |es| {
      NextCopy(pre, es, trailing, post, q, span);
    } else if |es| > 1 {
      LastCopy(pre, es, trailing, post, q, span);
    } else {
      assert Heads(es[..q]) == "";
      OnlyCopy(pre, es, trailing, post, span);
      assert Without(Meaning(es), q) == [];
    }
  }

  /**
   * Every supported queue of a plain flow mapping has a span, and with it blanked the mapping reads as before without
   * its queue, wherever the queue stands; exactly when the queue is the only entry and a trailing comma follows it,
   * the copy is no mapping any more.
   */
  lemma CopyHidesOnlyTheQueue(pre: string, es: seq<Entry>, trailing: Option<string>, post: string, q: nat)
    returns (span: Span)
    requires QueueAt(es, trailing, |pre|, q)
    ensures QueueSpan(FlowNode(es, trailing, |pre|), Source(pre, es, trailing, post)) == Returned(span)
    ensures CopyReads(Source(pre, es, trailing, post), span, pre, post,
                      if |es| == 1 && trailing.Some? then None else Some(Without(Meaning(es), q)))
  {
    span := MarkedSpan(es, FlowNode(es, trailing, |pre|), q);
    SpanByMarks(pre, es, trailing, post, q, FlowNode(es, trailing, |pre|), Source(pre, es, trailing, post), span);
    MarkedCopy(pre, es, trailing, post, q, span);
  }

  // ----- several mappings in one source ------------------------------------------------

  /** A plain flow mapping with a supported queue, as part of a source. */
  datatype Place = Place(pre: string, es: seq<Entry>, trailing: Option<string>, post: string, q: nat) {
    ghost predicate Holds() {
      QueueAt(es, trailing, |pre|, q)
    }

    function Text(): string
      requires es != []
    {
      Source(pre, es, trailing, post)
    }

    function Mark(): Node
      requires es != []
    {
      FlowNode(es, trailing, |pre|)
    }

    function Queue(): Span
      requires q < |es|
    {
      MarkedSpan(es, Mark(), q)
    }

    function End(): nat
      requires es != []
    {
      |pre| + |FlowText(es, trailing)|
    }

    /** What is left of the mapping when its queue is hidden. */
    function Left(): Option<seq<(string, string)>>
      requires q < |es|
    {
      if |es| == 1 && trailing.Some? then None else Some(Without(Meaning(es), q))
    }
  }

  /** The span in a body made of three parts. */
  lemma PartInside(es: seq<Entry>, trailing: Option<string>, at: nat, a: string, b: string, c: string, span: Span)
    requires es != [] && Body(es) == a + b + c && span == Span(at + 1 + |a|, at + 1 + |a| + |b|)
    ensures at <= span.start <= span.end <= at + |FlowText(es, trailing)|
  {
  }

  /** The queue's span lies between the braces. */
  lemma QueueInside(es: seq<Entry>, trailing: Option<string>, at: nat, q: nat, span: Span)
    requires q < |es| && span == MarkedSpan(es, FlowNode(es, trailing, at), q)
    ensures at <= span.start <= span.end <= at + |FlowText(es, trailing)|
  {
    MarkLengths(es, trailing, at, q);
    if q + 1 < |es| {
      NextPieces(es, q);
      PartInside(es, trailing, at, Heads(es[..q]) + es[q].before, Core(es[q]) + es[q].after + ",",
                 EntryText(es[q + 1]) + Tails(es[q + 2..]), span);
    } else if q > 0 {
      LastPieces(es);
      PartInside(es, trailing, at, Heads(es[..q - 1]) + EntryText(es[q - 1]), "," + es[q].before + Core(es[q]),
                 es[q].after, span);
    } else {
      EntryParts(es[0]);
      assert Heads(es[..0]) == "" && Body(es) == es[0].before + Core(es[0]) + es[0].after;
      PartInside(es, trailing, at, es[0].before, Core(es[0]), es[0].after, span);
    }
  }

  /** Spans outside a stretch of the source do not change how that stretch is blanked. */
  lemma SameStretch(source: string, spans: seq<Span>, k: nat, from: nat, until: nat)
    requires k < |spans| && from <= until <= |source|
    requires AllOutside(spans, k, from, until)
    ensures Blanked(source, spans)[from..until] == Blanked(source, [spans[k]])[from..until]
  {
    forall i | from <= i < until
      ensures Blanked(source, spans)[i] == Blanked(source, [spans[k]])[i]
    {
      assert [spans[k]][0] == spans[k];
      if Hidden(spans, i) {
        var j :| 0 <= j < |spans| && spans[j].start <= i < spans[j].end;
        assert spans[j] == spans[k];
      }
    }
  }

  /** Two mappings of one source that do not overlap, unless an alias makes them one. */
  predicate Separate(a: Place, b: Place) {
    a == b || (a.es != [] && b.es != [] && (a.End() <= |b.pre| || b.End() <= |a.pre|))
  }

  /** The places all lie in the source, apart from each other, and the spans are those of their queues. */
  ghost predicate Placement(source: string, places: seq<Place>, spans: seq<Span>) {
    && |spans| == |places|
    && (forall j :: 0 <= j < |places| ==>
                      places[j].Holds() && places[j].Text() == source && spans[j] == places[j].Queue())
    && forall i, j :: 0 <= i < j < |places| ==> Separate(places[i], places[j])
  }

  /** What lies inside one of two separate stretches lies outside the other. */
  lemma OutsideOther(a: Place, b: Place, endA: nat, endB: nat, spanA: Span, spanB: Span)
    requires (a.es != [] ==> endA == a.End()) && (b.es != [] ==> endB == b.End())
    requires (Separate(a, b) || Separate(b, a)) && |b.pre| <= spanB.start <= spanB.end <= endB
    requires a == b ==> spanA == spanB
    ensures spanB == spanA || spanB.end <= |a.pre| || endA <= spanB.start
  {
  }

  lemma OthersAreOutside(source: string, places: seq<Place>, spans: seq<Span>, k: nat, j: nat, a: Place, b: Place)
    requires Placement(source, places, spans) && k < |places| && j < |places| && a == places[k] && b == places[j]
    requires a.Holds() && b.Holds()
    ensures spans[j] == spans[k] || spans[j].end <= |a.pre| || a.End() <= spans[j].start
  {
    QueueInside(b.es, b.trailing, |b.pre|, b.q, spans[j]);
    assert j != k ==> Separate(a, b) || Separate(b, a);
    assert j == k ==> Separate(a, b);
    OutsideOther(a, b, a.End(), b.End(), spans[k], spans[j]);
  }

  lemma TextLength(p: Place, source: string)
    requires p.es != [] && p.Text() == source
    ensures |p.pre| <= p.End() == |source| - |p.post|
  {
  }

  /** Every other span lies outside this stretch. */
  ghost predicate AllOutside(spans: seq<Span>, k: nat, from: nat, until: nat)
    requires k < |spans|
  {
    forall j :: 0 <= j < |spans| ==> spans[j] == spans[k] || spans[j].end <= from || until <= spans[j].start
  }

  lemma OthersOutside(source: string, places: seq<Place>, spans: seq<Span>, k: nat, p: Place, end: nat)
    requires Placement(source, places, spans) && k < |places| && p == places[k] && p.Holds() && end == p.End()
    ensures AllOutside(spans, k, |p.pre|, end)
  {
    forall j | 0 <= j < |spans|
      ensures spans[j] == spans[k] || spans[j].end <= |p.pre| || end <= spans[j].start
    {
      OthersAreOutside(source, places, spans, k, j, p, places[j]);
    }
  }

  /** Within its own stretch the copy with all spans is the copy with the mapping's own span. */
  lemma OwnStretch(source: string, spans: seq<Span>, k: nat, p: Place)
    requires p.es != [] && p.Text() == source && k < |spans| && AllOutside(spans, k, |p.pre|, p.End())
    ensures |p.pre| + |p.post| <= |source|
    ensures Inside(Blanked(source, spans), p.pre, p.post) == Inside(Blanked(source, [spans[k]]), p.pre, p.post)
  {
    var end := p.End();
    TextLength(p, source);
    SameStretch(source, spans, k, |p.pre|, end);
  }

  /**
   * With the queues of several mappings blanked in one source, each mapping still reads as before without its own
   * queue, with the one exception of a queue that stands alone before a trailing comma.
   */
  lemma CopyHidesOnlyTheQueues(source: string, places: seq<Place>, spans: seq<Span>, k: nat, p: Place)
    requires Placement(source, places, spans) && k < |places| && p == places[k] && p.Holds()
    ensures QueueSpan(p.Mark(), source) == Returned(spans[k])
    ensures |p.pre| + |p.post| <= |source|
    ensures ReadFlow(Inside(Blanked(source, spans), p.pre, p.post)) == p.Left()
  {
    var span := CopyHidesOnlyTheQueue(p.pre, p.es, p.trailing, p.post, p.q);
    SpanByMarks(p.pre, p.es, p.trailing, p.post, p.q, p.Mark(), source, spans[k]);
    OthersOutside(source, places, spans, k, p, p.End());
    OwnStretch(source, spans, k, p);
  }
}
