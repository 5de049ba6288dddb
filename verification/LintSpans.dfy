/** Which sources are copied, and which of their characters are blanked, said by entries, texts and marks. */
module LintSpans {
  import opened Common
  import opened LintCopy

  // ----- entries -----------------------------------------------------------------------

  /** The first entry of that name. */
  ghost predicate EntryAt(node: Node, name: string, i: nat) {
    && node.Mapping? && i < |node.entries|
    && node.entries[i].key.Scalar? && node.entries[i].key.text == name
    && forall j :: 0 <= j < i && node.entries[j].key.Scalar? ==> node.entries[j].key.text != name
  }

  ghost predicate HasEntry(node: Node, name: string, value: Node) {
    exists i: nat :: EntryAt(node, name, i) && node.entries[i].value == value
  }

  lemma FieldMeans(node: Node, name: string)
    ensures forall i: nat :: EntryAt(node, name, i)
              ==> IndexOf(node.entries, name, 0) == Some(i) && FieldOf(node, name) == Some(node.entries[i].value)
    ensures forall value :: FieldOf(node, name) == Some(value) <==> HasEntry(node, name, value)
    ensures FieldOf(node, name).Some? ==> IndexOf(node.entries, name, 0).Some?
                                          && EntryAt(node, name, IndexOf(node.entries, name, 0).value)
  {
    if i: nat :| EntryAt(node, name, i) {
      EntryIsFirst(node, name, i);
    }
    if FieldOf(node, name).Some? {
      var i := IndexOf(node.entries, name, 0).value;
      assert EntryAt(node, name, i);
    }
    forall i: nat | EntryAt(node, name, i)
      ensures IndexOf(node.entries, name, 0) == Some(i)
    {
      EntryIsFirst(node, name, i);
    }
  }

  lemma EntryIsFirst(node: Node, name: string, i: nat)
    requires EntryAt(node, name, i)
    ensures IndexOf(node.entries, name, 0) == Some(i)
  {
    assert Names(node.entries[i].key, name);
  }

  // ----- one queue ---------------------------------------------------------------------

  /** Its keys are scalars of different texts; its queue is the string single or max, and max cancels nothing. */
  ghost predicate Compatible(c: Node, i: nat)
    requires c.Mapping? && i < |c.entries|
  {
    && (forall j :: 0 <= j < |c.entries| ==> c.entries[j].key.Scalar?)
    && (forall j, k :: 0 <= j < k < |c.entries| ==> c.entries[j].key.text != c.entries[k].key.text)
    && c.entries[i].value.Scalar? && c.entries[i].value.tag == "tag:yaml.org,2002:str"
    && (|| c.entries[i].value.text == "single"
        || (c.entries[i].value.text == "max"
            && forall cancel :: HasEntry(c, "cancel-in-progress", cancel) ==>
                 cancel.Scalar? && cancel.text == "false"))
  }

  /** The place k holds the first comma of source[from:until]. */
  ghost predicate FirstCommaAt(source: string, from: nat, until: nat, k: nat) {
    from <= k < until && k < |source| && source[k] == ',' && forall i :: from <= i < k ==> source[i] != ','
  }

  /** The place k holds the last comma of source[from:until]. */
  ghost predicate LastCommaAt(source: string, from: nat, until: nat, k: nat) {
    from <= k < until && k < |source| && source[k] == ','
    && forall i :: k < i < until && i < |source| ==> source[i] != ','
  }

  /**
   * The span of a queue's entry: from its key to the end of its value, which stands behind the key inside the mapping;
   * in flow style with the first comma before the next key, or for a last entry from the last comma behind the
   * value before it.
   */
  ghost predicate EntrySpan(c: Node, source: string, i: nat, span: Span) {
    && EntryAt(c, "queue", i) && Compatible(c, i)
    && c.entries[i].key.end <= c.entries[i].value.start < c.entries[i].value.end <= c.end
    && if c.flow && i + 1 < |c.entries| then
         span.start == c.entries[i].key.start && span.end > 0
         && FirstCommaAt(source, c.entries[i].value.end, c.entries[i + 1].key.start, span.end - 1)
       else if c.flow && i > 0 then
         span.end == c.entries[i].value.end
         && LastCommaAt(source, c.entries[i - 1].value.end, c.entries[i].key.start, span.start)
       else span == Span(c.entries[i].key.start, c.entries[i].value.end)
  }

  lemma FirstCommaMeans(source: string, from: nat, until: nat, k: nat)
    ensures FirstComma(source, from, until) == Some(k) <==> FirstCommaAt(source, from, until, k)
  {
  }

  lemma LastCommaMeans(source: string, from: nat, until: nat, k: nat)
    ensures LastComma(source, from, until) == Some(k) <==> LastCommaAt(source, from, until, k)
  {
  }

  lemma CompatibleMeans(c: Node, i: nat)
    requires EntryAt(c, "queue", i)
    ensures FieldOf(c, "queue") == Some(c.entries[i].value)
    ensures Supported(c) <==> Compatible(c, i)
  {
    FieldMeans(c, "queue");
    FieldMeans(c, "cancel-in-progress");
  }

  /** For any mapping with a queue, its span is exactly this one, and without one it is refused. */
  lemma SpanIsExact(c: Node, source: string, i: nat, span: Span)
    requires EntryAt(c, "queue", i) && FieldOf(c, "queue").Some?
    ensures QueueSpan(c, source) == Returned(span) <==> EntrySpan(c, source, i, span)
  {
    FieldMeans(c, "queue");
    CompatibleMeans(c, i);
    if c.flow && i + 1 < |c.entries| && span.end > 0 {
      FirstCommaMeans(source, c.entries[i].value.end, c.entries[i + 1].key.start, span.end - 1);
    } else if c.flow && i > 0 {
      LastCommaMeans(source, c.entries[i - 1].value.end, c.entries[i].key.start, span.start);
    }
  }

  // ----- the whole source --------------------------------------------------------------

  /** The document itself, or a job: a value of its mapping named jobs. */
  ghost predicate ScopeOf(document: Node, scope: Node) {
    || scope == document
    || exists jobs, i :: HasEntry(document, "jobs", jobs) && jobs.Mapping? && 0 <= i < |jobs.entries|
                         && jobs.entries[i].value == scope
  }

  lemma ScopesMean(document: Node, scope: Node)
    ensures scope in Scopes(document) <==> ScopeOf(document, scope)
  {
    FieldMeans(document, "jobs");
    var jobs := FieldOf(document, "jobs");
    var values := Scopes(document);
    assert values[0] == document;
    if scope in values {
      var k :| 0 <= k < |values| && values[k] == scope;
      if k > 0 { assert jobs.value.entries[k - 1].value == scope; }
    }
    if i :| jobs.Some? && jobs.value.Mapping? && 0 <= i < |jobs.value.entries| && jobs.value.entries[i].value == scope {
      assert values[i + 1] == scope;
    }
  }

  /** A concurrency mapping of the document or of a job, with a queue at place i. */
  ghost predicate QueueIn(document: Node, c: Node, i: nat) {
    EntryAt(c, "queue", i) && exists scope :: ScopeOf(document, scope) && HasEntry(scope, "concurrency", c)
  }

  /** The concurrency mapping of this scope, if it has a queue at place i. */
  ghost predicate QueueOf(scope: Node, c: Node, i: nat) {
    HasEntry(scope, "concurrency", c) && EntryAt(c, "queue", i)
  }

  ghost predicate Refused(scopes: seq<Node>, source: string) {
    exists scope, c, i: nat :: scope in scopes && QueueOf(scope, c, i) && QueueRefused(c, source, i)
  }

  ghost predicate QueueRefused(c: Node, source: string, i: nat) {
    forall span :: !EntrySpan(c, source, i, span)
  }

  ghost predicate Covered(scopes: seq<Node>, source: string, span: Span) {
    exists scope, c, i: nat :: scope in scopes && QueueOf(scope, c, i) && EntrySpan(c, source, i, span)
  }

  lemma OneScope(scope: Node, source: string)
    ensures var c := FieldOf(scope, "concurrency");
            if c.Some? && c.value.Mapping? && FieldOf(c.value, "queue").Some? then
              && (QueueSpan(c.value, source).Raised? <==> Refused([scope], source))
              && forall span :: QueueSpan(c.value, source) == Returned(span) <==> Covered([scope], source, span)
            else !Refused([scope], source) && forall span :: !Covered([scope], source, span)
  {
    FieldMeans(scope, "concurrency");
    var c := FieldOf(scope, "concurrency");
    forall d, i: nat | QueueOf(scope, d, i)
      ensures c == Some(d) && FieldOf(d, "queue") == Some(d.entries[i].value)
              && IndexOf(d.entries, "queue", 0) == Some(i)
    {
      FieldMeans(d, "queue");
    }
    if c.Some? && c.value.Mapping? && FieldOf(c.value, "queue").Some? {
      QueueOfScope(scope, c.value, source);
    }
  }

  lemma QueueOfScope(scope: Node, c: Node, source: string)
    requires FieldOf(scope, "concurrency") == Some(c) && FieldOf(c, "queue").Some?
    requires forall d, i: nat :: QueueOf(scope, d, i) ==> d == c && IndexOf(d.entries, "queue", 0) == Some(i)
    ensures QueueSpan(c, source).Raised? <==> Refused([scope], source)
    ensures forall span :: QueueSpan(c, source) == Returned(span) <==> Covered([scope], source, span)
  {
    FieldMeans(scope, "concurrency");
    FieldMeans(c, "queue");
    var i: nat := IndexOf(c.entries, "queue", 0).value;
    assert scope in [scope] && QueueOf(scope, c, i);
    forall span: Span
      ensures QueueSpan(c, source) == Returned(span) <==> EntrySpan(c, source, i, span)
    {
      SpanIsExact(c, source, i, span);
    }
  }

  lemma {:induction false} AllScopes(scopes: seq<Node>, source: string)
    ensures Spans(scopes, source).Raised? <==> Refused(scopes, source)
    ensures Spans(scopes, source).Returned? ==>
              forall span :: span in Spans(scopes, source).value <==> Covered(scopes, source, span)
  {
    if scopes != [] {
      var front, last := scopes[..|scopes| - 1], scopes[|scopes| - 1];
      AllScopes(front, source);
      OneScope(last, source);
      assert scopes == front + [last];
      assert Refused(scopes, source) <==> Refused(front, source) || Refused([last], source);
      forall span: Span
        ensures Covered(scopes, source, span) <==> Covered(front, source, span) || Covered([last], source, span)
      {
      }
    }
  }

  /**
   * The copy, for any document: it is refused exactly if some queue has no span, and its blanked characters are
   * exactly those of the queues' spans.
   */
  lemma CopyIsExact(document: Node, source: string)
    ensures var spans := Spans(Scopes(document), source);
            && (spans.Raised? <==> exists c, i: nat :: QueueIn(document, c, i) && QueueRefused(c, source, i))
            && (spans.Returned? ==> forall at: nat :: Hidden(spans.value, at) <==> Blanks(document, source, at))
  {
    var scopes := Scopes(document);
    AllScopes(scopes, source);
    forall scope: Node
      ensures scope in scopes <==> ScopeOf(document, scope)
    {
      ScopesMean(document, scope);
    }
    var spans := Spans(scopes, source);
    if scope, c, i: nat :| scope in scopes && QueueOf(scope, c, i) && QueueRefused(c, source, i) {
      assert QueueIn(document, c, i);
    }
    if c, i: nat :| QueueIn(document, c, i) && QueueRefused(c, source, i) {
      var scope :| ScopeOf(document, scope) && HasEntry(scope, "concurrency", c);
      assert scope in scopes && QueueOf(scope, c, i);
    }
    if spans.Returned? {
      forall at: nat
        ensures Hidden(spans.value, at) <==> Blanks(document, source, at)
      {
        BlanksAre(document, source, spans.value, at);
      }
    }
  }

  /** The character is in the span of a queue. */
  ghost predicate Blanks(document: Node, source: string, at: nat) {
    exists c, i: nat, span :: QueueIn(document, c, i) && EntrySpan(c, source, i, span) && span.start <= at < span.end
  }

  lemma BlanksAre(document: Node, source: string, spans: seq<Span>, at: nat)
    requires forall scope :: scope in Scopes(document) <==> ScopeOf(document, scope)
    requires forall span :: span in spans <==> Covered(Scopes(document), source, span)
    ensures Hidden(spans, at) <==> Blanks(document, source, at)
  {
    if Hidden(spans, at) {
      var k :| 0 <= k < |spans| && spans[k].start <= at < spans[k].end;
      assert Covered(Scopes(document), source, spans[k]);
      var scope, c, i: nat :| scope in Scopes(document) && QueueOf(scope, c, i) && EntrySpan(c, source, i, spans[k]);
      assert QueueIn(document, c, i);
    }
    if Blanks(document, source, at) {
      var c, i: nat, span :| QueueIn(document, c, i) && EntrySpan(c, source, i, span) && span.start <= at < span.end;
      var scope :| ScopeOf(document, scope) && HasEntry(scope, "concurrency", c);
      assert scope in Scopes(document) && QueueOf(scope, c, i);
      assert span in spans;
    }
  }
}
