/** Hiding validated concurrency queues from the linter without moving anything else. */
module LintCopy {
  import opened Common

  /** A YAML node with its source marks. */
  datatype Node =
    | Scalar(text: string, tag: string, start: nat, end: nat)
    | Mapping(entries: seq<Pair>, flow: bool, start: nat, end: nat)
    | OtherNode(start: nat, end: nat)

  datatype Pair = Pair(key: Node, value: Node)

  datatype Span = Span(start: nat, end: nat)

  const STR := "tag:yaml.org,2002:str"

  // ----- fields ------------------------------------------------------------------------

  predicate Names(key: Node, name: string) {
    key.Scalar? && key.text == name
  }

  /** The first entry of that name. */
  function IndexOf(entries: seq<Pair>, name: string, from: nat): (i: Option<nat>)
    requires from <= |entries|
    ensures i.Some? ==> from <= i.value < |entries| && Names(entries[i.value].key, name)
    ensures forall j :: from <= j < (if i.Some? then i.value else |entries|) ==> !Names(entries[j].key, name)
    decreases |entries| - from
  {
    if from == |entries| then None
    else if Names(entries[from].key, name) then Some(from)
    else IndexOf(entries, name, from + 1)
  }

  function FieldOf(node: Node, name: string): Option<Node> {
    if !node.Mapping? then None
    else match IndexOf(node.entries, name, 0)
      case None => None
      case Some(i) => Some(node.entries[i].value)
  }

  /** Keys that are no scalars cannot be compared. */
  predicate DistinctKeys(entries: seq<Pair>) {
    && (forall i :: 0 <= i < |entries| ==> entries[i].key.Scalar?)
    && forall i, j :: 0 <= i < j < |entries| ==> entries[i].key.text != entries[j].key.text
  }

  // ----- the span of one queue ---------------------------------------------------------

  /** source[from:until].index(","), as a position in source. */
  function FirstComma(source: string, from: nat, until: nat): (k: Option<nat>)
    ensures k.Some? ==> from <= k.value < until && k.value < |source| && source[k.value] == ','
    ensures forall i :: from <= i < (if k.Some? then k.value else until) && i < |source| ==> source[i] != ','
    decreases until - from
  {
    if from >= until || from >= |source| then None
    else if source[from] == ',' then Some(from)
    else FirstComma(source, from + 1, until)
  }

  /** source[from:until].rindex(","), as a position in source. */
  function LastComma(source: string, from: nat, until: nat): (k: Option<nat>)
    ensures k.Some? ==> from <= k.value < until && k.value < |source| && source[k.value] == ','
    ensures forall i :: (if k.Some? then k.value + 1 else from) <= i < until && i < |source| ==> source[i] != ','
    decreases until
  {
    if until <= from then None
    else if until <= |source| && source[until - 1] == ',' then Some(until - 1)
    else LastComma(source, from, until - 1)
  }

  predicate ValidQueue(queue: Node) {
    queue.Scalar? && queue.text in {"single", "max"} && queue.tag == STR
  }

  predicate ValidCancel(queue: Node, cancel: Option<Node>)
    requires queue.Scalar?
  {
    queue.text == "max" && cancel.Some? ==> cancel.value.Scalar? && cancel.value.text == "false"
  }

  predicate InPlace(c: Node, i: nat)
    requires c.Mapping? && i < |c.entries|
  {
    var key, value := c.entries[i].key, c.entries[i].value;
    key.end <= value.start < value.end <= c.end
  }

  /** A queue that the check accepts, next to fields it is compatible with. */
  predicate Supported(c: Node)
    requires c.Mapping? && FieldOf(c, "queue").Some?
  {
    && DistinctKeys(c.entries) && ValidQueue(FieldOf(c, "queue").value)
    && ValidCancel(FieldOf(c, "queue").value, FieldOf(c, "cancel-in-progress"))
  }

  /** The entry alone in block style; in flow style together with the comma after it, or else the one before it. */
  function QueueSpan(c: Node, source: string): Outcome<Span>
    requires c.Mapping? && FieldOf(c, "queue").Some?
  {
    var i := IndexOf(c.entries, "queue", 0).value;
    var queue := c.entries[i].value;
    if !Supported(c) || !InPlace(c, i) then Raised
    else
      var start, end := c.entries[i].key.start, queue.end;
      if c.flow && i + 1 < |c.entries| then
        match FirstComma(source, end, c.entries[i + 1].key.start)
        case None => Raised
        case Some(k) => Returned(Span(start, k + 1))
      else if c.flow && i > 0 then
        match LastComma(source, c.entries[i - 1].value.end, start)
        case None => Raised
        case Some(k) => Returned(Span(k, end))
      else Returned(Span(start, end))
  }

  // ----- the copy ----------------------------------------------------------------------

  /** The places that may hold a concurrency mapping: the document and each of its jobs. */
  function Scopes(document: Node): seq<Node> {
    var jobs := FieldOf(document, "jobs");
    [document] + if jobs.Some? && jobs.value.Mapping? then
                   seq(|jobs.value.entries|, i requires 0 <= i < |jobs.value.entries| => jobs.value.entries[i].value)
                 else []
  }

  /** The spans to blank, scope by scope. */
  function Spans(scopes: seq<Node>, source: string): Outcome<seq<Span>> {
    if scopes == [] then Returned([])
    else
      match Spans(scopes[..|scopes| - 1], source)
      case Raised => Raised
      case Returned(spans) =>
        var c := FieldOf(scopes[|scopes| - 1], "concurrency");
        if c.Some? && c.value.Mapping? && FieldOf(c.value, "queue").Some? then
          match QueueSpan(c.value, source)
          case Raised => Raised
          case Returned(span) => Returned(spans + [span])
        else Returned(spans)
  }

  lemma {:induction false} SpansStayRaised(scopes: seq<Node>, source: string, i: nat)
    requires i <= |scopes| && Spans(scopes[..i], source).Raised?
    ensures Spans(scopes, source).Raised?
    decreases |scopes| - i
  {
    if i == |scopes| {
      assert scopes[..i] == scopes;
    } else {
      assert scopes[..i + 1][..i] == scopes[..i];
      SpansStayRaised(scopes, source, i + 1);
    }
  }

  predicate Hidden(spans: seq<Span>, i: nat) {
    exists k :: 0 <= k < |spans| && spans[k].start <= i < spans[k].end
  }

  function Shown(c: char): char {
    if c == '\r' || c == '\n' then c else ' '
  }

  /** The source with every character of the spans blanked, line breaks excepted. */
  function Blanked(source: string, spans: seq<Span>): (r: string)
    ensures |r| == |source|
    ensures forall i :: 0 <= i < |source| ==> r[i] == if Hidden(spans, i) then Shown(source[i]) else source[i]
  {
    seq(|source|, i requires 0 <= i < |source| => if Hidden(spans, i) then Shown(source[i]) else source[i])
  }

  /** One span, in place. */
  method Blank(source: string, characters: array<char>, span: Span)
    requires characters.Length == |source|
    modifies characters
    ensures forall i :: 0 <= i < |source| ==>
              characters[i] == if span.start <= i < span.end then Shown(source[i]) else old(characters[i])
  {
    var i := span.start;
    while i < span.end && i < characters.Length
      invariant span.start <= i
      invariant forall j :: 0 <= j < |source| ==>
                  characters[j] == if span.start <= j < i && j < span.end then Shown(source[j]) else old(characters[j])
    {
      characters[i] := Shown(source[i]);
      i := i + 1;
    }
  }

  /** Malformed YAML (no document) is left to the linter; a queue that is not supported is refused. */
  method Copy(source: string, document: Option<Node>) returns (r: Outcome<string>)
    ensures document.None? ==> r == Returned(source)
    ensures document.Some? ==> (r.Raised? <==> Spans(Scopes(document.value), source).Raised?)
    ensures document.Some? && r.Returned? ==> r.value == Blanked(source, Spans(Scopes(document.value), source).value)
  {
    if document.None? {
      return Returned(source);
    }
    var scopes := Scopes(document.value);
    var spans: seq<Span> := [];
    for i := 0 to |scopes|
      invariant Spans(scopes[..i], source) == Returned(spans)
    {
      assert scopes[..i + 1][..i] == scopes[..i];
      var c := FieldOf(scopes[i], "concurrency");
      if c.Some? && c.value.Mapping? && FieldOf(c.value, "queue").Some? {
        var span := QueueSpan(c.value, source);
        if span.Raised? {
          SpansStayRaised(scopes, source, i + 1);
          return Raised;
        }
        spans := spans + [span.value];
      }
    }
    assert scopes[..|scopes|] == scopes;
    var copy := BlankAll(source, spans);
    return Returned(copy);
  }

  method BlankAll(source: string, spans: seq<Span>) returns (r: string)
    ensures r == Blanked(source, spans)
  {
    var characters := new char[|source|](i requires 0 <= i < |source| => source[i]);
    for k := 0 to |spans|
      invariant forall i :: 0 <= i < |source| ==>
                  characters[i] == if Hidden(spans[..k], i) then Shown(source[i]) else source[i]
    {
      Blank(source, characters, spans[k]);
      forall i: nat | i < |source|
        ensures Hidden(spans[..k + 1], i) <==> Hidden(spans[..k], i) || spans[k].start <= i < spans[k].end
      {
        HiddenSnoc(spans, k, i);
      }
    }
    assert spans[..|spans|] == spans;
    r := characters[..];
  }

  lemma HiddenSnoc(spans: seq<Span>, k: nat, i: nat)
    requires k < |spans|
    ensures Hidden(spans[..k + 1], i) <==> Hidden(spans[..k], i) || spans[k].start <= i < spans[k].end
  {
    assert spans[..k + 1][k] == spans[k];
    forall j | 0 <= j < k
      ensures spans[..k + 1][j] == spans[..k][j]
    {
    }
  }

  /** Lines stay lines: every line break survives where it was, and none appears. */
  lemma LineBreaksStay(source: string, spans: seq<Span>, i: nat)
    requires i < |source|
    ensures Blanked(source, spans)[i] == '\n' <==> source[i] == '\n'
    ensures Blanked(source, spans)[i] == '\r' <==> source[i] == '\r'
  {
  }

  /** A second pass over the same spans changes nothing, whatever the order of the spans. */
  lemma BlankingIsIdempotent(source: string, spans: seq<Span>, again: seq<Span>)
    requires multiset(spans) == multiset(again)
    ensures Blanked(source, spans) == Blanked(source, again) == Blanked(Blanked(source, spans), again)
  {
    forall i: nat
      ensures Hidden(spans, i) <==> Hidden(again, i)
    {
      if Hidden(spans, i) { SameHidden(spans, again, i); }
      if Hidden(again, i) { SameHidden(again, spans, i); }
    }
  }

  lemma SameHidden(spans: seq<Span>, again: seq<Span>, i: nat)
    requires multiset(spans) == multiset(again) && Hidden(spans, i)
    ensures Hidden(again, i)
  {
    var k :| 0 <= k < |spans| && spans[k].start <= i < spans[k].end;
    assert spans[k] in multiset(again);
  }

  predicate NoComma(source: string, from: nat, until: nat) {
    forall i :: from <= i < until && i < |source| ==> source[i] != ','
  }

  /**
   * What a span covers: one entry of the mapping; in flow style also the text up to and with the first comma behind
   * it, or for a last entry from the last comma before it on. A supported queue in its place is refused exactly when
   * there is no such comma.
   */
  lemma SpanStaysInside(c: Node, source: string, i: nat)
    requires c.Mapping? && FieldOf(c, "queue").Some? && IndexOf(c.entries, "queue", 0) == Some(i)
    requires Supported(c) && InPlace(c, i)
    ensures var start, end, r := c.entries[i].key.start, c.entries[i].value.end, QueueSpan(c, source);
            if c.flow && i + 1 < |c.entries| then
              var next := c.entries[i + 1].key.start;
              if r.Raised? then NoComma(source, end, next)
              else
                && r.value.start == start && end < r.value.end <= next && r.value.end <= |source|
                && source[r.value.end - 1] == ',' && NoComma(source, end, r.value.end - 1)
            else if c.flow && i > 0 then
              var previous := c.entries[i - 1].value.end;
              if r.Raised? then NoComma(source, previous, start)
              else
                && r.value.end == end && previous <= r.value.start < start && r.value.start < |source|
                && source[r.value.start] == ',' && NoComma(source, r.value.start + 1, start)
            else r == Returned(Span(start, end))
  {
  }
}
