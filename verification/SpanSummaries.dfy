/** What the tracking store derives from the persisted spans of one trace. */
module SpanSummaries {
  import opened Wrappers
  import opened ArrayOperations

  type Stats = map<string, real>

  /** A persisted span, projected to the fields the summary reads. Identifiers are only
      compared, so a number stands for an identifier's place in the byte order. */
  datatype SpanRecord = SpanRecord(
    spanId: nat,
    parent: Option<nat>,
    isError: bool,
    startNs: int,
    endNs: Option<int>,
    tokenUsage: Option<Stats>,
    cost: Option<Stats>,
    metadata: seq<Entry<string>>,
    requestPreview: Option<string>,
    responsePreview: Option<string>)

  datatype TraceState = InProgress | Unspecified | Ok | Error

  /** MLflow's own aggregators and `json.dumps`, which the store only calls. */
  datatype Mlflow = Mlflow(
    usage: seq<SpanRecord> -> Option<Stats>,
    cost: seq<SpanRecord> -> Option<Stats>,
    dumps: Stats -> string)

  datatype Summary = Summary(
    requestTime: int,
    executionDuration: Option<int>,
    state: TraceState,
    requestPreview: Option<string>,
    responsePreview: Option<string>,
    metadata: seq<Entry<string>>,
    tokenUsage: Option<Stats>,
    cost: Option<Stats>,
    tags: seq<Entry<string>>)

  const NS_PER_MS := 1_000_000

  // ---------- the order of the snapshot query ----------

  /** By start time, and by span id where the start times are equal. */
  predicate Precedes(a: SpanRecord, b: SpanRecord) {
    a.startNs < b.startNs || (a.startNs == b.startNs && a.spanId < b.spanId)
  }

  /** The unique index on (trace_id, span_id), within one trace. */
  ghost predicate DistinctIds(spans: set<SpanRecord>) {
    forall a, b | a in spans && b in spans && a.spanId == b.spanId :: a == b
  }

  predicate IsFirst(m: SpanRecord, spans: set<SpanRecord>) {
    m in spans && forall x <- spans :: x == m || Precedes(m, x)
  }

  lemma {:induction false} FirstExists(spans: set<SpanRecord>) returns (m: SpanRecord)
    requires spans != {} && DistinctIds(spans)
    ensures IsFirst(m, spans)
    decreases |spans|
  {
    var x :| x in spans;
    if spans == {x} {
      m := x;
    } else {
      var rest := spans - {x};
      assert spans == rest + {x};
      var m' := FirstExists(rest);
      m := if Precedes(x, m') then x else m';
    }
  }

  /** The snapshot cursor: every span of the trace, in query order. */
  function Sorted(spans: set<SpanRecord>): (r: seq<SpanRecord>)
    requires DistinctIds(spans)
    ensures forall x :: x in r <==> x in spans
    ensures forall i, j :: 0 <= i < j < |r| ==> Precedes(r[i], r[j])
    decreases |spans|
  {
    if spans == {} then [] else
      assert exists m :: IsFirst(m, spans) by { var m := FirstExists(spans); }
      var m :| IsFirst(m, spans);
      [m] + Sorted(spans - {m})
  }

  /** The query order is total: a list in order is determined by the set it lists. */
  lemma {:induction false} SortedIsUnique(spans: set<SpanRecord>, r: seq<SpanRecord>)
    requires DistinctIds(spans)
    requires forall x :: x in r <==> x in spans
    requires forall i, j :: 0 <= i < j < |r| ==> Precedes(r[i], r[j])
    ensures r == Sorted(spans)
    decreases |spans|
  {
    if spans == {} {
      assert forall x :: x !in r;
    } else {
      HeadIsFirst(spans, r);
      HeadIsFirst(spans, Sorted(spans));
      TailOf(r);
      SortedIsUnique(spans - {r[0]}, r[1..]);
    }
  }

  lemma TailOf(r: seq<SpanRecord>)
    requires r != [] && forall i, j :: 0 <= i < j < |r| ==> Precedes(r[i], r[j])
    ensures r == [r[0]] + r[1..]
    ensures forall y :: y in r[1..] <==> y in r && y != r[0]
  {
    forall y ensures y in r[1..] <==> y in r && y != r[0] {
      assert y in r <==> y == r[0] || y in r[1..];
    }
  }

  lemma HeadIsFirst(spans: set<SpanRecord>, r: seq<SpanRecord>)
    requires spans != {} && DistinctIds(spans)
    requires forall x :: x in r <==> x in spans
    requires forall i, j :: 0 <= i < j < |r| ==> Precedes(r[i], r[j])
    ensures r != [] && r[0] in spans && IsFirst(r[0], spans)
    ensures forall m :: IsFirst(m, spans) ==> m == r[0]
  {
    var x :| x in spans;
    assert x in r;
    assert r[0] in r;
    assert IsFirst(r[0], spans);
  }

  // ---------- the summary ----------

  function MinStart(spans: seq<SpanRecord>): int
    requires spans != []
  {
    if |spans| == 1 then spans[0].startNs
    else
      var m := MinStart(spans[..|spans| - 1]);
      var x := spans[|spans| - 1].startNs;
      if x < m then x else m
  }

  function MaxEnd(spans: seq<SpanRecord>): Option<int> {
    if spans == [] then None
    else
      var m := MaxEnd(spans[..|spans| - 1]);
      match spans[|spans| - 1].endNs
      case None => m
      case Some(e) => if m.None? || m.value < e then Some(e) else m
  }

  function FirstRoot(spans: seq<SpanRecord>): Option<SpanRecord> {
    if spans == [] then None
    else if spans[0].parent.None? then Some(spans[0])
    else FirstRoot(spans[1..])
  }

  /** `setdefault` over every span's metadata: the first span with a key supplies it. */
  function FirstMetadata(spans: seq<SpanRecord>): seq<Entry<string>> {
    if spans == [] then []
    else MergeMissing(FirstMetadata(spans[..|spans| - 1]), spans[|spans| - 1].metadata)
  }

  function StateOf(root: Option<SpanRecord>): TraceState {
    match root
    case None => InProgress
    case Some(r) => if r.isError then Error else Ok
  }

  function Summarize(env: Mlflow, spans: seq<SpanRecord>, tags: seq<Entry<string>>): Summary
    requires spans != []
  {
    var startMs := MinStart(spans) / NS_PER_MS;
    var end := MaxEnd(spans);
    var root := FirstRoot(spans);
    Summary(
      startMs,
      if end.None? then None else Some(end.value / NS_PER_MS - startMs),
      StateOf(root),
      if root.None? then None else root.value.requestPreview,
      if root.None? then None else root.value.responsePreview,
      FirstMetadata(spans),
      env.usage(spans),
      env.cost(spans),
      tags)
  }

  /** The first span without a parent. */
  method FindRoot(documents: seq<SpanRecord>) returns (root: Option<SpanRecord>)
    ensures root == FirstRoot(documents)
  {
    for i := 0 to |documents|
      invariant FirstRoot(documents) == FirstRoot(documents[i..])
    {
      assert documents[i..][1..] == documents[i + 1..];
      if documents[i].parent.None? { return Some(documents[i]); }
    }
    return None;
  }

  /** _summarize_spans, loop by loop. */
  method SummarizeSpans(env: Mlflow, documents: seq<SpanRecord>, tags: seq<Entry<string>>)
    returns (summary: Summary)
    requires documents != []
    ensures summary == Summarize(env, documents, tags) && Summarises(env, documents, tags, summary)
  {
    var start, end, metadata := documents[0].startNs, None, [];
    for i := 0 to |documents|
      invariant i == 0 ==> start == documents[0].startNs
      invariant i > 0 ==> start == MinStart(documents[..i])
      invariant end == MaxEnd(documents[..i])
      invariant metadata == FirstMetadata(documents[..i])
    {
      var d := documents[i];
      assert documents[..i + 1][..i] == documents[..i];
      if d.startNs < start { start := d.startNs; }
      if d.endNs.Some? && (end.None? || end.value < d.endNs.value) { end := d.endNs; }
      metadata := MergeMissing(metadata, d.metadata);
    }
    assert documents[..|documents|] == documents;

    var root := FindRoot(documents);
    var startMs := start / NS_PER_MS;
    summary := Summary(
      startMs,
      if end.None? then None else Some(end.value / NS_PER_MS - startMs),
      if root.None? then InProgress else if root.value.isError then Error else Ok,
      if root.None? then None else root.value.requestPreview,
      if root.None? then None else root.value.responsePreview,
      metadata, env.usage(documents), env.cost(documents), tags);
    assert summary == Summarize(env, documents, tags);
    SummaryMeaning(env, documents, tags);
  }

  // ---------- what the parts of a summary mean ----------

  lemma {:induction false} MinStartBounds(spans: seq<SpanRecord>)
    requires spans != []
    ensures exists x <- spans :: MinStart(spans) == x.startNs
    ensures forall x <- spans :: MinStart(spans) <= x.startNs
  {
    var init, last := spans[..|spans| - 1], spans[|spans| - 1];
    assert spans == init + [last];
    if init != [] {
      MinStartBounds(init);
      assert last in spans && forall x <- init :: x in spans;
    }
  }

  lemma {:induction false} MaxEndBounds(spans: seq<SpanRecord>)
    ensures MaxEnd(spans).Some? ==> exists x <- spans :: MaxEnd(spans) == x.endNs
    ensures forall x <- spans | x.endNs.Some? :: MaxEnd(spans).Some? && x.endNs.value <= MaxEnd(spans).value
  {
    if spans != [] {
      var init, last := spans[..|spans| - 1], spans[|spans| - 1];
      assert spans == init + [last];
      MaxEndBounds(init);
      assert last in spans && forall x <- init :: x in spans;
    }
  }

  /** The root of a summary is the earliest root of the list, missing only if there is none. */
  lemma {:induction false} FirstRootIsEarliest(spans: seq<SpanRecord>)
    ensures match FirstRoot(spans)
            case None => forall x <- spans :: x.parent.Some?
            case Some(r) => exists i :: 0 <= i < |spans| && spans[i] == r && r.parent.None? &&
                                        forall j :: 0 <= j < i ==> spans[j].parent.Some?
  {
    if spans != [] {
      FirstRootIsEarliest(spans[1..]);
      if spans[0].parent.Some? && FirstRoot(spans).Some? {
        var i :| 0 <= i < |spans| - 1 && spans[1..][i] == FirstRoot(spans).value &&
                 forall j :: 0 <= j < i ==> spans[1..][j].parent.Some?;
        assert spans[i + 1] == FirstRoot(spans).value;
        assert forall j :: 0 < j < i + 1 ==> spans[j] == spans[1..][j - 1];
      }
    }
  }

  /** Span `i` is the first of the list that carries metadata key `k`. */
  ghost predicate FirstWithKey(spans: seq<SpanRecord>, i: nat, k: string)
    requires i < |spans|
  {
    k in AsMap(spans[i].metadata) && forall j :: 0 <= j < i ==> k !in AsMap(spans[j].metadata)
  }

  /** Summary metadata holds exactly the spans' keys, each with its first span's value. */
  lemma {:induction false} FirstMetadataIsEarliest(spans: seq<SpanRecord>)
    ensures forall k | k in AsMap(FirstMetadata(spans)) ::
              exists i :: 0 <= i < |spans| && FirstWithKey(spans, i, k) &&
                          AsMap(spans[i].metadata)[k] == AsMap(FirstMetadata(spans))[k]
    ensures forall x <- spans, k | k in AsMap(x.metadata) :: k in AsMap(FirstMetadata(spans))
  {
    if spans != [] {
      var init, last := spans[..|spans| - 1], spans[|spans| - 1];
      FirstMetadataIsEarliest(init);
      MergeMissingAsMap(FirstMetadata(init), last.metadata);
      forall k | k in AsMap(FirstMetadata(spans))
        ensures exists i :: 0 <= i < |spans| && FirstWithKey(spans, i, k) &&
                            AsMap(spans[i].metadata)[k] == AsMap(FirstMetadata(spans))[k]
      {
        if k in AsMap(FirstMetadata(init)) {
          var i :| 0 <= i < |init| && FirstWithKey(init, i, k) &&
                   AsMap(init[i].metadata)[k] == AsMap(FirstMetadata(init))[k];
          assert FirstWithKey(spans, i, k);
        } else {
          assert forall x <- init :: k !in AsMap(x.metadata);
          assert FirstWithKey(spans, |spans| - 1, k);
        }
      }
    }
  }

  /** Span `i` is the first of the list without a parent. */
  ghost predicate IsFirstRoot(spans: seq<SpanRecord>, i: nat) {
    i < |spans| && spans[i].parent.None? && forall j :: 0 <= j < i ==> spans[j].parent.Some?
  }

  /** State and previews are those of the first root. */
  ghost predicate RootMeans(spans: seq<SpanRecord>, s: Summary) {
    && s.state != Unspecified
    && (s.state == InProgress <==> forall x <- spans :: x.parent.Some?)
    && (s.state == Error <==> exists i: nat :: IsFirstRoot(spans, i) && spans[i].isError)
    && (s.state == Ok <==> exists i: nat :: IsFirstRoot(spans, i) && !spans[i].isError)
    && (forall i: nat :: IsFirstRoot(spans, i) ==>
          s.requestPreview == spans[i].requestPreview && s.responsePreview == spans[i].responsePreview)
    && ((forall x <- spans :: x.parent.Some?) ==> s.requestPreview.None? && s.responsePreview.None?)
  }

  /** The request time is the least start in whole milliseconds. */
  ghost predicate StartMeans(spans: seq<SpanRecord>, ms: int) {
    && (forall x <- spans :: ms * 1_000_000 <= x.startNs)
    && (exists x <- spans :: x.startNs < (ms + 1) * 1_000_000)
  }

  /** An end in milliseconds is the greatest end, missing only if no span has ended. */
  ghost predicate EndMeans(spans: seq<SpanRecord>, ms: Option<int>) {
    && (ms.None? <==> forall x <- spans :: x.endNs.None?)
    && (ms.Some? ==> forall x <- spans :: x.endNs.Some? ==> x.endNs.value < (ms.value + 1) * 1_000_000)
    && (ms.Some? ==> exists x <- spans :: x.endNs.Some? && ms.value * 1_000_000 <= x.endNs.value)
  }

  /** Every metadata key has the value of the first span that has it. */
  ghost predicate MetadataMeans(spans: seq<SpanRecord>, m: map<string, string>) {
    && (forall i, k :: 0 <= i < |spans| && FirstWithKey(spans, i, k) ==> k in m && m[k] == AsMap(spans[i].metadata)[k])
    && (forall k :: k in m ==> exists i :: 0 <= i < |spans| && FirstWithKey(spans, i, k))
  }

  /** What a summary says of the spans, field by field. */
  ghost predicate Summarises(env: Mlflow, spans: seq<SpanRecord>, tags: seq<Entry<string>>, s: Summary) {
    && RootMeans(spans, s)
    && StartMeans(spans, s.requestTime)
    && EndMeans(spans, if s.executionDuration.None? then None else Some(s.requestTime + s.executionDuration.value))
    && MetadataMeans(spans, AsMap(s.metadata))
    && s.tokenUsage == env.usage(spans) && s.cost == env.cost(spans) && s.tags == tags
  }

  lemma OnlyOneFirstRoot(spans: seq<SpanRecord>, i: nat, j: nat)
    requires IsFirstRoot(spans, i) && IsFirstRoot(spans, j)
    ensures i == j
  {}

  lemma RootFieldsMeaning(env: Mlflow, spans: seq<SpanRecord>, tags: seq<Entry<string>>)
    requires spans != []
    ensures RootMeans(spans, Summarize(env, spans, tags))
  {
    FirstRootIsEarliest(spans);
    if FirstRoot(spans).Some? {
      var r: nat :| r < |spans| && spans[r] == FirstRoot(spans).value && IsFirstRoot(spans, r);
      assert spans[r] in spans;
      forall i: nat | IsFirstRoot(spans, i) ensures i == r { OnlyOneFirstRoot(spans, i, r); }
    } else {
      forall i: nat | i < |spans| ensures !IsFirstRoot(spans, i) { assert spans[i] in spans; }
    }
  }

  lemma MetadataMeaning(spans: seq<SpanRecord>)
    ensures MetadataMeans(spans, AsMap(FirstMetadata(spans)))
  {
    FirstMetadataIsEarliest(spans);
    var m := AsMap(FirstMetadata(spans));
    forall i: nat, k | i < |spans| && FirstWithKey(spans, i, k) ensures k in m && m[k] == AsMap(spans[i].metadata)[k] {
      assert spans[i] in spans;
      var j :| 0 <= j < |spans| && FirstWithKey(spans, j, k) && AsMap(spans[j].metadata)[k] == m[k];
      assert i == j;
    }
  }

  lemma StartMeaning(spans: seq<SpanRecord>)
    requires spans != []
    ensures StartMeans(spans, MinStart(spans) / NS_PER_MS)
  {
    MinStartBounds(spans);
    var first :| first in spans && MinStart(spans) == first.startNs;
    assert first.startNs < (MinStart(spans) / NS_PER_MS + 1) * 1_000_000;
  }

  lemma EndMeaning(spans: seq<SpanRecord>)
    ensures EndMeans(spans, if MaxEnd(spans).None? then None else Some(MaxEnd(spans).value / NS_PER_MS))
  {
    MaxEndBounds(spans);
    if MaxEnd(spans).Some? {
      var last :| last in spans && MaxEnd(spans) == last.endNs;
      assert last.endNs.value / NS_PER_MS * 1_000_000 <= last.endNs.value;
    }
  }

  lemma SummaryMeaning(env: Mlflow, spans: seq<SpanRecord>, tags: seq<Entry<string>>)
    requires spans != []
    ensures Summarises(env, spans, tags, Summarize(env, spans, tags))
  {
    RootFieldsMeaning(env, spans, tags);
    MetadataMeaning(spans);
    StartMeaning(spans);
    EndMeaning(spans);
  }

  lemma RootFieldsAreDetermined(spans: seq<SpanRecord>, a: Summary, b: Summary)
    requires RootMeans(spans, a) && RootMeans(spans, b)
    ensures a.state == b.state && a.requestPreview == b.requestPreview && a.responsePreview == b.responsePreview
  {
    if !forall x <- spans :: x.parent.Some? { var i := FirstRootExists(spans); }
  }

  lemma StartIsDetermined(spans: seq<SpanRecord>, a: int, b: int)
    requires StartMeans(spans, a) && StartMeans(spans, b)
    ensures a == b
  {
    var x :| x in spans && x.startNs < (a + 1) * 1_000_000;
    var y :| y in spans && y.startNs < (b + 1) * 1_000_000;
    assert b * 1_000_000 <= x.startNs && a * 1_000_000 <= y.startNs;
  }

  lemma EndIsDetermined(spans: seq<SpanRecord>, a: Option<int>, b: Option<int>)
    requires EndMeans(spans, a) && EndMeans(spans, b)
    ensures a == b
  {
    if a.Some? && b.Some? {
      var x :| x in spans && x.endNs.Some? && a.value * 1_000_000 <= x.endNs.value;
      var y :| y in spans && y.endNs.Some? && b.value * 1_000_000 <= y.endNs.value;
      assert x.endNs.value < (b.value + 1) * 1_000_000 && y.endNs.value < (a.value + 1) * 1_000_000;
    }
  }

  lemma MetadataIsDetermined(spans: seq<SpanRecord>, m: map<string, string>, n: map<string, string>)
    requires MetadataMeans(spans, m) && MetadataMeans(spans, n)
    ensures m == n
  {
    forall k | k in m ensures k in n && n[k] == m[k] {
      var i :| 0 <= i < |spans| && FirstWithKey(spans, i, k);
    }
    forall k | k in n ensures k in m {
      var i :| 0 <= i < |spans| && FirstWithKey(spans, i, k);
    }
  }

  /** The field-by-field meaning leaves no choice: two summaries that both have it are equal, up to the
      order of the metadata array. */
  lemma SummaryIsDetermined(env: Mlflow, spans: seq<SpanRecord>, tags: seq<Entry<string>>, a: Summary, b: Summary)
    requires Summarises(env, spans, tags, a) && Summarises(env, spans, tags, b)
    ensures a.(metadata := []) == b.(metadata := []) && AsMap(a.metadata) == AsMap(b.metadata)
  {
    RootFieldsAreDetermined(spans, a, b);
    StartIsDetermined(spans, a.requestTime, b.requestTime);
    EndIsDetermined(spans, if a.executionDuration.None? then None else Some(a.requestTime + a.executionDuration.value),
                    if b.executionDuration.None? then None else Some(b.requestTime + b.executionDuration.value));
    MetadataIsDetermined(spans, AsMap(a.metadata), AsMap(b.metadata));
  }

  lemma FirstRootExists(spans: seq<SpanRecord>) returns (i: nat)
    requires exists x <- spans :: x.parent.None?
    ensures IsFirstRoot(spans, i)
  {
    FirstRootIsEarliest(spans);
    i :| i < |spans| && spans[i] == FirstRoot(spans).value && IsFirstRoot(spans, i);
  }

  /** The snapshot is ordered by start time, and by span id among equal start times. */
  lemma SnapshotOrder(spans: set<SpanRecord>, i: nat, j: nat)
    requires DistinctIds(spans) && i < j < |Sorted(spans)|
    ensures var a, b := Sorted(spans)[i], Sorted(spans)[j];
            a.startNs < b.startNs || (a.startNs == b.startNs && a.spanId < b.spanId)
  {
    assert Precedes(Sorted(spans)[i], Sorted(spans)[j]);
  }

  /** Late spans only widen the millisecond interval, although its two ends are floored apart. */
  lemma LateSpansWidenTheInterval(env: Mlflow, early: set<SpanRecord>, late: set<SpanRecord>,
                                  tags: seq<Entry<string>>)
    requires early != {} && early <= late && DistinctIds(late)
    ensures Sorted(early) != [] && Sorted(late) != []
    ensures var a, b := Summarize(env, Sorted(early), tags), Summarize(env, Sorted(late), tags);
            && b.requestTime <= a.requestTime
            && (a.executionDuration.Some? ==>
                  b.executionDuration.Some? &&
                  a.requestTime + a.executionDuration.value <= b.requestTime + b.executionDuration.value)
  {
    var x :| x in early;
    assert x in Sorted(early) && x in Sorted(late);
    MinStartBounds(Sorted(early));
    MinStartBounds(Sorted(late));
    MaxEndBounds(Sorted(early));
    MaxEndBounds(Sorted(late));
  }
}
