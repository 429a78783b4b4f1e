/** The two atomic updates a trace document receives: authoritative start_trace metadata and
    a summary recomputed from persisted spans. */
module TraceDocuments {
  import opened Wrappers
  import opened ArrayOperations
  import opened SpanSummaries

  const TOKEN_USAGE := "mlflow.trace.tokenUsage"
  const TRACE_COST := "mlflow.trace.cost"
  const SPANS_LOCATION := Entry("mlflow.trace.spansLocation", "TRACKING_STORE")

  /** A trace document. A missing `span_revision` counts as 0; `$inc` makes it 1. */
  datatype TraceDoc = TraceDoc(
    experimentId: string,
    requestTime: int,
    state: TraceState,
    executionDuration: Option<int>,
    clientRequestId: Option<string>,
    requestPreview: Option<string>,
    responsePreview: Option<string>,
    finalized: bool,
    authoritativeKeys: set<string>,
    runIds: set<string>,
    tags: seq<Entry<string>>,
    metadata: seq<Entry<string>>,
    tokenUsage: Option<Stats>,
    cost: Option<Stats>,
    spanStats: Option<Stats>,
    spanRevision: nat)

  /** The arguments of one start_trace call. */
  datatype Start = Start(
    requestTime: int,
    state: TraceState,
    executionDuration: Option<int>,
    clientRequestId: Option<string>,
    requestPreview: Option<string>,
    responsePreview: Option<string>,
    tags: seq<Entry<string>>,
    metadata: seq<Entry<string>>,
    runIds: set<string>,
    tokenUsage: Option<Stats>,
    cost: Option<Stats>,
    spanStats: Option<Stats>)

  /** _trace_placeholder: what ensure_traces inserts for a missing trace. */
  function Placeholder(experimentId: string, requestTime: int): TraceDoc {
    TraceDoc(experimentId, requestTime, InProgress, None, None, None, None, false, {}, {},
             [SPANS_LOCATION], [], None, None, None, 0)
  }

  /** The document an upsert pipeline sees when no document matched: only the filter's fields. */
  function Blank(experimentId: string): TraceDoc {
    Placeholder(experimentId, 0).(tags := [])
  }

  function IfNull<T>(x: Option<T>, default: Option<T>): Option<T> {
    if x.Some? then x else default
  }

  /** The `$set` pipeline of start_trace. */
  function ApplyStart(d: TraceDoc, a: Start): TraceDoc {
    d.(requestTime := a.requestTime,
       state := a.state,
       executionDuration := a.executionDuration,
       clientRequestId := a.clientRequestId,
       runIds := d.runIds + a.runIds,
       finalized := true,
       authoritativeKeys := d.authoritativeKeys + KeySet(a.metadata),
       tags := Merge(d.tags, a.tags),
       metadata := Merge(d.metadata, a.metadata),
       spanStats := IfNull(a.spanStats, d.spanStats),
       tokenUsage := IfNull(a.tokenUsage, d.tokenUsage),
       cost := IfNull(a.cost, d.cost),
       requestPreview := IfNull(a.requestPreview, d.requestPreview),
       responsePreview := IfNull(a.responsePreview, d.responsePreview))
  }

  predicate IsOpen(state: TraceState) {
    state == InProgress || state == Unspecified
  }

  /** First stage of update_span_summary; every expression reads the document before the stage. */
  function SummaryStage(d: TraceDoc, s: Summary): TraceDoc {
    d.(state := if IsOpen(d.state) then s.state else d.state,
       tags := Merge(d.tags, s.tags),
       metadata := MergeMissing(d.metadata, s.metadata),
       requestTime := if d.finalized then d.requestTime else s.requestTime,
       executionDuration := if d.finalized then d.executionDuration else s.executionDuration,
       requestPreview := IfNull(d.requestPreview, s.requestPreview),
       responsePreview := IfNull(d.responsePreview, s.responsePreview),
       tokenUsage := if s.tokenUsage.Some? && TOKEN_USAGE !in d.authoritativeKeys
                     then s.tokenUsage else d.tokenUsage,
       cost := if s.cost.Some? && TRACE_COST !in d.authoritativeKeys then s.cost else d.cost)
  }

  /** The stage appended for a non-null native field. It only sets `trace_metadata`: the
      field's serialized entry replaces a stored one unless the key is authoritative. */
  function AggregateStage(env: Mlflow, authoritative: set<string>, metadata: seq<Entry<string>>,
                          key: string, stats: Option<Stats>): seq<Entry<string>> {
    if stats.Some? && key !in authoritative
    then Merge(metadata, [Entry(key, env.dumps(stats.value))])
    else metadata
  }

  /** update_span_summary's pipeline: all its stages, or nothing on a stale revision. */
  function Commit(env: Mlflow, d: TraceDoc, revision: nat, s: Summary): TraceDoc {
    if d.spanRevision != revision then d
    else
      var d1 := SummaryStage(d, s);
      var m := AggregateStage(env, d.authoritativeKeys, d1.metadata, TOKEN_USAGE, s.tokenUsage);
      d1.(metadata := AggregateStage(env, d.authoritativeKeys, m, TRACE_COST, s.cost))
  }

  /** The fields outside the embedded arrays. */
  ghost function Flat(d: TraceDoc): TraceDoc {
    d.(tags := [], metadata := [])
  }

  /** Equality of documents up to the order inside the embedded arrays. */
  ghost predicate SameDocument(a: TraceDoc, b: TraceDoc) {
    && Flat(a) == Flat(b)
    && AsMap(a.tags) == AsMap(b.tags)
    && AsMap(a.metadata) == AsMap(b.metadata)
  }

  /** Sets a key of an object unless the key is someone else's. */
  ghost function PutUnless(m: map<string, string>, skip: bool, k: string, v: Option<string>): map<string, string> {
    if skip || v.None? then m else m[k := v.value]
  }

  ghost function Dumped(env: Mlflow, stats: Option<Stats>): Option<string> {
    if stats.None? then None else Some(env.dumps(stats.value))
  }

  ghost function PutBoth(m: map<string, string>, k: string, skipK: bool, v: Option<string>,
                         l: string, skipL: bool, w: Option<string>): map<string, string> {
    PutUnless(PutUnless(m, skipK, k, v), skipL, l, w)
  }

  /** The metadata object after a commit. */
  ghost function CommittedMetadata(env: Mlflow, d: TraceDoc, s: Summary): map<string, string> {
    PutBoth(AsMap(s.metadata) + AsMap(d.metadata),
            TOKEN_USAGE, TOKEN_USAGE in d.authoritativeKeys, Dumped(env, s.tokenUsage),
            TRACE_COST, TRACE_COST in d.authoritativeKeys, Dumped(env, s.cost))
  }

  lemma AggregateStageAsMap(env: Mlflow, authoritative: set<string>, metadata: seq<Entry<string>>,
                            key: string, stats: Option<Stats>)
    ensures AsMap(AggregateStage(env, authoritative, metadata, key, stats)) ==
            PutUnless(AsMap(metadata), key in authoritative, key, Dumped(env, stats))
  {
    if stats.Some? {
      var e := Entry(key, env.dumps(stats.value));
      MergeAsMap(metadata, [e]);
      AsMapOne(e);
    }
  }

  lemma CommitAsMap(env: Mlflow, d: TraceDoc, s: Summary)
    ensures AsMap(Commit(env, d, d.spanRevision, s).metadata) == CommittedMetadata(env, d, s)
    ensures AsMap(Commit(env, d, d.spanRevision, s).tags) == AsMap(d.tags) + AsMap(s.tags)
  {
    MergeMissingAsMap(d.metadata, s.metadata);
    MergeAsMap(d.tags, s.tags);
    var m := SummaryStage(d, s).metadata;
    AggregateStageAsMap(env, d.authoritativeKeys, m, TOKEN_USAGE, s.tokenUsage);
    var m' := AggregateStage(env, d.authoritativeKeys, m, TOKEN_USAGE, s.tokenUsage);
    AggregateStageAsMap(env, d.authoritativeKeys, m', TRACE_COST, s.cost);
  }

  lemma StartAsMap(d: TraceDoc, a: Start)
    ensures AsMap(ApplyStart(d, a).metadata) == AsMap(d.metadata) + AsMap(a.metadata)
    ensures AsMap(ApplyStart(d, a).tags) == AsMap(d.tags) + AsMap(a.tags)
    ensures forall k :: k in KeySet(a.metadata) <==> k in AsMap(a.metadata)
  {
    MergeAsMap(d.metadata, a.metadata);
    MergeAsMap(d.tags, a.tags);
    AsMapKeys(a.metadata);
  }

  // ---------- what the two updates write, field by field ----------

  /** A document an upsert made out of nothing but its filter. */
  predicate OnlyFiltered(d: TraceDoc, experimentId: string) {
    && d.experimentId == experimentId && d.spanRevision == 0 && !d.finalized
    && d.clientRequestId.None? && d.requestPreview.None? && d.responsePreview.None?
    && d.authoritativeKeys == {} && d.runIds == {} && d.tags == [] && d.metadata == []
    && d.tokenUsage.None? && d.cost.None? && d.spanStats.None?
  }

  /** What ensure_traces stores for an absent trace. */
  predicate JustStarted(d: TraceDoc, experimentId: string, requestTime: int) {
    && OnlyFiltered(d.(tags := []), experimentId)
    && d.requestTime == requestTime && d.state == InProgress && d.executionDuration.None?
    && d.tags == [Entry("mlflow.trace.spansLocation", "TRACKING_STORE")]
  }

  lemma PlaceholderMeaning(experimentId: string, requestTime: int)
    ensures JustStarted(Placeholder(experimentId, requestTime), experimentId, requestTime)
    ensures OnlyFiltered(Blank(experimentId), experimentId)
  {}

  /** `after` is `before` with the arguments of a start_trace call written into it. */
  ghost predicate Started(before: TraceDoc, a: Start, after: TraceDoc) {
    && after.requestTime == a.requestTime && after.state == a.state && after.executionDuration == a.executionDuration
    && after.clientRequestId == a.clientRequestId && after.finalized
    && (forall r :: r in after.runIds <==> r in before.runIds || r in a.runIds)
    && (forall k :: k in after.authoritativeKeys <==> k in before.authoritativeKeys || HasKey(a.metadata, k))
    && AsMap(after.tags) == AsMap(before.tags) + AsMap(a.tags)
    && AsMap(after.metadata) == AsMap(before.metadata) + AsMap(a.metadata)
    && after.requestPreview == (if a.requestPreview.Some? then a.requestPreview else before.requestPreview)
    && after.responsePreview == (if a.responsePreview.Some? then a.responsePreview else before.responsePreview)
    && after.tokenUsage == (if a.tokenUsage.Some? then a.tokenUsage else before.tokenUsage)
    && after.cost == (if a.cost.Some? then a.cost else before.cost)
    && after.spanStats == (if a.spanStats.Some? then a.spanStats else before.spanStats)
    && after.experimentId == before.experimentId && after.spanRevision == before.spanRevision
  }

  /** start_trace writes every argument and nothing else, and keeps the keys of both arrays unique. */
  lemma StartTraceMeaning(d: TraceDoc, a: Start)
    ensures Started(d, a, ApplyStart(d, a))
    ensures UniqueKeys(d.tags) && UniqueKeys(a.tags) ==> UniqueKeys(ApplyStart(d, a).tags)
    ensures UniqueKeys(d.metadata) && UniqueKeys(a.metadata) ==> UniqueKeys(ApplyStart(d, a).metadata)
  {
    StartAsMap(d, a);
    if UniqueKeys(d.tags) && UniqueKeys(a.tags) { WritesKeepKeysUnique(d.tags, a.tags, ""); }
    if UniqueKeys(d.metadata) && UniqueKeys(a.metadata) { WritesKeepKeysUnique(d.metadata, a.metadata, ""); }
  }

  /** What a commit leaves under one metadata key. */
  ghost function CommittedEntry(env: Mlflow, d: TraceDoc, s: Summary, k: string): Option<string> {
    var stored, derived := AsMap(d.metadata), AsMap(s.metadata);
    if k == "mlflow.trace.tokenUsage" && s.tokenUsage.Some? && k !in d.authoritativeKeys then
      Some(env.dumps(s.tokenUsage.value))
    else if k == "mlflow.trace.cost" && s.cost.Some? && k !in d.authoritativeKeys then Some(env.dumps(s.cost.value))
    else if k in stored then Some(stored[k])
    else if k in derived then Some(derived[k]) else None
  }

  /** `after` is `before` with a summary committed into it: an open state and times that are not
      authoritative are replaced, previews and metadata are only filled in, statistics are replaced
      unless their key is authoritative, and the batch's tags are written. */
  ghost predicate Updated(env: Mlflow, before: TraceDoc, s: Summary, after: TraceDoc) {
    && after.state == (if before.state == InProgress || before.state == Unspecified then s.state else before.state)
    && after.requestTime == (if before.finalized then before.requestTime else s.requestTime)
    && after.executionDuration == (if before.finalized then before.executionDuration else s.executionDuration)
    && after.requestPreview == (if before.requestPreview.Some? then before.requestPreview else s.requestPreview)
    && after.responsePreview == (if before.responsePreview.Some? then before.responsePreview else s.responsePreview)
    && after.tokenUsage == (if s.tokenUsage.Some? && "mlflow.trace.tokenUsage" !in before.authoritativeKeys
                            then s.tokenUsage else before.tokenUsage)
    && after.cost == (if s.cost.Some? && "mlflow.trace.cost" !in before.authoritativeKeys then s.cost else before.cost)
    && AsMap(after.tags) == AsMap(before.tags) + AsMap(s.tags)
    && (forall k :: CommittedEntry(env, before, s, k) == Lookup(AsMap(after.metadata), k))
    && after.experimentId == before.experimentId && after.spanRevision == before.spanRevision
    && after.clientRequestId == before.clientRequestId && after.runIds == before.runIds
    && after.finalized == before.finalized && after.authoritativeKeys == before.authoritativeKeys
    && after.spanStats == before.spanStats
  }

  /** A commit writes the summary under the current revision, and nothing under a stale one. */
  lemma CommitMeaning(env: Mlflow, d: TraceDoc, revision: nat, s: Summary)
    ensures d.spanRevision == revision ==> Updated(env, d, s, Commit(env, d, revision, s))
    ensures d.spanRevision != revision ==> Commit(env, d, revision, s) == d
  {
    if d.spanRevision == revision {
      CommitAsMap(env, d, s);
      forall k ensures CommittedEntry(env, d, s, k) == Lookup(CommittedMetadata(env, d, s), k) {
        EntryMeaning(env, d, s, k);
      }
    }
  }

  ghost function Lookup(m: map<string, string>, k: string): Option<string> {
    if k in m then Some(m[k]) else None
  }

  lemma EntryMeaning(env: Mlflow, d: TraceDoc, s: Summary, k: string)
    ensures CommittedEntry(env, d, s, k) == Lookup(CommittedMetadata(env, d, s), k)
  {
    assert TOKEN_USAGE != TRACE_COST by { assert |TOKEN_USAGE| != |TRACE_COST|; }
  }

  // ---------- when the order does not matter ----------

  /** A native field may depend on the order only if the call claims its metadata key without
      supplying the field: the claim stops the commit, but nothing replaces the field. */
  ghost predicate StatsAgree(claimed: bool, own: Option<Stats>, authoritative: bool,
                             stored: Option<Stats>, derived: Option<Stats>) {
    derived.Some? && claimed && !authoritative && own.None? ==> stored == derived
  }

  /** What a caller can check about a start_trace call and a summary meeting on a document. */
  ghost predicate OrderDoesNotMatter(d: TraceDoc, a: Start, s: Summary) {
    && (IsOpen(a.state) ==> a.state == s.state)
    && StatsAgree(HasKey(a.metadata, TOKEN_USAGE), a.tokenUsage,
                  TOKEN_USAGE in d.authoritativeKeys, d.tokenUsage, s.tokenUsage)
    && StatsAgree(HasKey(a.metadata, TRACE_COST), a.cost,
                  TRACE_COST in d.authoritativeKeys, d.cost, s.cost)
    && (forall k | k in AsMap(a.tags) && k in AsMap(s.tags) :: AsMap(a.tags)[k] == AsMap(s.tags)[k])
  }

  lemma OverrideAfterPut(m: map<string, string>, a: map<string, string>, skip: bool, k: string, v: Option<string>)
    ensures PutUnless(m, skip, k, v) + a == PutUnless(m + a, skip || k in a, k, v)
  {}

  lemma OverrideAfterPutBoth(m: map<string, string>, a: map<string, string>,
                             k: string, skipK: bool, v: Option<string>,
                             l: string, skipL: bool, w: Option<string>)
    ensures PutBoth(m, k, skipK, v, l, skipL, w) + a ==
            PutBoth(m + a, k, skipK || k in a, v, l, skipL || l in a, w)
  {
    OverrideAfterPut(m, a, skipK, k, v);
    OverrideAfterPut(PutUnless(m, skipK, k, v), a, skipL, l, w);
  }

  lemma OverrideAssociates(a: map<string, string>, b: map<string, string>, c: map<string, string>)
    ensures (a + b) + c == a + (b + c)
  {}

  lemma MetadataCommutes(env: Mlflow, d: TraceDoc, a: Start, s: Summary)
    ensures CommittedMetadata(env, d, s) + AsMap(a.metadata) ==
            CommittedMetadata(env, ApplyStart(d, a), s)
  {
    var sm, dm, am := AsMap(s.metadata), AsMap(d.metadata), AsMap(a.metadata);
    StartAsMap(d, a);
    OverrideAssociates(sm, dm, am);
    OverrideAfterPutBoth(sm + dm, am,
                         TOKEN_USAGE, TOKEN_USAGE in d.authoritativeKeys, Dumped(env, s.tokenUsage),
                         TRACE_COST, TRACE_COST in d.authoritativeKeys, Dumped(env, s.cost));
  }

  lemma TagsCommute(t: map<string, string>, at: map<string, string>, st: map<string, string>)
    ensures t + st + at == t + at + st <==> forall k | k in at && k in st :: at[k] == st[k]
  {
    if t + st + at == t + at + st {
      forall k | k in at && k in st ensures at[k] == st[k] {
        assert (t + st + at)[k] == at[k] && (t + at + st)[k] == st[k];
      }
    }
  }

  lemma FlatFieldsCommute(env: Mlflow, d: TraceDoc, a: Start, s: Summary)
    requires a.tokenUsage.Some? ==> HasKey(a.metadata, TOKEN_USAGE)
    requires a.cost.Some? ==> HasKey(a.metadata, TRACE_COST)
    ensures Flat(ApplyStart(Commit(env, d, d.spanRevision, s), a)) ==
            Flat(Commit(env, ApplyStart(d, a), d.spanRevision, s))
            <==> OrderDoesNotMatter(d, a.(tags := []), s)
  {
    var x := ApplyStart(Commit(env, d, d.spanRevision, s), a);
    var y := Commit(env, ApplyStart(d, a), d.spanRevision, s);
    assert x.state == y.state <==> (IsOpen(a.state) ==> a.state == s.state);
    assert x.tokenUsage == y.tokenUsage <==>
           StatsAgree(HasKey(a.metadata, TOKEN_USAGE), a.tokenUsage,
                      TOKEN_USAGE in d.authoritativeKeys, d.tokenUsage, s.tokenUsage);
    assert x.cost == y.cost <==>
           StatsAgree(HasKey(a.metadata, TRACE_COST), a.cost,
                      TRACE_COST in d.authoritativeKeys, d.cost, s.cost);
    assert AsMap(a.(tags := []).tags) == map[];
  }

  /** start_trace and a valid summary commit commute exactly when OrderDoesNotMatter. The
      store only supplies a native field together with its metadata key. */
  lemma StartAndCommitCommute(env: Mlflow, d: TraceDoc, a: Start, s: Summary)
    requires a.tokenUsage.Some? ==> HasKey(a.metadata, TOKEN_USAGE)
    requires a.cost.Some? ==> HasKey(a.metadata, TRACE_COST)
    ensures SameDocument(ApplyStart(Commit(env, d, d.spanRevision, s), a),
                         Commit(env, ApplyStart(d, a), d.spanRevision, s))
            <==> OrderDoesNotMatter(d, a, s)
  {
    StartAsMap(d, a);
    StartAsMap(Commit(env, d, d.spanRevision, s), a);
    CommitAsMap(env, d, s);
    CommitAsMap(env, ApplyStart(d, a), s);
    MetadataCommutes(env, d, a, s);
    TagsCommute(AsMap(d.tags), AsMap(a.tags), AsMap(s.tags));
    FlatFieldsCommute(env, d, a, s);
  }

  /** The guarantee the store's own comments give: with a terminal state, parsing statistics
      and no shared tag key, it does not matter whether spans or trace info arrive first. */
  lemma CleanStartsCommute(env: Mlflow, d: TraceDoc, a: Start, s: Summary)
    requires CleanStart(a)
    requires AsMap(a.tags).Keys !! AsMap(s.tags).Keys
    ensures SameDocument(ApplyStart(Commit(env, d, d.spanRevision, s), a),
                         Commit(env, ApplyStart(d, a), d.spanRevision, s))
  {
    StartAndCommitCommute(env, d, a, s);
  }

  /** A terminal state, and every usage or cost entry parsed into its native field. */
  ghost predicate CleanStart(a: Start) {
    && !IsOpen(a.state)
    && (a.tokenUsage.Some? <==> HasKey(a.metadata, TOKEN_USAGE))
    && (a.cost.Some? <==> HasKey(a.metadata, TRACE_COST))
  }
}
