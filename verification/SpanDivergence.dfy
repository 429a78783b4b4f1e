/** The other half of convergence: spans that disagree have a run that never reads as serial. */
module SpanDivergence {
  import opened Wrappers
  import opened ArrayOperations
  import opened SpanSummaries
  import opened TraceDocuments
  import opened SpanProtocol
  import opened SpanConvergence

  // ---------- the two commits ----------

  lemma DigestOfOne(env: Mlflow, x: SpanRecord)
    ensures DistinctIds({x})
    ensures var s := Digest(env, {x});
            && s.state == (if x.parent.None? then StateOf(Some(x)) else InProgress)
            && (x.parent.None? ==> s.requestPreview == x.requestPreview && s.responsePreview == x.responsePreview)
            && forall k | k in AsMap(x.metadata) ::
                 k in AsMap(s.metadata) && AsMap(s.metadata)[k] == AsMap(x.metadata)[k]
  {
    var root := DigestRoot(env, {x});
    var s := Digest(env, {x});
    FirstMetadataIsEarliest(Sorted({x}));
    assert x in Sorted({x});
    forall k | k in AsMap(x.metadata) ensures k in AsMap(s.metadata) && AsMap(s.metadata)[k] == AsMap(x.metadata)[k] {
      assert k in AsMap(FirstMetadata(Sorted({x})));
      var y := DigestEntry(env, {x}, k);
    }
  }

  lemma KeysOfWhole(env: Mlflow, spans: set<SpanRecord>, x: SpanRecord, k: string)
    requires DistinctIds(spans) && x in spans && k in AsMap(x.metadata)
    ensures k in AsMap(Digest(env, spans).metadata)
  {
    FirstMetadataIsEarliest(Sorted(spans));
    assert x in Sorted(spans);
  }

  /** What a stored document keeps from an early commit of span `x` alone. */
  ghost predicate KeepsTraceOf(d: TraceDoc, x: SpanRecord) {
    && (x.parent.None? ==>
          && d.state == StateOf(Some(x))
          && (x.requestPreview.Some? ==> d.requestPreview == x.requestPreview)
          && (x.responsePreview.Some? ==> d.responsePreview == x.responsePreview))
    && forall k | k in AsMap(x.metadata) ::
         k in AsMap(d.metadata) && AsMap(d.metadata)[k] == AsMap(x.metadata)[k]
  }

  lemma PutElsewhere(m: map<string, string>, k: string, skipK: bool, v: Option<string>,
                     l: string, skipL: bool, w: Option<string>, key: string)
    requires key in m && key != k && key != l
    ensures key in PutBoth(m, k, skipK, v, l, skipL, w) && PutBoth(m, k, skipK, v, l, skipL, w)[key] == m[key]
  {}

  lemma FreshMetadata(env: Mlflow, d: TraceDoc, s: Summary, k: string)
    requires d.metadata == [] && k in AsMap(s.metadata) && k != TOKEN_USAGE && k != TRACE_COST
    ensures k in CommittedMetadata(env, d, s) && CommittedMetadata(env, d, s)[k] == AsMap(s.metadata)[k]
  {
    PutElsewhere(AsMap(s.metadata) + AsMap(d.metadata),
                 TOKEN_USAGE, TOKEN_USAGE in d.authoritativeKeys, Dumped(env, s.tokenUsage),
                 TRACE_COST, TRACE_COST in d.authoritativeKeys, Dumped(env, s.cost), k);
  }

  lemma FirstCommitKeepsTrace(env: Mlflow, d: TraceDoc, x: SpanRecord, s: Summary)
    requires Unreserved(x) && DistinctIds({x}) && s.(tags := []) == Digest(env, {x})
    requires IsOpen(d.state) && d.requestPreview.None? && d.responsePreview.None? && d.metadata == []
    ensures KeepsTraceOf(Commit(env, d, d.spanRevision, s), x)
  {
    DigestOfOne(env, x);
    CommitAsMap(env, d, s);
    assert s.metadata == Digest(env, {x}).metadata;
    var d' := Commit(env, d, d.spanRevision, s);
    forall k | k in AsMap(x.metadata)
      ensures k in AsMap(d'.metadata) && AsMap(d'.metadata)[k] == AsMap(x.metadata)[k]
    {
      FreshMetadata(env, d, s, k);
    }
  }

  lemma LaterCommitKeepsTrace(env: Mlflow, d: TraceDoc, x: SpanRecord, s: Summary)
    requires Unreserved(x) && KeepsTraceOf(d, x)
    ensures KeepsTraceOf(Commit(env, d, d.spanRevision, s), x)
  {
    CommitAsMap(env, d, s);
    var m := AsMap(s.metadata) + AsMap(d.metadata);
    forall k | k in AsMap(x.metadata)
      ensures k in CommittedMetadata(env, d, s) && CommittedMetadata(env, d, s)[k] == AsMap(x.metadata)[k]
    {
      assert k in AsMap(d.metadata) && k in m && m[k] == AsMap(x.metadata)[k];
      PutElsewhere(m, TOKEN_USAGE, TOKEN_USAGE in d.authoritativeKeys, Dumped(env, s.tokenUsage),
                   TRACE_COST, TRACE_COST in d.authoritativeKeys, Dumped(env, s.cost), k);
    }
  }

  lemma MetadataContradictsSerial(env: Mlflow, d: TraceDoc, x: SpanRecord, spans: set<SpanRecord>, f: TraceDoc,
      k: string)
    requires DistinctIds(spans) && x in spans && Unreserved(x) && KeepsTraceOf(d, x) && f.metadata == []
    requires k in AsMap(x.metadata)
    requires var w := Digest(env, spans); k in AsMap(w.metadata) ==> AsMap(x.metadata)[k] != AsMap(w.metadata)[k]
    ensures AsMap(d.metadata) != CommittedMetadata(env, f, Digest(env, spans))
  {
    var w := Digest(env, spans);
    KeysOfWhole(env, spans, x, k);
    assert k != TOKEN_USAGE && k != TRACE_COST;
    FreshMetadata(env, f, w, k);
  }

  lemma TraceContradictsSerial(env: Mlflow, d: TraceDoc, x: SpanRecord, spans: set<SpanRecord>, f: TraceDoc)
    requires DistinctIds(spans) && x in spans && Unreserved(x) && KeepsTraceOf(d, x)
    requires !Agrees(x, Digest(env, spans))
    requires IsOpen(f.state) && f.requestPreview.None? && f.responsePreview.None? && f.metadata == []
    ensures !ReadsTheSame(d, Commit(env, f, f.spanRevision, Digest(env, spans)))
  {
    var w := Digest(env, spans);
    CommitAsMap(env, f, w);
    if !(x.parent.None? ==> && StateOf(Some(x)) == w.state
                            && PreviewAgrees(x.requestPreview, w.requestPreview)
                            && PreviewAgrees(x.responsePreview, w.responsePreview)) {
    } else {
      var k :| k in AsMap(x.metadata) &&
               !(k in AsMap(w.metadata) && AsMap(x.metadata)[k] == AsMap(w.metadata)[k]);
      MetadataContradictsSerial(env, d, x, spans, f, k);
    }
  }

  // ---------- the run ----------

  ghost function Last(run: seq<System>): System
    requires run != []
  {
    run[|run| - 1]
  }

  lemma Extend(env: Mlflow, run: seq<System>, steps: seq<Step>, step: Step)
    returns (run': seq<System>, steps': seq<Step>)
    requires IsRun(env, run, steps) && Enabled(Last(run), step)
    ensures IsRun(env, run', steps') && Last(run') == Apply(env, Last(run), step)
    ensures CleanSteps(steps) && !step.StartTrace? ==> CleanSteps(steps')
  {
    ExtendRun(env, run, steps, step);
    run', steps' := run + [Apply(env, Last(run), step)], steps + [step];
  }

  ghost predicate KeyedById(spans: map<nat, SpanRecord>) {
    forall id <- spans :: spans[id].spanId == id
  }

  lemma InsertedValues(spans: map<nat, SpanRecord>, x: SpanRecord, all: set<SpanRecord>)
    requires KeyedById(spans) && DistinctIds(all) && x in all && spans.Values <= all
    ensures (if x.spanId in spans then spans else spans[x.spanId := x]).Values == spans.Values + {x}
  {
    if x.spanId in spans {
      assert spans[x.spanId] in spans.Values;
    } else {
      var t := spans[x.spanId := x];
      assert t[x.spanId] == x;
      forall y | y in spans.Values ensures y in t.Values {
        var id :| id in spans && spans[id] == y;
        assert t[id] == y;
      }
    }
  }

  /** `t` is `s` after writer `w` has delivered what it still had to deliver. */
  ghost predicate Delivered(s: System, t: System, w: nat) {
    && w < |s.writers| && s.writers[w].phase.Inserting?
    && t == s.(spans := t.spans, writers := s.writers[w := s.writers[w].(phase := Bumping)])
    && t.spans.Values == s.spans.Values + s.writers[w].phase.rest
    && KeyedById(t.spans)
  }

  /** What writer `w` still has to deliver fits the set of all spans. */
  ghost predicate CanDeliver(s: System, w: nat, all: set<SpanRecord>) {
    && w < |s.writers| && s.writers[w].phase.Inserting? && s.writers[w].phase.rest != {}
    && DistinctIds(all) && s.writers[w].phase.rest <= all && s.spans.Values <= all
    && KeyedById(s.spans)
  }

  lemma InsertOne(env: Mlflow, s: System, w: nat, x: SpanRecord, all: set<SpanRecord>)
    requires CanDeliver(s, w, all) && x in s.writers[w].phase.rest
    ensures var t, rest := Apply(env, s, Insert(w, x)), s.writers[w].phase.rest - {x};
            && t == s.(spans := t.spans, writers := s.writers[w := s.writers[w].(
                         phase := if rest == {} then Bumping else Inserting(rest))])
            && t.spans.Values == s.spans.Values + {x}
            && KeyedById(t.spans)
  {
    InsertedValues(s.spans, x, all);
  }

  lemma DeliveredRest(s: System, t: System, u: System, w: nat, x: SpanRecord)
    requires w < |s.writers| && s.writers[w].phase.Inserting? && x in s.writers[w].phase.rest
    requires t == s.(spans := t.spans,
                     writers := s.writers[w := s.writers[w].(phase := Inserting(s.writers[w].phase.rest - {x}))])
    requires t.spans.Values == s.spans.Values + {x}
    requires Delivered(t, u, w)
    ensures Delivered(s, u, w)
  {
    var rest := s.writers[w].phase.rest;
    assert rest == {x} + (rest - {x});
    assert u.writers == s.writers[w := s.writers[w].(phase := Bumping)];
  }

  lemma {:induction false} InsertAll(env: Mlflow, run: seq<System>, steps: seq<Step>, w: nat, all: set<SpanRecord>)
    returns (run': seq<System>, steps': seq<Step>)
    requires IsRun(env, run, steps) && CleanSteps(steps) && CanDeliver(Last(run), w, all)
    ensures IsRun(env, run', steps') && CleanSteps(steps')
    ensures Delivered(Last(run), Last(run'), w)
    decreases |Last(run).writers[w].phase.rest|
  {
    var s := Last(run);
    var x :| x in s.writers[w].phase.rest;
    InsertOne(env, s, w, x, all);
    run', steps' := Extend(env, run, steps, Insert(w, x));
    var t, rest := Last(run'), s.writers[w].phase.rest - {x};
    if rest == {} {
      assert s.writers[w].phase.rest == {x};
    } else {
      run', steps' := InsertAll(env, run', steps', w, all);
      DeliveredRest(s, t, Last(run'), w, x);
    }
  }

  ghost function Ensured(s: System, w: nat): TraceDoc
    requires w < |s.writers|
  {
    if s.doc.Some? then s.doc.value else Placeholder(s.experimentId, s.writers[w].firstMs)
  }

  /** `t` is `s` after writer `w` ran its whole call alone. */
  ghost predicate RanAlone(env: Mlflow, s: System, t: System, w: nat) {
    && w < |s.writers|
    && t.experimentId == s.experimentId && t.starts == s.starts && KeyedById(t.spans)
    && t.spans.Values == s.spans.Values + s.writers[w].batch
    && t.writers == s.writers[w := s.writers[w].(phase := Succeeded)]
    && DistinctIds(t.spans.Values) && t.spans.Values != {}
    && var e := Ensured(s, w).(spanRevision := Ensured(s, w).spanRevision + 1);
       t.doc == Some(Commit(env, e, e.spanRevision, Digest(env, t.spans.Values).(tags := s.writers[w].tags)))
  }

  ghost predicate ReadyToCommit(s: System, w: nat) {
    && w < |s.writers| && s.writers[w].phase.Bumping? && s.doc.Some?
    && s.spans.Values != {} && DistinctIds(s.spans.Values)
  }

  ghost function Bumped(s: System, w: nat): System
    requires ReadyToCommit(s, w)
  {
    Moved(s.(doc := Some(s.doc.value.(spanRevision := s.doc.value.spanRevision + 1))), w,
          Reading(s.doc.value.spanRevision + 1))
  }

  ghost function Snapped(s: System, w: nat): System
    requires ReadyToCommit(s, w)
  {
    Moved(Bumped(s, w), w, Committing(s.doc.value.spanRevision + 1, s.spans.Values))
  }

  lemma CommitAloneSteps(env: Mlflow, s: System, w: nat)
    requires ReadyToCommit(s, w)
    ensures Enabled(s, Bump(w)) && Apply(env, s, Bump(w)) == Bumped(s, w)
    ensures Enabled(Bumped(s, w), Read(w)) && Apply(env, Bumped(s, w), Read(w)) == Snapped(s, w)
    ensures Enabled(Snapped(s, w), TryCommit(w))
    ensures Apply(env, Snapped(s, w), TryCommit(w)) == Committed(env, Snapped(s, w), w)
  {
    assert s.spans != map[];
  }

  lemma CommitAloneEffect(env: Mlflow, s: System, w: nat)
    requires ReadyToCommit(s, w) && Enabled(Snapped(s, w), TryCommit(w))
    ensures var t := Committed(env, Snapped(s, w), w);
            && t == s.(doc := t.doc, last := t.last, writers := s.writers[w := s.writers[w].(phase := Succeeded)])
            && var e := s.doc.value.(spanRevision := s.doc.value.spanRevision + 1);
               t.doc == Some(Commit(env, e, e.spanRevision, Digest(env, s.spans.Values).(tags := s.writers[w].tags)))
  {
    var t := Committed(env, Snapped(s, w), w);
    assert t.writers == s.writers[w := s.writers[w].(phase := Succeeded)];
  }

  /** Increment, read and commit without interference. */
  lemma CommitAlone(env: Mlflow, run: seq<System>, steps: seq<Step>, w: nat)
    returns (run': seq<System>, steps': seq<Step>)
    requires IsRun(env, run, steps) && CleanSteps(steps) && ReadyToCommit(Last(run), w)
    ensures IsRun(env, run', steps') && CleanSteps(steps')
    ensures Enabled(Snapped(Last(run), w), TryCommit(w)) && Last(run') == Committed(env, Snapped(Last(run), w), w)
  {
    CommitAloneSteps(env, Last(run), w);
    run', steps' := Extend(env, run, steps, Bump(w));
    run', steps' := Extend(env, run', steps', Read(w));
    run', steps' := Extend(env, run', steps', TryCommit(w));
  }

  lemma EnsureEffect(env: Mlflow, s: System, w: nat)
    requires Enabled(s, Ensure(w))
    ensures Apply(env, s, Ensure(w)) ==
            s.(doc := Some(Ensured(s, w)),
                writers := s.writers[w := s.writers[w].(phase := Inserting(s.writers[w].batch))])
  {}

  /** Writer `w` has delivered its batch to `s` and nothing else has happened. */
  ghost predicate DeliveredAlone(s: System, d: System, w: nat) {
    && w < |s.writers| && d.experimentId == s.experimentId && d.starts == s.starts && KeyedById(d.spans)
    && d.spans.Values == s.spans.Values + s.writers[w].batch
    && DistinctIds(d.spans.Values) && d.spans.Values != {}
    && d.doc == Some(Ensured(s, w))
    && d.writers == s.writers[w := s.writers[w].(phase := Bumping)]
  }

  lemma DeliveryAlone(s: System, e: System, d: System, w: nat, all: set<SpanRecord>)
    requires w < |s.writers| && DistinctIds(all) && s.writers[w].batch <= all && s.writers[w].batch != {}
    requires s.spans.Values <= all
    requires e == s.(doc := Some(Ensured(s, w)),
            writers := s.writers[w := s.writers[w].(phase := Inserting(s.writers[w].batch))])
    requires Delivered(e, d, w)
    ensures DeliveredAlone(s, d, w)
  {}

  /** The state a commit of `w` in `d` leads to, `d` being what `w` alone delivered to `s`. */
  lemma CommittedAlone(env: Mlflow, s: System, d: System, t: System, w: nat)
    requires DeliveredAlone(s, d, w)
    requires t == d.(doc := t.doc, last := t.last, writers := d.writers[w := d.writers[w].(phase := Succeeded)])
    requires var e := d.doc.value.(spanRevision := d.doc.value.spanRevision + 1);
             t.doc == Some(Commit(env, e, e.spanRevision, Digest(env, d.spans.Values).(tags := d.writers[w].tags)))
    ensures RanAlone(env, s, t, w)
  {
    assert d.writers[w := d.writers[w].(phase := Succeeded)] == s.writers[w := s.writers[w].(phase := Succeeded)];
  }

  lemma AloneEffect(env: Mlflow, s: System, d: System, w: nat)
    requires DeliveredAlone(s, d, w)
    ensures ReadyToCommit(d, w)
    ensures Enabled(Snapped(d, w), TryCommit(w)) ==> RanAlone(env, s, Committed(env, Snapped(d, w), w), w)
  {
    if Enabled(Snapped(d, w), TryCommit(w)) {
      CommitAloneEffect(env, d, w);
      CommittedAlone(env, s, d, Committed(env, Snapped(d, w), w), w);
    }
  }

  lemma RunAlone(env: Mlflow, run: seq<System>, steps: seq<Step>, w: nat, all: set<SpanRecord>)
    returns (run': seq<System>, steps': seq<Step>)
    requires IsRun(env, run, steps) && CleanSteps(steps)
    requires w < |Last(run).writers| && Last(run).writers[w].phase.Ensuring?
    requires DistinctIds(all) && Last(run).writers[w].batch <= all && Last(run).writers[w].batch != {}
    requires Last(run).spans.Values <= all && KeyedById(Last(run).spans)
    ensures IsRun(env, run', steps') && CleanSteps(steps')
    ensures RanAlone(env, Last(run), Last(run'), w)
  {
    var s := Last(run);
    EnsureEffect(env, s, w);
    run', steps' := Extend(env, run, steps, Ensure(w));
    var e := Last(run');
    run', steps' := InsertAll(env, run', steps', w, all);
    var d := Last(run');
    DeliveryAlone(s, e, d, w, all);
    AloneEffect(env, s, d, w);
    run', steps' := CommitAlone(env, run', steps', w);
  }

  ghost function TwoWriters(experimentId: string, x: SpanRecord, spans: set<SpanRecord>): System
    requires spans != {} && DistinctIds(spans)
  {
    assert Sorted(spans) != [] by { var y :| y in spans; assert y in Sorted(spans); }
    assert x in Sorted({x});
    System(experimentId, None, map[],
           [Writer({x}, [], MinStart(Sorted({x})) / NS_PER_MS, Ensuring, 0),
            Writer(spans, [], MinStart(Sorted(spans)) / NS_PER_MS, Ensuring, 0)],
           [], None)
  }

  ghost predicate EndsWith(env: Mlflow, run: seq<System>, steps: seq<Step>, spans: set<SpanRecord>) {
    && IsRun(env, run, steps) && CleanSteps(steps)
    && Quiescent(Last(run)) && Last(run).writers != []
    && Last(run).spans.Values == spans
  }

  ghost predicate EndsSerial(env: Mlflow, s: System)
    requires s.spans != map[] && DistinctIds(s.spans.Values)
  {
    s.doc.Some? && ReadsTheSame(s.doc.value, Serial(env, s))
  }

  lemma TwoWritersStart(env: Mlflow, experimentId: string, x: SpanRecord, spans: set<SpanRecord>)
    requires ValidBatch(spans) && x in spans
    ensures var s0 := TwoWriters(experimentId, x, spans);
            && IsRun(env, [s0], []) && CleanSteps([])
            && s0.spans.Values == {} && KeyedById(s0.spans)
    ensures Unreserved(x)
  {
    assert ValidBatch({x});
  }

  lemma FirstOfTwo(env: Mlflow, experimentId: string, x: SpanRecord, spans: set<SpanRecord>, s1: System)
    requires spans != {} && DistinctIds(spans) && x in spans && Unreserved(x)
    requires RanAlone(env, TwoWriters(experimentId, x, spans), s1, 0)
    ensures s1.spans.Values == {x} && s1.doc.Some? && KeepsTraceOf(s1.doc.value, x)
    ensures s1.starts == [] && s1.experimentId == experimentId
    ensures |s1.writers| == 2 && s1.writers[0].phase.Succeeded?
    ensures s1.writers[1] == TwoWriters(experimentId, x, spans).writers[1]
  {
    var s0 := TwoWriters(experimentId, x, spans);
    assert s0.spans.Values == {};
    assert s1.spans.Values == {x};
    var d0 := Placeholder(experimentId, s0.writers[0].firstMs).(spanRevision := 1);
    FirstCommitKeepsTrace(env, d0, x, Digest(env, {x}));
  }

  lemma SecondOfTwo(env: Mlflow, x: SpanRecord, spans: set<SpanRecord>, s1: System, s2: System)
    requires DistinctIds(spans) && x in spans && Unreserved(x) && !Agrees(x, Digest(env, spans))
    requires |s1.writers| == 2 && s1.writers[1].batch == spans && s1.writers[1].tags == []
    requires s1.spans.Values == {x} && s1.doc.Some? && KeepsTraceOf(s1.doc.value, x) && s1.starts == []
    requires RanAlone(env, s1, s2, 1)
    requires s1.writers[0].phase.Succeeded?
    ensures s2.spans.Values == spans && s2.spans != map[] && !EndsSerial(env, s2)
    ensures Quiescent(s2) && s2.writers != []
  {
    StateAfterTwo(env, x, spans, s1, s2);
    DocumentAfterTwo(env, spans, s1, s2);
    SecondCommitContradicts(env, s1.doc.value, s2, x, spans);
  }

  /** What the second call leaves beside what its document says. */
  lemma StateAfterTwo(env: Mlflow, x: SpanRecord, spans: set<SpanRecord>, s1: System, s2: System)
    requires DistinctIds(spans) && x in spans && s1.spans.Values == {x} && s1.starts == []
    requires |s1.writers| == 2 && s1.writers[1].batch == spans && s1.writers[0].phase.Succeeded?
    requires RanAlone(env, s1, s2, 1)
    ensures s2.spans.Values == spans && s2.spans != map[] && s2.starts == []
    ensures Quiescent(s2) && s2.writers != []
  {
    assert {x} + spans == spans;
    assert s2.spans.Values == spans;
  }

  lemma DocumentAfterTwo(env: Mlflow, spans: set<SpanRecord>, s1: System, s2: System)
    requires DistinctIds(spans) && spans != {} && s1.doc.Some? && s2.spans.Values == spans
    requires |s1.writers| == 2 && s1.writers[1].tags == [] && RanAlone(env, s1, s2, 1)
    ensures s2.doc.Some? && Recommits(env, s1.doc.value, s2.doc.value, spans)
  {}

  /** The document after the next revision of `d` has been committed with the summary of `spans`. */
  ghost predicate Recommits(env: Mlflow, d: TraceDoc, t: TraceDoc, spans: set<SpanRecord>)
    requires DistinctIds(spans) && spans != {}
  {
    var e := d.(spanRevision := d.spanRevision + 1);
    t == Commit(env, e, e.spanRevision, Digest(env, spans).(tags := []))
  }

  /** The second commit leaves the trace of `x` in the document, and the serial one has none of it. */
  lemma SecondCommitContradicts(env: Mlflow, d1: TraceDoc, s2: System, x: SpanRecord, spans: set<SpanRecord>)
    requires DistinctIds(spans) && x in spans && Unreserved(x) && !Agrees(x, Digest(env, spans))
    requires KeepsTraceOf(d1, x) && s2.starts == [] && s2.spans.Values == spans && s2.spans != map[]
    requires s2.doc.Some? && Recommits(env, d1, s2.doc.value, spans)
    ensures !EndsSerial(env, s2)
  {
    var d := d1.(spanRevision := d1.spanRevision + 1);
    assert Digest(env, spans).(tags := []) == Digest(env, spans);
    LaterCommitKeepsTrace(env, d, x, Digest(env, spans));
    TraceContradictsSerial(env, s2.doc.value, x, spans, StartsOnly(s2));
  }

  /** If a span disagrees with the whole, deliver it first and everything else afterwards: both
      writers commit, and what the first one left is never corrected. */
  lemma DisagreementDiverges(env: Mlflow, experimentId: string, x: SpanRecord, spans: set<SpanRecord>)
    returns (run: seq<System>, steps: seq<Step>)
    requires ValidBatch(spans) && x in spans && !Agrees(x, Digest(env, spans))
    ensures EndsWith(env, run, steps, spans) && Last(run).spans != map[]
    ensures !EndsSerial(env, Last(run))
  {
    var s0 := TwoWriters(experimentId, x, spans);
    TwoWritersStart(env, experimentId, x, spans);
    run, steps := RunAlone(env, [s0], [], 0, spans);
    var s1 := Last(run);
    FirstOfTwo(env, experimentId, x, spans, s1);
    run, steps := RunAlone(env, run, steps, 1, spans);
    SecondOfTwo(env, x, spans, s1, Last(run));
  }

  /** Convergence, exactly: a set of spans agrees if and only if every finished run that stores
      exactly these spans, with clean start_trace calls anywhere, ends as the serial document. */
  lemma AgreementIsExact(env: Mlflow, experimentId: string, spans: set<SpanRecord>)
    requires ValidBatch(spans) && TotalsPersist(env)
    ensures SpansAgree(env, spans) <==>
            forall run, steps :: EndsWith(env, run, steps, spans) ==>
              Last(run).spans != map[] && EndsSerial(env, Last(run))
  {
    if SpansAgree(env, spans) {
      forall run, steps | EndsWith(env, run, steps, spans)
        ensures Last(run).spans != map[] && EndsSerial(env, Last(run))
      {
        QuiescentRunIsSerial(env, run, steps);
      }
    } else {
      var x :| x in spans && !Agrees(x, Digest(env, spans));
      var run, steps := DisagreementDiverges(env, experimentId, x, spans);
    }
  }
}
