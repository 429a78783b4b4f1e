/** What a quiescent trace document looks like: as if every start_trace call had come first and
    one commit had then summarised all stored spans. */
module SpanConvergence {
  import opened Wrappers
  import opened ArrayOperations
  import opened SpanSummaries
  import opened TraceDocuments
  import opened SpanProtocol

  // ---------- the serial document ----------

  ghost function FoldStarts(d: TraceDoc, starts: seq<Start>): TraceDoc {
    if starts == [] then d
    else ApplyStart(FoldStarts(d, starts[..|starts| - 1]), starts[|starts| - 1])
  }

  ghost function StartsOnly(s: System): TraceDoc {
    FoldStarts(Placeholder(s.experimentId, 0), s.starts)
  }

  ghost function Digest(env: Mlflow, spans: set<SpanRecord>): Summary
    requires spans != {} && DistinctIds(spans)
  {
    assert Sorted(spans) != [] by { var x :| x in spans; assert x in Sorted(spans); }
    Summarize(env, Sorted(spans), [])
  }

  ghost function Serial(env: Mlflow, s: System): TraceDoc
    requires s.spans != map[] && DistinctIds(s.spans.Values)
  {
    var d := StartsOnly(s);
    assert s.spans.Values != {} by { var id :| id in s.spans; assert s.spans[id] in s.spans.Values; }
    Commit(env, d, d.spanRevision, Digest(env, s.spans.Values))
  }

  /** Everything a reader sees except tags, which belong to single batches, and the revision. */
  ghost predicate ReadsTheSame(a: TraceDoc, b: TraceDoc) {
    && Flat(a).(spanRevision := 0) == Flat(b).(spanRevision := 0)
    && AsMap(a.metadata) == AsMap(b.metadata)
  }

  // ---------- when the spans agree ----------

  ghost predicate PreviewAgrees(p: Option<string>, whole: Option<string>) {
    p.Some? ==> p == whole
  }

  /** Span `x` alone would not contradict the summary of all spans: a root has the state of the
      first root and no other preview, and its metadata values are the summary's. */
  ghost predicate Agrees(x: SpanRecord, whole: Summary) {
    && (x.parent.None? ==>
          && StateOf(Some(x)) == whole.state
          && PreviewAgrees(x.requestPreview, whole.requestPreview)
          && PreviewAgrees(x.responsePreview, whole.responsePreview))
    && forall k | k in AsMap(x.metadata) ::
         k in AsMap(whole.metadata) && AsMap(x.metadata)[k] == AsMap(whole.metadata)[k]
  }

  ghost predicate SpansAgree(env: Mlflow, spans: set<SpanRecord>)
    requires spans != {} && DistinctIds(spans)
  {
    forall x <- spans :: Agrees(x, Digest(env, spans))
  }

  /** The expected case: one root, and no metadata key with two values. */
  lemma OneRootAgrees(env: Mlflow, spans: set<SpanRecord>)
    requires spans != {} && DistinctIds(spans)
    requires forall x, y | x in spans && y in spans && x.parent.None? && y.parent.None? :: x == y
    requires forall x, y, k | x in spans && y in spans && k in AsMap(x.metadata) && k in AsMap(y.metadata) ::
               AsMap(x.metadata)[k] == AsMap(y.metadata)[k]
    ensures SpansAgree(env, spans)
  {
    forall x | x in spans ensures Agrees(x, Digest(env, spans)) {
      OneRootAgreesOn(env, spans, x);
      OneValueAgreesOn(env, spans, x);
    }
  }

  lemma OneRootAgreesOn(env: Mlflow, spans: set<SpanRecord>, x: SpanRecord)
    requires DistinctIds(spans) && x in spans
    requires forall y | y in spans && x.parent.None? && y.parent.None? :: x == y
    ensures x.parent.None? ==> FirstRoot(Sorted(spans)) == Some(x)
  {
    FirstRootIsEarliest(Sorted(spans));
  }

  lemma OneValueAgreesOn(env: Mlflow, spans: set<SpanRecord>, x: SpanRecord)
    requires DistinctIds(spans) && x in spans
    requires forall y, k | y in spans && k in AsMap(x.metadata) &&
            k in AsMap(y.metadata) :: AsMap(x.metadata)[k] == AsMap(y.metadata)[k]
    ensures var m := AsMap(FirstMetadata(Sorted(spans)));
            forall k | k in AsMap(x.metadata) :: k in m && m[k] == AsMap(x.metadata)[k]
  {
    FirstMetadataIsEarliest(Sorted(spans));
  }

  /** MLflow's aggregators do not lose a total when spans are added. */
  ghost predicate TotalsPersist(env: Mlflow) {
    forall a: set<SpanRecord>, b: set<SpanRecord> ::
      a != {} && a <= b && DistinctIds(b) ==>
        && (env.usage(Sorted(a)).Some? ==> env.usage(Sorted(b)).Some?)
        && (env.cost(Sorted(a)).Some? ==> env.cost(Sorted(b)).Some?)
  }

  // ---------- the document along a run ----------
  // `f` is the document the start_trace calls alone would give, `last` the summary of the latest
  // commit and `whole` the summary of all spans of the finished run.

  ghost predicate FollowsInfo(d: TraceDoc, f: TraceDoc, last: Option<Summary>) {
    && d.experimentId == f.experimentId
    && d.clientRequestId == f.clientRequestId
    && d.finalized == f.finalized
    && d.authoritativeKeys == f.authoritativeKeys
    && d.runIds == f.runIds
    && d.spanStats == f.spanStats
    && (f.finalized ==>
          && d.requestTime == f.requestTime && d.executionDuration == f.executionDuration
          && d.state == f.state && !IsOpen(f.state))
    && (!f.finalized && last.None? ==> d.state == InProgress)
    && (!f.finalized && last.Some? ==>
          && d.requestTime == last.value.requestTime
          && d.executionDuration == last.value.executionDuration
          && d.state == last.value.state)
  }

  ghost predicate FollowsPreview(d: Option<string>, f: Option<string>, last: Option<string>, whole: Option<string>) {
    && (f.Some? ==> d == f)
    && (f.None? ==> PreviewAgrees(d, whole) && (d.None? ==> last.None?))
  }

  ghost predicate FollowsStats(claimed: bool, d: Option<Stats>, f: Option<Stats>, last: Option<Stats>) {
    if claimed then f.Some? && d == f else f.None? && d == last
  }

  /** Authoritative entries are as start_trace left them, the aggregate entries mirror the native
      fields, and every other entry is one of the whole summary. */
  ghost predicate FollowsMetadata(env: Mlflow, d: TraceDoc, f: TraceDoc, last: map<string, string>,
      whole: map<string, string>)
  {
    var m, fm := AsMap(d.metadata), AsMap(f.metadata);
    && fm.Keys == f.authoritativeKeys
    && (forall k <- fm :: k in m && m[k] == fm[k])
    && (forall k <- m :: k in fm || k == TOKEN_USAGE || k == TRACE_COST || (k in whole && m[k] == whole[k]))
    && (forall k <- last :: k in m)
    && (TOKEN_USAGE !in fm ==> Mirrors(env, m, TOKEN_USAGE, d.tokenUsage))
    && (TRACE_COST !in fm ==> Mirrors(env, m, TRACE_COST, d.cost))
  }

  ghost predicate Mirrors(env: Mlflow, m: map<string, string>, k: string, stats: Option<Stats>) {
    if stats.Some? then k in m && m[k] == env.dumps(stats.value) else k !in m
  }

  ghost predicate Follows(env: Mlflow, d: TraceDoc, f: TraceDoc, last: Option<Summary>, whole: Summary) {
    && FollowsInfo(d, f, last)
    && FollowsPreview(d.requestPreview, f.requestPreview,
                      if last.None? then None else last.value.requestPreview, whole.requestPreview)
    && FollowsPreview(d.responsePreview, f.responsePreview,
                      if last.None? then None else last.value.responsePreview, whole.responsePreview)
    && FollowsStats(TOKEN_USAGE in f.authoritativeKeys, d.tokenUsage, f.tokenUsage,
                    if last.None? then None else last.value.tokenUsage)
    && FollowsStats(TRACE_COST in f.authoritativeKeys, d.cost, f.cost,
                    if last.None? then None else last.value.cost)
    && FollowsMetadata(env, d, f, if last.None? then map[] else AsMap(last.value.metadata), AsMap(whole.metadata))
  }

  /** How the summary of a snapshot relates to the previous commit's and to the whole one. */
  ghost predicate Fits(s: Summary, last: Option<Summary>, whole: Summary) {
    && (IsOpen(s.state) || s.state == whole.state)
    && PreviewAgrees(s.requestPreview, whole.requestPreview)
    && PreviewAgrees(s.responsePreview, whole.responsePreview)
    && (forall k | k in AsMap(s.metadata) ::
          k in AsMap(whole.metadata) && AsMap(s.metadata)[k] == AsMap(whole.metadata)[k])
    && TOKEN_USAGE !in AsMap(s.metadata) && TRACE_COST !in AsMap(s.metadata)
    && (last.Some? ==>
          && (IsOpen(last.value.state) || (last.value.state == whole.state && s.state == whole.state))
          && (last.value.tokenUsage.Some? ==> s.tokenUsage.Some?)
          && (last.value.cost.Some? ==> s.cost.Some?))
  }

  lemma CommitFollowsMetadata(env: Mlflow, d: TraceDoc, f: TraceDoc, last: map<string, string>,
                              whole: map<string, string>, s: Summary)
    requires FollowsMetadata(env, d, f, last, whole) && d.authoritativeKeys == f.authoritativeKeys
    requires forall k | k in AsMap(s.metadata) :: k in whole && AsMap(s.metadata)[k] == whole[k]
    requires TOKEN_USAGE !in AsMap(s.metadata) && TRACE_COST !in AsMap(s.metadata)
    ensures FollowsMetadata(env, Commit(env, d, d.spanRevision, s), f, AsMap(s.metadata), whole)
  {
    CommitAsMap(env, d, s);
    assert TOKEN_USAGE != TRACE_COST by { assert |TOKEN_USAGE| != |TRACE_COST|; }
  }

  lemma CommitFollows(env: Mlflow, d: TraceDoc, f: TraceDoc, last: Option<Summary>, whole: Summary, s: Summary)
    requires Follows(env, d, f, last, whole) && Fits(s, last, whole)
    ensures Follows(env, Commit(env, d, d.spanRevision, s), f, Some(s), whole)
  {
    var shown := if last.None? then map[] else AsMap(last.value.metadata);
    CommitFollowsMetadata(env, d, f, shown, AsMap(whole.metadata), s);
  }

  lemma StartFollowsMetadata(env: Mlflow, d: TraceDoc, f: TraceDoc, last: map<string, string>,
                             whole: map<string, string>, a: Start)
    requires FollowsMetadata(env, d, f, last, whole) && CleanStart(a)
    ensures FollowsMetadata(env, ApplyStart(d, a), ApplyStart(f, a), last, whole)
  {
    StartAsMap(d, a);
    StartAsMap(f, a);
    StartKeys(f, a);
    StartMirrors(env, d, a, TOKEN_USAGE, a.tokenUsage, d.tokenUsage);
    StartMirrors(env, d, a, TRACE_COST, a.cost, d.cost);
  }

  lemma StartKeys(f: TraceDoc, a: Start)
    requires AsMap(f.metadata).Keys == f.authoritativeKeys
    ensures (AsMap(f.metadata) + AsMap(a.metadata)).Keys == ApplyStart(f, a).authoritativeKeys
  {
    AsMapKeys(a.metadata);
  }

  /** An entry no start_trace call claims still mirrors its native field. */
  lemma StartMirrors(env: Mlflow, d: TraceDoc, a: Start, key: string, own: Option<Stats>, stored: Option<Stats>)
    requires own.Some? <==> HasKey(a.metadata, key)
    ensures key !in AsMap(a.metadata) && Mirrors(env, AsMap(d.metadata), key, stored) ==>
              Mirrors(env, AsMap(d.metadata) + AsMap(a.metadata), key, IfNull(own, stored))
  {
    AsMapKeys(a.metadata);
  }

  lemma StartFollows(env: Mlflow, d: TraceDoc, f: TraceDoc, last: Option<Summary>, whole: Summary, a: Start)
    requires Follows(env, d, f, last, whole) && CleanStart(a)
    ensures Follows(env, ApplyStart(d, a), ApplyStart(f, a), last, whole)
  {
    StartFollowsMetadata(env, d, f, if last.None? then map[] else AsMap(last.value.metadata), AsMap(whole.metadata), a);
  }

  lemma FollowingMetadataIsSerial(env: Mlflow, d: TraceDoc, f: TraceDoc, whole: Summary)
    requires FollowsMetadata(env, d, f, AsMap(whole.metadata), AsMap(whole.metadata))
    requires TOKEN_USAGE !in AsMap(whole.metadata) && TRACE_COST !in AsMap(whole.metadata)
    requires TOKEN_USAGE !in f.authoritativeKeys ==> d.tokenUsage == whole.tokenUsage
    requires TRACE_COST !in f.authoritativeKeys ==> d.cost == whole.cost
    ensures AsMap(d.metadata) == CommittedMetadata(env, f, whole)
  {
    assert TOKEN_USAGE != TRACE_COST by { assert |TOKEN_USAGE| != |TRACE_COST|; }
    var m, n := AsMap(d.metadata), CommittedMetadata(env, f, whole);
    forall k ensures k in m <==> k in n {}
    forall k | k in m ensures m[k] == n[k] {}
  }

  /** With the last commit covering everything, following means reading like the serial document. */
  lemma FollowingIsSerial(env: Mlflow, d: TraceDoc, f: TraceDoc, whole: Summary)
    requires Follows(env, d, f, Some(whole), whole)
    requires TOKEN_USAGE !in AsMap(whole.metadata) && TRACE_COST !in AsMap(whole.metadata)
    requires !f.finalized ==> IsOpen(f.state)
    ensures ReadsTheSame(d, Commit(env, f, f.spanRevision, whole))
  {
    CommitAsMap(env, f, whole);
    FollowingMetadataIsSerial(env, d, f, whole);
  }

  // ---------- along a run ----------

  ghost function DigestOf(env: Mlflow, c: Option<Commitment>): Option<Summary>
    requires c.Some? ==> c.value.snapshot != {} && DistinctIds(c.value.snapshot)
  {
    if c.None? then None else Some(Digest(env, c.value.snapshot))
  }

  /** The root fields of a digest are those of some root of the set. */
  lemma DigestRoot(env: Mlflow, spans: set<SpanRecord>) returns (root: Option<SpanRecord>)
    requires spans != {} && DistinctIds(spans)
    ensures root.Some? ==> root.value in spans && root.value.parent.None?
    ensures root.None? ==> forall x <- spans :: x.parent.Some?
    ensures var s := Digest(env, spans);
            && s.state == StateOf(root)
            && s.requestPreview == (if root.None? then None else root.value.requestPreview)
            && s.responsePreview == (if root.None? then None else root.value.responsePreview)
  {
    FirstRootIsEarliest(Sorted(spans));
    root := FirstRoot(Sorted(spans));
    if root.None? {
      forall x | x in spans ensures x.parent.Some? { assert x in Sorted(spans); }
    }
  }

  /** Every metadata entry of a digest is an entry of some span of the set. */
  lemma DigestEntry(env: Mlflow, spans: set<SpanRecord>, k: string) returns (x: SpanRecord)
    requires spans != {} && DistinctIds(spans) && k in AsMap(Digest(env, spans).metadata)
    ensures x in spans && k in AsMap(x.metadata)
    ensures AsMap(x.metadata)[k] == AsMap(Digest(env, spans).metadata)[k]
  {
    var list := Sorted(spans);
    FirstMetadataIsEarliest(list);
    var i :| 0 <= i < |list| && FirstWithKey(list, i, k) &&
             AsMap(list[i].metadata)[k] == AsMap(FirstMetadata(list))[k];
    x := list[i];
  }

  /** Entries of a snapshot's summary are entries of the whole summary. */
  ghost predicate EntriesOf(s: Summary, whole: Summary) {
    forall k | k in AsMap(s.metadata) ::
      k in AsMap(whole.metadata) && AsMap(s.metadata)[k] == AsMap(whole.metadata)[k]
  }

  lemma PartEntries(env: Mlflow, part: set<SpanRecord>, whole: set<SpanRecord>)
    requires part != {} && part <= whole && DistinctIds(whole) && SpansAgree(env, whole)
    ensures EntriesOf(Digest(env, part), Digest(env, whole))
  {
    var s, w := Digest(env, part), Digest(env, whole);
    forall k | k in AsMap(s.metadata)
      ensures k in AsMap(w.metadata) && AsMap(s.metadata)[k] == AsMap(w.metadata)[k]
    {
      var x := DigestEntry(env, part, k);
      assert Agrees(x, w);
    }
  }

  lemma PartUnreserved(env: Mlflow, part: set<SpanRecord>)
    requires part != {} && DistinctIds(part) && forall x <- part :: Unreserved(x)
    ensures TOKEN_USAGE !in AsMap(Digest(env, part).metadata)
    ensures TRACE_COST !in AsMap(Digest(env, part).metadata)
  {
    forall k | k in AsMap(Digest(env, part).metadata) ensures k != TOKEN_USAGE && k != TRACE_COST {
      var x := DigestEntry(env, part, k);
      assert Unreserved(x);
    }
  }

  lemma SnapshotFits(env: Mlflow, snapshot: set<SpanRecord>, last: Option<Commitment>, whole: set<SpanRecord>)
    requires snapshot != {} && snapshot <= whole && DistinctIds(whole) && SpansAgree(env, whole)
    requires TotalsPersist(env) && forall x <- snapshot :: Unreserved(x)
    requires last.Some? ==> last.value.snapshot != {} && last.value.snapshot <= snapshot
    ensures Fits(Digest(env, snapshot), DigestOf(env, last), Digest(env, whole))
  {
    PartEntries(env, snapshot, whole);
    PartUnreserved(env, snapshot);
    var root := DigestRoot(env, snapshot);
    assert root.Some? ==> Agrees(root.value, Digest(env, whole));
    if last.Some? {
      var lastRoot := DigestRoot(env, last.value.snapshot);
      assert lastRoot.Some? ==> Agrees(lastRoot.value, Digest(env, whole)) && lastRoot.value in snapshot;
    }
  }

  /** The document of a state follows its history. */
  ghost predicate DocFollows(env: Mlflow, s: System, whole: Summary)
    requires SpansOk(s)
  {
    SpansAreDistinct(s);
    if s.doc.None? then s.starts == [] && s.last.None?
    else Follows(env, s.doc.value, StartsOnly(s), DigestOf(env, s.last), whole)
  }

  lemma OtherStepFollows(env: Mlflow, s: System, step: Step, whole: Summary)
    requires SpansOk(s) && Enabled(s, step) && SpansOk(Apply(env, s, step))
    requires !step.TryCommit? && !step.StartTrace?
    requires s.doc.None? ==> step.Ensure? || step.Insert? || step.Read?
    requires DocFollows(env, s, whole)
    ensures DocFollows(env, Apply(env, s, step), whole)
  {
    SpansAreDistinct(s);
    if step.Ensure? && s.doc.None? {
      BlankFollows(env, Placeholder(s.experimentId, s.writers[step.w].firstMs), s, whole);
    } else if step.Bump? {
      RevisionIsNotFollowed(env, s.doc.value, s.doc.value.spanRevision + 1, StartsOnly(s), DigestOf(env, s.last),
          whole);
    }
  }

  lemma BlankFollows(env: Mlflow, d: TraceDoc, s: System, whole: Summary)
    requires s.starts == [] && Flat(d) == Flat(Placeholder(s.experimentId, d.requestTime)) && d.metadata == []
    ensures Follows(env, d, StartsOnly(s), None, whole)
  {}

  lemma RevisionIsNotFollowed(env: Mlflow, d: TraceDoc, r: nat, f: TraceDoc, last: Option<Summary>, whole: Summary)
    requires Follows(env, d, f, last, whole)
    ensures Follows(env, d.(spanRevision := r), f, last, whole)
  {}

  lemma FoldSnoc(d: TraceDoc, starts: seq<Start>, a: Start)
    ensures FoldStarts(d, starts + [a]) == ApplyStart(FoldStarts(d, starts), a)
  {
    assert (starts + [a])[..|starts|] == starts;
  }

  lemma StartStepFollows(env: Mlflow, s: System, a: Start, d: TraceDoc, last: Option<Summary>, whole: Summary)
    requires CleanStart(a)
    requires Follows(env, d, StartsOnly(s), last, whole)
    ensures Follows(env, ApplyStart(d, a), FoldStarts(Placeholder(s.experimentId, 0), s.starts + [a]), last, whole)
  {
    FoldSnoc(Placeholder(s.experimentId, 0), s.starts, a);
    StartFollows(env, d, StartsOnly(s), last, whole, a);
  }

  lemma CommitStepFollows(env: Mlflow, s: System, w: nat, whole: set<SpanRecord>)
    requires Inv(s) && InputsOk(s) && Enabled(s, TryCommit(w)) && SpansOk(Apply(env, s, TryCommit(w)))
    requires whole != {} && DistinctIds(whole) && s.spans.Values <= whole
    requires SpansAgree(env, whole) && TotalsPersist(env)
    requires DocFollows(env, s, Digest(env, whole))
    ensures DocFollows(env, Apply(env, s, TryCommit(w)), Digest(env, whole))
  {
    SpansAreDistinct(s);
    var me := s.writers[w];
    if me.phase.revision == Revision(s) {
      assert WriterOk(s, me);
      SnapshotFollows(env, s.doc.value, StartsOnly(s), me.phase.snapshot, me.tags, s.last, whole);
    }
  }

  lemma SnapshotFollows(env: Mlflow, d: TraceDoc, f: TraceDoc, snapshot: set<SpanRecord>, tags: seq<Entry<string>>,
                        last: Option<Commitment>, whole: set<SpanRecord>)
    requires snapshot != {} && snapshot <= whole && DistinctIds(whole) && SpansAgree(env, whole)
    requires TotalsPersist(env) && forall x <- snapshot :: Unreserved(x)
    requires last.Some? ==> last.value.snapshot != {} && last.value.snapshot <= snapshot
    requires Follows(env, d, f, DigestOf(env, last), Digest(env, whole))
    ensures var s := Digest(env, snapshot).(tags := tags);
            Follows(env, Commit(env, d, d.spanRevision, s), f, Some(Digest(env, snapshot)), Digest(env, whole))
  {
    SnapshotFits(env, snapshot, last, whole);
    CommitFollows(env, d, f, DigestOf(env, last), Digest(env, whole), Digest(env, snapshot).(tags := tags));
  }

  lemma StepFollows(env: Mlflow, s: System, step: Step, whole: set<SpanRecord>)
    requires Inv(s) && InputsOk(s) && Enabled(s, step) && SpansOk(Apply(env, s, step))
    requires whole != {} && DistinctIds(whole) && s.spans.Values <= whole
    requires SpansAgree(env, whole) && TotalsPersist(env)
    requires step.StartTrace? ==> CleanStart(step.a)
    requires DocFollows(env, s, Digest(env, whole))
    ensures DocFollows(env, Apply(env, s, step), Digest(env, whole))
  {
    if step.TryCommit? {
      CommitStepFollows(env, s, step.w, whole);
    } else if step.StartTrace? {
      SpansAreDistinct(s);
      var d := if s.doc.Some? then s.doc.value else Blank(s.experimentId);
      if s.doc.None? {
        BlankFollows(env, d, s, Digest(env, whole));
      }
      StartStepFollows(env, s, step.a, d, DigestOf(env, s.last), Digest(env, whole));
    } else {
      OtherStepFollows(env, s, step, Digest(env, whole));
    }
  }

  ghost predicate CleanSteps(steps: seq<Step>) {
    forall i :: 0 <= i < |steps| && steps[i].StartTrace? ==> CleanStart(steps[i].a)
  }

  /** The parts of a state the induction below is about. */
  ghost predicate StateFollows(env: Mlflow, s: System, whole: set<SpanRecord>)
    requires DistinctIds(whole) && whole != {}
  {
    Inv(s) && InputsOk(s) && DocFollows(env, s, Digest(env, whole))
  }

  ghost predicate Within(run: seq<System>, whole: set<SpanRecord>) {
    forall i :: 0 <= i < |run| ==> run[i].spans.Values <= whole
  }

  lemma RunFollows(env: Mlflow, run: seq<System>, steps: seq<Step>, j: nat, whole: set<SpanRecord>)
    requires IsRun(env, run, steps) && CleanSteps(steps) && j < |run|
    requires whole != {} && DistinctIds(whole) && Within(run, whole)
    requires SpansAgree(env, whole) && TotalsPersist(env)
    ensures StateFollows(env, run[j], whole)
  {
    var good := (s: System) => StateFollows(env, s, whole);
    InitialFollows(env, run[0], whole);
    forall i: nat | i + 1 < |run| && good(run[i]) ensures good(run[i + 1]) {
      NextFollows(env, run, steps, i, whole);
    }
    AlongRun(good, run, j);
  }

  lemma InitialFollows(env: Mlflow, s: System, whole: set<SpanRecord>)
    requires Initial(s) && DistinctIds(whole) && whole != {}
    ensures StateFollows(env, s, whole)
  {}

  /** No run ever holds a span that its last state has not. */
  lemma RunStaysWithin(env: Mlflow, run: seq<System>, steps: seq<Step>)
    requires IsRun(env, run, steps)
    ensures Within(run, run[|steps|].spans.Values)
  {
    forall i | 0 <= i < |run| ensures run[i].spans.Values <= run[|steps|].spans.Values {
      RunKeepsInv(env, run, steps, i, |steps|);
      SpansGrow(run[i], run[|steps|]);
    }
  }

  lemma SpansGrow(s: System, t: System)
    requires Extends(s, t)
    ensures s.spans.Values <= t.spans.Values
  {
    forall x | x in s.spans.Values ensures x in t.spans.Values {
      var id :| id in s.spans && s.spans[id] == x;
      assert t.spans[id] == x;
    }
  }

  lemma StepKeepsFollowing(env: Mlflow, s: System, step: Step, whole: set<SpanRecord>)
    requires Enabled(s, step) && (step.StartTrace? ==> CleanStart(step.a))
    requires whole != {} && DistinctIds(whole) && s.spans.Values <= whole
    requires SpansAgree(env, whole) && TotalsPersist(env)
    ensures StateFollows(env, s, whole) ==> StateFollows(env, Apply(env, s, step), whole)
  {
    if StateFollows(env, s, whole) {
      StepKeepsEverything(env, s, step);
      StepFollows(env, s, step, whole);
    }
  }

  lemma NextFollows(env: Mlflow, run: seq<System>, steps: seq<Step>, i: nat, whole: set<SpanRecord>)
    requires IsRun(env, run, steps) && CleanSteps(steps) && i < |steps|
    requires whole != {} && DistinctIds(whole) && Within(run, whole)
    requires SpansAgree(env, whole) && TotalsPersist(env)
    ensures StateFollows(env, run[i], whole) ==> StateFollows(env, run[i + 1], whole)
  {
    StepKeepsFollowing(env, run[i], steps[i], whole);
  }

  lemma {:induction false} FoldKeepsOpen(d: TraceDoc, starts: seq<Start>)
    requires IsOpen(d.state)
    ensures !FoldStarts(d, starts).finalized ==> IsOpen(FoldStarts(d, starts).state)
  {}

  /** Convergence. However writers and start_trace calls interleave, and even if some writers ran
      out of attempts, once all have finished the document reads as the serial one, provided the
      stored spans agree. */
  lemma QuiescentRunIsSerial(env: Mlflow, run: seq<System>, steps: seq<Step>)
    requires IsRun(env, run, steps) && CleanSteps(steps) && TotalsPersist(env)
    requires Quiescent(run[|steps|]) && run[|steps|].writers != []
    ensures var s := run[|steps|];
            s.doc.Some? && s.spans != map[] && s.spans.Values != {} && DistinctIds(s.spans.Values)
    ensures var s := run[|steps|];
            SpansAgree(env, s.spans.Values) ==> ReadsTheSame(s.doc.value, Serial(env, s))
  {
    var s := run[|steps|];
    RunKeepsInv(env, run, steps, |steps|, |steps|);
    LastCommitSawEverything(s);
    SpansAreDistinct(s);
    assert WriterOk(s, s.writers[0]);
    if SpansAgree(env, s.spans.Values) {
      RunStaysWithin(env, run, steps);
      RunFollows(env, run, steps, |steps|, s.spans.Values);
      forall x | x in s.spans.Values ensures Unreserved(x) {
        var id :| id in s.spans && s.spans[id] == x;
      }
      PartUnreserved(env, s.spans.Values);
      FoldKeepsOpen(Placeholder(s.experimentId, 0), s.starts);
      FollowingIsSerial(env, s.doc.value, StartsOnly(s), Digest(env, s.spans.Values));
    }
  }
}
