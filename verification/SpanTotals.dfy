/** Times and statistics of a quiescent trace document. Unlike state, previews and metadata they are
    rewritten by every commit, so they are right whatever the spans and start_trace calls say. */
module SpanTotals {
  import opened Wrappers
  import opened ArrayOperations
  import opened SpanSummaries
  import opened TraceDocuments
  import opened SpanProtocol
  import opened SpanConvergence

  /** The store only supplies a native field together with its metadata key. */
  predicate Keyed(a: Start) {
    && (a.tokenUsage.Some? ==> HasKey(a.metadata, TOKEN_USAGE))
    && (a.cost.Some? ==> HasKey(a.metadata, TRACE_COST))
  }

  predicate KeyedSteps(steps: seq<Step>) {
    forall i :: 0 <= i < |steps| && steps[i].StartTrace? ==> Keyed(steps[i].a)
  }

  /** Times are those of the start_trace calls, before the first one those of the latest commit. */
  predicate TimesCurrent(d: TraceDoc, f: TraceDoc, last: Option<Summary>) {
    && d.finalized == f.finalized
    && (f.finalized ==> d.requestTime == f.requestTime && d.executionDuration == f.executionDuration)
    && (!f.finalized && last.Some? ==>
          d.requestTime == last.value.requestTime && d.executionDuration == last.value.executionDuration)
  }

  /** A statistic no start_trace call has claimed is that of the latest commit, in the native field
      and in the metadata. If that commit had none, an earlier one may still show, unless `exact`. */
  ghost predicate StatCurrent(env: Mlflow, d: TraceDoc, key: string, field: Option<Stats>, last: Option<Stats>,
                              exact: bool) {
    key !in d.authoritativeKeys ==>
      && (last.Some? ==> field == last && Shows(env, d, key, last.value))
      && (last.None? && exact ==> field.None?)
  }

  ghost predicate Shows(env: Mlflow, d: TraceDoc, key: string, stats: Stats) {
    key in AsMap(d.metadata) && AsMap(d.metadata)[key] == env.dumps(stats)
  }

  ghost predicate Current(env: Mlflow, d: TraceDoc, f: TraceDoc, last: Option<Summary>, exact: bool) {
    && TimesCurrent(d, f, last)
    && StatCurrent(env, d, TOKEN_USAGE, d.tokenUsage, if last.None? then None else last.value.tokenUsage, exact)
    && StatCurrent(env, d, TRACE_COST, d.cost, if last.None? then None else last.value.cost, exact)
  }

  /** The summary has every statistic the previous commit had. */
  predicate LosesNothing(last: Option<Summary>, s: Summary) {
    last.Some? ==>
      && (last.value.tokenUsage.Some? ==> s.tokenUsage.Some?)
      && (last.value.cost.Some? ==> s.cost.Some?)
  }

  lemma CommitShows(env: Mlflow, d: TraceDoc, s: Summary)
    ensures var t := Commit(env, d, d.spanRevision, s);
            && (s.tokenUsage.Some? && TOKEN_USAGE !in d.authoritativeKeys ==>
                Shows(env, t, TOKEN_USAGE, s.tokenUsage.value))
            && (s.cost.Some? && TRACE_COST !in d.authoritativeKeys ==> Shows(env, t, TRACE_COST, s.cost.value))
  {
    CommitAsMap(env, d, s);
    assert TOKEN_USAGE != TRACE_COST by { assert |TOKEN_USAGE| != |TRACE_COST|; }
  }

  lemma CommitIsCurrent(env: Mlflow, d: TraceDoc, f: TraceDoc, last: Option<Summary>, s: Summary, exact: bool)
    requires Current(env, d, f, last, exact) && (exact ==> LosesNothing(last, s))
    ensures Current(env, Commit(env, d, d.spanRevision, s), f, Some(s), exact)
  {
    CommitShows(env, d, s);
  }

  lemma StartKeepsEntry(env: Mlflow, d: TraceDoc, a: Start, key: string, stats: Stats)
    requires Shows(env, d, key, stats) && key !in KeySet(a.metadata)
    ensures Shows(env, ApplyStart(d, a), key, stats)
  {
    StartAsMap(d, a);
  }

  lemma StartKeepsStat(env: Mlflow, d: TraceDoc, a: Start, key: string, field: Option<Stats>, last: Option<Stats>,
      exact: bool)
    requires StatCurrent(env, d, key, field, last, exact)
    ensures StatCurrent(env, ApplyStart(d, a), key, field, last, exact)
  {
    if key !in ApplyStart(d, a).authoritativeKeys && last.Some? { StartKeepsEntry(env, d, a, key, last.value); }
  }

  lemma StartKeepsCurrent(env: Mlflow, d: TraceDoc, f: TraceDoc, last: Option<Summary>, a: Start, exact: bool)
    requires Current(env, d, f, last, exact) && Keyed(a)
    ensures Current(env, ApplyStart(d, a), ApplyStart(f, a), last, exact)
  {
    StartKeepsStat(env, d, a, TOKEN_USAGE, d.tokenUsage, if last.None? then None else last.value.tokenUsage, exact);
    StartKeepsStat(env, d, a, TRACE_COST, d.cost, if last.None? then None else last.value.cost, exact);
  }

  // ---------- along a run ----------

  ghost predicate StateCurrent(env: Mlflow, s: System, exact: bool)
    requires SpansOk(s)
  {
    SpansAreDistinct(s);
    if s.doc.None? then s.starts == [] && s.last.None?
    else Current(env, s.doc.value, StartsOnly(s), DigestOf(env, s.last), exact)
  }

  lemma NewDocIsCurrent(env: Mlflow, s: System, d: TraceDoc, exact: bool)
    requires s.starts == [] && Flat(d).(requestTime := 0) == Flat(Blank(s.experimentId))
    ensures Current(env, d, StartsOnly(s), None, exact)
  {}

  lemma RevisionIsNoMatter(env: Mlflow, d: TraceDoc, r: nat, f: TraceDoc, last: Option<Summary>, exact: bool)
    requires Current(env, d, f, last, exact)
    ensures Current(env, d.(spanRevision := r), f, last, exact)
  {}

  lemma CommitStepIsCurrent(env: Mlflow, s: System, w: nat, exact: bool)
    requires Inv(s) && Enabled(s, TryCommit(w)) && SpansOk(Apply(env, s, TryCommit(w)))
    requires StateCurrent(env, s, exact) && (exact ==> TotalsPersist(env))
    ensures StateCurrent(env, Apply(env, s, TryCommit(w)), exact)
  {
    SpansAreDistinct(s);
    var me := s.writers[w];
    if me.phase.revision == Revision(s) {
      assert WriterOk(s, me);
      var summary := Summarize(env, Sorted(me.phase.snapshot), me.tags);
      CommitIsCurrent(env, s.doc.value, StartsOnly(s), DigestOf(env, s.last), summary, exact);
    }
  }

  lemma StartStepIsCurrent(env: Mlflow, s: System, t: System, a: Start, exact: bool)
    requires SpansOk(s) && SpansOk(t) && Keyed(a) && StateCurrent(env, s, exact)
    requires t.doc == Some(ApplyStart(if s.doc.Some? then s.doc.value else Blank(s.experimentId), a))
    requires t.starts == s.starts + [a] && t.last == s.last && t.experimentId == s.experimentId
    ensures StateCurrent(env, t, exact)
  {
    SpansAreDistinct(s);
    var d := if s.doc.Some? then s.doc.value else Blank(s.experimentId);
    if s.doc.None? { NewDocIsCurrent(env, s, d, exact); }
    StartIsFolded(env, s, a, d, DigestOf(env, s.last), exact);
  }

  lemma StartIsFolded(env: Mlflow, s: System, a: Start, d: TraceDoc, last: Option<Summary>, exact: bool)
    requires Current(env, d, StartsOnly(s), last, exact) && Keyed(a)
    ensures Current(env, ApplyStart(d, a), FoldStarts(Placeholder(s.experimentId, 0), s.starts + [a]), last, exact)
  {
    FoldSnoc(Placeholder(s.experimentId, 0), s.starts, a);
    StartKeepsCurrent(env, d, StartsOnly(s), last, a, exact);
  }

  lemma OtherStepIsCurrent(env: Mlflow, s: System, step: Step, exact: bool)
    requires SpansOk(s) && Enabled(s, step) && SpansOk(Apply(env, s, step))
    requires !step.TryCommit? && !step.StartTrace?
    requires StateCurrent(env, s, exact)
    ensures StateCurrent(env, Apply(env, s, step), exact)
  {
    SpansAreDistinct(s);
    if step.Ensure? && s.doc.None? {
      NewDocIsCurrent(env, s, Placeholder(s.experimentId, s.writers[step.w].firstMs), exact);
    } else if step.Bump? {
      RevisionIsNoMatter(env, s.doc.value, s.doc.value.spanRevision + 1, StartsOnly(s), DigestOf(env, s.last), exact);
    }
  }

  ghost predicate FineAndCurrent(env: Mlflow, s: System, exact: bool) {
    Inv(s) && InputsOk(s) && StateCurrent(env, s, exact)
  }

  lemma StepIsCurrent(env: Mlflow, s: System, step: Step, exact: bool)
    requires Enabled(s, step) && (step.StartTrace? ==> Keyed(step.a)) && (exact ==> TotalsPersist(env))
    ensures FineAndCurrent(env, s, exact) ==> FineAndCurrent(env, Apply(env, s, step), exact)
  {
    if FineAndCurrent(env, s, exact) {
      StepKeepsEverything(env, s, step);
      if step.TryCommit? {
        CommitStepIsCurrent(env, s, step.w, exact);
      } else if step.StartTrace? {
        StartStepIsCurrent(env, s, Apply(env, s, step), step.a, exact);
      } else {
        OtherStepIsCurrent(env, s, step, exact);
      }
    }
  }

  lemma InitialIsCurrent(env: Mlflow, s: System, exact: bool)
    requires Initial(s)
    ensures FineAndCurrent(env, s, exact)
  {
    InitialIsFine(s);
  }

  lemma NextIsCurrent(env: Mlflow, run: seq<System>, steps: seq<Step>, i: nat, exact: bool)
    requires IsRun(env, run, steps) && KeyedSteps(steps) && i < |steps|
    requires exact ==> TotalsPersist(env)
    ensures FineAndCurrent(env, run[i], exact) ==> FineAndCurrent(env, run[i + 1], exact)
  {
    StepIsCurrent(env, run[i], steps[i], exact);
  }

  lemma RunIsCurrent(env: Mlflow, run: seq<System>, steps: seq<Step>, j: nat, exact: bool)
    requires IsRun(env, run, steps) && KeyedSteps(steps) && j < |run|
    requires exact ==> TotalsPersist(env)
    ensures FineAndCurrent(env, run[j], exact)
  {
    var good := (s: System) => FineAndCurrent(env, s, exact);
    InitialIsCurrent(env, run[0], exact);
    forall i: nat | i + 1 < |run| && good(run[i]) ensures good(run[i + 1]) {
      NextIsCurrent(env, run, steps, i, exact);
    }
    AlongRun(good, run, j);
  }

  /** A finished run has a document, spans, and a last commit of all of them. */
  lemma FinishedRun(env: Mlflow, run: seq<System>, steps: seq<Step>)
    requires IsRun(env, run, steps) && Quiescent(run[|steps|]) && run[|steps|].writers != []
    ensures var s := run[|steps|];
            && s.doc.Some? && s.spans.Values != {} && DistinctIds(s.spans.Values)
            && s.last.Some? && s.last.value.snapshot == s.spans.Values
  {
    var s := run[|steps|];
    RunKeepsInv(env, run, steps, |steps|, |steps|);
    LastCommitSawEverything(s);
    SpansAreDistinct(s);
    assert WriterOk(s, s.writers[0]);
  }

  /** A statistic of the finished document: claimed by a start_trace call, or the one of all spans. */
  ghost predicate StatIsTotal(env: Mlflow, d: TraceDoc, key: string, field: Option<Stats>, whole: Option<Stats>) {
    key !in d.authoritativeKeys && whole.Some? ==> field == whole && Shows(env, d, key, whole.value)
  }

  /** Once all writers have finished, however they and start_trace calls interleaved, and whatever the
      spans say: without start_trace the times are those of all stored spans, with it those of its last
      call, and an unclaimed statistic is that of all stored spans. */
  lemma TimesAndTotalsAreRight(env: Mlflow, run: seq<System>, steps: seq<Step>)
    requires IsRun(env, run, steps) && KeyedSteps(steps)
    requires Quiescent(run[|steps|]) && run[|steps|].writers != []
    ensures var s := run[|steps|]; s.doc.Some? && s.spans.Values != {} && DistinctIds(s.spans.Values)
    ensures var s := run[|steps|];
            var d, w := s.doc.value, Digest(env, s.spans.Values);
            && (d.finalized <==> s.starts != [])
            && (!d.finalized ==> d.requestTime == w.requestTime && d.executionDuration == w.executionDuration)
            && (d.finalized ==> var a := s.starts[|s.starts| - 1];
                                d.requestTime == a.requestTime && d.executionDuration == a.executionDuration)
            && StatIsTotal(env, d, TOKEN_USAGE, d.tokenUsage, w.tokenUsage)
            && StatIsTotal(env, d, TRACE_COST, d.cost, w.cost)
  {
    FinishedRun(env, run, steps);
    RunIsCurrent(env, run, steps, |steps|, false);
  }

  /** If MLflow's aggregators lose no total when spans are added, then also a missing total is right. */
  lemma MissingTotalsAreRight(env: Mlflow, run: seq<System>, steps: seq<Step>)
    requires IsRun(env, run, steps) && KeyedSteps(steps) && TotalsPersist(env)
    requires Quiescent(run[|steps|]) && run[|steps|].writers != []
    ensures var s := run[|steps|]; s.doc.Some? && s.spans.Values != {} && DistinctIds(s.spans.Values)
    ensures var s := run[|steps|];
            var d, w := s.doc.value, Digest(env, s.spans.Values);
            && (TOKEN_USAGE !in d.authoritativeKeys ==> d.tokenUsage == w.tokenUsage)
            && (TRACE_COST !in d.authoritativeKeys ==> d.cost == w.cost)
  {
    FinishedRun(env, run, steps);
    RunIsCurrent(env, run, steps, |steps|, true);
  }
}
