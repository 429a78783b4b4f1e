/** Concurrent log_batch calls on one run, with its lifecycle changing in between. A call is an
    atomic document update followed by one upsert per history row of the run, then one per row of a
    logged model; the first clash among the latter ends the call. */
module RunConcurrency {
  import opened ArrayOperations
  import opened RunBatches

  datatype Phase = Updating | Writing(next: nat) | Done | Rejected | Failed

  datatype Logger = Logger(batch: Batch, phase: Phase)

  datatype System = System(runId: string, doc: RunDoc, history: set<Metric>, modelRows: set<ModelRow>,
      loggers: seq<Logger>)

  datatype Step = Update(i: nat) | WriteRow(i: nat) | SetLifecycle(stage: Lifecycle)

  /** The number of rows in the bulk of a call. */
  function RowCount(s: System, b: Batch): nat {
    |b.points| + |ModelRows(s.runId, b)|
  }

  predicate Enabled(s: System, step: Step) {
    match step
    case Update(i) => i < |s.loggers| && s.loggers[i].phase.Updating?
    case WriteRow(i) =>
      i < |s.loggers| && s.loggers[i].phase.Writing? && s.loggers[i].phase.next < RowCount(s, s.loggers[i].batch)
    case SetLifecycle(_) => true
  }

  function PhaseAfter(s: System, b: Batch, written: nat): Phase {
    if written == RowCount(s, b) then Done else Writing(written)
  }

  function Moved(s: System, i: nat, phase: Phase): System
    requires i < |s.loggers|
  {
    s.(loggers := s.loggers[i := s.loggers[i].(phase := phase)])
  }

  /** One upsert of the bulk of logger `i`. */
  function Written(s: System, i: nat): System
    requires Enabled(s, WriteRow(i))
  {
    var b, n := s.loggers[i].batch, s.loggers[i].phase.next;
    if n < |b.points| then
      Moved(s.(history := s.history + {b.points[n].metric}), i, PhaseAfter(s, b, n + 1))
    else
      var r := ModelRows(s.runId, b)[n - |b.points|];
      if Clashes(s.modelRows, r) then Moved(s, i, Failed)
      else Moved(s.(modelRows := s.modelRows + {r}), i, PhaseAfter(s, b, n + 1))
  }

  function Apply(s: System, step: Step): System
    requires Enabled(s, step)
  {
    match step
    case Update(i) =>
      var b := s.loggers[i].batch;
      Moved(s.(doc := UpdateRun(s.doc, b)), i, if Guard(s.doc, b.params) then PhaseAfter(s, b, 0) else Rejected)
    case WriteRow(i) => Written(s, i)
    case SetLifecycle(stage) => s.(doc := s.doc.(lifecycle := stage))
  }

  /** A freshly created run and callers that have not started. */
  predicate Initial(s: System) {
    && s.doc.metrics == [] && s.doc.params == [] && s.history == {} && s.modelRows == {}
    && forall i :: 0 <= i < |s.loggers| ==> s.loggers[i].phase.Updating?
  }

  predicate IsRun(run: seq<System>, steps: seq<Step>) {
    && |run| == |steps| + 1
    && Initial(run[0])
    && forall i :: 0 <= i < |steps| ==> Enabled(run[i], steps[i]) && run[i + 1] == Apply(run[i], steps[i])
  }

  predicate Ended(l: Logger) {
    l.phase.Done? || l.phase.Rejected? || l.phase.Failed?
  }

  predicate Quiescent(s: System) {
    forall i :: 0 <= i < |s.loggers| ==> Ended(s.loggers[i])
  }

  // ---------- the invariant ----------

  /** `m` is a row logger `i` was allowed to write; it is written once `i` got past it. */
  ghost predicate Accepted(s: System, i: nat, m: Metric) {
    && i < |s.loggers| && m in Metrics(s.loggers[i].batch)
    && (s.loggers[i].phase.Writing? || s.loggers[i].phase.Done? || s.loggers[i].phase.Failed?)
  }

  /** How many rows of its bulk a logger has written for certain. */
  function Reached(s: System, l: Logger): nat {
    match l.phase
    case Updating => 0
    case Rejected => 0
    case Writing(n) => n
    case Failed => |l.batch.points|
    case Done => RowCount(s, l.batch)
  }

  ghost predicate RowsWritten(s: System, l: Logger) {
    && (forall n :: 0 <= n < |l.batch.points| && n < Reached(s, l) ==> l.batch.points[n].metric in s.history)
    && (forall n :: 0 <= n < |ModelRows(s.runId, l.batch)| && |l.batch.points| + n < Reached(s, l) ==>
          ModelRows(s.runId, l.batch)[n] in s.modelRows)
  }

  ghost predicate LoggerOk(s: System, l: Logger) {
    && (l.phase.Writing? ==> l.phase.next < RowCount(s, l.batch))
    && RowsWritten(s, l)
    && (l.phase.Failed? ==> exists r <- ModelRows(s.runId, l.batch) :: Clashes(s.modelRows, r))
    && (l.phase.Writing? || l.phase.Done? || l.phase.Failed? ==>
        forall m <- Metrics(l.batch) :: Dominated(s.doc.metrics, m))
  }

  /** Only rows of accepted batches are cached or stored. */
  ghost predicate AllAccepted(s: System) {
    && (forall m <- s.doc.metrics :: exists i: nat :: Accepted(s, i, m))
    && (forall m <- s.history :: exists i: nat :: Accepted(s, i, m))
  }

  ghost predicate Inv(s: System) {
    && OnePerKey(s.doc.metrics) && UniqueKeys(s.doc.params) && Consistent(s.modelRows)
    && AllAccepted(s)
    && (forall i :: 0 <= i < |s.loggers| ==> LoggerOk(s, s.loggers[i]))
  }

  /** The cache agrees with the history: one entry per logged key, itself a row of maximal rank. */
  ghost predicate CacheIsMaximum(metrics: seq<Metric>, history: set<Metric>) {
    && OnePerKey(metrics)
    && (forall e <- metrics :: e in history)
    && (forall h <- history :: Dominated(metrics, h))
  }

  lemma UpdateKeepsInv(s: System, i: nat)
    requires Inv(s) && Enabled(s, Update(i))
    ensures Inv(Apply(s, Update(i)))
  {
    var t := Apply(s, Update(i));
    var b := s.loggers[i].batch;
    ParamsOnlyGrow(s.doc, b);
    LatestKeeps(s.doc.metrics, Metrics(b));
    UpdateKeepsAccepted(s, i);
    forall j | 0 <= j < |t.loggers| ensures LoggerOk(t, t.loggers[j]) {
      assert LoggerOk(s, s.loggers[j]);
    }
  }

  lemma UpdateKeepsAccepted(s: System, i: nat)
    requires AllAccepted(s) && OnePerKey(s.doc.metrics) && Enabled(s, Update(i))
    ensures AllAccepted(Apply(s, Update(i)))
  {
    var t := Apply(s, Update(i));
    LatestKeeps(s.doc.metrics, Metrics(s.loggers[i].batch));
    forall m | m in t.doc.metrics ensures exists j: nat :: Accepted(t, j, m) {
      if m in s.doc.metrics {
        var j: nat :| Accepted(s, j, m);
        assert Accepted(t, j, m);
      } else {
        assert Accepted(t, i, m);
      }
    }
    forall m | m in t.history ensures exists j: nat :: Accepted(t, j, m) {
      var j: nat :| Accepted(s, j, m);
      assert Accepted(t, j, m);
    }
  }

  /** Rows that are added leave every other logger as it was. */
  lemma RowsOnlyGrow(s: System, t: System, l: Logger)
    requires LoggerOk(s, l) && t.runId == s.runId && t.doc == s.doc
    requires s.history <= t.history && s.modelRows <= t.modelRows
    ensures LoggerOk(t, l)
  {
    if l.phase.Failed? {
      var r :| r in ModelRows(s.runId, l.batch) && Clashes(s.modelRows, r);
      var x :| x in s.modelRows && SameIdentity(x, r) && x != r;
      assert x in t.modelRows;
      assert Clashes(t.modelRows, r);
    }
  }

  predicate ModelRowFails(s: System, i: nat)
    requires Enabled(s, WriteRow(i))
  {
    var b, n := s.loggers[i].batch, s.loggers[i].phase.next;
    n >= |b.points| && Clashes(s.modelRows, ModelRows(s.runId, b)[n - |b.points|])
  }

  lemma WrittenEffect(s: System, i: nat)
    requires Enabled(s, WriteRow(i))
    ensures var t, l := Written(s, i), s.loggers[i];
            var n := l.phase.next;
            && t == s.(history := t.history, modelRows := t.modelRows, loggers := t.loggers)
            && t.loggers == s.loggers[i := l.(phase := if ModelRowFails(s, i) then Failed
                else PhaseAfter(s, l.batch, n + 1))]
            && t.history == (if n < |l.batch.points| then s.history + {l.batch.points[n].metric} else s.history)
            && t.modelRows == (if n < |l.batch.points| || ModelRowFails(s, i) then s.modelRows
                               else s.modelRows + {ModelRows(s.runId, l.batch)[n - |l.batch.points|]})
  {}

  /** The logger that has just written a row. */
  lemma WriterStaysOk(s: System, t: System, l: Logger, l': Logger)
    requires LoggerOk(s, l) && l.phase.Writing? && t.runId == s.runId && t.doc == s.doc
    requires l' == l.(phase := PhaseAfter(s, l.batch, l.phase.next + 1))
    requires s.history <= t.history && s.modelRows <= t.modelRows
    requires var n := l.phase.next;
             if n < |l.batch.points| then l.batch.points[n].metric in t.history
             else ModelRows(s.runId, l.batch)[n - |l.batch.points|] in t.modelRows
    ensures LoggerOk(t, l')
  {
    var n, k := l.phase.next, |l.batch.points|;
    assert Reached(t, l') == n + 1 && Reached(s, l) == n;
    forall j | 0 <= j < |ModelRows(s.runId, l.batch)| && k + j < n + 1
        ensures ModelRows(s.runId, l.batch)[j] in t.modelRows {
      if k + j == n { assert j == n - k; }
    }
  }

  /** The logger whose model row has just been rejected. */
  lemma FailureStaysOk(s: System, l: Logger, r: ModelRow)
    requires LoggerOk(s, l) && l.phase.Writing? && l.phase.next >= |l.batch.points|
    requires r in ModelRows(s.runId, l.batch) && Clashes(s.modelRows, r)
    ensures LoggerOk(s, l.(phase := Failed))
  {}

  lemma WriteKeepsLoggers(s: System, i: nat)
    requires Enabled(s, WriteRow(i)) && forall j :: 0 <= j < |s.loggers| ==> LoggerOk(s, s.loggers[j])
    ensures var t := Written(s, i); forall j :: 0 <= j < |t.loggers| ==> LoggerOk(t, t.loggers[j])
  {
    var t, l := Written(s, i), s.loggers[i];
    WrittenEffect(s, i);
    forall j | 0 <= j < |t.loggers| ensures LoggerOk(t, t.loggers[j]) {
      if j != i {
        RowsOnlyGrow(s, t, s.loggers[j]);
      } else if ModelRowFails(s, i) {
        FailureStaysOk(s, l, ModelRows(s.runId, l.batch)[l.phase.next - |l.batch.points|]);
        RowsOnlyGrow(s, t, l.(phase := Failed));
      } else {
        WriterStaysOk(s, t, l, t.loggers[i]);
      }
    }
  }

  lemma WriteKeepsInv(s: System, i: nat)
    requires Inv(s) && Enabled(s, WriteRow(i))
    ensures Inv(Apply(s, WriteRow(i)))
  {
    var t, l := Written(s, i), s.loggers[i];
    WriteKeepsLoggers(s, i);
    WrittenEffect(s, i);
    if l.phase.next >= |l.batch.points| {
      OneMoreRow(s.modelRows, ModelRows(s.runId, l.batch)[l.phase.next - |l.batch.points|]);
    }
    AcceptedStays(s, i);
  }

  lemma AcceptedStays(s: System, i: nat)
    requires AllAccepted(s) && Enabled(s, WriteRow(i))
    ensures AllAccepted(Written(s, i))
  {
    var t, b := Written(s, i), s.loggers[i].batch;
    WrittenEffect(s, i);
    forall m | m in t.doc.metrics ensures exists j: nat :: Accepted(t, j, m) {
      var j: nat :| Accepted(s, j, m);
      assert Accepted(t, j, m);
    }
    forall m | m in t.history ensures exists j: nat :: Accepted(t, j, m) {
      if m in s.history {
        var j: nat :| Accepted(s, j, m);
        assert Accepted(t, j, m);
      } else {
        assert Metrics(b)[s.loggers[i].phase.next] == m;
        assert Accepted(t, i, m);
      }
    }
  }

  lemma StepKeepsInv(s: System, step: Step)
    requires Inv(s) && Enabled(s, step)
    ensures Inv(Apply(s, step))
  {
    match step
    case Update(i) => UpdateKeepsInv(s, i);
    case WriteRow(i) => WriteKeepsInv(s, i);
    case SetLifecycle(stage) =>
      var t := Apply(s, step);
      assert forall i: nat, m :: Accepted(s, i, m) ==> Accepted(t, i, m);
      assert forall i :: 0 <= i < |s.loggers| ==> LoggerOk(s, s.loggers[i]) ==> LoggerOk(t, t.loggers[i]);
  }

  lemma {:induction false} RunKeepsInv(run: seq<System>, steps: seq<Step>, n: nat)
    requires IsRun(run, steps) && n < |run|
    ensures Inv(run[n])
  {
    if n > 0 {
      RunKeepsInv(run, steps, n - 1);
      StepKeepsInv(run[n - 1], steps[n - 1]);
    }
  }

  // ---------- what callers can rely on ----------

  /** At all times every history row is outranked by nothing but covered by the cache entry of its
      key, and rows are only ever written for batches whose document update was accepted. */
  lemma HistoryIsAlwaysDominated(run: seq<System>, steps: seq<Step>, n: nat, h: Metric)
    requires IsRun(run, steps) && n < |run| && h in run[n].history
    ensures OnePerKey(run[n].doc.metrics) && Dominated(run[n].doc.metrics, h)
    ensures exists i: nat :: Accepted(run[n], i, h)
  {
    RunKeepsInv(run, steps, n);
    var i: nat :| Accepted(run[n], i, h);
    assert LoggerOk(run[n], run[n].loggers[i]);
  }

  /** Once all calls have ended, also those that failed among their model rows, the embedded metrics are
      exactly the history's maxima. */
  lemma QuiescentCacheIsMaximum(run: seq<System>, steps: seq<Step>)
    requires IsRun(run, steps) && Quiescent(run[|steps|])
    ensures CacheIsMaximum(run[|steps|].doc.metrics, run[|steps|].history)
    ensures forall h <- run[|steps|].history ::
              exists e <- run[|steps|].doc.metrics :: e in run[|steps|].history && e.k == h.k && AtLeast(e, h)
  {
    var s := run[|steps|];
    RunKeepsInv(run, steps, |steps|);
    forall m | m in s.doc.metrics ensures m in s.history {
      var i: nat :| Accepted(s, i, m);
      EndedCallWroteItsRows(s, i, m);
    }
    forall h | h in s.history
      ensures Dominated(s.doc.metrics, h)
      ensures exists e <- s.doc.metrics :: e in s.history && e.k == h.k && AtLeast(e, h)
    {
      HistoryIsAlwaysDominated(run, steps, |steps|, h);
      var e :| e in s.doc.metrics && e.k == h.k && !Outranks(h, e);
      AtLeastMeaning(e, h);
    }
  }

  lemma EndedCallWroteItsRows(s: System, i: nat, m: Metric)
    requires Inv(s) && Accepted(s, i, m) && Ended(s.loggers[i])
    ensures m in s.history
  {
    var b := s.loggers[i].batch;
    assert LoggerOk(s, s.loggers[i]);
    var n :| 0 <= n < |Metrics(b)| && Metrics(b)[n] == m;
    assert b.points[n].metric == m;
  }

  /** A call whose update was accepted has failed exactly if its model rows contradict the stored ones,
      by now and for ever: which calls fail can be read off the final rows. */
  lemma FailuresAreContradictions(run: seq<System>, steps: seq<Step>, n: nat, i: nat)
    requires IsRun(run, steps) && n < |run| && i < |run[n].loggers|
    requires run[n].loggers[i].phase.Done? || run[n].loggers[i].phase.Failed?
    ensures var s := run[n];
            s.loggers[i].phase.Failed? <==> !Consistent(s.modelRows + SetOf(ModelRows(s.runId, s.loggers[i].batch)))
  {
    var s := run[n];
    var rows := ModelRows(s.runId, s.loggers[i].batch);
    RunKeepsInv(run, steps, n);
    assert LoggerOk(s, s.loggers[i]);
    if s.loggers[i].phase.Failed? {
      var r :| r in rows && Clashes(s.modelRows, r);
      var x :| x in s.modelRows && SameIdentity(x, r) && x != r;
      assert x in s.modelRows + SetOf(rows) && r in s.modelRows + SetOf(rows);
    } else {
      assert SetOf(rows) <= s.modelRows by {
        forall r | r in SetOf(rows) ensures r in s.modelRows {
          var k :| 0 <= k < |rows| && rows[k] == r;
        }
      }
      assert s.modelRows + SetOf(rows) == s.modelRows;
    }
  }

  /** The cache does not depend on batching or order: with the same history, two caches have the
      same keys, and entries of a key have the same rank. */
  lemma CacheIsDetermined(a: seq<Metric>, b: seq<Metric>, history: set<Metric>, e: Metric)
    requires CacheIsMaximum(a, history) && CacheIsMaximum(b, history) && e in a
    ensures exists f <- b :: f.k == e.k && SameRank(e, f)
  {
    assert Dominated(b, e);
    var f :| f in b && f.k == e.k && !Outranks(e, f);
    assert Dominated(a, f);
    var g :| g in a && g.k == f.k && !Outranks(f, g);
    FindIsTheEntry(a, e.k);
  }

  /** Replaying the batch of a call that completed, or failed among its model rows, changes neither the
      metrics nor the run's history. */
  lemma ReplayIsANoOp(run: seq<System>, steps: seq<Step>, n: nat, i: nat)
    requires IsRun(run, steps) && n < |run| && i < |run[n].loggers|
    requires run[n].loggers[i].phase.Done? || run[n].loggers[i].phase.Failed?
    ensures UpdateRun(run[n].doc, run[n].loggers[i].batch).metrics == run[n].doc.metrics
    ensures forall m <- Metrics(run[n].loggers[i].batch) :: m in run[n].history
  {
    RunKeepsInv(run, steps, n);
    assert LoggerOk(run[n], run[n].loggers[i]);
    ReplayChangesNothing(run[n].doc.metrics, Metrics(run[n].loggers[i].batch));
    forall m | m in Metrics(run[n].loggers[i].batch) ensures m in run[n].history {
      assert Accepted(run[n], i, m);
      EndedCallWroteItsRows(run[n], i, m);
    }
  }

  /** A stored parameter keeps its value. */
  ghost predicate KeepsParam(d: RunDoc, e: RunDoc, k: string) {
    k in AsMap(d.params) ==> k in AsMap(e.params) && AsMap(e.params)[k] == AsMap(d.params)[k]
  }

  lemma StepKeepsParams(s: System, step: Step, k: string)
    requires UniqueKeys(s.doc.params) && Enabled(s, step)
    ensures KeepsParam(s.doc, Apply(s, step).doc, k)
  {
    if step.Update? {
      ParamsOnlyGrow(s.doc, s.loggers[step.i].batch);
    } else {
      assert Apply(s, step).doc.params == s.doc.params;
    }
  }

  /** In every run a stored parameter keeps its value. */
  lemma ParamsNeverChange(run: seq<System>, steps: seq<Step>, m: nat, n: nat, k: string)
    requires IsRun(run, steps) && m <= n < |run| && k in AsMap(run[m].doc.params)
    ensures k in AsMap(run[n].doc.params) && AsMap(run[n].doc.params)[k] == AsMap(run[m].doc.params)[k]
  {
    forall i: nat | i < |steps| ensures KeepsParam(run[i].doc, run[i + 1].doc, k) {
      RunKeepsInv(run, steps, i);
      StepKeepsParams(run[i], steps[i], k);
    }
    ParamsKeptAlong(run, m, n, k);
  }

  lemma {:induction false} ParamsKeptAlong(run: seq<System>, m: nat, n: nat, k: string)
    requires m <= n < |run| && forall i: nat :: i + 1 < |run| ==> KeepsParam(run[i].doc, run[i + 1].doc, k)
    ensures KeepsParam(run[m].doc, run[n].doc, k)
    decreases n
  {
    if m < n { ParamsKeptAlong(run, m, n - 1, k); }
  }
}
