/** log_batch: one atomic update of the run document, then an ordered bulk with one upsert per metric
    history row of the run and one per row of a logged model. */
module RunBatches {
  import opened Wrappers
  import opened ArrayOperations

  // ---------- documents ----------

  /** A stored metric value; infinities were replaced by the largest finite floats. */
  datatype Value = NaN | Number(x: real)

  datatype Metric = Metric(k: string, v: Value, timestamp: int, step: int)

  datatype Lifecycle = Active | Deleted

  const RUN_NAME := "mlflow.runName"

  datatype RunDoc = RunDoc(
    lifecycle: Lifecycle,
    name: string,
    params: seq<Entry<string>>,
    tags: seq<Entry<string>>,
    metrics: seq<Metric>)

  /** The logged model a metric is also recorded for, and the dataset it was measured on. */
  datatype Origin = Origin(modelId: string, datasetName: Option<string>, datasetDigest: Option<string>)

  /** A metric as a caller sends it. */
  datatype Point = Point(metric: Metric, origin: Option<Origin>)

  datatype Batch = Batch(points: seq<Point>, params: seq<Entry<string>>, tags: seq<Entry<string>>)

  function Metrics(b: Batch): seq<Metric> {
    seq(|b.points|, i requires 0 <= i < |b.points| => b.points[i].metric)
  }

  // ---------- the latest-metric fold ----------

  /** MLflow ranks NaN as zero. */
  function Magnitude(v: Value): real {
    match v
    case NaN => 0.0
    case Number(x) => x
  }

  /** `$gt` on the arrays [step, timestamp, value]. */
  predicate Outranks(a: Metric, b: Metric) {
    || a.step > b.step
    || (a.step == b.step && a.timestamp > b.timestamp)
    || (a.step == b.step && a.timestamp == b.timestamp && Magnitude(a.v) > Magnitude(b.v))
  }

  predicate SameRank(a: Metric, b: Metric) {
    !Outranks(a, b) && !Outranks(b, a)
  }

  function Find(metrics: seq<Metric>, k: string): Option<Metric> {
    if metrics == [] then None
    else if metrics[0].k == k then Some(metrics[0])
    else Find(metrics[1..], k)
  }

  function Others(metrics: seq<Metric>, k: string): (r: seq<Metric>)
    ensures forall m :: m in r <==> m in metrics && m.k != k
  {
    if metrics == [] then []
    else if metrics[0].k == k then Others(metrics[1..], k)
    else [metrics[0]] + Others(metrics[1..], k)
  }

  /** One `$reduce` step: a metric replaces its key's entry only if it outranks it. */
  function Latest1(stored: seq<Metric>, m: Metric): seq<Metric> {
    var current := Find(stored, m.k);
    if current.None? || Outranks(m, current.value) then Others(stored, m.k) + [m] else stored
  }

  /** _latest_metrics_expression */
  function Latest(stored: seq<Metric>, batch: seq<Metric>): seq<Metric>
    decreases |batch|
  {
    if batch == [] then stored else Latest(Latest1(stored, batch[0]), batch[1..])
  }

  // ---------- the guarded update ----------

  predicate Conflicts(stored: seq<Entry<string>>, p: Entry<string>) {
    exists i :: 0 <= i < |stored| && stored[i].k == p.k && stored[i].v != p.v
  }

  /** The pipeline's condition: active, and no stored parameter contradicts one of the batch. */
  predicate Guard(d: RunDoc, params: seq<Entry<string>>) {
    d.lifecycle == Active && forall i :: 0 <= i < |params| ==> !Conflicts(d.params, params[i])
  }

  function Lookup(entries: seq<Entry<string>>, k: string): Option<string> {
    if entries == [] then None
    else if entries[|entries| - 1].k == k then Some(entries[|entries| - 1].v)
    else Lookup(entries[..|entries| - 1], k)
  }

  /** The `$replaceWith` of log_batch. */
  function UpdateRun(d: RunDoc, b: Batch): RunDoc {
    if !Guard(d, b.params) then d
    else
      var name := Lookup(b.tags, RUN_NAME);
      d.(metrics := Latest(d.metrics, Metrics(b)),
         params := Merge(d.params, LastOfEach(b.params)),
         tags := Merge(d.tags, LastOfEach(b.tags)),
         name := if name.Some? then name.value else d.name)
  }

  // ---------- the latest-metric cache ----------

  ghost predicate OnePerKey(metrics: seq<Metric>) {
    forall i, j :: 0 <= i < j < |metrics| ==> metrics[i].k != metrics[j].k
  }

  /** Some entry of `m`'s key ranks at least as high as `m`. */
  ghost predicate Dominated(metrics: seq<Metric>, m: Metric) {
    exists e <- metrics :: e.k == m.k && !Outranks(m, e)
  }

  lemma {:induction false} FindIsTheEntry(metrics: seq<Metric>, k: string)
    ensures match Find(metrics, k)
            case None => forall m <- metrics :: m.k != k
            case Some(e) => e in metrics && e.k == k
    ensures OnePerKey(metrics) ==> forall m <- metrics | m.k == k :: Find(metrics, k) == Some(m)
  {
    if metrics != [] {
      FindIsTheEntry(metrics[1..], k);
    }
  }

  lemma {:induction false} OthersOnePerKey(metrics: seq<Metric>, k: string)
    requires OnePerKey(metrics)
    ensures OnePerKey(Others(metrics, k))
  {
    if metrics != [] {
      OthersOnePerKey(metrics[1..], k);
      forall m | m in Others(metrics[1..], k) ensures m.k != metrics[0].k {
        var i :| 0 <= i < |metrics| - 1 && metrics[1..][i] == m;
        assert metrics[i + 1] == m;
      }
    }
  }

  lemma Latest1Keeps(stored: seq<Metric>, m: Metric)
    requires OnePerKey(stored)
    ensures OnePerKey(Latest1(stored, m))
    ensures Dominated(Latest1(stored, m), m)
    ensures forall x | Dominated(stored, x) :: Dominated(Latest1(stored, m), x)
    ensures forall e <- Latest1(stored, m) :: e in stored || e == m
  {
    FindIsTheEntry(stored, m.k);
    OthersOnePerKey(stored, m.k);
    var r := Latest1(stored, m);
    forall x | Dominated(stored, x) ensures Dominated(r, x) {
      var e :| e in stored && e.k == x.k && !Outranks(x, e);
      if e in r {
      } else {
        assert m in r && Find(stored, m.k) == Some(e);
      }
    }
    if r == stored {
      assert Find(stored, m.k).value in r;
    } else {
      assert r[|r| - 1] == m;
    }
  }

  lemma {:induction false} LatestOnePerKey(stored: seq<Metric>, batch: seq<Metric>)
    requires OnePerKey(stored)
    ensures OnePerKey(Latest(stored, batch))
    decreases |batch|
  {
    if batch != [] {
      Latest1Keeps(stored, batch[0]);
      LatestOnePerKey(Latest1(stored, batch[0]), batch[1..]);
    }
  }

  lemma {:induction false} LatestDominates(stored: seq<Metric>, batch: seq<Metric>, x: Metric)
    requires OnePerKey(stored) && (Dominated(stored, x) || x in batch)
    ensures Dominated(Latest(stored, batch), x)
    decreases |batch|
  {
    if batch != [] {
      Latest1Keeps(stored, batch[0]);
      assert batch == [batch[0]] + batch[1..];
      LatestDominates(Latest1(stored, batch[0]), batch[1..], x);
    }
  }

  lemma {:induction false} LatestInventsNothing(stored: seq<Metric>, batch: seq<Metric>, e: Metric)
    requires OnePerKey(stored) && e in Latest(stored, batch)
    ensures e in stored || e in batch
    decreases |batch|
  {
    if batch != [] {
      Latest1Keeps(stored, batch[0]);
      LatestInventsNothing(Latest1(stored, batch[0]), batch[1..], e);
    }
  }

  /** After a batch every metric that was dominated still is, so is every metric of the batch, and
      no entry was invented. */
  lemma LatestKeeps(stored: seq<Metric>, batch: seq<Metric>)
    requires OnePerKey(stored)
    ensures OnePerKey(Latest(stored, batch))
    ensures forall x | Dominated(stored, x) || x in batch :: Dominated(Latest(stored, batch), x)
    ensures forall e <- Latest(stored, batch) :: e in stored || e in batch
  {
    LatestOnePerKey(stored, batch);
    forall x | Dominated(stored, x) || x in batch ensures Dominated(Latest(stored, batch), x) {
      LatestDominates(stored, batch, x);
    }
    forall e | e in Latest(stored, batch) ensures e in stored || e in batch {
      LatestInventsNothing(stored, batch, e);
    }
  }

  /** Replaying metrics that were merged before changes nothing, not even the array's order. */
  lemma {:induction false} ReplayChangesNothing(stored: seq<Metric>, batch: seq<Metric>)
    requires OnePerKey(stored) && forall m <- batch :: Dominated(stored, m)
    ensures Latest(stored, batch) == stored
  {
    if batch != [] {
      FindIsTheEntry(stored, batch[0].k);
      assert batch[0] in batch;
      ReplayChangesNothing(stored, batch[1..]);
    }
  }

  // ---------- parameters ----------

  lemma {:induction false} LookupIsAsMap(entries: seq<Entry<string>>, k: string)
    ensures Lookup(entries, k) == if k in AsMap(entries) then Some(AsMap(entries)[k]) else None
  {
    if entries != [] {
      LookupIsAsMap(entries[..|entries| - 1], k);
    }
  }

  /** Stored parameters are immutable: an accepted batch only adds keys. */
  lemma ParamsOnlyGrow(d: RunDoc, b: Batch)
    requires UniqueKeys(d.params)
    ensures UniqueKeys(UpdateRun(d, b).params)
    ensures forall k <- AsMap(d.params) ::
              k in AsMap(UpdateRun(d, b).params) && AsMap(UpdateRun(d, b).params)[k] == AsMap(d.params)[k]
  {
    if Guard(d, b.params) {
      var incoming := LastOfEach(b.params);
      LastOfEachAsMap(b.params);
      WritesKeepKeysUnique(d.params, incoming, "");
      MergeAsMap(d.params, incoming);
      forall k | k in AsMap(d.params) && k in AsMap(b.params) ensures AsMap(b.params)[k] == AsMap(d.params)[k] {
        var p := EntryOf(b.params, k);
        var q := EntryOf(d.params, k);
      }
    }
  }

  // ---------- what an accepted batch writes ----------

  /** At least as recent: the step decides, then the timestamp, then the value, NaN counting as zero. */
  predicate AtLeast(e: Metric, x: Metric) {
    || e.step > x.step
    || (e.step == x.step && e.timestamp > x.timestamp)
    || (e.step == x.step && e.timestamp == x.timestamp &&
          (if e.v.NaN? then 0.0 else e.v.x) >= (if x.v.NaN? then 0.0 else x.v.x))
  }

  lemma AtLeastMeaning(e: Metric, x: Metric)
    ensures AtLeast(e, x) <==> !Outranks(x, e)
  {}

  /** The last entry of a list with the key. */
  predicate IsLastWith(entries: seq<Entry<string>>, i: nat, k: string) {
    i < |entries| && entries[i].k == k && forall j :: i < j < |entries| ==> entries[j].k != k
  }

  /** `after` is `before` with the batch written into it: parameters and tags by key, the last value of a
      batch winning, the name from the run-name tag, and per key the most recent metric. */
  ghost predicate Applied(before: RunDoc, b: Batch, after: RunDoc) {
    && AsMap(after.params) == AsMap(before.params) + AsMap(b.params)
    && AsMap(after.tags) == AsMap(before.tags) + AsMap(b.tags)
    && (UniqueKeys(before.params) ==> UniqueKeys(after.params))
    && (UniqueKeys(before.tags) ==> UniqueKeys(after.tags))
    && (forall i: nat :: IsLastWith(b.tags, i, "mlflow.runName") ==> after.name == b.tags[i].v)
    && (!HasKey(b.tags, "mlflow.runName") ==> after.name == before.name)
    && after.lifecycle == before.lifecycle
    && (OnePerKey(before.metrics) ==> MostRecent(before.metrics, b, after.metrics))
  }

  /** One metric per key, each stored before or in the batch, and at least as recent as all of these. */
  ghost predicate MostRecent(before: seq<Metric>, b: Batch, after: seq<Metric>) {
    && OnePerKey(after)
    && (forall e <- after :: e in before || e in Metrics(b))
    && (forall x <- before :: exists e <- after :: e.k == x.k && AtLeast(e, x))
    && (forall x <- Metrics(b) :: exists e <- after :: e.k == x.k && AtLeast(e, x))
  }

  lemma MostRecentMeaning(before: seq<Metric>, b: Batch)
    requires OnePerKey(before)
    ensures MostRecent(before, b, Latest(before, Metrics(b)))
  {
    LatestKeeps(before, Metrics(b));
    var after := Latest(before, Metrics(b));
    forall x | x in before || x in Metrics(b) ensures exists e <- after :: e.k == x.k && AtLeast(e, x) {
      if x in before { assert !Outranks(x, x); }
      assert Dominated(after, x);
      var e :| e in after && e.k == x.k && !Outranks(x, e);
      AtLeastMeaning(e, x);
    }
  }

  lemma {:induction false} LookupIsLast(entries: seq<Entry<string>>, i: nat, k: string)
    requires IsLastWith(entries, i, k)
    ensures Lookup(entries, k) == Some(entries[i].v)
  {
    var n := |entries| - 1;
    if i < n {
      assert entries[n].k != k;
      LookupIsLast(entries[..n], i, k);
    }
  }

  lemma WritesMeaning(before: seq<Entry<string>>, batch: seq<Entry<string>>)
    ensures AsMap(Merge(before, LastOfEach(batch))) == AsMap(before) + AsMap(batch)
    ensures UniqueKeys(before) ==> UniqueKeys(Merge(before, LastOfEach(batch)))
  {
    LastOfEachAsMap(batch);
    MergeAsMap(before, LastOfEach(batch));
    if UniqueKeys(before) { WritesKeepKeysUnique(before, LastOfEach(batch), ""); }
  }

  lemma NameMeaning(d: RunDoc, b: Batch)
    requires Guard(d, b.params)
    ensures forall i: nat :: IsLastWith(b.tags, i, "mlflow.runName") ==> UpdateRun(d, b).name == b.tags[i].v
    ensures !HasKey(b.tags, "mlflow.runName") ==> UpdateRun(d, b).name == d.name
  {
    forall i: nat | IsLastWith(b.tags, i, "mlflow.runName") ensures UpdateRun(d, b).name == b.tags[i].v {
      LookupIsLast(b.tags, i, "mlflow.runName");
    }
    LookupIsAsMap(b.tags, "mlflow.runName");
    AsMapKeys(b.tags);
  }

  /** An update is accepted exactly if the run is active and no parameter of the batch has another value
      stored; then it writes the whole batch, otherwise nothing. */
  lemma UpdateMeaning(d: RunDoc, b: Batch)
    ensures Guard(d, b.params) <==>
              d.lifecycle == Active && forall p <- b.params, q <- d.params :: p.k == q.k ==> p.v == q.v
    ensures if Guard(d, b.params) then Applied(d, b, UpdateRun(d, b)) else UpdateRun(d, b) == d
  {
    if Guard(d, b.params) {
      forall p, q | p in b.params && q in d.params && p.k == q.k ensures p.v == q.v {
        var i :| 0 <= i < |b.params| && b.params[i] == p;
        assert !Conflicts(d.params, b.params[i]);
      }
      WritesMeaning(d.params, b.params);
      WritesMeaning(d.tags, b.tags);
      NameMeaning(d, b);
      if OnePerKey(d.metrics) { MostRecentMeaning(d.metrics, b); }
    } else if d.lifecycle == Active {
      var i :| 0 <= i < |b.params| && Conflicts(d.params, b.params[i]);
      var j :| 0 <= j < |d.params| && d.params[j].k == b.params[i].k && d.params[j].v != b.params[i].v;
      assert b.params[i] in b.params && d.params[j] in d.params;
    }
  }

  // ---------- rows of logged models ----------

  /** A metric history row in the model scope. */
  datatype ModelRow = ModelRow(runId: string, metric: Metric, origin: Origin)

  function RowsOf(runId: string, points: seq<Point>): seq<ModelRow> {
    if points == [] then []
    else
      var init, last := RowsOf(runId, points[..|points| - 1]), points[|points| - 1];
      if last.origin.Some? then init + [ModelRow(runId, last.metric, last.origin.value)] else init
  }

  function ModelRows(runId: string, b: Batch): seq<ModelRow> {
    RowsOf(runId, b.points)
  }

  /** The unique index of the model scope; it covers neither the value nor the dataset. */
  predicate SameIdentity(a: ModelRow, b: ModelRow) {
    && a.origin.modelId == b.origin.modelId && a.runId == b.runId
    && a.metric.k == b.metric.k && a.metric.timestamp == b.metric.timestamp && a.metric.step == b.metric.step
  }

  ghost predicate Consistent(rows: set<ModelRow>) {
    forall a, b | a in rows && b in rows && SameIdentity(a, b) :: a == b
  }

  /** The model rows of a batch are those of its metrics with a model id, and no other. */
  lemma {:induction false} RowsMeaning(runId: string, points: seq<Point>, r: ModelRow)
    ensures r in RowsOf(runId, points) <==>
              exists p <- points :: p.origin == Some(r.origin) && p.metric == r.metric && r.runId == runId
  {
    if points != [] {
      var init, last := points[..|points| - 1], points[|points| - 1];
      assert points == init + [last];
      RowsMeaning(runId, init, r);
      if r in RowsOf(runId, points) && r !in RowsOf(runId, init) { assert last in points; }
    }
  }

  /** Rows fit together if no two of them differ only in value or dataset. */
  lemma ConsistentMeaning(rows: set<ModelRow>)
    ensures Consistent(rows) <==>
              forall a, b | a in rows && b in rows && a.runId == b.runId && a.origin.modelId == b.origin.modelId &&
                            a.metric.k == b.metric.k && a.metric.timestamp == b.metric.timestamp &&
                            a.metric.step == b.metric.step :: a.metric.v == b.metric.v && a.origin == b.origin
  {
    if Consistent(rows) {
      forall a, b | a in rows && b in rows && a.runId == b.runId && a.origin.modelId == b.origin.modelId &&
                    a.metric.k == b.metric.k && a.metric.timestamp == b.metric.timestamp &&
                        a.metric.step == b.metric.step
        ensures a.metric.v == b.metric.v && a.origin == b.origin
      {
        assert SameIdentity(a, b);
      }
    }
  }

  /** An upsert that matches no stored row and whose insert the index rejects. */
  predicate Clashes(stored: set<ModelRow>, r: ModelRow) {
    exists x <- stored :: SameIdentity(x, r) && x != r
  }

  ghost function SetOf(rows: seq<ModelRow>): set<ModelRow> {
    set r <- rows
  }

  /** The model rows of an ordered bulk; the first clash ends it. */
  function WriteRows(stored: set<ModelRow>, rows: seq<ModelRow>): (set<ModelRow>, bool) {
    if rows == [] then (stored, true)
    else
      var (written, ok) := WriteRows(stored, rows[..|rows| - 1]);
      var last := rows[|rows| - 1];
      if !ok || Clashes(written, last) then (written, false) else (written + {last}, true)
  }

  /** The bulk succeeds exactly if stored and new rows together have no two different rows of one
      identity; the stored rows stay, and never become inconsistent. */
  lemma {:induction false} WriteRowsMeaning(stored: set<ModelRow>, rows: seq<ModelRow>)
    requires Consistent(stored)
    ensures var (written, ok) := WriteRows(stored, rows);
            && (ok <==> Consistent(stored + SetOf(rows)))
            && (ok ==> written == stored + SetOf(rows))
            && stored <= written <= stored + SetOf(rows) && Consistent(written)
  {
    if rows == [] {
      assert SetOf(rows) == {};
      assert stored + SetOf(rows) == stored;
    } else {
      var init, last := rows[..|rows| - 1], rows[|rows| - 1];
      WriteRowsMeaning(stored, init);
      assert rows == init + [last];
      assert stored + SetOf(rows) == (stored + SetOf(init)) + {last};
      OneMoreRow(stored + SetOf(init), last);
    }
  }

  lemma OneMoreRow(rows: set<ModelRow>, r: ModelRow)
    ensures Consistent(rows + {r}) <==> Consistent(rows) && !Clashes(rows, r)
  {
    if Clashes(rows, r) {
      var x :| x in rows && SameIdentity(x, r) && x != r;
      assert x in rows + {r} && r in rows + {r};
    }
    if Consistent(rows + {r}) {
      forall a, b | a in rows && b in rows && SameIdentity(a, b) ensures a == b {
        assert a in rows + {r} && b in rows + {r};
      }
    }
  }

  // ---------- a whole call ----------

  datatype Db = Db(runs: map<string, RunDoc>, history: set<(string, Metric)>, modelRows: set<ModelRow>)

  predicate Accepts(db: Db, runId: string, b: Batch) {
    runId in db.runs && Guard(db.runs[runId], b.params)
  }

  ghost predicate Fits(db: Db, runId: string, b: Batch) {
    Consistent(db.modelRows + SetOf(ModelRows(runId, b)))
  }

  /** What a call leaves: nothing changes unless the update is accepted, and then the document, the
      rows of the run and the model rows up to a clash are written. */
  ghost function After(db: Db, runId: string, b: Batch): Db {
    if !Accepts(db, runId, b) then db
    else Db(db.runs[runId := UpdateRun(db.runs[runId], b)],
            db.history + set m <- Metrics(b) :: (runId, m),
            WriteRows(db.modelRows, ModelRows(runId, b)).0)
  }

  /** A batch without model ids always fits. A call that is accepted leaves the store as it was exactly
      if all it writes was already there, as in a replay; so one whose model rows do not fit ends in an
      error with nothing changed only if the document, the run's rows and the model rows before the
      clash were there before. */
  lemma ErrorsLeaveNothingExactly(db: Db, runId: string, b: Batch)
    requires Consistent(db.modelRows)
    ensures (forall p <- b.points :: p.origin.None?) ==> Fits(db, runId, b)
    ensures After(db, runId, b) == db <==>
              !Accepts(db, runId, b) ||
              (&& UpdateRun(db.runs[runId], b) == db.runs[runId]
               && (forall m <- Metrics(b) :: (runId, m) in db.history)
               && WriteRows(db.modelRows, ModelRows(runId, b)).0 == db.modelRows)
  {
    if forall p <- b.points :: p.origin.None? {
      NoModelRows(runId, b.points);
      assert db.modelRows + SetOf([]) == db.modelRows;
    }
    if Accepts(db, runId, b) {
      forall m | m in Metrics(b) && (runId, m) !in db.history ensures After(db, runId, b) != db {
        assert (runId, m) in After(db, runId, b).history;
      }
      if forall m <- Metrics(b) :: (runId, m) in db.history {
        assert After(db, runId, b).history == db.history;
      }
      assert After(db, runId, b).runs == db.runs ==> After(db, runId, b).runs[runId] == db.runs[runId];
    }
  }

  lemma {:induction false} NoModelRows(runId: string, points: seq<Point>)
    requires forall p <- points :: p.origin.None?
    ensures RowsOf(runId, points) == []
  {
    if points != [] {
      assert forall p <- points[..|points| - 1] :: p in points;
      NoModelRows(runId, points[..|points| - 1]);
    }
  }

  lemma {:induction false} HasRow(runId: string, points: seq<Point>, p: Point)
    requires p in points && p.origin.Some?
    ensures ModelRow(runId, p.metric, p.origin.value) in RowsOf(runId, points)
  {
    var init, last := points[..|points| - 1], points[|points| - 1];
    assert points == init + [last];
    if p in init { HasRow(runId, init, p); }
  }

  /** A batch with two values for one point of a logged model never fits: if its update is accepted, the
      call fails although both metrics are in the run's history, and a new metric has changed the store. */
  lemma TwoValuesBreakAllOrNothing(db: Db, runId: string, b: Batch, p: Point, q: Point)
    requires Consistent(db.modelRows) && p in b.points && q in b.points && Accepts(db, runId, b)
    requires p.origin.Some? && q.origin == p.origin && q.metric == p.metric.(v := q.metric.v) &&
            q.metric.v != p.metric.v
    ensures !Fits(db, runId, b)
    ensures (runId, p.metric) in After(db, runId, b).history && (runId, q.metric) in After(db, runId, b).history
    ensures (runId, p.metric) !in db.history ==> After(db, runId, b) != db
  {
    HasRow(runId, b.points, p);
    HasRow(runId, b.points, q);
    var x, y := ModelRow(runId, p.metric, p.origin.value), ModelRow(runId, q.metric, q.origin.value);
    assert SameIdentity(x, y) && x in SetOf(ModelRows(runId, b)) && y in SetOf(ModelRows(runId, b));
    forall r | r in b.points ensures r.metric in Metrics(b) {
      var i :| 0 <= i < |b.points| && b.points[i] == r;
      assert Metrics(b)[i] == r.metric;
    }
  }

  // ---------- the repository ----------

  datatype LogResult =
    | Logged
    | NotFound
    | NotActive
    | ParamConflict(key: string, oldValue: string, newValue: string)
    | RowConflict

  /** Parameter `i` is the first of the batch that contradicts the previous document. */
  ghost predicate IsFirstConflict(previous: seq<Entry<string>>, params: seq<Entry<string>>, i: nat) {
    && i < |params| && Conflicts(previous, params[i])
    && forall j :: 0 <= j < i ==> !Conflicts(previous, params[j])
  }

  class RunRepository {
    var runs: map<string, RunDoc>
    var history: set<(string, Metric)>
    var modelRows: set<ModelRow>

    ghost predicate Valid()
      reads this
    {
      && Consistent(modelRows)
      && forall id <- runs :: UniqueKeys(runs[id].params) && OnePerKey(runs[id].metrics)
    }

    function State(): Db
      reads this
    {
      Db(runs, history, modelRows)
    }

    constructor ()
      ensures Valid() && State() == Db(map[], {}, {})
    {
      runs, history, modelRows := map[], {}, {};
    }

    /** log_batch. The update reports the previous document; the loop re-derives from it whether the
        pipeline's guard held. The two agree, so those errors mean that nothing was written at all. A
        bulk that clashes in the model scope is the one error that comes after writing. */
    method LogBatch(runId: string, b: Batch) returns (result: LogResult)
      requires Valid()
      modifies this
      ensures Valid() && State() == After(old(State()), runId, b)
      ensures result.NotFound? <==> runId !in old(runs)
      ensures result.NotActive? <==> runId in old(runs) && old(runs)[runId].lifecycle != Active
      ensures result.Logged? <==> Accepts(old(State()), runId, b) && Fits(old(State()), runId, b)
      ensures result.RowConflict? <==> Accepts(old(State()), runId, b) && !Fits(old(State()), runId, b)
      ensures result.ParamConflict? ==>
                exists i: nat :: IsFirstConflict(old(runs)[runId].params, b.params, i) &&
                  result.key == b.params[i].k && result.newValue == b.params[i].v &&
                  Entry(result.key, result.oldValue) in old(runs)[runId].params
      ensures !result.Logged? && !result.RowConflict? ==> State() == old(State())
      ensures result.Logged? || result.RowConflict? ==>
                && runId in runs && Applied(old(runs)[runId], b, runs[runId])
                && SameBut(old(runs), runs, {runId})
                && (forall id, m :: (id, m) in history <==> (id, m) in old(history) || (id == runId && m in Metrics(b)))
      ensures result.Logged? ==> modelRows == old(modelRows) + SetOf(ModelRows(runId, b))
    {
      if runId !in runs { return NotFound; }
      var previous := runs[runId];
      runs := runs[runId := UpdateRun(previous, b)];
      ParamsOnlyGrow(previous, b);
      LatestKeeps(previous.metrics, Metrics(b));
      UpdateMeaning(previous, b);
      if previous.lifecycle != Active { return NotActive; }

      var conflict := FirstConflict(previous.params, b.params);
      if conflict.Some? {
        var (key, oldValue, newValue) := conflict.value;
        assert runs == old(runs);
        return ParamConflict(key, oldValue, newValue);
      }
      assert Guard(previous, b.params);
      WriteRowsMeaning(modelRows, ModelRows(runId, b));
      InsertRows(runId, Metrics(b));
      var ok := InsertModelRows(ModelRows(runId, b));
      return if ok then Logged else RowConflict;
    }

    /** The run's rows of the bulk, one after the other; their index covers every field. */
    method InsertRows(runId: string, metrics: seq<Metric>)
      modifies this`history
      ensures history == old(history) + set m <- metrics :: (runId, m)
    {
      for i := 0 to |metrics|
        invariant history == old(history) + set m <- metrics[..i] :: (runId, m)
      {
        assert metrics[..i + 1] == metrics[..i] + [metrics[i]];
        history := history + {(runId, metrics[i])};
      }
      assert metrics[..|metrics|] == metrics;
    }

    /** The model rows of the bulk, after all rows of the run. */
    method InsertModelRows(rows: seq<ModelRow>) returns (ok: bool)
      modifies this`modelRows
      ensures (modelRows, ok) == WriteRows(old(modelRows), rows)
    {
      for i := 0 to |rows|
        invariant (modelRows, true) == WriteRows(old(modelRows), rows[..i])
      {
        assert rows[..i + 1][..i] == rows[..i];
        if Clashes(modelRows, rows[i]) {
          StopsAt(old(modelRows), rows, i + 1);
          return false;
        }
        modelRows := modelRows + {rows[i]};
      }
      assert rows[..|rows|] == rows;
      ok := true;
    }
  }

  /** An ordered bulk that has stopped stays where it is. */
  lemma {:induction false} StopsAt(stored: set<ModelRow>, rows: seq<ModelRow>, n: nat)
    requires n <= |rows| && !WriteRows(stored, rows[..n]).1
    ensures WriteRows(stored, rows) == WriteRows(stored, rows[..n])
  {
    if n < |rows| {
      var init := rows[..|rows| - 1];
      assert init[..n] == rows[..n];
      StopsAt(stored, init, n);
    } else {
      assert rows[..n] == rows;
    }
  }

  /** The Python post-check: the first batch parameter that contradicts a previous one. */
  method FirstConflict(previous: seq<Entry<string>>, params: seq<Entry<string>>)
    returns (conflict: Option<(string, string, string)>)
    requires UniqueKeys(previous)
    ensures conflict.None? <==> forall i :: 0 <= i < |params| ==> !Conflicts(previous, params[i])
    ensures conflict.Some? ==>
              var (key, oldValue, newValue) := conflict.value;
              exists i: nat :: IsFirstConflict(previous, params, i) &&
                key == params[i].k && newValue == params[i].v && Entry(key, oldValue) in previous
  {
    for i := 0 to |params|
      invariant forall j :: 0 <= j < i ==> !Conflicts(previous, params[j])
    {
      var p := params[i];
      LookupIsAsMap(previous, p.k);
      var oldValue := Lookup(previous, p.k);
      if oldValue.Some? {
        var j := EntryOf(previous, p.k);
        if oldValue.value != p.v {
          assert IsFirstConflict(previous, params, i);
          return Some((p.k, oldValue.value, p.v));
        }
      } else {
        AsMapKeys(previous);
      }
    }
    return None;
  }
}
