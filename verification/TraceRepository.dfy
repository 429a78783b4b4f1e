/** The trace repository: three collections, and the writes that touch them. */
module TraceRepository {
  import opened Wrappers
  import opened ArrayOperations
  import opened SpanSummaries
  import opened TraceDocuments
  import opened Assessments
  import opened SpanDelivery

  const ATTEMPTS := 3

  datatype UpdateResult = Updated | NotFound | WriteConflict

  // ---------- deletion, with crashes ----------

  datatype Db = Db(
    traces: map<nat, TraceDoc>,
    spans: map<(nat, nat), SpanRecord>,
    assessments: map<string, Assessment>)

  /** How far a call got: all its deletes, or a `delete_many` left some of its documents behind. */
  datatype Reach =
    | Completed
    | InSpans(spansLeft: set<(nat, nat)>)
    | InAssessments(assessmentsLeft: set<string>)
    | InTraces(tracesLeft: set<nat>)

  /** The three `delete_many` calls; a document named as left is not deleted. */
  function KeepSpans(spans: map<(nat, nat), SpanRecord>, selected: set<nat>, left: set<(nat, nat)>)
      : map<(nat, nat), SpanRecord>
  {
    map k <- spans | k.0 !in selected || k in left :: spans[k]
  }

  function KeepAssessments(assessments: map<string, Assessment>, selected: set<nat>, left: set<string>)
      : map<string, Assessment>
  {
    map k <- assessments | assessments[k].traceId !in selected || k in left :: assessments[k]
  }

  function KeepTraces(traces: map<nat, TraceDoc>, selected: set<nat>, experimentId: string, left: set<nat>)
      : map<nat, TraceDoc>
  {
    map t <- traces | !(t in selected && traces[t].experimentId == experimentId) || t in left :: traces[t]
  }

  /** A deletion that was not interrupted. */
  function DeleteAll(db: Db, selected: set<nat>, experimentId: string): Db {
    Db(KeepTraces(db.traces, selected, experimentId, {}), KeepSpans(db.spans, selected, {}),
       KeepAssessments(db.assessments, selected, {}))
  }

  predicate Submap<K, V(==)>(a: map<K, V>, b: map<K, V>) {
    forall k <- a :: k in b && a[k] == b[k]
  }

  /** Any state a deletion can leave when it is cut off: documents of the selected traces are missing,
      no assessment before all their spans, and no trace before all their spans and assessments. */
  ghost predicate PartlyDeleted(db: Db, crashed: Db, selected: set<nat>, experimentId: string) {
    && Submap(crashed.traces, db.traces) && Submap(crashed.spans, db.spans)
    && Submap(crashed.assessments, db.assessments)
    && (forall k <- db.spans :: k in crashed.spans || k.0 in selected)
    && (forall k <- db.assessments :: k in crashed.assessments || db.assessments[k].traceId in selected)
    && (forall t <- db.traces :: t in crashed.traces || (t in selected && db.traces[t].experimentId == experimentId))
    && (crashed.assessments != db.assessments || crashed.traces != db.traces ==>
        forall k <- crashed.spans :: k.0 !in selected)
    && (crashed.traces != db.traces ==> forall k <- crashed.assessments :: crashed.assessments[k].traceId !in selected)
  }

  /** Which traces a delete call is about: an experiment, and an age bound or a list of ids. */
  datatype DeleteQuery = DeleteQuery(experimentId: string, maxTimestamp: Option<int>, ids: Option<set<nat>>)

  predicate Matches(q: DeleteQuery, t: nat, d: TraceDoc) {
    && d.experimentId == q.experimentId
    && (q.maxTimestamp.Some? ==> d.requestTime <= q.maxTimestamp.value)
    && (q.ids.Some? && q.ids.value != {} ==> t in q.ids.value)
  }

  function Matching(q: DeleteQuery, traces: map<nat, TraceDoc>): set<nat> {
    set t <- traces | Matches(q, t, traces[t])
  }

  ghost predicate NoOrphans(db: Db) {
    && (forall k <- db.spans :: k.0 in db.traces)
    && (forall k <- db.assessments :: db.assessments[k].traceId in db.traces)
  }

  /** A complete deletion removes exactly the selected traces' spans and assessments, and of the selected
      traces those of the experiment. */
  lemma DeleteAllMeaning(db: Db, selected: set<nat>, experimentId: string)
    ensures var after := DeleteAll(db, selected, experimentId);
            && Submap(after.spans, db.spans) && Submap(after.assessments, db.assessments)
            && Submap(after.traces, db.traces)
            && (forall k <- db.spans :: k in after.spans <==> k.0 !in selected)
            && (forall k <- db.assessments :: k in after.assessments <==> db.assessments[k].traceId !in selected)
            && (forall t <- db.traces :: t in after.traces <==>
                !(t in selected && db.traces[t].experimentId == experimentId))
  {}

  /** The query matches the experiment's traces up to the age bound, or those listed. */
  lemma MatchingMeaning(q: DeleteQuery, traces: map<nat, TraceDoc>, t: nat)
    ensures t in Matching(q, traces) <==>
              && t in traces && traces[t].experimentId == q.experimentId
              && (q.maxTimestamp.None? || traces[t].requestTime <= q.maxTimestamp.value)
              && (q.ids.None? || q.ids.value == {} || t in q.ids.value)
  {}

  /** Crash safety: wherever a deletion is cut off, no span or assessment has lost its trace. */
  lemma InterruptedDeletionLeavesNoOrphans(db: Db, crashed: Db, selected: set<nat>, experimentId: string)
    requires NoOrphans(db) && PartlyDeleted(db, crashed, selected, experimentId)
    ensures NoOrphans(crashed)
  {
    forall k | k in crashed.spans ensures k.0 in crashed.traces {
      assert k in db.spans;
    }
    forall k | k in crashed.assessments ensures crashed.assessments[k].traceId in crashed.traces {
      assert k in db.assessments;
    }
  }

  /** Repeating an unlimited deletion ends in the same state as if it had not been interrupted. */
  lemma InterruptedDeletionCanBeRepeated(db: Db, crashed: Db, q: DeleteQuery)
    requires NoOrphans(db) && PartlyDeleted(db, crashed, Matching(q, db.traces), q.experimentId)
    ensures DeleteAll(crashed, Matching(q, crashed.traces), q.experimentId) ==
            DeleteAll(db, Matching(q, db.traces), q.experimentId)
  {
    var all, rest := Matching(q, db.traces), Matching(q, crashed.traces);
    InterruptedDeletionLeavesNoOrphans(db, crashed, all, q.experimentId);
    forall t | t in crashed.traces ensures t in all <==> t in rest {}
    SameSpansLeft(db, crashed, all, rest);
    SameAssessmentsLeft(db, crashed, all, rest);
    assert KeepTraces(crashed.traces, rest, q.experimentId, {}) == KeepTraces(db.traces, all, q.experimentId, {});
  }

  lemma SameSpansLeft(db: Db, crashed: Db, all: set<nat>, rest: set<nat>)
    requires Submap(crashed.spans, db.spans) && NoOrphans(crashed)
    requires forall k <- db.spans :: k in crashed.spans || k.0 in all
    requires forall t <- crashed.traces :: t in all <==> t in rest
    ensures KeepSpans(crashed.spans, rest, {}) == KeepSpans(db.spans, all, {})
  {}

  lemma SameAssessmentsLeft(db: Db, crashed: Db, all: set<nat>, rest: set<nat>)
    requires Submap(crashed.assessments, db.assessments) && NoOrphans(crashed)
    requires forall k <- db.assessments :: k in crashed.assessments || db.assessments[k].traceId in all
    requires forall t <- crashed.traces :: t in all <==> t in rest
    ensures KeepAssessments(crashed.assessments, rest, {}) == KeepAssessments(db.assessments, all, {})
  {}

  /** The order of the deletion cursor. */
  predicate Older(traces: map<nat, TraceDoc>, a: nat, b: nat)
    requires a in traces && b in traces
  {
    traces[a].requestTime < traces[b].requestTime ||
    (traces[a].requestTime == traces[b].requestTime && a < b)
  }

  predicate IsOldest(traces: map<nat, TraceDoc>, t: nat, ids: set<nat>)
    requires ids <= traces.Keys
  {
    t in ids && forall x <- ids :: x == t || Older(traces, t, x)
  }

  lemma {:induction false} OldestExists(traces: map<nat, TraceDoc>, ids: set<nat>)
    requires ids != {} && ids <= traces.Keys
    ensures exists t :: IsOldest(traces, t, ids)
    decreases |ids|
  {
    var x :| x in ids;
    var rest := ids - {x};
    assert ids == rest + {x};
    if rest == {} {
      assert IsOldest(traces, x, ids);
    } else {
      OldestExists(traces, rest);
      var t :| IsOldest(traces, t, rest);
      assert IsOldest(traces, if Older(traces, x, t) then x else t, ids);
    }
  }

  // ---------- racing inserts ----------

  /** Ids that a concurrent client creates during attempt `i` before the own insert gets there. */
  type Races = seq<map<nat, TraceDoc>>

  /** The document an upsert on `id` ends up with if it is absent: a racing client's or the own. */
  ghost function AfterRace(traces: map<nat, TraceDoc>, races: Races, id: nat, own: TraceDoc): TraceDoc
    requires |races| == ATTEMPTS
  {
    if id in traces then traces[id] else if id in races[0] then races[0][id] else own
  }

  type Operation = (nat, TraceDoc)

  function OpIds(operations: seq<Operation>): seq<nat> {
    seq(|operations|, i requires 0 <= i < |operations| => operations[i].0)
  }

  /** The `$setOnInsert` operations of ensure_traces. */
  function Upserts(experimentId: string, requestTimes: seq<(nat, int)>): (r: seq<Operation>)
    ensures |r| == |requestTimes|
    ensures forall i :: 0 <= i < |r| ==> r[i] == (requestTimes[i].0, Placeholder(experimentId, requestTimes[i].1))
  {
    seq(|requestTimes|, i requires 0 <= i < |requestTimes| =>
      (requestTimes[i].0, Placeholder(experimentId, requestTimes[i].1)))
  }

  ghost predicate Distinct(operations: seq<Operation>) {
    forall i, j :: 0 <= i < j < |operations| ==> operations[i].0 != operations[j].0
  }

  /** A duplicate key on `_id`: another experiment owns the id, or a racing client was faster. */
  ghost predicate Fails(traces: map<nat, TraceDoc>, o: Operation, racing: map<nat, TraceDoc>) {
    if o.0 in traces then traces[o.0].experimentId != o.1.experimentId else o.0 in racing
  }

  /** A bulk of upserts only adds documents, one for each absent id it names. */
  ghost predicate Bulked(before: map<nat, TraceDoc>, after: map<nat, TraceDoc>, operations: seq<Operation>,
                         racing: map<nat, TraceDoc>) {
    && (forall t <- before :: t in after && after[t] == before[t])
    && (forall t <- after :: t in before || t in OpIds(operations))
    && (forall o <- operations :: o.0 in after && after[o.0] ==
          if o.0 in before then before[o.0] else if o.0 in racing then racing[o.0] else o.1)
  }

  lemma NothingLeftToInsert(before: map<nat, TraceDoc>, after: map<nat, TraceDoc>, operations: seq<Operation>,
                            racing: map<nat, TraceDoc>)
    requires Bulked(before, after, operations, racing)
    requires forall o <- operations :: o.0 in before
    ensures after == before
  {
    forall t | t in after ensures t in before {
      if t in OpIds(operations) {
        var i :| 0 <= i < |operations| && OpIds(operations)[i] == t;
        assert operations[i] in operations;
      }
    }
  }

  /** The operations a bulk reported as failed, by index. */
  ghost predicate Selects(chosen: seq<Operation>, operations: seq<Operation>, failed: seq<nat>) {
    && |chosen| == |failed|
    && forall i :: 0 <= i < |failed| ==> failed[i] < |operations| && chosen[i] == operations[failed[i]]
  }

  lemma ResubmitsWhatFailed(chosen: seq<Operation>, operations: seq<Operation>, failed: seq<nat>,
                            traces: map<nat, TraceDoc>, racing: map<nat, TraceDoc>)
    requires Distinct(operations) && Selects(chosen, operations, failed)
    requires forall i, j :: 0 <= i < j < |failed| ==> failed[i] < failed[j]
    requires forall i :: i in failed <==> 0 <= i < |operations| && Fails(traces, operations[i], racing)
    ensures Distinct(chosen)
    ensures forall o :: o in chosen <==> o in operations && Fails(traces, o, racing)
  {
    forall o | o in operations && Fails(traces, o, racing) ensures o in chosen {
      var i :| 0 <= i < |operations| && operations[i] == o;
      assert i in failed;
      var j :| 0 <= j < |failed| && failed[j] == i;
      assert chosen[j] == o;
    }
    forall o | o in chosen ensures o in operations && Fails(traces, o, racing) {
      var j :| 0 <= j < |chosen| && chosen[j] == o;
      assert failed[j] in failed;
    }
  }

  /** The documents ensure_traces inserts are placeholders with the requested times. */
  lemma NewTracesAreStarted(experimentId: string, requestTimes: seq<(nat, int)>, before: map<nat, TraceDoc>,
                            after: map<nat, TraceDoc>, race: map<nat, TraceDoc>)
    requires Bulked(before, after, Upserts(experimentId, requestTimes), race)
    ensures forall r <- requestTimes :: r.0 !in before && r.0 !in race ==>
              r.0 in after && JustStarted(after[r.0], experimentId, r.1)
  {
    forall r | r in requestTimes && r.0 !in before && r.0 !in race
      ensures r.0 in after && JustStarted(after[r.0], experimentId, r.1)
    {
      var i :| 0 <= i < |requestTimes| && requestTimes[i] == r;
      assert Upserts(experimentId, requestTimes)[i] in Upserts(experimentId, requestTimes);
      PlaceholderMeaning(experimentId, r.1);
    }
  }

  /** Where ensure_traces stands before a bulk: `was` are the traces it found, `race` those created by
      others before its first bulk got there, `submitted` the bulks it has sent. */
  ghost predicate Retrying(experimentId: string, was: map<nat, TraceDoc>, race: map<nat, TraceDoc>, all: seq<Operation>,
                           traces: map<nat, TraceDoc>, operations: seq<Operation>, submitted: seq<seq<Operation>>) {
    && |submitted| < ATTEMPTS && Distinct(operations) && operations != []
    && (forall o <- all :: o.1.experimentId == experimentId)
    && (|submitted| == 0 ==> traces == was && operations == all)
    && (|submitted| > 0 ==> Bulked(was, traces, all, race) && submitted[0] == all)
    && (|submitted| == 1 ==> forall o :: o in operations <==> o in all && Fails(was, o, race))
    && (|submitted| == 2 ==> forall o :: o in operations <==> o in all && traces[o.0].experimentId != experimentId)
    && (|submitted| == 2 ==> forall o :: o in submitted[1] <==> o in all && Fails(was, o, race))
  }

  /** The bulk that answers `operations` with failures `chosen`. */
  ghost predicate Answered(before: map<nat, TraceDoc>, after: map<nat, TraceDoc>, operations: seq<Operation>,
                           racing: map<nat, TraceDoc>, chosen: seq<Operation>) {
    && Bulked(before, after, operations, racing) && Distinct(chosen)
    && forall o :: o in chosen <==> o in operations && Fails(before, o, racing)
  }

  /** Only the first bulk can insert anything: whatever it failed on exists afterwards. */
  lemma LaterBulksInsertNothing(experimentId: string, was: map<nat, TraceDoc>, race: map<nat, TraceDoc>,
      all: seq<Operation>,
                                before: map<nat, TraceDoc>, after: map<nat, TraceDoc>, operations: seq<Operation>,
                                submitted: seq<seq<Operation>>, racing: map<nat, TraceDoc>, chosen: seq<Operation>)
    requires Retrying(experimentId, was, race, all, before, operations, submitted) && |submitted| > 0
    requires Answered(before, after, operations, racing, chosen)
    ensures after == before
    ensures forall o :: o in chosen <==> o in operations && before[o.0].experimentId != experimentId
  {
    forall o | o in operations ensures o in all && o.0 in before {}
    NothingLeftToInsert(before, after, operations, racing);
  }

  lemma BulkAdvances(experimentId: string, was: map<nat, TraceDoc>, race: map<nat, TraceDoc>, all: seq<Operation>,
                     before: map<nat, TraceDoc>, after: map<nat, TraceDoc>, operations: seq<Operation>,
                     submitted: seq<seq<Operation>>, racing: map<nat, TraceDoc>, chosen: seq<Operation>)
    requires Retrying(experimentId, was, race, all, before, operations, submitted)
    requires Answered(before, after, operations, racing, chosen) && (submitted == [] ==> racing == race)
    ensures Bulked(was, after, all, race)
    ensures chosen == [] ==> forall o <- all :: after[o.0].experimentId == experimentId
    ensures chosen != [] && |submitted| < 2 ==> Retrying(experimentId, was, race, all, after, chosen,
            submitted + [operations])
    ensures chosen != [] && |submitted| == 2 ==> exists o <- all :: after[o.0].experimentId != experimentId
  {
    if submitted != [] {
      LaterBulksInsertNothing(experimentId, was, race, all, before, after, operations, submitted, racing, chosen);
    }
    if chosen == [] {
      forall o | o in all ensures after[o.0].experimentId == experimentId {
        assert o in operations ==> o !in chosen;
      }
    } else {
      assert chosen[0] in chosen;
    }
  }

  /** What an upsert of start_trace leaves: the call's arguments in the document that was stored, that a
      racing client has just stored, or that it makes itself; another experiment's document is untouched,
      and so is every other trace. */
  ghost predicate Upserted(before: map<nat, TraceDoc>, after: map<nat, TraceDoc>, race: map<nat, TraceDoc>, id: nat,
                           experimentId: string, a: Start, ok: bool) {
    && id in after
    && SameBut(before, after, {id})
    && (id in before ==>
          && (ok <==> before[id].experimentId == experimentId)
          && (if ok then Started(before[id], a, after[id]) else after[id] == before[id]))
    && (id !in before && id in race ==>
          && (ok <==> race[id].experimentId == experimentId)
          && (if ok then Started(race[id], a, after[id]) else after[id] == race[id]))
    && (id !in before && id !in race ==>
          ok && exists base :: OnlyFiltered(base, experimentId) && Started(base, a, after[id]))
  }

  lemma UpsertMeaning(before: map<nat, TraceDoc>, races: Races, id: nat, experimentId: string, a: Start)
    requires |races| == ATTEMPTS
    ensures var base := AfterRace(before, races, id, Blank(experimentId));
            var ok := base.experimentId == experimentId;
            var after := before[id := if ok then ApplyStart(base, a) else base];
            Upserted(before, after, races[0], id, experimentId, a, ok)
  {
    StartTraceMeaning(AfterRace(before, races, id, Blank(experimentId)), a);
    PlaceholderMeaning(experimentId, 0);
  }

  /** The document has been given the summary of the spans. */
  ghost predicate Refreshed(env: Mlflow, before: TraceDoc, spans: seq<SpanRecord>, tags: seq<Entry<string>>,
                            after: TraceDoc) {
    exists s :: Summarises(env, spans, tags, s) && TraceDocuments.Updated(env, before, s, after)
  }

  /** What a refresh leaves is the document with a summary of exactly the given spans. */
  lemma RefreshMeaning(env: Mlflow, d: TraceDoc, spans: seq<SpanRecord>, tags: seq<Entry<string>>)
    requires spans != []
    ensures Refreshed(env, d, spans, tags, Commit(env, d, d.spanRevision, Summarize(env, spans, tags)))
  {
    SummaryMeaning(env, spans, tags);
    CommitMeaning(env, d, d.spanRevision, Summarize(env, spans, tags));
  }

  /** An ordered bulk that has stopped stays where it is. */
  lemma {:induction false} StopsAt(normalize: string -> string, c: Collection, traceId: nat,
      items: seq<Entry<Content>>, n: nat)
    requires n <= |items| && !ReplaceAll(normalize, c, traceId, items[..n]).1
    ensures ReplaceAll(normalize, c, traceId, items) == ReplaceAll(normalize, c, traceId, items[..n])
  {
    if n < |items| {
      var init := items[..|items| - 1];
      assert init[..n] == items[..n];
      StopsAt(normalize, c, traceId, init, n);
    } else {
      assert items[..n] == items;
    }
  }

  // ---------- the repository ----------

  class TraceRepository {
    var traces: map<nat, TraceDoc>
    var spans: map<(nat, nat), SpanRecord>
    var assessments: map<string, Assessment>

    /** The unique index on (trace_id, span_id): documents sit under their own identity. */
    ghost predicate Valid()
      reads this
    {
      forall k <- spans :: spans[k].spanId == k.1
    }

    ghost function State(): Db
      reads this
    {
      Db(traces, spans, assessments)
    }

    constructor ()
      ensures Valid() && State() == Db(map[], map[], map[])
    {
      traces, spans, assessments := map[], map[], map[];
    }

    /** _upsert_trace with the pipeline of start_trace and its retry: a duplicate key means another client created the
        id first, so the next attempt matches it, unless another experiment owns it. */
    method UpsertTrace(traceId: nat, experimentId: string, a: Start, races: Races) returns (ok: bool)
      requires Valid() && |races| == ATTEMPTS
      modifies this`traces
      ensures Valid()
      ensures var base := AfterRace(old(traces), races, traceId, Blank(experimentId));
              && ok == (base.experimentId == experimentId)
              && traces == if ok then old(traces)[traceId := ApplyStart(base, a)]
                                 else old(traces)[traceId := base]
    {
      var attempt := 0;
      while true
        invariant 0 <= attempt < ATTEMPTS
        invariant attempt == 0 ==> traces == old(traces)
        invariant attempt > 0 ==>
                    traces == old(traces)[traceId := AfterRace(old(traces), races, traceId, Blank(experimentId))]
        invariant attempt > 1 || (attempt > 0 && traceId in old(traces)) ==>
                    traces[traceId].experimentId != experimentId
        invariant attempt > 0 ==> traceId in old(traces) || traceId in races[0]
        decreases ATTEMPTS - attempt
      {
        if traceId in traces && traces[traceId].experimentId == experimentId {
          traces := traces[traceId := ApplyStart(traces[traceId], a)];
          return true;
        } else if traceId !in traces && traceId !in races[attempt] {
          traces := traces[traceId := ApplyStart(Blank(experimentId), a)];
          return true;
        }
        if traceId !in traces { traces := traces[traceId := races[attempt][traceId]]; }
        attempt := attempt + 1;
        if attempt == ATTEMPTS { return false; }
      }
    }

    /** _upsert_assessments: one replacing upsert per id, in order, each with the last content of its id. */
    method UpsertAssessments(normalize: string -> string, traceId: nat, supplied: seq<Entry<Content>>)
        returns (ok: bool)
      requires Valid()
      modifies this`assessments
      ensures Valid() && (assessments, ok) == ReplaceAll(normalize, old(assessments), traceId, LastOfEach(supplied))
    {
      var operations := LastOfEach(supplied);
      for i := 0 to |operations|
        invariant Valid() && (assessments, true) == ReplaceAll(normalize, old(assessments), traceId, operations[..i])
      {
        assert operations[..i + 1][..i] == operations[..i];
        var (id, content) := (operations[i].k, operations[i].v);
        if id in assessments && assessments[id].traceId != traceId {
          StopsAt(normalize, old(assessments), traceId, operations, i + 1);
          return false;
        }
        assessments := assessments[id := Stored(normalize, traceId, content)];
      }
      assert operations[..|operations|] == operations;
      ok := true;
    }

    /** start_trace: the trace first, then the supplied assessments in their own collection. It fails if
        another experiment owns the trace, leaving the assessments alone, or if another trace owns one
        of the assessments, leaving the trace written. */
    method StartTrace(normalize: string -> string, traceId: nat, experimentId: string, a: Start,
                      supplied: seq<Entry<Content>>, races: Races) returns (ok: bool)
      requires Valid() && |races| == ATTEMPTS
      modifies this`traces, this`assessments
      ensures Valid()
      ensures var base := AfterRace(old(traces), races, traceId, Blank(experimentId));
              var owned := base.experimentId == experimentId;
              && ok == (owned && AllOwned(old(assessments), traceId, LastOfEach(supplied)))
              && traces == old(traces)[traceId := if owned then ApplyStart(base, a) else base]
              && assessments == (if owned then ReplaceAll(normalize, old(assessments), traceId, LastOfEach(supplied)).0
                                 else old(assessments))
              && (ok ==> assessments == old(assessments) + StoredAll(normalize, traceId, AsMap(supplied)))
      ensures exists owned :: Upserted(old(traces), traces, races[0], traceId, experimentId, a, owned) && (ok ==> owned)
    {
      UpsertMeaning(traces, races, traceId, experimentId, a);
      ok := UpsertTrace(traceId, experimentId, a, races);
      if ok {
        ReplaceAllMeaning(normalize, assessments, traceId, LastOfEach(supplied));
        LastOfEachAsMap(supplied);
        ok := UpsertAssessments(normalize, traceId, supplied);
      }
    }

    /** One unordered bulk of `$setOnInsert` upserts; returns the indexes of duplicate-key errors. */
    method BulkUpsert(operations: seq<Operation>, racing: map<nat, TraceDoc>) returns (failed: seq<nat>)
      requires Valid() && Distinct(operations)
      modifies this`traces
      ensures Valid()
      ensures forall i, j :: 0 <= i < j < |failed| ==> failed[i] < failed[j]
      ensures forall i :: i in failed <==> 0 <= i < |operations| && Fails(old(traces), operations[i], racing)
      ensures Bulked(old(traces), traces, operations, racing)
    {
      failed := [];
      for n := 0 to |operations|
        invariant forall i, j :: 0 <= i < j < |failed| ==> failed[i] < failed[j]
        invariant forall i :: 0 <= i < |failed| ==> failed[i] < n
        invariant forall i :: i in failed <==> 0 <= i < n && Fails(old(traces), operations[i], racing)
        invariant Bulked(old(traces), traces, operations[..n], racing)
      {
        var (id, document) := operations[n];
        assert operations[..n + 1] == operations[..n] + [operations[n]];
        assert OpIds(operations[..n + 1]) == OpIds(operations[..n]) + [id];
        assert id !in OpIds(operations[..n]);
        if id !in traces {
          if id in racing {
            traces := traces[id := racing[id]];
            failed := failed + [n];
          } else {
            traces := traces[id := document];
          }
        } else if traces[id].experimentId != document.experimentId {
          failed := failed + [n];
        }
      }
      assert operations[..|operations|] == operations;
    }

    /** ensure_traces: at most three bulks, each resubmitting exactly what failed in the one before.
        Existing documents are untouched, every requested id exists on return, and the call fails
        if and only if another experiment owns one of them. `submitted` records the bulks. */
    method EnsureTraces(experimentId: string, requestTimes: seq<(nat, int)>, races: Races)
      returns (ok: bool, submitted: seq<seq<Operation>>)
      requires Valid() && |races| == ATTEMPTS
      requires forall i, j :: 0 <= i < j < |requestTimes| ==> requestTimes[i].0 != requestTimes[j].0
      modifies this`traces
      ensures Valid()
      ensures Bulked(old(traces), traces, Upserts(experimentId, requestTimes), races[0])
      ensures ok <==> forall o <- Upserts(experimentId, requestTimes) :: traces[o.0].experimentId == experimentId
      ensures forall t :: t in old(traces) ==> t in traces && traces[t] == old(traces)[t]
      ensures forall r <- requestTimes :: r.0 !in old(traces) && r.0 !in races[0] ==>
                r.0 in traces && JustStarted(traces[r.0], experimentId, r.1)
      ensures |submitted| <= 3
      ensures |submitted| > 0 ==> submitted[0] == Upserts(experimentId, requestTimes)
      ensures |submitted| > 1 ==> forall o :: o in submitted[1] <==>
              o in submitted[0] && Fails(old(traces), o, races[0])
      ensures |submitted| > 2 ==> forall o :: o in submitted[2] <==>
              o in submitted[0] && traces[o.0].experimentId != experimentId
    {
      submitted := [];
      var all := Upserts(experimentId, requestTimes);
      if |requestTimes| == 0 { return true, submitted; }
      var operations := all;
      for attempt := 0 to ATTEMPTS
        invariant attempt == |submitted|
        invariant Retrying(experimentId, old(traces), races[0], all, traces, operations, submitted)
      {
        ghost var before := traces;
        var failed := BulkUpsert(operations, races[attempt]);
        assert forall i :: 0 <= i < |failed| ==> failed[i] in failed;
        var chosen := seq(|failed|, i requires 0 <= i < |failed| => operations[failed[i]]);
        ResubmitsWhatFailed(chosen, operations, failed, before, races[attempt]);
        BulkAdvances(experimentId, old(traces), races[0], all, before, traces, operations, submitted, races[attempt],
            chosen);
        submitted := submitted + [operations];
        NewTracesAreStarted(experimentId, requestTimes, old(traces), traces, races[0]);
        if |failed| == 0 { return true, submitted; }
        if attempt == ATTEMPTS - 1 { return false, submitted; }
        operations := chosen;
      }
      ok := false;
    }

    /** log_spans: a bulk of insert-if-absent upserts. */
    method LogSpans(documents: seq<Document>)
      requires Valid()
      modifies this`spans
      ensures Valid() && spans == Deliver(old(spans), documents)
    {
      for i := 0 to |documents|
        invariant Valid() && spans == Deliver(old(spans), documents[..i])
      {
        assert documents[..i + 1][..i] == documents[..i];
        var d := documents[i];
        if (d.traceId, d.span.spanId) !in spans {
          spans := spans[(d.traceId, d.span.spanId) := d.span];
        }
      }
      assert documents[..|documents|] == documents;
    }

    ghost function SpansOf(traceId: nat): (r: set<SpanRecord>)
      requires Valid()
      reads this
      ensures DistinctIds(r)
    {
      set k <- spans | k.0 == traceId :: spans[k]
    }

    /** span_summary_snapshot: increment the revision first, then read the spans in order. */
    method SpanSummarySnapshot(traceId: nat, experimentId: string)
      returns (snapshot: Option<(nat, seq<SpanRecord>)>)
      requires Valid()
      modifies this`traces
      ensures Valid()
      ensures var found := traceId in old(traces) && old(traces)[traceId].experimentId == experimentId;
              if found then
                var d := old(traces)[traceId];
                && traces == old(traces)[traceId := d.(spanRevision := d.spanRevision + 1)]
                && snapshot == Some((d.spanRevision + 1, Sorted(SpansOf(traceId))))
              else snapshot.None? && traces == old(traces)
    {
      if traceId !in traces || traces[traceId].experimentId != experimentId { return None; }
      var d := traces[traceId];
      traces := traces[traceId := d.(spanRevision := d.spanRevision + 1)];
      var found := set k <- spans | k.0 == traceId :: spans[k];
      return Some((d.spanRevision + 1, Sorted(found)));
    }

    /** update_span_summary, stage by stage. Matching ignores the revision, so a missing trace and a
        stale snapshot are told apart from one read. */
    method UpdateSpanSummary(env: Mlflow, traceId: nat, experimentId: string, revision: nat, s: Summary)
      returns (result: UpdateResult)
      requires Valid()
      modifies this`traces
      ensures Valid()
      ensures if traceId !in old(traces) || old(traces)[traceId].experimentId != experimentId then
                result.NotFound? && traces == old(traces)
              else
                && traces == old(traces)[traceId := Commit(env, old(traces)[traceId], revision, s)]
                && result == if old(traces)[traceId].spanRevision == revision then Updated else WriteConflict
      ensures !result.Updated? ==> traces == old(traces)
    {
      if traceId !in traces || traces[traceId].experimentId != experimentId { return NotFound; }
      var previous := traces[traceId];
      var d := previous;
      if d.spanRevision == revision { d := SummaryStage(d, s); }
      var fields := [(TOKEN_USAGE, s.tokenUsage), (TRACE_COST, s.cost)];
      for i := 0 to |fields|
        invariant d.spanRevision == previous.spanRevision && d.authoritativeKeys == previous.authoritativeKeys
        invariant previous.spanRevision != revision ==> d == previous
        invariant previous.spanRevision == revision ==>
                    var d1 := SummaryStage(previous, s);
                    var m := if i < 1 then d1.metadata
                             else AggregateStage(env, previous.authoritativeKeys, d1.metadata, TOKEN_USAGE,
                                 s.tokenUsage);
                    d == d1.(metadata := if i < 2 then m
                                         else AggregateStage(env, previous.authoritativeKeys, m, TRACE_COST, s.cost))
      {
        var (key, stats) := fields[i];
        if stats.Some? && d.spanRevision == revision && key !in d.authoritativeKeys {
          d := d.(metadata := Merge(d.metadata, [Entry(key, env.dumps(stats.value))]));
        }
      }
      traces := traces[traceId := d];
      return if previous.spanRevision == revision then Updated else WriteConflict;
    }

    /** _refresh_trace_span_summary: one attempt, the function that is retried on a conflict. Without
        other writers it does not conflict, and a trace without spans is reported, not summarised. */
    method RefreshTraceSpanSummary(env: Mlflow, traceId: nat, experimentId: string, tags: seq<Entry<string>>)
      returns (result: UpdateResult)
      requires Valid()
      modifies this`traces
      ensures Valid()
      ensures var found := traceId in old(traces) && old(traces)[traceId].experimentId == experimentId;
              result == if found && Sorted(SpansOf(traceId)) != [] then Updated else NotFound
      ensures result.Updated? ==>
                var d := old(traces)[traceId].(spanRevision := old(traces)[traceId].spanRevision + 1);
                traces == old(traces)[traceId :=
                  Commit(env, d, d.spanRevision, Summarize(env, Sorted(SpansOf(traceId)), tags))]
    {
      ghost var was, all := traces, SpansOf(traceId);
      var snapshot := SpanSummarySnapshot(traceId, experimentId);
      assert SpansOf(traceId) == all;
      if snapshot.None? { return NotFound; }
      var (revision, documents) := snapshot.value;
      assert documents == Sorted(all) && revision == was[traceId].spanRevision + 1;
      if |documents| == 0 { return NotFound; }
      assert traces == was[traceId := was[traceId].(spanRevision := revision)];
      var summary := SummarizeSpans(env, documents, tags);
      result := UpdateSpanSummary(env, traceId, experimentId, revision, summary);
      assert SpansOf(traceId) == all;
    }

    /** The deletion cursor: the matching traces, oldest first, up to the limit. */
    method SelectOldest(q: DeleteQuery, maxTraces: Option<nat>) returns (selected: set<nat>)
      ensures selected <= Matching(q, traces)
      ensures |selected| == |Matching(q, traces)| || (maxTraces.Some? && |selected| == maxTraces.value)
      ensures maxTraces.Some? ==> |selected| <= maxTraces.value
      ensures forall a, b | a in selected && b in Matching(q, traces) - selected :: Older(traces, a, b)
    {
      var rest := Matching(q, traces);
      ghost var all := rest;
      selected := {};
      while rest != {} && (maxTraces.None? || |selected| < maxTraces.value)
        invariant selected + rest == all && selected !! rest && |selected| + |rest| == |all|
        invariant rest <= all <= traces.Keys
        invariant maxTraces.Some? ==> |selected| <= maxTraces.value
        invariant forall a, b | a in selected && b in rest :: Older(traces, a, b)
        decreases rest
      {
        OldestExists(traces, rest);
        var t :| IsOldest(traces, t, rest);
        selected, rest := selected + {t}, rest - {t};
      }
    }

    /** delete_traces, cut off where `reach` says. A limit keeps to the oldest traces, by request time
        and then id. */
    method DeleteTraces(q: DeleteQuery, maxTraces: Option<nat>, reach: Reach) returns (selected: set<nat>)
      requires Valid() && (maxTraces.Some? ==> 0 < maxTraces.value)
      modifies this
      ensures Valid()
      ensures PartlyDeleted(old(State()), State(), selected, q.experimentId)
      ensures reach.Completed? ==> State() == DeleteAll(old(State()), selected, q.experimentId)
      ensures reach.Completed? ==> forall k <- spans :: k.0 !in selected
      ensures reach.Completed? ==> forall k <- assessments :: assessments[k].traceId !in selected
      ensures reach.Completed? ==> forall t <- selected :: t !in traces
      ensures selected <= Matching(q, old(traces))
      ensures |selected| == |Matching(q, old(traces))| || (maxTraces.Some? && |selected| == maxTraces.value)
      ensures maxTraces.Some? ==> |selected| <= maxTraces.value
      ensures forall a, b | a in selected && b in Matching(q, old(traces)) - selected ::
                var x, y := old(traces)[a], old(traces)[b];
                x.requestTime < y.requestTime || (x.requestTime == y.requestTime && a < b)
    {
      selected := SelectOldest(q, maxTraces);
      spans := KeepSpans(spans, selected, if reach.InSpans? then reach.spansLeft else {});
      if reach.InSpans? { return; }
      assessments := KeepAssessments(assessments, selected, if reach.InAssessments? then reach.assessmentsLeft else {});
      if reach.InAssessments? { return; }
      traces := KeepTraces(traces, selected, q.experimentId, if reach.InTraces? then reach.tracesLeft else {});
    }

    /** create_assessment */
    method CreateAssessment(normalize: string -> string, traceId: nat, id: string, content: Content)
        returns (result: CreateResult)
      modifies this`assessments
      ensures (assessments, result) == Create(normalize, old(assessments), traceId, id, content)
    {
      if content.overrides.Some? {
        var o := content.overrides.value;
        if !(o in assessments && assessments[o].traceId == traceId) { return TargetMissing; }
        assessments := assessments[o := assessments[o].(content := assessments[o].content.(valid := false))];
      }
      if id in assessments { return AlreadyExists; }
      assessments := assessments[id := Stored(normalize, traceId, content)];
      return Created;
    }

    /** update_assessment with the store's checks on the assessment it read. */
    method UpdateAssessment(normalize: string -> string, traceId: nat, id: string, p: Patch) returns (ok: bool)
      modifies this`assessments
      ensures ok <==> id in old(assessments) && old(assessments)[id].traceId == traceId &&
                      PatchAllowed(old(assessments)[id].content, p)
      ensures assessments == if ok then old(assessments)[id := Update(normalize, old(assessments)[id], p)]
                             else old(assessments)
    {
      if !(id in assessments && assessments[id].traceId == traceId) { return false; }
      var a := assessments[id];
      if p.expectation.Some? && p.feedback.Some? { return false; }
      if p.expectation.Some? && a.content.expectation.None? { return false; }
      if p.feedback.Some? && a.content.feedback.None? { return false; }
      assessments := assessments[id := Update(normalize, a, p)];
      return true;
    }

    /** delete_assessment */
    method DeleteAssessment(traceId: nat, id: string)
      modifies this`assessments
      ensures assessments == Delete(old(assessments), traceId, id)
    {
      if !(id in assessments && assessments[id].traceId == traceId) { return; }
      var overridden := assessments[id].content.overrides;
      if overridden.Some? && overridden.value in assessments && assessments[overridden.value].traceId == traceId {
        var o := overridden.value;
        assessments := assessments[o := assessments[o].(content := assessments[o].content.(valid := true))];
      }
      assessments := assessments - {id};
    }
  }
}
