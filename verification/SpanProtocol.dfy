/** Concurrent ingestion of one trace. Every writer ensures the trace, inserts its spans one
    atomic upsert at a time, increments the revision, reads all spans and commits their summary
    if the revision is still its own, at most three times. start_trace may land anywhere. */
module SpanProtocol {
  import opened Wrappers
  import opened ArrayOperations
  import opened SpanSummaries
  import opened TraceDocuments

  const MAX_ATTEMPTS := 3

  datatype Phase =
    | Ensuring
    | Inserting(rest: set<SpanRecord>)
    | Bumping
    | Reading(revision: nat)
    | Committing(revision: nat, snapshot: set<SpanRecord>)
    | Succeeded
    | GaveUp

  /** One log_spans call, restricted to this trace. `firstMs` is the request time it would give a
      missing trace; `conflicts` counts failed attempts. */
  datatype Writer = Writer(
    batch: set<SpanRecord>,
    tags: seq<Entry<string>>,
    firstMs: int,
    phase: Phase,
    conflicts: nat)

  /** `starts` and `last` only record history: start_trace calls, and the latest valid commit. */
  datatype System = System(
    experimentId: string,
    doc: Option<TraceDoc>,
    spans: map<nat, SpanRecord>,
    writers: seq<Writer>,
    starts: seq<Start>,
    last: Option<Commitment>)

  datatype Commitment = Commitment(revision: nat, snapshot: set<SpanRecord>, writer: nat)

  datatype Step =
    | Ensure(w: nat)
    | Insert(w: nat, x: SpanRecord)
    | Bump(w: nat)
    | Read(w: nat)
    | TryCommit(w: nat)
    | StartTrace(a: Start)

  // ---------- the atomic steps ----------

  ghost predicate Enabled(s: System, step: Step) {
    match step
    case Ensure(w) => w < |s.writers| && s.writers[w].phase.Ensuring?
    case Insert(w, x) =>
      w < |s.writers| && s.writers[w].phase.Inserting? && x in s.writers[w].phase.rest
    case Bump(w) => w < |s.writers| && s.writers[w].phase.Bumping? && s.doc.Some?
    case Read(w) => w < |s.writers| && s.writers[w].phase.Reading?
    case TryCommit(w) =>
      w < |s.writers| && s.writers[w].phase.Committing? && s.doc.Some? &&
      s.writers[w].phase.snapshot != {} && DistinctIds(s.writers[w].phase.snapshot)
    case StartTrace(a) => true
  }

  ghost function Moved(s: System, w: nat, phase: Phase): System
    requires w < |s.writers|
  {
    s.(writers := s.writers[w := s.writers[w].(phase := phase)])
  }

  /** A commit whose revision is current. */
  ghost function Committed(env: Mlflow, s: System, w: nat): System
    requires Enabled(s, TryCommit(w))
  {
    var me := s.writers[w];
    var summary := Summarize(env, Sorted(me.phase.snapshot), me.tags);
    var d := Commit(env, s.doc.value, me.phase.revision, summary);
    Moved(s.(doc := Some(d), last := Some(Commitment(me.phase.revision, me.phase.snapshot, w))), w, Succeeded)
  }

  /** A write conflict: retry_on_exception starts the attempt again or lets the error out. */
  ghost function Conflicted(s: System, w: nat): System
    requires Enabled(s, TryCommit(w))
  {
    var conflicts := s.writers[w].conflicts + 1;
    var phase := if conflicts == MAX_ATTEMPTS then GaveUp else Bumping;
    s.(writers := s.writers[w := s.writers[w].(phase := phase, conflicts := conflicts)])
  }

  ghost function Apply(env: Mlflow, s: System, step: Step): System
    requires Enabled(s, step)
  {
    match step
    case Ensure(w) =>
      var t := if s.doc.Some? then s else s.(doc := Some(Placeholder(s.experimentId, s.writers[w].firstMs)));
      Moved(t, w, Inserting(s.writers[w].batch))
    case Insert(w, x) =>
      var rest := s.writers[w].phase.rest - {x};
      var t := if x.spanId in s.spans then s else s.(spans := s.spans[x.spanId := x]);
      Moved(t, w, if rest == {} then Bumping else Inserting(rest))
    case Bump(w) =>
      var r := s.doc.value.spanRevision + 1;
      Moved(s.(doc := Some(s.doc.value.(spanRevision := r))), w, Reading(r))
    case Read(w) =>
      Moved(s, w, if s.spans == map[] then GaveUp
                  else Committing(s.writers[w].phase.revision, s.spans.Values))
    case TryCommit(w) =>
      if s.doc.value.spanRevision == s.writers[w].phase.revision then Committed(env, s, w)
      else Conflicted(s, w)
    case StartTrace(a) =>
      var d := if s.doc.Some? then s.doc.value else Blank(s.experimentId);
      s.(doc := Some(ApplyStart(d, a)), starts := s.starts + [a])
  }

  // ---------- runs ----------

  /** A batch after _prepare_span_documents: not empty, identities unique, and metadata limited
      to the session and user keys, never the two aggregate keys. */
  ghost predicate ValidBatch(batch: set<SpanRecord>) {
    && batch != {}
    && DistinctIds(batch)
    && forall x <- batch :: Unreserved(x)
  }

  ghost predicate Unreserved(x: SpanRecord) {
    TOKEN_USAGE !in AsMap(x.metadata) && TRACE_COST !in AsMap(x.metadata)
  }

  ghost predicate Initial(s: System) {
    && s.doc.None? && s.spans == map[] && s.starts == [] && s.last.None?
    && forall w <- s.writers ::
         && ValidBatch(w.batch)
         && w.firstMs == (assert Sorted(w.batch) != [] by { var x :| x in w.batch; assert x in Sorted(w.batch); }
                          MinStart(Sorted(w.batch)) / NS_PER_MS)
         && w.phase.Ensuring? && w.conflicts == 0
  }

  /** Any interleaving of the writers' steps and of start_trace calls. */
  ghost predicate IsRun(env: Mlflow, run: seq<System>, steps: seq<Step>) {
    && |run| == |steps| + 1
    && Initial(run[0])
    && forall i :: 0 <= i < |steps| ==> Enabled(run[i], steps[i]) && run[i + 1] == Apply(env, run[i], steps[i])
  }

  predicate Finished(w: Writer) {
    w.phase.Succeeded? || w.phase.GaveUp?
  }

  ghost predicate Quiescent(s: System) {
    forall w <- s.writers :: Finished(w)
  }

  // ---------- the protocol invariant ----------

  function Revision(s: System): nat {
    if s.doc.None? then 0 else s.doc.value.spanRevision
  }

  predicate Holds(w: Writer, r: nat) {
    (w.phase.Reading? || w.phase.Committing?) && w.phase.revision == r
  }

  predicate BeforeBump(w: Writer) {
    w.phase.Inserting? || w.phase.Bumping?
  }

  ghost predicate HasId(spans: set<SpanRecord>, id: nat) {
    exists x <- spans :: x.spanId == id
  }

  /** Writer `i` will get the stored span `id` into the summary: it has yet to increment the
      revision, or it holds the current revision and its snapshot has, or will have, the span. */
  ghost predicate CoveredBy(s: System, i: nat, id: nat) {
    && i < |s.writers|
    && var w := s.writers[i];
       || (BeforeBump(w) && HasId(w.batch, id))
       || (Holds(w, Revision(s)) && (w.phase.Committing? ==> HasId(w.phase.snapshot, id)))
  }

  ghost predicate CoveredByLast(s: System, id: nat) {
    s.last.Some? && s.last.value.revision == Revision(s) && HasId(s.last.value.snapshot, id)
  }

  ghost predicate Covered(s: System, id: nat) {
    CoveredByLast(s, id) || exists i: nat :: CoveredBy(s, i, id)
  }

  ghost predicate SpansOk(s: System) {
    && (forall id <- s.spans :: s.spans[id].spanId == id)
    && (forall id <- s.spans :: Covered(s, id))
    && (s.last.Some? ==> s.last.value.snapshot <= s.spans.Values && s.last.value.snapshot != {})
  }

  ghost predicate WriterOk(s: System, w: Writer) {
    && w.conflicts <= MAX_ATTEMPTS
    && (!Finished(w) ==> w.conflicts < MAX_ATTEMPTS)
    && (!w.phase.Ensuring? ==> s.doc.Some?)
    && (w.phase.Inserting? ==> w.phase.rest != {} && w.phase.rest <= w.batch)
    && (w.phase.Bumping? || w.phase.Reading? || w.phase.Committing? || Finished(w) ==> s.spans != map[])
    && (w.phase.Reading? || w.phase.Committing? ==> 0 < w.phase.revision <= Revision(s))
    && (w.phase.Committing? ==>
          && w.phase.snapshot <= s.spans.Values && w.phase.snapshot != {}
          && (w.phase.revision == Revision(s) && s.last.Some? ==> s.last.value.snapshot <= w.phase.snapshot))
    && (w.phase.GaveUp? ==> w.conflicts == MAX_ATTEMPTS)
  }

  /** Revisions are handed out once: by a writer in flight or by the last commit. */
  ghost predicate RevisionsOk(s: System) {
    && (s.last.Some? ==>
          && 0 < s.last.value.revision <= Revision(s)
          && s.last.value.writer < |s.writers| && s.writers[s.last.value.writer].phase.Succeeded?)
    && (forall i, r :: 0 <= i < |s.writers| && Holds(s.writers[i], r) ==>
          s.last.Some? ==> s.last.value.revision != r)
    && (forall i, j, r :: 0 <= i < j < |s.writers| && Holds(s.writers[i], r) ==> !Holds(s.writers[j], r))
  }

  /** The latest revision is committed, or its writer is still on the way to committing it. */
  ghost predicate LatestIsPending(s: System) {
    || Revision(s) == 0
    || (s.last.Some? && s.last.value.revision == Revision(s))
    || exists i: nat :: HoldsLatest(s, i)
  }

  ghost predicate HoldsLatest(s: System, i: nat) {
    i < |s.writers| && Holds(s.writers[i], Revision(s))
  }

  ghost predicate Inv(s: System) {
    && SpansOk(s)
    && RevisionsOk(s)
    && LatestIsPending(s)
    && forall i :: 0 <= i < |s.writers| ==> WriterOk(s, s.writers[i])
  }

  lemma SpansAreDistinct(s: System)
    requires SpansOk(s)
    ensures DistinctIds(s.spans.Values)
  {}

  /** What a step of writer `w` leaves intact. */
  ghost predicate OnlyMoves(s: System, t: System, w: nat) {
    && |t.writers| == |s.writers|
    && (forall i :: 0 <= i < |s.writers| && i != w ==> t.writers[i] == s.writers[i])
    && (w < |s.writers| ==> t.writers[w].batch == s.writers[w].batch && !Finished(s.writers[w]))
    && (s.doc.Some? ==> t.doc.Some?)
    && s.spans.Values <= t.spans.Values
    && (s.spans != map[] ==> t.spans != map[])
    && Revision(s) <= Revision(t)
    && (Revision(s) < Revision(t) || t.last == s.last || HoldsLatest(s, w))
  }

  lemma OthersStayOk(s: System, t: System, w: nat)
    requires Inv(s) && OnlyMoves(s, t, w)
    requires w < |t.writers| ==> WriterOk(t, t.writers[w])
    ensures forall i :: 0 <= i < |t.writers| ==> WriterOk(t, t.writers[i])
  {
    forall i | 0 <= i < |t.writers| && i != w ensures WriterOk(t, t.writers[i]) {
      assert WriterOk(s, s.writers[i]);
      if HoldsLatest(s, w) && Holds(s.writers[i], Revision(s)) {
        assert false;
      }
    }
  }

  /** A step that neither hands out, gives back nor commits a revision. */
  ghost predicate KeepsRevisions(s: System, t: System, w: nat) {
    && OnlyMoves(s, t, w)
    && Revision(t) == Revision(s)
    && t.last == s.last
    && (w < |s.writers| ==> forall r :: Holds(t.writers[w], r) <==> Holds(s.writers[w], r))
  }

  lemma RevisionsStayOk(s: System, t: System, w: nat)
    requires RevisionsOk(s) && LatestIsPending(s) && KeepsRevisions(s, t, w)
    ensures RevisionsOk(t) && LatestIsPending(t)
  {
    if exists i: nat :: HoldsLatest(s, i) {
      var i: nat :| HoldsLatest(s, i);
      assert HoldsLatest(t, i);
    }
  }

  /** Writer `w` covers what it covered before. */
  ghost predicate CoversAsMuch(s: System, t: System, w: nat) {
    forall id: nat :: CoveredBy(s, w, id) ==> CoveredBy(t, w, id)
  }

  lemma CoverageStays(s: System, t: System, w: nat, id: nat)
    requires KeepsRevisions(s, t, w) && CoversAsMuch(s, t, w)
    requires Covered(s, id)
    ensures Covered(t, id)
  {
    if !CoveredByLast(s, id) {
      var i: nat :| CoveredBy(s, i, id);
      assert CoveredBy(t, i, id);
    }
  }

  lemma EnsureKeepsInv(env: Mlflow, s: System, w: nat)
    requires Inv(s) && Enabled(s, Ensure(w)) && s.writers[w].batch != {}
    ensures Inv(Apply(env, s, Ensure(w)))
  {
    var t := Apply(env, s, Ensure(w));
    assert WriterOk(s, s.writers[w]);
    OthersStayOk(s, t, w);
    RevisionsStayOk(s, t, w);
    forall id | id in t.spans ensures Covered(t, id) {
      CoverageStays(s, t, w, id);
    }
  }

  lemma StartKeepsInv(env: Mlflow, s: System, a: Start)
    requires Inv(s)
    ensures Inv(Apply(env, s, StartTrace(a)))
  {
    var t := Apply(env, s, StartTrace(a));
    OthersStayOk(s, t, |s.writers|);
    RevisionsStayOk(s, t, |s.writers|);
    forall id | id in t.spans ensures Covered(t, id) {
      CoverageStays(s, t, |s.writers|, id);
    }
  }

  lemma InsertAddsToSpans(env: Mlflow, s: System, w: nat, x: SpanRecord)
    requires Inv(s) && Enabled(s, Insert(w, x))
    ensures var t := Apply(env, s, Insert(w, x));
            s.spans.Values <= t.spans.Values && x.spanId in t.spans
  {
    var t := Apply(env, s, Insert(w, x));
    assert WriterOk(s, s.writers[w]);
    forall y | y in s.spans.Values ensures y in t.spans.Values {
      var id :| id in s.spans && s.spans[id] == y;
      assert t.spans[id] == y;
    }
  }

  lemma InsertMovesWriter(env: Mlflow, s: System, w: nat, x: SpanRecord)
    requires Inv(s) && Enabled(s, Insert(w, x))
    requires s.spans.Values <= Apply(env, s, Insert(w, x)).spans.Values && x.spanId in Apply(env, s, Insert(w, x)).spans
    ensures var t := Apply(env, s, Insert(w, x));
            && KeepsRevisions(s, t, w) && CoversAsMuch(s, t, w)
            && WriterOk(t, t.writers[w]) && CoveredBy(t, w, x.spanId)
  {
    var t := Apply(env, s, Insert(w, x));
    assert WriterOk(s, s.writers[w]);
    assert x in t.writers[w].batch;
  }

  lemma InsertKeepsInv(env: Mlflow, s: System, w: nat, x: SpanRecord)
    requires Inv(s) && Enabled(s, Insert(w, x))
    ensures Inv(Apply(env, s, Insert(w, x)))
  {
    var t := Apply(env, s, Insert(w, x));
    InsertAddsToSpans(env, s, w, x);
    InsertMovesWriter(env, s, w, x);
    OthersStayOk(s, t, w);
    RevisionsStayOk(s, t, w);
    InsertKeepsSpansOk(env, s, w, x);
  }

  lemma InsertKeepsSpansOk(env: Mlflow, s: System, w: nat, x: SpanRecord)
    requires SpansOk(s) && Enabled(s, Insert(w, x))
    requires var t := Apply(env, s, Insert(w, x));
             && s.spans.Values <= t.spans.Values && KeepsRevisions(s, t, w) && CoversAsMuch(s, t, w)
             && CoveredBy(t, w, x.spanId)
    ensures SpansOk(Apply(env, s, Insert(w, x)))
  {
    var t := Apply(env, s, Insert(w, x));
    forall id | id in t.spans ensures Covered(t, id) {
      if id == x.spanId {
        assert CoveredBy(t, w, id);
      } else {
        CoverageStays(s, t, w, id);
      }
    }
  }

  lemma BumpKeepsInv(env: Mlflow, s: System, w: nat)
    requires Inv(s) && Enabled(s, Bump(w))
    ensures Inv(Apply(env, s, Bump(w)))
  {
    var t := Apply(env, s, Bump(w));
    assert WriterOk(s, s.writers[w]);
    OthersStayOk(s, t, w);
    BumpKeepsRevisions(s, t, w);
    forall id | id in t.spans ensures Covered(t, id) {
      assert CoveredBy(t, w, id);
    }
  }

  /** The revision handed out is new. */
  lemma BumpKeepsRevisions(s: System, t: System, w: nat)
    requires RevisionsOk(s) && w < |s.writers| && forall i :: 0 <= i < |s.writers| ==> WriterOk(s, s.writers[i])
    requires s.writers[w].phase.Bumping?
    requires t.writers == s.writers[w := s.writers[w].(phase := Reading(Revision(s) + 1))]
    requires Revision(t) == Revision(s) + 1 && t.last == s.last
    ensures RevisionsOk(t) && LatestIsPending(t)
  {
    assert HoldsLatest(t, w);
    forall i | 0 <= i < |t.writers| && i != w ensures !Holds(t.writers[i], Revision(t)) {
      assert WriterOk(s, s.writers[i]);
    }
  }

  lemma ReadKeepsInv(env: Mlflow, s: System, w: nat)
    requires Inv(s) && Enabled(s, Read(w))
    ensures Inv(Apply(env, s, Read(w)))
  {
    var t := Apply(env, s, Read(w));
    assert WriterOk(s, s.writers[w]);
    var id0 :| id0 in s.spans;
    assert s.spans[id0] in s.spans.Values;
    OthersStayOk(s, t, w);
    RevisionsStayOk(s, t, w);
    forall id | id in t.spans ensures Covered(t, id) {
      assert s.spans[id] in s.spans.Values && s.spans[id].spanId == id;
      if CoveredBy(s, w, id) {
        assert CoveredBy(t, w, id);
      } else {
        CoverageStays(s, t, w, id);
      }
    }
  }

  lemma CommitKeepsRevision(env: Mlflow, d: TraceDoc, r: nat, s: Summary)
    ensures Commit(env, d, r, s).spanRevision == d.spanRevision
  {}

  /** A stale attempt was not covering anything as a holder, so its restart loses nothing. */
  lemma ConflictKeepsCoverage(s: System, w: nat, id: nat)
    requires Enabled(s, TryCommit(w)) && s.writers[w].phase.revision != Revision(s)
    requires Covered(s, id)
    ensures Covered(Conflicted(s, w), id)
  {
    var t := Conflicted(s, w);
    if !CoveredByLast(s, id) {
      var i: nat :| CoveredBy(s, i, id);
      assert CoveredBy(t, i, id);
    }
  }

  lemma ConflictKeepsRevisions(s: System, w: nat)
    requires Enabled(s, TryCommit(w)) && s.writers[w].phase.revision != Revision(s)
    requires RevisionsOk(s) && LatestIsPending(s)
    ensures RevisionsOk(Conflicted(s, w)) && LatestIsPending(Conflicted(s, w))
  {
    if exists i: nat :: HoldsLatest(s, i) {
      var i: nat :| HoldsLatest(s, i);
      assert HoldsLatest(Conflicted(s, w), i);
    }
  }

  lemma ConflictKeepsInv(s: System, w: nat)
    requires Inv(s) && Enabled(s, TryCommit(w))
    requires s.writers[w].phase.revision != Revision(s)
    ensures Inv(Conflicted(s, w))
  {
    var t := Conflicted(s, w);
    assert WriterOk(s, s.writers[w]);
    OthersStayOk(s, t, w);
    ConflictKeepsRevisions(s, w);
    forall id | id in t.spans ensures Covered(t, id) {
      ConflictKeepsCoverage(s, w, id);
    }
  }

  /** A valid attempt: the last commit becomes the snapshot of the revision's one holder. */
  lemma SuccessKeepsInv(s: System, t: System, w: nat)
    requires Inv(s) && Enabled(s, TryCommit(w))
    requires s.writers[w].phase.revision == Revision(s)
    requires t.doc.Some? && Revision(t) == Revision(s)
    requires t == Moved(s, w, Succeeded).(doc := t.doc, last :=
                    Some(Commitment(s.writers[w].phase.revision, s.writers[w].phase.snapshot, w)))
    ensures Inv(t)
  {
    assert WriterOk(s, s.writers[w]) && HoldsLatest(s, w);
    OthersStayOk(s, t, w);
    forall id | id in t.spans ensures Covered(t, id) {
      if exists i: nat :: CoveredBy(s, i, id) && i != w {
        var i: nat :| CoveredBy(s, i, id) && i != w;
        assert !Holds(s.writers[i], Revision(s));
        assert CoveredBy(t, i, id);
      } else {
        assert CoveredByLast(s, id) || CoveredBy(s, w, id);
        assert CoveredByLast(t, id);
      }
    }
  }

  lemma TryCommitKeepsInv(env: Mlflow, s: System, w: nat)
    requires Inv(s) && Enabled(s, TryCommit(w))
    ensures Inv(Apply(env, s, TryCommit(w)))
  {
    var me := s.writers[w];
    if me.phase.revision != Revision(s) {
      ConflictKeepsInv(s, w);
    } else {
      CommitKeepsRevision(env, s.doc.value, me.phase.revision, Summarize(env, Sorted(me.phase.snapshot), me.tags));
      SuccessKeepsInv(s, Apply(env, s, TryCommit(w)), w);
    }
  }

  /** Stored spans come from valid batches. */
  ghost predicate InputsOk(s: System) {
    && (forall i :: 0 <= i < |s.writers| ==> ValidBatch(s.writers[i].batch))
    && (forall id <- s.spans :: Unreserved(s.spans[id]))
  }

  /** First delivery wins: a stored span is never replaced or lost. */
  ghost predicate Extends(s: System, t: System) {
    forall id <- s.spans :: id in t.spans && t.spans[id] == s.spans[id]
  }

  lemma StepEffect(env: Mlflow, s: System, step: Step)
    requires Enabled(s, step)
    ensures var t := Apply(env, s, step);
            && |t.writers| == |s.writers|
            && (forall i :: 0 <= i < |s.writers| ==> t.writers[i].batch == s.writers[i].batch)
            && (step.Insert? || t.spans == s.spans)
  {
    match step
    case Ensure(w) =>
    case Insert(w, x) =>
    case Bump(w) =>
    case Read(w) =>
    case TryCommit(w) =>
      assert Committed(env, s, w).spans == s.spans && Conflicted(s, w).spans == s.spans;
    case StartTrace(a) =>
  }

  lemma StepKeepsInputs(env: Mlflow, s: System, step: Step)
    requires InputsOk(s) && Enabled(s, step)
    requires step.StartTrace? || WriterOk(s, s.writers[step.w])
    ensures InputsOk(Apply(env, s, step))
    ensures Extends(s, Apply(env, s, step))
  {
    StepEffect(env, s, step);
    if step.Insert? {
      assert ValidBatch(s.writers[step.w].batch);
      assert step.x in s.writers[step.w].batch;
    }
  }

  lemma StepKeepsInv(env: Mlflow, s: System, step: Step)
    requires InputsOk(s) && Inv(s) && Enabled(s, step)
    ensures Inv(Apply(env, s, step))
  {
    match step
    case Ensure(w) => EnsureKeepsInv(env, s, w);
    case Insert(w, x) => InsertKeepsInv(env, s, w, x);
    case Bump(w) => BumpKeepsInv(env, s, w);
    case Read(w) => ReadKeepsInv(env, s, w);
    case TryCommit(w) => TryCommitKeepsInv(env, s, w);
    case StartTrace(a) => StartKeepsInv(env, s, a);
  }

  /** Every state of every interleaving satisfies the protocol invariant, and no stored span is
      ever replaced or lost. */
  lemma {:induction false} RunKeepsInv(env: Mlflow, run: seq<System>, steps: seq<Step>, i: nat, j: nat)
    requires IsRun(env, run, steps) && i <= j < |run|
    ensures Inv(run[j]) && InputsOk(run[j])
    ensures Extends(run[i], run[j])
    decreases j
  {
    if j == 0 {
      InitialIsFine(run[0]);
    } else {
      RunKeepsInv(env, run, steps, if i < j then i else 0, j - 1);
      assert Enabled(run[j - 1], steps[j - 1]) && run[j] == Apply(env, run[j - 1], steps[j - 1]);
      StepKeepsEverything(env, run[j - 1], steps[j - 1]);
      if i < j { ExtendsOn(run[i], run[j - 1], run[j]); }
    }
  }

  /** Induction along a sequence of states. */
  lemma {:induction false} AlongRun(good: System -> bool, run: seq<System>, j: nat)
    requires j < |run| && good(run[0])
    requires forall i: nat :: i + 1 < |run| && good(run[i]) ==> good(run[i + 1])
    ensures good(run[j])
  {
    if j > 0 { AlongRun(good, run, j - 1); }
  }

  lemma InitialIsFine(s: System)
    requires Initial(s)
    ensures Inv(s) && InputsOk(s) && Extends(s, s)
  {}

  lemma StepKeepsEverything(env: Mlflow, s: System, step: Step)
    requires Inv(s) && InputsOk(s) && Enabled(s, step)
    ensures Inv(Apply(env, s, step)) && InputsOk(Apply(env, s, step)) && Extends(s, Apply(env, s, step))
  {
    StepKeepsInv(env, s, step);
    assert step.StartTrace? || WriterOk(s, s.writers[step.w]);
    StepKeepsInputs(env, s, step);
  }

  lemma ExtendsOn(s: System, t: System, u: System)
    requires Extends(s, t) && Extends(t, u)
    ensures Extends(s, u)
  {}

  /** Progress. In every reachable state: the attempt holding the latest revision, once it has
      its snapshot, commits it; and every unfinished writer can take its next step. */
  lemma LatestAttemptCommits(env: Mlflow, s: System, w: nat)
    requires Inv(s) && HoldsLatest(s, w) && s.writers[w].phase.Committing?
    ensures Enabled(s, TryCommit(w))
    ensures var t := Apply(env, s, TryCommit(w));
            t.writers[w].phase.Succeeded? &&
            t.last == Some(Commitment(Revision(t), s.writers[w].phase.snapshot, w))
  {
    assert WriterOk(s, s.writers[w]);
    SpansAreDistinct(s);
    CommitKeepsRevision(env, s.doc.value, Revision(s),
                        Summarize(env, Sorted(s.writers[w].phase.snapshot), s.writers[w].tags));
  }

  /** The writer's own next step. */
  ghost function NextStep(w: Writer, i: nat): Step
    requires !Finished(w) && (w.phase.Inserting? ==> w.phase.rest != {})
  {
    match w.phase
    case Ensuring => Ensure(i)
    case Inserting(rest) => var x :| x in rest; Insert(i, x)
    case Bumping => Bump(i)
    case Reading(_) => Read(i)
    case Committing(_, _) => TryCommit(i)
  }

  lemma WritersNeverBlock(s: System, i: nat)
    requires Inv(s) && i < |s.writers| && !Finished(s.writers[i])
    ensures s.writers[i].phase.Inserting? ==> s.writers[i].phase.rest != {}
    ensures Enabled(s, NextStep(s.writers[i], i))
  {
    assert WriterOk(s, s.writers[i]);
    SpansAreDistinct(s);
  }

  /** How many steps a writer has left at most: three attempts of three steps each. */
  ghost function StepsLeft(w: Writer): int {
    var attempts := 3 * (MAX_ATTEMPTS - w.conflicts);
    match w.phase
    case Ensuring => 1 + |w.batch| + attempts
    case Inserting(rest) => |rest| + attempts
    case Bumping => attempts
    case Reading(_) => attempts - 1
    case Committing(_, _) => attempts - 2
    case Succeeded => 0
    case GaveUp => 0
  }

  /** What one attempt comes to: it commits, or the conflict counts, and the third one gives up. */
  lemma OneAttempt(env: Mlflow, s: System, w: nat)
    requires Enabled(s, TryCommit(w)) && WriterOk(s, s.writers[w])
    ensures var me, after := s.writers[w], Apply(env, s, TryCommit(w)).writers[w];
            if me.phase.revision == Revision(s) then after == me.(phase := Succeeded)
            else after == me.(conflicts := me.conflicts + 1, phase := if me.conflicts == 2 then GaveUp else Bumping)
  {}

  lemma StepsAreBounded(env: Mlflow, s: System, step: Step)
    requires Enabled(s, step) && !step.StartTrace? && WriterOk(s, s.writers[step.w])
    ensures 0 <= StepsLeft(Apply(env, s, step).writers[step.w]) < StepsLeft(s.writers[step.w])
    ensures |Apply(env, s, step).writers| == |s.writers|
    ensures forall i :: 0 <= i < |s.writers| && i != step.w ==> Apply(env, s, step).writers[i] == s.writers[i]
  {
    WriterAfter(env, s, step);
    if step.TryCommit? { OneAttempt(env, s, step.w); }
    if step.Insert? { assert |s.writers[step.w].phase.rest - {step.x}| == |s.writers[step.w].phase.rest| - 1; }
  }

  /** How a step moves its writer on, but for commits. */
  lemma WriterAfter(env: Mlflow, s: System, step: Step)
    requires Enabled(s, step) && !step.StartTrace?
    ensures var t, w := Apply(env, s, step), s.writers[step.w];
            && |t.writers| == |s.writers|
            && (forall i :: 0 <= i < |s.writers| && i != step.w ==> t.writers[i] == s.writers[i])
            && match step
               case Ensure(_) => t.writers[step.w] == w.(phase := Inserting(w.batch))
               case Insert(_, x) =>
                 var rest := w.phase.rest - {x};
                 t.writers[step.w] == w.(phase := if rest == {} then Bumping else Inserting(rest))
               case Bump(_) => t.writers[step.w].phase.Reading? && t.writers[step.w].conflicts == w.conflicts
               case Read(_) => t.writers[step.w].conflicts == w.conflicts &&
                               (t.writers[step.w].phase.Committing? || t.writers[step.w].phase.GaveUp?)
               case _ => true
  {}

  // ---------- how long a run can be ----------

  ghost function TotalLeft(writers: seq<Writer>): int {
    if writers == [] then 0 else TotalLeft(writers[..|writers| - 1]) + StepsLeft(writers[|writers| - 1])
  }

  function WriterSteps(steps: seq<Step>): nat {
    if steps == [] then 0
    else WriterSteps(steps[..|steps| - 1]) + if steps[|steps| - 1].StartTrace? then 0 else 1
  }

  function Attempts(steps: seq<Step>, w: nat): nat {
    if steps == [] then 0
    else Attempts(steps[..|steps| - 1], w) + if steps[|steps| - 1] == TryCommit(w) then 1 else 0
  }

  lemma {:induction false} TotalLeftAfter(a: seq<Writer>, b: seq<Writer>, w: nat)
    requires |a| == |b| && w < |a| && forall i :: 0 <= i < |a| && i != w ==> b[i] == a[i]
    ensures TotalLeft(b) == TotalLeft(a) - StepsLeft(a[w]) + StepsLeft(b[w])
  {
    var n := |a| - 1;
    if w == n {
      assert a[..n] == b[..n];
    } else {
      TotalLeftAfter(a[..n], b[..n], w);
    }
  }

  lemma {:induction false} TotalLeftIsNat(s: System, writers: seq<Writer>)
    requires forall i :: 0 <= i < |writers| ==> WriterOk(s, writers[i])
    ensures 0 <= TotalLeft(writers)
  {
    if writers != [] {
      TotalLeftIsNat(s, writers[..|writers| - 1]);
      assert WriterOk(s, writers[|writers| - 1]);
    }
  }

  lemma StepUsesUp(env: Mlflow, s: System, step: Step)
    requires Inv(s) && Enabled(s, step)
    ensures TotalLeft(Apply(env, s, step).writers) + (if step.StartTrace? then 0 else 1) <= TotalLeft(s.writers)
  {
    if !step.StartTrace? {
      assert WriterOk(s, s.writers[step.w]);
      StepsAreBounded(env, s, step);
      TotalLeftAfter(s.writers, Apply(env, s, step).writers, step.w);
    }
  }

  lemma {:induction false} UsedUp(env: Mlflow, run: seq<System>, steps: seq<Step>, j: nat)
    requires IsRun(env, run, steps) && j < |run|
    ensures WriterSteps(steps[..j]) + TotalLeft(run[j].writers) <= TotalLeft(run[0].writers)
  {
    if j > 0 {
      UsedUp(env, run, steps, j - 1);
      RunKeepsInv(env, run, steps, 0, j - 1);
      assert steps[..j][..j - 1] == steps[..j - 1];
      StepUsesUp(env, run[j - 1], steps[j - 1]);
    }
  }

  /** No run is longer than what its writers have to do: each takes at most one step to ensure the trace,
      one for each span, and three attempts of three steps. */
  lemma RunsAreBounded(env: Mlflow, run: seq<System>, steps: seq<Step>)
    requires IsRun(env, run, steps)
    ensures WriterSteps(steps) <= TotalLeft(run[0].writers)
  {
    UsedUp(env, run, steps, |steps|);
    RunKeepsInv(env, run, steps, 0, |steps|);
    TotalLeftIsNat(run[|steps|], run[|steps|].writers);
    assert steps[..|steps|] == steps;
  }

  /** A writer after `n` attempts. */
  predicate Attempted(w: Writer, n: nat) {
    && n == w.conflicts + (if w.phase.Succeeded? then 1 else 0)
    && n <= MAX_ATTEMPTS
    && (!Finished(w) ==> n < MAX_ATTEMPTS)
  }

  lemma AttemptsByStep(env: Mlflow, s: System, step: Step, w: nat, n: nat)
    requires Enabled(s, step) && w < |s.writers| && WriterOk(s, s.writers[w]) && Attempted(s.writers[w], n)
    ensures var t := Apply(env, s, step);
            |t.writers| == |s.writers| && Attempted(t.writers[w], n + if step == TryCommit(w) then 1 else 0)
  {
    if step == TryCommit(w) { OneAttempt(env, s, w); }
  }

  lemma NextAttempts(env: Mlflow, run: seq<System>, steps: seq<Step>, i: nat, w: nat)
    requires IsRun(env, run, steps) && i < |steps| && w < |run[i].writers|
    ensures |run[i + 1].writers| == |run[i].writers|
    ensures Attempted(run[i].writers[w], Attempts(steps[..i], w)) ==>
              Attempted(run[i + 1].writers[w], Attempts(steps[..i + 1], w))
  {
    RunKeepsInv(env, run, steps, 0, i);
    assert steps[..i + 1][..i] == steps[..i] && steps[..i + 1][i] == steps[i];
    assert WriterOk(run[i], run[i].writers[w]);
    if Attempted(run[i].writers[w], Attempts(steps[..i], w)) {
      AttemptsByStep(env, run[i], steps[i], w, Attempts(steps[..i], w));
    } else {
      StepEffect(env, run[i], steps[i]);
    }
  }

  lemma {:induction false} AttemptsAreCounted(env: Mlflow, run: seq<System>, steps: seq<Step>, j: nat, w: nat)
    requires IsRun(env, run, steps) && j < |run| && w < |run[0].writers|
    ensures |run[j].writers| == |run[0].writers|
    ensures Attempted(run[j].writers[w], Attempts(steps[..j], w))
  {
    if j == 0 {
      assert run[0].writers[w] in run[0].writers;
    } else {
      AttemptsAreCounted(env, run, steps, j - 1, w);
      NextAttempts(env, run, steps, j - 1, w);
    }
  }

  /** Over every run a writer makes at most three attempts, and it has given up exactly if it has made
      three and none of them committed. */
  lemma AtMostThreeAttempts(env: Mlflow, run: seq<System>, steps: seq<Step>, w: nat)
    requires IsRun(env, run, steps) && w < |run[0].writers|
    ensures |run[|steps|].writers| == |run[0].writers| && Attempts(steps, w) <= MAX_ATTEMPTS
    ensures var me := run[|steps|].writers[w];
            me.phase.GaveUp? <==> Attempts(steps, w) == MAX_ATTEMPTS && !me.phase.Succeeded?
  {
    AttemptsAreCounted(env, run, steps, |steps|, w);
    RunKeepsInv(env, run, steps, 0, |steps|);
    assert steps[..|steps|] == steps;
    assert WriterOk(run[|steps|], run[|steps|].writers[w]);
  }

  lemma ExtendRun(env: Mlflow, run: seq<System>, steps: seq<Step>, step: Step)
    requires IsRun(env, run, steps) && Enabled(run[|steps|], step)
    ensures IsRun(env, run + [Apply(env, run[|steps|], step)], steps + [step])
  {
    var run', steps' := run + [Apply(env, run[|steps|], step)], steps + [step];
    forall i | 0 <= i < |steps'| ensures Enabled(run'[i], steps'[i]) && run'[i + 1] == Apply(env, run'[i], steps'[i]) {
      if i < |steps| { assert run'[i] == run[i] && run'[i + 1] == run[i + 1] && steps'[i] == steps[i]; }
    }
  }

  lemma NotYetFinished(env: Mlflow, run: seq<System>, steps: seq<Step>) returns (step: Step)
    requires IsRun(env, run, steps) && !Quiescent(run[|steps|])
    ensures !step.StartTrace? && Enabled(run[|steps|], step)
    ensures 0 <= TotalLeft(Apply(env, run[|steps|], step).writers) < TotalLeft(run[|steps|].writers)
  {
    RunKeepsInv(env, run, steps, 0, |steps|);
    step := SomeWriterMoves(env, run[|steps|]);
  }

  lemma SomeWriterMoves(env: Mlflow, s: System) returns (step: Step)
    requires Inv(s) && InputsOk(s) && !Quiescent(s)
    ensures !step.StartTrace? && Enabled(s, step)
    ensures 0 <= TotalLeft(Apply(env, s, step).writers) < TotalLeft(s.writers)
  {
    var i := SomeWriter(s);
    WritersNeverBlock(s, i);
    step := NextStep(s.writers[i], i);
    SomethingIsUsedUp(env, s, step);
  }

  lemma SomeWriter(s: System) returns (i: nat)
    requires !Quiescent(s)
    ensures i < |s.writers| && !Finished(s.writers[i])
  {
    var w :| w in s.writers && !Finished(w);
    i :| i < |s.writers| && s.writers[i] == w;
  }

  lemma SomethingIsUsedUp(env: Mlflow, s: System, step: Step)
    requires Inv(s) && InputsOk(s) && Enabled(s, step) && !step.StartTrace?
    ensures 0 <= TotalLeft(Apply(env, s, step).writers) < TotalLeft(s.writers)
  {
    StepUsesUp(env, s, step);
    SomethingIsLeft(env, s, step);
  }

  lemma SomethingIsLeft(env: Mlflow, s: System, step: Step)
    requires Inv(s) && InputsOk(s) && Enabled(s, step)
    ensures 0 <= TotalLeft(Apply(env, s, step).writers)
  {
    StepKeepsInv(env, s, step);
    TotalLeftIsNat(Apply(env, s, step), Apply(env, s, step).writers);
  }

  ghost predicate OnlyWriters(steps: seq<Step>, from: nat) {
    forall i :: from <= i < |steps| ==> !steps[i].StartTrace?
  }

  /** Every run can be continued, by its writers alone, until all of them have finished. */
  lemma {:induction false} EveryRunCanFinish(env: Mlflow, run: seq<System>, steps: seq<Step>)
    returns (run': seq<System>, steps': seq<Step>)
    requires IsRun(env, run, steps)
    ensures IsRun(env, run', steps') && Quiescent(run'[|steps'|])
    ensures run <= run' && steps <= steps' && OnlyWriters(steps', |steps|)
    decreases TotalLeft(run[|steps|].writers)
  {
    if Quiescent(run[|steps|]) {
      run', steps' := run, steps;
    } else {
      var step := NotYetFinished(env, run, steps);
      var t := Apply(env, run[|steps|], step);
      ExtendRun(env, run, steps, step);
      assert (run + [t])[|steps + [step]|] == t;
      run', steps' := EveryRunCanFinish(env, run + [t], steps + [step]);
      assert steps'[|steps|] == (steps + [step])[|steps|] == step;
    }
  }

  /** Once every writer has finished, whether it committed or gave up, the last commit summarised
      every span that is stored. */
  lemma LastCommitSawEverything(s: System)
    requires Inv(s) && Quiescent(s) && s.writers != []
    ensures s.last.Some? && s.last.value.snapshot == s.spans.Values
    ensures exists w <- s.writers :: w.phase.Succeeded?
  {
    assert WriterOk(s, s.writers[0]) && Finished(s.writers[0]);
    forall id | id in s.spans ensures CoveredByLast(s, id) {
      assert Covered(s, id);
      forall i: nat | i < |s.writers| ensures !CoveredBy(s, i, id) {
        assert Finished(s.writers[i]);
      }
    }
    var id :| id in s.spans;
    assert CoveredByLast(s, id);
    forall y | y in s.spans.Values ensures y in s.last.value.snapshot {
      var id :| id in s.spans && s.spans[id] == y;
      var x :| x in s.last.value.snapshot && x.spanId == id;
      assert x in s.spans.Values;
    }
    assert s.writers[s.last.value.writer] in s.writers;
  }
}
