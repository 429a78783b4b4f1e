/** At-least-once span delivery: batches may repeat identities and be repeated or split. */
module SpanDelivery {
  import opened Wrappers
  import opened SpanSummaries

  type Tags = map<string, string>

  /** A delivered span with its trace, and the tags a root span gives the trace; its identity is the
      pair of ids. */
  datatype Document = Document(traceId: nat, span: SpanRecord, rootTags: Tags)

  /** A span as it arrives: its document, and the trace tags of its resource if that is not empty. */
  datatype Arrival = Arrival(document: Document, resource: Option<Tags>)

  function Documents(batch: seq<Arrival>): seq<Document> {
    seq(|batch|, i requires 0 <= i < |batch| => batch[i].document)
  }

  type Spans = map<(nat, nat), SpanRecord>

  function Identity(d: Document): (nat, nat) {
    (d.traceId, d.span.spanId)
  }

  /** One `$setOnInsert` upsert. */
  function InsertAbsent(stored: Spans, d: Document): Spans {
    if Identity(d) in stored then stored else stored[Identity(d) := d.span]
  }

  /** What a stream of upserts leaves, in order. */
  function Deliver(stored: Spans, stream: seq<Document>): Spans {
    if stream == [] then stored
    else InsertAbsent(Deliver(stored, stream[..|stream| - 1]), stream[|stream| - 1])
  }

  predicate Has(documents: seq<Document>, id: (nat, nat)) {
    exists i :: 0 <= i < |documents| && Identity(documents[i]) == id
  }

  /** documents_by_identity: the first document of every identity, in order of arrival. */
  function FirstOfEach(batch: seq<Document>): seq<Document> {
    if batch == [] then []
    else
      var init, last := FirstOfEach(batch[..|batch| - 1]), batch[|batch| - 1];
      if Has(init, Identity(last)) then init else init + [last]
  }

  lemma HasSnoc(documents: seq<Document>, d: Document)
    ensures forall id :: Has(documents + [d], id) <==> Has(documents, id) || id == Identity(d)
  {
    forall id ensures Has(documents + [d], id) <==> Has(documents, id) || id == Identity(d) {
      assert (documents + [d])[|documents|] == d;
      if Has(documents, id) {
        var i :| 0 <= i < |documents| && Identity(documents[i]) == id;
        assert Identity((documents + [d])[i]) == id;
      }
    }
  }

  function OfTrace(documents: seq<Document>, t: nat): seq<Document> {
    if documents == [] then []
    else
      var init, last := OfTrace(documents[..|documents| - 1], t), documents[|documents| - 1];
      if last.traceId == t then init + [last] else init
  }

  /** Batches in the order they were stored, each de-duplicated first. */
  function StoreBatches(stored: Spans, batches: seq<seq<Document>>): Spans {
    if batches == [] then stored
    else Deliver(StoreBatches(stored, batches[..|batches| - 1]), FirstOfEach(batches[|batches| - 1]))
  }

  function Concat(batches: seq<seq<Document>>): seq<Document> {
    if batches == [] then [] else Concat(batches[..|batches| - 1]) + batches[|batches| - 1]
  }

  // ---------- trace tags of a batch ----------

  /** The document kept for an identity. */
  function Kept(documents: seq<Document>, id: (nat, nat)): Option<Document> {
    if documents == [] then None
    else
      var init, last := Kept(documents[..|documents| - 1], id), documents[|documents| - 1];
      if init.Some? then init else if Identity(last) == id then Some(last) else None
  }

  /** The first resource of a trace in the batch that is not empty. */
  function ResourceTags(batch: seq<Arrival>, t: nat): Option<Tags> {
    if batch == [] then None
    else
      var init, last := ResourceTags(batch[..|batch| - 1], t), batch[|batch| - 1];
      if init.Some? then init else if last.document.traceId == t then last.resource else None
  }

  /** The root tags of a trace: every arrival applies those of the document kept for its identity. */
  function RootTags(batch: seq<Arrival>, t: nat): Tags {
    if batch == [] then map[]
    else
      var init, last := RootTags(batch[..|batch| - 1], t), batch[|batch| - 1].document;
      var kept := Kept(Documents(batch), Identity(last));
      if last.traceId == t && kept.Some? then init + kept.value.rootTags else init
  }

  function BatchTags(batch: seq<Arrival>, t: nat): Tags {
    var resource := ResourceTags(batch, t);
    (if resource.Some? then resource.value else map[]) + RootTags(batch, t)
  }

  lemma {:induction false} KeptIsFirst(documents: seq<Document>, id: (nat, nat))
    ensures Kept(documents, id).Some? <==> Has(documents, id)
    ensures Kept(documents, id).Some? ==>
            exists i :: FirstAt(documents, i, id) && Kept(documents, id) == Some(documents[i])
  {
    if documents != [] {
      var init, last := documents[..|documents| - 1], documents[|documents| - 1];
      assert documents == init + [last];
      KeptIsFirst(init, id);
      HasSnoc(init, last);
      if Kept(init, id).Some? {
        var i :| FirstAt(init, i, id) && Kept(init, id) == Some(init[i]);
        assert FirstAt(documents, i, id) && documents[i] == init[i];
      } else if Identity(last) == id {
        assert FirstAt(documents, |init|, id) by {
          forall j | 0 <= j < |init| ensures Identity(documents[j]) != id {
            assert Identity(init[j]) == Identity(documents[j]);
          }
        }
      }
    }
  }

  /** A tag of a batch is a root tag of some span kept for the trace, and only without one a resource tag;
      no root tag of a kept span is lost. */
  lemma {:induction false} RootTagsWin(batch: seq<Arrival>, t: nat, k: string)
    ensures k in RootTags(batch, t) <==>
              exists i :: 0 <= i < |batch| && GivesTag(Documents(batch), batch[i].document, t, k)
    ensures k in RootTags(batch, t) ==> k in BatchTags(batch, t) && BatchTags(batch, t)[k] == RootTags(batch, t)[k]
  {
    if batch != [] {
      var init, last := batch[..|batch| - 1], batch[|batch| - 1];
      assert Documents(batch)[..|init|] == Documents(init);
      RootTagsWin(init, t, k);
      forall i | 0 <= i < |init|
        ensures GivesTag(Documents(batch), batch[i].document, t, k) <==>
                GivesTag(Documents(init), init[i].document, t, k)
      {
        KeptIsFirst(Documents(init), Identity(init[i].document));
        assert Identity(Documents(init)[i]) == Identity(init[i].document);
      }
      KeptIsFirst(Documents(batch), Identity(last.document));
      assert Identity(Documents(batch)[|init|]) == Identity(last.document);
      if i :| 0 <= i < |init| && GivesTag(Documents(init), init[i].document, t, k) {
        assert GivesTag(Documents(batch), batch[i].document, t, k);
      }
    }
  }

  /** The document kept for the identity of `d` belongs to the trace and has the root tag. */
  predicate GivesTag(documents: seq<Document>, d: Document, t: nat, k: string) {
    d.traceId == t && Kept(documents, Identity(d)).Some? && k in Kept(documents, Identity(d)).value.rootTags
  }

  /** Arrival `i` is the first of the trace whose resource is not empty. */
  ghost predicate FirstResource(batch: seq<Arrival>, t: nat, i: nat) {
    && i < |batch| && batch[i].document.traceId == t && batch[i].resource.Some?
    && forall j :: 0 <= j < i && batch[j].document.traceId == t ==> batch[j].resource.None?
  }

  lemma {:induction false} NoResource(batch: seq<Arrival>, t: nat)
    requires forall j :: 0 <= j < |batch| && batch[j].document.traceId == t ==> batch[j].resource.None?
    ensures ResourceTags(batch, t).None?
  {
    if batch != [] { NoResource(batch[..|batch| - 1], t); }
  }

  lemma {:induction false} ResourceIsFirst(batch: seq<Arrival>, t: nat, i: nat)
    requires FirstResource(batch, t, i)
    ensures ResourceTags(batch, t) == batch[i].resource
  {
    var init := batch[..|batch| - 1];
    if i < |init| {
      assert FirstResource(init, t, i);
      ResourceIsFirst(init, t, i);
    } else {
      NoResource(init, t);
    }
  }

  lemma {:induction false} FirstResourceExists(batch: seq<Arrival>, t: nat) returns (i: nat)
    requires ResourceTags(batch, t).Some?
    ensures FirstResource(batch, t, i)
  {
    var init := batch[..|batch| - 1];
    if ResourceTags(init, t).Some? {
      i := FirstResourceExists(init, t);
      assert batch[i] == init[i];
    } else {
      i := |init|;
      forall j | 0 <= j < i && batch[j].document.traceId == t ensures batch[j].resource.None? {
        if init[j].resource.Some? { SomeResource(init, t, j); }
      }
    }
  }

  lemma {:induction false} SomeResource(batch: seq<Arrival>, t: nat, j: nat)
    requires j < |batch| && batch[j].document.traceId == t && batch[j].resource.Some?
    ensures ResourceTags(batch, t).Some?
  {
    if j < |batch| - 1 { SomeResource(batch[..|batch| - 1], t, j); }
  }

  /** Arrival `i` is the last that applies root tag `k` of the trace. */
  ghost predicate LastRoot(batch: seq<Arrival>, t: nat, k: string, i: nat) {
    && i < |batch| && GivesTag(Documents(batch), batch[i].document, t, k)
    && forall j :: i < j < |batch| ==> !GivesTag(Documents(batch), batch[j].document, t, k)
  }

  /** What an earlier arrival gives does not change when more arrive. */
  lemma GivesTagStays(batch: seq<Arrival>, a: Arrival, i: nat, t: nat, k: string)
    requires i < |batch|
    ensures var id := Identity(batch[i].document); Kept(Documents(batch + [a]), id) == Kept(Documents(batch), id)
    ensures GivesTag(Documents(batch + [a]), batch[i].document, t, k) <==>
            GivesTag(Documents(batch), batch[i].document, t, k)
  {
    var id := Identity(batch[i].document);
    CollectKept(batch, a, id);
    KeptIsFirst(Documents(batch), id);
    assert Identity(Documents(batch)[i]) == id;
  }

  lemma {:induction false} RootTagIsLast(batch: seq<Arrival>, t: nat, k: string, i: nat)
    requires LastRoot(batch, t, k, i)
    ensures k in RootTags(batch, t)
    ensures Kept(Documents(batch), Identity(batch[i].document)).Some?
    ensures RootTags(batch, t)[k] == Kept(Documents(batch), Identity(batch[i].document)).value.rootTags[k]
  {
    var init, last := batch[..|batch| - 1], batch[|batch| - 1];
    assert batch == init + [last];
    CollectTags(init, last, t);
    if i < |init| {
      forall j: nat | j < |init|
        ensures GivesTag(Documents(batch), batch[j].document, t, k) <==>
                GivesTag(Documents(init), init[j].document, t, k)
      {
        GivesTagStays(init, last, j, t, k);
      }
      GivesTagStays(init, last, i, t, k);
      assert LastRoot(init, t, k, i);
      RootTagIsLast(init, t, k, i);
      assert !GivesTag(Documents(batch), last.document, t, k);
    }
  }

  /** The tags of a trace, one by one: the value of the last arrival with this root tag, otherwise that of
      the first non-empty resource, and no others. */
  lemma BatchTagsMeaning(batch: seq<Arrival>, t: nat, k: string)
    ensures forall i: nat :: LastRoot(batch, t, k, i) ==>
              k in BatchTags(batch, t) && Kept(Documents(batch), Identity(batch[i].document)).Some? &&
              BatchTags(batch, t)[k] == Kept(Documents(batch), Identity(batch[i].document)).value.rootTags[k]
    ensures forall i: nat :: FirstResource(batch, t, i) && !Rooted(batch, t, k) ==>
              (k in BatchTags(batch, t) <==> k in batch[i].resource.value) &&
              (k in BatchTags(batch, t) ==> BatchTags(batch, t)[k] == batch[i].resource.value[k])
    ensures k in BatchTags(batch, t) ==> Rooted(batch, t, k) || exists i: nat :: FirstResource(batch, t, i)
  {
    RootTagsWin(batch, t, k);
    if ResourceTags(batch, t).Some? { var i := FirstResourceExists(batch, t); }
    forall i: nat | FirstResource(batch, t, i) ensures ResourceTags(batch, t) == batch[i].resource {
      ResourceIsFirst(batch, t, i);
    }
    forall i: nat | LastRoot(batch, t, k, i)
      ensures k in RootTags(batch, t) && Kept(Documents(batch), Identity(batch[i].document)).Some?
      ensures RootTags(batch, t)[k] == Kept(Documents(batch), Identity(batch[i].document)).value.rootTags[k]
    {
      RootTagIsLast(batch, t, k, i);
    }
  }

  /** Some arrival applies the root tag. */
  ghost predicate Rooted(batch: seq<Arrival>, t: nat, k: string) {
    exists i :: 0 <= i < |batch| && GivesTag(Documents(batch), batch[i].document, t, k)
  }

  function Get<K, V>(m: map<K, V>, k: K): Option<V> {
    if k in m then Some(m[k]) else None
  }

  /** What the loop below has collected from the arrivals so far. */
  ghost predicate Collected(batch: seq<Arrival>, byIdentity: map<(nat, nat), Document>, resourceTags: map<nat, Tags>,
                            rootTags: map<nat, Tags>) {
    && (forall id :: Get(byIdentity, id) == Kept(Documents(batch), id))
    && (forall t :: Get(resourceTags, t) == ResourceTags(batch, t))
    && (forall t :: (if t in rootTags then rootTags[t] else map[]) == RootTags(batch, t))
  }

  lemma CollectKept(batch: seq<Arrival>, a: Arrival, id: (nat, nat))
    ensures Kept(Documents(batch + [a]), id) ==
              var init := Kept(Documents(batch), id);
              if init.Some? then init else if Identity(a.document) == id then Some(a.document) else None
  {
    assert Documents(batch + [a]) == Documents(batch) + [a.document];
    assert (Documents(batch) + [a.document])[..|batch|] == Documents(batch);
  }

  lemma CollectTags(batch: seq<Arrival>, a: Arrival, t: nat)
    ensures ResourceTags(batch + [a], t) ==
              if ResourceTags(batch, t).Some? then ResourceTags(batch, t)
              else if a.document.traceId == t then a.resource else None
    ensures var kept := Kept(Documents(batch + [a]), Identity(a.document));
            RootTags(batch + [a], t) ==
              if a.document.traceId == t && kept.Some? then RootTags(batch, t) + kept.value.rootTags
                  else RootTags(batch, t)
  {
    assert (batch + [a])[..|batch|] == batch && (batch + [a])[|batch|] == a;
  }

  /** One more arrival, as the loop below treats it. */
  lemma CollectOne(batch: seq<Arrival>, a: Arrival, byIdentity: map<(nat, nat), Document>, resourceTags: map<nat, Tags>,
                   rootTags: map<nat, Tags>, byIdentity': map<(nat, nat), Document>, resourceTags': map<nat, Tags>,
                   rootTags': map<nat, Tags>)
    requires Collected(batch, byIdentity, resourceTags, rootTags)
    requires var id := Identity(a.document);
             byIdentity' == if id in byIdentity then byIdentity else byIdentity[id := a.document]
    requires var t := a.document.traceId;
             && resourceTags' == (if t !in resourceTags && a.resource.Some? then resourceTags[t := a.resource.value]
                                  else resourceTags)
             && rootTags' == rootTags[t := (if t in rootTags then rootTags[t] else map[])
                                           + byIdentity'[Identity(a.document)].rootTags]
    ensures Collected(batch + [a], byIdentity', resourceTags', rootTags')
  {
    forall id ensures Get(byIdentity', id) == Kept(Documents(batch + [a]), id) {
      CollectKept(batch, a, id);
      assert Get(byIdentity, id) == Kept(Documents(batch), id);
    }
    forall t ensures Get(resourceTags', t) == ResourceTags(batch + [a], t)
             ensures (if t in rootTags' then rootTags'[t] else map[]) == RootTags(batch + [a], t)
    {
      CollectTags(batch, a, t);
      assert Get(resourceTags, t) == ResourceTags(batch, t);
      assert Get(byIdentity', Identity(a.document)) == Kept(Documents(batch + [a]), Identity(a.document));
    }
  }

  /** The first loop of _prepare_span_documents: de-duplicates and collects the two kinds of tags. */
  method CollectSpans(batch: seq<Arrival>)
    returns (documents: seq<Document>, byIdentity: map<(nat, nat), Document>, resourceTags: map<nat, Tags>,
             rootTags: map<nat, Tags>)
    ensures documents == FirstOfEach(Documents(batch))
    ensures Collected(batch, byIdentity, resourceTags, rootTags)
  {
    documents, byIdentity, resourceTags, rootTags := [], map[], map[], map[];
    for i := 0 to |batch|
      invariant documents == FirstOfEach(Documents(batch[..i]))
      invariant forall id :: id in byIdentity <==> Has(documents, id)
      invariant Collected(batch[..i], byIdentity, resourceTags, rootTags)
    {
      var d, resource := batch[i].document, batch[i].resource;
      ghost var (before, resources, roots) := (byIdentity, resourceTags, rootTags);
      assert batch[..i + 1] == batch[..i] + [batch[i]];
      assert Documents(batch[..i + 1])[..i] == Documents(batch[..i]);
      HasSnoc(documents, d);
      if Identity(d) !in byIdentity {
        byIdentity := byIdentity[Identity(d) := d];
        documents := documents + [d];
      }
      var document := byIdentity[Identity(d)];
      if d.traceId !in resourceTags && resource.Some? { resourceTags := resourceTags[d.traceId := resource.value]; }
      var root := if d.traceId in rootTags then rootTags[d.traceId] else map[];
      rootTags := rootTags[d.traceId := root + document.rootTags];
      CollectOne(batch[..i], batch[i], before, resources, roots, byIdentity, resourceTags, rootTags);
    }
    assert batch[..|batch|] == batch;
  }

  /** documents_by_trace */
  method GroupByTrace(documents: seq<Document>) returns (byTrace: map<nat, seq<Document>>)
    ensures forall t :: t in byTrace <==> exists d <- documents :: d.traceId == t
    ensures forall t <- byTrace :: byTrace[t] == OfTrace(documents, t)
  {
    byTrace := map[];
    for i := 0 to |documents|
      invariant forall t :: t in byTrace <==> exists d <- documents[..i] :: d.traceId == t
      invariant forall t <- byTrace :: byTrace[t] == OfTrace(documents[..i], t)
      invariant forall t :: t !in byTrace ==> OfTrace(documents[..i], t) == []
    {
      var d := documents[i];
      assert documents[..i + 1] == documents[..i] + [d];
      assert documents[..i + 1][..i] == documents[..i];
      byTrace := byTrace[d.traceId := (if d.traceId in byTrace then byTrace[d.traceId] else []) + [d]];
    }
    assert documents[..|documents|] == documents;
  }

  /** _prepare_span_documents: de-duplicate, group by trace, and compute the tags of each trace. */
  method PrepareSpanDocuments(batch: seq<Arrival>)
    returns (documents: seq<Document>, byTrace: map<nat, seq<Document>>, batchTags: map<nat, Tags>)
    ensures documents == FirstOfEach(Documents(batch))
    ensures forall t :: t in byTrace <==> exists d <- documents :: d.traceId == t
    ensures forall t <- byTrace :: byTrace[t] == OfTrace(documents, t)
    ensures batchTags.Keys == byTrace.Keys && forall t <- batchTags :: batchTags[t] == BatchTags(batch, t)
  {
    var byIdentity, resourceTags, rootTags;
    documents, byIdentity, resourceTags, rootTags := CollectSpans(batch);
    byTrace := GroupByTrace(documents);
    batchTags := map t <- byTrace ::
      (if t in resourceTags then resourceTags[t] else map[]) + (if t in rootTags then rootTags[t] else map[]);
    forall t | t in batchTags ensures batchTags[t] == BatchTags(batch, t) {
      TagsOfTrace(batch, byIdentity, resourceTags, rootTags, t);
    }
  }

  lemma TagsOfTrace(batch: seq<Arrival>, byIdentity: map<(nat, nat), Document>, resourceTags: map<nat, Tags>,
                    rootTags: map<nat, Tags>, t: nat)
    requires Collected(batch, byIdentity, resourceTags, rootTags)
    ensures (if t in resourceTags then resourceTags[t] else map[]) + (if t in rootTags then rootTags[t] else map[])
         == BatchTags(batch, t)
  {
    assert Get(resourceTags, t) == ResourceTags(batch, t);
  }

  // ---------- what delivery stores ----------

  /** A stored span is never replaced, and what is new is the stream's first of that identity. */
  lemma {:induction false} DeliverIsFirstWins(stored: Spans, stream: seq<Document>)
    ensures forall id :: id in Deliver(stored, stream) <==> id in stored || Has(stream, id)
    ensures forall id <- stored :: Deliver(stored, stream)[id] == stored[id]
    ensures forall id | id in Deliver(stored, stream) && id !in stored ::
              exists i :: FirstAt(stream, i, id) && Deliver(stored, stream)[id] == stream[i].span
  {
    if stream != [] {
      var init, last := stream[..|stream| - 1], stream[|stream| - 1];
      assert stream == init + [last];
      DeliverIsFirstWins(stored, init);
      HasSnoc(init, last);
      forall id | id in Deliver(stored, stream) && id !in stored
        ensures exists i :: FirstAt(stream, i, id) && Deliver(stored, stream)[id] == stream[i].span
      {
        if id in Deliver(stored, init) {
          var i :| FirstAt(init, i, id) && Deliver(stored, init)[id] == init[i].span;
          assert FirstAt(stream, i, id);
        } else {
          assert FirstAt(stream, |stream| - 1, id);
        }
      }
    }
  }

  ghost predicate FirstAt(stream: seq<Document>, i: int, id: (nat, nat)) {
    && 0 <= i < |stream| && Identity(stream[i]) == id
    && forall j :: 0 <= j < i ==> Identity(stream[j]) != id
  }

  lemma {:induction false} DeliverConcat(stored: Spans, a: seq<Document>, b: seq<Document>)
    ensures Deliver(stored, a + b) == Deliver(Deliver(stored, a), b)
  {
    if b == [] {
      assert a + b == a;
    } else {
      var init := b[..|b| - 1];
      assert (a + b)[..|a + b| - 1] == a + init;
      DeliverConcat(stored, a, init);
    }
  }

  lemma {:induction false} DedupingChangesNothing(stored: Spans, batch: seq<Document>)
    ensures Deliver(stored, FirstOfEach(batch)) == Deliver(stored, batch)
    ensures forall id :: Has(FirstOfEach(batch), id) ==> id in Deliver(stored, batch)
  {
    if batch != [] {
      var init, last := batch[..|batch| - 1], batch[|batch| - 1];
      DedupingChangesNothing(stored, init);
      if !Has(FirstOfEach(init), Identity(last)) {
        assert (FirstOfEach(init) + [last])[..|FirstOfEach(init)|] == FirstOfEach(init);
      }
      DeliverIsFirstWins(stored, FirstOfEach(batch));
    }
  }

  /** However a stream is cut into batches, and although each batch is de-duplicated on its own,
      the stored spans are those of folding insert-if-absent over the whole stream. */
  lemma {:induction false} BatchingDoesNotMatter(stored: Spans, batches: seq<seq<Document>>)
    ensures StoreBatches(stored, batches) == Deliver(stored, Concat(batches))
  {
    if batches != [] {
      var init, last := batches[..|batches| - 1], batches[|batches| - 1];
      BatchingDoesNotMatter(stored, init);
      DedupingChangesNothing(StoreBatches(stored, init), last);
      DeliverConcat(stored, Concat(init), last);
    }
  }

  /** Repeating any part of a stream that was already delivered stores nothing new. */
  lemma {:induction false} RedeliveryChangesNothing(stored: Spans, stream: seq<Document>, again: seq<Document>)
    requires forall d <- again :: Has(stream, Identity(d))
    ensures Deliver(Deliver(stored, stream), again) == Deliver(stored, stream)
  {
    if again != [] {
      DeliverIsFirstWins(stored, stream);
      assert again[|again| - 1] in again;
      assert forall d <- again[..|again| - 1] :: d in again;
      RedeliveryChangesNothing(stored, stream, again[..|again| - 1]);
    }
  }

  /** The groups partition the batch: a document is in the group of its own trace and no other. */
  lemma {:induction false} GroupsPartition(documents: seq<Document>, d: Document, t: nat)
    ensures d in OfTrace(documents, t) <==> d in documents && d.traceId == t
    ensures multiset(OfTrace(documents, d.traceId))[d] == multiset(documents)[d]
  {
    if documents != [] {
      var init, last := documents[..|documents| - 1], documents[|documents| - 1];
      assert documents == init + [last];
      GroupsPartition(init, d, t);
    }
  }
}
