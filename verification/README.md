# A verified model of the MongoDB stores for MLflow

The repository stores MLflow's tracking and model-registry data in MongoDB. It has no transactions: every
guarantee rests on single-document updates, on the order in which several of them are issued, and on update and
query expressions that are compiled in Python and run by the server. This project models those protocols and
compilers in Dafny and proves what every run of them keeps and what the compiled queries mean.

MongoDB itself is plain state: collections are maps, sets and sequences, and each `find_one_and_update`, each entry
of a `bulk_write` and each query is one atomic step. Unique indexes appear as the keys of the maps. Code that
changes stored documents is a class whose methods assign its collections; the concurrent protocols are state
machines over the same single-document steps, run by an arbitrary scheduler.

## Modules

- `ArrayOperations`: the keyed-array writes every tag, parameter, metadata and alias update is built from.
- `SpanSummaries`, `TraceDocuments`: how spans become a summary, and how a summary and authoritative trace
  information are written into a trace document.
- `SpanProtocol`, `SpanTotals`, `SpanConvergence`, `SpanDivergence`: span ingestion by many writers, with
  `start_trace` at any moment. The invariant of all interleavings, what every finished run gets right, convergence,
  and the exact limits of it.
- `Retry`, `SpanDelivery`, `TraceRepository`, `Assessments`: the bounded retry, first-wins delivery, the trace
  repository as a class, and the assessment flags.
- `RunBatches`, `RunConcurrency`: `log_batch`, alone and interleaved, with the rows of logged models.
- `LikeRegex`, `LoggedModelMetrics`, `ModelVersionSearch`: three query compilers with their meaning.
- `SearchOrder`, `Pagination`: the generated sort keys, and clients that follow page tokens.
- `Registry`, `RegistryConcurrency`: the model registry, one operation at a time and interleaved.

Each operation is specified by a function on the stored state that its method implements and the state machines
take apart into steps. What such a function does is stated a second time without it, field by field and for all
inputs, by lemmas named `...Meaning` and the predicates they use (`Summarises`, `Started`, `Updated`, `Applied`,
`Drafted`, `Redacted`, `Asked`).

## What came out

- **Span ingestion converges exactly when the spans agree.** The attempt that holds the latest revision cannot
  conflict, so a finished run always has a last commit that saw every stored span, also when other writers used up
  their attempts. So in every finished run, whatever the spans say, the times are those of all spans unless
  `start_trace` gave them, and so is every statistic all spans together have (`SpanTotals.TimesAndTotalsAreRight`).
  State, previews and metadata, however, are written once and then kept, so the document ends as the serial one if
  and only if no stored span, summarised alone, contradicts the summary of all (`SpanDivergence.AgreementIsExact`;
  one root span and no metadata key with two values is enough, `SpanConvergence.OneRootAgrees`). For every set of
  spans that disagrees there is a run of two writers, one after the other, that ends differently
  (`SpanDivergence.DisagreementDiverges`).
- **`start_trace` and a span commit commute exactly under a checkable condition** (`TraceDocuments.OrderDoesNotMatter`).
  Beyond the documented one (a final state, statistics that parse, no shared tag key) it allows open states equal to
  the derived one and shared tags with equal values.
- **Deleting an assessment restores the overridden one's flag unconditionally**, so the flags stay right exactly
  when no other assessment overrides the same one (`Assessments.DeleteKeepsValidExactly`).
- **`log_batch` is all or nothing but for one error.** The check in Python agrees with the pipeline's guard, so a
  refused batch has written nothing. But the unique index of a logged model's rows does not cover the value: a batch
  whose model rows contradict each other or stored ones fails after the run document and the run's history have been
  written (`RunBatches.TwoValuesBreakAllOrNothing`). A call fails so exactly if its rows and the stored ones together
  have two different rows of one identity, also under concurrency (`RunConcurrency.FailuresAreContradictions`). The
  cache of latest metrics agrees with the history all the same.
- **The prompt exclusion replaces filters it does not mean**: a dropped filter on the prompt tag is read as meant
  exactly for versions whose tag it accepts just when it is not "true" (`ModelVersionSearch.PromptExclusionMeaning`).
- **The fused tag filters rely on unique tag keys**, which all writes keep; with a repeated key they differ from
  independent filters (`ModelVersionSearch.RepeatedKeyBreaksFusion`).
- **`like_regex` accepts one final newline** beyond the LIKE meaning, for patterns that do not end in `%`.
- **The registry's two-step operations** never hand out a version number twice, never revive a deleted version, and
  leave at most one version in an active stage if every transition archives. Three interleavings do go wrong, and
  for each there is a run and the exact condition on the step that does it: an alias written after its version was
  deleted dangles (the source comments on this one), a version inserted after its model's versions were deleted is
  orphaned, and an archiving whose own version was moved away meanwhile, as by a crossing transition, empties its
  stage.

## Model

Paths are relative to the repository's root.

| member | source | states |
|---|---|---|
| ArrayOperations.MergeAsMap | mlflow_mongodb/infrastructure/array_operations.py:22-37 | merging keyed records overrides the stored object by the incoming one |
| ArrayOperations.MergeMissingAsMap | mlflow_mongodb/tracking/repositories/traces.py:588-603 | a missing-only merge lets every stored value win |
| ArrayOperations.PullAsMap | mlflow_mongodb/infrastructure/array_operations.py:63-70 | removing an element removes its key and nothing else |
| ArrayOperations.WritesKeepKeysUnique | mlflow_mongodb/infrastructure/array_operations.py:40-60 | none of these writes ever stores a key twice |
| ArrayOperations.LastOfEachAsMap | mlflow_mongodb/tracking/repositories/runs.py:438-449 | resolving duplicate keys of a batch gives unique keys and the last value of each |
| SpanSummaries.Sorted | mlflow_mongodb/tracking/repositories/traces.py:467-487 | the snapshot lists every span exactly, in query order |
| SpanSummaries.SortedIsUnique | mlflow_mongodb/tracking/repositories/traces.py:467-487 | the snapshot order is total, so the summary depends only on the set of spans |
| SpanSummaries.SnapshotOrder | mlflow_mongodb/tracking/repositories/traces.py:467-487 | the snapshot is strictly ordered by start time, then span id |
| SpanSummaries.SummarizeSpans | mlflow_mongodb/tracking/store.py:1516-1545 | the summary field by field: in progress if and only if no span is a root, else the state and previews of the first root; the milliseconds of the minimum start and maximum end; every metadata key with its first value; the aggregators' totals |
| SpanSummaries.SummaryMeaning | mlflow_mongodb/tracking/store.py:1516-1545 | the summary the protocols commit has this field-by-field meaning |
| SpanSummaries.SummaryIsDetermined | mlflow_mongodb/tracking/store.py:1516-1545 | the meaning leaves no choice: two summaries of the same spans that have it are equal, up to the order of the metadata array |
| SpanSummaries.MinStartBounds | mlflow_mongodb/tracking/store.py:1516-1545 | the start is attained by a span and bounds all |
| SpanSummaries.MaxEndBounds | mlflow_mongodb/tracking/store.py:1516-1545 | the end is attained by an ended span and bounds all ended spans |
| SpanSummaries.FirstRootIsEarliest | mlflow_mongodb/tracking/store.py:1516-1545 | the root is the earliest one, missing only if no span is a root |
| SpanSummaries.FirstMetadataIsEarliest | mlflow_mongodb/tracking/store.py:1516-1545 | every metadata key of a span is kept, with the value of the earliest span that has it |
| SpanSummaries.LateSpansWidenTheInterval | mlflow_mongodb/tracking/store.py:1516-1545 | under added spans the millisecond start never increases and start plus duration never decreases |
| TraceDocuments.CommitAsMap | mlflow_mongodb/tracking/repositories/traces.py:489-575 | metadata and tags of a committed document: stored metadata wins, aggregates replace unless authoritative |
| TraceDocuments.StartTraceMeaning | mlflow_mongodb/tracking/repositories/traces.py:178-221 | every field after start_trace: the arguments, the union of the run ids, tags and metadata overriding the stored objects, statistics and previews replaced if given, and nothing else |
| TraceDocuments.CommitMeaning | mlflow_mongodb/tracking/repositories/traces.py:489-586 | every field after a commit: open states and non-final times replaced, previews and metadata filled in, statistics replaced unless authoritative, tags overridden; a stale revision changes nothing |
| TraceDocuments.PlaceholderMeaning | mlflow_mongodb/tracking/repositories/traces.py:291-304 | a trace created for its spans is in progress since the given time and carries the span-location tag alone; an upsert without a match starts from the filter's fields alone |
| TraceDocuments.StartAndCommitCommute | mlflow_mongodb/tracking/repositories/traces.py:178-221 | start_trace and a valid summary commit commute if and only if OrderDoesNotMatter |
| TraceDocuments.CleanStartsCommute | mlflow_mongodb/tracking/repositories/traces.py:492-575 | with a final state, parsing statistics and disjoint tags both orders give the same document |
| SpanProtocol.RunKeepsInv | mlflow_mongodb/tracking/store.py:1547-1608 | in every interleaving the protocol invariant holds and no stored span is replaced or lost |
| SpanProtocol.StepKeepsInv | mlflow_mongodb/tracking/repositories/traces.py:455-586 | every single step of any writer, and start_trace, keeps the invariant |
| SpanProtocol.LatestAttemptCommits | mlflow_mongodb/tracking/repositories/traces.py:489-586 | the attempt that holds the latest revision cannot conflict and commits |
| SpanProtocol.WritersNeverBlock | mlflow_mongodb/tracking/store.py:1582-1608 | an unfinished writer can always take its next step |
| SpanProtocol.OneAttempt | mlflow_mongodb/infrastructure/retry.py:34-52 | an attempt commits, or its conflict is counted and the third one gives up |
| SpanProtocol.AtMostThreeAttempts | mlflow_mongodb/tracking/store.py:1582-1608 | over every run a writer makes at most three attempts, and has given up if and only if it made three and none committed |
| SpanProtocol.StepsAreBounded | mlflow_mongodb/infrastructure/retry.py:34-52 | every step of a writer shortens what it has left and leaves the other writers as they are |
| SpanProtocol.RunsAreBounded | mlflow_mongodb/infrastructure/retry.py:34-52 | no run takes more writer steps than one per trace and span and three attempts of three steps for each writer |
| SpanProtocol.EveryRunCanFinish | mlflow_mongodb/tracking/store.py:1582-1608 | every run extends, by steps of its writers alone, to one in which all of them have finished |
| SpanProtocol.LastCommitSawEverything | mlflow_mongodb/tracking/repositories/traces.py:455-586 | once all writers have finished, some succeeded and the last commit summarised every stored span |
| SpanConvergence.OneRootAgrees | mlflow_mongodb/tracking/store.py:1516-1545 | one root and no metadata key with two values make the spans agree |
| SpanTotals.TimesAndTotalsAreRight | mlflow_mongodb/tracking/repositories/traces.py:492-575 | in every finished run, whatever the spans and states, times are those of all spans or of the last start_trace, and unclaimed statistics those of all spans, natively and in the metadata |
| SpanTotals.MissingTotalsAreRight | mlflow_mongodb/tracking/repositories/traces.py:492-575 | with aggregators that lose no total, unclaimed statistics are those of all spans also when there is none |
| SpanConvergence.QuiescentRunIsSerial | mlflow_mongodb/tracking/store.py:1582-1608 | if the spans agree, a finished run, with start_trace anywhere, reads as: all start_trace calls, then one commit of all spans |
| SpanDivergence.DisagreementDiverges | mlflow_mongodb/tracking/repositories/traces.py:492-575 | for every set of spans that disagrees there is a run that never corrects what the first writer stored |
| SpanDivergence.AgreementIsExact | mlflow_mongodb/tracking/repositories/traces.py:489-575 | spans agree if and only if every finished run storing exactly them ends as the serial document |
| Retry.RetryOnException | mlflow_mongodb/infrastructure/retry.py:34-52 | the result is that of the last call, every earlier call raised the retried exception, exhaustion raises what the factory makes of it, calls and backoffs are bounded |
| SpanDelivery.PrepareSpanDocuments | mlflow_mongodb/tracking/store.py:1547-1580 | keeps the first document of each identity, groups them by trace in order, and gives each trace its first non-empty resource overridden by its root tags |
| SpanDelivery.RootTagsWin | mlflow_mongodb/tracking/store.py:1562-1579 | root tags win over resource tags whatever the order, and none of a kept span is lost |
| SpanDelivery.BatchTagsMeaning | mlflow_mongodb/tracking/store.py:1562-1579 | the tags of a trace one by one: the root tag of the last arrival that has it, otherwise that of the first non-empty resource, and no others |
| SpanDelivery.DeliverIsFirstWins | mlflow_mongodb/tracking/repositories/traces.py:438-453 | stored spans are the union of what was stored and delivered, each as first delivered |
| SpanDelivery.DedupingChangesNothing | mlflow_mongodb/tracking/store.py:1556-1580 | removing duplicates inside a batch does not change what is stored |
| SpanDelivery.BatchingDoesNotMatter | mlflow_mongodb/tracking/repositories/traces.py:438-453 | splitting the stream into batches does not change what is stored |
| SpanDelivery.RedeliveryChangesNothing | mlflow_mongodb/tracking/repositories/traces.py:438-453 | repeating deliveries changes nothing |
| SpanDelivery.GroupsPartition | mlflow_mongodb/tracking/store.py:1556-1580 | grouping by trace is a partition of the batch |
| TraceRepository.TraceRepository.UpsertTrace | mlflow_mongodb/tracking/repositories/traces.py:230-249 | the upsert with its retries: the new document from the stored or racing one, or an error for a foreign owner |
| TraceRepository.UpsertMeaning | mlflow_mongodb/tracking/repositories/traces.py:178-249 | the upsert writes every field of the call over the stored, the racing or a blank document of the experiment, and fails exactly at another experiment's |
| TraceRepository.TraceRepository.UpsertAssessments | mlflow_mongodb/tracking/repositories/traces.py:324-356 | the ordered bulk of replacing upserts, each with the last content supplied for its id |
| TraceRepository.TraceRepository.StartTrace | mlflow_mongodb/tracking/repositories/traces.py:160-228 | every field of the stored trace document, whichever retry wrote it, and the supplied assessments; succeeds if and only if no other owner has any of them; what each failure leaves behind |
| TraceRepository.TraceRepository.BulkUpsert | mlflow_mongodb/tracking/repositories/traces.py:251-289 | an unordered bulk of insert-if-absent upserts fails exactly at the ids another experiment owns or a race took |
| TraceRepository.TraceRepository.EnsureTraces | mlflow_mongodb/tracking/repositories/traces.py:251-289 | on return all ids exist, new ones as placeholders with the requested times, existing documents are untouched, foreign ids end in an error, at most three bulks are sent and each sends again only what failed |
| TraceRepository.NewTracesAreStarted | mlflow_mongodb/tracking/repositories/traces.py:259-304 | the documents a bulk adds are in progress, since the requested times, and carry the span-location tag alone |
| TraceRepository.ResubmitsWhatFailed | mlflow_mongodb/tracking/repositories/traces.py:276-289 | the list shrunk by error indexes contains exactly the operations that failed |
| TraceRepository.NothingLeftToInsert | mlflow_mongodb/tracking/repositories/traces.py:259-275 | repeating upserts whose traces exist changes no document |
| TraceRepository.TraceRepository.LogSpans | mlflow_mongodb/tracking/repositories/traces.py:438-453 | the bulk of insert-if-absent writes is delivery of the batch |
| TraceRepository.TraceRepository.SpanSummarySnapshot | mlflow_mongodb/tracking/repositories/traces.py:455-487 | increments the revision, then reads all spans in order |
| TraceRepository.TraceRepository.UpdateSpanSummary | mlflow_mongodb/tracking/repositories/traces.py:489-586 | commits under the snapshot's revision, else changes nothing and tells a conflict from a missing trace |
| TraceRepository.TraceRepository.RefreshTraceSpanSummary | mlflow_mongodb/tracking/store.py:1582-1608 | one attempt without interference commits the summary of all spans of the trace, or reports one without spans |
| TraceRepository.RefreshMeaning | mlflow_mongodb/tracking/store.py:1582-1608 | what a refresh leaves is the document with a field-by-field summary of exactly the given spans written into it field by field |
| TraceRepository.TraceRepository.SelectOldest | mlflow_mongodb/tracking/repositories/traces.py:964-977 | the matching traces up to the limit, every one of them older than those left out |
| TraceRepository.MatchingMeaning | mlflow_mongodb/tracking/repositories/traces.py:958-962 | a trace matches if it is of the experiment, not younger than the bound if there is one, and listed if ids are |
| TraceRepository.DeleteAllMeaning | mlflow_mongodb/tracking/repositories/traces.py:978-992 | a complete deletion removes exactly the spans and assessments of the selected traces and those traces of the experiment |
| TraceRepository.TraceRepository.DeleteTraces | mlflow_mongodb/tracking/repositories/traces.py:944-992 | deletes the oldest matching traces up to the limit, children first, cut off anywhere inside any of its three deletes |
| TraceRepository.InterruptedDeletionLeavesNoOrphans | mlflow_mongodb/tracking/repositories/traces.py:958-992 | wherever the deletes are cut off, with any of their documents gone, no span or assessment lacks its trace |
| TraceRepository.InterruptedDeletionCanBeRepeated | mlflow_mongodb/tracking/repositories/traces.py:958-992 | repeating an unlimited deletion that was cut off anywhere ends as an uninterrupted one |
| TraceRepository.TraceRepository.CreateAssessment | mlflow_mongodb/tracking/repositories/traces.py:368-393 | clears the flag of the overridden assessment, then inserts; the error cases and what they leave behind |
| TraceRepository.TraceRepository.UpdateAssessment | mlflow_mongodb/tracking/store.py:1885-1956 | refuses a patch of the other kind of value, else applies the update pipeline |
| TraceRepository.TraceRepository.DeleteAssessment | mlflow_mongodb/tracking/repositories/traces.py:421-436 | restores the flag of the overridden assessment, then deletes |
| Assessments.AggregatesStayMatched | mlflow_mongodb/tracking/repositories/traces.py:306-436 | create, update and delete keep the aggregate equal to that of the stored content |
| Assessments.AggregateMeaning | mlflow_mongodb/tracking/repositories/traces.py:307-322 | truth values and the normalised texts yes and no count 1 and 0, finite numbers themselves, everything else nothing, a feedback before an expectation |
| Assessments.CreateMeaning | mlflow_mongodb/tracking/repositories/traces.py:368-393 | each outcome of a creation: the flag of the overridden assessment is cleared even if the id is taken, and nothing else but the new document changes |
| Assessments.UpdateMeaning | mlflow_mongodb/tracking/repositories/traces.py:395-419 | every field after an update: given values and rationale replace, metadata is overridden key by key, the aggregate follows a given value |
| Assessments.DeleteMeaning | mlflow_mongodb/tracking/repositories/traces.py:421-436 | a deletion removes the assessment of the trace, sets the flag of the overridden one, and changes nothing else |
| Assessments.CreateKeepsValid | mlflow_mongodb/tracking/repositories/traces.py:368-393 | creating under a fresh id keeps the validity flags right, also when the target is missing |
| Assessments.DeleteKeepsValidExactly | mlflow_mongodb/tracking/repositories/traces.py:421-436 | deleting keeps the flags right if and only if no other assessment overrides the same one |
| Assessments.DoubleOverrideBreaksValid | mlflow_mongodb/tracking/repositories/traces.py:421-436 | two overrides of one assessment: deleting one leaves it valid while still overridden |
| Assessments.ReplaceAllMeaning | mlflow_mongodb/tracking/repositories/traces.py:324-356 | the bulk succeeds if and only if no other trace owns one of the ids, and then stores the last content of each and touches nothing else |
| Assessments.RunKeepsAggregates | mlflow_mongodb/tracking/repositories/traces.py:306-436 | over every run of creations, updates, deletions and replacements the aggregates match the stored contents |
| Assessments.RunKeepsFlags | mlflow_mongodb/tracking/repositories/traces.py:368-436 | over every run under fresh ids without double overrides, an assessment is valid if and only if no stored one overrides it |
| RunBatches.LatestKeeps | mlflow_mongodb/tracking/repositories/runs.py:575-627 | the cache keeps one entry per key, dominates all it dominated and the batch, and invents nothing |
| RunBatches.ReplayChangesNothing | mlflow_mongodb/tracking/repositories/runs.py:575-627 | metrics that were merged before change nothing, not even the order of the array |
| RunBatches.ParamsOnlyGrow | mlflow_mongodb/tracking/repositories/runs.py:417-449 | an accepted batch keeps every stored parameter value |
| RunBatches.UpdateMeaning | mlflow_mongodb/tracking/repositories/runs.py:417-449 | an update is accepted if and only if the run is active and no stored parameter has another value; then parameters and tags override the stored objects, the last run-name tag names the run, each metric key has its most recent value, and nothing else changes |
| RunBatches.RowsMeaning | mlflow_mongodb/tracking/repositories/runs.py:484-490 | the model rows of a batch are those of its metrics with a model id, and no other |
| RunBatches.ConsistentMeaning | mlflow_mongodb/tracking/repositories/runs.py:491-502 | rows fit together if no two of one model, run, key, time and step differ in value or dataset |
| RunBatches.FirstConflict | mlflow_mongodb/tracking/repositories/runs.py:472-482 | the check in Python finds no conflict exactly if the pipeline's guard held, else the first contradicting parameter |
| RunBatches.WriteRowsMeaning | mlflow_mongodb/tracking/repositories/runs.py:484-502 | the bulk of model rows succeeds if and only if stored and new rows have no two different rows of one identity |
| RunBatches.ErrorsLeaveNothingExactly | mlflow_mongodb/tracking/repositories/runs.py:412-502 | a call leaves the store as it was if and only if its update is refused or all it writes was there before; batches without model ids never clash |
| RunBatches.TwoValuesBreakAllOrNothing | mlflow_mongodb/tracking/repositories/runs.py:484-502 | two values for one point of a logged model: the call fails after the document and both history rows are written |
| RunBatches.RunRepository.LogBatch | mlflow_mongodb/tracking/repositories/runs.py:412-502 | logged if and only if active, without contradicting parameters, and with model rows that fit; then, and after a clash of model rows, parameters, tags, name, metrics and history are written and other runs untouched; all other errors leave everything unchanged |
| RunConcurrency.HistoryIsAlwaysDominated | mlflow_mongodb/tracking/repositories/runs.py:412-502 | at every moment the cache has one entry per key and it outranks every history row of the key |
| RunConcurrency.QuiescentCacheIsMaximum | mlflow_mongodb/tracking/repositories/runs.py:412-502 | once all calls have ended, failed ones included, the cache has for every key a history row of the largest step, among those the latest time, among those the largest value, NaN counting zero |
| RunConcurrency.CacheIsDetermined | mlflow_mongodb/tracking/repositories/runs.py:575-627 | two such caches of one history agree in rank, whatever the batching and order |
| RunConcurrency.ReplayIsANoOp | mlflow_mongodb/tracking/repositories/runs.py:412-502 | replaying a batch whose call completed, or failed among its model rows, changes neither cache nor run history |
| RunConcurrency.FailuresAreContradictions | mlflow_mongodb/tracking/repositories/runs.py:484-502 | in every interleaving an accepted call has failed if and only if its model rows contradict the stored ones |
| RunConcurrency.ParamsNeverChange | mlflow_mongodb/tracking/repositories/runs.py:417-482 | in every run a stored parameter value never changes |
| LikeRegex.PatternParses | mlflow_mongodb/infrastructure/search_filters.py:38-46 | the escaped, replaced and anchored text reads as literals, dots, dot-stars and anchors for every pattern |
| LikeRegex.LikeRegexMeaning | mlflow_mongodb/infrastructure/search_filters.py:38-46 | the search succeeds if and only if LIKE accepts the string, or the string less one final newline for a pattern not ending in % |
| LikeRegex.LikeOne | mlflow_mongodb/infrastructure/search_filters.py:38-46 | LIKE of one character: % is any string, _ any character, another one itself |
| LikeRegex.LikeConcat | mlflow_mongodb/infrastructure/search_filters.py:38-46 | LIKE of a composed pattern: some cut of the string matches part by part, which with LikeOne determines LIKE |
| LoggedModelMetrics.MetricStages | mlflow_mongodb/tracking/repositories/logged_models.py:355-449 | the loops build the prefilter, the flags and the sort scopes of the plan |
| LoggedModelMetrics.FusedFiltersAreExact | mlflow_mongodb/tracking/repositories/logged_models.py:362-449 | the fused group accepts a model if and only if every filter holds on its own: some row of the model, the metric and the dataset scope satisfies the comparison |
| LoggedModelMetrics.FusedSortValuesAreExact | mlflow_mongodb/tracking/repositories/logged_models.py:392-416 | each sort value is that of the row of its own scope with the largest timestamp, then step, then smallest run id and id, or missing, never of rows fetched for others |
| ModelVersionSearch.BuildFilterClauses | mlflow_mongodb/model_registry/repositories/model_versions.py:679-740 | the loops build attribute clauses in order and one element match per tag key |
| ModelVersionSearch.ClausesAreIndependent | mlflow_mongodb/model_registry/repositories/model_versions.py:699-740 | with unique tag keys the clauses hold if and only if each filter holds on its own |
| ModelVersionSearch.SatisfiesIsAsked | mlflow_mongodb/infrastructure/search_filters.py:22-46 | on a value that is there, each compiled comparison accepts what its comparator asks |
| ModelVersionSearch.PlanIsFilteredJoin | mlflow_mongodb/model_registry/repositories/model_versions.py:594-651 | filtering, joining and filtering by name returns the joined relation filtered by everything, in order; a filter asks its comparator of the tag or of the field its key denotes, and a missing value satisfies none |
| ModelVersionSearch.RepeatedKeyBreaksFusion | mlflow_mongodb/model_registry/repositories/model_versions.py:714-739 | with a repeated tag key the fused filters and independent filters differ |
| ModelVersionSearch.PromptExclusionMeaning | mlflow_mongodb/model_registry/repositories/model_versions.py:596-624 | for every filter on the prompt tag: the exclusion reads as the filter with a missing tag accepted if and only if the filter accepts the tag just when it is not "true" |
| ModelVersionSearch.DefaultPromptFilters | mlflow_mongodb/model_registry/repositories/model_versions.py:610-624 | "is not true" is always read as meant, "is false" if and only if the tag is missing, "true" or "false" |
| SearchOrder.CompareLaws | mlflow_mongodb/tracking/repositories/runs.py:110-133 | the null-first order of values is a total order |
| SearchOrder.CompareMeaning | mlflow_mongodb/tracking/repositories/runs.py:110-133 | the comparison is the ascending order of values: null, NaN, numbers, texts character by character, truth values |
| SearchOrder.RunSort | mlflow_mongodb/tracking/repositories/runs.py:110-133 | the loop builds rank and value keys for every order |
| SearchOrder.ModelSort | mlflow_mongodb/tracking/repositories/logged_models.py:469-496 | the loop builds null flags only for ascending nullable orders, and never overwrites a key |
| SearchOrder.TraceSort | mlflow_mongodb/tracking/repositories/traces.py:713-744 | the loop builds direct or ranked keys and appends the missing tie breakers |
| SearchOrder.ParseRunOrder | mlflow_mongodb/tracking/store.py:690-710 | refuses exactly the lists that repeat a field, and appends the default orders |
| SearchOrder.ParseModelOrder | mlflow_mongodb/tracking/store.py:2258-2328 | drops later repetitions, appends the defaults, and accepts no list that compiles to more than 32 keys |
| SearchOrder.FirstMentionsOrderAlike | mlflow_mongodb/tracking/store.py:2304-2310 | dropping later repetitions of a field never changes the ordering |
| SearchOrder.KeysRealiseTheOrder | mlflow_mongodb/tracking/repositories/logged_models.py:483-493 | in each search the generated keys compare as requested, missing values last in both directions, NaN run metrics just before them |
| SearchOrder.SearchesOrderAsAsked | mlflow_mongodb/tracking/store.py:704-710 | the sent keys order by the caller's list with missing values last, then the newest first, then by id, strictly between different ids |
| SearchOrder.SearchIsDeterministic | mlflow_mongodb/tracking/repositories/traces.py:738-744 | all executions of a search over the same documents return one list, strictly in the requested order |
| Pagination.SearchRuns | mlflow_mongodb/tracking/store.py:600-631 | which page requests are refused, and the page and token of the others |
| Pagination.PagesFlatten | mlflow_mongodb/model_registry/repositories/model_versions.py:653-677 | following the tokens with any page sizes lists everything from the first offset on |
| Pagination.PageIsFilled | mlflow_mongodb/tracking/store.py:1800-1814 | all pages but the last are full; trace search may end with one empty page, the others only on an empty list |
| Pagination.FollowingTokensListsEverything | mlflow_mongodb/tracking/store.py:619-631 | although every page is its own query, the pages make up one complete list in the requested order |
| Registry.TagsByKey | mlflow_mongodb/model_registry/store.py:895-898 | the loop builds the dictionary of initial tags |
| Registry.ExecKeepsValid | mlflow_mongodb/model_registry/store.py:799-1111 | every operation keeps names unique, versions numbered 1 to the counter, and every alias on a live version of its model |
| Registry.Run | mlflow_mongodb/model_registry/store.py:799-1111 | every sequential run from a valid registry ends in a valid one |
| Registry.DeletedIsAbsorbing | mlflow_mongodb/model_registry/repositories/model_versions.py:304-355 | a soft-deleted version stays as redacted through every run, or its model is gone for good |
| Registry.DeletionHidesTheRest | mlflow_mongodb/model_registry/repositories/model_versions.py:331-352 | deleting makes two contents of a version indistinguishable if and only if storage location, status, model id, tags and creation time agree |
| Registry.ArchivingLeavesOne | mlflow_mongodb/model_registry/repositories/model_versions.py:250-279 | after an archiving transition the moved version is the only one in the stage, the displaced ones are archived, the rest untouched |
| Registry.AliasFollowsItsWrites | mlflow_mongodb/model_registry/repositories/registered_models.py:430-525 | what each operation makes of each alias: only writing it, deleting its version or its model changes it |
| Registry.AliasSurvives | mlflow_mongodb/model_registry/store.py:813-838 | an alias leads to its live version through every run without such an operation |
| Registry.LiveTarget | mlflow_mongodb/model_registry/store.py:1086-1111 | in a valid registry every alias leads to a live version |
| Registry.LatestLive | mlflow_mongodb/model_registry/repositories/registered_models.py:612-634 | the reserved alias denotes the highest live version, or none if there is none |
| Registry.LatestAliasMeaning | mlflow_mongodb/model_registry/store.py:800-820 | the reserved alias is "latest" in any mixture of cases |
| Registry.CreateModelMeaning | mlflow_mongodb/model_registry/repositories/registered_models.py:78-121 | a new model has the last value of every tag, no aliases, a zero counter and the time, under a name and id of its own |
| Registry.RenameMeaning | mlflow_mongodb/model_registry/repositories/registered_models.py:229-270 | the name leads to the same model, its versions get the time, and nothing else changes; taken and missing names change nothing |
| Registry.DeleteModelMeaning | mlflow_mongodb/model_registry/store.py:620-642 | the name, its model and all its versions go and nothing else |
| Registry.CreateVersionMeaning | mlflow_mongodb/model_registry/store.py:865-950 | the version is numbered one above all before it and stored field by field as it was given, ready and in no stage |
| Registry.InsertMeaning | mlflow_mongodb/model_registry/store.py:865-950 | a creation advances the counter and time of its model alone and adds this one version |
| Registry.SetAliasMeaning | mlflow_mongodb/model_registry/store.py:800-838 | which aliases and versions are refused, and that only this alias of this model changes |
| Registry.DeleteAliasMeaning | mlflow_mongodb/model_registry/repositories/registered_models.py:467-490 | only this alias of this model goes |
| Registry.TransitionMeaning | mlflow_mongodb/model_registry/store.py:993-1064 | done if and only if the version is live and the stage allowed; the version gets stage and time and keeps the rest, with archiving every other one in the stage becomes archived, all others stay, the model gets the time |
| Registry.DeleteVersionMeaning | mlflow_mongodb/model_registry/repositories/model_versions.py:304-355 | every field of the redacted version, and that only its aliases go |
| Registry.DescribeMeaning | mlflow_mongodb/model_registry/repositories/model_versions.py:164-205 | description and time of the live version change and nothing else |
| Registry.TagWriteMeaning | mlflow_mongodb/model_registry/repositories/model_versions.py:374-456 | one tag of one live version is replaced or removed and nothing else changes |
| Registry.RegistryStore.CreateRegisteredModel | mlflow_mongodb/model_registry/repositories/registered_models.py:78-121 | inserts the model with its tags, or reports the taken name |
| Registry.RegistryStore.RenameRegisteredModel | mlflow_mongodb/model_registry/repositories/registered_models.py:229-270 | moves the name unless missing or taken, and touches the versions |
| Registry.RegistryStore.DeleteRegisteredModel | mlflow_mongodb/model_registry/store.py:620-642 | deletes the model and all its versions |
| Registry.RegistryStore.CreateModelVersion | mlflow_mongodb/model_registry/store.py:865-950 | allocates the next number and inserts the version; the duplicate branch is dead |
| Registry.RegistryStore.SetRegisteredModelAlias | mlflow_mongodb/model_registry/store.py:800-838 | replaces the alias if the version is live, refuses the reserved one |
| Registry.RegistryStore.DeleteRegisteredModelAlias | mlflow_mongodb/model_registry/store.py:841-862 | removes the alias |
| Registry.RegistryStore.TransitionModelVersionStage | mlflow_mongodb/model_registry/store.py:993-1064 | the refusals in order, then the specified transition: move, archive the others and touch the model |
| Registry.RegistryStore.DeleteModelVersion | mlflow_mongodb/model_registry/store.py:1067-1111 | redacts and marks a live version and pulls its aliases |
| Registry.RegistryStore.UpdateModelVersion | mlflow_mongodb/model_registry/repositories/model_versions.py:164-205 | replaces the description of a live version |
| Registry.RegistryStore.SetModelVersionTag | mlflow_mongodb/model_registry/repositories/model_versions.py:374-415 | replaces a tag of a live version |
| Registry.RegistryStore.DeleteModelVersionTag | mlflow_mongodb/model_registry/repositories/model_versions.py:417-456 | removes a tag of a live version |
| Registry.RegistryStore.GetModelVersionByAlias | mlflow_mongodb/model_registry/store.py:1312-1375 | finds the live version the alias denotes, or the highest live one, and never a missing target |
| RegistryConcurrency.RunKeepsInv | mlflow_mongodb/model_registry/store.py:865-950 | the invariant of all interleavings of creation, deletion, aliasing, transition, rename and model deletion |
| RegistryConcurrency.CreateAlone | mlflow_mongodb/model_registry/store.py:865-950 | the steps of a creation that nothing interleaves are the sequential operation |
| RegistryConcurrency.DeleteAlone | mlflow_mongodb/model_registry/store.py:1067-1111 | so are those of a version's deletion, but for the model's time |
| RegistryConcurrency.SetAliasAlone | mlflow_mongodb/model_registry/store.py:800-838 | so are those of setting an alias |
| RegistryConcurrency.DeleteModelAlone | mlflow_mongodb/model_registry/store.py:620-642 | so are those of deleting a model |
| RegistryConcurrency.TransitionAlone | mlflow_mongodb/model_registry/store.py:993-1064 | so are those of a transition, archiving or not, but for the model's time |
| RegistryConcurrency.SingleUpdatesAlone | mlflow_mongodb/model_registry/store.py:841-862 | creating a model and deleting an alias are one update each, and so is what a rename does to the names |
| RegistryConcurrency.NumbersAreConsecutive | mlflow_mongodb/model_registry/repositories/registered_models.py:142-155 | the numbers handed out for a model are exactly 1 to its counter, each once, and none is lost |
| RegistryConcurrency.InsertNeverCollides | mlflow_mongodb/model_registry/repositories/model_versions.py:155-162 | the unique index never rejects an allocated version |
| RegistryConcurrency.DeletedIsFinal | mlflow_mongodb/model_registry/repositories/model_versions.py:304-355 | under any interleaving a soft-deleted version never becomes live again |
| RegistryConcurrency.OrphansAreLateInsertions | mlflow_mongodb/model_registry/store.py:638-642 | a step orphans a version if and only if it inserts after the model's versions were deleted |
| RegistryConcurrency.LateInsertionIsPossible | mlflow_mongodb/model_registry/store.py:913-948 | from every quiet registry there is such a run |
| RegistryConcurrency.DanglingAliasesAreStaleWrites | mlflow_mongodb/model_registry/store.py:813-838 | a step leaves an alias dangling if and only if it writes one whose version is deleted and pulled |
| RegistryConcurrency.FreshRunsKeepAliases | mlflow_mongodb/model_registry/store.py:813-838 | without such a write every alias leads to a live version once all clients are done |
| RegistryConcurrency.StaleWriteIsPossible | mlflow_mongodb/model_registry/store.py:821-838 | from every quiet registry there is a run that leaves a dangling alias |
| RegistryConcurrency.ArchivingLeavesAtMostOne | mlflow_mongodb/model_registry/store.py:1029-1051 | if every transition into an active stage archives, at most one version of a model is left in it |
| RegistryConcurrency.ArchivingEmptiesExactly | mlflow_mongodb/model_registry/repositories/model_versions.py:266-279 | an archiving leaves at most its own version, and none if and only if that one has left the stage meanwhile |
| RegistryConcurrency.ExactlyOneRemains | mlflow_mongodb/model_registry/store.py:1029-1051 | if nobody else moves or deletes the moved version, deletes the model or archives meanwhile, exactly this version is left in the stage |
| RegistryConcurrency.CrossedTransitionsEmptyTheStage | mlflow_mongodb/model_registry/store.py:1029-1051 | from every quiet registry with two live versions there are two crossing archiving transitions that leave the stage empty |

## Left out

Assumptions and simplifications:

- MLflow's own code (filter parsers, validators, token and cost aggregators, preview truncation, span translation) is
  a parameter or a precondition. Convergence assumes of the aggregators only that they do not lose a total when
  spans are added.
- Object ids, trace ids and span ids that are only compared are natural numbers or strings; byte order of stored
  text is character order.
- Clocks, sleeping, connections, driver errors, index creation, logging and entity conversion.
- SpanConvergence.QuiescentRunIsSerial: tags are not compared, because each commit writes its own batch's tags and a
  writer that used up its attempts never writes them; traces are not deleted during ingestion and writers do not
  crash half-way.
- LoggedModelMetrics.FusedFiltersAreExact: metric values are finite numbers; NaN rows are not part of the model.
- SearchOrder.KeysRealiseTheOrder: logged-model and trace fields that are sorted on directly are never missing,
  which holds for every stored document; the value a document has for an order (an embedded entry, an end time) is
  given.
- Registry.ExecKeepsValid: stage names are already canonical and alias names valid; the description, deployment job
  and later tags of a registered model are left out.
- RegistryConcurrency.RunKeepsInv: the timestamp-only updates that end a transition or a rename are left out, and
  archiving the other versions, or deleting all of a model, is one step although the server updates them one by one.

Not modelled:

- experiments, their tags and lifecycle: single-document edits;
- dataset inputs of runs, run lifecycle and run renaming: single-document edits;
- trace metrics queries (percentiles, averages, time buckets) and date parsing: library-defined values;
- the search filters of runs and traces other than ordering, and the dataset search that always returns nothing;
- deriving span documents and the contents of resource and root tags from OpenTelemetry data;
- latest versions per stage, and resolving model sources to artifact locations.
