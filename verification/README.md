# G3KU: verified models of its hardest parts

This project models five parts of the G3KU agent runtime in Dafny and proves what they promise.

**The memory worker** (`g3ku/agent/memory_agent_runtime.py`). Requests wait in a queue; a worker pass
collects a batch from the head, hands it to an agent, and ends by applying it, by leaving it at the head
with a retry time, or by parking it among the failed records. A success brings back the oldest parked
provider failure, and operators may retry or discard records at any time.

- `MemoryQueueSpec` says what each operation does to the three stores, `MemoryManagers` is the manager
  object whose methods rewrite its lists, proved to do exactly that, and `MemoryRuns` is the state machine
  with its invariant, with other steps allowed while a batch is at the agent and with passes that die between
  any two calls of the manager. `MemoryGuarantees` states what every run keeps, `MemoryParking` what the
  failed records say and when they come back, `MemoryQueueSteps` what a pass takes, marks and records, and
  `MemoryContent` follows the content of the requests.
- A commit is modelled from the agent's batch to the note files on disk: `MemoryTable` (row table, rendered
  document, mutation, rebuild), `MemoryValidator` and `MemoryValidatorLoops` (the validator as functions
  and as the loops of the program), `MemoryEdits` and `MemoryAgreement` (validator and mutation agree),
  `MemoryDuplicates` (which entries are dropped and which adds are taken), `MemoryCompression` (the
  compression loop), `MemoryRefusal` and `MemoryDeletion` (which runs of it are refused and which rows it
  deletes, decided beforehand), `MemoryLeastUsed` (rows in use are spared), `MemoryCommit` (the whole commit),
  `MemoryCommitSteps` (a commit row by row), `MemoryNotes` (its note files, also over many commits),
  `MemoryOutcome` (when the commit of an accepted batch is refused), `MemoryRepositories` (the store as an
  object changed in place), `MemoryAgeing` and `MemoryHistory` (what the counters mean, over events and over
  commits), `MemoryDocument` (the structured document and the printed one).

**The Markdown memory document** (`g3ku/agent/markdown_memory.py`): printer, parser and validator, in
`MarkdownMemory`; `MarkdownForms` says which texts they look for.

**Content navigation** (`g3ku/content/navigation.py`): the streaming byte search (`BinarySearch`), the two
pagers (`ContentPager`, and `ContentPageForms` for a page in numbers) and the two resolvers of wrapper
references (`ReferenceResolver`, and `ReferenceErrors` for the ways to fail).

**The per-session wake queue** (`g3ku/heartbeat/session_wake.py`): `WakeQueue` is the protocol as
interleaved steps under an event loop with FIFO callbacks, `WakeGuarantees` what every run of it keeps,
`WakeDelays` when a handler runs again, and `SessionWakeQueues` the object with its dictionaries.

**Three transformations**: model routing with load-balance groups (`ModelRouting`, `RoutingContract`, what
the operations leave in `RoutingOutcomes`, and the configuration object in `ModelManagers`), the provider
schema sanitizer (`SchemaSanitizer`, its loops in `SchemaSanitizerLoops`, when it uses an alternative in
`SchemaBranches`, what becomes of declared properties in `SchemaProperties`, and sanitizing twice in
`SchemaIdempotence`), and prompt includes (`PromptIncludes`).

## What turned out not to hold

Where the code does less than one would expect, the model keeps the code, a lemma shows an input, and the
exact condition is proved (for sanitizing twice, one on the result; see there).

- A request is lost when a pass dies (or the commit raises) after it has dropped its batch from the queue
  and before it writes the terminal record, be it the record of an applied batch or of one that failed the
  precheck. All enqueued requests are accounted for if and only if operators discard every request lost that
  way with a record that still names it: `MemoryGuarantees.LosesOnlyByDeathAfterDrop`,
  `MemoryGuarantees.DeathAfterDropLosesARequest`.
- The commit of a batch the validator accepted can raise, after the batch has left the queue: it is refused
  if and only if the mutated table renders as a document that is not acceptable, or compression is triggered
  and meets a row it cannot compress: `MemoryOutcome.CommitIsRefused`, `MemoryRefusal.RefusedRunIsReal`. From a
  synced snapshot, and without the differences between summary and table below, compression alone decides:
  `MemoryOutcome.OnlyCompressionRefuses`.
- The batch an error left at the head comes back whole unless an operator discards one of its requests;
  then exactly the others come back: `MemoryGuarantees.ErrorKeepsBatch`,
  `MemoryGuarantees.DiscardShrinksBatch`.
- The validated summary and the table differ when one id is rewritten twice and only the earlier minimal
  text names a note, and when an added text has its own note reference anywhere but at the end:
  `MemoryAgreement.TableAgreesWithDocument`, `MemoryAgreement.StaleReferenceIsReal`,
  `MemoryValidator.LooseReferenceIsReal`. In the first case the row may end with a reference that has no note
  file, and then notes and document agree after the commit only if compression drops the row:
  `MemoryNotes.NotesAreTheReferences`, `MemoryNotes.DanglingDecides`, `MemoryNotes.DanglingIsReal`.
- Compressing a row can make the document longer, so a compression run can end in a refused document, from
  an accepted one: `MemoryRefusal.RunIsRefused`, `MemoryRefusal.RefusedRunIsReal`.
- The counts of the single-line fallback add up only if the range is that line, and the character it
  points to is right only for the first line of a text: `ContentPager.FallbackTotals`,
  `ContentPager.FallbackMiscounts`, `ContentPager.FallbackCursor`. A character page counts what remains of the
  text, not of the request, and its excerpt loses white space at the end: `ContentPager.CharPageTotals`,
  `ContentPager.CharPageMiscounts`, `ContentPager.ExcerptIsShown`.
- A refused delete, disable or rename leaves the configuration in memory outside the contract:
  `RoutingContract.DeleteKeepsContract`, `RoutingContract.SetEnabledKeepsContract`,
  `RoutingContract.RenameKeepsContract`.
- In the memory chain, which may name models the catalog does not have, renaming a model to such a name
  makes one candidate of two if the chain has both: `RoutingContract.RenameKeepsContract`,
  `RoutingContract.MemoryChainCollapses`.
- The sanitizer drops a declared property that is itself named "description", "anyOf", "oneOf" or "allOf",
  while `required` may go on naming it: `SchemaProperties.PropertiesThatSurvive`,
  `SchemaProperties.RequiredPropertyIsLost`.
- Sanitizing twice need not be sanitizing once: `SchemaIdempotence.UnionThroughAllOf`. The exact condition
  is one on the result of the first time, that it has no loose type: `SchemaSanitizer.SanitizingTwice`. The
  condition on the schema itself, that it has no lists of branches, is sufficient only:
  `SchemaIdempotence.BranchFreeTwice`.
- The two resolvers of references agree if and only if every artifact on the way is treated alike by both:
  one declared an image must not be a text that wraps a reference, any other must be text or have no file:
  `ReferenceResolver.ResolversAgreeExactly`, `ReferenceResolver.ResolversDifferOnImages`,
  `ReferenceResolver.ResolversDifferOnBinaries`.
- A reference with the old double prefix finds what the single prefix finds, unless only an id without
  prefix exists and that artifact has a path: `ReferenceResolver.OldPrefixFindsTheSame`.
- The hits of the byte search do not depend on the chunk boundaries if and only if the needle does not
  overlap itself: `BinarySearch.SplitsAgreeExactly`, `BinarySearch.SelfOverlapDependsOnChunks`.
- Limits configured as 0 mean the defaults (50000 characters, 3 seconds, 16000 and 13000 characters); the
  model has them so.

## Model

| member | source | states |
|---|---|---|
| MemoryGuarantees.Conservation | g3ku/agent/memory_agent_runtime.py:4118-4285 | over every run, the ids in the queue, parked records, terminal history and the batch in flight are exactly the enqueued ids, except ids lost by a pass that died after its queue drop and not discarded by an operator; parked records share no id with each other, the queue or the batch in flight |
| MemoryGuarantees.LosesOnlyByDeathAfterDrop | g3ku/agent/memory_agent_runtime.py:4152-4262 | over every run, the ids not accounted for are those held by passes that die between a queue drop and the terminal record of the dropped batch, applied or failing the precheck, less those operators discard with a record; so every enqueued id is accounted for if and only if all those are discarded, and there are such ids if and only if some pass dies there |
| MemoryGuarantees.DeathAfterDropLosesARequest | g3ku/agent/memory_agent_runtime.py:4152-4243 | for every pending request there is such a run in which it is lost |
| MemoryGuarantees.AppliedAtMostOnce | g3ku/agent/memory_agent_runtime.py:4242-4262 | in every run, deaths included, no request id is applied by two commits |
| MemoryGuarantees.GoneForGood | g3ku/agent/memory_agent_runtime.py:4493-4573 | an id once applied or lost never again occurs in the queue or in a parked record |
| MemoryRuns.ParkingMergesIntoRequeued | g3ku/agent/memory_agent_runtime.py:4345-4446 | the record a parked batch merges into, if any, had been requeued, never a parked one |
| MemoryRuns.PurgeOnlyRequeued | g3ku/agent/memory_agent_runtime.py:4477-4491 | a success purges only requeued records |
| MemoryRuns.StepKeepsInv | g3ku/agent/memory_agent_runtime.py:4118-4285 | every step keeps the queue well formed, records keyed and disjoint while parked, and the ids balanced |
| MemoryRuns.RunKeepsInv | g3ku/agent/memory_agent_runtime.py:4118-4285 | so does every run |
| MemoryRuns.MarkedPrefix | g3ku/agent/memory_agent_runtime.py:2071-2123 | marking a collected batch, with or without an error, makes exactly that prefix processing and changes no id |
| MemoryRuns.BeginPassIds | g3ku/agent/memory_agent_runtime.py:4118-4187 | starting a pass neither loses nor invents an id; what leaves the queue is in the history or in the batch that failed the precheck; the batch held is distinct rows of the queue |
| MemoryGuarantees.RecollectsSameBatch | g3ku/agent/memory_agent_runtime.py:1680-1694 | over every run in which no pass finds anything due, the next collection takes exactly the rows of the head batch that no operator has discarded, once the retry time of the first of them has passed, and nothing before; pending rows only if none is left |
| MemoryGuarantees.ErrorKeepsBatch | g3ku/agent/memory_agent_runtime.py:2093-2128 | after a pass stopped by the runtime configuration, every pass in the next thirty seconds is idle and the first one after that holds the same ids, whatever is enqueued, retried or discarded meanwhile, unless one of the batch itself is discarded |
| MemoryGuarantees.DiscardShrinksBatch | g3ku/agent/memory_agent_runtime.py:4575-4624 | discarding a record takes exactly its requests out of the waiting head batch |
| MemoryContent.RequestsKeepTheirContent | g3ku/agent/memory_agent_runtime.py:4345-4531 | through queue, failed records and retries every row keeps the operation, payload and creation time it was enqueued with |
| MemoryParking.ParkingTellsTheFailure | g3ku/agent/memory_agent_runtime.py:4345-4446 | in every store, parking a failed batch changes one record: the first that shares a request with it, which keeps its identity, first time and counts and is parked once more, or a new one; the record is parked now, with category, reason, error, operation, items and ids of the failure, and exactly these ids leave the queue |
| MemoryParking.RecordsTellTheirLastFailure | g3ku/agent/memory_agent_runtime.py:4195-4241 | over every run, a failed record carries category, reason, error and time of the last failure that parked a batch in it |
| MemoryParking.SuccessBringsBackProviderFailures | g3ku/agent/memory_agent_runtime.py:4533-4548 | after every run, a success with automatic retries requeues exactly one record if one waits: of those whose last failure was the provider's the one first parked longest ago, and of several the one with the oldest request, and then the first; otherwise it changes none |
| MemoryParking.ParkedStaysParked | g3ku/agent/memory_agent_runtime.py:4493-4624 | over every run a parked record stays as it is unless an operator retries or discards it, or it is a provider failure and a success brings it back |
| MemoryParking.RejectedWaitsForTheOperator | g3ku/agent/memory_agent_runtime.py:4214-4217 | so a batch that was rejected, and not failed by the provider, stays parked however many batches succeed, until an operator retries or discards it |
| MemoryQueueSteps.CollectedExactly | g3ku/agent/memory_agent_runtime.py:1680-1721 | for every queue: a processing head is collected with all of its kind unless its retry time lies ahead; a pending head with the longest run that fits the limit, if the limit cut or is reached or the head has waited long enough, and otherwise nothing |
| MemoryQueueSteps.LongestFitIsUnique | g3ku/agent/memory_agent_runtime.py:1696-1710 | there is one longest run |
| MemoryQueueSteps.MarksExactly | g3ku/agent/memory_agent_runtime.py:2071-2123 | marking changes status, start, error and retry time of exactly the rows named, and the start only if there was none |
| MemoryQueueSteps.PassBegins | g3ku/agent/memory_agent_runtime.py:4118-4187 | a pass drops recorded rows, then takes the due batch: an empty request in it condemns it, otherwise its rows are marked, and without a configured model get the error and a retry time |
| MemoryQueueSteps.RetryExactly | g3ku/agent/memory_agent_runtime.py:4493-4531 | an operator's retry appends every request of the record as a fresh row with its last error, requeues the record and counts the retry |
| MemoryQueueSteps.AppendsMissing | g3ku/agent/memory_agent_runtime.py:4502-4515 | for every queue and list of items, those whose ids the queue does not have are appended, each once, as fresh rows |
| MemoryQueueSteps.AppendsAll | g3ku/agent/memory_agent_runtime.py:4502-4515 | and afterwards the queue has all their ids |
| MemoryQueueSteps.HistoryGrowsBy | g3ku/agent/memory_agent_runtime.py:4152-4262 | only a condemned batch, an applied batch and a discarded record are recorded, each once, with verdict, operation and ids |
| MemoryQueueSteps.RecordedAsAppliedIsApplied | g3ku/agent/memory_agent_runtime.py:4242-4262 | over every run, the ids the history records as applied have been applied by a commit |
| MemoryQueueSteps.FinishedLeavesNoRecord | g3ku/agent/memory_agent_runtime.py:4477-4491 | over every run, when a batch is recorded as applied no failed record names any of its requests |
| MemoryQueueLaws.CollectedBatch | g3ku/agent/memory_agent_runtime.py:1680-1721 | a batch is a one-operation prefix: all processing rows, or the longest pending prefix within the character limit, or one row alone over it |
| MemoryQueueLaws.CollectsWhenDue | g3ku/agent/memory_agent_runtime.py:1680-1721 | a processing head waits only for its retry time, a pending one at most the maximal wait |
| MemoryQueueLaws.AppendMissingAll | g3ku/agent/memory_agent_runtime.py:4502-4515 | items the queue has none of go back whole and in order at the tail, as fresh pending rows |
| MemoryQueueLaws.OldestIsFirst | g3ku/agent/memory_agent_runtime.py:4533-4548 | the record a success brings back is the first of the longest waiting parked provider failures, and there is none exactly when none waits |
| MemoryManagers.OldestIsUnique | g3ku/agent/memory_agent_runtime.py:4533-4548 | that record is determined by the failed list |
| MemoryManagers.MemoryManager.EnqueueRequest | g3ku/agent/memory_agent_runtime.py:3533-3577 | an empty payload is ignored, any other request goes to the tail |
| MemoryManagers.MemoryManager.CollectDueBatch | g3ku/agent/memory_agent_runtime.py:1680-1721 | the loops return the batch of the specification |
| MemoryManagers.MemoryManager.TakeFresh | g3ku/agent/memory_agent_runtime.py:1696-1710 | the loop takes the pending run, its total, and whether only the limit stopped it |
| MemoryManagers.MemoryManager.MarkBatchProcessing | g3ku/agent/memory_agent_runtime.py:2071-2091 | exactly the rows of the batch are marked, errors and retry time cleared |
| MemoryManagers.MemoryManager.MarkBatchError | g3ku/agent/memory_agent_runtime.py:2093-2123 | exactly the rows of the batch get the error and a retry time |
| MemoryManagers.MemoryManager.DropRequestIds | g3ku/agent/memory_agent_runtime.py:2130-2132 | the rows with these ids leave the queue, the others keep their order |
| MemoryManagers.MemoryManager.ProcessedRequestIds | g3ku/agent/memory_agent_runtime.py:1911-1935 | the ids of all terminal records |
| MemoryManagers.MemoryManager.DropProcessedQueueRequests | g3ku/agent/memory_agent_runtime.py:1937-1957 | queue rows already in the history leave it |
| MemoryManagers.MemoryManager.ParkFailedBatch | g3ku/agent/memory_agent_runtime.py:4345-4446 | the batch leaves the queue and is whole, with its failure, in the first record that shares a request with it, or in a new one |
| MemoryManagers.MemoryManager.PurgeFailedRecords | g3ku/agent/memory_agent_runtime.py:4477-4491 | the records that share an id are removed, the others stay |
| MemoryManagers.MemoryManager.RequeueFailedRecord | g3ku/agent/memory_agent_runtime.py:4493-4531 | the record's items go back unless the queue has them, and the record is requeued with its counter |
| MemoryManagers.MemoryManager.RequeueNextParkedOnSuccess | g3ku/agent/memory_agent_runtime.py:4533-4548 | the oldest waiting provider failure is requeued, nothing if there is none or it is switched off |
| MemoryManagers.MemoryManager.RetryFailedRecord | g3ku/agent/memory_agent_runtime.py:4563-4573 | a parked record is requeued; an unknown or requeued one is refused and changes nothing |
| MemoryManagers.MemoryManager.DiscardFailedRecord | g3ku/agent/memory_agent_runtime.py:4575-4624 | the record becomes terminal, its rows leave the queue and it leaves the failed list; an unknown one changes nothing |
| MemoryManagers.MemoryManager.BeginDueBatch | g3ku/agent/memory_agent_runtime.py:4118-4187 | the first half of a pass does to the three stores what the specification says; a batch that fails the precheck also gets its terminal record |
| MemoryManagers.MemoryManager.FinishApplied | g3ku/agent/memory_agent_runtime.py:4242-4262 | the second half of a pass that was applied: drop, purge, requeue, terminal record |
| MemoryAgreement.TableAgreesWithDocument | g3ku/agent/memory_agent_runtime.py:896-1005 | from a synced snapshot, applying the effective adds, rewrites and deletes gives the validated entries in order, with equal id, source and date, and with an equal summary if and only if the entry's reference is neither stale nor loose; the inserts meet no existing key |
| MemoryAgreement.DeletesAreTheRest | g3ku/agent/memory_agent_runtime.py:3915-3921 | the deletes are exactly the old ids no kept entry carries, requested ones among them, also of ids to be rewritten; no effective rewrite is deleted |
| MemoryDuplicates.DuplicatesAreDeleted | g3ku/agent/memory_agent_runtime.py:3799-3839 | an old entry is deleted if and only if it was to be, or an earlier one that stays has the same source and, after the rewrites, the same summary |
| MemoryDuplicates.DocumentInOrder | g3ku/agent/memory_agent_runtime.py:3799-3882 | the validated document is the old entries that are not deleted, rewritten, in order, and then the requests that were taken, in order |
| MemoryDuplicates.NewRequestsAreTaken | g3ku/agent/memory_agent_runtime.py:3841-3882 | a request is taken if and only if no entry that stays and no earlier request has its source and summary |
| MemoryDuplicates.ValidatedEntriesDiffer | g3ku/agent/memory_agent_runtime.py:3817-3862 | no two entries of a validated document agree in source and summary, whatever the old document was |
| MemoryEdits.MutateEdits | g3ku/agent/memory_agent_runtime.py:923-1003 | the mutated table is the edited old rows and then the new rows, up to counters |
| MemoryCommitSteps.OldRowAfterCommit | g3ku/agent/memory_agent_runtime.py:896-1005 | after a commit the rows that are not deleted are there in order, each rewritten, cited or passed by, every column given |
| MemoryCommitSteps.NewRowAfterCommit | g3ku/agent/memory_agent_runtime.py:923-954 | and then the added rows, every column given |
| MemoryCommitSteps.TableLength | g3ku/agent/memory_agent_runtime.py:896-1005 | and no other row |
| MemoryCommitSteps.ReadBackRowByRow | g3ku/agent/memory_agent_runtime.py:846-894 | a row read back from the document has texts, source and date from there, and counters, flag and creation time from the table if it was in it |
| MemoryAgreement.StaleReferenceIsReal | g3ku/agent/memory_agent_runtime.py:3785-3809 | two rewrites of one id can make summary and table differ |
| MemoryValidator.RewrittenAgrees | g3ku/agent/memory_agent_runtime.py:3807-3818 | a rewritten row renders as the validated entry if and only if its reference is not stale |
| MemoryValidator.AddedAgrees | g3ku/agent/memory_agent_runtime.py:3852-3873 | an added row renders as the validated entry if and only if its reference is not loose |
| MemoryValidator.LooseReferenceIsReal | g3ku/agent/memory_agent_runtime.py:3852-3873 | an added text with a reference before its end makes row and entry differ |
| MemoryValidatorLoops.BuildValidatedWrite | g3ku/agent/memory_agent_runtime.py:3719-3935 | the validator accepts exactly the batches whose form, ids, texts, document and notes are acceptable, and returns the proposal |
| MemoryCommitSteps.AcceptedExactly | g3ku/agent/memory_agent_runtime.py:3719-3935 | a batch is accepted if and only if its form is good (what a delete batch, a reason for no change and a claim to be done already exclude), it names entries of the document, its texts, lengths and sources are good, the proposed document is acceptable, and every reference has a note |
| MemoryCommitSteps.ProposedExactly | g3ku/agent/memory_agent_runtime.py:3910-3935 | the mutation cites and brings the notes the batch does, and rewrites each entry that stays by its last rewrite |
| MemoryCommitSteps.LastRewriteIsLast | g3ku/agent/memory_agent_runtime.py:3765-3788 | of the rewrites of an id the last one counts |
| MemoryCommitSteps.RememberedIsLast | g3ku/agent/memory_agent_runtime.py:3765-3788 | of their references the last one that a minimal text had |
| MemoryValidatorLoops.ResolveRewrites | g3ku/agent/memory_agent_runtime.py:3765-3788 | the dictionaries hold the last rewrite of each id and the last reference any of its minimal texts had |
| MemoryValidatorLoops.KeepEntries | g3ku/agent/memory_agent_runtime.py:3799-3839 | the loop keeps, updates and drops the old entries as specified, or finds one too long |
| MemoryValidatorLoops.TakeNewEntries | g3ku/agent/memory_agent_runtime.py:3841-3882 | the loop takes the adds whose source and summary are new, or finds one that is not acceptable |
| MemoryTable.RenderedRefs | g3ku/agent/memory_agent_runtime.py:1219-1238 | a rendered row carries its own reference and no other, and compressing it does not change that |
| MemoryTable.WithRefRefs | g3ku/agent/memory_agent_runtime.py:3967-3977 | a text given a reference carries exactly that one |
| MemoryCommitSteps.FirstRefIsFirst | g3ku/agent/memory_agent_runtime.py:3961-3964 | a text's reference is the first in it |
| MemoryCommitSteps.StripsPieces | g3ku/agent/memory_agent_runtime.py:3967-3977 | removing references leaves the plain text in its place |
| MemoryCompression.CompressionIsLegalAndEnds | g3ku/agent/memory_agent_runtime.py:2640-2683 | every edit is made while the document exceeds the target, on an uncompressed row or on a compressed row that is not the user's; the edits are the whole change; unless refused the run ends within the target or with only compressed user rows |
| MemoryCompression.CompressionKeepsUserRows | g3ku/agent/memory_agent_runtime.py:2665-2668 | a user's row is never deleted |
| MemoryCompression.CompressionKeepsTexts | g3ku/agent/memory_agent_runtime.py:2662-2674 | a surviving row keeps texts, counters and rendered reference and is never uncompressed |
| MemoryCompression.NothingDeletedBeforeAllCompressed | g3ku/agent/memory_agent_runtime.py:2655-2676 | from an uncompressed table the edits compress the rows in candidate order, and nothing else happens before every row is compressed |
| MemoryCompression.PassFollowsPlan | g3ku/agent/memory_agent_runtime.py:2657-2674 | a pass makes the first edits its candidates call for, and stops early only when the document fits or is refused |
| MemoryCompression.CandidatesAreOrdered | g3ku/agent/memory_agent_runtime.py:1031-1042 | the candidates are the rows, each once, in the order that MemoryLeastUsed.CandidatesByUse gives column by column |
| MemoryLeastUsed.CandidatesByUse | g3ku/agent/memory_agent_runtime.py:1031-1042 | the candidates are the rows, each once; of two the first has the higher passed count, or as many and fewer refreshes, or is older, or has the smaller id |
| MemoryLeastUsed.PassTreatsFirst | g3ku/agent/memory_agent_runtime.py:2657-2674 | a pass shortens or drops its first candidates, up to where the document fits or is refused, and leaves the others |
| MemoryLeastUsed.LeastUsedGoFirst | g3ku/agent/memory_agent_runtime.py:2640-2683 | over a whole run, if a row has been shortened or dropped, so has every row longer without use, short rows of the user apart; and if a long row is gone, so is every such row that is not the user's |
| MemoryCommitSteps.StartsAndStops | g3ku/agent/memory_agent_runtime.py:2640-2683 | compression does nothing up to the trigger (16000 characters by default), and beyond it ends within the target (13000), or with only short rows of the user, or refused |
| MemoryCompression.ApplyShrinksWeight | g3ku/agent/memory_agent_runtime.py:1044-1063 | every effective edit lowers the row measure that ends the loop |
| MemoryCompression.RunPass | g3ku/agent/memory_agent_runtime.py:2657-2674 | a pass lowers the row measure by at least one for each edit |
| MemoryRefusal.CompressingIsRefused | g3ku/agent/memory_agent_runtime.py:1247-1254 | from an accepted document, compressing a row is refused if and only if its compressed summary is too long or makes the document too long |
| MemoryRefusal.RemovingIsAccepted | g3ku/agent/memory_agent_runtime.py:1247-1254 | removing a row is never refused |
| MemoryRefusal.RunIsRefused | g3ku/agent/memory_agent_runtime.py:2640-2683 | from an accepted document a run is refused if and only if it is triggered and, going through the candidates with the running length, its first pass meets such a row |
| MemoryRefusal.ShrinkableRunIsAccepted | g3ku/agent/memory_agent_runtime.py:2640-2683 | no run is refused if no row is longer compressed than it is |
| MemoryRefusal.RefusedRunIsReal | g3ku/agent/memory_agent_runtime.py:1247-1254 | every row that is longer compressed gives a refused run from an accepted document |
| MemoryRefusal.CompressionCanLengthen | g3ku/agent/memory_agent_runtime.py:1229-1230 | a row whose compressed form makes the document longer |
| MemoryDeletion.RunDrops | g3ku/agent/memory_agent_runtime.py:2655-2676 | an uncompressed row is deleted if and only if it is not the user's, the run is triggered, a full pass leaves it beyond the target, and the rows before it do not bring it within |
| MemoryNotes.NotesAreTheReferences | g3ku/agent/memory_agent_runtime.py:2560-2603 | if every reference of the snapshot has a note, then after an accepted batch commits the note files are exactly the references of the final document, if and only if compression drops every row of the mutated table that was rewritten with a stale reference whose new one has no note; which rows it drops is decided by that table |
| MemoryNotes.DanglingDecides | g3ku/agent/memory_agent_runtime.py:2560-2603 | so if nothing dangles the notes are the references; if no compression is triggered they are only then; and a user's dangling row always keeps them apart |
| MemoryNotes.ImportedNotesAreTheReferences | g3ku/agent/memory_agent_runtime.py:2588-2597 | after a write that replaces the whole document with one whose references have notes, the notes are the references |
| MemoryNotes.CommitKeepsNotes | g3ku/agent/memory_agent_runtime.py:2560-2603 | however the commit of a batch that leaves nothing dangling ends, an error half way included, no reference on disk is without its note |
| MemoryNotes.RunsKeepNotes | g3ku/agent/memory_agent_runtime.py:2560-2603 | over any run of accepted batches, failed commits included, every reference of the document has its note at every moment, except those that earlier batches left dangling; as long as there are none, the notes are exactly the references after every commit |
| MemoryNotes.DanglingIsReal | g3ku/agent/memory_agent_runtime.py:3808-3809 | an accepted batch that commits, after which the document refers to a note that has no file |
| MemoryNotes.UnstructuredChangesNothing | g3ku/agent/memory_agent_runtime.py:2574-2592 | a batch without effective changes leaves the document as it was |
| MemoryOutcome.CommitIsRefused | g3ku/agent/memory_agent_runtime.py:2560-2603 | the commit of an accepted batch is refused, after the batch has left the queue, if and only if the mutated table renders as an unacceptable document, or compression is triggered and meets a row whose compression is refused |
| MemoryOutcome.MutatedIsValidated | g3ku/agent/memory_agent_runtime.py:2574-2587 | from a synced snapshot, the mutated table of a batch with changes renders as the validated document if and only if no entry's reference is stale or loose |
| MemoryOutcome.OnlyCompressionRefuses | g3ku/agent/memory_agent_runtime.py:2560-2603 | then the commit of an accepted batch is refused by compression or not at all, and which it is is decided by the mutated table |
| MemoryCommitSteps.CommitEndsIn | g3ku/agent/memory_agent_runtime.py:2560-2603 | the three ends of any commit, with table, document and notes of each |
| MemoryRepositories.MemoryRepository.CommitValidatedWrite | g3ku/agent/memory_agent_runtime.py:2560-2603 | table, document and notes end as the specified commit, also when it fails |
| MemoryRepositories.MemoryRepository.ApplyMutation | g3ku/agent/memory_agent_runtime.py:896-1005 | insert, rewrite, delete, refresh and age in that order; a key clash changes nothing |
| MemoryRepositories.MemoryRepository.InsertRows | g3ku/agent/memory_agent_runtime.py:923-954 | all inserts, or none on a primary key clash |
| MemoryRepositories.MemoryRepository.ReplaceAllFromDocument | g3ku/agent/memory_agent_runtime.py:846-894 | the table becomes the document's rows with the counters of the old ones |
| MemoryRepositories.MemoryRepository.CompressionPass | g3ku/agent/memory_agent_runtime.py:2657-2674 | the inner loop is one specified pass |
| MemoryRepositories.MemoryRepository.CompressSnapshot | g3ku/agent/memory_agent_runtime.py:2640-2683 | the outer loop ends and is the specified run |
| MemoryRepositories.MemoryRepository.SyncFromSnapshot | g3ku/agent/memory_agent_runtime.py:1240-1245 | the table is replaced exactly when it does not render as the snapshot |
| MemoryRepositories.MemoryRepository.Rebuild | g3ku/agent/memory_agent_runtime.py:1247-1254 | the document is rewritten exactly when the rendered one is acceptable |
| MemoryRepositories.MemoryRepository.CleanupOrphanNotes | g3ku/agent/memory_agent_runtime.py:2685-2692 | the notes that stay are those the document refers to |
| MemoryAgeing.CountersTellHistory | g3ku/agent/memory_agent_runtime.py:896-1005 | over every run of commits, rebuilds and compressions a row's passed count is the number of commits since it was last added, rewritten or cited, and its refresh count the number of commits that rewrote or cited it since it came |
| MemoryAgeing.EventDescends | g3ku/agent/memory_agent_runtime.py:846-1063 | what one event does to a row's counters; rebuilding and compressing keep both |
| MemoryAgeing.ProposalsAreProper | g3ku/agent/memory_agent_runtime.py:3915-3935 | the validator's mutations are of the kind this is stated for |
| MemoryHistory.CommitIsEvents | g3ku/agent/memory_agent_runtime.py:2560-2603 | whatever made the table, the commit of a validated batch goes on from there as a sequence of such events: a rebuild if the table does not render as the snapshot, a commit if the batch has changes, and the compression edits; also if it is refused half way |
| MemoryHistory.CountersTellTheRun | g3ku/agent/memory_agent_runtime.py:2560-2603 | so over any run of accepted batches from an empty table, commits refused half way included, both counters of every row count the commits of its own past |
| MemoryDocument.TotalLengthIsPrinted | g3ku/agent/markdown_memory.py:27-39 | the structured document has the length of the document it prints as |
| MemoryDocument.DocumentLengthIsSnapshot | g3ku/agent/memory_agent_runtime.py:1214-1217 | and, stripped, the length the compression run measures |
| MemoryDocument.PrintedRef | g3ku/agent/markdown_memory.py:12-60 | the parser finds in a printed summary exactly the first reference of the structured one, if plain text holds no mark of a reference and names end where they end |
| MemoryDocument.NoMarkForm | g3ku/agent/markdown_memory.py:13 | a text holds no mark if "ref:" begins nowhere in it |
| MemoryDocument.RenderedIsTidy | g3ku/agent/memory_agent_runtime.py:1219-1238 | the summary a row is rendered with meets that condition if its plain text holds no mark and its reference is a name |
| MemoryDocument.ParsedDocument | g3ku/agent/markdown_memory.py:42-68 | parsing the printed document gives the structured one back, references included |
| MemoryDocument.AcceptableIsValid | g3ku/agent/markdown_memory.py:71-93 | the structured document is acceptable if and only if the validator of the printed one accepts its printing |
| MarkdownMemory.ParseUndoesPrint | g3ku/agent/markdown_memory.py:42-68 | parsing the printing of any list of valid entries, with outer whitespace, returns them in order, the note reference recomputed, also for a summary of three dashes |
| MarkdownMemory.AcceptsExactlyPrintings | g3ku/agent/markdown_memory.py:71-93 | validation accepts, up to outer whitespace, exactly the printings of lists of valid entries with distinct ids within the limits |
| MarkdownMemory.AcceptedIsPrinting | g3ku/agent/markdown_memory.py:71-93 | an accepted text is the printing of what it parses to |
| MarkdownMemory.PrintingIsAccepted | g3ku/agent/markdown_memory.py:71-93 | every such printing within the length limit is accepted |
| MarkdownMemory.ParseMemoryDocument | g3ku/agent/markdown_memory.py:42-68 | the parser's loop returns the parsed entries |
| MarkdownMemory.ValidateMemoryDocument | g3ku/agent/markdown_memory.py:71-93 | the validator succeeds exactly on the canonical texts |
| MarkdownMemory.CheckEntries | g3ku/agent/markdown_memory.py:86-93 | the final loop accepts exactly short enough summaries with distinct ids |
| MarkdownForms.PrinterForm | g3ku/agent/markdown_memory.py:27-39 | the printer succeeds exactly on six letters or digits, a date of four, one or two and one or two digits, one of two sources and one line, and prints them in their places |
| MarkdownForms.DateForm | g3ku/agent/markdown_memory.py:15 | the dates are exactly those |
| MarkdownForms.HeadForm | g3ku/agent/markdown_memory.py:6-9 | the parser finds a head exactly where a text begins with the parts of one |
| MarkdownForms.BodyForm | g3ku/agent/markdown_memory.py:10 | a body ends before the first mark of a next block, or with the text |
| MarkdownForms.NoteRefForm | g3ku/agent/markdown_memory.py:13 | the reference of a summary is the first that stands between word boundaries with its whole name, and there is none exactly if none stands anywhere |
| MarkdownForms.WhiteSpaceIsListed | g3ku/agent/markdown_memory.py:28-35 | the characters stripping removes |
| BinarySearch.StreamingFindsWholeFile | g3ku/content/navigation.py:1107-1148 | for every split into chunks the hits are occurrences at strictly increasing offsets, and every occurrence of the whole file overlaps a hit that starts no later |
| BinarySearch.UnborderedNeedleIsExact | g3ku/content/navigation.py:1107-1148 | a needle without self-overlap is reported at exactly all its occurrences |
| BinarySearch.ChunkingDoesNotMatter | g3ku/content/navigation.py:1107-1148 | for such a needle the hits do not depend on the split |
| BinarySearch.SelfOverlapDependsOnChunks | g3ku/content/navigation.py:1107-1148 | for every other needle there is a file that is reported once in one chunk and more often in two |
| BinarySearch.SplitsAgreeExactly | g3ku/content/navigation.py:1107-1148 | all splits of all files give the same hits if and only if the needle has no overlap with itself |
| BinarySearch.SearchBinaryTarget | g3ku/content/navigation.py:1068-1148 | the loop returns the hits up to the cap, and overflow exactly when there are more |
| BinarySearch.ScanWindow | g3ku/content/navigation.py:1120-1142 | one window's new hits, stopping at the first beyond the cap |
| BinarySearch.CarryIsTail | g3ku/content/navigation.py:1144 | what is carried from a window to the next is its last bytes, as many as can begin a match, or all of it |
| BinarySearch.MatchIgnoresCase | g3ku/content/navigation.py:1112 | a match is the needle up to the case of ASCII letters |
| BinarySearch.HitLimit | g3ku/content/navigation.py:1074 | ten hits are reported by default, and between one and fifty |
| ContentPager.BuildLineExcerpt | g3ku/content/navigation.py:1163-1219 | a page holds the first whole lines of its range, as many as fit, with counts that add up to the range; a first line that does not fit is shown by its beginning |
| ContentPager.TakeWholeLines | g3ku/content/navigation.py:1191-1201 | the loop takes the maximal number of whole lines within the cap |
| ContentPager.FillsIsUnique | g3ku/content/navigation.py:1191-1201 | there is one such number |
| ContentPager.LinePagesReassemble | g3ku/content/navigation.py:1202-1219 | pages opened one after another to the same end join to the range, every line once |
| ContentPager.LinePagesReachTheEnd | g3ku/content/navigation.py:1202-1219 | if every line fits, such pages exist up to the end, each strictly shortening what is left |
| ContentPager.FallbackTotals | g3ku/content/navigation.py:1177-1190 | the fallback's counts add up if and only if the range is one line |
| ContentPager.FallbackMiscounts | g3ku/content/navigation.py:1177-1190 | every range of two lines, the first too long, is counted wrong |
| ContentPager.FallbackCursor | g3ku/content/navigation.py:1177-1190 | its next character is the first hidden one if and only if the line is the first of the text |
| ContentPager.CharPagesMeet | g3ku/content/navigation.py:1221-1256 | a page's end line is the next page's start line, and the next page starts at the following character |
| ContentPager.CharPagesTile | g3ku/content/navigation.py:1221-1256 | following the cursor tiles what was asked for without gap or repeat, and ends |
| ContentPager.CharPageTotals | g3ku/content/navigation.py:1233-1248 | a page is truncated exactly when more is asked for and there than fits; then shown and remaining add up to the text, and to the request if and only if it reaches the end of the text |
| ContentPager.CharPageMiscounts | g3ku/content/navigation.py:1233-1248 | asking a longer text for one character more than fits gives a page whose counts do not add up |
| ContentPager.ExcerptIsShown | g3ku/content/navigation.py:1241 | the printed excerpt is the shown text unless more is asked for than fits and the last character that fits is white space, and only then not |
| ContentPageForms.RoomForContent | g3ku/content/navigation.py:1228 | content has what 400 characters of notice leave, but never less than half |
| ContentPageForms.LineRange | g3ku/content/navigation.py:1163-1174 | the range of a page of lines is what is asked for, moved into the text |
| ContentPageForms.JoinedForm | g3ku/content/navigation.py:1175 | in the text of a range every line stands at its place, with a line feed before all but the first |
| ContentPageForms.CharPageForm | g3ku/content/navigation.py:1221-1256 | a page of characters starts where asked, moved into the text, and shows what is asked for and there, or its first 127600 characters and where to go on |
| ContentPageForms.CharPageCountsLines | g3ku/content/navigation.py:1230-1256 | its line numbers count the line feeds before it and in it |
| ReferenceResolver.ResolutionFollowsTheChain | g3ku/content/navigation.py:1358-1506 | resolution succeeds exactly along a chain of at most nine artifacts to one that stands for itself or to a file, and returns its start, end, first wrapper and hop count |
| ReferenceResolver.CycleNeverResolves | g3ku/content/navigation.py:1442-1443 | a reference whose hops come back on themselves is never resolved |
| ReferenceResolver.FewReads | g3ku/content/navigation.py:1444-1445 | at most nine artifacts are read, all different, whatever the store |
| ReferenceResolver.ResolversAgreeExactly | g3ku/content/navigation.py:860-973 | in every store, for every reference and both views, the two resolvers give the same four values or the same error if and only if every artifact read on the way, in the canonical view, is declared an image and does not wrap a reference, or is not and is text or without a file |
| ReferenceResolver.ResolversAgree | g3ku/content/navigation.py:860-973 | in particular they agree over plain text artifacts |
| ReferenceResolver.ResolversDifferOnImages | g3ku/content/navigation.py:940-962 | a text artifact declared an image is followed by one and not by the other |
| ReferenceResolver.ResolversDifferOnBinaries | g3ku/content/navigation.py:944-949 | a binary artifact not declared an image is resolved by one and cannot be decoded by the other |
| ReferenceResolver.StoresNameNothingEmpty | g3ku/content/navigation.py:1436-1441 | the empty reference is refused in every store |
| ReferenceResolver.OldPrefixFindsTheSame | g3ku/content/navigation.py:268-277 | the old double prefix finds the artifact of the single prefix, if and only if that exists, or no id without prefix does, or its artifact has no path |
| ReferenceErrors.ErrorsTellWhy | g3ku/content/navigation.py:1358-1506 | a reference fails with an error if and only if its hops through different artifacts, at most nine, lead to where they get stuck for that reason: refused, met before, too deep, missing, undecodable or wrapping itself |
| ReferenceErrors.ChainLength | g3ku/content/navigation.py:1444-1445 | nine artifacts may be on the way, and a file behind them |
| ReferenceErrors.PathReferences | g3ku/content/navigation.py:896-920 | a path resolves to its file in one step, for both resolvers; a directory and a missing path are refused |
| ReferenceErrors.OtherReferencesAreRefused | g3ku/content/navigation.py:921-926 | a reference that is neither path nor artifact is refused by both |
| ReferenceErrors.ArtifactReferences | g3ku/content/navigation.py:932-973 | an artifact is followed only in the canonical view and only if its text wraps a reference |
| WakeGuarantees.NoWakeUpIsLost | g3ku/heartbeat/session_wake.py:24-70 | over all interleavings a session with a request newer than its handler's last start has a live task that has still to start the handler or is in it with a pending delay, and no session has two live tasks |
| WakeGuarantees.TaskNeverExitsUnserved | g3ku/heartbeat/session_wake.py:62-70 | a task that ends leaves no unserved request of its session |
| WakeGuarantees.CleanupOutOfOrderLosesAWakeUp | g3ku/heartbeat/session_wake.py:41-47 | a run in which the event loop once swaps two callbacks loses a wake-up |
| WakeDelays.HandlerEndsExactly | g3ku/heartbeat/session_wake.py:55-70 | a handler's end finishes its task if and only if it asks for nothing and no request came meanwhile; otherwise the task goes on after what it asked for, 60 seconds after an exception, or sooner if a request asks for that; nothing else changes |
| WakeDelays.RequestExactly | g3ku/heartbeat/session_wake.py:24-48 | a request lowers the pending delay of a live task to what is asked, or starts a task with it; a negative delay is none |
| WakeDelays.NoSessionNoRequest | g3ku/heartbeat/session_wake.py:25-27 | a request without a session changes nothing |
| WakeDelays.FirstStepExactly | g3ku/heartbeat/session_wake.py:50-54 | a new task sleeps for the delay it was started with, or enters the handler |
| WakeDelays.RaisedIsRetried | g3ku/heartbeat/session_wake.py:55-61 | over every run, the task of a handler that raises is alive and waits a minute, or less if a request asks for less |
| WakeDelays.WishIsGranted | g3ku/heartbeat/session_wake.py:62-70 | over every run, a handler that asks to be called again is, after that time or sooner |
| WakeDelays.RequestIsServedInTime | g3ku/heartbeat/session_wake.py:24-70 | over every run, a request made while the handler runs is served after the delay it asks for or sooner, whatever happens until the handler ends and however it ends |
| WakeQueue.RequestKeepsInv | g3ku/heartbeat/session_wake.py:24-48 | a request keeps the invariant |
| WakeQueue.EndsKeepsInv | g3ku/heartbeat/session_wake.py:55-70 | so does the end of a handler, and it never ends the task with a request unserved |
| WakeQueue.FirstStepKeepsInv | g3ku/heartbeat/session_wake.py:50-54 | so does a task's first step |
| WakeQueue.CleanupKeepsInv | g3ku/heartbeat/session_wake.py:41-45 | so does the done-callback |
| WakeQueue.StepKeepsInv | g3ku/heartbeat/session_wake.py:24-70 | so does every step |
| SessionWakeQueues.SessionHeartbeatWakeQueue.Request | g3ku/heartbeat/session_wake.py:24-48 | starts a task exactly when the session has no live one, and otherwise lowers the pending delay |
| SessionWakeQueues.SessionHeartbeatWakeQueue.Cleanup | g3ku/heartbeat/session_wake.py:41-45 | forgets the task if it is the registered one, and the pending delay |
| SessionWakeQueues.SessionHeartbeatWakeQueue.FirstStep | g3ku/heartbeat/session_wake.py:50-54 | enters the loop with the initial delay |
| SessionWakeQueues.SessionHeartbeatWakeQueue.NextDelay | g3ku/heartbeat/session_wake.py:60-70 | the handler's wish, or 60 seconds after an exception, merged with the pending delay, which is taken off; none if and only if there is neither |
| SessionWakeQueues.SessionHeartbeatWakeQueue.HandlerEnds | g3ku/heartbeat/session_wake.py:55-70 | merges the handler's wish with the pending delay and goes on, or ends the task if and only if there is neither |
| ModelRouting.RenamingMapsTheCandidates | g3ku/config/schema.py:1372-1404 | a rename maps the ordered expansion of every chain; the candidates are the old ones renamed, one by one, if and only if the chain did not have both keys |
| ModelRouting.RenamedUniqueExactly | g3ku/config/schema.py:1317-1334 | renaming and removing repetitions commute if and only if the list does not have both keys |
| ModelRouting.RemovalFiltersTheCandidates | g3ku/config/schema.py:1425-1460 | a removal filters the key out of the candidates of every chain |
| ModelRouting.StoredExpandsTheSame | g3ku/config/schema.py:1345-1362 | storing a chain, which drops blank and repeated entries, does not change its candidates |
| RoutingContract.RefusedRename | g3ku/config/schema.py:1391-1404 | a rename in the routing is refused if and only if some group has both keys |
| RoutingContract.RenameKeepsContract | g3ku/config/model_manager.py:287-303 | renaming a model to a key no model has succeeds if and only if no group has it; then the contract holds and the candidates of the required roles are renamed, those of the memory chain if and only if it did not have both keys; otherwise what is left in memory breaks the contract |
| RoutingContract.CandidatesAreModels | g3ku/config/schema.py:1167-1227 | under the contract only models of the catalog are candidates of the required roles |
| RoutingContract.MemoryChainCollapses | g3ku/config/model_manager.py:287-303 | a memory chain of two candidates that a rename leaves with one |
| RoutingContract.UnroutingKeepsContract | g3ku/config/schema.py:1425-1460 | taking a key out succeeds if and only if it empties no group; a refusal leaves the routing as it was |
| RoutingContract.DeleteKeepsContract | g3ku/config/model_manager.py:316-324 | deleting succeeds if and only if it empties no group, and only then does the contract hold afterwards |
| RoutingContract.SetEnabledKeepsContract | g3ku/config/model_manager.py:305-314 | the same for switching off; switching on always succeeds and changes no candidates |
| RoutingContract.ReloadKeeps | g3ku/config/model_manager.py:656-657 | a configuration that meets the contract is accepted on reload and still meets it |
| RoutingOutcomes.CandidatesAreOffered | g3ku/config/schema.py:1290-1334 | the candidates of a role are, each once, the models of its chain and the members of its groups that are switched on |
| RoutingOutcomes.CandidatesInOrder | g3ku/config/schema.py:1317-1334 | of two candidates the one offered first comes first |
| RoutingOutcomes.ContractIsSound | g3ku/config/schema.py:1167-1227 | the contract, item by item |
| RoutingOutcomes.AcceptedIsSound | g3ku/config/model_manager.py:656-657 | a configuration is accepted if and only if it is sound with its chains stored, and then it is that |
| RoutingOutcomes.RefusedOperations | g3ku/config/model_manager.py:287-324 | operations on unknown keys and renames to nothing, to the same key or to a key in use change nothing |
| RoutingOutcomes.RenameLeaves | g3ku/config/model_manager.py:287-303 | a rename that succeeds changes the key in catalog, groups and orchestrator and no switch, name, order or number of rounds |
| RoutingOutcomes.RenameLeavesChains | g3ku/config/model_manager.py:287-303 | and in the chains, which keep all other entries |
| RoutingOutcomes.DeleteLeaves | g3ku/config/model_manager.py:316-324 | deleting takes the item out of the catalog and the key out of groups, chains and orchestrator, and nothing else |
| RoutingOutcomes.SetEnabledLeaves | g3ku/config/model_manager.py:305-314 | switching changes the switch, and switching off takes the key out as deleting does |
| ModelManagers.ModelManager.GetRoleModelKeys | g3ku/config/schema.py:1317-1334 | the loops return the ordered expansion without repetitions |
| ModelManagers.ModelManager.SetRoleModelRoutes | g3ku/config/schema.py:1345-1362 | one chain is replaced by the entries without blanks and repetitions |
| ModelManagers.ModelManager.RenameModelKeyInRouting | g3ku/config/schema.py:1372-1404 | chains and groups are renamed, the groups up to the first that clashes |
| ModelManagers.ModelManager.RemoveModelKeyFromRouting | g3ku/config/schema.py:1425-1460 | the key leaves groups and chains, or a refusal changes nothing |
| ModelManagers.ModelManager.Rename | g3ku/config/model_manager.py:287-303 | catalog, routing and orchestrator end as specified, also when it fails half way |
| ModelManagers.ModelManager.SetEnabled | g3ku/config/model_manager.py:305-314 | the same for switching a model on or off |
| ModelManagers.ModelManager.Delete | g3ku/config/model_manager.py:316-324 | the same for deleting |
| SchemaSanitizer.SanitizedIsClean | g3ku/json_schema_utils.py:162-200 | no object reached through object values and objects in lists keeps a combinator or a description, also after the merges |
| SchemaSanitizer.MergeKeepsClean | g3ku/json_schema_utils.py:51-107 | a merge of clean schemas is clean |
| SchemaSanitizer.UnionIsOrdered | g3ku/json_schema_utils.py:58-69 | merged required lists are the base, then the new names each once, and have no name twice if the base has none |
| SchemaSanitizer.UnionKeepsOrder | g3ku/json_schema_utils.py:58-69 | the new names come in the order of the overlay |
| SchemaSanitizer.MergedRequired | g3ku/json_schema_utils.py:58-69 | the merge writes that union and touches no other field |
| SchemaSanitizer.MergeKeepsBase | g3ku/json_schema_utils.py:100-106 | in a merge the base's value of a plain field wins, a type if it is not blank |
| SchemaSanitizer.MergeFillsIn | g3ku/json_schema_utils.py:100-106 | a plain field the base lacks is taken from the overlay |
| SchemaSanitizer.PreferredIsBest | g3ku/json_schema_utils.py:110-135 | the preferred branch is the first of the best-scored branches that are not the null type |
| SchemaSanitizer.CleanSchemaStays | g3ku/json_schema_utils.py:138-200 | a clean schema is accepted, and comes back unchanged if and only if no object in it has a loose type |
| SchemaSanitizer.SanitizingTwice | g3ku/json_schema_utils.py:162-200 | sanitizing again changes nothing if and only if the result has no loose type |
| SchemaBranches.UnshapedTakesTheBest | g3ku/json_schema_utils.py:162-200 | without type, properties, items, enum, const and additionalProperties after allOf, the best alternative that is not the null type is merged in, and its plain fields and its type are the result's where the schema has none; without such an alternative nothing is |
| SchemaBranches.ShapedIgnoresAlternatives | g3ku/json_schema_utils.py:193-198 | with one of the six the result is the merge of allOf alone, whatever anyOf and oneOf hold |
| SchemaBranches.OptionalStringStaysString | g3ku/json_schema_utils.py:193-198 | the usual schema of an optional string keeps the string type |
| SchemaBranches.PreferredIsFirstOfTheBest | g3ku/json_schema_utils.py:110-135 | the preferred alternative is the first of those with the highest score and then the most fields |
| SchemaBranches.ScoreIsWorth | g3ku/json_schema_utils.py:124-133 | the score adds what type, fields and listed values are worth |
| SchemaBranches.ItemsAreMerged | g3ku/json_schema_utils.py:85-99 | schemas of items and of additional properties are merged if both sides have one, and replaced otherwise |
| SchemaBranches.TablesAreMerged | g3ku/json_schema_utils.py:71-84 | the tables of properties are merged property by property |
| SchemaBranches.TypeIsFilledIn | g3ku/json_schema_utils.py:100-103 | a blank type is filled in |
| SchemaBranches.TypeIsKept | g3ku/json_schema_utils.py:100-103 | any other type stays, and null or an empty text is never taken over |
| SchemaBranches.PropertiesMustBeTables | g3ku/json_schema_utils.py:71-84 | properties that are neither a dictionary nor nothing are an error, on either side of a merge |
| SchemaBranches.RequiredForm | g3ku/json_schema_utils.py:58-66 | the names in a required value: those a list gives, the keys of a dictionary, the characters of a text, an error for a number or a truth value |
| SchemaBranches.NamesInOrder | g3ku/json_schema_utils.py:58-66 | a list gives its items' texts without outer white space, in order, and none for what is then empty or counts as nothing |
| SchemaBranches.TightenForm | g3ku/json_schema_utils.py:138-159 | a type is narrowed to objects, or objects and null, if and only if it is a list that admits something else and properties are listed |
| SchemaBranches.ListForm | g3ku/json_schema_utils.py:179-184 | in a list, objects are sanitized and everything else stays |
| SchemaBranches.TypeForm | g3ku/json_schema_utils.py:118-124 | types are compared up to case and outer white space |
| SchemaProperties.NamesThatSurvive | g3ku/json_schema_utils.py:162-200 | of the names in any object exactly those not called "description", "anyOf", "oneOf" or "allOf" survive; another name appears only from an object in a list under one of the last three |
| SchemaProperties.PropertiesThatSurvive | g3ku/json_schema_utils.py:162-200 | a schema keeps its table of properties, and of the declared ones exactly those with other names, whatever branches it has |
| SchemaProperties.MergeKeepsTable | g3ku/json_schema_utils.py:71-88 | a merge takes no declared property away |
| SchemaProperties.LostPropertyStaysRequired | g3ku/json_schema_utils.py:162-200 | unless allOf merges more in, the required names stay, those of lost properties included |
| SchemaProperties.RequiredPropertyIsLost | g3ku/json_schema_utils.py:167-175 | a schema for each of the four names in which a required property is gone |
| SchemaIdempotence.BranchFreeTwice | g3ku/json_schema_utils.py:162-200 | sanitizing a schema without lists of branches twice is sanitizing it once |
| SchemaIdempotence.UnionThroughAllOf | g3ku/json_schema_utils.py:162-200 | a schema with a branch that comes out different the second time |
| SchemaSanitizerLoops.MergeProviderSchemaDicts | g3ku/json_schema_utils.py:51-107 | the merge loop computes the specified merge or fails where it does |
| SchemaSanitizerLoops.SanitizeProviderSchema | g3ku/json_schema_utils.py:162-200 | the sanitizer's loops compute the specified result or fail where it does |
| PromptIncludes.LoadsExactlyWithoutCycles | main/prompts.py:13-30 | a prompt loads if and only if every name reachable from it can be read and no cycle is reachable |
| PromptIncludes.LoadedIsSubstituted | main/prompts.py:24-30 | a loaded prompt is its text with every include replaced by that prompt loaded on its own |
| PromptIncludes.StackDoesNotMatter | main/prompts.py:13-30 | the loaded text does not depend on what else is being expanded |
| PromptIncludes.ReportedCycleIsReal | main/prompts.py:14-16 | a reported cycle is a trail of includes that comes back on itself |
| PromptIncludes.ReportedUnreadableIsReal | main/prompts.py:19-30 | a name reported as unreadable is, and includes lead to it |

## Left out

- SQLite, JSONL files, file locks and the worker lease: each manager method is one atomic step on lists and tables in memory.
- The agent call, provider errors, tool schemas and prompt texts: an attempt is an arbitrary outcome, and which texts are acceptable is a parameter.
- The expiry of terminal records after seven days: the history keeps every record.
- Usage totals, model chains, attempt counts, error histories, decision and trigger sources and session keys of requests and records.
- MemoryTable.Render: rows keep their insertion order; the program orders them by creation time and id, and takes an entry's date from a clock string.
- MemoryTable.Length: a note reference counts five characters and its name; the white space that collapses around a removed reference and references formed anew by the removal are not modelled.
- MemoryDocument.PrintText: a reference prints as a blank, its mark and its name; the older mark for references and a summary that is nothing but a reference are not modelled.
- MemoryValidator.DocumentOk: the printed form of one entry (valid id, header and non-empty single line) is taken as given here; `MarkdownMemory` has it.
- MemoryValidator.Accepts: ids for new entries are parameters, assumed new and distinct; the program generates them.
- MemoryCommit.Commit: note files are their names; the bodies written and the failures of single file operations are not modelled.
- MemoryRuns.AgentFails: the id of a new failed record is new, as request ids are.
- MarkdownMemory.IsDate: only ASCII digits count as digits; which characters are word characters is a parameter.
- BinarySearch.SearchBinaryTarget: the preview text and the scanned byte count of an overflow are not modelled.
- ContentPager.BuildLineExcerpt: how a text is cut into lines is not modelled; the pages are over a list of lines, joined by line feeds.
- ContentPager.CharExcerpt: the selectors of the public open operation and its refusal of mixed selectors are not modelled.
- ReferenceResolver.Resolve: references and the reference a text wraps are taken in normal form; the envelope parser, gzip decompression and path resolution are parameters of the store.
- WakeQueue.Next: clear_session, close and cancellation, a request outside a running event loop, and real time are not modelled.
- ModelRouting.ModelKeys: keys are stripped already; a group without name and list-shaped input forms are normalised before.
- RoutingContract.DeleteModel: the deletion of the stored binding record and the saving of the file are not modelled.
- SchemaIdempotence.BranchFreeTwice: the condition on the schema is sufficient only; the exact one, in `SchemaSanitizer.SanitizingTwice`, is on the result, which depends on what all the merged branches leave of type and properties.
- SchemaSanitizer.AsDict: a list of pairs where a dictionary is expected is an error in the model; the program would accept it.
- SchemaSanitizer.Sanitize: how a value that is not a string is printed is a parameter.
- PromptIncludes.Load: names that leave the prompts directory count as unreadable; texts are cut at their include marks beforehand.
- Configuration loading, secrets, bridges, update scripts, heartbeat prompt rendering and the command line.
