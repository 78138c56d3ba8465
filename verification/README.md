# A verified model of the agentic banking platform

The platform answers compliance questions, onboards clients and keeps an audit trail of what its
agents did. This project models the parts where a mistake would be silent, in Dafny, and proves
what they are for. `dafny verify dfyconfig.toml` checks all of it.

| file | what it models |
|---|---|
| `Audit.dfy`, `AuditContent.dfy`, `AuditRuns.dfy`, `Restarts.dfy` | the hash-chained, signed audit log: recording, persistence with lost writes and restarts, reload, verification |
| `Applications.dfy`, `ApplicationContent.dfy`, `ApplicationRuns.dfy`, `Decisions.dfy` | client applications, their review tasks, the client-facing status and who decides it, over whole runs |
| `Chunking.dfy`, `WindowLaws.dfy`, `WholeWords.dfy`, `Retrieval.dfy`, `CitationsExact.dfy`, `IndexCache.dfy`, `Evaluation.dfy`, `EvaluationExact.dfy`, `Proportion.dfy` | the retrieval pipeline: windows over text, deduplication, graph hop, index cache, metrics |
| `Graph.dfy`, `GraphEdges.dfy` | derived relationships, the two-hop policy join, the one-hop neighbourhood |
| `Mcp.dfy`, `Supervisor.dfy`, `SupervisorAnswers.dfy`, `FanOut.dfy`, `Accounting.dfy`, `Gateway.dfy` | scoped tool calls, intent routing, parallel workers, the audit events of a run |
| `EventBus.dfy` | bounded history and fan-out to subscribers, under interleavings |
| `Screening.dfy`, `ScreeningExact.dfy` | name matching, sanctions screening, PEP analysis, risk score |
| `Luhn.dfy`, `Masking.dfy`, `Hiding.dfy`, `Telemetry.dfy` | card-number checksum, span masking and what it hides, depth of spans in a trace |
| `Prelude.dfy`, `Text.dfy`, `TextLaws.dfy`, `Sorting.dfy`, `Bounded.dfy`, `Keyed.dfy` | shared vocabulary: Python slices, whitespace, string order, stable sort, bounded lists, dictionaries |

Code that updates state is a class or a method with loops, each tied to a function of its inputs
or of the old state; the theorems are about those functions. Where a function says what an
operation answers or writes, a theorem named `...Exact`, `...Laws` or `...InOrder` says the same from
the inputs alone, position by position or member by member, without that function.

**Assumptions.** Digests are symbolic and injective: a digest is the genesis value or the hash of
an entry's fields, and a signature is the key with the digest it signs. Generated ids are fresh.
`record`, one update of an application, and one lock-protected section of the event bus are
atomic. Regular expressions, entity recognition, fuzzy name matching, vector search, prompt
guards, leaf tools and answer generation are parameters: pure functions of their arguments,
otherwise arbitrary. So a tool whose outcome depends on state that other workers change, or on the
order of the calls, is outside the theorems about schedules. Quotients are exact reals.

**Where the code does not do what its comments say or what one may expect, the model follows the
code.**

- `app/services/audit.py:62-63` says a corrupt line surfaces as an invalid chain. It ends the load,
  and the lines before it still verify if they did (`CorruptLineTruncates`). Everything
  recorded later lies behind that line and is gone after each restart (`BehindCorruptLineIsLost`).
- `app/services/audit.py:36-38` says that somebody who can rewrite the whole file cannot forge a
  valid trail without the signing key. The chain is not keyed and an entry without a signature is
  accepted, so a trail with any contents can be made without the key and verifies
  (`UnsignedTrailAccepted`). The claim holds exactly for callers who also compare two numbers of the
  verdict: it is valid and counts as many signatures as entries if and only if every entry carries
  the signature of the key (`ValidAndCountedIffSigned`).
- `chunk_text` says it splits on whitespace boundaries. In a text longer than a chunk, a word is
  whole in some chunk if and only if it is shorter than a chunk, or it has exactly the size of a
  chunk and stands at the very beginning or the overlap is at least the size minus one
  (`ChunkHoldsWordIff`, with a torn word in `FullSizeWordTorn`).
- `app/services/retrieval.py:126-127` protects fresh chunks from the next query only. Ingesting a new
  document changes the number of nodes, so it discards the chunks of all earlier documents;
  ingesting a known document again keeps them (`IngestKeepsEarlierChunksIffKnown`).
- The index is judged stale by the number of nodes alone. A query sees the current corpus if and only
  if that number changed or every node still contributes what it did when the index was last built
  (`QuerySeesCurrentCorpusIff`); a renamed policy is still found under its old title
  (`RenamedPolicyIsStale`).
- `app/agents/supervisor.py:162-163` says the copilot also answers alongside other workers. It only
  ever runs alone (`RoutingIsSound`).
- A high-risk jurisdiction raises the score but never escalates by itself (`ReviewIffMatchOrPep`).
- A history limit of 0 keeps everything, because `[-0:]` is the whole list (`ZeroLimitKeepsAll`).
- Masking hides disjoint findings, but overlapping ones can stay partly readable: when a finding
  lies inside another that reaches further right, and its placeholder is longer than itself, the end
  of the outer one is left in the text (`NestedFindingLeaks`). Two overlapping findings are hidden if
  and only if the one starting first ends no later or the placeholder of the other is not longer
  than what it replaces (`OverlapHidesIff`); for any number of findings in any order, hiding is
  equivalent to a condition on the offsets and placeholders alone (`HidesIffNothingLeft`).
- `app/services/applications.py:211-217` describes the review of an application as its own. A direct
  onboarding call shares the namespace of review ids and can put a decided application back under
  review (`SomeCallUndoesDecision`); `StatusAfterDirectCall` says exactly when, and
  `DecidedByLatestHumanDecision` what decides an application over runs with such calls.

## Model

| member | source | states |
|---|---|---|
| `Audit.AuditLog.constructor` | app/services/audit.py:44-50 | a log with a path starts with what its file says, one without starts empty at number 1 |
| `Audit.AuditLog.Load` | app/services/audit.py:52-71 | reading stops at the first corrupt line, skips blanks, and numbering resumes after the last id that can be parsed |
| `Audit.AuditLog.Record` | app/services/audit.py:86-130 | extends trail, counter and, if the append succeeds, the file by one signed entry linked to the last one |
| `Audit.AuditLog.VerifyChain` | app/services/audit.py:141-159 | accepts exactly the trails in which every entry is intact; otherwise names the least broken entry and how many signed ones precede it |
| `Audit.FieldsDetermineRequest` | app/services/audit.py:86-130 | no argument of `record` escapes the hash: equal hashed fields mean equal arguments, metadata up to masking |
| `AuditContent.FieldsHoldArguments` | app/services/audit.py:96-110 | the ten fields of an entry and their values: each argument under its key, the metadata with the keys of the request, its strings masked, everything else as given |
| `AuditContent.EveryEntryIsMasked` | app/services/audit.py:86-130 | over every mix of records, losses and restarts, every entry in memory and in the file holds exactly the arguments of some record of the run, its metadata masked |
| `AuditContent.EntriesRecordRequests` | app/services/audit.py:86-130 | without restarts the entry at each position is that of the request at that position, with its number |
| `AuditContent.MaskedAwayLeavesNoTrace` | app/services/audit.py:96-101 | requests that differ only in strings the mask makes the same have equal hashed fields |
| `AuditContent.LogIdShape` | app/services/audit.py:112 | the prefix and the number in at least six places, without leading zeros beyond them |
| `AuditContent.NextNumberExact` | app/services/audit.py:67-71 | where numbering resumes: after the number at the end of the last id, after the number of entries if there is none, at one if the entry has no id |
| `AuditContent.ParsedLaws` | app/services/audit.py:55-66 | reading a file line by line: blank, stored, corrupt |
| `AuditContent.SignedCountIsCount` | app/services/audit.py:153-157 | the reported number of signatures is that of the entries that carry one |
| `Audit.HashPinsHistory` | app/services/audit.py:111-130 | two accepted trails that share one entry hash, at whatever positions, agree on everything up to it, and the positions are the same |
| `Audit.LastHashDeterminesTrail` | app/services/audit.py:141-159 | an accepted trail is determined in all hashed fields by its last entry hash |
| `Audit.IssuedSignaturesOnlyFitThePrefix` | app/services/audit.py:141-159 | an accepted trail that ends in an issued signature is a prefix of the real trail in all hashed fields, and literally one if fully signed |
| `Audit.DeletionBreaksEverythingAfter` | app/services/audit.py:145-159 | after any deletions a surviving entry is intact if and only if nothing before it was deleted |
| `Audit.FirstBrokenOfSelection` | app/services/audit.py:145-159 | after deletions the first broken entry is the first survivor behind the first gap |
| `Audit.InteriorEditRejected` | app/services/audit.py:145-159 | replacing an interior entry is accepted if and only if no hashed field and no hash changed and its signature is missing or genuine |
| `Audit.EditBreaksEverythingAfter` | app/services/audit.py:145-159 | a changed hashed field breaks every later entry |
| `Audit.UnsignedTrailAccepted` | app/services/audit.py:141-159 | for every sequence of contents there is an unsigned trail with them that verifies under every key |
| `Audit.AllSignedIffCounted` | app/services/audit.py:141-159 | the signed count equals the number of entries exactly if no signature is missing |
| `Audit.ValidAndCountedIffSigned` | app/services/audit.py:141-159 | a verdict that is valid and counts as many signatures as entries means that every entry fits its position and carries the signature of the key, and conversely |
| `AuditRuns.RecordKeepsVerdict` | app/services/audit.py:86-130 | recording neither repairs nor breaks a chain |
| `AuditRuns.LogIdParses` | app/services/audit.py:64-71 | the id that `record` prints reads back as the number it was printed from, for every number of digits |
| `AuditRuns.DurableRunVerifies` | app/services/audit.py:52-130 | if no write is lost, after any records and restarts the trail verifies, is fully signed and numbered without gaps, and the file mirrors it |
| `AuditRuns.RunOfWrites` | app/services/audit.py:86-130 | whatever was lost on disk, the trail in memory verifies, is fully signed and numbered |
| `AuditRuns.DiskHoldsSurvivors` | app/services/audit.py:73-83 | the file reads back as exactly the recorded events whose append succeeded, in order |
| `AuditRuns.ReloadVerifiesIffPrefix` | app/services/audit.py:52-83 | after lost writes the reloaded trail verifies if and only if the persisted events are a prefix of the recorded ones |
| `AuditRuns.ReloadNamesFirstEventAfterGap` | app/services/audit.py:145-159 | otherwise, without restarts, the reported entry is the first persisted event after the first gap, with its number |
| `AuditRuns.ReloadContinuesNumbering` | app/services/audit.py:64-71 | after a restart numbering continues after the last persisted event |
| `Restarts.ReloadVerifiesIffOrderly` | app/services/audit.py:52-159 | over every mix of records, lost writes and restarts: after a restart the trail verifies if and only if within each session no persisted write followed a lost one |
| `Restarts.ReloadOfFileVerifiesIff` | app/services/audit.py:52-159 | the same from any file to start with: the trail verifies if and only if the file did and, unless a corrupt line hides what follows, that order was kept |
| `Restarts.BehindCorruptLineIsLost` | app/services/audit.py:58-66 | from a file with a corrupt line, whatever is recorded afterwards is never read again |
| `Restarts.FirstDisorder` | app/services/audit.py:73-83 | if that order was not kept, some persisted write is the first to follow a lost one of its session |
| `Restarts.ReloadNamesFirstDisorder` | app/services/audit.py:145-159 | and the verifier reports exactly that event, after any later records, losses and restarts |
| `Restarts.NumbersAscend` | app/services/audit.py:64-71 | over every such run the numbers in the log ids, in memory and on disk, strictly ascend and stay below the next one, so no id is used twice |
| `AuditRuns.CorruptLineTruncates` | app/services/audit.py:58-66 | lines behind a corrupt one have no influence |
| `Chunking.ChunkText` | app/services/ingestion.py:40-59 | for every text, chunk size from 1 and overlap from 0 the loop ends, and yields the trimmed non-empty windows |
| `TextLaws.SplitLaws` | app/services/ingestion.py:42 | splitting on blanks: they separate, maximal runs without them are kept |
| `TextLaws.JoinLaws` | app/services/ingestion.py:42 | joining with single spaces |
| `Chunking.WindowsCover` | app/services/ingestion.py:46-59 | every position of the normalised text lies in some window |
| `Chunking.WindowNeverEndsInShortWord` | app/services/ingestion.py:48-54 | a window that contains the start of a word shorter than a chunk and ends before the word does ends at its start or earlier |
| `Chunking.WindowsKeepWords` | app/services/ingestion.py:46-59 | every word shorter than a chunk lies whole in some window, wherever windows start |
| `Chunking.ChunkSizes` | app/services/ingestion.py:46-59 | chunks are not empty, not longer than the chunk size, and have no blank at either end |
| `Chunking.EveryLetterInSomeChunk` | app/services/ingestion.py:46-59 | no non-blank position of the normalised text is skipped |
| `Chunking.EveryShortWordInSomeChunk` | app/services/ingestion.py:40-59 | every word of the original text shorter than a chunk appears whole inside some chunk |
| `WindowLaws.WindowsExact` | app/services/ingestion.py:46-59 | where each window starts and ends: from the last start and the overlap, and from the last space strictly inside; only the last window reaches the end |
| `WindowLaws.SharedCharacters` | app/services/ingestion.py:58 | consecutive windows share as many characters as the overlap says, or all but one if they are too short for that |
| `WindowLaws.TrimmedExact` | app/services/ingestion.py:55-59 | the chunks are the windows without the blanks at their ends, in order, without the blank ones |
| `WindowLaws.ShortTextExact` | app/services/ingestion.py:42-45 | a text not longer than a chunk is one chunk, an empty one none |
| `WholeWords.WindowHoldsWordIff` | app/services/ingestion.py:46-59 | the exact condition on length, position and overlap under which some window holds a word whole |
| `WholeWords.ChunkHoldsWordIff` | app/services/ingestion.py:40-59 | the same for the trimmed chunks of every normalised text, every size from 1 and every overlap from 0 |
| `WholeWords.FullSizeWordTorn` | app/services/ingestion.py:40-59 | a word of the size of a chunk that is in no chunk |
| `Applications.Portal.SubmitApplication` | app/services/applications.py:73-147 | screening, checklist, screening review or final review, and registration, as one new state |
| `Applications.Portal.AddDocuments` | app/services/applications.py:150-207 | an unknown id changes nothing; otherwise the checklist grows and a completed unflagged file gets its review |
| `Applications.Portal.EnsureFinalReview` | app/services/applications.py:210-247 | creates the approval task once, for complete unflagged files only |
| `Applications.Portal.AddReview` | app/services/graph_store.py:234-263 | a known review id is overwritten where it stands, a new one is appended |
| `Keyed.UpsertExact` | app/services/graph_store.py:234-263 | putting a review with a known id changes that review only, where it stands; a new one goes to the end |
| `Applications.Portal.ResolveReview` | app/services/graph_store.py:271-279 | records decision, author and notes on the first review with the id, and says whether there is one |
| `Applications.Portal.ClientView` | app/services/applications.py:342-366 | the status and the documents still asked for, as functions of the record and the queue |
| `Applications.ReviewIdHasOneOwner` | app/services/applications.py:224-226 | a review id determines the application it was made for |
| `Applications.ComplianceIdIsForeign` | app/agents/compliance.py:101-134 | no compliance inspection, whatever its request id, writes a review id of an application |
| `ApplicationContent.SubmissionExact` | app/services/applications.py:73-147 | what a submission writes: one record with the data of the intake, and one review, whose severity follows from list matches, PEPs and jurisdiction, or the final approval, or none; no other record or review changes |
| `ApplicationContent.UploadExact` | app/services/applications.py:150-207 | what an upload writes: the file by membership, at most the final approval, nothing else of the record, no other record |
| `ApplicationContent.TasksExact` | app/agents/onboarding.py:124-169 | the review of an inspection or a direct onboarding call, with its severity, and no other change |
| `ApplicationContent.ApprovalExact` | app/services/applications.py:352-355 | a decision approves if it is one of two words in any case |
| `ApplicationContent.SuffixExact` | app/agents/onboarding.py:126-129 | which part of a request id a review id carries |
| `ApplicationContent.ClientIdExact` | app/services/applications.py:90-92 | how the client id is made from the company name |
| `ApplicationContent.IdentifiersExact` | app/services/applications.py:88-92 | how the ids of applications, reviews and the portal's user are spelled |
| `ApplicationContent.HexExact` | app/services/applications.py:88 | the generated part of an id |
| `ApplicationContent.PickInOrder` | app/services/applications.py:112-118 | the lists of documents keep the order of the checklist |
| `ApplicationRuns.RunSatisfiesInv` | app/services/applications.py:73-256 | after any steps, direct onboarding calls included: provided and missing partition the required documents in their orders, each record carries exactly the review it is due, that review is in the queue, a final approval in the queue belongs to a record that carries it, ids are distinct |
| `ApplicationRuns.ChecklistPartitions` | app/services/applications.py:112-118 | provided and missing together are the required documents, and share none |
| `ApplicationRuns.UploadShrinksMissing` | app/services/applications.py:180-192 | an upload removes exactly the uploaded documents from the missing ones; unlisted documents count for nothing |
| `ApplicationRuns.StatusMeaning` | app/services/applications.py:342-366 | documents are requested exactly of unflagged incomplete files, `under_review` is shown exactly while the own review is pending, a decision exactly when it is resolved |
| `ApplicationRuns.OutstandingMeaning` | app/services/applications.py:368-382 | a client without a decision is asked for exactly the required documents not provided, one with a decision for none, and nobody is told that documents are missing without being told which |
| `ApplicationRuns.ReviewsAreUnique` | app/services/applications.py:274-279 | two applications never carry the same review, so the reverse lookup is unambiguous |
| `ApplicationRuns.RunEvolves` | app/services/applications.py:150-256 | over any continuation of a run an application stays, its missing documents only shrink, its review, once assigned, is never replaced |
| `Decisions.OnlyResolveTouchesReviews` | app/services/applications.py:210-247 | a step that neither decides a review nor starts it anew leaves a queued review of any application unaltered, and screening reviews appear in no other way |
| `Decisions.OnlyResolveDecides` | app/services/applications.py:329-366 | none of them moves an application into or out of approved or declined |
| `Decisions.QueueRecordsDecisions` | app/api.py:942-972 | the state of an application's review is the latest decision the run took on it since it was last started, pending if there was none |
| `Decisions.DecidedByLatestHumanDecision` | app/api.py:942-972 | over every run, direct onboarding calls included, a client sees approved exactly if the latest decision on the own review since it was last started was an approval, and declined exactly if it was another decision |
| `Decisions.LatestDecisionCounts` | app/api.py:942-972 | in runs without direct calls that is simply the latest decision on the review |
| `Decisions.ScreeningNeedsApplication` | app/agents/onboarding.py:124-169 | because there a screening review is only ever queued together with its application |
| `Decisions.StatusAfterDirectCall` | app/agents/onboarding.py:124-169 | a direct onboarding call changes the status of an application exactly if the screened client is escalated, the application was escalated at submission and the request id ends in its number; then it is under review again |
| `Decisions.SomeCallUndoesDecision` | app/agents/onboarding.py:124-169 | for every application escalated at submission there is such a call, whatever was decided |
| `Screening.SanctionsCheck` | app/services/sanctions.py:89-121 | matches of the client and of all named owners, in order |
| `Screening.AnalyzePep` | app/agents/onboarding.py:83-96 | the politically exposed owners, in order |
| `Screening.AssessRisk` | app/agents/onboarding.py:99-121 | score, level and route |
| `Screening.TokenSortedCanonical` | app/services/sanctions.py:63-69 | token-sorted names are equal exactly when the token multisets are |
| `Screening.LocalMatchIffSameTokens` | app/services/sanctions.py:56-69 | a name matches the local list if and only if its normalised tokens are, with multiplicity, those of an entry |
| `ScreeningExact.MatchExact` | app/services/sanctions.py:56-82 | which list a name is found on, from its tokens: the watchlist first, then the SDN snapshot as it is, in another token order, or by the fuzzy matcher; a name without tokens on neither |
| `ScreeningExact.SanctionsExact` | app/services/sanctions.py:89-121 | a client is sanctioned exactly if it or a named owner is on a list; each listed one has its match with name, kind and list, and there are no others; coverage and risky jurisdiction |
| `ScreeningExact.MatchesInOrder` | app/services/sanctions.py:101-115 | the match of the client and then, owner by owner, those of the owners |
| `ScreeningExact.CleanOne` | app/services/sanctions.py:35-36 | what normalising does to each character |
| `ScreeningExact.PepIff` | app/agents/onboarding.py:83-96 | which markers make an owner politically exposed |
| `ScreeningExact.PepsInOrder` | app/agents/onboarding.py:83-96 | the exposed owners stay in their order |
| `ScreeningExact.AssessmentExact` | app/agents/onboarding.py:99-121 | score, level and outcome of raw input, from PEPs, list matches and jurisdiction |
| `ScreeningExact.StripExact` | app/agents/onboarding.py:48-55 | the parsed name and jurisdiction are the given ones without the blanks at their ends |
| `Screening.MoreOwnersKeepMatches` | app/services/sanctions.py:101-117 | adding or reordering owners never removes a match |
| `Screening.MoreOwnersRaiseRisk` | app/agents/onboarding.py:83-121 | it never lowers the score or the level, and never turns a review into an approval |
| `Screening.ReviewIffMatchOrPep` | app/agents/onboarding.py:99-121 | a client is escalated exactly for a sanctions match or a PEP; the jurisdiction alone never does it |
| `Retrieval.GraphAugment` | app/services/retrieval.py:150-185 | the nested loops with their early exits find the first new neighbours of the cited sources |
| `Retrieval.Retrieve` | app/services/retrieval.py:187-233 | trims, groups, sorts, cuts, expands |
| `Retrieval.GroupsExact` | app/services/retrieval.py:201-219 | one group per signature, in rank order of first occurrence, with the best score and the smallest id of its class |
| `TextLaws.LexLeqIff` | app/services/retrieval.py:214 | the order of ids: a prefix comes first, otherwise the first difference decides |
| `Retrieval.GroupsAlreadySorted` | app/services/retrieval.py:217-221 | the final sort by rank changes nothing |
| `Retrieval.VectorCitationsExact` | app/services/retrieval.py:196-230 | before the hop there is one citation for each of the first k exact groups of the trimmed pool |
| `CitationsExact.TrimExact` | app/services/retrieval.py:196-199 | trimming keeps the hits with at least half the score of the first, in order, and the first if there are none |
| `CitationsExact.PlainCitationsExact` | app/services/retrieval.py:201-233 | the i-th citation before the hop stands for the i-th class of near-duplicates: its source is the least id of the class, its excerpt and type those of the first hit with that id, its score the best of the class |
| `CitationsExact.CandidatesLaws` | app/services/retrieval.py:166-183 | what a citation of the hop says of the neighbour it comes from, and the order of the candidates |
| `CitationsExact.HopCitationsExact` | app/services/retrieval.py:161-185 | the hop adds the first k candidates that are cited neither before nor by an earlier candidate |
| `Retrieval.FreshIsNew` | app/services/retrieval.py:163-184 | the hop cites nothing twice and nothing already cited |
| `Retrieval.FreshMissesNothing` | app/services/retrieval.py:163-184 | without the limit every neighbour would be cited |
| `Retrieval.HopOnlyAppends` | app/services/retrieval.py:150-233 | the hop keeps the vector citations as a prefix, adds at most k new ones, and if it adds fewer, every neighbour of a citation is cited |
| `Retrieval.HopNeverLowersRecall` | app/eval/harness.py:87-92 | the hop never lowers context recall, for every set of expected sources |
| `IndexCache.GraphRAGRetriever.BuildIndex` | app/services/retrieval.py:73-106 | one entry per corpus node with text, and the count of all nodes |
| `IndexCache.GraphRAGRetriever.EnsureIndex` | app/services/retrieval.py:108-117 | rebuilds exactly when the node count differs or nothing was built |
| `IndexCache.GraphRAGRetriever.IndexChunks` | app/services/retrieval.py:119-128 | makes the index current and appends the chunks |
| `IndexCache.EntryExact` | app/services/retrieval.py:73-106 | the id and text a policy, regulation or piece of evidence contributes, and when a node contributes nothing |
| `IndexCache.ChunkItemsExact` | app/services/retrieval.py:119-128 | the id, text and number of each indexed chunk |
| `IndexCache.CorpusUnchangedIff` | app/services/retrieval.py:73-106 | overwriting a node leaves the corpus alone exactly if the node contributes the same |
| `IndexCache.SameCorpusIff` | app/services/retrieval.py:73-106 | two dictionaries with the same keys in the same places have the same corpus exactly if every node contributes the same |
| `IndexCache.RunTracks` | app/services/retrieval.py:108-128 | over every run the index holds the corpus of the nodes it was built from, which keep their places, and, while the count is right, the live chunks |
| `IndexCache.QuerySeesCurrentCorpusIff` | app/services/retrieval.py:108-117 | over every run, overwrites included: a query finds exactly the live chunks, and the current corpus if and only if the number of nodes changed or each contributes what it did when the index was built |
| `IndexCache.OverwriteSeenIff` | app/services/retrieval.py:108-117 | what that means right after an overwrite, whatever happened before |
| `IndexCache.StaleAfterOverwrite` | app/services/retrieval.py:108-117 | an overwrite that changes a contribution is missed, missed again when repeated, and healed by the old node coming back |
| `IndexCache.RenamedPolicyIsStale` | app/services/retrieval.py:108-117 | a run after which queries find a policy under its old title |
| `IndexCache.IngestKeepsEarlierChunksIffKnown` | app/services/ingestion.py:62-122 | in every run an ingest keeps the earlier live chunks exactly if the document node was already known |
| `Evaluation.CauchySchwarz` | app/eval/harness.py:69-76 | the squared sum of products is at most the product of the sums of squares |
| `Evaluation.DotBounded` | app/eval/harness.py:69-76 | the dot product over question keys only is bounded by both norms |
| `Evaluation.RelevancyInUnitInterval` | app/eval/harness.py:69-76 | relevancy lies in [0, 1] for all token lists |
| `Evaluation.RelevancyZeroIffNothingShared` | app/eval/harness.py:69-76 | and is 0 exactly when no token is shared |
| `Proportion.Lagrange` | app/eval/harness.py:69-76 | the gap in the Cauchy-Schwarz inequality is a sum of squares over pairs of tokens |
| `Proportion.RelevancyOneIffProportional` | app/eval/harness.py:69-76 | relevancy is 1 exactly when neither text is empty and the token counts are proportional |
| `Evaluation.DotSymmetric` | app/eval/harness.py:69-76 | question and answer can be swapped |
| `Evaluation.RecallFull` | app/eval/harness.py:87-92 | recall is a fraction, 1 exactly when everything expected was retrieved |
| `Evaluation.RecallMonotone` | app/eval/harness.py:87-92 | retrieving more never lowers it |
| `Evaluation.PrecisionFull` | app/eval/harness.py:79-84 | precision is a fraction, 1 exactly when something and only expected sources were retrieved |
| `EvaluationExact.SharesExact` | app/eval/harness.py:79-92 | recall and precision as numbers of positions over numbers of positions, and their values without sources |
| `EvaluationExact.RelevancyExact` | app/eval/harness.py:69-76 | relevancy as pairs of equal tokens over the geometric mean of the pairs within each text |
| `Evaluation.Faithfulness` | app/eval/harness.py:47-66 | the share of sentences at least half grounded, in [0, 1] |
| `EvaluationExact.FaithfulnessExact` | app/eval/harness.py:47-66 | faithfulness as the number of sentences at least half of whose tokens occur in the contexts, over their number |
| `Evaluation.FaithfulnessMonotone` | app/eval/harness.py:47-66 | more context never makes an answer less faithful |
| `Graph.GraphStore.LoadDemoData` | app/services/graph_store.py:22-38 | nodes are upserted, relationships appended |
| `Graph.GraphStore.BuildRelationships` | app/services/graph_store.py:40-87 | appends the derived relationships of the current nodes, duplicates included |
| `Graph.GraphStore.AddDocument` | app/services/graph_store.py:281-305 | the node and the links of an ingested document |
| `Graph.GraphStore.GetRelatedPolicies` | app/services/graph_store.py:201-213 | the two-hop lookup over relationships, each policy once |
| `Graph.GraphStore.GraphNeighbors` | app/services/graph_store.py:157-184 | the neighbour loop with its skips |
| `Graph.LookupAfterLoad` | app/services/graph_store.py:104-116 | after a load an id names the last row carrying it, and otherwise what it named before |
| `GraphEdges.DerivedExact` | app/services/graph_store.py:40-87 | the five kinds of relationships that are derived, each from the nodes that call for it, and no others |
| `GraphEdges.DocumentExact` | app/services/graph_store.py:281-305 | the node and the links of an ingested document |
| `Graph.JoinIsExact` | app/services/graph_store.py:201-213 | the join yields exactly the policies under a regulation of the client's country or the EU |
| `Graph.RunKeepsInv` | app/services/graph_store.py:22-87 | after any reloads and any ingests of new or known documents the relationships are sound and complete for the join, and loaded rows other than documents are as loaded |
| `Graph.JoinExactAndStable` | app/services/graph_store.py:201-213 | so the join stays exact, and its answer is that of the first load |
| `Graph.NeighboursExact` | app/services/graph_store.py:157-184 | a node is a neighbour exactly if it has text and shares a relationship in either direction, and appears once |
| `GraphEdges.NeighboursInOrder` | app/services/graph_store.py:157-184 | text and tag of each neighbour are those of its node, its relation that of the first edge to it, and neighbours stand in the order of these edges |
| `Supervisor.ClassifyIntents` | app/agents/supervisor.py:115-170 | the in-place removals leave the matched usable intents in pattern order, with arguments and notes |
| `Supervisor.RoutingIsSound` | app/agents/supervisor.py:115-170 | every request is routed, no worker twice, each with the arguments its tool requires; the copilot only alone |
| `SupervisorAnswers.IntentsExact` | app/agents/supervisor.py:115-170 | exactly the matched workers the request has data for, in the order of the patterns; the copilot if there is none |
| `SupervisorAnswers.RoutingExact` | app/agents/supervisor.py:115-170 | the arguments each worker gets |
| `SupervisorAnswers.NotesExact` | app/agents/supervisor.py:115-170 | which routing notes there are |
| `SupervisorAnswers.AccessExact` | app/agents/supervisor.py:174-194 | who is allowed, who is denied, and the audit event of each decision in order |
| `SupervisorAnswers.ScopesExact` | app/services/rbac.py:156-175 | which tools each of the platform's agents may call |
| `SupervisorAnswers.ToolNamesExact` | app/mcp/server.py:51-137 | the names of the tools, no two alike |
| `Supervisor.FilterSplits` | app/agents/supervisor.py:174-194 | allowed and denied are together as many as the intents, and each repeats nothing |
| `Supervisor.FilterKeepsOrder` | app/agents/supervisor.py:174-194 | both keep the order of the intents |
| `Supervisor.MergedIsUnion` | app/agents/supervisor.py:305-313 | the merged guard flags start with the supervisor's, are those of both, and repeat nothing |
| `Supervisor.SummariesInOrder` | app/agents/supervisor.py:270-278 | one summary line for each delivered result, in the order of the intents |
| `Supervisor.CopilotAnswersAlone` | app/agents/supervisor.py:280-296 | a copilot answer is the whole answer, with its citations, and nothing was denied |
| `FanOut.CompleteIffEnoughTurns` | app/agents/supervisor.py:340-367 | an interleaving completes exactly if every worker gets as many turns as it has steps |
| `FanOut.ScheduleDoesNotMatter` | app/agents/supervisor.py:203-229 | every complete interleaving has the results of the sequential one, and a rearrangement of its audit events |
| `FanOut.SequentialIsASchedule` | app/agents/supervisor.py:203-229 | running the workers one after the other is a complete interleaving, with the same trail event by event |
| `FanOut.AnswerDoesNotDependOnSchedule` | app/agents/supervisor.py:267-313 | hence one aggregated answer, with one section for each allowed intent holding that worker's own output |
| `SupervisorAnswers.WorkDelivers` | app/agents/supervisor.py:203-209 | what a worker puts into its section: the output of its tool, the message of a ValueError, or the shortened text of any other exception behind the name of the tool; for the copilot the refusal of its guard or what generation makes of the search result |
| `SupervisorAnswers.SuperviseExact` | app/agents/supervisor.py:267-367 | the whole answer of a run: sections as delivered, the text from the lines of the workers in order or from whom was denied, citations, flags and notes; or the refusal |
| `SupervisorAnswers.AnyScheduleExact` | app/agents/supervisor.py:267-367 | the same whatever the schedule of the workers |
| `SupervisorAnswers.RouteEventExact` | app/agents/supervisor.py:315-326 | the last event names who asked, who ran and who was denied |
| `SupervisorAnswers.NestedRunExact` | app/mcp/server.py:184-203 | how a supervisor called over MCP runs and what it returns |
| `Accounting.EventsOfWorker` | app/mcp/server.py:236-287 | the exact events of one worker call, nested search call included |
| `Accounting.RunIsAccountedFor` | app/agents/supervisor.py:174-326 | for every kind of event, how often it occurs in a completed run under any schedule and any behaviour of the tools |
| `Accounting.WellBehavedRun` | app/agents/supervisor.py:174-326 | with handlers that raise only ValueError: one check per intent, one call per allowed intent, one search call if the copilot ran past its guard, one route event |
| `Accounting.RunLength` | app/agents/supervisor.py:174-326 | and no event besides those |
| `Accounting.SuperviseIsARun` | app/agents/supervisor.py:340-367 | the trail of the gateway's own run is the trail of a complete schedule, so all these counts hold of it |
| `Accounting.SuperviseLength` | app/agents/supervisor.py:340-367 | the number of events such a run writes, refused ones included |
| `Accounting.DenialIffOutOfScope` | app/services/rbac.py:156-175 | a scope denial is written exactly when the caller itself is out of scope; no nested call of a workflow is ever denied |
| `Gateway.SupervisorGateway.HandleToolsCall` | app/mcp/server.py:236-287 | response and audit events of a call, errors of each kind included; nesting ends because nested tools have lower rank |
| `Gateway.SupervisorGateway.RunCopilot` | app/agents/copilot.py:60-88 | refuses without a search, or searches once |
| `Gateway.SupervisorGateway.CallTool` | app/agents/supervisor.py:203-209 | errors of either kind become an error section |
| `Gateway.SupervisorGateway.EnforceRbac` | app/agents/supervisor.py:174-194 | the split of the intents, with one audit event for each decision in order; anonymous callers pass unrecorded |
| `Gateway.SupervisorGateway.RunWorkers` | app/agents/supervisor.py:212-229 | the sequential schedule |
| `Gateway.SupervisorGateway.Aggregate` | app/agents/supervisor.py:267-326 | sections, answer with its fallbacks, merged flags, one route event |
| `Gateway.SupervisorGateway.Run` | app/agents/supervisor.py:340-367 | the whole graph: a refused query leaves no event, any other the events of its stages in order |
| `EventBus.InProcessEventBus.Publish` | app/services/event_bus.py:67-79 | trims the history, calls each handler copied under the lock once in order, swallows what they raise |
| `EventBus.InProcessEventBus.Subscribe` | app/services/event_bus.py:81-83 | appends the handler to its topic and touches nothing else |
| `EventBus.InProcessEventBus.Recent` | app/services/event_bus.py:85-88 | the last matching events of the history |
| `EventBus.HistoryIsNewestPublished` | app/services/event_bus.py:67-79 | under any interleaving with a positive limit the history has as many events as the limit admits, and each stands where the publish order, counted from its end, has it |
| `EventBus.RecentExact` | app/services/event_bus.py:85-88 | recent events are the last ones of the history on the topic, in order, as many as asked for or as there are, and none in between is left out |
| `EventBus.CallsExact` | app/services/event_bus.py:74-78 | which calls a publication makes and which of them count as failed |
| `EventBus.SubscribersAreRegistered` | app/services/event_bus.py:81-83 | no registration is lost or reordered |
| `EventBus.DeliversOncePerHandler` | app/services/event_bus.py:67-79 | whatever happens before, between and after, a publication calls the handlers registered at its lock step in order, at most once for each registration, and all of them once it has finished |
| `EventBus.PublishIsLockThenDeliveries` | app/services/event_bus.py:67-79 | undisturbed, the lock step and its deliveries have the history, subscribers and calls that `Publish` promises |
| `Bounded.ZeroLimitKeepsAll` | app/services/event_bus.py:71-72 | with limit 0 nothing is ever dropped |
| `Bounded.KeepsNewest` | app/services/telemetry.py:64-65 | with a positive limit, appending batches and trimming keeps the last entries ever appended, position by position, as many as the limit admits |
| `Luhn.LuhnValid` | app/services/dlp.py:33-44 | valid exactly for 13 to 19 digits whose weighted sum is a multiple of ten |
| `Luhn.SingleErrorDetected` | app/services/dlp.py:33-44 | every change of one digit is detected, at any length and position |
| `Luhn.TranspositionDetected` | app/services/dlp.py:33-44 | swapping two neighbours goes unnoticed exactly for equal digits and 09/90 |
| `Luhn.CheckDigitUnique` | app/services/dlp.py:33-44 | every payload has exactly one valid check digit |
| `Luhn.SeparatorIrrelevant` | app/services/dlp.py:34 | a character that is not a digit never affects the verdict |
| `Luhn.DigitsExact` | app/services/dlp.py:34 | each digit character yields its value, in order |
| `Luhn.ChecksumLaws` | app/services/dlp.py:37-43 | from the right, every second digit is doubled and the digits of the product are added |
| `Masking.MaskFindings` | app/services/dlp.py:79-89 | splices the findings by descending start; lists each label once |
| `Masking.LabelsInOrderOfUse` | app/services/dlp.py:79-89 | the labels found stand in the order of their first use |
| `Masking.LabelsExact` | app/services/dlp.py:48-57 | the placeholders of the known entity types; any other names itself |
| `Sorting.SortByStable` | app/services/dlp.py:84 | findings with the same start keep their order |
| `Masking.SpliceRightToLeft` | app/services/dlp.py:79-89 | splicing from the right with original offsets equals the left-to-right replacement |
| `Masking.MaskingMeetsSpecification` | app/services/dlp.py:79-89 | for disjoint findings in any order: text outside in order, each finding its label |
| `Masking.RedactionHidesContent` | app/services/dlp.py:79-89 | texts that differ only inside the findings are masked to the same text |
| `Masking.OverlapCutsPlaceholder` | app/services/dlp.py:79-89 | for every two overlapping findings: the placeholder put in first loses as many characters at its front as the findings overlap |
| `Masking.OverlapDestroysLabel` | app/services/dlp.py:79-89 | so nothing but its closing bracket may be left |
| `Hiding.MaskedIsRendered` | app/services/dlp.py:79-89 | which character of the masked text comes from which position or placeholder, for findings of any kind in any order |
| `Hiding.HidesIffNothingLeft` | app/services/dlp.py:79-89 | for all findings, overlapping or not: the masked text is independent of the characters inside them if and only if the plan computed from offsets and placeholders keeps none of them |
| `Hiding.OverlapHidesIff` | app/services/dlp.py:79-89 | the closed condition for two overlapping findings |
| `Hiding.HarmlessFindingsAreHidden` | app/services/dlp.py:79-89 | any number of findings is hidden if that condition holds of every two that overlap |
| `Hiding.MaskingHidesFindings` | app/services/dlp.py:79-89 | both for the order in which the loop takes the analyzer's results |
| `Hiding.NestedFindingLeaks` | app/services/dlp.py:79-89 | a finding inside another whose masked text leaves the end of the outer one readable |
| `Telemetry.RingExporter.Export` | app/services/telemetry.py:42-66 | one batch appended and trimmed by the limit slice, the history of exports extended |
| `Telemetry.RingExporter.HoldsNewest` | app/services/telemetry.py:42-66 | after any exports the ring is the last part of everything exported, position by position |
| `Telemetry.Depth` | app/services/telemetry.py:418-424 | the loop walks up the parents within its level guard |
| `Telemetry.ByIdExact` | app/services/telemetry.py:410-416 | of several spans with one id the last is found |
| `Telemetry.WalkCountsAncestors` | app/services/telemetry.py:418-424 | the level is the number of ancestors inside the trace, as far as the guard allows |
| `Telemetry.GuardOnlyCutsCycles` | app/services/telemetry.py:418-424 | the guard is reached exactly when the parent links run into a cycle, whatever the number of spans |
| `Telemetry.DepthIsParentDepthPlusOne` | app/services/telemetry.py:418-424 | without a cycle the depth is 0 when the parent is missing or evicted, and otherwise the parent's plus one |

## Left out

- The text of hashes, signatures and JSON lines; half-written lines; log ids that are not strings; `int()` spellings such as `1_0` or `+5`; unlocked concurrent calls of `record`.
- Audit.AuditLog.Record: is not about a file whose last readable entry has no hash, on which `record` raises a KeyError; nor are the theorems about runs on existing files.
- Audit.AuditLog.Load: takes each line as blank, corrupt or a stored entry, because JSON text is not modelled.
- Chunking.ChunkText: chunk sizes below 1 and negative overlaps, with which no caller calls it.
- Notifications to clients and their duplicate suppression; the register file. Records are values, as in the key-value store; aliasing of the in-memory register is not modelled.
- Failures of the store while a step is under way, and concurrent updates of one record.
- Validation of request bodies.
- Free text in review packages, decision thresholds and reasoning of the compliance agent.
- Fuzzy and SDN matches beyond the order in which they are consulted: they are parameters.
- Case folding outside ASCII beyond what the membership checks can tell apart; Unicode digits in card numbers.
- Retrieval.Retrieve: leaves out the graph context attached to a citation and the rounding of scores; embeddings and ranking are a parameter, the ranked pool; no negative result limits.
- Applications.Portal.SubmitApplication: leaves out notification, analysis of document text and the audit event.
- Applications.Portal.AddDocuments: leaves out the outputs of document analysis, notification and the audit event.
- Applications.Portal.ClientView: leaves out the wording of the message, which the status determines, and the labels of documents.
- Screening.SanctionsCheck: leaves out the timestamp.
- Rounding of metrics and scores; the judge model of the evaluation.
- Neo4j, Azure and Kafka back ends, HTTP, files, clocks, metrics export, trace listing.
- The role table: the intents a caller's roles grant are given with the request. 
- Unknown tools and the JSON-RPC envelope; exceptions that are not subclasses of `Exception`.
- Graph.JoinExactAndStable: leaves out documents stored under the key of another kind of node, and documents with an empty id.
- Graph.GraphStore.GetRelatedPolicies: yields the set of policies, because the order of the list follows Python set iteration.
- Supervisor.ClassifyIntents: the set of matched patterns is given with the request, because regular expressions are not modelled.
- Gateway.SupervisorGateway.RunWorkers: is the sequential schedule; `FanOut.ScheduleDoesNotMatter` covers the others.
- Gateway.SupervisorGateway.Run: takes the sequential schedule of the workers.
- Gateway.SupervisorGateway.Aggregate: leaves out the event published on the bus.
