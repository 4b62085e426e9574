# SafeContext: verified model

SafeContext scans documents for personal data and secrets, redacts them, and keeps tamper-evident evidence of every
operation. This project models its stateful core in Dafny and proves what the code keeps, and where the code's own
documentation promises more than it keeps, exactly when the promise holds. `dafny verify dfyconfig.toml` checks it.

## What is modelled

**Evidence chain** (`CanonicalJson`, `JsonReader`, `SortedKeys`, `PrefixCode`, `Evidence`, `HashChain`, `ChainTheorems`, `Anchors`,
`OfflineEvidence`, `ChainExample`). A tenant's operations are a sequence of rows in the order of `created_at`.
`Evidence.Ledger` seals a row onto the sealed row with the latest `created_at`; `HashChain.VerifyChain` walks the rows
in ascending order. The two orders differ, so what verification says depends on the order of sealing. SHA-256 is a
parameter. Theorems that need it to be good say so about the finitely many strings they name (`Ideal`: no two of these
strings share a digest, and none has the genesis value as its digest), so that each reads as: the claim holds, or two
strings the code itself hashed collide, or one of them is a preimage of the genesis value. No injective hash is
assumed, and `ChainExample` shows that the hypotheses can be met and that both verdicts occur. Canonical JSON is
printed as `json.dumps(…, sort_keys=True)` prints it (strings as in section 7 of RFC 8259, escaped to ASCII, with
surrogate pairs), and is proved injective and readable by a reader that follows the standard.

**Spans** (`Findings`, `Splicing`, `SpanMerge`, `Redaction`, `Sanitizer`, `InPlace`, `DetectorMerge`, `Highlight`).
Merging and right-to-left splicing in `tool_sanitize`, in-place slicing in the sanitizer worker, the merge of regex
and Presidio findings, and the sweep line of the document viewer, each as a method with the source's loops against a
pointwise specification.

**Rate limiters** (`SlidingWindow`, `MemoryLimiters`, `RedisLimiter`). One specification of a sliding window; the
deque, list and Redis limiters; and the router's two-stage gate. Time is integer microseconds and never goes back.

**Event export** (`Cef`). The CEF printer and a reader that inverts it.

**Outbox** (`OutboxRelay`, `OutboxDrain`, `OutboxRuns`). The relay with send and commit faults beside transactions
that hold rows, every run of the table, and what repeated calls of one relay alone achieve.

**Pipeline** (`Pipeline`, `PipelineRuns`, `PipelineProgress`, `PipelineWitness`, `PipelineTheorems`, `ChangeBounds`,
`Approvals`, `PipelineEvidence`). One operation, its findings, redactions, sanitized text, artifact and seal. Each
database transaction is one step; every task ever enqueued may be delivered at any time, repeatedly or never, and a
decision is committed some time after its check. `Tally` counts what happened, so that bounds over whole runs are
statements about counts. `Pipeline.OperationRow` performs the transactions on mutable fields and is proved equal to the
functions that the runs use; `PipelineProgress` says what each step does to the rows. `PipelineEvidence` joins the runs
to the chain.

## Where the code keeps less than it promises

- `_merge_findings` is documented to return no overlapping entries. It removes overlaps between the two lists only
  (`DetectorMerge.NoOverlapsExact`).
- `verify_chain` returns the unsealed rows as `gaps`. When it stops at a break, only those before the break are listed
  (`HashChain.ReportWhenBroken`).
- `seal_operation` may be called again on a sealed row, and that always breaks the chain at that row
  (`ChainTheorems.SealStepExact`). It happens: a rescan may reopen an archived operation (`PipelineTheorems.SealedTwice`).
- Retention deletes the oldest operations, and every such deletion of a sealed row breaks the chain of what remains,
  unless no sealed row remains (`ChainTheorems.RetentionExact`).
- The status is one of the hashed fields, so a rescan that reopens an archived operation breaks the tenant's chain at
  that row (`PipelineEvidence.ReopenedOperationBreaksChain`), and the seal of the next decision does not mend it
  (`ChainTheorems.ResealedRowBreaks`).
- A matching anchor is documented to rule out a rewritten or shortened chain. For rows sealed once each, it pins the
  history if and only if they were sealed in creation order (`Anchors.AnchorPinsExact`).
- `anchor_head_matches` does not tell growth from tampering: a seal moves the head exactly if no newer row is sealed, so
  the next operation in order makes it false, while a seal behind the newest sealed row breaks the chain and leaves it
  true (`Anchors.HeadMovesExact`).
- The endpoint walks the oldest 1000 rows and compares the head of all rows. Beyond the limit neither the verdict
  (`Anchors.LimitedVerdictExact`) nor the anchor (`Anchors.LimitedAnchorExact`) says anything about the history.
- An export signed at read time is signed over the whole view, and the offline verifier checks the signature against
  the content hash, so it never accepts one (`OfflineEvidence.ReadTimeSignatureIsNeverAuthentic`).
- The Redis limiter names members by their timestamp, so requests in one instant collapse into one; the limit then
  holds only for limits of at most one request a minute (`RedisLimiter.RedisBoundExact`, `RedisLimiter.GateBoundExact`).
- Splicing in place is right for disjoint findings. For others it may leave covered characters or delete uncovered ones:
  for two, covered ones exactly if the span with the earlier start goes on behind the other one and that one's marker is
  longer than its span, uncovered ones exactly if the overlap is longer than that marker and the document goes on
  (`InPlace.TwoSpansExact`); for any number, `InPlace.WorkerLeaksExact` tells from the spans and marker lengths.
- The CEF printer escapes neither spaces nor pipes, and no keys. The reader given here, which takes the first unescaped
  equals sign for the end of a key, gets an event back exactly if every detail key is readable and the event type holds
  no pipe (`Cef.CefRoundTripExact`). Another reader may get more back; none tells apart the lists
  of pairs of `Cef.SpacedKeyIsAmbiguous`.
- A span without characters stays active in the viewer up to the last stop. At a character where it lingers, what is
  shown is right, whatever the engine does with equal starts, exactly if some covering finding is more severe, or
  equally severe with an earlier start (`Highlight.LingeringExact`).
- `reject_finding` and `tool_approve` check the status without a lock and do not look again. If agents may approve and
  anyone may reject, concurrent decisions overwrite each other without bound; otherwise the status changes at most two
  to five times, depending on the kinds of decisions (`ChangeBounds.MostChangesExact`). `approve_finding` does not have
  this flaw (`Approvals.ApprovalsExact`).

## Model

| member | source | states |
|---|---|---|
| `CanonicalJson.EscapeIsPrefixFree` | apps/api/db/evidence.py:61-71 | the JSON escape is a prefix code over all Unicode characters, control characters and surrogate pairs included |
| `SortedKeys.SortIsUnique` | apps/api/db/evidence.py:61-71 | pairs with distinct keys sort to one list, in whatever order they are given |
| `CanonicalJson.ObjectInjective` | apps/api/db/evidence.py:61-71 | two canonical objects are the same text only if they have the same keys and values in the same order |
| `PrefixCode.UniqueReading` | apps/api/db/evidence.py:61-71 | text coded by a prefix code and closed by a quote that the code avoids splits in one way only |
| `Evidence.ContentInjective` | apps/api/db/evidence.py:52-72 | operations with the same canonical content agree in all six hashed fields |
| `Evidence.CanonicalOrder` | apps/api/db/evidence.py:61-71 | in whatever order the six fields are listed, sorting the keys gives one canonical text |
| `Evidence.ContentText` | apps/api/db/evidence.py:61-72 | the text that is hashed, written out: the six keys in order, the separators, and the escaped values, with an empty string for a missing time |
| `JsonReader.EscapeReads` | apps/api/db/evidence.py:61-71 | a reader after section 7 of RFC 8259 gets every character back from its escape, whatever follows, surrogate pairs included |
| `JsonReader.TextReads` | apps/api/db/evidence.py:61-71 | that reader gets the code points of every string back from its escaped text |
| `JsonReader.EscapeIsAscii` | apps/api/db/evidence.py:61-71 | only printable ASCII is written |
| `Evidence.LinkInputInjective` | apps/api/db/evidence.py:75-78 | the input of a chain hash determines both the previous hash and the operation hash |
| `Evidence.HeadIsNewest` | apps/api/db/evidence.py:81-98 | the head is the chain hash of the newest sealed row |
| `Evidence.Ledger.constructor` | apps/api/db/evidence.py:81-98 | a ledger starts from given rows without archived keys |
| `Evidence.Ledger.ArchivePublicKey` | apps/api/db/evidence.py:199-242 | an archived key version never changes, and at most the new version is added |
| `Evidence.Ledger.SealOperation` | apps/api/db/evidence.py:248-324 | the chain hash becomes the hash of the newest one, or of 64 zeros where there is none, followed by the hash of the row's content; the signature is the given one, or stays where signing failed; all other rows, all fields and all archived keys stay |
| `HashChain.VerifyChain` | apps/api/core/chain.py:87-146 | over the first `limit` rows: valid if and only if each sealed row carries the hash of the newest chain hash before it, or of 64 zeros, followed by its content's hash; then all sealed rows are counted and the unsealed ones are listed in order; in every case the report of the specification |
| `HashChain.VerdictExact` | apps/api/core/chain.py:113-146 | the verdict of the specification, from the rows alone |
| `HashChain.GapsInOrder` | apps/api/core/chain.py:118-121 | each unsealed row stands in the gaps behind the unsealed rows before it |
| `HashChain.BreakIsFinal` | apps/api/core/chain.py:113-146 | once a prefix of the rows is broken, rows after it do not change the report |
| `HashChain.ReportWhenValid` | apps/api/core/chain.py:102-146 | the verdict is valid exactly when every sealed row is linked; then all sealed rows are counted and all unsealed ones are the gaps |
| `HashChain.ReportWhenBroken` | apps/api/core/chain.py:113-146 | otherwise the report names the first unlinked row, counts the rows up to it, and lists the unsealed rows before it |
| `HashChain.HeadsDiffer` | apps/api/db/evidence.py:75-98 | in a valid chain no head ever recurs |
| `ChainTheorems.SealedAreNamed` | apps/api/db/evidence.py:272-283 | after any seals exactly the rows they named are sealed, with 64-character hashes |
| `ChainTheorems.SealIsKept` | apps/api/db/evidence.py:272-283 | a row sealed once keeps its hash whatever is sealed later |
| `ChainTheorems.InOrderLinks` | apps/api/db/evidence.py:272-283 | sealing in creation order yields a valid chain for every hash function, any subset of rows sealed |
| `ChainTheorems.OutOfOrderBreaks` | apps/api/core/chain.py:113-146 | one seal out of creation order makes verification fail |
| `ChainTheorems.SealOrderExact` | apps/api/core/chain.py:102-146 | for rows sealed once each, verification says valid if and only if they were sealed in creation order |
| `ChainTheorems.SealStepExact` | apps/api/db/evidence.py:248-324 | a seal keeps a valid chain valid if and only if no row at or after it was sealed before; otherwise the break is at that row, a second seal included |
| `ChainTheorems.ResealedRowBreaks` | apps/api/db/evidence.py:248-324 | sealing a row again after its fields changed, or did not, leaves the chain broken at that row |
| `ChainTheorems.DeletionFirstBreak` | apps/api/core/chain.py:113-146 | after deleting rows, `first_broken_at` is the first kept sealed row with a deleted sealed row before it, and the gaps are the kept unsealed rows before it |
| `ChainTheorems.DeletionExact` | apps/api/core/chain.py:113-146 | the kept rows of a valid chain verify if and only if the kept sealed rows are a prefix of the sealed rows |
| `ChainTheorems.RetentionExact` | apps/api/core/retention_gdpr.py:169-174 | after retention deletes all rows before a cutoff, the rest verifies if and only if no deleted row or no remaining row is sealed |
| `ChainTheorems.UnsealedRowsIrrelevant` | apps/api/core/chain.py:113-146 | on any table, valid or not, unsealed rows change neither verdict, count nor reported row |
| `ChainTheorems.ChangedFieldBreaks` | apps/api/db/evidence.py:52-78 | changing any hashed field of a sealed row is reported at that row |
| `ChainExample.HypothesesCanBeMet` | apps/api/core/chain.py:102-146 | for any two operations with different content there is a hash on which all hypotheses of `SealOrderExact` hold, with verdict valid for one order and broken for the other |
| `Anchors.AnchorStore.constructor` | apps/api/api/v1/audit.py:531-612 | a store starts without anchors |
| `Anchors.AnchorStore.CreateChainAnchor` | apps/api/api/v1/audit.py:494-640 | an anchor of the live head and its count is stored if and only if the caller is an administrator, the head is not the genesis value and the signature exists; else nothing is stored |
| `Anchors.AnchorStore.VerifyLatestAnchor` | apps/api/api/v1/audit.py:431-471 | the newest anchor is checked against the live head, and its signature against the anchored one |
| `Anchors.SameHeadSameHistory` | apps/api/db/evidence.py:75-98 | two valid chains with the same head have the same sealed rows, field by field and in the same order |
| `Anchors.AnchorPinsHistory` | apps/api/api/v1/audit.py:431-471 | a matching anchor over valid chains pins the six fields and the order of all sealed rows since anchor time |
| `Anchors.LineageIsValid` | apps/api/db/evidence.py:272-283 | for every hash function and rows sealed once each, the rows that were the newest when sealed form a valid chain with the head of the table, as long as the seals exactly if these went in creation order |
| `Anchors.UnverifiedAnchorPinsNothing` | apps/api/api/v1/audit.py:531-612 | for every hash function and rows sealed once each out of creation order, there is a valid table with the anchored head and fewer sealed rows |
| `Anchors.AnchorPinsExact` | apps/api/api/v1/audit.py:431-471 | for rows sealed once each, every accepted table with the anchored head has the sealed rows of anchor time if and only if the rows were sealed in creation order |
| `Anchors.HeadMovesExact` | apps/api/api/v1/audit.py:451-453 | a seal on a valid chain moves the head, so that the anchor stops matching, if and only if no newer row is sealed |
| `Anchors.LimitedVerdictExact` | apps/api/api/v1/audit.py:417 | a verdict over the oldest rows vouches for the whole table, for all tables of up to n rows, if and only if n is within the limit |
| `Anchors.LimitedAnchorPins` | apps/api/api/v1/audit.py:417-425 | if no row behind the limit is sealed, the limited verdict and a matching anchor pin the whole history |
| `Anchors.LimitedAnchorExact` | apps/api/api/v1/audit.py:417-425 | for tables of up to n rows they pin it if and only if n is within the limit: one row behind it may carry the anchored head and any fields |
| `OfflineEvidence.VerifyExport` | apps/tools/verify_offline.py:97-127 | accepts if and only if operation, signature and key are there and the signature verifies over the recomputed hash; raises exactly if key or signature does not decode; the report lines in every case |
| `OfflineEvidence.StripInvertsToken` | apps/tools/verify_offline.py:66-72 | the bare signature is recovered from every Vault token |
| `OfflineEvidence.StripKeepsBareSignature` | apps/tools/verify_offline.py:66-72 | a signature is left alone if and only if it lacks the prefix or has no colon behind it |
| `OfflineEvidence.RecomputedHashAgrees` | apps/tools/verify_offline.py:46-63 | the auditor's hash of the exported operation is the server's, a missing `created_at` included, in whatever order either side lists the fields |
| `OfflineEvidence.AuthenticIffUnchanged` | apps/api/api/v1/audit.py:116-127 | an export with its write-time signature and key verifies offline if and only if no hashed field changed since sealing |
| `OfflineEvidence.SealThenExport` | apps/api/db/evidence.py:272-298 | a row that is sealed with a Vault signature over its operation hash and then exported with the matching key is accepted by the auditor's check |
| `OfflineEvidence.AuthenticUntilChanged` | apps/api/api/v1/audit.py:204-215 | through any later edits and seals, as long as the row is not signed again, its export is accepted if and only if its hashed fields are those it was sealed with |
| `OfflineEvidence.ReadTimeSignatureIsNeverAuthentic` | apps/api/api/v1/audit.py:204-215 | an export signed at read time never verifies offline |
| `Cef.FormatCef` | apps/api/core/siem.py:88-118 | the line starts with the vendor's header and the event type twice, holds no line break unless a key or the event type does, and for readable keys the reader gets back event type, severity, trace, actor, tenant, timestamp and every detail |
| `Cef.EscIsPerCharacter` | apps/api/core/siem.py:98-99 | the three successive replacements equal one code word per character |
| `Cef.UnescapeInverts` | apps/api/core/siem.py:98-99 | the unescaper undoes the escape on every string |
| `Cef.ExtensionsRoundTrip` | apps/api/core/siem.py:101-113 | reading the extensions gives back all keys and values, whatever the values contain |
| `Cef.CefRoundTrip` | apps/api/core/siem.py:88-118 | reading a whole line gives back event type, severity, keys and values, whatever the values contain |
| `Cef.FieldsRecovered` | apps/api/core/siem.py:88-118 | the event's own fields and details are recovered from its line, each under its key |
| `Cef.OneLine` | apps/api/core/siem.py:96-118 | values with line breaks do not break the line |
| `Cef.WordIsReadable` | apps/api/core/siem.py:101-113 | the word before an unescaped equals sign is always a readable key |
| `Cef.CefRoundTripExact` | apps/api/core/siem.py:88-118 | this reader gets a printed event back if and only if every detail key is readable and the event type holds no pipe |
| `Cef.SpacedKeyIsAmbiguous` | apps/api/core/siem.py:109-111 | with a space in a detail key two different events print the same extensions |
| `Findings.SortIsSorted` | apps/api/mcp/router.py:276 | the stable sort is sorted and a permutation |
| `Findings.SortIsStable` | apps/api/mcp/router.py:278 | the sort keeps the order of findings with equal keys |
| `Findings.DescendingIsStable` | apps/workers/agents/sanitizer_agent.py:62-64 | so does the descending sort of the worker |
| `Findings.OverlapExact` | apps/workers/agents/detector_agent.py:55-63 | two spans with characters overlap if and only if some position is covered by both |
| `SpanMerge.MergeSpans` | apps/api/mcp/router.py:276-285 | the loop that rewrites the last group computes the merge of the sorted findings |
| `SpanMerge.MergeExact` | apps/api/mcp/router.py:276-285 | the groups are sorted and disjoint, partition the findings and cover exactly the same positions |
| `SpanMerge.BoundariesExact` | apps/api/mcp/router.py:278-285 | two neighbouring characters are replaced together if and only if one finding covers both; spans that only touch stay apart |
| `Splicing.PasteExact` | apps/api/mcp/router.py:297 | the concatenation of `tool_sanitize` equals the worker's slice assignment if and only if the slice does not end before it starts |
| `Splicing.PasteBackBuilds` | apps/api/mcp/router.py:294-297 | replacing from right to left equals the left-to-right construction |
| `Splicing.SpliceBackBuilds` | apps/workers/agents/sanitizer_agent.py:62-71 | so do slice assignments from right to left |
| `Splicing.OriginsAreFaithful` | apps/api/mcp/router.py:294-297 | each character that no patch wrote is the document's at its origin |
| `Splicing.SurvivorsExact` | apps/api/mcp/router.py:294-297 | exactly the positions outside all patches survive, once each and in order |
| `Redaction.ListGroup` | apps/api/mcp/router.py:298-307 | one entry per finding of a group |
| `Redaction.ToolSanitize` | apps/api/mcp/router.py:229-324 | the error responses; in mask mode on disjoint findings the text of the worker; with removal exactly the uncovered characters in order; otherwise each group becomes the given token, or the marker where it is missing or empty; the map holds one entry for each finding, with its id and span, in order of position for disjoint findings |
| `Redaction.RemovalExact` | apps/api/mcp/router.py:287-298 | with an empty replacement exactly the uncovered characters of the document are left, in order |
| `Redaction.MapAscends` | apps/api/mcp/router.py:294-309 | for disjoint findings the redaction map goes through the document from left to right |
| `Redaction.RedactionMapIsComplete` | apps/api/mcp/router.py:294-308 | the redaction map lists each finding exactly once, whatever the spans |
| `Redaction.SanitizeExact` | apps/api/mcp/router.py:276-308 | for any in-range findings: uncovered characters survive in order, no covered one does, and the length is that of the document less the groups plus one replacement each |
| `Sanitizer.ApplyRedactions` | apps/workers/agents/sanitizer_agent.py:41-71 | the splices in descending order of start; for disjoint findings, one text for each finding in the unchanged rest: nothing where its type is `remove`, else the marker |
| `Sanitizer.InPlaceExact` | apps/workers/agents/sanitizer_agent.py:41-71 | on disjoint findings in any order, in-place redaction is the left-to-right construction with one marker each |
| `Redaction.AgreesWithToolSanitize` | apps/workers/agents/sanitizer_agent.py:41-71 | on disjoint findings the worker and `tool_sanitize` in mask mode produce the same text |
| `Redaction.NestedSpansLeak` | apps/workers/agents/sanitizer_agent.py:62-71 | the text that is left when a span strictly inside another one is shorter than its marker by a difference that fits behind it: it still has the last characters of the outer span, and that of `tool_sanitize` has not |
| `InPlace.PlaceOfDescending` | apps/workers/agents/sanitizer_agent.py:62-71 | a character survives exactly if no slice that starts at or before it reaches it where it stands by then, and it ends up shifted by the slices before it |
| `InPlace.WorkerLeavesExactly` | apps/workers/agents/sanitizer_agent.py:41-71 | for any findings the worker leaves exactly the characters out of reach, once each and in order, and nothing else but markers |
| `InPlace.WorkerLeaksExact` | apps/workers/agents/sanitizer_agent.py:41-71 | for any findings: no covered character leaks exactly if all are in reach, no uncovered one is lost exactly if all are out of reach |
| `InPlace.TwoSpansExact` | apps/workers/agents/sanitizer_agent.py:62-71 | for two findings of a document, in the order in which the worker sorts them, when covered characters leak and when uncovered ones are lost, both directions |
| `DetectorMerge.Overlaps` | apps/workers/agents/detector_agent.py:44-66 | decides whether a Presidio finding overlaps a regex finding |
| `DetectorMerge.Combine` | apps/workers/agents/detector_agent.py:44-66 | each finding occurs as often as the regex detector found it, plus, unless it overlaps a regex finding, as often as Presidio did; sorted by start |
| `DetectorMerge.MergeCounts` | apps/workers/agents/detector_agent.py:44-66 | the same of the specification that the loop computes |
| `DetectorMerge.MergeKeeps` | apps/workers/agents/detector_agent.py:44-66 | the result holds all regex findings and exactly the Presidio findings that overlap none, sorted by start |
| `DetectorMerge.NoOverlapsExact` | apps/workers/agents/detector_agent.py:44-66 | the result has no overlaps if and only if neither the regex findings nor the kept Presidio findings overlap among themselves |
| `Highlight.Dominant` | apps/ui/src/components/DocumentViewer.tsx:53-56 | the first active finding of the highest severity: critical if one is active, else high, else medium, else low, and none exactly if none is active |
| `Highlight.Pass` | apps/ui/src/components/DocumentViewer.tsx:60-69 | after a stop the active list holds, in the order of their starts, exactly the findings that cover the next character or were over before they started |
| `Highlight.LingeringExact` | apps/ui/src/components/DocumentViewer.tsx:43-69 | at a character the sweep shows a covering finding of the highest severity, whatever the engine does with equal starts, if and only if every span without characters that lingers there comes after a covering one that is more severe, or equally severe with an earlier start |
| `Highlight.BuildSegments` | apps/ui/src/components/DocumentViewer.tsx:33-79 | for any spans the texts concatenate to the text, none is empty, and each shows at every character, of the active findings of the highest severity, one with the earliest start; that is a covering finding of the highest severity, or none where none covers, wherever each lingering span comes after a covering one; there it is critical if a covering finding is, else high, else medium, else low |
| `SlidingWindow.WindowBound` | apps/api/core/auth_oidc.py:212-253 | in any interleaving of clients no window of 60 seconds holds more recorded requests of a client than its limit |
| `SlidingWindow.AdmissionExact` | apps/api/core/auth_oidc.py:232-246 | a request under a limit is admitted if and only if fewer than that many requests of its client were admitted under a limit in the 60 seconds before it |
| `MemoryLimiters.EvictHead` | apps/api/core/auth_oidc.py:236-238 | popping the head leaves exactly the requests that count |
| `MemoryLimiters.DequeLimiter.constructor` | apps/api/core/auth_oidc.py:212-253 | the limiter starts empty |
| `MemoryLimiters.DequeLimiter.CheckRateLimit` | apps/api/core/auth_oidc.py:212-253 | admitted if and only if fewer than `rpm` requests of the client were admitted in the 60 seconds before, whatever was evicted, dropped by `maxlen` or purged; idle clients are purged exactly when an admitted request leaves more than 10000 clients and the last purge is over 30 seconds ago |
| `MemoryLimiters.DequeLimiter.PurgeIdle` | apps/api/core/auth_oidc.py:248-253 | deletes exactly the idle clients and keeps the relation to the history, so no later decision changes |
| `MemoryLimiters.TenantLimiter.constructor` | apps/api/core/quotas.py:141-164 | the limiter starts empty |
| `MemoryLimiters.TenantLimiter.CheckTenantRateLimit` | apps/api/core/quotas.py:141-164 | admitted if and only if there is no limit or fewer than the limit of this call were admitted under a limit in the 60 seconds before |
| `MemoryLimiters.RunBoth` | apps/api/core/quotas.py:149-164 | with equal limits the deque and the list limiter decide identically on every sequence of calls |
| `RedisLimiter.RedisStore.constructor` | apps/api/core/auth_oidc.py:183-206 | the store starts empty |
| `RedisLimiter.RedisStore.CheckRateLimit` | apps/api/core/auth_oidc.py:183-206 | one pipeline call with any fault on keys that expire: unavailable exactly on a fault, admitted if and only if fewer than `rpm` different instants of earlier hits of the client that reached Redis, refused ones included, lie in the 60 seconds before |
| `RedisLimiter.RedisDecisionExact` | apps/api/core/auth_oidc.py:193-206 | the same of the specification, over every log |
| `RedisLimiter.MembersKeepWindow` | apps/api/core/auth_oidc.py:193-198 | every request that reached Redis and is still in the window is a member |
| `RedisLimiter.InstantsBound` | apps/api/core/auth_oidc.py:193-206 | in every run with any faults, at most `rpm` instants of a window have an admitted request |
| `RedisLimiter.RedisWindowBound` | apps/api/core/auth_oidc.py:193-206 | with distinct timestamps at most `rpm` requests of a client are admitted in any window |
| `RedisLimiter.RedisBoundExact` | apps/api/core/auth_oidc.py:196 | with timestamps that may coincide the bound holds in every run if and only if the limit is at most one |
| `RedisLimiter.RedisIsStricter` | apps/api/core/auth_oidc.py:183-246 | with distinct timestamps, whatever Redis admits the deque limiter fed the same history admits |
| `RedisLimiter.RedisIsStrictlyStricter` | apps/api/core/auth_oidc.py:183-246 | a history on which only the deque limiter admits, since Redis counts refused requests |
| `RedisLimiter.HeldIsEvicted` | apps/api/core/auth_oidc.py:193-197 | at any time in any run, what an expired key would still hold is evicted before it is counted |
| `RedisLimiter.ExpiryForgetsNothing` | apps/api/core/auth_oidc.py:193-197 | in every run with any faults, the sets with expiry of idle keys are those without |
| `RedisLimiter.Gate` | apps/api/mcp/router.py:104-107 | admitted if and only if Redis has no fault and saw the client at fewer than `rpm` instants in the 60 seconds before, or the in-memory limiter admitted fewer than `rpm` in that time; it sees exactly the requests that Redis did not admit |
| `RedisLimiter.GateWindowBound` | apps/api/mcp/router.py:104-107 | with distinct timestamps the gate admits at most twice the limit in any window, whatever faults Redis has |
| `RedisLimiter.GateBoundExact` | apps/api/mcp/router.py:104-107 | with timestamps that may coincide that bound holds in every run if and only if the limit is at most one |
| `OutboxRelay.EveryQueueHasActor` | apps/workers/core/outbox_relay.py:147-161 | the guard for a queue without an actor never applies to a mapped event type |
| `OutboxRelay.QueueNames` | apps/workers/core/outbox_relay.py:49-60 | `<kind>_requested`, and for three kinds the prefixed variant, go to `safecontext_<kind>`; all other types go nowhere |
| `OutboxRelay.DueExact` | apps/workers/core/outbox_relay.py:80-102 | a message is due for a row if and only if the row is pending, unlocked and of a type with a queue, and fewer pending unlocked rows than a batch holds are older |
| `OutboxRelay.OldestFirst` | apps/workers/core/outbox_relay.py:80-102 | no call sends a row and leaves an older one behind that is pending, unlocked and of a type with a queue |
| `OutboxRelay.Relay.constructor` | apps/workers/core/outbox_relay.py:62-144 | a relay over given rows and broker contents |
| `OutboxRelay.DueAlone` | apps/workers/core/outbox_relay.py:80-86 | with no other transaction at work, what is due is the oldest pending rows |
| `OutboxRelay.Relay.RelayOnce` | apps/workers/core/outbox_relay.py:62-144 | beside any locked rows: all due messages reach the broker and exactly their rows are marked; or the n-th send raises, and those before it, with or without it, arrive and nothing is marked; or the commit fails, and all arrive and nothing is marked |
| `OutboxDrain.PendingAfter` | apps/workers/core/outbox_relay.py:80-135 | a call leaves pending exactly the unmapped rows of its batch and the rows behind it |
| `OutboxDrain.CallsKeepOrder` | apps/workers/core/outbox_relay.py:80-144 | over any number of fault-free calls each pending mapped row is sent once, in the order of creation, and none is skipped |
| `OutboxDrain.DrainBound` | apps/workers/core/outbox_relay.py:80-144 | n mapped rows behind b unmapped ones drain in ceil(n / (batch size - b)) calls, leaving the unmapped rows |
| `OutboxDrain.DrainExact` | apps/workers/core/outbox_relay.py:80-102 | repeated calls send every pending mapped row if and only if fewer unmapped rows than a batch holds are older than the newest of them |
| `OutboxDrain.FixpointExact` | apps/workers/core/outbox_relay.py:80-102 | a call changes nothing if and only if its whole batch is unmapped |
| `OutboxRuns.RunIsSafe` | apps/workers/core/outbox_relay.py:62-144 | every step of every run, with any faults, any locked rows skipped, concurrent inserts, detector marks and purges, keeps the table consistent with what was sent |
| `OutboxRuns.AtLeastOnce` | apps/workers/core/outbox_relay.py:62-144 | in every run, whatever rows each call skips, a processed row was sent, no row is lost unsent, messages are those of their rows, and unmapped rows are never sent or marked |
| `Pipeline.InsertAllExact` | apps/api/db/models/finding.py:13-16 | the insert goes through exactly when all keys are new and different, and then adds exactly them |
| `Pipeline.OperationRow.constructor` | apps/workers/agents/detector_agent.py:105-126 | an operation starts pending, with nothing attached |
| `Pipeline.OperationRow.Insert` | apps/api/db/models/finding.py:13-16 | findings are added one by one; a violated constraint rolls all of them back |
| `Pipeline.OperationRow.ProcessScan` | apps/workers/agents/detector_agent.py:105-232 | the scan transaction and the task it enqueues |
| `Pipeline.OperationRow.ProcessSanitize` | apps/workers/agents/sanitizer_agent.py:74-167 | the sanitizer transaction: skipped once a redaction exists, else one redaction per finding and the text |
| `Pipeline.OperationRow.ProcessAudit` | apps/workers/agents/auditor_agent.py:45-157 | the audit transaction: skipped once an artifact exists, undone if storage fails, else completed from any status and sealed |
| `Pipeline.OperationRow.RescanOperation` | apps/workers/agents/rescan_agent.py:82-192 | the rescan transaction with its guards |
| `Pipeline.OperationRow.ApproveFinding` | apps/api/api/v1/review.py:187-234 | the approval under the row lock |
| `Pipeline.OperationRow.RejectFinding` | apps/api/api/v1/review.py:247-277 | the rejection, without a second check |
| `Pipeline.OperationRow.ToolApprove` | apps/api/mcp/router.py:547-580 | the agent's decision, without a second check |
| `PipelineRuns.RunsAreSound` | apps/workers/agents/rescan_agent.py:82-192 | every reachable state satisfies the invariants on which the theorems rest: order of tasks, one escalation, final clean completion, one batch of redactions, seal against status, counts |
| `PipelineProgress.ScanExact` | apps/workers/agents/detector_agent.py:126-230 | when a scan escalates, when it enqueues the sanitizer, a document without findings included, and which findings it adds, both directions |
| `PipelineProgress.SanitizeExact` | apps/workers/agents/sanitizer_agent.py:79-148 | a delivery that finds no redaction makes one for each finding, sets the text and enqueues audit and rescan; any other changes nothing |
| `PipelineProgress.AuditExact` | apps/workers/agents/auditor_agent.py:58-137 | the first audit whose document is stored archives, completes from any status and seals; any other changes nothing |
| `PipelineProgress.RescanExact` | apps/workers/agents/rescan_agent.py:98-190 | when a rescan completes or escalates an operation, which findings it adds, and when it enqueues the review, both directions |
| `PipelineProgress.CleanRescanCompletes` | apps/workers/agents/rescan_agent.py:181-190 | in every run a rescan completes the operation if and only if it was enqueued, the operation is pending, its sanitized text is not empty and the detectors find nothing in it |
| `PipelineProgress.CheckExact` | apps/api/api/v1/review.py:65-90 | a check passes if and only if the operation is escalated and has the finding, and changes no row |
| `PipelineProgress.DecisionExact` | apps/api/api/v1/review.py:187-267 | what a committed decision changes: only a human approval looks at the status again, and it completes exactly if redactions then cover findings |
| `PipelineProgress.DocumentIsSanitized` | apps/workers/agents/sanitizer_agent.py:79-148 | a document that needs no review gets its text, one redaction for each finding, and its audit and rescan tasks |
| `PipelineProgress.DocumentGetsThrough` | apps/workers/agents/rescan_agent.py:98-190 | then the rescan decides: clean text completes it without artifact or seal, new findings escalate it |
| `PipelineProgress.CleanCompletionIsReachable` | apps/workers/agents/rescan_agent.py:181-190 | a clean completion occurs, before any artifact |
| `PipelineTheorems.ChangesBound` | apps/workers/agents/rescan_agent.py:103-190 | in every run the status changes at most three times, plus once per stale unlocked decision; escalations and clean completion exclude each other; a clean completion excludes decisions |
| `PipelineTheorems.ThreeChangesExact` | apps/api/api/v1/review.py:166-267 | three bounds the changes of every run if and only if nobody may reject |
| `PipelineWitness.CleanedIsSanitized` | apps/workers/agents/sanitizer_agent.py:41-71 | the sanitized text of the example runs is the one the sanitizer makes of their document |
| `PipelineWitness.ChangesAreUnbounded` | apps/api/mcp/router.py:547-580 | for every n and either kind of rejection there is a run with n changes, by rejections and agents' approvals checked while escalated |
| `ChangeBounds.MostChangesExact` | apps/api/api/v1/review.py:166-267 | a number bounds the changes of all runs over some kinds of decisions if and only if agents may not approve or nobody may reject, and it is at least two without decisions, three without rejections, four with rejections but no human approvals, five with both |
| `ChangeBounds.DecisionIsFinalExact` | apps/api/mcp/router.py:547-580 | the first decision on an operation that the scan escalated is final in all runs if and only if nobody may reject or nobody may approve |
| `PipelineTheorems.ScanEscalationIsFinal` | apps/workers/agents/detector_agent.py:207-230 | an operation escalated by the scan never gets sanitized text, sanitizer redactions or an artifact, leaves the escalation by one decision only, and then its status changes only by stale ones, one change each |
| `PipelineTheorems.SanitizerReplay` | apps/workers/agents/sanitizer_agent.py:79-148 | in every run at most one delivery makes redactions, no finding gets two of them, and at most one artifact exists |
| `PipelineTheorems.RowsStay` | apps/workers/agents/sanitizer_agent.py:79-148 | from any point on findings, redactions and artifacts stay, no step leads back to pending, and once a redaction exists the sanitized text is fixed |
| `PipelineTheorems.SealExact` | apps/workers/agents/auditor_agent.py:126-150 | the seal disagrees with the status if and only if a rescan reopened an archived operation; a finished operation is unsealed if and only if a clean rescan completed it and no audit followed |
| `PipelineTheorems.SealedTwice` | apps/workers/agents/rescan_agent.py:155-170 | without stale decisions there are at most two seals, and two only after a rescan escalation and an audit |
| `PipelineTheorems.SealedTwiceIsReachable` | apps/workers/agents/rescan_agent.py:155-170 | a run that reaches a stale seal and then a second one |
| `PipelineEvidence.ReopenedOperationBreaksChain` | apps/workers/agents/rescan_agent.py:155-170 | with the status an operation has now, the chain it was sealed into is valid if and only if no rescan reopened it after its audit; otherwise verification fails at its row |
| `Approvals.ApprovalsExact` | apps/api/api/v1/review.py:178-234 | from an escalated operation with human approvals only, in any order of checks and commits, the first max(1, F - R) that reach the lock succeed, all others are refused, and the operation completes and is sealed exactly once if there are that many |
| `Approvals.ConcurrentApprovals` | apps/api/api/v1/review.py:178-234 | however many approvals passed the check while escalated, exactly min(their number, max(1, F - R)) succeed |

## Left out

- `OfflineEvidence.VerifyExport`: an exported operation has all its fields; a document that lacks one, for which the verifier raises, is not modelled.
- SHA-256, ECDSA and Vault internals: parameters, with the assumptions named above; `verify_anchor` repeats the same signature check.
- HTTP, OIDC, roles, self-approval, OPA, MinIO, Redis and SQL plumbing: only outcomes (rows, success, failure) enter the model.
- Concurrency inside one transaction: each task's transaction and each commit of a decision is one step; two audits that both pass their artifact check before either commits are not modelled.
- `approve_finding`, `reject_finding` and `tool_approve` open a transaction on a session that has already begun one, of which a comment in `create_chain_anchor` (apps/api/api/v1/audit.py:614-618) says that it raises, and `approve_finding` re-reads a row that its session has cached. The model follows their comments: the transactions commit, and the status is read again under the lock. All results about decisions rest on that; what the database library makes of the code is not part of this model.
- Deletion of outbox rows while their operation is still in work, after which the workers see an empty document, is not modelled in the pipeline; the outbox runs do include deletion of acknowledged rows.
- Detectors are functions of the text: a policy that changes between two scans of one operation is not modelled. The answer to whether findings need review may change from delivery to delivery.
- `verify_chain` rows with equal `created_at`, and the tenant filter: rows of one tenant in a definite order.
- Lone surrogates: strings are sequences of Unicode scalar values.
- The order in which the viewer takes start events of one position: the engine's sort leaves it open, and so do the contracts for findings of one severity and one start.
- `Highlight.BuildSegments`: JavaScript's text is a sequence of UTF-16 units, the model's of characters.
- Clocks that go back, in all limiters.
- `RedisLimiter.GateWindowBound`: one API process; each further process has its own in-memory limiter.
- The lag gauge of the relay, metrics and logging.
- Regex and Presidio matching, LEEF and JSON event formats, daily quotas, compliance scoring, SARIF, certificates, waivers, tenant management and the rest of the user interface are not modelled.
