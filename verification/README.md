# Cavendex: a verified model of its stateful core

Cavendex is a Python SOC pipeline. Around its language-model and HTTP calls sit small stateful mechanisms whose
guarantees only make sense over whole runs: a tamper-evident ledger on rotating files, two rate limiters and two
deduplicators that claim to be interchangeable, an ingestion gate, correlation tiers, two text protocols, an incident
index, a lookup cache, a session store, cursor polling and an agent graph. This project models those mechanisms and
proves what every run of them keeps.

Conventions used throughout:

- Code that changes state is a class whose methods are proved equal to a function of the old state; the run theorems
  are lemmas about that function, folded over an arbitrary history.
- Time is an input. A clock is assumed not to go back only where a lemma says so.
- SHA-256, the public-suffix list, DNS, the asset inventory, `json.dumps`/`JSON.parse`, Unicode character classes, the
  token hash and every LLM answer are arbitrary functions or inputs; what little is used of them is a named predicate.
- File and database writes succeed.

| file | what it models |
|---|---|
| `Wrappers.dfy`, `Strings.dfy`, `Alerts.dfy` | the option type, string facts, the records ingestion passes around |
| `LogRotation.dfy`, `AuditChain.dfy` | the rotating log and the ledger on top of it |
| `RateLimit.dfy`, `RateLimitRedis.dfy`, `RateLimitBackends.dfy`, `Dedup.dfy`, `AuthMonitor.dfy`, `Tenancy.dfy` | sliding windows on both backends, key injectivity |
| `Gate.dfy`, `GateRuns.dfy`, `GateOutcomes.dfy`, `GateCorrelation.dfy` | the ingestion gate, what its runs keep, which outcome an alert gets, and the gate on top of the correlation tiers it calls |
| `IsoTime.dfy`, `Subnet.dfy`, `CorrelationTiers.dfy`, `IdentityCorrelation.dfy` | timestamps as text, CIDR, the free tiers, the identity tier and its lookup budget |
| `Cef.dfy`, `CefExtension.dfy`, `CefRoundTrip.dfy`, `CefMatching.dfy`, `Sse.dfy` | the CEF parser against a printer and its pattern against the meaning of it, server-sent-event framing against its reader |
| `Stats.dfy`, `IncidentIndex.dfy`, `IncidentGraph.dfy` | KPIs, the incident index, the strand graph |
| `LookupCache.dfy`, `Sessions.dfy` | the enrichment cache, the session store |
| `Polling.dfy`, `PollingRuns.dfy`, `PolledGate.dfy` | cursor polling with crashes, what its runs deliver and with what progress, and a connector in front of the gate |
| `Llm.dfy`, `AgentGraph.dfy` | structured calls, token accounting, the four agents |

Where the code does not do what its documentation says, the model follows the code:

- "Same semantics, callers never know the difference" (utils/rate_limit.py:17-22) fails for a full window whose oldest
  entry is exactly 60 seconds old, and within 61 seconds of an admitted call of a key that is the call's own plus
  ":seq", or of which the call's own is. `RateLimitBackends.BackendsInterchangeable` proves that these are the only two
  cases; api.py:267 lets callers choose such keys (`RateLimitBackends.SeqClashFails`). For deduplication
  `Dedup.BackendsAgree` gives the exact condition: an enlarged window finds the Redis key already expired.
- Lowering the backup count while the ledger is in use can make an untouched audit log report MISMATCH
  (`AuditChain.LoweredCountFalseAlarm`). `AuditChain.FalseAlarmExactly` says for which files and which incident the next
  append does so, `AuditChain.NeverAlarmsExactly` which whole runs never do, `LogRotation.SuffixIffSafe` when an append
  leaves a gap.
- The DNS budget counts repeated domains, so a budget above the number of distinct domains can still miss a match
  (`IdentityCorrelation.DistinctDomainsAreNotEnough`).
- A dwell time is negative exactly when a pending upsert finds its row resolved earlier and never pending
  (`IncidentIndex.DwellSign`, `IncidentIndex.NegativeDwell`).
- SQLite's `MAX(NULL, x)` is NULL, so an incident's rank is known exactly when its row was inserted under the current
  schema or already had one (`IncidentIndex.RankIsKnownExactly`).
- The pollers lose a record exactly when a page ends between two records of the time the cursor moves to, or when a
  record arrives at or below the cursor (`Polling.CoveredIffSafe`, `Polling.EqualTimesAreLost`).
- They compare times as texts, and texts of different widths need not sort as their times do. A poll makes progress
  exactly when some text on its page is above the cursor's (`PollingRuns.ProgressExactly`), a run delivers exactly once,
  and in order, exactly when every poll moves the cursor to the newest time of its page
  (`PollingRuns.CrashFreeIsExactlyOnce`, `PollingRuns.CrashFreeIsInOrder`, in the terms of texts
  `PollingRuns.SharpExactly`), and a connector whose full page has no such text is stuck for good
  (`PollingRuns.StuckForGood`, `PollingRuns.FractionStalls`).
- A polled alert that the gate rate-limits is logged and never fetched again; `PolledGate.PollDeliversExactly` says when
  a poll brings all its alerts past the limiter.

## Model

| member | source | states |
|---|---|---|
| LogRotation.RotatingLog.ShiftBackups | utils/log_rotation.py:57-67 | the descending renames move every backup and the active file up one place, and no rename replaces a file that exists |
| LogRotation.CountClamps | utils/log_rotation.py:24-28 | a negative backup count keeps none, any other as many as it says |
| LogRotation.RotatingLog.AppendLine | utils/log_rotation.py:31-82 | one append, rotation included, in closed form over the map from index to lines |
| LogRotation.RotatingLog.PathsOldestFirst | utils/audit_chain.py:64-82 | the files listed hold, in that order, what the backups up to the first gap and the active file hold |
| LogRotation.SafeAppend | utils/log_rotation.py:31-82 | if a rotation finds no backup beyond the count, backups stay contiguous, only oldest lines go, the new line is last |
| LogRotation.SuffixIffSafe | utils/log_rotation.py:31-82 | for distinguishable lines, that guard is exactly when a reader still sees a gap-free tail |
| LogRotation.RunRetainsSuffix | utils/log_rotation.py:31-82 | after any safe run the retained text is exactly a suffix of everything ever appended |
| LogRotation.NeverLoweredIsSafe | utils/log_rotation.py:24-67 | a run that never lowers the backup count is safe and never keeps more backups than configured |
| LogRotation.ConstantRunWellFilled | utils/log_rotation.py:31-67 | under constant settings every file was below max_bytes before its last line, and nothing is dropped until all slots are full |
| LogRotation.RetentionFloor | utils/log_rotation.py:17-67 | once anything was dropped, at least backupCount times maxBytes bytes of the newest history remain |
| LogRotation.DisabledKeepsAll | utils/log_rotation.py:31-55 | with a size of zero or less there is one file, and it holds the whole history |
| LogRotation.LoweredCountGap | utils/log_rotation.py:42-67 | an example in which lowering the count leaves a gap |
| AuditChain.ComputeChainHash | utils/audit_chain.py:41-49 | the loop computes the fold hash |
| AuditChain.LinkInjective | utils/audit_chain.py:48 | the framing running + newline + entry is injective for newline-free running hashes |
| AuditChain.FindCollision | utils/audit_chain.py:41-49 | two different logs of any lengths with one chain hash yield an explicit pair of different inputs with equal SHA-256 |
| AuditChain.RecordChain | utils/audit_chain.py:85-102 | appends exactly one entry with the log's length and chain hash |
| AuditChain.LatestRecordedEntry | utils/audit_chain.py:109-126 | the scan over all files returns the last entry of the incident in the retained text, skipping blank and garbled lines |
| AuditChain.VerifyIncidentAuditLog | utils/audit_chain.py:129-156 | the verdict is that of the retained text |
| AuditChain.NoFalseAlarm | utils/audit_chain.py:64-156 | for any interleaving of incidents and any rotations of a safe run, the last recorded log of an incident verifies, or has no record exactly when its entry was rotated out |
| AuditChain.NoFalseAlarmConstantCount | utils/audit_chain.py:64-156 | with a constant backup count it is never a MISMATCH, and the incident recorded last always verifies |
| AuditChain.TamperingNeedsCollision | utils/audit_chain.py:129-156 | any other log that verifies hands over a SHA-256 collision |
| AuditChain.LoweredCountFalseAlarm | utils/audit_chain.py:64-156 | lowering the count mid-run produces a false MISMATCH |
| AuditChain.FalseAlarmExactly | utils/log_rotation.py:42-67 | after any run, also one whose rotations overran the count before: if an incident's untouched log was no MISMATCH so far, the next recording makes it one if and only if its rotation overruns the count, the incident is another than the one recorded, its newest entry lies in the backup dropped, and an entry with another hash or length lies beyond it |
| AuditChain.NeverAlarmsExactly | utils/audit_chain.py:64-156 | over whole runs an incident's untouched log is never a MISMATCH if and only if no recording met such files |
| RateLimit.RateLimiter.CheckRateLimit | utils/rate_limit.py:127-160 | the deque loop computes one step of the window function and leaves other keys alone |
| RateLimit.WindowHoldsAtMostLimit | utils/rate_limit.py:150-160 | over every run any closed 60-second interval holds at most limit admissions of a key |
| RateLimit.RejectionIsDue | utils/rate_limit.py:150-158 | a call is rejected exactly when the closed window ending now is full; the retry value lies in [1, 60] |
| RateLimit.RetryIsAdmitted | utils/rate_limit.py:150-160 | a retry strictly later than promised, with nothing admitted in between, is admitted |
| RateLimit.EarlyRetryIsRejected | utils/rate_limit.py:150-160 | the retry value is tight: above the one-second minimum, a retry no later than promised is rejected again |
| RateLimit.DisabledAdmits | utils/rate_limit.py:127-160 | a limit of zero or less admits every call and remembers nothing |
| RateLimitRedis.RedisServer.CheckRateLimit | utils/rate_limit.py:68-86 | the script's commands in order compute one step on the sorted set and its counter, wrong-type failures included |
| RateLimitRedis.AddedStaysKept | utils/rate_limit.py:80-84 | ZADD never collapses two requests: the counter makes every member new |
| RateLimitRedis.ZAddHolds | utils/rate_limit.py:80-84 | ZADD gives its member the new score and leaves all other members alone |
| RateLimitRedis.EmptyAndMissingKeys | utils/rate_limit.py:68-86 | a sorted set vanishes with its last member, a counter starts at one |
| RateLimitRedis.ExpiryDropsNothingLive | utils/rate_limit.py:82-84 | key expiry never drops an entry that is still inside the window |
| RateLimitBackends.CallAgrees | utils/rate_limit.py:68-160 | after any agreement so far the next call gets the same answer and retry value from both backends if and only if it meets no full window whose oldest entry is exactly 60 s old and no admitted call of a clashing key came less than 61 s before |
| RateLimitBackends.BackendsInterchangeable | utils/rate_limit.py:68-160 | for every chronological trace over any keys, each with its own limit, both backends answer every call alike, retry values included, if and only if no call meets either condition |
| RateLimitBackends.NoExactMinuteSuffices | utils/rate_limit.py:68-160 | so they agree whenever no call falls exactly 60 s after one admitted for its key, or less than 61 s after one admitted for a clashing key |
| RateLimitBackends.ExactMinuteDiffers | utils/rate_limit.py:68-160 | exactly 60 s after the only admission of a key with limit one, memory rejects and Redis admits |
| RateLimitBackends.SeqClashFails | api.py:254-267 | under any limits a request of tenant "x:seq" fails on Redis where memory admits it, exactly if it comes less than 61 s after one of tenant "x" |
| Dedup.DedupStore.IsDuplicate | utils/dedup.py:91-114 | the answer, and the sighting that is always recorded |
| Dedup.DedupRedis.IsDuplicate | utils/dedup.py:39-57 | the script's answer, the stamp it writes and the TTL it sets |
| Dedup.KeysInjective | utils/dedup.py:76-81 | Redis keys of two alerts coincide only for the same tenant and key, if tenants hold no colon |
| Dedup.MemoryMeetsSpecification | utils/dedup.py:103-114 | a call is a duplicate exactly when an earlier sighting of the key lies less than the window ago |
| Dedup.BackendsAgree | utils/dedup.py:39-114 | call by call the backends agree if and only if the last sighting's key has not expired under an older, shorter window |
| Dedup.ConstantWindowAgrees | utils/dedup.py:39-114 | with one window and sanitized tenants both backends meet the specification on every call |
| Dedup.EnlargedWindowDiffers | utils/dedup.py:39-114 | an enlarged window tells them apart |
| Dedup.UnsanitizedTenantsCollide | utils/dedup.py:76-81 | without sanitizing, two alerts share one key |
| Tenancy.SanitizedIsSlug | utils/tenancy.py:17-31 | every result is a non-empty slug of at most 64 allowed characters without outer dashes |
| Tenancy.SanitizedExactly | utils/tenancy.py:17-31 | the id, or "default" for none, without outer whitespace; its first 64 characters, each but letters, digits, hyphen and underscore replaced by a hyphen; without outer hyphens; "default" if nothing is left |
| Tenancy.FixedPointsAreSlugs | utils/tenancy.py:17-31 | sanitizing changes nothing exactly on such slugs, so it is idempotent |
| AuthMonitor.Monitor.RecordAuthFailure | utils/auth_monitor.py:79-109 | one call, in closed form, touching one source only |
| AuthMonitor.AlertMeetsSpecification | utils/auth_monitor.py:92-109 | a call alerts exactly when the closed window holds the threshold and no alert lies less than a window back; the count is the true one |
| AuthMonitor.AlertsAreApart | utils/auth_monitor.py:92-109 | two alerts for one source are at least a window apart |
| AuthMonitor.DisabledNeverAlerts | utils/auth_monitor.py:88-90 | a threshold of zero or less turns the alerts off, and nothing is remembered |
| Gate.FindSemanticCorrelation | ingestion/semantic_correlation.py:152-201 | a match needs, and follows from, an enabled tier, a parsed positive verdict naming a member of the cut pool, and enough confidence; the judge's usage is always returned |
| Gate.IngestionGate.Dispatch | ingestion/pipeline.py:164-242 | after the two counters: log record and pipeline call of each branch, and a result that names the incident returned by that call, or the match if none was |
| Gate.IngestionGate.IngestNormalizedAlert | ingestion/pipeline.py:118-242 | answer, log, pipeline calls and both counters are what the whole history calls for |
| GateRuns.LogIsComplete | ingestion/pipeline.py:80-92 | one log record per alert, in order, carrying the alert and the returned result |
| GateRuns.LimitedIffWindowFull | ingestion/pipeline.py:155-158 | an alert is rate limited exactly when its tenant's closed minute is full |
| GateRuns.DedupedIffRecentTwin | ingestion/pipeline.py:160-162 | an alert past the limiter is deduped exactly when a sighted twin lies less than a window back |
| GateRuns.HandledTwinsAreApart | ingestion/pipeline.py:160-242 | two alerts with one key that are correlated, suppressed or promoted are at least a dedup window apart |
| GateOutcomes.AtMostLimitExpensive | ingestion/pipeline.py:155-242 | of the alerts of a tenant that arrive within any closed minute, at most limit are promoted or put to the judge |
| GateRuns.CostIsBounded | ingestion/pipeline.py:155-242 | the same by counting times: in any closed minute at most limit alerts of a tenant start an agent run or reach the judge |
| GateRuns.LimitedIsNotSighted | ingestion/pipeline.py:155-158 | a rate-limited alert leaves the deduplicator untouched, which is why GateRuns.DedupedIffRecentTwin counts sighted twins only |
| GateRuns.CheapAnswersCallNothing | ingestion/pipeline.py:155-162 | corollary of GateRuns.PipelineCallsAreLogged: rate-limited and duplicate alerts never reach the incident pipeline |
| GateRuns.ResultAndCallsAgree | ingestion/pipeline.py:164-242 | the step of GateRuns.PipelineCallsAreLogged: a correlated result comes with one merge and names the incident it returned, or the one merged into if it returned none; a promoted one starts exactly one incident; no other result calls the pipeline |
| GateRuns.PipelineCallsAreLogged | ingestion/pipeline.py:164-242 | over every run the alerts handed to the incident pipeline are exactly those logged as correlated or promoted, each once, in log order |
| GateRuns.BelowFloorIsNeverEscalated | ingestion/pipeline.py:164-195 | the step of GateRuns.IncidentsStartAboveFloor: below the floor an alert is never promoted, never merged semantically, and the judge is not asked |
| GateOutcomes.SeverityValues | ingestion/pipeline.py:68-70 | the four severities rank 0 to 3, any other text as "medium" |
| GateOutcomes.ConfidenceValues | ingestion/semantic_correlation.py:50 | the three confidences rank 0 to 2, any other text as none |
| GateOutcomes.OutcomeExactly | ingestion/pipeline.py:164-242 | an alert past both counters joins the free tiers' match if there is one; else it is suppressed if and only if its severity ranks below the floor; else it joins the judge's incident if and only if the enabled tier got a parsed positive verdict naming one of the first maxCandidates with enough confidence; else it is promoted. Answer, pipeline call and usage handed on in each case |
| GateOutcomes.LogExactly | ingestion/pipeline.py:118-242 | every log record of every run: rate limited, deduped or that outcome, decided by the history alone |
| GateRuns.IncidentsStartAboveFloor | ingestion/pipeline.py:164-234 | over every run no incident is started for an alert below the floor |
| GateRuns.SemanticMergeIsJustified | ingestion/semantic_correlation.py:170-201 | a merge the free tiers did not ask for goes into one of the first maxCandidates incidents, with enough confidence and the judge's usage, at or above the floor |
| GateRuns.JudgeTokensAreHandedOn | ingestion/pipeline.py:195-234 | over every run the judge's total tokens equal the tokens booked on the incidents it led to |
| GateRuns.IngestKeysNeverClash | ingestion/pipeline.py:155 | limiter keys of two tenants never meet each other's Redis counters |
| GateRuns.GateOnEitherBackend | ingestion/pipeline.py:153-162 | for whatever tenants callers name, both counters answer every alert of a run on Redis as in memory if and only if no alert meets the exact minute |
| GateCorrelation.FindFree | ingestion/pipeline.py:164 | the free tiers in order: the best exact or fuzzy match of its pool, else the identity tier's answer on its own |
| GateCorrelation.MergesAreOpen | ingestion/pipeline.py:164-226 | every merge, by whatever tier, names an incident of the index that was open and in the window when one of the tiers looked |
| GateCorrelation.PromotedIsUnrelated | ingestion/pipeline.py:164-242 | with at most 1000 open incidents, a new one is started only for an alert that shares no IOC and no asset, nor with the fuzzy tier on a subnet or registered domain, with any open incident of the window; none of whose assets is one of theirs under another name; and, if the lookup budget covers the pool, none of whose domains has resolved to an address of one of theirs |
| IsoTime.TextOrderIsTimeOrder | utils/incident_index.py:117 | UTC isoformat texts sort exactly as their instants, although microseconds may be omitted |
| IsoTime.InstantByInstant | utils/incident_index.py:117 | from year 1 to 9999 each stamp is one microsecond after the one before it in the calendar, so windows measure real time |
| Subnet.SameNetworkIsSameQuotient | ingestion/correlation.py:100-133 | after clamping, two addresses share a network exactly when they are of one family with equal quotients by 2^(width-prefix) |
| Subnet.NetworkHoldsAddress | ingestion/correlation.py:127-133 | the network of an address is of its family, begins at a multiple of 2^(width-prefix) and holds the address |
| Subnet.ShorterPrefixKeepsMatch | ingestion/correlation.py:100-133 | a match at a longer prefix is one at every shorter prefix |
| Subnet.FullPrefixIsEquality | ingestion/correlation.py:100-133 | at the longest prefixes only equal addresses match |
| CorrelationTiers.FirstExactMatch | ingestion/correlation.py:180-198 | the first candidate sharing an IOC or an asset, IOC reported first |
| CorrelationTiers.FirstFuzzyMatch | ingestion/correlation.py:201-236 | the first candidate sharing a subnet or a registered domain, subnet reported first |
| CorrelationTiers.SubnetHitExactly | ingestion/correlation.py:100-133 | two texts match by subnet if and only if both are addresses of one family that agree in as many leading bits as are configured for that family, clamped to 1 and the width |
| CorrelationTiers.FuzzyTypeExactly | ingestion/correlation.py:201-236 | a candidate matches by subnet if and only if some pair of address indicators does, and else by domain family if and only if some pair of domain indicators has one registered domain |
| CorrelationTiers.ExactTypeExactly | ingestion/correlation.py:180-198 | a candidate matches exactly if and only if it lists an indicator, and else an asset, of the alert |
| CorrelationTiers.FindCorrelatedIncident | ingestion/correlation.py:239-270 | first match by (tier, pool order); fuzzy only when enabled and no candidate matches exactly; None only when nothing matches |
| CorrelationTiers.PoolKeepsNewest | utils/incident_index.py:396-413 | an in-window open incident is missing from the pool only when 1000 at least as recent ones are in it |
| CorrelationTiers.PoolIsComplete | ingestion/correlation.py:152-177 | with at most 1000 open incidents the pool is exactly the incidents that are open, investigating or pending approval and were updated no longer than the window ago |
| CorrelationTiers.NoWindowNoPool | ingestion/correlation.py:172-174 | a window of zero or less turns correlation off |
| CorrelationTiers.MostRecentWins | ingestion/correlation.py:180-270 | no pool member that the deciding tier matches is more recent than the one returned |
| IdentityCorrelation.FirstDomainIdentityMatch | ingestion/identity_correlation.py:101-152 | the provider is asked at most max(0, budget) times over both loops; the answer is the unbudgeted first match if the budget covers its cost, else None |
| IdentityCorrelation.DistinctDomainsAreNotEnough | ingestion/identity_correlation.py:101-152 | a budget above the number of distinct domains that still misses the match |
| IdentityCorrelation.BudgetSufficesExactly | ingestion/identity_correlation.py:101-152 | corollary of the closed form in IdentityCorrelation.FirstDomainIdentityMatch: the budgeted answer is the unbudgeted one exactly when there is none or the budget covers every lookup up to it |
| IdentityCorrelation.MoreBudgetKeepsMatch | ingestion/identity_correlation.py:101-152 | corollary of the same: raising the budget never changes a found match |
| IdentityCorrelation.DomainMatchExactly | ingestion/identity_correlation.py:101-152 | with a budget for every domain of alert and pool, repeats included, a match is found if and only if a domain of some candidate has resolved to an address of one of the alert's |
| IdentityCorrelation.FirstAssetIdentityMatch | ingestion/identity_correlation.py:75-98 | the first candidate name with an inventory identity of the alert, under the first alert name that has it |
| IdentityCorrelation.SameAssetExactly | ingestion/identity_correlation.py:75-98 | a name stands for the first alert asset that the inventory knows under the same identity, not empty; for none if and only if there is none |
| IdentityCorrelation.FindIdentityCorrelation | ingestion/identity_correlation.py:155-183 | asset identity decides first and never asks the provider; domain identity only when enabled, within the budget |
| Cef.ParseCef | ingestion/normalizers.py:129-150 | the parser's loop computes the fields of all matches of the extension pattern |
| Cef.TwoPassesAreOne | ingestion/normalizers.py:126-150 | on every value the pattern captures the two replaces equal one left-to-right unescape |
| Cef.CapturedIsAccepted | ingestion/normalizers.py:126 | every captured value is one on which that holds |
| CefMatching.ValueIsShortest | ingestion/normalizers.py:126 | the value matched is the shortest sequence of escaped pairs and plain characters that ends at whitespace, a word and an equals sign or at the end of the text; there is none if and only if no such sequence does |
| CefMatching.MatchIsKeyAndValue | ingestion/normalizers.py:126 | a match at a position is a whole word, an equals sign and that value |
| CefMatching.ParsedExactly | ingestion/normalizers.py:129-135 | a line is parsed if and only if "CEF:" occurs in it with at least seven pipes after its first occurrence |
| CefExtension.PrintedValueCaptured | ingestion/normalizers.py:126 | the lazy value match stops exactly at the end of a printed value, trailing whitespace aside |
| CefRoundTrip.PrintThenParse | ingestion/normalizers.py:126-150 | printing and parsing returns every field less the trailing whitespace of its value, dict semantics for repeated keys, any text before the line |
| CefRoundTrip.HeaderIsReported | ingestion/normalizers.py:137-145 | the six header fields are reported under their names, unless the extension repeats the name |
| CefRoundTrip.ParsedValuesLackPipe | ingestion/normalizers.py:129-150 | no parsed value ever holds a pipe |
| CefRoundTrip.RoundTripExactly | ingestion/normalizers.py:126-150 | for distinct word keys the round trip is exact if and only if no value holds a pipe or ends in whitespace |
| Sse.Reader.Feed | static/app.js:121-140 | one chunk drains all complete events and keeps the rest |
| Sse.ReadStream | static/app.js:169-195 | the whole loop delivers what the concatenated text holds, for any chunks |
| Sse.ChunkingIsInvisible | static/app.js:121-140 | every split into chunks, also inside a delimiter, gives the same events and buffer |
| Sse.CutAtBlankLines | static/app.js:126-131 | any text is cut at its blank lines, first one first: events, their blank lines and the rest are the text, and no blank line is left in them |
| Sse.DeliversWhatArrived | api.py:758-764 | after any prefix of the server's output the events of exactly the complete frames are delivered |
| Sse.EveryEventOnceInOrder | api.py:820-827 | all events are delivered once, in order, the buffer ends empty, heartbeats are invisible |
| Stats.MeanMedianIgnoresOrder | utils/incident_index.py:296-303 | mean and median are permutation-invariant |
| Stats.MeanMedianBetween | utils/incident_index.py:296-303 | mean and median lie between any bounds of the values |
| Stats.MeanMedianExactly | utils/incident_index.py:296-303 | count, sum over count, and the middle element or half-way between the two middle elements of any ascending arrangement; nothing of no values |
| IncidentIndex.Index.UpsertIncidentSummary | utils/incident_index.py:117-165 | the insert and the conflict update of one row |
| IncidentIndex.Index.SetAssignedTo | utils/incident_index.py:210-224 | sets or clears one row's assignee, and says whether there was a row |
| IncidentIndex.RankValues | utils/incident_index.py:118 | the four severities rank 0 to 3, any other text lowest |
| IncidentIndex.StampingStatuses | utils/incident_index.py:117-130 | closed and contained stamp the resolution, pending_approval the wait |
| IncidentIndex.RowIsHistory | utils/incident_index.py:117-165 | after any operations the set-once columns of a row inserted under the current schema are the times of the first, first pending and first terminal upsert, its rank the highest ever, its assignee the last assigned |
| IncidentIndex.RowFollowsLastUpsert | utils/incident_index.py:117-165 | severity, status and update time are those of the last upsert |
| IncidentIndex.RankIsEver | utils/incident_index.py:343-344 | the stored rank reaches a level exactly if some upsert ever did, so escalation is a durable fact |
| IncidentIndex.FirstTimeIsEarliest | utils/incident_index.py:117-165 | under a monotone clock those are the earliest such times |
| IncidentIndex.RankIsKnownExactly | utils/incident_index.py:66-165 | an upserted incident has a rank if and only if its row is new or had one before; it is then the highest of the row and the whole history |
| IncidentIndex.CreationTimeStays | utils/incident_index.py:66-165 | a row keeps the creation time it has, also none |
| IncidentIndex.KpisAreHistory | utils/incident_index.py:306-374 | from any index on, KPIs computed from the rows of incidents added since equal those computed from their full history |
| IncidentIndex.KpisExactly | utils/incident_index.py:306-374 | for any facts and bound: total is the number of incidents created at or after the bound, escalated that of those whose rank reached 2, and MTTR and dwell are mean and median of any listing of resolved minus created, and resolved minus pending, over those that have both times |
| IncidentIndex.TimesExist | utils/incident_index.py:346-355 | such listings of times always exist |
| IncidentIndex.KpisIgnoreRowOrder | utils/incident_index.py:306-374 | the order in which the database returns rows is immaterial |
| IncidentIndex.MttrIsNonNegative | utils/incident_index.py:346-349 | under a monotone clock neither mean nor median of the reported MTTR is negative |
| IncidentIndex.DwellSign | utils/incident_index.py:351-355 | a dwell time is negative if and only if some pending upsert found its row resolved earlier and never pending |
| IncidentIndex.NegativeDwell | utils/incident_index.py:351-355 | an example with a dwell time of -4 |
| IncidentGraph.BuildGraph | utils/incident_index.py:450-477 | the nested loops build the fold of all mentions |
| IncidentGraph.IdsNeverCollide | utils/incident_index.py:453-471 | node ids of the three kinds never collide, whatever text they hold |
| IncidentGraph.IdsAre | utils/incident_index.py:453-471 | ids as clients see them |
| IncidentGraph.NodesAreMentions | utils/incident_index.py:450-477 | the nodes are exactly the mentioned incidents, IOCs and assets, each under its own id |
| IncidentGraph.EndpointsAreNodes | utils/incident_index.py:464-471 | every edge joins an incident node to an IOC or asset node of the graph |
| IncidentGraph.EdgeCount | utils/incident_index.py:464-471 | there is one edge for every IOC and asset entry of every row |
| IncidentGraph.LinkedIffExactMatch | ingestion/correlation.py:180-198 | two incidents share a neighbour exactly when the exact tier would match them |
| LookupCache.Cache.Get | enrichment/providers.py:111-123 | a fresh value, or a miss that deletes an expired one |
| LookupCache.Cache.Set | enrichment/providers.py:126-142 | the insertion and both eviction passes, in closed form |
| LookupCache.SetFacts | enrichment/providers.py:126-142 | at most 5000 entries afterwards, the new one among them, every loss expired or pushed out by entries at least as new |
| LookupCache.RunStaysBounded | enrichment/providers.py:126-142 | over every run at most 5000 entries, one per key |
| LookupCache.HitIsLatest | enrichment/providers.py:111-123 | a hit is the value most recently set, at most 3600 s old |
| LookupCache.MissIsExplained | enrichment/providers.py:96-142 | a fresh value that is missing was pushed out while 5000 entries at least as new were present |
| Sessions.SessionStore.ValidateSession | utils/user_accounts.py:248-274 | answers from the row and deletes it if it has expired |
| Sessions.SessionStore.CreateSession | utils/user_accounts.py:228-245 | stores one session under the token's hash, unless the hash is taken |
| Sessions.SessionStore.InvalidateSession | utils/user_accounts.py:277-286 | removes that one session, and nothing for an empty token |
| Sessions.SessionStore.DeleteUserAndSessions | utils/user_accounts.py:198-207 | removes the user and all of the user's sessions, and says whether the user existed |
| Sessions.SessionStore.ChangeRoleEverywhere | utils/user_accounts.py:210-218 | changes the role of the user and of all the user's sessions, or nothing for an unknown role |
| Sessions.PurgingIsUnobservable | utils/user_accounts.py:248-274 | over every history lookups answer as if expired rows were never deleted |
| Sessions.StandingExplained | utils/user_accounts.py:198-286 | a session stands exactly if it was not logged out and its user not deleted since it was issued, with the role last given |
| Sessions.LookupExactly | utils/user_accounts.py:198-286 | a lookup answers with the user and the role last given if the session was not logged out, its user not deleted since and its time to live not passed, and with nothing otherwise |
| Sessions.UnknownTokens | utils/user_accounts.py:248-274 | a token never issued is answered with nothing |
| Sessions.LookupPurges | utils/user_accounts.py:248-274 | a lookup deletes a row if and only if it has expired |
| Sessions.TakenHashIsRefused | utils/user_accounts.py:228-245 | a login under a hash that is taken changes nothing |
| Polling.Poller.PollOnce | ingestion/crowdstrike_polling.py:166-196 | one poll, for each way it can end, whatever texts the times have |
| Polling.NewCursorSortsLast | ingestion/sentinel_polling.py:170-176 | no text on the page is above that of the new cursor, in whatever order records come back |
| Polling.CursorMovesExactly | ingestion/crowdstrike_polling.py:155-161 | the cursor moves if and only if some text on the page is above its own |
| Polling.TornSaveForgets | ingestion/crowdstrike_polling.py:104-196 | a torn save leaves no cursor if there was one to save, and the page was handed over |
| Polling.CrashKeepsCursor | ingestion/crowdstrike_polling.py:184-194 | a crash while handing over leaves the beginning of the page handed over and the cursor as it was |
| Polling.CoveredIffSafe | ingestion/crowdstrike_polling.py:120-196 | a step loses a record exactly when a completed page ends between records of the time the cursor moves to or a record arrives at or below the cursor |
| Polling.CoveredIffAllSafe | ingestion/crowdstrike_polling.py:104-196 | over whole runs with crashes, nothing is lost if and only if every step was safe |
| Polling.SafeRunsAreCovered | ingestion/crowdstrike_polling.py:104-196 | safe steps lose nothing even when saves are torn |
| Polling.IncreasingFeedLosesNothing | ingestion/sentinel_polling.py:121-230 | with strictly increasing times every record at or below the cursor was handed over, through any crashes and whatever the texts |
| Polling.CursorNeverDecreases | ingestion/crowdstrike_polling.py:104-117 | the time of the saved cursor never goes back unless its file is torn |
| Polling.EqualTimesAreLost | ingestion/crowdstrike_polling.py:134-161 | a crash-free run in which a record of equal time is skipped for good |
| PollingRuns.NewestIsGreatest | ingestion/crowdstrike_polling.py:120-127 | what the cursor is meant to be: the newest time seen, in whatever order records come back |
| PollingRuns.SharpExactly | ingestion/crowdstrike_polling.py:155-161 | where different times have different texts, the cursor moves to the newest time of the page if and only if the text of that time sorts after every other one compared |
| PollingRuns.TimeOrderIsSharp | ingestion/sentinel_polling.py:170-176 | it always does if texts sort as times, as texts of one width do |
| PollingRuns.CrashFreeIsExactlyOnce | ingestion/crowdstrike_polling.py:166-196 | without crashes each record the cursor has passed was handed over once, and no other, if and only if every poll moved the cursor to the newest time of its page |
| PollingRuns.CrashFreeIsInOrder | ingestion/sentinel_polling.py:121-230 | with pages in order, once another page was handed over, records came in the order of times across all polls if and only if every earlier poll did so |
| PollingRuns.ProgressExactly | ingestion/crowdstrike_polling.py:120-163 | a completed poll makes the backlog smaller if and only if some text on its page is above the cursor's |
| PollingRuns.StandstillRepeats | ingestion/crowdstrike_polling.py:120-163 | if none is, the cursor stays and the same page is a legal answer to every further poll |
| PollingRuns.BacklogShrinks | ingestion/crowdstrike_polling.py:120-163 | it takes exactly its page, or all there is, off the backlog if and only if it moves the cursor to the newest time of the page |
| PollingRuns.StuckForGood | ingestion/crowdstrike_polling.py:120-196 | if no text on a full page is above the cursor's, then whatever arrives and however polls end, the cursor never moves again and nothing off that page is ever handed over |
| PollingRuns.TwoRecordsStall | ingestion/crowdstrike_polling.py:120-196 | with pages of one record, any two successive times whose texts sort the wrong way round do that |
| PollingRuns.FractionStalls | ingestion/crowdstrike_polling.py:120-196 | so does a record half a second after one at a full second, if fractions are written only where needed |
| PollingRuns.StallingIsLegal | ingestion/crowdstrike_polling.py:120-196 | the run that leads there has increasing times and no crash |
| PollingRuns.QuietFeedIsDrainedExactly | ingestion/crowdstrike_polling.py:166-196 | once the feed is quiet, as many polls as records wait hand over every record if and only if no poll has a page without a text above the cursor's while an unseen record is off it |
| PollingRuns.SharpFeedIsDrainedByPages | ingestion/crowdstrike_polling.py:166-196 | as many polls as there are pages are enough if each moves the cursor to the newest time of its page |
| PolledGate.HistoryGrows | ingestion/crowdstrike_polling.py:184-194 | the gate sees each page where its poll stands among what other sources send |
| PolledGate.PageAdmittedExactly | ingestion/pipeline.py:155-158 | all alerts of a page get past the limiter if and only if for each of them the admissions before the page and the alerts before it on the page leave room in its closed minute |
| PolledGate.PollDeliversExactly | ingestion/crowdstrike_polling.py:184-194 | every alert of a poll gets past the limiter, in this or any other poll of the run, if and only if each finds room when it is handed over |
| PolledGate.LargePageLosesAlerts | ingestion/crowdstrike_polling.py:184-194 | a page with more alerts than the limit, handled within one minute, loses one of them for good |
| Llm.InvokeStructured | utils/llm.py:177-216 | the retry loop computes the first success within the allowed attempts, at the price of all attempts made |
| Llm.InvokedIsFirstSuccess | utils/llm.py:177-216 | that result in terms of the first successful attempt, failed parses paid for |
| Llm.InvokedFails | utils/llm.py:177-216 | if none succeeds it fails after exactly retries + 1 attempts, all paid for |
| Llm.TotalCostIsPaid | utils/llm.py:194-209 | every attempt with a response, parsed or not, adds its input, output and total tokens; one that raised adds nothing |
| Llm.InvokedAtFullPrice | utils/llm.py:177-216 | the whole outcome: the first of the retries + 1 attempts that can be parsed at the price of all up to it, or a failure at the price of all |
| Llm.AccumulateKeepsBalance | utils/llm.py:253-268 | booking keeps the running total equal to the sum over all names |
| AgentGraph.MergeIocs | agents/investigator_agent.py:84-89 | the bounded loop computes the merge |
| AgentGraph.MergeKeepsBounds | agents/investigator_agent.py:78-91 | old IOCs stay a prefix, at most 50, no new duplicates, nothing new but proposals cut to 300 characters, and every proposal is taken unless the list is full |
| AgentGraph.MergeInOrder | agents/investigator_agent.py:84-89 | first come, first served |
| AgentGraph.Conversation.TriageAgent | agents/triage_agent.py:31-126 | triage's state transition, success and error paths |
| AgentGraph.Conversation.InvestigatorAgent | agents/investigator_agent.py:30-106 | the investigator's state transition, success and error paths |
| AgentGraph.Conversation.ThreatHunterAgent | agents/threat_hunter_agent.py:30-91 | the threat hunter's state transition, success and error paths |
| AgentGraph.Conversation.ResponderAgent | agents/responder_agent.py:27-84 | the responder's state transition, success and error paths |
| AgentGraph.Conversation.AccumulateUsage | utils/llm.py:253-268 | adds one call's usage to the total and to one name |
| AgentGraph.Conversation.Invoke | graph.py:17-55 | the graph's loop visits the path and ends in the state of the run |
| AgentGraph.RouteIsLegal | graph.py:35-55 | no agent asks for an edge the graph does not have, and each edge goes forward |
| AgentGraph.RunIsShort | graph.py:17-55 | every run follows the edges and is over within four steps |
| AgentGraph.PathIsDetermined | agents/investigator_agent.py:93-98 | which agents have a turn, from the answers alone: Investigator if triage escalated, ThreatHunter or Responder as the investigator decided, Responder after ThreatHunter if the hunt asks for a response |
| AgentGraph.FailureEndsTheRun | graph.py:17-55 | only the last agent of a run can have failed |
| AgentGraph.RunEnds | agents/responder_agent.py:67-84 | an error-free run ends closed, or pending approval exactly when Responder was reached, and then the actions are its plan's drafts in order, all undecided; failures leave status and actions as stated |
| AgentGraph.SeverityIsTriages | agents/triage_agent.py:100-104 | after any run the severity is triage's verdict, or what it was if triage failed |
| AgentGraph.PendingIffProposed | agents/responder_agent.py:67-84 | an incident is pending after a run exactly when Responder succeeded, or it already was and triage failed |
| AgentGraph.RunKeeps | agents/investigator_agent.py:78-91 | the audit log only grows, the original IOCs stay a prefix of at most 50 |
| AgentGraph.IocsAreInvestigated | agents/investigator_agent.py:78-91 | after any run the IOCs are the merge of what a successful investigation proposed, and else unchanged |
| AgentGraph.LogIsDetermined | agents/triage_agent.py:80-124 | a run adds exactly the audit lines its turns call for: verdicts, errors, citations, verified lookups and the number of proposals |
| AgentGraph.ErrorsAreLogged | agents/triage_agent.py:80-90 | the log gains one error line exactly when the run failed |
| AgentGraph.TokensAreConserved | utils/llm.py:177-268 | the total grows by the cost of every attempt that returned a response |
| AgentGraph.BookedPerAgent | utils/llm.py:253-268 | under each agent's name exactly its own attempts are booked |
| AgentGraph.AnswerAtFullPrice | utils/llm.py:177-216 | an agent asks at most twice, the second time only if the first output could not be parsed, and pays for both; without a provider it fails for free |
| AgentGraph.BookedAttemptByAttempt | utils/llm.py:177-268 | input, output and total booked under a name grow by the sums over the attempts of that agent's turn, failed parses included |
| AgentGraph.SumAttemptByAttempt | utils/llm.py:177-268 | the running input, output and total grow by the sums over all attempts of all turns |
| AgentGraph.RunKeepsBalance | utils/llm.py:253-268 | a balanced total stays balanced over any run |
| AgentGraph.CallsAreBounded | utils/llm.py:177-216 | a run asks the provider at most eight times |
| AgentGraph.CallsAreCounted | utils/llm.py:177-216 | a run asks the provider once or twice for each agent that has a turn and a provider, and for no other |

## Left out

- HTTP, sockets, threads and locks: every operation runs to completion before the next; the locks of the source are what makes that so.
- Failed writes: `append_line` swallows OSError and the ledger then lacks an entry; writes succeed here.
- UTF-8 decoding, surrogates and ledger lines that are valid JSON but not an object (the source raises on those).
- The audit export webhook, and the log lines and webhook of the auth monitor: side effects without a reader here.
- Floating point: times, means and windows are reals. The text that Lua prints for a retry value is not rounded.
- Redis removes an expired key at its deadline at the earliest; the model takes the deadline itself.
- A limiter or deduplicator whose settings change during a gate run: run theorems fix the settings; the limiter backends are compared at one fixed limit per key, the deduplicators under any windows.
- `ingest_alert`'s normalizer lookup: an unknown source or a non-alert returns before the gate and logs nothing.
- workflows/incident_pipeline.py is not part of this model: `run_new_incident` and `merge_correlated_alert` are effects recorded with the usage handed to them, and the status they return is left out.
- playbooks/, approvals and automated execution, for the same reason.
- The wording of reasons, descriptions, messages and prompts, and the long-term-memory recall in triage.
- Vendor field mapping in ingestion/normalizers.py apart from CEF, and provider response parsing in enrichment/providers.py: long case tables without state.
- Malformed `updated_at` texts in the index: rows carry valid timestamps as the index writes them.
- The escalation rate's final division and volume per day: counts are modelled, the quotient and the grouping add nothing.
- Listing, hunting, ATT&CK and Jira columns of the incident index.
- Password hashing, token generation, OIDC and the strength of any hash.
- OAuth token exchange of the pollers: a failed exchange is a poll that hands nothing over. The server is assumed to return every summary of a page it announced.
- Reconnection and rendering in static/app.js; a stream is read to its end.
- Polling.Poller.PollOnce: records without a time, which never move the cursor, are not modelled; records without an alert only in PolledGate, which skips them.
- IncidentIndex.Index.UpsertIncidentSummary: the columns for report type, description, source, pending actions, indicators, assets and ATT&CK technique are not modelled; every upsert overwrites them.
- IncidentGraph.BuildGraph: node payloads (labels, severities, statuses, assignees) and the included and total counts are not modelled.
- AgentGraph.Conversation.TriageAgent: messages, the threat_intel field and the long-term summary are not modelled; audit lines for verified lookups are.
- AgentGraph.Conversation.InvestigatorAgent: messages and the ATT&CK technique fields are not modelled.
- AgentGraph.Conversation.ThreatHunterAgent: messages and the ATT&CK technique fields are not modelled.
- AgentGraph.Conversation.ResponderAgent: the message is not modelled.
- Gate.IngestionGate.IngestNormalizedAlert: takes the free tiers' answer and the names of the semantic pool with the arrival; GateCorrelation says what they are, on an index fixed during one arrival. How merges and promotions change the index from one arrival to the next is not modelled.
- Gate.IngestionGate.Dispatch: the incident that a pipeline call returns is an input, and the reason and confidence in results and log records are left out.
- GateRuns.LogIsComplete: the log is a plain sequence; the source writes it through the rotating log, so what LogRotation says about retention applies.
- GateCorrelation.PromotedIsUnrelated: with a smaller lookup budget nothing is said of shared addresses.
- PolledGate.PollDeliversExactly: for runs without crashes in which every poll moves the cursor to the newest time of its page; otherwise a record may be handed over again.
- IncidentIndex.KpisAreHistory: the escalation quotient and the volume per day are not modelled.
- GateRuns.JudgeTokensAreHandedOn: speaks of total tokens only, because a usage whose total is zero is not handed on to a new incident.
- A caller other than the gate may use the same limiter object: its keys are disregarded, not modelled.
