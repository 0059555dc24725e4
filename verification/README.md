# Verified model of the Sentient-AI backend's state machines

A Dafny model of the parts of the repository whose correctness is not visible in any one
function body, with proofs over every input, every run or every interleaving.

- **Audit log.** `AuditWriter` is the append protocol as labelled steps (begin, asyncio lock,
  row lock, read head, insert, return, commit, rollback) of any number of transactions; a label
  that is not enabled changes nothing, so every label sequence is a run. `AuditVerifier` is the
  verifier's loop with its dictionaries against a reference definition; `AuditDecomposition`
  relates its reports on interleaved logs to per-user reports; `AuditEvidence` joins writer and
  verifier: what is written verifies, and what verifies was written. `AuditContents` reads off a
  run what its committed rows must say; `AuditMeaning`, `AuditFailures` and `AuditPermissive` say
  what a report means without the walk. `AuditProgress`, `AuditFairness` and `AuditDeadlock` are
  about the two locks: bounded progress, progress on fair infinite runs, and exactly when an
  append is stuck.
- **Text.** `Text` has the Python string operations and `TextMeaning` what they do.
- **Installation cache.** `InstallationCache` has a machine of interleaved readers, report builders
  and writers with one step per await; `InstallationService.dfy` has the service object and runs
  whole interleavings on it; `InstallationHistory` reads off a run what gets committed;
  `InstallationStaleness` and `AbandonedWrites` say exactly how old what is served can be.
- **Line splitter.** `LineSplitting` has the splitter's loops and the pure function of the stream
  they compute.
- **Account lockout.** `AccountLockout.dfy` has the map of counters and the definition over the
  event history it must agree with.
- **Installer.** `BuildLog.dfy` is the polled ring buffer; `KeyLines`, `EnvKeys`, `EnvFile`,
  `EnvReading` and `EnvRoundTrip` are the `.env` rewriter and its reader; `KeyLineMeaning`,
  `EnvMeaning` and `KeyValidation` say which lines assign a key, what a value reads as and which
  keys are accepted.
- **Allowlist.** `HostAllowlist`, `HostSelection`, `DotSegments` and `NetworkPolicy` are the
  decision with `resolve=False`; `HostMeaning` and `DotSpellings` say what hosts, globs and
  escapes mean character by character.
- **Memory search.** `LikePattern` is the escaped pattern and the LIKE predicate.

The two audit digests are functions of the payload; the keyed one is assumed injective and its
range disjoint from the other's (`AuditRows.Ideal`), and in permissive mode the unkeyed one too
(`AuditRows.IdealUnkeyed`); results that need this say so. A legacy prefix is assumed linked,
unnumbered and in strictly increasing timestamp order (`AuditWriter.LegacyLinked`); the permissive
result also assumes that it begins with a NULL `previous_hash` (`AuditPermissive.Rooted`).

Where code and text disagree the model follows the code:

- `verify_audit_log.py:44-46` exempts rows with a NULL `previous_hash` from the chain check; the
  loop at 296-301 compares links on every row after a user's first.
- `installation.py:31-42` gives both caches one TTL and says another process is stale for at most
  one; a report can be two TTLs old, because it is filled from the snapshot cache.
  `InstallationStaleness` says exactly when.
- `audit.py:268-273` calls the asyncio lock a fast path only; with two appends for one user in one
  transaction, as in `services/agent/permission_grants.py:676-700`, it can deadlock with the row
  lock. `AuditDeadlock` says exactly when.
- `bootstrap.py:475-476` promises to replace the key lines; a key line behind a lone carriage
  return is not one for the rewriter but is one for the reader.

Check everything with `dafny verify dfyconfig.toml`.

## Model

| member | source | states |
|---|---|---|
| AuditRows.IdealExists | Sentient-AI-/backend/core/security.py:131-158 | The idealisations of the two digests (no collision within either, none across the two) can be met together |
| AuditWriter.HeadIsLast | Sentient-AI-/backend/services/audit.py:349-359 | On a chain the head query (seq descending, NULLs last, then timestamp) has exactly one possible answer, the last row of the chain, or nothing on an empty one |
| AuditWriter.AppendExtends | Sentient-AI-/backend/services/audit.py:356-394 | Inserting after the head turns a chain into a chain one row longer: next seq, the predecessor's hash, a keyed hash over both |
| AuditWriter.RunKeepsInv | Sentient-AI-/backend/services/audit.py:321-398 | The protocol invariant holds after every interleaving of any number of transactions, with several appends each, for several users, with rollbacks: a transaction past the row lock or with own rows holds it, what it sees is a chain, and the head it remembers is still the last row |
| AuditWriter.NoFork | Sentient-AI-/backend/services/audit.py:321-398 | After every run each user's committed rows are the legacy prefix in place followed by seq 1..n without gap, every row carrying its predecessor's integrity_hash; the in-process lock is not used |
| AuditWriter.HashesNeverRepeat | Sentient-AI-/backend/services/audit.py:212-265 | Two positions of a chain never carry the same keyed hash |
| AuditWriter.NoSharedPredecessor | Sentient-AI-/backend/services/audit.py:321-398 | No two committed keyed rows of a user name the same predecessor |
| AuditContents.CommittedRowsAreTheAppends | Sentient-AI-/backend/services/audit.py:376-398 | After every run the table is the base followed, row by row, by what the transactions that committed were called with: user and all eleven arguments field by field, in commit order and call order, the expected list being read off the labels |
| AuditContents.UserRowsAreTheAppends | Sentient-AI-/backend/services/audit.py:376-398 | For each user the committed rows past the legacy prefix are exactly that user's appends of committed transactions |
| AuditContents.AllOrNothing | Sentient-AI-/backend/services/audit.py:323-340 | Everything a committed transaction inserted is in that list, and nothing of one that rolled back or has not ended |
| AuditContents.EndsOnce | Sentient-AI-/backend/services/audit.py:323-340 | No transaction both commits and rolls back |
| AuditProgress.RunKeepsLocks | Sentient-AI-/backend/services/audit.py:274-284 | With one append per transaction, after every run an asyncio lock is held only by an append that took it and has not returned, and a row lock only by an append past it or a transaction that has appended and not ended |
| AuditProgress.NoDeadlock | Sentient-AI-/backend/services/audit.py:321-398 | With at most one append per transaction, every reachable state with an unfinished append has an enabled step that serves one |
| AuditProgress.DrainingIsBounded | Sentient-AI-/backend/services/audit.py:321-398 | A schedule of enabled steps without new appends is no longer than the steps left at its start |
| AuditProgress.DrainingFinishes | Sentient-AI-/backend/services/audit.py:321-398 | Such a schedule, after any run with one append per transaction and in whatever order, ends within the steps left, and when nothing that serves an append is enabled any more every append has returned or its transaction ended |
| AuditFairness.RowIsFreed | Sentient-AI-/backend/services/audit.py:338-340 | On a fair infinite run with one append per transaction no row lock stays taken for ever |
| AuditFairness.LocalIsFreed | Sentient-AI-/backend/services/audit.py:321-398 | Nor does an asyncio lock |
| AuditFairness.EveryAppendFinishes | Sentient-AI-/backend/services/audit.py:321-398 | On every infinite run with one append per transaction, however many transactions keep arriving, if each transaction that can move infinitely often moves infinitely often (committing included, once it has appended), then every append under way at any position has returned, or its transaction ended, at a later one |
| AuditFairness.FairRunExists | Sentient-AI-/backend/services/audit.py:321-398 | The fairness hypothesis can always be met: every finite run with one append per transaction goes on as a fair infinite one |
| AuditDeadlock.StuckExactlyWhen | Sentient-AI-/backend/services/audit.py:321-398 | In every reachable state, with any number of appends per transaction: an unfinished append can finish without any rollback if and only if the chain of who must move first (the holder of its asyncio lock, else of its row lock, and so on) ends; otherwise no continuation that spares the transactions on the chain finishes it |
| AuditDeadlock.EndsWithin | Sentient-AI-/backend/services/audit.py:321-398 | Whether the chain ends is decided by following it for as many links as there are transactions |
| AuditDeadlock.OneAppendEnds | Sentient-AI-/backend/services/audit.py:268-340 | With one append per transaction every chain ends |
| AuditDeadlock.SecondAppendStuckExactlyWhen | Sentient-AI-/backend/services/audit.py:268-340 | A transaction that holds a user's row lock and waits to append for that user again is stuck, short of a rollback of it or of the asyncio lock's holder, exactly when that asyncio lock is taken; its holder then waits for the row lock. When the lock is free the append can finish |
| AuditDeadlock.SecondCallCanDeadlock | Sentient-AI-/backend/services/agent/permission_grants.py:676-700 | From every reachable state in which an idle transaction holds a user's row lock, calling a second append for that user (as a connector update does that changes the tier and revokes grants) can be continued to that mutual wait |
| AuditProgress.TwoAppendsCanDeadlock | Sentient-AI-/backend/services/audit.py:268-340 | An instance reached from the empty table: no step that serves anybody is left |
| AuditVerifier.VerifyRows | Sentient-AI-/backend/scripts/verify_audit_log.py:241-339 | The walk with its two dictionaries returns exactly the reference report (failures in order, invalid and legacy counts) of the rows it processed, and stops at the end or, under fail_fast, just past the first bad row |
| AuditVerifier.CheckRow | Sentient-AI-/backend/scripts/verify_audit_log.py:276-327 | The checks of one row against the dictionaries give the reference failures of that row and the fail_fast condition |
| AuditVerifier.CleanIffLinked | Sentient-AI-/backend/scripts/verify_audit_log.py:292-327 | For one user's rows, no failure is reported if and only if every row is explained, every row after the first names the hash of the row before it, and the assigned seqs strictly increase (all pairs, not only neighbours) |
| AuditDecomposition.BadIdsAreFailureIds | Sentient-AI-/backend/scripts/verify_audit_log.py:267-330 | The invalid ids are exactly the ids named by the failures |
| AuditDecomposition.PerUserFailures | Sentient-AI-/backend/scripts/verify_audit_log.py:276-327 | With unique ids, the failures an interleaving reports about one user are those of that user's rows alone, in order |
| AuditDecomposition.CleanIffEachUserClean | Sentient-AI-/backend/scripts/verify_audit_log.py:276-327 | An interleaving is clean if and only if every user's own rows are, whatever the ids |
| AuditDecomposition.ReportsAddUp | Sentient-AI-/backend/scripts/verify_audit_log.py:329-339 | With unique ids, the invalid and legacy counts are the sums over the users |
| AuditDecomposition.FailFastIsShortestBadPrefix | Sentient-AI-/backend/scripts/verify_audit_log.py:326-327 | fail_fast gives the full report of the shortest prefix that has a failure and never changes ok |
| AuditDecomposition.RequireHmacOnlyAdds | Sentient-AI-/backend/scripts/verify_audit_log.py:281-291 | require_hmac only adds unkeyed_hash failures: dropping them leaves the permissive failures in order, and the legacy count is unchanged |
| AuditDecomposition.NullPreviousHashIsFlagged | Sentient-AI-/backend/scripts/verify_audit_log.py:296-301 | A NULL previous_hash anywhere but on a user's first row makes the report not ok (the module text at lines 44-46 says such rows get the per-row check only; the model follows the loop) |
| AuditMeaning.HashCovers | Sentient-AI-/backend/scripts/verify_audit_log.py:100-115 | Two rows have the same hashed payload exactly when thirteen fields agree, listed one by one |
| AuditMeaning.OkExactlyWhen | Sentient-AI-/backend/scripts/verify_audit_log.py:118-137 | In either mode a report is ok if and only if every row with a seq carries the keyed digest of its payload, every other row that or (when allowed) the unkeyed one, every row names the hash of its user's row before it, and each user's seqs increase; said by positions in the log |
| AuditMeaning.ReportOkExactlyWhen | Sentient-AI-/backend/scripts/verify_audit_log.py:326-339 | The same for the walk itself, stopped early or not, and its legacy count is the number of processed rows without a seq that carry the unkeyed digest and not the keyed one |
| AuditMeaning.LegacyCountIs | Sentient-AI-/backend/scripts/verify_audit_log.py:282-283 | The legacy count counts each such row once |
| AuditFailures.FailuresMean | Sentient-AI-/backend/scripts/verify_audit_log.py:186-238 | A failure is reported if and only if it is a defect of some row, with every field of it (row named, hash stored and expected, previous hash or seq stored and expected) as stated for its kind |
| AuditEvidence.CleanVerification | Sentient-AI-/backend/services/audit.py:342-394 | Every log any run of the writer commits, merged in any way that keeps each user's order, verifies with no failure and with a legacy count equal to the number of legacy rows |
| AuditEvidence.QueryOrderIsClean | Sentient-AI-/backend/scripts/verify_audit_log.py:365-372 | Any answer of the command line's ORDER BY over all users keeps each user's order, so it verifies clean |
| AuditEvidence.FindIssued | Sentient-AI-/backend/scripts/verify_audit_log.py:118-137 | A keyed row whose hash the writer committed agrees, in everything the hash covers, with one row of its user's chain |
| AuditEvidence.SuccessorIsNext | Sentient-AI-/backend/services/audit.py:356-394 | A previous_hash equal to the hash at chain position i occurs at position i+1 and nowhere else |
| AuditEvidence.TamperEvidence | Sentient-AI-/backend/scripts/verify_audit_log.py:276-327 | Rows without forged keyed hashes, after any deletion, duplication, reordering or rewriting of ids, timestamps and seqs, pass under require_hmac if and only if each user's rows are one contiguous run of what was committed for that user since the upgrade, in committed order, with increasing seqs |
| AuditEvidence.CommittedRowsComeFirst | Sentient-AI-/backend/services/audit.py:342-394 | Whatever passes under require_hmac, with no assumption on where its hashes come from, is for each user a contiguous run of the committed chain followed only by rows that were never committed (issued and rolled back, or forged) |
| AuditPermissive.PermissiveTamperEvidence | Sentient-AI-/backend/scripts/verify_audit_log.py:276-327 | In permissive mode, of rows without forged keyed hashes, what passes is for each user a contiguous run of the committed rows, legacy ones included, followed at most by rows without a seq that carry the unkeyed digest; so the rows with a seq that pass are all in that run |
| AuditEvidence.AnchoredHistory | Sentient-AI-/backend/scripts/verify_audit_log.py:296-323 | Two single-user logs clean under require_hmac that end in the same hash agree payload by payload going back; the shorter is a suffix of the longer, and they are equally long if the shorter starts at a NULL previous_hash |
| InstallationServices.InstallationService.Invalidate | Sentient-AI-/backend/services/installation.py:284-290 | After it nothing is served at any time, from either cache, until something is stored under the new generation |
| InstallationServices.InstallationService.BeginLoad | Sentient-AI-/backend/services/installation.py:270-275 | A hit is what was stored, exactly until one TTL after its read began; otherwise the generation to remember is handed out |
| InstallationServices.InstallationService.EndLoad | Sentient-AI-/backend/services/installation.py:276-282 | A read begun under an older generation changes no later answer; otherwise what it read is the answer until one TTL after it began; the report's answers never change |
| InstallationServices.InstallationService.EndView | Sentient-AI-/backend/services/installation.py:507-511 | The same for a report, with the snapshot's answers unchanged |
| InstallationServices.Replay | Sentient-AI-/backend/services/installation.py:270-511 | Carrying out any interleaving with every cache access made through the object's methods gives exactly that run of the machine, so the results about runs hold of the object |
| InstallationCache.RunKeepsInv | Sentient-AI-/backend/services/installation.py:270-290 | After every interleaving of readers, report builders, writers, cancellations and other processes, what each pending read or part holds, and what is cached, is a row some commit wrote, recent enough for its start time and generation |
| InstallationHistory.HistoryIsTheWrites | Sentient-AI-/backend/services/installation.py:324-340 | After every run the history of committed configurations is exactly, in order, those of the writes that committed, as asked for, and when, read off the labels |
| InstallationHistory.ReturnedWriteIsThere | Sentient-AI-/backend/services/installation.py:324-340 | A write that has returned put its own configuration at its place in the history |
| InstallationHistory.OneWriterOneReport | Sentient-AI-/backend/services/installation.py:486-511 | At most one write is between its lock and its return and at most one report is being built, and neither lock is left behind by a coroutine that was cancelled or failed |
| InstallationCache.Coherence | Sentient-AI-/backend/services/installation.py:270-340 | In one process, whenever no writer is between its commit and its invalidate, a cached snapshot is the committed row and every snapshot a cached report was built from is that row |
| InstallationCache.ReadsSeeReturnedWrites | Sentient-AI-/backend/services/installation.py:324-340 | A read or report started after a write returned is built from that write or later ones only, whatever else runs, other processes included |
| InstallationStaleness.StalenessBound | Sentient-AI-/backend/services/installation.py:473-511 | With writers in other processes, a snapshot served from the cache includes every commit up to one TTL ago, a report served from its own cache every commit up to two TTLs ago |
| InstallationStaleness.ReportReach | Sentient-AI-/backend/services/installation.py:479-511 | A served report reaches exactly as far as its parts were read: each part includes every commit before its read and none after it, and was read less than two TTLs ago; if none was read more than one TTL ago the report includes every commit older than one TTL |
| InstallationStaleness.WithinTtlExactlyWhen | Sentient-AI-/backend/services/installation.py:479-511 | One TTL bounds a served report exactly when none of its parts was read more than one TTL ago: otherwise some run serves a report with the same read times at the same time and misses a commit older than one TTL |
| InstallationStaleness.ReportOutlivesTtl | Sentient-AI-/backend/services/installation.py:479-511 | An instance of the failing case: a report served at 9 s misses a commit made at 1 s (TTL 5 s) |
| AbandonedWrites.AbandonedWriteServesOldExactlyWhen | Sentient-AI-/backend/services/installation.py:324-340 | A write cancelled between its commit and its invalidate can be followed by an older row served from a cache if and only if, at the commit, a cache serves something, or a coroutine holds, under the current generation and begun less than one TTL ago, a fetched read or a report with a part |
| AbandonedWrites.AbandonedWriteLeavesStale | Sentient-AI-/backend/services/installation.py:324-340 | An instance of the failing case: with no writer active any more the old snapshot is served |
| LineSplitting.DrainAppend | Sentient-AI-/backend/services/workers.py:160-171 | Draining two stretches one after the other gives the lines, the rest and the over-long flag of draining them at once |
| LineSplitting.DrainIsSplit | Sentient-AI-/backend/services/workers.py:161-175 | The loop's lines are the non-empty newline-terminated pieces before the first over-long one, and it stops early if and only if some piece is over the line cap |
| LineSplitting.LineSplitter.HandOver | Sentient-AI-/backend/services/workers.py:161-171 | The loop hands over the lines of the pending bytes and stops at an over-long one |
| LineSplitting.LineSplitter.Feed | Sentient-AI-/backend/services/workers.py:148-176 | One chunk keeps the state a function of the bytes fed so far; the answer is whether nothing is truncated; pending never exceeds the line cap while it is not |
| LineSplitting.LineSplitter.Finish | Sentient-AI-/backend/services/workers.py:178-184 | After the final flush the emitted lines and the truncated flag are a pure function of the stream and the two caps; without on_line the kept bytes are the first min(length, cap) |
| LineSplitting.Run | Sentient-AI-/backend/services/workers.py:148-184 | Any chunking of a stream, fed and finished, gives the same lines, flag and kept bytes |
| AccountLockouts.AccountLockout.Purge | Sentient-AI-/backend/services/auth.py:120-122 | A purge drops exactly the expired entries, and never one whose account is locked by the history |
| AccountLockouts.AccountLockout.SecondsRemaining | Sentient-AI-/backend/services/auth.py:124-133 | For an email the purged map answers what the whole event history defines: locked iff the latest run of failures with gaps under twice the duration reached the threshold and its last failure is younger than one duration |
| AccountLockouts.AccountLockout.RecordFailure | Sentient-AI-/backend/services/auth.py:135-152 | A failure reports a lock if and only if the history's latest run of its account, this failure included, reaches the threshold; the seconds remaining of every other account are unchanged, and all spellings of the email get the same answer |
| AccountLockouts.AccountLockout.Reset | Sentient-AI-/backend/services/auth.py:154-158 | A reset leaves its account, under every spelling of the email, with no seconds remaining, and changes no other account's |
| AccountLockouts.KeysAreAccounts | Sentient-AI-/backend/services/auth.py:115-118 | Two emails share a counter if and only if they are the same text when outer white space is dropped and ASCII letters are compared without case, character by character |
| AccountLockouts.EventIsOnlyFor | Sentient-AI-/backend/services/auth.py:115-158 | An event of one account changes no other account's answer at any time |
| AccountLockouts.CountKeeps | Sentient-AI-/backend/services/auth.py:135-152 | Counting a failure keeps every account's entry equal to what the history says of it |
| AccountLockouts.PurgeKeeps | Sentient-AI-/backend/services/auth.py:120-122 | A purge keeps every account's entry in agreement with the history |
| AccountLockouts.ThresholdTakesDuration | Sentient-AI-/backend/services/auth.py:124-152 | Any threshold failures in a row and the next one recorded while not locked span at least one duration |
| AccountLockouts.RateBound | Sentient-AI-/backend/services/auth.py:124-152 | With failures recorded only while not locked, any closed window of length T holds at most threshold * (floor(T / duration) + 1) of them |
| AccountLockouts.AccountRateBound | Sentient-AI-/backend/services/auth.py:124-152 | The same bound for one account inside a history of many accounts |
| BuildLogs.BuildLog.Append | Sentient-AI-/installer/bootstrap.py:1222-1231 | The deque stays the last min(total, maxlen) lines of the whole history |
| BuildLogs.BuildLog.Start | Sentient-AI-/installer/bootstrap.py:1151-1169 | A build is accepted only when idle or failed; a retry keeps the log and its numbering |
| BuildLogs.BuildLog.Status | Sentient-AI-/installer/bootstrap.py:1171-1186 | The answer is the history from max(since, oldest kept) on, at most 500 lines, and `next` is where it ends |
| BuildLogs.PollingDelivers | Sentient-AI-/installer/bootstrap.py:1171-1186 | A client passing each `next` back has received, in order and without repeats, exactly the lines before its position minus those evicted before it asked |
| BuildLogs.NoGap | Sentient-AI-/installer/bootstrap.py:1171-1186 | A client never more than maxlen lines behind when it polls has received every line before its position |
| BuildLogs.CatchesUp | Sentient-AI-/installer/bootstrap.py:1173-1181 | With no new lines, ceil(maxlen / 500) polls (at least one) bring any client to the end |
| KeyLines.ParseRendered | Sentient-AI-/installer/bootstrap.py:382-385 | A key line rendered with a new value parses to the same indent, export and name and the new value |
| KeyLineMeaning.ParsesExactlyWhen | Sentient-AI-/installer/bootstrap.py:382-385 | A line parses to these groups if and only if it is written as spaces or tabs, optionally `export` and at least one space or tab, the name, spaces or tabs, `=` and the value |
| EnvKeys.AcceptedIsRead | Sentient-AI-/installer/bootstrap.py:388-452 | Values both validators accept are read back unchanged and are reported as real |
| EnvMeaning.BareIsRead | Sentient-AI-/installer/bootstrap.py:438-444 | A value without " #", leading quote or outer white space reads as itself, with any white space around it |
| EnvMeaning.CommentIsCut | Sentient-AI-/installer/bootstrap.py:443-444 | So it does, when not empty, before white space, " #" and anything |
| EnvMeaning.CommentAlone | Sentient-AI-/installer/bootstrap.py:443-444 | With no value in front of it the comment itself is the value: stripping leaves no space before its "#" |
| EnvMeaning.QuotedIsRead | Sentient-AI-/installer/bootstrap.py:440-442 | A value between two quotes of a kind it does not contain reads as itself, whatever follows |
| EnvMeaning.UnclosedIsRead | Sentient-AI-/installer/bootstrap.py:440-442 | Without the second quote it reads to the end, white space cut there |
| KeyValidation.SecretKeyOkMeans | Sentient-AI-/installer/bootstrap.py:388-410 | A SECRET_KEY is accepted if and only if it has 32 to 512 characters, all printable ASCII but quotes, backtick, backslash, `$` and `#`, not made up of seven, and none of the four placeholders in any case |
| KeyValidation.SecretLooksReal | Sentient-AI-/installer/bootstrap.py:447-451 | A SECRET_KEY in the file looks real if and only if without outer white space it has at least 32 characters and no placeholder |
| KeyValidation.EncryptionKeyOkMeans | Sentient-AI-/installer/bootstrap.py:413-430 | An ENCRYPTION_KEY is accepted, and looks real, if and only if it is base64 text of at most 128 characters that decodes to 32 bytes once `-` and `_` are `+` and `/` |
| KeyValidation.Base64Means | Sentient-AI-/installer/bootstrap.py:381 | Base64 text is at least one letter of either alphabet and at most two `=` |
| EnvFiles.ReplaceKeys | Sentient-AI-/installer/bootstrap.py:474-499 | The loop over the parts, with its set of seen names, produces the rewritten text of the specification |
| EnvFiles.ReplacedSplits | Sentient-AI-/installer/bootstrap.py:488-499 | The parts of the rewritten text are the rewritten parts, followed by one part for each missing key, whatever the text ended with |
| EnvReading.EnvKeyStatus | Sentient-AI-/installer/bootstrap.py:455-471 | The loop reports for each key whether its last assignment, under universal newlines, looks real |
| EnvMeaning.StatusOfLine | Sentient-AI-/installer/bootstrap.py:455-471 | When the last line assigning a name is written with a raw value that reads as v, then v is what is read back, and the name is reported as set exactly when v looks real |
| EnvMeaning.ShortKeyIsNotSet | Sentient-AI-/installer/bootstrap.py:443-468 | A SECRET_KEY line with fewer than 32 characters before its comment is not reported as set, however long the comment |
| EnvReading.LastByParts | Sentient-AI-/installer/bootstrap.py:461-468 | The last assignment the reader sees is the last among the carriage-return pieces of the newline-separated parts |
| EnvReading.LastRewritten | Sentient-AI-/installer/bootstrap.py:479-494 | After rewriting the parts, a name reads as the written key unless a piece hidden behind a lone carriage return assigns it after the last key line |
| EnvRoundTrip.ReadBackRewritten | Sentient-AI-/installer/bootstrap.py:455-499 | For every text and accepted keys: exactly what is read back, the written key or the value of the hidden assignment |
| EnvRoundTrip.RoundTrip | Sentient-AI-/installer/bootstrap.py:455-499 | Both keys read back if and only if no hidden assignment gives another value |
| EnvRoundTrip.RoundTripWithoutLoneCr | Sentient-AI-/installer/bootstrap.py:455-499 | Without a lone carriage return in the text, both keys read back and both are reported as set |
| EnvRoundTrip.LoneCrHidesAssignment | Sentient-AI-/installer/bootstrap.py:479-494 | The hypothesis is needed: a concrete text whose old SECRET_KEY is read back whatever accepted keys are written |
| EnvRoundTrip.OtherLinesKept | Sentient-AI-/installer/bootstrap.py:474-499 | The lines that assign no key are all there, byte for byte and in order, and no others appear |
| EnvRoundTrip.RewritingTwice | Sentient-AI-/installer/bootstrap.py:474-499 | Rewriting twice equals rewriting once with the second pair |
| HostAllowlist.GlobIsParts | Sentient-AI-/backend/core/network_security.py:427-435 | The regular expression built by splitting a label on `*` and joining with [a-z0-9-]* accepts exactly what a character-by-character glob matcher accepts |
| HostAllowlist.HostMatchesByLabels | Sentient-AI-/backend/core/network_security.py:438-468 | An entry covers a host exactly as its labels say: equal labels; a label suffix for `*.suffix`; equal later labels and a glob match of the first; a `*` past the first label never matches |
| HostMeaning.HostOfIs | Sentient-AI-/backend/core/network_security.py:455 | A host is compared without its final dots and with its ASCII capitals made small |
| HostMeaning.EntryOfIs | Sentient-AI-/backend/core/network_security.py:456 | An entry is compared without its outer white space and with its ASCII capitals made small |
| HostMeaning.GlobLanguage | Sentient-AI-/backend/core/network_security.py:427-435 | A glob accepts exactly the texts made from it by replacing its stars, in order, by texts of small ASCII letters, digits and hyphens |
| HostMeaning.SpecificityAddsUp | Sentient-AI-/backend/core/network_security.py:472-475 | Specificity counts every character but the star once |
| HostSelection.MatchHostPattern | Sentient-AI-/backend/core/network_security.py:477-498 | Answers none iff no entry covers the host, and otherwise the entry that beats every other covering one: exact before wildcard, then more literal characters, then list order |
| HostSelection.WildIsBest | Sentient-AI-/backend/core/network_security.py:490-497 | Stable sorting by specificity and taking the first match is taking the best match |
| HostSelection.OrderIsIrrelevant | Sentient-AI-/backend/core/network_security.py:477-498 | Two lists with the same covering entries, in any order, give answers of the same kind and specificity; exact answers name the same host |
| DotSegments.SegmentsFindDots | Sentient-AI-/backend/core/network_security.py:513-529 | Splitting on both slashes and cutting at `;` finds a dot segment exactly where one starts in the text |
| DotSpellings.HasDotsMeans | Sentient-AI-/backend/core/network_security.py:525-529 | A text holds a dot segment if and only if it is something empty or ending in a slash of either kind, `.` or `..`, and something empty or beginning with a slash or `;` |
| DotSegments.HasDotSegment | Sentient-AI-/backend/core/network_security.py:513-535 | True if and only if a dot segment shows at some number of decoding rounds, however large, or the third round still changes the path |
| DotSegments.UnquoteChanges | Sentient-AI-/backend/core/network_security.py:530-532 | Decoding changes a text if and only if it holds a percent escape |
| DotSpellings.SpellingRoundTrip | Sentient-AI-/backend/core/network_security.py:530 | Decoding a fully percent-escaped ASCII text gives the text back, whichever hex digits are capitals |
| DotSpellings.HighBytesDecode | Sentient-AI-/backend/core/network_security.py:530 | A run of escapes above 127 is handed to the UTF-8 decoder as those bytes, in order |
| DotSegments.DotsStay | Sentient-AI-/backend/core/network_security.py:530-532 | A dot segment is never decoded away: one round of percent-decoding keeps one |
| DotSegments.RefusedExactlyWhen | Sentient-AI-/backend/core/network_security.py:513-535 | The refusal condition read off the path after two rounds of decoding: it holds a dot segment or still a percent escape |
| DotSpellings.DisguisedDotsShow | Sentient-AI-/backend/core/network_security.py:513-535 | A dot segment whose dots, slashes of both kinds and end are each written plainly, percent-escaped once or twice, in any case and between any texts, shows after two rounds of decoding |
| NetworkPolicy.FindPaths | Sentient-AI-/backend/core/network_security.py:625-647 | The branches and the loop over the user's hosts find the path list of the governing authority, and refuse a redirect host to anything but a plain GET |
| NetworkPolicy.CheckNetworkPolicy | Sentient-AI-/backend/core/network_security.py:600-666 | The decision and its reason with resolve off, in the order the checks are made; accepted if and only if the port parses, there are no credentials, scheme and port are allowed, no dot segment is found, and the path is a prefix listed for the host and something more; and then the path shows no dot segment at any number of decoding rounds |
| NetworkPolicy.TransportProblemMeans | Sentient-AI-/backend/core/network_security.py:538-560 | Which transport rule is reported: the first broken of port, credentials, scheme and port number |
| NetworkPolicy.DisguisedDotsRefused | Sentient-AI-/backend/core/network_security.py:610-618 | A URL whose path has a dot segment, with its dots and slashes escaped once or twice, is never accepted |
| NetworkPolicy.RedirectOnlyForPlainGet | Sentient-AI-/backend/core/network_security.py:636-647 | A host neither listed nor configured is reached only through a redirect entry covering it, by GET, known to carry no authorization |
| NetworkPolicy.ExtraHostsKeepStatic | Sentient-AI-/backend/core/network_security.py:626-634 | The user's hosts never change the decision for a host the static list covers |
| NetworkPolicy.ExtraHostsDecideOnlyThemselves | Sentient-AI-/backend/core/network_security.py:630-634 | If the user's hosts change a decision, the host is one of them exactly, and acceptance is under an instance path |
| NetworkPolicy.ExactEntryGoverns | Sentient-AI-/backend/core/network_security.py:477-488 | Where an exact entry covers the host, an exact entry for that host governs, never a wildcard |
| LikePattern.ThreeReplacesAreOneMap | Sentient-AI-/backend/services/memory.py:119-123 | The three sequential replaces equal one per-character escape map |
| LikePattern.SearchFindsTerm | Sentient-AI-/backend/services/memory.py:116-124 | For every non-blank term, text and character folding, the text matches the built pattern under LIKE with the backslash escape if and only if the trimmed term occurs in it |
| LikePattern.SearchFindsCore | Sentient-AI-/backend/services/memory.py:116-124 | The same for the query cut to what is between its outer white space, however that is found; a pattern is built if and only if something is left |
| LikePattern.ExactSearchIsContains | Sentient-AI-/backend/services/memory.py:116-124 | Without folding: if and only if the trimmed term is a substring |
| LikePattern.PatternIsValid | Sentient-AI-/backend/services/memory.py:116-124 | No pattern is built exactly for a blank or absent term, and a built one has no invalid escape |

## Left out

- Digests: HMAC-SHA256, SHA-256 and JSON canonicalisation are replaced by functions on stored values (JSON values, floats included, as their canonical text); the sha256 key of the lockout map by the normalised email itself.
- Sanitisation and redaction before an append: entries are the sanitised arguments.
- The database engine: only READ COMMITTED visibility and a row lock held until the transaction ends; SQLite's writer serialisation is not modelled separately.
- Deletions and updates of audit rows by other code: the committed table only grows.
- Fairness is an assumption about the scheduler and the two lock queues; their order is not modelled.
- The database's detection of row-lock cycles: it shows as a rollback, which may happen at any time.
- Environment facts in a capability report (filesystem, browser install): a cached report is the snapshots it was derived from.
- Creation of the installation row, decryption of its blobs, change listeners and `stamp_setup_if_legacy`: a writer commits one opaque configuration.
- Exceptions raised by `on_line`, and negative caps.
- `WorkerSlots`, `_tail`, subprocesses and threads of the worker runner.
- Time read twice: the lockout methods take one clock reading that never goes back, in exact reals.
- The login route's gap between asking seconds_remaining and recording the failure: the rate bound is for failures recorded at instants when the account is not locked.
- Carriage-return and ANSI cleaning of log lines, elapsed time and error text: the build log takes cleaned lines.
- The problem texts of the key validators: only whether there is one. Strict base64 decoding is a parameter giving the decoded length.
- Reading the `.env` file with undecodable bytes, backups and atomic replacement: text in, text out. Both keys are always given, as the key writer does.
- Unicode: lower case is that of ASCII letters, and white space that of str.isspace.
- UTF-8 decoding of percent escapes above 127: a parameter, taken to yield at most one character per byte where lengths matter.
- URL parsing, IDNA normalisation of configured hosts and upper-casing of the method: parameters of the policy decision.
- DNS resolution, address checks, WebSocket policy and dialling.
- LIKE with an escape before any other character: the standard's error is the predicate ValidPattern, not an outcome of Like.
- HTTP routes, JWT, connectors, agent runtime, frontend, migrations: plumbing or declarations.
