# Kova: a model of its ledger, sessions, gateway and money, with proofs

Kova is a set of Rust services over MySQL, Redis and Kafka. This project models the parts of
it that make claims about whole runs and proves those claims.

- **Ledger** (`Posting`, `PostingProofs`, `PostingService`, `Balance`, `Ledger`, `Idempotency`,
  `Decimals`). `post_entry` is a transition system: any number of calls, each a sequence of SQL
  statements that can fail, wait for a key lock, commit, commit without being told so, or crash.
  The class `PostingService.LedgerDatabase` runs the same program statement by statement, and its
  contract says that whatever the other calls do in between, what happened is a run of that system.
- **Statements** (`Base64`, `Cursor`, `Statement`, `Paging`, `PagingEdges`, `StatementRequests`,
  `StatementBalance`, `System`).
  The query builder, the limit-plus-one page, the packed base64 cursor, and the client that follows
  `next_cursor`, over a fixed ledger, over any growing one, and over the ledger that a run of postings
  produces, said over the fields of the request; what the client receives adds up to the balance.
- **Outbox** (`Outbox`, `OutboxProofs`, `OutboxOrder`, `OutboxTimes`, `OutboxWorker`, `Delivery`).
  Any number of workers with row locks, sends that may be delivered although reported failed, aborts,
  lost workers and commits that are not acknowledged; then one worker in order; then the code itself; and postings and workers
  together on one database.
- **Reconciliation** (`Reconciliation`). The nested loops over accounts and currencies with postings
  between any two statements; what the returned count means; when a pass runs at all.
- **Sessions** (`Sessions`, `SessionStatements`, `SessionService`, `SessionHistory`). Refresh-token rotation with
  reuse detection, first with every operation as one step, then split into its statements under any
  interleaving, then as the methods of the service, which are proved to be runs of the statements; and
  how long a token lives and exactly what ends it.
- **Gateway** (`CircuitBreaker`, `RateLimit`). The circuit breaker under overlapping requests, and
  the Redis counter per tier, identifier and minute.
- **Values** (`Money`, `Otp`, `Arithmetic`, `Common`). Banker's rounding, and the rejection-sampled
  one-time code.

Amounts in tables are integer ten-thousandths, times are integer microseconds (ledger), milliseconds
(limiter), nanoseconds (breaker) or seconds (sessions). A string key is equal to another when the
column says so. SHA-256 is represented by the bytes that were hashed, fresh identifiers and random
tokens by values not used before.

## What the proofs found

Where the code and its comments disagree the model follows the code.

- A retry that writes the same amount with another number of decimals is refused as a different
  payload (`Idempotency.RescaledRetryIsDifferentPayload`). A row written before the payload hash
  existed makes every retry of its key a database error (`PostingService.RetryOfCommittedRow`). A call
  answered with a database error has its entry in the table exactly if its commit took effect and was
  reported as failed (`PostingProofs.FailedYetCommittedIff`).
- A cursor for a time before 1970 with a fraction of a second stands for the start of 1970, and no
  other time of the column is affected (`PagingEdges.UnfaithfulIsFractionBefore1970`). Following the
  cursors of a fixed table returns a row twice if and only if some page but the last ends in such a row
  (`PagingEdges.RepeatsIffUnfaithfulEdge`). `post_entry` stamps the current time, so only rows written
  by something else can be dated so. Nothing is ever skipped: a
  traversal that ends has returned every matching entry its first call could see, over any growing ledger.
- The account service encodes the ledger's cursor a second time
  (services/kova-account/src/handlers/statement.rs:64-67), and the ledger refuses the result. Its ledger
  client is still a stub that returns no cursor, so this shows once a real client is wired in.
- The outbox worker backs off 2, 4, 8, 16 and 30 seconds; its comment says 1, 2, 4.
- The end-of-day pass counts ordinary activity since the previous snapshot as a balance mismatch:
  one valid posting makes both its accounts mismatches (`Reconciliation.LedgerDatabase.PassPostPass`).
  The hourly tick falls into its window only if the service was started between minute 55 and minute 5,
  and otherwise never.
- "Atomically revoke old session" is not atomic. Two completed rotations of one token both issue a pair
  if and only if both read the session live, which takes overlapping calls; each login keeps at most one
  live session at every point of a run if and only if no rotation inserts while another session of the
  login is live.
- A revoke-all, and the revocation of all sessions on a reused token, need not last. A user who does not
  log in again stays signed out for the rest of the run if and only if no rotation that had read one of
  the user's sessions live before it issues its pair after it.
- The "sliding window" limiter is a fixed window. What any sixty seconds can admit is the limit for each
  minute whose scripts can run in them, and that is attained: where keys and scripts share the minute,
  the limit itself is a bound exactly from a full minute on, and twice the limit otherwise; where a script
  may run up to a second past its minute, up to three times the limit gets in.
- The bound on probes holds, whatever requests come in addition, if and only if no success completes
  after the opening: the success of an old request closes the breaker in the middle of its thirty
  seconds. A probe that never completes leaves it half open for ever.
- One outbox worker first publishes in the order of creation in every run if and only if no row becomes
  visible after a row created later than it.

## Model

| member | source | states |
|---|---|---|
| PostingProofs.IdempotenceOverRuns | services/kova-ledger/src/posting.rs:81-173 | In every interleaving of calls, failures and crashes: one committed entry per key; every success names the committed entry with its key, time and payload hash; all successes of a key agree; at most one says it was not idempotent |
| PostingProofs.ConflictNeverSucceeds | services/kova-ledger/src/posting.rs:151-154 | A call whose payload hash differs from that of the committed row with its key never succeeds, in any run |
| PostingProofs.EntryIffCommitted | services/kova-ledger/src/posting.rs:104-134 | In every run, the entry of a call is in the table exactly if the call was told it created it or its commit was applied and reported as failed |
| PostingProofs.FailedYetCommittedIff | services/kova-ledger/src/posting.rs:127-127 | In every run, a call answered with a database error has its entry in the table exactly if its commit was applied and reported as failed |
| PostingProofs.CommittedAsPosted | services/kova-ledger/src/posting.rs:81-127 | In every run the entry with a call's id and the outbox row that names it are that call's posting field by field: both accounts, amount, currency, key, payment id, metadata, time and hash; topic, key, currency and amount text |
| PostingProofs.WaiterFollowsHolder | services/kova-ledger/src/posting.rs:81-173 | A call whose INSERT waits for the holder of its key does nothing meanwhile; after the holder's commit it answers with the holder's entry or refuses another payload; if the commit fails it takes the key |
| PostingProofs.CrashFreesKey | services/kova-ledger/src/posting.rs:81-134 | A holder that crashes before its commit writes nothing, and the waiting call takes the key |
| PostingProofs.GuardsMean | services/kova-ledger/src/posting.rs:49-64 | Refused are exactly amounts of zero or less, equal accounts and currencies other than NGN, GBP, USD and KES; stored are exactly amounts that are positive and below 10^19 as ten-thousandths |
| PostingProofs.EntryOutboxBijection | services/kova-ledger/src/posting.rs:104-134 | After every run, entries and outbox rows correspond one to one with equal entry id, key and currency, and the entry holds the amount written in the row: times 10^4 exactly for at most four decimals, else the nearest, halves away from zero; entries are valid and never change |
| PostingProofs.ConservationOverRuns | services/kova-ledger/src/balance.rs:40-60 | After every run of posts, replays, rejections and crashes the balances of all accounts in a currency sum to zero |
| PostingProofs.StepMovesOnePosting | services/kova-ledger/src/posting.rs:83-134 | A step leaves every balance alone or is one commit that moves the amount posted, as ten-thousandths, from its debit to its credit account, in its currency only |
| PostingProofs.RunKeepsInv | services/kova-ledger/src/posting.rs:43-174 | The invariant behind these, kept by every event of every run |
| PostingProofs.RunAppends | services/kova-ledger/migrations/0001_initial_schema.up.sql:40-47 | A run only ever appends to both tables |
| PostingService.SequentialMeaning | services/kova-ledger/src/posting.rs:43-174 | What an undisturbed call answers in each case, and that it writes both tables exactly when it created the entry, one row each with all its parameters |
| PostingService.RetryReturnsOriginal | services/kova-ledger/src/posting.rs:136-167 | After a success, an undisturbed retry with the same payload returns the same entry flagged idempotent, one with another payload is refused, and neither writes |
| PostingService.RetryOfCommittedRow | services/kova-ledger/src/posting.rs:136-167 | What an undisturbed call with the key of any committed row answers, whoever wrote the row: its entry, a mismatch, or a database error if it has no hash; it writes nothing |
| PostingService.LedgerDatabase.PostEntry | services/kova-ledger/src/posting.rs:43-174 | Statement by statement among other calls: the outcome is a run of the transition system; the argument errors are exactly those of the guards; a failed INSERT is a database error; a created entry means that no statement failed and the commit was acknowledged |
| PostingService.LedgerDatabase.Execute | services/kova-ledger/src/posting.rs:81-173 | Each statement changes the tables as the transition system says |
| Idempotency.PayloadHashDecidesPosting | services/kova-ledger/src/idempotency.rs:21-33 | Two postings have the same hash exactly when accounts, currency and the amount with its number of decimals agree |
| Idempotency.RescaledRetryIsDifferentPayload | services/kova-ledger/src/idempotency.rs:30-30 | The same amount with one more decimal hashes differently although the column stores the same number |
| Idempotency.ComputePayloadHash | services/kova-ledger/src/idempotency.rs:21-33 | The four updates feed exactly the preimage that the previous two speak of |
| Decimals.TextInjective | services/kova-ledger/src/idempotency.rs:30-30 | The decimal text determines mantissa and scale |
| Decimals.TextReads | services/kova-ledger/src/idempotency.rs:30-30 | The text is the number as it is written: sign, digits of the mantissa, the point in front of the last `scale` of them, no leading zero but one before the point |
| Decimals.StoredIsAmount | services/kova-ledger/src/posting.rs:94-94 | The column keeps the amount: times 10^4 exactly if it has at most four decimals, else the nearest ten-thousandth, halves away from zero |
| Decimals.AmountUnique | services/kova-ledger/src/posting.rs:94-94 | That determines what is stored |
| Idempotency.HashedBytes | services/kova-ledger/src/idempotency.rs:21-33 | The preimage byte by byte: 16 of the debit id, 16 of the credit id, the characters of the amount's text, three of the currency |
| Balance.LiveBalanceIsNet | services/kova-ledger/src/reconciliation.rs:158-181 | The aggregate query (NULL-skipping sums, coalesced, cast to the column) is the signed sum over the entries if that has at most nineteen digits, else plus or minus 9999999999999999999 |
| Balance.GetBalanceIsNet | services/kova-ledger/src/balance.rs:28-71 | The answer is an error exactly for an unsupported currency, else the signed sum, cut to nineteen digits, the number of entries that touch the account, and a time unless there are none |
| Balance.MaxCreatedAt | services/kova-ledger/src/balance.rs:28-71 | The latest matching time: absent exactly when no row matches, else a matching row's time that none exceeds |
| Balance.NetSplit | services/kova-ledger/src/balance.rs:40-60 | The fold over a prefix and the fold over the rest add up |
| Balance.TotalIsCrossing | services/kova-ledger/src/balance.rs:40-60 | The total of any set of accounts is what the entries carried across its boundary (sum over accounts exchanged with sum over entries) |
| Balance.Conservation | services/kova-ledger/src/balance.rs:40-60 | The balances of a closed set of accounts sum to zero |
| Balance.EntryMovesTwoBalances | services/kova-ledger/src/posting.rs:49-58 | A valid entry changes exactly two balances, by plus and minus its amount |
| Base64.DecodeEncode | services/kova-ledger/src/statement.rs:37-43 | Decoding an encoding gives the bytes back (section 4 of RFC 4648) |
| Base64.EncodeDecode | services/kova-ledger/src/statement.rs:46-50 | Every accepted text is the encoding of what it decodes to |
| Base64.EncodeMeans | services/kova-ledger/src/statement.rs:37-43 | Three bytes are a 24-bit number whose four digits to base 64 index the alphabet, with missing bytes as zero and '=' for their characters (section 4 of RFC 4648) |
| Cursor.EncodeCursor | services/kova-ledger/src/statement.rs:37-43 | Copying into the 24-byte buffer and encoding yields the cursor text of the position |
| Cursor.DecodeCursor | services/kova-ledger/src/statement.rs:46-57 | The decoder accepts and returns exactly what the parse of the text says, error cases included |
| Cursor.CursorRoundTrip | services/kova-ledger/src/statement.rs:37-57 | Decoding inverts encoding for every i64 time and every 16-byte id |
| Cursor.CursorIsCanonical | services/kova-ledger/src/statement.rs:37-57 | A text is accepted if and only if it is the cursor of some position, and of that one only |
| Cursor.CursorBytes | services/kova-ledger/src/statement.rs:37-43 | The cursor decodes to 24 bytes: the microseconds in two's complement, most significant byte first, then the id |
| Cursor.ReencodedCursorIsRefused | services/kova-account/src/handlers/statement.rs:64-67 | A cursor encoded a second time is refused |
| Cursor.MicrosToNaiveExact | services/kova-ledger/src/statement.rs:60-66 | The seconds and microseconds split gives the time back if and only if it is in range and from 1970 on or a whole second; otherwise it gives 1970 |
| Statement.BuildQuery | services/kova-ledger/src/statement.rs:94-135 | The builder grown by pushes holds exactly the conditions of the filters present |
| Paging.ConditionsMeanMatches | services/kova-ledger/src/statement.rs:94-135 | An entry meets the built conditions exactly if it matches the filters and lies below the cursor in (created_at, id) |
| Statement.FillPage | services/kova-ledger/src/statement.rs:141-184 | The loop cuts the page of at most limit rows, has_more says whether a row is left, and the cursor is that of the last row of the page |
| Statement.GetStatement | services/kova-ledger/src/statement.rs:75-185 | The whole operation answers the page of the ordered matching rows below the cursor, or the argument error |
| Statement.BeforeIsStrictOrder | services/kova-ledger/src/statement.rs:121-135 | The keyset predicate is a strict total order on (created_at, id) |
| Paging.SelectAnswers | services/kova-ledger/src/statement.rs:94-139 | The query returns exactly the matching rows below the bound, strictly descending |
| Paging.AnswersAgree | services/kova-ledger/src/statement.rs:131-135 | There is only one such answer: two descending lists with the same rows are equal |
| Paging.ServePage | services/kova-ledger/src/server.rs:111-168 | One call, for the query made of the request: the first limit rows below the cursor; has_more if and only if more remain, and if and only if a cursor is returned, which stands for the last row |
| Paging.HasMoreMeansUnseen | services/kova-ledger/src/statement.rs:141-184 | has_more holds exactly when a matching entry below the cursor was not on the page |
| Paging.PagingGrowingLedger | services/kova-ledger/src/statement.rs:121-178 | Over any growing ledger positions strictly decrease over the whole traversal, every row is a matching one, and if it ends all matching entries of the first table were returned |
| Paging.PagingFixedLedger | services/kova-ledger/src/statement.rs:84-184 | On a fixed ledger the traversal ends after exactly max(1, ceil(n/limit)) calls with exactly the rows of the request's query, newest first |
| Paging.UnfaithfulCursorRestarts | services/kova-ledger/src/statement.rs:60-66 | A cursor whose time is not carried faithfully serves what a cursor at 1970 would |
| Paging.PreEpochPagingRepeats | services/kova-ledger/src/statement.rs:60-66 | An instance: two entries just before 1970 and pages of one row, where the same page comes back for ever |
| PagingEdges.UnfaithfulIsFractionBefore1970 | services/kova-ledger/src/statement.rs:60-66 | Of the times the column holds, the cursor fails to carry exactly those before 1970 with a fraction of a second |
| PagingEdges.ServeAny | services/kova-ledger/src/statement.rs:75-185 | One call on any table, whether or not its times are carried: the first rows under what the cursor means, and a cursor for the last of them if and only if more remain |
| PagingEdges.NextPageStartsOver | services/kova-ledger/src/statement.rs:60-66 | After a page that ends in a row the cursor does not carry, the bound is 1970 with that row's id, the row is again among those to come, and the next page starts at it or above it |
| PagingEdges.RepeatsIffUnfaithfulEdge | services/kova-ledger/src/statement.rs:121-184 | On any fixed table, filter and limit: n + 1 pages return no row twice if and only if each of the first n that is not the last ends in a row whose time the cursor carries |
| PagingEdges.GrowingLedgerComplete | services/kova-ledger/src/statement.rs:121-178 | Over any growing ledger with times the column holds, carried by the cursor or not: a traversal that ends has returned every matching entry of the first table |
| StatementRequests.QueryMeansRequest | services/kova-ledger/src/server.rs:111-142 | The query made of a request selects the entries it asks for: its account on either side, its currency unless empty, not before its from, not after its to; and the limit is 20 if it gives none |
| StatementRequests.ServeRefuses | services/kova-ledger/src/server.rs:111-142 | A call is refused, as an invalid argument, if and only if the account is not sixteen bytes, the limit is over 100, or the cursor is not empty and not the cursor of any position |
| StatementRequests.OnePage | services/kova-ledger/src/server.rs:111-168 | One call over the request's fields: rows that show entries asked for below the cursor, newest first, at most the limit; has_more if and only if one is left out, and then the page is full, everything left out is older than its last row, and the cursor is that row's |
| StatementRequests.FixedTableAnswersRequest | services/kova-ledger/src/statement.rs:75-185 | Following the cursors on a fixed table, over the request's fields: k calls return the min(n, k * limit) newest of the n entries asked for, each once, field by field, newest first; ended if and only if all were returned, after max(1, ceil(n / limit)) calls |
| StatementRequests.GrowingTableAnswersRequest | services/kova-ledger/src/statement.rs:75-185 | Over growing tables: rows that show entries asked for, newest first, each once; and once ended, every entry asked for that the first call could see |
| StatementBalance.RowsAddUp | services/kova-ledger/src/statement.rs:94-139 | The rows of an account's statement in a currency sum, with sign, to the fold behind its balance, and are as many as its entry count |
| StatementBalance.StatementAddsUpToBalance | services/kova-ledger/src/balance.rs:28-71 | On a fixed ledger the rows a client gets by following the cursors to the end determine what get_balance answers: signed sum, number of rows, time of the first one |
| System.PagingWhilePosting | services/kova-ledger/src/statement.rs:75-185 | While any postings run, fail and crash between the page calls: rows that show committed entries the request asks for, newest first, none twice; and once ended, every entry asked for that was committed before the first call |
| System.PagingWhilePostingIsComplete | services/kova-ledger/src/statement.rs:75-185 | The completeness half needs no more of the times than that the column holds them |
| OutboxProofs.PublicationAccounting | services/kova-ledger/src/outbox.rs:98-143 | In every run with any number of workers: a row's publications are its aborted batches that published it, plus the open batch that did, plus one if it is marked; no two open batches share a row; a marked row was published |
| OutboxProofs.MarkedRowIsFinal | services/kova-ledger/src/outbox.rs:104-142 | A marked row stays marked and is never published again |
| OutboxProofs.FailureReleasesRows | services/kova-ledger/src/outbox.rs:98-143 | A batch that ends without its commit, for whatever reason, marks nothing and leaves all its rows, sent or not, to the next query |
| OutboxProofs.HistoryTells | services/kova-ledger/src/outbox.rs:120-142 | A row's publications are exactly the sends of it that arrived, reported or not, and it is marked if and only if a commit of its batch took effect, reported or not |
| OutboxProofs.RunKeepsInv | services/kova-ledger/src/outbox.rs:98-143 | The invariant behind these, kept by every event of every run |
| OutboxOrder.SelectionIsNext | services/kova-ledger/src/outbox.rs:104-113 | With no batch open the locking query has one answer: the next ten rows, or what is left |
| OutboxOrder.OneWorkerPublishesInOrder | services/kova-ledger/src/outbox.rs:98-143 | One worker, rows visible in creation order: published and marked rows are always the oldest ones and first publications happen in creation order, whatever fails |
| OutboxOrder.LateRowIsPublishedLast | services/kova-ledger/src/outbox.rs:104-113 | An instance: a row that becomes visible after all earlier rows were marked is published last, however old it is |
| OutboxTimes.FirstsInOrderIff | services/kova-ledger/src/outbox.rs:98-143 | For any creation times in the order the rows become visible: all runs of one worker, whatever fails, first publish in the order of creation if and only if no row becomes visible after one created later |
| OutboxTimes.RunKeepsOrdered | services/kova-ledger/src/outbox.rs:104-143 | The invariant behind it: what was published is no newer than what was not |
| Delivery.EveryEntryIsDelivered | services/kova-ledger/src/posting.rs:104-127 | In every run of any postings and workers on one database: every publication announces a committed entry, every entry committed since the start has exactly one outbox row, and that row's publications are accounted for |
| OutboxWorker.OutboxDatabase.SelectPending | services/kova-ledger/src/outbox.rs:104-113 | The query loop yields an answer the locking query may give |
| OutboxWorker.OutboxDatabase.ProcessBatch | services/kova-ledger/src/outbox.rs:98-143 | Among other workers the batch is a run of the transition system, leaves nothing locked, returns the number of rows it marked, and 0 exactly when the query answered and nothing was available; it succeeds if and only if no statement failed, every send was acknowledged and the commit too |
| OutboxWorker.OutboxDatabase.Drain | services/kova-ledger/src/outbox.rs:71-82 | With nothing locked, no failures and no new rows, any pending rows are published once each, older ones first, in ceil(pending/10) batches, after which nothing is pending |
| OutboxWorker.RunWorker | services/kova-ledger/src/outbox.rs:67-95 | After every batch the worker sleeps as its history of trailing errors says |
| OutboxWorker.SleepMeans | services/kova-ledger/src/outbox.rs:67-95 | A tenth of a second after an empty batch, none after work; 2, 4, 8 and 16 seconds after one to four failures in a row, 30 from the fifth on |
| Reconciliation.ComparisonIsDelta | services/kova-ledger/src/reconciliation.rs:110-132 | Two live balances differ by the signed sum of the entries committed between their reads |
| Reconciliation.SnapshotDelta | services/kova-ledger/src/reconciliation.rs:110-139 | A pair is a mismatch exactly if the entries between the read behind its latest snapshot and this read change its balance |
| Reconciliation.LedgerDatabase.CheckPair | services/kova-ledger/src/reconciliation.rs:110-151 | Read, compare, insert a snapshot: one more visited pair, one more mismatch exactly if its balance changed |
| Reconciliation.LedgerDatabase.ReconciliationPass | services/kova-ledger/src/reconciliation.rs:77-155 | With postings between any statements: every account with an entry created that UTC day is visited in the currency of each of its entries, once each and no other account, each visit is recorded by a snapshot of its read, and the count is the number of visits whose balance changed since their previous snapshot |
| Reconciliation.LedgerDatabase.PassTwice | services/kova-ledger/src/reconciliation.rs:77-155 | A second pass that starts on the same day returns 0 if nothing is posted from the start of the first to the end of the second, however much time passes during and between them |
| Reconciliation.LedgerDatabase.PassPostPass | services/kova-ledger/src/reconciliation.rs:77-155 | With one posting of any date between the passes, the second pass counts each of its accounts that had a posting on that day and one in its currency before, and exactly these two if that goes for both |
| Reconciliation.SecondPassSees | services/kova-ledger/src/reconciliation.rs:110-139 | Why: of the known pairs the second pass visits, exactly those the posting touched differ from their snapshots |
| Reconciliation.MismatchIsActivity | services/kova-ledger/src/reconciliation.rs:158-181 | One valid posting moves the live balances of its two accounts by its amount while all balances sum to zero |
| Reconciliation.LatestAtLeast | services/kova-ledger/src/reconciliation.rs:113-123 | With increasing snapshot times the query returns no snapshot older than a given one of the pair |
| Reconciliation.PassEverRunsIff | services/kova-ledger/src/reconciliation.rs:37-50 | Some hourly tick falls into the window if and only if the start minute is at least 55 or at most 5 |
| Reconciliation.WindowMeans | services/kova-ledger/src/reconciliation.rs:37-50 | The window is from five minutes before midnight UTC until six minutes after |
| Sessions.RunKeepsInv | services/kova-auth/src/tokens.rs:75-183 | With every operation one step, all runs keep: distinct tokens, a replaced session is revoked and replaced once, and only the newest session of a login may be live |
| Sessions.OneLiveSessionPerLogin | services/kova-auth/src/tokens.rs:120-183 | After every run each login has at most one live session, its newest, which nothing replaced |
| Sessions.RevocationIsPermanent | services/kova-auth/src/handlers/device.rs:68-153 | No operation makes a revoked session live again or changes anything else of a row |
| Sessions.TokenRotatesOnce | services/kova-auth/src/tokens.rs:120-183 | Over a whole run a token is exchanged for a pair at most once |
| Sessions.RotationKeepsLiveCount | services/kova-auth/src/tokens.rs:157-182 | A successful rotation keeps every user's number of live sessions, a failed one never raises it |
| Sessions.ReuseLeavesNone | services/kova-auth/src/tokens.rs:157-169 | Presenting a revoked, unexpired token leaves its user without a live session and everyone else alone |
| Sessions.RotatedTokenIsATripwire | services/kova-auth/src/tokens.rs:120-169 | Over a run, a rotated token presented again signs its user out everywhere before it expires, and does nothing after |
| SessionHistory.IssuedRow | services/kova-auth/src/tokens.rs:75-115 | An issued pair is a new live row with the user, token and token id, expiring 2592000 seconds later; a rotation issues one only for the user of a live, unexpired session with the token presented |
| SessionHistory.RevokedIffEnded | services/kova-auth/src/tokens.rs:120-183 | In every run a session is revoked if and only if an operation ended it: its unexpired token was presented, or that of an ended session of its user, or its user deleted it, revoked all, or logged out with its token id; nothing else of it changes |
| SessionHistory.TokenLifetime | services/kova-auth/src/tokens.rs:120-183 | In every run a token issued at t and presented later is exchanged for a pair if and only if it is before t + 2592000 and nothing ended its session; after that no session is found, before that an ended one is a reuse |
| SessionHistory.UnknownToken | services/kova-auth/src/tokens.rs:128-146 | A token nobody was issued finds no session and changes nothing |
| SessionHistory.DeleteAnswers | services/kova-auth/src/handlers/device.rs:48-73 | Deleting succeeds exactly for a live session of the user, and otherwise changes nothing |
| SessionHistory.LogoutEndsLogin | services/kova-auth/src/handlers/device.rs:139-153 | Logging out with the token id of a login revokes it, and its refresh token is never exchanged again |
| SessionHistory.RevokedIffStatementEnded | services/kova-auth/src/tokens.rs:128-182 | The same under any interleaving of statements, over the UPDATEs that hit the session |
| SessionHistory.SelectFindsIff | services/kova-auth/src/tokens.rs:128-146 | Under any interleaving the SELECT for a session's token finds it if and only if it has not expired, and finds it live if and only if no statement ended it before |
| SessionHistory.InsertedRow | services/kova-auth/src/tokens.rs:75-115 | Under any interleaving only a login or the INSERT of a rotation adds a row, live and expiring 2592000 seconds later |
| SessionStatements.RevokedForever | services/kova-auth/src/tokens.rs:128-182 | Under every interleaving of the statements a revoked session stays revoked |
| SessionStatements.PairNeedsLiveSelect | services/kova-auth/src/tokens.rs:128-182 | A pair is issued only by a call whose SELECT found the session live, before any point where it was revoked |
| SessionStatements.LiveSelectIssues | services/kova-auth/src/tokens.rs:171-182 | A call whose SELECT found it live and that runs to its end issues a pair whatever the others do |
| SessionStatements.IssuesIffFoundLive | services/kova-auth/src/tokens.rs:128-182 | A call that completes issues a pair if and only if its SELECT found the session live |
| SessionStatements.BothIssueIffBothFoundLive | services/kova-auth/src/tokens.rs:128-182 | Two calls that complete on one session both issue a pair if and only if both read it live, and then each read it before the other revoked it |
| SessionStatements.BothIssueOnlyIfOverlapping | services/kova-auth/src/tokens.rs:128-182 | Two calls replace one session only if each read it before the other revoked it |
| SessionStatements.OneTokenTwoPairs | services/kova-auth/src/tokens.rs:171-182 | Two overlapping rotations of any live token do issue two live pairs for one login |
| SessionStatements.InvIffReplacedOnce | services/kova-auth/src/tokens.rs:128-182 | Of the rules of the atomic step only one has to be watched under interleaving: if no session was replaced twice, all of them hold |
| SessionStatements.IssueKeepsTipsIff | services/kova-auth/src/tokens.rs:93-107 | An INSERT of a rotation keeps the rule that only the newest session of a login may be live if and only if no session of that login is live when it runs |
| SessionStatements.AlwaysOneLiveIff | services/kova-auth/src/tokens.rs:128-182 | Under every interleaving each login has at most one live session, its newest, at every point of a run if and only if no rotation inserts while a session of the login it continues is live |
| SessionStatements.ConditionalUpdateSuffices | services/kova-auth/src/tokens.rs:171-177 | They hold in every run in which no rotation's UPDATE hits an already revoked session |
| SessionStatements.RevokeAllLeavesOverlapping | services/kova-auth/src/handlers/device.rs:111-117 | A session live after its user was signed out, by a revoke-all or by a reused token, was inserted after it, and there was a login of the user or an overlapping rotation since; one that replaces an older session comes from a rotation that had read its row before |
| SessionStatements.RotationSurvivesRevokeAll | services/kova-auth/src/tokens.rs:157-182 | Such a rotation does survive: read live before the user is signed out either way and completed after it, it leaves the user with a live session although there was none right after |
| SessionStatements.TracesBack | services/kova-auth/src/tokens.rs:157-182 | Every session inserted after a user was signed out goes back, replacement by replacement, to a login after it or to an overlapping rotation |
| SessionStatements.SignOutHoldsIff | services/kova-auth/src/tokens.rs:157-182 | A signed-out user who does not log in again has no live session for the rest of the run if and only if no rotation that read one of the user's sessions live before it issues a pair after it |
| SessionStatements.BackToBackIsAtomic | services/kova-auth/src/tokens.rs:120-183 | Run back to back, the three statements of a rotation are the atomic step |
| SessionStatements.DeleteBackToBackIsAtomic | services/kova-auth/src/handlers/device.rs:48-73 | So are the two statements of a session deletion |
| SessionService.SessionDatabase.IssueTokenPair | services/kova-auth/src/tokens.rs:75-115 | Appends one live session with the user, token and token id given, expiring 2592000 seconds from now, and changes no other row |
| SessionService.SessionDatabase.Execute | services/kova-auth/src/tokens.rs:128-182 | Each statement changes the table and the calls under way as the statement-level system says |
| SessionService.FinalIsRun | services/kova-auth/src/tokens.rs:120-183 | Any statements from a state with no call under way make a run, so the theorems about runs apply |
| SessionService.SessionDatabase.RotateRefreshToken | services/kova-auth/src/tokens.rs:120-183 | With other requests' statements in between and any statement failing before or after it took effect: what happened is a run of the statement-level system; the answer is decided by the row as read, a revoked row revokes the whole user, a live one is revoked and replaced, the first failure ends the call; undisturbed it is the atomic step |
| SessionService.SessionDatabase.SessionDelete | services/kova-auth/src/handlers/device.rs:40-73 | Only the owner's live session is revoked, otherwise nothing changes; a failing statement ends the call; what happened is a run of the statement-level system |
| SessionService.SessionDatabase.SessionsRevokeAll | services/kova-auth/src/handlers/device.rs:93-117 | Leaves the user without a live session and other users' rows alone |
| SessionService.SessionDatabase.Logout | services/kova-auth/src/handlers/device.rs:139-153 | Revokes the user's sessions with the access token's id and no other row |
| CircuitBreaker.ClosedCountsFailures | services/kova-gateway/src/middleware/circuit_breaker.rs:75-104 | Closed exactly while fewer than five failures completed since the last success, and then holding their number |
| CircuitBreaker.AdmittedIff | services/kova-gateway/src/middleware/circuit_breaker.rs:58-104 | In every interleaving a request gets through if and only if fewer than five failures completed since the last success, or the last opening (the fifth failure, or one while a probe is out) is at least 30000000000 ns ago with no success and no probe since |
| CircuitBreaker.ProbeBound | services/kova-gateway/src/middleware/circuit_breaker.rs:58-104 | From an opening on and until a success completes, at most one admission per full thirty seconds, late completions included |
| CircuitBreaker.ProbesSpaced | services/kova-gateway/src/middleware/circuit_breaker.rs:58-104 | Two such admissions are at least thirty seconds apart |
| CircuitBreaker.ProbeBoundIsMet | services/kova-gateway/src/middleware/circuit_breaker.rs:58-104 | For every n there is a possible run (no completion without an admitted request) that reaches the bound with n probes |
| CircuitBreaker.OneProbePerEpisode | services/kova-gateway/src/middleware/circuit_breaker.rs:62-71 | While half open, exactly one request was admitted since the breaker was last open, the one that made it half open |
| CircuitBreaker.HalfOpenUntilCompletion | services/kova-gateway/src/middleware/circuit_breaker.rs:70-71 | Without a completion a half-open breaker rejects every request, however much time passes |
| CircuitBreaker.LateSuccessEndsTheBound | services/kova-gateway/src/middleware/circuit_breaker.rs:75-78 | An instance: of six requests admitted at once five fail, the sixth succeeds, and n requests get in at the moment the breaker opened |
| CircuitBreaker.BoundIffNoSuccess | services/kova-gateway/src/middleware/circuit_breaker.rs:58-104 | For any possible history from an opening on: the bound holds for it and for every possible history with more attempts if and only if no success completes after the opening |
| CircuitBreaker.CircuitBreaker.AllowRequest | services/kova-gateway/src/middleware/circuit_breaker.rs:58-73 | Admits exactly the requests that AdmittedIff says get through, among them every one with fewer than five failures since the last success, and records the attempt |
| CircuitBreaker.CircuitBreaker.OnFailure | services/kova-gateway/src/middleware/circuit_breaker.rs:80-104 | Keeps the field equal to the state the whole history leads to |
| CircuitBreaker.CircuitBreaker.Call | services/kova-gateway/src/middleware/circuit_breaker.rs:175-195 | With fewer than five failures since the last success the upstream's answer is passed on; otherwise exactly if the request gets through. It adds its attempt and, only if admitted and answered, its own completion: a failure for a server error, else a success; a failing inner service adds none |
| RateLimit.KeyInjective | services/kova-gateway/src/middleware/rate_limit.rs:168-174 | Distinct tier, identifier and minute have distinct keys, whatever the identifier contains |
| RateLimit.KeyReads | services/kova-gateway/src/middleware/rate_limit.rs:168-174 | The key is the fixed prefix, the tier's name, the identifier and the minute in decimal |
| RateLimit.CounterSinceStart | services/kova-gateway/src/middleware/rate_limit.rs:88-100 | Whenever the scripts run, a bucket's counter holds the number of its calls since it was last started; no other bucket touches it |
| RateLimit.CountedIffInTime | services/kova-gateway/src/middleware/rate_limit.rs:88-100 | The counter holds the number of all the bucket's calls at every step if and only if none of its scripts runs more than 61 seconds after its first one |
| RateLimit.PromptIsInTime | services/kova-gateway/src/middleware/rate_limit.rs:10-11 | That is so for all scripts that run at most a second past their minute |
| RateLimit.AdmittedIffBelowLimit | services/kova-gateway/src/middleware/rate_limit.rs:88-100 | In a bucket so counted a request gets in exactly if fewer than the limit came before it |
| RateLimit.WindowAdmitsUpToLimit | services/kova-gateway/src/middleware/rate_limit.rs:34-54 | A bucket so counted admits exactly min(calls, limit) |
| RateLimit.SixtySecondBound | services/kova-gateway/src/middleware/rate_limit.rs:148-201 | Counted when the script runs, any sixty seconds admit at most the limit for each minute whose scripts can run in them: at most twice the limit if keys and scripts share the minute, three times if scripts may run up to a second late |
| RateLimit.SixtySecondsExactly | services/kova-gateway/src/middleware/rate_limit.rs:148-201 | And no less: k times the limit bounds what all runs admit in the sixty seconds from a start if and only if k is at least the number of those minutes |
| RateLimit.SlidesOnlyOnFullMinutes | services/kova-gateway/src/middleware/rate_limit.rs:1-11 | The limit itself bounds all runs over sixty seconds from a start if and only if that start is a full minute, where keys and scripts share the minute, and for no start past the first where scripts may run late |
| RateLimit.LateScriptStartsOver | services/kova-gateway/src/middleware/rate_limit.rs:10-11 | The second is all there is: one millisecond more and a run exists that finds the counter gone and gets in past the limit |
| RateLimit.RetryAfter | services/kova-gateway/src/middleware/rate_limit.rs:193-199 | Now plus the advised wait is the start of the next minute |
| RateLimit.Gateway.Script | services/kova-gateway/src/middleware/rate_limit.rs:88-100 | Counts the call and returns 1 exactly if the bucket's calls since its counter was started, this one included, do not exceed the limit |
| RateLimit.Gateway.Call | services/kova-gateway/src/middleware/rate_limit.rs:148-205 | Turned away exactly if not a health check, Redis answered and the counter was full, which for a bucket in time means that 10 calls came before for a path under the OTP routes, 30 under payments and 100 elsewhere; identifier by tier and user; a Redis failure lets through |
| Money.NewRoundsValue | crates/kova-types/src/money.rs:108-116 | Whatever places a value is written with, it is rounded to ten-thousandths half to even |
| Money.NewIsNearest | crates/kova-types/src/money.rs:108-116 | No multiple of 10^-4 is nearer, of two equally near ones the even one is taken, and the error is at most half a unit |
| Money.NewIdempotent | crates/kova-types/src/money.rs:108-116 | An amount with at most four places is left as it is, so rounding a rounded amount changes nothing |
| Money.NearestUnique | crates/kova-types/src/money.rs:108-116 | Nearest with ties to even determines the result |
| Money.NewMonotone | crates/kova-types/src/money.rs:237-241 | Rounding keeps the numeric order |
| Money.LeqMeans | crates/kova-types/src/money.rs:237-241 | The order compares values: m / 10^a is at most n / 10^b exactly if m * 10^b is at most n * 10^a |
| Money.NewOdd | crates/kova-types/src/money.rs:182-184 | Rounding commutes with negation, the negation of money is minus its value, and negating twice gives the amount back |
| Money.AddSubExact | crates/kova-types/src/money.rs:164-171 | Adding and subtracting amounts of the column is exact and representable |
| Money.ConversionErrorTotal | crates/kova-types/src/money.rs:192-194 | Converting n amounts differs from the exact total by at most n/2 units of 10^-4 |
| Money.ConversionErrorIsMet | crates/kova-types/src/money.rs:192-194 | For every n there are n amounts that reach that bound |
| Otp.GenerateOtp | services/kova-auth/src/crypto.rs:57-67 | The first draw below 4294000000 decides the code, every earlier one having been rejected: six digits whose number is the draw modulo 1000000; a generator failure before it is an error |
| Otp.CodeIs | services/kova-auth/src/crypto.rs:64-64 | A code has exactly six digits and is a given one exactly if the draw has its value as residue |
| Otp.ResiduesBalanced | services/kova-auth/src/crypto.rs:20-23 | Below k*m every residue modulo m occurs exactly k times |
| Otp.CodesUniform | services/kova-auth/src/crypto.rs:57-67 | Of all 2^32 draws exactly 4294 yield each six-digit code |
| Otp.ThresholdIsLargest | services/kova-auth/src/crypto.rs:20-23 | The threshold is the largest multiple of 1000000 that is at most 2^32 |
| Otp.UnrejectedIsBiased | services/kova-auth/src/crypto.rs:20-23 | Without rejection the codes below 967296 would come up once more than the others |
| Otp.BuffersAreNumbers | services/kova-auth/src/crypto.rs:60-62 | Every number below 2^32 is the big-endian value of exactly one four-byte buffer |

## Left out

- Key comparison: idempotency keys, currencies and tokens are compared as strings; the columns'
  case- and accent-insensitive collation is not modelled.
- Time: the answer of a fresh posting carries nanoseconds while the stored time carries
  microseconds; leap seconds and the conversion of request timestamps are not modelled.
- DECIMAL(19,4) overflow of a balance: the query's cast clamps it, and the reconciliation theorems assume
  balances that fit (`Bounded`).
- InnoDB: gap locks, deadlock detection and isolation levels beyond row locks, waiting for a key and
  what is committed.
- Reconciliation.LedgerDatabase.ReconciliationPass: an SQL error that ends a pass is not modelled; what
  was recorded up to then satisfies the same invariant, but no count is returned.
- Reconciliation.Snapshot: strictly increasing snapshot times are assumed; two snapshots of one instant would tie.
- Paging.PagingGrowingLedger: assumes unique ids and times the cursor carries faithfully
  (`Cursor.Faithful`); what happens otherwise is stated for fixed tables by `PagingEdges`.
- OutboxWorker.RunWorker: the loop runs for ever in the service; the method runs over the outcomes of
  any finite number of batches.
- RateLimit.SixtySecondBound: assumes one clock for key, script and expiry, and scripts that run at most a
  second past their minute; `RateLimit.CountedIffInTime` says what happens otherwise. Header parsing for
  the client address is a parameter.
- Money.CheckedAdd, Money.CheckedSub, Money.ConvertTo: results the 96-bit decimal cannot hold exactly,
  which the library rounds or refuses.
- Otp.GenerateOtp: the generator is a finite script of draws, so an endless run of rejections is the empty answer.
- SessionService.SessionDatabase.SessionsRevokeAll: the Redis cache of revoked access tokens and the
  SELECT that feeds it.
- Sessions: bcrypt, SHA-256 and JWT signing; a token stands for its selector and hash, so a selector that
  matches a row with another hash does not occur, nor do rows without a selector.
- CircuitBreaker.CircuitBreaker.Call: liveness of the half-open state and poisoned locks.
- Kafka, gRPC, HTTP, authentication middleware, health checks and configuration: plumbing.
- Status transition tables of payments, accounts and KYC, identifier types, string enums and serde
  forms: small finite facts.
- The account service's handlers run against stub clients, and payments, cards, kyc, fraud, fx,
  notifications, audit and reconciliation are placeholders without code.
