# A verified model of nostr-rs-relay-mac

This project models the core of the relay and of the macOS app around it, in Dafny, and proves what
the system is for: that stored events obey the replacement and deletion rules of NIP-01 and NIP-09 in
every run, that a filter compiled to SQL selects what the same filter accepts live, that money is
conserved across the writer and the payment task, and that a connection keeps its books and its
secrets. `dafny verify dfyconfig.toml` checks everything.

## How it is laid out

- `Text`, `Events`, `Filters`: hex and decimal text, events with their tag index, filters with their
  live meaning.
- `Tables`, `Store`: the event and tag tables in rowid order with the foreign-key cascade; the
  transaction `persist_event` as a function (`Store.Persist`) and statement by statement on a class
  (`Store.EventStore`). Where ORDER BY may break ties either way, the choice is an argument
  (`first`) and every law holds for each legal choice.
- `StoreRuns`, `StoreLaws`, `StoreExamples`: laws of every run (submissions, expiry cleanups, row
  removals in any order), and inputs on which unrestricted forms of the laws fail.
- `Sorting`, `Sql`, `Queries`, `QueryMeaning`, `Agreement`, `Answers`: a small SQL with positional
  placeholders, the filter compiler, its meaning, where it agrees with the live one, and ORDER BY with LIMIT.
- `Maintenance`: the tag rebuild of the 15-to-16 migration and batched pruning.
- `Accounts`, `Ledger`, `Writer`: account and invoice tables, the payment task, all interleavings of
  writer and payment steps, and the writer loop.
- `Connection`: subscriptions, cancel handles and NIP-42 authentication of one connection.
- `Delegation`, `Dedup`, `Percentile`, `LogBuffer`, `Toml`: the NIP-26 condition parser, the duplicate
  cache, histogram percentiles, log coalescing and the TOML printer.

## Where the unrestricted statement is false

- SQL compares ids and authors whole and ignores case; live matching compares prefixes of the text.
  `Agreement.AgreementIsNamingWhole` says for every list of names whether the two agree about it as ids or
  authors: exactly if each whole identity listed in upper case is also found by its lower-case text, and
  of each shorter lower-case hex text every completion is listed. For one name that is
  `Agreement.WholeNameExactly`. The first condition alone is exactly what keeps SQL within the live
  matches (`Agreement.SafeNamesExactly`, `Agreement.QueriesAreSound`). Comments in the compiler speak of
  prefix matches; the code compares whole values, and the model follows the code.
- A public key may be spelled in either case of hex, and a delegator counts only live.
  Live tag filters read an index that the relay's own messages to new accounts are broadcast without
  (`Agreement.UnindexedTagIsMissed`). `Agreement.AgreementIsSpeakingAsAuthor` gives the exact set of events
  on which the two agree for every filter of such names, and `Agreement.SoundnessIsAnsweringToAuthor` the
  exact set for the subset claim.
- A filter's limit may be any u64 and is written into the query as it is. Above the largest SQLite integer,
  as in `LIMIT 9223372036854775808`, the query fails when it runs: that filter and those after it are not
  answered and no end of stored events is sent (`Answers.FailsExactly`, `Answers.RepliesStopAtFailure`).
- An empty tag set is skipped in SQL. Live, an Or of nothing is never satisfied and an And of nothing
  asks that the name occur (`Agreement.EmptyTagSetSplits`). `Agreement.SqlEqualsLive` states live
  acceptance as SQL selection plus that, for every filter, and `Agreement.EmptyTagSetsSplitExactly` says
  when it changes the verdict.
- A deletion that spells an event id in upper case hides the event only if it arrives second
  (`StoreExamples.UpperCaseDeletionDependsOnOrder`); `StoreLaws.DeletionOrderExactly` says exactly when the
  order does not matter.
- A parameterised event that repeats its first `d` value replaces itself and is still reported as
  written (`StoreExamples.RepeatedDLosesTheEvent`); `StoreLaws.SavedMeansVisible` says it is visible
  exactly when it does not.
- Events whose replacement key is the implicit empty one pile up
  (`StoreExamples.ImplicitKeysAccumulate`); with an explicit key they do not (`StoreLaws.OneRowPerParam`).
  Of two events with one key, `StoreLaws.SameKeyReplacement` says exactly when the later removes the
  earlier: if the earlier key is explicit and either the later one is too, or ORDER BY did not put the
  earlier first, or it repeats its key.
- A processor that reports a paid invoice unpaid and then paid credits it twice
  (`Ledger.RegressionCreditsTwice`); `Ledger.CreditedAgainExactly` says exactly when that happens.
- Payment callbacks can repeat. A paid invoice reported again is credited once but admits, and charges the
  admission cost, each time (`Ledger.RepeatedReportAdmitsTwice`); `Ledger.PaidAnswersAdmitOnceEach`
  counts admissions exactly.
- Joining two delegation queries with `&` parses only if the first does not end open
  (`Delegation.JoinedQueries`, an equality for all strings).
- The pruning script describes the hidden tier as superseded events; the relay deletes superseded rows
  and hides only deleted ones (`StoreRuns.HiddenEventsWereDeleted`).

## Assumptions about code outside the model

A validated event has a 64-digit lower-case id and a 64-digit hex public key (`Events.HasIdentity`).
Ids are digests without collisions, used only where `StoreLaws.CollisionFree` is required. Signature
checks, URL parsing, clocks, the NIP-05 and gRPC gates and the payment processor's answers are
parameters. JSON storage of an event keeps every field but the two derived ones. Doubles in the
percentile code are modelled as reals. Limits of the database engine on the size of one statement
(expression depth, bound parameters) and on disk are assumed not to be reached. Swift compares strings by canonical equivalence; `LogBuffer`
takes the normal form as a parameter.

Rows that begin with "Bridge" tie a method or gate to the function it computes; the laws of runs rest on
them.

## Model

| member | source | states |
|---|---|---|
| Store.EventStore.PersistEvent | src/repo/sqlite.rs:106-247 | Bridge: the transaction run statement by statement ends in the state and row count of `Persist`, under an ORDER BY tie-break SQL could have made |
| Store.EventStore.InsertTags | src/repo/sqlite.rs:152-168 | Bridge: one tag row per indexable tag, in order, repeated tags included |
| Store.EventStore.DeleteExpired | src/repo/sqlite.rs:1279-1287 | Bridge: deletes exactly the rows expired at the given time with their tag rows, and counts them |
| Tables.CascadeRebuilds | src/repo/sqlite_migration.rs:72-81 | deleting through the foreign key leaves the tag table that the remaining events generate, for every set of deleted rows |
| Tables.TagRowsOfStored | src/repo/sqlite.rs:152-168 | in a consistent database the tag rows of a stored event are exactly its tags under one-character names, with its own kind and creation time |
| Tables.JoinCountOfStored | src/repo/sqlite.rs:188-192 | the join on `d` sees a stored event once per tag with that value |
| StoreRuns.RunsAreConsistent | src/repo/sqlite.rs:139-168 | in every run the tag table equals the indexable tags of the stored events, rowids ascend, hashes are unique and columns repeat the stored event |
| StoreRuns.RowsWereSubmitted | src/repo/sqlite.rs:139-151 | every row of every run was written for a submitted event and differs from it in the hidden flag at most |
| StoreRuns.ReplacedReplaceable | src/repo/sqlite.rs:169-186 | a replaceable submission removes exactly the author's other rows of its kind, all strictly older, and never itself |
| StoreRuns.ReplacedParam | src/repo/sqlite.rs:187-200 | a parameterised submission removes only older rows that carry its key, all of them if its key is explicit, and itself exactly if its key is repeated |
| StoreRuns.RemovedIsOlder | src/repo/sqlite.rs:169-200 | whatever an accepted event removes is the same author's, of the same kind and strictly older |
| StoreRuns.DeletedEventsAreHidden | src/repo/sqlite.rs:202-244 | in every reachable state an event named by its id in a stored deletion of its author is hidden, whichever arrived first and whatever was replaced, expired, pruned or resubmitted in between |
| StoreRuns.HiddenEventsWereDeleted | src/repo/sqlite.rs:202-244 | conversely, in every run a hidden row is no deletion itself and some submitted deletion of its author names its hash |
| StoreLaws.AcceptedInRunExactly | src/repo/sqlite.rs:106-151 | in every run a submission is stored if and only if its time, kind and expiry fit 63 bits, its id is not stored, for kinds 0, 3, 41 and 10000-19999 every stored event of its author and kind is older, and for kinds 30000-39999 every such event with its key among its `d` values is |
| StoreLaws.AcceptedExactly | src/repo/sqlite.rs:106-151 | the same over any consistent database, read off the rows |
| StoreLaws.RefusedExactly | src/repo/sqlite.rs:106-151 | a refused submission changes nothing, and is an error if and only if its time is too large, or another integer is and every rival is older |
| StoreLaws.AcceptedIsStored | src/repo/sqlite.rs:139-200 | an accepted submission is stored afterwards if and only if it does not repeat its key |
| StoreLaws.StoredColumns | src/repo/sqlite.rs:139-151 | every row of a run holds a submitted event: id and lower-case author printed back from their columns, kind, time, first expiration and delegator |
| StoreLaws.CleanupExactly | src/repo/sqlite.rs:1279-1287 | expiry cleanup of any run removes exactly the events that have expired |
| StoreLaws.OneRowPerReplaceable | src/repo/sqlite.rs:119-126 | every run leaves at most one row per author and replaceable kind |
| StoreLaws.SlotDecides | src/repo/sqlite.rs:119-126 | a storable event of a replaceable kind, or of a parameterised kind with one `d` value, is accepted exactly when it is strictly newer than what occupies its slot |
| StoreLaws.SurvivorIsNewest | src/repo/sqlite.rs:169-186 | without cleanup the stored event of an author and replaceable kind, or of an author, parameterised kind and key where that author's events have one `d` value each, is the newest one ever submitted |
| StoreLaws.NewestIsFirstNewest | src/event.rs:173-180 | "newest" is the first submission that no competing submission exceeds, and exists when any competes |
| StoreLaws.ArrivalOrderDoesNotMatter | src/repo/sqlite.rs:119-126 | two cleanup-free runs over the same events in any order and multiplicity leave the same survivor in each such slot when competing times are distinct |
| StoreLaws.OneRowPerParam | src/repo/sqlite.rs:127-138 | every run keeps at most one row per author, kind and explicit replacement key |
| StoreLaws.RunsAreParamOrdered | src/repo/sqlite.rs:187-200 | with no restriction on tags, no stored row carries the explicit key of a row that arrived after it |
| StoreLaws.ReplacementLeftovers | src/repo/sqlite.rs:187-200 | a stored row that still carries the key after an event was accepted can only be the one ORDER BY put first, carrying it once, and only if that event's key is implicit |
| StoreLaws.ReplacementExactly | src/repo/sqlite.rs:187-200 | a parameterised event removes, of its author's rows of its kind, exactly those that carry its key, but an implicit key spares the row ORDER BY put first if it carries the key once |
| StoreLaws.SameKeyReplacement | src/event.rs:190-209 | of two events with one author, kind and key, the later removes the earlier if and only if the earlier key is explicit and the later is too, or the earlier is not first or repeats its key |
| StoreLaws.OutcomeMeans | src/repo/sqlite.rs:222-246 | one row is reported exactly when the event is accepted and, unless a deletion itself, no stored deletion of its author names its id; an error changes nothing |
| StoreLaws.SavedMeansVisible | src/repo/sqlite.rs:105-247 | one row reported: no such hash was stored, and now it is stored and unhidden exactly if the event does not replace itself |
| StoreLaws.UnsavedShowsNothingNew | src/repo/sqlite.rs:105-247 | no row reported: no event became visible |
| StoreLaws.LaterDeletionHides | src/repo/sqlite.rs:202-221 | an accepted deletion hides a visible stored event exactly if it is the same author's and names its hash in a 64-digit tag of either case |
| StoreLaws.DeletionOrderExactly | src/repo/sqlite.rs:202-244 | an event and a deletion leave the event alike visible in both orders of arrival if and only if it replaces itself, was deleted before, is another author's, or is named by its printed id if named at all |
| StoreLaws.EventThenDeletion | src/repo/sqlite.rs:202-221 | after event and then deletion, the event is visible exactly if it neither replaces itself nor was deleted before nor is named by its author in either case |
| StoreLaws.DeletionThenEvent | src/repo/sqlite.rs:222-244 | after deletion and then event, exactly if it neither replaces itself nor was deleted before nor is named by its author as printed |
| StoreExamples.RepeatedDLosesTheEvent | src/repo/sqlite.rs:188-192 | an event with its `d` tag twice is reported written and is not stored |
| StoreExamples.ImplicitKeysAccumulate | src/event.rs:190-209 | two events of one author and kind without `d` tag have the same key and are both kept |
| StoreExamples.UpperCaseDeletionDependsOnOrder | src/repo/sqlite.rs:202-229 | an upper-case id in a deletion hides the event if the deletion comes second and not if it comes first |
| Events.BuildIndex | src/event.rs:272-297 | the loop builds exactly the map from one-character names to the values of their indexable tags |
| Events.ExpiredExactly | src/event.rs:150-173 | an event has expired if and only if the first tag named `expiration` holds a u64 not later than now; later such tags do not matter |
| Events.KeyExactly | src/event.rs:184-209 | the replacement key exists for kinds 30000-39999 only and is the value of the first tag named `d`, or empty without value or tag |
| Events.FirstValueExactly | src/event.rs:311-318 | the first value under a name is that of the first tag of that name that has one |
| Text.HexRoundTrip | src/repo/sqlite.rs:140-141 | decoding the printed bytes of any blob gives the blob back |
| Text.HexValExactly | src/repo/sqlite.rs:140-141 | a character is a hex digit of value n if and only if it is the nth of either case |
| Text.ParseU64Exactly | src/event.rs:159-172 | a number is read exactly from digits, with or without a plus, whose value fits 64 bits |
| Filters.IndexMatchMeans | src/event.rs:412-428 | counting common values in the index means: the tags satisfy the operand and the name occurs |
| Queries.QueryFromFilter | src/repo/sqlite.rs:961-1155 | as many placeholders as parameters, and binding left to right gives every author, id, tag name, tag value and the clock its own place, for every filter; only numbers stand in the text itself; order and limit as the filter asks |
| Queries.PushOperand | src/repo/sqlite.rs:1059-1122 | the clauses of one tag operand are appended with their parameters in step, one subquery for Or, one per value for And, none for an empty set |
| Queries.RepeatVarsBind | src/repo/sqlite.rs:1373-1382 | n placeholders bind to n parameters one to one |
| Sorting.LeqExactly | src/repo/sqlite.rs:1059-1099 | tag values are put in the order of prefixes and of the first differing character |
| QueryMeaning.CompiledQueryMeans | src/repo/sqlite.rs:982-1145 | over a consistent database the bound WHERE clause selects a stored row exactly when it is shown, unexpired and matches each part of the filter read directly off the event |
| QueryMeaning.NarrowingIsRedundant | src/repo/sqlite.rs:1034-1054 | repeating kind, since and until in tag subqueries never changes what is selected |
| Agreement.SqlEqualsLive | src/subscription.rs:302-356 | for every filter of whole names, empty tag sets included, and every event that speaks as its author, `interested_in_event` is the SQL meaning and what the empty tag sets ask |
| Agreement.SqlWithinLive | src/subscription.rs:291-322 | with safe names of any length, delegated events included, the SQL meaning and what the empty tag sets ask imply the live one |
| Agreement.SafeNameExactly | src/repo/sqlite.rs:982-1000 | a name selects in SQL only identities it begins if and only if it is not 64 hex digits with one in upper case |
| Agreement.WholeNameExactly | src/repo/sqlite.rs:982-1000 | a name selects the same identities in SQL as by prefix if and only if, besides, it is not lower-case hex shorter than 64 |
| Agreement.SafeNamesExactly | src/repo/sqlite.rs:988-1002 | a list selects in SQL only identities some name of it begins if and only if each of its 64-digit names is begun, in lower case, by a name of the list |
| Agreement.WholeNamesExactly | src/repo/sqlite.rs:988-1002 | a list selects the same identities in SQL as by prefix if and only if, besides, every completion of its shorter lower-case hex names is listed |
| Agreement.AgreementIsNamingWhole | src/subscription.rs:291-322 | SQL and live agree on every plain event about a list of names, as authors and as ids, if and only if it is such a list |
| Agreement.AgreementIsSpeakingAsAuthor | src/subscription.rs:302-356 | SQL and live agree on an event for every filter of such lists without empty tag set if and only if the names that find it live are exactly its author's and its live index holds its tags |
| Agreement.SoundnessIsAnsweringToAuthor | src/subscription.rs:302-322 | whatever SQL selects by safe lists is accepted live, for every such filter, if and only if the lower-case author finds the event live and its live index covers its tags |
| Agreement.UnindexedTagIsMissed | src/event.rs:432-444 | a filter on a tag that the live index lacks, as that of every message the relay composes itself, matches in SQL and not live |
| Agreement.UnindexedAgreesExactly | src/event.rs:432-444 | an event without index is in agreement on tags if and only if it has no tag to index |
| Agreement.EmptyTagSetSplits | src/repo/sqlite.rs:1030-1032 | a filter with one empty tag set always matches in SQL, and live exactly as an And on an event that carries the name |
| Agreement.EmptyTagSetsSplitExactly | src/event.rs:412-428 | for every filter of whole names the verdicts differ exactly if SQL matches and some empty tag set is an Or or names a tag the event lacks |
| Agreement.QueriesAreExact | src/repo/sqlite.rs:961-1155 | in every reachable store and for every filter of whole names, each stored event that speaks as its author and is indexed is unhidden, unexpired and accepted live if and only if the compiled query selects it and its empty tag sets are met; other submissions do not matter |
| Agreement.QueriesAreSound | src/repo/sqlite.rs:961-1155 | with shorter names or delegated events, what it selects is unhidden, unexpired and accepted live, for each event that answers to its author and whose index covers its tags |
| Answers.AnswerIsBest | src/repo/sqlite.rs:1148-1154 | every answer is sorted, has min(limit, matches) rows, is a sub-multiset of the matches and leaves out nothing newer than it returns; without a limit it is all matches |
| Answers.AnswerExists | src/repo/sqlite.rs:1148-1154 | an ordered query has an answer if and only if its limit is a SQLite integer |
| Answers.FailsExactly | src/repo/sqlite.rs:1148-1151 | a filter's query has no answer if and only if the filter can match at all and its limit is above the largest SQLite integer |
| Answers.RepliesStopAtFailure | src/repo/sqlite.rs:387-403 | a subscription is answered up to its first failing filter, and its end of stored events is sent if and only if no filter fails |
| Answers.RepliesAnswer | src/repo/sqlite.rs:387-405 | each of those answers is one of its own filter |
| Answers.AnswersAgreeOnTimes | src/repo/sqlite.rs:1148-1154 | any two answers to an ordered query list the same times, so they differ within ties only |
| Answers.AnswersAreTheLiveMatches | src/repo/sqlite.rs:961-1155 | over every run an answer holds only live-acceptable shown events, and omits one only if the limit is filled with events at least as new |
| Maintenance.RebuildTags | src/repo/sqlite_migration.rs:734-765 | the migration's loops refill the tag table with exactly the indexable tags of the stored events: on every reachable database nothing changes, and from any old tag table the result is consistent if the event rows are |
| Maintenance.DeleteTier | scripts/prune-relay-db.py:149-178 | for any batch size and any picks the loop ends with exactly the tier deleted and both counters equal to the rows removed; a dry run only counts |
| Maintenance.PruningIsExact | scripts/prune-relay-db.py:78-97 | what remains is exactly the rows outside the tier, every gift wrap among them, with exactly their tags, and the dry run's count was right |
| Maintenance.PrunedExactly | scripts/prune-relay-db.py:78-103 | what each tier takes from a run, in events: never kind 1059, else the hidden, the expired before now, those of a listed author in either spelling, or the deletions |
| Maintenance.SafeTiersAreInvisible | scripts/prune-relay-db.py:8-12 | pruning hidden or expired rows, and expiry cleanup, change no query's matches at that time or later |
| Accounts.AccountRepo.Update | src/repo/sqlite.rs:836-883 | Bridge: status is overwritten, and the account credited on the step from Unpaid to Paid only |
| Accounts.AccountRepo.Admit | src/repo/sqlite.rs:749-766 | Bridge: admission sets the flag and subtracts the cost from the present balance |
| Accounts.AccountRepo.GetUnpaid | src/repo/sqlite.rs:887-925 | a most recent unpaid invoice of the account, or nothing exactly when there is none |
| Accounts.Payment.InvoicePaid | src/payment/mod.rs:175-184 | Bridge: check, settle and admit in sequence, stopping at the first error or unpaid answer |
| Accounts.Payment.CheckAccount | src/payment/mod.rs:156-174 | Bridge: with unpaid invoices, the answer about a latest one is stored, a Paid one admits the account and says so, another sends that invoice again; without, as for a new account, delivery of the messages included |
| Accounts.Payment.GetInvoiceInfo | src/payment/mod.rs:241-268 | Bridge: a latest unpaid invoice of a known account is reused, otherwise the account is created if missing and the issued invoice recorded; a failed delivery of the messages loses the reply and keeps the record |
| Accounts.Payment.NewAccount | src/payment/mod.rs:146-153 | Bridge: the same for the message: answered with exactly that invoice, or not at all where recording or delivery failed |
| Accounts.InvoicePaidMeans | src/payment/mod.rs:175-184 | a paid answer marks the invoice paid, credits its amount if it was unpaid, and admits its account for the cost, and changes nothing else; another answer is only stored |
| Accounts.UnknownInvoiceChangesNothing | src/payment/mod.rs:175-184 | a message about an unknown invoice changes nothing |
| Accounts.CheckAccountMeans | src/payment/mod.rs:156-174 | a paid answer credits, admits and says so; another is stored and the same invoice sent again; an error does and says nothing |
| Accounts.NewAccountMeans | src/payment/mod.rs:241-268 | a new account starts unadmitted with nothing, a new invoice unpaid under it, and the invoice is sent if and only if it was recorded and its messages did not fail |
| Accounts.KnownDebtorKeepsInvoice | src/payment/mod.rs:247-251 | an account with an unpaid invoice gets no new one |
| Ledger.WhoPays | src/db.rs:203-282 | Bridge: an event passes and is paid for if and only if its kind is allowed and its author is unlisted under pay-to-relay, admitted and can afford it; it passes free if and only if its author is listed, or there is neither payment nor list |
| Ledger.WhoIsRefused | src/db.rs:155-269 | which submissions are blocked and which are reported as an error, exactly, in kinds, lists, accounts and balances |
| Ledger.AccountKeyIsIdentity | src/db.rs:227 | two spellings of a public key have one account, and different keys different ones |
| Ledger.BalancesAreConserved | src/repo/sqlite.rs:749-883 | in every interleaving each balance is the amounts credited less admission cost per admission less event cost per charge |
| Ledger.SavedEventsAreChargedOnce | src/db.rs:436-448 | saved events of an unlisted author and charges match one to one, up to the charge in hand; nothing else is charged |
| Ledger.NothingOwedBetweenEvents | src/db.rs:436-448 | whenever the writer is between events, saved events of an unlisted author and charges are equal in number |
| Ledger.InvoiceCreditedAtMostOnce | src/payment/mod.rs:271-280 | an invoice is credited at most once if its processor never reports it unpaid after paid |
| Ledger.CreditedAgainExactly | src/repo/sqlite.rs:853-872 | an invoice is credited more than once if and only if, since it was recorded, the processor's word went twice from Unpaid to Paid |
| Ledger.CreditsAreRises | src/repo/sqlite.rs:853-872 | the stored status is the processor's last word and each step of it from Unpaid to Paid is one credit, whatever else is interleaved |
| Ledger.RegressionCreditsTwice | src/repo/sqlite.rs:853-872 | a run in which paid, unpaid, paid credits one invoice twice |
| Ledger.AdmittedAccountsPaid | src/payment/mod.rs:156-184 | in every interleaving an admitted account has an invoice the processor reported paid after it was recorded |
| Ledger.AdmittedExactly | src/repo/sqlite.rs:749-766 | in every interleaving an account is admitted if and only if an admission step reached it |
| Ledger.PaidAnswersAdmit | src/payment/mod.rs:156-184 | in every interleaving an account with a paid answer that no error abandoned is admitted, or its admission is the step in hand |
| Ledger.PaidAnswersAdmitOnceEach | src/payment/mod.rs:156-184 | in every interleaving the paid answers about an account's recorded invoices are its admissions, those abandoned by an error and the one in hand |
| Ledger.RepeatedReportAdmitsTwice | src/server.rs:257-275 | a run in which a repeated callback admits one account twice for one credit, leaving 5 less twice the admission cost |
| Ledger.NewAccountIsALedgerRun | src/payment/mod.rs:146-153 | an uninterrupted NewAccount message has the effect of ledger steps |
| Ledger.InvoicePaidIsALedgerRun | src/payment/mod.rs:175-184 | an uninterrupted InvoicePaid message has the effect of ledger steps |
| Ledger.CheckAccountIsALedgerRun | src/payment/mod.rs:156-174 | an uninterrupted CheckAccount message has the effect of ledger steps |
| Writer.DbWriter.Handle | src/db.rs:147-475 | one turn in literal answers: each refusing answer of the account gates, of NIP-05 and of gRPC stops the event with its notice, a failing gRPC server does not; what gets through is stored, or only passed on for kinds 20000-29999; what was kept is broadcast, announced as saved and charged, a duplicate and a failed write are told so |
| Writer.DbWriter.Drain | src/db.rs:147-475 | over any queue, with cleanups, pruning, other writers and payment steps between the turns in any way, every turn obeys that law; each broadcast non-ephemeral event was absent before and is visible at that moment unless it replaced itself, and an unannounced event shows nothing new |
| Writer.WhatIsAnnounced | src/db.rs:393-434 | the same for one event and any legal tie-break |
| Writer.HandleIsALedgerRun | src/db.rs:203-448 | an uninterrupted turn of the writer, with the outcome the store gives, has the effect of ledger steps |
| Connection.ClientConn.Subscribe | src/conn.rs:106-142 | Bridge: length check, replacement, limit and insertion, with the error for each |
| Connection.ClientConn.Authenticate | src/conn.rs:159-228 | Bridge: the identity changes exactly when the challenge is answered by a valid kind 22242 event in the window for the same host, the last two-element tags deciding |
| Connection.WindowIsTenMinutes | src/conn.rs:175-180 | the wrapping window is exactly the times within ten minutes, and empty within ten minutes of the ends of u64 |
| Text.Utf8LenCountsBytes | src/conn.rs:107-108 | the length limit counts the bytes of the UTF-8 encoding, which reads back to its text |
| Connection.Server.HandleReq | src/server.rs:1519-1567 | Bridge: a new subscription registers a handle and fires the one it displaces; duplicates, scrapers and refused ones register nothing |
| Connection.Server.HandleClose | src/server.rs:1567-1588 | Bridge: the handle under the id is fired and removed, with the subscription |
| Connection.Server.HandleAuth | src/server.rs:1463-1505 | Bridge: authentication is tried only if switched on and the relay has a URL |
| Connection.Server.Cleanup | src/server.rs:1617-1620 | after the loop every handle ever registered was fired exactly once |
| Connection.LoopInvariant | src/server.rs:1519-1580 | in every run subscriptions and handles have the same ids, at most 32 and at most 256 bytes each, and each handle ever registered is held once or was fired exactly once |
| Connection.ReqExactly | src/server.rs:1519-1567 | a request takes effect if and only if no equal subscription is held, it has no filter without ids that asks at most one of authors, kinds and tags where scrapers are limited, its id has at most 256 bytes of UTF-8, and it replaces one or fewer than 32 are held |
| Connection.HeldExactly | src/conn.rs:106-153 | in every run, held under an id is exactly the latest request for it that took effect and was not closed since |
| Connection.AnswersExactly | src/conn.rs:159-228 | an event answers a challenge if and only if it is valid, of kind 22242, within ten minutes, and its last two-element tags repeat the challenge and name this host |
| Connection.IdentityExactly | src/conn.rs:155-228 | in every run exactly the author of the first answer to the challenge is authenticated, if authentication is on |
| Connection.SentExactly | src/server.rs:1092-1107 | in every run, sent are exactly the query results, and each broadcast to each held subscription one of whose filters accepts it, except that with nip42_dms on kinds 4, 44 and 1059 go only to their author or first recipient, proved by an earlier message |
| Connection.IdentityWasProved | src/conn.rs:155-228 | in every run an authenticated identity answered this connection's own challenge |
| Connection.DirectMessagesReachTheirParties | src/server.rs:1092-1107 | with nip42_dms on, any kind 4, 44 or 1059 event sent, stored or live, goes to a connection that earlier proved in time to be its author or first recipient, and that stays its identity |
| Delegation.FromStr | src/delegation.rs:211-223 | Bridge: the loop parses every piece or fails |
| Delegation.QueryRoundTrip | src/delegation.rs:187-223 | printing any condition list and parsing it returns the list |
| Delegation.CapturesExact | src/delegation.rs:187-194 | a word, an operator run and a run of values are captured whole by the pattern |
| Delegation.CapturesFirst | src/delegation.rs:187-194 | for every text the pattern matches if and only if a word character stands before an operator character, and captures the runs around the first such place whole |
| Delegation.JoinedQueries | src/delegation.rs:213-222 | for all strings: the join parses to the concatenation if the first is closed and both parse, and to nothing otherwise |
| Delegation.JoinedPermission | src/delegation.rs:86-102 | the joined query permits exactly what both permit |
| Delegation.ConditionPermits | src/delegation.rs:129-172 | a written condition permits by plain comparison of kind or time with the written numbers: `=` the listed, `!` the others, `<` and `>` with one number only |
| Delegation.WindowPermits | src/delegation.rs:86-172 | `created_at>a&created_at<b` permits exactly the events strictly between |
| Delegation.DelegatedExactly | src/event.rs:231-271 | an event counts for a delegator if and only if its first four-element delegation tag names it with a valid signature and conditions that parse and permit the event |
| Dedup.DedupCache.CheckAndAdd | src/dedup.rs:25-43 | Bridge: refused exactly within the window of the recorded time, otherwise recorded now |
| Dedup.RefusedExactlyWithinWindow | src/dedup.rs:25-51 | over every history with a non-decreasing clock a message is refused exactly when an accepted one with its key lies within the window |
| Dedup.RefusedByLatest | src/dedup.rs:25-43 | for any clock, back or forward: between purges a message is refused exactly when the latest accepted one with its key is less than the window old |
| Dedup.PurgeForgetsExactly | src/dedup.rs:45-51 | a purge forgets exactly the keys whose window has passed |
| Dedup.PurgePlacementIsFree | src/dedup.rs:45-51 | histories with the same messages give the same answers wherever purges stand |
| Percentile.Compute | NostrRelayApp/NostrRelayApp/Services/MetricsService.swift:304-328 | Bridge: the loop computes the interpolated value, zero without samples or buckets |
| Percentile.ValueLiesInItsBucket | NostrRelayApp/NostrRelayApp/Services/MetricsService.swift:304-328 | the value lies between the ends of the bucket that holds the rank, at the lower end where there is no upper one |
| Percentile.ValueIsProportional | NostrRelayApp/NostrRelayApp/Services/MetricsService.swift:314-322 | the value divides its bucket as the rank divides the bucket's samples |
| Percentile.PercentilesAreOrdered | NostrRelayApp/NostrRelayApp/Services/MetricsService.swift:304-328 | a higher percentile never has a smaller value |
| Percentile.ValueAtMeans | NostrRelayApp/NostrRelayApp/Services/MetricsService.swift:304-328 | for every total and fraction: zero exactly without samples or buckets, else within the bucket that holds that fraction of the total and in proportion |
| Percentile.Latency | NostrRelayApp/NostrRelayApp/Services/MetricsService.swift:289-300 | each is the value at its fraction, and 0 <= p50 <= p95 <= p99 for every sorted cumulative histogram |
| LogBuffer.RelayLog.AppendLog | NostrRelayApp/NostrRelayApp/Services/RelayService.swift:245-266 | Bridge: lines equal under Swift's string equality coalesce on the first spelling, warnings and errors are counted per line, and the last error is kept |
| LogBuffer.RelayLog.FlushLogs | NostrRelayApp/NostrRelayApp/Services/RelayService.swift:277-293 | Bridge: pending entries move to the log, merged at the boundary under the same equality and trimmed to 500 |
| LogBuffer.LogIsASuffix | NostrRelayApp/NostrRelayApp/Services/RelayService.swift:245-293 | in every history, and for any equality of strings, log and pending buffer written out are a suffix of all lines appended up to that equality, without equal neighbours and with at most 500 rows |
| LogBuffer.FlushKeepsMost | NostrRelayApp/NostrRelayApp/Services/RelayService.swift:277-293 | a flush loses nothing while the joined rows are at most 500, and else keeps exactly 500 |
| LogBuffer.NothingLostUntilFull | NostrRelayApp/NostrRelayApp/Services/RelayService.swift:245-293 | in every history of at most 500 lines everything appended is shown |
| Toml.TomlEscape | NostrRelayApp/NostrRelayApp/Services/ConfigurationService.swift:280-298 | Bridge: the loop escapes every scalar in order |
| Toml.ArrayRoundTrip | NostrRelayApp/NostrRelayApp/Services/ConfigurationService.swift:300-302 | every list of strings printed as an array body reads back as itself under TOML's basic-string grammar |

## Left out

- SQL text, indexes and index hints, connection pools, checkpoints, retries, and aborting a running query: only the table-level meaning of statements is kept.
- Sql.Eval: NULL comparisons are plain false; the compiled queries use no NOT, so three-valued logic cannot show.
- Store.Persist: rowid exhaustion is not modelled; a u64 too large for SQLite is, as an error.
- Ledger.SavedEventsAreChargedOnce: a crash between write and charge is not a step; a failed charge, which ends the writer, is.
- Accounts.Payment.GetInvoiceInfo: the text of the direct messages that follow a new invoice; whether they were delivered is an argument, and storing them is a step from elsewhere in `Writer.DbWriter.Drain`.
- Writer.DbWriter.Handle: the rate limiter, metadata forwarding to NIP-05 verification and messages to the payment task are not modelled.
- Dedup.DedupCache.CheckAndAdd: keys are the 64-bit hashes themselves; two messages with one hash are one message here as in the cache.
- Percentile.Compute: rounding of doubles.
- Toml.ReadArray: comments inside arrays and other string forms, which the printer never writes.
- The PostgreSQL store, the bulk loader, other migrations, NIP-05 verification, HTTP pages, websocket framing, metrics, gRPC and Lightning clients, and all views of the app.
- Event validation and spam rules before the writer, and filter parsing from JSON; delegation signatures are a parameter.
