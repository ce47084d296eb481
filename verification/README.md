# Headlines: a verified model of its state machines and codecs

Headlines publishes articles. Accounts write drafts, publish, edit, tombstone and redact articles, and
republishers mirror an account through a watermark stream. Requests are signed over a canonical text and
protected by a hybrid clock and a replay cache. This project models that behaviour in Dafny 4.11 and proves what
it keeps.

`dafny verify dfyconfig.toml` checks everything.

## What is modelled

**Articles and drafts** (`Tables`, `TransactionProtocol`, `TransactionSafety`, `TransactionHistory`,
`SerialTransactions`, `Serializability`, `Interleavings`, `VersionChain`, `DraftRecords`, `Repositories`). The four article tables
and the draft table are maps by primary key. A transaction is its list of SQL statements; any number of them
interleave one statement at a time under Read Committed, with pending writes, row locks, unique keys that block and
then conflict, rollback at any point and atomic commit. Over all interleavings the tables keep agreeing; a commit
equals its serial transaction under an exact condition; run serially, an id is one mutable record from draft to
article, which also says how each call fails. The repositories are classes whose methods are proved against the same serial transactions.

**Paging and the stream** (`KeysetPaging`, `Listings`, `AccountStream`, `StreamUnderCommits`, `StreamLag`, `Events`). Keyset paging
in both directions visits every row once, which for each of the four lists is exactly the rows of its account or filter in
its order; a consumer of the account stream converges to the current items, under serial
mutations always and under interleaved transactions on an exact condition; the event list assembles its SQL from numbered
parameters.

**Time and replay** (`Tso`, `TsoIssue`, `TsoProcess`, `TsoRestart`, `NonceStore`, `NonceHistory`,
`ReplayProtection`). The packed word, the compare-exchange loop of any number of threads, restarts and crashes over
the persisted mark with the exact condition for uniqueness, the LRU against its history, and the exact configurations in which no request is accepted twice.

**Signing** (`Text`, `Codecs`, `CanonicalString`, `AuthHeader`, `QueryCanon`, `SignedRequests`). Encodings with round
trips, the canonical text and what it determines, the strict header parser, the query normal form, the authentication
sequence, the interceptor, and agreement with the client of the repository.

**Transformations** (`NodeJson`, `DraftService`, `DraftRuns`, `HtmlFragment`, `Markdown`, `MarkdownTrees`, `Varints`,
`WireScanning`, `AuthPolicy`). Content to JSON and back, validation on write and again on publish, the Markdown stack
machine against a tree denotation, and the hand-written protobuf scanner.

## What the code does that its documentation does not say

The model follows the code in each of these places.

- An edit ignores that its UPDATE of `articles_live` found no row, so it can commit a version after a tombstone
  (`Interleavings.EditCanCommitAfterTombstone`), and what it carries over is what it read, redacted since or not
  (`Interleavings.EditCanRepeatRedactedContent`). A redaction does not recheck, so a version can be redacted twice
  (`Interleavings.VersionCanBeRedactedTwice`). `Serializability.CommitIsSerialIff` says exactly when none of this
  happens.
- The replay cache evicts by the timestamp of the incoming request. It needs a nonce horizon of at least the time
  horizon plus forward slack (`ReplayProtection.ReplaySafeIff`). The oracle at its default of 30 s with the default
  cache of 30 s meets it; the local clock, whose slack is its own horizon, does not at these defaults, nor does an
  oracle configured with a longer horizon, because the cache's 30 s is fixed by its default constructor.
- Event times are taken before the commit, so a reader's cursor can pass a row that is not committed yet, and then never
  sees it (`StreamLag.CursorPassesUncommittedRow`). `StreamUnderCommits.StreamConvergesIff` says exactly when this does
  not happen.
- The cache is in memory, so these theorems are about one life of the process.
- The mark in the database is overwritten unconditionally, although a comment says it never goes back; it does not
  (`TsoRestart.MarkNeverDecreases`), for one process at a time. The seed is not written at boot, hence the flush bound;
  `TsoRestart.NeverRepeatsIff` says exactly which runs issue nothing twice.
- An authorization header with bytes outside visible ASCII counts as absent, so the request goes on as anonymous.
- `parse_iframe_or_video` is documented to keep width, height and allowfullscreen; it keeps `src` only.
- The final loop of the Markdown converter closes open elements as they are, so a stream that ends inside an
  unsupported construct would leave a `__drop__` element (`MarkdownTrees.OutputIsValidIff`).
- `WireScanner::next` does not move at an unreadable key, and `scan_descriptor_set` looks at errors of field 1 only, so it
  ends exactly on the messages of `WireScanning.ScanStopsIff`. Fixed slots are sliced, and skipped, without a check
  against what is left (`WireScanning.NextPanicsIff`). The last varint of a packed field may take bytes of the next one
  (`AuthPolicy.PackedReadsPastIff`). A subject class is taken from the low 32
  bits of its varint.

## Hypotheses

Clock readings of `issue` are below 2^46 ms. `TsoRestart.IssuedNeverRepeatAcrossRestarts` carries the flush bound at each
crash and a clock that does not step back during boot; the exact theorems of that module do not. The replay theorem carries a time source that does not go back, and validate followed
by record as one step. `AccountStream.MirrorConverges` takes mutations one after another at strictly increasing times;
`StreamUnderCommits.StreamConvergesIff` takes interleaved transactions that begin at different times. New articles
and drafts get fresh ids.

What the model takes from outside are parameters: hash, signature check, key resolution, clock readings, minted UUIDs
and nonces, UTF-8 decoding, URL parsing, serialised length, account status and the outcome of authorization.

## Model

| member | source | states |
|---|---|---|
| TransactionSafety.StatementKeepsTx | crates/headlines-store/src/repo/articles.rs:566-662 | one statement of any transaction, run on committed tables that satisfy the invariant, keeps what the open transaction knows and has written in step with them |
| TransactionSafety.StatementKeepsCompatible | crates/headlines-store/src/repo/articles.rs:627-659 | a statement that need not wait never takes a row another open transaction holds: the next-version and tombstone inserts collide on their primary keys |
| TransactionSafety.CommitKeepsFamily | crates/headlines-store/src/repo/articles.rs:571-659 | a commit keeps the article rows of its id consistent and raises the version count by exactly the versions it added |
| TransactionSafety.CommitKeepsTx | crates/headlines-store/src/repo/articles.rs:728-792 | what any other open transaction knows about the committed tables survives the commit of a compatible one on the same id |
| TransactionSafety.CommitKeepsInv | crates/headlines-store/src/repo/drafts.rs:438-509 | a commit keeps the whole invariant, the draft hand-off included |
| TransactionSafety.StepKeepsInv | crates/headlines-store/src/repo/articles.rs:258-795 | every step (begin, statement, commit, rollback) of the system keeps the invariant |
| TransactionSafety.RunKeepsInv | crates/headlines-store/src/repo/articles.rs:258-795 | so does every interleaving of any number of transactions |
| TransactionHistory.EveryInterleavingIsSafe | crates/headlines-store/src/schema.rs:35-93 | from the empty tables, after every interleaving: live if and only if one live row and no tombstone row, and conversely; versions exactly 1..n with n the committed publications and edits; current_version is n; redacted if and only if content is null; no id is both a draft and an article |
| TransactionHistory.CommittedVersionsAreDistinct | crates/headlines-store/src/repo/articles.rs:627-646 | two committed edits of an article never share a version number, and are numbered in commit order |
| TransactionHistory.DraftIsPublishedOnceAsCommitted | crates/headlines-store/src/repo/drafts.rs:438-509 | under every interleaving a draft is published at most once and is then gone; version 1 has the title and authors of its last committed row, and its content unless the version was redacted since |
| TransactionHistory.RunKeepsTombstonesAndVersions | crates/headlines-store/src/repo/articles.rs:664-714 | tombstone is terminal, and committed version rows are never removed and change only by redaction, over every interleaving |
| TransactionHistory.RunKeepsHistory | crates/headlines-store/src/repo/articles.rs:258-795 | the invariant about the log of commits (numbering, publications, published drafts) holds after every interleaving |
| SerialTransactions.AloneIsSerial | crates/headlines-store/src/repo/articles.rs:258-795 | the statement machine with nothing interleaved computes the serial transaction, on success and on every error |
| Serializability.CommitIsSerialIff | crates/headlines-store/src/repo/articles.rs:571-659 | a commit has exactly the serial effect if and only if nothing disturbed it: an edit still finds the article live and the content it read, a redaction finds the version unredacted and current as it saw it |
| Serializability.UndisturbedRunIsSerial | crates/headlines-store/src/repo/articles.rs:258-795 | a run whose commits are all undisturbed leaves the tables of the serial calls in commit order |
| Serializability.EveryUndisturbedRunIsSerial | crates/headlines-store/src/repo/articles.rs:258-795 | the same from the empty tables |
| Interleavings.AloneRunsSerially | crates/headlines-store/src/repo/articles.rs:258-795 | inside any interleaving, a transaction that meets no other on its id runs to the serial effect or the serial error |
| Interleavings.EditCanCommitAfterTombstone | crates/headlines-store/src/repo/articles.rs:604-659 | in every state with an editable article there is an interleaving in which an edit commits one more version after the tombstone has committed, because the zero-row UPDATE of articles_live is not looked at |
| Interleavings.EditCanRepeatRedactedContent | crates/headlines-store/src/repo/articles.rs:604-646 | likewise an edit that had read the content commits it again after its version was redacted |
| Interleavings.VersionCanBeRedactedTwice | crates/headlines-store/src/repo/articles.rs:728-792 | likewise two redactions of one version both commit, the second overwriting reason and time |
| Interleavings.PublishedIsEditable | crates/headlines-store/src/repo/articles.rs:258-325 | those states exist: publishing any article from the empty tables gives one |
| VersionChain.PublishStartsRecord | crates/headlines-store/src/repo/articles.rs:258-325 | publishing starts the record with the submitted fields at version 1 |
| VersionChain.ChainRefinesRecord | crates/headlines-store/src/repo/articles.rs:604-656 | over any serial run an article is a mutable record: folding the masked edits, redactions and the tombstone with their times over the initial record gives what the tables hold |
| VersionChain.GetReadsRecord | crates/headlines-store/src/repo/articles.rs:327-417 | get returns exactly the article the record describes, every field of it, times and tombstone included |
| VersionChain.EditAfterRedactionDropsContent | crates/headlines-store/src/repo/articles.rs:604-625 | run serially, an edit after a redaction that sets no content carries the empty document forward, never the redacted content |
| VersionChain.SerialRedactsOnly | crates/headlines-store/src/repo/articles.rs:758-789 | serially, existing version rows change only by redaction of exactly the named version, which takes the content, records time and reason and leaves the rest |
| VersionChain.AddedVersionIsFresh | crates/headlines-store/src/repo/articles.rs:627-646 | a version is added under the next number with content, unredacted, stamped with its transaction time, and with NULL for an absent author |
| VersionChain.SerialKeepsArticle | crates/headlines-store/src/repo/articles.rs:258-795 | a serial transaction keeps the rows of every article in step |
| DraftRecords.TablesRefineLives | crates/headlines-store/src/repo/drafts.rs:207-531 | from the empty tables, after any serial calls, what the tables hold under an id is one record that is absent, then a draft, then an article: creation keeps every submitted field, updates overwrite the masked ones, publishing hands all of them over, and get reads the article off the record |
| DraftRecords.PublishDraftStartsRecord | crates/headlines-store/src/repo/drafts.rs:438-531 | a published draft leaves exactly its account, title, authors and content at version 1, and no draft |
| DraftRecords.FailsAsRecordSays | crates/headlines-store/src/repo/articles.rs:571-789 | each call fails with the one error that the record calls for, and otherwise succeeds |
| DraftRecords.DraftColumns | crates/headlines-store/src/repo/drafts.rs:207-332 | column by column, what creating and updating store: an empty author is NULL, columns outside the mask stay |
| Repositories.PgArticleRepo.Publish | crates/headlines-store/src/repo/articles.rs:258-325 | the method has the serial effect on all five tables, rolls back on error, and returns what get would |
| Repositories.PgArticleRepo.Get | crates/headlines-store/src/repo/articles.rs:327-417 | returns the view of the tables, with its error cases |
| Repositories.PgArticleRepo.Edit | crates/headlines-store/src/repo/articles.rs:566-662 | serial effect on the whole state, errors included, and the article read back |
| Repositories.PgArticleRepo.Tombstone | crates/headlines-store/src/repo/articles.rs:664-714 | serial effect on the whole state, errors included |
| Repositories.PgArticleRepo.Redact | crates/headlines-store/src/repo/articles.rs:716-795 | serial effect on the whole state, errors included; updated_at moves only for the current version |
| Repositories.PgArticleRepo.ListByAccount | crates/headlines-store/src/repo/articles.rs:419-564 | a page is exactly the keyset page of the account, each row read as the summary get gives, newest first, at the clamped size; a broken row is an error |
| Repositories.HydrateFailsIff | crates/headlines-store/src/repo/articles.rs:466-547 | reading the rows of a page fails if and only if one of them cannot be read |
| Repositories.PgDraftRepo.Create | crates/headlines-store/src/repo/drafts.rs:207-236 | serial effect; the id conflict is the error case |
| Repositories.PgDraftRepo.Update | crates/headlines-store/src/repo/drafts.rs:251-332 | the per-column UPDATEs together have the serial effect of the masked update |
| Repositories.PgDraftRepo.Delete | crates/headlines-store/src/repo/drafts.rs:334-344 | removes the draft, or reports that there is none and changes nothing |
| Repositories.PgDraftRepo.Publish | crates/headlines-store/src/repo/drafts.rs:428-531 | moves the draft to an article in one step or changes nothing, and returns what get would: the title, authors and content of the draft at version 1 |
| Repositories.PgDraftRepo.ListByAccount | crates/headlines-store/src/repo/drafts.rs:346-426 | a page is exactly the keyset page: drafts of the account only, the latest change first, each with its own fields, 20 by default and at most 100 |
| Repositories.PgAccountStreamRepo.Stream | crates/headlines-store/src/repo/account_stream.rs:191-294 | a page is exactly the keyset page on the event time: articles of the account only, each row as its stream item, 50 by default and at most 200 |
| KeysetPaging.WalkVisitsEveryRowOnce | crates/headlines-store/src/repo/articles.rs:419-564 | following tokens from the empty one lists exactly the rows after the start in order, each once, every page but the last full, in the expected number of pages, for both directions |
| KeysetPaging.PageCountIsCeiling | crates/headlines-store/src/repo/articles.rs:192-198 | that number is max(1, ceil(n / limit)) |
| KeysetPaging.PageSplitsRows | crates/headlines-store/src/repo/account_stream.rs:271-293 | a page and the rows its token leads to are together the rows there were |
| KeysetPaging.AfterRow | crates/headlines-store/src/repo/drafts.rs:375-391 | the cursor of the i-th row selects exactly the rows after it |
| KeysetPaging.PageCovers | crates/headlines-store/src/repo/account_stream.rs:271-293 | every row after the cursor is on the page or after its token |
| KeysetPaging.PageIsInOrder | crates/headlines-store/src/repo/articles.rs:466-564 | a page is in order, within the limit, after its cursor, and its token is the key of its last row |
| Listings.DraftsAreListedOnce | crates/headlines-store/src/repo/drafts.rs:346-426 | following the tokens of the draft list gives exactly the drafts of the account, each once, the latest change first |
| Listings.ArticlesAreListedOnce | crates/headlines-store/src/repo/articles.rs:419-564 | the article list gives exactly the articles of the account, tombstoned ones when asked for, each once, the newest first |
| Listings.StreamIsListedOnce | crates/headlines-store/src/repo/account_stream.rs:191-294 | the stream, left alone, gives exactly the articles of the account, each once, in the order of their last update or their end |
| Listings.EventsAreListedOnce | crates/headlines-store/src/repo/events.rs:263-393 | the event list gives exactly the matching events, each once, in the order they were received |
| AccountStream.ItemChangeMovesEvent | crates/headlines-store/src/repo/account_stream.rs:149-184 | any transaction that changes the stream item of an article moves its event time to now |
| AccountStream.ItemIsSummary | crates/headlines-store/src/repo/account_stream.rs:149-184 | the stream item of an article is the very summary that get and the list give, the redacted flag included |
| AccountStream.MirrorConverges | crates/headlines-store/src/repo/account_stream.rs:191-294 | with serial mutations at increasing times and reads in between, a consumer that then drains to an empty token holds exactly the current item of every article of the account |
| AccountStream.LastPageCompletesMirror | crates/headlines-store/src/repo/account_stream.rs:271-293 | the read that returns the empty token completes the mirror |
| AccountStream.DrainCompletesMirror | crates/headlines-store/src/repo/account_stream.rs:191-294 | left alone, the consumer reaches that read |
| AccountStream.DrainConvergesIff | crates/headlines-store/src/repo/account_stream.rs:191-294 | draining gives the current items if and only if nothing at or before the cursor is out of date in the mirror |
| StreamUnderCommits.StreamConvergesIff | crates/headlines-store/src/repo/account_stream.rs:191-294 | under every interleaving of transactions with page reads, from the empty tables, begun at different times: a consumer drained at whatever moment holds the current items at every moment of the run if and only if no commit moved an event of the account to or behind the cursor it had then |
| StreamUnderCommits.CommitInSyncIff | crates/headlines-store/src/repo/account_stream.rs:212-245 | one commit leaves a mirror that keeps up keeping up if and only if its event time lies after the cursor, or it moves no event of the account |
| StreamUnderCommits.CommitOnArticle | crates/headlines-store/src/repo/articles.rs:571-792 | on the committed tables it meets, any commit moves the event of its own article to its own time or leaves event and item alone, and touches no other article |
| StreamLag.CursorPassesUncommittedRow | crates/headlines-store/src/repo/account_stream.rs:212-245 | such a commit exists: a publication that took its time first, ran all its statements and commits after the cursor has passed that time is missed |
| Events.PgEventRepo.RecordBatch | crates/headlines-store/src/repo/events.rs:207-261 | a batch is stored whole, in request order at one receive time, or not at all, and which one is decided by fresh distinct ids |
| Events.BuildQuery | crates/headlines-store/src/repo/events.rs:278-367 | for every combination of filters the numbered clauses and the separately bound values meet: every parameter is bound at its type and the statement selects exactly the matching rows after the cursor |
| Events.StatementSelectsPageRows | crates/headlines-store/src/repo/events.rs:278-353 | those rows are the ones the keyset page is made from |
| Events.PgEventRepo.List | crates/headlines-store/src/repo/events.rs:263-393 | a page is the keyset page of the matching events in order of arrival, 50 by default and at most 200 |
| Tso.PackedWord | crates/headlines-core/src/tso.rs:53-79 | on 64-bit words the two fields do not overlap, bits beyond them are gone, and both come back |
| Tso.PartsOfComposed | crates/headlines-core/src/tso.rs:53-79 | decomposing a composed timestamp gives the fields cut to their widths |
| Tso.ComposeParts | crates/headlines-core/src/tso.rs:65-79 | composing the parts of any timestamp gives it back |
| Tso.OrderOfComposed | crates/headlines-core/src/tso.rs:53-57 | packed words are ordered as (millisecond, counter) |
| Tso.AdvanceIsLeast | crates/headlines-auth/src/time/tso.rs:181-211 | an attempt of issue gives the least timestamp above the last one and not before the clock, and fails exactly at the last slot of a millisecond the clock has not left |
| Tso.AdvanceIncreasesIff | crates/headlines-auth/src/time/tso.rs:181-211 | for a clock of any size: the attempt increases if and only if the millisecond field keeps the lead of the clock |
| TsoIssue.IssueIsMonotoneAndLockFree | crates/headlines-auth/src/time/tso.rs:181-211 | for any number of threads and any clocks below 2^46 ms, backward ones included: successes strictly increase in order, a call that starts after another has returned gets more, and a call loses at most as often as others win |
| TsoIssue.ExchangeSucceedsIff | crates/headlines-auth/src/time/tso.rs:189-209 | a compare-exchange succeeds if and only if no other thread succeeded since the load |
| TsoIssue.WordUnchangedIff | crates/headlines-auth/src/time/tso.rs:189-209 | no value of the shared word ever returns |
| TsoProcess.InProcessTso.NewWithClock | crates/headlines-auth/src/time/tso.rs:113-177 | boot waits as long as no clock reading is past stored + flush interval, and then seeds the word at the later of that and the clock |
| TsoProcess.InProcessTso.Issue | crates/headlines-auth/src/time/tso.rs:181-211 | with any number of other calls between each load and its exchange: an exchange is lost exactly when one of them succeeded, and the result is the advance of the word they left |
| TsoProcess.InProcessTso.Validate | crates/headlines-auth/src/time/tso.rs:215-232 | accepts exactly the window behind the later of clock and last timestamp |
| TsoProcess.InProcessTso.Flush | crates/headlines-auth/src/time/tso.rs:270-298 | persists the current millisecond |
| TsoRestart.IssuedNeverRepeatAcrossRestarts | crates/headlines-auth/src/time/tso.rs:113-177 | over any run of boot, issue, flush, clean stop and crash every timestamp exceeds all earlier ones of all incarnations, given the flush bound at each crash and a clock that does not step back during boot |
| TsoRestart.MarkNeverDecreases | crates/headlines-auth/src/time/postgres_store.rs:119-141 | the persisted mark never decreases although every write overwrites it; no flush bound is needed |
| TsoRestart.CleanStopCovers | crates/headlines-auth/src/time/tso.rs:236-245 | after a clean stop whose final write succeeds the flush bound holds by proof |
| TsoRestart.NeverRepeatsIff | crates/headlines-auth/src/time/tso.rs:113-211 | the exact condition over every run of boots, calls, flushes, stops and crashes, with any clock at the boots: wherever the run is cut off and called on, nothing is issued twice or out of order if and only if at each boot nothing issued before is above the seed |
| TsoRestart.ToleratedRunIsSeeded | crates/headlines-auth/src/time/tso.rs:113-177 | the flush bound and a forward clock are enough for that condition |
| TsoRestart.BootIsSafeIff | crates/headlines-auth/src/time/tso.rs:131-155 | per boot, for any mark, floor and clock reading, backward and zero included: every list of calls keeps the issued timestamps increasing if and only if none so far is above the seed |
| TsoRestart.CanIssueIff | crates/headlines-auth/src/time/tso.rs:152-211 | after a boot exactly the timestamps above its seed can still be issued |
| TsoRestart.ForwardBootsAreSafeIff | crates/headlines-auth/src/time/tso.rs:119-155 | for a process that is down: every boot on a forward clock is safe if and only if nothing issued is above the first slot of the millisecond after the floor |
| TsoRestart.CoveredIsSafe | crates/headlines-auth/src/time/tso.rs:119-130 | the flush bound implies that |
| TsoRestart.UncoveredCrashCanRepeat | crates/headlines-auth/src/time/tso.rs:270-298 | for each issued timestamp above that slot there is a forward boot and calls after which it is issued again |
| TsoRestart.BackwardBootRepeatsIff | crates/headlines-auth/src/time/tso.rs:131-155 | a boot whose clock steps back to the floor or below can issue an issued timestamp again if and only if one above the first slot of the floor was issued |
| TsoRestart.BackwardRunRepeats | crates/headlines-auth/src/time/tso.rs:131-155 | a run within the flush bound, with only its last boot on a clock that is set back, after which an issued timestamp can come again |
| TsoRestart.ZeroClockRepeatsIff | crates/headlines-auth/src/time/tso.rs:119-155 | with nothing stored, no flush task and a clock at 0 a boot can repeat every issued timestamp but 0 |
| NonceStore.InMemoryNonceStore.EvictExpired | crates/headlines-auth/src/nonce.rs:49-66 | drops exactly the entries more than the horizon older than the argument |
| NonceStore.InMemoryNonceStore.Record | crates/headlines-auth/src/nonce.rs:76-112 | verdict and new contents are a function of the old contents as a map: recency order cannot be observed, and put never drops a live entry |
| NonceHistory.StoreRefinesHistory | crates/headlines-auth/src/nonce.rs:49-112 | for every history of calls the cache holds exactly the accepted calls that no later call expired, one entry each, never more than the capacity, and Replay and Capacity are answered exactly when that set says so |
| NonceHistory.EvictionKeepsLive | crates/headlines-auth/src/nonce.rs:49-66 | eviction by the timestamp of the incoming request leaves exactly the calls that survive it |
| ReplayProtection.OracleIsWindow | crates/headlines-auth/src/time/tso.rs:215-232 | the oracle accepts a window without slack |
| ReplayProtection.LocalClockIsWindow | crates/headlines-auth/src/time/local_clock.rs:44-58 | the local clock accepts a window whose forward slack is its horizon, saturation included |
| ReplayProtection.AcceptedAgainIsLater | crates/headlines-auth/src/strategy.rs:481-505 | on a clock that does not go back, with a nonce horizon that covers the window, a key and nonce accepted again carries a later millisecond |
| ReplayProtection.ReplaySafeIff | crates/headlines-auth/src/strategy.rs:481-505 | no run accepts one key, nonce and timestamp twice if and only if the nonce horizon covers time horizon plus slack (cut at 46 bits) or the cache has one entry |
| ReplayProtection.ShortNonceHorizonReplays | crates/headlines-auth/src/nonce.rs:49-66 | the run that accepts twice for every other configuration |
| Codecs.HexEncode | crates/headlines-auth/src/strategy.rs:227-235 | the loop computes the hex text |
| Codecs.HexIsInjective | crates/headlines-auth/src/strategy.rs:227-235 | different bytes have different hex text |
| Codecs.HexAt | crates/headlines-auth/src/strategy.rs:227-235 | two lower-case digits a byte, the high half first |
| Codecs.DecimalParses | crates/headlines-auth/src/strategy.rs:316-321 | a printed u64 is read back |
| Codecs.ParseU64Iff | crates/headlines-auth/src/strategy.rs:316-321 | a number is read exactly from its decimal text behind any zeros and at most one plus sign |
| Codecs.UuidTextParses | crates/headlines-auth/src/strategy.rs:308-312 | a printed UUID is read back |
| Codecs.UuidTextIsLower | crates/headlines-auth/src/strategy.rs:154-167 | printed in lower case with hyphens after 8, 12, 16 and 20 digits |
| Codecs.UuidForms | crates/headlines-auth/src/strategy.rs:308-312 | the forms without hyphens, in braces and as a URN are read too |
| Codecs.ParsedUuidIsForm | crates/headlines-auth/src/strategy.rs:308-312 | and nothing but these four forms |
| Codecs.Base64Decodes | crates/headlines-auth/src/strategy.rs:322-335 | encoded bytes are read back |
| Codecs.FromBase64IsCanonical | crates/headlines-auth/src/strategy.rs:322-335 | text that is accepted is the one encoding of what was read |
| Codecs.Base64OfThree | crates/headlines-auth/src/strategy.rs:322-335 | three bytes, the first one highest, make four digits, the highest first |
| CanonicalString.BuildCanonicalString | crates/headlines-auth/src/strategy.rs:154-167 | builds the eight-line text |
| CanonicalString.CanonicalDetermines | crates/headlines-auth/src/strategy.rs:154-167 | for all requests: equal text if and only if body hash, key, timestamp, nonce and the joined request line are equal |
| CanonicalString.CanonicalIsInjective | crates/headlines-auth/src/strategy.rs:154-167 | with single-line method, path and query the text is injective in every signed field |
| CanonicalString.LineBreaksCollide | crates/headlines-auth/src/strategy.rs:154-167 | with line breaks it is not |
| AuthHeader.ParseAuthorizationHeader | crates/headlines-auth/src/strategy.rs:279-345 | accepts with exactly the fields the header says (ASCII, scheme, every piece well formed, last piece of each kind) and otherwise returns the first error |
| AuthHeader.AnswerIsUnique | crates/headlines-auth/src/strategy.rs:279-345 | a header says at most one thing, and what is said is never refused |
| AuthHeader.PieceMeans | crates/headlines-auth/src/strategy.rs:289-335 | what each named piece means and which error its value makes; unknown names, missing equals signs and blank pieces each have their error |
| AuthHeader.AcceptedAlgoIsPlain | crates/headlines-auth/src/strategy.rs:313-315 | an accepted algorithm name is ASCII, trimmed and free of commas |
| AuthHeader.PrintedHeaderParsesIff | crates/headlines-server/src/seed/runner.rs:834-840 | a printed header parses to exactly its fields if and only if the algorithm name is plain |
| QueryCanon.CanonicalizeQuery | crates/headlines-auth/src/strategy.rs:193-224 | the loops compute the canonical form |
| QueryCanon.PairsOfRender | crates/headlines-auth/src/strategy.rs:214-223 | the split loop inverts the rendering |
| QueryCanon.SortSorts | crates/headlines-auth/src/strategy.rs:212 | the sort orders keys, keeps every pair and the value order of each key |
| QueryCanon.CanonKeepsPairs | crates/headlines-auth/src/strategy.rs:193-224 | the canonical text has sorted keys, the same pairs and the same value sequence per key |
| QueryCanon.CanonEqualIff | crates/headlines-auth/src/strategy.rs:193-224 | two queries canonicalise equally if and only if they give every key the same value sequence |
| QueryCanon.CanonIsIdempotent | crates/headlines-auth/src/strategy.rs:193-224 | the canonical form is its own canonical form |
| QueryCanon.CanonKeysAscend | crates/headlines-auth/src/strategy.rs:212 | of two neighbouring keys of the canonical text the first is a prefix of the second or has the smaller character where they first differ |
| QueryCanon.PairsConcat | crates/headlines-auth/src/strategy.rs:202-211 | the parts around any ampersand are read on their own |
| QueryCanon.OnePairReads | crates/headlines-auth/src/strategy.rs:202-211 | a part is nothing, a key with an empty value, or a key and the value after its first equals sign |
| QueryCanon.CanonAddsSeparatorsOnly | crates/headlines-auth/src/strategy.rs:193-224 | the canonical text has no character that the query lacks but the separators |
| SignedRequests.SignedRequestStrategy.AuthenticateInner | crates/headlines-auth/src/strategy.rs:441-508 | succeeds exactly when key, algorithm, signature, window and replay cache admit the request, and then the key and nonce are cached at its timestamp; each error exactly for its check (unknown, revoked, resolver, algorithm, support, signature, window, replay, capacity), with the cache left alone unless the request reached it |
| SignedRequests.SignedTextIsAcceptedOnce | crates/headlines-auth/src/strategy.rs:441-508 | with a safe configuration no two accepted requests of a run have the same signed text, whatever method, path and query hold |
| SignedRequests.AuthInterceptorService.Call | crates/headlines-auth/src/interceptor.rs:232-345 | forwards the request unchanged but for the removed trusted header and the inserted subject, exactly when the request rebuilt from header and body is admitted; anonymous exactly when no readable authorization header is there; says exactly when header, body or frame was the reason to refuse |
| SignedRequests.SignedRequest | crates/headlines-server/src/seed/runner.rs:806-845 | the client prints the header of its own signed text |
| SignedRequests.ServerRebuildsSignedText | crates/headlines-auth/src/interceptor.rs:126-147 | for every message, key, path, query, clock and nonce: when the client signs the canonical text of the query, the server reads exactly its fields, hashes the message inside the frame and rebuilds the very text that was signed |
| SignedRequests.ClientSignatureIsGood | crates/headlines-auth/src/strategy.rs:441-478 | so a client whose key is registered passes every signature check, with any query |
| SignedRequests.SignedTextPinsQuery | crates/headlines-auth/src/interceptor.rs:267-324 | two requests have the same signed text if and only if they agree on method, path, body hash, key, timestamp and nonce and give every key of the query the same values in the same order |
| SignedRequests.ToStrIff | crates/headlines-auth/src/interceptor.rs:250-255 | a header value is text exactly when every byte is visible ASCII, space or tab, and then it is those characters |
| SignedRequests.FrameLength | crates/headlines-auth/src/interceptor.rs:98-147 | the frame of a message holds flag 0, its length with the highest byte first, and the message |
| NodeJson.JsonRoundTrips | crates/headlines-api/src/services/article.rs:269-342 | json_to_nodes(nodes_to_json(ns)) is ns for trees of any depth |
| NodeJson.StoredElement | crates/headlines-api/src/services/article.rs:273-302 | the stored object key by key: tag, attributes and children, the last two only when there are any |
| NodeJson.ReadObject | crates/headlines-api/src/services/article.rs:311-342 | any stored object: a string under text decides, otherwise an element with an empty tag unless it is a string, its string attributes, and its children in order |
| NodeJson.EncodeNode | crates/headlines-api/src/services/article.rs:273-302 | filling the maps in place gives the specified JSON |
| NodeJson.ValidateNode | crates/headlines-api/src/services/article.rs:237-263 | accepts exactly the trees whose elements have allowed tags and attributes, and otherwise names the first fault |
| NodeJson.AllowedPairs | crates/headlines-api/src/services/article.rs:56-92 | the allowed attributes, tag by tag |
| DraftService.ValidateAndEncodeContent | crates/headlines-api/src/services/article.rs:212-235 | accepts exactly non-empty, valid content within the cap, and returns its JSON; otherwise the error names the missing content, the first fault in document order, or both sizes |
| DraftService.TitleValidatesAgain | crates/headlines-api/src/services/article.rs:141-151 | a validated title validates again as itself |
| Text.TrimCutsSpace | crates/headlines-api/src/services/article.rs:141-142 | trimming takes away white space at the two ends and nothing else |
| DraftService.Utf8LenAdds | crates/headlines-api/src/services/article.rs:163-172 | the byte length of a text is that of its parts |
| DraftService.EveryDraftRevalidates | crates/headlines-api/src/services/draft.rs:389-397 | after any serial run of writes every stored draft passes the checks of publishing under an unchanged cap |
| DraftRuns.EveryInterleavingRevalidates | crates/headlines-api/src/services/draft.rs:354-397 | and so does every committed draft after every interleaving of transactions that carry what the handlers let through |
| DraftService.RevalidatesUnderCapIff | crates/headlines-api/src/services/draft.rs:389-397 | under a changed cap every draft stored by any run of creations, updates and other writes passes if and only if its content fits the new cap |
| DraftRuns.EveryInterleavingUnderCapIff | crates/headlines-api/src/services/draft.rs:389-397 | the same for every committed draft after every interleaving |
| DraftService.DraftServiceImpl.CreateDraft | crates/headlines-api/src/services/draft.rs:144-201 | succeeds exactly when the checks pass, with the effect of the repository call on validated values, and returns a draft with the trimmed title, the given authors and the given content; otherwise changes nothing and returns the error of the first failing check |
| DraftService.DraftServiceImpl.UpdateDraft | crates/headlines-api/src/services/draft.rs:229-288 | the same for a masked update; fields outside the mask are neither checked nor written; a draft one may not see is reported as missing |
| DraftService.DraftServiceImpl.PublishDraft | crates/headlines-api/src/services/draft.rs:354-416 | succeeds exactly when the draft revalidates and the transaction succeeds, and returns its title, authors and content; among valid drafts validation never refuses; otherwise the error of the first failing check |
| Markdown.MarkdownToNodes | crates/headlines-server/src/seed/content_md.rs:46-229 | the event loop over the explicit stack computes the machine, unbalanced streams included |
| MarkdownTrees.BalancedIffTrees | crates/headlines-server/src/seed/content_md.rs:82-226 | an event stream is balanced if and only if it is the traversal of some trees |
| MarkdownTrees.ConverterIsDenotation | crates/headlines-server/src/seed/content_md.rs:82-226 | on the events of any trees the converter returns their recursive denotation, unsupported wrappers hoisted |
| MarkdownTrees.BlocksConvert | crates/headlines-server/src/seed/content_md.rs:84-106 | around any balanced content: p, h3 down to level 3 and h4 below, blockquote, pre, ol, ul, li, each without attributes |
| MarkdownTrees.InlinesConvert | crates/headlines-server/src/seed/content_md.rs:107-135 | em, strong, s; a link with its target, an image with its source and, when it has one, its title as alternative text; an unsupported construct leaves its content |
| MarkdownTrees.LeavesConvert | crates/headlines-server/src/seed/content_md.rs:166-226 | text, code spans, breaks and rules, and what the fragment scanner keeps of raw HTML |
| MarkdownTrees.SiblingsConvert | crates/headlines-server/src/seed/content_md.rs:82-226 | what follows a balanced stream is converted on its own, so with the three rows above nothing about balanced streams is left open |
| MarkdownTrees.TextIsKept | crates/headlines-server/src/seed/content_md.rs:55-67 | for every event stream the text leaves of the result are the texts, code spans and soft breaks of the events in order |
| MarkdownTrees.OutputIsValidIff | crates/headlines-server/src/seed/content_md.rs:134-165 | for every event stream the result passes tag and attribute validation if and only if no unsupported construct is still open at the end |
| MarkdownTrees.BalancedOutputIsValid | crates/headlines-server/src/seed/content_md.rs:82-226 | balanced streams always give valid nodes, so no dropped wrapper survives |
| HtmlFragment.ParseIframeOrVideo | crates/headlines-server/src/seed/content_md.rs:242-307 | the peeking loops compute the scan |
| HtmlFragment.OnlySrcIsKept | crates/headlines-server/src/seed/content_md.rs:242-304 | of the attributes of a frame or a video, with the tag in any case and values in double quotes, single quotes, no quotes or missing, exactly the last src with a value is kept |
| HtmlFragment.KeptIff | crates/headlines-server/src/seed/content_md.rs:242-252 | a fragment is kept if and only if, trimmed, it starts with one of the two tags, each letter in either case |
| HtmlFragment.FragmentIsOk | crates/headlines-server/src/seed/content_md.rs:242-307 | whatever the fragment, what is kept is valid |
| Varints.DecodeVarint | crates/headlines-proto/build.rs:368-379 | the loop reads the groups up to the first byte below 128 among ten, cut to 64 bits |
| Varints.OrAdds | crates/headlines-proto/build.rs:372 | the shifted group does not touch the digits already read, so the or adds |
| Varints.OrReadsGroup | crates/headlines-proto/build.rs:372-376 | one turn of the loop: shift and or add the next group, cut to 64 bits |
| Varints.VarintRoundTrips | crates/headlines-proto/build.rs:368-379 | every u64 has an encoding of one to ten bytes that is read back whatever follows |
| Varints.VarintReadsIff | crates/headlines-proto/build.rs:368-379 | reading succeeds if and only if one of the first ten bytes is below 128, and uses only the bytes up to it |
| WireScanning.Scanner.Next | crates/headlines-proto/build.rs:288-343 | one call returns the next key and value, an error or a panic, and moves the position as specified |
| WireScanning.NextMovesIff | crates/headlines-proto/build.rs:288-343 | a call moves the position if and only if the key could be read; a value found lies inside the message |
| WireScanning.NextPanicsIff | crates/headlines-proto/build.rs:288-343 | a call panics if and only if a fixed slot runs past the end or the end of a length does not fit 64 bits |
| WireScanning.NextFailsIff | crates/headlines-proto/build.rs:288-343 | a call returns an error if and only if the key cannot be read, the wire type is unknown, a varint cannot be read, or a length ends past the message |
| WireScanning.UnreadableKeyRepeats | crates/headlines-proto/build.rs:288-296 | at an unreadable key every further call returns the same error under field 0, so a loop that looks at another field has not stopped after any number of calls |
| WireScanning.ScanStopsIff | crates/headlines-proto/build.rs:103-111 | for any message and any field but 0: a loop that stops at the end, at a panic, or at a malformed or refused value of that field does stop if and only if every key it comes to can be read |
| WireScanning.GatherField | crates/headlines-proto/build.rs:103-111 | the loop itself, on the messages where it stops: the bodies of the field in order, or how it stops |
| WireScanning.FieldScans | crates/headlines-proto/build.rs:288-343 | a field written anywhere in a message is returned as written, with the position after it |
| WireScanning.FieldsRoundTrip | crates/headlines-proto/build.rs:288-343 | scanning the encoding of any list of fields gives that list |
| AuthPolicy.DecodeAuthRequirementMessage | crates/headlines-proto/build.rs:217-267 | the cursor loop computes the policy of the bytes, panics included |
| AuthPolicy.SkipWireValue | crates/headlines-proto/build.rs:346-366 | where the value after a key ends, without a check against what is left |
| AuthPolicy.DecoderConcatenates | crates/headlines-proto/build.rs:217-267 | for any mix of single and packed classes, scopes and unknown fields the result is the in-order concatenation, or a refusal when one is not known |
| AuthPolicy.PackedReadsPastIff | crates/headlines-proto/build.rs:234-249 | the names of a packed field are read past its end if and only if its last byte announces another one |
| AuthPolicy.ClassIsKnownIff | crates/headlines-proto/build.rs:381-390 | a class is known if and only if its low 32 bits are 1 to 5, which are Anonymous, UserSelf, AccountSelf, AccountOwnsResource and System |
| AuthPolicy.PolicyNamesClasses | crates/headlines-proto/build.rs:217-267 | from bytes to names: however the fields are split and mixed, the result holds the names of the class numbers and the texts of the scopes in order, and it is refused if and only if a number stands for no class or a scope is not text |
| AuthPolicy.ShortClass | crates/headlines-proto/build.rs:217-233 | byte for byte: 8 and a number from 1 to 5 give that class |
| AuthPolicy.ShortScope | crates/headlines-proto/build.rs:250-258 | byte for byte: 18, a length below 128 and a text give that scope |
| AuthPolicy.ScanMethodOptionsForAuth | crates/headlines-proto/build.rs:200-215 | the loop finds the last requirement and decodes it |
| AuthPolicy.OptionsMeanLastRequirement | crates/headlines-proto/build.rs:200-215 | whatever options stand around it, the last requirement, under number 50001, alone decides |
| AuthPolicy.OptionsWithoutRequirement | crates/headlines-proto/build.rs:156-190 | options without one have no policy |

## Left out

- SQL text other than the clauses of the event list, connection pooling, migrations, gRPC, HTTP and async plumbing, metrics and tracing.
- Deadlock detection and lost connections are a rollback that may happen at any statement; lock waits are statements that are not enabled.
- The 32-bit range of `version`: at the last value an edit aborts in the model, as the column's range makes it.
- Ed25519 and SHA-256, and the text of cursors (JSON and base64url), which is taken as a lossless image of its key, so invalid cursors are not modelled.
- pulldown-cmark: its event stream is the input of the converter. End events carry no tag, since the code does not look at it.
- Several processes writing one high-water mark: outside the hypotheses above.
- Two transactions that begin at the same clock reading, in the theorem about the stream under concurrent commits.
- Requests whose validate and record overlap with those of other requests.
- REST routes, converters to and from proto, configuration, CLI, error code tables, scope matching, the key resolver's tables.
- `scan_file`, `scan_service` and `scan_method` and the generated auth table: the same scanner loop with string building around it; `WireScanning.GatherField` takes their failures as a parameter.
- TransactionProtocol: one open transaction works on one id, as every transaction of these repositories does; foreign keys to accounts are not modelled.
- AuthHeader.ParseAuthorizationHeader: the wording of UUID and number errors inside `MalformedKeyId` and `MalformedTs` is the offending text instead of the library's message.
- Codecs.UuidTextParses: input lengths are counted in characters; the header parser has checked that they are bytes.
- SignedRequests.AuthInterceptorService.Call: a header name has one value, the first one the code would read.
- NodeJson.EncodeNode: the key order inside a JSON object is not represented; attribute keys are visited in no particular order.
- NodeJson.ValidateNode: among several disallowed attributes of one element the reported one is any of them, as the hash map's order decides.
- DraftService.EveryDraftRevalidates: the database's own rejections of content (such as a NUL character in jsonb) are not modelled.
- WireScanning.Scanner.Next: arithmetic overflow of positions is a panic, as with overflow checks on.
- Follows, users, keys, feeds and the demo data besides the client's signing function.
