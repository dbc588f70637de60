# Quotefault endpoints, modelled in Dafny

This project models the HTTP endpoints of the Quotefault backend. Members of
the house submit quotes, where each quote is a list of up to six shards, and each
shard is one line said by one speaker. Members can vote on quotes, favourite
them, report them and hide them. Administrators resolve reports.

Most of the logic lives in SQL statements, so the database is modelled as
abstract state. The class `Store.QuoteStore` holds the tables `quotes`,
`shards`, `hidden`, `votes`, `reports` and `favorites`, plus the two id
sequences. Each endpoint is a method on that class and runs as one
transaction. The endpoints that write return one of three outcomes:

- `Done`;
- `Rejected(why)`, which is a 400 response;
- `Failed(fault)`, which is a 500 response.

The endpoints that read (`GetQuote`, `GetQuotes`, `GetReports`) return a
`Fetched` value or a list instead; `Fetched.NotFound` is the 404 of
`get_quote`.

A failed or rejected call leaves the tables unchanged. The class invariant
`Valid` states the facts the tables always satisfy, and every method
preserves it:

- every dependent row refers to an existing quote, and a reporter reports a
  quote at most once. These come from the schema's keys, foreign keys and
  cascades;
- every quote has shards numbered 1..n without gaps, with n at most 6, and
  nobody quotes themselves. These come from `create_quote`'s checks, and they
  stay true because no other endpoint writes `shards`.

The other modules are:

- **`Visibility`**: the SQL `CASE` rules for who may see a quote, the listing's
  hidden filter, the `lt` cursor and the limit.
- **`Tables`**: row types, the vote score and the delete cascade.
- **`Reconstruction`**: `shards_to_quotes`, the single forward pass that turns
  flat rows into quotes. It is a method with loops, proved against the
  function `Reconstruct`. The module also proves grouping, skipping and panic
  properties about `Reconstruct`.
- **`Reports`**: `format_reports`, the grouping of open-report rows by quote.
- **`Queries`**: what the read endpoints return, proved from `Valid`. This
  covers the rows a quote produces, the quotes a listing selects, the quotes
  rebuilt from those rows, and the open reports.

Things outside the repository's code become inputs to the model:

- The directory (LDAP) answers: the quotable members, the known users, and the
  uid-to-name list. Each one is `None` when the directory cannot be reached.
- The username-format check, as the function parameter `validName`.
- The SHA3-256 reporter digest, as a `Digest` value.
- The current time, as `now`.
- The caller's privilege: admin, or security disabled.

## Model

| member | source | states |
|---|---|---|
| Types.Utf8Len | src/api/endpoints.rs:382 | the byte length that the reason check compares with 10 is at least the character count and at most four times it |
| Types.AsciiUtf8Len | src/api/endpoints.rs:382 | for ASCII text, the byte length equals the character count |
| Visibility.ListingHiddenFilterModes | src/api/endpoints.rs:670-683 | `hidden=true` lists hidden quotes to a privileged viewer and, for anyone else, only hidden quotes they are involved in; `hidden=false` lists only unhidden quotes; with no filter, unhidden quotes plus hidden ones the viewer is involved in |
| Visibility.DefaultListingIgnoresPrivilege | src/api/endpoints.rs:473-483 | the unfiltered listing shows a privileged viewer exactly what single-get shows an unprivileged one; a privileged viewer can single-get a hidden quote that the unfiltered listing omits |
| Visibility.EmptyPatternMatches | src/api/endpoints.rs:644-647 | an empty search term (the pattern `%%`) matches every body |
| Tables.VotersMembership | src/api/endpoints.rs:492-503 | a user counts towards a kind of vote on a quote exactly when their stored vote on it is of that kind |
| Tables.ScoreAfterVote | src/api/endpoints.rs:551-558 | setting a vote changes only that quote's score, by the new vote's weight minus the replaced vote's weight |
| Tables.ScoreAfterUnvote | src/api/endpoints.rs:599-601 | removing a vote lowers only that quote's score, by exactly that vote's weight |
| Tables.ScoreWithoutVotes | src/api/endpoints.rs:468 | a quote without votes scores 0 |
| Tables.ResolveAllCloses | src/api/endpoints.rs:820 | after the update the quote has no open report, every report that was open on it carries the resolver, and every other quote's open reports are unchanged |
| Reconstruction.NamesOf | src/api/endpoints.rs:53-55 | every uid the directory returns has a name, and only those uids do |
| Reconstruction.Run | src/api/endpoints.rs:59-110 | a panic ends the pass, and the pass only ever yields quotes or a panic |
| Reconstruction.CollectUids | src/api/endpoints.rs:39-46 | the lookup table holds every submitter, speaker and hide actor in the rows, each still without a name |
| Reconstruction.RecordNames | src/api/endpoints.rs:47-57 | after the directory answers, each entry holds the name the directory gave, or none |
| Reconstruction.ShardsToQuotes | src/api/endpoints.rs:35-112 | an unreachable directory gives the internal error; otherwise the loop returns `Reconstruct` of the rows under the directory's names, including its panic |
| Reconstruction.ForwardPass | src/api/endpoints.rs:59-110 | the loop over the rows, reading names from the lookup table, returns `Reconstruct` of the rows, including its panic |
| Reconstruction.RunAppend | src/api/endpoints.rs:59-110 | the pass over two lists of rows is the pass over the first list continued over the second |
| Reconstruction.SkippedRowIgnored | src/api/endpoints.rs:61-75 | a row whose speaker has no name, or an opening row whose submitter has no name, can be removed from anywhere in the input without changing the result |
| Reconstruction.KeptRows | src/api/endpoints.rs:61-75 | the rows the pass keeps all have a named speaker and, if they open a quote, a named submitter |
| Reconstruction.RunKept | src/api/endpoints.rs:61-75 | the pass over the input equals the pass over its kept rows |
| Reconstruction.PanicsExactly | src/api/endpoints.rs:103-108 | the pass panics exactly when the first kept row does not open a quote |
| Reconstruction.KeptPassPanics | src/api/endpoints.rs:103-108 | on kept rows, the pass panics exactly when the first row is not an opening row, and it yields no quotes exactly when there are no rows |
| Reconstruction.RunGroup | src/api/endpoints.rs:68-108 | an opening row followed by continuation rows appends exactly one quote and leaves the earlier quotes alone |
| Reconstruction.ReconstructGroups | src/api/endpoints.rs:59-110 | on rows made of groups, each opened by an index-1 row with all names resolved, the pass yields one quote per group, in order; each quote carries its opening row's id, timestamp, score, vote, favourite flag, submitter and hide, and exactly its group's shards in input order |
| Reconstruction.NoOpeningRow | src/api/endpoints.rs:68-108 | rows without an index-1 row yield no quote: the pass either skips them all or panics |
| Reconstruction.ContinuationRowsJoinLast | src/api/endpoints.rs:61-108 | continuation rows join the last quote built so far, whichever quote they belong to: earlier quotes are unchanged, and the last quote keeps its id and fields and gains the shards of the rows whose speaker has a name, in order |
| Reconstruction.SkippedOpeningRowMisattributes | src/api/endpoints.rs:61-67 | concrete case: when quote 2's opening row is skipped, quote 2's second shard is attached to quote 3 |
| Reports.ReportsForSound | src/api/endpoints.rs:116-136 | every report in a quote's entry comes from a row about that quote |
| Reports.QuoteIdsExact | src/api/endpoints.rs:115-137 | the grouped ids are exactly the quote ids that occur in the rows |
| Reports.GroupReports | src/api/endpoints.rs:114-137 | the map's keys are the distinct quote ids, and each entry holds exactly that quote's rows as reports, in input order |
| Reports.IntoValues | src/api/endpoints.rs:138 | emptying the grouped map gives each grouped entry of a row's quote id exactly once, and nothing else |
| Reports.PrefixStep | src/api/endpoints.rs:116-136 | one more row adds its quote id and appends its report to that quote's entry only |
| Reports.FormatReports | src/api/endpoints.rs:114-139 | one entry per distinct quote id, with no duplicate entries; each entry holds exactly that quote's reports, in input order |
| Reports.QuoteIdsReported | src/api/endpoints.rs:114-139 | a quote has an entry exactly when it has at least one report |
| Reports.ReportsForPrefix | src/api/endpoints.rs:116-136 | the reports from a prefix of the rows are a prefix of the reports from all rows |
| Reports.RowPlacement | src/api/endpoints.rs:114-139 | each row appears as a report in its quote's entry, at the position given by the number of earlier rows for that quote, so every row appears exactly once and in order |
| Store.FirstShardFailure | src/api/endpoints.rs:234-244 | no refusal exactly when every shard passes; otherwise it is the refusal of the first shard that fails, checked in the order quotable, well-formed, not the submitter |
| Store.IndexedShards | src/api/endpoints.rs:281-305 | the new quote's shard rows are stored under indices exactly 1..n, and index i holds the i-th submitted shard |
| Store.CreateVerdictDone | src/api/endpoints.rs:224-258 | creation goes through exactly when there are 1 to 6 shards, every speaker is quotable, well-formed and not the submitter, the submitter is well-formed, the speakers and the submitter all exist, and the id sequence is not exhausted |
| Store.ResolveKeepsValid | src/api/endpoints.rs:818-822 | resolving a quote's open reports keeps the invariant `Valid` |
| Store.InsertKeepsValid | src/api/endpoints.rs:265-305 | inserting a quote under the next id, with shards numbered from 1, keeps the invariant `Valid` |
| Store.InsertCreates | src/api/endpoints.rs:265-305 | after the insert, the new id holds exactly the submitted quote: its submitter and time, shards 1..n in request order, and no hide, vote or favourite |
| Store.DeleteKeepsValid | src/api/endpoints.rs:331-370 | deleting a quote together with every row that refers to it keeps the invariant `Valid` |
| Store.QuoteStore.FirstOpenFrom | src/api/endpoints.rs:820 | the open report with the smallest id at or after `from`, if one exists |
| Store.QuoteStore.IdsBelow | src/api/endpoints.rs:699 | every candidate id is an existing quote id below the bound, and there are at most n - 1 candidates below n |
| Queries.IdsBelowDescending | src/api/endpoints.rs:699 | the candidates are strictly descending, newest first |
| Queries.IdsBelowComplete | src/api/endpoints.rs:699 | every quote whose id is below the bound is a candidate |
| Store.QuoteStore.Matching | src/api/endpoints.rs:670-698 | keeps exactly the ids that pass every filter |
| Store.QuoteStore.CheckShards | src/api/endpoints.rs:234-244 | the loop returns the first shard refusal, as `FirstShardFailure` defines it |
| Store.QuoteStore.InsertQuote | src/api/endpoints.rs:265-305 | adds the quote under the next id, with its shards numbered 1..n; nothing else changes |
| Store.QuoteStore.CreateQuote | src/api/endpoints.rs:216-329 | the outcome is `CreateVerdict`; every rejection happens before any write; on success the quote and its indexed shards are added under one fresh id, which has no hide, vote or favourite yet |
| Store.QuoteStore.DeleteQuote | src/api/endpoints.rs:331-370 | only the quote's submitter can delete it; the quote and its shards, hide, votes, reports and favourites go; anything else is rejected with the state unchanged |
| Store.QuoteStore.HideQuoteById | src/api/endpoints.rs:184-214 | a hide is recorded only when the quote exists and the caller is privileged or a speaker in it; a second hide is an internal error |
| Store.QuoteStore.HideQuote | src/api/endpoints.rs:373-398 | a reason shorter than 10 bytes is rejected before anything is written; otherwise the outcome is that of `HideQuoteById` |
| Store.QuoteStore.ReportQuote | src/api/endpoints.rs:400-455 | a report is added under the next report id only when the quote exists, is not hidden and this reporter has not reported it; anything else is rejected with the state unchanged |
| Store.QuoteStore.VoteQuote | src/api/endpoints.rs:534-586 | when the quote exists and is unhidden, or the caller is privileged, the caller's vote is set, replacing any earlier one, and nothing else changes; being involved does not help; otherwise the call is rejected |
| Store.QuoteStore.UnvoteQuote | src/api/endpoints.rs:588-631 | removes only the caller's vote, under the same guard; when there is no vote to remove the call is rejected |
| Store.QuoteStore.ResolveReport | src/api/endpoints.rs:808-845 | only a privileged caller gets here, as the admin-only guard admits; with no open report the call is rejected; otherwise every open report gets the caller as resolver; when a hide is asked for, the quote is hidden with a report's reason in the same transaction, and if that hide fails the resolution is rolled back; after a resolution the quote has no open report, so a second resolve is rejected |
| Store.QuoteStore.FavoriteQuote | src/api/endpoints.rs:847-890 | adds the favourite; a missing quote or a repeated favourite violates a constraint and gives an internal error, never the zero-rows rejection |
| Store.QuoteStore.UnfavoriteQuote | src/api/endpoints.rs:892-933 | removes the caller's favourite; when there is none the call is rejected |
| Store.QuoteStore.GetQuote | src/api/endpoints.rs:457-532 | no visible rows gives a 404; otherwise the rows are rebuilt and the first quote is returned, with a panic when there is none |
| Store.QuoteStore.GetQuotes | src/api/endpoints.rs:633-750 | a negative limit makes the query fail; otherwise the listed quotes' rows are rebuilt |
| Store.QuoteStore.GetReports | src/api/endpoints.rs:767-800 | one entry per quote with open reports; each entry holds exactly that quote's open reports, in report-id order |
| Queries.ShardRowsShape | src/api/endpoints.rs:487-509 | a quote's rows from shard `from` on are its shards `from`, `from+1`, …, up to the first gap |
| Queries.QuoteRowsShape | src/api/endpoints.rs:487-509 | a quote produces 1 to 6 rows, one per shard index 1..n, in index order |
| Queries.QuoteRowsGroup | src/api/endpoints.rs:464-509 | a quote's rows form one group, and the quote rebuilt from them is the stored quote as the viewer sees it: its fields and score, the viewer's own vote (none when they have not voted) and favourite, the hide exactly when one is stored and its actor has a name, and every shard in index order |
| Queries.SingleGetRowsEmpty | src/api/endpoints.rs:470-483 | the single-get query returns no rows exactly when the quote is missing or hidden from the caller: a privileged caller sees every quote; otherwise a hidden quote is shown only to its submitter or a speaker |
| Queries.GetQuoteFound | src/api/endpoints.rs:457-532 | a visible quote whose people all resolve is returned as stored |
| Queries.GetQuotePanics | src/api/endpoints.rs:521-526 | a visible quote whose submitter or first speaker does not resolve makes the handler panic |
| Queries.MatchingComplete | src/api/endpoints.rs:670-698 | every existing quote that passes the filters is among the matching ids |
| Queries.MatchingDescending | src/api/endpoints.rs:699 | filtering a newest-first list of ids keeps it newest first |
| Queries.ListedMatching | src/api/endpoints.rs:639-700 | the listing returns only existing quotes that pass the filters, newest first, at most `limit` of them, and at most 10 when no limit is given |
| Queries.ListedNewest | src/api/endpoints.rs:699-700 | every matching quote is listed, unless the limit is reached and every listed quote is newer |
| Queries.TakeOmits | src/api/endpoints.rs:699-700 | cutting a descending list at a limit drops only elements smaller than all the ones it keeps, and only when the cut was made |
| Queries.UnlimitedListing | src/api/endpoints.rs:639-642 | with a limit of -1, every matching quote is listed |
| Queries.ListingPresents | src/api/endpoints.rs:633-750 | the listing returns each listed quote, in order, as stored, when the directory resolves everybody in them |
| Queries.CreatedQuoteReadsBack | src/api/endpoints.rs:265-305 | a quote as `CreateQuote` leaves it reads back with its id, timestamp and submitter, the submitted shards in submission order, score 0, no vote, no favourite and no hide |
| Queries.SubmitterCannotHide | src/api/endpoints.rs:190-197 | without privilege, a quote's submitter can never hide it, because nobody quotes themselves |
| Queries.FirstOpenExists | src/api/endpoints.rs:818-831 | resolve finds a report exactly when the quote has an open report |
| Queries.OpenReportRowsOfSound | src/api/endpoints.rs:771-789 | the query's rows for a quote are open reports about it, each with its reason |
| Queries.OpenReportRowOf | src/api/endpoints.rs:771-789 | every open report about a quote has a row for that quote |
| Queries.OpenReportRowsSound | src/api/endpoints.rs:771-789 | every row of the open-reports query is an open report with its reason |
| Queries.OpenReportRow | src/api/endpoints.rs:771-789 | every open report of an existing quote has a row in the query |
| Queries.OpenReportsListed | src/api/endpoints.rs:767-800 | the reports endpoint's rows are exactly the open reports: nothing else, and none missing |

## Reference definitions

These definitions encode the code's SQL and loops directly. They carry no
contract of their own; the members in the table above prove what they mean.

- `Visibility.SingleGetVisible`: the visibility `CASE` of the single-get query, src/api/endpoints.rs:473-483.
- `Visibility.ListingHiddenFilter`: the `hidden` filter `CASE` of the listing, src/api/endpoints.rs:670-683.
- `Visibility.EffectiveLimit`: the listing limit (default 10, -1 for no limit), src/api/endpoints.rs:639-642.
- `Visibility.BelowCursor`: the `lt` cursor, src/api/endpoints.rs:643 and 684.
- `Tables.Score`: the vote sum and its `NULL`-to-0 `CASE`, src/api/endpoints.rs:467 and 495-506.
- `Store.CreateVerdict`: the checks of `create_quote` in order, src/api/endpoints.rs:224-258.
- `Store.QuoteStore.HideVerdict`: the guarded insert of `hide_quote_by_id` and its 400, src/api/endpoints.rs:190-209.
- `Store.QuoteStore.QuoteRows` and `Store.QuoteStore.SingleGetRows`: the rows of the single-get query, src/api/endpoints.rs:462-510.
- `Store.QuoteStore.ListingMatches` and `Store.QuoteStore.Listed`: the listing's `WHERE`, order and limit, src/api/endpoints.rs:670-700.
- `Store.QuoteStore.OpenReportRowsOf` and `Store.QuoteStore.OpenReportRows`: the open-reports query, src/api/endpoints.rs:771-789.
- `Reconstruction.Step` and `Reconstruction.Reconstruct`: one iteration of the loop of `shards_to_quotes`, and the whole pass, src/api/endpoints.rs:59-110.
- `Reports.ReportsFor` and `Reports.QuoteIds`: the map that `format_reports` fills, src/api/endpoints.rs:114-137.

## Left out

- HTTP and actix plumbing is not modelled: routing, the construction of responses and bodies, and the `SqlxErrorOrResponse` conversions (src/api/endpoints.rs:141-182). Outcomes are `Done`, `Rejected` or `Failed`.
- The directory client is not modelled: `get_quotable_members`, `users_exist`, `get_users` and the `get_users` endpoint. Their answers are inputs, with `None` standing for a transport failure.
- `is_valid_username` lives in a utility module that is not part of this model. It is the function parameter `validName`.
- SHA3-256 hashing of the reporter's name is not modelled; the digest is an input.
- Notification pings after a commit are best-effort I/O with no effect on the outcome, and are left out.
- Connection pools, transaction mechanics and concurrent requests are not modelled. Each endpoint is one atomic step, so uniqueness races between concurrent requests are not modelled either.
- A failed commit (a 500 after the writes) is not modelled.
- `get_version` reads build constants and is left out. `src/lib.rs` holds only module declarations.
- The schema is not part of this model. These of its properties are assumed:
  - primary keys on `hidden(quote_id)` and `favorites(quote_id, username)`;
  - a foreign key from `favorites` to `quotes`;
  - a unique `(quote_id, submitter_hash)` on `reports`;
  - `ON DELETE CASCADE` from every dependent table to `quotes`.
- Store.QuoteStore.ShardMatches: SQL `LIKE` and `ILIKE` wildcards are not modelled. A present speaker, submitter or involved filter is an exact match, and the search term is a case-sensitive substring match. Case folding and `%`/`_` inside user input are left out.
- Store.QuoteStore.ListingRows: rows are ordered by quote id, newest first. The query orders by timestamp first, and the model assumes timestamps rise with ids. The LIMIT is applied by id, as in the query.
- Reports.FormatReports: the source emits entries in hash-map order, which is unspecified. The contract fixes no order, and the model's body happens to emit entries in order of first appearance.
- Store.QuoteStore.ResolveReport: `fetch_one` returns whichever updated row PostgreSQL returns first, which is unspecified. The model takes the reason of the open report with the smallest id.
- Store.QuoteStore.GetQuotes: the `i64` range of the limit and the `i32` range of `lt` are not enforced. Values out of range are rejected by request parsing before the handler runs.
- Store.QuoteStore.CreateQuote: the quote's timestamp is the input `now` rather than the database default.
- Store.QuoteStore.GetReports: the admin-only guard on the route is not modelled. The method has no caller, so it answers anyone; only administrators (or anyone when security is off) reach the handler.
- Store.QuoteStore.ReportQuote: report ids are handed out densely. In PostgreSQL an `INSERT … ON CONFLICT DO NOTHING` that conflicts still consumes a sequence value, so the ids the reports endpoint returns can have gaps. Running out of report ids is not modelled either.

## Behaviour kept from the code

Where the code departs from the obvious design, the model follows the code:

- a second hide of a hidden quote is an internal error (the insert has no conflict clause), not a rejection;
- favouriting a missing quote, or favouriting twice, is an internal error, so the "already favorited or doesn't exist" branch is unreachable;
- resolve marks every open report on the quote resolved, not just one;
- the listing without a hidden filter applies the unprivileged rule even to privileged callers, so a privileged viewer sees a hidden quote through `get_quote` but not in the listing (`Visibility.DefaultListingIgnoresPrivilege`);
- being involved in a hidden quote does not let a caller vote on it or remove their vote; only privilege does (`Store.QuoteStore.VoteQuote`, `Store.QuoteStore.UnvoteQuote`);
- the reconstruction skips a row whose people do not resolve. A skipped opening row sends its quote's later shards to the previous quote, or panics when there is no previous quote (`Reconstruction.SkippedOpeningRowMisattributes`, `Reconstruction.PanicsExactly`);
- `get_quote` panics when its quote's opening row is skipped (`Queries.GetQuotePanics`);
- the 10-character minimum of a hide reason counts UTF-8 bytes, not characters (`Types.Utf8Len`).
