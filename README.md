# Payouts API: cursor-paginated listing and owner-scoped lookup

This project models `Api::V2::PayoutsController`, the version 2 API endpoint through which a seller
lists and reads their payouts, and proves properties of the model in Dafny.

- `index` validates two optional dates, `before` and `after`, and an optional `page_key`.
- It then lists the seller's displayable payouts inside the half-open date window, newest first.
  The order is `created_at` descending, then `id` descending.
- It returns at most `RESULTS_PER_PAGE` = 10 payouts. When more rows remain, it also returns
  next-page information built from the last payout kept.
- A page key decodes to a pair `(created_at, id)`. The next request then keeps only rows with
  `created_at <= t and id < i`.
- `show` looks up a payout by external id among the seller's own payments only.

Files:

- `payment.dfy`: the payment row, the `(created_at, id)` position a page key stands for, and the
  listing order.
- `relation.dfy`: the relation operations the controller chains, as functions on sequences:
  `where`, `order(created_at: :desc, id: :desc)`, and `limit` / `first`. Also lemmas on how they
  compose.
- `payouts_controller.dfy`:
  - `Index`, a method that follows the controller step by step and is proved equal to the
    declarative `ExpectedIndex`;
  - `FilterPayouts`;
  - `Show`.
- `pagination.dfy`: what one request, two consecutive requests and a whole sequence of requests
  guarantee, and the row-skipping counterexample.

External collaborators are fields of the `Env` datatype:

- `Date.strptime` gives the start of the day, or `None` where it raises `ArgumentError`.
- `decode_page_key` gives a `(created_at, id)` pair, or `None` where it raises `ArgumentError`.
- The external-id decoding of `find_by_external_id` gives an internal id, or `None`.

Resuming strictly after `(t, i)` in `(created_at desc, id desc)` order is the lexicographic
condition `created_at < t or (created_at = t and id < i)`. The code at `payouts_controller.rb:27`
uses `created_at <= t and id < i`. The model follows the code:

- `Index` and `ExpectedIndex` use `CursorRule.AsWritten`.
- The lexicographic rule, `CursorRule.Lexicographic`, is modelled alongside it for the finding below.

## Model

| member | source | states |
|---|---|---|
| PaymentModel.KeyOf | app/controllers/api/v2/payouts_controller.rb:36 | Definition of the position `pagination_info(payouts.last)` encodes: the row's own `(created_at, id)`. |
| PaymentModel.Precedes | app/controllers/api/v2/payouts_controller.rb:59 | Definition of `order(created_at: :desc, id: :desc)` as a relation: a later `created_at` first, then the larger `id`. Its properties are `PrecedesIsTotalPreorder`. |
| PayoutsController.InScope | app/controllers/api/v2/payouts_controller.rb:56 | Definition of membership in `current_resource_owner.payments.displayable`: the owner's row, displayable. |
| PayoutsController.InWindow | app/controllers/api/v2/payouts_controller.rb:57-58 | Definition of the two conditional `where`s: `created_at >= start` when a start is given, `created_at < end` when an end is given. |
| PayoutsController.Listed | app/controllers/api/v2/payouts_controller.rb:27-31 | Definition of the whole condition a listed row meets: scope and window from `filter_payouts`, and the cursor condition when a page key was decoded. `FilterPayouts` and `CursorSelectsMatching` tie it to the chain as written. |
| PayoutsController.Matching | app/controllers/api/v2/payouts_controller.rb:30-31 | Definition of the rows a request matches before `limit`: `Listed` rows in listing order. `CursorSelectsMatching` and `NoCursorSelectsMatching` prove the controller's chain yields them. |
| PayoutsController.ParseOptional | app/controllers/api/v2/payouts_controller.rb:10 | Definition of parsing an optional date parameter: no bound when absent, the parser's result when given (also line 16). |
| PayoutsController.QueryOf | app/controllers/api/v2/payouts_controller.rb:21-23 | Definition of the query a request becomes: the parsed window, and the decoded page key when the key is present. |
| PayoutsController.IsBlank | app/controllers/api/v2/payouts_controller.rb:21 | Definition of Rails `blank?` on a string: empty or only whitespace. Its consequence is `BlankPageKeyIsIgnored`. |
| PayoutsController.PageKeyPresent | app/controllers/api/v2/payouts_controller.rb:21 | Definition of `params[:page_key].present?`: given and not blank. |
| PayoutsController.Admits | app/controllers/api/v2/payouts_controller.rb:27 | Definition of the cursor condition: `created_at <= t and id < i` as written, or the lexicographic rule. Which rows it admits at a listed position is `AsWrittenExactAt`. |
| PayoutsController.Listing | app/controllers/api/v2/payouts_controller.rb:30-36 | Definition of a validated request's page: the first 10 matching rows, and the position of the 10th when an 11th exists. Its properties are `ListingRows`, `NextPageIffMoreRows` and `PageHoldsLatestRows`. |
| PayoutsController.ExpectedIndex | app/controllers/api/v2/payouts_controller.rb:8-39 | Declarative statement of `index`: the first failing check among `before`, `after`, `page_key`, otherwise `Listing` under the condition as written. `Index` is proved equal to it. |
| PayoutsController.Index | app/controllers/api/v2/payouts_controller.rb:8-39 | The controller run step by step answers exactly `ExpectedIndex`. `before` is checked, then `after`, then `page_key`, each with its own 400 message. Otherwise the response is the first 10 matching rows in listing order, plus the last row kept when an 11th row exists. |
| PayoutsController.FilterPayouts | app/controllers/api/v2/payouts_controller.rb:55-60 | The chain of `where`s and `order` gives the owner's displayable rows with `start <= created_at < end`, each bound applying only when given, ordered by `created_at` desc, then `id` desc. |
| PayoutsController.FilterPayoutsSelects | app/controllers/api/v2/payouts_controller.rb:56-58 | The three `where`s applied one after another select the same rows as the single combined condition. |
| PayoutsController.CursorSelectsMatching | app/controllers/api/v2/payouts_controller.rb:27-31 | Applying `created_at <= t and id < i` to the ordered output of `filter_payouts` gives the rows meeting the whole condition, in listing order. |
| PayoutsController.NoCursorSelectsMatching | app/controllers/api/v2/payouts_controller.rb:30-31 | Without a page key, the output of `filter_payouts` is already the rows meeting the whole condition. |
| PayoutsController.FirstOwned | app/controllers/api/v2/payouts_controller.rb:42 | Lookup inside `owner.payments`. A row found belongs to the owner and has the id. Nothing is found exactly when no row of the owner has that id. |
| PayoutsController.Show | app/controllers/api/v2/payouts_controller.rb:41-44 | A payout is found exactly when the external id decodes to the id of one of the owner's rows. The payout found is the owner's, with that id. |
| Pagination.ListingRows | app/controllers/api/v2/payouts_controller.rb:30-35 | A page holds at most 10 rows, each from the table and meeting scope, window and cursor conditions. |
| Pagination.IndexReturnsOwnDisplayable | spec/controllers/api/v2/payouts_controller_spec.rb:148-157 | A successful `index` returns at most 10 payouts, each belonging to the owner and displayable. |
| Pagination.NextPageIffMoreRows | app/controllers/api/v2/payouts_controller.rb:32-36 | Next-page information is present exactly when more than 10 rows match. It then comes with a full page and is the position of its 10th row. |
| Pagination.WindowIsHalfOpen | app/controllers/api/v2/payouts_controller.rb:57-58 | On success, each given date parsed, and every returned row has `after <= created_at < before`. |
| Pagination.EmptyWindowGivesEmptyPage | spec/controllers/api/v2/payouts_controller_spec.rb:139-146 | A request that passes validation, whose window holds none of the owner's displayable payouts, gives an empty page with no next-page information. Either, both or neither bound may be given. |
| Pagination.LateStartGivesEmptyPage | app/controllers/api/v2/payouts_controller.rb:57 | With only `after` given, a start later than every payout of the owner gives an empty page with no next-page information. |
| Pagination.InvertedWindowGivesEmptyPage | app/controllers/api/v2/payouts_controller.rb:57-58 | In particular `after` not before `before` gives an empty page, whatever the table. |
| Pagination.PageHoldsLatestRows | spec/controllers/api/v2/payouts_controller_spec.rb:173-184 | A page is in listing order. Every matching row left off the page is listed after every row on it. |
| Pagination.ErrorsComeInOrder | app/controllers/api/v2/payouts_controller.rb:9-26 | A bad `before` wins over everything else. A bad `after` wins over a bad page key. The request fails exactly when one of the three checks fails. |
| Pagination.BlankPageKeyIsIgnored | app/controllers/api/v2/payouts_controller.rb:21 | A blank `page_key` is not `present?`. The answer is the same as with no page key. |
| Pagination.PageStaysBelowCursor | app/controllers/api/v2/payouts_controller.rb:27-31 | With a page key decoding to `(t, i)`, every returned row has `created_at <= t` and `id < i`. |
| Pagination.NextPageRepeatsNoRow | spec/controllers/api/v2/payouts_controller_spec.rb:73-80 | Requesting with a key that decodes to the announced next position succeeds. It returns no row of the previous page. |
| Pagination.Follow | app/controllers/api/v2/payouts_controller.rb:30-36 | The rows a client collects by requesting a page and then each next position it is handed. The page requested first comes first. |
| Pagination.Walk | app/controllers/api/v2/payouts_controller.rb:30-36 | `Follow` through `index` on a fixed table and window. The first page requested comes first. |
| Pagination.WalkStaysInScope | app/controllers/api/v2/payouts_controller.rb:56-58 | Every row a walk collects is one of the owner's displayable payouts inside the window, however many keys are followed. |
| Pagination.MatchingAfterCursor | app/controllers/api/v2/payouts_controller.rb:27-31 | The rows matching with a cursor are the rows matching without one, filtered by the cursor condition, in the same order. |
| Pagination.MatchingAtPosition | app/controllers/api/v2/payouts_controller.rb:27-31 | Suppose the cursor condition at the position of row j admits exactly the rows after j. Then the rows matching at that position are the rows after j. |
| Pagination.PageAtPosition | app/controllers/api/v2/payouts_controller.rb:27-36 | Under the same condition at row j alone, the page at the position of row j is rows j+1 to j+10. Its next position is that of row j+10 when more rows remain, and absent otherwise. |
| Pagination.FollowFrom | app/controllers/api/v2/payouts_controller.rb:32-36 | Suppose each row ending a full page (rows 9, 19, ...) has the page after it at its position. Then following next positions from such a row, given enough requests, collects exactly the rows after it, in order. |
| Pagination.FollowAll | app/controllers/api/v2/payouts_controller.rb:32-36 | Under the same assumption, from the first page `ceil(K / 10)` requests collect all K rows, in order. |
| Pagination.WalkVisitsAll | app/controllers/api/v2/payouts_controller.rb:30-36 | Suppose the position of each row ending a full page admits exactly the later rows; those are the only positions a client is handed. Then following next-page keys from an unbounded first request returns all matching rows in listing order. |
| Pagination.LexicographicCursorIsExact | app/controllers/api/v2/payouts_controller.rb:59 | With unique ids, the lexicographic condition at a row's position admits exactly the rows listed after it. |
| Pagination.AsWrittenCursorIsExact | app/controllers/api/v2/payouts_controller.rb:27 | Ids are unique and never smaller for a later `created_at`. Then `created_at <= t and id < i` at a row's position admits exactly the rows listed after it. |
| Pagination.LexicographicWalkVisitsAll | app/controllers/api/v2/payouts_controller.rb:27 | Corrected rule, unique ids: following the keys, `ceil(K / 10)` requests in all, returns each matching row exactly once, in listing order. Order is given by `SortedDesc`; "exactly once" by multiset equality. |
| Pagination.AsWrittenWalkVisitsAllWhenIdsFollowCreation | app/controllers/api/v2/payouts_controller.rb:27 | The same completeness holds for the condition as written when ids follow creation order. This is sufficient, not necessary. |
| Pagination.AsWrittenExactAt | app/controllers/api/v2/payouts_controller.rb:27 | In listing order with unique ids, `created_at <= t and id < i` at the position of row j never admits an earlier row. It is exact there precisely when every later row has a smaller id. |
| Pagination.OneNewerRowThenBatch | app/controllers/api/v2/payouts_controller.rb:27 | Rows in listing order with unique ids, all created at one time except a single newer row: every position after the first is exact under the condition as written. |
| Pagination.BatchRows | spec/controllers/api/v2/payouts_controller_spec.rb:59 | A `create_list` batch of n payouts created together has ids in creation order. |
| Pagination.TestTableListing | spec/controllers/api/v2/payouts_controller_spec.rb:23-24 | On the tests' table (the seller's payout and another seller's, both a day old, then a batch of the seller's created earlier), the seller's listing has the batch size plus one rows, and every position but the first is exact under the condition as written. |
| Pagination.TestTableIdsDoNotFollowCreation | spec/controllers/api/v2/payouts_controller_spec.rb:57-60 | On that table the payout of a day ago has a smaller id than the older batch, so ids do not follow creation order. |
| Pagination.NextPageTest | spec/controllers/api/v2/payouts_controller_spec.rb:57-82 | With ten more payouts two days old: eleven rows; the first page is the first ten and ends at the tenth; the page at that key is the eleventh, with no next page; following the key once collects all eleven. |
| Pagination.LaterPagesTest | spec/controllers/api/v2/payouts_controller_spec.rb:84-96 | With thirty more payouts three days old: at the key of row 10 the page is rows 11 to 20, and its next key is that of row 20. |
| Pagination.RowNeverWalked | app/controllers/api/v2/payouts_controller.rb:31-36 | A row missing from a first page whose next position leads to an empty page is never returned, however many keys are followed. |
| Pagination.AsWrittenSkipsRow | app/controllers/api/v2/payouts_controller.rb:27 | On `SkipExample`, the payout with id 20 is never returned by following next-page keys under the condition as written. |
| Pagination.SkipExampleLateRowMatches | app/controllers/api/v2/payouts_controller.rb:55-60 | On `SkipExample`, the payout with id 20 matches the unbounded request. |
| Pagination.LexicographicReturnsSkippedRow | app/controllers/api/v2/payouts_controller.rb:27 | On `SkipExample`, two requests under the lexicographic rule return all eleven rows, the payout with id 20 last. |
| Pagination.ShowFindsOwnPayout | spec/controllers/api/v2/payouts_controller_spec.rb:222-228 | With unique ids, `show` finds the owner's payout the external id resolves to, whether or not it is displayable. |
| Pagination.ShowHidesOtherOwners | spec/controllers/api/v2/payouts_controller_spec.rb:230-246 | When no row of the owner has the decoded id, or the id does not decode, the answer is the same `NotFound`. |
| Relation.Where | app/controllers/api/v2/payouts_controller.rb:57-58 | `where` returns no more rows than it is given. What it keeps is `WhereSelects`. |
| Relation.WhereSelects | app/controllers/api/v2/payouts_controller.rb:57-58 | `where` keeps exactly the rows satisfying the condition. |
| Relation.WhereKeepsOrder | app/controllers/api/v2/payouts_controller.rb:31 | `where` on ordered rows leaves them in listing order. |
| Relation.WhereKeepsIdsUnique | app/controllers/api/v2/payouts_controller.rb:31 | `where` keeps primary keys unique. |
| Relation.WhereAppend | app/controllers/api/v2/payouts_controller.rb:57-58 | `where` distributes over concatenation. |
| Relation.Insert | app/controllers/api/v2/payouts_controller.rb:59 | Inserting a row into ordered rows keeps them ordered and adds exactly that row. |
| Relation.OrderDesc | app/controllers/api/v2/payouts_controller.rb:59 | `order(created_at: :desc, id: :desc)` returns the same rows, as a multiset, in listing order. |
| Relation.Take | app/controllers/api/v2/payouts_controller.rb:32-35 | `limit(n)` and `first(n)` return the first `min(n, size)` rows. |
| Relation.WhereAll | app/controllers/api/v2/payouts_controller.rb:57-58 | A condition every row meets selects all rows, unchanged. |
| Relation.WhereNone | app/controllers/api/v2/payouts_controller.rb:57-58 | A condition no row meets selects nothing. |
| Relation.TakeOfTake | app/controllers/api/v2/payouts_controller.rb:32-35 | `limit(11)` followed by `first(10)` is `limit(10)`. |
| Relation.WhereCongruent | app/controllers/api/v2/payouts_controller.rb:57-58 | Conditions that agree on every row select the same rows. |
| Relation.WhereWhere | app/controllers/api/v2/payouts_controller.rb:57-58 | Two chained `where`s are one `where` on the conjunction. |
| Relation.WhereInsert | app/controllers/api/v2/payouts_controller.rb:31 | Filtering commutes with inserting into ordered rows. |
| Relation.WhereOrderDesc | app/controllers/api/v2/payouts_controller.rb:31 | A `where` after `order` gives the same rows in the same order as `order` after `where`. |
| Relation.OrderDescOfSorted | app/controllers/api/v2/payouts_controller.rb:59 | `order` leaves rows already in listing order unchanged. |
| Relation.InsertKeepsIdsUnique | app/controllers/api/v2/payouts_controller.rb:59 | Inserting a row with a new id keeps ids unique. |
| Relation.OrderDescKeepsIdsUnique | app/controllers/api/v2/payouts_controller.rb:59 | `order` keeps ids unique. |
| Relation.WhereSuffix | app/controllers/api/v2/payouts_controller.rb:31 | A condition that holds exactly from position m on selects the suffix from m. |
| PaymentModel.PrecedesIsTotalPreorder | app/controllers/api/v2/payouts_controller.rb:59 | Listing order is reflexive, total and transitive. Two rows precede each other exactly when they have the same `(created_at, id)`. |

## Left out

- OAuth scope checks (`doorkeeper_authorize!`, line 4) and the 401/403 responses: these belong to the framework.
- JSON shaping is not modelled: `as_json(version: 2)`, the `success` flag, and rendering amounts as decimals.
  The model returns the payment rows themselves.
- `pagination_info` is not part of this model. The model returns the boundary `(created_at, id)`
  that the next page key encodes, not the key text or the `next_page_url` string.
- `decode_page_key`, `Date.strptime` and `ObfuscateIds` are not part of this model. They are
  function-typed parameters in `Env`, so any single outcome they can give is covered.
- `Follow`, `Walk` and the lemmas about them pass each announced next position straight back as the
  next cursor. They assume that `decode_page_key` inverts the key `pagination_info` encodes; that
  round trip is not proved. `NextPageRepeatsNoRow` goes through `Env` and states it as a requirement.
- `IsBlank` treats only ASCII whitespace as blank. Rails `blank?` also treats Unicode whitespace as blank.
- Only `ArgumentError` from date parsing and page-key decoding is modelled, as `None`. Other
  exceptions, and database failures, propagate in the source and are not modelled.
- The SQL query itself is not modelled. The relation is evaluated as functions on a sequence of rows,
  with timestamps as integers in one fixed unit and no time zones.
- Concurrent inserts between two page requests are not modelled. Each request sees one fixed table.
- `Walk` counts requests with a `fuel` bound. The completeness lemmas give the number of requests
  that suffices, `ceil(K / 10)`.
- The React support UI, `support_controller.rb` and the migration are not part of this model.
  They hold no pagination or lookup logic.

## Findings

| source | as written | input that shows it | evidently intended | confidence | as-written member | corrected member |
|---|---|---|---|---|---|---|
| app/controllers/api/v2/payouts_controller.rb:27 | the next page keeps rows with `created_at <= t and id < i` | one owner, ten displayable payouts at time 100 with ids 11 down to 2, and one at time 50 with id 20. The first page ends at (100, 2) and announces a next page, and the page at that key is empty. Payout 20 is never returned. | rows strictly after `(t, i)` in `(created_at desc, id desc)` order: `created_at < t or (created_at = t and id < i)` | not executed | Pagination.AsWrittenSkipsRow | Pagination.LexicographicWalkVisitsAll |

The controller model, `Index` and `ExpectedIndex`, keeps the condition as written, to stay
faithful to the code.

- `Pagination.AsWrittenExactAt` says exactly when the condition as written is safe at a position:
  every row listed after it must have a smaller id. A row listed later with a larger id, created
  earlier, is skipped.
- `Pagination.AsWrittenWalkVisitsAllWhenIdsFollowCreation` shows that no row is lost when ids grow
  with creation time. The tests' tables do not have that property: their payout of a day ago has
  the smallest id. `Pagination.NextPageTest` and `Pagination.LaterPagesTest` show that the
  positions those tests use are still exact, so the model gives what those tests expect under the condition as written.
- `Pagination.LexicographicReturnsSkippedRow` shows the corrected rule returning the skipped row
  in the example.
