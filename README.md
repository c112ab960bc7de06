# Account directory of a retail banking app, in Dafny

This project models the read-only account handlers of a banking back end
(`backend/src/controllers/accountController.ts`) and proves what they promise.
The handlers answer the caller's own accounts, one account by id, an
account's transaction history in pages, a search by account number for a
transfer recipient, and a directory of other users with their active
accounts.

Each handler is a pure function. Its inputs are the documents in the store
(users, accounts and transactions, in the database's natural order), the
authenticated caller's user id, and the request's parameters. Its output is
the response body or the error kind the handler answers with:

- `InvalidInput`, sent as 400;
- `NotFound`, sent as 404;
- `InvalidOperation`, sent as 400;
- `Internal`, sent as 500.

The modules follow the code:

- `Types` holds the records of `frontend/src/types/index.ts` plus the store.
- `Seqs` holds the order-preserving filter, first-match and limit operations that the database queries perform.
- `EmailMask` models the regular-expression replacement that masks emails.
- `LedgerQuery` models the history query: filter, sort newest first, skip and limit, ceiling division.
- `AccountController` holds the five handlers and the lemmas about them.

Text is a sequence of characters below U+10000. Each such character is
exactly one UTF-16 code unit, so JavaScript's `length` and the regular
expression's `.` count as Dafny's sequence length and elements do.
Timestamps are integers and ids are opaque numbers.

Some of the code's behaviour is easy to misread; the model follows the code:

- Only a *missing* `page` or `limit` takes its default (1 and 20). An invalid one is not replaced.
- The mask keeps the first two characters of the whole address, not of its local part.
- The mask keeps everything from the *last* `@` on, and leaves an address with no `@` at index 2 or later unchanged.
- The database promises no order between transactions with equal `createdAt`. The model sorts them in one fixed way, which every request shares (see "## Left out"), and the sort's own contract claims only the order and the permutation.
- A found account whose owner has no user record makes the search throw. The model answers `Internal` for it.

## Model

| member | source | states |
|---|---|---|
| Seqs.Filter | backend/src/controllers/accountController.ts:9 | a query's filter keeps exactly the elements that satisfy it, and no more than the input holds |
| Seqs.FilterAppend | backend/src/controllers/accountController.ts:152 | filtering keeps relative order: it distributes over concatenation |
| Seqs.First | backend/src/controllers/accountController.ts:21-24 | `findOne` gives nothing exactly when no document matches, otherwise the first match in natural order |
| Seqs.FirstUnique | backend/src/controllers/accountController.ts:95-98 | when one document alone matches, `findOne` returns it |
| Seqs.FirstOfFilter | backend/src/controllers/accountController.ts:21-24 | a lookup on two conditions equals a lookup on one of them inside the documents filtered by the other |
| Seqs.Take | backend/src/controllers/accountController.ts:129 | `limit(n)` keeps the first n elements, or all of them when there are fewer |
| Seqs.FilterIsSubsequence | backend/src/controllers/accountController.ts:152 | a filter's result is a subsequence of its input |
| Seqs.TakeIsSubsequence | backend/src/controllers/accountController.ts:129 | a limited result is a subsequence of its input |
| Seqs.MapIsMonotone | backend/src/controllers/accountController.ts:132-149 | mapping every element preserves the subsequence relation |
| Seqs.FilterIndex | backend/src/controllers/accountController.ts:127-129 | the k-th element a filter keeps is an element of the input preceded by exactly k kept elements |
| Seqs.SubsequenceTransitive | backend/src/controllers/accountController.ts:127-152 | the subsequence relation is transitive, so the directory's chain of filter, limit, map and filter keeps order |
| EmailMask.LineEnd | backend/src/controllers/accountController.ts:115 | `.` runs up to the first line terminator: every character before the returned end is matched and the end is a terminator or the end of the text |
| EmailMask.LastAt | backend/src/controllers/accountController.ts:115 | the greedy `(.*)` backs off to the last `@` of a range, or there is none |
| EmailMask.MatchAt | backend/src/controllers/accountController.ts:115 | at one position the pattern fails exactly when no split of the text matches it; otherwise the chosen split has the last possible `@` and ends at the line end |
| EmailMask.FirstMatch | backend/src/controllers/accountController.ts:115 | the replacement uses the leftmost position at which the pattern matches, and none when no position does |
| EmailMask.MaskSingleLine | backend/src/controllers/accountController.ts:115 | a one-line address with an `@` at index 2 or later becomes its first two characters, `***`, and the suffix from its last `@` |
| EmailMask.MaskUnmatched | backend/src/controllers/accountController.ts:115 | an address with no `@` at index 2 or later is returned unchanged |
| EmailMask.MaskExample | backend/src/controllers/accountController.ts:115 | `john.doe@example.com` is shown as `jo***@example.com` |
| EmailMask.MaskIdempotent | backend/src/controllers/accountController.ts:115 | masking an already masked address changes nothing, whatever line terminators it holds |
| LedgerQuery.InsertByDate | backend/src/controllers/accountController.ts:59 | inserting into a newest-first list keeps it newest first and adds exactly that entry |
| LedgerQuery.SortNewestFirst | backend/src/controllers/accountController.ts:59 | `sort({ createdAt: -1 })` returns a permutation of its input in non-increasing `createdAt` order |
| LedgerQuery.AccountHistory | backend/src/controllers/accountController.ts:53-59 | an account's history holds exactly the transactions from or to it, newest first |
| LedgerQuery.NewestFirstUnique | backend/src/controllers/accountController.ts:59 | when no two transactions share a `createdAt`, `sort({ createdAt: -1 })` has only one possible result |
| LedgerQuery.HistoryOrderUnique | backend/src/controllers/accountController.ts:53-59 | when the account's transactions have distinct `createdAt`, every newest-first arrangement of them is the model's history |
| LedgerQuery.PageWindow | backend/src/controllers/accountController.ts:60-61 | `skip(k).limit(n)` holds min(n, max(0, total - k)) entries, the i-th being entry k + i |
| LedgerQuery.WindowNewestFirst | backend/src/controllers/accountController.ts:59-61 | a page of a newest-first list is newest first |
| LedgerQuery.CeilDiv | backend/src/controllers/accountController.ts:78 | `Math.ceil(total / limit)` is the least page count whose pages hold every entry |
| LedgerQuery.HistoryPage | backend/src/controllers/accountController.ts:51-78 | one page of the history: page and limit echoed, total = all transactions touching the account, pages = ceil(total / limit), entries = the window at (page - 1) * limit, newest first, each touching the account |
| LedgerQuery.PagesArePrefix | backend/src/controllers/accountController.ts:51-61 | reading pages 1 to n of one fixed list in turn gives its first n * limit entries |
| LedgerQuery.PagesCoverHistory | backend/src/controllers/accountController.ts:51-78 | reading pages 1 to `pages` of one fixed list gives the whole list, each entry once |
| LedgerQuery.PageEmptyIffPastLast | backend/src/controllers/accountController.ts:60-78 | a page is empty exactly when its number exceeds `pages` |
| AccountController.GetAccounts | backend/src/controllers/accountController.ts:7-15 | the result holds exactly the accounts whose owner is the caller, in store order |
| AccountController.GetAccountById | backend/src/controllers/accountController.ts:17-35 | an account is returned exactly when one has that id and belongs to the caller; otherwise NotFound |
| AccountController.GetAccountByIdHidesOtherOwners | backend/src/controllers/accountController.ts:21-28 | the answer depends only on the caller's accounts, so a missing account and another user's account give the same NotFound |
| AccountController.GetAccountTransactions | backend/src/controllers/accountController.ts:37-85 | NotFound exactly when the caller owns no account with that id; otherwise the history page for the given or default (1, 20) page and limit |
| AccountController.TotalIndependentOfPage | backend/src/controllers/accountController.ts:65-78 | total and page count do not depend on the page asked for |
| AccountController.TransactionsHideOtherOwners | backend/src/controllers/accountController.ts:42-49 | the history answer depends only on the caller's accounts and the transactions |
| AccountController.SearchAccountByNumber | backend/src/controllers/accountController.ts:87-123 | InvalidInput exactly for numbers shorter than 3; NotFound exactly when no active account has the number; Internal only for an owner without a user record; InvalidOperation only for the caller's own active account; otherwise the projection with owner name and masked email of an active account held by someone else |
| AccountController.SearchCheckOrder | backend/src/controllers/accountController.ts:91-116 | for a number on one active account, the checks decide in order: length, owner record present, owner not the caller, then the projection |
| AccountController.SearchIgnoresInactive | backend/src/controllers/accountController.ts:95-102 | inactive and frozen accounts are treated as missing: removing them changes no answer |
| AccountController.UserEntry | backend/src/controllers/accountController.ts:133-148 | a listed user carries the masked email and exactly their active accounts, projected to id, number and type |
| AccountController.GetAllActiveUsers | backend/src/controllers/accountController.ts:125-159 | at most 50 entries, none for the caller, each the entry, with at least one active account, of a stored user who is among the first 50 users other than the caller |
| AccountController.DirectoryComplete | backend/src/controllers/accountController.ts:127-152 | every user among the first 50 non-callers who has an active account is listed |
| AccountController.DirectoryIgnoresLaterUsers | backend/src/controllers/accountController.ts:127-129 | users after the first 50 non-callers are never looked at |
| AccountController.DirectoryKeepsOrder | backend/src/controllers/accountController.ts:127-152 | the directory is a subsequence of all users' entries, so relative order is kept |

## Left out

- The transfer, deposit and withdrawal engines. No back-end code for them is part of this model, so conservation, overdraft, atomicity and idempotent retry are not stated.
- Database and runtime failures. Every handler's `catch` answers 500 for them. Only the search's missing owner record is modelled, as `Internal`.
- Ids that cannot be cast to an ObjectId, which make the query throw. Ids are opaque numbers here.
- AccountController.GetAccountTransactions: requires a page and limit of at least 1. JavaScript and the database give odd meanings to other values: `limit(0)` means no limit, a negative skip is refused, `Number('abc')` is NaN and `Math.ceil` of a division by zero is Infinity. Page and limit are modelled as whole numbers.
- LedgerQuery.SortNewestFirst: places equal `createdAt` entries in one fixed way, but claims only the order and the permutation, because the database promises no tie order.
- LedgerQuery.HistoryPage: every page is cut from the same fixed tie order. The program sorts afresh on each request, and the database may order transactions with equal `createdAt` differently each time, so one can appear on two pages and another on none. PagesArePrefix and PagesCoverHistory therefore hold for the program only when the account's transactions have distinct `createdAt`; HistoryOrderUnique proves that the order is then forced.
- `populate` of the history entries' account references, and the `select` projections (`-__v`). Entries are returned as stored.
- Promise.all in the directory runs the per-user queries concurrently. It is modelled as an order-preserving map.
- The count and the page query of the history are separate reads. The model reads one snapshot, so they always agree.
- Characters above U+FFFF. JavaScript counts them as two code units in `length` and in `.`. Text is restricted to single-unit characters instead.
- Response messages and JSON encoding. StatusCode gives the HTTP status of each error kind.
- Start-up, rate limiting, CORS, route wiring and the front-end pages, which are configuration, middleware or presentation.
