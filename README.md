# Issue list resolver

A Dafny model of the listing logic of the issue tracker's issue list page (`IssuesPage`). The page
takes three untrusted query parameters, `status`, `orderBy` and `page`, and turns them into:

- a status filter, taken only from the `Status` enum of the database schema;
- one ascending sort field, taken only from the table's columns (`title`, `status`, `createdAt`);
- a page window `skip = (page - 1) * 10`, `take = 10`, where the page comes from JavaScript's
  `parseInt(page) || 1`.

With these it runs a listing query and a count query against the store. When `status` is `All`,
the listing drops the filter and the window and lists every issue. The count always uses the same
`where` object as the paged listing. The model also covers the column-header links, which copy the
query string and replace `orderBy`, and the arrow shown on the sorted column.

Modules:

- `Wrappers`: `Option` and `Result`.
- `JsParseInt`: `parseInt(string)` with the radix left undefined, as ECMA-262 section 19.2.5
  defines it. It covers leading white space (StrWhiteSpaceChar, section 7.1.4.1.1), the sign, the
  `0x` prefix and the longest digit prefix, plus the `|| 1` default.
- `IssueStore`: the `Issue` rows and the store's `findMany` / `count` semantics. `findMany` filters
  the rows, sorts them ascending on one key, then skips and takes. Ties have no fixed order, so
  `FindManyReturns` admits the window of *any* sorted ordering of the matching rows. `FindMany`
  is one admissible evaluation: a stable insertion sort. It exists to show the relation can
  always be met.
- `IssueList`: the resolver (`EffectiveStatus`, `EffectiveOrderBy`, `ParsePage`, `Resolve`), the
  page (`PageResult` is the relation, `IssuesPage` one evaluation of it), the headers, and the
  lemmas about every admissible outcome.

The members of `Status` come from a schema that is not part of this model. The enum is therefore a
value, `Db.statusEnum`, listed in declaration order. It is used both for membership and for the
ascending order on `status`. Where a property needs `"All"` to be outside the enum, it says so as a
`requires`. `AllMustNotBeAStatus` shows that the count and the listing would use different filters otherwise.

Two behaviours of the code are worth stating plainly:

- Page numbers. Only NaN and 0 become page 1 (`|| 1`); a negative number is kept. So `?page=-2`
  gives page -2 and `skip = -30`, and every negative page `n` gives `skip = (n - 1) * 10`
  (`NegativePageSkip`). The model assumes the store client rejects a negative `skip` before it
  queries anything. So a paged listing fails exactly when the page is below 1
  (`PagedListingFailsBelowPageOne`, `NegativePageFails`). The `All` listing never fails.
- The count in `All` mode. The code always counts with `{ status }`, where `status` is the
  sanitised filter, even when the listing drops it. That count equals the unpaged listing's length
  whenever `"All"` is not a member of the enum.

## Model

| member | source | states |
|---|---|---|
| `IssueList.EffectiveStatus` | app/issues/list/page.tsx:34-37 | the filter carries a status exactly when the parameter is present and a member of the enum, and then it is that parameter; a missing or foreign value (`All` included, when it is not a member) means no constraint; the step never fails |
| `IssueList.ValidOrderByFields` | app/issues/list/page.tsx:40 | the allow-list is the columns' values, `title`, `status`, `createdAt` |
| `IssueList.EffectiveOrderBy` | app/issues/list/page.tsx:40-43 | the sort field is always one of the columns' values; it is the one spelled by `orderBy` when `orderBy` is in the allow-list, and `createdAt` otherwise |
| `IssueList.ParsePage` | app/issues/list/page.tsx:47 | `parseInt(page)` with the default 1 is never 0 |
| `IssueList.UndefinedIsNaN` | app/issues/list/page.tsx:47 | `parseInt` of a missing parameter reads "undefined" and gives NaN |
| `IssueList.MissingPageIsOne` | app/issues/list/page.tsx:47 | a missing `page` gives page 1 |
| `IssueList.NonNumericPageIsOne` | app/issues/list/page.tsx:47 | a `page` that starts, after white space, with neither a digit nor a sign followed by a digit gives page 1 (`abc`, `-x5`, `+ 5`) |
| `IssueList.NegativeDecimalPage` | app/issues/list/page.tsx:47 | a negative number `n` written in decimal is page `n`: `parseInt` keeps the sign and `|| 1` does not clamp it |
| `IssueList.NegativePageSkip` | app/issues/list/page.tsx:47-62 | a negative page `n` is not clamped: the listing is asked to skip `(n-1)*10` rows, a negative number |
| `IssueList.NegativePageFails` | app/issues/list/page.tsx:47-62 | with a page below 1 and a status other than `All`, the page fails with the store's refusal of the skip `(page-1)*10` |
| `IssueList.DigitRunPage` | app/issues/list/page.tsx:47 | a `page` made of white space, an optional sign and a run of decimal digits, followed by anything that cannot continue them, gives the signed value of the digits (leading zeros, `+5`, `-0` and trailing characters included), except that a zero value gives 1 |
| `IssueList.Resolve` | app/issues/list/page.tsx:45-65 | the sort field, the page and the count's filter are the sanitised `orderBy`, the parsed `page` and the sanitised `status`; the count's filter status is always a member of the enum; in `All` mode the listing has no filter, skip or take; otherwise it uses the count's `where`, skip `(page-1)*10` and take 10; when `All` is not a member, listing and count filters are equal in both modes |
| `IssueList.HeaderQuery` | app/issues/list/page.tsx:84 | a header link's query has `orderBy` set to the column's value and every other key exactly as in the current query |
| `IssueList.Headers` | app/issues/list/page.tsx:77-91 | one header cell per column, in column order, with the column's caption and class; its link's query sets `orderBy` to the column's value and keeps every other key; it carries the arrow exactly when the column's value is the sort field |
| `IssueList.PageResult` | app/issues/list/page.tsx:45-67 | an admissible page outcome fails exactly when a paged listing (status not `All`) has a page below 1; a successful one hands on the parsed page and page size 10 |
| `IssueList.IssuesPage` | app/issues/list/page.tsx:23-67 | the page's outcome is one the store admits: the listing query's result, the count with the same `where`, the headers and the pagination inputs |
| `IssueList.PagedListing` | app/issues/list/page.tsx:56-65 | outside `All` mode a listed page has a page number of at least 1, at most 10 rows, all from the store and matching the filter, sorted by the sort field, and is the run at offset `(page-1)*10` of some sorted order of all matching rows |
| `IssueList.PagedListingFillsPage` | app/issues/list/page.tsx:57-67 | a non-empty page ends within the counted rows, and it holds `min(10, count - skip)` rows (none past the end) |
| `IssueList.PagedListingFailsBelowPageOne` | app/issues/list/page.tsx:47-64 | a paged listing fails exactly when the page number is below 1 |
| `IssueList.AllListing` | app/issues/list/page.tsx:50-55 | in `All` mode the page never fails and lists every row of the store once, sorted by the sort field; when `All` is not a status, the count equals the listing's length |
| `IssueList.CountIsMatchingRows` | app/issues/list/page.tsx:67 | the count is the number of rows matching the sanitised status filter, in both modes |
| `IssueList.PaginationControlInputs` | app/issues/list/page.tsx:116-120 | the pagination control gets page size 10, the parsed page as the current page and the filtered count |
| `IssueList.ListingAndCountAgree` | app/issues/list/page.tsx:45-67 | when `All` is not a status, every listed row is among the counted ones (as a multiset), and in `All` mode the count is the listing's length |
| `IssueList.AllMustNotBeAStatus` | app/issues/list/page.tsx:34-50 | if `All` were a member of the enum, the `All` listing and its count would use different filters |
| `IssueList.CountIgnoresPageAndOrder` | app/issues/list/page.tsx:67 | two requests with the same `status` get the same count, whatever their `page` and `orderBy` |
| `IssueList.HeaderLinkSortsByColumn` | app/issues/list/page.tsx:84 | following a column's header link sorts by that column and keeps the filter, the listing's `where` and the page |
| `IssueList.ArrowOnSortedColumnOnly` | app/issues/list/page.tsx:89 | exactly one header shows the arrow: the column whose value is the sort field |
| `IssueStore.Filter` | app/issues/list/page.tsx:58 | the filtered rows are rows of the store that satisfy the `where`, never more of them than the store holds |
| `IssueStore.FilterMultiset` | app/issues/list/page.tsx:58 | filtering keeps every matching row as often as it occurs and drops every other row |
| `IssueStore.FilterNoConstraint` | app/issues/list/page.tsx:45 | a `where` whose status is undefined keeps every row in order |
| `IssueStore.Window` | app/issues/list/page.tsx:62-63 | skip/take yields `min(take, n - skip)` rows (none past the end), element `i` being row `skip + i` |
| `IssueStore.WindowSorted` | app/issues/list/page.tsx:59-63 | a window of a sorted sequence is sorted |
| `IssueStore.FindManyReturns` | app/issues/list/page.tsx:57-64 | an admissible `findMany` result is an error exactly when `skip` is negative, and a successful one holds at most `take` rows; `FoundWindow` states the rest |
| `IssueStore.FoundWindow` | app/issues/list/page.tsx:57-64 | any successful `findMany` returns a sorted window of matching store rows, at offset `skip` of a sorted order of all of them, full up to `take` unless it reaches their end |
| `IssueStore.LexLeTotal` | app/issues/list/page.tsx:53 | any two titles are comparable in the ascending order |
| `IssueStore.LexLeTransitive` | app/issues/list/page.tsx:53 | the order on titles is transitive |
| `IssueStore.KeyLeTotal` | app/issues/list/page.tsx:53 | on every sort field, any two issues are comparable |
| `IssueStore.KeyLeTransitive` | app/issues/list/page.tsx:53 | on every sort field, the order is transitive |
| `IssueStore.StatusRank` | app/issues/list/page.tsx:53 | ordering by status follows the enum's declaration order: a status's rank is the position of its first occurrence |
| `IssueStore.Insert` | app/issues/list/page.tsx:59-61 | inserting into a sorted sequence keeps it sorted and adds exactly one row |
| `IssueStore.SortBy` | app/issues/list/page.tsx:59-61 | a sorted permutation of any rows exists for every sort field |
| `IssueStore.FindMany` | app/issues/list/page.tsx:51-64 | every `findMany` call has an admissible outcome |
| `IssueStore.CountMatching` | app/issues/list/page.tsx:67 | the count never exceeds the number of rows |
| `IssueStore.Count` | app/issues/list/page.tsx:67 | `count` with an undefined status counts every row |
| `IssueStore.CountNoConstraint` | app/issues/list/page.tsx:67 | counting without a constraint gives the store's size |
| `IssueStore.CountIsFilterLength` | app/issues/list/page.tsx:67 | `count({ where })` equals the number of rows `findMany({ where })` filters in |
| `JsParseInt.ParseInt` | app/issues/list/page.tsx:47 | `parseInt` gives a number only if the string holds a decimal digit; the lemmas below give its value |
| `JsParseInt.ParseMagnitude` | app/issues/list/page.tsx:47 | the magnitude exists exactly when the string starts with a decimal digit, or, after a `0x` prefix, with a hexadecimal digit |
| `JsParseInt.TrimStart` | app/issues/list/page.tsx:47 | `parseInt` first drops exactly the leading white space: the rest is a suffix that does not start with white space |
| `JsParseInt.DigitPrefixLength` | app/issues/list/page.tsx:47 | the number part is the longest prefix of digits in the radix |
| `JsParseInt.OrElse` | app/issues/list/page.tsx:47 | the default (`or 1`) replaces NaN and zero by 1 and keeps every other value |
| `JsParseInt.Digits` | app/issues/list/page.tsx:47 | a decimal numeral is a non-empty string of decimal digits |
| `JsParseInt.DigitsValueOfDigits` | app/issues/list/page.tsx:47 | reading a natural number's numeral back gives that number |
| `JsParseInt.DigitPrefixOfDigits` | app/issues/list/page.tsx:47 | the digit prefix stops exactly where the digits stop |
| `JsParseInt.MagnitudeOfDigitRun` | app/issues/list/page.tsx:47 | a run of decimal digits followed by anything that cannot continue it (no digit, and no `x` after a lone `0`) has the run's value as the magnitude |
| `JsParseInt.TrimStartSkips` | app/issues/list/page.tsx:47 | white space before a character that is not white space is dropped, and nothing else |
| `JsParseInt.ParseIntSkipsWhiteSpace` | app/issues/list/page.tsx:47 | leading white space does not change what `parseInt` returns |
| `JsParseInt.ParseIntOfUnsigned` | app/issues/list/page.tsx:47 | a string that starts with a digit has no sign: `parseInt` gives its magnitude, or NaN |
| `JsParseInt.ParseIntOfNegated` | app/issues/list/page.tsx:47 | a leading "-" negates the magnitude that follows it |
| `JsParseInt.ParseIntOfPlus` | app/issues/list/page.tsx:47 | a leading "+" leaves the magnitude that follows it unchanged |
| `JsParseInt.ParseIntOfSigned` | app/issues/list/page.tsx:47 | an optional sign in front of a digit applies to the magnitude that follows |
| `JsParseInt.ParseIntOfDigitRun` | app/issues/list/page.tsx:47 | an optional sign and a run of decimal digits, followed by anything that cannot continue them, parse to the signed value of the digits (`007` is 7, `+5` is 5, `-0` is 0) |
| `JsParseInt.ParseIntOfDecimal` | app/issues/list/page.tsx:47 | `parseInt` of a decimal numeral followed by a non-digit, other than `x`, is exactly its value |
| `JsParseInt.ParseIntNoDigits` | app/issues/list/page.tsx:47 | a string that starts, after white space, with neither a digit nor a sign followed by a digit parses to NaN |

## Left out

- The `PATCH` and `DELETE` handlers of app/api/issues/[id]/route.ts (authentication, body validation, the existence check and the mutation) are not part of this model. They are not in the page that resolves listings.
- app/layout.tsx and app/issues/[id]/AssigneeSelect.tsx: presentation and provider wiring, with no listing logic.
- JSX rendering of the table, `IssueActions`, `IssueStatusBadge` and `createdAt.toDateString()`: user interface. Of the header row, only the link query and the arrow are modelled.
- The `Pagination` component's page-count arithmetic: its source is not part of this model. Only its inputs are.
- The `dynamic` and `metadata` exports: framework configuration.
- The store's own engine, `async`/`await` and store faults. The store is a sequence of rows. Its one modelled error is the client's refusal of a negative `skip`, which is an assumption about the Prisma client and not shown in the source.
- The members of the `Status` enum: the schema is not part of this model, so the enum is a parameter.
- `findMany` and `count` are evaluated on one snapshot of the store. The code runs them as two separate queries with no transaction, so a write between them could make the count disagree with the listing; concurrent writes are not modelled.
- Ordering by `status` is assumed to follow the enum's declaration order (`StatusRank`), as enum columns of MySQL and PostgreSQL sort; the source does not show it.
- Collation: titles are ordered by Unicode code point, character by character, not by the database's collation.
- Query keys given more than once (which arrive as arrays of strings): every parameter is a single string or absent.
- `JsParseInt.ParseInt`: does not model the loss of precision of JavaScript Numbers past 2^53, nor the overflow to Infinity of a numeral of 309 digits or more. Values are exact integers, so such a `page` gives a huge finite skip and an empty page here, while the code would pass an infinite skip to the store client, whose handling of it is not shown; and -0 and +0 are the same value (both are falsy, so `|| 1` treats them alike).
