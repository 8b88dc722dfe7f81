# Country directory pager — a Dafny model

The `Api` React component fetches a list of countries once. It drops the
record whose common name, lower-cased, is `"israel"` and stores the rest in
`countries`. It shows them nine at a time: a 1-based `page` counter picks the
slice `countries.slice((page - 1) * 9, page * 9)`. A "Previous Page" button
and a "Next Page" button move the counter. Each handler guards its move, and
each button has a `disabled` predicate.

This project models that view-model as pure functions over an immutable state
`View(countries, page)`. It then proves:

- the page counter stays in range under every sequence of clicks;
- the visible page is the right contiguous slice, at most nine records long,
  and non-empty whenever records exist;
- each button is disabled exactly when its handler would do nothing;
- the pages read in order reproduce the whole record list;
- the exclusion filter removes exactly the excluded name and keeps everything
  else, in order.

Modules:

- `Countries` (`countries.dfy`): the record, ASCII lower-casing and the
  exclusion predicate.
- `Exclusion` (`exclusion.dfy`): the response filter, in a recursive form and
  in the loop form of `Array.prototype.filter`.
- `JsArray` (`jsarray.dfy`): `Array.prototype.slice` of ECMA-262 for integer
  arguments, including its rule for negative indices. This makes the
  visible page a total function of any page number.
- `Pager` (`pager.dfy`): the state, the handlers, the button predicates, the
  load, the page invariant and the lemmas about them.

Loading does not reset `page`. `ReloadCanLeavePageOutOfRange` shows what a
second load would do, and `LifecycleValid` proves that the single load keeps
the counter in range.

## Model

| member | source | states |
|---|---|---|
| Countries.LowerChar | src/Api.jsx:22 | lower-casing one character never yields an upper-case letter; it yields a lower-case letter exactly for letters of either case; it leaves non-upper-case characters unchanged |
| Countries.Lower | src/Api.jsx:22 | lower-casing a name keeps its length and lower-cases each character in place |
| Countries.IsExcluded | src/Api.jsx:22 | a record is excluded exactly when its common name has six characters that lower-case, one by one, to the letters of "israel" |
| Countries.ExcludedSpellings | src/Api.jsx:22 | a record is excluded exactly when its common name spells "israel" with each letter in either case, and for no other name |
| Exclusion.Exclude | src/Api.jsx:21-23 | the stored list is no longer than the response; it holds no excluded record; it holds every record of the response that is not excluded |
| Exclusion.ExcludeAppend | src/Api.jsx:21-23 | filtering a concatenation gives the concatenation of the filtered parts |
| Exclusion.ExcludeIsSubsequence | src/Api.jsx:21-23 | the stored list is a subsequence of the response, so relative order is preserved |
| Exclusion.ExcludeCounts | src/Api.jsx:21-23 | every record that is not excluded is kept exactly as many times as it occurs; excluded records occur zero times |
| Exclusion.ExcludeIsIdentityIff | src/Api.jsx:21-23 | the filter returns its input unchanged if and only if no record of the input is excluded |
| Exclusion.ExcludeIdempotent | src/Api.jsx:21-23 | filtering an already filtered list changes nothing |
| Exclusion.FilterResponse | src/Api.jsx:19-23 | the element-by-element filter loop that stores the response computes the same list as the recursive definition |
| JsArray.ResolveIndex | src/Api.jsx:34 | a slice index always resolves into `[0, length]`; a non-negative index is clamped to the length; a negative index counts back from the end, stopping at 0 |
| JsArray.Slice | src/Api.jsx:34 | a slice is a contiguous run of the array starting at the resolved start; for start <= end it is at most end - start long; for 0 <= start <= end it is the elements from start up to end, both clamped to the length |
| Pager.Initial | src/Api.jsx:9-10 | on mount there are no records and the page is 1 |
| Pager.VisiblePage | src/Api.jsx:31-35 | the visible page holds at most 9 records, all of them stored records; for page >= 1 it is exactly the records from (page-1)*9 up to min(page*9, length) |
| Pager.TotalPages | src/Api.jsx:39-43 | the page count is at least 1; its pages hold every record; it is the smallest such count, since its last page holds at least one record unless it is page 1 |
| Pager.NextPage | src/Api.jsx:39-43 | `nextPage` never changes the records; it advances the page by exactly one when page*9 < length and otherwise leaves it unchanged |
| Pager.PrevPage | src/Api.jsx:46-50 | `prevPage` never changes the records; it moves the page back by exactly one when page > 1 and otherwise leaves it unchanged |
| Pager.Load | src/Api.jsx:19-24 | a successful fetch keeps the page counter; the new records hold every record of the response that is not excluded, as many times as it occurs there, no excluded record, and in response order |
| Pager.ValidIffPageInRange | src/Api.jsx:39-50 | the page invariant holds exactly when 1 <= page <= max(1, ceil(length / 9)) |
| Pager.InitialValid | src/Api.jsx:10 | the initial state satisfies the page invariant |
| Pager.NextPreservesValid | src/Api.jsx:39-43 | `nextPage` preserves the page invariant |
| Pager.PrevPreservesValid | src/Api.jsx:46-50 | `prevPage` preserves the page invariant |
| Pager.VisibleNonEmpty | src/Api.jsx:31-35 | under the invariant, the visible page is non-empty if and only if there are records |
| Pager.NextDisabled | src/Api.jsx:107 | "Next Page" is disabled if and only if `nextPage` would leave the state unchanged |
| Pager.PrevDisabled | src/Api.jsx:97 | for page >= 1, "Previous Page" is disabled if and only if `prevPage` would leave the state unchanged |
| Pager.PrevDisabledNeedsPositivePage | src/Api.jsx:97 | at page 0 "Previous Page" would be enabled although `prevPage` would do nothing, so the previous correspondence needs page >= 1 |
| Pager.Run | src/Api.jsx:39-50 | no sequence of clicks changes the records |
| Pager.RunPreservesValid | src/Api.jsx:39-50 | from a valid state, every sequence of clicks keeps 1 <= page <= max(1, ceil(length / 9)) |
| Pager.RunOnEmptyStaysOnFirstPage | src/Api.jsx:39-43 | while there are no records, no sequence of clicks leaves page 1 |
| Pager.LifecycleValid | src/Api.jsx:9-50 | for any clicks before the fetch resolves, any response and any clicks afterwards, the counter stays in range; whenever a record survived the filter, the visible page is non-empty |
| Pager.PagesUpToIsPrefix | src/Api.jsx:31-35 | pages 1..k together are exactly the first min(9k, length) records, in order |
| Pager.PagesCoverRecords | src/Api.jsx:31-35 | reading pages 1..TotalPages in order reproduces the record list exactly, so each record is shown on exactly one page |
| Pager.ReloadCanLeavePageOutOfRange | src/Api.jsx:19-35 | because loading keeps the page, a second load of a shorter response after moving to page 3 would break the page invariant |

## Left out

- The axios GET, its promise chain and the `console.log` of a failed fetch (src/Api.jsx:17-26) are network I/O. A fetch is modelled only as `Load` with the response as a parameter. A failed fetch leaves the state as it is, so it needs no model. A record without a string `name.common` makes the filter callback throw, and the `.catch` then drops the whole response. That case is the same as no `Load`; the model's `commonName` is always a string, so it does not arise.
- React's `useState`/`useEffect` scheduling is not modelled. The `paginated` state (src/Api.jsx:11, 31-35) is modelled as the pure function `VisiblePage` of the current `(countries, page)`, not as a separately stored value updated by an effect.
- All JSX rendering is presentational and not modelled (src/Api.jsx:54-113). This includes the cards, Bootstrap classes, the flag `alt` fallback, the "N/A" capital fallback and `key={index}`.
- `toLocaleString` formatting of population and area depends on the locale. The record has no `area` field because the area is a floating-point number used only for display.
- `Countries.LowerChar` and `Countries.Lower`: `toLowerCase` is modelled as ASCII lower-casing. Full Unicode case mapping, including characters whose lower case is longer than one character, is not modelled. The exclusion property is stated relative to this lower-casing.
- JavaScript numbers are doubles. The page counter is modelled as an unbounded integer. This is exact here because the invariant bounds the page by the record count.
