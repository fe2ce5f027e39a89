# Admin table list view, modelled in Dafny

This project models the list-view logic of the admin management page
(`src/core/admin-management/index.tsx`): a table of admin accounts that can
be sorted by a column, narrowed by a search box and paged. It covers:

- the three-way comparator over one record field (`descendingComparator`)
  and the direction-dependent comparator built from it (`getComparator`);
- `doSearch`, the case-insensitive substring test over a record's
  username, email, first name and last name;
- `applySortFilter`, which pairs every record with its position, sorts the
  pairs with the position as tie-break (a stable sort), and then, when the
  search text is not empty, discards the sort and returns the matching
  records in their original order;
- the `UserManagement` view state (`page`, `order`, `orderBy`,
  `filterName`, `rowsPerPage`), its four handlers, and what each render
  derives from it: the visible page slice, the `emptyRows` padding and the
  not-found flag.

Files, one module each:

| file | module | what it holds |
|---|---|---|
| `text.dfy` | `Text` | JavaScript's `<` on strings, ASCII `toLowerCase`, `indexOf` |
| `users.dfy` | `Users` | the `User` record and `u[key]` field lookup |
| `comparators.dfy` | `Comparators` | `descendingComparator`, `getComparator`, consistency |
| `search.dfy` | `Search` | `doSearch` and the search filter |
| `sort_filter.dfy` | `SortFilter` | the stabilized sort and `applySortFilter` |
| `paging.dfy` | `Paging` | `Array.prototype.slice`, the page slice, `emptyRows` |
| `admin_management.dfy` | `AdminManagement` | the `UserManagement` class: state, handlers, render |

The behaviour is modelled as the code has it, including three quirks, each
pinned down by a contract or a lemma:

- With search text, the sort result is thrown away and the matches come in
  input order (`SortFilter.ApplySortFilter`).
- `emptyRows` counts from the unfiltered `users.length`, so a filtered page
  can show neither records nor padding (`Paging.PaddingIgnoresFilter`).
- New search text does not reset `page`
  (`AdminManagement.UserManagement.HandleFilterByName`).

Two facts about the code that are easy to misread:

- `descendingComparator` returns -1 when `b[orderBy] < a[orderBy]`, so
  `'desc'` puts the larger key first and every other direction negates it.
- Nothing in the code keeps `page * rowsPerPage` within the filtered count:
  neither `handleChangePage` nor `handleFilterByName` clamps `page`.

`Array.prototype.sort` is modelled by an in-place insertion sort
(`SortFilter.Sort`) that uses the source's own callback: the comparator,
then the difference of the original positions. `SortFilter.StableSortIsUnique`
shows that a stable sort under a consistent comparator has exactly one
outcome. So any stable sort, including the engine's, returns what this one
returns.

## Model

| member | source | states |
|---|---|---|
| `Text.Less` | src/core/admin-management/index.tsx:37-40 | defines JavaScript's `<` on two strings (lexicographic by character, a proper prefix first); its properties are stated by `LessTrichotomy`, `LessTransitive`, `LessAsymmetric` and `NotLessTransitive` |
| `Text.LessTrichotomy` | src/core/admin-management/index.tsx:36-44 | two strings compared with `<` are ordered one way, the other, or equal |
| `Text.LessTransitive` | src/core/admin-management/index.tsx:36-44 | string `<` is transitive |
| `Text.LessAsymmetric` | src/core/admin-management/index.tsx:36-44 | `a < b` and `b < a` never both hold |
| `Text.NotLessTransitive` | src/core/admin-management/index.tsx:36-44 | "not less than" is transitive, so string order is total |
| `Text.LowerChar` | src/core/admin-management/index.tsx:55 | lower-casing one character leaves no upper-case letter and changes nothing else |
| `Text.Lower` | src/core/admin-management/index.tsx:55 | `toLowerCase` keeps the length, turns each upper-case letter into its lower-case partner and keeps every other character in place |
| `Text.LowerIdempotent` | src/core/admin-management/index.tsx:55 | lowering twice is lowering once |
| `Text.IndexOf` | src/core/admin-management/index.tsx:55 | `indexOf` is the first position where the text occurs, and -1 exactly when it occurs nowhere |
| `Text.EmptyOccursEverywhere` | src/core/admin-management/index.tsx:55 | `indexOf("")` is 0 on every string |
| `Users.SearchFields` | src/core/admin-management/index.tsx:73 | the four values the search looks in are the `username`, `email`, `firstName` and `lastName` properties, in that order |
| `Users.Field` | src/core/admin-management/index.tsx:37-40 | `u[key]` is the record's own value for each of its six property names (`_id` gives the id, `username` the username, and so on) and undefined for any other name, such as the empty id of the last column (inherited properties aside, see Left out) |
| `Comparators.KeyLess` | src/core/admin-management/index.tsx:37-40 | defines `a[key] < b[key]`: false whenever either side is undefined, otherwise string `<` on the two field values |
| `Comparators.DescendingComparator` | src/core/admin-management/index.tsx:36-44 | -1 when `a`'s field is larger, 1 when it is smaller, 0 exactly when both records agree on the field (both undefined included) |
| `Comparators.DescendingComparatorAntisymmetric` | src/core/admin-management/index.tsx:36-44 | swapping the records negates the result |
| `Comparators.GetComparator` | src/core/admin-management/index.tsx:46-50 | under `'desc'` the larger value comes first; under any other direction the smaller one does; equal fields compare 0 |
| `Comparators.AscendingReversesDescending` | src/core/admin-management/index.tsx:46-50 | `'desc'` gives `descendingComparator` as is; any other direction gives its exact negation, which is `'desc'` with the arguments swapped |
| `Comparators.GetComparatorConsistent` | src/core/admin-management/index.tsx:46-50 | every comparator `getComparator` builds is antisymmetric and transitive, as a sort needs |
| `Search.DoSearch` | src/core/admin-management/index.tsx:52-61 | true exactly when some value's lowered form contains the lowered search text; false on an empty list |
| `Search.MatchIgnoresCase` | src/core/admin-management/index.tsx:55 | a match does not depend on the case of the value or of the search text |
| `Search.EmptyQueryMatchesEveryValue` | src/core/admin-management/index.tsx:52-61 | the empty search text matches any value |
| `Search.Matching` | src/core/admin-management/index.tsx:70-75 | a record is in the filtered list exactly when it is in the input and one of its four text fields matches |
| `Search.MatchPositions` | src/core/admin-management/index.tsx:71-74 | a position is listed exactly when the record there matches |
| `Search.MatchingIsOrderedSubsequence` | src/core/admin-management/index.tsx:70-75 | the filtered list is the records at the matching positions, in increasing position order |
| `SortFilter.Stabilize` | src/core/admin-management/index.tsx:64 | entry `k` pairs the `k`-th record with position `k`; stripping the positions gives the input back |
| `SortFilter.StableCompare` | src/core/admin-management/index.tsx:65-69 | negative exactly when the comparator says before, or it says tie and the first position is smaller; zero only for a tie at the same position |
| `SortFilter.Elements` | src/core/admin-management/index.tsx:76 | defines `map((el) => el[0])`: the records of the sorted pairs, positions dropped, in the same order |
| `SortFilter.Sort` | src/core/admin-management/index.tsx:65-69 | the sort rearranges the index-paired array, and afterwards no pair is after a later one under the comparator-then-position callback |
| `SortFilter.AdjacentSortedIsSorted` | src/core/admin-management/index.tsx:65-69 | pairs in order with each neighbour are in order throughout |
| `SortFilter.SortedPairsGiveStableSort` | src/core/admin-management/index.tsx:64-76 | the sorted pairs, stripped of positions, are a stable sort and a rearrangement of the input |
| `SortFilter.RearrangesIsOnto` | src/core/admin-management/index.tsx:64-76 | a rearrangement uses every input position |
| `SortFilter.StableSortIsUnique` | src/core/admin-management/index.tsx:65-69 | two stable sorts of the same records under a consistent comparator are equal |
| `SortFilter.SortedRearrangementsAgree` | src/core/admin-management/index.tsx:65-69 | two sorted rearrangements of the same records compare equal position by position, so they differ only in the order of tied records |
| `SortFilter.ToggleReversesKeys` | src/core/admin-management/index.tsx:46-50 | ties included, the `'desc'` sort shows at each row the key the ascending sort shows at the mirrored row |
| `SortFilter.ToggleReverses` | src/core/admin-management/index.tsx:46-50 | with no repeated key, the `'desc'` sort is exactly the ascending sort reversed, records and positions alike |
| `SortFilter.Filter` | src/core/admin-management/index.tsx:70-75 | `filter` with `doSearch` returns exactly the matching records, in input order |
| `SortFilter.ApplySortFilter` | src/core/admin-management/index.tsx:63-77 | empty search text: a stable sort and a rearrangement of the input; otherwise exactly the matching records in input order, whatever the comparator |
| `Paging.Slice` | src/core/admin-management/index.tsx:152 | `slice` never returns more than the span asked for; from a position within the list it returns the records from there on |
| `Paging.PageSlice` | src/core/admin-management/index.tsx:151-152 | never more than `rowsPerPage` rows; for a non-negative page, `min(rowsPerPage, max(0, n - page*rowsPerPage))` rows starting at `page*rowsPerPage` |
| `Paging.EmptyRows` | src/core/admin-management/index.tsx:114 | no padding on the first page; otherwise `max(0, (1+page)*rowsPerPage - users.length)` |
| `Paging.FullPagesAreFull` | src/core/admin-management/index.tsx:152 | every page before the last shows exactly `rowsPerPage` rows |
| `Paging.PaddingFillsPage` | src/core/admin-management/index.tsx:114 | on a page past the first that starts within the list, rows plus padding make exactly `rowsPerPage` |
| `Paging.PaddingIgnoresFilter` | src/core/admin-management/index.tsx:114 | with a search, a later page can show no rows and no padding at all |
| `Paging.SixRecordsFivePerPage` | src/core/admin-management/index.tsx:152 | six records, five per page: page 0 shows five and no padding; page 1 shows one and four blank rows |
| `AdminManagement.UserManagement.constructor` | src/core/admin-management/index.tsx:80-84 | page 0, ascending by username, no search text, five rows per page |
| `AdminManagement.UserManagement.HandleRequestSort` | src/core/admin-management/index.tsx:95-99 | a click on the column already sorted ascending makes it descending; any other click sorts ascending; `orderBy` becomes the column; nothing else changes |
| `AdminManagement.UserManagement.HandleChangePage` | src/core/admin-management/index.tsx:101-103 | `page` becomes the argument, unclamped; nothing else changes |
| `AdminManagement.UserManagement.HandleChangeRowsPerPage` | src/core/admin-management/index.tsx:105-108 | `rowsPerPage` becomes the argument and `page` goes back to 0 |
| `AdminManagement.UserManagement.HandleFilterByName` | src/core/admin-management/index.tsx:110-112 | only `filterName` changes; `page` stays |
| `AdminManagement.UserManagement.Render` | src/core/admin-management/index.tsx:114-152 | the derived list as `applySortFilter` gives it, the page slice of it, padding from the unfiltered count, and the not-found flag exactly when the derived list is empty |
| `AdminManagement.HandlerScenario` | src/core/admin-management/index.tsx:95-112 | clicking a column toggles its direction, another column starts ascending, a new page size resets the page, new search text does not |

## Left out

- Rendering: the JSX, the MUI components, icons, `Page`, `UserListHead`,
  `UserListToolbar` and the `TABLE_HEAD` labels. They present the state and
  hold no logic of their own.
- `src/core/components/search-not-found.tsx` is not part of this model. It
  only displays the search text. The model gives the flag that decides
  whether it shows.
- The store: `useAppSelector`, and the `useEffect` that dispatches
  `selectRoute` and, when the list is empty, `getAllAdmin`. The record list
  is a parameter of `Render`.
- Event objects and `parseInt(event.target.value, 10)`. The handlers take
  the parsed value.
- `new Date(createdAt!).toLocaleString("en")` and the per-row link to the
  user's page: locale formatting and navigation.
- React's state updates are modelled as immediate field assignments. Every
  handler computes its new values from the state before the event, so
  batching gives the same result.
- `Text.Less`: compares characters by Unicode code point. JavaScript
  compares UTF-16 code units, which differs only for characters outside
  the Basic Multilingual Plane.
- `Text.Lower`: lower-cases ASCII letters only. Full Unicode `toLowerCase`
  (e.g. accented capitals) is not modelled.
- `Users.User`: every field is a string. JavaScript's `<` between values of
  mixed types, and a missing `createdAt`, are not modelled. Of the column
  ids the table passes (`username`, `email`, `firstName`, `createdAt` and
  the empty id of the last column, index.tsx lines 26-32), the empty one is
  no property of a record: it reads as undefined and the comparator answers
  0.
- `Users.Field`: properties a record inherits from `Object.prototype`
  (`toString`, `constructor`, ...) are not modelled; they read as undefined
  here. No column id names one, and both records would share the same
  inherited value, so the comparator would answer 0 either way.
- `Search.DoSearch`: the `if (values)` guard against a missing array is
  not modelled. A Dafny sequence is never null, and the caller always
  passes a four-element array.
- `SortFilter.Sort`: the engine's own algorithm is replaced by insertion
  sort. Only the result carries over: it is unique (`StableSortIsUnique`).
- `lodash.filter`: modelled as a loop in `SortFilter.Filter` that calls
  `DoSearch` on each record.
