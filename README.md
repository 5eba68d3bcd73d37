# Comment table: verified model

This project models the logic of a browser comment table in Dafny. The table
fetches comments and posts, joins them so that each comment carries its post's
title, and shows the rows with a case-insensitive search, pages of 10 rows and
a window of 10 page-number buttons. The Name and Body cells can be edited in
place. Every keystroke is written at once both to the in-memory rows and to one
local-storage slot, and the stored edits are laid over freshly fetched rows the
next time the table mounts.

Modules:

- `Records` (records.dfy): comments, posts, table rows, and the two editable fields `Name | Body`.
- `Text` (text.dfy): ASCII lower-casing and the `includes` substring test, with its characterisation by offsets.
- `FetchComments` (fetch_comments.dfy): the post-id to title lookup, which is built by a loop in which the last post with an id wins. Also the join with its `"Unknown Post"` fallback, and the all-or-nothing failure path.
- `EditStore` (edit_store.dfy): the storage slot (`Absent | Unparsable | Stored(edits)`), loading it and the read-modify-write that saves one field.
- `TableLogic` (table_logic.dfy): the values recomputed on each render, as pure functions. These are the mount-time merge, the per-keystroke row update, the filter, the page count, the page slice (with `Array.prototype.slice` semantics, negative indices included) and the page-number window.
- `TableComponent` (table_component.dfy): class `CommentTable`. Its fields are the state cells `comments`, `currentPage`, `editing` and `pageBlockStart`, the `searchQuery` prop and the storage slot. Its methods are the handlers.

The invariant `Valid()` is kept by every navigation method. It says that `pageBlockStart` is one of 1, 11, 21, … and that
`pageBlockStart <= currentPage < pageBlockStart + 10`. It deliberately does not
include `currentPage <= totalPages`. The code does not reset the page when the
query changes, so a narrower query can leave the table on a page past the last
one. That page shows no rows (`TableLogic.Paginated`). The block start is
always of the form 10k + 1, never a multiple of 10.

## Model

| member | source | states |
|---|---|---|
| `Text.Lower` | src/components/Table.jsx:64-65 | lower-casing keeps the length, maps each character independently and leaves no upper-case ASCII letter |
| `Text.IncludesIff` | src/components/Table.jsx:64-65 | `includes` holds iff the needle occurs at some offset of the haystack; the empty needle is included in every string |
| `Records.Set` | src/components/Table.jsx:51 | setting one editable field gives it the new value and leaves the other editable field, the id, post id, email and post title unchanged |
| `FetchComments.BuildPostMap` | src/data/fetchComments.js:13-16 | the loop over the posts yields the lookup built by writing each post's title under its id in list order |
| `FetchComments.PostMapKeys` | src/data/fetchComments.js:13-16 | an id is in the lookup iff some post has that id |
| `FetchComments.PostMapLastWins` | src/data/fetchComments.js:14-16 | for duplicated ids the lookup holds the title of the last post with that id |
| `FetchComments.PostTitle` | src/data/fetchComments.js:20 | the resolved title is never the empty string |
| `FetchComments.TitleWhenNoPost` | src/data/fetchComments.js:13-20 | a comment whose post id no post has gets "Unknown Post" |
| `FetchComments.TitleFromLastPost` | src/data/fetchComments.js:13-20 | a comment gets the title of the last post with its post id, or "Unknown Post" when that title is empty |
| `FetchComments.Join` | src/data/fetchComments.js:18-21 | one row per comment in the same order, each carrying all the comment's fields unchanged plus the resolved, non-empty post title |
| `FetchComments.FetchCommentsWithPostTitles` | src/data/fetchComments.js:3-28 | if either fetch fails the result is empty; otherwise it has one row per comment, in order, with the comment's fields and the title resolved through the lookup built from all posts |
| `EditStore.Load` | src/components/Table.jsx:8-14 | an absent or unparsable slot loads as the empty map, a stored map loads as itself |
| `EditStore.SetEdit` | src/components/Table.jsx:16-24 | the map written back (and read by the next load) has `[id][f] == v`. It creates the id entry when absent and keeps the other field stored under the id. Every other id's entry is unchanged and no other key is added |
| `TableLogic.ApplyOverride` | src/components/Table.jsx:38 | an override replaces exactly the fields it holds; id, post id, email and post title are kept |
| `TableLogic.MergeOverrides` | src/components/Table.jsx:36-39 | the merge keeps length and order. A row without stored edits is unchanged. A row with stored edits takes exactly the stored fields and keeps all others |
| `TableLogic.UpdateRecords` | src/components/Table.jsx:49-53 | length and order are kept. Every row with the id gets field `f` set to `v` with all its other fields untouched. Rows with other ids are unchanged |
| `TableLogic.Filtered` | src/components/Table.jsx:63-66 | the filtered list is no longer than the input and holds only input rows that match the query |
| `TableLogic.FilteredIsSubsequence` | src/components/Table.jsx:63-66 | the filtered list is an order-preserving subsequence of the rows |
| `TableLogic.FilteredKeepsMatches` | src/components/Table.jsx:63-66 | a row is in the filtered list iff it is among the rows and matches the query |
| `TableLogic.FilteredCounts` | src/components/Table.jsx:63-66 | each row occurs in the filtered list as often as in the input when it matches, and not at all otherwise |
| `TableLogic.MatchesIff` | src/components/Table.jsx:63-66 | a row matches iff the lower-cased query occurs in the lower-cased name or in the lower-cased email |
| `TableLogic.FilteredEmptyQuery` | src/components/Table.jsx:63-66 | the empty query keeps every row, in order |
| `TableLogic.TotalPages` | src/components/Table.jsx:68 | the page count is the ceiling of the row count over 10: enough pages for all rows, and one fewer would not be |
| `TableLogic.Slice` | src/components/Table.jsx:69 | for `0 <= start <= end` the slice is the subsequence between the bounds, each clamped to the length; a negative bound counts back from the end (`TableLogic.SliceIndex`) |
| `TableLogic.Paginated` | src/components/Table.jsx:68-69 | for page >= 1 the page holds the filtered rows from `(page-1)*10` to `min(page*10, length)`, at most 10 of them. It is empty exactly when the page is past the page count |
| `TableLogic.AtMostRun` | src/components/Table.jsx:91-93 | cutting a run of consecutive page numbers at a limit leaves the run's prefix up to the limit |
| `TableLogic.VisiblePagesWindow` | src/components/Table.jsx:91-93 | the page buttons are the consecutive numbers from the block start to `min(blockStart+9, totalPages)`, at most 10, and a page is shown iff it lies in the block and not past the page count |
| `TableComponent.CommentTable.constructor` | src/components/Table.jsx:29-32 | initial state: no rows, page 1, block 1, no cell edited; the invariant holds |
| `TableComponent.CommentTable.SetSearchQuery` | src/components/Table.jsx:28-32 | a new query leaves the current page and the block start as they were; the current page then shows no rows exactly when it lies past the new page count |
| `TableComponent.CommentTable.ReceiveData` | src/components/Table.jsx:34-42 | on fetch completion the rows become the fetched rows merged with the edits loaded from storage |
| `TableComponent.CommentTable.SaveEditToStorage` | src/components/Table.jsx:16-26 | the slot afterwards holds the loaded map updated at `[id][f]` |
| `TableComponent.CommentTable.HandleEdit` | src/components/Table.jsx:44-46 | the cursor becomes exactly `(id, f)`, whatever it was, and that is the only cell showing an input |
| `TableComponent.CommentTable.HandleChange` | src/components/Table.jsx:48-55 | the rows become the per-keystroke update of the old rows and the storage gets the same write as `saveEditToStorage` |
| `TableComponent.CommentTable.HandleKeyPress` | src/components/Table.jsx:57-59 | Enter clears the cursor; any other key leaves it unchanged |
| `TableComponent.CommentTable.HandleBlur` | src/components/Table.jsx:61 | the cursor is cleared and no cell shows an input |
| `TableComponent.CommentTable.GoToPage` | src/components/Table.jsx:71-73 | choosing a shown page button makes it the current page and keeps the invariant |
| `TableComponent.CommentTable.GoToNextBlock` | src/components/Table.jsx:75-81 | if `blockStart + 10 <= totalPages`, block start and page both become `blockStart + 10`; otherwise nothing changes. The invariant is kept |
| `TableComponent.CommentTable.GoToPrevBlock` | src/components/Table.jsx:83-89 | if `blockStart - 10 > 0`, block start and page both become `blockStart - 10`; otherwise nothing changes (and the block start is 1). The invariant is kept |

## Left out

- The navigation bar and the application shell (`src/components/Navbar.jsx`, `src/App.jsx`): they only hold the query string and pass it down. It enters the model as `searchQuery` through `SetSearchQuery`.
- Rendering: the table markup, CSS classes, `autoFocus`, the "No results found." row, and whether the pagination bar is shown (`totalPages > 1`). This is presentation.
- The HTTP requests, `Promise.all` and the `useEffect` scheduling. The outcomes of the two requests are inputs to `FetchCommentsWithPostTitles` (`None` for a failed request or parse). The fetch-completion callback is `ReceiveData`. A result that arrives after the table is gone is not modelled.
- `console.error` on a failed fetch.
- JSON encoding of the storage slot. The slot is an abstract value, and any text that does not parse is `Unparsable`. Stored JSON that parses to something other than a map of name/body edits is not modelled.
- A `localStorage.setItem` failure (e.g. quota exceeded). The source does not catch it, and the model's save always succeeds.
- Full Unicode `toLowerCase`: `Text.Lower` lower-cases ASCII letters only.
- Fields of the fetched comments beyond `id`, `postId`, `name`, `email` and `body`. The source's spread copies them along, but the model's records do not have them.
- Open-ended field names in edits: only `name` and `body` are ever edited, so `Field` has exactly those two.
- JavaScript's coercion of object keys to strings in the post lookup and the edit map. Ids are integers throughout.
