# Users directory page — a verified Dafny model

The system is a single-page users directory. It loads user records from a remote service
and normalises each record to `{id, firstName, lastName, email, department}`. It shows the
records through one pipeline: a free-text search ANDed with four per-field filters, then a
stable sort on one column in one direction, then either a numbered page or a growing
"infinite scroll" window. Users can add, edit and delete records through a form dialog. The
dialog validates required fields and the email shape. A pagination bar offers Prev/Next and
the page size.

The model has one module per concern:

- `Wrappers`: `Option`, and `Reply` (a server reply: a value or an error message).
- `Text`: the JavaScript string built-ins the page relies on. These are `trim` and `\s` over
  the ECMAScript whitespace set, ASCII `toLowerCase`, `includes`, `split(' ')` and `String(n)`.
- `Seqs`: `Array.prototype.filter` as `Keep`, and order-preserving subsequences.
- `Records`: the record normaliser `mapUser`.
- `Query`: the search and filter predicate, and the `filtered` derivation.
- `Ordering`: the column comparator and a stable sort for `sorted`. The sort is proved to
  be the only stable ordered permutation.
- `Window`: the paging arithmetic and the infinite window.
- `Pagination`: the pagination bar's page count, Prev, Next and disabled conditions.
- `UserForm`: the form dialog. `FormModal` is a class whose `values` and `errors` fields are
  updated by `Update`, `Validate` and `Submit`.
- `Collection`: the list updates made by create, edit and delete.
- `UsersPage`: the page controller. `UsersView` is a class with the page's state fields and
  one method per handler. Its rows on screen are derived by the pure pipeline.

## Notes on the code's behaviour

- `mapUser` keeps only the first two space-separated tokens of the name as first and last
  name. Any third token is dropped.
- A sort-header click leaves the requested page as it is. Only the infinite window is reset.
- A created record is prepended to the list, so it becomes the first record.

## Model

| member | source | states |
|---|---|---|
| Text.Trim | src/pages/Users/index.js:91 | `trim()`: the result is an infix of the input with only whitespace on either side of it; it is empty exactly when the input is all whitespace, and otherwise neither starts nor ends with whitespace; an already-trimmed string is unchanged |
| Text.TrimStart | src/pages/Users/index.js:91 | the result is a suffix of the input, everything dropped is whitespace, and the result does not start with whitespace |
| Text.TrimEnd | src/pages/Users/index.js:91 | the result is a prefix of the input, everything dropped is whitespace, and the result does not end with whitespace |
| Text.Includes | src/pages/Users/index.js:94-98 | `includes`: true exactly when the needle occurs at some position |
| Text.Split | src/pages/Users/index.js:13 | `split(' ')`: at least one piece, no piece contains the separator, and joining the pieces with the separator gives back the input |
| Text.SplitTwoWords | src/pages/Users/index.js:13 | two separator-free words joined by the separator split back into exactly those two words |
| Text.NatText | src/pages/Users/index.js:94 | the decimal text of a natural number is non-empty and all digits, the digits denote the number, and it starts with `0` only for zero |
| Text.DecimalTextIsLowerTrimmed | src/pages/Users/index.js:94 | `String(id)` is unchanged by `trim` and `toLowerCase` |
| Seqs.Keep | src/pages/Users/index.js:92 | `filter`: an order-preserving subsequence that keeps each element's multiplicity when the predicate holds and drops it otherwise |
| Seqs.KeepAll | src/pages/Users/index.js:92 | filtering with a predicate every element satisfies returns the list itself |
| Records.MapUser | src/pages/Users/index.js:12-22 | the id is copied; first and last name are the first two space-separated tokens of the name (missing parts empty); a missing email becomes `''`; the department is the organisation name when present and non-empty, `General` otherwise, so never empty |
| Records.SplitFirstTwo | src/pages/Users/index.js:13 | the first two pieces of `split(' ')` are the first two tokens of the name in the sense of `FirstTwoTokens` |
| Records.FirstTwoTokensUnique | src/pages/Users/index.js:13 | the first two tokens of a name are uniquely determined, so `FirstTwoTokens` is an independent definition of the destructuring |
| Records.MapUsers | src/pages/Users/index.js:69 | `(data or []).map(mapUser)`: one normalised record per raw record, in order |
| Query.Filtered | src/pages/Users/index.js:90-108 | an order-preserving subsequence of the users; every kept record matches; a record's multiplicity is kept exactly when it matches and is zero otherwise |
| Query.BlankSearchMatchesAll | src/pages/Users/index.js:91-93 | a query that is blank after `trim` matches every record |
| Query.NoConstraintKeepsAll | src/pages/Users/index.js:93-106 | a blank query with all-empty filters returns the users unchanged |
| Query.FilteredIdempotent | src/pages/Users/index.js:90-108 | filtering a filtered list again changes nothing |
| Query.SearchFindsOwnId | src/pages/Users/index.js:94 | searching for the decimal text of a record's id finds that record |
| Query.TrimLower | src/pages/Users/index.js:91 | `trim` and `toLowerCase` commute, and lower-casing is idempotent |
| Query.SearchIgnoresCase | src/pages/Users/index.js:91-98 | the search result does not depend on the case of the query |
| Query.FieldIgnoresCase | src/pages/Users/index.js:101-104 | a field filter's result does not depend on the case of the filter text |
| Query.MatchesIgnoresCase | src/pages/Users/index.js:93-106 | the whole predicate is unchanged when the query and all filters are lower-cased |
| Query.FilterLiteralHit | src/pages/Users/index.js:101-104 | a filter text occurring literally in a field makes that field pass |
| Ordering.KeyOf | src/pages/Users/index.js:114-115 | `a[sortKey]`: the id column compares as a number, every other column as a string |
| Ordering.StrLessTotal | src/pages/Users/index.js:116-117 | string `<` is total: of two different strings one is less than the other |
| Ordering.StrLessTransitive | src/pages/Users/index.js:116-117 | string `<` is transitive |
| Ordering.LessStrictTotal | src/pages/Users/index.js:116-117 | key `<` is irreflexive, asymmetric and total on keys of one column |
| Ordering.LessTransitive | src/pages/Users/index.js:116-117 | key `<` is transitive |
| Ordering.Compare | src/pages/Users/index.js:113-119 | the comparator returns -1, 0 or 1; 0 exactly on equal keys; non-positive exactly when the first record may precede the second in the chosen direction |
| Ordering.InOrderTransitive | src/pages/Users/index.js:113-119 | the order the comparator induces is transitive |
| Ordering.Insert | src/pages/Users/index.js:113 | one insertion step adds exactly the inserted record |
| Ordering.InsertOrdered | src/pages/Users/index.js:113 | inserting into an ordered list keeps it ordered |
| Ordering.SortBy | src/pages/Users/index.js:111-121 | `sorted` is a permutation of `filtered`, ascending or descending on the key |
| Ordering.SortStable | src/pages/Users/index.js:111-121 | records with equal keys keep their `filtered` order, in both directions |
| Ordering.SortUnique | src/pages/Users/index.js:111-121 | any ordered list that keeps the equal-key order of the input is the sort's result, so the sort is fully determined |
| Ordering.SortIdempotent | src/pages/Users/index.js:111-121 | sorting an ordered list returns it unchanged, and sorting twice equals sorting once |
| Ordering.OrderedDistinctKeys | src/pages/Users/index.js:116-117 | in an ordered list, distinct keys are strictly increasing for `asc` and strictly decreasing for `desc` |
| Window.TotalPages | src/pages/Users/index.js:125 | `max(1, ceil(total/pageSize))`: at least 1, exactly 1 for no items, and otherwise the least page count whose pages hold all items |
| Window.CurrentPage | src/pages/Users/index.js:126 | the requested page clamped to `[1, totalPages]`, unchanged when in range |
| Window.StartIndex | src/pages/Users/index.js:127 | the first index of the shown page lies inside the list when the list is non-empty |
| Window.Slice | src/pages/Users/index.js:128 | `slice` with clamped bounds |
| Window.PageItems | src/pages/Users/index.js:128 | `sorted[startIdx .. min(total, startIdx + pageSize)]`, at most `pageSize` items, empty exactly when there are no items |
| Window.PagingExample | src/pages/Users/index.js:124-128 | 23 items in pages of 10: page 5 clamps to page 3, which shows indices 20 to 22 |
| Window.InfiniteItems | src/pages/Users/index.js:131 | the first `min(itemsToShow, total)` sorted records |
| Window.Advance | src/pages/Users/index.js:138-139 | below `total`, the window becomes `min(total, n + pageSize)`, so it grows but never past `total`; at or above `total` it stays |
| Window.AdvanceReachesTotal | src/pages/Users/index.js:138-139 | enough advances show the whole list, and further advances change nothing |
| Window.AdvanceAtTotal | src/pages/Users/index.js:138 | advances at `total` are no-ops |
| Window.AdvanceExample | src/pages/Users/index.js:138-139 | 25 items in pages of 10 show 10, then 20, then 25, and stay at 25 |
| Pagination.Prev | src/Components/Pagination/index.js:7 | requests `page - 1` exactly when `page > 1`, which is exactly when Prev is enabled |
| Pagination.Next | src/Components/Pagination/index.js:8 | requests `page + 1` exactly when `page < totalPages`, which is exactly when Next is enabled |
| Pagination.RequestsStayInRange | src/Components/Pagination/index.js:7-8 | from a page in `[1, totalPages]`, every request stays in that range |
| Pagination.SinglePageDisablesBoth | src/Components/Pagination/index.js:5 | with a single page (in particular no items) both buttons are disabled |
| UserForm.Initial | src/Components/UserFormModal/index.js:5-11 | every field is the supplied value when there is one and `''` otherwise |
| UserForm.With | src/Components/UserFormModal/index.js:22 | `{ ...s, [field]: v }`: the field becomes `v` and every other field is unchanged |
| UserForm.EmailPatternIff | src/Components/UserFormModal/index.js:30 | the email regex accepts exactly the strings with no whitespace and exactly one `@`, a non-empty part before the `@`, and a domain with a dot that is neither its first nor its last character |
| UserForm.EmailAcceptedExamples | src/Components/UserFormModal/index.js:30 | `a@b.c` and `a@b..c` are accepted |
| UserForm.EmailRejectedExamples | src/Components/UserFormModal/index.js:30 | `a@.b`, `a@b.` and `a@@b.c` are rejected |
| UserForm.ErrorsFor | src/Components/UserFormModal/index.js:25-31 | a blank name or department gives that field's required message; a blank email gives `Email is required`; a non-blank email that fails the pattern gives `Invalid email`; no other keys |
| UserForm.ValidIff | src/Components/UserFormModal/index.js:27-33 | there are no errors exactly when no field is blank and the email fits the pattern |
| UserForm.FormModal.constructor | src/Components/UserFormModal/index.js:13-14 | the form opens with the initial values and no errors |
| UserForm.FormModal.Reset | src/Components/UserFormModal/index.js:16-19 | a new `initial` or reopening resets the values and clears the errors |
| UserForm.FormModal.Update | src/Components/UserFormModal/index.js:21-23 | only the named field changes |
| UserForm.FormModal.Validate | src/Components/UserFormModal/index.js:25-34 | the shown errors become the error map of the values, and the result is true exactly when that map is empty |
| UserForm.FormModal.Submit | src/Components/UserFormModal/index.js:36-40 | the untrimmed values are handed on exactly when validation passes; the errors are shown either way |
| Collection.MaxId | src/pages/Users/index.js:202 | `Math.max(0, ...ids)`: at least 0 and every id, and either 0 or an id in the list |
| Collection.FallbackId | src/pages/Users/index.js:202 | the fallback id is at least 1 and larger than every id in the list, so it is unused |
| Collection.NewUser | src/pages/Users/index.js:195-202 | the created record has the given id, the first two tokens of the trimmed `first last` name, the given email, and the department or `General` when it is empty |
| Collection.Created | src/pages/Users/index.js:200-203 | exactly one record is prepended and the rest of the list is unchanged; the new record is `NewUser` of the form values, with the server's id or else the fallback |
| Collection.CreatedKeepsIdsUnique | src/pages/Users/index.js:202-203 | with unique ids and a server id that is not taken (or none), ids stay unique |
| Collection.CreatedWithTakenId | src/pages/Users/index.js:202-203 | a server id that is already taken produces a duplicate id |
| Collection.NewUserKeepsSingleWordNames | src/pages/Users/index.js:196-202 | non-empty, space-free names without outer whitespace come back unchanged as first and last name |
| Collection.NewUserSplitsTwoWordFirstName | src/pages/Users/index.js:196-202 | first name `Mary Ann` with last name `Lee` is stored as `Mary`/`Ann` |
| Collection.FindById | src/pages/Users/index.js:183 | `find`: none exactly when no record has the id; otherwise a record of the list with that id, the first one |
| Collection.Edited | src/pages/Users/index.js:215 | the id is kept and the four fields are replaced by the form values |
| Collection.Updated | src/pages/Users/index.js:215 | same length and ids in the same order; records with the id are edited and all others are unchanged |
| Collection.UpdatedThenFind | src/pages/Users/index.js:215 | after an update, lookups of other ids are unaffected |
| Collection.ValuesOf | src/pages/Users/index.js:184 | editing a record with its own form values gives the record back |
| Collection.UpdatedWithOwnValues | src/pages/Users/index.js:215 | with unique ids, saving a record's own values leaves the list unchanged |
| Collection.UpdatedKeepsIdsUnique | src/pages/Users/index.js:215 | updates keep ids unique |
| Collection.UpdatedIdempotent | src/pages/Users/index.js:215 | applying the same update twice equals applying it once |
| Collection.Removed | src/pages/Users/index.js:233 | an order-preserving subsequence without the id; every record with another id keeps its multiplicity and records with the id have none |
| Collection.RemovedAbsent | src/pages/Users/index.js:233 | deleting an id that is not present changes nothing |
| Collection.RemovedOne | src/pages/Users/index.js:233 | with unique ids, deleting a present id removes exactly one record |
| Collection.RemovedKeepsIdsUnique | src/pages/Users/index.js:233 | deletion keeps ids unique |
| UsersPage.ErrorText | src/pages/Users/index.js:71 | `e.message or fallback`: the message unless it is empty |
| UsersPage.SortAfter | src/pages/Users/index.js:153-160 | the clicked key becomes the sort key; the same key flips the direction and another key starts ascending |
| UsersPage.SortClickTwice | src/pages/Users/index.js:153-160 | every click changes the sort state, and two clicks on the active header restore it |
| UsersPage.ShownRows | src/pages/Users/index.js:124-131 | the rows are a contiguous run of the sorted list, starting at its head in infinite mode, so they keep its order; infinite mode shows `min(itemsToShow, total)` rows; paged mode shows exactly `PageItems` of the requested page, at most a page, empty exactly when the list is empty |
| UsersPage.UsersView.Sorted | src/pages/Users/index.js:90-121 | each loaded record that matches the query occurs as often as among the loaded records, and no other record occurs; the list is in key order, and records with equal keys keep their `filtered` order |
| UsersPage.UsersView.ShownPage | src/pages/Users/index.js:126 | the shown page lies in `[1, totalPages]` |
| UsersPage.UsersView.VisibleRows | src/pages/Users/index.js:124-131 | every row is a loaded record that matches the query; the rows are a contiguous run of `Sorted`, from its head in infinite mode; in paged mode they are exactly `PageItems` of `Sorted` for the requested page; their count is as `ShownRows` states |
| UsersPage.UsersView.InitialValuesForForm | src/pages/Users/index.js:181-187 | in edit mode with a known id, the edited record's own values; the blank form otherwise |
| UsersPage.UsersView.constructor | src/pages/Users/index.js:27-60 | the initial state: empty list, id ascending, page 1 of size 10, paged mode, form closed |
| UsersPage.UsersView.Load | src/pages/Users/index.js:62-78 | on success the mapped records (none for an empty reply) and no error; on failure the list is kept and the error banner is shown |
| UsersPage.UsersView.TypeSearch | src/pages/Users/index.js:248 | typing changes only the search input |
| UsersPage.UsersView.SettleSearch | src/pages/Users/index.js:81-87 | the query becomes the typed text, the page becomes 1, and in infinite mode a changed query resets the window to one page |
| UsersPage.UsersView.OpenFilters | src/pages/Users/index.js:250 | the filter popup opens |
| UsersPage.UsersView.CloseFilters | src/pages/Users/index.js:288 | the filter popup closes |
| UsersPage.UsersView.ApplyFilters | src/pages/Users/index.js:162-166 | the filters are set, the popup closes and the page becomes 1; in infinite mode changed filters reset the window |
| UsersPage.UsersView.Sort | src/pages/Users/index.js:153-160 | the sort state moves as `SortAfter` says and the page is untouched; in infinite mode the window resets to one page |
| UsersPage.UsersView.SetInfinite | src/pages/Users/index.js:147-151 | switching infinite mode on starts the window at one page |
| UsersPage.UsersView.PrevPage | src/Components/Pagination/index.js:7 | from the shown page, one page back unless it is the first |
| UsersPage.UsersView.NextPage | src/Components/Pagination/index.js:8 | from the shown page, one page on unless it is the last; the new page never passes the last page |
| UsersPage.UsersView.ChangePageSize | src/pages/Users/index.js:276 | the new size and page 1; in infinite mode a changed size resets the window to that size |
| UsersPage.UsersView.Scroll | src/pages/Users/index.js:134-144 | near the bottom in infinite mode the window advances as `Advance` says; it never shrinks and, once grown, never passes `total` |
| UsersPage.UsersView.OpenAdd | src/pages/Users/index.js:169-173 | add mode, no edited id, form open |
| UsersPage.UsersView.OpenEdit | src/pages/Users/index.js:175-179 | edit mode for that id, form open |
| UsersPage.UsersView.CloseForm | src/pages/Users/index.js:296 | the form closes |
| UsersPage.UsersView.SubmitForm | src/pages/Users/index.js:189-225 | add success: `Created` list, form closed, page 1, success notice; edit success: `Updated` list, form closed, page kept, success notice; failure: list and form kept, error banner and failure notice; edit mode without an id: only the banner is cleared |
| UsersPage.UsersView.Delete | src/pages/Users/index.js:227-241 | declined: nothing changes; confirmed: the record is removed at once and not restored, then either a success notice or the error banner and a failure notice |
| UsersPage.EditUnchangedKeepsList | src/pages/Users/index.js:181-187 | with unique ids, saving the edit form as seeded leaves the list unchanged |

## Left out

- The remote service calls (`getUsers`, `createUser`, `updateUser`, `deleteUser`) are not modelled. Each
  handler takes the reply as a `Reply` parameter. The value `updateUser` returns is ignored, as in the code.
- React's state, effect and memo machinery is not modelled. Each state change the page makes is a method,
  and each derived value (`filtered`, `sorted`, `pageItems`, `infiniteItems`) is a function of the fields.
- The itemsToShow reset effect is folded into the methods that change its dependencies. The window is
  reset when infinite mode is on and a dependency value actually changed.
- The 300 ms search debounce timer is not modelled. It is the `SettleSearch` step.
- `AbortController` cancellation of the initial load is not modelled.
- The `loading` and `submitting` flags are not modelled. `loading` shows a banner and hides the table, the pagination bar and the infinite-mode banner until the load ends, so `UsersPage.UsersView.VisibleRows` is not what is on screen while a load is running. `submitting` disables the dialog's submit button and re-renders the page.
- Handlers are modelled as atomic steps. In the source, the save handler awaits the server between its start and its end, and reads the dialog mode and the edited id from the render in which it started. So a save reply that arrives after the user closed the dialog and opened Edit on another row updates the first row and closes the newly opened dialog. `UsersPage.UsersView.SubmitForm` cannot reach that state.
- The scroll-position test is not modelled. `Scroll` takes `nearBottom` as a parameter.
- The `window.confirm` prompt is not modelled. `Delete` takes the answer as a parameter.
- Toasts are recorded only by message and kind. Their ids, which come from the clock and a random number,
  their durations, `dismissToast` and the toast component's timers are not modelled.
- Rendering is not modelled: JSX, the top bar, the table, the filter popup's own local state, and the
  form's open/closed rendering.
- The `raw` field that `mapUser` attaches to each record is not modelled. Nothing in the page reads it.
- Ids are modelled as unbounded integers, but JavaScript numbers are doubles. The model assumes ids
  are integers below 2^53. From 2^53 on, the fallback `Math.max(0, ...ids) + 1` can equal the largest
  id. From 10^21 on, `String(id)` uses exponent notation, so it is no longer the decimal text. A raw
  record without a numeric id cannot be represented.
- `toLowerCase` is modelled for ASCII letters only, and string `<` compares code points rather than
  UTF-16 code units. Both agree with JavaScript on ASCII text.
- UserForm.Initial: a supplied field is either present with a string or absent. A field present with the
  value `undefined` is not modelled.
- The page does not hold a form object. The dialog's reset on a new `initialValues` is the separate
  `UserForm.FormModal.Reset` step.
- UsersPage.UsersView.SubmitForm: "form kept" on a failed save means the dialog stays open. The typed
  values are not kept. `initialValuesForForm()` builds a new object on every page render, so the
  dialog's reset effect runs on every re-render of the page, for example when `submitting` changes.
  A failed save therefore replaces the typed values with the initial ones. The model does not tie
  the form object to page renders.
- The shipped top bar never reads `infinite` or `onToggleInfinite`, so no control calls `SetInfinite`.
  Infinite mode has no way in through the shipped interface. The model keeps the handler as the page
  defines it.
- The pagination bar is rendered only outside infinite mode. So the infinite-mode branch of
  `ChangePageSize` and the Prev/Next buttons in infinite mode cannot be reached. The model does not
  rule them out.
