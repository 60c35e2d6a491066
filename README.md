# Book club site: a Dafny model of its page logic

The site is a set of browser pages over a hosted database with two tables,
`books` and `current`. Each page fetches rows, shows them, and sends inserts,
updates or deletes. This project models the logic that sits between those
calls and the rendering. Every backend answer is an input: a list of rows, a
`{ data, error }` pair, or an optional error.

- **Library** (`library.dfy`). The fetched rows are mapped to the page's
  records. The displayed list is a three-way shelf filter (`'all'`,
  `'on-shelf'`, anything else) combined with a case-insensitive substring
  search on title or author. The model also covers the shelf counts.
- **Update** (`update.dfy`). A class `UpdatePage` holds `books`,
  `filteredBooks`, `editingId` and the messages. It has the load effect, the
  search handler and the availability toggle. The toggle's success path is
  kept exactly as written:
  - `books` gets the misspelled key `avaialable`;
  - only `filteredBooks` gets the new `available`;
  - the footer counts read an `on_shelf` key that no row has.
- **AddBook** (`addbook.dfy`). The form record is updated field by field.
  Submitting maps the form to the inserted row: empty strings become null,
  `pages` goes through `parseInt`, and the image URL comes from the upload.
  The upload name is built from the file's extension. The form resets after a
  successful submit.
- **Current** (`current.dfy`). The `current` table is a `map<int, CurrentRow>`.
  The submit handler does these steps in order:
  1. upload the cover and the PDF, each optional;
  2. delete the prior row, if its id is truthy, ignoring the result;
  3. insert the new row, with the `||` fallback chains for `image` and
     `pdf_url`;
  4. reset the form on success.

  The fetch treats the error code `PGRST116` as "no row".
- **Home** (`home.dfy`). The panel shows the fetched row, or a fixed default
  book when there is no row or the fetch failed. After loading it is never
  empty.
- Shared modules: `Basics` (`Option` and JavaScript string truthiness),
  `Backend` (row shapes, the error object, the `PGRST116` rule), `Seqs` (`map`,
  `filter`, subsequence, and the partition and congruence lemmas) and `Text`
  (ASCII lower-casing, `includes`, `split('.').pop()`, `parseInt`, and the
  decimal rendering of `Date.now()`).

Two behaviours differ from what a reader might expect, and the model follows
the code. First, toggling availability does not flip the `available` column
of the page's `books` list, only that of the displayed rows. Second, "off
shelf" is any filter value other than `'all'` and `'on-shelf'`, not just
`'not-on-shelf'`.

## Model

| member | source | states |
|---|---|---|
| Library.MapRows | app/library/page.tsx:26-36 | every fetched row is mapped in order, and no data gives no books; `onShelf` is `available`; genre and image become `''` exactly when missing or empty, and otherwise pass through; id, title, author, description, pages and donor pass through |
| Library.Loaded | app/library/page.tsx:17-44 | a backend error leaves the list empty and sets `Failed to fetch books: <message>`; otherwise the books are the mapped rows; loading is over either way |
| Library.DisplayedIsSubsequence | app/library/page.tsx:50-63 | the displayed list is an order-preserving subsequence of `books`, so it is never longer |
| Library.AllWithEmptyQueryShowsEverything | app/library/page.tsx:50-58 | with filter `'all'` and an empty query the displayed list is `books` itself |
| Library.ShelfFilterSelects | app/library/page.tsx:51-55 | `'on-shelf'` shows only books on the shelf; any other value except `'all'` (`'not-on-shelf'` among them) shows only books off it |
| Library.DisplayedIff | app/library/page.tsx:50-63 | a book is displayed iff it is in `books`, passes the shelf test, and the query is empty or the lower-cased title or author contains the lower-cased query |
| Library.ShortcutIsRedundant | app/library/page.tsx:57-60 | removing the empty-query shortcut leaves the displayed list unchanged |
| Library.ShelfCountsPartition | app/library/page.tsx:113-133 | the "On Shelf" and "Not on Shelf" counts add up to the "All Books" count |
| Library.ResultsWithinShelfCount | app/library/page.tsx:207-215 | under `'on-shelf'` ("not-on-shelf") the results found never exceed the on-shelf (not-on-shelf) count |
| Text.Includes | app/library/page.tsx:59-60 | `includes` holds exactly when the query occurs at some position of the string |
| Text.SplitJoin | app/addbook/page.tsx:56 | `split` then `join` gives back the file name, and no piece contains the separator |
| Text.ExtensionIsLastSegment | app/addbook/page.tsx:56 | `split('.').pop()` is the dot-free tail after the last dot, and the whole name when there is no dot |
| Text.UploadNameKeepsExtension | app/addbook/page.tsx:56-57 | the storage name keeps the chosen file's extension and starts with the prefix and the time stamp |
| Text.ParseInt | app/addbook/page.tsx:83 | `parseInt` gives NaN exactly when no digit follows the optional sign |
| Text.ParseDigits | app/addbook/page.tsx:83 | a non-empty digit string parses to its decimal value |
| Text.DecimalRoundTrip | app/addbook/page.tsx:83 | `parseInt` reads back the decimal rendering of any number, with or without a minus sign |
| Update.SearchSelectsFromBooks | app/update/page.tsx:41-48 | the search result is drawn in order from `books`, not from the previous `filteredBooks`, and holds exactly the rows whose lower-cased title or author contains the lower-cased query |
| Update.MarkFilteredFlipsTarget | app/update/page.tsx:65-67 | on `filteredBooks` the rows with the id get the new `available`; no other row or column changes; length and ids are kept |
| Update.MarkBooksKeepsColumns | app/update/page.tsx:62-64 | on `books` no column changes, `available` included; only the rows with the id gain the `avaialable` key |
| Update.SearchAfterMarkShowsOldColumns | app/update/page.tsx:43-64 | after a toggle, every later search shows exactly the columns it showed before, the old status included |
| Update.StaleStatusExample | app/update/page.tsx:62-64 | a shelved book, toggled off, comes back from an empty search still on the shelf |
| Update.IntendedSearchShowsNewStatus | app/update/page.tsx:55-67 | with the column name spelled as in the update call, a later search shows the toggled book with its new status |
| Update.FooterAsWritten | app/update/page.tsx:197-199 | the footer's "On Shelf" is always 0 and "Not Available" is every shown row; the two add up to the rows shown |
| Update.FooterMissesShelvedRow | app/update/page.tsx:197-199 | with one shelved row shown, the footer as written reports 0 on the shelf, the intended count 1 |
| Update.IntendedFooterSplitsShown | app/update/page.tsx:163-168 | counting by the column the status badge reads splits the shown rows, and is positive when one shown row is on the shelf |
| Update.UpdatePage.constructor | app/update/page.tsx:7-13 | the page starts with both lists empty, loading, no messages and `editingId` null |
| Update.UpdatePage.FetchBooks | app/update/page.tsx:19-39 | after a load both lists are the fetched rows (or empty); on error only the message changes; loading ends |
| Update.UpdatePage.HandleSearch | app/update/page.tsx:41-48 | the query is stored and `filteredBooks` is recomputed from `books`; nothing else changes |
| Update.UpdatePage.HandleAvailabilityChange | app/update/page.tsx:50-76 | on success `books` and `filteredBooks` are updated as written and the success message is set; on error both lists are unchanged and the error is set; `editingId` stays null |
| Update.NoToggleDisabled | app/update/page.tsx:176 | in every reachable state no toggle button is disabled |
| Update.ShownWithinBooks | app/update/page.tsx:195-199 | in every reachable state `filteredBooks` is no longer than `books`, and the footer counts add up to the rows shown |
| AddBook.WithInput | app/addbook/page.tsx:24-30 | the named field takes `checked` for the checkbox and `value` otherwise; every other field keeps its value |
| AddBook.OnShelfKeptWithoutCheckbox | app/addbook/page.tsx:15-30 | events that never touch the checkbox leave `onShelf` as it was |
| AddBook.InsertRowFields | app/addbook/page.tsx:78-89 | genre and donor are null exactly when empty and otherwise pass through; pages are null when empty, otherwise `parseInt`'s value, null for NaN; `available` is the checkbox; `image` is the uploaded URL |
| AddBook.DefaultRowIsAvailable | app/addbook/page.tsx:44-89 | a form filled in without touching the checkbox and submitted without an image inserts an available row with an empty image |
| AddBook.AddBookPage.constructor | app/addbook/page.tsx:7-22 | the form starts empty with `onShelf` true, no file and no messages |
| AddBook.AddBookPage.HandleInputChange | app/addbook/page.tsx:24-30 | only the form changes, by the event |
| AddBook.AddBookPage.HandleImageChange | app/addbook/page.tsx:32-42 | a chosen file replaces the previous one; no file changes nothing |
| AddBook.AddBookPage.HandleSubmit | app/addbook/page.tsx:44-116 | the upload name and inserted row are as stated; on success the form and file reset and the success message is set; on either error the form is unchanged and the message names the failed step; `isLoading` is false at the end |
| Current.WithValue | app/current/page.tsx:67-73 | the named field takes the value; every other field keeps its value |
| Current.UploadsOutcome | app/current/page.tsx:105-143 | the submit fails at the first failing upload, image before PDF, with that step's message; otherwise the URLs are the uploaded ones, or empty when no file was chosen |
| Current.InsertRowFallbacks | app/current/page.tsx:156-167 | `image` is the new upload, else the previous image, else null; `pdf_url` is the new upload, else the form's link, else null; empty genre and audiobook link become null |
| Current.ReplaceTable | app/current/page.tsx:145-169 | the new row, under an id no row has, is stored exactly when the insert succeeds; every other row remains unchanged, except the prior row, which is gone when its delete succeeds |
| Current.ReplaceLeavesOneRow | app/current/page.tsx:145-169 | replacing the single shown row (its id truthy), with no backend error, leaves exactly one row, the new one |
| Current.FailedInsertLosesRow | app/current/page.tsx:145-173 | when the delete of the shown row succeeds and the insert fails, the single-row table is left empty |
| Current.InsertIgnoresDeleteResult | app/current/page.tsx:146-169 | the new row is stored whatever the delete answered |
| Current.CurrentPage.constructor | app/current/page.tsx:7-26 | the page starts loading, with no book, an empty form, no files and the form hidden |
| Current.CurrentPage.FetchCurrentBook | app/current/page.tsx:29-62 | `PGRST116` or no data leaves `currentBook` null with no error; any other error sets `error`; a row is mapped; loading ends |
| Current.CurrentPage.HandleInputChange | app/current/page.tsx:67-73 | only the form changes, by the named field |
| Current.CurrentPage.HandleFileChange | app/current/page.tsx:75-92 | a chosen cover or PDF replaces the previous one; no file changes nothing |
| Current.CurrentPage.SetShowForm | app/current/page.tsx:326-339 | the open buttons set `showForm` (the cancel button at line 486 clears it) |
| Current.CurrentPage.BeginSubmit | app/current/page.tsx:94-98 | while the calls are in flight `isSubmitting` is true and the messages are cleared |
| Current.CurrentPage.UploadFiles | app/current/page.tsx:105-143 | the upload names carry the `current-` / `current-pdf-` prefixes and time stamps; the outcome is UploadsOutcome's |
| Current.CurrentPage.HandleFormSubmit | app/current/page.tsx:94-208 | an upload failure changes only the error; otherwise the table is ReplaceTable's; on insert success `currentBook` is the returned row and the form, files and `showForm` reset; on insert failure they keep their values; `isSubmitting` ends false |
| Home.RowIsShown | app/home/page.tsx:26-37 | a returned row is shown with its title, author, genre, description, image and links |
| Home.NoRowGivesDefault | app/home/page.tsx:38-49 | no row, `PGRST116` included, shows "Things Fall Apart" by Chinua Achebe, 209 pages |
| Home.FailureGivesDefault | app/home/page.tsx:50-61 | any other fetch error shows the same default book |
| Home.DefaultUnlessRow | app/home/page.tsx:22-61 | the panel differs from the default only when a row came back without a failure |
| Home.HomePage.constructor | app/home/page.tsx:7-9 | the page starts loading with no book |
| Home.HomePage.FetchCurrentBook | app/home/page.tsx:12-64 | after the fetch a book is set and loading is over, so "No current book selected" is never shown |

## Left out

- Rendering, styling, animations and the `<style jsx>` block: these are
  presentation only.
- The backend client itself (`createClient`, `select`, `insert`, `update`,
  `delete`, `storage.upload`, `getPublicUrl`). Its answers are parameters.
  The ordering of the selects (`created_at` descending, `title` ascending,
  `limit(1)`) is the backend's job, so the fetched rows arrive already ordered.
- `FileReader` previews (`imagePreview`) and the `File` objects. Only the
  chosen file's name is kept.
- `Date.now()` and `new Date().toISOString()`: the clock readings are
  parameters. The `setTimeout` calls that clear the success messages are
  timer effects and are not modelled.
- `console.error` logging. Also left out is the `'Failed to load …'` message
  for a thrown non-`Error` value: every modelled failure throws an `Error`.
- Text.Lower: lower-cases ASCII letters only, not the full Unicode
  `toLowerCase`.
- Text.ParseInt: reads an optional sign and the digits after it. Leading
  whitespace, the `0x` prefix and precision past 2^53 are not modelled.
  NaN is `None`, which the insert sends as null.
- The home page's `rating` fallback of 4.8, because it is floating point.
- A `null` title or author makes `toLowerCase` throw in the filters. Titles
  and authors are modelled as strings, because the add form requires both.
- The add form's native `type="reset"` button. It clears the inputs in the
  browser without going through the React state.
- Races between browser sessions, and the non-atomic delete-then-insert
  under concurrent users: this is concurrency on an external store. The
  single-session data loss is stated in Current.FailedInsertLosesRow.
- Update.UpdatePage.HandleAvailabilityChange, AddBook.AddBookPage.HandleSubmit
  and Current.CurrentPage.HandleFormSubmit are single steps over the state at
  the moment the backend answers. The handlers themselves use the state
  captured before their `await`s: the `books` and `filteredBooks` of the
  click, and the `formData` and `currentBook` of the render. Events that
  arrive between the `await`s are not modelled. Examples are a second toggle
  answered out of order (no toggle is ever disabled), or a search typed while
  the update is in flight. Their effects can be overwritten by the stale
  lists.
- The members and about pages, the navigation bar, the footer and the
  layout: these are static content, a menu toggle and font wiring.

## Findings

| source | as written | input that shows it | evidently intended | confidence | as-written member | corrected member |
|---|---|---|---|---|---|---|
| app/update/page.tsx:62-64 | the success path writes the misspelled key `avaialable` into `books` | a shelved row toggled off, then an empty search: the row shows as on the shelf again | `available: !currentStatus` on the `books` row too | high (not executed) | Update.StaleStatusExample | Update.IntendedSearchShowsNewStatus |
| app/update/page.tsx:198-199 | the footer counts `b.on_shelf`, a key the `books` rows do not have | one shown row with `available` true: "On Shelf" reads 0 | count by `b.available`, as the status badge does | medium (not executed; assumes the table has no `on_shelf` column, since every other page reads and writes `available`) | Update.FooterMissesShelvedRow | Update.IntendedFooterSplitsShown |

The page class `UpdatePage` keeps both behaviours as written, because it
models what the page does. The corrected definitions sit beside it, together
with their proved properties. The intended toggle on `books` is
Update.MarkFiltered, which is what the page already applies to
`filteredBooks`. The intended footer count is Update.IntendedFooterOnShelf.
