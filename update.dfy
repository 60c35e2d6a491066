/** The availability update page: two lists of `books` rows (all of them,
    and those matching the search), and the handlers that search and that
    flip a book's `available` column. The success path of the toggle writes
    its new value into `books` under the misspelled key `avaialable`, so only
    `filteredBooks` shows the flip and the next search brings back the old
    status; the footer counts read a key `on_shelf` that no row has. The page
    model below keeps both behaviours as written. */
module Update {
  import opened Basics
  import opened Backend
  import opened Seqs
  import opened Text

  /** A row of the page's lists: the fetched `books` row, plus the key
      `avaialable` that the toggle handler adds; `None` until it does. */
  datatype ListedBook = ListedBook(row: BookRow, avaialable: Option<bool>)

  /** `data || []`, as the page's rows. */
  function Listed(data: Option<seq<BookRow>>): seq<ListedBook>
  {
    match data
    case None => []
    case Some(rows) => Map(rows, (row: BookRow) => ListedBook(row, None))
  }

  function Ids(rows: seq<ListedBook>): seq<int>
  {
    Map(rows, (b: ListedBook) => b.row.id)
  }

  /** The search test of `handleSearch`, which has no empty-query shortcut. */
  predicate TitleOrAuthorMatches(query: string, b: ListedBook)
  {
    Includes(Lower(b.row.title), Lower(query)) || Includes(Lower(b.row.author), Lower(query))
  }

  /** The list `handleSearch` computes from `books`. */
  function SearchRows(books: seq<ListedBook>, query: string): seq<ListedBook>
  {
    Filter(books, b => TitleOrAuthorMatches(query, b))
  }

  /** What the success path does to `books`: the matching rows get the key
      `avaialable`, and their `available` column is left alone. */
  function MarkBooks(books: seq<ListedBook>, bookId: int, value: bool): seq<ListedBook>
  {
    Map(books, (b: ListedBook) => if b.row.id == bookId then b.(avaialable := Some(value)) else b)
  }

  /** What the success path does to `filteredBooks`: the matching rows get
      the new `available`. */
  function MarkFiltered(rows: seq<ListedBook>, bookId: int, value: bool): seq<ListedBook>
  {
    Map(rows, (b: ListedBook) => if b.row.id == bookId then b.(row := b.row.(available := value)) else b)
  }

  /** `b.on_shelf`: the rows have no such column, so the lookup is
      `undefined`, which is falsy. */
  predicate OnShelfKey(b: ListedBook)
  {
    false
  }

  /** The footer's "On Shelf" count as written. */
  function FooterOnShelf(rows: seq<ListedBook>): nat
  {
    |Filter(rows, OnShelfKey)|
  }

  /** The footer's "Not Available" count as written. */
  function FooterNotAvailable(rows: seq<ListedBook>): nat
  {
    |Filter(rows, (b: ListedBook) => !OnShelfKey(b))|
  }

  // ---------------------------------------------------------------------
  // Properties of the list operations

  /** A search result is drawn from `books` in order, and holds exactly the
      rows of `books` whose lower-cased title or author contains the
      lower-cased query. */
  lemma SearchSelectsFromBooks(books: seq<ListedBook>, query: string)
    ensures IsSubsequence(SearchRows(books, query), books)
    ensures IsSubsequence(Ids(SearchRows(books, query)), Ids(books))
    ensures forall b :: b in SearchRows(books, query) <==> b in books && TitleOrAuthorMatches(query, b)
  {
    var r := SearchRows(books, query);
    FilterIsSubsequence(books, b => TitleOrAuthorMatches(query, b));
    MapPreservesSubsequence(r, books, (b: ListedBook) => b.row.id);
    forall b ensures b in r <==> b in books && TitleOrAuthorMatches(query, b) {
      if b in r {
        var i :| 0 <= i < |r| && r[i] == b;
      }
      if b in books && TitleOrAuthorMatches(query, b) {
        var i :| 0 <= i < |books| && books[i] == b;
      }
    }
  }

  /** On `filteredBooks` the toggle sets `available` on the rows with the
      book's id and on no other row; every other column, the length and the
      ids stay as they were. */
  lemma MarkFilteredFlipsTarget(rows: seq<ListedBook>, bookId: int, value: bool)
    ensures |MarkFiltered(rows, bookId, value)| == |rows|
    ensures Ids(MarkFiltered(rows, bookId, value)) == Ids(rows)
    ensures forall i :: 0 <= i < |rows| ==>
      var r := MarkFiltered(rows, bookId, value)[i];
      && r.row.available == (if rows[i].row.id == bookId then value else rows[i].row.available)
      && r.row.(available := rows[i].row.available) == rows[i].row
      && r.avaialable == rows[i].avaialable
  {
    var r := MarkFiltered(rows, bookId, value);
    assert forall i :: 0 <= i < |rows| ==> Ids(r)[i] == Ids(rows)[i];
  }

  /** On `books` the toggle changes no column: every row keeps its
      `available`, and only the rows with the book's id gain the key
      `avaialable`. */
  lemma MarkBooksKeepsColumns(books: seq<ListedBook>, bookId: int, value: bool)
    ensures |MarkBooks(books, bookId, value)| == |books|
    ensures Ids(MarkBooks(books, bookId, value)) == Ids(books)
    ensures forall i :: 0 <= i < |books| ==>
      && MarkBooks(books, bookId, value)[i].row == books[i].row
      && MarkBooks(books, bookId, value)[i].avaialable ==
           (if books[i].row.id == bookId then Some(value) else books[i].avaialable)
  {
    var r := MarkBooks(books, bookId, value);
    assert forall i :: 0 <= i < |books| ==> Ids(r)[i] == Ids(books)[i];
  }

  function Columns(rows: seq<ListedBook>): seq<BookRow>
  {
    Map(rows, (b: ListedBook) => b.row)
  }

  /** After a toggle, any later search shows exactly the columns it would
      have shown before it, the old `available` of the toggled book
      included. */
  lemma {:induction false} SearchAfterMarkShowsOldColumns(books: seq<ListedBook>, bookId: int, value: bool, query: string)
    ensures Columns(SearchRows(MarkBooks(books, bookId, value), query)) == Columns(SearchRows(books, query))
  {
    if books != [] {
      var marked := MarkBooks(books, bookId, value);
      assert marked[1..] == MarkBooks(books[1..], bookId, value);
      assert marked[0].row == books[0].row;
      SearchAfterMarkShowsOldColumns(books[1..], bookId, value, query);
    }
  }

  /** The footer counts as written: "On Shelf" is always zero and
      "Not Available" is every shown row, so the two add up to the total. */
  lemma FooterAsWritten(rows: seq<ListedBook>)
    ensures FooterOnShelf(rows) == 0
    ensures FooterNotAvailable(rows) == |rows|
    ensures FooterOnShelf(rows) + FooterNotAvailable(rows) == |rows|
  {
    FilterNone(rows, OnShelfKey);
    FilterAll(rows, (b: ListedBook) => !OnShelfKey(b));
  }

  // ---------------------------------------------------------------------
  // The two discrepancies, exhibited, and the evidently intended behaviour

  /** A book on the shelf, toggled off, comes back from an empty search
      still marked as on the shelf. */
  lemma StaleStatusExample(row: BookRow)
    requires row.available
    ensures |SearchRows(MarkBooks([ListedBook(row, None)], row.id, false), "")| == 1
    ensures SearchRows(MarkBooks([ListedBook(row, None)], row.id, false), "")[0].row.available
  {
    var marked := MarkBooks([ListedBook(row, None)], row.id, false);
    IncludesEmpty(Lower(marked[0].row.title));
    assert Lower("") == "";
  }

  /** With one shown row on the shelf, the footer as written still reports
      no book on the shelf. */
  lemma FooterMissesShelvedRow(row: BookRow)
    requires row.available
    ensures FooterOnShelf([ListedBook(row, None)]) == 0
    ensures IntendedFooterOnShelf([ListedBook(row, None)]) == 1
  {
  }

  /** The intended toggle on `books` spells the column as the update call
      and the `filteredBooks` map do, so it is MarkFiltered applied to
      `books`. With it, every later search shows the toggled book with its
      new status, and the ids of `books` are kept. */
  lemma IntendedSearchShowsNewStatus(books: seq<ListedBook>, bookId: int, value: bool, query: string)
    ensures Ids(MarkFiltered(books, bookId, value)) == Ids(books)
    ensures forall b :: b in SearchRows(MarkFiltered(books, bookId, value), query) && b.row.id == bookId ==>
      b.row.available == value
  {
    var marked := MarkFiltered(books, bookId, value);
    assert forall i :: 0 <= i < |books| ==> Ids(marked)[i] == Ids(books)[i];
    forall b | b in SearchRows(marked, query) && b.row.id == bookId ensures b.row.available == value {
      SearchSelectsFromBooks(marked, query);
      var i :| 0 <= i < |marked| && marked[i] == b;
    }
  }

  /** The footer's "On Shelf" count with the column the status badge reads. */
  function IntendedFooterOnShelf(rows: seq<ListedBook>): nat
  {
    |Filter(rows, (b: ListedBook) => b.row.available)|
  }

  /** The footer's "Not Available" count with the column the status badge
      reads. */
  function IntendedFooterNotAvailable(rows: seq<ListedBook>): nat
  {
    |Filter(rows, (b: ListedBook) => !b.row.available)|
  }

  /** The intended counts split the shown rows by their badge, and "On
      Shelf" is positive as soon as one shown row is on the shelf. */
  lemma IntendedFooterSplitsShown(rows: seq<ListedBook>)
    ensures IntendedFooterOnShelf(rows) + IntendedFooterNotAvailable(rows) == |rows|
    ensures (exists i :: 0 <= i < |rows| && rows[i].row.available) ==> IntendedFooterOnShelf(rows) > 0
  {
    FilterPartition(rows, (b: ListedBook) => b.row.available, (b: ListedBook) => !b.row.available);
  }

  // ---------------------------------------------------------------------
  // The page

  class UpdatePage {
    var books: seq<ListedBook>
    var filteredBooks: seq<ListedBook>
    var searchQuery: string
    var isLoading: bool
    var error: string
    var editingId: Option<int>
    var successMessage: string

    /** `editingId` stays null, and the shown rows are, by id, drawn in
        order from `books`. */
    ghost predicate Valid()
      reads this
    {
      editingId == None && IsSubsequence(Ids(filteredBooks), Ids(books))
    }

    /** `disabled={editingId !== null && editingId !== book.id}`. */
    predicate ToggleDisabled(bookId: int)
      reads this
    {
      editingId.Some? && editingId.value != bookId
    }

    constructor ()
      ensures Valid()
      ensures books == [] && filteredBooks == [] && searchQuery == ""
      ensures isLoading && error == "" && editingId == None && successMessage == ""
    {
      books, filteredBooks, searchQuery := [], [], "";
      isLoading, error, editingId, successMessage := true, "", None, "";
    }

    /** The load effect: on success both lists become the fetched rows; on
        a backend error only the message changes. */
    method FetchBooks(q: Query<seq<BookRow>>)
      requires Valid()
      modifies this
      ensures Valid() && !isLoading
      ensures q.error.Some? ==>
        && books == old(books) && filteredBooks == old(filteredBooks)
        && error == "Failed to fetch books: " + q.error.value.message
      ensures q.error.None? ==>
        books == Listed(q.data) && filteredBooks == books && error == old(error)
      ensures searchQuery == old(searchQuery) && editingId == old(editingId)
      ensures successMessage == old(successMessage)
    {
      match q.error {
        case Some(e) =>
          error := "Failed to fetch books: " + e.message;
        case None =>
          books := Listed(q.data);
          filteredBooks := books;
          SubsequenceReflexive(Ids(books));
      }
      isLoading := false;
    }

    /** `handleSearch(query)`: the shown rows are recomputed from `books`,
        not from the rows shown before. */
    method HandleSearch(query: string)
      requires Valid()
      modifies this
      ensures Valid()
      ensures searchQuery == query && filteredBooks == SearchRows(books, query)
      ensures books == old(books) && isLoading == old(isLoading) && error == old(error)
      ensures editingId == old(editingId) && successMessage == old(successMessage)
    {
      searchQuery := query;
      filteredBooks := SearchRows(books, query);
      SearchSelectsFromBooks(books, query);
    }

    /** `handleAvailabilityChange(bookId, currentStatus)` once the update
        call has answered with `result`. */
    method HandleAvailabilityChange(bookId: int, currentStatus: bool, result: Option<PgError>)
      requires Valid()
      modifies this
      ensures Valid()
      ensures result.Some? ==>
        && books == old(books) && filteredBooks == old(filteredBooks)
        && error == "Failed to update book: " + result.value.message
        && successMessage == old(successMessage)
      ensures result.None? ==>
        && books == MarkBooks(old(books), bookId, !currentStatus)
        && filteredBooks == MarkFiltered(old(filteredBooks), bookId, !currentStatus)
        && successMessage == "Book availability updated successfully!"
        && error == old(error)
      ensures editingId == None
      ensures searchQuery == old(searchQuery) && isLoading == old(isLoading)
    {
      match result {
        case Some(e) =>
          error := "Failed to update book: " + e.message;
        case None =>
          MarkBooksKeepsColumns(books, bookId, !currentStatus);
          MarkFilteredFlipsTarget(filteredBooks, bookId, !currentStatus);
          books := MarkBooks(books, bookId, !currentStatus);
          filteredBooks := MarkFiltered(filteredBooks, bookId, !currentStatus);
          successMessage := "Book availability updated successfully!";
          editingId := None;
      }
    }
  }

  /** No toggle button is ever disabled. */
  lemma NoToggleDisabled(page: UpdatePage, bookId: int)
    requires page.Valid()
    ensures !page.ToggleDisabled(bookId)
  {
  }

  /** In every reachable state the page shows at most all of `books`
      ("Total Books: x of y" has x at most y), and the footer counts add up
      to the rows shown. */
  lemma ShownWithinBooks(page: UpdatePage)
    requires page.Valid()
    ensures |page.filteredBooks| <= |page.books|
    ensures FooterOnShelf(page.filteredBooks) + FooterNotAvailable(page.filteredBooks) == |page.filteredBooks|
  {
    SubsequenceLength(Ids(page.filteredBooks), Ids(page.books));
    FooterAsWritten(page.filteredBooks);
  }
}
