/** The library page: the fetched `books` rows mapped to the page's own
    records, the shelf and search filter that decides what is displayed, and
    the shelf counts shown on the filter buttons and in the statistics. */
module Library {
  import opened Basics
  import opened Backend
  import opened Seqs
  import opened Text

  /** A book as the library page holds it. */
  datatype ShelfBook = ShelfBook(
    id: int,
    title: string,
    author: string,
    genre: string,
    onShelf: bool,
    imageUrl: string,
    description: string,
    pages: Option<int>,
    donor: Option<string>)

  /** The page state that the load effect sets once. */
  datatype LibraryState = LibraryState(books: seq<ShelfBook>, isLoading: bool, error: string)

  function ToShelfBook(row: BookRow): ShelfBook
  {
    ShelfBook(row.id, row.title, row.author, OrEmpty(row.genre), row.available,
              OrEmpty(row.image), row.description, row.pages, row.donor)
  }

  /** `data?.map(...) || []`: every row mapped, in order; no data gives no
      books. `onShelf` is the row's `available`; a missing genre or image
      becomes the empty string; the other columns pass through. */
  function MapRows(data: Option<seq<BookRow>>): (books: seq<ShelfBook>)
    ensures data.None? ==> books == []
    ensures data.Some? ==> |books| == |data.value|
    ensures data.Some? ==> forall i :: 0 <= i < |books| ==>
      var row := data.value[i];
      && books[i].id == row.id && books[i].title == row.title && books[i].author == row.author
      && books[i].onShelf == row.available
      && books[i].description == row.description && books[i].pages == row.pages
      && books[i].donor == row.donor
      && (books[i].genre == "" <==> row.genre.None? || row.genre == Some(""))
      && (books[i].genre != "" ==> row.genre == Some(books[i].genre))
      && (books[i].imageUrl == "" <==> row.image.None? || row.image == Some(""))
      && (books[i].imageUrl != "" ==> row.image == Some(books[i].imageUrl))
  {
    match data
    case None => []
    case Some(rows) => Map(rows, ToShelfBook)
  }

  /** The outcome of the load effect. A backend error leaves the list empty
      and sets the message; otherwise the mapped rows are the books. Either
      way loading is over. */
  function Loaded(q: Query<seq<BookRow>>): (s: LibraryState)
    ensures !s.isLoading
    ensures q.error.Some? ==> s.books == [] && s.error == "Failed to fetch books: " + q.error.value.message
    ensures q.error.None? ==> s.error == "" && s.books == MapRows(q.data)
  {
    match q.error
    case Some(e) => LibraryState([], false, "Failed to fetch books: " + e.message)
    case None => LibraryState(MapRows(q.data), false, "")
  }

  // ---------------------------------------------------------------------
  // The displayed list

  /** The three-way shelf test: `'all'` accepts everything, `'on-shelf'`
      the books on the shelf, and any other value the books off it. */
  predicate MatchesShelf(filterShelf: string, b: ShelfBook)
  {
    if filterShelf == "all" then true
    else if filterShelf == "on-shelf" then b.onShelf
    else !b.onShelf
  }

  /** Case-insensitive search on title or author, with the page's shortcut
      for the empty query. */
  predicate MatchesSearch(searchQuery: string, b: ShelfBook)
  {
    if searchQuery == "" then true
    else Includes(Lower(b.title), Lower(searchQuery)) || Includes(Lower(b.author), Lower(searchQuery))
  }

  predicate Shown(filterShelf: string, searchQuery: string, b: ShelfBook)
  {
    MatchesShelf(filterShelf, b) && MatchesSearch(searchQuery, b)
  }

  /** The list the page displays. */
  function FilteredBooks(books: seq<ShelfBook>, filterShelf: string, searchQuery: string): seq<ShelfBook>
  {
    Filter(books, b => Shown(filterShelf, searchQuery, b))
  }

  /** The count on the "On Shelf" button and statistic. */
  function OnShelfCount(books: seq<ShelfBook>): nat
  {
    |Filter(books, (b: ShelfBook) => b.onShelf)|
  }

  /** The count on the "Not on Shelf" button and statistic. */
  function NotOnShelfCount(books: seq<ShelfBook>): nat
  {
    |Filter(books, (b: ShelfBook) => !b.onShelf)|
  }

  /** The displayed list keeps the order of `books` and is never longer: the
      "Results Found" statistic is at most the "All Books" count. */
  lemma DisplayedIsSubsequence(books: seq<ShelfBook>, filterShelf: string, searchQuery: string)
    ensures IsSubsequence(FilteredBooks(books, filterShelf, searchQuery), books)
    ensures |FilteredBooks(books, filterShelf, searchQuery)| <= |books|
  {
    FilterIsSubsequence(books, b => Shown(filterShelf, searchQuery, b));
  }

  /** With the `'all'` filter and no query every book is displayed. */
  lemma AllWithEmptyQueryShowsEverything(books: seq<ShelfBook>)
    ensures FilteredBooks(books, "all", "") == books
  {
    FilterAll(books, b => Shown("all", "", b));
  }

  /** `'on-shelf'` displays only books on the shelf; every other value but
      `'all'`, `'not-on-shelf'` among them, displays only books off it. */
  lemma ShelfFilterSelects(books: seq<ShelfBook>, filterShelf: string, searchQuery: string)
    ensures filterShelf == "on-shelf" ==>
      forall b :: b in FilteredBooks(books, filterShelf, searchQuery) ==> b.onShelf
    ensures filterShelf != "all" && filterShelf != "on-shelf" ==>
      forall b :: b in FilteredBooks(books, filterShelf, searchQuery) ==> !b.onShelf
  {
  }

  /** A book is displayed exactly when it is one of the books, passes the
      shelf test, and either the query is empty or the lower-cased title or
      author contains the lower-cased query. */
  lemma DisplayedIff(books: seq<ShelfBook>, filterShelf: string, searchQuery: string, b: ShelfBook)
    ensures b in FilteredBooks(books, filterShelf, searchQuery) <==>
      && b in books
      && MatchesShelf(filterShelf, b)
      && (searchQuery == "" || Includes(Lower(b.title), Lower(searchQuery))
                            || Includes(Lower(b.author), Lower(searchQuery)))
  {
    var r := FilteredBooks(books, filterShelf, searchQuery);
    if b in r {
      var i :| 0 <= i < |r| && r[i] == b;
    }
    if b in books && Shown(filterShelf, searchQuery, b) {
      var i :| 0 <= i < |books| && books[i] == b;
    }
  }

  /** The search test without the empty-query shortcut. */
  predicate MatchesSubstring(searchQuery: string, b: ShelfBook)
  {
    Includes(Lower(b.title), Lower(searchQuery)) || Includes(Lower(b.author), Lower(searchQuery))
  }

  /** The empty-query shortcut changes nothing: the empty string is
      contained in every title. */
  lemma ShortcutIsRedundant(books: seq<ShelfBook>, filterShelf: string, searchQuery: string)
    ensures FilteredBooks(books, filterShelf, searchQuery)
         == Filter(books, b => MatchesShelf(filterShelf, b) && MatchesSubstring(searchQuery, b))
  {
    forall i | 0 <= i < |books|
      ensures Shown(filterShelf, searchQuery, books[i])
          == (MatchesShelf(filterShelf, books[i]) && MatchesSubstring(searchQuery, books[i]))
    {
      if searchQuery == "" {
        IncludesEmpty(Lower(books[i].title));
      }
    }
    FilterCongruence(books, b => Shown(filterShelf, searchQuery, b),
                     b => MatchesShelf(filterShelf, b) && MatchesSubstring(searchQuery, b));
  }

  /** The "On Shelf" and "Not on Shelf" counts add up to the "All Books"
      count. */
  lemma ShelfCountsPartition(books: seq<ShelfBook>)
    ensures OnShelfCount(books) + NotOnShelfCount(books) == |books|
  {
    FilterPartition(books, (b: ShelfBook) => b.onShelf, (b: ShelfBook) => !b.onShelf);
  }

  /** Under the `'on-shelf'` filter the results never outnumber the
      "On Shelf" count, and under `'not-on-shelf'` never the "Not on Shelf"
      count. */
  lemma ResultsWithinShelfCount(books: seq<ShelfBook>, searchQuery: string)
    ensures |FilteredBooks(books, "on-shelf", searchQuery)| <= OnShelfCount(books)
    ensures |FilteredBooks(books, "not-on-shelf", searchQuery)| <= NotOnShelfCount(books)
  {
    FilterStronger(books, b => Shown("on-shelf", searchQuery, b), (b: ShelfBook) => b.onShelf);
    FilterStronger(books, b => Shown("not-on-shelf", searchQuery, b), (b: ShelfBook) => !b.onShelf);
  }
}
