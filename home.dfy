/** The home page's "Currently Reading" panel: the newest `current` row when
    there is one, and a fixed default book otherwise, whatever went wrong. */
module Home {
  import opened Basics
  import opened Backend

  /** `currentBook` as the home page holds it. */
  datatype HomeBook = HomeBook(
    title: string,
    author: string,
    genre: Option<string>,
    description: string,
    image: Option<string>,
    pages: Option<int>,
    audiobook_url: Option<string>,
    pdf_url: Option<string>)

  /** The book shown when there is no row to show. */
  const DefaultBook: HomeBook := HomeBook(
    "Things Fall Apart",
    "Chinua Achebe",
    Some("Literary Fiction"),
    "A powerful novel about pre-colonial African life and the impact of colonization. "
      + "Join us as we explore themes of tradition, change, and cultural identity.",
    Some("/book-cover.jpg"),
    Some(209),
    None,
    None)

  function FromRow(row: CurrentRow): HomeBook
  {
    HomeBook(row.title, row.author, row.genre, row.description, row.image, row.pages,
             row.audiobook_url, row.pdf_url)
  }

  /** The book `fetchCurrentBook` sets, from the answer of the `.single()`
      select: a failure other than "no row" is caught and gives the default,
      as does an answer without a row. */
  function Displayed(q: Query<CurrentRow>): HomeBook
  {
    if FetchFails(q) then DefaultBook
    else if q.data.Some? then FromRow(q.data.value)
    else DefaultBook
  }

  /** A returned row is shown with its own title, author, genre,
      description, image and links. */
  lemma RowIsShown(q: Query<CurrentRow>)
    requires q.data.Some? && !FetchFails(q)
    ensures var b, row := Displayed(q), q.data.value;
      && b.title == row.title && b.author == row.author && b.genre == row.genre
      && b.description == row.description && b.image == row.image
      && b.audiobook_url == row.audiobook_url && b.pdf_url == row.pdf_url
  {
  }

  /** No row, with or without the `PGRST116` error, gives the default book:
      "Things Fall Apart" by Chinua Achebe, 209 pages. */
  lemma NoRowGivesDefault(q: Query<CurrentRow>)
    requires q.data.None?
    ensures Displayed(q) == DefaultBook
    ensures Displayed(q).title == "Things Fall Apart" && Displayed(q).author == "Chinua Achebe"
    ensures Displayed(q).pages == Some(209)
  {
  }

  /** Any other error gives the default book too, even if a row came with
      it. */
  lemma FailureGivesDefault(q: Query<CurrentRow>)
    requires FetchFails(q)
    ensures Displayed(q) == DefaultBook
  {
  }

  /** The panel differs from the default only by showing a row that was
      returned without a failure. */
  lemma DefaultUnlessRow(q: Query<CurrentRow>)
    ensures Displayed(q) == DefaultBook || (q.data.Some? && !FetchFails(q) && Displayed(q) == FromRow(q.data.value))
    ensures Displayed(q) != DefaultBook ==> q.data.Some? && !FetchFails(q)
  {
  }

  class HomePage {
    var currentBook: Option<HomeBook>
    var isLoading: bool
    var error: string

    constructor ()
      ensures currentBook == None && isLoading && error == ""
    {
      currentBook, isLoading, error := None, true, "";
    }

    /** The branch that reads "No current book selected". */
    predicate ShowsNoBook()
      reads this
    {
      !isLoading && currentBook.None?
    }

    /** The load effect: the `try` and the `catch` both set a book, and
        `finally` ends loading, so the "no book" branch is never shown. */
    method FetchCurrentBook(q: Query<CurrentRow>)
      modifies this
      ensures currentBook == Some(Displayed(q)) && !isLoading && error == old(error)
      ensures !ShowsNoBook()
    {
      currentBook := Some(Displayed(q));
      isLoading := false;
    }
  }
}
