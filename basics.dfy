/** Small value types shared by every page: an optional value (JavaScript's
    `null`/`undefined`) and the string truthiness used by the pages' `||`. */
module Basics {

  datatype Option<+T> = None | Some(value: T)

  /** `s || null`: a string is truthy exactly when it is not empty. */
  function OrNull(s: string): (r: Option<string>)
    ensures r.None? <==> s == ""
    ensures r.Some? ==> r.value == s
  {
    if s == "" then None else Some(s)
  }

  /** `x || ''` for a value that may be null or undefined. */
  function OrEmpty(x: Option<string>): (r: string)
    ensures x.None? ==> r == ""
    ensures x.Some? ==> r == x.value
  {
    match x
    case None => ""
    case Some(s) => s
  }
}

/** The shapes exchanged with the hosted backend. Every query of the pages
    resolves to a `{ data, error }` pair; mutations that the pages only test
    for failure are modelled by their optional error alone. */
module Backend {
  import opened Basics

  /** The error object of the backend client: a machine code and a message. */
  datatype PgError = PgError(code: string, message: string)

  /** The code the backend returns from `.single()` when no row matched. */
  const NoRowsCode: string := "PGRST116"

  /** The `{ data, error }` result of a select. */
  datatype Query<T> = Query(data: Option<T>, error: Option<PgError>)

  /** `error && error.code !== 'PGRST116'`: the fetch of the one current row
      failed for a reason other than there being no row. */
  predicate FetchFails<T>(q: Query<T>)
  {
    q.error.Some? && q.error.value.code != NoRowsCode
  }

  /** A row of the `books` table, with the columns the pages read or write. */
  datatype BookRow = BookRow(
    id: int,
    title: string,
    author: string,
    genre: Option<string>,
    pages: Option<int>,
    description: string,
    donor: Option<string>,
    image: Option<string>,
    available: bool,
    created_at: string)

  /** A row of the `current` table. `pages` is read by the home page, but the
      current page never writes it. */
  datatype CurrentRow = CurrentRow(
    id: int,
    title: string,
    author: string,
    genre: Option<string>,
    description: string,
    image: Option<string>,
    audiobook_url: Option<string>,
    pdf_url: Option<string>,
    created_at: string,
    pages: Option<int>)
}
