/** The current-read page: it loads the newest row of the `current` table,
    and its form replaces that row by deleting it and inserting a new one,
    after optional uploads of a cover image and a PDF. The table itself is a
    map from ids to rows that the submit handler is given and returns. */
module Current {
  import opened Basics
  import opened Backend
  import opened Text

  /** `currentBook` as the page holds it. */
  datatype CurrentBook = CurrentBook(
    id: int,
    title: string,
    author: string,
    genre: Option<string>,
    description: string,
    image_url: Option<string>,
    created_at: Option<string>,
    audiobook_url: Option<string>,
    pdf_url: Option<string>)

  /** The mapping of a fetched row (lines 44-54). */
  function FromFetched(row: CurrentRow): CurrentBook
  {
    CurrentBook(row.id, row.title, row.author, row.genre, row.description, row.image,
                Some(row.created_at), row.audiobook_url, row.pdf_url)
  }

  /** The mapping of the row the insert returns; it drops `created_at`. */
  function FromInserted(row: CurrentRow): CurrentBook
  {
    CurrentBook(row.id, row.title, row.author, row.genre, row.description, row.image,
                None, row.audiobook_url, row.pdf_url)
  }

  /** `formData`: every field is a string. */
  datatype CurrentForm = CurrentForm(
    title: string,
    author: string,
    genre: string,
    description: string,
    image: string,
    audiobook_url: string,
    pdf_url: string)

  const EmptyForm: CurrentForm := CurrentForm("", "", "", "", "", "", "")

  datatype Field = Title | Author | Genre | Description | Image | AudiobookUrl | PdfUrl

  /** `formData[name]`. */
  function Get(form: CurrentForm, f: Field): string
  {
    match f
    case Title => form.title
    case Author => form.author
    case Genre => form.genre
    case Description => form.description
    case Image => form.image
    case AudiobookUrl => form.audiobook_url
    case PdfUrl => form.pdf_url
  }

  /** `{ ...prev, [name]: value }`: the named field takes the value, every
      other field keeps its own. */
  function WithValue(form: CurrentForm, name: Field, value: string): (r: CurrentForm)
    ensures Get(r, name) == value
    ensures forall f :: f != name ==> Get(r, f) == Get(form, f)
  {
    match name
    case Title => form.(title := value)
    case Author => form.(author := value)
    case Genre => form.(genre := value)
    case Description => form.(description := value)
    case Image => form.(image := value)
    case AudiobookUrl => form.(audiobook_url := value)
    case PdfUrl => form.(pdf_url := value)
  }

  // ---------------------------------------------------------------------
  // The submit steps as values

  /** The backend's answer to one storage upload of a chosen file. */
  datatype Upload = Upload(error: Option<PgError>, publicUrl: string)

  /** The outcome of the two optional uploads, made image first. */
  datatype Uploads = Uploaded(imageUrl: string, pdfUrl: string) | UploadFailed(message: string)

  function UploadsOutcome(imageFile: Option<string>, pdfFile: Option<string>,
                          imageUpload: Upload, pdfUpload: Upload): (u: Uploads)
    ensures u.UploadFailed? <==>
      (imageFile.Some? && imageUpload.error.Some?) || (pdfFile.Some? && pdfUpload.error.Some?)
    ensures imageFile.Some? && imageUpload.error.Some? ==>
      u == UploadFailed("Failed to upload image: " + imageUpload.error.value.message)
    ensures !(imageFile.Some? && imageUpload.error.Some?) && pdfFile.Some? && pdfUpload.error.Some? ==>
      u == UploadFailed("Failed to upload PDF: " + pdfUpload.error.value.message)
    ensures u.Uploaded? ==>
      && u.imageUrl == (if imageFile.Some? then imageUpload.publicUrl else "")
      && u.pdfUrl == (if pdfFile.Some? then pdfUpload.publicUrl else "")
  {
    if imageFile.Some? && imageUpload.error.Some? then
      UploadFailed("Failed to upload image: " + imageUpload.error.value.message)
    else if pdfFile.Some? && pdfUpload.error.Some? then
      UploadFailed("Failed to upload PDF: " + pdfUpload.error.value.message)
    else
      Uploaded(if imageFile.Some? then imageUpload.publicUrl else "",
               if pdfFile.Some? then pdfUpload.publicUrl else "")
  }

  /** The row that the submit inserts into `current`. */
  datatype CurrentInsert = CurrentInsert(
    title: string,
    author: string,
    genre: Option<string>,
    description: string,
    image: Option<string>,
    audiobook_url: Option<string>,
    pdf_url: Option<string>,
    created_at: string)

  /** `currentBook?.image_url`, as a string that is empty when absent. */
  function PriorImage(currentBook: Option<CurrentBook>): string
  {
    if currentBook.Some? then OrEmpty(currentBook.value.image_url) else ""
  }

  function InsertRow(form: CurrentForm, imageUrl: string, pdfUrl: string,
                     currentBook: Option<CurrentBook>, now: string): CurrentInsert
  {
    CurrentInsert(
      form.title, form.author, OrNull(form.genre), form.description,
      if imageUrl != "" then Some(imageUrl) else OrNull(PriorImage(currentBook)),
      OrNull(form.audiobook_url),
      if pdfUrl != "" then Some(pdfUrl) else OrNull(form.pdf_url),
      now)
  }

  /** The fallback chains of the inserted row: the image is the new upload,
      else the previous book's image, else null; the PDF link is the new
      upload, else the form's link, else null; empty genre and audiobook
      link become null. Nothing empty is inserted as a link. */
  lemma InsertRowFallbacks(form: CurrentForm, imageUrl: string, pdfUrl: string,
                           currentBook: Option<CurrentBook>, now: string)
    ensures var r := InsertRow(form, imageUrl, pdfUrl, currentBook, now);
      && (imageUrl != "" ==> r.image == Some(imageUrl))
      && (imageUrl == "" && PriorImage(currentBook) != "" ==> r.image == currentBook.value.image_url)
      && (r.image.None? <==> imageUrl == "" && PriorImage(currentBook) == "")
      && (pdfUrl != "" ==> r.pdf_url == Some(pdfUrl))
      && (pdfUrl == "" ==> r.pdf_url == OrNull(form.pdf_url))
      && (r.pdf_url.None? <==> pdfUrl == "" && form.pdf_url == "")
      && (r.genre.None? <==> form.genre == "")
      && (r.audiobook_url.None? <==> form.audiobook_url == "")
      && r.image != Some("") && r.pdf_url != Some("") && r.audiobook_url != Some("") && r.genre != Some("")
  {
  }

  /** `currentBook?.id`, when it is truthy: the id of the row to delete. */
  function PriorId(currentBook: Option<CurrentBook>): Option<int>
  {
    if currentBook.Some? && currentBook.value.id != 0 then Some(currentBook.value.id) else None
  }

  /** The inserted row as the table stores it and `.select().single()`
      returns it, under the id the backend assigns. */
  function Stored(row: CurrentInsert, id: int): CurrentRow
  {
    CurrentRow(id, row.title, row.author, row.genre, row.description, row.image,
               row.audiobook_url, row.pdf_url, row.created_at, None)
  }

  /** The `current` table after the delete of the prior row (which takes
      effect unless the backend reports an error, and whose result the page
      ignores) and the insert. The backend gives the inserted row an id that
      no row of the table has. */
  function ReplaceTable(table: map<int, CurrentRow>, prior: Option<int>, deleteError: Option<PgError>,
                        insertError: Option<PgError>, newId: int, row: CurrentInsert): (t: map<int, CurrentRow>)
    requires newId !in table
    ensures newId in t <==> insertError.None?
    ensures insertError.None? ==> t[newId] == Stored(row, newId)
    ensures forall id :: id in t && id != newId ==> id in table && t[id] == table[id]
    ensures forall id :: id in table ==>
      (id in t <==> !(prior == Some(id) && deleteError.None?))
  {
    var afterDelete := if prior.Some? && deleteError.None? then table - {prior.value} else table;
    if insertError.Some? then afterDelete else afterDelete[newId := Stored(row, newId)]
  }

  /** Replacing the one row that the page shows leaves exactly one row, the
      new one, when the backend reports no error. */
  lemma ReplaceLeavesOneRow(prior: CurrentRow, newId: int, row: CurrentInsert)
    requires prior.id != 0 && newId != prior.id
    ensures ReplaceTable(map[prior.id := prior], PriorId(Some(FromFetched(prior))), None, None, newId, row)
         == map[newId := Stored(row, newId)]
    ensures |ReplaceTable(map[prior.id := prior], PriorId(Some(FromFetched(prior))), None, None, newId, row)| == 1
  {
    var t := ReplaceTable(map[prior.id := prior], PriorId(Some(FromFetched(prior))), None, None, newId, row);
    assert t.Keys == {newId};
  }

  /** The replace is not atomic: when the delete succeeds and the insert
      fails, the table that held the one row is left empty. */
  lemma FailedInsertLosesRow(prior: CurrentRow, insertError: PgError, newId: int, row: CurrentInsert)
    requires prior.id != 0 && newId != prior.id
    ensures ReplaceTable(map[prior.id := prior], PriorId(Some(FromFetched(prior))), None, Some(insertError), newId, row)
         == map[]
  {
  }

  /** A failed delete does not stop the insert: the new row is stored
      whatever the delete's answer. */
  lemma InsertIgnoresDeleteResult(table: map<int, CurrentRow>, prior: Option<int>, deleteError: Option<PgError>,
                                  newId: int, row: CurrentInsert)
    requires newId !in table
    ensures newId in ReplaceTable(table, prior, deleteError, None, newId, row)
    ensures ReplaceTable(table, prior, deleteError, None, newId, row)[newId] == Stored(row, newId)
  {
  }

  const SavedMessage: string := "Current book updated successfully! \U{1F4DA}"

  class CurrentPage {
    var currentBook: Option<CurrentBook>
    var isLoading: bool
    var error: string
    var showForm: bool
    var isSubmitting: bool
    var successMessage: string
    var formData: CurrentForm
    /** The names of the chosen cover and PDF files, if any. */
    var imageFile: Option<string>
    var pdfFile: Option<string>

    constructor ()
      ensures currentBook == None && isLoading && error == "" && !showForm && !isSubmitting
      ensures successMessage == "" && formData == EmptyForm && imageFile == None && pdfFile == None
    {
      currentBook, isLoading, error, showForm, isSubmitting := None, true, "", false, false;
      successMessage, formData, imageFile, pdfFile := "", EmptyForm, None, None;
    }

    /** The load effect, given the answer of the `.single()` select: no row
        (the `PGRST116` error among them) leaves `currentBook` null and sets
        no error; any other error sets `error`. */
    method FetchCurrentBook(q: Query<CurrentRow>)
      modifies this
      ensures !isLoading
      ensures FetchFails(q) ==>
        currentBook == old(currentBook) && error == "Failed to fetch current book: " + q.error.value.message
      ensures !FetchFails(q) ==>
        && error == old(error)
        && currentBook == if q.data.Some? then Some(FromFetched(q.data.value)) else old(currentBook)
      ensures showForm == old(showForm) && isSubmitting == old(isSubmitting) && formData == old(formData)
      ensures successMessage == old(successMessage) && imageFile == old(imageFile) && pdfFile == old(pdfFile)
    {
      if FetchFails(q) {
        error := "Failed to fetch current book: " + q.error.value.message;
      } else if q.data.Some? {
        currentBook := Some(FromFetched(q.data.value));
      }
      isLoading := false;
    }

    /** `handleInputChange`. */
    method HandleInputChange(name: Field, value: string)
      modifies this
      ensures formData == WithValue(old(formData), name, value)
      ensures currentBook == old(currentBook) && isLoading == old(isLoading) && error == old(error)
      ensures showForm == old(showForm) && isSubmitting == old(isSubmitting)
      ensures successMessage == old(successMessage) && imageFile == old(imageFile) && pdfFile == old(pdfFile)
    {
      formData := WithValue(formData, name, value);
    }

    /** `handleImageChange` and `handlePdfChange`: a chosen file replaces the
        previous one; an empty choice changes nothing. */
    method HandleFileChange(image: bool, file: Option<string>)
      modifies this
      ensures imageFile == if image && file.Some? then file else old(imageFile)
      ensures pdfFile == if !image && file.Some? then file else old(pdfFile)
      ensures currentBook == old(currentBook) && isLoading == old(isLoading) && error == old(error)
      ensures showForm == old(showForm) && isSubmitting == old(isSubmitting)
      ensures successMessage == old(successMessage) && formData == old(formData)
    {
      if file.Some? {
        if image {
          imageFile := file;
        } else {
          pdfFile := file;
        }
      }
    }

    /** The buttons that open the form (`show` true) and the Cancel button
        (`show` false). */
    method SetShowForm(show: bool)
      modifies this`showForm
      ensures showForm == show
    {
      showForm := show;
    }

    /** The first steps of `handleFormSubmit`: the submit button is disabled
        and the messages are cleared while the calls are in flight. */
    method BeginSubmit()
      modifies this`isSubmitting, this`error, this`successMessage
      ensures isSubmitting && error == "" && successMessage == ""
    {
      isSubmitting := true;
      error := "";
      successMessage := "";
    }

    /** The upload steps of `handleFormSubmit`: the chosen cover, then the
        chosen PDF, each under its own time-stamped name; the first failure
        ends the submit. Returns the names uploaded under and the outcome. */
    method UploadFiles(imageMillis: nat, pdfMillis: nat, imageUpload: Upload, pdfUpload: Upload)
      returns (imageName: Option<string>, pdfName: Option<string>, u: Uploads)
      ensures u == UploadsOutcome(imageFile, pdfFile, imageUpload, pdfUpload)
      ensures imageName == if imageFile.Some? then Some(UploadName("current-", imageMillis, imageFile.value)) else None
      ensures pdfName == if pdfFile.Some? && !(imageFile.Some? && imageUpload.error.Some?)
                         then Some(UploadName("current-pdf-", pdfMillis, pdfFile.value)) else None
    {
      var imageUrl := "";
      var pdfUrl := "";
      imageName, pdfName := None, None;
      if imageFile.Some? {
        imageName := Some(UploadName("current-", imageMillis, imageFile.value));
        if imageUpload.error.Some? {
          return imageName, pdfName, UploadFailed("Failed to upload image: " + imageUpload.error.value.message);
        }
        imageUrl := imageUpload.publicUrl;
      }
      if pdfFile.Some? {
        pdfName := Some(UploadName("current-pdf-", pdfMillis, pdfFile.value));
        if pdfUpload.error.Some? {
          return imageName, pdfName, UploadFailed("Failed to upload PDF: " + pdfUpload.error.value.message);
        }
        pdfUrl := pdfUpload.publicUrl;
      }
      u := Uploaded(imageUrl, pdfUrl);
    }

    /** `handleFormSubmit`, with the backend's answers given: the two
        uploads, the delete, the insert and the id the insert assigns, and
        the `current` table before the submit. Returns the table after it,
        the names the files are uploaded under and the row sent to the
        insert, when those calls are made. */
    method HandleFormSubmit(imageMillis: nat, pdfMillis: nat, now: string,
                            imageUpload: Upload, pdfUpload: Upload,
                            deleteError: Option<PgError>, insertError: Option<PgError>, newId: int,
                            table: map<int, CurrentRow>)
      returns (table': map<int, CurrentRow>, imageName: Option<string>, pdfName: Option<string>,
               inserted: Option<CurrentInsert>)
      requires newId !in table
      modifies this
      ensures !isSubmitting && isLoading == old(isLoading)
      ensures imageName == if old(imageFile).Some? then Some(UploadName("current-", imageMillis, old(imageFile).value)) else None
      ensures var u := UploadsOutcome(old(imageFile), old(pdfFile), imageUpload, pdfUpload);
        pdfName == if old(pdfFile).Some? && !(old(imageFile).Some? && imageUpload.error.Some?)
                   then Some(UploadName("current-pdf-", pdfMillis, old(pdfFile).value)) else None
      ensures var u := UploadsOutcome(old(imageFile), old(pdfFile), imageUpload, pdfUpload);
        u.UploadFailed? ==>
          && table' == table && inserted == None && error == u.message && successMessage == ""
          && currentBook == old(currentBook) && formData == old(formData) && showForm == old(showForm)
          && imageFile == old(imageFile) && pdfFile == old(pdfFile)
      ensures var u := UploadsOutcome(old(imageFile), old(pdfFile), imageUpload, pdfUpload);
        u.Uploaded? ==>
          && inserted == Some(InsertRow(old(formData), u.imageUrl, u.pdfUrl, old(currentBook), now))
          && table' == ReplaceTable(table, PriorId(old(currentBook)), deleteError, insertError, newId, inserted.value)
      ensures var u := UploadsOutcome(old(imageFile), old(pdfFile), imageUpload, pdfUpload);
        u.Uploaded? && insertError.None? ==>
          && currentBook == Some(FromInserted(Stored(inserted.value, newId)))
          && formData == EmptyForm && imageFile == None && pdfFile == None && !showForm
          && successMessage == SavedMessage && error == ""
      ensures var u := UploadsOutcome(old(imageFile), old(pdfFile), imageUpload, pdfUpload);
        u.Uploaded? && insertError.Some? ==>
          && currentBook == old(currentBook) && formData == old(formData) && showForm == old(showForm)
          && imageFile == old(imageFile) && pdfFile == old(pdfFile)
          && error == "Failed to save book: " + insertError.value.message && successMessage == ""
    {
      BeginSubmit();
      var u;
      imageName, pdfName, u := UploadFiles(imageMillis, pdfMillis, imageUpload, pdfUpload);
      table', inserted := table, None;
      match u {
        case UploadFailed(message) =>
          error := message;
        case Uploaded(imageUrl, pdfUrl) =>
          var row := InsertRow(formData, imageUrl, pdfUrl, currentBook, now);
          inserted := Some(row);
          table' := ReplaceTable(table, PriorId(currentBook), deleteError, insertError, newId, row);
          if insertError.Some? {
            error := "Failed to save book: " + insertError.value.message;
          } else {
            currentBook := Some(FromInserted(Stored(row, newId)));
            successMessage := SavedMessage;
            formData := EmptyForm;
            imageFile, pdfFile := None, None;
            showForm := false;
          }
      }
      isSubmitting := false;
    }
  }
}
