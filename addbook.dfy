/** The add-book form: its field-by-field updates, the row it inserts into
    `books`, the name under which a chosen cover is uploaded, and the submit
    sequence with its reset on success. */
module AddBook {
  import opened Basics
  import opened Backend
  import opened Text

  /** `formData`. Every input holds a string except the `onShelf` checkbox. */
  datatype BookForm = BookForm(
    title: string,
    author: string,
    genre: string,
    pages: string,
    description: string,
    donor: string,
    imageUrl: string,
    onShelf: bool)

  /** The form as the page first shows it and as a successful submit leaves
      it. */
  const InitialForm: BookForm := BookForm("", "", "", "", "", "", "", true)

  /** The `name` attributes of the form's controls. */
  datatype Field = Title | Author | Genre | Pages | Description | Donor | ImageUrl | OnShelf

  /** What `handleInputChange` reads from `e.target`. */
  datatype InputEvent = InputEvent(name: Field, value: string, isCheckbox: bool, checked: bool)

  /** The markup: the one checkbox of the form is `onShelf`; the text
      inputs, the select and the textarea are not checkboxes. */
  predicate FromForm(ev: InputEvent)
  {
    ev.isCheckbox <==> ev.name == OnShelf
  }

  datatype FieldValue = Text(text: string) | Flag(flag: bool)

  /** `formData[name]`. */
  function Get(form: BookForm, f: Field): FieldValue
  {
    match f
    case Title => Text(form.title)
    case Author => Text(form.author)
    case Genre => Text(form.genre)
    case Pages => Text(form.pages)
    case Description => Text(form.description)
    case Donor => Text(form.donor)
    case ImageUrl => Text(form.imageUrl)
    case OnShelf => Flag(form.onShelf)
  }

  /** `{ ...prev, [name]: type === 'checkbox' ? checked : value }`: the
      named field takes the checkbox state or the value, every other field
      keeps its own. */
  function WithInput(form: BookForm, ev: InputEvent): (r: BookForm)
    requires FromForm(ev)
    ensures Get(r, ev.name) == if ev.isCheckbox then Flag(ev.checked) else Text(ev.value)
    ensures forall f :: f != ev.name ==> Get(r, f) == Get(form, f)
  {
    match ev.name
    case Title => form.(title := ev.value)
    case Author => form.(author := ev.value)
    case Genre => form.(genre := ev.value)
    case Pages => form.(pages := ev.value)
    case Description => form.(description := ev.value)
    case Donor => form.(donor := ev.value)
    case ImageUrl => form.(imageUrl := ev.value)
    case OnShelf => form.(onShelf := ev.checked)
  }

  /** A run of input events, applied in order. */
  function WithInputs(form: BookForm, evs: seq<InputEvent>): BookForm
    requires forall i :: 0 <= i < |evs| ==> FromForm(evs[i])
    decreases |evs|
  {
    if evs == [] then form else WithInputs(WithInput(form, evs[0]), evs[1..])
  }

  /** Events that never touch the checkbox leave `onShelf` as it was. */
  lemma {:induction false} OnShelfKeptWithoutCheckbox(form: BookForm, evs: seq<InputEvent>)
    requires forall i :: 0 <= i < |evs| ==> FromForm(evs[i]) && evs[i].name != OnShelf
    ensures WithInputs(form, evs).onShelf == form.onShelf
    decreases |evs|
  {
    if evs != [] {
      assert Get(WithInput(form, evs[0]), OnShelf) == Get(form, OnShelf);
      OnShelfKeptWithoutCheckbox(WithInput(form, evs[0]), evs[1..]);
    }
  }

  /** The row that `handleSubmit` inserts into `books`. */
  datatype BookInsert = BookInsert(
    title: string,
    author: string,
    genre: Option<string>,
    pages: Option<int>,
    description: string,
    donor: Option<string>,
    image: string,
    available: bool,
    created_at: string)

  function InsertRow(form: BookForm, imageUrl: string, now: string): BookInsert
  {
    BookInsert(
      form.title, form.author, OrNull(form.genre),
      if form.pages == "" then None else ParseInt(form.pages),
      form.description, OrNull(form.donor), imageUrl, form.onShelf, now)
  }

  /** The inserted row: empty genre or donor become null and other values
      pass through; empty pages become null and other pages are read by
      `parseInt`, which gives null (NaN) when no digit follows the sign and
      the digits' value for a digit string; availability is the checkbox;
      the image is the uploaded URL. */
  lemma InsertRowFields(form: BookForm, imageUrl: string, now: string)
    ensures var r := InsertRow(form, imageUrl, now);
      && r.title == form.title && r.author == form.author && r.description == form.description
      && (r.genre.None? <==> form.genre == "") && (form.genre != "" ==> r.genre == Some(form.genre))
      && (r.donor.None? <==> form.donor == "") && (form.donor != "" ==> r.donor == Some(form.donor))
      && (form.pages == "" ==> r.pages.None?)
      && (form.pages != "" ==> r.pages == ParseInt(form.pages))
      && (form.pages != "" && AllDigits(form.pages) ==> r.pages == Some(DigitsValue(form.pages)))
      && r.available == form.onShelf
      && r.image == imageUrl && r.created_at == now
  {
    if form.pages != "" && AllDigits(form.pages) {
      ParseDigits(form.pages);
    }
  }

  /** A form filled in without touching the checkbox, submitted with no
      image, inserts a row that is available and has an empty image. */
  lemma DefaultRowIsAvailable(evs: seq<InputEvent>, now: string)
    requires forall i :: 0 <= i < |evs| ==> FromForm(evs[i]) && evs[i].name != OnShelf
    ensures InsertRow(WithInputs(InitialForm, evs), "", now).available
    ensures InsertRow(WithInputs(InitialForm, evs), "", now).image == ""
  {
    OnShelfKeptWithoutCheckbox(InitialForm, evs);
  }

  const AddedMessage: string := "Book added successfully! \U{1F4DA}"

  class AddBookPage {
    var formData: BookForm
    /** The name of the chosen cover file, if any. */
    var imageFile: Option<string>
    var isLoading: bool
    var successMessage: string
    var errorMessage: string

    constructor ()
      ensures formData == InitialForm && imageFile == None
      ensures !isLoading && successMessage == "" && errorMessage == ""
    {
      formData, imageFile := InitialForm, None;
      isLoading, successMessage, errorMessage := false, "", "";
    }

    /** `handleInputChange`. */
    method HandleInputChange(ev: InputEvent)
      requires FromForm(ev)
      modifies this
      ensures formData == WithInput(old(formData), ev)
      ensures imageFile == old(imageFile) && isLoading == old(isLoading)
      ensures successMessage == old(successMessage) && errorMessage == old(errorMessage)
    {
      formData := WithInput(formData, ev);
    }

    /** `handleImageChange`: a chosen file replaces the previous one; an
        empty choice changes nothing. */
    method HandleImageChange(file: Option<string>)
      modifies this
      ensures imageFile == if file.Some? then file else old(imageFile)
      ensures formData == old(formData) && isLoading == old(isLoading)
      ensures successMessage == old(successMessage) && errorMessage == old(errorMessage)
    {
      if file.Some? {
        imageFile := file;
      }
    }

    /** `handleSubmit`, with the backend's answers given: the upload's
        error, the public URL of the uploaded cover, and the insert's error.
        Returns the name the cover is uploaded under and the row sent to the
        insert, when those calls are made. */
    method HandleSubmit(millis: nat, now: string, uploadError: Option<PgError>, publicUrl: string,
                        insertError: Option<PgError>)
      returns (uploaded: Option<string>, inserted: Option<BookInsert>)
      modifies this
      ensures !isLoading
      ensures uploaded == if old(imageFile).Some? then Some(UploadName("", millis, old(imageFile).value)) else None
      ensures var uploadFailed := old(imageFile).Some? && uploadError.Some?;
        inserted == if uploadFailed then None
                    else Some(InsertRow(old(formData), if old(imageFile).Some? then publicUrl else "", now))
      ensures var uploadFailed := old(imageFile).Some? && uploadError.Some?;
        !uploadFailed && insertError.None? ==>
          && formData == InitialForm && imageFile == None
          && successMessage == AddedMessage && errorMessage == ""
      ensures var uploadFailed := old(imageFile).Some? && uploadError.Some?;
        uploadFailed || insertError.Some? ==>
          && formData == old(formData) && imageFile == old(imageFile) && successMessage == ""
          && errorMessage == if uploadFailed then "Failed to upload image: " + uploadError.value.message
                             else "Failed to add book: " + insertError.value.message
    {
      isLoading := true;
      errorMessage := "";
      successMessage := "";
      var imageUrl := "";
      var failure: Option<string> := None;
      uploaded, inserted := None, None;
      if imageFile.Some? {
        var fileName := UploadName("", millis, imageFile.value);
        uploaded := Some(fileName);
        if uploadError.Some? {
          failure := Some("Failed to upload image: " + uploadError.value.message);
        } else {
          imageUrl := publicUrl;
        }
      }
      if failure.None? {
        inserted := Some(InsertRow(formData, imageUrl, now));
        if insertError.Some? {
          failure := Some("Failed to add book: " + insertError.value.message);
        }
      }
      match failure {
        case Some(message) =>
          errorMessage := message;
        case None =>
          successMessage := AddedMessage;
          formData := InitialForm;
          imageFile := None;
      }
      isLoading := false;
    }
  }
}
