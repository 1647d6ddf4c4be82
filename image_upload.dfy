/**
 * The upload form of the admin page (src/components/admin/ImageUpload.tsx):
 * choosing or dropping a file, editing the fields, and submitting them as a
 * multipart request. The request's outcome is an input, and so is the
 * current year, which the form reads from the clock.
 */
module ImageUpload {
  import opened JsBuiltins
  import opened GalleryTypes
  import opened Backend

  /**
   * The form's contents. `year` holds `parseInt` of the year input (None for
   * NaN); `width` holds the input's text, since the change handler stores it unparsed.
   */
  datatype UploadForm = UploadForm(
    image: Option<UploadedFile>, alt: string, description: string,
    category: string, year: Option<int>, width: string)

  /** The form as it starts and as a successful upload leaves it. */
  function DefaultForm(currentYear: int): UploadForm {
    UploadForm(None, "", "", Finished, Some(currentYear), "1")
  }

  /** The inputs `handleInputChange` serves, by their `name`. */
  datatype Field = Alt | Description | Category | Year | Width

  /** `handleInputChange`: the named field takes the value, the year through `parseInt`. */
  function WithInput(form: UploadForm, field: Field, value: string): (r: UploadForm)
    ensures r.image == form.image
    ensures field.Year? ==> r == form.(year := ParseInt(value))
    ensures !field.Year? ==> r.year == form.year
  {
    match field
    case Alt => form.(alt := value)
    case Description => form.(description := value)
    case Category => form.(category := value)
    case Year => form.(year := ParseInt(value))
    case Width => form.(width := value)
  }

  /** `formData.year.toString()`: NaN prints as "NaN"; a safe integer prints in decimal. */
  function YearText(year: Option<int>): (t: string)
    ensures t != ""
    ensures year.None? ==> ParseInt(t).None?
    ensures year.Some? && SafeInteger(year.value) ==> ParseInt(t) == year
  {
    match year
    case Some(n) =>
      if SafeInteger(n) then ParseIntOfIntToString(n); IntToString(n) else IntToString(n)
    case None => NaNIsNotANumber(); "NaN"
  }

  /** The multipart fields `handleSubmit` sends, as the backend receives them. */
  function MultipartBody(form: UploadForm): UploadBody {
    UploadBody(Text(form.alt), Text(form.description), Text(form.category),
               Text(YearText(form.year)), Text(form.width))
  }

  lemma NaNIsNotANumber()
    ensures ParseInt("NaN") == None
  {
    assert SkipWhitespace("NaN") == "NaN";
    assert DigitPrefixLength("NaN") == 0;
  }

  /** The checks the form makes before sending also satisfy the backend's required-field check. */
  lemma FormChecksCoverBackend(form: UploadForm)
    requires form.alt != "" && form.description != "" && form.category != ""
    ensures !UploadFieldsMissing(MultipartBody(form))
  {
  }

  /**
   * End to end: a submitted form with a safe integer for the year is stored
   * with that year and its text fields; the width typed is not used.
   */
  lemma SubmittedFormStored(form: UploadForm, rows: seq<GalleryImage>, id: string, src: string)
    requires form.year.Some? && SafeInteger(form.year.value) && !HasImageId(rows, id)
    ensures var row := UploadRow(rows, id, src, MultipartBody(form));
      && row.Some?
      && row.value.year == form.year.value
      && row.value.alt == form.alt && row.value.description == form.description
      && row.value.category == form.category
      && row.value.width == 1
  {
    var body := MultipartBody(form);
    assert ParseBody(body.year) == Some(form.year.value);
  }

  /** A year input that does not parse is sent as "NaN", and the backend's insert fails. */
  lemma UnparsedYearRejected(form: UploadForm, rows: seq<GalleryImage>, id: string, src: string)
    requires form.year.None?
    ensures UploadRow(rows, id, src, MultipartBody(form)).None?
  {
    NaNIsNotANumber();
  }

  datatype DragKind = DragEnter | DragOver | DragLeave

  class UploadPanel {
    var form: UploadForm
    var uploading: bool
    var error: Option<string>
    var dragActive: bool

    constructor (currentYear: int)
      ensures form == DefaultForm(currentYear) && !uploading && error.None? && !dragActive
    {
      form := DefaultForm(currentYear);
      uploading := false;
      error := None;
      dragActive := false;
    }

    /** `handleFileChange`: the first chosen file, if any, becomes the image. */
    method FileChange(files: seq<UploadedFile>)
      modifies this`form
      ensures files != [] ==> form == old(form).(image := Some(files[0]))
      ensures files == [] ==> form == old(form)
    {
      if files != [] {
        form := form.(image := Some(files[0]));
      }
    }

    /** `handleDrag` */
    method Drag(kind: DragKind)
      modifies this`dragActive
      ensures dragActive <==> !kind.DragLeave?
    {
      dragActive := !kind.DragLeave?;
    }

    /** `handleDrop`: only the first file is looked at, and only an image is taken. */
    method Drop(files: seq<UploadedFile>)
      modifies this`form, this`error, this`dragActive
      ensures !dragActive
      ensures files == [] ==> form == old(form) && error == old(error)
      ensures files != [] && StartsWith(files[0].mimeType, "image/") ==>
        form == old(form).(image := Some(files[0])) && error == old(error)
      ensures files != [] && !StartsWith(files[0].mimeType, "image/") ==>
        form == old(form) && error == Some("Please drop an image file")
    {
      dragActive := false;
      if files != [] {
        if StartsWith(files[0].mimeType, "image/") {
          form := form.(image := Some(files[0]));
        } else {
          error := Some("Please drop an image file");
        }
      }
    }

    method InputChange(field: Field, value: string)
      modifies this`form
      ensures form == WithInput(old(form), field, value)
    {
      form := WithInput(form, field, value);
    }

    /**
     * The first half of `handleSubmit`, up to the request: returns the file
     * and fields sent, or None when the form is refused. The submit button is
     * disabled while an upload is under way.
     */
    method Submit() returns (request: Option<(UploadedFile, UploadBody)>)
      requires !uploading
      modifies this`uploading, this`error
      ensures form.image.None? ==>
        request.None? && error == Some("Please select an image file") && uploading == old(uploading)
      ensures form.image.Some? && (form.alt == "" || form.description == "") ==>
        request.None? && error == Some("Please fill in all required fields") && uploading == old(uploading)
      ensures form.image.Some? && form.alt != "" && form.description != "" ==>
        request == Some((form.image.value, MultipartBody(form))) && uploading && error.None?
    {
      if form.image.None? {
        error := Some("Please select an image file");
        return None;
      }
      if form.alt == "" || form.description == "" {
        error := Some("Please fill in all required fields");
        return None;
      }
      uploading := true;
      error := None;
      request := Some((form.image.value, MultipartBody(form)));
    }

    /**
     * The second half: `ok` is the request's outcome. Success resets the form
     * and tells the parent; failure keeps the form and reports an error.
     * Either way the upload is over.
     */
    method UploadFinished(ok: bool, currentYear: int) returns (notified: bool)
      modifies this`form, this`uploading, this`error
      ensures !uploading && notified == ok
      ensures ok ==> form == DefaultForm(currentYear) && error == old(error)
      ensures !ok ==> form == old(form) && error == Some("Failed to upload image. Please try again.")
    {
      if ok {
        form := DefaultForm(currentYear);
      } else {
        error := Some("Failed to upload image. Please try again.");
      }
      notified := ok;
      uploading := false;
    }
  }
}
