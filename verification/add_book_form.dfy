/** The validation rules of the add-book form: each field's rule gives the message the
    form shows, or `None` when the field passes. Rules run in the order the form library
    applies them: `required` first, then the length or range bounds, then the custom
    validators in their declared order, stopping at the first failure. */
module AddBookForm {
  import opened Values

  /** A picked file: its name, MIME type and size in bytes. */
  datatype FileInfo = FileInfo(name: string, mimeType: string, size: nat)

  /** The form's inputs. An empty year input or author selection is `None`. */
  datatype FormInput = FormInput(
    title: string,
    description: string,
    publishedYear: Option<int>,
    authorId: Option<int>,
    coverImage: seq<FileInfo>,
    pdf: seq<FileInfo>)

  const MinYear: int := 1000
  const MaxImageSize: nat := 5 * 1024 * 1024
  const MaxPdfSize: nat := 10 * 1024 * 1024

  /** `required`, then `minLength: 2`, which counts UTF-16 code units. */
  function TitleRule(title: string): (msg: Option<string>)
    ensures msg.None? <==> Utf16Length(title) >= 2
    ensures title == [] ==> msg == Some("Title is required")
  {
    if title == [] then Some("Title is required")
    else if Utf16Length(title) < 2 then Some("Title must be at least 2 characters long")
    else None
  }

  /** `required`, then `minLength: 10`, counted in UTF-16 code units. */
  function DescriptionRule(description: string): (msg: Option<string>)
    ensures msg.None? <==> Utf16Length(description) >= 10
    ensures description == [] ==> msg == Some("Description is required")
  {
    if description == [] then Some("Description is required")
    else if Utf16Length(description) < 10 then Some("Description must be at least 10 characters long")
    else None
  }

  /** The year is optional; a given year must lie in 1000 .. `currentYear`. */
  function YearRule(year: Option<int>, currentYear: nat): (msg: Option<string>)
    ensures msg.None? <==> year.None? || MinYear <= year.value <= currentYear
    ensures year.Some? && year.value < MinYear ==> msg == Some("Please enter a valid year")
  {
    if year.None? then None
    else if year.value < MinYear then Some("Please enter a valid year")
    else if year.value > currentYear then Some("Year cannot be in the future (max: " + NatToDecimal(currentYear) + ")")
    else None
  }

  function AuthorRule(authorId: Option<int>): (msg: Option<string>)
    ensures msg.None? <==> authorId.Some?
  {
    if authorId.None? then Some("Please select an author") else None
  }

  /** `isImage`: an empty list passes; otherwise the first file's type starts with
      "image/". */
  function IsImage(files: seq<FileInfo>): (msg: Option<string>)
    ensures msg.None? <==> files == [] || StartsWith(files[0].mimeType, "image/")
  {
    if files == [] then None
    else if StartsWith(files[0].mimeType, "image/") then None
    else Some("Please upload an image file")
  }

  /** `fileSize` of the cover: an empty list passes; otherwise at most 5 MiB. */
  function ImageSize(files: seq<FileInfo>): (msg: Option<string>)
    ensures msg.None? <==> files == [] || files[0].size <= MaxImageSize
  {
    if files == [] || files[0].size <= MaxImageSize then None
    else Some("Image size must be less than 5MB")
  }

  /** `isPDF`: the type is "application/pdf" or the lower-cased name ends in ".pdf". */
  function IsPdf(files: seq<FileInfo>): (msg: Option<string>)
    ensures msg.None? <==> files == [] || files[0].mimeType == "application/pdf" || EndsWith(ToLower(files[0].name), ".pdf")
  {
    if files == [] then None
    else if files[0].mimeType == "application/pdf" || EndsWith(ToLower(files[0].name), ".pdf") then None
    else Some("Please upload a PDF file")
  }

  /** `fileSize` of the PDF: an empty list passes; otherwise at most 10 MiB. */
  function PdfSize(files: seq<FileInfo>): (msg: Option<string>)
    ensures msg.None? <==> files == [] || files[0].size <= MaxPdfSize
  {
    if files == [] || files[0].size <= MaxPdfSize then None
    else Some("File size must be less than 10MB")
  }

  function CoverRule(files: seq<FileInfo>): (msg: Option<string>)
    ensures msg.None? <==> files != [] && IsImage(files).None? && ImageSize(files).None?
  {
    if files == [] then Some("Cover image is required")
    else if IsImage(files).Some? then IsImage(files)
    else ImageSize(files)
  }

  function PdfRule(files: seq<FileInfo>): (msg: Option<string>)
    ensures msg.None? <==> files != [] && IsPdf(files).None? && PdfSize(files).None?
  {
    if files == [] then Some("PDF file is required")
    else if IsPdf(files).Some? then IsPdf(files)
    else PdfSize(files)
  }

  /** Both file validators let an empty list through; it is `required` that refuses it. */
  lemma EmptyFileListPassesValidators()
    ensures IsImage([]).None? && ImageSize([]).None? && IsPdf([]).None? && PdfSize([]).None?
    ensures CoverRule([]) == Some("Cover image is required") && PdfRule([]) == Some("PDF file is required")
  {
  }

  /** All inputs are acceptable, stated directly on the inputs. */
  predicate Acceptable(f: FormInput, currentYear: nat) {
    && Utf16Length(f.title) >= 2
    && Utf16Length(f.description) >= 10
    && (f.publishedYear.Some? ==> MinYear <= f.publishedYear.value <= currentYear)
    && f.authorId.Some?
    && f.coverImage != [] && StartsWith(f.coverImage[0].mimeType, "image/") && f.coverImage[0].size <= MaxImageSize
    && f.pdf != []
    && (f.pdf[0].mimeType == "application/pdf" || EndsWith(ToLower(f.pdf[0].name), ".pdf"))
    && f.pdf[0].size <= MaxPdfSize
  }

  /** The state after a submit: the data passed to `onSubmit`, if any, and the inputs the
      form then holds. */
  datatype SubmitResult = SubmitResult(forwarded: Option<FormInput>, after: FormInput)

  const EmptyForm: FormInput := FormInput("", "", None, None, [], [])

  /** `handleSubmit(submitHandler)`: with every field valid the data goes to `onSubmit`
      and the form is reset; otherwise nothing is sent and the inputs stay. */
  function Submit(f: FormInput, currentYear: nat): (r: SubmitResult)
    ensures r.forwarded.Some? <==> Acceptable(f, currentYear)
    ensures r.forwarded.Some? ==> r.forwarded.value == f && r.after == EmptyForm
    ensures r.forwarded.None? ==> r.after == f
  {
    if && TitleRule(f.title).None? && DescriptionRule(f.description).None?
       && YearRule(f.publishedYear, currentYear).None? && AuthorRule(f.authorId).None?
       && CoverRule(f.coverImage).None? && PdfRule(f.pdf).None?
    then SubmitResult(Some(f), EmptyForm)
    else SubmitResult(None, f)
  }

  /** A file whose name ends in ".PDF" is accepted even with a generic MIME type. */
  lemma UpperCasePdfNameAccepted(size: nat)
    ensures IsPdf([FileInfo("BOOK.PDF", "application/octet-stream", size)]).None?
  {
    var lowered := ToLower("BOOK.PDF");
    assert lowered == "book.pdf";
    assert lowered[|lowered| - 4..] == ".pdf";
  }
}
