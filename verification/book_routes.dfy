/** The /books handlers: the paginated list, read by id, create (multipart with a PDF
    and a cover image, or JSON), the partial update that only overwrites truthy fields
    and replaces uploaded files, and delete with file cleanup. Each handler takes the
    store `Db` and returns its reply together with the store afterwards. */
module BookRoutes {
  import opened Values
  import opened Paging
  import opened Store

  function BookPath(stamp: nat, filename: string): string {
    StoredPath(BookUploads, stamp, filename)
  }

  // ---------------------------------------------------------------------------
  // GET /

  datatype BookList = BookList(page: int, limit: int, totalBooks: nat, totalPages: int,
                               data: Option<seq<BookWithAuthor>>)

  const DefaultBookLimit: int := 10

  /** GET / over the table `rows` in id order. `data` is the page `skip .. skip + limit`;
      it is `None` for a page or limit below 1, whose negative skip or take the model
      leaves to the store. */
  function ListBooks(rows: seq<BookWithAuthor>, rawPage: Num, rawLimit: Num): (r: BookList)
    ensures r.page == IntOr(rawPage, 1) && r.limit == IntOr(rawLimit, DefaultBookLimit)
    ensures r.page != 0 && r.limit != 0
    ensures r.totalBooks == |rows|
    ensures r.limit > 0 ==> (r.totalPages - 1) * r.limit < |rows| <= r.totalPages * r.limit
    ensures r.data.Some? <==> r.page >= 1 && r.limit >= 1
    ensures r.data.Some? ==> r.data.value == PageSlice(rows, r.page, r.limit)
  {
    var pr := ListParams(rawPage, rawLimit, DefaultBookLimit);
    var data := if pr.page >= 1 && pr.limit >= 1 then Some(PageSlice(rows, pr.page, pr.limit)) else None;
    BookList(pr.page, pr.limit, |rows|, CeilDiv(|rows|, pr.limit), data)
  }

  /** Reading the list page by page from 1 to `totalPages` yields every book once, in id
      order. */
  lemma ListPagesCoverTable(rows: seq<BookWithAuthor>, limit: int)
    requires limit >= 1
    ensures var r := ListBooks(rows, Int(1), Int(limit));
      r.data == Some(PageSlice(rows, 1, limit)) && ConcatPages(rows, limit, r.totalPages) == rows
  {
    PagesCoverData(rows, limit);
  }

  // ---------------------------------------------------------------------------
  // GET /:id

  /** GET /:id: a non-numeric id is refused before the store is read. In a valid store
      every book's author exists, so the included author is always found. */
  function GetBook(db: Db, rawId: Num): (r: Reply<BookWithAuthor>)
    requires Valid(db)
    ensures r.status == 400 <==> rawId.NaN?
    ensures r.status == 400 ==> r.body == Message("Invalid book ID")
    ensures r.status == 404 <==> rawId.Int? && rawId.value !in db.books
    ensures r.status == 404 ==> r.body == Message("Book not found")
    ensures r.status == 200 ==> r.body.Payload? && r.body.value.book == db.books[rawId.value]
    ensures r.status == 200 ==> r.body.value.authorName == db.authors[db.books[rawId.value].authorId].name
    ensures r.status in {200, 400, 404}
  {
    if rawId.NaN? then Reply(400, Message("Invalid book ID"))
    else if rawId.value !in db.books then Reply(404, Message("Book not found"))
    else
      var b := db.books[rawId.value];
      Reply(200, Payload(BookWithAuthor(b, db.authors[b.authorId].name)))
  }

  // ---------------------------------------------------------------------------
  // Request bodies

  /** The handler's local variables after reading the request: `None` stands for
      `null`/`undefined`. */
  datatype Draft = Draft(
    title: Option<string>,
    description: Option<string>,
    publishedYear: Option<Num>,
    authorId: Option<Num>,
    pdf: Option<string>,
    coverImage: Option<string>)

  /** A JSON body; a field the client left out is `None`. */
  datatype BookJson = BookJson(
    title: Option<string>,
    description: Option<string>,
    publishedYear: Option<int>,
    authorId: Option<int>,
    pdf: Option<string>,
    coverImage: Option<string>)

  datatype BookBody = Multipart(parts: seq<Part>) | Json(json: BookJson)

  function AsNum(n: Option<int>): (r: Option<Num>)
    ensures r.Some? <==> n.Some?
    ensures r.Some? ==> r.value == Int(n.value)
  {
    if n.Some? then Some(Int(n.value)) else None
  }

  /** The destructured JSON body (`pdf ?? null` keeps a missing path as null). */
  function FromJson(j: BookJson): Draft {
    Draft(j.title, j.description, AsNum(j.publishedYear), AsNum(j.authorId), j.pdf, j.coverImage)
  }

  /** The locals of create before the parts are read. */
  const CreateStart: Draft := Draft(Some(""), Some(""), None, None, None, None)

  /** The locals of update before the parts are read: all undefined. */
  const UpdateStart: Draft := Draft(None, None, None, None, None, None)

  /** The effect of one part on the locals: a file sent as "pdf" or "coverImage" fills
      that slot with its stored path, other files fill nothing; the text fields "title",
      "description", "publishedYear" and "authorId" set their variable. */
  function Absorb(d: Draft, part: Part): (r: Draft)
    ensures part.FilePart? ==>
      (&& r.title == d.title && r.description == d.description
       && r.publishedYear == d.publishedYear && r.authorId == d.authorId)
    ensures part.FieldPart? ==> r.pdf == d.pdf && r.coverImage == d.coverImage
    ensures IsFileFor(part, "pdf") ==> r.coverImage == d.coverImage && r.pdf == Some(BookPath(part.stamp, part.filename))
    ensures IsFileFor(part, "coverImage") ==> r.pdf == d.pdf && r.coverImage == Some(BookPath(part.stamp, part.filename))
    ensures !IsFileFor(part, "pdf") && !IsFileFor(part, "coverImage") ==> r.pdf == d.pdf && r.coverImage == d.coverImage
  {
    match part
    case FilePart(field, name, stamp) =>
      if field == "pdf" then d.(pdf := Some(BookPath(stamp, name)))
      else if field == "coverImage" then d.(coverImage := Some(BookPath(stamp, name)))
      else d
    case FieldPart(field, value, parsed) =>
      if field == "title" then d.(title := Some(value))
      else if field == "description" then d.(description := Some(value))
      else if field == "publishedYear" then d.(publishedYear := Some(parsed))
      else if field == "authorId" then d.(authorId := Some(parsed))
      else d
  }

  /** The locals after all parts, in arrival order. */
  function AbsorbAll(d: Draft, parts: seq<Part>): Draft
    decreases |parts|
  {
    if parts == [] then d else Absorb(AbsorbAll(d, parts[..|parts| - 1]), parts[|parts| - 1])
  }

  /** The effect of one part on the upload directory: every file part is written; when
      `replacing` is the stored book of an update, a new "pdf" or "coverImage" then
      deletes the book's old file of that slot, if it has one. */
  function WriteStep(files: set<string>, part: Part, replacing: Option<Book>): set<string> {
    match part
    case FilePart(field, name, stamp) =>
      var written := files + {BookPath(stamp, name)};
      if replacing.Some? && field == "pdf" then RemoveIfSet(written, replacing.value.pdf)
      else if replacing.Some? && field == "coverImage" then RemoveIfSet(written, replacing.value.coverImage)
      else written
    case FieldPart(_, _, _) => files
  }

  function WriteAll(files: set<string>, parts: seq<Part>, replacing: Option<Book>): set<string>
    decreases |parts|
  {
    if parts == [] then files
    else WriteStep(WriteAll(files, parts[..|parts| - 1], replacing), parts[|parts| - 1], replacing)
  }

  /** The `for await` loop over the parts, shared by create (`replacing == None`) and
      update (`replacing` is the stored book). */
  method ReadParts(parts: seq<Part>, start: Draft, files: set<string>, replacing: Option<Book>)
    returns (draft: Draft, written: set<string>)
    ensures draft == AbsorbAll(start, parts)
    ensures written == WriteAll(files, parts, replacing)
  {
    draft, written := start, files;
    for i := 0 to |parts|
      invariant draft == AbsorbAll(start, parts[..i])
      invariant written == WriteAll(files, parts[..i], replacing)
    {
      assert parts[..i + 1][..i] == parts[..i];
      match parts[i] {
        case FilePart(field, name, stamp) =>
          var stored := BookPath(stamp, name);
          written := written + {stored};
          if field == "pdf" {
            if replacing.Some? {
              written := RemoveIfSet(written, replacing.value.pdf);
            }
            draft := draft.(pdf := Some(stored));
          } else if field == "coverImage" {
            if replacing.Some? {
              written := RemoveIfSet(written, replacing.value.coverImage);
            }
            draft := draft.(coverImage := Some(stored));
          }
        case FieldPart(field, value, parsed) =>
          if field == "title" {
            draft := draft.(title := Some(value));
          }
          if field == "description" {
            draft := draft.(description := Some(value));
          }
          if field == "publishedYear" {
            draft := draft.(publishedYear := Some(parsed));
          }
          if field == "authorId" {
            draft := draft.(authorId := Some(parsed));
          }
      }
    }
    assert parts[..|parts|] == parts;
  }

  // ---------------------------------------------------------------------------
  // Which part wins

  /** Part `i` is the last file part sent under `key`. */
  ghost predicate LastFileFor(parts: seq<Part>, key: string, i: int) {
    0 <= i < |parts| && IsFileFor(parts[i], key) && forall j :: i < j < |parts| ==> !IsFileFor(parts[j], key)
  }

  /** Part `i` is the last text field sent under `key`. */
  ghost predicate LastFieldFor(parts: seq<Part>, key: string, i: int) {
    0 <= i < |parts| && IsFieldFor(parts[i], key) && forall j :: i < j < |parts| ==> !IsFieldFor(parts[j], key)
  }

  function FileSlot(d: Draft, key: string): Option<string> {
    if key == "pdf" then d.pdf else d.coverImage
  }

  function TextSlot(d: Draft, key: string): Option<string> {
    if key == "title" then d.title else d.description
  }

  function NumberSlot(d: Draft, key: string): Option<Num> {
    if key == "authorId" then d.authorId else d.publishedYear
  }

  /** A file slot that no part is sent for keeps its starting value; in particular
      files under any other name fill neither slot. */
  lemma {:induction false} FileSlotUntouched(d: Draft, parts: seq<Part>, key: string)
    requires key == "pdf" || key == "coverImage"
    requires forall i :: 0 <= i < |parts| ==> !IsFileFor(parts[i], key)
    ensures FileSlot(AbsorbAll(d, parts), key) == FileSlot(d, key)
    decreases |parts|
  {
    if parts != [] {
      var init := parts[..|parts| - 1];
      assert forall i :: 0 <= i < |init| ==> init[i] == parts[i];
      FileSlotUntouched(d, init, key);
      assert !IsFileFor(parts[|parts| - 1], key);
    }
  }

  /** A file slot holds the stored path of the last file sent under its name. */
  lemma {:induction false} FileSlotLastWins(d: Draft, parts: seq<Part>, key: string, i: int)
    requires key == "pdf" || key == "coverImage"
    requires LastFileFor(parts, key, i)
    ensures FileSlot(AbsorbAll(d, parts), key) == Some(BookPath(parts[i].stamp, parts[i].filename))
    decreases |parts|
  {
    var init := parts[..|parts| - 1];
    if i < |parts| - 1 {
      assert LastFileFor(init, key, i);
      FileSlotLastWins(d, init, key, i);
      assert !IsFileFor(parts[|parts| - 1], key);
    }
  }

  /** The title or description that no text field is sent for keeps its starting value. */
  lemma {:induction false} TextSlotUntouched(d: Draft, parts: seq<Part>, key: string)
    requires key == "title" || key == "description"
    requires forall i :: 0 <= i < |parts| ==> !IsFieldFor(parts[i], key)
    ensures TextSlot(AbsorbAll(d, parts), key) == TextSlot(d, key)
    decreases |parts|
  {
    if parts != [] {
      var init := parts[..|parts| - 1];
      assert forall i :: 0 <= i < |init| ==> init[i] == parts[i];
      TextSlotUntouched(d, init, key);
      assert !IsFieldFor(parts[|parts| - 1], key);
    }
  }

  /** The title and the description are the value of the last text field of that name. */
  lemma {:induction false} TextSlotLastWins(d: Draft, parts: seq<Part>, key: string, i: int)
    requires key == "title" || key == "description"
    requires LastFieldFor(parts, key, i)
    ensures TextSlot(AbsorbAll(d, parts), key) == Some(parts[i].value)
    decreases |parts|
  {
    var init := parts[..|parts| - 1];
    if i < |parts| - 1 {
      assert LastFieldFor(init, key, i);
      TextSlotLastWins(d, init, key, i);
      assert !IsFieldFor(parts[|parts| - 1], key);
    }
  }

  /** The author id or year that no text field is sent for keeps its starting value. */
  lemma {:induction false} NumberSlotUntouched(d: Draft, parts: seq<Part>, key: string)
    requires key == "authorId" || key == "publishedYear"
    requires forall i :: 0 <= i < |parts| ==> !IsFieldFor(parts[i], key)
    ensures NumberSlot(AbsorbAll(d, parts), key) == NumberSlot(d, key)
    decreases |parts|
  {
    if parts != [] {
      var init := parts[..|parts| - 1];
      assert forall i :: 0 <= i < |init| ==> init[i] == parts[i];
      NumberSlotUntouched(d, init, key);
      assert !IsFieldFor(parts[|parts| - 1], key);
    }
  }

  /** The author id and the year are what `parseInt` read from the last text field of
      that name. */
  lemma {:induction false} NumberSlotLastWins(d: Draft, parts: seq<Part>, key: string, i: int)
    requires key == "authorId" || key == "publishedYear"
    requires LastFieldFor(parts, key, i)
    ensures NumberSlot(AbsorbAll(d, parts), key) == Some(parts[i].parsed)
    decreases |parts|
  {
    var init := parts[..|parts| - 1];
    if i < |parts| - 1 {
      assert LastFieldFor(init, key, i);
      NumberSlotLastWins(d, init, key, i);
      assert !IsFieldFor(parts[|parts| - 1], key);
    }
  }

  // ---------------------------------------------------------------------------
  // Which files are written and deleted

  /** The stored paths of all file parts, whatever field they were sent under. */
  function Uploaded(parts: seq<Part>): set<string>
    decreases |parts|
  {
    if parts == [] then {}
    else
      var last := parts[|parts| - 1];
      Uploaded(parts[..|parts| - 1]) + (if last.FilePart? then {BookPath(last.stamp, last.filename)} else {})
  }

  predicate HasFileFor(parts: seq<Part>, key: string)
    decreases |parts|
  {
    parts != [] && (HasFileFor(parts[..|parts| - 1], key) || IsFileFor(parts[|parts| - 1], key))
  }

  /** The old files an update replaces: the stored pdf when a new "pdf" arrives, the
      stored cover when a new "coverImage" arrives, each only when it is set. */
  function Replaced(parts: seq<Part>, b: Book): set<string> {
    (if HasFileFor(parts, "pdf") && StrTruthy(b.pdf) then {b.pdf.value} else {})
    + (if HasFileFor(parts, "coverImage") && StrTruthy(b.coverImage) then {b.coverImage.value} else {})
  }

  /** Create writes every uploaded file and deletes nothing. */
  lemma {:induction false} CreateWritesUploads(files: set<string>, parts: seq<Part>)
    ensures WriteAll(files, parts, None) == files + Uploaded(parts)
    decreases |parts|
  {
    if parts != [] {
      CreateWritesUploads(files, parts[..|parts| - 1]);
    }
  }

  /** Update writes every uploaded file and deletes exactly the old files of the slots
      that received a new upload: a new pdf never deletes the cover, nor a new cover the
      pdf. (The old paths are assumed to differ from the new ones, as distinct
      timestamps make them.) */
  lemma {:induction false} UpdateReplacesOnlyItsSlots(files: set<string>, parts: seq<Part>, b: Book)
    requires b.pdf.Some? ==> b.pdf.value !in Uploaded(parts)
    requires b.coverImage.Some? ==> b.coverImage.value !in Uploaded(parts)
    ensures WriteAll(files, parts, Some(b)) == (files + Uploaded(parts)) - Replaced(parts, b)
    decreases |parts|
  {
    if parts != [] {
      var init := parts[..|parts| - 1];
      assert Uploaded(init) <= Uploaded(parts);
      UpdateReplacesOnlyItsSlots(files, init, b);
    }
  }

  // ---------------------------------------------------------------------------
  // POST /

  /** The locals once the request is read. */
  function CreateDraft(body: BookBody): Draft {
    match body
    case Multipart(parts) => AbsorbAll(CreateStart, parts)
    case Json(j) => FromJson(j)
  }

  function FilesAfterCreate(files: set<string>, body: BookBody): set<string> {
    match body
    case Multipart(parts) => WriteAll(files, parts, None)
    case Json(_) => files
  }

  /** The store accepts the new row: its author exists and the year, when given, is a
      number. */
  predicate StoreAcceptsCreate(db: Db, d: Draft)
    requires OptNumTruthy(d.authorId)
  {
    d.authorId.value.value in db.authors && (d.publishedYear.Some? ==> d.publishedYear.value.Int?)
  }

  function YearOf(n: Option<Num>): Option<int> {
    if n.Some? && n.value.Int? then Some(n.value.value) else None
  }

  /** POST /. Uploaded files are written while the request is read, so they stay even
      when the request is then refused. */
  method CreateBook(db: Db, body: BookBody) returns (reply: Reply<BookWithAuthor>, db': Db)
    ensures var d := CreateDraft(body);
      && (reply.status == 400 <==> !StrTruthy(d.title) || !OptNumTruthy(d.authorId))
      && (reply.status == 400 ==> reply.body == Message("Title and authorId required"))
      && (reply.status == 500 <==> StrTruthy(d.title) && OptNumTruthy(d.authorId) && !StoreAcceptsCreate(db, d))
      && (reply.status == 201 ==>
            && d.authorId.value.value in db.authors
            && db'.books == db.books[db.nextBookId := Book(db.nextBookId, d.title.value, d.description,
                                                           YearOf(d.publishedYear), d.authorId.value.value, d.pdf, d.coverImage)]
            && reply.body == Payload(BookWithAuthor(db'.books[db.nextBookId], db.authors[d.authorId.value.value].name))
            && db'.nextBookId == db.nextBookId + 1)
      && (reply.status != 201 ==> db'.books == db.books && db'.nextBookId == db.nextBookId)
    ensures reply.status in {201, 400, 500}
    ensures db'.files == FilesAfterCreate(db.files, body)
    ensures db'.authors == db.authors && db'.nextAuthorId == db.nextAuthorId
    ensures Valid(db) ==> Valid(db')
  {
    var draft: Draft;
    var files := db.files;
    match body {
      case Multipart(parts) =>
        draft, files := ReadParts(parts, CreateStart, db.files, None);
      case Json(j) =>
        draft := FromJson(j);
    }
    var stored := db.(files := files);
    if !StrTruthy(draft.title) || !OptNumTruthy(draft.authorId) {
      return Reply(400, Message("Title and authorId required")), stored;
    }
    var authorId := draft.authorId.value.value;
    if authorId !in db.authors || (draft.publishedYear.Some? && draft.publishedYear.value.NaN?) {
      return Reply(500, ErrorText("")), stored;
    }
    var book := Book(db.nextBookId, draft.title.value, draft.description, YearOf(draft.publishedYear),
                     authorId, draft.pdf, draft.coverImage);
    db' := stored.(books := db.books[book.id := book], nextBookId := db.nextBookId + 1);
    reply := Reply(201, Payload(BookWithAuthor(book, db.authors[authorId].name)));
  }

  // ---------------------------------------------------------------------------
  // PUT /:id

  /** The `data` object of an update: a field is present only when its value is
      truthy. */
  datatype Patch = Patch(
    title: Option<string>,
    description: Option<string>,
    publishedYear: Option<int>,
    authorId: Option<int>,
    pdf: Option<string>,
    coverImage: Option<string>)

  /** The patch an update sends for the locals `d`. */
  function PatchOf(d: Draft): (p: Patch)
    ensures p.title.Some? <==> StrTruthy(d.title)
    ensures p.description.Some? <==> StrTruthy(d.description)
    ensures p.publishedYear.Some? <==> OptNumTruthy(d.publishedYear)
    ensures p.authorId.Some? <==> OptNumTruthy(d.authorId)
    ensures p.pdf.Some? <==> StrTruthy(d.pdf)
    ensures p.coverImage.Some? <==> StrTruthy(d.coverImage)
    ensures p.title.Some? ==> p.title == d.title
    ensures p.description.Some? ==> p.description == d.description
    ensures p.publishedYear.Some? ==> p.publishedYear.value == d.publishedYear.value.value
    ensures p.authorId.Some? ==> p.authorId.value == d.authorId.value.value
    ensures p.pdf.Some? ==> p.pdf == d.pdf
    ensures p.coverImage.Some? ==> p.coverImage == d.coverImage
  {
    Patch(
      if StrTruthy(d.title) then d.title else None,
      if StrTruthy(d.description) then d.description else None,
      if OptNumTruthy(d.publishedYear) then Some(d.publishedYear.value.value) else None,
      if OptNumTruthy(d.authorId) then Some(d.authorId.value.value) else None,
      if StrTruthy(d.pdf) then d.pdf else None,
      if StrTruthy(d.coverImage) then d.coverImage else None)
  }

  /** Builds the `data` object field by field, as the handler does. */
  method BuildPatch(d: Draft) returns (data: Patch)
    ensures data == PatchOf(d)
  {
    data := Patch(None, None, None, None, None, None);
    if StrTruthy(d.title) {
      data := data.(title := d.title);
    }
    if StrTruthy(d.description) {
      data := data.(description := d.description);
    }
    if OptNumTruthy(d.publishedYear) {
      data := data.(publishedYear := Some(d.publishedYear.value.value));
    }
    if OptNumTruthy(d.authorId) {
      data := data.(authorId := Some(d.authorId.value.value));
    }
    if StrTruthy(d.pdf) {
      data := data.(pdf := d.pdf);
    }
    if StrTruthy(d.coverImage) {
      data := data.(coverImage := d.coverImage);
    }
  }

  /** The row after `update({ data })`: the fields present in the patch replace the
      stored ones. */
  function ApplyPatch(b: Book, p: Patch): (r: Book)
    ensures r.id == b.id
  {
    Book(b.id,
         p.title.GetOr(b.title),
         if p.description.Some? then p.description else b.description,
         if p.publishedYear.Some? then p.publishedYear else b.publishedYear,
         p.authorId.GetOr(b.authorId),
         if p.pdf.Some? then p.pdf else b.pdf,
         if p.coverImage.Some? then p.coverImage else b.coverImage)
  }

  /** A field the request leaves absent, empty, zero or unparsable keeps its stored
      value; a truthy one replaces it. */
  lemma PatchKeepsFalsyFields(b: Book, d: Draft)
    ensures var r := ApplyPatch(b, PatchOf(d));
      && r.id == b.id
      && r.title == (if StrTruthy(d.title) then d.title.value else b.title)
      && r.description == (if StrTruthy(d.description) then d.description else b.description)
      && r.publishedYear == (if OptNumTruthy(d.publishedYear) then Some(d.publishedYear.value.value) else b.publishedYear)
      && r.authorId == (if OptNumTruthy(d.authorId) then d.authorId.value.value else b.authorId)
      && r.pdf == (if StrTruthy(d.pdf) then d.pdf else b.pdf)
      && r.coverImage == (if StrTruthy(d.coverImage) then d.coverImage else b.coverImage)
  {
  }

  /** Sending the same update twice leaves the row as sending it once, and an update
      that carries nothing leaves the row as it was. */
  lemma PatchIdempotent(b: Book, p: Patch)
    ensures ApplyPatch(ApplyPatch(b, p), p) == ApplyPatch(b, p)
    ensures ApplyPatch(b, Patch(None, None, None, None, None, None)) == b
  {
  }

  function UpdateDraft(body: BookBody): Draft {
    match body
    case Multipart(parts) => AbsorbAll(UpdateStart, parts)
    case Json(j) => FromJson(j)
  }

  function FilesAfterUpdate(files: set<string>, body: BookBody, current: Book): set<string> {
    match body
    case Multipart(parts) => WriteAll(files, parts, Some(current))
    case Json(_) => files
  }

  /** PUT /:id. Files are written and old ones deleted while the request is read, before
      the store is asked to update the row; a refused update keeps them so. */
  method UpdateBook(db: Db, rawId: Num, body: BookBody) returns (reply: Reply<BookWithAuthor>, db': Db)
    ensures rawId.NaN? ==> reply == Reply(400, Message("Invalid book ID")) && db' == db
    ensures rawId.Int? && rawId.value !in db.books ==> reply == Reply(404, Message("Book not found")) && db' == db
    ensures rawId.Int? && rawId.value in db.books ==>
      var current := db.books[rawId.value];
      var updated := ApplyPatch(current, PatchOf(UpdateDraft(body)));
      && db'.files == FilesAfterUpdate(db.files, body, current)
      && db'.authors == db.authors
      && db'.nextBookId == db.nextBookId && db'.nextAuthorId == db.nextAuthorId
      && (updated.authorId in db.authors ==>
            reply == Reply(200, Payload(BookWithAuthor(updated, db.authors[updated.authorId].name)))
            && db'.books == db.books[rawId.value := updated])
      && (updated.authorId !in db.authors ==> reply == Reply(404, ErrorText("Error: ")) && db'.books == db.books)
    ensures Valid(db) ==> Valid(db')
  {
    if rawId.NaN? {
      return Reply(400, Message("Invalid book ID")), db;
    }
    var id := rawId.value;
    if id !in db.books {
      return Reply(404, Message("Book not found")), db;
    }
    var current := db.books[id];
    var draft: Draft;
    var files := db.files;
    match body {
      case Multipart(parts) =>
        draft, files := ReadParts(parts, UpdateStart, db.files, Some(current));
      case Json(j) =>
        draft := FromJson(j);
    }
    var data := BuildPatch(draft);
    var updated := ApplyPatch(current, data);
    if updated.authorId !in db.authors {
      return Reply(404, ErrorText("Error: ")), db.(files := files);
    }
    db' := db.(books := db.books[id := updated], files := files);
    reply := Reply(200, Payload(BookWithAuthor(updated, db.authors[updated.authorId].name)));
  }

  /** A multipart update whose new author does not exist is refused, yet the book's old
      pdf is already deleted while the row still names it. */
  lemma RefusedUpdateLosesOldPdf(files: set<string>, b: Book, stamp: nat, name: string, badAuthor: int)
    requires StrTruthy(b.pdf) && b.pdf.value in files && b.pdf.value != BookPath(stamp, name)
    ensures var parts := [FilePart("pdf", name, stamp), FieldPart("authorId", "", Int(badAuthor))];
      b.pdf.value !in WriteAll(files, parts, Some(b))
  {
    var parts := [FilePart("pdf", name, stamp), FieldPart("authorId", "", Int(badAuthor))];
    assert parts[..1] == [FilePart("pdf", name, stamp)];
    assert [FilePart("pdf", name, stamp)][..0] == [];
  }

  // ---------------------------------------------------------------------------
  // DELETE /:id

  /** DELETE /:id: the pdf, then the cover, then the row. */
  method DeleteBook(db: Db, rawId: Num) returns (reply: Reply<()>, db': Db)
    ensures rawId.NaN? ==> reply == Reply(400, Message("Invalid book ID")) && db' == db
    ensures rawId.Int? && rawId.value !in db.books ==> reply == Reply(404, Message("Book not found")) && db' == db
    ensures rawId.Int? && rawId.value in db.books ==>
      var b := db.books[rawId.value];
      && reply == Reply(200, Message("Book deleted successfully"))
      && db'.books == db.books - {rawId.value}
      && db'.files == db.files - (if StrTruthy(b.pdf) then {b.pdf.value} else {})
                               - (if StrTruthy(b.coverImage) then {b.coverImage.value} else {})
      && db'.authors == db.authors && db'.nextBookId == db.nextBookId && db'.nextAuthorId == db.nextAuthorId
    ensures Valid(db) ==> Valid(db')
  {
    if rawId.NaN? {
      return Reply(400, Message("Invalid book ID")), db;
    }
    var id := rawId.value;
    if id !in db.books {
      return Reply(404, Message("Book not found")), db;
    }
    var book := db.books[id];
    var files := db.files;
    files := RemoveIfSet(files, book.pdf);
    files := RemoveIfSet(files, book.coverImage);
    db' := db.(books := db.books - {id}, files := files);
    reply := Reply(200, Message("Book deleted successfully"));
  }
}
