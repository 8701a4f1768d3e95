/** The /authors handlers: the paginated list (one author per page unless asked
    otherwise), read by id, create and update from multipart parts (any uploaded file
    becomes the image), and delete. Failures of update and delete are all reported as
    404. */
module AuthorRoutes {
  import opened Values
  import opened Paging
  import opened Store

  function ImagePath(stamp: nat, filename: string): string {
    StoredPath(AuthorUploads, stamp, filename)
  }

  // ---------------------------------------------------------------------------
  // GET /

  datatype AuthorList = AuthorList(page: int, limit: int, totalAuthors: nat, totalPages: int,
                                   data: Option<seq<Author>>)

  /** The list's page size when `limit` is missing, not a number or 0. */
  const DefaultAuthorLimit: int := 1

  /** GET / over the table `rows` in id order; `data` is `None` for a page or limit below
      1, whose negative skip or take the model leaves to the store. */
  function ListAuthors(rows: seq<Author>, rawPage: Num, rawLimit: Num): (r: AuthorList)
    ensures r.page == IntOr(rawPage, 1) && r.limit == IntOr(rawLimit, DefaultAuthorLimit)
    ensures !NumTruthy(rawLimit) ==> r.limit == 1 && r.totalPages == |rows|
    ensures r.totalAuthors == |rows|
    ensures r.limit > 0 ==> (r.totalPages - 1) * r.limit < |rows| <= r.totalPages * r.limit
    ensures r.data.Some? <==> r.page >= 1 && r.limit >= 1
    ensures r.data.Some? ==> r.data.value == PageSlice(rows, r.page, r.limit)
  {
    var pr := ListParams(rawPage, rawLimit, DefaultAuthorLimit);
    var data := if pr.page >= 1 && pr.limit >= 1 then Some(PageSlice(rows, pr.page, pr.limit)) else None;
    AuthorList(pr.page, pr.limit, |rows|, CeilDiv(|rows|, pr.limit), data)
  }

  /** With the default page size, page `p` shows exactly the `p`-th author. */
  lemma DefaultListShowsOneAuthor(rows: seq<Author>, p: int)
    requires 1 <= p <= |rows|
    ensures ListAuthors(rows, Int(p), NaN).data == Some([rows[p - 1]])
  {
    var s := PageSlice(rows, p, 1);
    assert (p - 1) * 1 == p - 1 && p * 1 == p;
    assert s == Slice(rows, p - 1, p);
    assert s == [rows[p - 1]];
  }

  // ---------------------------------------------------------------------------
  // GET /:id

  function GetAuthor(db: Db, rawId: Num): (r: Reply<Author>)
    ensures r.status == 400 <==> rawId.NaN?
    ensures r.status == 400 ==> r.body == Message("Invalid author ID")
    ensures r.status == 404 <==> rawId.Int? && rawId.value !in db.authors
    ensures r.status == 404 ==> r.body == Message("Author not found")
    ensures r.status == 200 ==> r.body == Payload(db.authors[rawId.value])
    ensures r.status in {200, 400, 404}
  {
    if rawId.NaN? then Reply(400, Message("Invalid author ID"))
    else if rawId.value !in db.authors then Reply(404, Message("Author not found"))
    else Reply(200, Payload(db.authors[rawId.value]))
  }

  // ---------------------------------------------------------------------------
  // Reading the parts

  /** A request body: multipart parts, or a request that is not multipart (on which
      reading the parts throws). */
  datatype AuthorBody = Multipart(parts: seq<Part>) | NotMultipart

  /** The handler's locals `name`, `bio` and `imagePath`. */
  datatype Fields = Fields(name: string, bio: string, image: Option<string>)

  /** `name = ""`, `bio = ""`, `imagePath = null`, in both create and update. */
  const FieldsStart: Fields := Fields("", "", None)

  /** Any file part, whatever its field name, becomes the image; the text fields "name"
      and "bio" set their variable and all other fields are ignored. */
  function Absorb(f: Fields, part: Part): (r: Fields)
    ensures part.FilePart? ==> r == f.(image := Some(ImagePath(part.stamp, part.filename)))
    ensures part.FieldPart? ==> r.image == f.image
  {
    match part
    case FilePart(_, name, stamp) => f.(image := Some(ImagePath(stamp, name)))
    case FieldPart(field, value, _) =>
      if field == "name" then f.(name := value)
      else if field == "bio" then f.(bio := value)
      else f
  }

  function AbsorbAll(f: Fields, parts: seq<Part>): Fields
    decreases |parts|
  {
    if parts == [] then f else Absorb(AbsorbAll(f, parts[..|parts| - 1]), parts[|parts| - 1])
  }

  /** The stored paths of all file parts: each is written to the upload directory. */
  function Uploaded(parts: seq<Part>): set<string>
    decreases |parts|
  {
    if parts == [] then {}
    else
      var last := parts[|parts| - 1];
      Uploaded(parts[..|parts| - 1]) + (if last.FilePart? then {ImagePath(last.stamp, last.filename)} else {})
  }

  /** The `for await` loop of create and update. */
  method ReadParts(parts: seq<Part>, files: set<string>) returns (fields: Fields, written: set<string>)
    ensures fields == AbsorbAll(FieldsStart, parts)
    ensures written == files + Uploaded(parts)
  {
    fields, written := FieldsStart, files;
    for i := 0 to |parts|
      invariant fields == AbsorbAll(FieldsStart, parts[..i])
      invariant written == files + Uploaded(parts[..i])
    {
      assert parts[..i + 1][..i] == parts[..i];
      match parts[i] {
        case FilePart(_, name, stamp) =>
          var stored := ImagePath(stamp, name);
          written := written + {stored};
          fields := fields.(image := Some(stored));
        case FieldPart(field, value, _) =>
          if field == "name" {
            fields := fields.(name := value);
          }
          if field == "bio" {
            fields := fields.(bio := value);
          }
      }
    }
    assert parts[..|parts|] == parts;
  }

  /** Part `i` is the last file part, whatever its field name. */
  ghost predicate LastFile(parts: seq<Part>, i: int) {
    0 <= i < |parts| && parts[i].FilePart? && forall j :: i < j < |parts| ==> !parts[j].FilePart?
  }

  /** Part `i` is the last text field named `key`. */
  ghost predicate LastFieldFor(parts: seq<Part>, key: string, i: int) {
    0 <= i < |parts| && IsFieldFor(parts[i], key) && forall j :: i < j < |parts| ==> !IsFieldFor(parts[j], key)
  }

  /** The image is null when no file was sent. */
  lemma {:induction false} NoFileNoImage(f: Fields, parts: seq<Part>)
    requires forall i :: 0 <= i < |parts| ==> !parts[i].FilePart?
    ensures AbsorbAll(f, parts).image == f.image
    decreases |parts|
  {
    if parts != [] {
      var init := parts[..|parts| - 1];
      assert forall i :: 0 <= i < |init| ==> init[i] == parts[i];
      NoFileNoImage(f, init);
      assert !parts[|parts| - 1].FilePart?;
    }
  }

  /** The image is the stored path of the last file sent. */
  lemma {:induction false} LastFileIsImage(f: Fields, parts: seq<Part>, i: int)
    requires LastFile(parts, i)
    ensures AbsorbAll(f, parts).image == Some(ImagePath(parts[i].stamp, parts[i].filename))
    decreases |parts|
  {
    var init := parts[..|parts| - 1];
    if i < |parts| - 1 {
      assert LastFile(init, i);
      LastFileIsImage(f, init, i);
      assert !parts[|parts| - 1].FilePart?;
    }
  }

  function TextOf(f: Fields, key: string): string {
    if key == "name" then f.name else f.bio
  }

  /** A name or bio that is not sent stays as it started (""). */
  lemma {:induction false} UnsentTextUntouched(f: Fields, parts: seq<Part>, key: string)
    requires key == "name" || key == "bio"
    requires forall i :: 0 <= i < |parts| ==> !IsFieldFor(parts[i], key)
    ensures TextOf(AbsorbAll(f, parts), key) == TextOf(f, key)
    decreases |parts|
  {
    if parts != [] {
      var init := parts[..|parts| - 1];
      assert forall i :: 0 <= i < |init| ==> init[i] == parts[i];
      UnsentTextUntouched(f, init, key);
      assert !IsFieldFor(parts[|parts| - 1], key);
    }
  }

  /** The name and the bio are the value of the last text field of that name. */
  lemma {:induction false} LastTextWins(f: Fields, parts: seq<Part>, key: string, i: int)
    requires key == "name" || key == "bio"
    requires LastFieldFor(parts, key, i)
    ensures TextOf(AbsorbAll(f, parts), key) == parts[i].value
    decreases |parts|
  {
    var init := parts[..|parts| - 1];
    if i < |parts| - 1 {
      assert LastFieldFor(init, key, i);
      LastTextWins(f, init, key, i);
      assert !IsFieldFor(parts[|parts| - 1], key);
    }
  }

  // ---------------------------------------------------------------------------
  // POST /

  /** POST /: the new author holds the name and bio sent (or "") and the last uploaded
      file as image (or null). */
  method CreateAuthor(db: Db, body: AuthorBody) returns (reply: Reply<Author>, db': Db)
    ensures body.NotMultipart? ==> reply == Reply(500, ErrorText("")) && db' == db
    ensures body.Multipart? ==>
      var f := AbsorbAll(FieldsStart, body.parts);
      var created := Author(db.nextAuthorId, f.name, f.bio, f.image);
      && reply == Reply(201, Payload(created))
      && db'.authors == db.authors[db.nextAuthorId := created]
      && db'.nextAuthorId == db.nextAuthorId + 1
      && db'.files == db.files + Uploaded(body.parts)
      && db'.books == db.books && db'.nextBookId == db.nextBookId
    ensures Valid(db) ==> Valid(db')
  {
    if body.NotMultipart? {
      return Reply(500, ErrorText("")), db;
    }
    var fields, files := ReadParts(body.parts, db.files);
    var author := Author(db.nextAuthorId, fields.name, fields.bio, fields.image);
    db' := db.(authors := db.authors[author.id := author], nextAuthorId := db.nextAuthorId + 1, files := files);
    reply := Reply(201, Payload(author));
  }

  // ---------------------------------------------------------------------------
  // PUT /:id

  /** The row after the update: name and bio are always overwritten, the image only
      when a file was uploaded (`...(imagePath && { image })`). */
  function Updated(a: Author, f: Fields): (r: Author)
    ensures r.id == a.id && r.name == f.name && r.bio == f.bio
    ensures !StrTruthy(f.image) ==> r.image == a.image
    ensures StrTruthy(f.image) ==> r.image == f.image
  {
    Author(a.id, f.name, f.bio, if StrTruthy(f.image) then f.image else a.image)
  }

  /** The image local is null or a non-empty stored path, so it is truthy exactly when a
      file was sent. */
  lemma {:induction false} ImageSetMeansTruthy(parts: seq<Part>)
    ensures var image := AbsorbAll(FieldsStart, parts).image;
      image.Some? ==> StrTruthy(image) && StartsWith(image.value, AuthorUploads)
    decreases |parts|
  {
    if parts != [] {
      ImageSetMeansTruthy(parts[..|parts| - 1]);
      var last := parts[|parts| - 1];
      if last.FilePart? {
        var path := ImagePath(last.stamp, last.filename);
        assert path[0] == AuthorUploads[0];
      }
    }
  }

  /** PUT /:id. The parts are read, and uploaded files written, before the store is asked
      for the row; an unknown id then fails like any other error, with 404. The old
      image file is never deleted. */
  method UpdateAuthor(db: Db, rawId: Num, body: AuthorBody) returns (reply: Reply<Author>, db': Db)
    ensures rawId.NaN? ==> reply == Reply(400, Message("Invalid author ID")) && db' == db
    ensures rawId.Int? && body.NotMultipart? ==>
      reply == Reply(404, ErrorText("Author not found or error: ")) && db' == db
    ensures rawId.Int? && body.Multipart? ==>
      var f := AbsorbAll(FieldsStart, body.parts);
      && db'.files == db.files + Uploaded(body.parts)
      && db'.books == db.books && db'.nextBookId == db.nextBookId && db'.nextAuthorId == db.nextAuthorId
      && (rawId.value !in db.authors ==>
            reply == Reply(404, ErrorText("Author not found or error: ")) && db'.authors == db.authors)
      && (rawId.value in db.authors ==>
            reply == Reply(200, Payload(Updated(db.authors[rawId.value], f)))
            && db'.authors == db.authors[rawId.value := Updated(db.authors[rawId.value], f)])
    ensures Valid(db) ==> Valid(db')
  {
    if rawId.NaN? {
      return Reply(400, Message("Invalid author ID")), db;
    }
    var id := rawId.value;
    if body.NotMultipart? {
      return Reply(404, ErrorText("Author not found or error: ")), db;
    }
    var fields, files := ReadParts(body.parts, db.files);
    var stored := db.(files := files);
    if id !in db.authors {
      return Reply(404, ErrorText("Author not found or error: ")), stored;
    }
    var author := Updated(db.authors[id], fields);
    db' := stored.(authors := db.authors[id := author]);
    reply := Reply(200, Payload(author));
  }

  /** An update that sends no file keeps the stored image, and one that leaves out the
      name or the bio blanks it. */
  lemma UpdateWithoutFileKeepsImage(a: Author, parts: seq<Part>)
    requires forall i :: 0 <= i < |parts| ==> !parts[i].FilePart?
    requires forall i :: 0 <= i < |parts| ==> !IsFieldFor(parts[i], "name")
    ensures Updated(a, AbsorbAll(FieldsStart, parts)).image == a.image
    ensures Updated(a, AbsorbAll(FieldsStart, parts)).name == ""
  {
    NoFileNoImage(FieldsStart, parts);
    UnsentTextUntouched(FieldsStart, parts, "name");
  }

  // ---------------------------------------------------------------------------
  // DELETE /:id

  /** Some book still refers to the author, so the store refuses to delete it. */
  predicate HasBooks(db: Db, id: int) {
    exists b :: b in db.books.Values && b.authorId == id
  }

  /** DELETE /:id: an unknown author, or one the store will not delete because books
      refer to it, is reported as 404 "Author not found". The image file stays. */
  method DeleteAuthor(db: Db, rawId: Num) returns (reply: Reply<()>, db': Db)
    ensures rawId.NaN? ==> reply == Reply(400, Message("Invalid author ID")) && db' == db
    ensures rawId.Int? && (rawId.value !in db.authors || HasBooks(db, rawId.value)) ==>
      reply == Reply(404, Message("Author not found")) && db' == db
    ensures rawId.Int? && rawId.value in db.authors && !HasBooks(db, rawId.value) ==>
      reply == Reply(200, Message("Author deleted")) && db' == db.(authors := db.authors - {rawId.value})
    ensures Valid(db) ==> Valid(db')
  {
    if rawId.NaN? {
      return Reply(400, Message("Invalid author ID")), db;
    }
    var id := rawId.value;
    if id !in db.authors || HasBooks(db, id) {
      return Reply(404, Message("Author not found")), db;
    }
    db' := db.(authors := db.authors - {id});
    reply := Reply(200, Message("Author deleted"));
    assert Valid(db) ==> Valid(db') by {
      if Valid(db) {
        forall bid | bid in db.books ensures db.books[bid].authorId in db'.authors {
          assert db.books[bid] in db.books.Values;
        }
      }
    }
  }
}
