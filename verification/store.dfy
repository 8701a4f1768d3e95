/** The records the backend keeps and the state its handlers act on. The relational
    database and the upload directory are modelled as one value, `Db`: the two tables
    as maps from id to row, the uploaded files as the set of their stored paths
    ("/uploads/..."; `path.join(process.cwd(), stored)` names the same file), and the
    next ids the database will hand out. */
module Store {
  import opened Values

  datatype Author = Author(id: int, name: string, bio: string, image: Option<string>)

  datatype Book = Book(
    id: int,
    title: string,
    description: Option<string>,
    publishedYear: Option<int>,
    authorId: int,
    pdf: Option<string>,
    coverImage: Option<string>)

  /** A book together with its author's name (the `include: { author }` of a query). */
  datatype BookWithAuthor = BookWithAuthor(book: Book, authorName: string)

  datatype Db = Db(
    books: map<int, Book>,
    authors: map<int, Author>,
    files: set<string>,
    nextBookId: int,
    nextAuthorId: int)

  /** Rows are stored under their own ids, ids below the next id, and every book refers
      to an existing author (the database's foreign key). */
  ghost predicate Valid(db: Db) {
    && (forall id :: id in db.books ==> db.books[id].id == id && id < db.nextBookId)
    && (forall id :: id in db.authors ==> db.authors[id].id == id && id < db.nextAuthorId)
    && (forall id :: id in db.books ==> db.books[id].authorId in db.authors)
  }

  /** What a handler sends: a status code and a body. `ErrorText(prefix)` is a message
      made of `prefix` followed by the database's own error text, which the model does
      not spell out. */
  datatype Body<T> = Message(text: string) | ErrorText(prefix: string) | Payload(value: T)

  datatype Reply<T> = Reply(status: int, body: Body<T>)

  /** `fs.existsSync(p) && fs.unlinkSync(p)` for a stored path that is set (truthy). */
  function RemoveIfSet(files: set<string>, stored: Option<string>): (r: set<string>)
    ensures StrTruthy(stored) ==> r == files - {stored.value}
    ensures !StrTruthy(stored) ==> r == files
  {
    if StrTruthy(stored) && stored.value in files then files - {stored.value} else files
  }

  /** One part of a multipart request: an uploaded file, with the field it was sent
      under, its original name and the `Date.now()` value read when it is written, or a
      text field with its value and what `parseInt(value, 10)` reads from it. */
  datatype Part =
    | FilePart(fieldname: string, filename: string, stamp: nat)
    | FieldPart(fieldname: string, value: string, parsed: Num)

  predicate IsFileFor(p: Part, key: string) {
    p.FilePart? && p.fieldname == key
  }

  predicate IsFieldFor(p: Part, key: string) {
    p.FieldPart? && p.fieldname == key
  }

  /** The path an upload is stored under: `${dir}${Date.now()}-${originalName}`. */
  function StoredPath(dir: string, stamp: nat, filename: string): (r: string)
    ensures StartsWith(r, dir) && EndsWith(r, "-" + filename)
  {
    var r := dir + NatToDecimal(stamp) + "-" + filename;
    assert r[..|dir|] == dir;
    assert r[|r| - |"-" + filename|..] == "-" + filename;
    r
  }

  const BookUploads: string := "/uploads/books/"
  const AuthorUploads: string := "/uploads/"

  /** Two uploads get the same stored path only when they were written at the same
      millisecond under the same original name. */
  lemma StoredPathInjective(dir: string, s1: nat, n1: string, s2: nat, n2: string)
    requires StoredPath(dir, s1, n1) == StoredPath(dir, s2, n2)
    ensures s1 == s2 && n1 == n2
  {
    var d1, d2 := NatToDecimal(s1), NatToDecimal(s2);
    var r1, r2 := dir + d1 + "-" + n1, dir + d2 + "-" + n2;
    assert r1[|dir|..] == d1 + "-" + n1;
    assert r2[|dir|..] == d2 + "-" + n2;
    DigitsDashUnique(d1, n1, d2, n2);
    NatToDecimalInjective(s1, s2);
  }

  /** A book upload and an author image never share a stored path: after "/uploads/" the
      one continues with "books/", the other with a digit. */
  lemma BookAndAuthorUploadsDisjoint(s1: nat, n1: string, s2: nat, n2: string)
    ensures StoredPath(BookUploads, s1, n1) != StoredPath(AuthorUploads, s2, n2)
  {
    var b, a := StoredPath(BookUploads, s1, n1), StoredPath(AuthorUploads, s2, n2);
    assert b[9] == 'b';
    assert a[9] == NatToDecimal(s2)[0];
  }
}
