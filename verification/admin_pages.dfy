/** The two admin pages, Books and Authors. Both keep one page of rows from the list
    endpoint with the page number, page size, row count and page count; both delete a
    row after confirmation, create a row from a modal form sent as multipart form data,
    and reset to page 1 after a create or a page-size change. */
module AdminPages {
  import opened Values
  import opened Paging
  import opened Store
  import AddBookForm
  import BookRoutes
  import AuthorRoutes

  /** What a list request returns: the body's `data` and count fields (`None` when the
      field is missing), or nothing at all. `total` is `totalBooks` on the Books page and
      `totalAuthors` on the Authors page. */
  datatype ListFetch<T> =
    | Fetched(data: Option<seq<T>>, total: Option<int>, totalPages: Option<int>)
    | FetchFailed

  /** The page and page size a list request asks for. */
  datatype ListRequest = ListRequest(page: int, limit: int)

  /** How a delete request ends. */
  datatype DeleteOutcome = DeleteOk | DeleteRefused | DeleteUnreachable

  const InitialLimit: int := 5

  /** The state of one admin page. */
  class AdminList<T> {
    var rows: seq<T>
    var loading: bool
    var page: int
    var limit: int
    var total: int
    var totalPages: int
    var modalOpen: bool

    constructor()
      ensures rows == [] && !loading && page == 1 && limit == InitialLimit
      ensures total == 0 && totalPages == 0 && !modalOpen
    {
      rows := [];
      loading := false;
      page := 1;
      limit := InitialLimit;
      total := 0;
      totalPages := 0;
      modalOpen := false;
    }

    /** Page number and page size are both positive. */
    ghost predicate Valid()
      reads this
    {
      page >= 1 && limit >= 1
    }

    /** The table after the list request answered `resp`: its rows and counts, with a
        missing field read as no rows or zero, or an empty table when the request failed. */
    ghost predicate Holds(resp: ListFetch<T>)
      reads this
    {
      && (resp.Fetched? ==>
            && rows == resp.data.GetOr([])
            && total == resp.total.GetOr(0)
            && totalPages == resp.totalPages.GetOr(0))
      && (resp.FetchFailed? ==> rows == [] && total == 0 && totalPages == 0)
    }

    /** `fetchBooks(currentPage, perPage)` / `fetchAuthors(...)`: missing fields read as
        no rows and zero counts; a failed request clears the table. The page number and
        page size are not changed. */
    method Fetch(currentPage: int, perPage: int, resp: ListFetch<T>) returns (request: ListRequest)
      modifies this
      ensures request == ListRequest(currentPage, perPage)
      ensures page == old(page) && limit == old(limit) && modalOpen == old(modalOpen) && !loading
      ensures Holds(resp)
    {
      loading := true;
      request := ListRequest(currentPage, perPage);
      match resp {
        case Fetched(data, count, pages) =>
          rows := data.GetOr([]);
          total := count.GetOr(0);
          totalPages := pages.GetOr(0);
        case FetchFailed =>
          rows := [];
          total := 0;
          totalPages := 0;
      }
      loading := false;
    }

    /** `handleDelete`: nothing happens unless the user confirms. After a successful
        delete, a page showing a single row beyond the first steps back one page and
        reloads it; otherwise the same page is reloaded. A refused or failed delete only
        raises an alert. */
    method HandleDelete(confirmed: bool, outcome: DeleteOutcome, resp: ListFetch<T>)
      returns (reload: Option<ListRequest>)
      modifies this
      ensures !confirmed || !outcome.DeleteOk? ==>
        (&& reload.None? && rows == old(rows) && page == old(page) && total == old(total)
         && totalPages == old(totalPages) && loading == old(loading))
      ensures confirmed && outcome.DeleteOk? && |old(rows)| == 1 && old(page) > 1 ==>
        page == old(page) - 1 && reload == Some(ListRequest(old(page) - 1, old(limit)))
      ensures confirmed && outcome.DeleteOk? && !(|old(rows)| == 1 && old(page) > 1) ==>
        page == old(page) && reload == Some(ListRequest(old(page), old(limit)))
      ensures confirmed && outcome.DeleteOk? ==> Holds(resp) && !loading
      ensures limit == old(limit) && modalOpen == old(modalOpen)
      ensures old(Valid()) ==> Valid()
    {
      if !confirmed {
        return None;
      }
      match outcome {
        case DeleteOk =>
          if |rows| == 1 && page > 1 {
            page := page - 1;
            var sent := Fetch(page, limit, resp);
            reload := Some(sent);
          } else {
            var sent := Fetch(page, limit, resp);
            reload := Some(sent);
          }
        case DeleteRefused =>
          reload := None;
        case DeleteUnreachable =>
          reload := None;
      }
    }

    /** The table's page buttons (`onPageChange={setPage}`). */
    method ChangePage(p: int)
      modifies this
      ensures page == p && limit == old(limit) && rows == old(rows) && total == old(total)
      ensures totalPages == old(totalPages) && loading == old(loading) && modalOpen == old(modalOpen)
      ensures p >= 1 && old(Valid()) ==> Valid()
    {
      page := p;
    }

    /** A new page size takes effect from page 1. */
    method ChangeLimit(newLimit: int)
      modifies this
      ensures limit == newLimit && page == 1
      ensures rows == old(rows) && total == old(total) && totalPages == old(totalPages)
      ensures loading == old(loading) && modalOpen == old(modalOpen)
      ensures newLimit >= 1 ==> Valid()
    {
      limit := newLimit;
      page := 1;
    }

    method OpenForm()
      modifies this
      ensures modalOpen && page == old(page) && limit == old(limit) && rows == old(rows)
      ensures total == old(total) && totalPages == old(totalPages) && loading == old(loading)
    {
      modalOpen := true;
    }

    /** The create request has ended: on success the modal closes and page 1 is
        reloaded; on failure only an alert is raised. */
    method Created(ok: bool, resp: ListFetch<T>) returns (reload: Option<ListRequest>)
      modifies this
      ensures ok ==> !modalOpen && page == 1 && reload == Some(ListRequest(1, old(limit)))
      ensures ok ==> Holds(resp) && !loading
      ensures !ok ==>
        (&& reload.None? && modalOpen == old(modalOpen) && page == old(page)
         && rows == old(rows) && total == old(total) && totalPages == old(totalPages)
         && loading == old(loading))
      ensures limit == old(limit)
      ensures old(Valid()) ==> Valid()
    {
      if ok {
        modalOpen := false;
        page := 1;
        var sent := Fetch(1, limit, resp);
        reload := Some(sent);
      } else {
        reload := None;
      }
    }
  }

  /** When pages hold `limit >= 2` rows, a page beyond the first that shows a single row
      is the last page, and once that row is gone the previous page is the last one: the
      step back lands on a page that exists. */
  lemma StepBackLandsOnLastPage<T>(table: seq<T>, p: nat, limit: nat)
    requires p >= 2 && limit >= 2 && |PageSlice(table, p, limit)| == 1
    ensures |table| - 1 == (p - 1) * limit
    ensures CeilDiv(|table| - 1, limit) == p - 1
  {
    PageSliceLength(table, p, limit);
    CeilDivOfMultiple(p - 1, limit);
  }

  /** A page that shows at least two rows still exists after one of them is deleted,
      so reloading the same page is right. */
  lemma SamePageStillExists<T>(table: seq<T>, p: nat, limit: nat)
    requires p >= 1 && limit >= 1 && |PageSlice(table, p, limit)| >= 2
    ensures 1 <= p <= CeilDiv(|table| - 1, limit)
  {
    PageSliceLength(table, p, limit);
    CeilDivAbove(|table| - 1, p - 1, limit);
  }

  /** With `a * d < b * d` and a positive `d`, `a < b`. */
  lemma MulCancelLess(a: int, b: int, d: int)
    requires d > 0 && a * d < b * d
    ensures a < b
  {
    if a >= b {
      MulMonotone(b, a, d);
    }
  }

  lemma MulMonotone(a: int, b: int, d: int)
    requires d > 0 && a <= b
    ensures a * d <= b * d
  {
    assert b * d - a * d == (b - a) * d;
  }

  /** `k * d` items fill exactly `k` pages of `d`. */
  lemma CeilDivOfMultiple(k: nat, d: int)
    requires d >= 1
    ensures CeilDiv(k * d, d) == k
  {
    var r := CeilDiv(k * d, d);
    MulCancelLess(r - 1, k, d);
    if r > k {
      MulMonotone(k, r - 1, d);
    }
  }

  /** More than `k * d` items need more than `k` pages of `d`. */
  lemma CeilDivAbove(n: nat, k: nat, d: int)
    requires d >= 1 && n > k * d
    ensures CeilDiv(n, d) >= k + 1
  {
    var r := CeilDiv(n, d);
    MulCancelLess(k, r, d);
  }

  /** The number of rows on a page. */
  lemma PageSliceLength<T>(table: seq<T>, p: nat, limit: nat)
    requires p >= 1 && limit >= 1
    ensures (p - 1) * limit >= |table| ==> |PageSlice(table, p, limit)| == 0
    ensures (p - 1) * limit < |table| ==> |PageSlice(table, p, limit)| == Min(limit, |table| - (p - 1) * limit)
  {
    assert p * limit == (p - 1) * limit + limit;
  }

  // ---------------------------------------------------------------------------
  // Form data

  /** One `FormData` entry: a text value, a number sent as `String(Number(x))`, or a
      file. */
  datatype Entry =
    | TextEntry(key: string, value: string)
    | NumberEntry(key: string, n: Num)
    | FileEntry(key: string, file: AddBookForm.FileInfo)

  /** `String(n)` for an integer or NaN. */
  function NumText(n: Num): (s: string)
    ensures n.NaN? ==> s == "NaN"
    ensures n.Int? && n.value >= 0 ==> s == NatToDecimal(n.value)
  {
    match n
    case NaN => "NaN"
    case Int(i) => if i < 0 then "-" + NatToDecimal(-i) else NatToDecimal(i)
  }

  /** A number input read with `valueAsNumber`: empty is NaN. */
  function InputNumber(x: Option<int>): (n: Num)
    ensures n.Int? <==> x.Some?
    ensures n.Int? ==> n.value == x.value
  {
    if x.Some? then Int(x.value) else NaN
  }

  /** The Books page's `FormData`: title and description, the year only when truthy,
      the author id always, then each file only when one was picked. */
  function BookEntries(f: AddBookForm.FormInput): seq<Entry> {
    var withText := [TextEntry("title", f.title), TextEntry("description", f.description)];
    var withYear :=
      if NumTruthy(InputNumber(f.publishedYear)) then withText + [NumberEntry("publishedYear", InputNumber(f.publishedYear))]
      else withText;
    var withAuthor := withYear + [NumberEntry("authorId", InputNumber(f.authorId))];
    var withCover := if f.coverImage != [] then withAuthor + [FileEntry("coverImage", f.coverImage[0])] else withAuthor;
    if f.pdf != [] then withCover + [FileEntry("pdf", f.pdf[0])] else withCover
  }

  /** `handleFormSubmit`'s successive `append` calls on the Books page. */
  method BuildBookFormData(f: AddBookForm.FormInput) returns (data: seq<Entry>)
    ensures data == BookEntries(f)
    ensures |data| >= 3 && data[0] == TextEntry("title", f.title) && data[1] == TextEntry("description", f.description)
  {
    data := [];
    data := data + [TextEntry("title", f.title)];
    data := data + [TextEntry("description", f.description)];
    var year := InputNumber(f.publishedYear);
    if NumTruthy(year) {
      data := data + [NumberEntry("publishedYear", year)];
    }
    data := data + [NumberEntry("authorId", InputNumber(f.authorId))];
    if f.coverImage != [] {
      data := data + [FileEntry("coverImage", f.coverImage[0])];
    }
    if f.pdf != [] {
      data := data + [FileEntry("pdf", f.pdf[0])];
    }
  }

  /** The Authors page's form. */
  datatype AuthorInput = AuthorInput(fullName: string, bio: string, image: seq<AddBookForm.FileInfo>)

  /** The Authors page's `FormData`: the form's `fullName` under "name", the bio, and
      the image only when one was picked. */
  function AuthorEntries(a: AuthorInput): seq<Entry> {
    var withText := [TextEntry("name", a.fullName), TextEntry("bio", a.bio)];
    if a.image != [] then withText + [FileEntry("image", a.image[0])] else withText
  }

  method BuildAuthorFormData(a: AuthorInput) returns (data: seq<Entry>)
    ensures data == AuthorEntries(a)
    ensures |data| >= 2 && data[0] == TextEntry("name", a.fullName) && data[1] == TextEntry("bio", a.bio)
  {
    data := [];
    data := data + [TextEntry("name", a.fullName)];
    data := data + [TextEntry("bio", a.bio)];
    if a.image != [] {
      data := data + [FileEntry("image", a.image[0])];
    }
  }

  /** How the server reads one entry: a file is stored under `stamp`; a text field keeps
      its text, and `parse` stands for the server's `parseInt` of it; a number sent as
      `String(Number(x))` parses back to the same number. */
  function ToPart(e: Entry, stamp: nat, parse: string -> Num): Part {
    match e
    case TextEntry(key, value) => FieldPart(key, value, parse(value))
    case NumberEntry(key, n) => FieldPart(key, NumText(n), n)
    case FileEntry(key, file) => FilePart(key, file.name, stamp)
  }

  /** The multipart parts of a `FormData`, in order. */
  function Transmit(es: seq<Entry>, stamp: nat, parse: string -> Num): (parts: seq<Part>)
    ensures |parts| == |es|
    ensures forall i :: 0 <= i < |es| ==> parts[i] == ToPart(es[i], stamp, parse)
    decreases |es|
  {
    if es == [] then [] else Transmit(es[..|es| - 1], stamp, parse) + [ToPart(es[|es| - 1], stamp, parse)]
  }

  lemma TransmitSnoc(es: seq<Entry>, e: Entry, stamp: nat, parse: string -> Num)
    ensures Transmit(es + [e], stamp, parse) == Transmit(es, stamp, parse) + [ToPart(e, stamp, parse)]
  {
    assert (es + [e])[..|es|] == es;
  }

  lemma BookAbsorbSnoc(d: BookRoutes.Draft, parts: seq<Part>, p: Part)
    ensures BookRoutes.AbsorbAll(d, parts + [p]) == BookRoutes.Absorb(BookRoutes.AbsorbAll(d, parts), p)
  {
    assert (parts + [p])[..|parts|] == parts;
  }

  lemma AuthorAbsorbSnoc(f: AuthorRoutes.Fields, parts: seq<Part>, p: Part)
    ensures AuthorRoutes.AbsorbAll(f, parts + [p]) == AuthorRoutes.Absorb(AuthorRoutes.AbsorbAll(f, parts), p)
  {
    assert (parts + [p])[..|parts|] == parts;
  }

  /** The book create handler's variables after it has read the admin form: title,
      description, the year when it was sent, the author id as sent, and the stored
      path of each picked file. */
  function ExpectedDraft(f: AddBookForm.FormInput, stamp: nat): BookRoutes.Draft {
    var year := InputNumber(f.publishedYear);
    BookRoutes.Draft(
      Some(f.title), Some(f.description),
      if NumTruthy(year) then Some(year) else None,
      Some(InputNumber(f.authorId)),
      if f.pdf != [] then Some(BookRoutes.BookPath(stamp, f.pdf[0].name)) else None,
      if f.coverImage != [] then Some(BookRoutes.BookPath(stamp, f.coverImage[0].name)) else None)
  }

  /** Reading one more entry is one more step of the create handler's loop. */
  lemma BookStep(d: BookRoutes.Draft, es: seq<Entry>, e: Entry, stamp: nat, parse: string -> Num)
    ensures BookRoutes.AbsorbAll(d, Transmit(es + [e], stamp, parse))
      == BookRoutes.Absorb(BookRoutes.AbsorbAll(d, Transmit(es, stamp, parse)), ToPart(e, stamp, parse))
  {
    TransmitSnoc(es, e, stamp, parse);
    BookAbsorbSnoc(d, Transmit(es, stamp, parse), ToPart(e, stamp, parse));
  }

  /** The two text entries set title and description. */
  lemma BookTextStage(f: AddBookForm.FormInput, stamp: nat, parse: string -> Num)
    ensures BookRoutes.AbsorbAll(BookRoutes.CreateStart,
      Transmit([TextEntry("title", f.title), TextEntry("description", f.description)], stamp, parse))
      == BookRoutes.Draft(Some(f.title), Some(f.description), None, None, None, None)
  {
    var e1 := [TextEntry("title", f.title)];
    BookStep(BookRoutes.CreateStart, [], TextEntry("title", f.title), stamp, parse);
    assert [] + [TextEntry("title", f.title)] == e1;
    BookStep(BookRoutes.CreateStart, e1, TextEntry("description", f.description), stamp, parse);
    assert e1 + [TextEntry("description", f.description)] == [TextEntry("title", f.title), TextEntry("description", f.description)];
  }

  lemma BookNumberStep(d: BookRoutes.Draft, es: seq<Entry>, key: string, n: Num, stamp: nat, parse: string -> Num)
    requires key == "publishedYear" || key == "authorId"
    ensures var r := BookRoutes.AbsorbAll(d, Transmit(es + [NumberEntry(key, n)], stamp, parse));
      var before := BookRoutes.AbsorbAll(d, Transmit(es, stamp, parse));
      r == if key == "publishedYear" then before.(publishedYear := Some(n)) else before.(authorId := Some(n))
  {
    BookStep(d, es, NumberEntry(key, n), stamp, parse);
  }

  lemma BookFileStep(d: BookRoutes.Draft, es: seq<Entry>, key: string, file: AddBookForm.FileInfo, stamp: nat, parse: string -> Num)
    requires key == "pdf" || key == "coverImage"
    ensures var r := BookRoutes.AbsorbAll(d, Transmit(es + [FileEntry(key, file)], stamp, parse));
      var before := BookRoutes.AbsorbAll(d, Transmit(es, stamp, parse));
      r == if key == "pdf" then before.(pdf := Some(BookRoutes.BookPath(stamp, file.name)))
           else before.(coverImage := Some(BookRoutes.BookPath(stamp, file.name)))
  {
    BookStep(d, es, FileEntry(key, file), stamp, parse);
  }

  /** Every field the Books page sends lands in the create handler's slot of the same
      name, with nothing lost on the way. */
  lemma BookFormFillsCreateDraft(f: AddBookForm.FormInput, stamp: nat, parse: string -> Num)
    ensures BookRoutes.CreateDraft(BookRoutes.Multipart(Transmit(BookEntries(f), stamp, parse)))
      == ExpectedDraft(f, stamp)
  {
    var start := BookRoutes.CreateStart;
    var year := InputNumber(f.publishedYear);
    var e2 := [TextEntry("title", f.title), TextEntry("description", f.description)];
    BookTextStage(f, stamp, parse);
    var e3 := if NumTruthy(year) then e2 + [NumberEntry("publishedYear", year)] else e2;
    if NumTruthy(year) {
      BookNumberStep(start, e2, "publishedYear", year, stamp, parse);
    }
    var e4 := e3 + [NumberEntry("authorId", InputNumber(f.authorId))];
    BookNumberStep(start, e3, "authorId", InputNumber(f.authorId), stamp, parse);
    var e5 := if f.coverImage != [] then e4 + [FileEntry("coverImage", f.coverImage[0])] else e4;
    if f.coverImage != [] {
      BookFileStep(start, e4, "coverImage", f.coverImage[0], stamp, parse);
    }
    if f.pdf != [] {
      BookFileStep(start, e5, "pdf", f.pdf[0], stamp, parse);
    }
  }

  /** A form that passes the add-book form's validation, for an author id other than
      0, gets past the create handler's "Title and authorId required" check, and its
      year, when sent, is a number the store accepts. */
  lemma AcceptableFormPassesCreateCheck(f: AddBookForm.FormInput, currentYear: nat, stamp: nat, parse: string -> Num)
    requires AddBookForm.Acceptable(f, currentYear) && f.authorId.value != 0
    ensures var d := BookRoutes.CreateDraft(BookRoutes.Multipart(Transmit(BookEntries(f), stamp, parse)));
      && StrTruthy(d.title) && OptNumTruthy(d.authorId)
      && d.authorId.value == Int(f.authorId.value)
      && (d.publishedYear.Some? ==> d.publishedYear.value.Int?)
      && d.pdf.Some? && d.coverImage.Some?
  {
    BookFormFillsCreateDraft(f, stamp, parse);
  }

  /** The name and bio parts the Authors page always sends fill the name and the bio. */
  lemma AuthorTextStage(a: AuthorInput, stamp: nat, parse: string -> Num)
    ensures AuthorRoutes.AbsorbAll(AuthorRoutes.FieldsStart,
                                   Transmit([TextEntry("name", a.fullName), TextEntry("bio", a.bio)], stamp, parse))
      == AuthorRoutes.Fields(a.fullName, a.bio, None)
  {
    var parts := Transmit([TextEntry("name", a.fullName), TextEntry("bio", a.bio)], stamp, parse);
    assert parts[0] == FieldPart("name", a.fullName, parse(a.fullName));
    assert parts[1] == FieldPart("bio", a.bio, parse(a.bio));
    var first := parts[..1];
    assert first[..0] == [] && first[0] == parts[0];
    assert AuthorRoutes.AbsorbAll(AuthorRoutes.FieldsStart, first[..0]) == AuthorRoutes.FieldsStart;
    assert AuthorRoutes.AbsorbAll(AuthorRoutes.FieldsStart, first) == AuthorRoutes.Fields(a.fullName, "", None);
    assert parts[..|parts| - 1] == first;
  }


  /** The author create handler reads the Authors page's form as: name from `fullName`,
      the bio, and the stored image path when an image was picked. */
  lemma AuthorFormFillsCreateFields(a: AuthorInput, stamp: nat, parse: string -> Num)
    ensures AuthorRoutes.AbsorbAll(AuthorRoutes.FieldsStart, Transmit(AuthorEntries(a), stamp, parse))
      == AuthorRoutes.Fields(a.fullName, a.bio,
                             if a.image != [] then Some(AuthorRoutes.ImagePath(stamp, a.image[0].name)) else None)
  {
    var e2 := [TextEntry("name", a.fullName), TextEntry("bio", a.bio)];
    AuthorTextStage(a, stamp, parse);
    if a.image != [] {
      TransmitSnoc(e2, FileEntry("image", a.image[0]), stamp, parse);
      AuthorAbsorbSnoc(AuthorRoutes.FieldsStart, Transmit(e2, stamp, parse), ToPart(FileEntry("image", a.image[0]), stamp, parse));
    }
  }

}
