/** The public e-book shelf: it shows the book list ten at a time, appends the next page
    on "Load More", and opens or downloads a book's PDF. The page also defines a
    search-term handler and a filter over the shown books, but renders no input that
    calls the handler, so on the page the term stays empty and the filter keeps every
    book; both are modelled as the code defines them. */
module Ebook {
  import opened Values
  import opened Paging
  import opened Seqs
  import opened Feed
  import Urls

  /** A book as the shelf reads it from the list endpoint. */
  datatype EbookBook = EbookBook(
    id: int,
    title: string,
    authorName: string,
    coverImage: Option<string>,
    pdf: Option<string>)

  const PageSize: nat := 10
  const InvalidData: string := "Invalid data format received"
  const LoadFailed: string := "Failed to load books. Please try again later."

  /** The request for page `pageNum`. */
  function BooksRequest(pageNum: nat): (url: string)
    ensures StartsWith(url, Urls.ApiHost + "/books?page=")
    ensures EndsWith(url, "&limit=10")
  {
    var prefix := Urls.ApiHost + "/books?page=";
    var url := prefix + NatToDecimal(pageNum) + "&limit=10";
    assert url[..|prefix|] == prefix;
    assert url[|url| - 9..] == "&limit=10";
    url
  }

  /** Different pages are different requests. */
  lemma BooksRequestInjective(a: nat, b: nat)
    requires BooksRequest(a) == BooksRequest(b)
    ensures a == b
  {
    var prefix := Urls.ApiHost + "/books?page=";
    var da, db := NatToDecimal(a), NatToDecimal(b);
    var ra, rb := BooksRequest(a), BooksRequest(b);
    assert ra[|prefix|..|ra| - 9] == da;
    assert rb[|prefix|..|rb| - 9] == db;
    assert |da| == |db|;
    NatToDecimalInjective(a, b);
  }

  /** The shelf's state. */
  class EbookView {
    var books: seq<EbookBook>
    var loading: bool
    var loadingMore: bool
    var page: nat
    var hasMore: bool
    var error: Option<string>
    var searchTerm: string

    constructor()
      ensures books == [] && loading && !loadingMore && page == 1 && hasMore
      ensures error.None? && searchTerm == ""
    {
      books := [];
      loading := true;
      loadingMore := false;
      page := 1;
      hasMore := true;
      error := None;
      searchTerm := "";
    }

    /** `fetchBooks(pageNum, isLoadMore)` with `resp` standing for what the request
        returns. An accepted page is appended or replaces the list and decides
        `hasMore`; otherwise the list stays and the error is set. `page` is not touched. */
    method FetchBooks(pageNum: nat, isLoadMore: bool, resp: PageResponse<EbookBook>) returns (request: string)
      modifies this
      ensures request == BooksRequest(pageNum)
      ensures page == old(page) && searchTerm == old(searchTerm)
      ensures !loading && !loadingMore
      ensures resp.Received? ==>
        books == Accumulate(old(books), isLoadMore, resp.data) && hasMore == HasMore(resp) && error.None?
      ensures !resp.Received? ==> books == old(books) && hasMore == old(hasMore)
      ensures resp.Malformed? ==> error == Some(InvalidData)
      ensures resp.Unreachable? ==> error == Some(LoadFailed)
    {
      if isLoadMore {
        loadingMore := true;
      } else {
        loading := true;
      }
      error := None;
      request := BooksRequest(pageNum);
      match resp {
        case Received(data, _, _) =>
          books := Accumulate(books, isLoadMore, data);
          hasMore := HasMore(resp);
        case Malformed =>
          error := Some(InvalidData);
        case Unreachable =>
          error := Some(LoadFailed);
      }
      loading := false;
      loadingMore := false;
    }

    /** The first load and the "Retry" button: page 1, replacing the list. */
    method Reload(resp: PageResponse<EbookBook>) returns (request: string)
      modifies this
      ensures request == BooksRequest(1)
      ensures page == old(page) && searchTerm == old(searchTerm) && !loading && !loadingMore
      ensures resp.Received? ==> books == resp.data && hasMore == HasMore(resp) && error.None?
      ensures !resp.Received? ==> books == old(books) && hasMore == old(hasMore) && error.Some?
    {
      request := FetchBooks(1, false, resp);
    }

    /** `handleLoadMore`: the page number advances first, whatever the request then
        returns. */
    method HandleLoadMore(resp: PageResponse<EbookBook>) returns (request: string)
      modifies this
      ensures page == old(page) + 1 && request == BooksRequest(old(page) + 1)
      ensures searchTerm == old(searchTerm) && !loading && !loadingMore
      ensures resp.Received? ==> books == old(books) + resp.data && hasMore == HasMore(resp) && error.None?
      ensures !resp.Received? ==> books == old(books) && hasMore == old(hasMore) && error.Some?
    {
      page := page + 1;
      request := FetchBooks(page, true, resp);
    }

    method SetSearchTerm(term: string)
      modifies this
      ensures searchTerm == term
      ensures books == old(books) && page == old(page) && hasMore == old(hasMore)
      ensures error == old(error) && loading == old(loading) && loadingMore == old(loadingMore)
    {
      searchTerm := term;
    }

    /** The shown list is exactly the first `page` pages of `table`. */
    ghost predicate InStep(table: seq<EbookBook>)
      reads this
    {
      books == ConcatPages(table, PageSize, page)
    }

    /** `fetchBooks` with the page number kept in step: `page` becomes `pageNum` only
        once that page has been accepted. */
    method FetchBooksInStep(pageNum: nat, isLoadMore: bool, resp: PageResponse<EbookBook>) returns (request: string)
      modifies this
      ensures request == BooksRequest(pageNum)
      ensures resp.Received? ==>
        page == pageNum && books == Accumulate(old(books), isLoadMore, resp.data) && hasMore == HasMore(resp)
      ensures resp.Received? ==> error.None?
      ensures !resp.Received? ==> page == old(page) && books == old(books) && hasMore == old(hasMore)
      ensures !resp.Received? ==> error.Some?
      ensures searchTerm == old(searchTerm) && !loading && !loadingMore
    {
      request := FetchBooks(pageNum, isLoadMore, resp);
      if resp.Received? {
        page := pageNum;
      }
    }

    /** Load more, kept in step: with the backend answering from `table`, a shelf that
        showed the first `page` pages shows the first `page` pages afterwards too,
        whether the request succeeds or fails. */
    method HandleLoadMoreInStep(ghost table: seq<EbookBook>, resp: PageResponse<EbookBook>) returns (request: string)
      modifies this
      ensures request == BooksRequest(old(page) + 1)
      ensures old(InStep(table)) && Answers(resp, table, old(page) + 1) ==> InStep(table)
      ensures resp.Received? ==> page == old(page) + 1
      ensures !resp.Received? ==> page == old(page) && books == old(books)
    {
      request := FetchBooksInStep(page + 1, true, resp);
    }

    /** Retry, kept in step: an accepted first page always brings the shelf in step. */
    method ReloadInStep(ghost table: seq<EbookBook>, resp: PageResponse<EbookBook>) returns (request: string)
      modifies this
      ensures request == BooksRequest(1)
      ensures resp.Received? && Answers(resp, table, 1) ==> InStep(table) && page == 1
      ensures old(InStep(table)) && Answers(resp, table, 1) ==> InStep(table)
    {
      request := FetchBooksInStep(1, false, resp);
      if resp.Received? && Answers(resp, table, 1) {
        assert ConcatPages(table, PageSize, 1) == ConcatPages(table, PageSize, 0) + PageSlice(table, 1, PageSize);
      }
    }
  }

  /** What the list endpoint returns for page `n` of `table`, ten per page. */
  function ServerPage(table: seq<EbookBook>, n: nat): PageResponse<EbookBook>
    requires n >= 1
  {
    Received(PageSlice(table, n, PageSize), n, CeilDiv(|table|, PageSize))
  }

  /** `resp` is a failure or the backend's answer for page `n` of `table`. */
  predicate Answers(resp: PageResponse<EbookBook>, table: seq<EbookBook>, n: nat) {
    resp.Received? ==> n >= 1 && resp == ServerPage(table, n)
  }

  /** As written, one failed "Load More" makes the next one skip a page: after page 1 is
      shown and the request for page 2 fails, the next click asks for page 3 and the
      shelf shows pages 1 and 3. */
  method FailedLoadMoreSkipsAPage(table: seq<EbookBook>) returns (shown: seq<EbookBook>, asked: string)
    ensures asked == BooksRequest(3)
    ensures shown == PageSlice(table, 1, PageSize) + PageSlice(table, 3, PageSize)
  {
    var view := new EbookView();
    var _ := view.Reload(ServerPage(table, 1));
    var _ := view.HandleLoadMore(Unreachable);
    assert view.page == 2;
    asked := view.HandleLoadMore(ServerPage(table, 3));
    shown := view.books;
  }

  /** The same clicks with the corrected page bookkeeping: the failed request leaves the
      page at 1, and the next click asks for page 2 and shows pages 1 and 2. */
  method FailedLoadMoreInStep(table: seq<EbookBook>) returns (shown: seq<EbookBook>, asked: string)
    ensures asked == BooksRequest(2)
    ensures shown == ConcatPages(table, PageSize, 2)
  {
    var view := new EbookView();
    var _ := view.ReloadInStep(table, ServerPage(table, 1));
    var _ := view.HandleLoadMoreInStep(table, Unreachable);
    asked := view.HandleLoadMoreInStep(table, ServerPage(table, 2));
    shown := view.books;
  }

  /** The filter's test: the title or the author's name contains the term, ignoring
      case. No rendered input sets the term, so on the page it is always empty. */
  function Matches(term: string): EbookBook -> bool {
    (b: EbookBook) => ContainsIgnoreCase(b.title, term) || ContainsIgnoreCase(b.authorName, term)
  }

  /** `filteredBooks`. */
  function FilteredBooks(books: seq<EbookBook>, term: string): seq<EbookBook> {
    Filter(books, Matches(term))
  }

  /** The filtered list keeps the shown order and holds exactly the shown books that
      match. */
  lemma FilteredBooksExact(books: seq<EbookBook>, term: string)
    ensures IsSubsequence(FilteredBooks(books, term), books)
    ensures forall b :: b in FilteredBooks(books, term) <==>
      b in books && (ContainsIgnoreCase(b.title, term) || ContainsIgnoreCase(b.authorName, term))
  {
    FilterIsSubsequence(books, Matches(term));
    forall b
      ensures b in FilteredBooks(books, term) <==>
        b in books && (ContainsIgnoreCase(b.title, term) || ContainsIgnoreCase(b.authorName, term))
    {
      FilterMembership(books, Matches(term), b);
    }
  }

  /** An empty search term shows every loaded book. */
  lemma EmptyTermShowsAll(books: seq<EbookBook>)
    ensures FilteredBooks(books, "") == books
  {
    forall b | b in books
      ensures Matches("")(b)
    {
      EmptyTermMatchesAll(b.title);
    }
    FilterAll(books, Matches(""));
  }

  /** Opening a book: its PDF's URL, or nothing when it has no PDF. */
  function ViewTarget(book: EbookBook): (url: Option<string>)
    ensures url.Some? <==> StrTruthy(book.pdf)
    ensures url.Some? ==> url.value == Urls.Resolve(book.pdf.value)
    ensures url.Some? ==> StartsWith(url.value, "http")
  {
    if StrTruthy(book.pdf) then Some(Urls.Resolve(book.pdf.value)) else None
  }

  datatype DownloadLink = DownloadLink(href: string, fileName: string)

  /** Downloading a book: a link to its PDF saved under the book's title. */
  function Download(book: EbookBook): (link: Option<DownloadLink>)
    ensures link.Some? <==> StrTruthy(book.pdf)
    ensures link.Some? ==> link.value.fileName == book.title + ".pdf"
    ensures link.Some? ==> link.value.href == Urls.Resolve(book.pdf.value)
  {
    if StrTruthy(book.pdf) then
      Some(DownloadLink(Urls.Resolve(book.pdf.value), book.title + ".pdf"))
    else None
  }

  /** Viewing and downloading use the same URL. */
  lemma ViewAndDownloadAgree(book: EbookBook)
    ensures Download(book).Some? == ViewTarget(book).Some?
    ensures Download(book).Some? ==> Download(book).value.href == ViewTarget(book).value
  {
  }
}
