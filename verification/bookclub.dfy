/** The aggregation routes under /bookclub: the recommended books (a Fisher-Yates
    shuffle of the books with a cover, of which the first six are kept), the search over
    books and authors (query validation, type-based inclusion, relevance sort,
    truncation), and the filtered, sorted, paginated list of books by author. */
module Bookclub {
  import opened Values
  import opened Seqs
  import opened Paging
  import opened Store

  // ---------------------------------------------------------------------------
  // GET /recommended

  /** `shuffleArray`: copies the input and, for `i` from the last index down to 1, swaps
      position `i` with a position `j` in `0..i`. `Math.random` is replaced by an
      arbitrary choice of `j`, so every random outcome is covered. */
  method ShuffleArray<T>(input: seq<T>) returns (shuffled: seq<T>)
    ensures |shuffled| == |input|
    ensures multiset(shuffled) == multiset(input)
  {
    var a := new T[|input|](k requires 0 <= k < |input| => input[k]);
    assert a[..] == input;
    var i := a.Length - 1;
    while i > 0
      invariant -1 <= i < a.Length
      invariant multiset(a[..]) == multiset(input)
    {
      var j :| 0 <= j <= i;
      a[i], a[j] := a[j], a[i];
      i := i - 1;
    }
    shuffled := a[..];
  }

  function HasCover(b: Book): bool { b.coverImage.Some? }
  function LacksCover(b: Book): bool { b.coverImage.None? }

  /** The books the store returns for `where: { coverImage: { not: null } }`, in table
      order: each book with a cover, as often as it occurs in the table. */
  function WithCover(rows: seq<Book>): (r: seq<Book>)
    ensures forall b :: b in r <==> b in rows && b.coverImage.Some?
    ensures multiset(r) <= multiset(rows)
  {
    var r := Filter(rows, HasCover);
    FilterSplitPermutation(rows, HasCover, LacksCover);
    assert forall b :: b in r <==> b in rows && b.coverImage.Some? by {
      forall b ensures b in r <==> b in rows && b.coverImage.Some? {
        FilterMembership(rows, HasCover, b);
      }
    }
    r
  }

  const RecommendedCount: int := 6

  /** GET /recommended over the book table `rows`: at most six books, all with a cover,
      none taken more often than it occurs in the table. */
  method Recommended(rows: seq<Book>) returns (recommended: seq<Book>)
    ensures |recommended| == Min(RecommendedCount, |WithCover(rows)|)
    ensures forall b :: b in recommended ==> b in rows && b.coverImage.Some?
    ensures multiset(recommended) <= multiset(WithCover(rows)) <= multiset(rows)
  {
    var allBooks := WithCover(rows);
    var shuffledBooks := ShuffleArray(allBooks);
    recommended := shuffledBooks[..Min(RecommendedCount, |shuffledBooks|)];
    assert shuffledBooks == recommended + shuffledBooks[|recommended|..];
    assert multiset(recommended) <= multiset(shuffledBooks);
    forall b | b in recommended ensures b in rows && b.coverImage.Some? {
      assert b in multiset(shuffledBooks);
    }
  }

  /** The table rows all have different ids. */
  ghost predicate DistinctIds(rows: seq<Book>) {
    forall i, j :: 0 <= i < j < |rows| ==> rows[i].id != rows[j].id
  }

  lemma {:induction false} DistinctIdsOccurOnce(rows: seq<Book>, x: Book)
    requires DistinctIds(rows)
    ensures multiset(rows)[x] <= 1
  {
    if rows != [] {
      var init := rows[..|rows| - 1];
      assert rows == init + [rows[|rows| - 1]];
      DistinctIdsOccurOnce(init, x);
      if x == rows[|rows| - 1] {
        assert x !in init;
      }
    }
  }

  lemma RepeatedOccursTwice(s: seq<Book>, i: int, j: int)
    requires 0 <= i < j < |s| && s[i] == s[j]
    ensures multiset(s)[s[i]] >= 2
  {
    assert s == s[..j] + s[j..];
    assert s[i] in s[..j] && s[j] in s[j..];
  }

  /** When the table's books have distinct ids, so have the recommended ones: no book
      is recommended twice. */
  lemma RecommendedHasNoRepeats(rows: seq<Book>, recommended: seq<Book>)
    requires DistinctIds(rows)
    requires multiset(recommended) <= multiset(rows)
    ensures DistinctIds(recommended)
  {
    forall i, j | 0 <= i < j < |recommended| ensures recommended[i].id != recommended[j].id {
      if recommended[i].id == recommended[j].id {
        var x, y := recommended[i], recommended[j];
        assert x in multiset(recommended) && y in multiset(recommended);
        var k :| 0 <= k < |rows| && rows[k] == x;
        var l :| 0 <= l < |rows| && rows[l] == y;
        assert k == l;
        RepeatedOccursTwice(recommended, i, j);
        DistinctIdsOccurOnce(rows, x);
      }
    }
  }

  // ---------------------------------------------------------------------------
  // GET /search

  /** One entry of the search results, for a book or for an author. */
  datatype SearchResult = SearchResult(
    kind: string,
    id: int,
    title: string,
    author: string,
    description: Option<string>,
    coverImage: Option<string>,
    publishedYear: Option<int>,
    category: string)

  function BookResult(b: BookWithAuthor): (r: SearchResult)
    ensures r.kind == "book" && r.id == b.book.id && r.title == b.book.title
  {
    SearchResult("book", b.book.id, b.book.title, b.authorName, b.book.description,
                 b.book.coverImage, b.book.publishedYear, "Book")
  }

  /** An author is listed with its name as both title and author. */
  function AuthorResult(a: Author): (r: SearchResult)
    ensures r.kind == "author" && r.id == a.id && r.title == a.name && r.author == a.name
  {
    SearchResult("author", a.id, a.name, a.name, Some(a.bio), a.image, None, "Author")
  }

  /** `q` is present and its JavaScript length is at least 2. */
  predicate ValidQuery(q: Option<string>) {
    q.Some? && Utf16Length(q.value) >= 2
  }

  predicate IncludesBooks(searchType: string) {
    searchType == "all" || searchType == "book"
  }

  predicate IncludesAuthors(searchType: string) {
    searchType == "all" || searchType == "author"
  }

  /** The title contains the query, ignoring case. */
  predicate TitleMatch(r: SearchResult, q: string) {
    ContainsIgnoreCase(r.title, q)
  }

  /** The comparator's two classes as tests for `Filter`. */
  function Matching(q: string): SearchResult -> bool {
    r => TitleMatch(r, q)
  }

  function NotMatching(q: string): SearchResult -> bool {
    r => !TitleMatch(r, q)
  }

  /** The sort comparator: a title match before a non-match, otherwise a tie. */
  function Compare(a: SearchResult, b: SearchResult, q: string): (c: int)
    ensures c < 0 <==> TitleMatch(a, q) && !TitleMatch(b, q)
    ensures c > 0 <==> !TitleMatch(a, q) && TitleMatch(b, q)
  {
    if TitleMatch(a, q) && !TitleMatch(b, q) then -1
    else if !TitleMatch(a, q) && TitleMatch(b, q) then 1
    else 0
  }

  /** What `results.sort(Compare)` yields: the sort is stable, so the title matches come
      first and the others after them, each group in its original order. The result is
      a permutation of the input. */
  function RelevanceSort(results: seq<SearchResult>, q: string): (r: seq<SearchResult>)
    ensures multiset(r) == multiset(results) && |r| == |results|
  {
    FilterSplitPermutation(results, Matching(q), NotMatching(q));
    var r := Filter(results, Matching(q)) + Filter(results, NotMatching(q));
    assert |multiset(r)| == |multiset(results)|;
    r
  }

  /** The result is ordered by the comparator: every title match precedes every
      non-match. */
  lemma RelevanceSortOrdered(results: seq<SearchResult>, q: string)
    ensures var s := RelevanceSort(results, q);
      forall i, j :: 0 <= i < j < |s| ==> Compare(s[i], s[j], q) <= 0
  {
    var m := Filter(results, Matching(q));
    var n := Filter(results, NotMatching(q));
    var s := m + n;
    assert s == RelevanceSort(results, q);
    forall i, j | 0 <= i < j < |s| ensures Compare(s[i], s[j], q) <= 0 {
      if i < |m| {
        assert s[i] in m;
      } else {
        assert s[i] in n && s[j] == n[j - |m|] && s[j] in n;
      }
    }
  }

  /** The sort is stable: the title matches, and the non-matches, keep their order. */
  lemma RelevanceSortStable(results: seq<SearchResult>, q: string)
    ensures Filter(RelevanceSort(results, q), Matching(q)) == Filter(results, Matching(q))
    ensures Filter(RelevanceSort(results, q), NotMatching(q)) == Filter(results, NotMatching(q))
  {
    var p, np := Matching(q), NotMatching(q);
    var m, n := Filter(results, p), Filter(results, np);
    assert RelevanceSort(results, q) == m + n;
    FilterAppend(m, n, p);
    FilterAppend(m, n, np);
    FilterFilterSame(results, p);
    FilterFilterSame(results, np);
    FilterNone(n, p);
    FilterNone(m, np);
    assert Filter(m + n, p) == m + [];
    assert Filter(m + n, np) == [] + n;
  }

  function MapBooks(s: seq<BookWithAuthor>): (r: seq<SearchResult>)
    ensures |r| == |s| && forall i :: 0 <= i < |s| ==> r[i] == BookResult(s[i])
  {
    seq(|s|, i requires 0 <= i < |s| => BookResult(s[i]))
  }

  function MapAuthors(s: seq<Author>): (r: seq<SearchResult>)
    ensures |r| == |s| && forall i :: 0 <= i < |s| ==> r[i] == AuthorResult(s[i])
  {
    seq(|s|, i requires 0 <= i < |s| => AuthorResult(s[i]))
  }

  /** `take: n` on the store's matches, in the store's order. */
  function Take<T>(s: seq<T>, n: nat): (r: seq<T>)
    ensures |r| == Min(n, |s|) && r == s[..|r|]
  {
    s[..Min(n, |s|)]
  }

  datatype SearchReply =
    | BadRequest(message: string)
    | Found(data: seq<SearchResult>, count: nat, query: string, searchType: string)

  const DefaultSearchLimit: nat := 10

  /** The results before the sort: the books (when the type asks for books), then the
      authors (when the type asks for authors), each list cut to `limit` by the store. */
  function Merged(searchType: string, limit: nat, bookHits: seq<BookWithAuthor>, authorHits: seq<Author>): seq<SearchResult> {
    (if IncludesBooks(searchType) then MapBooks(Take(bookHits, limit)) else [])
    + (if IncludesAuthors(searchType) then MapAuthors(Take(authorHits, limit)) else [])
  }

  /** The sorted results cut to `limit`: the `data` of a successful reply. */
  function SearchData(searchType: string, limit: nat, q: string,
                      bookHits: seq<BookWithAuthor>, authorHits: seq<Author>): seq<SearchResult> {
    var sorted := RelevanceSort(Merged(searchType, limit, bookHits, authorHits), q);
    sorted[..Min(limit, |sorted|)]
  }

  /** GET /search. `bookHits` and `authorHits` are the store's case-insensitive matches
      on title/description and name/bio; `limit` is the parsed `limit` parameter. */
  method Search(query: Option<string>, searchType: Option<string>, limit: Option<nat>,
                bookHits: seq<BookWithAuthor>, authorHits: seq<Author>) returns (reply: SearchReply)
    ensures !ValidQuery(query) <==> reply == BadRequest("Search query must be at least 2 characters long")
    ensures ValidQuery(query) ==>
      (&& reply.Found?
       && reply.query == query.value && reply.searchType == searchType.GetOr("all")
       && reply.count == |Merged(searchType.GetOr("all"), limit.GetOr(DefaultSearchLimit), bookHits, authorHits)|
       && reply.data == SearchData(searchType.GetOr("all"), limit.GetOr(DefaultSearchLimit), query.value, bookHits, authorHits))
  {
    if query.None? || Utf16Length(query.value) < 2 {
      return BadRequest("Search query must be at least 2 characters long");
    }
    var q := query.value;
    var t := searchType.GetOr("all");
    var n := limit.GetOr(DefaultSearchLimit);
    var results: seq<SearchResult> := [];
    if t == "all" || t == "book" {
      results := results + MapBooks(Take(bookHits, n));
    }
    if t == "all" || t == "author" {
      results := results + MapAuthors(Take(authorHits, n));
    }
    assert results == Merged(t, n, bookHits, authorHits);
    var count := |results|;
    results := RelevanceSort(results, q);
    reply := Found(results[..Min(n, |results|)], count, q, t);
  }

  /** Every entry of the merged results comes from the store's matches of a kind the
      search type asks for; at most `limit` of each kind are merged, and none when the
      type is neither "all", "book" nor "author". */
  lemma MergedFromRequestedKinds(searchType: string, limit: nat, bookHits: seq<BookWithAuthor>,
                                 authorHits: seq<Author>, r: SearchResult)
    requires r in Merged(searchType, limit, bookHits, authorHits)
    ensures r.kind == "book" ==> IncludesBooks(searchType) && exists b :: b in bookHits && r == BookResult(b)
    ensures r.kind == "author" ==> IncludesAuthors(searchType) && exists a :: a in authorHits && r == AuthorResult(a)
    ensures r.kind == "book" || r.kind == "author"
  {
    var books := if IncludesBooks(searchType) then MapBooks(Take(bookHits, limit)) else [];
    var authors := if IncludesAuthors(searchType) then MapAuthors(Take(authorHits, limit)) else [];
    assert Merged(searchType, limit, bookHits, authorHits) == books + authors;
    if r in books {
      var i :| 0 <= i < |books| && books[i] == r;
      assert Take(bookHits, limit)[i] in bookHits;
    } else {
      var i :| 0 <= i < |authors| && authors[i] == r;
      assert Take(authorHits, limit)[i] in authorHits;
    }
  }

  lemma MergedCount(searchType: string, limit: nat, bookHits: seq<BookWithAuthor>, authorHits: seq<Author>)
    ensures |Merged(searchType, limit, bookHits, authorHits)| <= 2 * limit
    ensures !IncludesBooks(searchType) && !IncludesAuthors(searchType) ==>
              Merged(searchType, limit, bookHits, authorHits) == []
  {
  }

  /** A successful search returns at most `limit` entries, each from the store's matches
      of a requested kind, with the title matches ahead of the others. */
  lemma SearchPageShape(searchType: string, limit: nat, q: string,
                        bookHits: seq<BookWithAuthor>, authorHits: seq<Author>)
    ensures var data := SearchData(searchType, limit, q, bookHits, authorHits);
      && |data| <= limit
      && (forall r :: r in data ==> r in Merged(searchType, limit, bookHits, authorHits))
      && (forall i, j :: 0 <= i < j < |data| ==> Compare(data[i], data[j], q) <= 0)
  {
    var merged := Merged(searchType, limit, bookHits, authorHits);
    var sorted := RelevanceSort(merged, q);
    var data := sorted[..Min(limit, |sorted|)];
    RelevanceSortOrdered(merged, q);
    forall r | r in data ensures r in merged {
      assert r in sorted;
      assert r in multiset(sorted);
    }
  }


  // ---------------------------------------------------------------------------
  // GET /booksbyauthor

  /** A query-string parameter: its text and what `parseInt` reads from it. */
  datatype Param = Param(text: string, asInt: Num)

  /** The `where` object: a search over title, description and author name, and the
      author and year equalities, each present only when set. */
  datatype BookWhere = BookWhere(search: Option<string>, authorId: Option<Num>, publishedYear: Option<Num>)

  datatype OrderBy = CreatedAtDesc | CreatedAtAsc | TitleAsc | TitleDesc

  datatype BooksQuery = BooksQuery(where: BookWhere, orderBy: OrderBy, page: int, limit: int, skip: int, sort: string)

  /** A filter parameter is applied when it is set and is not "all". */
  predicate Applies(p: Option<Param>) {
    p.Some? && p.value.text != "" && p.value.text != "all"
  }

  /** The order a `sort` value selects; anything unknown means newest first. */
  function OrderFor(sort: string): OrderBy {
    if sort == "oldest" then CreatedAtAsc
    else if sort == "title_asc" then TitleAsc
    else if sort == "title_desc" then TitleDesc
    else CreatedAtDesc
  }

  const DefaultBooksLimit: int := 10

  /** Builds the query of GET /booksbyauthor from the request parameters, field by
      field as the handler fills its `where` and `orderBy` objects. */
  method BuildBooksQuery(rawPage: Num, rawLimit: Num, search: Option<string>,
                         author: Option<Param>, year: Option<Param>, sort: Option<string>)
    returns (q: BooksQuery)
    ensures q.page == IntOr(rawPage, 1) && q.limit == IntOr(rawLimit, DefaultBooksLimit)
    ensures q.page != 0 && q.limit != 0 && q.skip == (q.page - 1) * q.limit
    ensures q.where.search == (if StrTruthy(search) then search else None)
    ensures q.where.authorId == (if Applies(author) then Some(author.value.asInt) else None)
    ensures q.where.publishedYear == (if Applies(year) then Some(year.value.asInt) else None)
    ensures q.sort == (if StrTruthy(sort) then sort.value else "newest")
    ensures q.orderBy == OrderFor(q.sort)
  {
    var pr := ListParams(rawPage, rawLimit, DefaultBooksLimit);
    var s := if StrTruthy(sort) then sort.value else "newest";
    var where := BookWhere(None, None, None);
    if StrTruthy(search) {
      where := where.(search := search);
    }
    if author.Some? && author.value.text != "" && author.value.text != "all" {
      where := where.(authorId := Some(author.value.asInt));
    }
    if year.Some? && year.value.text != "" && year.value.text != "all" {
      where := where.(publishedYear := Some(year.value.asInt));
    }
    var orderBy: OrderBy;
    if s == "oldest" {
      orderBy := CreatedAtAsc;
    } else if s == "title_asc" {
      orderBy := TitleAsc;
    } else if s == "title_desc" {
      orderBy := TitleDesc;
    } else {
      orderBy := CreatedAtDesc;
    }
    q := BooksQuery(where, orderBy, pr.page, pr.limit, pr.skip, s);
  }

  /** Each sort value selects its own order; "newest", a missing value and any unknown
      value all give newest first. */
  lemma OrderForCases(sort: string)
    ensures OrderFor("oldest") == CreatedAtAsc && OrderFor("title_asc") == TitleAsc
    ensures OrderFor("title_desc") == TitleDesc && OrderFor("newest") == CreatedAtDesc
    ensures OrderFor(sort) == CreatedAtDesc <==> sort !in {"oldest", "title_asc", "title_desc"}
  {
  }

  /** The pagination fields of the reply: `totalPages = Math.ceil(totalBooks / limit)`
      where `totalBooks` is the store's count for the `where` object. */
  function BooksByAuthorTotalPages(q: BooksQuery, totalBooks: nat): (totalPages: int)
    requires q.limit != 0
    ensures q.limit > 0 ==> (totalPages - 1) * q.limit < totalBooks <= totalPages * q.limit
    ensures q.limit > 0 ==> (totalPages == 0 <==> totalBooks == 0)
  {
    CeilDiv(totalBooks, q.limit)
  }
}
