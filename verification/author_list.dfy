/** The public author directory: twelve authors per page with "Load More". Every request
    is built from the query parameters the page holds when it is sent. The page also
    defines handlers for a search term that reloads once settled, a sort order and
    "Clear filters", but renders no search box or sort control and never shows the
    filter panel, so on the page they run only at mount, with the empty term and the
    "newest" sort; they are modelled as the code defines them. */
module AuthorList {
  import opened Values
  import opened Feed
  import Urls

  /** An author as the directory reads it from the list endpoint. */
  datatype Listed = Listed(id: int, name: string, bio: string, image: Option<string>)

  /** One query parameter, in the order it appears in the request. */
  datatype Param = Param(key: string, value: string)

  const PageLimit: string := "12"
  const DefaultSort: string := "newest"
  const InvalidData: string := "Invalid data format received"
  const LoadFailed: string := "Failed to load authors. Please try again later."

  /** The query of `fetchAuthors(pageNum, _, filters)`: page, limit 12 and the given
      filters, then the search term and the sort order the page holds, each appended
      again when non-empty. */
  function RequestParams(pageNum: nat, filters: seq<Param>, searchTerm: string, sortBy: string): (ps: seq<Param>)
    ensures |ps| >= 2 && ps[0] == Param("page", NatToDecimal(pageNum)) && ps[1] == Param("limit", PageLimit)
    ensures |ps| >= 2 + |filters| && ps[2..2 + |filters|] == filters
  {
    [Param("page", NatToDecimal(pageNum)), Param("limit", PageLimit)] + filters
      + (if searchTerm != "" then [Param("search", searchTerm)] else [])
      + (if sortBy != "" then [Param("sort", sortBy)] else [])
  }

  /** The values given for `key`, in request order. */
  function ValuesOf(ps: seq<Param>, key: string): (vs: seq<string>)
    ensures |vs| <= |ps|
  {
    if ps == [] then []
    else (if ps[0].key == key then [ps[0].value] else []) + ValuesOf(ps[1..], key)
  }

  lemma {:induction false} ValuesOfAppend(a: seq<Param>, b: seq<Param>, key: string)
    ensures ValuesOf(a + b, key) == ValuesOf(a, key) + ValuesOf(b, key)
  {
    if a != [] {
      assert (a + b)[1..] == a[1..] + b;
      ValuesOfAppend(a[1..], b, key);
    } else {
      assert a + b == b;
    }
  }

  /** The values of a request made of five consecutive pieces. */
  lemma ValuesOfFive(p1: seq<Param>, p2: seq<Param>, p3: seq<Param>, p4: seq<Param>, p5: seq<Param>, key: string)
    ensures ValuesOf(p1 + p2 + p3 + p4 + p5, key)
      == ValuesOf(p1, key) + ValuesOf(p2, key) + ValuesOf(p3, key) + ValuesOf(p4, key) + ValuesOf(p5, key)
  {
    ValuesOfAppend(p1 + p2 + p3 + p4, p5, key);
    ValuesOfAppend(p1 + p2 + p3, p4, key);
    ValuesOfAppend(p1 + p2, p3, key);
    ValuesOfAppend(p1, p2, key);
  }

  /** A piece holding at most one parameter contributes its value exactly for its own
      key. */
  lemma ValuesOfOptional(present: bool, k: string, v: string, key: string)
    ensures ValuesOf(if present then [Param(k, v)] else [], key) == (if present && k == key then [v] else [])
  {
    var ps: seq<Param> := if present then [Param(k, v)] else [];
    if present {
      assert ps[1..] == [];
    }
  }

  /** The filters "Load More" passes: the sort order, then the search term, each only
      when non-empty. */
  function LoadMoreFilters(sortBy: string, searchTerm: string): (fs: seq<Param>)
    ensures |fs| <= 2
  {
    (if sortBy != "" then [Param("sort", sortBy)] else [])
      + (if searchTerm != "" then [Param("search", searchTerm)] else [])
  }

  /** A "Load More" request is the page and limit, then the filters, then the term and
      the sort appended again. */
  lemma LoadMoreParamsShape(pageNum: nat, searchTerm: string, sortBy: string)
    ensures RequestParams(pageNum, LoadMoreFilters(sortBy, searchTerm), searchTerm, sortBy)
      == [Param("page", NatToDecimal(pageNum)), Param("limit", PageLimit)]
        + (if sortBy != "" then [Param("sort", sortBy)] else [])
        + (if searchTerm != "" then [Param("search", searchTerm)] else [])
        + (if searchTerm != "" then [Param("search", searchTerm)] else [])
        + (if sortBy != "" then [Param("sort", sortBy)] else [])
  {
  }

  /** The values a "Load More" request gives for any one key. */
  lemma LoadMoreValuesOf(pageNum: nat, searchTerm: string, sortBy: string, key: string)
    ensures var sortVal := if sortBy != "" && key == "sort" then [sortBy] else [];
      var searchVal := if searchTerm != "" && key == "search" then [searchTerm] else [];
      ValuesOf(RequestParams(pageNum, LoadMoreFilters(sortBy, searchTerm), searchTerm, sortBy), key)
        == (if key == "page" then [NatToDecimal(pageNum)] else [])
          + (if key == "limit" then [PageLimit] else [])
          + sortVal + searchVal + searchVal + sortVal
  {
    var head := [Param("page", NatToDecimal(pageNum)), Param("limit", PageLimit)];
    var sortPart := if sortBy != "" then [Param("sort", sortBy)] else [];
    var searchPart := if searchTerm != "" then [Param("search", searchTerm)] else [];
    LoadMoreParamsShape(pageNum, searchTerm, sortBy);
    ValuesOfFive(head, sortPart, searchPart, searchPart, sortPart, key);
    ValuesOfAppend([head[0]], [head[1]], key);
    assert [head[0]] + [head[1]] == head;
    ValuesOfOptional(sortBy != "", "sort", sortBy, key);
    ValuesOfOptional(searchTerm != "", "search", searchTerm, key);
    ValuesOfOptional(true, "page", NatToDecimal(pageNum), key);
    ValuesOfOptional(true, "limit", PageLimit, key);
  }

  /** A "Load More" request names the page and the limit once, and the search term and
      sort order twice each (once from the filters, once appended), or not at all when
      they are empty. */
  lemma LoadMoreRequestValues(pageNum: nat, searchTerm: string, sortBy: string)
    ensures var ps := RequestParams(pageNum, LoadMoreFilters(sortBy, searchTerm), searchTerm, sortBy);
      && ValuesOf(ps, "page") == [NatToDecimal(pageNum)]
      && ValuesOf(ps, "limit") == [PageLimit]
      && ValuesOf(ps, "search") == (if searchTerm != "" then [searchTerm, searchTerm] else [])
      && ValuesOf(ps, "sort") == (if sortBy != "" then [sortBy, sortBy] else [])
  {
    LoadMoreValuesOf(pageNum, searchTerm, sortBy, "page");
    LoadMoreValuesOf(pageNum, searchTerm, sortBy, "limit");
    LoadMoreValuesOf(pageNum, searchTerm, sortBy, "search");
    LoadMoreValuesOf(pageNum, searchTerm, sortBy, "sort");
  }

  /** The debounced search reloads only for a term whose JavaScript length is 2 or more, or for
      an emptied box. */
  predicate SearchTriggers(term: string) {
    Utf16Length(term) >= 2 || term == ""
  }

  /** The "Clear filters" button is shown while the sort differs from "newest" or a
      search term is entered. */
  predicate HasActiveFilters(sortBy: string, searchTerm: string) {
    sortBy != DefaultSort || searchTerm != ""
  }

  /** The directory's state. */
  class AuthorListView {
    var authors: seq<Listed>
    var loading: bool
    var loadingMore: bool
    var page: nat
    var hasMore: bool
    var error: Option<string>
    var searchTerm: string
    var sortBy: string

    constructor()
      ensures authors == [] && loading && !loadingMore && page == 1 && hasMore && error.None?
      ensures searchTerm == "" && sortBy == DefaultSort
    {
      authors := [];
      loading := true;
      loadingMore := false;
      page := 1;
      hasMore := true;
      error := None;
      searchTerm := "";
      sortBy := DefaultSort;
    }

    /** The directory once a request has answered `resp`: spinners off; an accepted page
        is appended to or replaces `shown` and sets `hasMore`; otherwise `shown` and
        `hadMore` stay and the matching error is shown. */
    ghost predicate Settled(resp: PageResponse<Listed>, isLoadMore: bool, shown: seq<Listed>, hadMore: bool)
      reads this
    {
      && !loading && !loadingMore
      && (resp.Received? ==>
            authors == Accumulate(shown, isLoadMore, resp.data) && hasMore == HasMore(resp) && error.None?)
      && (!resp.Received? ==> authors == shown && hasMore == hadMore)
      && (resp.Malformed? ==> error == Some(InvalidData))
      && (resp.Unreachable? ==> error == Some(LoadFailed))
    }

    /** `fetchAuthors(pageNum, isLoadMore, filters)` with `resp` standing for what the
        request returns; neither the page number nor the filters change. */
    method FetchAuthors(pageNum: nat, isLoadMore: bool, filters: seq<Param>, resp: PageResponse<Listed>)
      returns (request: seq<Param>)
      modifies this
      ensures request == RequestParams(pageNum, filters, old(searchTerm), old(sortBy))
      ensures page == old(page) && searchTerm == old(searchTerm) && sortBy == old(sortBy)
      ensures Settled(resp, isLoadMore, old(authors), old(hasMore))
    {
      if isLoadMore {
        loadingMore := true;
      } else {
        loading := true;
      }
      error := None;
      request := RequestParams(pageNum, filters, searchTerm, sortBy);
      match resp {
        case Received(data, _, _) =>
          authors := Accumulate(authors, isLoadMore, data);
          hasMore := HasMore(resp);
        case Malformed =>
          error := Some(InvalidData);
        case Unreachable =>
          error := Some(LoadFailed);
      }
      loading := false;
      loadingMore := false;
    }

    /** The term's setter only changes the term; the reload waits for it to settle.
        No rendered input calls it. */
    method SetSearchTerm(term: string)
      modifies this
      ensures searchTerm == term
      ensures authors == old(authors) && page == old(page) && sortBy == old(sortBy)
      ensures hasMore == old(hasMore) && error == old(error)
      ensures loading == old(loading) && loadingMore == old(loadingMore)
    {
      searchTerm := term;
    }

    /** The term has stayed unchanged for 500 ms: a term of one character is ignored;
        otherwise page 1 is loaded afresh with the term as the search filter. */
    method SearchSettled(resp: PageResponse<Listed>) returns (request: Option<seq<Param>>)
      modifies this
      ensures request.Some? <==> SearchTriggers(old(searchTerm))
      ensures request.Some? ==>
        request.value == RequestParams(1, [Param("search", old(searchTerm))], old(searchTerm), old(sortBy))
      ensures request.Some? ==> page == 1 && Settled(resp, false, old(authors), old(hasMore))
      ensures request.None? ==>
        (&& authors == old(authors) && page == old(page) && hasMore == old(hasMore)
         && error == old(error) && loading == old(loading) && loadingMore == old(loadingMore))
      ensures searchTerm == old(searchTerm) && sortBy == old(sortBy)
    {
      if SearchTriggers(searchTerm) {
        page := 1;
        var sent := FetchAuthors(1, false, [Param("search", searchTerm)], resp);
        request := Some(sent);
      } else {
        request := None;
      }
    }

    /** Choosing a sort order reloads page 1 with that order. */
    method SetSort(sort: string, resp: PageResponse<Listed>) returns (request: seq<Param>)
      modifies this
      ensures sortBy == sort && page == 1 && searchTerm == old(searchTerm)
      ensures request == RequestParams(1, [Param("sort", sort)], old(searchTerm), sort)
      ensures Settled(resp, false, old(authors), old(hasMore))
    {
      sortBy := sort;
      page := 1;
      request := FetchAuthors(1, false, [Param("sort", sort)], resp);
    }

    /** `handleLoadMore`: the page number advances first; the request carries the sort
        order and the search term. */
    method HandleLoadMore(resp: PageResponse<Listed>) returns (request: seq<Param>)
      modifies this
      ensures page == old(page) + 1
      ensures request == RequestParams(old(page) + 1, LoadMoreFilters(old(sortBy), old(searchTerm)), old(searchTerm), old(sortBy))
      ensures searchTerm == old(searchTerm) && sortBy == old(sortBy)
      ensures Settled(resp, true, old(authors), old(hasMore))
      ensures resp.Received? ==> authors == old(authors) + resp.data
      ensures !resp.Received? ==> error.Some?
    {
      page := page + 1;
      request := FetchAuthors(page, true, LoadMoreFilters(sortBy, searchTerm), resp);
    }

    /** "Clear filters": sort "newest", empty search, page 1 reloaded. The reload is
        issued from the handler that was rendered before the reset, so it still carries
        the search term and the sort order in force before the click. */
    method ClearFilters(resp: PageResponse<Listed>) returns (request: seq<Param>)
      modifies this
      ensures sortBy == DefaultSort && searchTerm == "" && page == 1
      ensures !HasActiveFilters(sortBy, searchTerm)
      ensures request == RequestParams(1, [], old(searchTerm), old(sortBy))
      ensures Settled(resp, false, old(authors), old(hasMore))
    {
      request := FetchAuthors(1, false, [], resp);
      sortBy := DefaultSort;
      searchTerm := "";
      page := 1;
    }
  }

  /** A term of one code unit never reloads; clearing the box always does, and so
      does a term of two characters or of one astral character. */
  lemma SearchTriggersCases(term: string)
    ensures Utf16Length(term) == 1 ==> !SearchTriggers(term)
    ensures term == "" ==> SearchTriggers(term)
    ensures |term| >= 2 ==> SearchTriggers(term)
    ensures |term| == 1 && Astral(term[0]) ==> SearchTriggers(term)
  {
    if |term| == 1 && Astral(term[0]) {
      assert term == [term[0]];
      Utf16LengthOfAstral(term[0]);
    }
  }

  /** An author card's picture: the stored image or the portrait placeholder. */
  function CardImage(a: Listed): (url: string)
    ensures StartsWith(url, "http")
    ensures !StrTruthy(a.image) ==> url == Urls.AuthorPlaceholder
  {
    Urls.ImageUrlAbsolute(a.image);
    Urls.ImageUrl(a.image, Urls.AuthorPlaceholder)
  }
}
