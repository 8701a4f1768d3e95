/** The full-screen search modal: the query is sent to the search endpoint once it has
    settled, with the chosen kind ("all", "book" or "author") and a limit of 20; the
    results are shown only while the box holds a query. */
module BookSearch {
  import opened Values
  import Bookclub
  import Urls

  /** The query string of one search request. */
  datatype SearchRequest = SearchRequest(q: string, searchType: string, limit: nat)

  /** What a search request returns: the endpoint's reply, or nothing at all. */
  datatype SearchResponse = Answered(reply: Bookclub.SearchReply) | Unreachable

  const ResultLimit: nat := 20
  const ConnectFailed: string := "Failed to connect to search service."

  /** `performSearch`'s guard: a query whose JavaScript length is under 2 sends nothing. */
  function RequestFor(query: string, searchType: string): (r: Option<SearchRequest>)
    ensures r.Some? <==> Utf16Length(query) >= 2
    ensures r.Some? ==> r.value == SearchRequest(query, searchType, ResultLimit)
  {
    if query == "" || Utf16Length(query) < 2 then None else Some(SearchRequest(query, searchType, ResultLimit))
  }

  /** The modal sends exactly the queries the endpoint accepts, so the endpoint's
      "at least 2 characters" refusal never reaches it. */
  lemma RequestsMatchEndpointGuard(query: string, searchType: string)
    ensures RequestFor(query, searchType).Some? <==> Bookclub.ValidQuery(Some(query))
  {
  }

  /** `displayResults`: nothing while the box is empty. */
  function DisplayResults(searchQuery: string, results: seq<Bookclub.SearchResult>): (shown: seq<Bookclub.SearchResult>)
    ensures searchQuery == "" ==> shown == []
    ensures searchQuery != "" ==> shown == results
  {
    if searchQuery != "" then results else []
  }

  /** A result's picture: its cover, or none. */
  function ResultImage(r: Bookclub.SearchResult): (url: Option<string>)
    ensures url.Some? <==> StrTruthy(r.coverImage)
    ensures url.Some? ==> StartsWith(url.value, "http")
  {
    Urls.ImageUrlOrNull(r.coverImage)
  }

  /** The modal's state. */
  class BookSearchView {
    var searchQuery: string
    var searchType: string
    var results: seq<Bookclub.SearchResult>
    var loading: bool
    var error: Option<string>

    constructor()
      ensures searchQuery == "" && searchType == "all" && results == [] && !loading && error.None?
    {
      searchQuery := "";
      searchType := "all";
      results := [];
      loading := false;
      error := None;
    }

    method SetQuery(query: string)
      modifies this
      ensures searchQuery == query
      ensures searchType == old(searchType) && results == old(results)
      ensures loading == old(loading) && error == old(error)
    {
      searchQuery := query;
    }

    method SetType(searchType': string)
      modifies this
      ensures searchType == searchType'
      ensures searchQuery == old(searchQuery) && results == old(results)
      ensures loading == old(loading) && error == old(error)
    {
      searchType := searchType';
    }

    /** The modal once a sent search has answered `resp`: the spinner is off and the
        results are the reply's data, or empty beside the refusal's message or the
        connection error. */
    ghost predicate ShowsAnswer(resp: SearchResponse)
      reads this
    {
      && !loading
      && (resp.Answered? && resp.reply.Found? ==> results == resp.reply.data && error.None?)
      && (resp.Answered? && resp.reply.BadRequest? ==> results == [] && error == Some(resp.reply.message))
      && (resp.Unreachable? ==> results == [] && error == Some(ConnectFailed))
    }

    /** `performSearch(query, type)` with `resp` standing for what the request returns.
        A short query clears the results and sends nothing; otherwise the results become
        the reply's data, or empty with the reply's message or the connection error. */
    method PerformSearch(query: string, searchType': string, resp: SearchResponse) returns (request: Option<SearchRequest>)
      modifies this
      ensures request == RequestFor(query, searchType')
      ensures searchQuery == old(searchQuery) && searchType == old(searchType)
      ensures request.None? ==> results == [] && loading == old(loading) && error == old(error)
      ensures request.Some? ==> ShowsAnswer(resp)
    {
      request := RequestFor(query, searchType');
      if request.None? {
        results := [];
        return;
      }
      loading := true;
      error := None;
      match resp {
        case Answered(reply) =>
          if reply.Found? {
            results := reply.data;
          } else {
            error := Some(reply.message);
            results := [];
          }
        case Unreachable =>
          error := Some(ConnectFailed);
          results := [];
      }
      loading := false;
    }

    /** The debounced query has settled on `settled`: a non-empty one is searched with
        the chosen kind; an empty one clears the results. */
    method QuerySettled(settled: string, resp: SearchResponse) returns (request: Option<SearchRequest>)
      modifies this
      ensures settled != "" ==> request == RequestFor(settled, old(searchType))
      ensures settled != "" && request.None? ==> results == [] && loading == old(loading) && error == old(error)
      ensures request.Some? ==> ShowsAnswer(resp)
      ensures settled == "" ==> request.None? && results == [] && !loading && error == old(error)
      ensures searchQuery == old(searchQuery) && searchType == old(searchType)
    {
      if settled != "" {
        request := PerformSearch(settled, searchType, resp);
      } else {
        results := [];
        loading := false;
        request := None;
      }
    }

    /** Closing the modal empties the box and drops results, error and spinner. */
    method Close()
      modifies this
      ensures searchQuery == "" && results == [] && error.None? && !loading
      ensures searchType == old(searchType)
      ensures DisplayResults(searchQuery, results) == []
    {
      searchQuery := "";
      results := [];
      error := None;
      loading := false;
    }
  }
}
