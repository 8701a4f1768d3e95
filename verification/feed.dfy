/** The "load more" lists of the Ebook and AuthorList pages: a response either carries an
    array `data` with the page it answers and the page count, carries something else,
    or never arrives. An accepted page is appended on "load more" and replaces the list
    otherwise; more can be loaded while the answered page is below the page count. */
module Feed {
  import opened Paging

  datatype PageResponse<T> =
    | Received(data: seq<T>, page: int, totalPages: int)
    | Malformed
    | Unreachable

  /** The list after an accepted page. */
  function Accumulate<T>(shown: seq<T>, isLoadMore: bool, data: seq<T>): seq<T> {
    if isLoadMore then shown + data else data
  }

  /** `data.page < data.totalPages`. */
  predicate HasMore<T>(resp: PageResponse<T>)
    requires resp.Received?
  {
    resp.page < resp.totalPages
  }

  /** "Load more" never drops or reorders what is shown: the old list is a prefix of the
      new one, followed by exactly the page received. A reload shows only that page. */
  lemma AccumulateKeepsShown<T>(shown: seq<T>, data: seq<T>)
    ensures var r := Accumulate(shown, true, data);
      |r| == |shown| + |data| && r[..|shown|] == shown && r[|shown|..] == data
    ensures Accumulate(shown, false, data) == data
  {
  }

  /** When the list endpoint answers page `p` with the ceiling of its row count over the
      limit as `totalPages`, the client offers more exactly when page `p + 1` has rows. */
  lemma HasMoreIffNextPageHasRows<T>(rows: seq<T>, p: nat, limit: nat)
    requires p >= 1 && limit >= 1
    ensures HasMore(Received(PageSlice(rows, p, limit), p, CeilDiv(|rows|, limit)))
      <==> PageSlice(rows, p + 1, limit) != []
  {
    PageSliceNonEmpty(rows, p + 1, limit);
  }
}
