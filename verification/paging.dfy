/** Pagination arithmetic shared by the table component, the admin pages and the list
    handlers of the backend: the page count (`Math.ceil(total / limit)`), the
    `parseInt(x) || default` reading of query parameters, `skip = (page - 1) * limit`,
    and the rows shown on one page (`Array.prototype.slice`, or the store's skip/take). */
module Paging {
  import opened Values

  /** `Math.ceil(n / d)` for a count `n` and a non-zero divisor `d`: the least integer
      `r` with `r >= n / d`. A negative divisor (a negative `limit` query parameter is
      accepted by `parseInt`) gives a result of at most 0. */
  function CeilDiv(n: nat, d: int): (r: int)
    requires d != 0
    ensures d > 0 ==> 0 <= r && (r - 1) * d < n <= r * d
    ensures d < 0 ==> r <= 0 && r * d <= n < (r - 1) * d
  {
    if d > 0 then
      var q := (n + d - 1) / d;
      assert q * d <= n + d - 1 < q * d + d;
      q
    else
      var q := n / -d;
      assert q * -d <= n < q * -d - d;
      -q
  }

  /** With a positive page size, there are no pages exactly when there are no items. */
  lemma NoPagesIffEmpty(n: nat, d: int)
    requires d > 0
    ensures CeilDiv(n, d) == 0 <==> n == 0
  {
  }

  /** `parseInt(raw) || fallback`: NaN and 0 fall back, any other integer is kept. */
  function IntOr(raw: Num, fallback: int): (r: int)
    ensures NumTruthy(raw) ==> r == raw.value
    ensures !NumTruthy(raw) ==> r == fallback
    ensures fallback != 0 ==> r != 0
  {
    if NumTruthy(raw) then raw.value else fallback
  }

  /** The pagination parameters of a list request. */
  datatype PageRequest = PageRequest(page: int, limit: int, skip: int)

  /** `page = parseInt(q.page) || 1; limit = parseInt(q.limit) || defaultLimit;
      skip = (page - 1) * limit`. */
  function ListParams(rawPage: Num, rawLimit: Num, defaultLimit: int): (r: PageRequest)
    requires defaultLimit > 0
    ensures r.page != 0 && r.limit != 0
    ensures r.page == (if NumTruthy(rawPage) then rawPage.value else 1)
    ensures r.limit == (if NumTruthy(rawLimit) then rawLimit.value else defaultLimit)
    ensures r.skip == (r.page - 1) * r.limit
    ensures r.page >= 1 && r.limit >= 1 ==> r.skip >= 0
  {
    var page := IntOr(rawPage, 1);
    var limit := IntOr(rawLimit, defaultLimit);
    PageRequest(page, limit, (page - 1) * limit)
  }

  function Min(a: int, b: int): int {
    if a <= b then a else b
  }

  /** `data.slice(start, end)` for non-negative bounds: both ends are clipped to the
      length, and an end before the start gives nothing. The store's `skip`/`take`
      window is `Slice(rows, skip, skip + take)`. */
  function Slice<T>(data: seq<T>, start: nat, end: nat): (r: seq<T>)
    ensures |r| <= |data|
    ensures start <= end ==> |r| <= end - start
    ensures start < |data| && start < end ==> r != []
    ensures forall i :: 0 <= i < |r| ==> start + i < |data| && r[i] == data[start + i]
  {
    var lo := Min(start, |data|);
    var hi := Min(end, |data|);
    if lo <= hi then data[lo..hi] else []
  }

  /** The rows of page `page` (counted from 1) when pages hold `perPage` rows. */
  function PageSlice<T>(data: seq<T>, page: nat, perPage: nat): (r: seq<T>)
    requires page >= 1 && perPage >= 1
    ensures |r| <= perPage
    ensures forall i :: 0 <= i < |r| ==>
      (page - 1) * perPage + i < |data| && r[i] == data[(page - 1) * perPage + i]
  {
    Slice(data, (page - 1) * perPage, page * perPage)
  }

  /** A page holds rows exactly when its number is between 1 and the page count. */
  lemma PageSliceNonEmpty<T>(data: seq<T>, page: nat, perPage: nat)
    requires page >= 1 && perPage >= 1
    ensures PageSlice(data, page, perPage) != [] <==> page <= CeilDiv(|data|, perPage)
  {
    var k := CeilDiv(|data|, perPage);
    if page <= k {
      assert (page - 1) * perPage <= (k - 1) * perPage;
    } else {
      assert (page - 1) * perPage >= k * perPage;
    }
  }

  /** Pages 1 to `k`, one after the other. */
  function ConcatPages<T>(data: seq<T>, perPage: nat, k: nat): seq<T>
    requires perPage >= 1
  {
    if k == 0 then [] else ConcatPages(data, perPage, k - 1) + PageSlice(data, k, perPage)
  }

  lemma {:induction false} ConcatPagesPrefix<T>(data: seq<T>, perPage: nat, k: nat)
    requires perPage >= 1
    ensures ConcatPages(data, perPage, k) == data[..Min(k * perPage, |data|)]
  {
    if k > 0 {
      ConcatPagesPrefix(data, perPage, k - 1);
      var start, end := (k - 1) * perPage, k * perPage;
      assert end == start + perPage;
      var a, b := Min(start, |data|), Min(end, |data|);
      assert PageSlice(data, k, perPage) == data[a..b];
      assert data[..a] + data[a..b] == data[..b];
    }
  }

  /** Reading pages 1 to the page count in turn shows every row once, in order. */
  lemma PagesCoverData<T>(data: seq<T>, perPage: nat)
    requires perPage >= 1
    ensures ConcatPages(data, perPage, CeilDiv(|data|, perPage)) == data
  {
    var k := CeilDiv(|data|, perPage);
    ConcatPagesPrefix(data, perPage, k);
    assert data[..|data|] == data;
  }
}
