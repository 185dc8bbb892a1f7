/**
 * The pagination contract shared by every listing: the query's page and
 * limit with their defaults and bounds, the skip/take window the store
 * applies, and the metadata derived from (page, limit, total).
 */
module Pagination {
  import opened Common
  import opened Seqs

  /**
   * The `page` and `limit` query parameters after number conversion;
   * `None` is a parameter that was not sent.
   */
  datatype PageQuery = PageQuery(page: Option<int>, limit: Option<int>)

  const DefaultPage: int := 1
  const DefaultLimit: int := 10
  const MaxLimit: int := 100

  /** The validation rules on the query: a page of at least 1, a limit in 1..100. */
  predicate ValidPageQuery(q: PageQuery) {
    && (q.page.Some? ==> q.page.value > 0 && q.page.value >= 1)
    && (q.limit.Some? ==> q.limit.value > 0 && 1 <= q.limit.value <= MaxLimit)
  }

  /** The page a service uses: the one sent, else 1. */
  function PageOf(q: PageQuery): int {
    q.page.GetOr(DefaultPage)
  }

  /** The limit a service uses: the one sent, else 10. */
  function LimitOf(q: PageQuery): int {
    q.limit.GetOr(DefaultLimit)
  }

  /** The query can be turned into a window: page and limit are both at least 1. */
  predicate Pageable(q: PageQuery) {
    PageOf(q) >= 1 && LimitOf(q) >= 1
  }

  lemma ValidQueryBounds(q: PageQuery)
    requires ValidPageQuery(q)
    ensures Pageable(q)
    ensures PageOf(q) >= 1 && 1 <= LimitOf(q) <= MaxLimit
    ensures q.page.None? ==> PageOf(q) == 1
    ensures q.limit.None? ==> LimitOf(q) == 10
    ensures q.page.Some? ==> PageOf(q) == q.page.value
    ensures q.limit.Some? ==> LimitOf(q) == q.limit.value
  {
  }

  /**
   * JavaScript's `x || d` on an optional number: `d` when `x` is absent
   * or zero, as the liked-articles route builds its page metadata.
   */
  function OrDefault(x: Option<int>, d: int): (r: int)
    ensures x.None? ==> r == d
    ensures x == Some(0) ==> r == d
    ensures x.Some? && x.value != 0 ==> r == x.value
  {
    if x.None? || x.value == 0 then d else x.value
  }

  /** On a valid query, `page || 1` and `limit || 10` agree with the services' defaults. */
  lemma OrDefaultAgreesOnValidQueries(q: PageQuery)
    requires ValidPageQuery(q)
    ensures OrDefault(q.page, DefaultPage) == PageOf(q)
    ensures OrDefault(q.limit, DefaultLimit) == LimitOf(q)
  {
  }

  /** Integer ceiling of `n / d`. */
  function CeilDiv(n: nat, d: int): (r: nat)
    requires d >= 1
    ensures r * d >= n
    ensures r == 0 || (r - 1) * d < n
    ensures r == 0 <==> n == 0
  {
    if n <= d then (if n == 0 then 0 else 1)
    else
      var k := CeilDiv(n - d, d);
      assert (k + 1) * d == k * d + d;
      k + 1
  }

  /** The metadata attached to every paginated response. */
  datatype PaginationMeta = PaginationMeta(
    page: int,
    limit: int,
    total: nat,
    totalPages: nat,
    hasNext: bool,
    hasPrev: bool)

  /**
   * Builds the metadata: page, limit and total as given, the number of
   * pages needed for `total` items at `limit` per page, and whether a
   * later or an earlier page exists.
   */
  function NewMeta(page: int, limit: int, total: nat): (m: PaginationMeta)
    requires limit >= 1
    ensures m.page == page && m.limit == limit && m.total == total
    ensures m.totalPages * limit >= total
    ensures m.totalPages == 0 || (m.totalPages - 1) * limit < total
    ensures m.hasNext <==> page < m.totalPages
    ensures m.hasPrev <==> page > 1
  {
    var totalPages := CeilDiv(total, limit);
    PaginationMeta(page, limit, total, totalPages, page < totalPages, page > 1)
  }

  lemma {:induction false} MulMonotone(a: int, b: int, d: int)
    requires a <= b && d >= 0
    ensures a * d <= b * d
  {
    assert b * d - a * d == (b - a) * d;
  }

  /** The ceiling is the only page count that covers `total` without a spare page. */
  lemma {:induction false} TotalPagesIsCeiling(page: int, limit: int, total: nat, c: nat)
    requires limit >= 1
    requires c * limit >= total && (c == 0 || (c - 1) * limit < total)
    ensures NewMeta(page, limit, total).totalPages == c
  {
    var t := NewMeta(page, limit, total).totalPages;
    if t < c {
      MulMonotone(t, c - 1, limit);
    } else if t > c {
      MulMonotone(c, t - 1, limit);
    }
  }

  /** No items: no pages, and no page (numbered from 0 up) has a next one. */
  lemma EmptyTotalHasNoPages(page: int, limit: int)
    requires limit >= 1 && page >= 0
    ensures NewMeta(page, limit, 0).totalPages == 0
    ensures !NewMeta(page, limit, 0).hasNext
  {
  }

  /** A response body that carries one page of items and its metadata. */
  datatype PaginatedResponse<T> = PaginatedResponse(data: seq<T>, meta: PaginationMeta)

  /** The number of rows skipped before the page: `(page - 1) * limit`. */
  function Skip(page: int, limit: int): (r: nat)
    requires page >= 1 && limit >= 1
  {
    MulMonotone(0, page - 1, limit);
    (page - 1) * limit
  }

  /**
   * The store's `skip`/`take` window: at most `limit` items starting at
   * position `(page - 1) * limit`, empty when that is past the end.
   */
  function PageSlice<T>(items: seq<T>, page: int, limit: int): (r: seq<T>)
    requires page >= 1 && limit >= 1
    ensures |r| <= limit
    ensures Skip(page, limit) >= |items| ==> r == []
    ensures Skip(page, limit) < |items| ==>
      |r| == if Skip(page, limit) + limit <= |items| then limit else |items| - Skip(page, limit)
    ensures forall i :: 0 <= i < |r| ==> r[i] == items[Skip(page, limit) + i]
  {
    var skip := Skip(page, limit);
    if skip >= |items| then []
    else if skip + limit <= |items| then items[skip..skip + limit]
    else items[skip..]
  }

  /** One page of `items` (already filtered and ordered) with metadata over all of them. */
  function Paginate<T>(items: seq<T>, q: PageQuery): PaginatedResponse<T>
    requires Pageable(q)
  {
    PaginatedResponse(PageSlice(items, PageOf(q), LimitOf(q)), NewMeta(PageOf(q), LimitOf(q), |items|))
  }

  /** A page of an ordered listing is itself ordered. */
  lemma PageKeepsOrder<T>(items: seq<T>, q: PageQuery, key: T -> int)
    requires Pageable(q) && SortedDesc(items, key)
    ensures SortedDesc(Paginate(items, q).data, key)
  {
    var page, limit := PageOf(q), LimitOf(q);
    var r := PageSlice(items, page, limit);
    var skip := Skip(page, limit);
    forall i, j | 0 <= i < j < |r|
      ensures key(r[i]) >= key(r[j])
    {
      assert r[i] == items[skip + i];
      assert r[j] == items[skip + j];
    }
  }

  /**
   * The listing every `find*` with `order: { createdAt: 'DESC' }` returns:
   * the rows ordered newest first, one window of them, and the metadata
   * over all of them.
   */
  function NewestFirstPage<T>(rows: seq<T>, key: T -> int, q: PageQuery): (r: PaginatedResponse<T>)
    requires Pageable(q)
    ensures r.meta == NewMeta(PageOf(q), LimitOf(q), |rows|)
    ensures |r.data| <= LimitOf(q)
    ensures forall x <- r.data :: x in rows
    ensures SortedDesc(r.data, key)
    ensures r.data != [] ==> Skip(PageOf(q), LimitOf(q)) + |r.data| <= |rows|
    ensures forall i :: 0 <= i < |r.data| ==>
      r.data[i] == SortDesc(rows, key)[Skip(PageOf(q), LimitOf(q)) + i]
    ensures r.data == PageSlice(SortDesc(rows, key), PageOf(q), LimitOf(q))
  {
    var ordered := SortDesc(rows, key);
    SortDescMembers(rows, key);
    PageItemsAreListed(ordered, q);
    PageKeepsOrder(ordered, q, key);
    Paginate(ordered, q)
  }

  /**
   * No row is unreachable: the row at position `k` of a listing is item
   * `k % limit` of page `k / limit + 1`.
   */
  lemma {:induction false} EveryItemOnItsPage<T>(items: seq<T>, limit: int, k: nat)
    requires limit >= 1 && k < |items|
    ensures var page := PageSlice(items, k / limit + 1, limit);
      k % limit < |page| && page[k % limit] == items[k]
  {
    var p := k / limit + 1;
    assert Skip(p, limit) == (k / limit) * limit;
    assert (k / limit) * limit + k % limit == k;
  }

  /** Whatever the limit, every item of a listing lies on some page of it. */
  lemma RowOnSomePage<T>(items: seq<T>, limit: int, x: T)
    requires 1 <= limit && x in items
    ensures exists page :: page >= 1 && x in PageSlice(items, page, limit)
  {
    var k :| 0 <= k < |items| && items[k] == x;
    EveryItemOnItsPage(items, limit, k);
    var page := k / limit + 1;
    assert PageSlice(items, page, limit)[k % limit] == x;
  }

  /**
   * No row of a newest-first listing is out of reach: whatever the limit,
   * some page holds it.
   */
  lemma EveryRowIsListed<T>(rows: seq<T>, key: T -> int, limit: int, x: T)
    requires 1 <= limit && x in rows
    ensures exists page :: page >= 1 && x in NewestFirstPage(rows, key, PageQuery(Some(page), Some(limit))).data
  {
    SortDescMembers(rows, key);
    RowOnSomePage(SortDesc(rows, key), limit, x);
    var page :| page >= 1 && x in PageSlice(SortDesc(rows, key), page, limit);
    assert NewestFirstPage(rows, key, PageQuery(Some(page), Some(limit))).data
        == PageSlice(SortDesc(rows, key), page, limit);
  }

  /** Every item on a page is one of the listed items. */
  lemma PageItemsAreListed<T>(items: seq<T>, q: PageQuery)
    requires Pageable(q)
    ensures forall x <- Paginate(items, q).data :: x in items
  {
    var r := Paginate(items, q).data;
    forall x | x in r
      ensures x in items
    {
      var i :| 0 <= i < |r| && r[i] == x;
      assert r[i] == items[Skip(PageOf(q), LimitOf(q)) + i];
    }
  }

  /**
   * A page is empty exactly when it lies beyond the last page; the
   * metadata stays correct either way.
   */
  lemma {:induction false} EmptyPageIffBeyondLast<T>(items: seq<T>, q: PageQuery)
    requires Pageable(q)
    ensures Paginate(items, q).data == [] <==> PageOf(q) > Paginate(items, q).meta.totalPages
  {
    var page, limit := PageOf(q), LimitOf(q);
    var c := Paginate(items, q).meta.totalPages;
    if page > c {
      MulMonotone(c, page - 1, limit);
    } else {
      assert c >= 1;
      MulMonotone(page - 1, c - 1, limit);
    }
  }

  /** When a next page exists, this page is full. */
  lemma {:induction false} HasNextMeansFullPage<T>(items: seq<T>, q: PageQuery)
    requires Pageable(q)
    requires Paginate(items, q).meta.hasNext
    ensures |Paginate(items, q).data| == LimitOf(q)
  {
    var page, limit := PageOf(q), LimitOf(q);
    var c := Paginate(items, q).meta.totalPages;
    MulMonotone(page, c - 1, limit);
    assert Skip(page, limit) + limit == page * limit;
  }

  /** Five items at ten per page: one page; page 2 is empty but still reports a previous page. */
  lemma FiveItemsTenPerPage<T>(items: seq<T>)
    requires |items| == 5
    ensures var r := Paginate(items, PageQuery(Some(1), Some(10)));
      r.meta.totalPages == 1 && !r.meta.hasNext && !r.meta.hasPrev && r.data == items
    ensures var r := Paginate(items, PageQuery(Some(2), Some(10)));
      r.data == [] && r.meta.totalPages == 1 && !r.meta.hasNext && r.meta.hasPrev
  {
    var r := Paginate(items, PageQuery(Some(1), Some(10)));
    assert r.meta.totalPages == 1;
    assert r.data == items[0..5] == items;
  }
}
