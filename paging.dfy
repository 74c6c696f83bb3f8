/** Pagination as every list route computes it:
    `currentPage = Math.abs(Number(q.currentPage)) || 1`,
    `pageSize = Math.abs(Number(q.pageSize)) || 10`,
    `offset = (currentPage - 1) * pageSize`, then LIMIT/OFFSET. */
module Paging {
  import opened Common

  const DefaultPage: nat := 1
  const DefaultPageSize: nat := 10

  /** A query parameter after `Number`: None when absent or not numeric
      (NaN). Fractional numbers are not modelled. */
  function PageParam(raw: Option<int>, default: nat): (n: nat)
    requires default >= 1
    ensures n >= 1
    ensures Truthy(raw) ==> n == Abs(raw.value)
    ensures !Truthy(raw) ==> n == default
  {
    if Truthy(raw) then Abs(raw.value) else default
  }

  datatype Page = Page(currentPage: nat, pageSize: nat)

  /** The page and size a list route uses for the given query parameters. */
  function ParsePage(rawPage: Option<int>, rawSize: Option<int>): (p: Page)
    ensures p.currentPage >= 1 && p.pageSize >= 1
    ensures rawPage == Some(-3) ==> p.currentPage == 3
    ensures rawSize == Some(0) ==> p.pageSize == DefaultPageSize
  {
    Page(PageParam(rawPage, DefaultPage), PageParam(rawSize, DefaultPageSize))
  }

  function Offset(p: Page): nat
    requires p.currentPage >= 1
  {
    (p.currentPage - 1) * p.pageSize
  }

  /** LIMIT `limit` OFFSET `offset` over an ordered result. */
  function Window<X>(s: seq<X>, offset: nat, limit: nat): (w: seq<X>)
    ensures |w| <= limit
    ensures offset <= |s| ==> |w| == Min(limit, |s| - offset)
    ensures offset >= |s| ==> w == []
    ensures forall k :: 0 <= k < |w| ==> offset + k < |s| && w[k] == s[offset + k]
  {
    s[Min(offset, |s|)..Min(offset + limit, |s|)]
  }

  /** `items` is page `p` of `all`: the rows from position `Offset(p)` on,
      `pageSize` of them or as many as remain, in order. */
  ghost predicate PageOf<X>(items: seq<X>, all: seq<X>, p: Page)
    requires p.currentPage >= 1
  {
    && |items| == (if Offset(p) <= |all| then Min(p.pageSize, |all| - Offset(p)) else 0)
    && forall k :: 0 <= k < |items| ==> Offset(p) + k < |all| && items[k] == all[Offset(p) + k]
  }

  /** A page is determined by the list and the page parameters. */
  lemma {:induction false} PageOfUnique<X>(a: seq<X>, b: seq<X>, all: seq<X>, p: Page)
    requires p.currentPage >= 1 && PageOf(a, all, p) && PageOf(b, all, p)
    ensures a == b
  {
    assert |a| == |b|;
    forall k | 0 <= k < |a| ensures a[k] == b[k] {
      assert a[k] == all[Offset(p) + k] == b[k];
    }
  }

  /** A list response: one page of rows and the pagination block. */
  datatype Paginated<X> = Paginated(items: seq<X>, total: nat, currentPage: nat, pageSize: nat)

  /** findAndCountAll with LIMIT/OFFSET: `total` counts every matching row,
      whatever the page; the page holds at most `pageSize` rows, taken in
      order starting at the page's offset. */
  function Paginate<X>(all: seq<X>, p: Page): (r: Paginated<X>)
    requires p.currentPage >= 1
    ensures r.total == |all|
    ensures r.currentPage == p.currentPage && r.pageSize == p.pageSize
    ensures |r.items| <= p.pageSize
    ensures forall k :: 0 <= k < |r.items| ==>
              Offset(p) + k < |all| && r.items[k] == all[Offset(p) + k]
    ensures Offset(p) < |all| && p.pageSize > 0 ==> |r.items| > 0
    ensures PageOf(r.items, all, p)
  {
    Paginated(Window(all, Offset(p), p.pageSize), |all|, p.currentPage, p.pageSize)
  }

  /** The first `k` pages of size `size`, one after the other. */
  function FirstPages<X>(s: seq<X>, size: nat, k: nat): seq<X>
  {
    if k == 0 then [] else FirstPages(s, size, k - 1) + Window(s, (k - 1) * size, size)
  }

  /** Paging tiles the result: pages 1..k together are exactly the first
      k * size rows, so no row is skipped or shown on two pages. */
  lemma {:induction false} PagesTile<X>(s: seq<X>, size: nat, k: nat)
    ensures FirstPages(s, size, k) == s[..Min(k * size, |s|)]
  {
    if k > 0 {
      PagesTile(s, size, k - 1);
      var a := Min((k - 1) * size, |s|);
      var b := Min(k * size, |s|);
      assert k * size == (k - 1) * size + size;
      assert Window(s, (k - 1) * size, size) == s[a..b];
      assert s[..a] + s[a..b] == s[..b];
    }
  }
}
