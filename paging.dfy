/** Pagination arithmetic shared by the list endpoints: `skip = (page - 1) * page_size`
    and `pages = (total + page_size - 1) // page_size` in admin.py, `offset` and
    `hasMore` in live.py, and the OFFSET/LIMIT window those values select. */
module Paging {

  function Min(a: int, b: int): int { if a <= b then a else b }
  function Max(a: int, b: int): int { if a >= b then a else b }

  /** What the query declarations admit: `page >= 1` and `1 <= page_size <= 100`;
      any other value is rejected by the framework before the handler runs. */
  predicate ValidPaging(page: int, pageSize: int)
  {
    page >= 1 && 1 <= pageSize <= 100
  }

  /** `skip` (admin.py) and `offset` (live.py): the number of rows before the page.
      It is a natural number of whole pages. */
  function Skip(page: int, pageSize: int): (skip: nat)
    requires ValidPaging(page, pageSize)
  {
    (page - 1) * pageSize
  }

  /** `skip` is page - 1 whole pages. */
  lemma SkipWholePages(page: int, pageSize: int)
    requires ValidPaging(page, pageSize)
    ensures Skip(page, pageSize) % pageSize == 0 && Skip(page, pageSize) / pageSize == page - 1
  {
    var q, d := page - 1, pageSize;
    var x := Skip(page, pageSize);
    assert x == q * d;
    var e := x / d - q;
    assert e * d == -(x % d);
  }

  /** `pages`: the number of pages needed for `total` rows, by ceiling division. Both
      operands are non-negative, so Python's floor division is Dafny's `/`. */
  function Pages(total: nat, pageSize: int): (pages: nat)
    requires 1 <= pageSize <= 100
    ensures pages * pageSize >= total
    ensures total > 0 ==> (pages - 1) * pageSize < total
    ensures pages == 0 <==> total == 0
  {
    CeilingDivision(total, pageSize);
    (total + pageSize - 1) / pageSize
  }

  lemma CeilingDivision(total: nat, d: int)
    requires 1 <= d
    ensures ((total + d - 1) / d) * d >= total
    ensures total > 0 ==> ((total + d - 1) / d - 1) * d < total
    ensures (total + d - 1) / d == 0 <==> total == 0
  {
    var q := (total + d - 1) / d;
    var r := (total + d - 1) % d;
    assert total + d - 1 == q * d + r && 0 <= r < d;
  }

  /** The rows an `OFFSET offset LIMIT limit` clause returns. */
  function Window<T>(rows: seq<T>, offset: nat, limit: nat): (w: seq<T>)
    ensures |w| == Min(limit, Max(0, |rows| - offset))
    ensures forall i :: 0 <= i < |w| ==> w[i] == rows[offset + i]
  {
    if offset >= |rows| then [] else rows[offset..Min(offset + limit, |rows|)]
  }

  /** The rows shown on page `page`. */
  function PageRows<T>(rows: seq<T>, page: int, pageSize: int): seq<T>
    requires ValidPaging(page, pageSize)
  {
    Window(rows, Skip(page, pageSize), pageSize)
  }

  // ---- arithmetic steps, kept small for the solver ----

  lemma MulMono(a: int, b: int, d: nat)
    requires a <= b
    ensures a * d <= b * d
  {
    var e := b - a;
    assert b * d == a * d + e * d;
  }

  lemma MultiplyCancel(a: int, b: int, c: int)
    requires c > 0 && a * c < b * c
    ensures a < b
  {
    if a >= b { MulMono(b, a, c); }
  }

  lemma MulSucc(k: int, d: int)
    ensures k * d == (k - 1) * d + d
  {
  }

  lemma DivBounds(i: nat, d: int)
    requires d > 0
    ensures (i / d) * d <= i < (i / d) * d + d
  {
    assert i == (i / d) * d + i % d;
  }

  /** Row i lies on page i / pageSize + 1, which is one of the `pages` pages, and inside
      that page's window. */
  lemma RowOnItsPage(total: nat, pageSize: int, i: nat)
    requires 1 <= pageSize <= 100 && i < total
    ensures var p := i / pageSize + 1;
      && ValidPaging(p, pageSize)
      && 1 <= p <= Pages(total, pageSize)
      && Skip(p, pageSize) <= i < Skip(p, pageSize) + pageSize
  {
    var q := i / pageSize;
    var p := q + 1;
    DivBounds(i, pageSize);
    assert Skip(p, pageSize) == q * pageSize;
    var pages := Pages(total, pageSize);
    assert q * pageSize < pages * pageSize;
    MultiplyCancel(q, pages, pageSize);
  }

  /** A row shown on a page is a row of the query. */
  lemma PageRowIsRow<T>(rows: seq<T>, page: int, pageSize: int, x: T)
    requires ValidPaging(page, pageSize) && x in PageRows(rows, page, pageSize)
    ensures x in rows
  {
    var w := PageRows(rows, page, pageSize);
    var i :| 0 <= i < |w| && w[i] == x;
    assert rows[Skip(page, pageSize) + i] == x;
  }

  /** Every row of the query is shown on one of the `pages` pages. */
  lemma RowIsShown<T>(rows: seq<T>, pageSize: int, i: int)
    requires 1 <= pageSize <= 100 && 0 <= i < |rows|
    ensures exists p ::
      1 <= p <= Pages(|rows|, pageSize) && ValidPaging(p, pageSize) &&
      rows[i] in PageRows(rows, p, pageSize)
  {
    RowOnItsPage(|rows|, pageSize, i);
    var p := i / pageSize + 1;
    var w := PageRows(rows, p, pageSize);
    assert w[i - Skip(p, pageSize)] == rows[i];
  }

  /** The pages 1..k laid end to end. */
  function FirstPages<T>(rows: seq<T>, pageSize: int, k: nat): seq<T>
    requires 1 <= pageSize <= 100
  {
    if k == 0 then [] else FirstPages(rows, pageSize, k - 1) + PageRows(rows, k, pageSize)
  }

  lemma {:induction false} FirstPagesArePrefix<T>(rows: seq<T>, pageSize: int, k: nat)
    requires 1 <= pageSize <= 100
    ensures FirstPages(rows, pageSize, k) == rows[..Min(k * pageSize, |rows|)]
  {
    if k > 0 {
      FirstPagesArePrefix(rows, pageSize, k - 1);
      var start := (k - 1) * pageSize;
      MulSucc(k, pageSize);
      assert Skip(k, pageSize) == start;
      var w := PageRows(rows, k, pageSize);
      PrefixStep(rows, start, pageSize, w);
    }
  }

  lemma PrefixStep<T>(rows: seq<T>, start: nat, size: nat, w: seq<T>)
    requires w == Window(rows, start, size)
    ensures rows[..Min(start + size, |rows|)] == rows[..Min(start, |rows|)] + w
  {
    var lo, hi := Min(start, |rows|), Min(start + size, |rows|);
    assert |w| == hi - lo;
    forall i | 0 <= i < hi ensures rows[..hi][i] == (rows[..lo] + w)[i] {
      if i >= lo { assert w[i - lo] == rows[start + (i - lo)]; }
    }
  }

  /** Paging loses nothing and repeats nothing: the `pages` pages, read in order, are
      exactly the rows of the query. */
  lemma AllPagesAreAllRows<T>(rows: seq<T>, pageSize: int)
    requires 1 <= pageSize <= 100
    ensures FirstPages(rows, pageSize, Pages(|rows|, pageSize)) == rows
  {
    var pages := Pages(|rows|, pageSize);
    FirstPagesArePrefix(rows, pageSize, pages);
    assert Min(pages * pageSize, |rows|) == |rows|;
  }

  /** Every page before the last is full and every page after it is empty. */
  lemma PageSizes<T>(rows: seq<T>, page: int, pageSize: int)
    requires ValidPaging(page, pageSize)
    ensures page < Pages(|rows|, pageSize) ==> |PageRows(rows, page, pageSize)| == pageSize
    ensures page > Pages(|rows|, pageSize) ==> PageRows(rows, page, pageSize) == []
  {
    var pages := Pages(|rows|, pageSize);
    var skip := Skip(page, pageSize);
    assert skip == (page - 1) * pageSize;
    MulSucc(page, pageSize);
    MulSucc(pages, pageSize);
    if page < pages {
      MulMono(page, pages - 1, pageSize);
      assert skip + pageSize <= (pages - 1) * pageSize < |rows|;
    }
    if page > pages {
      MulMono(pages, page - 1, pageSize);
      assert skip >= |rows|;
    }
  }

  /** The pagination block of the public live list: `total` is the length of the page
      and `hasMore` says the page came back full. */
  datatype LiveListMeta = LiveListMeta(page: int, pageSize: int, total: int, hasMore: bool)

  function LiveMeta(page: int, pageSize: int, shown: nat): (m: LiveListMeta)
    ensures m.page == page && m.pageSize == pageSize
    ensures m.total == shown
    ensures m.hasMore <==> shown == pageSize
  {
    LiveListMeta(page, pageSize, shown, shown == pageSize)
  }

  /** A short page really is the last one: when `hasMore` is false there are no rows on
      the next page. */
  lemma NoMoreMeansLastPage<T>(rows: seq<T>, page: int, pageSize: int)
    requires ValidPaging(page, pageSize)
    requires !LiveMeta(page, pageSize, |PageRows(rows, page, pageSize)|).hasMore
    ensures PageRows(rows, page + 1, pageSize) == []
    ensures Skip(page, pageSize) + |PageRows(rows, page, pageSize)| >= |rows|
  {
    assert Skip(page + 1, pageSize) == Skip(page, pageSize) + pageSize;
  }

  /** `hasMore` is only a hint: a full last page reports more rows that do not exist,
      and `total` is the page length, not the number of live streams. */
  lemma HasMoreOnFullLastPage<T>(rows: seq<T>, pageSize: int)
    requires 1 <= pageSize <= 100 && |rows| == 2 * pageSize
    ensures LiveMeta(2, pageSize, |PageRows(rows, 2, pageSize)|).hasMore
    ensures PageRows(rows, 3, pageSize) == []
    ensures LiveMeta(1, pageSize, |PageRows(rows, 1, pageSize)|).total < |rows|
  {
    assert Skip(3, pageSize) == 2 * pageSize;
  }
}
