/**
 * The page of rows the list operation returns: a window of at most
 * `pageSize` consecutive rows, with its 1-based index and page count.
 * A requested index below 1 gives the first page and one past the last
 * page gives the last page.
 */
module Pagination {
  import opened Products

  /** The page size the list operation always uses. */
  const PageSize: nat := 5

  datatype Page = Page(items: seq<Product>, pageIndex: int, totalPages: nat) {
    predicate HasPreviousPage() { pageIndex > 1 }
    predicate HasNextPage() { pageIndex < totalPages }
  }

  /** The number of pages `count` rows fill: the ceiling of count / pageSize. */
  function TotalPages(count: nat, pageSize: nat): (t: nat)
    requires pageSize > 0
    ensures count <= t * pageSize
    ensures t == 0 || (t - 1) * pageSize < count
  {
    (count + pageSize - 1) / pageSize
  }

  /** The page actually served for a requested page number. */
  function ClampPage(requested: int, totalPages: nat): int
  {
    if requested < 1 || totalPages == 0 then 1
    else if requested > totalPages then totalPages
    else requested
  }

  lemma MulMonotone(a: nat, b: nat, c: nat)
    requires a <= b
    ensures a * c <= b * c
  {
  }

  /** The first row of a served page lies within the rows. */
  lemma OffsetFits(count: nat, pageSize: nat, p: int)
    requires pageSize > 0
    requires p == 1 || 1 <= p <= TotalPages(count, pageSize)
    ensures 0 <= (p - 1) * pageSize <= count
  {
    if p > 1 {
      MulMonotone(p - 1, TotalPages(count, pageSize) - 1, pageSize);
    }
  }

  /** The page of `items` with number `pageNumber` (after clamping). */
  function Paginate(items: seq<Product>, pageNumber: int, pageSize: nat): (r: Page)
    requires pageSize > 0
    ensures r.totalPages == TotalPages(|items|, pageSize)
    ensures 1 <= r.pageIndex && (r.totalPages > 0 ==> r.pageIndex <= r.totalPages)
    ensures 1 <= pageNumber <= r.totalPages ==> r.pageIndex == pageNumber
    ensures pageNumber < 1 ==> r.pageIndex == 1
    ensures pageNumber > r.totalPages > 0 ==> r.pageIndex == r.totalPages
    ensures 0 <= (r.pageIndex - 1) * pageSize <= |items|
    ensures |r.items| == if |items| - (r.pageIndex - 1) * pageSize < pageSize
                        then |items| - (r.pageIndex - 1) * pageSize else pageSize
    ensures forall k :: 0 <= k < |r.items| ==> r.items[k] == items[(r.pageIndex - 1) * pageSize + k]
  {
    var total := TotalPages(|items|, pageSize);
    var p := ClampPage(pageNumber, total);
    OffsetFits(|items|, pageSize, p);
    var start := (p - 1) * pageSize;
    var end := if start + pageSize <= |items| then start + pageSize else |items|;
    Page(items[start..end], p, total)
  }

  /** Nothing on a page is invented: every row on it is one of `items`. */
  lemma PageRowsAreInput(items: seq<Product>, pageNumber: int, pageSize: nat)
    requires pageSize > 0
    ensures forall x :: x in Paginate(items, pageNumber, pageSize).items ==> x in items
  {
    var r := Paginate(items, pageNumber, pageSize);
    forall x | x in r.items ensures x in items {
      var k :| 0 <= k < |r.items| && r.items[k] == x;
      assert items[(r.pageIndex - 1) * pageSize + k] == x;
    }
  }

  lemma DivMod(i: nat, d: nat)
    requires d > 0
    ensures (i / d) * d + i % d == i && 0 <= i % d < d
  {
  }

  /** A row's page number is within the page count. */
  lemma PageNumberOfIndex(count: nat, pageSize: nat, i: nat)
    requires pageSize > 0 && i < count
    ensures i / pageSize + 1 <= TotalPages(count, pageSize)
  {
    var q := i / pageSize;
    DivMod(i, pageSize);
    var t := TotalPages(count, pageSize);
    if t <= q {
      MulMonotone(t, q, pageSize);
      assert false;
    }
  }

  /** The pages cover the input in order: row `i` is at slot `i % size` of page `i / size + 1`. */
  lemma PageOfIndex(items: seq<Product>, pageSize: nat, i: nat)
    requires pageSize > 0 && i < |items|
    ensures var r := Paginate(items, i / pageSize + 1, pageSize);
            r.pageIndex == i / pageSize + 1 && i % pageSize < |r.items| && r.items[i % pageSize] == items[i]
  {
    var q := i / pageSize;
    var m := i % pageSize;
    DivMod(i, pageSize);
    PageNumberOfIndex(|items|, pageSize, i);
    SlotOnPage(items, pageSize, q, m);
  }

  /** Slot `m` of page `q + 1` is row `q * size + m`, when that row exists. */
  lemma SlotOnPage(items: seq<Product>, pageSize: nat, q: nat, m: nat)
    requires pageSize > 0 && m < pageSize && q * pageSize + m < |items|
    requires q + 1 <= TotalPages(|items|, pageSize)
    ensures var r := Paginate(items, q + 1, pageSize);
            r.pageIndex == q + 1 && m < |r.items| && r.items[m] == items[q * pageSize + m]
  {
    var r := Paginate(items, q + 1, pageSize);
    assert r.pageIndex == q + 1;
    var offset := (r.pageIndex - 1) * pageSize;
    assert offset == q * pageSize;
  }
}
