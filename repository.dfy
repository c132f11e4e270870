/**
 * The product repository: the five data-access operations over the
 * product table. Each operation takes `fails`, standing for any
 * exception the store raises during the call; the repository catches it
 * and answers with its sentinel (no page, no product, 0 or false).
 */
module Repository {
  import opened Wrappers
  import opened Products
  import opened Ordering
  import opened Search
  import opened Pagination
  import opened Table

  /**
   * The list handed to pagination: the table ordered by `sortBy`, unless
   * `search` is given, in which case a fresh query over the whole table
   * keeps the rows whose name contains it and the ordering is lost.
   */
  function Selected(t: Table, sortBy: Option<string>, search: Option<string>): seq<Product>
  {
    var sorted := Sort(OrderFor(sortBy), Scan(t));
    if search.Some? then NameFilter(Scan(t), search.value) else sorted
  }

  /** The page the list operation returns; an absent page number means page 1. */
  function ListProducts(t: Table, sortBy: Option<string>, search: Option<string>, pageNumber: Option<int>): Page
  {
    Paginate(Selected(t, sortBy, search), pageNumber.GetOr(1), PageSize)
  }

  /** Without a search, the list is every row of the table, in the order `sortBy` selects. */
  lemma SortedWithoutSearch(t: Table, sortBy: Option<string>)
    ensures Sorted(OrderFor(sortBy), Selected(t, sortBy, None))
    ensures multiset(Selected(t, sortBy, None)) == multiset(Scan(t))
    ensures forall x :: x in Selected(t, sortBy, None) <==> x in t.Values
  {
    SortSorted(OrderFor(sortBy), Scan(t));
    var s := Selected(t, sortBy, None);
    forall x ensures x in s <==> x in t.Values {
      assert x in s <==> x in multiset(s);
      assert x in Scan(t) <==> x in multiset(Scan(t));
    }
  }

  /** An unrecognised or absent `sortBy` orders by name, ascending. */
  lemma DefaultOrderIsNameAscending(t: Table, sortBy: Option<string>)
    requires sortBy !in RecognizedKeys
    ensures Sorted(NameAsc, Selected(t, sortBy, None))
  {
    SortSorted(NameAsc, Scan(t));
  }

  /**
   * With a search, the list is exactly the table's rows whose name has the
   * search text as a substring, each once, whatever `sortBy` asked for.
   */
  lemma SearchReplacesSort(t: Table, sortBy: Option<string>, other: Option<string>, search: string)
    ensures Selected(t, sortBy, Some(search)) == Selected(t, other, Some(search)) == NameFilter(Scan(t), search)
    ensures forall x :: x in Selected(t, sortBy, Some(search)) <==>
              x in t.Values && exists i :: OccursAt(x.name, search, i)
    ensures WellKeyed(t) ==> forall x :: multiset(Selected(t, sortBy, Some(search)))[x] <= 1
  {
    var s := NameFilter(Scan(t), search);
    assert Selected(t, sortBy, Some(search)) == s;
    FilterMembers(Scan(t), search);
    if WellKeyed(t) {
      ScanHasNoDuplicates(t);
    }
  }

  /** A filtered row is a scanned row whose name has the search text at some position, and conversely. */
  lemma FilterMembers(rows: seq<Product>, search: string)
    ensures forall x :: x in NameFilter(rows, search) <==> x in rows && exists i :: OccursAt(x.name, search, i)
  {
    forall x ensures x in NameFilter(rows, search) <==> x in rows && exists i :: OccursAt(x.name, search, i) {
      ContainsIff(x.name, search);
    }
  }

  /** A sequence without repeated elements holds each element once. */
  lemma {:induction false} DistinctOnce(s: seq<Product>)
    requires forall i, j :: 0 <= i < j < |s| ==> s[i] != s[j]
    ensures forall x :: multiset(s)[x] <= 1
    decreases |s|
  {
    if s != [] {
      DistinctOnce(s[1..]);
      assert s == [s[0]] + s[1..];
      assert s[0] !in s[1..];
    }
  }

  /** On a well-keyed table a scan lists each row once. */
  lemma ScanHasNoDuplicates(t: Table)
    requires WellKeyed(t)
    ensures forall x :: multiset(Scan(t))[x] <= 1
  {
    DistinctOnce(Scan(t));
  }

  /** The list operation neither invents rows nor exceeds the page size. */
  lemma ListedRowsAreTableRows(t: Table, sortBy: Option<string>, search: Option<string>, pageNumber: Option<int>)
    ensures |ListProducts(t, sortBy, search, pageNumber).items| <= PageSize
    ensures forall x :: x in ListProducts(t, sortBy, search, pageNumber).items ==> x in t.Values
  {
    var s := Selected(t, sortBy, search);
    PageRowsAreInput(s, pageNumber.GetOr(1), PageSize);
    forall x | x in s ensures x in t.Values {
      if search.None? {
        SortedWithoutSearch(t, sortBy);
      }
    }
  }

  /**
   * The repository over a product table. `nextId` is the store's identity
   * counter: the key the next inserted row receives.
   */
  class ProductRepository {
    var products: Table
    var nextId: int

    /** Rows are stored under their ids, and every id was handed out before. */
    ghost predicate Valid()
      reads this
    {
      1 <= nextId && forall k :: k in products ==> products[k].id == k && 1 <= k < nextId
    }

    constructor ()
      ensures Valid() && products == map[] && nextId == 1
    {
      products := map[];
      nextId := 1;
    }

    /**
     * GetProductsAsync: a scan, the `sortBy` query, the `search` query when
     * given, then page `pageNumber ?? 1` of size 5. Reading never changes the table.
     */
    method GetProducts(sortBy: Option<string>, search: Option<string>, pageNumber: Option<int>, fails: bool)
      returns (r: Option<Page>)
      ensures r.None? <==> fails
      ensures r.Some? ==> r.value == ListProducts(products, sortBy, search, pageNumber)
      ensures r.Some? ==> |r.value.items| <= PageSize && forall x :: x in r.value.items ==> x in products.Values
    {
      if fails {
        return None;
      }
      var rows := Scan(products);
      rows := Sort(OrderFor(sortBy), Scan(products));
      if search.Some? {
        rows := NameFilter(Scan(products), search.value);
      }
      var pageSize := PageSize;
      var page := Paginate(rows, pageNumber.GetOr(1), pageSize);
      ListedRowsAreTableRows(products, sortBy, search, pageNumber);
      return Some(page);
    }

    /** GetProductsByIdAsync: the first row whose id is `id`, if any. */
    function GetProductById(id: int, fails: bool): (r: Option<Product>)
      requires Valid()
      reads this
      ensures r.Some? <==> !fails && id in products
      ensures r.Some? ==> r.value == products[id] && r.value.id == id
    {
      FirstWithIdIsKeyLookup(products, id);
      if fails then None else FirstWithId(Scan(products), id)
    }

    /**
     * AddProductsAsync: inserts a row holding the payload under the key the
     * store assigns and returns that key, or 0 when the store fails.
     */
    method AddProduct(dto: ProductDto, fails: bool) returns (id: int)
      requires Valid()
      modifies this
      ensures Valid()
      ensures id != 0 <==> !fails
      ensures fails ==> products == old(products) && nextId == old(nextId)
      ensures !fails ==> id == old(nextId) && id !in old(products)
                         && products == old(products)[id := FromDto(id, dto)]
                         && nextId == old(nextId) + 1
    {
      if fails {
        return 0;
      }
      id := nextId;
      products := products[id := FromDto(id, dto)];
      nextId := nextId + 1;
    }

    /**
     * UpdateProductAsync: replaces the whole row with key `id` by the
     * payload's fields. A missing key affects no row (the store's
     * concurrency error), so the answer is false and nothing changes.
     */
    method UpdateProduct(id: int, dto: ProductDto, fails: bool) returns (updated: bool)
      requires Valid()
      modifies this
      ensures Valid() && nextId == old(nextId)
      ensures updated <==> !fails && id in old(products)
      ensures products == if updated then old(products)[id := FromDto(id, dto)] else old(products)
    {
      if fails || id !in products {
        return false;
      }
      products := products[id := FromDto(id, dto)];
      return true;
    }

    /** DeleteProductAsync: removes the row with key `id`; false when no row was affected. */
    method DeleteProduct(id: int, fails: bool) returns (deleted: bool)
      requires Valid()
      modifies this
      ensures Valid() && nextId == old(nextId)
      ensures deleted <==> !fails && id in old(products)
      ensures products == if deleted then old(products) - {id} else old(products)
    {
      if fails || id !in products {
        return false;
      }
      products := products - {id};
      return true;
    }
  }
}
