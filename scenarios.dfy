/**
 * The controller and the repository together: what a client observes
 * when the store does not fail.
 */
module Scenarios {
  import opened Wrappers
  import opened Products
  import opened Ordering
  import opened Pagination
  import opened Table
  import opened Repository
  import opened Controller

  /** A request without a page number reaches the repository as page 0, which serves page 1. */
  lemma MissingPageNumberServesFirstPage(t: Table, sortBy: Option<string>, search: Option<string>,
                                        answer: Outcome<Option<Page>>)
    ensures GetProducts(sortBy, search, None, answer).call == Some(ListCall(sortBy, search, Some(0)))
    ensures ListProducts(t, sortBy, search, Some(0)) == ListProducts(t, sortBy, search, None)
    ensures ListProducts(t, sortBy, search, Some(0)).pageIndex == 1
  {
  }

  /**
   * A list request with no query parameters on a table of seven rows:
   * page 1 of 2, five rows, a next page and no previous one, in ascending
   * name order, the first five rows of the name-ordered table.
   */
  lemma SevenRowsFirstPage(t: Table)
    requires |t| == 7
    ensures var p := ListProducts(t, None, None, Some(BindInt(None)));
            && p.pageIndex == 1 && p.totalPages == 2
            && |p.items| == 5 && p.HasNextPage() && !p.HasPreviousPage()
            && Sorted(NameAsc, p.items) && p.items == Sort(NameAsc, Scan(t))[..5]
  {
    var s := Sort(NameAsc, Scan(t));
    SortSorted(NameAsc, Scan(t));
    assert ListProducts(t, None, None, Some(BindInt(None))) == Paginate(s, 0, PageSize);
    FirstPageOfSeven(NameAsc, s);
  }

  /** Page 0 of a sorted list of seven rows is its first five rows, page 1 of 2. */
  lemma FirstPageOfSeven(o: SortOrder, s: seq<Product>)
    requires |s| == 7 && Sorted(o, s)
    ensures var p := Paginate(s, 0, PageSize);
            && p.pageIndex == 1 && p.totalPages == 2
            && |p.items| == 5 && p.HasNextPage() && !p.HasPreviousPage()
            && Sorted(o, p.items) && p.items == s[..5]
  {
    assert TotalPages(7, PageSize) == 2;
    var p := Paginate(s, 0, PageSize);
    assert p.pageIndex == 1;
    assert p.items == s[..5];
    assert Sorted(o, s[..5]) by {
      forall i, j | 0 <= i < j < 5 ensures Precedes(o, s[..5][i], s[..5][j]) {
        assert s[..5][i] == s[i] && s[..5][j] == s[j];
      }
    }
  }

  /** Creating a product and fetching it by the returned id gives back the payload's fields. */
  method CreateThenFetch(repo: ProductRepository, dto: ProductDto) returns (created: Handled, fetched: Handled)
    requires repo.Valid()
    modifies repo
    ensures repo.Valid()
    ensures created.response.Created? && created.response.id > 0
    ensures fetched.response == Ok(ProductBody(FromDto(created.response.id, dto)))
  {
    var id := repo.AddProduct(dto, false);
    created := Controller.AddProduct(Some(dto), Returns(id));
    fetched := Controller.GetProduct(id, Returns(repo.GetProductById(id, false)));
  }

  /** Updating an existing row replaces all its fields: nothing of the old row survives. */
  method UpdateThenFetch(repo: ProductRepository, id: int, dto: ProductDto) returns (updated: Handled, fetched: Handled)
    requires repo.Valid() && id in repo.products
    modifies repo
    ensures repo.Valid()
    ensures updated.response == Ok(FlagBody(true))
    ensures fetched.response == Ok(ProductBody(FromDto(id, dto)))
    ensures repo.products == old(repo.products)[id := FromDto(id, dto)]
  {
    var ok := repo.UpdateProduct(id, dto, false);
    updated := Controller.UpdateBook(Some(dto), id, Returns(ok));
    fetched := Controller.GetProduct(id, Returns(repo.GetProductById(id, false)));
  }

  /** Deleting a key that is not in the table is NotFound and leaves the table as it was. */
  method DeleteMissing(repo: ProductRepository, id: int) returns (h: Handled)
    requires repo.Valid() && id > 0 && id !in repo.products
    modifies repo
    ensures repo.Valid()
    ensures h.response == NotFound && StatusCode(h.response) == 404
    ensures repo.products == old(repo.products) && |repo.products| == |old(repo.products)|
  {
    var deleted := repo.DeleteProduct(id, false);
    h := Controller.DeleteBook(id, Returns(deleted));
  }

  /** Updating a key that is not in the table is NotFound and leaves the table as it was. */
  method UpdateMissing(repo: ProductRepository, id: int, dto: ProductDto) returns (h: Handled)
    requires repo.Valid() && id > 0 && id !in repo.products
    modifies repo
    ensures repo.Valid()
    ensures h.response == NotFound
    ensures repo.products == old(repo.products)
  {
    var updated := repo.UpdateProduct(id, dto, false);
    h := Controller.UpdateBook(Some(dto), id, Returns(updated));
  }

  /** Deleting an existing row removes it and only it; a later fetch is NotFound. */
  method DeleteThenFetch(repo: ProductRepository, id: int) returns (deleted: Handled, fetched: Handled)
    requires repo.Valid() && id > 0 && id in repo.products
    modifies repo
    ensures repo.Valid()
    ensures deleted.response == Ok(FlagBody(true))
    ensures fetched.response == NotFound
    ensures repo.products == old(repo.products) - {id}
  {
    var ok := repo.DeleteProduct(id, false);
    deleted := Controller.DeleteBook(id, Returns(ok));
    fetched := Controller.GetProduct(id, Returns(repo.GetProductById(id, false)));
  }
}
