# ShopBridge product catalogue — a Dafny model

ShopBridge is a small REST service over one `Product` table (id, name,
optional description, price). Its logic sits in two classes:

- `ProductRepository` (data access). Listing builds a query in steps: a scan
  of the table, an ordering chosen by the free-text `sortBy` key, then, when
  `search` is given, a new query that keeps the rows whose name contains it
  and drops the ordering, and last a page of 5 rows. Get-by-id, add, update
  and delete are single store calls. Every store exception is caught and
  turned into a sentinel: no page, no product, `0` or `false`.
- `ProductController` (HTTP actions). Each action checks its input with a
  few guard clauses (id sign, missing body), calls the repository, and maps
  the answer to Ok, Created, BadRequest or NotFound.

The model replaces the database with a map from key to row, and the
nullable references with `Option`.

Modules, leaves first:

- `Wrappers`: `Option`, standing for C#'s nullable references.
- `Products`: the `Product` row, the `ProductDto` request body, and `FromDto`, which builds a row from a body.
- `Ordering`: the `sortBy` switch (`OrderFor`), the order each key stands for (`Precedes`), and an insertion sort proved sorted and a permutation.
- `Search`: the substring test used by `search` (`Contains`), shown equal to "occurs at some position", and the name filter.
- `Pagination`: the 1-based page window of size 5 and its page count.
- `Table`: the table as `map<int, Product>`, a full scan in ascending key order, and the first-match lookup by id.
- `Repository`: the list specification (`Selected`, `ListProducts`) with its lemmas, and the class `ProductRepository`. The class holds the table and the store's identity counter. Its methods read or change them in place.
- `Controller`: the five actions. Each is a pure function from the bound input and the repository's answer to the repository call made and the response.
- `Scenarios`: controller and repository together: create-then-fetch, update-then-fetch, delete-then-fetch, and missing keys. It also covers the list request that has no query parameters.

Two behaviours of the code are easy to miss, and the model keeps both:

- A failed create answers NotFound (404), not 400.
- The list action binds `pageNumber` as a non-nullable `int`. An absent page number therefore reaches the repository as 0, not as null, and the repository's `?? 1` default never applies on that path.

## Model

| member | source | states |
|---|---|---|
| `Ordering.OrderFor` | ShopBridge/Data/Services/ProductRepository.cs:31-51 | each of the five recognised keys selects its own ordering; every other key, null included, selects ascending by name |
| `Ordering.Sort` | ShopBridge/Data/Services/ProductRepository.cs:34-49 | the ordered list holds exactly the rows given, with the same multiplicities (a permutation) |
| `Ordering.Insert` | ShopBridge/Data/Services/ProductRepository.cs:34-49 | inserting adds exactly that one row to the list's multiset |
| `Ordering.InsertSorted` | ShopBridge/Data/Services/ProductRepository.cs:34-49 | inserting into a list in order `o` keeps it in order `o` |
| `Ordering.SortSorted` | ShopBridge/Data/Services/ProductRepository.cs:31-51 | the sorted list is in the chosen order: every row may precede every later row |
| `Ordering.PrecedesTotal` | ShopBridge/Data/Services/ProductRepository.cs:34-49 | any two rows are comparable under each of the six orderings |
| `Ordering.PrecedesTransitive` | ShopBridge/Data/Services/ProductRepository.cs:34-49 | each of the six orderings is transitive |
| `Search.ContainsIff` | ShopBridge/Data/Services/ProductRepository.cs:54 | `Contains(name, search)` holds exactly when `search` occurs in `name` at some position |
| `Search.NameFilter` | ShopBridge/Data/Services/ProductRepository.cs:54 | a row is kept iff it is a listed row whose name contains the search text, with its multiplicity unchanged |
| `Pagination.TotalPages` | ShopBridge/Data/Services/ProductRepository.cs:57-58 | the page count is the ceiling of rows / page size |
| `Pagination.Paginate` | ShopBridge/Data/Services/ProductRepository.cs:57-58 | the page index is the requested one when in range, 1 when below 1, the last page when beyond it; the page is the window of consecutive rows starting at (index - 1) * size, full unless it is the last |
| `Pagination.PageRowsAreInput` | ShopBridge/Data/Services/ProductRepository.cs:58 | every row on a page is a row of the paginated list |
| `Pagination.PageOfIndex` | ShopBridge/Data/Services/ProductRepository.cs:58 | the pages cover the list in order: row i is slot i mod size of page i / size + 1 |
| `Table.SortedKeys` | ShopBridge/Data/Services/ProductRepository.cs:28 | the keys of the table, each once, strictly ascending |
| `Table.Scan` | ShopBridge/Data/Services/ProductRepository.cs:28 | a scan lists exactly the table's rows, one per key, in ascending id order on a well-keyed table |
| `Table.FirstWithId` | ShopBridge/Data/Services/ProductRepository.cs:89 | a found row has the requested id and is one of the rows; none is found only when no row has that id |
| `Table.FirstWithIdIsKeyLookup` | ShopBridge/Data/Services/ProductRepository.cs:89 | on a well-keyed table the first-match search over a scan is exactly the key lookup |
| `Repository.SortedWithoutSearch` | ShopBridge/Data/Services/ProductRepository.cs:31-51 | without a search the list handed to pagination is in the `sortBy` order and is a permutation of the table's rows |
| `Repository.DefaultOrderIsNameAscending` | ShopBridge/Data/Services/ProductRepository.cs:48-50 | an unrecognised or null `sortBy` gives ascending name order |
| `Repository.SearchReplacesSort` | ShopBridge/Data/Services/ProductRepository.cs:52-55 | with a search the list does not depend on `sortBy`; it is exactly the table's rows whose name has the search text at some position, each once |
| `Repository.DistinctOnce` | ShopBridge/Data/Services/ProductRepository.cs:28 | a list without repeated rows holds each row once |
| `Repository.ScanHasNoDuplicates` | ShopBridge/Data/Services/ProductRepository.cs:28 | a scan of a well-keyed table lists every row once |
| `Repository.ListedRowsAreTableRows` | ShopBridge/Data/Services/ProductRepository.cs:57-58 | a listed page has at most 5 rows, all rows of the table |
| `Repository.ProductRepository.GetProducts` | ShopBridge/Data/Services/ProductRepository.cs:23-83 | no page exactly when the store fails; otherwise the page of the selected list numbered `pageNumber ?? 1`, at most 5 rows, all from the table, which is left unchanged |
| `Repository.ProductRepository.GetProductById` | ShopBridge/Data/Services/ProductRepository.cs:84-115 | a product is returned iff the store does not fail and the key is present, and it is the row stored under that key |
| `Repository.ProductRepository.AddProduct` | ShopBridge/Data/Services/ProductRepository.cs:117-156 | on success exactly one row is added, under a fresh key, holding the body's name, description and price, and that key (non-zero) is returned; on failure 0 and no change |
| `Repository.ProductRepository.UpdateProduct` | ShopBridge/Data/Services/ProductRepository.cs:157-196 | true iff the store does not fail and the key exists; then the row is replaced wholesale by the body's fields under that key and nothing else changes; otherwise nothing changes |
| `Repository.ProductRepository.DeleteProduct` | ShopBridge/Data/Services/ProductRepository.cs:197-234 | true iff the store does not fail and the key exists; then exactly that row is removed; otherwise nothing changes |
| `Controller.GetProducts` | ShopBridge/Controllers/ProductController.cs:26-47 | always calls the list operation with a page number (0 when absent); NotFound iff the repository returns null; an exception gives BadRequest; any page, empty or not, gives Ok with it |
| `Controller.GetProduct` | ShopBridge/Controllers/ProductController.cs:49-75 | an id of 0 or less gives BadRequest with no repository call; otherwise NotFound iff no product, Ok with the product iff one is returned |
| `Controller.AddProduct` | ShopBridge/Controllers/ProductController.cs:76-102 | a missing body gives BadRequest with no repository call; a returned id of 0 or less gives NotFound; a positive id gives Created with that id |
| `Controller.UpdateBook` | ShopBridge/Controllers/ProductController.cs:103-133 | a missing body or an id of 0 or less gives BadRequest with no repository call; false gives NotFound; true gives Ok(true) |
| `Controller.DeleteBook` | ShopBridge/Controllers/ProductController.cs:135-160 | an id of 0 or less gives BadRequest with no repository call; false gives NotFound; true gives Ok(true) |
| `Controller.NoServerErrors` | ShopBridge/Controllers/ProductController.cs:26-160 | every response the actions build has status 200, 201, 400 or 404, never 500; an exception beneath any of the five actions always becomes 400 |
| `Controller.RejectionIgnoresRepository` | ShopBridge/Controllers/ProductController.cs:55-145 | an action that refuses its input without calling the repository answers the same whatever the repository would have returned |
| `Controller.ListAlwaysPassesPageNumber` | ShopBridge/Controllers/ProductController.cs:27-32 | the list action always passes a page number, 0 when the query has none |
| `Scenarios.MissingPageNumberServesFirstPage` | ShopBridge/Controllers/ProductController.cs:27-32 | a list request without a page number reaches the repository as page 0, which serves the same page as the default of 1: page 1 |
| `Scenarios.SevenRowsFirstPage` | ShopBridge/Data/Services/ProductRepository.cs:28-58 | with no query parameters on seven rows: page 1 of 2, exactly the first five rows of the name-ordered table, a next page and no previous page |
| `Scenarios.CreateThenFetch` | ShopBridge/Data/Services/ProductRepository.cs:117-136 | creating a product answers Created with a positive id, and fetching that id returns the body's three fields under it |
| `Scenarios.UpdateThenFetch` | ShopBridge/Data/Services/ProductRepository.cs:163-176 | updating an existing key answers Ok(true); a later fetch returns just the body's fields, and the new table is the old one with only that key's row replaced |
| `Scenarios.DeleteMissing` | ShopBridge/Data/Services/ProductRepository.cs:203-220 | deleting an absent key answers 404 and leaves the table and its row count unchanged |
| `Scenarios.UpdateMissing` | ShopBridge/Data/Services/ProductRepository.cs:163-188 | updating an absent key answers NotFound and leaves the table unchanged |
| `Scenarios.DeleteThenFetch` | ShopBridge/Data/Services/ProductRepository.cs:203-220 | deleting an existing key answers Ok(true), the new table is the old one without that key (every other row unchanged), and a later fetch answers NotFound |

## Left out

- Database mechanics are abstracted to a map from key to row. This covers change tracking, `SaveChangesAsync` and its row counts, and the identity column, which becomes the `nextId` counter. A write "affects a row" exactly when the key is present. The concurrency error the store raises for a missing key becomes the `false` answer.
- A failing store is the `fails` parameter of each repository operation. A failure is observed as a whole: the operation returns its sentinel and the table is unchanged, since a failed save persists nothing. Several failure points inside one listing are not told apart.
- Repository.ProductRepository.UpdateProduct: treats key 0 like any other missing key. The store would instead treat a row with the default key as new and insert it. The controller never passes a key of 0 or less.
- The unreachable null branches are not modelled. A scan never yields null (ProductRepository.cs:63-68), and an added entity is never null (ProductRepository.cs:137-142). A null answer arises only from a store failure.
- The order of a scan is fixed as ascending key order. The source leaves it to the database.
- The database orders rows with equal sort keys in no particular way. The model fixes one order: the insertion sort keeps scan order among equal keys. Everything proved about the order is sortedness and permutation, and that holds for any such order.
- String comparison is ordinal, character by character, with no culture or collation. A null description sorts first when ascending and last when descending. The decimal price is an integer.
- Pagination: the paginated-list class is not part of this model. `Pagination.Paginate` gives it this behaviour:
  - 1-based pages of the given size;
  - a number below 1 serves page 1;
  - a number beyond the last page serves the last page;
  - the page count, and previous/next flags.
- The page returned to a client is modelled as the whole `Page`. The JSON body of the list response is not modelled.
- Controller.UpdateBook: does not show that the missing body is checked before the id. Both checks give BadRequest with no repository call. The order only shows in the log message, and logging is not modelled.
- Logging, `async`/`Task` and request-scoped lifetimes are not modelled. They are side effects and scheduling, not results.
- HTTP routing, model binding and `[Required]` validation of the body are not modelled. Nor is the automatic 400 for an invalid body, or the location URL that `CreatedAtAction` builds. `Created` carries only the new id.
- `IProductRepository` and `ShopBridgeStoreContext` declare signatures only. The model's `Repository` module and `Table` type stand in for them.
