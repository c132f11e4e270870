/**
 * The product controller: each HTTP action as a function from its bound
 * input and the repository's answer to the repository call it makes (if
 * any) and the response it gives. An answer `Throws` stands for an
 * exception escaping the repository call; the action's catch turns it
 * into a bad request.
 */
module Controller {
  import opened Wrappers
  import opened Products
  import opened Pagination

  /** What a repository call gave back: a value, or an exception. */
  datatype Outcome<T> = Returns(value: T) | Throws

  /** The repository operation an action invokes, with its arguments. */
  datatype RepositoryCall =
    | ListCall(sortBy: Option<string>, search: Option<string>, pageNumber: Option<int>)
    | GetByIdCall(id: int)
    | AddCall(product: ProductDto)
    | UpdateCall(id: int, product: ProductDto)
    | DeleteCall(id: int)

  /** The body of a successful response. */
  datatype Body = PageBody(page: Page) | ProductBody(product: Product) | FlagBody(flag: bool)

  /** The action results the controller uses; `Created` carries the new id. */
  datatype Response = Ok(body: Body) | Created(id: int) | BadRequest | NotFound

  function StatusCode(r: Response): int
  {
    match r
    case Ok(_) => 200
    case Created(_) => 201
    case BadRequest => 400
    case NotFound => 404
  }

  /** The repository call made, if any, and the response. */
  datatype Handled = Handled(call: Option<RepositoryCall>, response: Response)

  /** Binding of the non-nullable `int` query parameter: absent means 0. */
  function BindInt(raw: Option<int>): int
  {
    raw.GetOr(0)
  }

  /** GET api/product: NotFound only for a null page; a page, even an empty one, is Ok. */
  function GetProducts(sortBy: Option<string>, search: Option<string>, pageNumber: Option<int>,
                       answer: Outcome<Option<Page>>): (h: Handled)
    ensures h.call == Some(ListCall(sortBy, search, Some(BindInt(pageNumber))))
    ensures h.response == NotFound <==> answer == Returns(None)
    ensures h.response == BadRequest <==> answer == Throws
    ensures answer.Returns? && answer.value.Some? ==> h.response == Ok(PageBody(answer.value.value))
  {
    var call := ListCall(sortBy, search, Some(BindInt(pageNumber)));
    match answer
    case Throws => Handled(Some(call), BadRequest)
    case Returns(products) =>
      if products.None? then Handled(Some(call), NotFound)
      else Handled(Some(call), Ok(PageBody(products.value)))
  }

  /** GET api/product/{id}: a non-positive id is refused before the repository is asked. */
  function GetProduct(id: int, answer: Outcome<Option<Product>>): (h: Handled)
    ensures id <= 0 ==> h == Handled(None, BadRequest)
    ensures id > 0 ==> h.call == Some(GetByIdCall(id))
    ensures h.response == NotFound <==> id > 0 && answer == Returns(None)
    ensures h.response.Ok? <==> id > 0 && answer.Returns? && answer.value.Some?
    ensures h.response.Ok? ==> h.response.body == ProductBody(answer.value.value)
  {
    if id <= 0 then Handled(None, BadRequest)
    else
      var call := Some(GetByIdCall(id));
      match answer
      case Throws => Handled(call, BadRequest)
      case Returns(product) =>
        if product.None? then Handled(call, NotFound)
        else Handled(call, Ok(ProductBody(product.value)))
  }

  /** POST api/product: a missing body is refused; a returned id of 0 or less is NotFound. */
  function AddProduct(product: Option<ProductDto>, answer: Outcome<int>): (h: Handled)
    ensures product.None? ==> h == Handled(None, BadRequest)
    ensures product.Some? ==> h.call == Some(AddCall(product.value))
    ensures h.response == NotFound <==> product.Some? && answer.Returns? && answer.value <= 0
    ensures h.response.Created? <==> product.Some? && answer.Returns? && answer.value > 0
    ensures h.response.Created? ==> h.response.id == answer.value
  {
    if product.None? then Handled(None, BadRequest)
    else
      var call := Some(AddCall(product.value));
      match answer
      case Throws => Handled(call, BadRequest)
      case Returns(id) =>
        if id <= 0 then Handled(call, NotFound)
        else Handled(call, Created(id))
  }

  /** PUT api/product/{id}: a missing body or a non-positive id is refused; false is NotFound. */
  function UpdateBook(product: Option<ProductDto>, id: int, answer: Outcome<bool>): (h: Handled)
    ensures product.None? || id <= 0 ==> h == Handled(None, BadRequest)
    ensures product.Some? && id > 0 ==> h.call == Some(UpdateCall(id, product.value))
    ensures h.response == NotFound <==> product.Some? && id > 0 && answer == Returns(false)
    ensures h.response.Ok? <==> product.Some? && id > 0 && answer == Returns(true)
    ensures h.response.Ok? ==> h.response.body == FlagBody(true)
  {
    if product.None? then Handled(None, BadRequest)
    else if id <= 0 then Handled(None, BadRequest)
    else
      var call := Some(UpdateCall(id, product.value));
      match answer
      case Throws => Handled(call, BadRequest)
      case Returns(updated) =>
        if !updated then Handled(call, NotFound)
        else Handled(call, Ok(FlagBody(true)))
  }

  /** DELETE api/product/{id}: a non-positive id is refused; false is NotFound. */
  function DeleteBook(id: int, answer: Outcome<bool>): (h: Handled)
    ensures id <= 0 ==> h == Handled(None, BadRequest)
    ensures id > 0 ==> h.call == Some(DeleteCall(id))
    ensures h.response == NotFound <==> id > 0 && answer == Returns(false)
    ensures h.response.Ok? <==> id > 0 && answer == Returns(true)
    ensures h.response.Ok? ==> h.response.body == FlagBody(true)
  {
    if id <= 0 then Handled(None, BadRequest)
    else
      var call := Some(DeleteCall(id));
      match answer
      case Throws => Handled(call, BadRequest)
      case Returns(deleted) =>
        if !deleted then Handled(call, NotFound)
        else Handled(call, Ok(FlagBody(true)))
  }

  /** The status codes the controller can produce; in particular never 500. */
  predicate IsControllerStatus(code: int)
  {
    code == 200 || code == 201 || code == 400 || code == 404
  }

  /**
   * Every response an action can build has status 200, 201, 400 or 404
   * (never 500), and an exception beneath any action always becomes 400.
   */
  lemma NoServerErrors(sortBy: Option<string>, search: Option<string>, pageNumber: Option<int>, id: int,
                       product: Option<ProductDto>)
    ensures forall r: Response :: IsControllerStatus(StatusCode(r))
    ensures StatusCode(GetProducts(sortBy, search, pageNumber, Throws).response) == 400
    ensures StatusCode(GetProduct(id, Throws).response) == 400
    ensures StatusCode(AddProduct(product, Throws).response) == 400
    ensures StatusCode(UpdateBook(product, id, Throws).response) == 400
    ensures StatusCode(DeleteBook(id, Throws).response) == 400
  {
  }

  /** An action that rejects its input answers the same whatever the repository would have said. */
  lemma RejectionIgnoresRepository(id: int, product: Option<ProductDto>,
                                   f1: Outcome<Option<Product>>, f2: Outcome<Option<Product>>,
                                   a1: Outcome<int>, a2: Outcome<int>,
                                   u1: Outcome<bool>, u2: Outcome<bool>)
    ensures GetProduct(id, f1).call.None? ==> GetProduct(id, f1) == GetProduct(id, f2)
    ensures AddProduct(product, a1).call.None? ==> AddProduct(product, a1) == AddProduct(product, a2)
    ensures UpdateBook(product, id, u1).call.None? ==> UpdateBook(product, id, u1) == UpdateBook(product, id, u2)
    ensures DeleteBook(id, u1).call.None? ==> DeleteBook(id, u1) == DeleteBook(id, u2)
  {
  }

  /** The list action always passes a page number, so the repository's default of 1 is never used. */
  lemma ListAlwaysPassesPageNumber(sortBy: Option<string>, search: Option<string>, pageNumber: Option<int>,
                                   answer: Outcome<Option<Page>>)
    ensures GetProducts(sortBy, search, pageNumber, answer).call.value.pageNumber.Some?
    ensures pageNumber.None? ==> GetProducts(sortBy, search, pageNumber, answer).call.value.pageNumber == Some(0)
  {
  }
}
