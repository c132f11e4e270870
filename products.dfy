/**
 * The one entity of the catalogue and the payload clients send for it.
 * Text is `string`, the nullable description an `Option`, and the decimal
 * price an unbounded integer (for instance, a price in cents).
 */
module Products {
  import opened Wrappers

  /** A row of the product table; `id` is its primary key. */
  datatype Product = Product(id: int, name: string, description: Option<string>, price: int)

  /** The request body for create and update: a product without its key. */
  datatype ProductDto = ProductDto(name: string, description: Option<string>, price: int)

  /**
   * The row built from a payload under a given key. Every field is taken
   * from the payload, so nothing of an earlier row with that key survives.
   */
  function FromDto(id: int, dto: ProductDto): Product
  {
    Product(id, dto.name, dto.description, dto.price)
  }
}
