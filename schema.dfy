/** Record shapes of the point-of-sale backend: the rows stored by the
    database and the request bodies the catalogue and checkout operations
    accept. Prices are whole minor currency units (cents). */
module Schema {

  datatype Option<+T> = None | Some(value: T)

  datatype Result<+T, +E> = Ok(value: T) | Err(error: E)

  /** One catalogue row. Nothing constrains the sign of `price` or `stock`. */
  datatype Product = Product(id: int, name: string, description: Option<string>, price: int, stock: int)

  /** Body of a product creation request: a product without its id. */
  datatype ProductCreate = ProductCreate(name: string, description: Option<string>, price: int, stock: int)

  /** The columns a product update may assign. */
  datatype Key = NameKey | DescriptionKey | PriceKey | StockKey

  /** One supplied column of a product update, with its new value. */
  datatype Field =
    | Name(name: string)
    | Description(description: Option<string>)
    | Price(price: int)
    | Stock(stock: int)

  /** One requested line of a checkout: a product id and a quantity of any sign. */
  datatype LineRequest = LineRequest(productId: int, quantity: int)

  /** A transaction header; `totalPrice` is the sum of its line items. */
  datatype Transaction = Transaction(id: int, userId: int, totalPrice: int)

  /** A recorded line item, linked to its header by `transactionId`;
      `price` is the unit price at the moment the line was processed. The
      product reference is nullable: it becomes `None` when the product is
      deleted. */
  datatype TransactionItem = TransactionItem(id: int, transactionId: int, productId: Option<int>, quantity: int, price: int)

  /** Why a checkout reported an error. Every cause but the last persists
      nothing; `RefreshFailed` comes after a commit that went through, so the
      checkout stays recorded although the caller sees an error. */
  datatype Error =
    | ProductNotFound(productId: int)
    | NotEnoughStock(productName: string)
    | CommitFailed
    | RefreshFailed
}
