# Point-of-sale backend: catalogue and checkout

A model of the data-access layer of a small point-of-sale backend
(`backend/crud.py`). The database session is a `Store` object whose fields
are the tables: product rows by primary key, the row order of the product
table, transaction headers and transaction line items, and the counters from
which the database hands out fresh ids.

- `schema.dfy` (module `Schema`): the row and request shapes of
  `backend/models.py` and `backend/schemas.py`, plus the checkout errors.
- `catalog.dfy` (module `Catalog`): lookup by id, the offset/limit window of
  a listing, removal of an id from the row order, and the attribute
  assignments of a product update, as functions on values.
- `ledger.dfy` (module `Ledger`): what a checkout means, as functions of the
  catalogue before the call and the requested lines. `Demand` is the
  quantity the request takes of one product. `Fails` says that a line finds
  its product missing or short of stock, given what earlier lines already
  took. `Debit` is the catalogue afterwards and `Total` the sum of price
  times quantity. `Lines` gives the recorded items and `ItemsTotal` sums the
  items of one header. The lemmas state the properties of the checkout.
- `crud.dfy` (module `Crud`): the `Store` class and its operations
  `GetProduct`, `GetProducts`, `CreateProduct`, `UpdateProduct`,
  `DeleteProduct` and `CreateTransaction`. The walk over the requested
  lines sits in `TakeLines`. Every public operation keeps `Valid()`.
  `TakeLines` runs between the provisional header and the final total, so
  it neither needs nor promises it; `CreateTransaction` re-establishes it.
  The catalogue half of `Valid()` says that each row is stored under its own
  id and that the row order lists each id once, ascending. Its ledger half
  says that every header's total is the sum of its own items and that every
  id in use is below the next one handed out.

Checkout (`CreateTransaction`) adds a header with a provisional total of 0.
It then walks the lines in order. A line fails when its product is missing
or when the stock left by the earlier lines is below its quantity.
Otherwise the line records an item at the product's current price, adds
price times quantity to the total and takes the quantity from the stock.
Finally the total is stored on the header, the unit of work commits and the
header is refreshed. A failing line or a failing commit restores every table
and counter to its state before the call, the provisional header included.
A failing refresh comes after the commit: the rollback then has nothing to
undo, so the checkout stays recorded while the caller gets an error
(`RefreshFailed`). The outcomes of the commit and of the refresh are
parameters (`commitOk`, `refreshOk`).

The code does not validate quantities or stock counts, and the model follows
it:
- Nothing rejects a quantity of zero or below. Such a line passes the stock
  test whenever the stock is at least that quantity. It never lowers the
  stock, and a negative quantity raises it
  (`Ledger.NonPositiveQuantityRestocks`).
- Neither `create_product` nor `update_product` rejects a negative stock
  (the request schema's `stock` is any integer). So "stock is never
  negative" is not an invariant of the store. A successful checkout
  preserves it (`Ledger.DebitKeepsStockNonNegative`), and a create or an
  update can break it.
- The stock error carries only the product's name (`NotEnoughStock(name)`).
  It does not carry the id or the requested and available quantities.

`UpdateProduct` takes any sequence of fields, repeats and subsets included.
The code only ever passes a narrower set. The update schema inherits `name`,
`price` and `stock` as required (`backend/schemas.py:5-15`). So the fields
set on a request are always in declaration order (name, description, price,
stock), with only `description` possibly absent. For those sequences,
"columns nobody supplied keep their value" concerns the description alone.

## Model

| member | source | states |
|---|---|---|
| Crud.Store.GetProduct | backend/crud.py:16-17 | finds a product exactly when one is stored under the id, and the product found carries that id |
| Crud.Store.GetProducts | backend/crud.py:19-20 | with skip 0 and limit 100 by default, returns min(limit, rows left after skip) rows, the i-th being the row at position skip + i of the row order |
| Catalog.Window | backend/crud.py:19-20 | offset/limit: length is min(limit, length - skip) (0 past the end) and element i is element skip + i |
| Catalog.WindowsAdjoin | backend/crud.py:19-20 | the page of size a at skip followed by the page of size b at skip + a is the page of size a + b at skip: paging neither skips nor repeats a row |
| Catalog.Lookup | backend/crud.py:16-17 | finds a product exactly when one is stored under the id, and then it is the stored row |
| Catalog.ApplyFields | backend/crud.py:32-34 | assigning the supplied fields in order never changes the id, and the last field supplied is the value its column ends up with |
| Ledger.Demand | backend/crud.py:62-78 | what a request takes of a product: nothing for no lines, a single line's quantity for its own product only (additive over concatenation by `DemandAppend`) |
| Ledger.FailsAgainstStockLeft | backend/crud.py:57-64 | `Fails`: line k fails exactly when its product is missing from, or short of its quantity in, the catalogue the lines before it left |
| Ledger.ErrorAt | backend/crud.py:57-64 | a failing line reports `ProductNotFound` with its id exactly when its product is missing, and otherwise `NotEnoughStock` with the product's name |
| Ledger.Debit | backend/crud.py:78 | the catalogue after a checkout holds exactly the same product ids |
| Ledger.DebitChangesStockOnly | backend/crud.py:78 | after a checkout each product's stock is its old stock less what the request takes of it, and every other column is unchanged |
| Ledger.Total | backend/crud.py:66-67 | the total of no lines is 0 and of one line is the product's price times the quantity |
| Ledger.TotalAppend | backend/crud.py:66-67 | the total of two requests in sequence is the sum of their totals |
| Ledger.Lines | backend/crud.py:69-75 | one item per requested line |
| Ledger.LinesRecordEachLine | backend/crud.py:69-75 | item k carries id firstId + k, the header's id, line k's product and quantity, and the product's price at that moment |
| Crud.Store.CreateProduct | backend/crud.py:22-27 | stores the body as a new row under a fresh id, appends that id to the row order, and changes nothing else |
| Crud.Store.UpdateProduct | backend/crud.py:29-37 | a missing id returns None and changes nothing; otherwise the row becomes the result of assigning the supplied fields in order: it keeps its id, columns nobody supplied keep their value, a supplied column holds its last supplied value, and nothing else in the store changes |
| Catalog.Assign | backend/crud.py:33-34 | one attribute assignment sets its own column to the value, keeps every other column and the id |
| Catalog.ApplyFieldsOverwritesOnlySupplied | backend/crud.py:32-34 | after the update loop, columns nobody supplied keep their value, a supplied column holds its last supplied value, and the id is unchanged |
| Crud.Store.DeleteProduct | backend/crud.py:39-44 | returns the stored row, or None for a missing id, leaving the rows and the row order as they were; removes exactly that id from the rows and the row order, and detaches the recorded items that referred to it |
| Ledger.DetachProduct | backend/models.py:43-48 | after deleting a product no item refers to it: the reference of each item that did becomes None (NULL), every other reference stays, and no other column or item changes |
| Ledger.DetachProductKeepsItemsTotal | backend/models.py:43-48 | detaching items from a deleted product leaves every header's item sum unchanged |
| Ledger.DetachProductKeepsTotals | backend/models.py:43-48 | so deleting a product keeps every header's total equal to the sum of its own items |
| Catalog.Without | backend/crud.py:42 | removing an id from the row order keeps exactly the other ids and keeps them ascending |
| Crud.DeleteKeepsRowsValid | backend/crud.py:39-44 | deleting a row keeps every row under its own id and the row order complete and ascending |
| Crud.Store.TakeLines | backend/crud.py:56-79 | the loop succeeds exactly when no line fails; on success the rows are `Debit`, the total is `Total` and the new items are `Lines`; on failure the error is that of the first failing line |
| Crud.Store.CreateTransaction | backend/crud.py:46-91 | succeeds exactly when no line fails and the commit and refresh succeed; once every line passes and the commit succeeds, one header with the next id and total `Total`, the items `Lines` at the prices before the call and the stock less `Demand` are recorded, even if the refresh then fails and an error is returned; a failing line or commit leaves all tables and counters as they were; the store invariant and non-negative stock are kept |
| Ledger.CheckoutStep | backend/crud.py:62-78 | a line that passes its checks extends the catalogue, the running total and the recorded items by exactly that line's share, at the current price |
| Ledger.CheckoutFailure | backend/crud.py:57-64 | a line whose product is missing or short of the stock left by earlier lines is the first failing line, and its error names the missing id or the product |
| Ledger.FirstFailure | backend/crud.py:56-64 | a request that does not succeed has exactly one first failing line, and one that succeeds has none |
| Ledger.DemandAppend | backend/crud.py:78 | the quantity taken by two requests in sequence is the sum of what each takes |
| Ledger.DebitCompose | backend/crud.py:78 | taking request a and then request b from the stock is the same as taking a + b: repeated ids compound |
| Ledger.FeasibleSplit | backend/crud.py:56-64 | a + b succeeds iff a succeeds and b then succeeds against the stock a leaves: later lines see earlier decrements |
| Ledger.FeasibleDemandWithinStock | backend/crud.py:62-78 | while the lines succeed, the total they take of a product never exceeds its starting stock when that is not negative |
| Ledger.DebitKeepsStockNonNegative | backend/crud.py:62-78 | a successful checkout never drives a non-negative stock below zero |
| Ledger.UnrequestedUntouched | backend/crud.py:57-78 | a product that no line requests is left exactly as it was |
| Ledger.WholeStockEmpties | backend/crud.py:62-78 | a quantity equal to the stock passes and leaves a stock of exactly 0 |
| Ledger.NonPositiveQuantityRestocks | backend/crud.py:62-78 | a quantity of zero or below passes the stock test against a non-negative stock and raises the stock by its magnitude: zero leaves it, a negative quantity raises it |
| Ledger.LinesTotal | backend/crud.py:66-74 | the recorded items of a request add up to its total: sum of snapshot price times quantity |
| Ledger.ItemsTotalAppend | backend/crud.py:69-75 | adding items adds their price-times-quantity sums for each header |
| Ledger.ItemsTotalUnlinked | backend/crud.py:69-75 | items linked to other headers contribute nothing to a header's sum |
| Ledger.RecordingKeepsTotals | backend/crud.py:50-81 | recording a header under the next free id, with its items and its total, keeps every header's total equal to the sum of its own items |
| Crud.DebitKeepsRowsValid | backend/crud.py:78 | a checkout changes stock counts only, so every row stays under its own id and the row order stays valid |
| Ledger.ExampleCheckouts | backend/crud.py:46-91 | with A (stock 10, price 250) and B (stock 1, price 999): [A×3, B×1] succeeds with total 1749 and stocks 7 and 0; [B×2] fails on B; [A×3, A×8] fails on its second line |

## Left out

- User creation and lookup (`create_user`, `get_user_by_username`): password
  hashing lives in `backend/security.py`, which is not part of this model,
  and username uniqueness is a database constraint.
- The dashboard front end (`frontend/app.py`): HTTP calls and rendering.
- Prices are whole integers (minor currency units); the source stores floats,
  and float rounding of the total is not modelled.
- The `created_at` timestamp of a header is not modelled.
- Session mechanics (`flush`, `refresh`, identity map): the flush is the
  appended header with a fresh id, the rollback is the restored state, and
  fresh ids come from counters that a rollback also restores. Only the
  freshness of ids is modelled: which values the database hands out (reuse
  of a deleted product's id, header ids used up by a failed checkout)
  depends on the engine. A refresh changes nothing in the model; only a
  failing refresh of the checkout is modelled.
- Crud.Store.CreateTransaction: a failing `flush` (the explicit one after
  the header, or an autoflush before a product lookup) raises without a
  rollback; the model takes every flush to succeed.
- The `products_to_update` list of `create_transaction` is filled and never
  read, so it is not modelled.
- A failing commit or refresh is modelled for the checkout only (`commitOk`,
  `refreshOk`); the commits and refreshes of the product operations are
  taken to succeed.
- Concurrency and isolation between requests.
- Foreign keys are plain ids: a checkout for a user id that does not exist
  is not checked by the model, as the code does not check it either.
  Deleting a product that items refer to is not refused either; following
  the ORM's default for a relationship without a delete cascade
  (`backend/models.py:25`, `:48`), those items keep their rows and lose
  their product reference (`DetachProduct`).
- Crud.Store.GetProducts: `skip` and `limit` are natural numbers; what a
  negative offset or limit does depends on the database engine, which is
  not part of this model. The row order is taken to be insertion order
  (ascending id), which a query without ORDER BY does not promise.
- Ledger.Total and Ledger.Lines price a missing product at 0; they are only
  used for requests in which every line passes, where no product is missing.
