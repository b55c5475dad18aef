/** The data-access operations over one database session: product lookup,
    listing, creation, update and deletion, and the checkout that records a
    transaction. The database is the `Store` object; its rows are fields the
    operations reassign, and database-assigned ids come from counters. */
module Crud {
  import opened Schema
  import opened Catalog
  import opened Ledger

  /** Every row is stored under its own id, which lies below the next id the
      database hands out; the row order lists each stored id once, ascending. */
  ghost predicate RowsValid(products: map<int, Product>, order: seq<int>, nextProductId: int) {
    && (forall id :: id in products ==> products[id].id == id && id < nextProductId)
    && Increasing(order)
    && (forall i :: 0 <= i < |order| ==> order[i] in products)
    && (forall id :: id in products ==> id in order)
  }

  /** A checkout leaves the row invariant intact: it changes stock counts only. */
  lemma DebitKeepsRowsValid(ps: map<int, Product>, order: seq<int>, nextProductId: int, reqs: seq<LineRequest>)
    requires RowsValid(ps, order, nextProductId)
    ensures RowsValid(Debit(ps, reqs), order, nextProductId)
  {
  }

  /** Deleting a row keeps the row invariant. */
  lemma DeleteKeepsRowsValid(ps: map<int, Product>, order: seq<int>, nextProductId: int, id: int)
    requires RowsValid(ps, order, nextProductId)
    ensures RowsValid(ps - {id}, Without(order, id), nextProductId)
  {
    var order' := Without(order, id);
    assert forall i :: 0 <= i < |order'| ==> order'[i] in order';
  }

  class Store {
    /** Product rows by primary key. */
    var products: map<int, Product>
    /** Product ids in row order, which is ascending id order. */
    var order: seq<int>
    var transactions: seq<Transaction>
    var items: seq<TransactionItem>
    var nextProductId: int
    var nextTransactionId: int
    var nextItemId: int

    ghost predicate CatalogValid()
      reads this
    {
      RowsValid(products, order, nextProductId)
    }

    ghost predicate LedgerValid()
      reads this
    {
      TotalsValid(transactions, items, nextTransactionId, nextItemId)
    }

    ghost predicate Valid()
      reads this
    {
      CatalogValid() && LedgerValid()
    }

    constructor ()
      ensures Valid()
      ensures products == map[] && order == [] && transactions == [] && items == []
    {
      products, order, transactions, items := map[], [], [], [];
      nextProductId, nextTransactionId, nextItemId := 1, 1, 1;
    }

    /** The product with primary key `id`, if any. */
    function GetProduct(id: int): (r: Option<Product>)
      reads this
      requires CatalogValid()
      ensures r.Some? <==> id in products
      ensures r.Some? ==> r.value == products[id] && r.value.id == id
    {
      Lookup(products, id)
    }

    /** The rows from position `skip` on, at most `limit` of them, in row order. */
    function GetProducts(skip: nat := 0, limit: nat := 100): (r: seq<Product>)
      reads this
      requires CatalogValid()
      ensures |r| == Min(limit, if skip <= |order| then |order| - skip else 0)
      ensures forall i :: 0 <= i < |r| ==> r[i] == products[order[skip + i]]
    {
      var ids, ps := Window(order, skip, limit), products;
      seq(|ids|, i requires 0 <= i < |ids| => ps[ids[i]])
    }

    /** Inserts a new row under a fresh id. */
    method CreateProduct(body: ProductCreate) returns (p: Product)
      requires Valid()
      modifies this
      ensures Valid()
      ensures p == Product(old(nextProductId), body.name, body.description, body.price, body.stock)
      ensures p.id !in old(products)
      ensures products == old(products)[p.id := p] && order == old(order) + [p.id]
      ensures nextProductId == old(nextProductId) + 1
      ensures transactions == old(transactions) && items == old(items)
      ensures nextTransactionId == old(nextTransactionId) && nextItemId == old(nextItemId)
    {
      p := Product(nextProductId, body.name, body.description, body.price, body.stock);
      assert forall i :: 0 <= i < |order| ==> order[i] < p.id;
      products := products[p.id := p];
      order := order + [p.id];
      nextProductId := nextProductId + 1;
    }

    /** Assigns the supplied fields, one after another, to the product with
        primary key `id`; a missing id changes nothing. */
    method UpdateProduct(id: int, fields: seq<Field>) returns (r: Option<Product>)
      requires Valid()
      modifies this
      ensures Valid()
      ensures r == if id in old(products) then Some(ApplyFields(old(products)[id], fields)) else None
      ensures products == if r.Some? then old(products)[id := r.value] else old(products)
      ensures r.Some? ==> r.value.id == id
      ensures r.Some? ==> forall k :: Unset(fields, k) ==> Read(r.value, k) == Read(old(products)[id], k)
      ensures r.Some? ==> forall i :: 0 <= i < |fields| && LastFor(fields, i) ==> Read(r.value, KeyOf(fields[i])) == fields[i]
      ensures order == old(order) && nextProductId == old(nextProductId)
      ensures transactions == old(transactions) && items == old(items)
      ensures nextTransactionId == old(nextTransactionId) && nextItemId == old(nextItemId)
    {
      r := GetProduct(id);
      if r.Some? {
        var p := r.value;
        var i := 0;
        while i < |fields|
          invariant 0 <= i <= |fields|
          invariant p == ApplyFields(r.value, fields[..i])
        {
          assert fields[..i + 1][..i] == fields[..i];
          p := Assign(p, fields[i]);
          i := i + 1;
        }
        assert fields[..|fields|] == fields;
        ApplyFieldsOverwritesOnlySupplied(r.value, fields);
        products := products[id := p];
        r := Some(p);
      }
    }

    /** Removes the product with primary key `id` and returns it; a missing
        id changes nothing. The recorded items that referred to the product
        stay, with their product reference cleared. */
    method DeleteProduct(id: int) returns (r: Option<Product>)
      requires Valid()
      modifies this
      ensures Valid()
      ensures r == Lookup(old(products), id)
      ensures products == old(products) - {id} && order == Without(old(order), id)
      ensures r.None? ==> order == old(order)
      ensures nextProductId == old(nextProductId)
      ensures items == if r.Some? then DetachProduct(old(items), id) else old(items)
      ensures transactions == old(transactions)
      ensures nextTransactionId == old(nextTransactionId) && nextItemId == old(nextItemId)
    {
      r := GetProduct(id);
      if r.Some? {
        DeleteKeepsRowsValid(products, order, nextProductId, id);
        DetachProductKeepsTotals(transactions, items, id, nextTransactionId, nextItemId);
        products := products - {id};
        order := Without(order, id);
        items := DetachProduct(items, id);
      } else {
        assert Without(order, id) == order by {
          WithoutAbsent(order, id);
        }
      }
    }

    /** The walk of a checkout over `request`, in order, for header `tid`:
        each line fails on a missing product or on a stock below its
        quantity; otherwise it records a line item at the product's current
        price, adds price times quantity to the total, and takes the
        quantity from the stock, where later lines see it. A failure stops
        the walk and leaves the rows half-updated for the caller to roll back. */
    method TakeLines(request: seq<LineRequest>, tid: int) returns (total: int, failure: Option<Error>)
      modifies this`products, this`items, this`nextItemId
      ensures failure.None? <==> Feasible(old(products), request)
      ensures failure.Some? ==>
        exists k :: FailsFirstAt(old(products), request, k) && failure.value == ErrorAt(old(products), request, k)
      ensures failure.None? ==>
        && products == Debit(old(products), request)
        && total == Total(old(products), request)
        && items == old(items) + Lines(old(products), request, tid, old(nextItemId))
        && nextItemId == old(nextItemId) + |request|
    {
      var products0, items0, firstItemId := products, items, nextItemId;
      total := 0;
      var i := 0;
      while i < |request|
        invariant 0 <= i <= |request|
        invariant FeasibleUpTo(products0, request, i)
        invariant products == Debit(products0, request[..i])
        invariant total == Total(products0, request[..i])
        invariant items == items0 + Lines(products0, request[..i], tid, firstItemId)
        invariant nextItemId == firstItemId + i
      {
        var line := request[i];
        var found := Lookup(products, line.productId);
        if found.None? {
          CheckoutFailure(products0, request, i);
          return total, Some(ProductNotFound(line.productId));
        }
        var p := found.value;
        if p.stock < line.quantity {
          CheckoutFailure(products0, request, i);
          return total, Some(NotEnoughStock(p.name));
        }
        CheckoutStep(products0, request, i, tid, firstItemId);
        ghost var item := TransactionItem(firstItemId + i, tid, Some(line.productId), line.quantity, p.price);
        assert items0 + (Lines(products0, request[..i], tid, firstItemId) + [item])
            == items0 + Lines(products0, request[..i], tid, firstItemId) + [item];
        total := total + p.price * line.quantity;
        items := items + [TransactionItem(nextItemId, tid, Some(line.productId), line.quantity, p.price)];
        nextItemId := nextItemId + 1;
        products := products[line.productId := p.(stock := p.stock - line.quantity)];
        i := i + 1;
      }
      assert request[..|request|] == request;
      failure := None;
    }

    /** Checkout: records a header for `userId` with a provisional total of
        zero, walks the request, stores the total on the header, commits and
        refreshes the header. A failing line, or a commit that `commitOk`
        says fails, rolls the whole store back, the header included. A
        refresh that `refreshOk` says fails comes after the commit: the
        checkout stays recorded and the caller still gets an error. */
    method CreateTransaction(request: seq<LineRequest>, userId: int, commitOk: bool, refreshOk: bool)
      returns (r: Result<Transaction, Error>)
      requires Valid()
      modifies this
      ensures Valid()
      ensures r.Ok? <==> Feasible(old(products), request) && commitOk && refreshOk
      ensures r.Ok? ==> r.value == Transaction(old(nextTransactionId), userId, Total(old(products), request))
      ensures Feasible(old(products), request) && commitOk ==>
        && transactions == old(transactions) + [Transaction(old(nextTransactionId), userId, Total(old(products), request))]
        && items == old(items) + Lines(old(products), request, old(nextTransactionId), old(nextItemId))
        && products == Debit(old(products), request)
        && nextTransactionId == old(nextTransactionId) + 1
        && nextItemId == old(nextItemId) + |request|
      ensures r.Err? ==>
        || (r.error == RefreshFailed && Feasible(old(products), request) && commitOk && !refreshOk)
        || (r.error == CommitFailed && Feasible(old(products), request) && !commitOk)
        || exists k :: FailsFirstAt(old(products), request, k) && r.error == ErrorAt(old(products), request, k)
      ensures !(Feasible(old(products), request) && commitOk) ==>
        && products == old(products) && transactions == old(transactions) && items == old(items)
        && nextTransactionId == old(nextTransactionId) && nextItemId == old(nextItemId)
      ensures order == old(order) && nextProductId == old(nextProductId)
      ensures old(StockNonNegative(products)) ==> StockNonNegative(products)
    {
      // The state a rollback restores.
      var products0, transactions0, items0 := products, transactions, items;
      var tid, firstItemId := nextTransactionId, nextItemId;

      transactions := transactions + [Transaction(tid, userId, 0)];
      nextTransactionId := nextTransactionId + 1;
      var total, failure := TakeLines(request, tid);
      if failure.Some? || !commitOk {
        products, transactions, items, nextTransactionId, nextItemId := products0, transactions0, items0, tid, firstItemId;
        return Err(if failure.Some? then failure.value else CommitFailed);
      }
      transactions := transactions0 + [Transaction(tid, userId, total)];
      RecordingKeepsTotals(transactions0, items0, products0, request, tid, userId, firstItemId);
      DebitKeepsRowsValid(products0, order, nextProductId, request);
      if StockNonNegative(products0) {
        DebitKeepsStockNonNegative(products0, request);
      }
      // A refresh failing after the commit: the rollback has nothing left to
      // undo, and the error still reaches the caller.
      r := if refreshOk then Ok(Transaction(tid, userId, total)) else Err(RefreshFailed);
    }
  }
}
