/** What a checkout means, as functions of the catalogue before the call and
    the requested lines: how much of each product the request takes, which
    line (if any) is the first to fail, the catalogue afterwards, the line
    items recorded and the total. */
module Ledger {
  import opened Schema

  /** Sum of the quantities `reqs` asks of product `pid`: nothing for no
      lines, a single line's quantity for its own product only, and additive
      over concatenation (`DemandAppend`). */
  function Demand(reqs: seq<LineRequest>, pid: int): (r: int)
    ensures reqs == [] ==> r == 0
    ensures |reqs| == 1 ==> r == if reqs[0].productId == pid then reqs[0].quantity else 0
  {
    if reqs == [] then 0
    else
      var last := reqs[|reqs| - 1];
      Demand(reqs[..|reqs| - 1], pid) + (if last.productId == pid then last.quantity else 0)
  }

  /** Line `k` fails when its product is missing, or when the stock left
      after the earlier lines of the same request is below its quantity
      (`FailsAgainstStockLeft` states this against `Debit`). */
  predicate Fails(ps: map<int, Product>, reqs: seq<LineRequest>, k: nat)
    requires k < |reqs|
  {
    var pid := reqs[k].productId;
    pid !in ps || ps[pid].stock - Demand(reqs[..k], pid) < reqs[k].quantity
  }

  /** None of the first `n` lines fails. */
  predicate FeasibleUpTo(ps: map<int, Product>, reqs: seq<LineRequest>, n: nat)
    requires n <= |reqs|
  {
    forall k :: 0 <= k < n ==> !Fails(ps, reqs, k)
  }

  predicate Feasible(ps: map<int, Product>, reqs: seq<LineRequest>) {
    FeasibleUpTo(ps, reqs, |reqs|)
  }

  /** Line `k` is the first line that fails. */
  predicate FailsFirstAt(ps: map<int, Product>, reqs: seq<LineRequest>, k: nat) {
    k < |reqs| && Fails(ps, reqs, k) && FeasibleUpTo(ps, reqs, k)
  }

  /** The error reported when line `k` fails: "not found" with the id when
      the product is missing, "not enough stock" with its name otherwise. */
  function ErrorAt(ps: map<int, Product>, reqs: seq<LineRequest>, k: nat): (r: Error)
    requires k < |reqs|
    ensures r.ProductNotFound? <==> reqs[k].productId !in ps
    ensures r.ProductNotFound? ==> r.productId == reqs[k].productId
    ensures r.NotEnoughStock? <==> reqs[k].productId in ps
    ensures r.NotEnoughStock? ==> r.productName == ps[reqs[k].productId].name
  {
    var pid := reqs[k].productId;
    if pid !in ps then ProductNotFound(pid) else NotEnoughStock(ps[pid].name)
  }

  /** The catalogue once every line has taken its quantity from its product:
      the same products, each short of what the request asks of it, with
      every other column unchanged (`DebitChangesStockOnly`). */
  function Debit(ps: map<int, Product>, reqs: seq<LineRequest>): (r: map<int, Product>)
    ensures r.Keys == ps.Keys
  {
    map id | id in ps :: ps[id].(stock := ps[id].stock - Demand(reqs, id))
  }

  function PriceOf(ps: map<int, Product>, pid: int): int {
    if pid in ps then ps[pid].price else 0
  }

  /** Sum over the lines, in order, of the product's price times the
      quantity: 0 for no lines, price times quantity for one line, and
      additive over concatenation (`TotalAppend`). */
  function Total(ps: map<int, Product>, reqs: seq<LineRequest>): (r: int)
    ensures reqs == [] ==> r == 0
    ensures |reqs| == 1 ==> r == PriceOf(ps, reqs[0].productId) * reqs[0].quantity
  {
    if reqs == [] then 0
    else
      var last := reqs[|reqs| - 1];
      Total(ps, reqs[..|reqs| - 1]) + PriceOf(ps, last.productId) * last.quantity
  }

  /** The line items recorded for `reqs` under header `tid`, numbered from
      `firstId`, each with the price its product has in `ps`
      (`LinesRecordEachLine`). */
  function Lines(ps: map<int, Product>, reqs: seq<LineRequest>, tid: int, firstId: int): (r: seq<TransactionItem>)
    ensures |r| == |reqs|
  {
    seq(|reqs|, k requires 0 <= k < |reqs| =>
      TransactionItem(firstId + k, tid, Some(reqs[k].productId), reqs[k].quantity, PriceOf(ps, reqs[k].productId)))
  }

  /** Sum of price times quantity over the items linked to header `tid`. */
  function ItemsTotal(items: seq<TransactionItem>, tid: int): int {
    if items == [] then 0
    else
      var last := items[|items| - 1];
      ItemsTotal(items[..|items| - 1], tid) + (if last.transactionId == tid then last.price * last.quantity else 0)
  }

  /** The items once product `pid` is deleted: the items that referred to it
      lose their product reference, and every other column and every other
      item stays as it was. */
  function DetachProduct(items: seq<TransactionItem>, pid: int): (r: seq<TransactionItem>)
    ensures |r| == |items|
    ensures forall i :: 0 <= i < |r| ==> r[i].productId != Some(pid)
    ensures forall i :: 0 <= i < |r| ==>
      r[i].productId == if items[i].productId == Some(pid) then None else items[i].productId
    ensures forall i :: 0 <= i < |r| ==> r[i] == items[i].(productId := r[i].productId)
    ensures forall i :: 0 <= i < |r| && items[i].productId != Some(pid) ==> r[i] == items[i]
  {
    seq(|items|, i requires 0 <= i < |items| =>
      if items[i].productId == Some(pid) then items[i].(productId := None) else items[i])
  }

  ghost predicate StockNonNegative(ps: map<int, Product>) {
    forall id :: id in ps ==> ps[id].stock >= 0
  }

  // ---------------------------------------------------------------------
  // What the definitions mean

  /** A line is checked against the stock the earlier lines of the same
      request left behind. */
  lemma FailsAgainstStockLeft(ps: map<int, Product>, reqs: seq<LineRequest>, k: nat)
    requires k < |reqs|
    ensures var left, pid := Debit(ps, reqs[..k]), reqs[k].productId;
            Fails(ps, reqs, k) <==> pid !in left || left[pid].stock < reqs[k].quantity
  {
  }

  /** A checkout changes stock counts only: each product is short of exactly
      what the request asks of it, and its other columns are untouched. */
  lemma DebitChangesStockOnly(ps: map<int, Product>, reqs: seq<LineRequest>, id: int)
    requires id in ps
    ensures id in Debit(ps, reqs)
    ensures Debit(ps, reqs)[id].stock == ps[id].stock - Demand(reqs, id)
    ensures Debit(ps, reqs)[id] == ps[id].(stock := Debit(ps, reqs)[id].stock)
  {
  }

  /** One item per line, in order, linked to the header, with consecutive
      ids, the line's product and quantity, and the product's price in `ps`. */
  lemma LinesRecordEachLine(ps: map<int, Product>, reqs: seq<LineRequest>, tid: int, firstId: int, k: nat)
    requires k < |reqs|
    ensures var item := Lines(ps, reqs, tid, firstId)[k];
            && item.id == firstId + k && item.transactionId == tid
            && item.productId == Some(reqs[k].productId) && item.quantity == reqs[k].quantity
            && item.price == PriceOf(ps, reqs[k].productId)
  {
  }

  lemma {:induction false} TotalAppend(ps: map<int, Product>, a: seq<LineRequest>, b: seq<LineRequest>)
    ensures Total(ps, a + b) == Total(ps, a) + Total(ps, b)
    decreases |b|
  {
    if b == [] {
      assert a + b == a;
    } else {
      assert (a + b)[..|a + b| - 1] == a + b[..|b| - 1];
      TotalAppend(ps, a, b[..|b| - 1]);
    }
  }

  // ---------------------------------------------------------------------
  // One step of the walk over the request

  /** Line `i` passes its checks against the catalogue the earlier lines
      left behind: the catalogue, the running total and the recorded items
      each grow by exactly this line's share. */
  lemma CheckoutStep(ps0: map<int, Product>, reqs: seq<LineRequest>, i: nat, tid: int, firstId: int)
    requires i < |reqs| && FeasibleUpTo(ps0, reqs, i)
    requires var ps, pid := Debit(ps0, reqs[..i]), reqs[i].productId;
             pid in ps && ps[pid].stock >= reqs[i].quantity
    ensures FeasibleUpTo(ps0, reqs, i + 1)
    ensures var ps, pid, q := Debit(ps0, reqs[..i]), reqs[i].productId, reqs[i].quantity;
            && Debit(ps0, reqs[..i + 1]) == ps[pid := ps[pid].(stock := ps[pid].stock - q)]
            && Total(ps0, reqs[..i + 1]) == Total(ps0, reqs[..i]) + ps[pid].price * q
            && Lines(ps0, reqs[..i + 1], tid, firstId)
               == Lines(ps0, reqs[..i], tid, firstId) + [TransactionItem(firstId + i, tid, Some(pid), q, ps[pid].price)]
  {
    var front, whole := reqs[..i], reqs[..i + 1];
    assert whole[..i] == front && whole[i] == reqs[i];
    var lines, lines' := Lines(ps0, front, tid, firstId), Lines(ps0, whole, tid, firstId);
    assert lines' == lines + [lines'[i]];
  }

  /** Line `i` fails its checks against the catalogue the earlier lines left
      behind: it is the first failing line, and its error names the missing
      id or the product short of stock. */
  lemma CheckoutFailure(ps0: map<int, Product>, reqs: seq<LineRequest>, i: nat)
    requires i < |reqs| && FeasibleUpTo(ps0, reqs, i)
    requires var ps, pid := Debit(ps0, reqs[..i]), reqs[i].productId;
             pid !in ps || ps[pid].stock < reqs[i].quantity
    ensures FailsFirstAt(ps0, reqs, i) && !Feasible(ps0, reqs)
    ensures var ps, pid := Debit(ps0, reqs[..i]), reqs[i].productId;
            ErrorAt(ps0, reqs, i) == if pid !in ps then ProductNotFound(pid) else NotEnoughStock(ps[pid].name)
  {
    assert Fails(ps0, reqs, i);
  }

  // ---------------------------------------------------------------------
  // Properties

  lemma {:induction false} DemandAppend(a: seq<LineRequest>, b: seq<LineRequest>, pid: int)
    ensures Demand(a + b, pid) == Demand(a, pid) + Demand(b, pid)
    decreases |b|
  {
    if b == [] {
      assert a + b == a;
    } else {
      var front := b[..|b| - 1];
      assert (a + b)[..|a + b| - 1] == a + front;
      DemandAppend(a, front, pid);
    }
  }

  /** A request either succeeds line by line, or has exactly one first
      failing line. */
  lemma FirstFailure(ps: map<int, Product>, reqs: seq<LineRequest>)
    ensures !Feasible(ps, reqs) <==> exists k :: FailsFirstAt(ps, reqs, k)
    ensures forall k, k' :: FailsFirstAt(ps, reqs, k) && FailsFirstAt(ps, reqs, k') ==> k == k'
  {
    if !Feasible(ps, reqs) {
      var n := 0;
      while !Fails(ps, reqs, n)
        invariant n < |reqs| && FeasibleUpTo(ps, reqs, n)
        invariant exists k :: n <= k < |reqs| && Fails(ps, reqs, k)
        decreases |reqs| - n
      {
        n := n + 1;
      }
      assert FailsFirstAt(ps, reqs, n);
    }
  }

  /** As long as the lines so far succeed, the quantity they take of a
      product never exceeds its starting stock, when that is not negative. */
  lemma {:induction false} FeasibleDemandWithinStock(ps: map<int, Product>, reqs: seq<LineRequest>, n: nat, pid: int)
    requires n <= |reqs| && FeasibleUpTo(ps, reqs, n)
    requires pid in ps && ps[pid].stock >= 0
    ensures Demand(reqs[..n], pid) <= ps[pid].stock
  {
    if n > 0 {
      FeasibleDemandWithinStock(ps, reqs, n - 1, pid);
      assert reqs[..n][..n - 1] == reqs[..n - 1];
      assert !Fails(ps, reqs, n - 1);
    }
  }

  /** A successful checkout never drives a stock count below zero. */
  lemma DebitKeepsStockNonNegative(ps: map<int, Product>, reqs: seq<LineRequest>)
    requires StockNonNegative(ps) && Feasible(ps, reqs)
    ensures StockNonNegative(Debit(ps, reqs))
  {
    forall id | id in ps ensures Debit(ps, reqs)[id].stock >= 0 {
      FeasibleDemandWithinStock(ps, reqs, |reqs|, id);
      assert reqs[..|reqs|] == reqs;
    }
  }

  /** Taking `a` and then `b` from the catalogue is taking `a + b`. */
  lemma DebitCompose(ps: map<int, Product>, a: seq<LineRequest>, b: seq<LineRequest>)
    ensures Debit(Debit(ps, a), b) == Debit(ps, a + b)
  {
    forall id | id in ps ensures Debit(Debit(ps, a), b)[id] == Debit(ps, a + b)[id] {
      DemandAppend(a, b, id);
    }
  }

  /** Lines are checked against the stock that earlier lines left: `a + b`
      succeeds exactly when `a` succeeds and `b` then succeeds against the
      catalogue `a` leaves behind. */
  lemma FeasibleSplit(ps: map<int, Product>, a: seq<LineRequest>, b: seq<LineRequest>)
    ensures Feasible(ps, a + b) <==> Feasible(ps, a) && Feasible(Debit(ps, a), b)
  {
    var ab := a + b;
    forall k | 0 <= k < |a| ensures Fails(ps, ab, k) == Fails(ps, a, k) {
      assert ab[..k] == a[..k] && ab[k] == a[k];
    }
    forall k | 0 <= k < |b| ensures Fails(ps, ab, |a| + k) == Fails(Debit(ps, a), b, k) {
      assert ab[..|a| + k] == a + b[..k] && ab[|a| + k] == b[k];
      DemandAppend(a, b[..k], b[k].productId);
    }
    if Feasible(ps, a) && Feasible(Debit(ps, a), b) {
      forall k | 0 <= k < |ab| ensures !Fails(ps, ab, k) {
        if k >= |a| {
          assert !Fails(Debit(ps, a), b, k - |a|);
        }
      }
    }
  }

  /** The recorded items add up to the transaction's total. */
  lemma {:induction false} LinesTotal(ps: map<int, Product>, reqs: seq<LineRequest>, tid: int, firstId: int)
    ensures ItemsTotal(Lines(ps, reqs, tid, firstId), tid) == Total(ps, reqs)
    decreases |reqs|
  {
    if reqs != [] {
      var n := |reqs|;
      var lines := Lines(ps, reqs, tid, firstId);
      assert lines[..n - 1] == Lines(ps, reqs[..n - 1], tid, firstId);
      LinesTotal(ps, reqs[..n - 1], tid, firstId);
    }
  }

  lemma {:induction false} ItemsTotalAppend(a: seq<TransactionItem>, b: seq<TransactionItem>, tid: int)
    ensures ItemsTotal(a + b, tid) == ItemsTotal(a, tid) + ItemsTotal(b, tid)
    decreases |b|
  {
    if b == [] {
      assert a + b == a;
    } else {
      assert (a + b)[..|a + b| - 1] == a + b[..|b| - 1];
      ItemsTotalAppend(a, b[..|b| - 1], tid);
    }
  }

  lemma {:induction false} ItemsTotalUnlinked(items: seq<TransactionItem>, tid: int)
    requires forall i :: 0 <= i < |items| ==> items[i].transactionId != tid
    ensures ItemsTotal(items, tid) == 0
    decreases |items|
  {
    if items != [] {
      ItemsTotalUnlinked(items[..|items| - 1], tid);
    }
  }

  /** A product no line asks for leaves the checkout exactly as it was. */
  lemma {:induction false} UnrequestedUntouched(ps: map<int, Product>, reqs: seq<LineRequest>, id: int)
    requires id in ps
    requires forall k :: 0 <= k < |reqs| ==> reqs[k].productId != id
    ensures Debit(ps, reqs)[id] == ps[id]
  {
    DemandOfUnrequested(reqs, id);
  }

  lemma {:induction false} DemandOfUnrequested(reqs: seq<LineRequest>, id: int)
    requires forall k :: 0 <= k < |reqs| ==> reqs[k].productId != id
    ensures Demand(reqs, id) == 0
    decreases |reqs|
  {
    if reqs != [] {
      DemandOfUnrequested(reqs[..|reqs| - 1], id);
    }
  }

  /** A line may take the whole stock, which leaves exactly zero. */
  lemma WholeStockEmpties(ps: map<int, Product>, id: int)
    requires id in ps
    ensures Feasible(ps, [LineRequest(id, ps[id].stock)])
    ensures Debit(ps, [LineRequest(id, ps[id].stock)])[id].stock == 0
  {
    var reqs := [LineRequest(id, ps[id].stock)];
    assert reqs[..0] == [] && reqs[..|reqs| - 1] == [];
    assert !Fails(ps, reqs, 0);
    assert Demand(reqs, id) == ps[id].stock;
  }

  /** Nothing rejects a quantity of zero or below: against a stock that is
      not negative such a line passes the stock test, and it adds its
      magnitude to the stock. */
  lemma NonPositiveQuantityRestocks(ps: map<int, Product>, id: int, q: int)
    requires id in ps && q <= 0 <= ps[id].stock
    ensures Feasible(ps, [LineRequest(id, q)])
    ensures Debit(ps, [LineRequest(id, q)])[id].stock == ps[id].stock - q >= ps[id].stock
  {
    var reqs := [LineRequest(id, q)];
    assert reqs[..0] == [] && reqs[..|reqs| - 1] == [];
    assert !Fails(ps, reqs, 0);
    assert Demand(reqs, id) == q;
  }

  /** Three example checkouts, against a catalogue holding
      A (stock 10, price 250) and B (stock 1, price 999): [A x 3, B x 1]
      succeeds with total 1749 and leaves stocks 7 and 0; [B x 2] fails for
      B; [A x 3, A x 8] fails on its second line, as the first took 3 of the
      10. */
  lemma ExampleCheckouts()
    ensures var ps := map[1 := Product(1, "A", None, 250, 10), 2 := Product(2, "B", None, 999, 1)];
            var ok, short, repeated := [LineRequest(1, 3), LineRequest(2, 1)], [LineRequest(2, 2)], [LineRequest(1, 3), LineRequest(1, 8)];
            && Feasible(ps, ok) && Total(ps, ok) == 1749
            && Debit(ps, ok)[1].stock == 7 && Debit(ps, ok)[2].stock == 0
            && FailsFirstAt(ps, short, 0) && ErrorAt(ps, short, 0) == NotEnoughStock("B")
            && FailsFirstAt(ps, repeated, 1) && ErrorAt(ps, repeated, 1) == NotEnoughStock("A")
  {
    var ok, repeated := [LineRequest(1, 3), LineRequest(2, 1)], [LineRequest(1, 3), LineRequest(1, 8)];
    assert ok[..1] == [ok[0]] && ok[..1][..0] == [];
    assert repeated[..1] == [repeated[0]] && repeated[..1][..0] == [];
  }

  /** Every header's total is the sum of its own items, and every id in use
      lies below the next one the database hands out. */
  ghost predicate TotalsValid(transactions: seq<Transaction>, items: seq<TransactionItem>, nextTransactionId: int, nextItemId: int) {
    && (forall i :: 0 <= i < |transactions| ==>
          transactions[i].id < nextTransactionId
          && ItemsTotal(items, transactions[i].id) == transactions[i].totalPrice)
    && (forall i :: 0 <= i < |items| ==> items[i].transactionId < nextTransactionId && items[i].id < nextItemId)
  }

  /** Recording a new header with its lines under the next free ids keeps
      every header's total equal to the sum of its own items. */
  lemma RecordingKeepsTotals(ts: seq<Transaction>, items: seq<TransactionItem>,
                             ps: map<int, Product>, reqs: seq<LineRequest>, tid: int, userId: int, firstId: int)
    requires TotalsValid(ts, items, tid, firstId)
    ensures TotalsValid(ts + [Transaction(tid, userId, Total(ps, reqs))], items + Lines(ps, reqs, tid, firstId),
                        tid + 1, firstId + |reqs|)
  {
    var lines := Lines(ps, reqs, tid, firstId);
    forall i | 0 <= i < |ts| ensures ItemsTotal(items + lines, ts[i].id) == ts[i].totalPrice {
      ItemsTotalAppend(items, lines, ts[i].id);
      ItemsTotalUnlinked(lines, ts[i].id);
    }
    ItemsTotalAppend(items, lines, tid);
    ItemsTotalUnlinked(items, tid);
    LinesTotal(ps, reqs, tid, firstId);
  }

  /** Deleting a product changes no header's item sum: detaching items from
      the product keeps their prices and quantities. */
  lemma {:induction false} DetachProductKeepsItemsTotal(items: seq<TransactionItem>, pid: int, tid: int)
    ensures ItemsTotal(DetachProduct(items, pid), tid) == ItemsTotal(items, tid)
    decreases |items|
  {
    if items != [] {
      var front := items[..|items| - 1];
      assert DetachProduct(items, pid)[..|items| - 1] == DetachProduct(front, pid);
      DetachProductKeepsItemsTotal(front, pid, tid);
    }
  }

  /** So the ledger invariant survives the deletion of a product. */
  lemma DetachProductKeepsTotals(ts: seq<Transaction>, items: seq<TransactionItem>, pid: int,
                                 nextTransactionId: int, nextItemId: int)
    requires TotalsValid(ts, items, nextTransactionId, nextItemId)
    ensures TotalsValid(ts, DetachProduct(items, pid), nextTransactionId, nextItemId)
  {
    forall i | 0 <= i < |ts| ensures ItemsTotal(DetachProduct(items, pid), ts[i].id) == ts[i].totalPrice {
      DetachProductKeepsItemsTotal(items, pid, ts[i].id);
    }
  }
}
