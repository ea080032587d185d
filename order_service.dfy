/** The order lifecycle: a three-state machine over order status (active, completed,
    canceled) whose transitions each check the current status and then make one
    all-or-nothing change to the order, its lines and the stock ledger. */
module OrderLifecycle {
  import opened Records
  import opened MovementLog
  import opened Reservation
  import opened Reconciliation
  import opened StockLedger

  datatype Status = Active | Completed | Canceled

  /** An order row: who ordered, from which warehouse, its status and, once
      completed, the time it was completed. */
  datatype Order = Order(customer: string, warehouse: int, status: Status, completedAt: Option<int>)

  /** Restocking lines that were just taken back gives the pre-check a pass and the
      debit a success, and when every line's row existed before the return it
      leaves exactly the table the return started from. */
  lemma CancelThenResume(s: Stock, w: int, items: seq<Item>, orderId: int)
    requires NonNegative(s) && ValidItems(items) && RowsExist(s, w, items)
    ensures var mid := Credit(s, w, items, orderId, OrderCanceled).stock;
            Available(mid, w, items) &&
            Debit(mid, w, items, orderId, OrderResumed).Ok? &&
            Debit(mid, w, items, orderId, OrderResumed).value.stock == s
  {
    CreditThenDebit(s, w, items, orderId, OrderCanceled, OrderResumed);
    var mid := Credit(s, w, items, orderId, OrderCanceled).stock;
    var back := Debit(mid, w, items, orderId, OrderResumed).value.stock;
    assert ItemRows(w, items) <= s.Keys;
    assert back.Keys == s.Keys;
    assert forall k | k in back :: back[k] == s[k];
  }

  /** Rows are never removed, so lines whose rows existed still have them. */
  lemma RowsKept(s: Stock, t: Stock, w: int, items: seq<Item>)
    requires RowsExist(s, w, items) && s.Keys <= t.Keys
    ensures RowsExist(t, w, items)
  {
  }

  /** Creating an order for 3 of a product whose row holds 10 leaves 7 and one
      order_created movement of -3. */
  lemma CreateForThree()
    ensures Debit(map[(1, 1) := 10], 1, [Item(1, 3)], 1, OrderCreated) ==
            Ok(Posting(map[(1, 1) := 7], [Movement(1, 1, -3, 7, 1, OrderCreated)]))
  {
    assert [Item(1, 3)][1..] == [];
    assert map[(1, 1) := 10][(1, 1) := 7] == map[(1, 1) := 7];
    assert [Movement(1, 1, -3, 7, 1, OrderCreated)] + [] == [Movement(1, 1, -3, 7, 1, OrderCreated)];
  }

  /** The delta keys of that update: the one product, once. */
  lemma ThreeToFiveOrder()
    ensures DeltaOrder([Item(1, 3)], [Item(1, 5)]) == [1]
  {
    var ps := ProductIds([Item(1, 3)]) + ProductIds([Item(1, 5)]);
    assert ps == [1, 1];
    assert [] + [1] == [1] && [1] + [1] == ps;
    DistinctSnoc([], 1);
    DistinctSnoc([1], 1);
  }

  /** The delta table of that update holds one entry, 3 - 5 for the product. */
  lemma ThreeToFiveDeltas()
    ensures Deltas([Item(1, 3)], [Item(1, 5)]) == map[1 := -2]
  {
    var oldItems, newItems := [Item(1, 3)], [Item(1, 5)];
    ThreeToFiveOrder();
    assert oldItems[1..] == [] && newItems[1..] == [];
    assert Delta(oldItems, newItems, 1) == -2;
    var d := Deltas(oldItems, newItems);
    assert d.Keys == {1};
    assert d[1] == -2;
  }

  /** Updating that order from 3 to 5 takes 2 more: the row drops to 5 and one
      order_updated movement of -2 is written. */
  lemma UpdateThreeToFive()
    ensures Reconcile(map[(1, 1) := 7], 1, [Item(1, 3)], [Item(1, 5)], 1) ==
            Ok(Posting(map[(1, 1) := 5], [Movement(1, 1, -2, 5, 1, OrderUpdated)]))
  {
    ThreeToFiveOrder();
    ThreeToFiveDeltas();
    var deltas := map[1 := -2];
    assert [1][1..] == [];
    assert Shortage(map[(1, 1) := 7], 1, [1], deltas) == None;
    assert map[(1, 1) := 7][(1, 1) := 5] == map[(1, 1) := 5];
    assert ApplyDeltas(map[(1, 1) := 5], 1, [], deltas, 1) == Posting(map[(1, 1) := 5], []);
    assert [Movement(1, 1, -2, 5, 1, OrderUpdated)] + [] == [Movement(1, 1, -2, 5, 1, OrderUpdated)];
  }

  /** Canceling it returns the 5: the row is back at 10 with one order_canceled
      movement of +5. */
  lemma CancelFive()
    ensures Credit(map[(1, 1) := 5], 1, [Item(1, 5)], 1, OrderCanceled) ==
            Posting(map[(1, 1) := 10], [Movement(1, 1, 5, 10, 1, OrderCanceled)])
  {
    assert [Item(1, 5)][1..] == [];
    assert map[(1, 1) := 5][(1, 1) := 10] == map[(1, 1) := 10];
    assert [Movement(1, 1, 5, 10, 1, OrderCanceled)] + [] == [Movement(1, 1, 5, 10, 1, OrderCanceled)];
  }

  /** Resuming it takes the 5 again: the row is at 5 with one order_resumed
      movement of -5. */
  lemma ResumeFive()
    ensures Debit(map[(1, 1) := 10], 1, [Item(1, 5)], 1, OrderResumed) ==
            Ok(Posting(map[(1, 1) := 5], [Movement(1, 1, -5, 5, 1, OrderResumed)]))
  {
    assert [Item(1, 5)][1..] == [];
    assert map[(1, 1) := 10][(1, 1) := 5] == map[(1, 1) := 5];
    assert [Movement(1, 1, -5, 5, 1, OrderResumed)] + [] == [Movement(1, 1, -5, 5, 1, OrderResumed)];
  }

  /** A request for 5 against a row holding 2: the pre-check fails, so createOrder
      refuses with OrderException before the debit, which alone would have failed
      with InsufficientStock for the product. */
  lemma CreateAgainstShortRow()
    ensures var s := map[(1, 1) := 2];
            !Available(s, 1, [Item(1, 5)]) &&
            Debit(s, 1, [Item(1, 5)], 1, OrderCreated) == Err(InsufficientStock(1))
  {
    assert [Item(1, 5)][0] == Item(1, 5);
  }

  class OrderService {
    const stockService: StockService
    var orders: map<int, Order>
    /** The order_items rows of each order, in insertion order. */
    var lines: map<int, seq<Item>>
    /** The next auto-increment order id. */
    var nextId: int

    /** Every order has its lines, every id was handed out, the lines obey the
        input rules and every line's product has a stock row in the order's
        warehouse. */
    ghost predicate Valid()
      reads this, stockService
    {
      stockService.Valid() &&
      orders.Keys == lines.Keys &&
      0 < nextId &&
      (forall id :: id in orders ==> 0 < id < nextId) &&
      (forall id :: id in lines ==> ValidItems(lines[id])) &&
      (forall id :: id in orders ==> RowsExist(stockService.stock, orders[id].warehouse, lines[id]))
    }

    constructor (ledger: StockService)
      requires ledger.Valid()
      ensures Valid()
      ensures stockService == ledger && orders == map[] && lines == map[] && nextId == 1
    {
      stockService := ledger;
      orders := map[];
      lines := map[];
      nextId := 1;
    }

    /** The item rows of an order are deleted and the given lines written one by one. */
    method ReplaceLines(id: int, newItems: seq<Item>)
      modifies this
      ensures lines == old(lines)[id := newItems]
      ensures orders == old(orders) && nextId == old(nextId)
    {
      lines := lines[id := []];
      var i := 0;
      while i < |newItems|
        invariant 0 <= i <= |newItems|
        invariant lines == old(lines)[id := newItems[..i]]
        invariant orders == old(orders) && nextId == old(nextId)
      {
        assert newItems[..i + 1] == newItems[..i] + [newItems[i]];
        lines := lines[id := lines[id] + [newItems[i]]];
        i := i + 1;
      }
      assert newItems[..i] == newItems;
    }

    /** createOrder: refuse before any write when the pre-check fails; otherwise
        write the order and its lines and reserve the stock, all undone when the
        reservation fails. */
    method CreateOrder(customer: string, warehouse: int, newItems: seq<Item>) returns (r: Result<int>)
      requires Valid() && ValidItems(newItems)
      modifies this, stockService
      ensures Valid()
      ensures !Available(old(stockService.stock), warehouse, newItems) ==>
                r == Err(OrderException(StockUnavailableForCreate)) &&
                unchanged(this) && unchanged(stockService)
      ensures Available(old(stockService.stock), warehouse, newItems) ==>
                match Debit(old(stockService.stock), warehouse, newItems, old(nextId), OrderCreated)
                case Ok(p) =>
                  r == Ok(old(nextId)) && old(nextId) !in old(orders) &&
                  orders == old(orders)[old(nextId) := Order(customer, warehouse, Active, None)] &&
                  lines == old(lines)[old(nextId) := newItems] &&
                  nextId == old(nextId) + 1 &&
                  stockService.stock == p.stock &&
                  stockService.movements == old(stockService.movements) + p.written
                case Err(e) =>
                  r == Err(e) && orders == old(orders) && lines == old(lines) && nextId == old(nextId) &&
                  stockService.stock == old(stockService.stock) &&
                  stockService.movements == old(stockService.movements)
      ensures NonNegative(old(stockService.stock)) ==> NonNegative(stockService.stock)
    {
      var ok := stockService.CheckStockAvailability(warehouse, newItems);
      if !ok {
        return Err(OrderException(StockUnavailableForCreate));
      }
      var savedOrders, savedLines, savedNext := orders, lines, nextId;
      var id := nextId;
      nextId := nextId + 1;
      orders := orders[id := Order(customer, warehouse, Active, None)];
      ReplaceLines(id, newItems);
      var reserved := stockService.ReserveStock(warehouse, newItems, id, OrderCreated);
      if reserved.Err? {
        orders, lines, nextId := savedOrders, savedLines, savedNext;
        return Err(reserved.error);
      }
      r := Ok(id);
      forall oid | oid in orders
        ensures RowsExist(stockService.stock, orders[oid].warehouse, lines[oid])
      {
        if oid != id {
          RowsKept(old(stockService.stock), stockService.stock, orders[oid].warehouse, lines[oid]);
        }
      }
    }

    /** updateOrder: an active order gets the given customer (or keeps its own), its
        reservation moved from the old lines to the new ones, and the new lines;
        a failed reservation update leaves customer, lines and stock as they were. */
    method UpdateOrder(orderId: int, customer: Option<string>, newItems: seq<Item>) returns (r: Result<Order>)
      requires Valid() && ValidItems(newItems)
      modifies this, stockService
      ensures Valid()
      ensures orderId !in old(orders) ==>
                r == Err(OrderNotFound(orderId)) && unchanged(this) && unchanged(stockService)
      ensures orderId in old(orders) && old(orders[orderId]).status != Active ==>
                r == Err(OrderException(OnlyActiveCanBeUpdated)) &&
                unchanged(this) && unchanged(stockService)
      ensures orderId in old(orders) && old(orders[orderId]).status == Active ==>
                var o := old(orders[orderId]);
                var updated := o.(customer := if customer.Some? then customer.value else o.customer);
                match Reconcile(old(stockService.stock), o.warehouse, old(lines[orderId]), newItems, orderId)
                case Ok(p) =>
                  r == Ok(updated) &&
                  orders == old(orders)[orderId := updated] &&
                  lines == old(lines)[orderId := newItems] &&
                  nextId == old(nextId) &&
                  stockService.stock == p.stock &&
                  stockService.movements == old(stockService.movements) + p.written
                case Err(e) =>
                  r == Err(e) && orders == old(orders) && lines == old(lines) && nextId == old(nextId) &&
                  stockService.stock == old(stockService.stock) &&
                  stockService.movements == old(stockService.movements)
      ensures NonNegative(old(stockService.stock)) ==> NonNegative(stockService.stock)
    {
      if orderId !in orders {
        return Err(OrderNotFound(orderId));
      }
      var o := orders[orderId];
      if o.status != Active {
        return Err(OrderException(OnlyActiveCanBeUpdated));
      }
      var savedOrders := orders;
      var updated := o.(customer := if customer.Some? then customer.value else o.customer);
      orders := orders[orderId := updated];
      var currentItems := lines[orderId];
      var moved := stockService.UpdateReservation(o.warehouse, currentItems, newItems, orderId);
      if moved.Err? {
        orders := savedOrders;
        return Err(moved.error);
      }
      ReplaceLines(orderId, newItems);
      r := Ok(updated);
      ReconcileRows(old(stockService.stock), o.warehouse, currentItems, newItems, orderId);
      forall oid | oid in orders
        ensures RowsExist(stockService.stock, orders[oid].warehouse, lines[oid])
      {
        if oid != orderId {
          RowsKept(old(stockService.stock), stockService.stock, orders[oid].warehouse, lines[oid]);
        }
      }
    }

    /** completeOrder: an active order becomes completed at the given time; stock and
        movements are not touched. */
    method CompleteOrder(orderId: int, now: int) returns (r: Result<Order>)
      requires Valid()
      modifies this
      ensures Valid()
      ensures orderId !in old(orders) ==> r == Err(OrderNotFound(orderId)) && unchanged(this)
      ensures orderId in old(orders) && old(orders[orderId]).status != Active ==>
                r == Err(OrderException(OnlyActiveCanBeCompleted)) && unchanged(this)
      ensures orderId in old(orders) && old(orders[orderId]).status == Active ==>
                var done := old(orders[orderId]).(status := Completed, completedAt := Some(now));
                r == Ok(done) && orders == old(orders)[orderId := done] &&
                lines == old(lines) && nextId == old(nextId)
    {
      if orderId !in orders {
        return Err(OrderNotFound(orderId));
      }
      var o := orders[orderId];
      if o.status != Active {
        return Err(OrderException(OnlyActiveCanBeCompleted));
      }
      var done := o.(status := Completed, completedAt := Some(now));
      orders := orders[orderId := done];
      r := Ok(done);
    }

    /** cancelOrder: an active order becomes canceled and every one of its lines is
        returned to stock as an order_canceled movement; the lines stay. */
    method CancelOrder(orderId: int) returns (r: Result<Order>)
      requires Valid()
      modifies this, stockService
      ensures Valid()
      ensures orderId !in old(orders) ==>
                r == Err(OrderNotFound(orderId)) && unchanged(this) && unchanged(stockService)
      ensures orderId in old(orders) && old(orders[orderId]).status != Active ==>
                r == Err(OrderException(OnlyActiveCanBeCanceled)) &&
                unchanged(this) && unchanged(stockService)
      ensures orderId in old(orders) && old(orders[orderId]).status == Active ==>
                var o := old(orders[orderId]);
                var p := Credit(old(stockService.stock), o.warehouse, old(lines[orderId]), orderId, OrderCanceled);
                r == Ok(o.(status := Canceled)) &&
                orders == old(orders)[orderId := o.(status := Canceled)] &&
                lines == old(lines) && nextId == old(nextId) &&
                stockService.stock == p.stock &&
                stockService.movements == old(stockService.movements) + p.written
      ensures NonNegative(old(stockService.stock)) ==> NonNegative(stockService.stock)
    {
      if orderId !in orders {
        return Err(OrderNotFound(orderId));
      }
      var o := orders[orderId];
      if o.status != Active {
        return Err(OrderException(OnlyActiveCanBeCanceled));
      }
      var canceled := o.(status := Canceled);
      orders := orders[orderId := canceled];
      var returned := stockService.ReturnStock(o.warehouse, lines[orderId], orderId, OrderCanceled);
      r := Ok(canceled);
      forall oid | oid in orders
        ensures RowsExist(stockService.stock, orders[oid].warehouse, lines[oid])
      {
        RowsKept(old(stockService.stock), stockService.stock, orders[oid].warehouse, lines[oid]);
      }
    }

    /** resumeOrder: a canceled order whose lines pass the pre-check becomes active
        again and its lines are reserved as order_resumed movements, all undone when
        the reservation fails. */
    method ResumeOrder(orderId: int) returns (r: Result<Order>)
      requires Valid()
      modifies this, stockService
      ensures Valid()
      ensures orderId !in old(orders) ==>
                r == Err(OrderNotFound(orderId)) && unchanged(this) && unchanged(stockService)
      ensures orderId in old(orders) && old(orders[orderId]).status != Canceled ==>
                r == Err(OrderException(OnlyCanceledCanBeResumed)) &&
                unchanged(this) && unchanged(stockService)
      ensures orderId in old(orders) && old(orders[orderId]).status == Canceled &&
              !Available(old(stockService.stock), old(orders[orderId]).warehouse, old(lines[orderId])) ==>
                r == Err(OrderException(StockUnavailableForResume)) &&
                unchanged(this) && unchanged(stockService)
      ensures orderId in old(orders) && old(orders[orderId]).status == Canceled &&
              Available(old(stockService.stock), old(orders[orderId]).warehouse, old(lines[orderId])) ==>
                var o := old(orders[orderId]);
                match Debit(old(stockService.stock), o.warehouse, old(lines[orderId]), orderId, OrderResumed)
                case Ok(p) =>
                  r == Ok(o.(status := Active)) &&
                  orders == old(orders)[orderId := o.(status := Active)] &&
                  lines == old(lines) && nextId == old(nextId) &&
                  stockService.stock == p.stock &&
                  stockService.movements == old(stockService.movements) + p.written
                case Err(e) =>
                  r == Err(e) && orders == old(orders) && lines == old(lines) && nextId == old(nextId) &&
                  stockService.stock == old(stockService.stock) &&
                  stockService.movements == old(stockService.movements)
      ensures NonNegative(old(stockService.stock)) ==> NonNegative(stockService.stock)
    {
      if orderId !in orders {
        return Err(OrderNotFound(orderId));
      }
      var o := orders[orderId];
      if o.status != Canceled {
        return Err(OrderException(OnlyCanceledCanBeResumed));
      }
      var items := lines[orderId];
      var ok := stockService.CheckStockAvailability(o.warehouse, items);
      if !ok {
        return Err(OrderException(StockUnavailableForResume));
      }
      var savedOrders := orders;
      var resumed := o.(status := Active);
      orders := orders[orderId := resumed];
      var reserved := stockService.ReserveStock(o.warehouse, items, orderId, OrderResumed);
      if reserved.Err? {
        orders := savedOrders;
        return Err(reserved.error);
      }
      r := Ok(resumed);
    }
  }
}
