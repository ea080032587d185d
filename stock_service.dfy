/** The stock ledger: the stock table and the movement log, changed in place by the
    four operations of the stock service. A transaction is explicit: an operation
    that fails restores the table and the log it started from. */
module StockLedger {
  import opened Records
  import opened MovementLog
  import opened Reservation
  import opened Reconciliation

  class StockService {
    var stock: Stock
    var movements: seq<Movement>
    /** The table as it stood before the first movement was logged. */
    ghost var baseline: Stock

    /** The log is the table's history: replaying it over the baseline gives the
        table, and each entry's quantity_after is what its row then held. */
    ghost predicate Valid()
      reads this
    {
      stock == Replay(baseline, movements) && Faithful(baseline, movements)
    }

    /** A ledger over a table of existing rows, with an empty log. */
    constructor (initial: Stock)
      ensures Valid()
      ensures stock == initial && movements == [] && baseline == initial
    {
      stock := initial;
      movements := [];
      baseline := initial;
    }

    /** checkStockAvailability: true exactly when every line on its own has a row in
        the warehouse holding at least its count. Reads without changing anything. */
    method CheckStockAvailability(w: int, items: seq<Item>) returns (ok: bool)
      ensures ok == Available(stock, w, items)
    {
      var i := 0;
      while i < |items|
        invariant 0 <= i <= |items|
        invariant forall j :: 0 <= j < i ==>
          (items[j].product, w) in stock && stock[(items[j].product, w)] >= items[j].count
      {
        var k := (items[i].product, w);
        if k !in stock || stock[k] < items[i].count {
          return false;
        }
        i := i + 1;
      }
      return true;
    }

    /** reserveStock: debit every line in order, or fail with InsufficientStock for
        the first line whose row is missing or short, restoring table and log. */
    method ReserveStock(w: int, items: seq<Item>, orderId: int, kind: MovementType) returns (r: Result<()>)
      requires Valid()
      modifies this
      ensures Valid() && baseline == old(baseline)
      ensures match Debit(old(stock), w, items, orderId, kind)
              case Ok(p) => r == Ok(()) && stock == p.stock && movements == old(movements) + p.written
              case Err(e) => r == Err(e) && stock == old(stock) && movements == old(movements)
      ensures NonNegative(old(stock)) ==> NonNegative(stock)
      ensures stock.Keys == old(stock).Keys
    {
      var saved, savedLog := stock, movements;
      ghost var written: seq<Movement> := [];
      var i := 0;
      assert items[i..] == items;
      PrependNothing(Debit(stock, w, items, orderId, kind));
      while i < |items|
        invariant 0 <= i <= |items|
        invariant baseline == old(baseline)
        invariant movements == savedLog + written
        invariant Debit(saved, w, items, orderId, kind) == Prepend(written, Debit(stock, w, items[i..], orderId, kind))
      {
        var it := items[i];
        var k := (it.product, w);
        assert items[i..][0] == it && items[i..][1..] == items[i + 1..];
        if k !in stock || stock[k] < it.count {
          stock, movements := saved, savedLog;
          return Err(InsufficientStock(it.product));
        }
        ghost var before := stock;
        stock := stock[k := stock[k] - it.count];
        var m := Movement(it.product, w, -it.count, stock[k], orderId, kind);
        assert Debit(before, w, items[i..], orderId, kind) == Prepend([m], Debit(stock, w, items[i + 1..], orderId, kind));
        PrependTwice(written, [m], Debit(stock, w, items[i + 1..], orderId, kind));
        movements := movements + [m];
        written := written + [m];
        i := i + 1;
      }
      assert items[i..] == [];
      assert written + [] == written;
      r := Ok(());
      DebitReplays(saved, w, items, orderId, kind);
      ReplayConcat(baseline, savedLog, written);
      if NonNegative(saved) {
        DebitNonNegative(saved, w, items, orderId, kind);
      }
      DebitStock(saved, w, items, orderId, kind);
    }

    /** returnStock: credit every line in order, creating a missing row at 0. */
    method ReturnStock(w: int, items: seq<Item>, orderId: int, kind: MovementType) returns (r: Result<()>)
      requires Valid()
      modifies this
      ensures Valid() && baseline == old(baseline)
      ensures var p := Credit(old(stock), w, items, orderId, kind);
              r == Ok(()) && stock == p.stock && movements == old(movements) + p.written
      ensures NonNegative(old(stock)) && NonNegativeCounts(items) ==> NonNegative(stock)
      ensures old(stock).Keys <= stock.Keys && RowsExist(stock, w, items)
    {
      var saved, savedLog := stock, movements;
      ghost var written: seq<Movement> := [];
      var i := 0;
      assert items[i..] == items;
      while i < |items|
        invariant 0 <= i <= |items|
        invariant baseline == old(baseline)
        invariant movements == savedLog + written
        invariant Credit(saved, w, items, orderId, kind) ==
                  var rest := Credit(stock, w, items[i..], orderId, kind);
                  Posting(rest.stock, written + rest.written)
      {
        var it := items[i];
        var k := (it.product, w);
        CreditFrom(stock, w, items, i, orderId, kind);
        // a missing row is created in memory at 0 and saved once, after the credit
        var current := Get(stock, k);
        stock := stock[k := current + it.count];
        var m := Movement(it.product, w, it.count, current + it.count, orderId, kind);
        ghost var rest := Credit(stock, w, items[i + 1..], orderId, kind);
        assert written + ([m] + rest.written) == (written + [m]) + rest.written;
        movements := movements + [m];
        written := written + [m];
        i := i + 1;
      }
      assert items[i..] == [];
      assert written + [] == written;
      r := Ok(());
      CreditLedger(baseline, savedLog, saved, w, items, orderId, kind);
    }

    /** updateReservation: compute the per-product deltas, reject the call if any
        negative delta is not covered, then apply every non-zero delta once. */
    method UpdateReservation(w: int, oldItems: seq<Item>, newItems: seq<Item>, orderId: int) returns (r: Result<()>)
      requires Valid()
      modifies this
      ensures Valid() && baseline == old(baseline)
      ensures match Reconcile(old(stock), w, oldItems, newItems, orderId)
              case Ok(p) => r == Ok(()) && stock == p.stock && movements == old(movements) + p.written
              case Err(e) => r == Err(e) && stock == old(stock) && movements == old(movements)
      ensures NonNegative(old(stock)) ==> NonNegative(stock)
      ensures old(stock).Keys <= stock.Keys
    {
      var keys, deltas := ComputeDeltas(oldItems, newItems);
      DeltaOrderFacts(oldItems, newItems);
      var short := FindShortage(w, keys, deltas);
      if short.Some? {
        return Err(InsufficientStock(short.value));
      }
      ghost var saved, savedLog := stock, movements;
      ApplyAll(w, keys, deltas, orderId);
      r := Ok(());
      ghost var written := ApplyDeltas(saved, w, keys, deltas, orderId).written;
      ReconcileReplays(saved, w, oldItems, newItems, orderId);
      ReplayConcat(baseline, savedLog, written);
      if NonNegative(saved) {
        ReconcileNonNegative(saved, w, oldItems, newItems, orderId);
      }
      ReconcileStock(saved, w, oldItems, newItems, orderId);
    }

    /** The validation pass of updateReservation: the first product, in key order,
        whose negative delta its row cannot cover. Nothing is written. */
    method FindShortage(w: int, keys: seq<int>, deltas: map<int, int>) returns (short: Option<int>)
      requires forall p :: p in keys ==> p in deltas
      ensures short == Shortage(stock, w, keys, deltas)
    {
      var i := 0;
      assert keys[i..] == keys;
      while i < |keys|
        invariant 0 <= i <= |keys|
        invariant Shortage(stock, w, keys, deltas) == Shortage(stock, w, keys[i..], deltas)
      {
        var p := keys[i];
        assert keys[i..][0] == p && keys[i..][1..] == keys[i + 1..];
        var d := deltas[p];
        if d < 0 {
          if (p, w) !in stock || stock[(p, w)] < -d {
            return Some(p);
          }
        }
        i := i + 1;
      }
      assert keys[i..] == [];
      return None;
    }

    /** The apply pass of updateReservation, run once the validation pass found no
        shortage: every non-zero delta is added to its row and logged. */
    method ApplyAll(w: int, keys: seq<int>, deltas: map<int, int>, orderId: int)
      requires forall p :: p in keys ==> p in deltas
      requires NoDuplicates(keys)
      requires Shortage(stock, w, keys, deltas) == None
      modifies this
      ensures baseline == old(baseline)
      ensures var post := ApplyDeltas(old(stock), w, keys, deltas, orderId);
              stock == post.stock && movements == old(movements) + post.written
    {
      ghost var saved, savedLog := stock, movements;
      ghost var written: seq<Movement> := [];
      var i := 0;
      assert keys[i..] == keys;
      while i < |keys|
        invariant 0 <= i <= |keys|
        invariant baseline == old(baseline)
        invariant movements == savedLog + written
        invariant ApplyDeltas(saved, w, keys, deltas, orderId) ==
                  var rest := ApplyDeltas(stock, w, keys[i..], deltas, orderId);
                  Posting(rest.stock, written + rest.written)
        invariant Shortage(stock, w, keys[i..], deltas) == None
      {
        var p := keys[i];
        var d := deltas[p];
        assert keys[i..][0] == p && keys[i..][1..] == keys[i + 1..];
        assert p !in keys[i + 1..] by {
          forall j | i + 1 <= j < |keys| ensures keys[j] != p { }
        }
        if d != 0 {
          if (p, w) !in stock && d < 0 {
            // the validation pass already rejected this case
            assert false;
          }
          ghost var before := stock;
          var current := if (p, w) in stock then stock[(p, w)] else 0;
          ShortageUntouched(stock, w, keys[i + 1..], deltas, p, current + d);
          stock := stock[(p, w) := current + d];
          var m := Movement(p, w, d, current + d, orderId, OrderUpdated);
          ghost var rest := ApplyDeltas(stock, w, keys[i + 1..], deltas, orderId);
          assert ApplyDeltas(before, w, keys[i..], deltas, orderId) == Posting(rest.stock, [m] + rest.written);
          assert written + ([m] + rest.written) == (written + [m]) + rest.written;
          movements := movements + [m];
          written := written + [m];
        }
        i := i + 1;
      }
      assert keys[i..] == [];
      assert written + [] == written;
    }
  }

  /** One of the two $deltas loops of updateReservation: for each line in order, add
      its count to its product's entry (giving back) or subtract it (taking), creating
      a missing entry at 0 and appending its key the first time. */
  method Accumulate(ghost seen: seq<int>, keys0: seq<int>, deltas0: map<int, int>, items: seq<Item>, giveBack: bool)
    returns (keys: seq<int>, deltas: map<int, int>)
    requires keys0 == Distinct(seen)
    requires forall p :: p in deltas0 <==> p in keys0
    ensures keys == Distinct(seen + ProductIds(items))
    ensures forall p :: p in deltas <==> p in keys
    ensures forall p :: Get(deltas, p) ==
                        Get(deltas0, p) + (if giveBack then Demand(items, p) else -Demand(items, p))
  {
    keys, deltas := keys0, deltas0;
    var i := 0;
    assert seen + ProductIds(items[..i]) == seen;
    while i < |items|
      invariant 0 <= i <= |items|
      invariant keys == Distinct(seen + ProductIds(items[..i]))
      invariant forall p :: p in deltas <==> p in keys
      invariant forall p :: Get(deltas, p) ==
                          Get(deltas0, p) + (if giveBack then Demand(items[..i], p) else -Demand(items[..i], p))
    {
      var it := items[i];
      AccumulateKeysStep(seen, items, i, keys, deltas);
      AccumulateStep(deltas0, deltas, items, i, giveBack);
      if it.product !in deltas {
        keys := keys + [it.product];
      }
      var entry := Get(deltas, it.product);
      deltas := deltas[it.product := if giveBack then entry + it.count else entry - it.count];
      i := i + 1;
    }
    assert items[..i] == items;
  }

  /** The first half of updateReservation: the $deltas array, built in place by a
      loop over the old lines (adding) and a loop over the new lines (subtracting).
      Its keys come in first-insertion order and each maps to old count minus new
      count. */
  method ComputeDeltas(oldItems: seq<Item>, newItems: seq<Item>) returns (keys: seq<int>, deltas: map<int, int>)
    ensures keys == DeltaOrder(oldItems, newItems)
    ensures deltas == Deltas(oldItems, newItems)
  {
    assert [] + ProductIds(oldItems) == ProductIds(oldItems);
    var given, byOld := Accumulate([], [], map[], oldItems, true);
    assert forall p :: Get(byOld, p) == Demand(oldItems, p);
    keys, deltas := Accumulate(ProductIds(oldItems), given, byOld, newItems, false);
    assert forall p :: Get(deltas, p) == Delta(oldItems, newItems, p);
    DeltasTable(oldItems, newItems, deltas);
  }
}
