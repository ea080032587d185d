/** What updateReservation computes: the per-product delta (old count minus new count,
    which is the change to apply to the stock), validated for every negative delta
    before any delta is applied, with one movement per product whose delta is not 0. */
module Reconciliation {
  import opened Records
  import opened MovementLog
  import opened Reservation

  /** The values of ps in the order of their first occurrence: the key order of the
      $deltas array, where a key is appended the first time it is assigned. */
  function Distinct(ps: seq<int>): seq<int>
    decreases |ps|
  {
    if ps == [] then []
    else
      var d := Distinct(ps[..|ps| - 1]);
      if ps[|ps| - 1] in d then d else d + [ps[|ps| - 1]]
  }

  /** The products of the old lines, then the products only the new lines name. */
  function DeltaOrder(oldItems: seq<Item>, newItems: seq<Item>): seq<int> {
    Distinct(ProductIds(oldItems) + ProductIds(newItems))
  }

  /** The stock change for one product: what the old lines give back minus what the
      new lines take. */
  function Delta(oldItems: seq<Item>, newItems: seq<Item>, p: int): int {
    Demand(oldItems, p) - Demand(newItems, p)
  }

  /** The $deltas array: one entry for every product either list names. */
  function Deltas(oldItems: seq<Item>, newItems: seq<Item>): map<int, int> {
    map p | p in DeltaOrder(oldItems, newItems) :: Delta(oldItems, newItems, p)
  }

  /** A negative delta that the warehouse's row for p cannot cover. */
  predicate Short(s: Stock, w: int, p: int, d: int) {
    d < 0 && ((p, w) !in s || s[(p, w)] < -d)
  }

  /** The validation pass: the first product, in key order, that is short. */
  function Shortage(s: Stock, w: int, keys: seq<int>, deltas: map<int, int>): Option<int>
    requires forall p :: p in keys ==> p in deltas
    decreases |keys|
  {
    if keys == [] then None
    else if Short(s, w, keys[0], deltas[keys[0]]) then Some(keys[0])
    else Shortage(s, w, keys[1..], deltas)
  }

  /** The keys whose delta is not 0, in key order. */
  function NonZero(keys: seq<int>, deltas: map<int, int>): (r: seq<int>)
    requires forall p :: p in keys ==> p in deltas
    ensures forall i :: 0 <= i < |r| ==> r[i] in deltas
    decreases |keys|
  {
    if keys == [] then []
    else
      var p := keys[0];
      assert p in keys;
      if deltas[p] == 0 then NonZero(keys[1..], deltas)
      else [p] + NonZero(keys[1..], deltas)
  }

  /** The apply pass: each non-zero delta is added to its row (created at 0 when
      missing) and logged as an order_updated movement. */
  function ApplyDeltas(s: Stock, w: int, keys: seq<int>, deltas: map<int, int>, orderId: int): Posting
    requires forall p :: p in keys ==> p in deltas
    decreases |keys|
  {
    if keys == [] then Posting(s, [])
    else
      var p := keys[0];
      var d := deltas[p];
      if d == 0 then ApplyDeltas(s, w, keys[1..], deltas, orderId)
      else
        var after := Get(s, (p, w)) + d;
        var rest := ApplyDeltas(s[(p, w) := after], w, keys[1..], deltas, orderId);
        Posting(rest.stock, [Movement(p, w, d, after, orderId, OrderUpdated)] + rest.written)
  }

  /** updateReservation: validate every negative delta, then apply every non-zero one. */
  function Reconcile(s: Stock, w: int, oldItems: seq<Item>, newItems: seq<Item>, orderId: int): Result<Posting> {
    var keys := DeltaOrder(oldItems, newItems);
    var deltas := Deltas(oldItems, newItems);
    match Shortage(s, w, keys, deltas)
    case Some(p) => Err(InsufficientStock(p))
    case None => Ok(ApplyDeltas(s, w, keys, deltas, orderId))
  }

  // ---------------------------------------------------------------- key order

  /** Distinct lists each value of ps exactly once. */
  lemma {:induction false} DistinctFacts(ps: seq<int>)
    ensures NoDuplicates(Distinct(ps))
    ensures forall x :: x in Distinct(ps) <==> x in ps
    decreases |ps|
  {
    if ps != [] {
      var init := ps[..|ps| - 1];
      DistinctFacts(init);
      assert ps == init + [ps[|ps| - 1]];
    }
  }

  /** Appending a value to ps appends it to Distinct(ps) unless it is already there. */
  lemma DistinctSnoc(ps: seq<int>, x: int)
    ensures Distinct(ps + [x]) == if x in Distinct(ps) then Distinct(ps) else Distinct(ps) + [x]
  {
    assert (ps + [x])[..|ps + [x]| - 1] == ps;
  }

  /** Extending the seen products by the products of one more line. */
  lemma SeenSnoc(seen: seq<int>, items: seq<Item>, i: nat)
    requires i < |items|
    ensures seen + ProductIds(items[..i + 1]) == (seen + ProductIds(items[..i])) + [items[i].product]
  {
    assert ProductIds(items[..i + 1]) == ProductIds(items[..i]) + [items[i].product];
  }

  /** A product that neither list names has no demand and so a zero delta. */
  lemma DemandListed(items: seq<Item>, p: int)
    requires Demand(items, p) != 0
    ensures p in ProductIds(items)
  {
    if p !in ProductIds(items) {
      forall i | 0 <= i < |items| ensures items[i].product != p {
        assert ProductIds(items)[i] == items[i].product;
      }
      DemandAbsent(items, p);
    }
  }

  /** The delta keys are the products the two lists name, each exactly once, and a
      product with a non-zero delta is among them. */
  lemma DeltaOrderFacts(oldItems: seq<Item>, newItems: seq<Item>)
    ensures NoDuplicates(DeltaOrder(oldItems, newItems))
    ensures forall p :: p in DeltaOrder(oldItems, newItems) <==>
                        p in ProductIds(oldItems) || p in ProductIds(newItems)
    ensures forall p :: Delta(oldItems, newItems, p) != 0 ==> p in DeltaOrder(oldItems, newItems)
  {
    DistinctFacts(ProductIds(oldItems) + ProductIds(newItems));
    forall p | Delta(oldItems, newItems, p) != 0
      ensures p in ProductIds(oldItems) || p in ProductIds(newItems)
    {
      if Demand(oldItems, p) != 0 {
        DemandListed(oldItems, p);
      } else {
        DemandListed(newItems, p);
      }
    }
  }

  /** One step of a $deltas loop on the keys: line i's product is appended unless
      it already has an entry. */
  lemma AccumulateKeysStep(seen: seq<int>, items: seq<Item>, i: nat, keys: seq<int>, deltas: map<int, int>)
    requires i < |items|
    requires keys == Distinct(seen + ProductIds(items[..i]))
    requires forall p :: p in deltas <==> p in keys
    ensures var p := items[i].product;
            (if p in deltas then keys else keys + [p]) == Distinct(seen + ProductIds(items[..i + 1]))
  {
    SeenSnoc(seen, items, i);
    DistinctSnoc(seen + ProductIds(items[..i]), items[i].product);
  }

  /** One step of a $deltas loop: adding (or subtracting) line i's count to its
      product's entry extends the accumulated totals by that line. */
  lemma AccumulateStep(deltas0: map<int, int>, before: map<int, int>, items: seq<Item>, i: nat, giveBack: bool)
    requires i < |items|
    requires forall p :: Get(before, p) ==
                        Get(deltas0, p) + (if giveBack then Demand(items[..i], p) else -Demand(items[..i], p))
    ensures var it := items[i];
            var entry := Get(before, it.product);
            var after := before[it.product := if giveBack then entry + it.count else entry - it.count];
            forall p :: Get(after, p) ==
                        Get(deltas0, p) + (if giveBack then Demand(items[..i + 1], p) else -Demand(items[..i + 1], p))
  {
    forall p {
      DemandSnoc(items, i, p);
    }
  }

  /** A table whose keys are the delta order and whose entries read as the deltas is
      the $deltas array. */
  lemma DeltasTable(oldItems: seq<Item>, newItems: seq<Item>, deltas: map<int, int>)
    requires forall p :: p in deltas <==> p in DeltaOrder(oldItems, newItems)
    requires forall p :: Get(deltas, p) == Delta(oldItems, newItems, p)
    ensures deltas == Deltas(oldItems, newItems)
  {
    var target := Deltas(oldItems, newItems);
    forall p ensures p in deltas <==> p in target {
      assert p in target <==> p in DeltaOrder(oldItems, newItems);
    }
    assert deltas.Keys == target.Keys;
    forall p | p in deltas ensures deltas[p] == target[p] {
      assert Get(deltas, p) == deltas[p];
    }
  }

  // ---------------------------------------------------------------- the passes

  /** The validation pass finds nothing exactly when no key is short; what it finds
      is the first short key. */
  lemma {:induction false} ShortageFacts(s: Stock, w: int, keys: seq<int>, deltas: map<int, int>)
    requires forall p :: p in keys ==> p in deltas
    ensures Shortage(s, w, keys, deltas) == None <==>
            forall i :: 0 <= i < |keys| ==> !Short(s, w, keys[i], deltas[keys[i]])
    ensures Shortage(s, w, keys, deltas).Some? ==>
            exists i :: 0 <= i < |keys| && keys[i] == Shortage(s, w, keys, deltas).value &&
              Short(s, w, keys[i], deltas[keys[i]]) &&
              forall j :: 0 <= j < i ==> !Short(s, w, keys[j], deltas[keys[j]])
    decreases |keys|
  {
    if keys != [] && !Short(s, w, keys[0], deltas[keys[0]]) {
      var rest := keys[1..];
      ShortageFacts(s, w, rest, deltas);
      if Shortage(s, w, rest, deltas).Some? {
        var i :| 0 <= i < |rest| && rest[i] == Shortage(s, w, rest, deltas).value &&
          Short(s, w, rest[i], deltas[rest[i]]) &&
          forall j :: 0 <= j < i ==> !Short(s, w, rest[j], deltas[rest[j]]);
        assert keys[i + 1] == rest[i];
        forall j | 0 <= j < i + 1 ensures !Short(s, w, keys[j], deltas[keys[j]]) {
          if j > 0 { assert keys[j] == rest[j - 1]; }
        }
      } else {
        forall i | 0 <= i < |keys| ensures !Short(s, w, keys[i], deltas[keys[i]]) {
          if i > 0 { assert keys[i] == rest[i - 1]; }
        }
      }
    }
  }

  /** Changing the row of a product the keys do not name leaves the validation pass
      as it was. */
  lemma {:induction false} ShortageUntouched(s: Stock, w: int, keys: seq<int>, deltas: map<int, int>, p: int, v: int)
    requires forall p :: p in keys ==> p in deltas
    requires p !in keys
    ensures Shortage(s[(p, w) := v], w, keys, deltas) == Shortage(s, w, keys, deltas)
    decreases |keys|
  {
    if keys != [] {
      ShortageUntouched(s, w, keys[1..], deltas, p, v);
    }
  }

  lemma {:induction false} NonZeroFacts(keys: seq<int>, deltas: map<int, int>)
    requires forall p :: p in keys ==> p in deltas
    ensures forall p :: p in NonZero(keys, deltas) <==> p in keys && deltas[p] != 0
    ensures NoDuplicates(keys) ==> NoDuplicates(NonZero(keys, deltas))
    decreases |keys|
  {
    if keys != [] {
      NonZeroFacts(keys[1..], deltas);
      if NoDuplicates(keys) {
        assert NoDuplicates(keys[1..]);
        assert keys[0] !in keys[1..];
      }
    }
  }

  /** The apply pass adds each non-zero delta to its row exactly once, creating the
      row at 0 when missing, and leaves every other row as it was. */
  lemma {:induction false} ApplyStock(s: Stock, w: int, keys: seq<int>, deltas: map<int, int>, orderId: int)
    requires forall p :: p in keys ==> p in deltas
    requires NoDuplicates(keys)
    ensures var after := ApplyDeltas(s, w, keys, deltas, orderId).stock;
            (forall k :: k in after <==> k in s || (k.1 == w && k.0 in keys && deltas[k.0] != 0)) &&
            (forall p :: p in keys && deltas[p] != 0 ==> after[(p, w)] == Get(s, (p, w)) + deltas[p]) &&
            (forall k :: k in s && !(k.1 == w && k.0 in keys && deltas[k.0] != 0) ==> after[k] == s[k])
    decreases |keys|
  {
    if keys != [] {
      var p := keys[0];
      var rest := keys[1..];
      assert NoDuplicates(rest);
      assert p !in rest;
      var s1 := if deltas[p] == 0 then s else s[(p, w) := Get(s, (p, w)) + deltas[p]];
      ApplyStock(s1, w, rest, deltas, orderId);
      var after := ApplyDeltas(s, w, keys, deltas, orderId).stock;
      assert after == ApplyDeltas(s1, w, rest, deltas, orderId).stock;
      forall q | q in keys ensures q == p || q in rest {
        var i :| 0 <= i < |keys| && keys[i] == q;
        if i > 0 { assert rest[i - 1] == q; }
      }
    }
  }

  /** The apply pass writes one order_updated movement per non-zero delta, in key
      order, with quantity_change the delta and quantity_after the row's new value. */
  lemma {:induction false} ApplyLog(s: Stock, w: int, keys: seq<int>, deltas: map<int, int>, orderId: int)
    requires forall p :: p in keys ==> p in deltas
    requires NoDuplicates(keys)
    ensures var log := ApplyDeltas(s, w, keys, deltas, orderId).written;
            var nz := NonZero(keys, deltas);
            |log| == |nz| &&
            forall i :: 0 <= i < |nz| ==>
              log[i] == Movement(nz[i], w, deltas[nz[i]], Get(s, (nz[i], w)) + deltas[nz[i]], orderId, OrderUpdated)
    decreases |keys|
  {
    if keys != [] {
      var p := keys[0];
      var rest := keys[1..];
      assert NoDuplicates(rest);
      assert p !in rest;
      NonZeroFacts(rest, deltas);
      if deltas[p] == 0 {
        ApplyLog(s, w, rest, deltas, orderId);
      } else {
        var s1 := s[(p, w) := Get(s, (p, w)) + deltas[p]];
        ApplyLog(s1, w, rest, deltas, orderId);
        var restNz := NonZero(rest, deltas);
        var restLog := ApplyDeltas(s1, w, rest, deltas, orderId).written;
        var m := Movement(p, w, deltas[p], Get(s, (p, w)) + deltas[p], orderId, OrderUpdated);
        var nz := [p] + restNz;
        var log := [m] + restLog;
        assert NonZero(keys, deltas) == nz;
        assert ApplyDeltas(s, w, keys, deltas, orderId).written == log;
        forall i | 0 <= i < |nz|
          ensures log[i] == Movement(nz[i], w, deltas[nz[i]], Get(s, (nz[i], w)) + deltas[nz[i]], orderId, OrderUpdated)
        {
          if i > 0 {
            var q := restNz[i - 1];
            assert nz[i] == q && log[i] == restLog[i - 1];
            assert q in rest;
            assert Get(s1, (q, w)) == Get(s, (q, w));
          }
        }
      }
    }
  }

  /** Replaying what the apply pass wrote over the old table gives the new table, and
      every quantity_after it wrote is the value its row then held. */
  lemma {:induction false} ApplyReplays(s: Stock, w: int, keys: seq<int>, deltas: map<int, int>, orderId: int)
    requires forall p :: p in keys ==> p in deltas
    ensures var p := ApplyDeltas(s, w, keys, deltas, orderId);
            Replay(s, p.written) == p.stock && Faithful(s, p.written)
    decreases |keys|
  {
    if keys != [] {
      var p := keys[0];
      var d := deltas[p];
      if d == 0 {
        ApplyReplays(s, w, keys[1..], deltas, orderId);
      } else {
        var s1 := s[(p, w) := Get(s, (p, w)) + d];
        ApplyReplays(s1, w, keys[1..], deltas, orderId);
        var m := Movement(p, w, d, Get(s, (p, w)) + d, orderId, OrderUpdated);
        var restLog := ApplyDeltas(s1, w, keys[1..], deltas, orderId).written;
        assert ([m] + restLog)[0] == m && ([m] + restLog)[1..] == restLog;
        assert Apply(s, m) == s1;
      }
    }
  }

  // ---------------------------------------------------------------- updateReservation

  /** updateReservation fails exactly when some product's negative delta is not
      covered by its row, and it then names the first such product in key order. */
  lemma ReconcileOutcome(s: Stock, w: int, oldItems: seq<Item>, newItems: seq<Item>, orderId: int)
    ensures Reconcile(s, w, oldItems, newItems, orderId).Err? <==>
            exists p :: Short(s, w, p, Delta(oldItems, newItems, p))
    ensures Reconcile(s, w, oldItems, newItems, orderId).Err? ==>
            var keys := DeltaOrder(oldItems, newItems);
            exists i :: 0 <= i < |keys| &&
              Reconcile(s, w, oldItems, newItems, orderId).error == InsufficientStock(keys[i]) &&
              Short(s, w, keys[i], Delta(oldItems, newItems, keys[i])) &&
              forall j :: 0 <= j < i ==> !Short(s, w, keys[j], Delta(oldItems, newItems, keys[j]))
  {
    var keys := DeltaOrder(oldItems, newItems);
    var deltas := Deltas(oldItems, newItems);
    ShortageFacts(s, w, keys, deltas);
    DeltaOrderFacts(oldItems, newItems);
    if Shortage(s, w, keys, deltas) == None {
      forall p ensures !Short(s, w, p, Delta(oldItems, newItems, p)) {
        if Delta(oldItems, newItems, p) != 0 {
          var i :| 0 <= i < |keys| && keys[i] == p;
          assert !Short(s, w, keys[i], deltas[keys[i]]);
        }
      }
    }
  }

  /** On success each product's row changes by exactly its delta (old count minus new
      count), a missing row being created at 0 only for a delta that is not 0, and
      every other row is untouched. */
  lemma ReconcileStock(s: Stock, w: int, oldItems: seq<Item>, newItems: seq<Item>, orderId: int)
    requires Reconcile(s, w, oldItems, newItems, orderId).Ok?
    ensures var after := Reconcile(s, w, oldItems, newItems, orderId).value.stock;
            s.Keys <= after.Keys &&
            (forall p :: Delta(oldItems, newItems, p) != 0 ==>
               (p, w) in after && after[(p, w)] == Get(s, (p, w)) + Delta(oldItems, newItems, p)) &&
            (forall k :: k in after && (k.1 != w || Delta(oldItems, newItems, k.0) == 0) ==>
               k in s && after[k] == s[k])
  {
    var keys := DeltaOrder(oldItems, newItems);
    var deltas := Deltas(oldItems, newItems);
    DeltaOrderFacts(oldItems, newItems);
    ApplyStock(s, w, keys, deltas, orderId);
  }

  /** On success the log grows by one order_updated movement per product whose delta
      is not 0, each product once, in key order; a zero delta leaves no trace. */
  lemma ReconcileLog(s: Stock, w: int, oldItems: seq<Item>, newItems: seq<Item>, orderId: int)
    requires Reconcile(s, w, oldItems, newItems, orderId).Ok?
    ensures var log := Reconcile(s, w, oldItems, newItems, orderId).value.written;
            var nz := NonZero(DeltaOrder(oldItems, newItems), Deltas(oldItems, newItems));
            NoDuplicates(nz) &&
            (forall p :: p in nz <==> Delta(oldItems, newItems, p) != 0) &&
            |log| == |nz| &&
            forall i :: 0 <= i < |nz| ==>
              log[i] == Movement(nz[i], w, Delta(oldItems, newItems, nz[i]),
                                 Get(s, (nz[i], w)) + Delta(oldItems, newItems, nz[i]), orderId, OrderUpdated)
  {
    var keys := DeltaOrder(oldItems, newItems);
    var deltas := Deltas(oldItems, newItems);
    DeltaOrderFacts(oldItems, newItems);
    NonZeroFacts(keys, deltas);
    ApplyLog(s, w, keys, deltas, orderId);
  }

  lemma {:induction false} ApplyZero(s: Stock, w: int, keys: seq<int>, deltas: map<int, int>, orderId: int)
    requires forall p :: p in keys ==> p in deltas
    requires forall p :: p in keys ==> deltas[p] == 0
    ensures ApplyDeltas(s, w, keys, deltas, orderId) == Posting(s, [])
    decreases |keys|
  {
    if keys != [] {
      ApplyZero(s, w, keys[1..], deltas, orderId);
    }
  }

  /** Updating an order to the lines it already has changes no row and writes no
      movement. */
  lemma ReconcileNoop(s: Stock, w: int, items: seq<Item>, orderId: int)
    ensures Reconcile(s, w, items, items, orderId) == Ok(Posting(s, []))
  {
    var keys := DeltaOrder(items, items);
    var deltas := Deltas(items, items);
    ShortageFacts(s, w, keys, deltas);
    ApplyZero(s, w, keys, deltas, orderId);
  }

  /** A successful updateReservation keeps a non-negative table non-negative. */
  lemma ReconcileNonNegative(s: Stock, w: int, oldItems: seq<Item>, newItems: seq<Item>, orderId: int)
    requires Reconcile(s, w, oldItems, newItems, orderId).Ok?
    requires NonNegative(s)
    ensures NonNegative(Reconcile(s, w, oldItems, newItems, orderId).value.stock)
  {
    ReconcileOutcome(s, w, oldItems, newItems, orderId);
    ReconcileStock(s, w, oldItems, newItems, orderId);
    var after := Reconcile(s, w, oldItems, newItems, orderId).value.stock;
    forall k | k in after ensures after[k] >= 0 {
      assert !Short(s, w, k.0, Delta(oldItems, newItems, k.0));
    }
  }

  /** Replaying what updateReservation wrote over the old table gives the new table,
      and every quantity_after it wrote is the value its row then held. */
  lemma ReconcileReplays(s: Stock, w: int, oldItems: seq<Item>, newItems: seq<Item>, orderId: int)
    requires Reconcile(s, w, oldItems, newItems, orderId).Ok?
    ensures var p := Reconcile(s, w, oldItems, newItems, orderId).value;
            Replay(s, p.written) == p.stock && Faithful(s, p.written)
  {
    ApplyReplays(s, w, DeltaOrder(oldItems, newItems), Deltas(oldItems, newItems), orderId);
  }

  /** After a successful update every new line's product has a row, provided every
      old line's product had one and every new count is positive. */
  lemma ReconcileRows(s: Stock, w: int, oldItems: seq<Item>, newItems: seq<Item>, orderId: int)
    requires Reconcile(s, w, oldItems, newItems, orderId).Ok?
    requires RowsExist(s, w, oldItems)
    requires forall i :: 0 <= i < |newItems| ==> newItems[i].count >= 1
    ensures RowsExist(Reconcile(s, w, oldItems, newItems, orderId).value.stock, w, newItems)
  {
    ReconcileStock(s, w, oldItems, newItems, orderId);
    var after := Reconcile(s, w, oldItems, newItems, orderId).value.stock;
    forall i | 0 <= i < |newItems| ensures (newItems[i].product, w) in after {
      var p := newItems[i].product;
      if Delta(oldItems, newItems, p) == 0 {
        DemandCoversLine(newItems, i);
        DemandListed(oldItems, p);
        var j :| 0 <= j < |oldItems| && ProductIds(oldItems)[j] == p;
        assert (oldItems[j].product, w) in s;
      }
    }
  }
}
