/** What checkStockAvailability, reserveStock and returnStock compute, as functions of
    the stock table, and the properties those functions have. */
module Reservation {
  import opened Records
  import opened MovementLog

  /** What a successful ledger operation leaves behind: the new stock table and the
      movements it appended, in the order it appended them. */
  datatype Posting = Posting(stock: Stock, written: seq<Movement>)

  /** Puts movements written earlier in the same transaction in front of an outcome. */
  function Prepend(earlier: seq<Movement>, r: Result<Posting>): Result<Posting> {
    match r
    case Ok(p) => Ok(Posting(p.stock, earlier + p.written))
    case Err(e) => Err(e)
  }

  /** Prepending nothing changes nothing. */
  lemma PrependNothing(r: Result<Posting>)
    ensures Prepend([], r) == r
  {
    if r.Ok? {
      assert [] + r.value.written == r.value.written;
    }
  }

  /** Prepending twice is prepending the concatenation. */
  lemma PrependTwice(a: seq<Movement>, b: seq<Movement>, r: Result<Posting>)
    ensures Prepend(a, Prepend(b, r)) == Prepend(a + b, r)
  {
    if r.Ok? {
      assert a + (b + r.value.written) == (a + b) + r.value.written;
    }
  }

  /** The total count the lines ask for one product. */
  function Demand(items: seq<Item>, p: int): int
    decreases |items|
  {
    if items == [] then 0
    else (if items[0].product == p then items[0].count else 0) + Demand(items[1..], p)
  }

  predicate NonNegative(s: Stock) {
    forall k :: k in s ==> s[k] >= 0
  }

  predicate NonNegativeCounts(items: seq<Item>) {
    forall i :: 0 <= i < |items| ==> items[i].count >= 0
  }

  function ProductIds(items: seq<Item>): (ps: seq<int>)
    ensures |ps| == |items|
    ensures forall i :: 0 <= i < |items| ==> ps[i] == items[i].product
  {
    seq(|items|, i requires 0 <= i < |items| => items[i].product)
  }

  predicate NoDuplicates(ps: seq<int>) {
    forall i, j :: 0 <= i < j < |ps| ==> ps[i] != ps[j]
  }

  /** No product is named on two lines. */
  predicate NoDuplicateProducts(items: seq<Item>) {
    NoDuplicates(ProductIds(items))
  }

  /** Every line's product has a stock row in the warehouse. */
  predicate RowsExist(s: Stock, w: int, items: seq<Item>) {
    forall i :: 0 <= i < |items| ==> (items[i].product, w) in s
  }

  /** The unlocked pre-check: each line on its own has a row in the warehouse holding
      at least its count, measured against the unmodified table. */
  predicate Available(s: Stock, w: int, items: seq<Item>) {
    forall i :: 0 <= i < |items| ==>
      (items[i].product, w) in s && s[(items[i].product, w)] >= items[i].count
  }

  /** Line k can be debited at its turn: its row exists and still holds its count
      after the earlier lines of the same call took theirs. */
  predicate FitsAtTurn(s: Stock, w: int, items: seq<Item>, k: nat)
    requires k < |items|
  {
    var p := items[k].product;
    (p, w) in s && s[(p, w)] - Demand(items[..k], p) >= items[k].count
  }

  /** reserveStock: debit the lines one at a time; the first line whose row is missing
      or short fails the whole call. */
  function Debit(s: Stock, w: int, items: seq<Item>, orderId: int, kind: MovementType): Result<Posting>
    decreases |items|
  {
    if items == [] then Ok(Posting(s, []))
    else
      var it := items[0];
      var k := (it.product, w);
      if k !in s || s[k] < it.count then Err(InsufficientStock(it.product))
      else
        var after := s[k] - it.count;
        Prepend([Movement(it.product, w, -it.count, after, orderId, kind)],
                Debit(s[k := after], w, items[1..], orderId, kind))
  }

  /** returnStock: credit the lines one at a time, creating a missing row at 0. */
  function Credit(s: Stock, w: int, items: seq<Item>, orderId: int, kind: MovementType): Posting
    decreases |items|
  {
    if items == [] then Posting(s, [])
    else
      var it := items[0];
      var k := (it.product, w);
      var after := Get(s, k) + it.count;
      var rest := Credit(s[k := after], w, items[1..], orderId, kind);
      Posting(rest.stock, [Movement(it.product, w, it.count, after, orderId, kind)] + rest.written)
  }

  // ---------------------------------------------------------------- Demand

  lemma {:induction false} DemandConcat(a: seq<Item>, b: seq<Item>, p: int)
    ensures Demand(a + b, p) == Demand(a, p) + Demand(b, p)
    decreases |a|
  {
    if a == [] {
      assert a + b == b;
    } else {
      assert (a + b)[0] == a[0];
      assert (a + b)[1..] == a[1..] + b;
      DemandConcat(a[1..], b, p);
    }
  }

  /** Extending a prefix of the lines by one line adds that line's count. */
  lemma DemandSnoc(items: seq<Item>, i: nat, p: int)
    requires i < |items|
    ensures Demand(items[..i + 1], p) == Demand(items[..i], p) + (if items[i].product == p then items[i].count else 0)
  {
    assert items[..i + 1] == items[..i] + [items[i]];
    DemandConcat(items[..i], [items[i]], p);
    assert [items[i]][1..] == [];
  }

  lemma {:induction false} DemandAbsent(items: seq<Item>, p: int)
    requires forall i :: 0 <= i < |items| ==> items[i].product != p
    ensures Demand(items, p) == 0
    decreases |items|
  {
    if items != [] {
      DemandAbsent(items[1..], p);
    }
  }

  lemma {:induction false} DemandNonNegative(items: seq<Item>, p: int)
    requires NonNegativeCounts(items)
    ensures Demand(items, p) >= 0
    decreases |items|
  {
    if items != [] {
      DemandNonNegative(items[1..], p);
    }
  }

  /** With non-negative counts, a product's total demand covers each of its lines. */
  lemma DemandCoversLine(items: seq<Item>, i: nat)
    requires NonNegativeCounts(items)
    requires i < |items|
    ensures Demand(items, items[i].product) >= items[i].count
  {
    var p := items[i].product;
    assert items == items[..i] + items[i..];
    DemandConcat(items[..i], items[i..], p);
    DemandNonNegative(items[..i], p);
    DemandNonNegative(items[i + 1..], p);
    assert items[i..][1..] == items[i + 1..];
  }

  /** Line k+1 of a call fits at its turn exactly when it fits at turn k of the rest
      of the call, run on the table the first line left behind. */
  lemma FitsShift(s: Stock, w: int, items: seq<Item>, k: nat)
    requires k + 1 < |items|
    requires (items[0].product, w) in s
    ensures var k0 := (items[0].product, w);
            FitsAtTurn(s, w, items, k + 1) <==>
            FitsAtTurn(s[k0 := s[k0] - items[0].count], w, items[1..], k)
  {
    var p := items[k + 1].product;
    assert items[..k + 1] == [items[0]] + items[1..][..k];
    DemandConcat([items[0]], items[1..][..k], p);
    assert Demand([items[0]], p) == (if items[0].product == p then items[0].count else 0);
  }

  // ---------------------------------------------------------------- Debit

  /** reserveStock succeeds exactly when every line fits at its turn; when it fails,
      it names the product of the first line that does not. */
  lemma {:induction false} DebitOutcome(s: Stock, w: int, items: seq<Item>, orderId: int, kind: MovementType)
    ensures Debit(s, w, items, orderId, kind).Ok? <==>
            forall k :: 0 <= k < |items| ==> FitsAtTurn(s, w, items, k)
    ensures Debit(s, w, items, orderId, kind).Err? ==>
            exists j :: 0 <= j < |items| && !FitsAtTurn(s, w, items, j) &&
              (forall k :: 0 <= k < j ==> FitsAtTurn(s, w, items, k)) &&
              Debit(s, w, items, orderId, kind).error == InsufficientStock(items[j].product)
    decreases |items|
  {
    if items != [] {
      var it := items[0];
      var k0 := (it.product, w);
      assert items[..0] == [];
      if k0 !in s || s[k0] < it.count {
        assert !FitsAtTurn(s, w, items, 0);
      } else {
        var s1 := s[k0 := s[k0] - it.count];
        var rest := items[1..];
        DebitOutcome(s1, w, rest, orderId, kind);
        forall k | 0 <= k < |rest|
          ensures FitsAtTurn(s, w, items, k + 1) <==> FitsAtTurn(s1, w, rest, k)
        {
          FitsShift(s, w, items, k);
        }
        assert FitsAtTurn(s, w, items, 0);
        if Debit(s1, w, rest, orderId, kind).Ok? {
          forall k | 0 <= k < |items| ensures FitsAtTurn(s, w, items, k) {
            if k > 0 {
              assert FitsAtTurn(s1, w, rest, k - 1);
            }
          }
        } else {
          var j :| 0 <= j < |rest| && !FitsAtTurn(s1, w, rest, j) &&
            (forall k :: 0 <= k < j ==> FitsAtTurn(s1, w, rest, k)) &&
            Debit(s1, w, rest, orderId, kind).error == InsufficientStock(rest[j].product);
          assert !FitsAtTurn(s, w, items, j + 1);
          forall k | 0 <= k < j + 1 ensures FitsAtTurn(s, w, items, k) {
            if k > 0 {
              assert FitsAtTurn(s1, w, rest, k - 1);
            }
          }
        }
      }
    }
  }

  /** A successful reserveStock creates no row and lowers each row of the warehouse
      by the total count its product was ordered; every other row is unchanged. */
  lemma {:induction false} DebitStock(s: Stock, w: int, items: seq<Item>, orderId: int, kind: MovementType)
    requires Debit(s, w, items, orderId, kind).Ok?
    ensures var after := Debit(s, w, items, orderId, kind).value.stock;
            after.Keys == s.Keys &&
            forall k :: k in s ==>
              after[k] == s[k] - (if k.1 == w then Demand(items, k.0) else 0)
    decreases |items|
  {
    if items != [] {
      var it := items[0];
      var k0 := (it.product, w);
      DebitStock(s[k0 := s[k0] - it.count], w, items[1..], orderId, kind);
    }
  }

  /** A successful reserveStock appends one movement per line, in line order, each
      with quantity_change -count and quantity_after the row's value right after
      that line was taken. */
  lemma {:induction false} DebitLog(s: Stock, w: int, items: seq<Item>, orderId: int, kind: MovementType)
    requires Debit(s, w, items, orderId, kind).Ok?
    ensures var log := Debit(s, w, items, orderId, kind).value.written;
            |log| == |items| &&
            forall k :: 0 <= k < |items| ==>
              (items[k].product, w) in s &&
              log[k] == Movement(items[k].product, w, -items[k].count,
                                 s[(items[k].product, w)] - Demand(items[..k + 1], items[k].product),
                                 orderId, kind)
    decreases |items|
  {
    if items != [] {
      var it := items[0];
      var k0 := (it.product, w);
      var s1 := s[k0 := s[k0] - it.count];
      var rest := items[1..];
      DebitLog(s1, w, rest, orderId, kind);
      var log := Debit(s, w, items, orderId, kind).value.written;
      var restLog := Debit(s1, w, rest, orderId, kind).value.written;
      assert log == [Movement(it.product, w, -it.count, s[k0] - it.count, orderId, kind)] + restLog;
      forall k | 0 <= k < |items|
        ensures (items[k].product, w) in s
        ensures log[k] == Movement(items[k].product, w, -items[k].count,
                                   s[(items[k].product, w)] - Demand(items[..k + 1], items[k].product),
                                   orderId, kind)
      {
        var p := items[k].product;
        if k == 0 {
          assert items[..1] == [it];
          assert Demand(items[..1], p) == it.count + Demand([], p);
        } else {
          assert log[k] == restLog[k - 1];
          assert rest[k - 1] == items[k];
          assert items[..k + 1] == [it] + rest[..k];
          DemandConcat([it], rest[..k], p);
          assert Demand([it], p) == (if it.product == p then it.count else 0) + Demand([], p);
        }
      }
    }
  }

  /** reserveStock never drives a row below zero: every quantity_after it writes is
      non-negative. */
  lemma DebitAftersNonNegative(s: Stock, w: int, items: seq<Item>, orderId: int, kind: MovementType)
    requires Debit(s, w, items, orderId, kind).Ok?
    ensures forall m :: m in Debit(s, w, items, orderId, kind).value.written ==> m.quantityAfter >= 0
  {
    DebitOutcome(s, w, items, orderId, kind);
    DebitLog(s, w, items, orderId, kind);
    var log := Debit(s, w, items, orderId, kind).value.written;
    forall m | m in log ensures m.quantityAfter >= 0 {
      var k :| 0 <= k < |log| && log[k] == m;
      assert FitsAtTurn(s, w, items, k);
      var p := items[k].product;
      assert items[..k + 1] == items[..k] + [items[k]];
      DemandConcat(items[..k], [items[k]], p);
      assert Demand([items[k]], p) == items[k].count + Demand([], p);
    }
  }

  /** A successful reserveStock keeps a non-negative table non-negative. */
  lemma {:induction false} DebitNonNegative(s: Stock, w: int, items: seq<Item>, orderId: int, kind: MovementType)
    requires Debit(s, w, items, orderId, kind).Ok?
    requires NonNegative(s)
    ensures NonNegative(Debit(s, w, items, orderId, kind).value.stock)
    decreases |items|
  {
    if items != [] {
      var it := items[0];
      var k0 := (it.product, w);
      DebitNonNegative(s[k0 := s[k0] - it.count], w, items[1..], orderId, kind);
    }
  }

  /** Every movement reserveStock writes records the value its row then holds, and
      replaying them over the old table gives the new one. */
  lemma {:induction false} DebitReplays(s: Stock, w: int, items: seq<Item>, orderId: int, kind: MovementType)
    requires Debit(s, w, items, orderId, kind).Ok?
    ensures var p := Debit(s, w, items, orderId, kind).value;
            Replay(s, p.written) == p.stock && Faithful(s, p.written)
    decreases |items|
  {
    if items != [] {
      var it := items[0];
      var k0 := (it.product, w);
      var s1 := s[k0 := s[k0] - it.count];
      DebitReplays(s1, w, items[1..], orderId, kind);
      var m := Movement(it.product, w, -it.count, s[k0] - it.count, orderId, kind);
      var restLog := Debit(s1, w, items[1..], orderId, kind).value.written;
      assert ([m] + restLog)[0] == m && ([m] + restLog)[1..] == restLog;
      assert Apply(s, m) == s1;
    }
  }

  // ---------------------------------------------------------------- the pre-check

  /** Without repeated products, a passing pre-check guarantees that reserveStock
      succeeds on the same table. */
  lemma PrecheckSufficient(s: Stock, w: int, items: seq<Item>, orderId: int, kind: MovementType)
    requires Available(s, w, items)
    requires NoDuplicateProducts(items)
    ensures Debit(s, w, items, orderId, kind).Ok?
  {
    forall k | 0 <= k < |items| ensures FitsAtTurn(s, w, items, k) {
      DemandAbsent(items[..k], items[k].product);
    }
    DebitOutcome(s, w, items, orderId, kind);
  }

  /** With non-negative counts, the pre-check is necessary: a call reserveStock
      accepts also passes it. */
  lemma PrecheckNecessary(s: Stock, w: int, items: seq<Item>, orderId: int, kind: MovementType)
    requires Debit(s, w, items, orderId, kind).Ok?
    requires NonNegativeCounts(items)
    ensures Available(s, w, items)
  {
    DebitOutcome(s, w, items, orderId, kind);
    forall i | 0 <= i < |items|
      ensures (items[i].product, w) in s && s[(items[i].product, w)] >= items[i].count
    {
      assert FitsAtTurn(s, w, items, i);
      assert NonNegativeCounts(items[..i]);
      DemandNonNegative(items[..i], items[i].product);
    }
  }

  /** The pre-check judges each line on its own: with a product repeated it can pass
      while reserveStock fails. */
  lemma PrecheckMissesDuplicates()
    ensures var s := map[(1, 1) := 1];
            var items := [Item(1, 1), Item(1, 1)];
            Available(s, 1, items) && Debit(s, 1, items, 7, OrderCreated) == Err(InsufficientStock(1))
  {
    var s := map[(1, 1) := 1];
    var items := [Item(1, 1), Item(1, 1)];
    assert items[1..] == [Item(1, 1)];
    assert s[(1, 1) := 0][(1, 1)] == 0;
  }

  // ---------------------------------------------------------------- Credit

  /** The rows a list of lines names in a warehouse. */
  function ItemRows(w: int, items: seq<Item>): set<Key> {
    set i | 0 <= i < |items| :: (items[i].product, w)
  }

  lemma ItemRowsCons(w: int, items: seq<Item>)
    requires items != []
    ensures ItemRows(w, items) == {(items[0].product, w)} + ItemRows(w, items[1..])
  {
    var rest := items[1..];
    forall k | k in ItemRows(w, items) ensures k in {(items[0].product, w)} + ItemRows(w, rest) {
      var i :| 0 <= i < |items| && k == (items[i].product, w);
      if i > 0 { assert rest[i - 1] == items[i]; }
    }
    forall k | k in ItemRows(w, rest) ensures k in ItemRows(w, items) {
      var i :| 0 <= i < |rest| && k == (rest[i].product, w);
      assert items[i + 1] == rest[i];
    }
  }

  /** returnStock adds exactly the missing rows its lines name. */
  lemma {:induction false} CreditKeys(s: Stock, w: int, items: seq<Item>, orderId: int, kind: MovementType)
    ensures Credit(s, w, items, orderId, kind).stock.Keys == s.Keys + ItemRows(w, items)
    decreases |items|
  {
    if items != [] {
      var it := items[0];
      var k0 := (it.product, w);
      CreditKeys(s[k0 := Get(s, k0) + it.count], w, items[1..], orderId, kind);
      ItemRowsCons(w, items);
    }
  }

  /** returnStock raises each row of the warehouse by the total count of its product. */
  lemma {:induction false} CreditValues(s: Stock, w: int, items: seq<Item>, orderId: int, kind: MovementType)
    ensures var after := Credit(s, w, items, orderId, kind).stock;
            forall k :: k in after ==>
              after[k] == Get(s, k) + (if k.1 == w then Demand(items, k.0) else 0)
    decreases |items|
  {
    if items != [] {
      var it := items[0];
      var k0 := (it.product, w);
      var s1 := s[k0 := Get(s, k0) + it.count];
      CreditValues(s1, w, items[1..], orderId, kind);
      var after := Credit(s, w, items, orderId, kind).stock;
      forall k | k in after
        ensures after[k] == Get(s, k) + (if k.1 == w then Demand(items, k.0) else 0)
      {
        assert Get(s1, k) == Get(s, k) + (if k == k0 then it.count else 0);
      }
    }
  }

  /** returnStock creates the missing rows of its lines' products and raises each row
      of the warehouse by the total count its product was returned. */
  lemma CreditStock(s: Stock, w: int, items: seq<Item>, orderId: int, kind: MovementType)
    ensures var after := Credit(s, w, items, orderId, kind).stock;
            after.Keys == s.Keys + ItemRows(w, items) &&
            forall k :: k in after ==>
              after[k] == Get(s, k) + (if k.1 == w then Demand(items, k.0) else 0)
  {
    CreditKeys(s, w, items, orderId, kind);
    CreditValues(s, w, items, orderId, kind);
  }

  /** returnStock appends one movement per line, in line order, with quantity_change
      +count and quantity_after the row's value right after that line came back. */
  lemma {:induction false} CreditLog(s: Stock, w: int, items: seq<Item>, orderId: int, kind: MovementType)
    ensures var log := Credit(s, w, items, orderId, kind).written;
            |log| == |items| &&
            forall k :: 0 <= k < |items| ==>
              log[k] == Movement(items[k].product, w, items[k].count,
                                 Get(s, (items[k].product, w)) + Demand(items[..k + 1], items[k].product),
                                 orderId, kind)
    decreases |items|
  {
    if items != [] {
      var it := items[0];
      var k0 := (it.product, w);
      var s1 := s[k0 := Get(s, k0) + it.count];
      var rest := items[1..];
      CreditLog(s1, w, rest, orderId, kind);
      var log := Credit(s, w, items, orderId, kind).written;
      var restLog := Credit(s1, w, rest, orderId, kind).written;
      forall k | 0 <= k < |items|
        ensures log[k] == Movement(items[k].product, w, items[k].count,
                                   Get(s, (items[k].product, w)) + Demand(items[..k + 1], items[k].product),
                                   orderId, kind)
      {
        var p := items[k].product;
        if k == 0 {
          assert items[..1] == [it];
          assert Demand(items[..1], p) == it.count + Demand([], p);
        } else {
          assert log[k] == restLog[k - 1];
          assert rest[k - 1] == items[k];
          assert items[..k + 1] == [it] + rest[..k];
          DemandConcat([it], rest[..k], p);
          assert Demand([it], p) == (if it.product == p then it.count else 0) + Demand([], p);
        }
      }
    }
  }

  /** Returning non-negative counts keeps a non-negative table non-negative. */
  lemma CreditNonNegative(s: Stock, w: int, items: seq<Item>, orderId: int, kind: MovementType)
    requires NonNegative(s)
    requires NonNegativeCounts(items)
    ensures NonNegative(Credit(s, w, items, orderId, kind).stock)
  {
    CreditStock(s, w, items, orderId, kind);
    var after := Credit(s, w, items, orderId, kind).stock;
    forall k | k in after ensures after[k] >= 0 {
      DemandNonNegative(items, k.0);
    }
  }

  /** After returnStock every line's product has a row and no row has gone. */
  lemma CreditRows(s: Stock, w: int, items: seq<Item>, orderId: int, kind: MovementType)
    ensures var after := Credit(s, w, items, orderId, kind).stock;
            s.Keys <= after.Keys && RowsExist(after, w, items)
  {
    CreditStock(s, w, items, orderId, kind);
    var after := Credit(s, w, items, orderId, kind).stock;
    forall j | 0 <= j < |items| ensures (items[j].product, w) in after {
      assert (items[j].product, w) in ItemRows(w, items);
    }
  }

  /** Every movement returnStock writes records the value its row then holds, and
      replaying them over the old table gives the new one. */
  lemma {:induction false} CreditReplays(s: Stock, w: int, items: seq<Item>, orderId: int, kind: MovementType)
    ensures var p := Credit(s, w, items, orderId, kind);
            Replay(s, p.written) == p.stock && Faithful(s, p.written)
    decreases |items|
  {
    if items != [] {
      var it := items[0];
      var k0 := (it.product, w);
      var s1 := s[k0 := Get(s, k0) + it.count];
      CreditReplays(s1, w, items[1..], orderId, kind);
      var m := Movement(it.product, w, it.count, Get(s, k0) + it.count, orderId, kind);
      var restLog := Credit(s1, w, items[1..], orderId, kind).written;
      assert ([m] + restLog)[0] == m && ([m] + restLog)[1..] == restLog;
      assert Apply(s, m) == s1;
    }
  }

  /** What one returnStock call does to a ledger whose table is the replay of its
      log: the log stays faithful and replays to the new table, no row goes, every
      line's row exists and non-negative counts keep the table non-negative. */
  lemma CreditLedger(base: Stock, log: seq<Movement>, s: Stock, w: int, items: seq<Item>, orderId: int, kind: MovementType)
    requires s == Replay(base, log) && Faithful(base, log)
    ensures var p := Credit(s, w, items, orderId, kind);
            p.stock == Replay(base, log + p.written) && Faithful(base, log + p.written) &&
            s.Keys <= p.stock.Keys && RowsExist(p.stock, w, items) &&
            (NonNegative(s) && NonNegativeCounts(items) ==> NonNegative(p.stock))
  {
    CreditReplays(s, w, items, orderId, kind);
    ReplayConcat(base, log, Credit(s, w, items, orderId, kind).written);
    CreditRows(s, w, items, orderId, kind);
    if NonNegative(s) && NonNegativeCounts(items) {
      CreditNonNegative(s, w, items, orderId, kind);
    }
  }

  /** returnStock from line i on: credit line i, then the lines after it. */
  lemma CreditFrom(s: Stock, w: int, items: seq<Item>, i: nat, orderId: int, kind: MovementType)
    requires i < |items|
    ensures var it := items[i];
            var after := Get(s, (it.product, w)) + it.count;
            var rest := Credit(s[(it.product, w) := after], w, items[i + 1..], orderId, kind);
            Credit(s, w, items[i..], orderId, kind) ==
              Posting(rest.stock, [Movement(it.product, w, it.count, after, orderId, kind)] + rest.written)
  {
    assert items[i..][0] == items[i] && items[i..][1..] == items[i + 1..];
  }

  // ---------------------------------------------------------------- round trips

  /** Returning lines that were just reserved gives back exactly the old table. */
  lemma DebitThenCredit(s: Stock, w: int, items: seq<Item>, orderId: int, k1: MovementType, k2: MovementType)
    requires Debit(s, w, items, orderId, k1).Ok?
    ensures Credit(Debit(s, w, items, orderId, k1).value.stock, w, items, orderId, k2).stock == s
  {
    var mid := Debit(s, w, items, orderId, k1).value.stock;
    DebitStock(s, w, items, orderId, k1);
    CreditStock(mid, w, items, orderId, k2);
    DebitOutcome(s, w, items, orderId, k1);
    forall i | 0 <= i < |items| ensures (items[i].product, w) in s {
      assert FitsAtTurn(s, w, items, i);
    }
    var after := Credit(mid, w, items, orderId, k2).stock;
    assert after.Keys == s.Keys;
  }

  /** Reserving lines that were just returned always succeeds (the pre-check passes
      too) and gives back the old quantities, with the rows the return created left
      at 0. */
  lemma CreditThenDebit(s: Stock, w: int, items: seq<Item>, orderId: int, k1: MovementType, k2: MovementType)
    requires NonNegative(s)
    requires NonNegativeCounts(items)
    ensures var mid := Credit(s, w, items, orderId, k1).stock;
            Available(mid, w, items) &&
            Debit(mid, w, items, orderId, k2).Ok? &&
            var after := Debit(mid, w, items, orderId, k2).value.stock;
            after.Keys == s.Keys + ItemRows(w, items) &&
            forall k :: k in after ==> after[k] == Get(s, k)
  {
    var mid := Credit(s, w, items, orderId, k1).stock;
    CreditStock(s, w, items, orderId, k1);
    forall k | 0 <= k < |items| ensures FitsAtTurn(mid, w, items, k) {
      var p := items[k].product;
      assert (p, w) in mid;
      assert items == items[..k] + items[k..];
      DemandConcat(items[..k], items[k..], p);
      assert NonNegativeCounts(items[k..]);
      DemandCoversLine(items[k..], 0);
    }
    DebitOutcome(mid, w, items, orderId, k2);
    PrecheckNecessary(mid, w, items, orderId, k2);
    DebitStock(mid, w, items, orderId, k2);
  }
}
