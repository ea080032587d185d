/** The movement log read as a history: replaying it over the stock it started from
    gives the current stock, and every entry's quantity_after is the value its row
    held right after that entry was written. */
module MovementLog {
  import opened Records

  /** An entry of an integer table read with a missing key as 0 (PHP's `?? 0`): the
      quantity of a stock row, or an entry of the $deltas array. */
  function Get<K>(s: map<K, int>, k: K): int {
    if k in s then s[k] else 0
  }

  /** The stock after one movement: its row, created at 0 if missing, changes by
      quantity_change. */
  function Apply(s: Stock, m: Movement): Stock {
    s[m.Row() := Get(s, m.Row()) + m.quantityChange]
  }

  /** The stock after replaying a log in order. */
  function Replay(s: Stock, log: seq<Movement>): Stock
    decreases |log|
  {
    if log == [] then s else Replay(Apply(s, log[0]), log[1..])
  }

  /** The rows a log touches. */
  function Rows(log: seq<Movement>): set<Key>
    decreases |log|
  {
    if log == [] then {} else {log[0].Row()} + Rows(log[1..])
  }

  /** The sum of the quantity_change values a log records for one row. */
  function Changes(log: seq<Movement>, k: Key): int
    decreases |log|
  {
    if log == [] then 0
    else (if log[0].Row() == k then log[0].quantityChange else 0) + Changes(log[1..], k)
  }

  /** The ledger balances: after a replay, a row exists exactly when it existed
      before or some entry touches it, and its quantity is its starting quantity
      plus the sum of its entries' quantity_change values. */
  lemma {:induction false} ReplaySums(s: Stock, log: seq<Movement>, k: Key)
    ensures k in Replay(s, log) <==> k in s || k in Rows(log)
    ensures Get(Replay(s, log), k) == Get(s, k) + Changes(log, k)
    decreases |log|
  {
    if log != [] {
      ReplaySums(Apply(s, log[0]), log[1..], k);
    }
  }

  /** Every entry of the log records, as quantity_after, the value its row holds
      once that entry is applied. */
  predicate Faithful(s: Stock, log: seq<Movement>)
    decreases |log|
  {
    log == [] ||
    (log[0].quantityAfter == Get(s, log[0].Row()) + log[0].quantityChange &&
     Faithful(Apply(s, log[0]), log[1..]))
  }

  /** Replaying two logs one after the other is replaying their concatenation, and
      the concatenation is faithful exactly when both parts are. */
  lemma {:induction false} ReplayConcat(s: Stock, a: seq<Movement>, b: seq<Movement>)
    ensures Replay(s, a + b) == Replay(Replay(s, a), b)
    ensures Faithful(s, a + b) <==> Faithful(s, a) && Faithful(Replay(s, a), b)
    decreases |a|
  {
    if a == [] {
      assert a + b == b;
    } else {
      assert (a + b)[0] == a[0];
      assert (a + b)[1..] == a[1..] + b;
      ReplayConcat(Apply(s, a[0]), a[1..], b);
    }
  }

  /** A row that no entry of the log touches keeps its presence and its value. */
  lemma {:induction false} ReplayUntouched(s: Stock, log: seq<Movement>, k: Key)
    requires forall j :: 0 <= j < |log| ==> log[j].Row() != k
    ensures k in Replay(s, log) <==> k in s
    ensures k in s ==> Replay(s, log)[k] == s[k]
    decreases |log|
  {
    if log != [] {
      ReplayUntouched(Apply(s, log[0]), log[1..], k);
    }
  }

  /** The last entry of a faithful log for a row states that row's current quantity
      (the ledger replay property). */
  lemma {:induction false} LastMovementMatchesStock(s: Stock, log: seq<Movement>, i: nat)
    requires Faithful(s, log)
    requires i < |log|
    requires forall j :: i < j < |log| ==> log[j].Row() != log[i].Row()
    ensures log[i].Row() in Replay(s, log)
    ensures Replay(s, log)[log[i].Row()] == log[i].quantityAfter
    decreases |log|
  {
    if i == 0 {
      var rest := log[1..];
      forall j | 0 <= j < |rest| ensures rest[j].Row() != log[0].Row() {
        assert rest[j] == log[j + 1];
      }
      ReplayUntouched(Apply(s, log[0]), rest, log[0].Row());
    } else {
      var rest := log[1..];
      assert rest[i - 1] == log[i];
      forall j | i - 1 < j < |rest| ensures rest[j].Row() != rest[i - 1].Row() {
        assert rest[j] == log[j + 1];
      }
      LastMovementMatchesStock(Apply(s, log[0]), rest, i - 1);
    }
  }
}
