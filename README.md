# Stock reservation and order lifecycle of micro-crm-laravel

This project models the two service classes at the heart of the CRM:

- `StockService` is a small ledger. It holds a stock table, one signed quantity per (product, warehouse) row, and an append-only log of product movements. Its four operations are:
  - `checkStockAvailability`: an unlocked pre-check.
  - `reserveStock`: debits every line or fails.
  - `returnStock`: credits every line and creates a missing row at 0.
  - `updateReservation`: builds a per-product delta table (old count minus new count). It then validates every negative delta before applying any delta. It applies every non-zero delta once and logs one `order_updated` movement per product.
- `OrderService` is a state machine over order status (`active`, `completed`, `canceled`). Each transition checks the current status, then makes one all-or-nothing change: the order fields, the order lines and a call into the ledger.

`DB::transaction` is modelled as commit on normal return, restore on exception. Each method that can fail keeps a copy of what it changes and puts it back before it returns the error.

## Layout

- `records.dfy` (`Records`): order lines, stock keys, movements, and the errors.
  - `InsufficientStock` carries the product.
  - `OrderException` carries one reason per message the source raises.
  - `OrderNotFound` is the failure of `findOrFail`.
- `movement_log.dfy` (`MovementLog`): replaying a log over a table, and what it means for a log to be faithful. Faithful means every `quantity_after` is what its row held right after that entry.
- `reservation.dfy` (`Reservation`): `Debit` and `Credit` are the functions that `reserveStock` and `returnStock` compute. The lemmas state their outcome, their effect on the table, the movements they write, non-negativity, and the pre-check's relation to the debit. They also state two round trips: debit-then-credit, and credit-then-debit.
- `reconciliation.dfy` (`Reconciliation`): `Reconcile` is what `updateReservation` computes. It is built from three pieces:
  - the delta key order (first insertion, as in a PHP array);
  - the validation pass `Shortage`;
  - the apply pass `ApplyDeltas`.
- `stock_service.dfy` (`StockLedger`): the class `StockService`, with fields `stock` and `movements`. Its methods are loops proved equal to the functions above. The invariant `Valid()` says that replaying the whole movement log over the starting table gives the current table and that the log is faithful.
- `order_service.dfy` (`OrderLifecycle`): the class `OrderService`, with the fields `orders`, `lines` (the order_items rows of each order) and `nextId`. It uses the ledger through `stockService`.

Four points of the code that a reader might expect to work otherwise; the model follows the code:
- **Delta sign.** The delta of `updateReservation` is old count minus new count, not new minus old, so it is directly the change to the stock (app/Services/StockService.php:139-146).
- **Create with too little stock.** `createOrder` does not fail with `InsufficientStock` here: its pre-check raises `OrderException` first (app/Services/OrderService.php:36-38). `OrderLifecycle.CreateAgainstShortRow` shows both outcomes on one input.
- **Zero deltas.** A zero delta is not dropped from the delta table. The code keeps the entry and skips it when applying (app/Services/StockService.php:165). Either way nothing is written for it.
- **Delta order.** The key order of the delta table is not irrelevant: it decides which product a failed update reports. The model keeps first-insertion order.

Two things proved about the code as written:
- **The pre-check can pass for lines that cannot be reserved.** `checkStockAvailability` checks each line on its own against the unmodified table. With a product repeated across lines it can accept a request that `reserveStock` then rejects with `InsufficientStock`. `Reservation.PrecheckMissesDuplicates` is such an input. `Reservation.PrecheckSufficient` shows that without repeated products the pre-check is enough.
- **The second guard in the apply pass cannot fire.** The guard at app/Services/StockService.php:172-174 is dead code: the validation pass has already rejected every case it catches. `StockLedger.StockService.ApplyAll` proves it with `assert false` in that branch.

## Model

| member | source | states |
|---|---|---|
| StockLedger.StockService.CheckStockAvailability | app/Services/StockService.php:21-34 | returns true exactly when every line has a row in the warehouse holding at least its count; changes nothing |
| StockLedger.StockService.ReserveStock | app/Services/StockService.php:46-75 | the new table and log are those of `Debit` on the old table; on failure it returns that error with table and log unchanged; the replay invariant is kept, no row is added or removed, and a non-negative table stays non-negative |
| StockLedger.StockService.ReturnStock | app/Services/StockService.php:86-120 | always succeeds with the table and log of `Credit`; keeps the replay invariant; keeps a non-negative table non-negative when the counts are non-negative; no row disappears and every line's row exists afterwards |
| StockLedger.StockService.UpdateReservation | app/Services/StockService.php:132-200 | the outcome is that of `Reconcile`: on failure it returns the error with table and log unchanged, otherwise the new table and log; keeps the replay invariant and non-negativity; no row disappears |
| StockLedger.StockService.FindShortage | app/Services/StockService.php:149-161 | the validation pass returns the first product, in delta key order, whose negative delta its row cannot cover, and nothing if there is none |
| StockLedger.StockService.ApplyAll | app/Services/StockService.php:164-198 | after a clean validation pass, the apply pass leaves the table and log of `ApplyDeltas`; the guard at lines 172-174 is unreachable |
| StockLedger.Accumulate | app/Services/StockService.php:139-146 | one `$deltas` loop: each entry reads as its old value plus (or minus) the product's total count in the lines; keys are appended in first-insertion order |
| StockLedger.ComputeDeltas | app/Services/StockService.php:136-146 | the keys are the delta key order, and the table maps each key to old total minus new total |
| MovementLog.ReplaySums | app/Services/StockService.php:104-117 | the ledger balances: after a replay a row exists exactly when it existed or some movement names it, and it holds its starting quantity plus the sum of its movements' quantity_change |
| MovementLog.ReplayConcat | app/Services/StockService.php:48-74 | replaying appended movements continues the replay, and the whole log is faithful exactly when both parts are |
| MovementLog.LastMovementMatchesStock | app/Services/StockService.php:65-72 | in a faithful log, the last movement of a row records the row's current quantity |
| Reservation.Debit | app/Services/StockService.php:49-73 | definition of what `reserveStock` computes: line by line, refuse a missing or short row, otherwise lower it and log the movement; properties in `DebitOutcome`, `DebitStock`, `DebitLog`, `DebitNonNegative`, `DebitReplays` |
| Reservation.Credit | app/Services/StockService.php:89-118 | definition of what `returnStock` computes: line by line, create a missing row at 0, raise it and log the movement; properties in `CreditKeys`, `CreditValues`, `CreditLog`, `CreditNonNegative`, `CreditReplays` |
| Reservation.DebitOutcome | app/Services/StockService.php:49-57 | the debit succeeds exactly when every line fits at its turn; on failure the error names the first line that does not fit |
| Reservation.DebitStock | app/Services/StockService.php:55-62 | a successful debit keeps the same rows and lowers each row of the warehouse by the total count of its product |
| Reservation.DebitLog | app/Services/StockService.php:65-72 | one movement per line, in line order, with change `-count`, the given type and the row's value after that line as quantity_after |
| Reservation.DebitAftersNonNegative | app/Services/StockService.php:55-69 | every quantity_after a successful debit writes is at least 0 |
| Reservation.DebitNonNegative | app/Services/StockService.php:55-61 | a successful debit of a non-negative table leaves it non-negative |
| Reservation.DebitReplays | app/Services/StockService.php:60-72 | replaying the movements of a debit gives its new table, and they are faithful |
| Reservation.PrecheckSufficient | app/Services/StockService.php:21-34 | with no product repeated, a passing pre-check guarantees the debit succeeds |
| Reservation.PrecheckNecessary | app/Services/StockService.php:21-34 | for non-negative counts, if the debit succeeds, the pre-check passes |
| Reservation.PrecheckMissesDuplicates | app/Services/StockService.php:23-31 | a row holding 1 and two lines of 1 each: the pre-check passes and the debit fails with InsufficientStock |
| Reservation.CreditStock | app/Services/StockService.php:95-108 | the return adds every line's missing row and raises each row of the warehouse by the total count of its product |
| Reservation.CreditKeys | app/Services/StockService.php:95-102 | the return adds exactly the missing rows its lines name |
| Reservation.CreditValues | app/Services/StockService.php:104-106 | the return raises each row of the warehouse by the total count of its product, a missing row counting as 0 |
| Reservation.CreditLog | app/Services/StockService.php:110-117 | one movement per line, in line order, with change `+count`, the given type and the row's value after that line |
| Reservation.CreditNonNegative | app/Services/StockService.php:104-106 | non-negative counts on a non-negative table leave it non-negative |
| Reservation.CreditRows | app/Services/StockService.php:95-102 | after the return every line's row exists and no row has gone |
| Reservation.CreditReplays | app/Services/StockService.php:104-117 | replaying the movements of a return gives its new table, and they are faithful |
| Reservation.DebitThenCredit | app/Services/OrderService.php:159-176 | returning lines just reserved gives back exactly the old table |
| Reservation.CreditThenDebit | app/Services/OrderService.php:205-219 | on a non-negative table with non-negative counts, after a return the pre-check passes and the debit of the same lines succeeds; the result has the old quantities and possibly rows created at 0 by the return |
| Reconciliation.DeltaOrder | app/Services/StockService.php:136-146 | definition of the key order of `$deltas`: products of the old lines, then of the new lines, each at its first insertion; properties in `DeltaOrderFacts` |
| Reconciliation.Deltas | app/Services/StockService.php:136-146 | definition of the `$deltas` table: each key maps to old total minus new total; properties in `DeltaOrderFacts` and `StockLedger.ComputeDeltas` |
| Reconciliation.Shortage | app/Services/StockService.php:149-161 | definition of the validation pass: the first key, in order, whose negative delta its row cannot cover; properties in `ShortageFacts` |
| Reconciliation.ApplyDeltas | app/Services/StockService.php:164-198 | definition of the apply pass: skip zero deltas, otherwise change the row (created at 0 if missing) and log one order_updated movement; properties in `ApplyStock`, `ApplyLog`, `ApplyReplays`, `ApplyZero` |
| Reconciliation.Reconcile | app/Services/StockService.php:134-199 | definition of what `updateReservation` computes: validation, then apply only if it found nothing; properties in `ReconcileOutcome`, `ReconcileStock`, `ReconcileLog`, `ReconcileNoop`, `ReconcileReplays` |
| Reconciliation.DeltaOrderFacts | app/Services/StockService.php:136-146 | the delta keys are the products named in either list, each once, and every non-zero delta has a key |
| Reconciliation.NonZero | app/Services/StockService.php:164-165 | the products the apply pass acts on are all delta keys |
| Reconciliation.NonZeroFacts | app/Services/StockService.php:164-165 | the apply pass acts on exactly the keys whose delta is not 0, each once |
| Reconciliation.ShortageFacts | app/Services/StockService.php:149-161 | the validation pass finds nothing exactly when no key is short; what it finds is the first short key |
| Reconciliation.ApplyStock | app/Services/StockService.php:164-186 | the apply pass raises each row with a non-zero delta by the delta, creating it at 0 if missing, and leaves every other row alone |
| Reconciliation.ApplyLog | app/Services/StockService.php:188-196 | one order_updated movement per non-zero delta, in key order, with the delta as change and the new value as quantity_after |
| Reconciliation.ApplyReplays | app/Services/StockService.php:186-196 | replaying the apply pass's movements gives its new table, and they are faithful |
| Reconciliation.ApplyZero | app/Services/StockService.php:165 | zero deltas change nothing and write nothing |
| Reconciliation.ReconcileOutcome | app/Services/StockService.php:149-161 | the update fails exactly when some product's negative delta is not covered, and it reports the first such product in key order |
| Reconciliation.ReconcileStock | app/Services/StockService.php:164-187 | every product with a non-zero delta changes by exactly old minus new count; every other row keeps its value; no row disappears |
| Reconciliation.ReconcileLog | app/Services/StockService.php:188-197 | one order_updated movement per product whose delta is not 0, and none for the others |
| Reconciliation.ReconcileNoop | app/Services/StockService.php:165 | updating lines to the same lines changes nothing and writes no movement |
| Reconciliation.ReconcileNonNegative | app/Services/StockService.php:149-187 | a successful update of a non-negative table leaves it non-negative |
| Reconciliation.ReconcileReplays | app/Services/StockService.php:186-196 | replaying the update's movements gives its new table, and they are faithful |
| Reconciliation.ReconcileRows | app/Services/StockService.php:176-187 | if the old lines' rows existed and every new count is at least 1, the new lines' rows exist after a successful update |
| OrderLifecycle.OrderService.ReplaceLines | app/Services/OrderService.php:108-116 | the order's item rows become exactly the given lines; nothing else changes |
| OrderLifecycle.OrderService.CreateOrder | app/Services/OrderService.php:33-67 | a failed pre-check refuses with OrderException before any write; otherwise, on a successful debit (type order_created), it adds an active order with a fresh id and exactly the given lines; a failed debit undoes order, lines and stock |
| OrderLifecycle.OrderService.UpdateOrder | app/Services/OrderService.php:78-120 | a missing order or one that is not active is refused with nothing changed. Otherwise, on a successful reconcile, the customer becomes the given one or keeps its old value and the lines are replaced wholesale. A failed reconcile leaves customer, lines and stock as they were |
| OrderLifecycle.OrderService.CompleteOrder | app/Services/OrderService.php:129-142 | only an active order is accepted; it becomes completed at the given time and stock and movements are not touched |
| OrderLifecycle.OrderService.CancelOrder | app/Services/OrderService.php:151-180 | only an active order is accepted; it becomes canceled, every line is credited back as order_canceled, and the lines stay |
| OrderLifecycle.OrderService.ResumeOrder | app/Services/OrderService.php:189-223 | only a canceled order whose lines pass the pre-check is accepted (OrderException otherwise); it becomes active and its lines are debited as order_resumed; a failed debit undoes status and stock |
| OrderLifecycle.CancelThenResume | app/Services/OrderService.php:159-219 | on a non-negative table, for an order's valid lines whose rows exist, a cancel followed by a resume passes the pre-check, succeeds and leaves every stock quantity as before the cancel |
| OrderLifecycle.CreateForThree | app/Services/StockService.php:46-75 | 10 in stock, an order for 3: 7 left and one movement `-3, after 7, order_created` |
| OrderLifecycle.ThreeToFiveOrder | app/Services/StockService.php:136-146 | lines of 3 changed to lines of 5 of the same product give one delta key, that product |
| OrderLifecycle.ThreeToFiveDeltas | app/Services/StockService.php:136-146 | the same change gives the delta table with the one entry 3 - 5 = -2 |
| OrderLifecycle.UpdateThreeToFive | app/Services/StockService.php:132-200 | the same order changed from 3 to 5: 5 left and one movement `-2, after 5, order_updated` |
| OrderLifecycle.CancelFive | app/Services/StockService.php:86-120 | canceling the 5: 10 again and one movement `+5, after 10, order_canceled` |
| OrderLifecycle.ResumeFive | app/Services/StockService.php:46-75 | resuming the 5: 5 left and one movement `-5, after 5, order_resumed` |
| OrderLifecycle.CreateAgainstShortRow | app/Services/OrderService.php:36-38 | 2 in stock, an order for 5: the pre-check fails, so createOrder raises OrderException although the debit alone would report InsufficientStock |

Completed is terminal. `UpdateOrder`, `CompleteOrder` and `CancelOrder` accept only `active`, and `ResumeOrder` accepts only `canceled`. So every transition refuses a completed order and leaves everything unchanged.

## Left out

- Row locks (`lockForUpdate`), their order and concurrent transactions: the model is sequential, and a transaction is an atomic commit or restore.
- Timestamps: `completed_at` takes the time as a parameter of `CompleteOrder`; `created_at` and the timestamps of stock and movement rows are not modelled.
- Auto-increment: a rolled-back `createOrder` gives back its order id (`nextId` is restored), although the database may not reuse it. Movement and order_item row ids are not modelled.
- Order of order_items: `$order->items` (app/Services/OrderService.php:92, :164, :198; a `hasMany` relation at app/Models/Order.php:53) is read without `orderBy`, so the database promises no row order. The model reads `lines[id]` in insertion order. That order fixes the `$deltas` key order, hence which product a failed `updateOrder` names, and the order of the movements that update, cancel and resume write.
- The `$data` array of `createOrder`/`updateOrder` is reduced to its `customer` and `warehouse_id` entries. A missing or null `customer` in `updateOrder` is `None`.
- The controllers' input rules (at least one line, every count at least 1, app/Http/Controllers/API/OrderController.php:97-99) appear only as the `ValidItems` precondition. The rule that each product exists in the products table is not modelled.
- HTTP controllers, routes, JSON shaping, exception messages and status code 422: each exception is an `Error` constructor, and each message is a `Refusal` value.
- Eloquent models, relation loading and migrations: orders and their lines are fields of `OrderService`.
- Integer width: `stocks.stock`, `quantity_change` and `quantity_after` are `integer` columns (database/migrations/2025_03_11_195157_create_stocks_table.php:17, database/migrations/2025_03_11_195329_create_product_movements_table.php:18-19), so a credit or positive delta that pushes a row past the column's range fails at `save()`. The model uses unbounded integers and does not capture that failure.
- `save()` on a stock row is read as "write this row". `Stock` declares a composite key (app/Models/Stock.php:24), which Eloquent does not support for updates, so the updates of existing rows at app/Services/StockService.php:62, :107 and :187 may not behave as written; the model gives them their evident meaning.
- Database failures other than the two exceptions, product prices and test data seeding.
- The `StockService` constructor here exists only to start the ledger over a given table. The source class has none.
