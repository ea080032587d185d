/** The records shared by the stock ledger and the order lifecycle: order lines,
    stock rows, movement entries and the two kinds of failure the services raise. */
module Records {

  /** The composite primary key of a stock row: (product_id, warehouse_id). */
  type Key = (int, int)

  /** The stock table: one signed integer quantity per stock row that exists. */
  type Stock = map<Key, int>

  /** One order line as the services pass it around: a product and a count. */
  datatype Item = Item(product: int, count: int)

  /** The movement_type column, restricted to the four values the services write. */
  datatype MovementType = OrderCreated | OrderUpdated | OrderCanceled | OrderResumed

  /** One row of the append-only movement log. */
  datatype Movement = Movement(
    product: int,
    warehouse: int,
    quantityChange: int,
    quantityAfter: int,
    orderId: int,
    movementType: MovementType)
  {
    /** The stock row this movement changed. */
    function Row(): Key {
      (product, warehouse)
    }
  }

  /** Why an OrderException was raised; each constructor stands for one message. */
  datatype Refusal =
    | StockUnavailableForCreate
    | OnlyActiveCanBeUpdated
    | OnlyActiveCanBeCompleted
    | OnlyActiveCanBeCanceled
    | OnlyCanceledCanBeResumed
    | StockUnavailableForResume

  /** InsufficientStockException names the product it ran short of; OrderException
      carries its reason; OrderNotFound is the failure of findOrFail. */
  datatype Error =
    | InsufficientStock(product: int)
    | OrderException(reason: Refusal)
    | OrderNotFound(orderId: int)

  datatype Result<T> = Ok(value: T) | Err(error: Error)

  datatype Option<T> = None | Some(value: T)

  /** The input rules the order controller enforces before it calls the services:
      at least one line, and every count at least 1. */
  predicate ValidItems(items: seq<Item>) {
    |items| >= 1 && forall i :: 0 <= i < |items| ==> items[i].count >= 1
  }
}
