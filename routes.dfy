/** The FastAPI order routes over the in-process `orders_db` dictionary:
    order status lookup, create-if-absent, and an unconditional cancel. */
module Routes {

  /** A stored order: the dict `{"customer_name", "item", "status"}`. */
  datatype Record = Record(customerName: string, item: string, status: string)

  /** The request body of `POST /create-order/`. */
  datatype Order = Order(orderId: string, customerName: string, item: string)

  /** The JSON objects the routes answer with. */
  datatype Reply =
    | OrderStatus(orderId: string, status: string)
    | Created(message: string, orderId: string)
    | Cancelled(message: string)
    | Error(error: string)

  const OrderNotFound := "Order not found"
  const DuplicateId := "Order ID already exists"
  const CreatedMessage := "Order created successfully"
  const Pending := "Pending"
  const CancelledStatus := "Cancelled"

  function CancelledMessage(orderId: string): string {
    "Order " + orderId + " cancelled successfully"
  }

  /** The table after `create_order`: a new key gets a pending record, and no
      existing record is touched, not even on a duplicate id. */
  function Create(db: map<string, Record>, order: Order): (d: map<string, Record>)
    ensures d.Keys == db.Keys + {order.orderId}
    ensures forall k :: k in db ==> d[k] == db[k]
    ensures order.orderId !in db ==> d[order.orderId] == Record(order.customerName, order.item, Pending)
  {
    if order.orderId in db then db
    else db[order.orderId := Record(order.customerName, order.item, Pending)]
  }

  /** The table after `cancel_order`: the same keys, and only the given record's
      status changes, to "Cancelled", whatever it was before. */
  function Cancel(db: map<string, Record>, orderId: string): (d: map<string, Record>)
    ensures d.Keys == db.Keys
    ensures forall k :: k in db && k != orderId ==> d[k] == db[k]
    ensures orderId in db ==> d[orderId] == db[orderId].(status := CancelledStatus)
  {
    if orderId in db then db[orderId := db[orderId].(status := CancelledStatus)] else db
  }

  /** Cancelling twice leaves the table as cancelling once. */
  lemma CancelIdempotent(db: map<string, Record>, orderId: string)
    ensures Cancel(Cancel(db, orderId), orderId) == Cancel(db, orderId)
  {
    var once := Cancel(db, orderId);
    if orderId in db {
      assert once[orderId].(status := CancelledStatus) == once[orderId];
      assert once[orderId := once[orderId]] == once;
    }
  }

  /** A freshly created order reports status "Pending". */
  lemma CreatedIsPending(db: map<string, Record>, order: Order)
    requires order.orderId !in db
    ensures var d := Create(db, order);
            order.orderId in d && d[order.orderId].status == Pending
  {
  }

  class OrdersDb {
    /** `orders_db`: order id to record. */
    var orders: map<string, Record>

    constructor (initial: map<string, Record>)
      ensures orders == initial
    {
      orders := initial;
    }

    /** `GET /order-status/{order_id}`. */
    method GetOrderStatus(orderId: string) returns (r: Reply)
      ensures r.OrderStatus? <==> orderId in orders
      ensures r.OrderStatus? ==> r == OrderStatus(orderId, orders[orderId].status)
      ensures orderId !in orders ==> r == Error(OrderNotFound)
    {
      if orderId in orders {
        return OrderStatus(orderId, orders[orderId].status);
      }
      return Error(OrderNotFound);
    }

    /** `POST /create-order/`. */
    method CreateOrder(order: Order) returns (r: Reply)
      modifies this
      ensures orders == Create(old(orders), order)
      ensures order.orderId in old(orders) ==> r == Error(DuplicateId)
      ensures order.orderId !in old(orders) ==> r == Created(CreatedMessage, order.orderId)
    {
      if order.orderId in orders {
        return Error(DuplicateId);
      }
      orders := orders[order.orderId := Record(order.customerName, order.item, Pending)];
      return Created(CreatedMessage, order.orderId);
    }

    /** `POST /cancel-order/{order_id}`: no "already cancelled" branch. */
    method CancelOrder(orderId: string) returns (r: Reply)
      modifies this
      ensures orders == Cancel(old(orders), orderId)
      ensures orderId in old(orders) ==> r == Cancelled(CancelledMessage(orderId))
      ensures orderId !in old(orders) ==> r == Error(OrderNotFound)
    {
      if orderId in orders {
        orders := orders[orderId := orders[orderId].(status := CancelledStatus)];
        return Cancelled(CancelledMessage(orderId));
      }
      return Error(OrderNotFound);
    }
  }

  /** Cancelling an order twice succeeds both times with the same reply, and
      the table ends as after one cancel. */
  method CancelTwice(db: OrdersDb, orderId: string) returns (first: Reply, second: Reply)
    requires orderId in db.orders
    modifies db
    ensures first == second == Cancelled(CancelledMessage(orderId))
    ensures db.orders == Cancel(old(db.orders), orderId)
  {
    first := db.CancelOrder(orderId);
    second := db.CancelOrder(orderId);
    CancelIdempotent(old(db.orders), orderId);
  }
}
