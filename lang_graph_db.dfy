/** The restaurant REST API's in-memory state: a fixed menu and a mutable
    table of orders, with the menu and order handlers. Prices and totals are
    integer cents. */
module LangGraphDb {
  import opened PyText

  datatype MenuItem = MenuItem(id: string, name: string, description: string, price: int)

  /** One `{menu_item_id, quantity}` line of an order. */
  datatype OrderItem = OrderItem(menuItemId: string, quantity: int)

  datatype Order = Order(id: string, items: seq<OrderItem>, customerName: string, total: int, status: string)

  /** An `HTTPException`: status code and detail text. */
  datatype HttpError = HttpError(statusCode: int, detail: string)

  datatype Result<T> = Ok(value: T) | Err(error: HttpError)

  /** The seeded menu, in the dict's insertion order. */
  const Menu: seq<MenuItem> := [
    MenuItem("1", "Pizza Margherita", "Classic tomato and mozzarella pizza", 1099),
    MenuItem("2", "Burger", "Beef burger with cheese and fries", 1250),
    MenuItem("3", "Caesar Salad", "Fresh salad with chicken and Caesar dressing", 899),
    MenuItem("4", "Pasta Carbonara", "Creamy pasta with bacon", 1150),
    MenuItem("5", "Tiramisu", "Italian coffee-flavored dessert", 699)
  ]

  /** `menu_items`: id to item. */
  const MenuItems: map<string, MenuItem> :=
    map["1" := Menu[0], "2" := Menu[1], "3" := Menu[2], "4" := Menu[3], "5" := Menu[4]]

  const ValidStatuses: seq<string> := ["pending", "preparing", "ready", "delivered", "cancelled"]

  const NotFoundOrder := HttpError(404, "Order not found")

  const InvalidStatusDetail :=
    "Invalid status. Must be one of ['pending', 'preparing', 'ready', 'delivered', 'cancelled']"

  function UnknownItemError(id: string): HttpError {
    HttpError(400, "Menu item with id " + id + " not found")
  }

  /** `GET /menu`: the menu items in insertion order, each stored under its own id. */
  function GetMenu(): (items: seq<MenuItem>)
    ensures |items| == |MenuItems|
    ensures forall i :: 0 <= i < |items| ==> items[i].id in MenuItems && MenuItems[items[i].id] == items[i]
    ensures forall id :: id in MenuItems ==> exists i :: 0 <= i < |items| && items[i].id == id
  {
    assert MenuItems.Keys == {"1", "2", "3", "4", "5"};
    assert Menu[0].id == "1" && Menu[1].id == "2" && Menu[2].id == "3" && Menu[3].id == "4" && Menu[4].id == "5";
    Menu
  }

  /** `GET /menu/{item_id}`: the item stored under that id, or 404. */
  function GetMenuItem(itemId: string): (r: Result<MenuItem>)
    ensures r.Ok? <==> itemId in MenuItems
    ensures r.Ok? ==> r.value == MenuItems[itemId] && r.value.id == itemId
    ensures r.Err? ==> r.error == HttpError(404, "Menu item not found")
  {
    if itemId !in MenuItems then Err(HttpError(404, "Menu item not found"))
    else Ok(MenuItems[itemId])
  }

  // ------------------------------------------------------------ validation and totals

  predicate AllKnown(items: seq<OrderItem>) {
    forall i :: 0 <= i < |items| ==> items[i].menuItemId in MenuItems
  }

  /** The id the validation loop rejects: the first one that is not on the menu. */
  function FirstUnknownItem(items: seq<OrderItem>): (r: Option<string>)
    ensures r.None? <==> AllKnown(items)
    ensures r.Some? ==> exists i :: 0 <= i < |items| && items[i].menuItemId == r.value
                                    && r.value !in MenuItems && AllKnown(items[..i])
  {
    if items == [] then None
    else if items[0].menuItemId !in MenuItems then Some(items[0].menuItemId)
    else
      var r := FirstUnknownItem(items[1..]);
      assert forall i :: 1 <= i < |items| ==> items[i] == items[1..][i - 1];
      if r.Some? then
        var i :| 0 <= i < |items[1..]| && items[1..][i].menuItemId == r.value && AllKnown(items[1..][..i]);
        assert items[..i + 1] == [items[0]] + items[1..][..i];
        r
      else r
  }

  function LineTotal(item: OrderItem): int
    requires item.menuItemId in MenuItems
  {
    MenuItems[item.menuItemId].price * item.quantity
  }

  /** Σ price × quantity over the lines, in cents. */
  function Total(items: seq<OrderItem>): int
    requires AllKnown(items)
  {
    if items == [] then 0 else Total(items[..|items| - 1]) + LineTotal(items[|items| - 1])
  }

  /** The total is additive over concatenation of order lines. */
  lemma {:induction false} TotalAppend(a: seq<OrderItem>, b: seq<OrderItem>)
    requires AllKnown(a) && AllKnown(b)
    ensures AllKnown(a + b) && Total(a + b) == Total(a) + Total(b)
    decreases |b|
  {
    if b == [] {
      assert a + b == a;
    } else {
      var b' := b[..|b| - 1];
      TotalAppend(a, b');
      assert (a + b)[..|a + b| - 1] == a + b';
    }
  }

  /** With no negative quantity the total is never negative. */
  lemma {:induction false} TotalNonNegative(items: seq<OrderItem>)
    requires AllKnown(items)
    requires forall i :: 0 <= i < |items| ==> items[i].quantity >= 0
    ensures Total(items) >= 0
  {
    if items != [] {
      TotalNonNegative(items[..|items| - 1]);
    }
  }

  /** The loop of `create_order`/`update_order` that checks every line's id. */
  method ValidateItems(items: seq<OrderItem>) returns (unknown: Option<string>)
    ensures unknown == FirstUnknownItem(items)
  {
    var i := 0;
    while i < |items|
      invariant 0 <= i <= |items|
      invariant AllKnown(items[..i])
    {
      if items[i].menuItemId !in MenuItems {
        FirstUnknownAt(items, i);
        return Some(items[i].menuItemId);
      }
      assert items[..i + 1] == items[..i] + [items[i]];
      i := i + 1;
    }
    assert items[..i] == items;
    return None;
  }

  lemma {:induction false} FirstUnknownAt(items: seq<OrderItem>, i: nat)
    requires i < |items| && AllKnown(items[..i]) && items[i].menuItemId !in MenuItems
    ensures FirstUnknownItem(items) == Some(items[i].menuItemId)
  {
    if i > 0 {
      assert items[0] == items[..i][0];
      assert items[1..][..i - 1] == items[1..i];
      FirstUnknownAt(items[1..], i - 1);
    }
  }

  /** The loop of `create_order`/`update_order` that adds up price × quantity. */
  method ComputeTotal(items: seq<OrderItem>) returns (total: int)
    requires AllKnown(items)
    ensures total == Total(items)
  {
    total := 0;
    var i := 0;
    while i < |items|
      invariant 0 <= i <= |items|
      invariant total == Total(items[..i])
    {
      var menuItem := MenuItems[items[i].menuItemId];
      total := total + menuItem.price * items[i].quantity;
      assert items[..i + 1][..i] == items[..i];
      i := i + 1;
    }
    assert items[..i] == items;
  }

  /** Order ids in the dict's insertion order, each at most once. */
  predicate Distinct(ids: seq<string>) {
    forall i, j :: 0 <= i < j < |ids| ==> ids[i] != ids[j]
  }

  /** `ids` without `id`, order kept (the key order after `del`). */
  function Without(ids: seq<string>, id: string): (r: seq<string>)
    ensures forall x :: x in r <==> x in ids && x != id
    ensures Distinct(ids) ==> Distinct(r)
  {
    if ids == [] then []
    else if ids[0] == id then Without(ids[1..], id)
    else
      var rest := Without(ids[1..], id);
      assert Distinct(ids) ==> Distinct(ids[1..]) && ids[0] !in ids[1..];
      [ids[0]] + rest
  }

  /** What every stored order satisfies: keyed by its own id, every line on the
      menu, the total up to date, and a status from the five allowed. */
  predicate WellFormed(id: string, o: Order) {
    o.id == id && AllKnown(o.items) && o.total == Total(o.items) && o.status in ValidStatuses
  }

  class RestaurantStore {
    /** `orders`: order id to order. */
    var orders: map<string, Order>
    /** The keys of `orders` in insertion order, which `get_orders` lists by. */
    var orderIds: seq<string>

    ghost predicate Valid()
      reads this
    {
      && Distinct(orderIds)
      && (forall id :: id in orders <==> id in orderIds)
      && (forall id :: id in orders ==> WellFormed(id, orders[id]))
    }

    constructor ()
      ensures Valid() && orders == map[] && orderIds == []
    {
      orders := map[];
      orderIds := [];
    }

    /** `POST /orders`: fail with 400 on the first unknown id, else store a new
        pending order with its total under the fresh id `orderId` (the uuid). */
    method CreateOrder(items: seq<OrderItem>, customerName: string, orderId: string) returns (r: Result<Order>)
      requires Valid()
      modifies this
      ensures Valid()
      ensures FirstUnknownItem(items).Some? ==>
                r == Err(UnknownItemError(FirstUnknownItem(items).value))
                && orders == old(orders) && orderIds == old(orderIds)
      ensures FirstUnknownItem(items).None? ==>
                r == Ok(Order(orderId, items, customerName, Total(items), "pending"))
                && orders == old(orders)[orderId := r.value]
                && orderIds == (if orderId in old(orders) then old(orderIds) else old(orderIds) + [orderId])
    {
      var unknown := ValidateItems(items);
      if unknown.Some? {
        return Err(UnknownItemError(unknown.value));
      }
      var total := ComputeTotal(items);
      var newOrder := Order(orderId, items, customerName, total, "pending");
      if orderId !in orders {
        orderIds := orderIds + [orderId];
      }
      orders := orders[orderId := newOrder];
      return Ok(newOrder);
    }

    /** `GET /orders`: every stored order, in insertion order. */
    method GetOrders() returns (r: seq<Order>)
      requires Valid()
      ensures |r| == |orderIds| == |orders|
      ensures forall i :: 0 <= i < |r| ==> orderIds[i] in orders && r[i] == orders[orderIds[i]]
    {
      DistinctCard(orderIds, orders.Keys);
      var ids, table := orderIds, orders;
      r := seq(|ids|, i requires 0 <= i < |ids| && ids[i] in table => table[ids[i]]);
    }

    /** `GET /orders/{order_id}`: the stored order, or 404. */
    method GetOrder(orderId: string) returns (r: Result<Order>)
      requires Valid()
      ensures r.Ok? <==> orderId in orders
      ensures r.Ok? ==> r.value == orders[orderId] && r.value.id == orderId && r.value.total == Total(r.value.items)
      ensures r.Err? ==> r.error == NotFoundOrder
    {
      if orderId !in orders {
        return Err(NotFoundOrder);
      }
      return Ok(orders[orderId]);
    }

    /** `PUT /orders/{order_id}`: 404 before any validation, then 400 on the
        first unknown id; otherwise items, customer name and total are replaced
        while id, status and the key order stay. */
    method UpdateOrder(orderId: string, items: seq<OrderItem>, customerName: string) returns (r: Result<Order>)
      requires Valid()
      modifies this
      ensures Valid() && orderIds == old(orderIds)
      ensures orderId !in old(orders) ==> r == Err(NotFoundOrder) && orders == old(orders)
      ensures orderId in old(orders) && FirstUnknownItem(items).Some? ==>
                r == Err(UnknownItemError(FirstUnknownItem(items).value)) && orders == old(orders)
      ensures orderId in old(orders) && FirstUnknownItem(items).None? ==>
                r == Ok(old(orders)[orderId].(items := items, customerName := customerName, total := Total(items)))
                && orders == old(orders)[orderId := r.value]
    {
      if orderId !in orders {
        return Err(NotFoundOrder);
      }
      var unknown := ValidateItems(items);
      if unknown.Some? {
        return Err(UnknownItemError(unknown.value));
      }
      var total := ComputeTotal(items);
      var updated := orders[orderId].(items := items, customerName := customerName, total := total);
      orders := orders[orderId := updated];
      return Ok(updated);
    }

    /** `DELETE /orders/{order_id}`: remove exactly that key, or 404. */
    method DeleteOrder(orderId: string) returns (r: Result<string>)
      requires Valid()
      modifies this
      ensures Valid()
      ensures orderId !in old(orders) ==> r == Err(NotFoundOrder) && orders == old(orders) && orderIds == old(orderIds)
      ensures orderId in old(orders) ==>
                r == Ok("Order deleted successfully")
                && orders == old(orders) - {orderId}
                && orderIds == Without(old(orderIds), orderId)
    {
      if orderId !in orders {
        return Err(NotFoundOrder);
      }
      orders := orders - {orderId};
      orderIds := Without(orderIds, orderId);
      return Ok("Order deleted successfully");
    }

    /** `PATCH /orders/{order_id}/status`: 404 before 400; a valid status
        replaces the old one, whatever it was, and nothing else changes. */
    method UpdateOrderStatus(orderId: string, status: string) returns (r: Result<string>)
      requires Valid()
      modifies this
      ensures Valid() && orderIds == old(orderIds)
      ensures orderId !in old(orders) ==> r == Err(NotFoundOrder) && orders == old(orders)
      ensures orderId in old(orders) && status !in ValidStatuses ==>
                r == Err(HttpError(400, InvalidStatusDetail)) && orders == old(orders)
      ensures orderId in old(orders) && status in ValidStatuses ==>
                r == Ok("Order status updated to " + status)
                && orders == old(orders)[orderId := old(orders)[orderId].(status := status)]
    {
      if orderId !in orders {
        return Err(NotFoundOrder);
      }
      if status !in ValidStatuses {
        return Err(HttpError(400, InvalidStatusDetail));
      }
      orders := orders[orderId := orders[orderId].(status := status)];
      return Ok("Order status updated to " + status);
    }
  }

  /** A duplicate-free listing of a set's elements has the set's size. */
  lemma {:induction false} DistinctCard(ids: seq<string>, keys: set<string>)
    requires Distinct(ids)
    requires forall id :: id in keys <==> id in ids
    ensures |ids| == |keys|
  {
    if ids != [] {
      var rest := ids[1..];
      assert forall id :: id in keys - {ids[0]} <==> id in rest;
      DistinctCard(rest, keys - {ids[0]});
    }
  }

  /** An order with no lines passes validation and costs nothing. */
  lemma EmptyOrderAccepted()
    ensures FirstUnknownItem([]) == None && Total([]) == 0
  {
  }

  /** The worked example: two burgers and one pizza cost 35.99. */
  lemma TotalExample()
    ensures Total([OrderItem("2", 2), OrderItem("1", 1)]) == 3599
  {
  }
}
