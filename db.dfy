/** The MongoDB order helpers over the `Stock_order` collection, with the
    collection kept as a map from `_id` to document: status lookup,
    create-if-absent, and a cancel guarded against cancelling twice. */
module Db {

  /** A stored document, `{"_id", "customer_name", "item", "status"}`, keyed by its `_id`. */
  datatype Document = Document(customerName: string, item: string, status: string)

  const NotFound := "Order not found."
  const AlreadyExists := "Order already exists."
  const CreatedMessage := "Order created successfully."
  const AlreadyCanceled := "Order is already canceled."
  const CanceledMessage := "Order canceled successfully."
  const Pending := "Pending"
  const Canceled := "Canceled"

  /** The collection after `create_order`: a new `_id` gets a pending document;
      an existing one is left as it was. */
  function Create(docs: map<string, Document>, orderId: string, customerName: string, item: string): (d: map<string, Document>)
    ensures d.Keys == docs.Keys + {orderId}
    ensures forall k :: k in docs ==> d[k] == docs[k]
    ensures orderId !in docs ==> d[orderId] == Document(customerName, item, Pending)
  {
    if orderId in docs then docs else docs[orderId := Document(customerName, item, Pending)]
  }

  /** The collection after `cancel_order`: only a present, not yet canceled
      document changes, and only its status, to "Canceled". */
  function Cancel(docs: map<string, Document>, orderId: string): (d: map<string, Document>)
    ensures d.Keys == docs.Keys
    ensures forall k :: k in docs && k != orderId ==> d[k] == docs[k]
    ensures orderId in docs ==> d[orderId] == docs[orderId].(status := Canceled)
  {
    if orderId in docs && docs[orderId].status != Canceled then
      docs[orderId := docs[orderId].(status := Canceled)]
    else docs
  }

  /** The reply of `cancel_order` on the collection before the call. */
  function CancelReply(docs: map<string, Document>, orderId: string): (r: string)
    ensures r == CanceledMessage <==> orderId in docs && docs[orderId].status != Canceled
    ensures r == AlreadyCanceled <==> orderId in docs && docs[orderId].status == Canceled
    ensures r == NotFound <==> orderId !in docs
  {
    if orderId !in docs then NotFound
    else if docs[orderId].status == Canceled then AlreadyCanceled
    else CanceledMessage
  }

  /** After any cancel of a present document, a second cancel reports it is
      already canceled and changes nothing. */
  lemma SecondCancelRefused(docs: map<string, Document>, orderId: string)
    requires orderId in docs
    ensures CancelReply(Cancel(docs, orderId), orderId) == AlreadyCanceled
    ensures Cancel(Cancel(docs, orderId), orderId) == Cancel(docs, orderId)
  {
  }

  /** A freshly created order reports status "Pending". */
  lemma CreatedIsPending(docs: map<string, Document>, orderId: string, customerName: string, item: string)
    requires orderId !in docs
    ensures var d := Create(docs, orderId, customerName, item);
            orderId in d && d[orderId].status == Pending
  {
  }

  class OrdersCollection {
    /** `orders_collection`: `_id` to document. */
    var docs: map<string, Document>

    constructor (initial: map<string, Document>)
      ensures docs == initial
    {
      docs := initial;
    }

    /** `get_order_status`: the stored status, or the not-found text. */
    method GetOrderStatus(orderId: string) returns (r: string)
      ensures orderId in docs ==> r == docs[orderId].status
      ensures orderId !in docs ==> r == NotFound
    {
      if orderId in docs {
        return docs[orderId].status;
      }
      return NotFound;
    }

    /** `create_order`: `find_one` then `insert_one`. */
    method CreateOrder(orderId: string, customerName: string, item: string) returns (r: string)
      modifies this
      ensures docs == Create(old(docs), orderId, customerName, item)
      ensures r == (if orderId in old(docs) then AlreadyExists else CreatedMessage)
    {
      if orderId in docs {
        return AlreadyExists;
      }
      docs := docs[orderId := Document(customerName, item, Pending)];
      return CreatedMessage;
    }

    /** `cancel_order`: `find_one`, the two guards, then `update_one` with `$set`. */
    method CancelOrder(orderId: string) returns (r: string)
      modifies this
      ensures docs == Cancel(old(docs), orderId)
      ensures r == CancelReply(old(docs), orderId)
    {
      if orderId !in docs {
        return NotFound;
      }
      if docs[orderId].status == Canceled {
        return AlreadyCanceled;
      }
      docs := docs[orderId := docs[orderId].(status := Canceled)];
      return CanceledMessage;
    }
  }

  /** Cancelling a present order twice: the second call is refused, and the
      collection ends as after one cancel. */
  method CancelTwice(coll: OrdersCollection, orderId: string) returns (first: string, second: string)
    requires orderId in coll.docs
    modifies coll
    ensures first == CancelReply(old(coll.docs), orderId)
    ensures second == AlreadyCanceled
    ensures coll.docs == Cancel(old(coll.docs), orderId)
  {
    first := coll.CancelOrder(orderId);
    second := coll.CancelOrder(orderId);
    SecondCancelRefused(old(coll.docs), orderId);
  }
}
