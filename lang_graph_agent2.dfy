/** The rule-based order taker of the second LangGraph agent. Its copy of
    `parse_order_request` is the same code as the first agent's, so it is
    `LangGraphAgent.ParseOrderRequest`; the menu fetched over HTTP arrives as a
    parameter, and the `place_order` tool is an opaque sink, so the outcome
    records the one call that would be made. */
module LangGraphAgent2 {
  import opened PyText
  import opened LangGraphDb
  import opened LangGraphAgent

  const NotUnderstood := "Sorry, I couldn't understand your order. Please specify item names and quantities."

  /** Either the apology string is returned, or `place_order` is called once with these arguments
      and its response is returned. */
  datatype TakeOrderOutcome =
    | CouldNotUnderstand(message: string)
    | PlaceOrderCall(orderItems: seq<OrderItem>, customerName: string)

  /** `take_order_logic(user_message, customer_name)`, with `get_menu()` answered by `menu`. */
  method TakeOrderLogic(userMessage: string, customerName: string, menu: seq<MenuItem>) returns (outcome: TakeOrderOutcome)
    ensures outcome.CouldNotUnderstand? <==> ParseOrder(userMessage, menu) == []
    ensures outcome.CouldNotUnderstand? ==> outcome.message == NotUnderstood
    ensures outcome.PlaceOrderCall? ==>
              outcome.orderItems == ParseOrder(userMessage, menu) && outcome.customerName == customerName
  {
    var orderItems := ParseOrderRequest(userMessage, menu);
    if orderItems == [] {
      return CouldNotUnderstand(NotUnderstood);
    }
    return PlaceOrderCall(orderItems, customerName);
  }

  /** A word of the utterance that names the last menu item carrying that name,
      right after a word `int()` accepts (the last word standing in before the first). */
  predicate Recognised(userMessage: string, menu: seq<MenuItem>, j: nat, p: nat) {
    && j < |menu| && LastWithName(menu, j)
    && p < |Words(userMessage)| && Words(userMessage)[p] == Lower(menu[j].name)
    && ParseInt(PreviousWord(Words(userMessage), p)).Some?
  }

  /** The order is placed exactly when some item is recognised in the utterance. */
  lemma NothingUnderstoodIff(userMessage: string, menu: seq<MenuItem>)
    ensures ParseOrder(userMessage, menu) == [] <==>
            forall j: nat, p: nat :: !Recognised(userMessage, menu, j, p)
  {
    if ParseOrder(userMessage, menu) != [] {
      var line := ParseOrder(userMessage, menu)[0];
      assert line in ParseOrder(userMessage, menu);
      ParseOrderSound(userMessage, menu);
      var j, p :| 0 <= j < |menu| && 0 <= p < |Words(userMessage)|
                  && line.menuItemId == menu[j].id && LastWithName(menu, j)
                  && Words(userMessage)[p] == Lower(menu[j].name)
                  && Lower(menu[j].name) != [] && NoSpace(Lower(menu[j].name))
                  && ParseInt(PreviousWord(Words(userMessage), p)) == Some(line.quantity);
      assert Recognised(userMessage, menu, j, p);
    } else {
      forall j: nat, p: nat | Recognised(userMessage, menu, j, p)
        ensures false
      {
        ParseOrderComplete(userMessage, menu, j, p);
      }
    }
  }
}
