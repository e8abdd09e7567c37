/** The input parsing of the console chatbot's "Create Order" tool: the text
    `"order_id, customer_name, item"` is split on commas and each piece is
    stripped; any other number of pieces is reported as invalid input. */
module Chatbot {
  import opened PyText

  const InvalidInput := "Invalid input. Use format: order_id, customer_name, item"

  /** The payload `create_order` would post, or the error it returns instead. */
  datatype CreateOrderInput =
    | Payload(orderId: string, customerName: string, item: string)
    | Invalid(error: string)

  /** `order_id, customer_name, item = map(str.strip, input_text.split(","))`,
      with the `ValueError` of a wrong piece count turned into the error reply. */
  function ParseCreateOrderInput(inputText: string): (r: CreateOrderInput)
    ensures r.Invalid? ==> r.error == InvalidInput
  {
    var pieces := SplitOn(inputText, ',');
    if |pieces| == 3 then Payload(Strip(pieces[0]), Strip(pieces[1]), Strip(pieces[2]))
    else Invalid(InvalidInput)
  }

  /** The input is accepted exactly when it holds two commas. */
  lemma AcceptedIffTwoCommas(inputText: string)
    ensures ParseCreateOrderInput(inputText).Payload? <==> Count(inputText, ',') == 2
  {
    SplitOnJoin(inputText, ',');
  }

  /** Three comma-free pieces joined by commas give those pieces, in order, each stripped. */
  lemma FieldsAreStrippedPieces(a: string, b: string, c: string)
    requires ',' !in a && ',' !in b && ',' !in c
    ensures ParseCreateOrderInput(Join([a, b, c], ',')) == Payload(Strip(a), Strip(b), Strip(c))
  {
    JoinSplitOn([a, b, c], ',');
  }

  /** Every accepted input is `",".join` of three comma-free pieces, and the
      fields are those pieces stripped. */
  lemma AcceptedShape(inputText: string)
    requires ParseCreateOrderInput(inputText).Payload?
    ensures exists a, b, c :: ',' !in a && ',' !in b && ',' !in c && inputText == Join([a, b, c], ',')
                              && ParseCreateOrderInput(inputText) == Payload(Strip(a), Strip(b), Strip(c))
  {
    var pieces := SplitOn(inputText, ',');
    SplitOnJoin(inputText, ',');
    assert pieces[0] in pieces && pieces[1] in pieces && pieces[2] in pieces;
    assert pieces == [pieces[0], pieces[1], pieces[2]];
  }

  /** Empty fields are not rejected. */
  lemma EmptyFieldsAccepted()
    ensures ParseCreateOrderInput(" , , ") == Payload("", "", "")
  {
    assert Join([" ", " ", " "], ',') == " , , ";
    FieldsAreStrippedPieces(" ", " ", " ");
    assert Strip(" ") == "";
  }

  /** An item holding a comma makes the input invalid: it is split into more pieces. */
  lemma CommaInItemRejected(orderId: string, customerName: string, item: string)
    requires ',' in item
    ensures ParseCreateOrderInput(Join([orderId, customerName, item], ',')).Invalid?
  {
    var s := Join([orderId, customerName, item], ',');
    var tail := Join([customerName, item], ',');
    assert [orderId, customerName, item][1..] == [customerName, item];
    assert [customerName, item][1..] == [item];
    assert Join([item], ',') == item;
    assert s == orderId + [','] + tail;
    assert tail == customerName + [','] + item;
    assert Count([','], ',') == 1 by { assert [','][1..] == []; }
    CountAppend(orderId + [','], tail, ',');
    CountAppend(orderId, [','], ',');
    CountAppend(customerName + [','], item, ',');
    CountAppend(customerName, [','], ',');
    CountPresent(item, ',');
    AcceptedIffTwoCommas(s);
  }

  lemma {:induction false} CountPresent(s: string, c: char)
    requires c in s
    ensures Count(s, c) >= 1
  {
    if s[0] != c {
      assert c in s[1..];
      CountPresent(s[1..], c);
    }
  }
}
