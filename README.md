# chat-creator order logic in Dafny

chat-creator is a restaurant ordering assistant. It has LLM agents, a FastAPI
order service and a console chatbot around a small amount of plain logic. This
project models that logic and proves what it does:

- **`LangGraphAgent`** (`lang_graph_agent.py`)
  - `parse_order_request` is the rule-based tokenizer. It builds a dict from each
    lower-cased menu name to its item, lower-cases and `split()`s the utterance,
    and for each dict entry in order appends one line per word equal to the key
    whose previous word `int()` accepts.
  - `extract_customer_info` makes one pass over `(role, text)` turns, keeping the
    text after "my name is" up to the next "." from the last user turn that
    mentions the phrase.
  - Both are methods with loops, proved equal to the pure functions `ParseOrder`
    and `NameFrom`. The properties of those functions are lemmas.
- **`LangGraphAgent2`** (`lang_graph_agent2.py`)
  - Its copy of `parse_order_request` is the same code, so it is the same method.
  - `take_order_logic` gets the menu as a parameter. It either returns the
    apology, or it reports the one `place_order` call it would make.
- **`LangGraphDb`** (`lang_graph_db.py`)
  - The restaurant API's state is a fixed five-item menu plus the class
    `RestaurantStore`. The class holds the `orders` dict and its key order.
  - It models the menu, create, list, get, update, delete and status handlers,
    with their 404/400 error branches.
  - The validation and total loops are methods proved against `FirstUnknownItem`
    and `Total`.
  - Prices are integer cents.
- **`Routes`** (`routes.py`)
  - The class `OrdersDb` holds the `orders_db` dict.
  - It models status lookup, create-if-absent, and a cancel with no
    already-cancelled branch.
- **`Db`** (`db.py`)
  - The class `OrdersCollection` holds the Mongo collection as a map from `_id`
    to document.
  - It models the same three operations. Here cancel refuses an already
    "Canceled" document.
- **`Chatbot`** (`chatbot.py`)
  - It models the parsing of the "Create Order" tool's input
    `"order_id, customer_name, item"`: split on commas, then strip each piece.
- **`PyText`**
  - The Python builtins the code relies on, restricted to ASCII: `isspace`,
    `lower`, `split()`, `split(sep)`, `",".join`, `strip`, `find`, `int` and `str`.
- **`AgentScenarios`**
  - Concrete consequences on the real menu: Python's `words[-1]`, signed
    quantities, unmerged repeats, whole-word matching, and last-wins name capture.

Proved behaviour of the tokenizer:

- At word index 0 the quantity comes from the last word, through Python's `words[-1]`.
- 0 and negative quantities are kept as they are.
- Where the docstring (lang_graph_agent.py lines 106-110) and the code disagree, the model follows the code. The docstring example "I want 2 burgers and 1 pizza" yields no lines with the real menu:
  - "burgers" is not "burger";
  - "pizza" is only half of the two-word name "pizza margherita";
  - the docstring's ids do not match the menu either (Burger is "2", Pizza Margherita "1").
  - See `AgentScenarios.PluralAndPartialNamesIgnored`.

## Model

| member | source | states |
|---|---|---|
| LangGraphAgent.ParseOrderRequest | lang_graph_agent.py:105-124 | the nested loops return exactly `ParseOrder`: for each dict entry in order, one line per word equal to its key whose previous word parses, with quantity `int(previous word)`; the copy at lang_graph_agent2.py lines 47-66 is the same code and is this method |
| LangGraphAgent.ParseOrder | lang_graph_agent.py:105-124 | what `parse_order_request` returns; characterised by `ParseOrderSound`, `ParseOrderComplete`, `ParseOrderPerItem`, `ParseOrderMenuOrder`, `ParseOrderFirstNameOrder` and `ParseOrderLength` |
| LangGraphAgent.BuildMenuDict | lang_graph_agent.py:112 | the dict comprehension, a later duplicate name overwriting the value in place; characterised by `MenuDictSound`, `MenuDictComplete` and `MenuDictInMenuOrder` |
| LangGraphAgent.Words | lang_graph_agent.py:114 | `user_message.lower().split()`; characterised by `SplitWords`, `SplitConcat` and `WordsOfJoin` |
| LangGraphAgent.Insert | lang_graph_agent.py:112 | `menu_dict[key] = item` inside the comprehension; characterised by `InsertAt` and `InsertEntries` |
| LangGraphAgent.InsertAt | lang_graph_agent.py:112 | a key the dict already holds keeps its first position and takes the new value; a new key is appended at the end |
| LangGraphAgent.InsertNewKey | lang_graph_agent.py:112 | a key the dict does not hold is appended after all existing entries |
| LangGraphAgent.InsertEntries | lang_graph_agent.py:112 | a dict assignment keeps keys unique, holds the new pair, and keeps exactly the entries under other keys |
| LangGraphAgent.MenuDictSound | lang_graph_agent.py:112 | every `menu_dict` entry is some menu item under its lower-cased name, and that item is the last one carrying the name; keys are unique and there are at most as many as items |
| LangGraphAgent.MenuDictComplete | lang_graph_agent.py:112 | the last menu item with each lower-cased name is in `menu_dict` under that name |
| LangGraphAgent.MenuDictInMenuOrder | lang_graph_agent.py:112 | with distinct lower-cased names, `menu_dict` lists every item in menu order |
| LangGraphAgent.FirstNamed | lang_graph_agent.py:112 | the first menu position whose lower-cased name is the key, or the menu length when there is none |
| LangGraphAgent.MenuDictFirstOrder | lang_graph_agent.py:112 | for every menu, repeated names included: every key is some item's lower-cased name, every such name is a key, and keys stand in the order in which their names first appear |
| LangGraphAgent.WordsOfJoin | lang_graph_agent.py:114 | the words of single-space-joined words without whitespace are those words lower-cased |
| LangGraphAgent.PreviousWord | lang_graph_agent.py:119 | `words[i - 1]` with Python's negative index: the word at `(i - 1) mod len(words)`, so position 0 reads the last word |
| LangGraphAgent.MatchesBefore | lang_graph_agent.py:116-122 | the lines the inner loop has appended for one dict entry after the first n words; characterised by `MatchesBeforeHits`, `MatchesBeforeSound`, `MatchesBeforeComplete` and `MatchesBeforeLength` |
| LangGraphAgent.MatchesBeforeLength | lang_graph_agent.py:116-122 | the inner loop appends at most one line per word |
| LangGraphAgent.MatchesBeforeSound | lang_graph_agent.py:116-122 | every line the inner loop appends carries the entry's id and the quantity `int()` reads from the word before an occurrence of the key |
| LangGraphAgent.MatchesBeforeComplete | lang_graph_agent.py:116-122 | every occurrence of the key after a word that parses yields its line |
| LangGraphAgent.LinesFor | lang_graph_agent.py:115-122 | the lines the outer loop has appended after the first k dict entries; characterised by `LinesForSound`, `LinesForIncludes`, `LinesForOrder` and `LinesForLength` |
| LangGraphAgent.LinesForLength | lang_graph_agent.py:115-122 | after k entries there are at most k times the word count lines |
| LangGraphAgent.LinesForSound | lang_graph_agent.py:115-122 | every line comes from the inner loop of one of the first k entries |
| LangGraphAgent.LinesForIncludes | lang_graph_agent.py:115-122 | every line an entry's inner loop yields is in the output |
| LangGraphAgent.LinesForOrder | lang_graph_agent.py:115-122 | with distinct ids, no line of an earlier dict entry follows a line of a later one: output is in dict order |
| LangGraphAgent.ParseOrderSound | lang_graph_agent.py:112-120 | every line carries the id of the last menu item with some name, that name equals a word of the utterance (so it is non-empty and holds no whitespace), and the quantity is `int()` of the previous word, the last word at index 0 |
| LangGraphAgent.ParseOrderComplete | lang_graph_agent.py:115-122 | every word equal to such a name with a previous word that parses yields a line with that quantity in the output (one line per occurrence is `ParseOrderPerItem`) |
| LangGraphAgent.ParseOrderLength | lang_graph_agent.py:112-120 | there are at most (menu size × word count) lines |
| LangGraphAgent.ParseOrderMenuOrder | lang_graph_agent.py:115-120 | with distinct names and ids, no line of an earlier menu item follows a line of a later one: output is in menu order (`ParseOrderFirstNameOrder` drops the distinct-names condition) |
| LangGraphAgent.ParseOrderFirstNameOrder | lang_graph_agent.py:112-122 | for every menu with distinct ids, repeated names included: no line for an item whose name first appears earlier in the menu follows a line for one whose name first appears later |
| LangGraphAgent.Hits | lang_graph_agent.py:116-119 | the positions where a name stands after a word `int()` accepts: each such position exactly once, in increasing order, and no other |
| LangGraphAgent.MatchesBeforeHits | lang_graph_agent.py:116-122 | one dict entry's inner loop yields one line per hit, in word order, with `int()` of the previous word |
| LangGraphAgent.ParseOrderPerItem | lang_graph_agent.py:115-122 | with distinct ids, a menu item's lines in the output are exactly one per occurrence of its name after a word that parses, in word order and never merged, each with that word's value |
| LangGraphAgent.MultiWordNamesNeverMatch | lang_graph_agent.py:112-117 | an id whose names all hold whitespace never appears in the output |
| LangGraphAgent.ShadowedItemNeverMatches | lang_graph_agent.py:112-120 | an id whose items all have a later namesake never appears: the later item's id wins |
| LangGraphAgent.ExtractCustomerInfo | lang_graph_agent.py:155-168 | the loop returns the last-wins capture `NameFrom(history)` and an empty `previous_orders` |
| LangGraphAgent.HasPhrase | lang_graph_agent.py:160 | `"my name is" in msg_content.lower()`; characterised by `HasPhraseIff` |
| LangGraphAgent.HasPhraseIff | lang_graph_agent.py:160 | true exactly when "my name is" occurs somewhere in the lower-cased text |
| LangGraphAgent.NameStart | lang_graph_agent.py:162 | the name starts after the first case-insensitive "my name is", within the text |
| LangGraphAgent.NameEnd | lang_graph_agent.py:163-165 | the name ends at the next "." at or after the start, or at the end of the text |
| LangGraphAgent.NameIn | lang_graph_agent.py:160-166 | a turn sets a name exactly when it is a user turn whose lower-cased text contains "my name is" |
| LangGraphAgent.CaptureName | lang_graph_agent.py:162-166 | the slice after the first "my name is" up to the next "." or the end, stripped; characterised by `CapturedNameShape` and `CapturedNameIsSlice` |
| LangGraphAgent.NameFrom | lang_graph_agent.py:157-168 | the name after folding the turns in order, later mentions overwriting; characterised by `NameNoneIff` and `NameLastWins` |
| LangGraphAgent.NameNoneIff | lang_graph_agent.py:157-160 | the name stays `None` if and only if no user turn mentions the phrase |
| LangGraphAgent.NameLastWins | lang_graph_agent.py:159-166 | a captured name is the one set by a mentioning user turn after which no turn mentions the phrase |
| LangGraphAgent.CapturedNameShape | lang_graph_agent.py:162-166 | a captured name holds no "." and has no leading or trailing whitespace |
| LangGraphAgent.CapturedNameIsSlice | lang_graph_agent.py:162-166 | a captured name is a contiguous slice of the message lying after the phrase's length |
| LangGraphAgent2.TakeOrderLogic | lang_graph_agent2.py:69-84 | the apology is returned exactly when parsing yields no line; otherwise `place_order` is called once with the parsed lines unchanged and the given customer name |
| LangGraphAgent2.NothingUnderstoodIff | lang_graph_agent2.py:77-80 | parsing yields nothing if and only if no word names a menu item (the last with its name) right after a word `int()` accepts |
| LangGraphDb.GetMenu | lang_graph_db.py:46-48 | the listed items are the dict's values: each is stored under its own id, and every id is listed |
| LangGraphDb.GetMenuItem | lang_graph_db.py:50-54 | a known id returns its item, and the item carries that id; an unknown id returns 404 "Menu item not found" |
| LangGraphDb.FirstUnknownItem | lang_graph_db.py:60-62 | `None` exactly when every line is on the menu; otherwise the id of a line not on the menu with all earlier lines on it |
| LangGraphDb.ValidateItems | lang_graph_db.py:60-62 | the validation loop stops at the first unknown id, as `FirstUnknownItem` |
| LangGraphDb.ComputeTotal | lang_graph_db.py:65-68 | the accumulation loop returns Σ price × quantity, as `Total` |
| LangGraphDb.Total | lang_graph_db.py:65-68 | Σ price × quantity in cents; characterised by `TotalAppend`, `TotalNonNegative`, `EmptyOrderAccepted` and `TotalExample` |
| LangGraphDb.TotalAppend | lang_graph_db.py:65-68 | the total is additive over concatenated lines |
| LangGraphDb.TotalNonNegative | lang_graph_db.py:65-68 | with no negative quantity the total is not negative |
| LangGraphDb.EmptyOrderAccepted | lang_graph_db.py:60-76 | an order with no lines passes validation and totals 0 |
| LangGraphDb.TotalExample | lang_graph_db.py:64-68 | two burgers and one pizza cost 3599 cents |
| LangGraphDb.Without | lang_graph_db.py:120 | deleting a key keeps the other keys and no duplicates |
| LangGraphDb.DistinctCard | lang_graph_db.py:82-84 | the key order lists as many ids as the dict has keys |
| LangGraphDb.RestaurantStore.constructor | lang_graph_db.py:39 | the store starts with no orders |
| LangGraphDb.RestaurantStore.CreateOrder | lang_graph_db.py:57-80 | an unknown id fails with 400 naming the first unknown id and changes nothing; otherwise the order with the given lines, name, status "pending" and total Σ price × quantity is stored under the new id, nothing else changes, and every stored order stays well formed |
| LangGraphDb.RestaurantStore.GetOrders | lang_graph_db.py:82-84 | every stored order once, in insertion order |
| LangGraphDb.RestaurantStore.GetOrder | lang_graph_db.py:86-90 | the stored order, with its own id and an up-to-date total, or 404 "Order not found" exactly when absent |
| LangGraphDb.RestaurantStore.UpdateOrder | lang_graph_db.py:92-113 | 404 before any validation, then 400 on the first unknown id with nothing changed; otherwise lines, name and total are replaced while id, status and key order stay |
| LangGraphDb.RestaurantStore.DeleteOrder | lang_graph_db.py:115-121 | removes exactly that key from the dict and the key order, or 404 when absent |
| LangGraphDb.RestaurantStore.UpdateOrderStatus | lang_graph_db.py:123-133 | 404 before 400; a status outside the five leaves the state unchanged; otherwise only that order's status changes, from any previous value |
| Routes.Create | routes.py:15-26 | a new id gets a "Pending" record; a duplicate id changes nothing; no other key is touched |
| Routes.Cancel | routes.py:28-34 | a present record's status becomes "Cancelled" whatever it was; keys and all other records stay |
| Routes.CancelIdempotent | routes.py:31-33 | cancelling twice leaves the table as cancelling once |
| Routes.CreatedIsPending | routes.py:21-25 | a freshly created order reports status "Pending" |
| Routes.OrdersDb.constructor | routes.py:3 | the route table starts as the given dict |
| Routes.OrdersDb.GetOrderStatus | routes.py:7-13 | `{order_id, status}` exactly when the id is present, else the "Order not found" error |
| Routes.OrdersDb.CreateOrder | routes.py:15-26 | the table becomes `Create`; an existing id answers "Order ID already exists", a new one the success message with the id |
| Routes.OrdersDb.CancelOrder | routes.py:28-34 | the table becomes `Cancel`; a present id answers "Order <id> cancelled successfully", an absent one "Order not found" |
| Routes.CancelTwice | routes.py:28-34 | cancelling twice succeeds both times with the same reply |
| Db.Create | db.py:16-22 | a new `_id` gets a "Pending" document; an existing one changes nothing; no other document is touched |
| Db.Cancel | db.py:24-33 | only a present, not yet "Canceled" document changes, and only its status, to "Canceled" |
| Db.CancelReply | db.py:24-33 | "Order canceled successfully." iff present and not canceled; "Order is already canceled." iff present and canceled; "Order not found." iff absent |
| Db.SecondCancelRefused | db.py:29-33 | after a cancel of a present order, a second cancel reports "already canceled" and changes nothing |
| Db.CreatedIsPending | db.py:20-22 | a freshly created document has status "Pending" |
| Db.OrdersCollection.constructor | db.py:10 | the collection starts as the given map |
| Db.OrdersCollection.GetOrderStatus | db.py:12-14 | the stored status, or "Order not found." |
| Db.OrdersCollection.CreateOrder | db.py:16-22 | the collection becomes `Create`; the reply is "Order already exists." for an existing id, else "Order created successfully." |
| Db.OrdersCollection.CancelOrder | db.py:24-33 | the collection becomes `Cancel` and the reply is `CancelReply` of the collection before the call |
| Db.CancelTwice | db.py:24-33 | the second of two cancels on a present order is refused as already canceled |
| Chatbot.ParseCreateOrderInput | chatbot.py:16-24 | a rejected input always carries "Invalid input. Use format: order_id, customer_name, item" |
| Chatbot.AcceptedIffTwoCommas | chatbot.py:19-24 | the input is accepted if and only if it holds exactly two commas |
| Chatbot.FieldsAreStrippedPieces | chatbot.py:19-20 | three comma-free pieces joined by commas give those pieces, in order, each stripped |
| Chatbot.AcceptedShape | chatbot.py:19-20 | every accepted input is three comma-free pieces joined by commas, and the fields are those pieces stripped |
| Chatbot.EmptyFieldsAccepted | chatbot.py:19 | " , , " gives three empty fields |
| Chatbot.CommaInItemRejected | chatbot.py:19-24 | an item holding a comma makes the input invalid |
| PyText.Lower | lang_graph_agent.py:114 | `lower()` keeps the length and lower-cases each ASCII letter in place |
| PyText.LowerKeepsSpaces | lang_graph_agent.py:114 | lower-casing neither adds nor removes whitespace |
| PyText.LowerJoin | lang_graph_agent.py:114 | lower-casing a space-joined text lower-cases each word |
| PyText.SplitWords | lang_graph_agent.py:114 | every word `split()` yields is non-empty and holds no whitespace |
| PyText.Split | lang_graph_agent.py:114 | `split()` with no separator, the maximal runs of non-whitespace; characterised by `SplitWords`, `SplitConcat` and `SplitJoin` |
| PyText.SplitConcat | lang_graph_agent.py:114 | `split()` drops exactly the whitespace characters |
| PyText.SplitJoin | lang_graph_agent.py:114 | `split()` undoes `" ".join` of non-empty words without whitespace |
| PyText.IndexOf | chatbot.py:19 | the first index of the separator, or none when it is absent |
| PyText.SplitOn | chatbot.py:19 | `split(",")`, empty pieces kept, never an empty list; characterised by `SplitOnJoin` and `JoinSplitOn` |
| PyText.SplitOnJoin | chatbot.py:19 | joining the pieces of `split(sep)` gives back the text; no piece holds the separator; there is one more piece than separators |
| PyText.JoinSplitOn | chatbot.py:19 | `split(sep)` undoes `sep.join` of separator-free pieces |
| PyText.Strip | chatbot.py:19 | `strip()` is the slice left after the leading and trailing whitespace, and it neither starts nor ends with whitespace |
| PyText.StripKeepsAbsent | lang_graph_agent.py:166 | stripping adds no character |
| PyText.FindFrom | lang_graph_agent.py:162-163 | `find(pat, start)` is the first occurrence at or after `start`, or none when there is none |
| PyText.ParseInt | lang_graph_agent.py:119 | `int(token)`, with `None` where Python raises `ValueError`; characterised by `ParseIntShape` and `ParseIntToString` |
| PyText.IntToString | lang_graph_agent.py:119 | `str(i)`: non-empty, a leading "-" exactly for a negative number, decimal digits after it; `ParseIntToString` is its round trip with `int()` |
| PyText.NatToStringDigits | lang_graph_agent.py:119 | `str(n)` of a natural number is a non-empty run of digits whose value is n |
| PyText.ParseIntShape | lang_graph_agent.py:119 | a token `int()` accepts is digits and underscores with at most a leading sign, ending in a digit |
| PyText.ParseIntToString | lang_graph_agent.py:119 | `int(str(i)) == i` for every integer |
| AgentScenarios.MenuNamesLowered | lang_graph_db.py:31-37 | the five menu names lower-case to "pizza margherita", "burger", "caesar salad", "pasta carbonara", "tiramisu" |
| AgentScenarios.MenuDistinct | lang_graph_db.py:31-37 | the menu's lower-cased names and its ids are distinct |
| AgentScenarios.MenuDictOfMenu | lang_graph_agent.py:112 | `menu_dict` of the restaurant menu is the five items under their lower-cased names, in menu order |
| AgentScenarios.ParseOrderOnMenu | lang_graph_agent.py:112-120 | on the restaurant menu only "burger" and "tiramisu" can match, burger lines first |
| AgentScenarios.IntWords | lang_graph_agent.py:119 | `int()` reads "1", "2", "0" and "-3" and rejects "two" |
| AgentScenarios.FirstWordReadsLast | lang_graph_agent.py:116-119 | "burger 2" orders two burgers, through `words[-1]` |
| AgentScenarios.SentenceWords | lang_graph_agent.py:114 | "I want 2 burgers and 1 pizza" splits into its seven lower-cased words |
| AgentScenarios.PluralAndPartialNamesIgnored | lang_graph_agent.py:105-124 | the docstring's "I want 2 burgers and 1 pizza" yields no lines |
| AgentScenarios.MenuOrderWins | lang_graph_agent.py:115-120 | "1 tiramisu 2 burger" yields the burger line before the tiramisu line |
| AgentScenarios.RepeatsNotMerged | lang_graph_agent.py:115-120 | "1 burger 1 burger" yields two separate lines |
| AgentScenarios.NegativeAndZeroQuantities | lang_graph_agent.py:119-120 | "-3 burger 0 tiramisu" yields quantities -3 and 0 |
| AgentScenarios.UnparsedQuantitySkipped | lang_graph_agent.py:118-122 | "two burger" yields no line and no error |
| AgentScenarios.CaptureAtStart | lang_graph_agent.py:160-166 | a message opening with the phrase in any letter case, then a space, a name and ".", captures exactly the name |
| AgentScenarios.NoDotAfter | lang_graph_agent.py:163-165 | with no "." after the start, `find` gives -1 and the name ends at the end of the text |
| AgentScenarios.CaptureToEnd | lang_graph_agent.py:160-166 | a message opening with the phrase, then a space and a name with no ".", captures exactly the name |
| AgentScenarios.NameRunsToEnd | lang_graph_agent.py:163-166 | the user turn "My name is Sam" captures "Sam" |
| AgentScenarios.IntroductionCaptured | lang_graph_agent.py:159-166 | the user turn "My name is Alex." captures "Alex" |
| AgentScenarios.LastIntroductionWins | lang_graph_agent.py:159-166 | with Alex, then an assistant "Bot", then Sam, the name is "Sam" |

## Left out

- The LLM side is not modelled: the Azure chat model, the ReAct agents, graph streaming, the Streamlit page and the console `input()` loops. These are foreign calls and console I/O.
- The `requests` wrappers that call the REST API are not modelled. This is HTTP. `take_order_logic` gets the menu as a parameter and returns the `place_order` call it would make. `place_order`'s response is not modelled.
- LangGraphDb.RestaurantStore.CreateOrder: totals are exact integer cents. Python's binary floating-point prices and `round(total, 2)` are not modelled.
- LangGraphDb.RestaurantStore.CreateOrder: `uuid4()` is a parameter. If it repeats an existing key, the order is overwritten, as the dict assignment would do.
- Routes.OrdersDb: the unseen `database` module's `orders_db` is a plain map. The `if order:` test is modelled as key membership, since every stored record is a non-empty dict.
- Db.OrdersCollection: the MongoDB connection, `find_one`, `insert_one` and `update_one` are a map lookup and map updates. Server errors and concurrent writers are not modelled.
- Chatbot.ParseCreateOrderInput: only the split/strip/unpack step is modelled. Its `except Exception` also catches network errors from the POST, which are not modelled.
- PyText.ParseInt: CPython 3.11 and later (and the security releases back to 3.7) raise `ValueError` for a decimal token of more than 4300 digits, by default. `parse_order_request` then skips that match, but `ParseOrder` still emits a line for it. The limit can be configured per interpreter, so it is not modelled.
- PyText.ParseIntToString: the same limit makes `str(i)` raise for an integer of more than 4300 digits. The round trip is proved for every integer, without that limit.
- Text builtins are ASCII only:
  - `lower()` maps only A-Z;
  - `isspace()` covers ASCII whitespace and the separators 28-31;
  - `int()` accepts an optional sign and ASCII digits with single underscores between digits.
  - Unicode case mappings, Unicode whitespace and non-ASCII digits are not modelled.
- The pydantic and FastAPI validation of request bodies and the response serialisation are not modelled. Requests are modelled as already-typed values.
- async/await and concurrency are not modelled. The handlers have no locking, and each is modelled as one atomic step.
