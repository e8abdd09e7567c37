/** The two pieces of plain logic in the LangGraph order agent: the order-request
    tokenizer `parse_order_request` and the customer-name extractor
    `extract_customer_info`. */
module LangGraphAgent {
  import opened PyText
  import opened LangGraphDb

  // ================================================================ parse_order_request

  /** `menu_dict`, a Python dict kept as its list of (key, value) pairs in order. */
  type MenuDict = seq<(string, MenuItem)>

  /** Where `key` first stands in the dict, or the dict's length when it is absent. */
  function KeyIndex(d: MenuDict, key: string): (i: nat)
    ensures i <= |d|
    ensures forall j :: 0 <= j < i ==> d[j].0 != key
    ensures i < |d| ==> d[i].0 == key
  {
    if d == [] then 0
    else if d[0].0 == key then 0
    else 1 + KeyIndex(d[1..], key)
  }

  /** `d[key] = item` on a Python dict: a present key keeps its position and
      takes the new value; a new key goes to the end. */
  function Insert(d: MenuDict, key: string, item: MenuItem): MenuDict {
    if d == [] then [(key, item)]
    else if d[0].0 == key then [(key, item)] + d[1..]
    else [d[0]] + Insert(d[1..], key, item)
  }

  /** The assignment replaces the entry at the key's position, or appends. */
  lemma {:induction false} InsertAt(d: MenuDict, key: string, item: MenuItem)
    ensures KeyIndex(d, key) < |d| ==> Insert(d, key, item) == d[KeyIndex(d, key) := (key, item)]
    ensures KeyIndex(d, key) == |d| ==> Insert(d, key, item) == d + [(key, item)]
  {
    if d != [] && d[0].0 != key {
      InsertAt(d[1..], key, item);
    }
  }

  /** `{item["name"].lower(): item for item in menu}`. */
  function BuildMenuDict(menu: seq<MenuItem>): MenuDict {
    if menu == [] then []
    else
      var last := menu[|menu| - 1];
      Insert(BuildMenuDict(menu[..|menu| - 1]), Lower(last.name), last)
  }

  /** No later menu item has the same lower-cased name as `menu[j]`. */
  predicate LastWithName(menu: seq<MenuItem>, j: nat)
    requires j < |menu|
  {
    forall k :: j < k < |menu| ==> Lower(menu[k].name) != Lower(menu[j].name)
  }

  /** Dict keys are unique. */
  predicate KeysDistinct(d: MenuDict) {
    forall i, j :: 0 <= i < j < |d| ==> d[i].0 != d[j].0
  }

  lemma {:induction false} InsertEntries(d: MenuDict, key: string, item: MenuItem)
    requires KeysDistinct(d)
    ensures KeysDistinct(Insert(d, key, item))
    ensures (key, item) in Insert(d, key, item)
    ensures forall e :: e in Insert(d, key, item) ==> e == (key, item) || (e in d && e.0 != key)
    ensures forall e :: e in d && e.0 != key ==> e in Insert(d, key, item)
    ensures |Insert(d, key, item)| <= |d| + 1
  {
    if d != [] {
      assert forall e :: e in d[1..] ==> e.0 != d[0].0;
      if d[0].0 != key {
        InsertEntries(d[1..], key, item);
      }
    }
  }

  /** Each dict entry is a menu item under its lower-cased name, and it is the
      LAST item with that name: a later duplicate overwrites an earlier one. */
  lemma {:induction false} MenuDictSound(menu: seq<MenuItem>)
    ensures |BuildMenuDict(menu)| <= |menu| && KeysDistinct(BuildMenuDict(menu))
    ensures forall e :: e in BuildMenuDict(menu) ==>
              exists j :: 0 <= j < |menu| && e == (Lower(menu[j].name), menu[j]) && LastWithName(menu, j)
  {
    if menu != [] {
      var n := |menu| - 1;
      var prefix := menu[..n];
      MenuDictSound(prefix);
      InsertEntries(BuildMenuDict(prefix), Lower(menu[n].name), menu[n]);
      forall e | e in BuildMenuDict(menu)
        ensures exists j :: 0 <= j < |menu| && e == (Lower(menu[j].name), menu[j]) && LastWithName(menu, j)
      {
        if e != (Lower(menu[n].name), menu[n]) {
          var j :| 0 <= j < |prefix| && e == (Lower(prefix[j].name), prefix[j]) && LastWithName(prefix, j);
          LastWithNameExtends(menu, j);
        } else {
          assert LastWithName(menu, n);
        }
      }
    }
  }

  lemma LastWithNameExtends(menu: seq<MenuItem>, j: nat)
    requires j < |menu| - 1 && LastWithName(menu[..|menu| - 1], j)
    requires Lower(menu[|menu| - 1].name) != Lower(menu[j].name)
    ensures LastWithName(menu, j)
  {
    assert forall k :: j < k < |menu| - 1 ==> menu[..|menu| - 1][k] == menu[k];
  }

  lemma LastWithNameRestricts(menu: seq<MenuItem>, j: nat)
    requires j < |menu| - 1 && LastWithName(menu, j)
    ensures LastWithName(menu[..|menu| - 1], j)
  {
    assert forall k :: j < k < |menu| - 1 ==> menu[..|menu| - 1][k] == menu[k];
  }

  /** Conversely, the last item with each lower-cased name is in the dict. */
  lemma {:induction false} MenuDictComplete(menu: seq<MenuItem>, j: nat)
    requires j < |menu| && LastWithName(menu, j)
    ensures (Lower(menu[j].name), menu[j]) in BuildMenuDict(menu)
  {
    var n := |menu| - 1;
    var prefix := menu[..n];
    MenuDictSound(prefix);
    InsertEntries(BuildMenuDict(prefix), Lower(menu[n].name), menu[n]);
    if j < n {
      LastWithNameRestricts(menu, j);
      MenuDictComplete(prefix, j);
      assert Lower(menu[n].name) != Lower(menu[j].name);
    }
  }

  /** `words[i - 1]`, where Python's index -1 stands for the last word. */
  function PreviousWord(words: seq<string>, i: nat): (w: string)
    requires i < |words|
    ensures w == words[(i - 1) % |words|]
  {
    words[if i == 0 then |words| - 1 else i - 1]
  }

  /** The lines the inner loop emits for one dict entry after scanning the
      first `n` words: one per matching word whose previous word parses. */
  function MatchesBefore(name: string, id: string, words: seq<string>, n: nat): seq<OrderItem>
    requires n <= |words|
  {
    if n == 0 then []
    else
      var quantity := ParseInt(PreviousWord(words, n - 1));
      MatchesBefore(name, id, words, n - 1)
      + (if words[n - 1] == name && quantity.Some? then [OrderItem(id, quantity.value)] else [])
  }

  /** The lines the outer loop has emitted after the first `k` dict entries. */
  function LinesFor(dict: MenuDict, words: seq<string>, k: nat): seq<OrderItem>
    requires k <= |dict|
  {
    if k == 0 then []
    else LinesFor(dict, words, k - 1) + MatchesBefore(dict[k - 1].0, dict[k - 1].1.id, words, |words|)
  }

  function Words(userMessage: string): seq<string> {
    Split(Lower(userMessage))
  }

  /** The words of a message made of whitespace-free words joined by single
      spaces are those words, lower-cased. */
  lemma WordsOfJoin(ws: seq<string>)
    requires |ws| > 0 && forall i :: 0 <= i < |ws| ==> ws[i] != [] && NoSpace(ws[i])
    ensures Words(Join(ws, ' ')) == LowerAll(ws)
  {
    LowerJoin(ws);
    forall i | 0 <= i < |ws|
      ensures LowerAll(ws)[i] != [] && NoSpace(LowerAll(ws)[i])
    {
      LowerKeepsSpaces(ws[i]);
    }
    SplitJoin(LowerAll(ws));
  }

  /** What `parse_order_request(user_message, menu)` returns. */
  function ParseOrder(userMessage: string, menu: seq<MenuItem>): seq<OrderItem> {
    var dict := BuildMenuDict(menu);
    LinesFor(dict, Words(userMessage), |dict|)
  }

  /** `parse_order_request`: for each dict entry in order, for each word equal
      to its key, append a line when the previous word parses as an integer. */
  method ParseOrderRequest(userMessage: string, menu: seq<MenuItem>) returns (orderItems: seq<OrderItem>)
    ensures orderItems == ParseOrder(userMessage, menu)
  {
    orderItems := [];
    var menuDict := BuildMenuDict(menu);
    var words := Words(userMessage);
    var k := 0;
    while k < |menuDict|
      invariant 0 <= k <= |menuDict|
      invariant orderItems == LinesFor(menuDict, words, k)
    {
      var name, details := menuDict[k].0, menuDict[k].1;
      var i := 0;
      while i < |words|
        invariant 0 <= i <= |words|
        invariant orderItems == LinesFor(menuDict, words, k) + MatchesBefore(name, details.id, words, i)
      {
        if words[i] == name {
          var quantity := ParseInt(PreviousWord(words, i));
          if quantity.Some? {
            orderItems := orderItems + [OrderItem(details.id, quantity.value)];
          }
        }
        i := i + 1;
      }
      k := k + 1;
    }
  }

  lemma {:induction false} MatchesBeforeLength(name: string, id: string, words: seq<string>, n: nat)
    requires n <= |words|
    ensures |MatchesBefore(name, id, words, n)| <= n
  {
    if n > 0 {
      MatchesBeforeLength(name, id, words, n - 1);
    }
  }

  lemma {:induction false} MatchesBeforeSound(name: string, id: string, words: seq<string>, n: nat)
    requires n <= |words|
    ensures forall line :: line in MatchesBefore(name, id, words, n) ==>
              line.menuItemId == id
              && exists p :: 0 <= p < n && words[p] == name && ParseInt(PreviousWord(words, p)) == Some(line.quantity)
  {
    if n > 0 {
      MatchesBeforeSound(name, id, words, n - 1);
    }
  }

  lemma {:induction false} MatchesBeforeComplete(name: string, id: string, words: seq<string>, n: nat, p: nat)
    requires p < n <= |words| && words[p] == name && ParseInt(PreviousWord(words, p)).Some?
    ensures OrderItem(id, ParseInt(PreviousWord(words, p)).value) in MatchesBefore(name, id, words, n)
  {
    if p < n - 1 {
      MatchesBeforeComplete(name, id, words, n - 1, p);
    }
  }

  lemma {:induction false} LinesForLength(dict: MenuDict, words: seq<string>, k: nat)
    requires k <= |dict|
    ensures |LinesFor(dict, words, k)| <= k * |words|
  {
    if k > 0 {
      var m := k - 1;
      var earlier, last := LinesFor(dict, words, m), MatchesBefore(dict[m].0, dict[m].1.id, words, |words|);
      LinesForLength(dict, words, m);
      MatchesBeforeLength(dict[m].0, dict[m].1.id, words, |words|);
      assert |LinesFor(dict, words, k)| == |earlier| + |last|;
      MulStep(m, |words|);
    }
  }

  lemma {:induction false} LinesForSound(dict: MenuDict, words: seq<string>, k: nat)
    requires k <= |dict|
    ensures forall line :: line in LinesFor(dict, words, k) ==>
              exists e :: 0 <= e < k && line in MatchesBefore(dict[e].0, dict[e].1.id, words, |words|)
  {
    if k > 0 {
      var m := k - 1;
      LinesForSound(dict, words, m);
      var earlier, last := LinesFor(dict, words, m), MatchesBefore(dict[m].0, dict[m].1.id, words, |words|);
      assert LinesFor(dict, words, k) == earlier + last;
      forall line | line in earlier + last
        ensures exists e :: 0 <= e < k && line in MatchesBefore(dict[e].0, dict[e].1.id, words, |words|)
      {
        if line !in earlier {
          assert line in MatchesBefore(dict[m].0, dict[m].1.id, words, |words|);
        }
      }
    }
  }

  lemma {:induction false} LinesForIncludes(dict: MenuDict, words: seq<string>, k: nat, e: nat)
    requires e < k <= |dict|
    ensures forall line :: line in MatchesBefore(dict[e].0, dict[e].1.id, words, |words|) ==> line in LinesFor(dict, words, k)
  {
    var m := k - 1;
    var earlier, last := LinesFor(dict, words, m), MatchesBefore(dict[m].0, dict[m].1.id, words, |words|);
    assert LinesFor(dict, words, k) == earlier + last;
    if e < m {
      LinesForIncludes(dict, words, m, e);
    }
  }

  /** Every line comes from a single word of the utterance equal to the
      lower-cased name of the LAST menu item with that name (so that name holds
      no whitespace), and its quantity is exactly `int()` of the previous word,
      the last word standing in for position 0. */
  lemma ParseOrderSound(userMessage: string, menu: seq<MenuItem>)
    ensures forall line :: line in ParseOrder(userMessage, menu) ==>
              exists j, p :: 0 <= j < |menu| && 0 <= p < |Words(userMessage)|
                && line.menuItemId == menu[j].id && LastWithName(menu, j)
                && Words(userMessage)[p] == Lower(menu[j].name)
                && Lower(menu[j].name) != [] && NoSpace(Lower(menu[j].name))
                && ParseInt(PreviousWord(Words(userMessage), p)) == Some(line.quantity)
  {
    var dict := BuildMenuDict(menu);
    var words := Words(userMessage);
    LinesForSound(dict, words, |dict|);
    MenuDictSound(menu);
    SplitWords(Lower(userMessage));
    forall line | line in ParseOrder(userMessage, menu)
      ensures exists j, p :: 0 <= j < |menu| && 0 <= p < |words|
                && line.menuItemId == menu[j].id && LastWithName(menu, j)
                && words[p] == Lower(menu[j].name)
                && Lower(menu[j].name) != [] && NoSpace(Lower(menu[j].name))
                && ParseInt(PreviousWord(words, p)) == Some(line.quantity)
    {
      var e :| 0 <= e < |dict| && line in MatchesBefore(dict[e].0, dict[e].1.id, words, |words|);
      MatchesBeforeSound(dict[e].0, dict[e].1.id, words, |words|);
      var p :| 0 <= p < |words| && words[p] == dict[e].0 && ParseInt(PreviousWord(words, p)) == Some(line.quantity);
      assert dict[e] in dict;
      var j :| 0 <= j < |menu| && dict[e] == (Lower(menu[j].name), menu[j]) && LastWithName(menu, j);
      assert words[p] in words;
    }
  }

  /** Every occurrence of the name of the last menu item carrying it, preceded
      by a word that parses, yields its own line (occurrences are not merged). */
  lemma ParseOrderComplete(userMessage: string, menu: seq<MenuItem>, j: nat, p: nat)
    requires j < |menu| && LastWithName(menu, j)
    requires p < |Words(userMessage)| && Words(userMessage)[p] == Lower(menu[j].name)
    requires ParseInt(PreviousWord(Words(userMessage), p)).Some?
    ensures OrderItem(menu[j].id, ParseInt(PreviousWord(Words(userMessage), p)).value) in ParseOrder(userMessage, menu)
  {
    var dict := BuildMenuDict(menu);
    var words := Words(userMessage);
    MenuDictComplete(menu, j);
    var e :| 0 <= e < |dict| && dict[e] == (Lower(menu[j].name), menu[j]);
    MatchesBeforeComplete(dict[e].0, dict[e].1.id, words, |words|, p);
    LinesForIncludes(dict, words, |dict|, e);
  }

  /** At most one line per (menu item, word) pair. */
  lemma ParseOrderLength(userMessage: string, menu: seq<MenuItem>)
    ensures |ParseOrder(userMessage, menu)| <= |menu| * |Words(userMessage)|
  {
    var dict := BuildMenuDict(menu);
    LinesForLength(dict, Words(userMessage), |dict|);
    MenuDictSound(menu);
    MulLe(|dict|, |menu|, |Words(userMessage)|);
  }

  /** No two menu items share a lower-cased name. */
  predicate NamesDistinct(menu: seq<MenuItem>) {
    forall i, j :: 0 <= i < j < |menu| ==> Lower(menu[i].name) != Lower(menu[j].name)
  }

  /** No two menu items share an id. */
  predicate IdsDistinct(menu: seq<MenuItem>) {
    forall i, j :: 0 <= i < j < |menu| ==> menu[i].id != menu[j].id
  }

  lemma {:induction false} InsertNewKey(d: MenuDict, key: string, item: MenuItem)
    requires forall i :: 0 <= i < |d| ==> d[i].0 != key
    ensures Insert(d, key, item) == d + [(key, item)]
  {
    if d != [] {
      InsertNewKey(d[1..], key, item);
      assert [d[0]] + (d[1..] + [(key, item)]) == d + [(key, item)];
    }
  }

  /** With distinct lower-cased names the dict is the menu, in menu order. */
  lemma {:induction false} MenuDictInMenuOrder(menu: seq<MenuItem>)
    requires NamesDistinct(menu)
    ensures |BuildMenuDict(menu)| == |menu|
    ensures forall i :: 0 <= i < |menu| ==> BuildMenuDict(menu)[i] == (Lower(menu[i].name), menu[i])
  {
    if menu != [] {
      var n := |menu| - 1;
      var prefix := menu[..n];
      assert NamesDistinct(prefix);
      MenuDictInMenuOrder(prefix);
      InsertNewKey(BuildMenuDict(prefix), Lower(menu[n].name), menu[n]);
    }
  }

  /** Every line emitted for the first `k` dict entries carries the id of one of them. */
  lemma LinesForIds(dict: MenuDict, words: seq<string>, k: nat, line: OrderItem)
    requires k <= |dict| && line in LinesFor(dict, words, k)
    ensures exists e :: 0 <= e < k && line.menuItemId == dict[e].1.id
  {
    LinesForSound(dict, words, k);
    var e :| 0 <= e < k && line in MatchesBefore(dict[e].0, dict[e].1.id, words, |words|);
    MatchesBeforeSound(dict[e].0, dict[e].1.id, words, |words|);
  }

  /** With distinct ids, no line of an earlier entry `e1` follows a line of a later entry `e2`. */
  lemma {:induction false} LinesForOrder(dict: MenuDict, words: seq<string>, k: nat, e1: nat, e2: nat, x: nat, y: nat)
    requires k <= |dict| && e1 < e2 < k
    requires forall a, b :: 0 <= a < b < |dict| ==> dict[a].1.id != dict[b].1.id
    requires x < y < |LinesFor(dict, words, k)| && LinesFor(dict, words, k)[x].menuItemId == dict[e2].1.id
    ensures LinesFor(dict, words, k)[y].menuItemId != dict[e1].1.id
  {
    var m := k - 1;
    var earlier, last := LinesFor(dict, words, m), MatchesBefore(dict[m].0, dict[m].1.id, words, |words|);
    assert LinesFor(dict, words, k) == earlier + last;
    if y < |earlier| {
      if e2 == m {
        assert earlier[x] in earlier;
        LinesForIds(dict, words, m, earlier[x]);
      } else {
        LinesForOrder(dict, words, m, e1, e2, x, y);
      }
    } else {
      assert last[y - |earlier|] in last;
      MatchesBeforeSound(dict[m].0, dict[m].1.id, words, |words|);
    }
  }

  /** Output follows menu order: when names and ids are distinct, no line for
      an earlier menu item comes after a line for a later one. */
  lemma ParseOrderMenuOrder(userMessage: string, menu: seq<MenuItem>, j1: nat, j2: nat, x: nat, y: nat)
    requires NamesDistinct(menu) && IdsDistinct(menu) && j1 < j2 < |menu|
    requires x < y < |ParseOrder(userMessage, menu)|
    requires ParseOrder(userMessage, menu)[x].menuItemId == menu[j2].id
    ensures ParseOrder(userMessage, menu)[y].menuItemId != menu[j1].id
  {
    var dict := BuildMenuDict(menu);
    MenuDictInMenuOrder(menu);
    LinesForOrder(dict, Words(userMessage), |dict|, j1, j2, x, y);
  }

  /** Where a menu item with lower-cased name `key` first appears, or the menu's length. */
  function FirstNamed(menu: seq<MenuItem>, key: string): (j: nat)
    ensures j <= |menu|
    ensures forall k :: 0 <= k < j ==> Lower(menu[k].name) != key
    ensures j < |menu| ==> Lower(menu[j].name) == key
  {
    if menu == [] then 0
    else if Lower(menu[0].name) == key then 0
    else 1 + FirstNamed(menu[1..], key)
  }

  lemma {:induction false} FirstNamedAppend(menu: seq<MenuItem>, key: string)
    requires menu != []
    ensures var prefix := menu[..|menu| - 1];
            FirstNamed(prefix, key) < |prefix| ==> FirstNamed(menu, key) == FirstNamed(prefix, key)
    ensures var prefix := menu[..|menu| - 1];
            FirstNamed(prefix, key) == |prefix| ==> FirstNamed(menu, key) >= |prefix|
  {
    var prefix := menu[..|menu| - 1];
    var a := FirstNamed(prefix, key);
    if a < |prefix| {
      assert menu[a] == prefix[a];
      assert forall k :: 0 <= k < a ==> menu[k] == prefix[k];
    } else {
      assert forall k :: 0 <= k < |prefix| ==> menu[k] == prefix[k];
    }
  }

  /** Every key of `d` is the lower-cased name of some item of `menu`. */
  predicate KeysNamed(menu: seq<MenuItem>, d: MenuDict) {
    forall e :: 0 <= e < |d| ==> FirstNamed(menu, d[e].0) < |menu|
  }

  /** Every item's lower-cased name is a key of `d`. */
  predicate NamesKeyed(menu: seq<MenuItem>, d: MenuDict) {
    forall j :: 0 <= j < |menu| ==> KeyIndex(d, Lower(menu[j].name)) < |d|
  }

  /** Keys stand in the order in which their names first appear in `menu`. */
  predicate KeysFirstOrdered(menu: seq<MenuItem>, d: MenuDict) {
    forall e1, e2 :: 0 <= e1 < e2 < |d| ==> FirstNamed(menu, d[e1].0) < FirstNamed(menu, d[e2].0)
  }

  predicate FirstOrdered(menu: seq<MenuItem>, d: MenuDict) {
    KeysNamed(menu, d) && NamesKeyed(menu, d) && KeysFirstOrdered(menu, d)
  }

  lemma {:induction false} FirstNamedKept(menu: seq<MenuItem>, d: MenuDict)
    requires menu != [] && KeysNamed(menu[..|menu| - 1], d)
    ensures forall e :: 0 <= e < |d| ==> FirstNamed(menu, d[e].0) == FirstNamed(menu[..|menu| - 1], d[e].0) < |menu| - 1
  {
    forall e | 0 <= e < |d|
      ensures FirstNamed(menu, d[e].0) == FirstNamed(menu[..|menu| - 1], d[e].0) < |menu| - 1
    {
      FirstNamedAppend(menu, d[e].0);
    }
  }

  lemma KeyIndexFound(d: MenuDict, key: string, e: nat)
    requires e < |d| && d[e].0 == key
    ensures KeyIndex(d, key) <= e
  {
  }

  /** Assigning a key the dict holds changes no key; a new key is appended. */
  lemma InsertKeys(d: MenuDict, key: string, item: MenuItem)
    ensures var r := Insert(d, key, item);
            |r| == (if KeyIndex(d, key) < |d| then |d| else |d| + 1)
            && (forall e :: 0 <= e < |d| ==> r[e].0 == d[e].0)
            && r[KeyIndex(d, key)].0 == key
  {
    InsertAt(d, key, item);
  }

  /** A name new to the prefix first appears at the end of the menu. */
  lemma {:induction false} NewNameLast(menu: seq<MenuItem>, d: MenuDict)
    requires menu != [] && NamesKeyed(menu[..|menu| - 1], d)
    requires KeyIndex(d, Lower(menu[|menu| - 1].name)) == |d|
    ensures FirstNamed(menu, Lower(menu[|menu| - 1].name)) == |menu| - 1
  {
    var n := |menu| - 1;
    var prefix, key := menu[..n], Lower(menu[n].name);
    forall j | 0 <= j < n
      ensures Lower(prefix[j].name) != key
    {
      assert KeyIndex(d, Lower(prefix[j].name)) < |d|;
    }
    FirstNamedAppend(menu, key);
  }

  lemma {:induction false} StepKeysNamed(menu: seq<MenuItem>, d: MenuDict)
    requires menu != [] && KeysNamed(menu[..|menu| - 1], d)
    ensures KeysNamed(menu, Insert(d, Lower(menu[|menu| - 1].name), menu[|menu| - 1]))
  {
    var n := |menu| - 1;
    var key := Lower(menu[n].name);
    var r := Insert(d, key, menu[n]);
    FirstNamedKept(menu, d);
    InsertKeys(d, key, menu[n]);
    forall e | 0 <= e < |r|
      ensures FirstNamed(menu, r[e].0) < |menu|
    {
      if e < |d| {
        assert r[e].0 == d[e].0;
      } else {
        assert r[e].0 == key;
      }
    }
  }

  lemma {:induction false} StepNamesKeyed(menu: seq<MenuItem>, d: MenuDict)
    requires menu != [] && NamesKeyed(menu[..|menu| - 1], d)
    ensures NamesKeyed(menu, Insert(d, Lower(menu[|menu| - 1].name), menu[|menu| - 1]))
  {
    var n := |menu| - 1;
    var prefix, key := menu[..n], Lower(menu[n].name);
    var r := Insert(d, key, menu[n]);
    InsertKeys(d, key, menu[n]);
    forall j | 0 <= j < |menu|
      ensures KeyIndex(r, Lower(menu[j].name)) < |r|
    {
      if j < n {
        assert menu[j] == prefix[j];
        var e := KeyIndex(d, Lower(prefix[j].name));
        KeyIndexFound(r, Lower(menu[j].name), e);
      } else {
        KeyIndexFound(r, key, KeyIndex(d, key));
      }
    }
  }

  lemma {:induction false} StepKeysFirstOrdered(menu: seq<MenuItem>, d: MenuDict)
    requires menu != [] && KeysNamed(menu[..|menu| - 1], d) && KeysFirstOrdered(menu[..|menu| - 1], d)
    requires KeyIndex(d, Lower(menu[|menu| - 1].name)) == |d| ==> FirstNamed(menu, Lower(menu[|menu| - 1].name)) == |menu| - 1
    ensures KeysFirstOrdered(menu, Insert(d, Lower(menu[|menu| - 1].name), menu[|menu| - 1]))
  {
    var n := |menu| - 1;
    var key := Lower(menu[n].name);
    var r := Insert(d, key, menu[n]);
    FirstNamedKept(menu, d);
    InsertKeys(d, key, menu[n]);
    forall e1, e2 | 0 <= e1 < e2 < |r|
      ensures FirstNamed(menu, r[e1].0) < FirstNamed(menu, r[e2].0)
    {
      assert r[e1].0 == d[e1].0;
      if e2 < |d| {
        assert r[e2].0 == d[e2].0;
      } else {
        assert r[e2].0 == key;
      }
    }
  }

  /** Dict order is the order in which names first appear in the menu: a name
      seen again later updates its entry's value but not its position. */
  lemma {:induction false} MenuDictFirstOrder(menu: seq<MenuItem>)
    ensures FirstOrdered(menu, BuildMenuDict(menu))
  {
    if menu != [] {
      var n := |menu| - 1;
      var d := BuildMenuDict(menu[..n]);
      MenuDictFirstOrder(menu[..n]);
      StepKeysNamed(menu, d);
      StepNamesKeyed(menu, d);
      if KeyIndex(d, Lower(menu[n].name)) == |d| {
        NewNameLast(menu, d);
      }
      StepKeysFirstOrdered(menu, d);
    }
  }

  /** With distinct ids, entries of the dict carry distinct ids. */
  lemma {:induction false} MenuDictIdsDistinct(menu: seq<MenuItem>)
    requires IdsDistinct(menu)
    ensures forall a, b :: 0 <= a < b < |BuildMenuDict(menu)| ==> BuildMenuDict(menu)[a].1.id != BuildMenuDict(menu)[b].1.id
  {
    var dict := BuildMenuDict(menu);
    MenuDictSound(menu);
    forall a, b | 0 <= a < b < |dict|
      ensures dict[a].1.id != dict[b].1.id
    {
      assert dict[a] in dict && dict[b] in dict;
      var ja :| 0 <= ja < |menu| && dict[a] == (Lower(menu[ja].name), menu[ja]) && LastWithName(menu, ja);
      var jb :| 0 <= jb < |menu| && dict[b] == (Lower(menu[jb].name), menu[jb]) && LastWithName(menu, jb);
      assert ja != jb;
    }
  }

  /** The dict entries of two last-with-name items stand in the order in which
      their names first appear. */
  lemma {:induction false} DictEntriesOrdered(menu: seq<MenuItem>, j1: nat, j2: nat) returns (e1: nat, e2: nat)
    requires j1 < |menu| && j2 < |menu| && LastWithName(menu, j1) && LastWithName(menu, j2)
    requires FirstNamed(menu, Lower(menu[j1].name)) < FirstNamed(menu, Lower(menu[j2].name))
    ensures e1 < e2 < |BuildMenuDict(menu)|
    ensures BuildMenuDict(menu)[e1].1 == menu[j1] && BuildMenuDict(menu)[e2].1 == menu[j2]
  {
    e1 := EntryOf(menu, j1);
    e2 := EntryOf(menu, j2);
    MenuDictFirstOrder(menu);
    EntriesInFirstOrder(menu, BuildMenuDict(menu), e1, e2);
  }

  /** Where the dict holds a last-with-name item. */
  lemma EntryOf(menu: seq<MenuItem>, j: nat) returns (e: nat)
    requires j < |menu| && LastWithName(menu, j)
    ensures e < |BuildMenuDict(menu)| && BuildMenuDict(menu)[e] == (Lower(menu[j].name), menu[j])
  {
    MenuDictComplete(menu, j);
    var dict := BuildMenuDict(menu);
    e :| 0 <= e < |dict| && dict[e] == (Lower(menu[j].name), menu[j]);
  }

  lemma EntriesInFirstOrder(menu: seq<MenuItem>, d: MenuDict, e1: nat, e2: nat)
    requires KeysFirstOrdered(menu, d) && e1 < |d| && e2 < |d|
    requires FirstNamed(menu, d[e1].0) < FirstNamed(menu, d[e2].0)
    ensures e1 < e2
  {
  }

  /** Output follows dict order for every menu, repeated names included: when
      ids are distinct, no line for the item whose name first appears earlier
      comes after a line for an item whose name first appears later. The
      items in question are the last ones with their names, which the dict holds. */
  lemma {:induction false} ParseOrderFirstNameOrder(userMessage: string, menu: seq<MenuItem>, j1: nat, j2: nat, x: nat, y: nat)
    requires IdsDistinct(menu) && j1 < |menu| && j2 < |menu|
    requires LastWithName(menu, j1) && LastWithName(menu, j2)
    requires FirstNamed(menu, Lower(menu[j1].name)) < FirstNamed(menu, Lower(menu[j2].name))
    requires x < y < |ParseOrder(userMessage, menu)|
    requires ParseOrder(userMessage, menu)[x].menuItemId == menu[j2].id
    ensures ParseOrder(userMessage, menu)[y].menuItemId != menu[j1].id
  {
    var e1, e2 := DictEntriesOrdered(menu, j1, j2);
    MenuDictIdsDistinct(menu);
    LinesForOrder(BuildMenuDict(menu), Words(userMessage), |BuildMenuDict(menu)|, e1, e2, x, y);
  }

  /** The positions before `n` where `name` stands right after a word `int()`
      accepts, in increasing order, each such position exactly once. */
  function Hits(name: string, words: seq<string>, n: nat): (ps: seq<nat>)
    requires n <= |words|
    ensures forall i :: 0 <= i < |ps| ==>
              ps[i] < n && words[ps[i]] == name && ParseInt(PreviousWord(words, ps[i])).Some?
    ensures forall i, k :: 0 <= i < k < |ps| ==> ps[i] < ps[k]
    ensures forall p :: 0 <= p < n && words[p] == name && ParseInt(PreviousWord(words, p)).Some? ==> p in ps
  {
    if n == 0 then []
    else
      var p := n - 1;
      Hits(name, words, p) + (if words[p] == name && ParseInt(PreviousWord(words, p)).Some? then [p] else [])
  }

  /** `lines` pairs off with the positions `ps`: line i is the one the word at
      `ps[i]` yields, its quantity `int()` of the word before. */
  predicate Paired(lines: seq<OrderItem>, ps: seq<nat>, id: string, words: seq<string>) {
    && |lines| == |ps|
    && forall i :: 0 <= i < |ps| ==>
         && ps[i] < |words| && ParseInt(PreviousWord(words, ps[i])).Some?
         && lines[i] == OrderItem(id, ParseInt(PreviousWord(words, ps[i])).value)
  }

  lemma PairedAppend(lines: seq<OrderItem>, ps: seq<nat>, id: string, words: seq<string>, p: nat)
    requires Paired(lines, ps, id, words) && p < |words| && ParseInt(PreviousWord(words, p)).Some?
    ensures Paired(lines + [OrderItem(id, ParseInt(PreviousWord(words, p)).value)], ps + [p], id, words)
  {
  }

  /** One dict entry contributes one line per hit, in word order, each with
      `int()` of the word before it. */
  lemma {:induction false} MatchesBeforeHits(name: string, id: string, words: seq<string>, n: nat)
    requires n <= |words|
    ensures Paired(MatchesBefore(name, id, words, n), Hits(name, words, n), id, words)
  {
    if n > 0 {
      var p := n - 1;
      var quantity := ParseInt(PreviousWord(words, p));
      var lines, ps := MatchesBefore(name, id, words, p), Hits(name, words, p);
      MatchesBeforeHits(name, id, words, p);
      if words[p] == name && quantity.Some? {
        PairedAppend(lines, ps, id, words, p);
        assert MatchesBefore(name, id, words, n) == lines + [OrderItem(id, quantity.value)];
        assert Hits(name, words, n) == ps + [p];
      } else {
        assert MatchesBefore(name, id, words, n) == lines;
        assert Hits(name, words, n) == ps;
      }
    }
  }

  /** The lines of `lines` for the menu item `id`, in their order. */
  function LinesOf(lines: seq<OrderItem>, id: string): (r: seq<OrderItem>)
    ensures |r| <= |lines|
    ensures forall i :: 0 <= i < |r| ==> r[i].menuItemId == id
  {
    if lines == [] then []
    else
      var last := lines[|lines| - 1];
      LinesOf(lines[..|lines| - 1], id) + (if last.menuItemId == id then [last] else [])
  }

  /** `LinesOf` keeps exactly the lines for `id`. */
  lemma {:induction false} LinesOfMembers(lines: seq<OrderItem>, id: string)
    ensures forall line :: line in LinesOf(lines, id) <==> line in lines && line.menuItemId == id
  {
    if lines != [] {
      var n := |lines| - 1;
      var init := lines[..n];
      LinesOfMembers(init, id);
      assert lines == init + [lines[n]];
    }
  }

  lemma {:induction false} LinesOfAppend(a: seq<OrderItem>, b: seq<OrderItem>, id: string)
    ensures LinesOf(a + b, id) == LinesOf(a, id) + LinesOf(b, id)
    decreases |b|
  {
    if b == [] {
      assert a + b == a;
    } else {
      var b', last := b[..|b| - 1], b[|b| - 1];
      var tail := if last.menuItemId == id then [last] else [];
      LinesOfAppend(a, b', id);
      assert (a + b)[..|a + b| - 1] == a + b' && (a + b)[|a + b| - 1] == last;
      assert LinesOf(a + b, id) == LinesOf(a + b', id) + tail;
      assert LinesOf(b, id) == LinesOf(b', id) + tail;
    }
  }

  lemma {:induction false} LinesOfAll(lines: seq<OrderItem>, id: string)
    requires forall i :: 0 <= i < |lines| ==> lines[i].menuItemId == id
    ensures LinesOf(lines, id) == lines
  {
    if lines != [] {
      var n := |lines| - 1;
      var init, last := lines[..n], lines[n];
      assert LinesOf(init, id) == init by {
        assert forall i :: 0 <= i < n ==> init[i].menuItemId == id;
        LinesOfAll(init, id);
      }
      assert lines == init + [last] && last.menuItemId == id;
      assert LinesOf(lines, id) == LinesOf(init, id) + [last];
    }
  }

  lemma LinesOfNone(lines: seq<OrderItem>, id: string)
    requires forall line :: line in lines ==> line.menuItemId != id
    ensures LinesOf(lines, id) == []
  {
    LinesOfMembers(lines, id);
    if LinesOf(lines, id) != [] {
      assert LinesOf(lines, id)[0] in LinesOf(lines, id);
    }
  }

  lemma {:induction false} MatchesBeforeIds(name: string, id: string, words: seq<string>, n: nat)
    requires n <= |words|
    ensures forall i :: 0 <= i < |MatchesBefore(name, id, words, n)| ==> MatchesBefore(name, id, words, n)[i].menuItemId == id
  {
    if n > 0 {
      MatchesBeforeIds(name, id, words, n - 1);
    }
  }

  /** When exactly one dict entry `e0` carries `id`, the lines for `id` are that entry's. */
  lemma {:induction false} LinesForOf(dict: MenuDict, words: seq<string>, k: nat, e0: nat, id: string)
    requires k <= |dict| && e0 < |dict| && dict[e0].1.id == id
    requires forall e :: 0 <= e < |dict| && e != e0 ==> dict[e].1.id != id
    ensures LinesOf(LinesFor(dict, words, k), id)
            == if e0 < k then MatchesBefore(dict[e0].0, id, words, |words|) else []
  {
    if k > 0 {
      var m := k - 1;
      var earlier, last := LinesFor(dict, words, m), MatchesBefore(dict[m].0, dict[m].1.id, words, |words|);
      assert LinesFor(dict, words, k) == earlier + last;
      LinesForOf(dict, words, m, e0, id);
      LinesOfAppend(earlier, last, id);
      MatchesBeforeIds(dict[m].0, dict[m].1.id, words, |words|);
      if m == e0 {
        LinesOfAll(last, id);
      } else {
        LinesOfNone(last, id);
      }
    }
  }

  /** Per menu item, with distinct ids: the item's lines in the output are
      exactly one per occurrence of its name after a word that parses, in word
      order, never merged, each with that word's value. */
  lemma ParseOrderPerItem(userMessage: string, menu: seq<MenuItem>, j: nat)
    requires IdsDistinct(menu) && j < |menu| && LastWithName(menu, j)
    ensures var words := Words(userMessage);
            var ps := Hits(Lower(menu[j].name), words, |words|);
            var mine := LinesOf(ParseOrder(userMessage, menu), menu[j].id);
            |mine| == |ps|
            && forall i :: 0 <= i < |ps| ==> mine[i] == OrderItem(menu[j].id, ParseInt(PreviousWord(words, ps[i])).value)
  {
    var dict := BuildMenuDict(menu);
    var words := Words(userMessage);
    var entry := (Lower(menu[j].name), menu[j]);
    MenuDictComplete(menu, j);
    MenuDictSound(menu);
    var e0 :| 0 <= e0 < |dict| && dict[e0] == entry;
    forall e | 0 <= e < |dict| && e != e0
      ensures dict[e].1.id != menu[j].id
    {
      assert dict[e] in dict;
      var k :| 0 <= k < |menu| && dict[e] == (Lower(menu[k].name), menu[k]) && LastWithName(menu, k);
    }
    LinesForOf(dict, words, |dict|, e0, menu[j].id);
    MatchesBeforeHits(entry.0, menu[j].id, words, |words|);
  }

  lemma MulStep(m: nat, w: nat)
    ensures m * w + w == (m + 1) * w
  {
  }

  lemma MulLe(a: nat, b: nat, c: nat)
    requires a <= b
    ensures a * c <= b * c
  {
  }

  /** A menu item whose every carrier of its id has a multi-word name never
      appears in the result. */
  lemma MultiWordNamesNeverMatch(userMessage: string, menu: seq<MenuItem>, id: string)
    requires forall j :: 0 <= j < |menu| && menu[j].id == id ==> !NoSpace(menu[j].name)
    ensures forall line :: line in ParseOrder(userMessage, menu) ==> line.menuItemId != id
  {
    ParseOrderSound(userMessage, menu);
    forall j | 0 <= j < |menu|
      ensures NoSpace(Lower(menu[j].name)) <==> NoSpace(menu[j].name)
    {
      LowerKeepsSpaces(menu[j].name);
    }
  }

  /** An item whose lower-cased name reappears later in the menu is shadowed by
      the later one: when no other item shares its id, that id never appears. */
  lemma ShadowedItemNeverMatches(userMessage: string, menu: seq<MenuItem>, id: string)
    requires forall j :: 0 <= j < |menu| && menu[j].id == id ==> !LastWithName(menu, j)
    ensures forall line :: line in ParseOrder(userMessage, menu) ==> line.menuItemId != id
  {
    ParseOrderSound(userMessage, menu);
  }

  // ================================================================ extract_customer_info

  /** One `(msg_type, msg_content)` entry of the chat history. */
  datatype Turn = Turn(role: string, content: string)

  /** `customer_info`: the captured name and the (always empty) previous orders. */
  datatype CustomerInfo = CustomerInfo(name: Option<string>, previousOrders: seq<string>)

  const Phrase := "my name is"

  /** `"my name is" in msg_content.lower()`. */
  predicate HasPhrase(content: string) {
    FindFrom(Lower(content), Phrase, 0).Some?
  }

  /** Python's `in` on strings: the phrase occurs somewhere in the lower-cased text. */
  lemma HasPhraseIff(content: string)
    ensures HasPhrase(content) <==> exists p :: OccursAt(Lower(content), Phrase, p)
  {
  }

  predicate Mentions(t: Turn) {
    t.role == "user" && HasPhrase(t.content)
  }

  /** Where the name starts: just after the first "my name is", found case-insensitively. */
  function NameStart(content: string): (start: nat)
    requires HasPhrase(content)
    ensures |Phrase| <= start <= |content|
  {
    FindFrom(Lower(content), Phrase, 0).value + |Phrase|
  }

  /** Where the name ends: the next "." from `start`, or the end of the text. */
  function NameEnd(content: string, start: nat): (end: nat)
    requires start <= |content|
    ensures start <= end <= |content|
  {
    match FindFrom(content, ".", start)
    case Some(e) => e
    case None => |content|
  }

  /** The text after the first "my name is" up to the next "." or the end, stripped. */
  function CaptureName(content: string): string
    requires HasPhrase(content)
  {
    var start := NameStart(content);
    Strip(content[start..NameEnd(content, start)])
  }

  /** The name one turn sets, if it is a user turn that mentions the phrase. */
  function NameIn(t: Turn): (r: Option<string>)
    ensures r.Some? <==> Mentions(t)
  {
    if Mentions(t) then Some(CaptureName(t.content)) else None
  }

  /** The name each turn of the history sets, turn by turn. */
  function Captures(history: seq<Turn>): (c: seq<Option<string>>)
    ensures |c| == |history|
    ensures forall i :: 0 <= i < |history| ==> c[i] == NameIn(history[i])
  {
    seq(|history|, i requires 0 <= i < |history| => NameIn(history[i]))
  }

  /** Folding options left to right, each `Some` overwriting the value so far. */
  function LastSome<T>(s: seq<Option<T>>): Option<T> {
    if s == [] then None
    else if s[|s| - 1].Some? then s[|s| - 1]
    else LastSome(s[..|s| - 1])
  }

  /** The name after folding the turns in order, later mentions overwriting earlier ones. */
  function NameFrom(history: seq<Turn>): Option<string> {
    LastSome(Captures(history))
  }

  /** `extract_customer_info(chat_history)`. */
  method ExtractCustomerInfo(chatHistory: seq<Turn>) returns (customerInfo: CustomerInfo)
    ensures customerInfo == CustomerInfo(NameFrom(chatHistory), [])
  {
    ghost var captures := Captures(chatHistory);
    customerInfo := CustomerInfo(None, []);
    var i := 0;
    while i < |chatHistory|
      invariant 0 <= i <= |chatHistory|
      invariant customerInfo == CustomerInfo(LastSome(captures[..i]), [])
    {
      var msgType, msgContent := chatHistory[i].role, chatHistory[i].content;
      var found := FindFrom(Lower(msgContent), Phrase, 0);
      if msgType == "user" && found.Some? {
        var nameStart := found.value + |Phrase|;
        var dot := FindFrom(msgContent, ".", nameStart);
        var nameEnd := if dot.None? then |msgContent| else dot.value;
        customerInfo := customerInfo.(name := Some(Strip(msgContent[nameStart..nameEnd])));
        assert Mentions(chatHistory[i]);
        assert nameStart == NameStart(msgContent);
        assert nameEnd == NameEnd(msgContent, nameStart);
        assert customerInfo.name == NameIn(chatHistory[i]);
      } else {
        assert !Mentions(chatHistory[i]);
      }
      LastSomeStep(captures, i);
      i := i + 1;
    }
    assert captures[..i] == captures;
  }

  lemma LastSomeStep<T>(s: seq<Option<T>>, i: nat)
    requires i < |s|
    ensures LastSome(s[..i + 1]) == if s[i].Some? then s[i] else LastSome(s[..i])
  {
    assert s[..i + 1][..i] == s[..i];
  }

  lemma {:induction false} LastSomeNone<T>(s: seq<Option<T>>)
    ensures LastSome(s).None? <==> forall j :: 0 <= j < |s| ==> s[j].None?
  {
    if s != [] {
      var n := |s| - 1;
      LastSomeNone(s[..n]);
      assert forall j :: 0 <= j < n ==> s[..n][j] == s[j];
    }
  }

  lemma {:induction false} LastSomeWins<T>(s: seq<Option<T>>)
    requires LastSome(s).Some?
    ensures exists j :: 0 <= j < |s| && s[j] == LastSome(s) && forall k :: j < k < |s| ==> s[k].None?
  {
    var n := |s| - 1;
    if s[n].None? {
      var prefix := s[..n];
      assert LastSome(s) == LastSome(prefix);
      LastSomeWins(prefix);
      var j :| 0 <= j < n && prefix[j] == LastSome(prefix) && forall k :: j < k < n ==> prefix[k].None?;
      assert forall k :: j < k < n ==> prefix[k] == s[k];
      assert s[j] == LastSome(s) && forall k :: j < k < |s| ==> s[k].None?;
    } else {
      assert s[n] == LastSome(s);
    }
  }

  /** No name is captured exactly when no user turn mentions "my name is". */
  lemma NameNoneIff(history: seq<Turn>)
    ensures NameFrom(history).None? <==> forall j :: 0 <= j < |history| ==> !Mentions(history[j])
  {
    LastSomeNone(Captures(history));
  }

  /** Last wins: a captured name is the one the last mentioning user turn sets. */
  lemma NameLastWins(history: seq<Turn>)
    requires NameFrom(history).Some?
    ensures exists j :: 0 <= j < |history| && NameIn(history[j]) == NameFrom(history)
                        && forall k :: j < k < |history| ==> !Mentions(history[k])
  {
    LastSomeWins(Captures(history));
  }

  /** The unstripped capture holds no ".". */
  lemma CaptureSliceNoDot(content: string)
    requires HasPhrase(content)
    ensures '.' !in content[NameStart(content)..NameEnd(content, NameStart(content))]
  {
    var start := NameStart(content);
    var end := NameEnd(content, start);
    forall k | start <= k < end
      ensures content[k] != '.'
    {
      assert !OccursAt(content, ".", k);
      assert content[k..k + 1] == [content[k]];
    }
  }

  /** A captured name holds no "." and no surrounding whitespace. */
  lemma CapturedNameShape(content: string)
    requires HasPhrase(content)
    ensures '.' !in CaptureName(content)
    ensures var name := CaptureName(content);
            name == [] || (!IsSpace(name[0]) && !IsSpace(name[|name| - 1]))
  {
    var start := NameStart(content);
    CaptureSliceNoDot(content);
    StripKeepsAbsent(content[start..NameEnd(content, start)], '.');
  }

  /** A captured name is a slice of the message after the phrase. */
  lemma CapturedNameIsSlice(content: string)
    requires HasPhrase(content)
    ensures exists i, j :: |Phrase| <= i <= j <= |content| && content[i..j] == CaptureName(content)
  {
    var start := NameStart(content);
    var slice := content[start..NameEnd(content, start)];
    var i, name := StripStart(slice), Strip(slice);
    SliceOfSlice(content, start, NameEnd(content, start), i, i + |name|);
  }

  lemma SliceOfSlice(s: string, a: nat, b: nat, i: nat, j: nat)
    requires a <= b <= |s| && i <= j <= b - a
    ensures s[a..b][i..j] == s[a + i..a + j]
  {
    assert forall k :: 0 <= k < j - i ==> s[a..b][i..j][k] == s[a + i + k];
  }
}
