/** Concrete runs of the two agent parsers on the restaurant's five-item menu:
    the Python quirks of `parse_order_request` (index -1, signed `int()`,
    unmerged repeats, whole-word names) and the last-wins name capture of
    `extract_customer_info`. */
module AgentScenarios {
  import opened PyText
  import opened LangGraphDb
  import opened LangGraphAgent

  lemma MenuNamesLowered()
    ensures Lower(Menu[0].name) == "pizza margherita"
    ensures Lower(Menu[1].name) == "burger"
    ensures Lower(Menu[2].name) == "caesar salad"
    ensures Lower(Menu[3].name) == "pasta carbonara"
    ensures Lower(Menu[4].name) == "tiramisu"
  {
    LowerLiteral("Pizza Margherita", "pizza margherita");
    LowerLiteral("Burger", "burger");
    LowerLiteral("Caesar Salad", "caesar salad");
    LowerLiteral("Pasta Carbonara", "pasta carbonara");
    LowerLiteral("Tiramisu", "tiramisu");
  }

  lemma LowerLiteral(s: string, t: string)
    requires |s| == |t| && forall i :: 0 <= i < |s| ==> LowerChar(s[i]) == t[i]
    ensures Lower(s) == t
  {
  }

  lemma MenuDistinct()
    ensures NamesDistinct(Menu) && IdsDistinct(Menu)
  {
    MenuNamesLowered();
  }

  /** `menu_dict` for the restaurant's menu: every item under its lower-cased name, in menu order. */
  lemma MenuDictOfMenu()
    ensures BuildMenuDict(Menu) == [("pizza margherita", Menu[0]), ("burger", Menu[1]), ("caesar salad", Menu[2]),
                                    ("pasta carbonara", Menu[3]), ("tiramisu", Menu[4])]
  {
    MenuDistinct();
    MenuNamesLowered();
    MenuDictInMenuOrder(Menu);
  }

  lemma {:induction false} NoMatchBefore(name: string, id: string, words: seq<string>, n: nat)
    requires n <= |words| && forall i :: 0 <= i < n ==> words[i] != name
    ensures MatchesBefore(name, id, words, n) == []
  {
    if n > 0 {
      NoMatchBefore(name, id, words, n - 1);
    }
  }

  lemma NoMatch(name: string, id: string, words: seq<string>, n: nat)
    requires n <= |words| && name !in words
    ensures MatchesBefore(name, id, words, n) == []
  {
    assert forall i :: 0 <= i < n ==> words[i] in words;
    NoMatchBefore(name, id, words, n);
  }

  /** A name found at one position only yields one line, its quantity the previous word. */
  lemma {:induction false} SingleMatch(name: string, id: string, words: seq<string>, n: nat, p: nat, q: int)
    requires p < n <= |words| && words[p] == name
    requires forall i :: 0 <= i < |words| && i != p ==> words[i] != name
    requires ParseInt(PreviousWord(words, p)) == Some(q)
    ensures MatchesBefore(name, id, words, n) == [OrderItem(id, q)]
  {
    if n - 1 == p {
      NoMatchBefore(name, id, words, p);
    } else {
      SingleMatch(name, id, words, n - 1, p, q);
    }
  }

  lemma MultiWordAbsent(userMessage: string, name: string, k: nat)
    requires k < |name| && IsSpace(name[k])
    ensures name !in Words(userMessage)
  {
    SplitWords(Lower(userMessage));
  }

  /** On the restaurant's menu only the one-word names "burger" and "tiramisu"
      can ever match, burger lines first. */
  lemma ParseOrderOnMenu(userMessage: string)
    ensures var words := Words(userMessage);
            ParseOrder(userMessage, Menu)
            == MatchesBefore("burger", "2", words, |words|) + MatchesBefore("tiramisu", "5", words, |words|)
  {
    var words := Words(userMessage);
    var d := BuildMenuDict(Menu);
    MenuDictOfMenu();
    MultiWordAbsent(userMessage, "pizza margherita", 5);
    MultiWordAbsent(userMessage, "caesar salad", 6);
    MultiWordAbsent(userMessage, "pasta carbonara", 5);
    NoMatch("pizza margherita", "1", words, |words|);
    NoMatch("caesar salad", "3", words, |words|);
    NoMatch("pasta carbonara", "4", words, |words|);
    assert LinesFor(d, words, 1) == [];
    assert LinesFor(d, words, 2) == MatchesBefore("burger", "2", words, |words|);
    assert LinesFor(d, words, 3) == LinesFor(d, words, 2);
    assert LinesFor(d, words, 4) == LinesFor(d, words, 3);
  }

  lemma IntWords()
    ensures ParseInt("1") == Some(1) && ParseInt("2") == Some(2)
    ensures ParseInt("0") == Some(0) && ParseInt("-3") == Some(-3)
    ensures ParseInt("two") == None
  {
    assert "-3"[1..] == "3";
  }

  /** The first word's quantity is the last word (`words[-1]`): "Burger 2" orders two burgers. */
  lemma FirstWordReadsLast(userMessage: string)
    requires Words(userMessage) == ["burger", "2"]
    ensures ParseOrder(userMessage, Menu) == [OrderItem("2", 2)]
  {
    var words := Words(userMessage);
    ParseOrderOnMenu(userMessage);
    IntWords();
    assert MatchesBefore("burger", "2", words, 1) == [OrderItem("2", 2)];
    NoMatch("tiramisu", "5", words, 2);
  }

  lemma SentenceWords()
    ensures Words(Join(["I", "want", "2", "burgers", "and", "1", "pizza"], ' '))
            == ["i", "want", "2", "burgers", "and", "1", "pizza"]
  {
    var ws := ["I", "want", "2", "burgers", "and", "1", "pizza"];
    var lower := ["i", "want", "2", "burgers", "and", "1", "pizza"];
    forall i | 0 <= i < |ws|
      ensures ws[i] != [] && NoSpace(ws[i]) && Lower(ws[i]) == lower[i]
    {
    }
    WordsOfJoin(ws);
  }

  /** "I want 2 burgers and 1 pizza" orders nothing: "burgers" is not "burger",
      and "pizza" is only half of "pizza margherita". */
  lemma PluralAndPartialNamesIgnored(userMessage: string)
    requires Words(userMessage) == ["i", "want", "2", "burgers", "and", "1", "pizza"]
    ensures ParseOrder(userMessage, Menu) == []
  {
    var words := Words(userMessage);
    ParseOrderOnMenu(userMessage);
    NoMatch("burger", "2", words, |words|);
    NoMatch("tiramisu", "5", words, |words|);
  }

  /** Menu order wins over utterance order, and each quantity is the word before. */
  lemma MenuOrderWins(userMessage: string)
    requires Words(userMessage) == ["1", "tiramisu", "2", "burger"]
    ensures ParseOrder(userMessage, Menu) == [OrderItem("2", 2), OrderItem("5", 1)]
  {
    var words := Words(userMessage);
    ParseOrderOnMenu(userMessage);
    IntWords();
    SingleMatch("burger", "2", words, |words|, 3, 2);
    SingleMatch("tiramisu", "5", words, |words|, 1, 1);
  }

  /** Repeated mentions are not merged: each yields its own line. */
  lemma RepeatsNotMerged(userMessage: string)
    requires Words(userMessage) == ["1", "burger", "1", "burger"]
    ensures ParseOrder(userMessage, Menu) == [OrderItem("2", 1), OrderItem("2", 1)]
  {
    var words := Words(userMessage);
    ParseOrderOnMenu(userMessage);
    IntWords();
    assert MatchesBefore("burger", "2", words, 1) == [];
    assert MatchesBefore("burger", "2", words, 2) == [OrderItem("2", 1)];
    assert MatchesBefore("burger", "2", words, 3) == [OrderItem("2", 1)];
    NoMatch("tiramisu", "5", words, |words|);
  }

  /** Quantities are not checked for positivity: "-3" and "0" are taken as they are. */
  lemma NegativeAndZeroQuantities(userMessage: string)
    requires Words(userMessage) == ["-3", "burger", "0", "tiramisu"]
    ensures ParseOrder(userMessage, Menu) == [OrderItem("2", -3), OrderItem("5", 0)]
  {
    var words := Words(userMessage);
    ParseOrderOnMenu(userMessage);
    IntWords();
    SingleMatch("burger", "2", words, |words|, 1, -3);
    SingleMatch("tiramisu", "5", words, |words|, 3, 0);
  }

  /** A quantity word `int()` rejects drops the mention silently. */
  lemma UnparsedQuantitySkipped(userMessage: string)
    requires Words(userMessage) == ["two", "burger"]
    ensures ParseOrder(userMessage, Menu) == []
  {
    var words := Words(userMessage);
    ParseOrderOnMenu(userMessage);
    IntWords();
    assert MatchesBefore("burger", "2", words, 1) == [];
    NoMatch("tiramisu", "5", words, |words|);
  }

  /** A message opening with the phrase in any letter case, then a space, the
      name and a full stop, captures exactly the name. */
  lemma CaptureAtStart(content: string, name: string)
    requires |content| == |Phrase| + |name| + 2 && Lower(content[..|Phrase|]) == Phrase
    requires content[|Phrase|..] == [' '] + name + ['.']
    requires '.' !in name && (name == [] || (!IsSpace(name[0]) && !IsSpace(name[|name| - 1])))
    ensures HasPhrase(content) && CaptureName(content) == name
  {
    var n := |Phrase|;
    assert Lower(content)[..n] == Lower(content[..n]);
    assert OccursAt(Lower(content), Phrase, 0);
    var dot := n + 1 + |name|;
    forall k | n <= k < dot
      ensures content[k] != '.'
    {
      if k > n {
        assert content[k] == name[k - n - 1];
      }
    }
    FirstDot(content, n, dot);
    var slice := content[n..dot];
    assert slice == [' '] + name;
    assert StripStart(slice) == 1;
    assert StripEnd(slice, 1) == |slice|;
    assert slice[1..|slice|] == name;
    assert NameStart(content) == n;
    assert CaptureName(content) == Strip(slice);
  }

  lemma FirstDot(content: string, start: nat, dot: nat)
    requires start <= dot < |content| && content[dot] == '.'
    requires forall k :: start <= k < dot ==> content[k] != '.'
    ensures NameEnd(content, start) == dot
  {
    assert OccursAt(content, ".", dot) by { assert content[dot..dot + 1] == [content[dot]]; }
    forall k | start <= k < dot
      ensures !OccursAt(content, ".", k)
    {
      assert content[k..k + 1] == [content[k]];
    }
  }

  lemma NoDotAfter(content: string, start: nat)
    requires start <= |content| && forall k :: start <= k < |content| ==> content[k] != '.'
    ensures NameEnd(content, start) == |content|
  {
    forall j | start <= j
      ensures !OccursAt(content, ".", j)
    {
      if j < |content| {
        assert content[j..j + 1] == [content[j]];
      }
    }
  }

  /** Without a full stop the name runs to the end of the message. */
  lemma CaptureToEnd(content: string, name: string)
    requires |content| == |Phrase| + |name| + 1 && Lower(content[..|Phrase|]) == Phrase
    requires content[|Phrase|..] == [' '] + name
    requires '.' !in name && (name == [] || (!IsSpace(name[0]) && !IsSpace(name[|name| - 1])))
    ensures HasPhrase(content) && CaptureName(content) == name
  {
    var n := |Phrase|;
    assert Lower(content)[..n] == Lower(content[..n]);
    assert OccursAt(Lower(content), Phrase, 0);
    forall k | n <= k < |content|
      ensures content[k] != '.'
    {
      if k > n {
        assert content[k] == name[k - n - 1];
      }
    }
    NoDotAfter(content, n);
    assert content[n..NameEnd(content, n)] == [' '] + name;
    StripOneSpace(name);
    assert NameStart(content) == n;
  }

  lemma StripOneSpace(name: string)
    requires name == [] || (!IsSpace(name[0]) && !IsSpace(name[|name| - 1]))
    ensures Strip([' '] + name) == name
  {
    var slice := [' '] + name;
    assert slice[1..] == name;
    assert StripStart(slice) == 1;
    assert StripEnd(slice, 1) == |slice|;
    assert slice[1..|slice|] == name;
  }

  /** "My name is Sam", with no full stop, captures "Sam". */
  lemma NameRunsToEnd()
    ensures NameIn(Turn("user", "My name is Sam")) == Some("Sam")
  {
    var c := "My name is Sam";
    assert Lower(c[..10]) == Phrase;
    assert c[10..] == [' '] + "Sam";
    CaptureToEnd(c, "Sam");
  }

  lemma IntroductionCaptured()
    ensures NameIn(Turn("user", "My name is Alex.")) == Some("Alex")
  {
    var c := "My name is Alex.";
    assert Lower(c[..10]) == Phrase;
    assert c[10..] == [' '] + "Alex" + ['.'];
    CaptureAtStart(c, "Alex");
  }

  /** Assistant turns are ignored, and the later user introduction wins. */
  lemma LastIntroductionWins()
    ensures NameFrom([Turn("user", "My name is Alex."), Turn("assistant", "My name is Bot."),
                      Turn("user", "My name is Sam.")]) == Some("Sam")
  {
    var c := "My name is Sam.";
    assert Lower(c[..10]) == Phrase;
    assert c[10..] == [' '] + "Sam" + ['.'];
    CaptureAtStart(c, "Sam");
    var h := [Turn("user", "My name is Alex."), Turn("assistant", "My name is Bot."), Turn("user", c)];
    assert Captures(h)[2] == Some("Sam");
  }
}
