/** The unit tests of the s-expression grammar, stated as lemmas about the
    model. Each literal is reached through the reference functions
    (`QuotedLiteral`, `Decimal`, `Print`) rather than by unfolding the
    parsers on it. */
module LispExamples {
  import opened ParserComb
  import opened LispComb
  import opened LispRoundTrip
  import L = Lib

  // ---------------------------------------------------------------------------
  // `string`, `ident`, `number`

  lemma QuotedHello()
    ensures QuotedLiteral("\"hello\"") == Ok("hello", "")
  {
    LiteralOfText("hello", "");
    assert ['"'] + "hello" + ['"'] + "" == "\"hello\"";
  }

  /** `string` reads `"hello"` whole. */
  lemma StringHello()
    ensures Str()("\"hello\"") == Ok("hello", "")
  {
    QuotedHello();
    StrAt("\"hello\"");
  }

  /** `string` fails on empty input. */
  lemma StringEmpty()
    ensures Str()("").Err?
  {
    StrAt("");
  }

  /** `ident` reads `hello` whole. */
  lemma IdentHello()
    ensures Ident()("hello") == Ok("hello", "")
  {
    IdentParsesName("hello", "");
    assert "hello" + "" == "hello";
  }

  lemma Decimal123()
    ensures AllDigits("123") && Decimal("123") == 123
  {
    assert "123"[..2] == "12";
    assert "12"[..1] == "1";
    assert Decimal("12") == 12;
  }

  lemma DigitsOf123(s: string)
    requires s == "123"
    ensures Span(IsDigit, s) == 3 && s[..3] == "123" && s[3..] == ""
  {
    SpanAt(IsDigit, s, 3);
  }

  /** `number` reads `123` whole. */
  lemma Number123(s: string)
    requires s == "123"
    ensures Number()(s) == Ok(123, "")
  {
    DigitsOf123(s);
    NumberSpec(s);
    Decimal123();
  }

  /** `number` fails on empty input and on `asd`. */
  lemma NumberFails()
    ensures Number()("").Err?
    ensures Number()("asd").Err?
  {
    NumberSpec("");
    NumberSpec("asd");
    assert Span(IsDigit, "asd") == 0;
  }

  // ---------------------------------------------------------------------------
  // `lisp_string`, `lisp_ident`, `lisp_list`

  lemma StringAyo()
    ensures Str()("\"ayo\"") == Ok("ayo", "")
  {
    LiteralOfText("ayo", "");
    assert ['"'] + "ayo" + ['"'] + "" == "\"ayo\"";
    StrAt("\"ayo\"");
  }

  lemma LispStringOf(s: string, text: string, t: string)
    requires Str()(s) == Ok(text, t)
    ensures LispString()(s) == Ok(L.String(text), t)
  {
  }

  /** `lisp_string` reads `"ayo"` as a `String` node. */
  lemma LispStringAyo()
    ensures LispString()("\"ayo\"") == Ok(L.String("ayo"), "")
  {
    StringAyo();
    LispStringOf("\"ayo\"", "ayo", "");
  }

  /** `lisp_string` fails on empty input. */
  lemma LispStringEmpty()
    ensures LispString()("").Err?
  {
    StrAt("");
  }

  lemma FooName(s: string)
    requires s == "foo"
    ensures LeadingIdent(s) == Ok("foo", "")
  {
    assert IsIdentName("foo");
    LeadingIdentOfName("foo", "");
    assert "foo" + "" == s;
  }

  /** `lisp_ident` reads `foo` as an `Ident` node. */
  lemma LispIdentFoo(s: string)
    requires s == "foo"
    ensures LispIdent()(s) == Ok(L.Ident("foo"), "")
  {
    FooName(s);
    LispIdentAt(s);
  }

  /** `lisp_ident` fails on empty input. */
  lemma LispIdentEmpty()
    ensures LispIdent()("").Err?
  {
    LispIdentAt("");
  }

  lemma EmptyListReads(s: string)
    requires s == Print(L.List([]))
    ensures LispList()(s) == Ok(L.List([]), "")
  {
    LispSolves();
    ListRoundTrip(LispObject(), LispList(), Many(Item(LispObject())), [], "");
    assert Print(L.List([])) + "" == s;
    SkipNothing("");
  }

  /** `lisp_list` reads `()` as the empty list. */
  lemma LispListEmpty(s: string)
    requires s == "()"
    ensures LispList()(s) == Ok(L.List([]), "")
  {
    EmptyListText(s);
    EmptyListReads(s);
  }

  lemma EmptyListText(s: string)
    requires s == "()"
    ensures s == Print(L.List([]))
  {
  }

  /** `lisp_list` fails on empty input. */
  lemma LispListNoInput()
    ensures LispList()("").Err?
  {
    LispListUnfold("");
    LispAdvances();
    ListAt(LispObject(), "");
  }

  /** `lisp_object` fails on empty input. */
  lemma LispObjectNoInput()
    ensures LispObject()("").Err?
  {
    LispObjectUnfold("");
    ObjectOfAt(LispList(), "");
    StrAt("");
    IdentAt("");
    LispListNoInput();
  }

  // ---------------------------------------------------------------------------
  // The nested list of the grammar's main test
  //
  // `SampleText` builds the printed text of the tree piece by piece. The
  // `Split` lemmas unfold `Print` one element at a time; each `Open`, `Join`
  // and `Close` lemma states a single concatenation of literals. They are
  // separate lemmas because the solver settles a concatenation of literals
  // quickly on its own, and slowly next to the unfolding of `Print`.

  function Inner(): seq<L.LispObject> {
    [L.String("asdasd"), L.Ident("asd"), L.List([L.String("asd")]), L.Ident("asd")]
  }

  function SampleTree(): L.LispObject {
    L.List([L.Ident("asd"), L.List(Inner()), L.String("asdasd"), L.List([])])
  }

  lemma InnerTailText()
    ensures PrintItems(Inner()[2..]) == "(\"asd\") asd"
  {
  }

  lemma InnerMidSplit()
    ensures PrintItems(Inner()[1..]) == "asd" + " " + PrintItems(Inner()[2..])
  {
    assert Inner()[1..][1..] == Inner()[2..];
  }

  lemma InnerHeadSplit()
    ensures PrintItems(Inner()) == "\"asdasd\"" + " " + PrintItems(Inner()[1..])
  {
  }

  lemma JoinInnerMid()
    ensures "asd" + " " + "(\"asd\") asd" == "asd (\"asd\") asd"
  {
  }

  lemma JoinInnerHead()
    ensures "\"asdasd\"" + " " + "asd (\"asd\") asd" == "\"asdasd\" asd (\"asd\") asd"
  {
  }

  lemma InnerItemsText()
    ensures PrintItems(Inner()) == "\"asdasd\" asd (\"asd\") asd"
  {
    InnerTailText();
    InnerMidSplit();
    JoinInnerMid();
    InnerHeadSplit();
    JoinInnerHead();
  }

  lemma OpenInner()
    ensures "(" + "\"asdasd\" asd (\"asd\") asd" == "(\"asdasd\" asd (\"asd\") asd"
  {
  }

  lemma CloseInner()
    ensures "(\"asdasd\" asd (\"asd\") asd" + ")" == "(\"asdasd\" asd (\"asd\") asd)"
  {
  }

  lemma InnerText()
    ensures Print(L.List(Inner())) == "(\"asdasd\" asd (\"asd\") asd)"
  {
    InnerItemsText();
    OpenInner();
    CloseInner();
  }

  lemma OuterTailText()
    ensures PrintItems(SampleTree().items[2..]) == "\"asdasd\" ()"
  {
    assert SampleTree().items[2..][1..] == [L.List([])];
  }

  lemma OuterItemsSplit()
    ensures PrintItems(SampleTree().items[1..]) ==
              Print(L.List(Inner())) + " " + PrintItems(SampleTree().items[2..])
  {
    assert SampleTree().items[1..][1..] == SampleTree().items[2..];
  }

  lemma JoinOuterItems()
    ensures "(\"asdasd\" asd (\"asd\") asd)" + " " + "\"asdasd\" ()" == "(\"asdasd\" asd (\"asd\") asd) \"asdasd\" ()"
  {
  }

  lemma OuterItemsText()
    ensures PrintItems(SampleTree().items[1..]) == "(\"asdasd\" asd (\"asd\") asd) \"asdasd\" ()"
  {
    OuterTailText();
    InnerText();
    OuterItemsSplit();
    JoinOuterItems();
  }

  lemma SampleSplit()
    ensures Print(SampleTree()) == "(" + "asd" + " " + PrintItems(SampleTree().items[1..]) + ")"
  {
  }

  lemma OpenSample()
    ensures "(" + "asd" + " " == "(asd "
  {
  }

  lemma JoinSample()
    ensures "(asd " + "(\"asdasd\" asd (\"asd\") asd) \"asdasd\" ()" == "(asd (\"asdasd\" asd (\"asd\") asd) \"asdasd\" ()"
  {
  }

  lemma CloseSample()
    ensures "(asd (\"asdasd\" asd (\"asd\") asd) \"asdasd\" ()" + ")" == "(asd (\"asdasd\" asd (\"asd\") asd) \"asdasd\" ())"
  {
  }

  lemma SampleText()
    ensures Print(SampleTree()) == "(asd (\"asdasd\" asd (\"asd\") asd) \"asdasd\" ())"
  {
    OuterItemsText();
    SampleSplit();
    OpenSample();
    JoinSample();
    CloseSample();
  }

  lemma SampleWellFormed()
    ensures WellFormed(SampleTree())
  {
    assert IsIdentName("asd");
    assert WellFormed(L.List(Inner()));
  }

  lemma SampleReads(o: L.LispObject)
    requires WellFormed(o)
    ensures LispObject()(Print(o)) == Ok(o, "")
  {
    PrintedReadsWhole(o);
  }

  /** `lisp_object` reads the nested list of the main test whole. */
  lemma LispSample(s: string)
    requires s == "(asd (\"asdasd\" asd (\"asd\") asd) \"asdasd\" ())"
    ensures LispObject()(s) == Ok(SampleTree(), "")
  {
    SampleText();
    SampleWellFormed();
    SampleReads(SampleTree());
  }
}
