/** The unit tests of the combinator engine, stated as lemmas about the model. */
module EngineExamples {
  import opened ParserComb

  /** `character('2')` fails on `12` and on empty input; `character('1')`
      takes the `1` of `12`, and `character('2')` the rest. */
  lemma CharacterExamples()
    ensures Parse(Character('2'), "12").Failure?
    ensures Character('1')("12") == Ok('1', "2")
    ensures Character('2')("2") == Ok('2', "")
    ensures Parse(Character('2'), "").Failure?
  {
    assert "12"[1..] == "2";
    assert "2"[1..] == "";
  }

  /** `any` takes the first character, and fails on empty input. */
  lemma AnyExamples()
    ensures Any()("()") == Ok('(', ")")
    ensures Any()("").Err?
  {
    assert "()"[1..] == ")";
  }

  /** `zip_left` keeps `a`, `zip_right` keeps `b`; both fail on empty input. */
  lemma ZipExamples()
    ensures ZipLeft(Character('a'), Character('b'))("ab") == Ok('a', "")
    ensures ZipRight(Character('a'), Character('b'))("ab") == Ok('b', "")
    ensures ZipLeft(Character('a'), Character('b'))("").Err?
    ensures ZipRight(Character('a'), Character('b'))("").Err?
  {
    assert "ab"[1..] == "b";
    assert "b"[1..] == "";
  }

  /** `flat_map` runs the parser built from `a` on what follows it. */
  lemma FlatMapExample()
    ensures FlatMap(Any(), _ => Character('b'))("ab") == Ok('b', "")
    ensures FlatMap(Any(), _ => Character('b'))("").Err?
  {
    assert "ab"[1..] == "b";
    assert "b"[1..] == "";
  }

  function Upper(c: char): char {
    if 'a' <= c <= 'z' then (c as int - 32) as char else c
  }

  /** `map` turns `a` into `A`. */
  lemma MapExample()
    ensures Map(Character('a'), Upper)("a") == Ok('A', "")
    ensures Map(Character('a'), Upper)("").Err?
  {
    assert "a"[1..] == "";
  }

  /** `or` tags which branch matched, and fails when neither does. */
  lemma OrExamples()
    ensures Or(Character('a'), Character('b'))("a") == Ok(A('a'), "")
    ensures Or(Character('a'), Character('b'))("b") == Ok(B('b'), "")
    ensures Or(Character('a'), Character('b'))("").Err?
  {
    assert "a"[1..] == "";
    assert "b"[1..] == "";
  }

  predicate IsOne(c: char) { c == '1' }

  predicate IsTwo(c: char) { c == '2' }

  function Same(c: char): char { c }

  /** The literal pieces of `1111222`, stated without parsers. */
  lemma OnesText(s: string)
    requires s == "1111222"
    ensures s[..4] == "1111" && s[4..] == "222"
    ensures forall i :: 0 <= i < 4 ==> IsOne(s[i])
    ensures !IsOne(s[4])
  {
  }

  /** `many(character('1'))` takes the four ones of `1111222`;
      `many(character('2'))` then takes the three twos; on empty input
      `many` succeeds with nothing. */
  lemma ManyOnes(s: string)
    requires s == "1111222"
    ensures Many(Character('1'))(s) == Ok("1111", "222")
  {
    OnesText(s);
    ManyOverPrefix(Character('1'), IsOne, Same, s, 4);
    MapSeqId(Same, "1111");
  }

  lemma ManyTwos(s: string)
    requires s == "222"
    ensures Many(Character('2'))(s) == Ok("222", "")
  {
    assert s[..3] == "222" && s[3..] == "";
    ManyOverPrefix(Character('2'), IsTwo, Same, s, 3);
    MapSeqId(Same, "222");
  }

  lemma ManyNothing()
    ensures Many(Character('1'))("") == Ok([], "")
  {
  }

  /** The text before the `!` of `hello!`, stated without parsers. */
  lemma HelloScan(s: string)
    requires s == "hello!"
    ensures ScanTo('!', s) == Ok("hello", "!")
  {
    SpanOfPrefix(Unlike('!'), "hello", "!");
    assert "hello" + "!" == s;
  }

  /** `any().until(character('!'))` takes `hello` and stops before the `!`;
      on empty input it fails. */
  lemma UntilHello(s: string)
    requires s == "hello!"
    ensures Until(Any(), Character('!'))(s) == Ok("hello", "!")
  {
    UntilAnyTo('!', s);
    HelloScan(s);
  }

  lemma UntilNothing()
    ensures Until(Any(), Character('!'))("").Err?
  {
  }

  /** The literal pieces of the blanks before `asdf`, stated without parsers. */
  lemma BlanksText(s: string)
    requires s == "   \n    \tasdf"
    ensures s[..9] == "   \n    \t" && s[9..] == "asdf"
    ensures forall i :: 0 <= i < 9 ==> IsWhitespace(s[i])
    ensures !IsWhitespace(s[9])
  {
  }

  /** Mapping every character to `()` gives as many units. */
  lemma {:induction false} Units(cs: string)
    ensures MapSeq(_ => (), cs) == seq(|cs|, _ => ())
    decreases |cs|
  {
    if cs != [] {
      Units(cs[1..]);
    }
  }

  /** `many(whitespace())` takes the nine blanks before `asdf`, and succeeds
      with nothing on empty input. */
  lemma WhitespaceBlanks(s: string)
    requires s == "   \n    \tasdf"
    ensures Many(Whitespace())(s) == Ok(seq(9, _ => ()), "asdf")
  {
    BlanksText(s);
    Units(s[..9]);
    ManyOverPrefix(Whitespace(), IsWhitespace, _ => (), s, 9);
  }

  lemma WhitespaceNothing()
    ensures Many(Whitespace())("") == Ok([], "")
  {
  }

  predicate InOneTwoThree(c: char) { c in "123" }

  lemma DigitsText(s: string)
    requires s == "2231235"
    ensures s[..6] == "223123" && s[6..] == "5"
    ensures forall i :: 0 <= i < 6 ==> InOneTwoThree(s[i])
    ensures !InOneTwoThree(s[6])
  {
  }

  /** `many(one_of("123"))` takes `223123` of `2231235`; `one_of("")` fails
      even on `123`. */
  lemma OneOfRun(s: string)
    requires s == "2231235"
    ensures Many(OneOf("123"))(s) == Ok("223123", "5")
  {
    DigitsText(s);
    ManyOverPrefix(OneOf("123"), InOneTwoThree, Same, s, 6);
    MapSeqId(Same, "223123");
  }

  lemma OneOfNothing()
    ensures Many(OneOf("123"))("") == Ok([], "")
    ensures OneOf("")("123").Err?
  {
  }

  predicate IsLower(c: char) { 'a' <= c <= 'z' }

  lemma LowerText(s: string)
    requires s == "hello!"
    ensures s[..5] == "hello" && s[5..] == "!"
    ensures forall i :: 0 <= i < 5 ==> IsLower(s[i])
    ensures !IsLower(s[5])
  {
  }

  /** `many(range('a'..='z'))` takes `hello` of `hello!`; `range('a'..='a')`
      is not empty but fails on `123`. */
  lemma RangeRun(s: string)
    requires s == "hello!"
    ensures Many(Range('a', 'z'))(s) == Ok("hello", "!")
  {
    LowerText(s);
    ManyOverPrefix(Range('a', 'z'), IsLower, Same, s, 5);
    MapSeqId(Same, "hello");
  }

  lemma RangeNothing()
    ensures Many(Range('a', 'z'))("") == Ok([], "")
    ensures Range('a', 'a')("123").Err?
  {
  }
}
