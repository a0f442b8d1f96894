/** The s-expression grammar of src/lisp_comb.rs, built only from the
    combinators of `ParserComb`. */
module LispComb {
  import opened ParserComb
  import L = Lib

  // ---------------------------------------------------------------------------
  // Character classes

  predicate IsIdentStart(c: char) {
    c == '_' || 'a' <= c <= 'z' || 'A' <= c <= 'Z'
  }

  predicate IsDigit(c: char) {
    '0' <= c <= '9'
  }

  predicate IsIdentChar(c: char) {
    IsIdentStart(c) || IsDigit(c)
  }

  // ---------------------------------------------------------------------------
  // `string`

  /** `string`: a double-quoted literal with no escapes; the value is the
      text between the quotes, the closing quote is consumed. */
  function Str(): Parser<string> {
    Map(ZipLeft(FlatMap(Character('"'), _ => Until(Any(), Character('"'))), Character('"')),
        (cs: seq<char>) => cs)
  }

  /** The opening quote of `string`, then the scan. */
  lemma StrOpen(s: seq<char>)
    ensures FlatMap(Character('"'), _ => Until(Any(), Character('"')))(s) ==
              if |s| == 0 || s[0] != '"' then Err else Until(Any(), Character('"'))(s[1..])
  {
  }

  /** `string` unfolded: the opening quote, the scan, the closing quote. */
  lemma StrSteps(s: seq<char>)
    ensures Str()(s) ==
              if |s| == 0 || s[0] != '"' then Err
              else match Until(Any(), Character('"'))(s[1..])
                   case Err => Err
                   case Ok(v, r) => if |r| > 0 && r[0] == '"' then Ok(v, r[1..]) else Err
  {
    var open := FlatMap(Character('"'), _ => Until(Any(), Character('"')));
    StrOpen(s);
    assert Str()(s) == Map(ZipLeft(open, Character('"')), (cs: seq<char>) => cs)(s);
    CloseQuote(open(s), ZipLeft(open, Character('"'))(s));
  }

  /** The closing quote after the scan. */
  lemma CloseQuote(a: Result<seq<char>>, b: Result<seq<char>>)
    requires b == match a
                  case Err => Err
                  case Ok(v, r) => match Character('"')(r)
                                   case Err => Err
                                   case Ok(_, r') => Ok(v, r')
    ensures b == match a
                 case Err => Err
                 case Ok(v, r) => if |r| > 0 && r[0] == '"' then Ok(v, r[1..]) else Err
  {
  }

  /** A string literal read without parsers: an opening quote, the text up to
      the next quote, and that quote. */
  function QuotedLiteral(s: seq<char>): Result<string> {
    if |s| == 0 || s[0] != '"' then Err
    else
      match ScanTo('"', s[1..])
      case Err => Err
      case Ok(text, r) => Ok(text, r[1..])
  }

  /** `string` reads up to the first quote after the opening one. */
  lemma StrAt(s: seq<char>)
    ensures Str()(s) == QuotedLiteral(s)
  {
    StrSteps(s);
    if |s| > 0 {
      UntilAnyTo('"', s[1..]);
      StrAtValues(s, Str()(s), Until(Any(), Character('"'))(s[1..]));
    }
  }

  /** The value-level step behind `StrAt`. */
  lemma StrAtValues(s: seq<char>, a: Result<string>, u: Result<seq<char>>)
    requires |s| > 0
    requires a == if s[0] != '"' then Err
                  else match u
                       case Err => Err
                       case Ok(v, r) => if |r| > 0 && r[0] == '"' then Ok(v, r[1..]) else Err
    requires u == ScanTo('"', s[1..])
    ensures a == QuotedLiteral(s)
  {
    var r := s[1..];
    var k := Span(Unlike('"'), r);
    if k < |r| {
      assert r[k..][1..] == r[k + 1..];
    }
  }

  /** A quoted literal whose text holds no quote reads back as that text. */
  lemma StrParsesLiteral(text: string, t: string)
    requires '"' !in text
    ensures Str()(['"'] + text + ['"'] + t) == Ok(text, t)
  {
    StrAt(['"'] + text + ['"'] + t);
    LiteralOfText(text, t);
  }

  lemma LiteralOfText(text: string, t: string)
    requires '"' !in text
    ensures QuotedLiteral(['"'] + text + ['"'] + t) == Ok(text, t)
  {
    var s := ['"'] + text + ['"'] + t;
    assert s[0] == '"';
    assert s[1..] == text + (['"'] + t);
    SpanOfPrefix(Unlike('"'), text, ['"'] + t);
    assert s[1..][..|text|] == text;
    assert s[1..][|text| + 1..] == t;
  }

  /** What `string` returns: the text between an opening quote and the next
      quote, with no quote inside; it fails on the empty input and on a
      literal without a closing quote. */
  lemma StrSpec(s: seq<char>)
    ensures Str()(s).Ok? <==> |s| > 0 && s[0] == '"' && '"' in s[1..]
    ensures Str()(s).Ok? ==>
              var r := Str()(s);
              '"' !in r.value && s == ['"'] + r.value + ['"'] + r.rest
  {
    StrAt(s);
    QuotedLiteralSpec(s);
  }

  lemma QuotedLiteralSpec(s: seq<char>)
    ensures QuotedLiteral(s).Ok? <==> |s| > 0 && s[0] == '"' && '"' in s[1..]
    ensures QuotedLiteral(s).Ok? ==>
              var r := QuotedLiteral(s);
              '"' !in r.value && s == ['"'] + r.value + ['"'] + r.rest
  {
    if |s| > 0 && s[0] == '"' {
      var k := Span(Unlike('"'), s[1..]);
      if k < |s| - 1 {
        assert s[1..][k] == '"';
        assert s == ['"'] + s[1..][..k] + ['"'] + s[1..][k + 1..];
      } else {
        assert '"' !in s[1..];
      }
    }
  }

  /** `string` drops a non-empty prefix of its input. */
  lemma StrAdvances()
    ensures Consumes(Str()) && Progresses(Str())
  {
    forall s | Str()(s).Ok? ensures IsSuffix(Str()(s).rest, s) && |Str()(s).rest| < |s| {
      StrSpec(s);
      var r := Str()(s);
      assert s[|s| - |r.rest|..] == r.rest;
    }
  }

  // ---------------------------------------------------------------------------
  // `ident`

  /** First character of an identifier: `_`, a-z or A-Z. */
  function IdentStart(): (p: Parser<char>)
    ensures Recognizes(p, IsIdentStart, c => c)
    ensures Progresses(p) && Consumes(p)
  {
    var p := Map(Or(Or(Character('_'), Range('a', 'z')), Range('A', 'Z')), Get2);
    assert Recognizes(p, IsIdentStart, c => c) by {
      forall s ensures p(s) == if |s| > 0 && IsIdentStart(s[0]) then Ok(s[0], s[1..]) else Err {
        OrGet2(Character('_'), Range('a', 'z'), Range('A', 'Z'), s);
        FirstOf3(Character('_'), Range('a', 'z'), Range('A', 'Z'), s);
      }
    }
    RecognizerProgresses(p, IsIdentStart, c => c);
    p
  }

  /** Later characters of an identifier: `_`, a-z, A-Z or 0-9. */
  function IdentChar(): (p: Parser<char>)
    ensures Recognizes(p, IsIdentChar, c => c)
    ensures Progresses(p) && Consumes(p)
  {
    var p := Map(Or(Or(Or(Character('_'), Range('a', 'z')), Range('A', 'Z')), Range('0', '9')), Get3);
    assert Recognizes(p, IsIdentChar, c => c) by {
      forall s ensures p(s) == if |s| > 0 && IsIdentChar(s[0]) then Ok(s[0], s[1..]) else Err {
        OrGet3(Character('_'), Range('a', 'z'), Range('A', 'Z'), Range('0', '9'), s);
        FirstOf4(Character('_'), Range('a', 'z'), Range('A', 'Z'), Range('0', '9'), s);
      }
    }
    RecognizerProgresses(p, IsIdentChar, c => c);
    p
  }

  lemma FirstOf4<T>(p: Parser<T>, q: Parser<T>, r: Parser<T>, u: Parser<T>, s: seq<char>)
    ensures FirstOf([p, q, r, u], s) == if p(s).Ok? then p(s) else if q(s).Ok? then q(s) else if r(s).Ok? then r(s) else u(s)
  {
    assert [p, q, r, u][1..] == [q, r, u];
    FirstOf3(q, r, u, s);
  }

  /** The closure of `ident`: one start character, then as many identifier
      characters as follow. */
  function IdentFn(input: seq<char>): Result<string> {
    match IdentStart()(input)
    case Err => Err
    case Ok(first, rest) =>
      match Many(IdentChar())(rest)
      case Err => Err
      case Ok(parsed, rest') => Ok([first] + parsed, rest')
  }

  /** `ident`. */
  function Ident(): Parser<string> {
    FromFn(IdentFn)
  }

  predicate IsIdentName(name: string) {
    |name| > 0 && IsIdentStart(name[0]) && forall i :: 0 <= i < |name| ==> IsIdentChar(name[i])
  }

  /** An identifier read without parsers: a start character, then the
      longest run of identifier characters after it. */
  function LeadingIdent(s: seq<char>): Result<string> {
    if |s| > 0 && IsIdentStart(s[0]) then
      var n := Span(IsIdentChar, s[1..]);
      Ok([s[0]] + s[1..][..n], s[1..][n..])
    else Err
  }

  /** `ident` reads the leading identifier of its input. */
  lemma IdentAt(s: seq<char>)
    ensures Ident()(s) == LeadingIdent(s)
  {
    assert Ident()(s) == IdentFn(s);
    if |s| > 0 && IsIdentStart(s[0]) {
      assert IdentStart()(s) == Ok(s[0], s[1..]);
      ManyRecognizer(IdentChar(), IsIdentChar, c => c, s[1..]);
      MapSeqId(c => c, s[1..][..Span(IsIdentChar, s[1..])]);
    } else {
      assert IdentStart()(s) == Err;
    }
  }

  lemma LeadingIdentSpec(s: seq<char>)
    ensures LeadingIdent(s).Ok? <==> |s| > 0 && IsIdentStart(s[0])
    ensures LeadingIdent(s).Ok? ==>
              var r := LeadingIdent(s);
              IsIdentName(r.value) && r.value + r.rest == s && (r.rest == [] || !IsIdentChar(r.rest[0]))
  {
    if |s| > 0 && IsIdentStart(s[0]) {
      var rest := s[1..];
      var n := Span(IsIdentChar, rest);
      var name := [s[0]] + rest[..n];
      assert forall i :: 0 < i < |name| ==> name[i] == rest[i - 1];
      assert name + rest[n..] == s;
    }
  }

  /** `ident` succeeds exactly when the input starts with `_` or a letter, and
      then returns the longest identifier prefix of the input. */
  lemma IdentSpec(s: seq<char>)
    ensures Ident()(s).Ok? <==> |s| > 0 && IsIdentStart(s[0])
    ensures Ident()(s).Ok? ==>
              var r := Ident()(s);
              IsIdentName(r.value) && r.value + r.rest == s && (r.rest == [] || !IsIdentChar(r.rest[0]))
  {
    IdentAt(s);
    LeadingIdentSpec(s);
  }

  /** `ident` drops a non-empty prefix of its input. */
  lemma IdentAdvances()
    ensures Consumes(Ident()) && Progresses(Ident())
  {
    forall s | Ident()(s).Ok? ensures IsSuffix(Ident()(s).rest, s) && |Ident()(s).rest| < |s| {
      IdentSpec(s);
      var r := Ident()(s);
      assert s[|s| - |r.rest|..] == r.rest;
    }
  }

  /** An identifier followed by text that cannot continue it reads back as itself. */
  lemma IdentParsesName(name: string, t: string)
    requires IsIdentName(name)
    requires t == [] || !IsIdentChar(t[0])
    ensures Ident()(name + t) == Ok(name, t)
  {
    IdentAt(name + t);
    LeadingIdentOfName(name, t);
  }

  lemma LeadingIdentOfName(name: string, t: string)
    requires IsIdentName(name)
    requires t == [] || !IsIdentChar(t[0])
    ensures LeadingIdent(name + t) == Ok(name, t)
  {
    var s := name + t;
    assert s[0] == name[0];
    assert s[1..] == name[1..] + t;
    SpanOfPrefix(IsIdentChar, name[1..], t);
    assert s[1..][..|name| - 1] == name[1..];
    assert [name[0]] + name[1..] == name;
  }

  // ---------------------------------------------------------------------------
  // `number`

  const I32Max: int := 0x7fff_ffff

  function DigitValue(c: char): nat
    requires IsDigit(c)
  {
    c as int - '0' as int
  }

  predicate AllDigits(ds: seq<char>) {
    forall i :: 0 <= i < |ds| ==> IsDigit(ds[i])
  }

  /** The value of a decimal numeral, most significant digit first. */
  function Decimal(ds: seq<char>): nat
    requires AllDigits(ds)
  {
    if ds == [] then 0 else 10 * Decimal(ds[..|ds| - 1]) + DigitValue(ds[|ds| - 1])
  }

  /** `str::parse::<i32>`, modelled on the digit runs `number` passes it:
      digits accumulated left to right, failing on the empty run and as soon
      as the value would exceed `i32::MAX`. The sign prefixes the library
      function also accepts are not modelled. */
  function ParseI32(ds: seq<char>): Outcome<int> {
    if ds == [] then Failure else Accumulate(0, ds)
  }

  function Accumulate(acc: int, ds: seq<char>): Outcome<int>
    decreases |ds|
  {
    if ds == [] then Success(acc)
    else if !IsDigit(ds[0]) then Failure
    else
      var next := acc * 10 + DigitValue(ds[0]);
      if next > I32Max then Failure else Accumulate(next, ds[1..])
  }

  lemma {:induction false} DecimalGrows(ds: seq<char>, more: seq<char>)
    requires AllDigits(ds) && AllDigits(more)
    ensures AllDigits(ds + more) && Decimal(ds) <= Decimal(ds + more)
    decreases |more|
  {
    if more != [] {
      var init := more[..|more| - 1];
      assert AllDigits(init) by {
        forall i | 0 <= i < |init| ensures IsDigit(init[i]) {
          assert init[i] == more[i];
        }
      }
      DecimalGrows(ds, init);
      assert AllDigits(ds + more) by {
        forall i | 0 <= i < |ds + more| ensures IsDigit((ds + more)[i]) {
          if i >= |ds| {
            assert (ds + more)[i] == more[i - |ds|];
          }
        }
      }
      assert (ds + more)[..|ds + more| - 1] == ds + init;
    } else {
      assert ds + more == ds;
    }
  }

  lemma {:induction false} AccumulateDecimal(done: seq<char>, ds: seq<char>)
    requires AllDigits(done) && AllDigits(ds) && Decimal(done) <= I32Max
    ensures AllDigits(done + ds)
    ensures Accumulate(Decimal(done), ds) ==
              if Decimal(done + ds) <= I32Max then Success(Decimal(done + ds)) else Failure
    decreases |ds|
  {
    if ds == [] {
      assert done + ds == done;
    } else {
      var done' := done + [ds[0]];
      assert done'[..|done'| - 1] == done;
      assert Decimal(done') == Decimal(done) * 10 + DigitValue(ds[0]);
      assert done' + ds[1..] == done + ds;
      if Decimal(done') > I32Max {
        DecimalGrows(done', ds[1..]);
      } else {
        AccumulateDecimal(done', ds[1..]);
      }
    }
  }

  /** On a digit run `str::parse::<i32>` yields the run's decimal value,
      unless the run is empty or the value exceeds `i32::MAX`. */
  lemma ParseI32Spec(ds: seq<char>)
    requires AllDigits(ds)
    ensures ParseI32(ds) == if ds == [] || Decimal(ds) > I32Max then Failure else Success(Decimal(ds))
  {
    if ds != [] {
      AccumulateDecimal([], ds);
      assert [] + ds == ds;
    }
  }

  /** The closure of `number`: the longest run of digits, read as an `i32`. */
  function NumberFn(input: seq<char>): Result<int> {
    match Many(Range('0', '9'))(input)
    case Err => Err
    case Ok(parsed, rest) =>
      match ParseI32(parsed)
      case Success(n) => Ok(n, rest)
      case Failure => Err
  }

  /** `number`. */
  function Number(): Parser<int> {
    FromFn(NumberFn)
  }

  /** `number` succeeds exactly when the input starts with a digit and the
      value of its longest digit prefix fits in an `i32`; it returns that
      value and the text after the digits. */
  lemma NumberSpec(s: seq<char>)
    ensures var n := Span(IsDigit, s);
            AllDigits(s[..n]) &&
            Number()(s) == if n > 0 && Decimal(s[..n]) <= I32Max then Ok(Decimal(s[..n]), s[n..]) else Err
  {
    assert Number()(s) == NumberFn(s);
    assert Recognizes(Range('0', '9'), IsDigit, c => c);
    ManyRecognizer(Range('0', '9'), IsDigit, c => c, s);
    var n := Span(IsDigit, s);
    MapSeqId(c => c, s[..n]);
    ParseI32Spec(s[..n]);
  }

  // ---------------------------------------------------------------------------
  // `lisp_string`, `lisp_ident`

  function AsString(text: string): L.LispObject { L.String(text) }

  function AsIdent(name: string): L.LispObject { L.Ident(name) }

  function AsList(items: seq<L.LispObject>): L.LispObject { L.List(items) }

  /** `lisp_string`: a string literal as a `String` node. */
  function LispString(): Parser<L.LispObject> {
    Map(Str(), AsString)
  }

  /** `lisp_ident`: an identifier as an `Ident` node. */
  function LispIdent(): Parser<L.LispObject> {
    Map(Ident(), AsIdent)
  }

  // ---------------------------------------------------------------------------
  // `lisp_object` and `lisp_list`

  /** The body of `lisp_object` over a given list parser: a string, else an
      identifier, else a list. */
  function ObjectOf(list: Parser<L.LispObject>): (p: Parser<L.LispObject>)
    ensures Progresses(list) && Consumes(list) ==> Progresses(p) && Consumes(p)
  {
    StrAdvances();
    IdentAdvances();
    Map(Or(Or(LispString(), LispIdent()), list), Get2)
  }

  /** One list element: an object and the whitespace after it. */
  function Item(obj: Parser<L.LispObject>): Parser<L.LispObject> {
    ZipLeft(obj, Many(Whitespace()))
  }

  /** The body of `lisp_list` over a given object parser: `(`, whitespace,
      elements, whitespace, `)`, whitespace. */
  function ListOf(obj: Parser<L.LispObject>): (p: Parser<L.LispObject>)
    requires Progresses(obj) && Consumes(obj)
    ensures Progresses(p) && Consumes(p)
  {
    Map(ZipLeft(ZipLeft(ZipLeft(ZipRight(ZipLeft(Character('('), Many(Whitespace())),
                                         Many(Item(obj))),
                                 Many(Whitespace())),
                         Character(')')),
                 Many(Whitespace())),
        AsList)
  }

  /* `lisp_object` and `lisp_list` build each other anew on every call, so
     their recursion is driven by the input. Here it is the pair of closures
     below, each handing the other a parser that only answers on inputs the
     recursion has not reached yet (`ObjectBelow`, `ListUpTo`); the lemmas
     `LispObjectUnfold` and `LispListUnfold` show the bounds never cut in. */

  /** The closure of `lisp_object`. */
  function LispObjectFn(input: seq<char>): (r: Result<L.LispObject>)
    ensures r.Ok? ==> IsSuffix(r.rest, input) && |r.rest| < |input|
    decreases |input|, 3
  {
    ObjectOf(ListUpTo(|input|))(input)
  }

  /** `lisp_list` applied to `input`. */
  function LispListFn(input: seq<char>): (r: Result<L.LispObject>)
    ensures r.Ok? ==> IsSuffix(r.rest, input) && |r.rest| < |input|
    decreases |input|, 1
  {
    ListOf(ObjectBelow(|input|))(input)
  }

  /** `lisp_list` on inputs of at most `n` characters. */
  function ListUpTo(n: nat): (p: Parser<L.LispObject>)
    ensures Progresses(p) && Consumes(p)
    decreases n, 2
  {
    var p: Parser<L.LispObject> := s => if |s| <= n then LispListFn(s) else Err;
    assert Progresses(p) && Consumes(p) by {
      forall s | p(s).Ok? ensures IsSuffix(p(s).rest, s) && |p(s).rest| < |s| {
        if |s| <= n {
          var r := LispListFn(s);
          assert p(s) == r;
        }
      }
    }
    p
  }

  /** `lisp_object` on inputs shorter than `n` characters. */
  function ObjectBelow(n: nat): (p: Parser<L.LispObject>)
    ensures Progresses(p) && Consumes(p)
    decreases n, 0
  {
    var p: Parser<L.LispObject> := s => if |s| < n then LispObjectFn(s) else Err;
    assert Progresses(p) && Consumes(p) by {
      forall s | p(s).Ok? ensures IsSuffix(p(s).rest, s) && |p(s).rest| < |s| {
        if |s| < n {
          var r := LispObjectFn(s);
          assert p(s) == r;
        }
      }
    }
    p
  }

  /** `lisp_object`. */
  function LispObject(): Parser<L.LispObject> {
    FromFn(LispObjectFn)
  }

  /** `lisp_list`. */
  function LispList(): Parser<L.LispObject> {
    FromFn(LispListFn)
  }

  /** `lisp_object` over `list` tries a string, then an identifier, then `list`. */
  lemma ObjectOfAt(list: Parser<L.LispObject>, s: seq<char>)
    ensures ObjectOf(list)(s) ==
              if LispString()(s).Ok? then LispString()(s)
              else if LispIdent()(s).Ok? then LispIdent()(s)
              else list(s)
  {
    assert ObjectOf(list)(s) == Map(Or(Or(LispString(), LispIdent()), list), Get2)(s);
    OrGet2First(LispString(), LispIdent(), list, s);
  }

  /** `lisp_object` over `list`, with `string` and `ident` read by their
      reference functions: a string, else an identifier, else `list`. */
  function ObjectRef(list: Parser<L.LispObject>, s: seq<char>): Result<L.LispObject> {
    match QuotedLiteral(s)
    case Ok(text, t) => Ok(L.String(text), t)
    case Err =>
      match LeadingIdent(s)
      case Ok(name, t) => Ok(L.Ident(name), t)
      case Err => list(s)
  }

  /** The body of `lisp_object` is `ObjectRef`. */
  lemma ObjectOfRef(list: Parser<L.LispObject>, s: seq<char>)
    ensures ObjectOf(list)(s) == ObjectRef(list, s)
  {
    ObjectOfAt(list, s);
    LispStringAt(s);
    LispIdentAt(s);
    ChoiceRef(list, s, LispString()(s), LispIdent()(s));
  }

  /** `lisp_string` is `QuotedLiteral` with its text made a `String` node. */
  lemma LispStringAt(s: seq<char>)
    ensures LispString()(s) == match QuotedLiteral(s)
                               case Ok(text, t) => Ok(L.String(text), t)
                               case Err => Err
  {
    StrAt(s);
    assert LispString()(s) == Map(Str(), AsString)(s);
  }

  /** `lisp_ident` is `LeadingIdent` with its name made an `Ident` node. */
  lemma LispIdentAt(s: seq<char>)
    ensures LispIdent()(s) == match LeadingIdent(s)
                              case Ok(name, t) => Ok(L.Ident(name), t)
                              case Err => Err
  {
    IdentAt(s);
    assert LispIdent()(s) == Map(Ident(), AsIdent)(s);
  }

  lemma ChoiceRef(list: Parser<L.LispObject>, s: seq<char>, a: Result<L.LispObject>, b: Result<L.LispObject>)
    requires a == match QuotedLiteral(s)
                 case Ok(text, t) => Ok(L.String(text), t)
                 case Err => Err
    requires b == match LeadingIdent(s)
                 case Ok(name, t) => Ok(L.Ident(name), t)
                 case Err => Err
    ensures (if a.Ok? then a else if b.Ok? then b else list(s)) == ObjectRef(list, s)
  {
  }

  /** One round of the element loop of `lisp_list` over `obj`, with `elems`
      for the rounds after it: where no object starts the loop stops, else it
      takes the object and the whitespace after it and goes on. */
  function ElemsRef(obj: Parser<L.LispObject>, elems: Parser<seq<L.LispObject>>,
                    s: seq<char>): Result<seq<L.LispObject>> {
    match obj(s)
    case Err => Ok([], s)
    case Ok(x, r) => Prepend([x], elems(SkipWhitespace(r)))
  }

  /** The element loop of `lisp_list` is `ElemsRef` over itself. */
  lemma ItemsAt(obj: Parser<L.LispObject>, s: seq<char>)
    requires Progresses(obj) && Consumes(obj)
    ensures Many(Item(obj))(s) == ElemsRef(obj, Many(Item(obj)), s)
  {
    ThenWhitespace(obj, s);
    if obj(s).Ok? {
      ManyStep(Item(obj), s);
    }
  }

  /** What `lisp_list` does once the elements are read: whitespace, the
      closing parenthesis, whitespace. */
  function CloseList(items: Result<seq<L.LispObject>>): Result<L.LispObject> {
    match items
    case Err => Err
    case Ok(vs, r) =>
      var r' := SkipWhitespace(r);
      if |r'| > 0 && r'[0] == ')' then Ok(L.List(vs), SkipWhitespace(r'[1..])) else Err
  }

  /** `lisp_list` over an element loop `elems`: an opening parenthesis, then
      the elements read after the whitespace that follows it, then `CloseList`. */
  function ListRef(elems: Parser<seq<L.LispObject>>, s: seq<char>): Result<L.LispObject> {
    if |s| == 0 || s[0] != '(' then Err
    else CloseList(elems(SkipWhitespace(s[1..])))
  }

  /** `lisp_list` unfolded into `ListRef` over its element loop. */
  lemma ListAt(obj: Parser<L.LispObject>, s: seq<char>)
    requires Progresses(obj) && Consumes(obj)
    ensures ListOf(obj)(s) == ListRef(Many(Item(obj)), s)
  {
    var ws := Many(Whitespace());
    var p1 := ZipLeft(Character('('), ws);
    var p2 := ZipRight(p1, Many(Item(obj)));
    var p3 := ZipLeft(p2, ws);
    var p4 := ZipLeft(p3, Character(')'));
    ThenWhitespace(Character('('), s);
    ThenWhitespace(p2, s);
    ThenWhitespace(p4, s);
  }

  /** `lisp_list` only consults its object parser on text shorter than its input. */
  lemma ListOfAgree(o1: Parser<L.LispObject>, o2: Parser<L.LispObject>, s: seq<char>)
    requires Progresses(o1) && Consumes(o1) && Progresses(o2) && Consumes(o2)
    requires forall t :: |t| < |s| ==> o1(t) == o2(t)
    ensures ListOf(o1)(s) == ListOf(o2)(s)
  {
    ListAt(o1, s);
    ListAt(o2, s);
    if |s| > 0 && s[0] == '(' {
      var r := SkipWhitespace(s[1..]);
      forall t | IsSuffix(t, r) ensures Item(o1)(t) == Item(o2)(t) {
        ThenWhitespace(o1, t);
        ThenWhitespace(o2, t);
      }
      ManyAgree(Item(o1), Item(o2), r);
    }
  }

  /** `lisp_object` is the string/identifier/list choice over `lisp_list`:
      the length bound of the recursion never cuts in. */
  lemma LispObjectUnfold(s: seq<char>)
    ensures LispObject()(s) == ObjectOf(LispList())(s)
  {
    assert LispObject()(s) == ObjectOf(ListUpTo(|s|))(s);
    assert ListUpTo(|s|)(s) == LispList()(s);
    ObjectOfAt(ListUpTo(|s|), s);
    ObjectOfAt(LispList(), s);
  }

  /** `lisp_object` and `lisp_list` drop a non-empty prefix of their input. */
  lemma LispAdvances()
    ensures Progresses(LispObject()) && Consumes(LispObject())
    ensures Progresses(LispList()) && Consumes(LispList())
  {
  }

  /** `lisp_list` is the list grammar over `lisp_object`: the length bound of
      the recursion never cuts in. */
  lemma LispListUnfold(s: seq<char>)
    ensures LispList()(s) == ListOf(LispObject())(s)
  {
    LispAdvances();
    assert LispList()(s) == ListOf(ObjectBelow(|s|))(s);
    forall t | |t| < |s| ensures ObjectBelow(|s|)(t) == LispObject()(t) {
    }
    ListOfAgree(ObjectBelow(|s|), LispObject(), s);
  }
}
