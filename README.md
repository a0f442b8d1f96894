# lisparser in Dafny

This project models `lisparser`, a small Rust library with two parts:

- a generic parser-combinator engine (`src/parser_comb.rs`);
- an s-expression grammar built from that engine (`src/lisp_comb.rs`). It produces the `LispObject` tree of `src/lib.rs`.

The model has five modules:

- **`Lib`** (`lib.dfy`): the `LispObject` tree. It has three cases: `List` of sub-trees, `String` text and `Ident` name.
- **`ParserComb`** (`parser_comb.dfy`): the engine.
  - A parser is a function from the text still to be read to `Ok(value, rest)` or `Err`.
  - It covers the entry point `parse`, the primitives, the sequencing and mapping combinators, `or` with its tagged `Either` and the `Get` projections, `many` and `until`.
  - The loops of `many` and `Until::parse` are also written as they appear in the source, as methods with `while` loops (`RunMany`, `RunUntil`). Each method is proved equal to the recursive function that specifies it.
  - `many` and `until` are also characterised without loops, as chains of successes of the element parser.
  - One-character recognisers are characterised by the longest matching prefix (`Span`).
- **`LispComb`** (`lisp_comb.dfy`): `string`, `ident`, `number`, `lisp_string`, `lisp_ident`, `lisp_object` and `lisp_list`.
  - Each is built only from the engine's combinators, as in the source.
  - `string`, `ident` and `number` are each proved equal to a parser-free reference reading (`QuotedLiteral`, `LeadingIdent`, and `Decimal` over the longest digit run). Each reading is characterised in turn.
  - `lisp_object` and `lisp_list` are proved equal to reference readings that still take the other parser as an argument: `ObjectRef` over `lisp_list`, and `ListRef` over the element loop, which ends with `CloseList`. These two are characterised by the grammar equations (`LispSolves`) and by the round trip below.
  - `lisp_object` and `lisp_list` build each other on every call. They are modelled as two closures on the input, each guarded by the input length, and two lemmas show the guard never changes a result.
- **`LispRoundTrip`** (`lisp_roundtrip.dfy`): a reference printer `Print` (one space between list elements). The central result is that `lisp_object` reads every printed well-formed tree back as itself. Well-formed means that no string text holds a `"` and every identifier is a well-formed name. In the source this holds only when the string texts are ASCII: `any` drops one byte, so a non-ASCII character inside a string literal makes it panic.
  - The proof goes through the grammar's equations (`Solves`): any object, list and element parser that satisfy them read printed text back.
  - The real parsers satisfy them (`LispSolves`).
- **`EngineExamples`** and **`LispExamples`** (`engine_examples.dfy`, `lisp_examples.dfy`): every unit test of both source files, stated as lemmas about the model. This includes the nested list of the grammar's main test.

## Model

| member | source | states |
|---|---|---|
| ParserComb.Parse | src/parser_comb.rs:21-28 | `parse` succeeds exactly when the parser succeeds with nothing left over, and then returns the parser's value |
| ParserComb.ParseWhole | src/parser_comb.rs:21-28 | a parser that reads the whole input makes `parse` return its value |
| ParserComb.FromFn | src/parser_comb.rs:335-358 | `from_fn(f)` behaves as `f` on every input |
| ParserComb.Character | src/parser_comb.rs:254-265 | succeeds exactly when the input starts with `c`, returning `c` and the input after its first character; never succeeds without consuming |
| ParserComb.Any | src/parser_comb.rs:283-291 | succeeds exactly on non-empty input, returning the first character and the rest |
| ParserComb.OneOf | src/parser_comb.rs:301-316 | succeeds exactly when the first character occurs in `chars`; so `one_of("")` fails on every input |
| ParserComb.Range | src/parser_comb.rs:318-333 | succeeds exactly when the first character lies in `lo..=hi`; an empty range fails on every input |
| ParserComb.Map | src/parser_comb.rs:182-199 | succeeds exactly when the inner parser does, with `f` of its value and the same remainder; keeps consumption and progress |
| ParserComb.FlatMap | src/parser_comb.rs:146-163 | succeeds exactly when the parser and then `f(value)` on its remainder succeed, and its result is the latter's |
| ParserComb.FlatMapConsumes | src/parser_comb.rs:160-163 | `flat_map` drops only a prefix of the input when its parts do |
| ParserComb.ZipLeft | src/parser_comb.rs:106-124 | runs left then right on left's remainder, fails if either fails, keeps the left value and right's remainder |
| ParserComb.ZipRight | src/parser_comb.rs:126-144 | runs left then right on left's remainder, fails if either fails, and its result is right's |
| ParserComb.Or | src/parser_comb.rs:201-222 | left-biased: `A(v)` with first's remainder when first succeeds, otherwise second's result on the same input tagged `B`; fails exactly when both fail |
| ParserComb.FirstOfSnoc | src/parser_comb.rs:214-221 | choosing among `ps + [r]` is choosing among `ps`, then falling back to `r` |
| ParserComb.Get | src/parser_comb.rs:230-252 | `get` on one `Either`: the value of whichever side it holds; no contract of its own, `OrGet` states what it does after `or` |
| ParserComb.Get2 | src/parser_comb.rs:240-252 | `get` on `Either<Either<T,T>,T>`, recursing into the left side as the trait impl does; `OrGet2` states its meaning |
| ParserComb.Get3 | src/parser_comb.rs:240-252 | `get` on three nested `Either`s; `OrGet3` states its meaning |
| ParserComb.OrGet | src/parser_comb.rs:230-252 | `or` followed by `Get` is untagged first-success choice over `[p, q]` |
| ParserComb.OrGet2 | src/parser_comb.rs:230-252 | the same through one nested `Either` (`Either<Either<T,T>,T>`) over `[p, q, r]` |
| ParserComb.OrGet3 | src/parser_comb.rs:230-252 | the same through two nested `Either`s over `[p, q, r, u]` |
| ParserComb.FirstOf3 | src/parser_comb.rs:214-221 | first-success choice of three is the first alternative that succeeds, tried in order |
| ParserComb.OrGet2First | src/parser_comb.rs:214-252 | `p.or(q).or(r).map(Get::get)` returns the result of the first of `p`, `q`, `r` that succeeds |
| ParserComb.MapMap | src/parser_comb.rs:195-198 | mapping twice is mapping once with the composed function |
| ParserComb.ZipRightIsFlatMap | src/parser_comb.rs:139-163 | `zip_right` is `flat_map` with a continuation that ignores the value |
| ParserComb.ZipLeftIsFlatMap | src/parser_comb.rs:119-163 | `zip_left` is `flat_map` into the right parser mapped back to the left value |
| ParserComb.ManyFrom | src/parser_comb.rs:268-281 | the `many` loop never fails, stops where the element parser fails, and leaves a suffix of the input |
| ParserComb.Many | src/parser_comb.rs:268-281 | `many(p)` never fails, its remainder is where `p` fails, with no success it returns `[]` and the input unchanged |
| ParserComb.ManyStep | src/parser_comb.rs:274-278 | one round of the loop: a success of `p`, then `many` on what is left |
| ParserComb.RunMany | src/parser_comb.rs:268-281 | the `while let` loop that pushes into `parsed` returns exactly `Many(p)(input)` |
| ParserComb.ManyIsMaximalChain | src/parser_comb.rs:268-281 | `many(p)` returns `(vs, r)` exactly when `vs` are successive successes of `p` from the input to `r` and `p` fails at `r` |
| ParserComb.ScanFrom | src/parser_comb.rs:96-102 | the `Until` loop succeeds only at a point where the terminator matches, and leaves a suffix of the input |
| ParserComb.Until | src/parser_comb.rs:78-104 | fails on empty input; on success the terminator matches at the (unconsumed) remainder; returns `[]` at once where the terminator matches; fails when neither parser matches |
| ParserComb.PrependScan | src/parser_comb.rs:97-101 | one round of the `Until` loop seen from the accumulated values |
| ParserComb.RunUntil | src/parser_comb.rs:91-103 | the early return on empty input and the `while let Err` loop return exactly `Until(p, t)(input)` |
| ParserComb.UntilIsChainToTerminator | src/parser_comb.rs:91-103 | `until` returns `(vs, r)` exactly when the input is non-empty, `vs` are successes of `p` each taken where the terminator fails, and the terminator matches at `r`; so it fails as soon as `p` fails before the terminator |
| ParserComb.ScanIsChainToTerminator | src/parser_comb.rs:96-102 | the same for the loop itself |
| ParserComb.UntilWithoutTerminatorFails | src/parser_comb.rs:91-103 | `until` fails when the terminator matches at no suffix of the input |
| ParserComb.RecognizerProgresses | src/parser_comb.rs:254-333 | a one-character recogniser consumes exactly one character on success |
| ParserComb.ManyRecognizer | src/parser_comb.rs:268-281 | `many` over a one-character recogniser returns the longest matching prefix, mapped, and the text after it |
| ParserComb.ManyFromRecognizer | src/parser_comb.rs:274-279 | the same for the loop |
| ParserComb.ManyOverPrefix | src/parser_comb.rs:268-281 | `many` over a recogniser takes exactly the first `k` characters when they match and the next does not |
| ParserComb.UntilAnyTo | src/parser_comb.rs:91-103 | `any().until(character(c))` returns the text up to the first `c` and leaves that `c` unconsumed, and fails when there is no `c` |
| ParserComb.ScanAnyTo | src/parser_comb.rs:96-102 | the same for the loop on non-empty input |
| ParserComb.ManyAgree | src/parser_comb.rs:268-281 | `many` only consults its element parser on the input and its suffixes |
| ParserComb.Whitespace | src/parser_comb.rs:293-299 | `whitespace` takes exactly one space, newline or tab, with value `()` |
| ParserComb.SkipWhitespace | src/parser_comb.rs:293-299 | the text after the leading whitespace is a suffix of the input that starts with no whitespace |
| ParserComb.ManyWhitespace | src/parser_comb.rs:268-299 | `many(whitespace())` always succeeds and leaves exactly the input without its leading whitespace |
| ParserComb.ThenWhitespace | src/lisp_comb.rs:78 | `p.zip_left(many(whitespace()))` is `p` followed by skipping whitespace |
| LispComb.Str | src/lisp_comb.rs:7-12 | `string`, built from `character`, `flat_map`, `until`, `zip_left` and `map` as in the source; no contract of its own: `StrAt` proves it equals `QuotedLiteral`, and `StrSpec` says what it returns |
| LispComb.StrSteps | src/lisp_comb.rs:7-12 | `string` unfolded: the opening quote, the scan up to a quote, the closing quote |
| LispComb.StrAt | src/lisp_comb.rs:7-12 | `string` is exactly the reference reading `QuotedLiteral` |
| LispComb.StrAtValues | src/lisp_comb.rs:8-11 | the closing-quote step of `string` over the scan result is `QuotedLiteral` |
| LispComb.QuotedLiteralSpec | src/lisp_comb.rs:7-12 | the reading succeeds exactly on input starting with a quote that has another quote later; its text holds no quote and the input is quote, text, quote, rest |
| LispComb.StrSpec | src/lisp_comb.rs:7-12 | the same for `string`: no escapes, fails on empty input and on a literal without a closing quote |
| LispComb.LiteralOfText | src/lisp_comb.rs:7-12 | the reading of `"text"` followed by anything is `text` and that remainder |
| LispComb.StrParsesLiteral | src/lisp_comb.rs:7-12 | `string` on `'"' + text + '"' + t`, with no quote in `text`, returns `text` and `t` |
| LispComb.StrAdvances | src/lisp_comb.rs:7-12 | `string` drops a non-empty prefix of its input |
| LispComb.IdentStart | src/lisp_comb.rs:17-20 | the first-character parser accepts exactly `_`, a-z and A-Z, returning the character |
| LispComb.IdentChar | src/lisp_comb.rs:21-27 | the later-character parser accepts exactly `_`, a-z, A-Z and 0-9 |
| LispComb.FirstOf4 | src/lisp_comb.rs:21-26 | four-way first-success choice is the first alternative that succeeds |
| LispComb.IdentFn | src/lisp_comb.rs:16-36 | the closure of `ident`: a start character, then `many` of identifier characters, concatenated; `IdentAt` proves it equals `LeadingIdent` |
| LispComb.Ident | src/lisp_comb.rs:15-37 | `ident` as `from_fn` of that closure; `IdentSpec` says what it returns |
| LispComb.IdentAt | src/lisp_comb.rs:15-37 | `ident` is exactly the reference reading `LeadingIdent` |
| LispComb.LeadingIdentSpec | src/lisp_comb.rs:15-37 | the reading succeeds exactly on input starting with `_` or a letter, returning a well-formed name that with the remainder makes up the input, and the remainder cannot continue the name |
| LispComb.IdentSpec | src/lisp_comb.rs:15-37 | the same for `ident`: non-empty, maximal, and name plus remainder is the input |
| LispComb.IdentAdvances | src/lisp_comb.rs:15-37 | `ident` drops a non-empty prefix of its input |
| LispComb.LeadingIdentOfName | src/lisp_comb.rs:15-37 | a name followed by text that cannot continue it reads as that name |
| LispComb.IdentParsesName | src/lisp_comb.rs:15-37 | the same for `ident` |
| LispComb.ParseI32 | src/lisp_comb.rs:45 | the `str::parse::<i32>` call on the digit run; `ParseI32Spec` states its result |
| LispComb.Accumulate | src/lisp_comb.rs:45 | the checked digit-by-digit accumulation behind it; `AccumulateDecimal` states its result |
| LispComb.DecimalGrows | src/lisp_comb.rs:45 | appending digits never lowers the decimal value |
| LispComb.AccumulateDecimal | src/lisp_comb.rs:45 | digit-by-digit accumulation with an `i32::MAX` check gives the decimal value exactly when it fits |
| LispComb.ParseI32Spec | src/lisp_comb.rs:45 | parsing a digit run as `i32` fails on the empty run and on a value above `i32::MAX`, and otherwise gives the decimal value |
| LispComb.NumberFn | src/lisp_comb.rs:41-50 | the closure of `number`: `many` of digits, then the `i32` parse, failing when that parse fails; `NumberSpec` states its result |
| LispComb.Number | src/lisp_comb.rs:40-51 | `number` as `from_fn` of that closure; `NumberSpec` states its result |
| LispComb.NumberSpec | src/lisp_comb.rs:40-51 | `number` succeeds exactly when the input starts with a digit and the value of its longest digit run fits in an `i32`; it returns that value and the text after the digits |
| LispComb.ObjectOf | src/lisp_comb.rs:64-72 | the body of `lisp_object` consumes and progresses whenever its list parser does |
| LispComb.ListOf | src/lisp_comb.rs:75-83 | the body of `lisp_list` consumes and progresses |
| LispComb.LispObjectFn | src/lisp_comb.rs:64-72 | the closure of `lisp_object` leaves a strictly shorter suffix on success |
| LispComb.LispListFn | src/lisp_comb.rs:75-83 | `lisp_list` leaves a strictly shorter suffix on success |
| LispComb.ListUpTo | src/lisp_comb.rs:75-83 | the length-guarded `lisp_list` consumes and progresses |
| LispComb.ObjectBelow | src/lisp_comb.rs:64-72 | the length-guarded `lisp_object` consumes and progresses |
| LispComb.ObjectOfAt | src/lisp_comb.rs:64-72 | `lisp_object` tries a string, then an identifier, then a list, and returns the first that succeeds |
| LispComb.ListAt | src/lisp_comb.rs:75-83 | `lisp_list` needs `(`, skips whitespace, reads elements each followed by whitespace, skips whitespace, needs `)`, then consumes the whitespace after it |
| LispComb.ItemsAt | src/lisp_comb.rs:78 | the element loop stops with no elements where no object starts; otherwise it takes one object, the whitespace after it, and then loops |
| LispComb.LispString | src/lisp_comb.rs:54-56 | `lisp_string` as `string` mapped to a `String` node; `LispStringAt` states its result |
| LispComb.LispIdent | src/lisp_comb.rs:59-61 | `lisp_ident` as `ident` mapped to an `Ident` node; `LispIdentAt` states its result |
| LispComb.LispStringAt | src/lisp_comb.rs:54-56 | `lisp_string` succeeds exactly where the quoted-literal reading does, with a `String` node of its text |
| LispComb.LispIdentAt | src/lisp_comb.rs:59-61 | `lisp_ident` succeeds exactly where the leading-name reading does, with an `Ident` node of the name |
| LispComb.ObjectOfRef | src/lisp_comb.rs:64-72 | the body of `lisp_object` is a `String` node of a quoted literal if one starts the input, else an `Ident` node of a leading name, else the list parser's result |
| LispComb.ListOfAgree | src/lisp_comb.rs:75-83 | `lisp_list` only consults its object parser on text shorter than its input |
| LispComb.LispObject | src/lisp_comb.rs:64-72 | `lisp_object` as `from_fn` of its closure; `LispObjectUnfold`, `ObjectOfRef` and `LispSolves` state its result |
| LispComb.LispList | src/lisp_comb.rs:75-83 | `lisp_list`; `LispListUnfold`, `ListAt` and `LispSolves` state its result |
| LispComb.LispObjectUnfold | src/lisp_comb.rs:64-72 | `lisp_object` is the string/identifier/list choice over `lisp_list`; the recursion guard never cuts in |
| LispComb.LispListUnfold | src/lisp_comb.rs:75-83 | `lisp_list` is the list grammar over `lisp_object`; the recursion guard never cuts in |
| LispComb.LispAdvances | src/lisp_comb.rs:64-83 | `lisp_object` and `lisp_list` drop a non-empty prefix of their input |
| LispRoundTrip.LispSolves | src/lisp_comb.rs:64-83 | `lisp_object`, `lisp_list` and the element loop solve the grammar's three equations on every input: an object is a quoted literal, else a name, else a list; a list is `(`, whitespace, the elements, then a `)`; the elements are an object and its trailing whitespace followed by more elements, or none |
| LispRoundTrip.ListStep | src/lisp_comb.rs:64-72 | text starting with neither a quote nor an identifier start is handed to `lisp_list` |
| LispRoundTrip.ListFromElems | src/lisp_comb.rs:75-83 | a `(`, elements up to a `)`, gives a `List` node and skips the whitespace after `)` |
| LispRoundTrip.ListFailsAtClose | src/lisp_comb.rs:76 | no list starts with `)` |
| LispRoundTrip.ObjectFailsAtClose | src/lisp_comb.rs:64-83 | no object starts with `)` |
| LispRoundTrip.ElemsStop | src/lisp_comb.rs:78 | the element loop returns no elements where no object starts |
| LispRoundTrip.ElemsStep | src/lisp_comb.rs:78 | one element, the whitespace after it, then the rest of the elements |
| LispRoundTrip.StringRoundTrip | src/lisp_comb.rs:7-12 | a quoted text without quotes reads back as its `String` node |
| LispRoundTrip.IdentRoundTrip | src/lisp_comb.rs:15-37 | a well-formed name followed by a non-identifier character reads back as its `Ident` node |
| LispRoundTrip.ObjectRoundTrip | src/lisp_comb.rs:64-83 | every printed well-formed tree reads back as itself; a list also takes the whitespace after it |
| LispRoundTrip.ListRoundTrip | src/lisp_comb.rs:75-83 | a printed list reads back as itself, with the whitespace after it |
| LispRoundTrip.ItemsRoundTrip | src/lisp_comb.rs:78 | the printed elements of a list read back as themselves and stop at `)` |
| LispRoundTrip.AdjacentStrings | src/lisp_comb.rs:78 | two string elements need no whitespace between them: `("a""b")` is a list of two strings |
| LispRoundTrip.AdjacentElems | src/lisp_comb.rs:78 | the element loop reads two adjacent strings up to `)` |
| LispRoundTrip.LispListAdjacentStrings | src/lisp_comb.rs:75-83 | `lisp_list` reads two adjacent strings as two elements |
| LispRoundTrip.LispObjectReadsPrinted | src/lisp_comb.rs:64-72 | `lisp_object` reads every printed well-formed tree back as itself |
| LispRoundTrip.WholeRoundTrip | src/lisp_comb.rs:64-83 | any parsers solving the grammar's equations read a printed well-formed tree whole, with nothing left |
| LispRoundTrip.PrintedReadsWhole | src/lisp_comb.rs:64-83 | `lisp_object` reads the printed text of every well-formed tree back as that tree with nothing left |
| LispRoundTrip.ParsePrinted | src/lisp_comb.rs:64-72 | `parse(lisp_object(), text)` of a printed tree returns that tree |
| EngineExamples.CharacterExamples | src/parser_comb.rs:431-440 | `character('2')` fails on `12` and on empty input; `character('1')` takes `1` of `12` and `character('2')` the rest |
| EngineExamples.AnyExamples | src/parser_comb.rs:454-463 | `any` takes `(` of `()` and fails on empty input |
| EngineExamples.ZipExamples | src/parser_comb.rs:373-391 | `zip_left` gives `a` and `zip_right` gives `b` on `ab`; both fail on empty input |
| EngineExamples.FlatMapExample | src/parser_comb.rs:393-404 | `any().flat_map(_ => character('b'))` gives `b` on `ab` and fails on empty input |
| EngineExamples.MapExample | src/parser_comb.rs:406-414 | `character('a')` mapped to upper case gives `A`, and fails on empty input |
| EngineExamples.OrExamples | src/parser_comb.rs:416-429 | `character('a').or(character('b'))` gives `A('a')` on `a`, `B('b')` on `b`, and fails on empty input |
| EngineExamples.ManyOnes | src/parser_comb.rs:442-447 | `many(character('1'))` on `1111222` gives four ones and remainder `222` |
| EngineExamples.ManyTwos | src/parser_comb.rs:444-448 | `many(character('2'))` on `222` gives three twos and remainder empty |
| EngineExamples.ManyNothing | src/parser_comb.rs:450 | `many` on empty input gives no values |
| EngineExamples.UntilHello | src/parser_comb.rs:364-368 | `any().until(character('!'))` on `hello!` gives `hello` and remainder `!` |
| EngineExamples.UntilNothing | src/parser_comb.rs:369 | `until` fails on empty input |
| EngineExamples.WhitespaceBlanks | src/parser_comb.rs:465-469 | `many(whitespace())` on the blanks before `asdf` gives nine units and remainder `asdf` |
| EngineExamples.WhitespaceNothing | src/parser_comb.rs:470 | `many(whitespace())` on empty input gives no values |
| EngineExamples.OneOfRun | src/parser_comb.rs:474-478 | `many(one_of("123"))` on `2231235` gives `223123` and remainder `5` |
| EngineExamples.OneOfNothing | src/parser_comb.rs:480-481 | `many(one_of("123"))` on empty input gives no values; `one_of("")` fails on `123` |
| EngineExamples.RangeRun | src/parser_comb.rs:485-489 | `many(range('a'..='z'))` on `hello!` gives `hello` and remainder `!` |
| EngineExamples.RangeNothing | src/parser_comb.rs:491-492 | `many` of a range on empty input gives no values; `range('a'..='a')` fails on `123` |
| LispExamples.StringHello | src/lisp_comb.rs:92-95 | `string` on `"hello"` gives `hello` and nothing left |
| LispExamples.StringEmpty | src/lisp_comb.rs:96 | `string` fails on empty input |
| LispExamples.IdentHello | src/lisp_comb.rs:100-104 | `ident` on `hello` gives `hello` and nothing left |
| LispExamples.Decimal123 | src/lisp_comb.rs:107-110 | the digits `123` have the value 123 |
| LispExamples.Number123 | src/lisp_comb.rs:107-110 | `number` on `123` gives 123 and nothing left |
| LispExamples.NumberFails | src/lisp_comb.rs:111-112 | `number` fails on empty input and on `asd` |
| LispExamples.LispStringAyo | src/lisp_comb.rs:116-119 | `lisp_string` on `"ayo"` gives the node `String("ayo")` |
| LispExamples.LispStringOf | src/lisp_comb.rs:54-56 | `lisp_string` wraps the result of `string` in a `String` node |
| LispExamples.LispStringEmpty | src/lisp_comb.rs:120 | `lisp_string` fails on empty input |
| LispExamples.LispIdentFoo | src/lisp_comb.rs:124-127 | `lisp_ident` on `foo` gives `Ident("foo")` and nothing left |
| LispExamples.LispIdentEmpty | src/lisp_comb.rs:128 | `lisp_ident` fails on empty input |
| LispExamples.LispListEmpty | src/lisp_comb.rs:132-135 | `lisp_list` on `()` gives the empty list and nothing left |
| LispExamples.LispListNoInput | src/lisp_comb.rs:137 | `lisp_list` fails on empty input |
| LispExamples.LispObjectNoInput | src/lisp_comb.rs:64-72 | `lisp_object` fails on empty input |
| LispExamples.SampleText | src/lisp_comb.rs:144-146 | the input of the main test is exactly the printed text of its expected tree |
| LispExamples.LispSample | src/lisp_comb.rs:141-162 | `lisp_object` on the main test's input gives the expected nested tree and nothing left |

## Left out

- Input is a sequence of characters, and each primitive drops one character. The source drops one byte (`&input[1..]`). That is the same wherever the consumed character is ASCII. When a primitive consumes a multi-byte character (`any`, or a `character`, `one_of` or `range` that matches it), the source panics, and the model does not capture that panic. A primitive that rejects such a character returns `Err` in both.
- Parsers are pure functions. The source's `&mut self` and `FnMut` are not modelled, because no parser in the repository keeps state between calls.
- ParserComb.Many: requires that the element parser strictly shortens its input on success (`Progresses`). The source's loop runs forever on an element parser that succeeds without consuming, and that non-termination is not modelled.
- ParserComb.Until: requires the same of its element parser, for the same reason.
- The commented-out `zip` (src/parser_comb.rs:166-180) is dead code and is not modelled.
- The Rust derive attributes and `#[must_use]` are not modelled.
- The wiring of `src/lib.rs` is not modelled: the crate documentation, the module declarations and the re-exports. `LispObject` is modelled as the datatype `Lib.LispObject`.
- `number`'s call to `str::parse::<i32>` is modelled only on the digit runs it can receive: checked decimal accumulation that fails on the empty run and above `i32::MAX`. Sign handling and non-digit input are not modelled.
- `number` is not reachable from `lisp_object`, and the tree has no numeric node; the model adds none.
- `Get` is a trait in the source, resolved by type. The model has one projection per nesting the source uses: `Get` for a single `Either`, and `Get2` and `Get3`, built on it, for the two- and three-level nestings that `ident` and `lisp_object` produce.
- `lisp_object` and `lisp_list` construct each other anew on every call. The model instead guards each recursive call by the input length, and two lemmas show that the guard never changes a result.
- The printer `Print` is a reference definition used only to state the round trip. The library has no printer.
