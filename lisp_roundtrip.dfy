/** Printing a syntax tree back to text, and the proof that `lisp_object`
    reads every printed tree back as itself. */
module LispRoundTrip {
  import opened ParserComb
  import opened LispComb
  import L = Lib

  // ---------------------------------------------------------------------------
  // Printing

  /** The text of a tree: strings between double quotes, identifiers as they
      are, lists in parentheses with one space between elements. */
  function Print(o: L.LispObject): string
    decreases o, 1
  {
    match o
    case String(text) => ['"'] + text + ['"']
    case Ident(name) => name
    case List(items) => "(" + PrintItems(items) + ")"
  }

  function PrintItems(items: seq<L.LispObject>): string
    decreases items, 0
  {
    if items == [] then []
    else if |items| == 1 then Print(items[0])
    else Print(items[0]) + " " + PrintItems(items[1..])
  }

  /** The trees the grammar can produce: no quote inside a string, and every
      identifier a start character followed by identifier characters. */
  predicate WellFormed(o: L.LispObject) {
    match o
    case String(text) => '"' !in text
    case Ident(name) => IsIdentName(name)
    case List(items) => forall i :: 0 <= i < |items| ==> WellFormed(items[i])
  }

  /** A printed tree starts with a quote, a parenthesis or an identifier start. */
  lemma PrintStart(o: L.LispObject)
    requires WellFormed(o)
    ensures |Print(o)| > 0
    ensures Print(o)[0] == '"' || Print(o)[0] == '(' || IsIdentStart(Print(o)[0])
  {
  }

  /** A printed element sequence starts as its first element's text does. */
  lemma PrintItemsStart(items: seq<L.LispObject>)
    requires forall i :: 0 <= i < |items| ==> WellFormed(items[i])
    requires items != []
    ensures |PrintItems(items)| > 0
    ensures var c := PrintItems(items)[0]; c == '"' || c == '(' || IsIdentStart(c)
  {
    var first := Print(items[0]);
    assert WellFormed(items[0]);
    PrintStart(items[0]);
    var rest := PrintItemsHead(items);
    HeadOfConcat(first, rest);
  }

  /** The text of the elements is that of the first one, then the rest. */
  lemma PrintItemsHead(items: seq<L.LispObject>) returns (rest: string)
    requires items != []
    ensures PrintItems(items) == Print(items[0]) + rest
  {
    if |items| == 1 {
      rest := [];
      assert Print(items[0]) + rest == Print(items[0]);
    } else {
      rest := " " + PrintItems(items[1..]);
      assert PrintItems(items) == Print(items[0]) + " " + PrintItems(items[1..]);
    }
  }

  /** The text of the elements, one element peeled off. */
  lemma PrintItemsCons(items: seq<L.LispObject>, u: string)
    requires items != []
    ensures PrintItems(items) + u ==
              Print(items[0]) + if |items| == 1 then u else " " + PrintItems(items[1..]) + u
  {
  }

  // ---------------------------------------------------------------------------
  // Whitespace facts

  lemma SkipNothing(u: seq<char>)
    requires u == [] || !IsWhitespace(u[0])
    ensures SkipWhitespace(u) == u
  {
    assert Span(IsWhitespace, u) == 0;
  }

  lemma SkipSpace(u: seq<char>)
    ensures SkipWhitespace(" " + u) == SkipWhitespace(u)
  {
    assert (" " + u)[1..] == u;
  }

  lemma SkipTwice(u: seq<char>)
    ensures SkipWhitespace(SkipWhitespace(u)) == SkipWhitespace(u)
  {
    SkipNothing(SkipWhitespace(u));
  }

  // ---------------------------------------------------------------------------
  // The grammar as equations

  /** At `s`, `obj` behaves as the body of `lisp_object` over `list`. */
  ghost predicate ObjectEquation(obj: Parser<L.LispObject>, list: Parser<L.LispObject>, s: seq<char>) {
    obj(s) == ObjectRef(list, s)
  }

  /** At `s`, `list` behaves as the body of `lisp_list` over the element loop `elems`. */
  ghost predicate ListEquation(list: Parser<L.LispObject>, elems: Parser<seq<L.LispObject>>, s: seq<char>) {
    list(s) == ListRef(elems, s)
  }

  /** At `s`, `elems` behaves as the element loop of `lisp_list` over `obj`. */
  ghost predicate ElemsEquation(obj: Parser<L.LispObject>, elems: Parser<seq<L.LispObject>>, s: seq<char>) {
    elems(s) == ElemsRef(obj, elems, s)
  }

  /** `obj`, `list` and `elems` solve the grammar's equations everywhere, as
      `lisp_object`, `lisp_list` and the element loop of `lisp_list` do
      (`LispSolves`). The equations read strings and identifiers by their
      reference functions, so the round-trip proofs below, which use them one
      input at a time, never unfold a combinator. */
  ghost predicate Solves(obj: Parser<L.LispObject>, list: Parser<L.LispObject>, elems: Parser<seq<L.LispObject>>) {
    && (forall s :: ObjectEquation(obj, list, s))
    && (forall s :: ListEquation(list, elems, s))
    && (forall s :: ElemsEquation(obj, elems, s))
  }

  lemma LispSolves()
    ensures Progresses(LispObject()) && Consumes(LispObject())
    ensures Solves(LispObject(), LispList(), Many(Item(LispObject())))
  {
    LispAdvances();
    forall s ensures ObjectEquation(LispObject(), LispList(), s) {
      LispObjectUnfold(s);
      ObjectOfRef(LispList(), s);
    }
    forall s ensures ListEquation(LispList(), Many(Item(LispObject())), s) {
      LispListUnfold(s);
      ListAt(LispObject(), s);
    }
    forall s ensures ElemsEquation(LispObject(), Many(Item(LispObject())), s) {
      ItemsAt(LispObject(), s);
    }
  }

  // ---------------------------------------------------------------------------
  // One step of each equation

  /** Text that starts with neither a quote nor an identifier start goes to `list`. */
  lemma ListStep(obj: Parser<L.LispObject>, list: Parser<L.LispObject>, elems: Parser<seq<L.LispObject>>,
                 s: seq<char>)
    requires Solves(obj, list, elems)
    requires |s| > 0 && s[0] != '"' && !IsIdentStart(s[0])
    ensures obj(s) == list(s)
  {
    assert ObjectEquation(obj, list, s);
  }

  /** A list whose elements read from `(` up to `)`. */
  lemma ListFromElems(obj: Parser<L.LispObject>, list: Parser<L.LispObject>, elems: Parser<seq<L.LispObject>>,
                      s: seq<char>, items: seq<L.LispObject>, r: seq<char>)
    requires Solves(obj, list, elems)
    requires |s| > 0 && s[0] == '('
    requires elems(SkipWhitespace(s[1..])) == Ok(items, r)
    requires |r| > 0 && r[0] == ')'
    ensures list(s) == Ok(L.List(items), SkipWhitespace(r[1..]))
  {
    assert ListEquation(list, elems, s);
    CloseAt(items, r);
  }

  /** A closing parenthesis right after the elements ends the list. */
  lemma CloseAt(items: seq<L.LispObject>, r: seq<char>)
    requires |r| > 0 && r[0] == ')'
    ensures CloseList(Ok(items, r)) == Ok(L.List(items), SkipWhitespace(r[1..]))
  {
    SkipNothing(r);
  }

  /** No list starts with a closing parenthesis. */
  lemma ListFailsAtClose(obj: Parser<L.LispObject>, list: Parser<L.LispObject>, elems: Parser<seq<L.LispObject>>,
                         u: seq<char>)
    requires Solves(obj, list, elems)
    requires |u| > 0 && u[0] == ')'
    ensures list(u).Err?
  {
    assert ListEquation(list, elems, u);
  }

  /** The element loop stops at a closing parenthesis. */
  lemma ElemsStop(obj: Parser<L.LispObject>, list: Parser<L.LispObject>, elems: Parser<seq<L.LispObject>>,
                  u: seq<char>)
    requires Solves(obj, list, elems)
    requires obj(u).Err?
    ensures elems(u) == Ok([], u)
  {
    assert ElemsEquation(obj, elems, u);
  }

  /** One element and the whitespace after it, then the rest of the elements. */
  lemma ElemsStep(obj: Parser<L.LispObject>, list: Parser<L.LispObject>, elems: Parser<seq<L.LispObject>>,
                  w: seq<char>, x: L.LispObject, r: seq<char>, rest: seq<L.LispObject>, u: seq<char>)
    requires Solves(obj, list, elems)
    requires obj(w) == Ok(x, r)
    requires elems(SkipWhitespace(r)) == Ok(rest, u)
    ensures elems(w) == Ok([x] + rest, u)
  {
    assert ElemsEquation(obj, elems, w);
  }

  // ---------------------------------------------------------------------------
  // Reading back

  /** A printed string reads back as itself. */
  lemma StringRoundTrip(obj: Parser<L.LispObject>, list: Parser<L.LispObject>, elems: Parser<seq<L.LispObject>>,
                        text: string, t: string)
    requires Solves(obj, list, elems)
    requires '"' !in text
    ensures obj(['"'] + text + ['"'] + t) == Ok(L.String(text), t)
  {
    LiteralOfText(text, t);
    assert ObjectEquation(obj, list, ['"'] + text + ['"'] + t);
  }

  /** A printed identifier reads back as itself when what follows cannot
      continue it. */
  lemma IdentRoundTrip(obj: Parser<L.LispObject>, list: Parser<L.LispObject>, elems: Parser<seq<L.LispObject>>,
                       name: string, t: string)
    requires Solves(obj, list, elems)
    requires IsIdentName(name)
    requires t == [] || !IsIdentChar(t[0])
    ensures obj(name + t) == Ok(L.Ident(name), t)
  {
    LeadingIdentOfName(name, t);
    NameStart(name, t);
    assert ObjectEquation(obj, list, name + t);
  }

  /** No object starts with a closing parenthesis. */
  lemma ObjectFailsAtClose(obj: Parser<L.LispObject>, list: Parser<L.LispObject>, elems: Parser<seq<L.LispObject>>,
                           u: seq<char>)
    requires Solves(obj, list, elems)
    requires |u| > 0 && u[0] == ')'
    ensures obj(u).Err?
  {
    ListStep(obj, list, elems, u);
    ListFailsAtClose(obj, list, elems, u);
  }

  /** A printed tree reads back as itself; a list also takes the whitespace
      after its closing parenthesis. */
  lemma {:induction false} ObjectRoundTrip(obj: Parser<L.LispObject>, list: Parser<L.LispObject>,
                                           elems: Parser<seq<L.LispObject>>, o: L.LispObject, t: string)
    requires Solves(obj, list, elems)
    requires WellFormed(o)
    requires t == [] || !IsIdentChar(t[0])
    ensures obj(Print(o) + t) == Ok(o, if o.List? then SkipWhitespace(t) else t)
    decreases o, 2
  {
    match o
    case String(text) =>
      StringRoundTrip(obj, list, elems, text, t);
    case Ident(name) =>
      IdentRoundTrip(obj, list, elems, name, t);
    case List(items) =>
      ListRoundTrip(obj, list, elems, items, t);
      ListStep(obj, list, elems, Print(o) + t);
  }

  /** A printed list reads back as itself, with the whitespace after it. */
  lemma {:induction false} ListRoundTrip(obj: Parser<L.LispObject>, list: Parser<L.LispObject>,
                                         elems: Parser<seq<L.LispObject>>, items: seq<L.LispObject>, t: string)
    requires Solves(obj, list, elems)
    requires forall i :: 0 <= i < |items| ==> WellFormed(items[i])
    ensures list(Print(L.List(items)) + t) == Ok(L.List(items), SkipWhitespace(t))
    decreases items, 1
  {
    var s := Print(L.List(items)) + t;
    var close := ")" + t;
    ItemsRoundTrip(obj, list, elems, items, close);
    OpenList(items, t, s, close);
    ListFromElems(obj, list, elems, s, items, close);
    assert close[1..] == t;
  }

  /** The text of a list: `(`, then its elements with nothing to skip before them. */
  lemma OpenList(items: seq<L.LispObject>, t: string, s: string, close: string)
    requires forall i :: 0 <= i < |items| ==> WellFormed(items[i])
    requires s == Print(L.List(items)) + t && close == ")" + t
    ensures |s| > 0 && s[0] == '('
    ensures SkipWhitespace(s[1..]) == PrintItems(items) + close
  {
    if items != [] {
      PrintItemsStart(items);
    }
    OpenText(PrintItems(items), t, s, close);
  }

  lemma OpenText(p: string, t: string, s: string, close: string)
    requires p == [] || p[0] == '"' || p[0] == '(' || IsIdentStart(p[0])
    requires s == "(" + p + ")" + t && close == ")" + t
    ensures |s| > 0 && s[0] == '('
    ensures SkipWhitespace(s[1..]) == p + close
  {
    assert s[1..] == p + close;
    assert (p + close)[0] == if p == [] then ')' else p[0];
    SkipNothing(p + close);
  }

  /** The elements of a printed list read back as themselves, stopping at the
      closing parenthesis. */
  lemma {:induction false} ItemsRoundTrip(obj: Parser<L.LispObject>, list: Parser<L.LispObject>,
                                          elems: Parser<seq<L.LispObject>>, items: seq<L.LispObject>, u: string)
    requires Solves(obj, list, elems)
    requires forall i :: 0 <= i < |items| ==> WellFormed(items[i])
    requires |u| > 0 && u[0] == ')'
    ensures elems(PrintItems(items) + u) == Ok(items, u)
    decreases items, 0
  {
    if items == [] {
      assert PrintItems(items) + u == u;
      ObjectFailsAtClose(obj, list, elems, u);
      ElemsStop(obj, list, elems, u);
    } else {
      TailWellFormed(items);
      var next := ConsText(items, u);
      ObjectRoundTrip(obj, list, elems, items[0], next);
      ItemsRoundTrip(obj, list, elems, items[1..], u);
      ItemsCons(obj, list, elems, items, u, next);
    }
  }

  /** The first element, read up to `next`, then the rest of the elements. */
  lemma ItemsCons(obj: Parser<L.LispObject>, list: Parser<L.LispObject>,
                  elems: Parser<seq<L.LispObject>>, items: seq<L.LispObject>, u: string, next: string)
    requires Solves(obj, list, elems)
    requires items != []
    requires PrintItems(items) + u == Print(items[0]) + next
    requires SkipWhitespace(next) == PrintItems(items[1..]) + u
    requires SkipWhitespace(SkipWhitespace(next)) == PrintItems(items[1..]) + u
    requires obj(Print(items[0]) + next) == Ok(items[0], if items[0].List? then SkipWhitespace(next) else next)
    requires elems(PrintItems(items[1..]) + u) == Ok(items[1..], u)
    ensures elems(PrintItems(items) + u) == Ok(items, u)
  {
    var x := items[0];
    var r := if x.List? then SkipWhitespace(next) else next;
    ElemsStep(obj, list, elems, Print(x) + next, x, r, items[1..], u);
    HeadTail(items);
  }

  lemma TailWellFormed(items: seq<L.LispObject>)
    requires forall i :: 0 <= i < |items| ==> WellFormed(items[i])
    requires items != []
    ensures WellFormed(items[0])
    ensures forall i :: 0 <= i < |items[1..]| ==> WellFormed(items[1..][i])
  {
  }

  /** The text of the elements, the first one peeled off. */
  lemma ConsText(items: seq<L.LispObject>, u: string) returns (next: string)
    requires forall i :: 0 <= i < |items| ==> WellFormed(items[i])
    requires items != []
    requires |u| > 0 && u[0] == ')'
    ensures PrintItems(items) + u == Print(items[0]) + next
    ensures SkipWhitespace(next) == PrintItems(items[1..]) + u
    ensures SkipWhitespace(SkipWhitespace(next)) == PrintItems(items[1..]) + u
    ensures next == [] || !IsIdentChar(next[0])
  {
    PrintItemsCons(items, u);
    if |items| == 1 {
      next := u;
      assert PrintItems(items[1..]) + u == u;
      SkipNothing(u);
    } else {
      next := " " + PrintItems(items[1..]) + u;
      PrintItemsStart(items[1..]);
      SkipToElement(PrintItems(items[1..]), u);
    }
    SkipTwice(next);
  }

  lemma SkipToElement(v: string, u: string)
    requires |v| > 0 && (v[0] == '"' || v[0] == '(' || IsIdentStart(v[0]))
    ensures SkipWhitespace(" " + v + u) == v + u
  {
    assert " " + v + u == " " + (v + u);
    SkipSpace(v + u);
    assert (v + u)[0] == v[0];
    SkipNothing(v + u);
  }

  /** Two string elements need no whitespace between them: the closing quote
      of one ends it, and the next opening quote starts the other. */
  lemma AdjacentStrings(obj: Parser<L.LispObject>, list: Parser<L.LispObject>,
                        elems: Parser<seq<L.LispObject>>, a: string, b: string, t: string)
    requires Solves(obj, list, elems)
    requires '"' !in a && '"' !in b
    ensures list("(" + Print(L.String(a)) + Print(L.String(b)) + ")" + t) ==
              Ok(L.List([L.String(a), L.String(b)]), SkipWhitespace(t))
  {
    var qa := Print(L.String(a));
    var qb := Print(L.String(b));
    var close := ")" + t;
    var s := "(" + qa + qb + ")" + t;
    AdjacentElems(obj, list, elems, a, b, close);
    AdjacentText(qa, qb, t, s, close);
    ListFromElems(obj, list, elems, s, [L.String(a), L.String(b)], close);
  }

  /** The text of `AdjacentStrings`: `(`, the two strings, `)`. */
  lemma AdjacentText(qa: string, qb: string, t: string, s: string, close: string)
    requires |qa| > 0 && qa[0] == '"'
    requires s == "(" + qa + qb + ")" + t && close == ")" + t
    ensures |s| > 0 && s[0] == '('
    ensures SkipWhitespace(s[1..]) == qa + (qb + close)
    ensures |close| > 0 && close[0] == ')' && close[1..] == t
  {
    assert s[1..] == qa + (qb + close);
    SkipNothing(qa + (qb + close));
  }

  /** The elements of `AdjacentStrings`, up to the closing parenthesis. */
  lemma AdjacentElems(obj: Parser<L.LispObject>, list: Parser<L.LispObject>,
                      elems: Parser<seq<L.LispObject>>, a: string, b: string, close: string)
    requires Solves(obj, list, elems)
    requires '"' !in a && '"' !in b
    requires |close| > 0 && close[0] == ')'
    ensures elems(Print(L.String(a)) + (Print(L.String(b)) + close)) == Ok([L.String(a), L.String(b)], close)
  {
    var u := Print(L.String(b)) + close;
    LastStringElem(obj, list, elems, b, close);
    QuoteStart(b, close);
    StringElem(obj, list, elems, a, u, [L.String(b)], close);
    PairList(L.String(a), L.String(b));
  }

  /** A string element just before the closing parenthesis. */
  lemma LastStringElem(obj: Parser<L.LispObject>, list: Parser<L.LispObject>,
                       elems: Parser<seq<L.LispObject>>, text: string, close: string)
    requires Solves(obj, list, elems)
    requires '"' !in text
    requires |close| > 0 && close[0] == ')'
    ensures elems(Print(L.String(text)) + close) == Ok([L.String(text)], close)
  {
    ObjectFailsAtClose(obj, list, elems, close);
    ElemsStop(obj, list, elems, close);
    StringElem(obj, list, elems, text, close, [], close);
    SingleList(L.String(text));
  }

  /** A string element directly followed by more elements. */
  lemma StringElem(obj: Parser<L.LispObject>, list: Parser<L.LispObject>,
                   elems: Parser<seq<L.LispObject>>, text: string, u: string,
                   rest: seq<L.LispObject>, close: string)
    requires Solves(obj, list, elems)
    requires '"' !in text
    requires |u| > 0 && (u[0] == ')' || u[0] == '"')
    requires elems(u) == Ok(rest, close)
    ensures elems(Print(L.String(text)) + u) == Ok([L.String(text)] + rest, close)
  {
    StringRoundTrip(obj, list, elems, text, u);
    SkipNothing(u);
    ElemsStep(obj, list, elems, ['"'] + text + ['"'] + u, L.String(text), u, rest, close);
  }

  /** `lisp_list` reads two adjacent strings as two elements. */
  lemma LispListAdjacentStrings(a: string, b: string, t: string)
    requires '"' !in a && '"' !in b
    ensures LispList()("(" + Print(L.String(a)) + Print(L.String(b)) + ")" + t) ==
              Ok(L.List([L.String(a), L.String(b)]), SkipWhitespace(t))
  {
    LispSolves();
    AdjacentStrings(LispObject(), LispList(), Many(Item(LispObject())), a, b, t);
  }

  /** `lisp_object` reads every printed tree back as itself. */
  lemma LispObjectReadsPrinted(o: L.LispObject, t: string)
    requires WellFormed(o)
    requires t == [] || !IsIdentChar(t[0])
    ensures LispObject()(Print(o) + t) == Ok(o, if o.List? then SkipWhitespace(t) else t)
  {
    LispSolves();
    ObjectRoundTrip(LispObject(), LispList(), Many(Item(LispObject())), o, t);
  }

  /** `parse(lisp_object(), text)` of a printed tree gives the tree back. */
  lemma ParsePrinted(o: L.LispObject)
    requires WellFormed(o)
    ensures Parse(LispObject(), Print(o)) == Success(o)
  {
    PrintedReadsWhole(o);
    ParseWhole(LispObject(), Print(o), o);
  }

  /** `lisp_object` reads a printed tree to the end of the text. */
  lemma PrintedReadsWhole(o: L.LispObject)
    requires WellFormed(o)
    ensures LispObject()(Print(o)) == Ok(o, [])
  {
    LispSolves();
    WholeRoundTrip(LispObject(), LispList(), Many(Item(LispObject())), o);
  }

  /** A printed tree on its own reads back with nothing left over. */
  lemma WholeRoundTrip(obj: Parser<L.LispObject>, list: Parser<L.LispObject>,
                       elems: Parser<seq<L.LispObject>>, o: L.LispObject)
    requires Solves(obj, list, elems)
    requires WellFormed(o)
    ensures obj(Print(o)) == Ok(o, [])
  {
    var t: string := [];
    ObjectRoundTrip(obj, list, elems, o, t);
    EmptyTail(Print(o), t);
    NothingAfter(obj(Print(o)), o, t);
  }

  // ---------------------------------------------------------------------------
  // Facts about sequences alone
  //
  // Each lemma below states one equality or first-character fact about
  // sequences and mentions no parser. The reading-back lemmas call them
  // instead of asserting the fact in place: with the combinators' contracts
  // in scope, the solver spends far longer on such a fact than it does here.

  /** Text appended after a non-empty text keeps its first character. */
  lemma HeadOfConcat(a: string, b: string)
    requires |a| > 0
    ensures |a + b| > 0 && (a + b)[0] == a[0]
  {
  }

  /** A non-empty element sequence is its first element, then the rest. */
  lemma HeadTail(items: seq<L.LispObject>)
    requires items != []
    ensures [items[0]] + items[1..] == items
  {
  }

  /** A printed string, and anything after it, starts with a quote. */
  lemma QuoteStart(text: string, u: string)
    ensures |Print(L.String(text)) + u| > 0 && (Print(L.String(text)) + u)[0] == '"'
  {
  }

  /** A name, and anything after it, does not start with a quote. */
  lemma NameStart(name: string, t: string)
    requires IsIdentName(name)
    ensures |name + t| > 0 && (name + t)[0] != '"'
  {
  }

  /** Two one-element sequences make a pair. */
  lemma PairList(x: L.LispObject, y: L.LispObject)
    ensures [x] + [y] == [x, y]
  {
  }

  /** A one-element sequence followed by nothing is itself. */
  lemma SingleList(x: L.LispObject)
    ensures [x] + [] == [x]
  {
  }

  /** Text followed by no text is itself. */
  lemma EmptyTail(p: string, t: string)
    requires t == []
    ensures p + t == p
  {
  }

  /** Whatever the kind of tree, the whitespace after no text is no text. */
  lemma NothingAfter(a: Result<L.LispObject>, o: L.LispObject, t: string)
    requires t == []
    requires a == Ok(o, if o.List? then SkipWhitespace(t) else t)
    ensures a == Ok(o, [])
  {
  }
}
