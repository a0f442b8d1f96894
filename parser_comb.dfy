/** The generic parser-combinator engine of src/parser_comb.rs.
    A parser is a function from the text still to be read to either a value
    together with the unconsumed remainder, or the payload-free `Err`.
    Parsers are pure values here: none of the repository's parsers keeps state
    between calls. */
module ParserComb {

  /** Outcome of one parser step (`Result<(T, &str), Error>`). */
  datatype Result<+T> = Ok(value: T, rest: seq<char>) | Err

  /** Outcome of the entry point `parse` (`Result<T, Error>`). */
  datatype Outcome<+T> = Success(value: T) | Failure

  /** The tagged result of alternation: which branch matched, and its value. */
  datatype Either<+L, +R> = A(a: L) | B(b: R)

  type Parser<T> = seq<char> -> Result<T>

  // ---------------------------------------------------------------------------
  // What a parser may do with its input

  /** `r` is a suffix of `s`: what is left after dropping a prefix of `s`. */
  ghost predicate IsSuffix(r: seq<char>, s: seq<char>) {
    |r| <= |s| && r == s[|s| - |r|..]
  }

  /** On success `p` only ever drops a prefix of its input. */
  ghost predicate Consumes<T>(p: Parser<T>) {
    forall s :: p(s).Ok? ==> IsSuffix(p(s).rest, s)
  }

  /** On success `p` strictly shortens its input (what `many` and `Until`
      need of their element parser to terminate). */
  ghost predicate Progresses<T>(p: Parser<T>) {
    forall s :: p(s).Ok? ==> |p(s).rest| < |s|
  }

  lemma SuffixTrans(a: seq<char>, b: seq<char>, c: seq<char>)
    requires IsSuffix(a, b) && IsSuffix(b, c)
    ensures IsSuffix(a, c)
  {
    assert b[|b| - |a|..] == c[|c| - |b|..][|b| - |a|..];
  }

  // ---------------------------------------------------------------------------
  // Entry point

  /** `parse`: run `p` on the whole input; leftover text is a failure. */
  function Parse<T>(p: Parser<T>, input: seq<char>): (r: Outcome<T>)
    ensures r.Success? <==> p(input).Ok? && p(input).rest == []
    ensures r.Success? ==> r.value == p(input).value
  {
    match p(input)
    case Err => Failure
    case Ok(parsed, rest) => if rest == [] then Success(parsed) else Failure
  }

  /** A parser that reads the whole input makes `parse` succeed with its value. */
  lemma ParseWhole<T>(p: Parser<T>, input: seq<char>, v: T)
    requires p(input) == Ok(v, [])
    ensures Parse(p, input) == Success(v)
  {
  }

  // ---------------------------------------------------------------------------
  // Primitives

  /** `from_fn`: a caller-supplied function used as a parser as it is. */
  function FromFn<T>(f: seq<char> -> Result<T>): (p: Parser<T>)
    ensures forall s {:trigger p(s)} :: p(s) == f(s)
  {
    f
  }

  /** `character(c)`: the next character, when it is `c`. */
  function Character(c: char): (p: Parser<char>)
    ensures forall s {:trigger p(s)} :: p(s).Ok? <==> |s| > 0 && s[0] == c
    ensures forall s {:trigger p(s)} :: p(s).Ok? ==> p(s).value == c && p(s).rest == s[1..]
    ensures Consumes(p) && Progresses(p)
  {
    FromFn(s =>
      if |s| == 0 then Err
      else if s[0] == c then Ok(c, s[1..])
      else Err)
  }

  /** `any`: the next character, whatever it is. */
  function Any(): (p: Parser<char>)
    ensures forall s {:trigger p(s)} :: p(s).Ok? <==> |s| > 0
    ensures forall s {:trigger p(s)} :: p(s).Ok? ==> p(s).value == s[0] && p(s).rest == s[1..]
    ensures Consumes(p) && Progresses(p)
  {
    FromFn(s => if |s| == 0 then Err else Ok(s[0], s[1..]))
  }

  /** `one_of(chars)`: the next character, when it occurs in `chars`. */
  function OneOf(chars: seq<char>): (p: Parser<char>)
    ensures forall s {:trigger p(s)} :: p(s).Ok? <==> |s| > 0 && s[0] in chars
    ensures forall s {:trigger p(s)} :: p(s).Ok? ==> p(s).value == s[0] && p(s).rest == s[1..]
    ensures Consumes(p) && Progresses(p)
  {
    FromFn(s =>
      if |chars| == 0 then Err
      else if |s| == 0 then Err
      else if s[0] in chars then Ok(s[0], s[1..])
      else Err)
  }

  /** `range(lo..=hi)`: the next character, when it lies in the inclusive
      range; an empty range (`hi < lo`) fails on every input. */
  function Range(lo: char, hi: char): (p: Parser<char>)
    ensures forall s {:trigger p(s)} :: p(s).Ok? <==> |s| > 0 && lo <= s[0] <= hi
    ensures forall s {:trigger p(s)} :: p(s).Ok? ==> p(s).value == s[0] && p(s).rest == s[1..]
    ensures hi < lo ==> forall s :: p(s).Err?
    ensures Consumes(p) && Progresses(p)
  {
    FromFn(s =>
      if !(lo <= hi) then Err
      else if |s| == 0 then Err
      else if lo <= s[0] <= hi then Ok(s[0], s[1..])
      else Err)
  }

  // ---------------------------------------------------------------------------
  // Transformation and sequencing

  /** `map`: apply `f` to the value, keep the remainder. */
  function Map<T, U>(parser: Parser<T>, f: T -> U): (p: Parser<U>)
    ensures forall s {:trigger p(s)} :: p(s).Ok? <==> parser(s).Ok?
    ensures forall s {:trigger p(s)} :: p(s).Ok? ==> p(s).value == f(parser(s).value) && p(s).rest == parser(s).rest
    ensures Consumes(parser) ==> Consumes(p)
    ensures Progresses(parser) ==> Progresses(p)
  {
    s =>
      match parser(s)
      case Err => Err
      case Ok(parsed, rest) => Ok(f(parsed), rest)
  }

  /** `flat_map`: run the parser that `f` builds from the value on the remainder. */
  function FlatMap<T, U>(parser: Parser<T>, f: T -> Parser<U>): (p: Parser<U>)
    ensures forall s {:trigger p(s)} :: p(s).Ok? <==> parser(s).Ok? && f(parser(s).value)(parser(s).rest).Ok?
    ensures forall s {:trigger p(s)} :: p(s).Ok? ==> p(s) == f(parser(s).value)(parser(s).rest)
  {
    s =>
      match parser(s)
      case Err => Err
      case Ok(parsed, rest) => f(parsed)(rest)
  }

  /** `flat_map` drops only a prefix when its parts do. */
  lemma FlatMapConsumes<T(!new), U>(parser: Parser<T>, f: T -> Parser<U>)
    requires Consumes(parser) && forall v :: Consumes(f(v))
    ensures Consumes(FlatMap(parser, f))
  {
    forall s | FlatMap(parser, f)(s).Ok? ensures IsSuffix(FlatMap(parser, f)(s).rest, s) {
      var r := parser(s);
      assert r.Ok? && IsSuffix(r.rest, s);
      assert Consumes(f(r.value));
      var q := f(r.value);
      assert q(r.rest).Ok? && IsSuffix(q(r.rest).rest, r.rest);
      SuffixTrans(q(r.rest).rest, r.rest, s);
    }
  }

  /** `zip_left`: run both in order, keep the left value. */
  function ZipLeft<T, U>(left: Parser<T>, right: Parser<U>): (p: Parser<T>)
    ensures forall s {:trigger p(s)} :: p(s).Ok? <==> left(s).Ok? && right(left(s).rest).Ok?
    ensures forall s {:trigger p(s)} :: p(s).Ok? ==> p(s).value == left(s).value && p(s).rest == right(left(s).rest).rest
    ensures Consumes(left) && Consumes(right) ==> Consumes(p)
    ensures Consumes(left) && Consumes(right) && (Progresses(left) || Progresses(right)) ==> Progresses(p)
  {
    s =>
      match left(s)
      case Err => Err
      case Ok(parsed, rest) =>
        match right(rest)
        case Err => Err
        case Ok(_, rest') => Ok(parsed, rest')
  }

  /** `zip_right`: run both in order, keep the right value. */
  function ZipRight<T, U>(left: Parser<T>, right: Parser<U>): (p: Parser<U>)
    ensures forall s {:trigger p(s)} :: p(s).Ok? <==> left(s).Ok? && right(left(s).rest).Ok?
    ensures forall s {:trigger p(s)} :: p(s).Ok? ==> p(s) == right(left(s).rest)
    ensures Consumes(left) && Consumes(right) ==> Consumes(p)
    ensures Consumes(left) && Consumes(right) && (Progresses(left) || Progresses(right)) ==> Progresses(p)
  {
    s =>
      match left(s)
      case Err => Err
      case Ok(_, rest) =>
        match right(rest)
        case Err => Err
        case Ok(parsed, rest') => Ok(parsed, rest')
  }

  // ---------------------------------------------------------------------------
  // Alternation

  /** `or`: try `first`; only when it fails, try `second` on the same input. */
  function Or<T, U>(first: Parser<T>, second: Parser<U>): (p: Parser<Either<T, U>>)
    ensures forall s {:trigger p(s)} :: p(s).Ok? <==> first(s).Ok? || second(s).Ok?
    ensures forall s {:trigger p(s)} :: first(s).Ok? ==> p(s) == Ok(A(first(s).value), first(s).rest)
    ensures forall s {:trigger p(s)} :: first(s).Err? && second(s).Ok? ==> p(s) == Ok(B(second(s).value), second(s).rest)
    ensures Consumes(first) && Consumes(second) ==> Consumes(p)
    ensures Progresses(first) && Progresses(second) ==> Progresses(p)
  {
    s =>
      match first(s)
      case Ok(parsed, rest) => Ok(A(parsed), rest)
      case Err =>
        match second(s)
        case Err => Err
        case Ok(parsed, rest) => Ok(B(parsed), rest)
  }

  /** `Get` on `Either<T, T>`: the value of whichever branch matched. */
  function Get<T>(e: Either<T, T>): T {
    match e
    case A(a) => a
    case B(b) => b
  }

  /** `Get` on `Either<Either<T, T>, T>`, through the nested `Either`. */
  function Get2<T>(e: Either<Either<T, T>, T>): T {
    match e
    case A(a) => Get(a)
    case B(b) => b
  }

  /** `Get` on `Either<Either<Either<T, T>, T>, T>`. */
  function Get3<T>(e: Either<Either<Either<T, T>, T>, T>): T {
    match e
    case A(a) => Get2(a)
    case B(b) => b
  }

  /** Reference definition of untagged left-biased choice: the result of the
      first parser in `ps` that succeeds on `s`. */
  function FirstOf<T>(ps: seq<Parser<T>>, s: seq<char>): Result<T> {
    if ps == [] then Err
    else if ps[0](s).Ok? then ps[0](s)
    else FirstOf(ps[1..], s)
  }

  /** Choosing among `ps + [r]` is choosing among `ps`, then falling back to `r`. */
  lemma {:induction false} FirstOfSnoc<T>(ps: seq<Parser<T>>, r: Parser<T>, s: seq<char>)
    ensures FirstOf(ps + [r], s) == if FirstOf(ps, s).Ok? then FirstOf(ps, s) else r(s)
  {
    if ps == [] {
      assert [r][1..] == [];
    } else {
      assert (ps + [r])[1..] == ps[1..] + [r];
      FirstOfSnoc(ps[1..], r, s);
    }
  }

  /** `or` followed by `Get` is untagged left-biased choice. */
  lemma OrGet<T>(p: Parser<T>, q: Parser<T>, s: seq<char>)
    ensures Map(Or(p, q), Get)(s) == FirstOf([p, q], s)
  {
    FirstOfSnoc([p], q, s);
    assert [p] + [q] == [p, q];
    assert [p][1..] == [];
    var m := Map(Or(p, q), Get)(s);
    if p(s).Ok? {
      assert Or(p, q)(s) == Ok(A(p(s).value), p(s).rest);
      assert m == Ok(Get(A(p(s).value)), p(s).rest);
    } else if q(s).Ok? {
      assert Or(p, q)(s) == Ok(B(q(s).value), q(s).rest);
      assert m == Ok(Get(B(q(s).value)), q(s).rest);
    } else {
      assert Or(p, q)(s).Err?;
    }
  }

  lemma OrGet2<T>(p: Parser<T>, q: Parser<T>, r: Parser<T>, s: seq<char>)
    ensures Map(Or(Or(p, q), r), Get2)(s) == FirstOf([p, q, r], s)
  {
    OrGet(p, q, s);
    FirstOfSnoc([p, q], r, s);
    assert [p, q] + [r] == [p, q, r];
    var inner := Or(p, q)(s);
    var m := Map(Or(Or(p, q), r), Get2)(s);
    if inner.Ok? {
      assert Or(Or(p, q), r)(s) == Ok(A(inner.value), inner.rest);
      assert m == Ok(Get(inner.value), inner.rest);
      assert Map(Or(p, q), Get)(s) == Ok(Get(inner.value), inner.rest);
    } else if r(s).Ok? {
      assert Or(Or(p, q), r)(s) == Ok(B(r(s).value), r(s).rest);
      assert m == Ok(Get2(B(r(s).value)), r(s).rest);
    } else {
      assert Or(Or(p, q), r)(s).Err?;
    }
  }

  lemma OrGet3<T>(p: Parser<T>, q: Parser<T>, r: Parser<T>, u: Parser<T>, s: seq<char>)
    ensures Map(Or(Or(Or(p, q), r), u), Get3)(s) == FirstOf([p, q, r, u], s)
  {
    OrGet2(p, q, r, s);
    FirstOfSnoc([p, q, r], u, s);
    assert [p, q, r] + [u] == [p, q, r, u];
    var inner := Or(Or(p, q), r)(s);
    var m := Map(Or(Or(Or(p, q), r), u), Get3)(s);
    if inner.Ok? {
      assert Or(Or(Or(p, q), r), u)(s) == Ok(A(inner.value), inner.rest);
      assert m == Ok(Get2(inner.value), inner.rest);
      assert Map(Or(Or(p, q), r), Get2)(s) == Ok(Get2(inner.value), inner.rest);
    } else if u(s).Ok? {
      assert Or(Or(Or(p, q), r), u)(s) == Ok(B(u(s).value), u(s).rest);
      assert m == Ok(Get3(B(u(s).value)), u(s).rest);
    } else {
      assert Or(Or(Or(p, q), r), u)(s).Err?;
    }
  }

  // ---------------------------------------------------------------------------
  // Combinators as each other

  lemma FirstOf3<T>(p: Parser<T>, q: Parser<T>, r: Parser<T>, s: seq<char>)
    ensures FirstOf([p, q, r], s) == if p(s).Ok? then p(s) else if q(s).Ok? then q(s) else r(s)
  {
    assert [r][1..] == [];
    assert FirstOf([r], s) == r(s);
    assert [q, r][1..] == [r];
    assert FirstOf([q, r], s) == if q(s).Ok? then q(s) else r(s);
    assert [p, q, r][1..] == [q, r];
  }

  /** Three-way left-biased choice: the first alternative that succeeds. */
  lemma OrGet2First<T>(p: Parser<T>, q: Parser<T>, r: Parser<T>, s: seq<char>)
    ensures Map(Or(Or(p, q), r), Get2)(s) == if p(s).Ok? then p(s) else if q(s).Ok? then q(s) else r(s)
  {
    OrGet2(p, q, r, s);
    FirstOf3(p, q, r, s);
  }

  /** `map` twice is `map` once with the composed function. */
  lemma MapMap<T, U, V>(p: Parser<T>, f: T -> U, g: U -> V, s: seq<char>)
    ensures Map(Map(p, f), g)(s) == Map(p, x => g(f(x)))(s)
  {
  }

  /** `zip_right` is `flat_map` with a continuation that ignores the value. */
  lemma ZipRightIsFlatMap<T, U>(left: Parser<T>, right: Parser<U>, s: seq<char>)
    ensures ZipRight(left, right)(s) == FlatMap(left, _ => right)(s)
  {
  }

  /** `zip_left` is `flat_map` into `right` mapped back to the left value. */
  lemma ZipLeftIsFlatMap<T, U>(left: Parser<T>, right: Parser<U>, s: seq<char>)
    ensures ZipLeft(left, right)(s) == FlatMap(left, v => Map(right, _ => v))(s)
  {
  }

  // ---------------------------------------------------------------------------
  // Repetition

  /** The `many` loop, as a recursive function of the input. */
  function ManyFrom<T>(p: Parser<T>, s: seq<char>): (r: Result<seq<T>>)
    requires Progresses(p)
    ensures r.Ok?
    ensures p(r.rest).Err?
    ensures Consumes(p) ==> IsSuffix(r.rest, s)
    decreases |s|
  {
    match p(s)
    case Err => Ok([], s)
    case Ok(v, rest) =>
      var tail := ManyFrom(p, rest);
      assert Consumes(p) ==> IsSuffix(tail.rest, s) by {
        if Consumes(p) { SuffixTrans(tail.rest, rest, s); }
      }
      Ok([v] + tail.value, tail.rest)
  }

  /** `many(p)`: as many successes of `p` as there are, in order; never fails. */
  function Many<T>(p: Parser<T>): (m: Parser<seq<T>>)
    requires Progresses(p)
    ensures forall s {:trigger m(s)} :: m(s).Ok? && p(m(s).rest).Err?
    ensures forall s {:trigger m(s)} :: p(s).Err? ==> m(s) == Ok([], s)
    ensures Consumes(p) ==> Consumes(m)
  {
    FromFn(s => ManyFrom(p, s))
  }

  /** One round of `many`: a success of `p`, then `many` on what is left. */
  lemma ManyStep<T>(p: Parser<T>, s: seq<char>)
    requires Progresses(p) && p(s).Ok?
    ensures Many(p)(s) == Ok([p(s).value] + Many(p)(p(s).rest).value, Many(p)(p(s).rest).rest)
  {
    assert Many(p)(s) == ManyFrom(p, s);
    assert Many(p)(p(s).rest) == ManyFrom(p, p(s).rest);
  }

  /** The loop of `Until::parse`, as a recursive function of the input. */
  function ScanFrom<T, U>(p: Parser<T>, t: Parser<U>, s: seq<char>): (r: Result<seq<T>>)
    requires Progresses(p)
    ensures r.Ok? ==> t(r.rest).Ok?
    ensures Consumes(p) && r.Ok? ==> IsSuffix(r.rest, s)
    decreases |s|
  {
    if t(s).Ok? then Ok([], s)
    else
      match p(s)
      case Err => Err
      case Ok(v, rest) =>
        match ScanFrom(p, t, rest)
        case Err => Err
        case Ok(vs, rest') =>
          assert Consumes(p) ==> IsSuffix(rest', s) by {
            if Consumes(p) { SuffixTrans(rest', rest, s); }
          }
          Ok([v] + vs, rest')
  }

  /** `p.until(t)`: successes of `p` up to the first point where `t` matches;
      `t` itself is only probed, never consumed. */
  function Until<T, U>(p: Parser<T>, t: Parser<U>): (u: Parser<seq<T>>)
    requires Progresses(p)
    ensures u([]).Err?
    ensures forall s {:trigger u(s)} :: u(s).Ok? ==> t(u(s).rest).Ok?
    ensures forall s {:trigger u(s)} :: s != [] && t(s).Ok? ==> u(s) == Ok([], s)
    ensures forall s {:trigger u(s)} :: t(s).Err? && p(s).Err? ==> u(s).Err?
    ensures Consumes(p) ==> Consumes(u)
  {
    s => if |s| == 0 then Err else ScanFrom(p, t, s)
  }

  /** `vs` put in front of the values of a successful result. */
  function Prepend<T>(vs: seq<T>, r: Result<seq<T>>): Result<seq<T>> {
    match r
    case Err => Err
    case Ok(ws, rest) => Ok(vs + ws, rest)
  }

  /** One step of the `Until` loop, seen from the accumulated values. */
  lemma PrependScan<T, U>(p: Parser<T>, t: Parser<U>, s: seq<char>, vs: seq<T>)
    requires Progresses(p) && t(s).Err? && p(s).Ok?
    ensures Prepend(vs, ScanFrom(p, t, s)) == Prepend(vs + [p(s).value], ScanFrom(p, t, p(s).rest))
  {
    var tail := ScanFrom(p, t, p(s).rest);
    if tail.Ok? {
      assert ScanFrom(p, t, s) == Ok([p(s).value] + tail.value, tail.rest);
      assert vs + ([p(s).value] + tail.value) == (vs + [p(s).value]) + tail.value;
    }
  }

  /** `many`, the loop of src/parser_comb.rs as written. */
  method RunMany<T>(p: Parser<T>, input: seq<char>) returns (r: Result<seq<T>>)
    requires Progresses(p)
    ensures r == Many(p)(input)
  {
    assert Many(p)(input) == ManyFrom(p, input);
    var parsed: seq<T> := [];
    var rest := input;
    assert parsed + ManyFrom(p, rest).value == ManyFrom(p, rest).value;
    var step := p(rest);
    while step.Ok?
      invariant step == p(rest)
      invariant ManyFrom(p, input) == Ok(parsed + ManyFrom(p, rest).value, ManyFrom(p, rest).rest)
      decreases |rest|
    {
      var tail := ManyFrom(p, step.rest);
      assert ManyFrom(p, rest) == Ok([step.value] + tail.value, tail.rest);
      assert parsed + ([step.value] + tail.value) == (parsed + [step.value]) + tail.value;
      parsed := parsed + [step.value];
      rest := step.rest;
      step := p(rest);
    }
    assert ManyFrom(p, rest) == Ok([], rest);
    assert parsed + [] == parsed;
    r := Ok(parsed, rest);
  }

  /** `Until::parse`, the loop of src/parser_comb.rs as written. */
  method RunUntil<T, U>(p: Parser<T>, t: Parser<U>, input: seq<char>) returns (r: Result<seq<T>>)
    requires Progresses(p)
    ensures r == Until(p, t)(input)
  {
    assert Until(p, t)(input) == if |input| == 0 then Err else ScanFrom(p, t, input);
    if |input| == 0 {
      return Err;
    }
    var parsed: seq<T> := [];
    var rest := input;
    if ScanFrom(p, t, rest).Ok? {
      assert parsed + ScanFrom(p, t, rest).value == ScanFrom(p, t, rest).value;
    }
    while t(rest).Err?
      invariant ScanFrom(p, t, input) == Prepend(parsed, ScanFrom(p, t, rest))
      decreases |rest|
    {
      match p(rest)
      case Err =>
        assert ScanFrom(p, t, rest) == Err;
        return Err;
      case Ok(c, next) =>
        PrependScan(p, t, rest, parsed);
        parsed := parsed + [c];
        rest := next;
    }
    assert ScanFrom(p, t, rest) == Ok([], rest);
    assert parsed + [] == parsed;
    r := Ok(parsed, rest);
  }

  // ---------------------------------------------------------------------------
  // Repetition characterised without loops

  /** Running `p` successively from `s` yields the values `vs` and ends at `r`. */
  ghost predicate Chain<T>(p: Parser<T>, s: seq<char>, vs: seq<T>, r: seq<char>)
    decreases |vs|
  {
    if vs == [] then r == s
    else p(s).Ok? && p(s).value == vs[0] && Chain(p, p(s).rest, vs[1..], r)
  }

  /** As `Chain`, and `t` fails at the start of every step. */
  ghost predicate ChainBefore<T, U>(p: Parser<T>, t: Parser<U>, s: seq<char>, vs: seq<T>, r: seq<char>)
    decreases |vs|
  {
    if vs == [] then r == s
    else t(s).Err? && p(s).Ok? && p(s).value == vs[0] && ChainBefore(p, t, p(s).rest, vs[1..], r)
  }

  /** `many(p)` yields exactly the chain of successes of `p` that ends where
      `p` fails. */
  lemma {:induction false} ManyIsMaximalChain<T>(p: Parser<T>, s: seq<char>, vs: seq<T>, r: seq<char>)
    requires Progresses(p)
    ensures Many(p)(s) == Ok(vs, r) <==> Chain(p, s, vs, r) && p(r).Err?
    decreases |s|
  {
    assert Many(p)(s) == ManyFrom(p, s);
    match p(s)
    case Err =>
      if vs != [] {
        assert !Chain(p, s, vs, r);
      }
    case Ok(v, rest) =>
      if vs == [] {
        assert ManyFrom(p, s).value != vs;
      } else {
        ManyIsMaximalChain(p, rest, vs[1..], r);
        assert Many(p)(rest) == ManyFrom(p, rest);
        assert [vs[0]] + vs[1..] == vs;
        if Many(p)(s) == Ok(vs, r) {
          assert ManyFrom(p, rest).value == vs[1..];
        }
      }
  }

  /** `p.until(t)` succeeds with `vs` and remainder `r` exactly when the input
      is not empty, `vs` is a chain of successes of `p` each starting where `t`
      fails, and `t` matches at `r`. */
  lemma {:induction false} UntilIsChainToTerminator<T, U>(p: Parser<T>, t: Parser<U>, s: seq<char>, vs: seq<T>, r: seq<char>)
    requires Progresses(p)
    ensures Until(p, t)(s) == Ok(vs, r) <==> s != [] && ChainBefore(p, t, s, vs, r) && t(r).Ok?
  {
    if s != [] {
      ScanIsChainToTerminator(p, t, s, vs, r);
    }
  }

  lemma {:induction false} ScanIsChainToTerminator<T, U>(p: Parser<T>, t: Parser<U>, s: seq<char>, vs: seq<T>, r: seq<char>)
    requires Progresses(p)
    ensures ScanFrom(p, t, s) == Ok(vs, r) <==> ChainBefore(p, t, s, vs, r) && t(r).Ok?
    decreases |s|
  {
    if t(s).Ok? {
      if vs != [] {
        assert !ChainBefore(p, t, s, vs, r);
      }
    } else {
      match p(s)
      case Err =>
        if vs != [] {
          assert !ChainBefore(p, t, s, vs, r);
        }
      case Ok(v, rest) =>
        if vs != [] {
          ScanIsChainToTerminator(p, t, rest, vs[1..], r);
          assert [vs[0]] + vs[1..] == vs;
          if ScanFrom(p, t, s) == Ok(vs, r) {
            assert ScanFrom(p, t, rest).value == vs[1..];
          }
        }
    }
  }

  /** When `t` matches at no suffix of the input, `p.until(t)` fails. */
  lemma UntilWithoutTerminatorFails<T, U>(p: Parser<T>, t: Parser<U>, s: seq<char>)
    requires Progresses(p) && Consumes(p)
    requires forall k :: 0 <= k <= |s| ==> t(s[k..]).Err?
    ensures Until(p, t)(s).Err?
  {

  }

  // ---------------------------------------------------------------------------
  // `many` over a parser that recognises one character of a class

  /** `p` succeeds exactly on inputs whose first character satisfies `P`,
      consuming that character and returning `f` of it. */
  ghost predicate Recognizes<T>(p: Parser<T>, P: char -> bool, f: char -> T) {
    forall s :: p(s) == if |s| > 0 && P(s[0]) then Ok(f(s[0]), s[1..]) else Err
  }

  /** Length of the longest prefix of `s` whose characters all satisfy `P`. */
  function Span(P: char -> bool, s: seq<char>): (n: nat)
    ensures n <= |s|
    ensures forall i :: 0 <= i < n ==> P(s[i])
    ensures n == |s| || !P(s[n])
  {
    if |s| > 0 && P(s[0]) then 1 + Span(P, s[1..]) else 0
  }

  /** `f` applied to every character of `cs`, in order. */
  function MapSeq<T>(f: char -> T, cs: seq<char>): (r: seq<T>)
    ensures |r| == |cs|
  {
    if cs == [] then [] else [f(cs[0])] + MapSeq(f, cs[1..])
  }

  lemma RecognizerProgresses<T>(p: Parser<T>, P: char -> bool, f: char -> T)
    requires Recognizes(p, P, f)
    ensures Progresses(p) && Consumes(p)
  {
    forall s | p(s).Ok? ensures IsSuffix(p(s).rest, s) && |p(s).rest| < |s| {
      assert p(s) == Ok(f(s[0]), s[1..]);
    }
  }

  /** `many` over a one-character recogniser takes the longest matching prefix. */
  lemma ManyRecognizer<T>(p: Parser<T>, P: char -> bool, f: char -> T, s: seq<char>)
    requires Recognizes(p, P, f)
    ensures Progresses(p)
    ensures Many(p)(s) == Ok(MapSeq(f, s[..Span(P, s)]), s[Span(P, s)..])
  {
    RecognizerProgresses(p, P, f);
    assert Many(p)(s) == ManyFrom(p, s);
    ManyFromRecognizer(p, P, f, s);
  }

  lemma {:induction false} ManyFromRecognizer<T>(p: Parser<T>, P: char -> bool, f: char -> T, s: seq<char>)
    requires Recognizes(p, P, f) && Progresses(p)
    ensures ManyFrom(p, s) == Ok(MapSeq(f, s[..Span(P, s)]), s[Span(P, s)..])
    decreases |s|
  {
    assert p(s) == if |s| > 0 && P(s[0]) then Ok(f(s[0]), s[1..]) else Err;
    if |s| > 0 && P(s[0]) {
      ManyFromRecognizer(p, P, f, s[1..]);
      var n := Span(P, s[1..]);
      assert Span(P, s) == 1 + n;
      assert s[1..][n..] == s[1 + n..];
      assert s[..1 + n][1..] == s[1..][..n];
      assert MapSeq(f, s[..1 + n]) == [f(s[0])] + MapSeq(f, s[1..][..n]);
    } else {
      assert Span(P, s) == 0;
      assert s[..0] == [];
    }
  }

  /** With the identity as value function the values are the prefix itself. */
  lemma {:induction false} MapSeqId(f: char -> char, cs: seq<char>)
    requires forall c :: f(c) == c
    ensures MapSeq(f, cs) == cs
  {
    if cs != [] {
      MapSeqId(f, cs[1..]);
    }
  }

  /** A run of `P` characters followed by one that is not `P` (or by nothing)
      is exactly the span. */
  lemma {:induction false} SpanOfPrefix(P: char -> bool, text: seq<char>, t: seq<char>)
    requires forall i :: 0 <= i < |text| ==> P(text[i])
    requires t == [] || !P(t[0])
    ensures Span(P, text + t) == |text|
  {
    if text != [] {
      assert (text + t)[1..] == text[1..] + t;
      SpanOfPrefix(P, text[1..], t);
    } else {
      assert text + t == t;
    }
  }

  /** `many` over a one-character recogniser takes the first `k` characters
      when they all match and the next one does not (or there is none). */
  lemma ManyOverPrefix<T>(p: Parser<T>, P: char -> bool, f: char -> T, s: seq<char>, k: nat)
    requires Recognizes(p, P, f)
    requires k <= |s|
    requires forall i :: 0 <= i < k ==> P(s[i])
    requires k == |s| || !P(s[k])
    ensures Progresses(p)
    ensures Many(p)(s) == Ok(MapSeq(f, s[..k]), s[k..])
  {
    SpanAt(P, s, k);
    ManyRecognizer(p, P, f, s);
  }

  /** The span is `k` when the first `k` characters satisfy `P` and the next
      one does not (or there is none). */
  lemma {:induction false} SpanAt(P: char -> bool, s: seq<char>, k: nat)
    requires k <= |s|
    requires forall i :: 0 <= i < k ==> P(s[i])
    requires k == |s| || !P(s[k])
    ensures Span(P, s) == k
    decreases k
  {
    if k > 0 {
      assert forall i :: 0 <= i < k - 1 ==> s[1..][i] == s[i + 1];
      SpanAt(P, s[1..], k - 1);
    }
  }

  /** The characters other than `c`. */
  function Unlike(c: char): char -> bool {
    x => x != c
  }

  /** `any().until(character(c))` stated without parsers: the text up to the
      first `c`, which stays unconsumed, or failure when there is none. */
  function ScanTo(c: char, s: seq<char>): Result<seq<char>> {
    var k := Span(Unlike(c), s);
    if k < |s| then Ok(s[..k], s[k..]) else Err
  }

  /** `any().until(character(c))` reads exactly `ScanTo(c, s)`. */
  lemma UntilAnyTo(c: char, s: seq<char>)
    ensures Progresses(Any())
    ensures Until(Any(), Character(c))(s) == ScanTo(c, s)
  {
    ScanAnyTo(c, s);
  }

  lemma {:induction false} ScanAnyTo(c: char, s: seq<char>)
    ensures Progresses(Any())
    ensures s != [] ==> ScanFrom(Any(), Character(c), s) == ScanTo(c, s)
    decreases |s|
  {
    if |s| > 0 && s[0] != c {
      ScanAnyStep(c, s);
      if |s| > 1 {
        ScanAnyTo(c, s[1..]);
      } else {
        assert Any()(s[1..]).Err?;
      }
      ScanAnyValues(c, s, ScanFrom(Any(), Character(c), s), ScanFrom(Any(), Character(c), s[1..]));
    } else if |s| > 0 {
      ScanAnyStop(c, s);
    }
  }

  /** The value-level step behind `ScanAnyTo`. */
  lemma ScanAnyValues(c: char, s: seq<char>, a: Result<seq<char>>, b: Result<seq<char>>)
    requires |s| > 0 && s[0] != c
    requires a == Prepend([s[0]], b)
    requires b == ScanTo(c, s[1..])
    ensures a == ScanTo(c, s)
  {
    var k' := Span(Unlike(c), s[1..]);
    assert Span(Unlike(c), s) == 1 + k';
    if k' < |s[1..]| {
      assert s[1..][k'..] == s[1 + k'..];
      assert [s[0]] + s[1..][..k'] == s[..1 + k'];
    }
  }

  lemma ScanAnyStep(c: char, s: seq<char>)
    requires |s| > 0 && s[0] != c
    ensures Progresses(Any())
    ensures ScanFrom(Any(), Character(c), s) == Prepend([s[0]], ScanFrom(Any(), Character(c), s[1..]))
  {
    assert Any()(s) == Ok(s[0], s[1..]);
    assert Character(c)(s).Err?;
  }

  lemma ScanAnyStop(c: char, s: seq<char>)
    requires |s| > 0 && s[0] == c
    ensures Progresses(Any())
    ensures ScanFrom(Any(), Character(c), s) == Ok([], s)
  {
    assert Character(c)(s).Ok?;
  }

  /** `many` only looks at the input and what follows it: element parsers
      that agree on `s` and on every suffix of it repeat the same way on `s`. */
  lemma {:induction false} ManyAgree<T>(p: Parser<T>, q: Parser<T>, s: seq<char>)
    requires Progresses(p) && Progresses(q) && Consumes(p)
    requires forall t :: IsSuffix(t, s) ==> p(t) == q(t)
    ensures Many(p)(s) == Many(q)(s)
    decreases |s|
  {
    assert IsSuffix(s, s);
    assert p(s) == q(s);
    if p(s).Ok? {
      var rest := p(s).rest;
      forall t | IsSuffix(t, rest) ensures p(t) == q(t) {
        SuffixTrans(t, rest, s);
      }
      ManyAgree(p, q, rest);
      assert ManyFrom(p, rest) == Many(p)(rest);
      assert ManyFrom(q, rest) == Many(q)(rest);
    }
  }

  // ---------------------------------------------------------------------------
  // Whitespace

  predicate IsWhitespace(c: char) {
    c == ' ' || c == '\n' || c == '\t'
  }

  /** `whitespace`: one space, newline or tab, with value `()`. */
  function Whitespace(): (p: Parser<()>)
    ensures Recognizes(p, IsWhitespace, _ => ())
    ensures Progresses(p) && Consumes(p)
  {
    Map(Or(Or(Character(' '), Character('\n')), Character('\t')), (_: Either<Either<char, char>, char>) => ())
  }

  /** What `many(whitespace())` leaves: the input without its leading
      spaces, newlines and tabs. */
  function SkipWhitespace(s: seq<char>): (r: seq<char>)
    ensures IsSuffix(r, s)
    ensures r == [] || !IsWhitespace(r[0])
  {
    s[Span(IsWhitespace, s)..]
  }

  lemma ManyWhitespace(s: seq<char>)
    ensures Many(Whitespace())(s).Ok? && Many(Whitespace())(s).rest == SkipWhitespace(s)
  {
    ManyRecognizer(Whitespace(), IsWhitespace, _ => (), s);
  }

  /** `p.zip_left(many(whitespace()))`: `p`, then the whitespace after it. */
  lemma ThenWhitespace<T>(p: Parser<T>, s: seq<char>)
    ensures ZipLeft(p, Many(Whitespace()))(s) ==
              match p(s)
              case Err => Err
              case Ok(v, r) => Ok(v, SkipWhitespace(r))
  {
    if p(s).Ok? {
      ManyWhitespace(p(s).rest);
    }
  }
}
