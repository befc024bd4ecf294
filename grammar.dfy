/**
 * What the recursive-descent parser of src/parser.rs computes, stated as
 * functions of the token sequence and the cursor position. Each function
 * mirrors one parser method and returns the method's result together with
 * the cursor position the method leaves behind (also on an error, since an
 * error is reported after the offending token was taken).
 *
 * src/parser.rs imports the token type from src/lexer.rs, which does not
 * define it; it is defined here from its uses in the parser: identifiers
 * carrying a name, a lambda, a dot and the two parentheses, compared
 * structurally.
 */
module Grammar {
  import opened Wrappers
  import opened Ast

  datatype Token =
    | Identifier(name: string)
    | Lambda
    | Dot
    | LeftParen
    | RightParen

  datatype ParseError =
    | UnexpectedToken(token: Token)
    | UnexpectedEndOfInput
    /** Declared by the source but never produced by any parser method. */
    | InvalidExpression

  /** A parser method's result and the cursor position after it. */
  datatype Parsed<T> = Parsed(result: Result<T, ParseError>, pos: nat)

  /** The name a failed `consume` reports when the input is exhausted. */
  const EndMarker: Token := Identifier("EOF")

  /** An application stops before a right parenthesis and at the end of input. */
  predicate Stops(toks: seq<Token>, pos: nat)
    requires pos <= |toks|
  {
    pos == |toks| || toks[pos] == RightParen
  }

  /** `consume`: take the expected token, or report the one found (the end marker at the end). */
  function Consume(toks: seq<Token>, pos: nat, expected: Token): (p: Parsed<()>)
    requires pos <= |toks|
    ensures p.result.Success? <==> pos < |toks| && toks[pos] == expected
    ensures p.pos == if p.result.Success? then pos + 1 else pos
    ensures p.result.Failure? ==>
      p.result.error == UnexpectedToken(if pos < |toks| then toks[pos] else EndMarker)
  {
    if pos < |toks| && toks[pos] == expected then Parsed(Success(()), pos + 1)
    else Parsed(Failure(UnexpectedToken(if pos < |toks| then toks[pos] else EndMarker)), pos)
  }

  /** `expression`: an expression is an application. */
  function Expression(toks: seq<Token>, pos: nat): (p: Parsed<Term>)
    requires pos <= |toks|
    ensures pos <= p.pos <= |toks|
    ensures p.result.Success? ==> pos < p.pos && Stops(toks, p.pos)
    ensures p.result != Failure(InvalidExpression)
    decreases |toks| - pos, 3
  {
    Application(toks, pos)
  }

  /** `application`: one atom, then further atoms folded to the left until a `)` or the end. */
  function Application(toks: seq<Token>, pos: nat): (p: Parsed<Term>)
    requires pos <= |toks|
    ensures pos <= p.pos <= |toks|
    ensures p.result.Success? ==> pos < p.pos && Stops(toks, p.pos)
    ensures p.result != Failure(InvalidExpression)
    decreases |toks| - pos, 2
  {
    var first := Atom(toks, pos);
    if first.result.Failure? then first
    else ApplicationLoop(toks, first.pos, first.result.value)
  }

  /** The `while` loop of `application`, with the application built so far in `acc`. */
  function ApplicationLoop(toks: seq<Token>, pos: nat, acc: Term): (p: Parsed<Term>)
    requires pos <= |toks|
    ensures pos <= p.pos <= |toks|
    ensures p.result.Success? ==> Stops(toks, p.pos)
    ensures p.result != Failure(InvalidExpression)
    decreases |toks| - pos, 2
  {
    if Stops(toks, pos) then Parsed(Success(acc), pos)
    else
      var right := Atom(toks, pos);
      if right.result.Failure? then right
      else ApplicationLoop(toks, right.pos, App(acc, right.result.value))
  }

  /**
   * `atom`: takes one token first, whatever it is; an identifier is a
   * variable, a lambda starts an abstraction, a `(` a parenthesised
   * expression; any other token is unexpected.
   */
  function Atom(toks: seq<Token>, pos: nat): (p: Parsed<Term>)
    requires pos <= |toks|
    ensures p.pos <= |toks|
    ensures pos < |toks| ==> pos < p.pos
    ensures pos == |toks| ==> p == Parsed(Failure(UnexpectedEndOfInput), pos)
    ensures p.result != Failure(InvalidExpression)
    decreases |toks| - pos, 1
  {
    if pos == |toks| then Parsed(Failure(UnexpectedEndOfInput), pos)
    else
      match toks[pos]
      case Identifier(name) => Parsed(Success(Var(name)), pos + 1)
      case Lambda => Abstraction(toks, pos + 1)
      case LeftParen =>
        var inner := Expression(toks, pos + 1);
        if inner.result.Failure? then inner
        else
          var close := Consume(toks, inner.pos, RightParen);
          if close.result.Failure? then Parsed(Failure(close.result.error), close.pos)
          else Parsed(inner.result, close.pos)
      case Dot => Parsed(Failure(UnexpectedToken(Dot)), pos + 1)
      case RightParen => Parsed(Failure(UnexpectedToken(RightParen)), pos + 1)
  }

  /**
   * `abstraction`, entered just after the lambda: a parameter name, a dot,
   * and a body that is a whole expression, so that it extends up to a `)`
   * or the end of the input.
   */
  function Abstraction(toks: seq<Token>, pos: nat): (p: Parsed<Term>)
    requires pos <= |toks|
    ensures pos <= p.pos <= |toks|
    ensures pos == |toks| ==> p == Parsed(Failure(UnexpectedEndOfInput), pos)
    ensures p.result.Success? ==> p.result.value.Abs? && Stops(toks, p.pos)
    ensures p.result != Failure(InvalidExpression)
    decreases |toks| - pos, 0
  {
    if pos == |toks| then Parsed(Failure(UnexpectedEndOfInput), pos)
    else
      match toks[pos]
      case Identifier(name) =>
        var dot := Consume(toks, pos + 1, Dot);
        if dot.result.Failure? then Parsed(Failure(dot.result.error), dot.pos)
        else
          var body := Expression(toks, dot.pos);
          if body.result.Failure? then body
          else Parsed(Success(Abs(name, body.result.value)), body.pos)
      case _ => Parsed(Failure(UnexpectedToken(toks[pos])), pos + 1)
  }

  /** `parse`: an expression from the first token; trailing tokens are not checked. */
  function Parse(toks: seq<Token>): Result<Term, ParseError> {
    Expression(toks, 0).result
  }

  // ---------------------------------------------------------------------
  // Properties
  // ---------------------------------------------------------------------

  /** The tests of src/parser.rs, on the tokens the lexer would produce. */
  lemma ParseExamples()
    ensures Parse([Identifier("x")]) == Success(Var("x"))
    ensures Parse([Lambda, Identifier("x"), Dot, Identifier("x")]) == Success(Abs("x", Var("x")))
    ensures Parse([Identifier("x"), Identifier("y")]) == Success(App(Var("x"), Var("y")))
    ensures Parse([LeftParen, Lambda, Identifier("x"), Dot, Identifier("x"), Identifier("y"), RightParen,
                   LeftParen, Lambda, Identifier("z"), Dot, Identifier("z"), RightParen])
         == Success(App(Abs("x", App(Var("x"), Var("y"))), Abs("z", Var("z"))))
  {
    var toks := [LeftParen, Lambda, Identifier("x"), Dot, Identifier("x"), Identifier("y"), RightParen,
                 LeftParen, Lambda, Identifier("z"), Dot, Identifier("z"), RightParen];
    var xy := App(Var("x"), Var("y"));
    assert ApplicationLoop(toks, 5, Var("x")) == Parsed(Success(xy), 6);
    assert Expression(toks, 4) == Parsed(Success(xy), 6);
    assert Atom(toks, 1) == Parsed(Success(Abs("x", xy)), 6);
    assert Atom(toks, 0) == Parsed(Success(Abs("x", xy)), 7);
    assert Expression(toks, 11) == Parsed(Success(Var("z")), 12);
    assert Atom(toks, 8) == Parsed(Success(Abs("z", Var("z"))), 12);
    assert Atom(toks, 7) == Parsed(Success(Abs("z", Var("z"))), 13);
  }

  /** A sequence of identifier tokens. */
  function Identifiers(names: seq<string>): (toks: seq<Token>)
    ensures |toks| == |names|
    ensures forall i :: 0 <= i < |names| ==> toks[i] == Identifier(names[i])
  {
    if names == [] then [] else [Identifier(names[0])] + Identifiers(names[1..])
  }

  /** Applies `acc` to the variables named, one after the other, nesting to the left. */
  function ApplyLeft(acc: Term, names: seq<string>): Term
    decreases |names|
  {
    if names == [] then acc else ApplyLeft(App(acc, Var(names[0])), names[1..])
  }

  lemma {:induction false} IdentifiersLoop(names: seq<string>, pos: nat, acc: Term)
    requires pos <= |names|
    ensures ApplicationLoop(Identifiers(names), pos, acc)
         == Parsed(Success(ApplyLeft(acc, names[pos..])), |names|)
    decreases |names| - pos
  {
    if pos < |names| {
      assert names[pos..][1..] == names[pos + 1..];
      IdentifiersLoop(names, pos + 1, App(acc, Var(names[pos])));
    }
  }

  /** Application is left-associative: `f x1 ... xn` is `(...(f x1) ...) xn`, and all tokens are taken. */
  lemma ApplicationIsLeftAssociative(names: seq<string>)
    requires |names| > 0
    ensures Expression(Identifiers(names), 0)
         == Parsed(Success(ApplyLeft(Var(names[0]), names[1..])), |names|)
  {
    var toks := Identifiers(names);
    assert Atom(toks, 0) == Parsed(Success(Var(names[0])), 1);
    IdentifiersLoop(names, 1, Var(names[0]));
  }

  /** The tokens of `f x y` parse to `(f x) y`. */
  lemma LeftAssociativeExample()
    ensures Parse([Identifier("f"), Identifier("x"), Identifier("y")])
         == Success(App(App(Var("f"), Var("x")), Var("y")))
  {
  }

  /**
   * An abstraction's body is a whole expression: an abstraction met as an
   * atom ends only at a `)` or the end of the input, so nothing after it can
   * be an argument of the application it appears in.
   */
  lemma AbstractionIsGreedy(toks: seq<Token>, pos: nat, acc: Term)
    requires pos < |toks| && toks[pos] == Lambda
    requires Atom(toks, pos).result.Success?
    ensures Stops(toks, Atom(toks, pos).pos)
    ensures ApplicationLoop(toks, pos, acc)
         == Parsed(Success(App(acc, Atom(toks, pos).result.value)), Atom(toks, pos).pos)
    ensures Parse([Lambda, Identifier("x"), Dot, Identifier("x"), Identifier("y")])
         == Success(Abs("x", App(Var("x"), Var("y"))))
  {
  }

  /** The loop stops at a `)` without taking it, and `parse` does not ask for all tokens to be taken. */
  lemma TrailingTokensIgnored(toks: seq<Token>, pos: nat, acc: Term)
    requires pos < |toks| && toks[pos] == RightParen
    ensures ApplicationLoop(toks, pos, acc) == Parsed(Success(acc), pos)
    ensures Expression([Identifier("x"), RightParen], 0) == Parsed(Success(Var("x")), 1)
    ensures Parse([Identifier("x"), RightParen]) == Success(Var("x"))
  {
  }

  /** An atom cannot start with a dot or a `)`: that token is reported, after it was taken. */
  lemma AtomUnexpectedToken(toks: seq<Token>, pos: nat)
    requires pos < |toks| && (toks[pos] == Dot || toks[pos] == RightParen)
    ensures Atom(toks, pos) == Parsed(Failure(UnexpectedToken(toks[pos])), pos + 1)
  {
  }

  /** After a lambda, anything but an identifier is reported as such, and the end of input as such. */
  lemma AbstractionParameterErrors(toks: seq<Token>, pos: nat)
    requires pos <= |toks|
    ensures pos == |toks| ==> Abstraction(toks, pos).result == Failure(UnexpectedEndOfInput)
    ensures pos < |toks| && !toks[pos].Identifier? ==>
      Abstraction(toks, pos) == Parsed(Failure(UnexpectedToken(toks[pos])), pos + 1)
    ensures Parse([Lambda]) == Failure(UnexpectedEndOfInput)
    ensures Parse([Lambda, Dot]) == Failure(UnexpectedToken(Dot))
  {
  }

  /**
   * A `(` whose expression runs to the end of the input fails in `consume`,
   * which reports the end marker rather than the end of input.
   */
  lemma UnclosedParenthesis(toks: seq<Token>, pos: nat)
    requires pos < |toks| && toks[pos] == LeftParen
    requires Expression(toks, pos + 1).result.Success? && Expression(toks, pos + 1).pos == |toks|
    ensures Atom(toks, pos) == Parsed(Failure(UnexpectedToken(Identifier("EOF"))), |toks|)
    ensures Parse([LeftParen, Identifier("x")]) == Failure(UnexpectedToken(Identifier("EOF")))
  {
  }

  /** Every parse either succeeds, or fails with an unexpected token or the end of input. */
  lemma ParseErrors(toks: seq<Token>)
    ensures Parse(toks).Failure? ==>
      Parse(toks).error.UnexpectedToken? || Parse(toks).error == UnexpectedEndOfInput
    ensures toks == [] ==> Parse(toks) == Failure(UnexpectedEndOfInput)
  {
    if toks == [] {
      assert Atom(toks, 0) == Parsed(Failure(UnexpectedEndOfInput), 0);
      assert Expression(toks, 0) == Application(toks, 0) == Atom(toks, 0);
    }
  }
}
