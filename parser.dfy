/**
 * The recursive-descent parser of src/parser.rs: an object holding the token
 * sequence and a cursor `current` that only the taking of a token moves.
 * Every method is proved to compute what the corresponding function of
 * `Grammar` states, both the result and the new cursor position.
 */
module Parser {
  import opened Wrappers
  import opened Ast
  import opened Grammar

  class Parser {
    const tokens: seq<Token>
    var current: nat

    ghost predicate Valid()
      reads this
    {
      current <= |tokens|
    }

    /** A parser positioned at the first token (the lexer that produces the tokens is not modelled). */
    constructor (tokens: seq<Token>)
      ensures Valid()
      ensures this.tokens == tokens && current == 0
    {
      this.tokens := tokens;
      current := 0;
    }

    /** `is_at_end` */
    function IsAtEnd(): (b: bool)
      reads this
      requires Valid()
      ensures b <==> current == |tokens|
    {
      current >= |tokens|
    }

    /** `peek`: the next token, without taking it. */
    function Peek(): (t: Option<Token>)
      reads this
      requires Valid()
      ensures t.None? <==> current == |tokens|
      ensures t.Some? ==> t.value == tokens[current]
    {
      if IsAtEnd() then None else Some(tokens[current])
    }

    /** `check`: whether the next token is the given one. */
    function Check(token: Token): (b: bool)
      reads this
      requires Valid()
      ensures b <==> current < |tokens| && tokens[current] == token
    {
      match Peek()
      case None => false
      case Some(t) => t == token
    }

    /** `advance`: takes the next token, moving the cursor by exactly one unless at the end. */
    method Advance() returns (t: Option<Token>)
      requires Valid()
      modifies this
      ensures Valid()
      ensures old(current) < |tokens| ==> t == Some(tokens[old(current)]) && current == old(current) + 1
      ensures old(current) == |tokens| ==> t == None && current == old(current)
    {
      if IsAtEnd() {
        t := None;
      } else {
        t := Some(tokens[current]);
        current := current + 1;
      }
    }

    /** `consume` */
    method Consume(expected: Token) returns (r: Result<(), ParseError>)
      requires Valid()
      modifies this
      ensures Valid()
      ensures Parsed(r, current) == Grammar.Consume(tokens, old(current), expected)
    {
      if Check(expected) {
        var _ := Advance();
        r := Success(());
      } else {
        var found := Peek();
        r := Failure(UnexpectedToken(if found.Some? then found.value else EndMarker));
      }
    }

    /** `parse` */
    method Parse() returns (r: Result<Term, ParseError>)
      requires Valid()
      modifies this
      ensures Valid()
      ensures Parsed(r, current) == Grammar.Expression(tokens, old(current))
      decreases |tokens| - current, 4
    {
      r := Expression();
    }

    /** `expression` */
    method Expression() returns (r: Result<Term, ParseError>)
      requires Valid()
      modifies this
      ensures Valid()
      ensures Parsed(r, current) == Grammar.Expression(tokens, old(current))
      decreases |tokens| - current, 3
    {
      r := Application();
    }

    /** `application`: the left-associative `while` loop. */
    method Application() returns (r: Result<Term, ParseError>)
      requires Valid()
      modifies this
      ensures Valid()
      ensures Parsed(r, current) == Grammar.Application(tokens, old(current))
      decreases |tokens| - current, 2
    {
      var first := Atom();
      if first.Failure? {
        return first;
      }
      var expr := first.value;
      while Peek().Some? && Peek() != Some(RightParen)
        invariant Valid() && old(current) < current
        invariant Grammar.ApplicationLoop(tokens, current, expr) == Grammar.Application(tokens, old(current))
        decreases |tokens| - current
      {
        var right := Atom();
        if right.Failure? {
          return Failure(right.error);
        }
        expr := App(expr, right.value);
      }
      r := Success(expr);
    }

    /** `atom` */
    method Atom() returns (r: Result<Term, ParseError>)
      requires Valid()
      modifies this
      ensures Valid()
      ensures Parsed(r, current) == Grammar.Atom(tokens, old(current))
      decreases |tokens| - current, 1
    {
      var token := Advance();
      match token
      case None =>
        r := Failure(UnexpectedEndOfInput);
      case Some(Identifier(name)) =>
        r := Success(Var(name));
      case Some(Lambda) =>
        r := Abstraction();
      case Some(LeftParen) =>
        var expr := Expression();
        if expr.Failure? {
          return expr;
        }
        var closed := Consume(RightParen);
        if closed.Failure? {
          return Failure(closed.error);
        }
        r := expr;
      case Some(other) =>
        r := Failure(UnexpectedToken(other));
    }

    /** `abstraction`, entered just after the lambda was taken. */
    method Abstraction() returns (r: Result<Term, ParseError>)
      requires Valid()
      modifies this
      ensures Valid()
      ensures Parsed(r, current) == Grammar.Abstraction(tokens, old(current))
      decreases |tokens| - current, 0
    {
      var token := Advance();
      if token.None? {
        return Failure(UnexpectedEndOfInput);
      } else if !token.value.Identifier? {
        return Failure(UnexpectedToken(token.value));
      }
      var param := token.value.name;
      var dot := Consume(Dot);
      if dot.Failure? {
        return Failure(dot.error);
      }
      var body := Expression();
      if body.Failure? {
        return body;
      }
      r := Success(Abs(param, body.value));
    }
  }

  /** The free function `parse`: a fresh parser over the tokens, run from the first one. */
  method ParseTokens(tokens: seq<Token>) returns (r: Result<Term, ParseError>)
    ensures r == Grammar.Parse(tokens)
  {
    var parser := new Parser(tokens);
    r := parser.Parse();
  }
}
