/**
 * The token layout behind `pretty_print` (src/ast.rs) and its agreement with
 * the parser (src/parser.rs): the printer writes a term as a sequence of
 * lexemes, parenthesising a function position only when it is an
 * abstraction and an argument only when it is an application or an
 * abstraction. Those parentheses are exactly the ones the parser needs: the
 * tokens of a printed term parse back to the term, taking every token.
 */
module Layout {
  import opened Wrappers
  import opened Ast
  import opened Grammar

  function Wrapped(s: seq<Token>): seq<Token> {
    [LeftParen] + s + [RightParen]
  }

  /** The lexemes of `PrettyPrint(t)`, in order. */
  function Tokens(t: Term): (s: seq<Token>)
    ensures |s| > 0
    decreases t, 0
  {
    match t
    case Var(x) => [Identifier(x)]
    case Abs(p, b) => [Lambda, Identifier(p), Dot] + Tokens(b)
    case App(f, a) => FuncTokens(f) + ArgTokens(a)
  }

  /** A function position: parenthesised when it is an abstraction. */
  function FuncTokens(f: Term): (s: seq<Token>)
    ensures |s| > 0
    decreases f, 1
  {
    if f.Abs? then Wrapped(Tokens(f)) else Tokens(f)
  }

  /** An argument position: parenthesised when it is an application or an abstraction. */
  function ArgTokens(a: Term): (s: seq<Token>)
    ensures |s| > 0 && (s[0].Identifier? || s[0] == LeftParen)
    decreases a, 1
  {
    if a.App? || a.Abs? then Wrapped(Tokens(a)) else Tokens(a)
  }

  // ---------------------------------------------------------------------
  // The layout is the printed text, spaces aside
  // ---------------------------------------------------------------------

  function Spelling(tok: Token): string {
    match tok
    case Identifier(name) => name
    case Lambda => "\\"
    case Dot => "."
    case LeftParen => "("
    case RightParen => ")"
  }

  function Spelled(toks: seq<Token>): string {
    if toks == [] then "" else Spelling(toks[0]) + Spelled(toks[1..])
  }

  function WithoutSpaces(s: string): (r: string)
    ensures ' ' !in r
  {
    if s == [] then "" else (if s[0] == ' ' then "" else [s[0]]) + WithoutSpaces(s[1..])
  }

  lemma {:induction false} SpelledConcat(a: seq<Token>, b: seq<Token>)
    ensures Spelled(a + b) == Spelled(a) + Spelled(b)
  {
    if a == [] {
      assert a + b == b;
    } else {
      assert (a + b)[0] == a[0];
      assert (a + b)[1..] == a[1..] + b;
      SpelledConcat(a[1..], b);
    }
  }

  lemma {:induction false} WithoutSpacesConcat(a: string, b: string)
    ensures WithoutSpaces(a + b) == WithoutSpaces(a) + WithoutSpaces(b)
  {
    if a == [] {
      assert a + b == b;
    } else {
      assert (a + b)[0] == a[0];
      assert (a + b)[1..] == a[1..] + b;
      WithoutSpacesConcat(a[1..], b);
    }
  }

  lemma {:induction false} WithoutSpacesUnchanged(s: string)
    requires ' ' !in s
    ensures WithoutSpaces(s) == s
  {
    if s != [] {
      WithoutSpacesUnchanged(s[1..]);
    }
  }

  lemma WrappedSpelling(s: seq<Token>)
    ensures Spelled(Wrapped(s)) == "(" + Spelled(s) + ")"
  {
    SpelledConcat([LeftParen] + s, [RightParen]);
    SpelledConcat([LeftParen], s);
  }

  /** Removing the spaces from the printed term leaves the spellings of its tokens, in order. */
  lemma {:induction false} PrettyPrintSpellsTokens(t: Term)
    requires NamesWithout(t, ' ')
    ensures WithoutSpaces(PrettyPrint(t)) == Spelled(Tokens(t))
  {
    match t
    case Var(x) =>
      WithoutSpacesUnchanged(x);
      assert Spelled(Tokens(t)) == x + "";
    case Abs(p, b) =>
      PrettyPrintSpellsTokens(b);
      AbsSpelling(p, b);
    case App(f, a) =>
      PrettyPrintSpellsTokens(f);
      PrettyPrintSpellsTokens(a);
      AppSpelling(f, a);
  }

  lemma AbsSpelling(p: string, b: Term)
    requires ' ' !in p && WithoutSpaces(PrettyPrint(b)) == Spelled(Tokens(b))
    ensures WithoutSpaces(PrettyPrint(Abs(p, b))) == Spelled(Tokens(Abs(p, b)))
  {
    var lead := [Lambda, Identifier(p), Dot];
    calc {
      WithoutSpaces(PrettyPrint(Abs(p, b)));
      WithoutSpaces((("\\" + p) + ". ") + PrettyPrint(b));
      { WithoutSpacesConcat(("\\" + p) + ". ", PrettyPrint(b)); }
      WithoutSpaces(("\\" + p) + ". ") + Spelled(Tokens(b));
      { WithoutSpacesConcat("\\" + p, ". "); }
      WithoutSpaces("\\" + p) + WithoutSpaces(". ") + Spelled(Tokens(b));
      { WithoutSpacesConcat("\\", p); WithoutSpacesUnchanged(p); WithoutSpacesUnchanged("\\"); }
      "\\" + p + WithoutSpaces(". ") + Spelled(Tokens(b));
      { DotSpace(); }
      "\\" + p + "." + Spelled(Tokens(b));
      { LeadSpelling(p); }
      Spelled(lead) + Spelled(Tokens(b));
      { SpelledConcat(lead, Tokens(b)); }
      Spelled(Tokens(Abs(p, b)));
    }
  }

  lemma DotSpace()
    ensures WithoutSpaces(". ") == "."
    ensures WithoutSpaces(" ") == ""
  {
    assert ". "[1..] == " ";
    assert " "[1..] == "";
  }

  lemma LeadSpelling(p: string)
    ensures Spelled([Lambda, Identifier(p), Dot]) == "\\" + p + "."
  {
    var lead := [Lambda, Identifier(p), Dot];
    assert lead[1..] == [Identifier(p), Dot] && lead[1..][1..] == [Dot] && lead[1..][1..][1..] == [];
    assert Spelled([Dot]) == "." + "" == ".";
    assert Spelled([Identifier(p), Dot]) == p + ".";
  }

  lemma AppSpelling(f: Term, a: Term)
    requires WithoutSpaces(PrettyPrint(f)) == Spelled(Tokens(f))
    requires WithoutSpaces(PrettyPrint(a)) == Spelled(Tokens(a))
    ensures WithoutSpaces(PrettyPrint(App(f, a))) == Spelled(Tokens(App(f, a)))
  {
    var fs := if f.Abs? then Parenthesized(PrettyPrint(f)) else PrettyPrint(f);
    var as_ := if a.App? || a.Abs? then Parenthesized(PrettyPrint(a)) else PrettyPrint(a);
    assert PrettyPrint(App(f, a)) == (fs + " ") + as_;
    ParenthesizedSpelling(f, f.Abs?);
    ParenthesizedSpelling(a, a.App? || a.Abs?);
    JoinSpelling(fs, as_);
    SpelledConcat(FuncTokens(f), ArgTokens(a));
  }

  lemma JoinSpelling(fs: string, as_: string)
    ensures WithoutSpaces((fs + " ") + as_) == WithoutSpaces(fs) + WithoutSpaces(as_)
  {
    WithoutSpacesConcat(fs + " ", as_);
    WithoutSpacesConcat(fs, " ");
    DotSpace();
  }

  lemma ParenthesizedSpelling(t: Term, wrap: bool)
    requires WithoutSpaces(PrettyPrint(t)) == Spelled(Tokens(t))
    ensures WithoutSpaces(if wrap then Parenthesized(PrettyPrint(t)) else PrettyPrint(t))
         == Spelled(if wrap then Wrapped(Tokens(t)) else Tokens(t))
  {
    if wrap {
      WrappedSpelling(Tokens(t));
      WithoutSpacesConcat("(" + PrettyPrint(t), ")");
      WithoutSpacesConcat("(", PrettyPrint(t));
    }
  }

  // ---------------------------------------------------------------------
  // The parser reads the layout back
  // ---------------------------------------------------------------------

  /** `s` occurs in `toks` from position `pos` on. */
  predicate At(toks: seq<Token>, pos: nat, s: seq<Token>) {
    pos + |s| <= |toks| && toks[pos..pos + |s|] == s
  }

  lemma AtSplit(toks: seq<Token>, pos: nat, s1: seq<Token>, s2: seq<Token>)
    requires At(toks, pos, s1 + s2)
    ensures At(toks, pos, s1) && At(toks, pos + |s1|, s2)
  {
    assert toks[pos..pos + |s1|] == toks[pos..pos + |s1| + |s2|][..|s1|];
    assert toks[pos + |s1|..pos + |s1| + |s2|] == toks[pos..pos + |s1| + |s2|][|s1|..];
  }

  lemma AtIndex(toks: seq<Token>, pos: nat, s: seq<Token>, i: nat)
    requires At(toks, pos, s) && i < |s|
    ensures toks[pos + i] == s[i]
  {
    assert toks[pos..pos + |s|][i] == s[i];
  }

  /** The tokens of a term, followed by a `)` or the end, parse as that term as one expression. */
  lemma {:induction false} ExpressionReadsBack(t: Term, toks: seq<Token>, pos: nat)
    requires At(toks, pos, Tokens(t)) && Stops(toks, pos + |Tokens(t)|)
    ensures Expression(toks, pos) == Parsed(Success(t), pos + |Tokens(t)|)
    decreases t, if t.App? then 3 else 0
  {
    var end := pos + |Tokens(t)|;
    match t
    case Var(x) =>
      AtIndex(toks, pos, Tokens(t), 0);
      assert Atom(toks, pos) == Parsed(Success(t), end);
      SingleAtom(toks, pos, t, end);
    case Abs(p, b) =>
      AtSplit(toks, pos, [Lambda, Identifier(p), Dot], Tokens(b));
      AtIndex(toks, pos, Tokens(t), 0);
      AtIndex(toks, pos, Tokens(t), 1);
      AtIndex(toks, pos, Tokens(t), 2);
      ExpressionReadsBack(b, toks, pos + 3);
      assert Abstraction(toks, pos + 1) == Parsed(Success(t), end);
      assert Atom(toks, pos) == Parsed(Success(t), end);
      SingleAtom(toks, pos, t, end);
    case App(f, a) =>
      ApplicationReadsBack(t, toks, pos);
  }

  /** An atom followed by a `)` or the end is a whole expression. */
  lemma SingleAtom(toks: seq<Token>, pos: nat, t: Term, end: nat)
    requires pos <= end <= |toks| && Stops(toks, end)
    requires Atom(toks, pos) == Parsed(Success(t), end)
    ensures Expression(toks, pos) == Parsed(Success(t), end)
  {
    assert ApplicationLoop(toks, end, t) == Parsed(Success(t), end);
    assert Application(toks, pos) == Parsed(Success(t), end);
  }

  /**
   * The tokens of a function position leave the application loop with that
   * term as the application built so far.
   */
  lemma {:induction false} ApplicationReadsBack(t: Term, toks: seq<Token>, pos: nat)
    requires At(toks, pos, FuncTokens(t))
    ensures Application(toks, pos) == ApplicationLoop(toks, pos + |FuncTokens(t)|, t)
    decreases t, 2
  {
    match t
    case App(f, a) =>
      assert FuncTokens(t) == FuncTokens(f) + ArgTokens(a);
      AtSplit(toks, pos, FuncTokens(f), ArgTokens(a));
      ApplicationReadsBack(f, toks, pos);
      LoopReadsArgument(f, a, toks, pos + |FuncTokens(f)|);
    case Var(_) =>
      AtomReadsBack(t, false, toks, pos);
    case Abs(_, _) =>
      AtomReadsBack(t, true, toks, pos);
  }

  /** One turn of the application loop reads an argument and applies the term built so far to it. */
  lemma {:induction false} LoopReadsArgument(f: Term, a: Term, toks: seq<Token>, q: nat)
    requires At(toks, q, ArgTokens(a))
    ensures ApplicationLoop(toks, q, f) == ApplicationLoop(toks, q + |ArgTokens(a)|, App(f, a))
    decreases a, 5
  {
    AtIndex(toks, q, ArgTokens(a), 0);
    assert !Stops(toks, q);
    AtomReadsBack(a, a.App? || a.Abs?, toks, q);
  }

  /** A variable, or a parenthesised term, is read as one atom. */
  lemma {:induction false} AtomReadsBack(t: Term, wrap: bool, toks: seq<Token>, pos: nat)
    requires wrap || t.Var?
    requires At(toks, pos, if wrap then Wrapped(Tokens(t)) else Tokens(t))
    ensures Atom(toks, pos)
         == Parsed(Success(t), pos + |if wrap then Wrapped(Tokens(t)) else Tokens(t)|)
    decreases t, if t.App? then 4 else 1
  {
    if !wrap {
      AtIndex(toks, pos, Tokens(t), 0);
    } else {
      var s := Tokens(t);
      AtSplit(toks, pos, [LeftParen] + s, [RightParen]);
      AtSplit(toks, pos, [LeftParen], s);
      AtIndex(toks, pos, [LeftParen], 0);
      AtIndex(toks, pos + 1 + |s|, [RightParen], 0);
      ExpressionReadsBack(t, toks, pos + 1);
    }
  }

  /** Parsing the tokens of a printed term gives the term back and takes every token. */
  lemma ParsePrintedTokens(t: Term)
    ensures Expression(Tokens(t), 0) == Parsed(Success(t), |Tokens(t)|)
    ensures Parse(Tokens(t)) == Success(t)
  {
    assert Tokens(t)[0..|Tokens(t)|] == Tokens(t);
    ExpressionReadsBack(t, Tokens(t), 0);
  }
}
