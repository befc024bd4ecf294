/**
 * The abstract syntax of the untyped lambda calculus (src/ast.rs): the
 * three-variant `Term`, its pretty printer, its box-drawing tree renderer and
 * the capture-unsafe substitution.
 */
module Ast {

  datatype Term =
    | Var(name: string)
    | Abs(param: string, body: Term)
    | App(func: Term, arg: Term)

  /** Number of nodes in a term. */
  function Size(t: Term): (n: nat)
    ensures n >= 1
  {
    match t
    case Var(_) => 1
    case Abs(_, b) => 1 + Size(b)
    case App(f, a) => 1 + Size(f) + Size(a)
  }

  // ---------------------------------------------------------------------
  // Pretty printing (`pretty_print`)
  // ---------------------------------------------------------------------

  function Parenthesized(s: string): string {
    "(" + s + ")"
  }

  /**
   * Concrete syntax of a term. A function position is parenthesised only when
   * it is an abstraction; an argument position only when it is an
   * application or an abstraction. The two parts are joined by one space.
   */
  function PrettyPrint(t: Term): string {
    match t
    case Var(v) => v
    case Abs(p, b) => "\\" + p + ". " + PrettyPrint(b)
    case App(f, a) =>
      var funcStr := if f.Abs? then Parenthesized(PrettyPrint(f)) else PrettyPrint(f);
      var argStr := if a.App? || a.Abs? then Parenthesized(PrettyPrint(a)) else PrettyPrint(a);
      funcStr + " " + argStr
  }

  /** The test of src/ast.rs: `(\x. \y. x) a`. */
  lemma PrettyPrintExamples()
    ensures PrettyPrint(Var("x")) == "x"
    ensures PrettyPrint(Abs("x", Var("x"))) == "\\x. x"
    ensures PrettyPrint(App(Var("f"), Var("x"))) == "f x"
    ensures PrettyPrint(App(Abs("x", Abs("y", Var("x"))), Var("a"))) == "(\\x. \\y. x) a"
  {
  }

  // ---------------------------------------------------------------------
  // Box-drawing tree (`ascii_tree`, `ascii_tree_helper`)
  // ---------------------------------------------------------------------

  /** Connector drawn before the last child of a node: "└── ". */
  const LastBranch: string := "\U{2514}\U{2500}\U{2500} "
  /** Connector drawn before a child that has a later sibling: "├── ". */
  const MidBranch: string := "\U{251C}\U{2500}\U{2500} "
  /** Indentation added below a child that has a later sibling: "│ ". */
  const MidIndent: string := "\U{2502} "
  /** Indentation added below a last child. */
  const LastIndent: string := "  "

  function Branch(isLast: bool): (s: string)
    ensures |s| == 4
  {
    if isLast then LastBranch else MidBranch
  }

  /** The node's own label, ending in a newline. */
  function Label(t: Term): string {
    match t
    case Var(v) => "Var (" + v + ")\n"
    case Abs(p, _) => "Abs (" + p + ")\n"
    case App(_, _) => "App\n"
  }

  /**
   * One line per node: the indentation, a connector, the label; then the
   * children, the function child of an application as a middle child and
   * every other child as a last child.
   */
  function AsciiTreeHelper(t: Term, indent: string, isLast: bool): (s: string)
    ensures |indent| + 4 < |s|
    ensures s[..|indent| + 4] == indent + Branch(isLast)
    ensures s[|s| - 1] == '\n'
  {
    var head := indent + Branch(isLast) + Label(t);
    var children :=
      match t
      case Var(_) => ""
      case Abs(_, b) => AsciiTreeHelper(b, indent + LastIndent, true)
      case App(f, a) =>
        AsciiTreeHelper(f, indent + MidIndent, false) + AsciiTreeHelper(a, indent + LastIndent, true);
    PrefixKept(indent + Branch(isLast), Label(t), children);
    head + children
  }

  /** Appending keeps a prefix. */
  lemma PrefixKept(p: string, a: string, b: string)
    ensures (p + a + b)[..|p|] == p
  {
    assert (p + a + b)[..|p|] == (p + (a + b))[..|p|];
  }

  function AsciiTree(t: Term): (s: string)
    ensures |s| > 4 && s[..4] == LastBranch
  {
    assert "" + LastBranch == LastBranch;
    AsciiTreeHelper(t, "", true)
  }

  /** Number of newline characters in a string. */
  function Newlines(s: string): nat {
    if s == [] then 0 else (if s[0] == '\n' then 1 else 0) + Newlines(s[1..])
  }

  lemma {:induction false} NewlinesConcat(a: string, b: string)
    ensures Newlines(a + b) == Newlines(a) + Newlines(b)
  {
    if a != [] {
      assert (a + b)[0] == a[0];
      assert (a + b)[1..] == a[1..] + b;
      NewlinesConcat(a[1..], b);
    } else {
      assert a + b == b;
    }
  }

  lemma {:induction false} NoNewlines(s: string)
    requires '\n' !in s
    ensures Newlines(s) == 0
  {
    if s != [] {
      NoNewlines(s[1..]);
    }
  }

  /** No variable or binder name of the term contains a newline. */
  predicate NamesWithout(t: Term, c: char) {
    match t
    case Var(v) => c !in v
    case Abs(p, b) => c !in p && NamesWithout(b, c)
    case App(f, a) => NamesWithout(f, c) && NamesWithout(a, c)
  }

  /** The line a node draws for itself holds exactly one newline, at its end. */
  lemma HeadLine(t: Term, indent: string, isLast: bool)
    requires '\n' !in indent && NamesWithout(t, '\n')
    ensures Newlines(indent + Branch(isLast) + Label(t)) == 1
  {
    var pre := indent + Branch(isLast);
    assert '\n' !in Branch(isLast);
    NoNewlines(pre);
    var text := match t
      case Var(v) => "Var (" + v + ")"
      case Abs(p, _) => "Abs (" + p + ")"
      case App(_, _) => "App";
    assert Label(t) == text + "\n";
    NoNewlines(text);
    NewlinesConcat(text, "\n");
    NewlinesConcat(pre, Label(t));
  }

  /** Each node of the term is drawn on exactly one line of its own. */
  lemma {:induction false} AsciiTreeLineCount(t: Term, indent: string, isLast: bool)
    requires '\n' !in indent && NamesWithout(t, '\n')
    ensures Newlines(AsciiTreeHelper(t, indent, isLast)) == Size(t)
  {
    var head := indent + Branch(isLast) + Label(t);
    HeadLine(t, indent, isLast);
    match t
    case Var(v) =>
      assert AsciiTreeHelper(t, indent, isLast) == head + "" == head;
    case Abs(p, b) =>
      var child := AsciiTreeHelper(b, indent + LastIndent, true);
      assert AsciiTreeHelper(t, indent, isLast) == head + child;
      AsciiTreeLineCount(b, indent + LastIndent, true);
      NewlinesConcat(head, child);
    case App(f, a) =>
      var left := AsciiTreeHelper(f, indent + MidIndent, false);
      var right := AsciiTreeHelper(a, indent + LastIndent, true);
      assert AsciiTreeHelper(t, indent, isLast) == head + (left + right);
      assert '\n' !in indent + MidIndent;
      AsciiTreeLineCount(f, indent + MidIndent, false);
      AsciiTreeLineCount(a, indent + LastIndent, true);
      NewlinesConcat(left, right);
      NewlinesConcat(head, left + right);
  }

  /** The children of a node are drawn right after its own line, with the indentation the source gives them. */
  lemma AsciiTreeChildren(t: Term, indent: string, isLast: bool)
    ensures var head := indent + Branch(isLast) + Label(t);
      match t
      case Var(_) => AsciiTreeHelper(t, indent, isLast) == head
      case Abs(_, b) =>
        AsciiTreeHelper(t, indent, isLast) == head + AsciiTreeHelper(b, indent + "  ", true)
      case App(f, a) =>
        AsciiTreeHelper(t, indent, isLast)
        == head + AsciiTreeHelper(f, indent + "\U{2502} ", false) + AsciiTreeHelper(a, indent + "  ", true)
  {
  }

  // ---------------------------------------------------------------------
  // Substitution (`subst`)
  // ---------------------------------------------------------------------

  function FreeVars(t: Term): set<string> {
    match t
    case Var(x) => {x}
    case Abs(p, b) => FreeVars(b) - {p}
    case App(f, a) => FreeVars(f) + FreeVars(a)
  }

  function BoundVars(t: Term): set<string> {
    match t
    case Var(_) => {}
    case Abs(p, b) => {p} + BoundVars(b)
    case App(f, a) => BoundVars(f) + BoundVars(a)
  }

  /**
   * Replaces the free occurrences of `v` in `t` by `r`. Substitution stops at
   * a binder named `v` and never renames a binder, so a free variable of `r`
   * can be captured by a binder of `t`.
   */
  function Subst(v: string, r: Term, t: Term): (s: Term)
    ensures v !in FreeVars(t) ==> s == t
    ensures FreeVars(s) <= (FreeVars(t) - {v}) + FreeVars(r)
    ensures BoundVars(s) <= BoundVars(t) + BoundVars(r)
  {
    match t
    case Var(x) => if x == v then r else Var(x)
    case Abs(p, b) => if p == v then Abs(p, b) else Abs(p, Subst(v, r, b))
    case App(t1, t2) => App(Subst(v, r, t1), Subst(v, r, t2))
  }

  /** On a variable, substitution yields the replacement exactly when the names agree. */
  lemma SubstVar(v: string, r: Term, x: string)
    ensures Subst(v, r, Var(x)) == if x == v then r else Var(x)
  {
  }

  /** A binder named like the substituted variable shadows it, whatever the replacement. */
  lemma SubstShadowed(v: string, r: Term, b: Term)
    ensures Subst(v, r, Abs(v, b)) == Abs(v, b)
  {
  }

  /** Under any other binder the binder is kept as it is; applications are mapped component-wise. */
  lemma SubstNoRenaming(v: string, r: Term, p: string, b: Term, t1: Term, t2: Term)
    requires p != v
    ensures Subst(v, r, Abs(p, b)) == Abs(p, Subst(v, r, b))
    ensures Subst(v, r, App(t1, t2)) == App(Subst(v, r, t1), Subst(v, r, t2))
  {
  }

  /** The test of src/ast.rs. */
  lemma SubstExamples()
    ensures Subst("x", Var("y"), Var("x")) == Var("y")
    ensures Subst("x", Var("y"), Abs("x", Var("x"))) == Abs("x", Var("x"))
    ensures Subst("x", Var("y"), App(Var("y"), Var("x"))) == App(Var("y"), Var("y"))
  {
  }

  /** Substituting a variable for itself changes nothing. */
  lemma {:induction false} SubstSelf(v: string, t: Term)
    ensures Subst(v, Var(v), t) == t
  {
    match t
    case Var(_) =>
    case Abs(p, b) => if p != v { SubstSelf(v, b); }
    case App(t1, t2) => SubstSelf(v, t1); SubstSelf(v, t2);
  }

  /**
   * When no binder of `t` is a free variable of `r`, nothing is captured and
   * the free variables of the result are exactly those expected.
   */
  lemma {:induction false} SubstFreeVarsExact(v: string, r: Term, t: Term)
    requires BoundVars(t) !! FreeVars(r)
    ensures FreeVars(Subst(v, r, t))
         == (FreeVars(t) - {v}) + (if v in FreeVars(t) then FreeVars(r) else {})
  {
    match t
    case Var(_) =>
    case Abs(p, b) =>
      if p != v {
        SubstFreeVarsExact(v, r, b);
      }
    case App(t1, t2) =>
      SubstFreeVarsExact(v, r, t1);
      SubstFreeVarsExact(v, r, t2);
  }

  /**
   * Without that side condition the substitution captures: `y := x` under
   * `\x` turns a free `x` of the replacement into the bound one.
   */
  lemma SubstCaptures()
    ensures Subst("y", Var("x"), Abs("x", Var("y"))) == Abs("x", Var("x"))
    ensures "x" in FreeVars(Var("x")) && FreeVars(Subst("y", Var("x"), Abs("x", Var("y")))) == {}
  {
  }
}
