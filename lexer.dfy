/**
 * src/lexer.rs holds no lexer: only a private copy of the term type and of
 * the substitution. It is modelled on its own type and shown to agree with
 * the substitution of the `Ast` module on every input.
 */
module Lexer {
  import Ast

  datatype Term =
    | Var(name: string)
    | Abs(param: string, body: Term)
    | App(func: Term, arg: Term)

  function Subst(v: string, r: Term, t: Term): Term {
    match t
    case Var(x) => if x == v then r else Var(x)
    case Abs(p, b) => if p == v then Abs(p, b) else Abs(p, Subst(v, r, b))
    case App(t1, t2) => App(Subst(v, r, t1), Subst(v, r, t2))
  }

  /** The private term type is the AST's term type under another name. */
  function ToAst(t: Term): Ast.Term {
    match t
    case Var(x) => Ast.Var(x)
    case Abs(p, b) => Ast.Abs(p, ToAst(b))
    case App(f, a) => Ast.App(ToAst(f), ToAst(a))
  }

  function FromAst(t: Ast.Term): Term {
    match t
    case Var(x) => Var(x)
    case Abs(p, b) => Abs(p, FromAst(b))
    case App(f, a) => App(FromAst(f), FromAst(a))
  }

  lemma {:induction false} FromToAst(t: Term)
    ensures FromAst(ToAst(t)) == t
  {
    match t
    case Var(_) =>
    case Abs(_, b) => FromToAst(b);
    case App(f, a) => FromToAst(f); FromToAst(a);
  }

  lemma {:induction false} ToFromAst(t: Ast.Term)
    ensures ToAst(FromAst(t)) == t
  {
    match t
    case Var(_) =>
    case Abs(_, b) => ToFromAst(b);
    case App(f, a) => ToFromAst(f); ToFromAst(a);
  }

  /** The two substitutions compute the same term, clause for clause. */
  lemma {:induction false} SubstAgrees(v: string, r: Term, t: Term)
    ensures ToAst(Subst(v, r, t)) == Ast.Subst(v, ToAst(r), ToAst(t))
  {
    match t
    case Var(_) =>
    case Abs(p, b) => if p != v { SubstAgrees(v, r, b); }
    case App(t1, t2) => SubstAgrees(v, r, t1); SubstAgrees(v, r, t2);
  }

  /** The same agreement read from the AST's side. */
  lemma SubstAgreesOnAst(v: string, r: Ast.Term, t: Ast.Term)
    ensures Subst(v, FromAst(r), FromAst(t)) == FromAst(Ast.Subst(v, r, t))
  {
    SubstAgrees(v, FromAst(r), FromAst(t));
    ToFromAst(r);
    ToFromAst(t);
    FromToAst(Subst(v, FromAst(r), FromAst(t)));
  }

  /** On a variable, the replacement is returned exactly when the names agree. */
  lemma SubstVar(v: string, r: Term, x: string)
    ensures Subst(v, r, Var(x)) == if x == v then r else Var(x)
  {
  }

  /** A binder named like the substituted variable shadows it. */
  lemma SubstShadowed(v: string, r: Term, b: Term)
    ensures Subst(v, r, Abs(v, b)) == Abs(v, b)
  {
  }

  /** Other binders are kept without renaming; applications are mapped component-wise. */
  lemma SubstNoRenaming(v: string, r: Term, p: string, b: Term, t1: Term, t2: Term)
    requires p != v
    ensures Subst(v, r, Abs(p, b)) == Abs(p, Subst(v, r, b))
    ensures Subst(v, r, App(t1, t2)) == App(Subst(v, r, t1), Subst(v, r, t2))
  {
  }

  /** The test of src/lexer.rs. */
  lemma SubstExamples()
    ensures Subst("x", Var("y"), Var("x")) == Var("y")
    ensures Subst("x", Var("y"), Abs("x", Var("x"))) == Abs("x", Var("x"))
    ensures Subst("x", Var("y"), App(Var("y"), Var("x"))) == App(Var("y"), Var("y"))
  {
  }
}
