# Untyped lambda calculus: parser, AST operations and evaluator, in Dafny

This project models the core of a small front end and evaluator for the
untyped lambda calculus, and proves properties of the model:

- **AST** (`ast.dfy`, module `Ast`): the three-variant `Term` (variable,
  abstraction, application), the pretty printer, the box-drawing tree
  renderer and the capture-unsafe substitution `subst`.
- **Duplicate substitution** (`lexer.dfy`, module `Lexer`): src/lexer.rs
  holds no lexer, only a private copy of the term type and of `subst`. It is
  modelled on its own type and proved to agree with `Ast.Subst` on every
  input.
- **Parser** (`grammar.dfy`, module `Grammar`; `parser.dfy`, module
  `Parser`): the recursive-descent parser is a class `Parser.Parser` holding
  the token sequence and a mutable cursor `current`. Its methods
  (`Parse`, `Expression`, `Application` with its `while` loop, `Atom`,
  `Abstraction`, `Advance`, `Consume`) are proved to compute what the
  functions of `Grammar` state, the result and the new cursor position. The
  properties of parsing are proved about those functions. The methods are
  mutually recursive. They terminate by the measure
  `(|tokens| - current, rank)`, with `expression` > `application` > `atom`.
  `atom` always takes a token before it recurses.
- **Printing and parsing agree** (`layout.dfy`, module `Layout`): the
  lexemes of `pretty_print`'s output form a token sequence. Removing the
  spaces from the printed text leaves exactly the spellings of those tokens,
  provided no variable name contains a space.
  The parser reads those tokens back to the original term and takes all of
  them. So the printer's parentheses (around an abstraction in function
  position, and around an application or abstraction in argument position)
  are the ones the parser needs.
- **Evaluator and reifier** (`interpreter.dfy`, module `Interpreter`):
  call-by-value evaluation with environments. A function value is
  defunctionalised as `Closure(param, body, env)`. Applying it evaluates
  `body` in `env[param := arg]`, which is what the source's host closure
  does. Evaluation can diverge, so `Eval`, `Apply` and `Reify` take fuel.
  One unit is spent per closure call. Running out of fuel (`OutOfFuel`) is
  kept apart from applying a non-function (`ApplyNonFunction`, a panic in
  the source). `Reify` probes a closure with the fixed variable `x`.

src/parser.rs imports `Token` and `Lexer` from `crate::lexer`, but
src/lexer.rs defines neither. So `Grammar.Token` is built from its uses in
the parser: `Identifier(name)`, `Lambda`, `Dot`,
`LeftParen` and `RightParen`, with structural equality.

Behaviour of the code that the model keeps:

- `parse` does not check that every token was taken: the tokens `x )` parse
  to `Var x` (no trailing-input error exists in the code).
- An atom that starts with `)` or `.` fails with `UnexpectedToken` of that
  token. `InvalidExpression` is declared but never produced. This is proved
  as an ensures clause of every parsing function.
- A missing `)` or `.` at the end of the input is reported by `consume` as
  `UnexpectedToken(Identifier("EOF"))`, not as `UnexpectedEndOfInput`. So
  the tokens `( x` fail that way.
- Applying a non-function aborts evaluation; the evaluator is not total.
- After an error the cursor stays where the failing step left it (after the
  offending token, or unmoved by a failed `consume`). Nothing in the source
  reads it, but the model states it.

## Model

| member | source | states |
|---|---|---|
| `Ast.PrettyPrintExamples` | src/ast.rs:95-119 | a variable prints as its name, `\x. x`, `f x`, and `(\x. \y. x) a` with the function-position abstraction parenthesised |
| `Ast.PrettyPrint` | src/ast.rs:11-27 | the printer itself, without a contract of its own: `Layout.PrettyPrintSpellsTokens` and `Layout.ParsePrintedTokens` state what it promises, `Ast.PrettyPrintExamples` its tests |
| `Layout.PrettyPrintSpellsTokens` | src/ast.rs:11-27 | for names without spaces, removing the spaces from `pretty_print(t)` leaves the spellings of the layout tokens: `\`, name, `.` for an abstraction; parentheses exactly around an abstraction in function position and around an application or abstraction in argument position |
| `Layout.ParsePrintedTokens` | src/ast.rs:15-25 | the tokens of a printed term parse back to the term and every token is taken: the printer's parenthesisation is what the parser needs |
| `Layout.ExpressionReadsBack` | src/parser.rs:30-66 | a term's tokens followed by `)` or the end parse, as one expression, to that term, ending right after them |
| `Layout.ApplicationReadsBack` | src/parser.rs:34-41 | the tokens of a function position leave the application loop with that term as the application built so far |
| `Layout.LoopReadsArgument` | src/parser.rs:36-39 | one turn of the loop reads an argument's tokens and applies the accumulated term to it |
| `Layout.AtomReadsBack` | src/parser.rs:43-55 | a variable, or a parenthesised term's tokens, are read as one atom giving that term |
| `Ast.AsciiTree` | src/ast.rs:29-31 | the rendering starts with `└── ` at the root |
| `Ast.AsciiTreeHelper` | src/ast.rs:33-59 | the output starts with the indentation and `└── ` (last child) or `├── ` (otherwise), and ends with a newline |
| `Ast.AsciiTreeLineCount` | src/ast.rs:33-59 | the output has exactly one line per node of the term (for names and indentation without newlines) |
| `Ast.AsciiTreeChildren` | src/ast.rs:47-55 | after the node's line, an abstraction's body is drawn as a last child with indent `"  "`; an application's function as a middle child with indent `"│ "`, then its argument as a last child with indent `"  "` |
| `Ast.Subst` | src/ast.rs:68-89 | substituting a variable that is not free changes nothing; the result's free variables lie within the term's (minus the variable) and the replacement's; no new binder names appear |
| `Ast.SubstVar` | src/ast.rs:70-76 | on a variable the result is the replacement iff the names agree, and the variable unchanged otherwise |
| `Ast.SubstShadowed` | src/ast.rs:77-79 | an abstraction binding the substituted name is returned unchanged, whatever the replacement |
| `Ast.SubstNoRenaming` | src/ast.rs:80-87 | any other binder is kept as it is and the body substituted; an application is substituted component-wise |
| `Ast.SubstExamples` | src/ast.rs:121-134 | the three substitution tests |
| `Ast.SubstSelf` | src/ast.rs:68-89 | substituting a variable for itself is the identity |
| `Ast.SubstFreeVarsExact` | src/ast.rs:68-89 | when no binder of the term is free in the replacement, the result's free variables are exactly the term's minus the variable, plus the replacement's if the variable occurred free |
| `Ast.SubstCaptures` | src/ast.rs:80-82 | without that condition a free variable of the replacement is captured: `y := x` under `\x` yields `\x. x` |
| `Lexer.Subst` | src/lexer.rs:8-28 | the copied substitution, without a contract of its own: `Lexer.SubstAgrees` proves it equal to `Ast.Subst`, whose ensures and lemmas then hold for it |
| `Lexer.SubstAgrees` | src/lexer.rs:8-28 | the private substitution, carried to the AST's term type, equals `Ast.Subst` on every input |
| `Lexer.SubstAgreesOnAst` | src/lexer.rs:8-28 | the same agreement read from the AST's side |
| `Lexer.FromToAst` | src/lexer.rs:1-6 | the private term type maps into the AST's term type and back without loss |
| `Lexer.ToFromAst` | src/lexer.rs:1-6 | the AST's term type maps into the private one and back without loss |
| `Lexer.SubstVar` | src/lexer.rs:10-16 | on a variable the result is the replacement iff the names agree |
| `Lexer.SubstShadowed` | src/lexer.rs:17-19 | a binder named like the substituted variable shadows it |
| `Lexer.SubstNoRenaming` | src/lexer.rs:20-26 | other binders are kept without renaming; applications are substituted component-wise |
| `Lexer.SubstExamples` | src/lexer.rs:34-44 | the three substitution tests of the copy |
| `Grammar.Consume` | src/parser.rs:86-93 | succeeds and moves one token on iff the next token is the expected one; otherwise reports the next token, or `Identifier("EOF")` at the end, without moving |
| `Grammar.Expression` | src/parser.rs:30-32 | the cursor stays within the input; on success at least one token was taken and the cursor stops at a `)` or the end; never `InvalidExpression` |
| `Grammar.Application` | src/parser.rs:34-41 | as `Expression`: success takes a token and stops at a `)` or the end |
| `Grammar.ApplicationLoop` | src/parser.rs:36-39 | the loop ends successfully only at a `)` or the end, never moving the cursor back |
| `Grammar.Atom` | src/parser.rs:43-55 | on a remaining token the cursor always moves forward; on exhausted input it is `UnexpectedEndOfInput` without moving |
| `Grammar.Abstraction` | src/parser.rs:57-66 | end of input after the lambda is `UnexpectedEndOfInput`; a success is an abstraction whose body extends up to a `)` or the end |
| `Grammar.ParseExamples` | src/parser.rs:113-155 | the four parser tests, including `(\x. x y) (\z. z)` to `App(Abs(x, App(x, y)), Abs(z, z))` |
| `Grammar.IdentifiersLoop` | src/parser.rs:36-39 | over identifier tokens, the loop folds them to the left onto the accumulated term and takes them all |
| `Grammar.ApplicationIsLeftAssociative` | src/parser.rs:34-41 | `f x1 ... xn` parses to `(...(f x1) ...) xn`, taking all tokens |
| `Grammar.LeftAssociativeExample` | src/parser.rs:34-41 | the tokens `f x y` parse to `App(App(f, x), y)` |
| `Grammar.AbstractionIsGreedy` | src/parser.rs:57-66 | an abstraction read as an atom ends at a `)` or the end, so it is the last argument of its application; `\x. x y` is `\x. (x y)` |
| `Grammar.TrailingTokensIgnored` | src/parser.rs:26-28 | the loop stops at a `)` without taking it, and `parse` of `x )` is `Ok(Var x)` with one token left |
| `Grammar.AtomUnexpectedToken` | src/parser.rs:52-53 | an atom starting with `.` or `)` fails with that token, after taking it |
| `Grammar.AbstractionParameterErrors` | src/parser.rs:58-62 | after a lambda, the end of input is `UnexpectedEndOfInput` and a non-identifier is `UnexpectedToken` of it |
| `Grammar.UnclosedParenthesis` | src/parser.rs:86-93 | a `(` whose expression runs to the end fails with `UnexpectedToken(Identifier("EOF"))`; so do the tokens `( x` |
| `Grammar.ParseErrors` | src/parser.rs:5-9 | a failed parse is `UnexpectedToken` or `UnexpectedEndOfInput`; the empty input is `UnexpectedEndOfInput` |
| `Parser.Parser.constructor` | src/parser.rs:17-24 | a parser over the given tokens with the cursor at 0 |
| `Parser.Parser.IsAtEnd` | src/parser.rs:99-101 | at the end iff the cursor has reached the number of tokens |
| `Parser.Parser.Peek` | src/parser.rs:78-84 | the token under the cursor, or none at the end |
| `Parser.Parser.Check` | src/parser.rs:95-97 | true iff a next token exists and equals the given one |
| `Parser.Parser.Advance` | src/parser.rs:68-76 | returns the token at the old cursor and moves the cursor by exactly one iff not at the end; otherwise returns none and leaves it |
| `Parser.Parser.Consume` | src/parser.rs:86-93 | result and new cursor are those of `Grammar.Consume` |
| `Parser.Parser.Parse` | src/parser.rs:26-28 | result and new cursor are those of `Grammar.Expression` from the old cursor |
| `Parser.Parser.Expression` | src/parser.rs:30-32 | result and new cursor are those of `Grammar.Expression` |
| `Parser.Parser.Application` | src/parser.rs:34-41 | the `while` loop computes `Grammar.Application`: left-nested applications until a `)` or the end |
| `Parser.Parser.Atom` | src/parser.rs:43-55 | result and new cursor are those of `Grammar.Atom` |
| `Parser.Parser.Abstraction` | src/parser.rs:57-66 | result and new cursor are those of `Grammar.Abstraction` |
| `Grammar.Parse` | src/parser.rs:104-107 | the result of `Grammar.Expression` from the first token, without a contract of its own: `Grammar.ParseErrors`, `Grammar.TrailingTokensIgnored`, `Grammar.ParseExamples` and `Layout.ParsePrintedTokens` state its properties |
| `Parser.ParseTokens` | src/parser.rs:104-107 | a fresh parser run over the tokens returns `Grammar.Parse` of them |
| `Interpreter.Equal` | src/interpreter.rs:12-20 | two variables are equal iff their names are; a closure is equal to nothing; equality implies identity |
| `Interpreter.EqualProperties` | src/interpreter.rs:12-20 | value equality is symmetric and is reflexive exactly on variables (a closure is not equal to itself) |
| `Interpreter.EvalVariable` | src/interpreter.rs:35 | a bound variable evaluates to its environment value, an unbound one to `Var` of its name |
| `Interpreter.ClosureCapturesEnvironment` | src/interpreter.rs:36-43 | an abstraction evaluates to a closure over the current environment; calling it evaluates the body there with the parameter bound to the argument, shadowing an earlier binding and keeping the others |
| `Interpreter.EvalApplication` | src/interpreter.rs:44-51 | the function position is evaluated first, then the argument; an error in either is the application's error; a closure is applied and anything else is the non-function error |
| `Interpreter.ApplyingVariableFails` | src/interpreter.rs:47-50 | applying an unbound variable is the non-function error |
| `Interpreter.EvalExamples` | src/interpreter.rs:72-126 | the evaluation tests: env lookup, `(\x. x) y` is `y`, `((\x. \y. x) a) b` is `a`, and with `z ↦ z_value`, `(\x. z) ignored` is `z_value` |
| `Interpreter.Eval` | src/interpreter.rs:33-53 | a variable or an abstraction evaluates successfully whatever the fuel; `EvalVariable`, `ClosureCapturesEnvironment`, `EvalApplication` and `EvalMonotone` state the rest |
| `Interpreter.Apply` | src/interpreter.rs:38-42 | calling a closure, without a contract of its own: `ClosureCapturesEnvironment` and `ApplyMonotone` state it |
| `Interpreter.Reify` | src/interpreter.rs:55-66 | a successful read-back of a variable is a variable and of a closure an abstraction, and every binder in it is `x` (every closure is probed with `x`), for every value; `ReifyReadsBack` gives the exact result for values of application-free terms |
| `Interpreter.SelfApplicationDiverges` | src/interpreter.rs:33-53 | `(\x. x x) (\x. x x)` runs out of every amount of fuel: evaluation is not total |
| `Interpreter.EvalMonotone` | src/interpreter.rs:33-53 | fuel only bounds evaluation: a result reached with some fuel is reached, unchanged, with more |
| `Interpreter.ApplyMonotone` | src/interpreter.rs:38-42 | the same for calling a closure |
| `Interpreter.ReifyMonotone` | src/interpreter.rs:55-66 | the same for reading a value back |
| `Interpreter.ReadBack` | src/interpreter.rs:55-66 | the read-back of an application-free term keeps its size and names every binder `x` |
| `Interpreter.ReifyReadsBack` | src/interpreter.rs:55-66 | with enough fuel, the value of an application-free term reifies to `ReadBack`: every closure is probed with the same `x`, so a closure returning a closure gives `\x. \x. ...` |
| `Interpreter.ReadBackIdentity` | src/interpreter.rs:55-66 | a term whose binders are all `x` reads back as itself |
| `Interpreter.ReifyEvalRoundTrip` | src/interpreter.rs:136-145 | evaluating and reifying an application-free term whose binders are all `x` gives the term back, e.g. `\x. x` |
| `Interpreter.ReifyExamples` | src/interpreter.rs:128-191 | the reify tests via evaluated terms: `Var x` reifies to itself, `\x. x`, `\x. a`, `\x. \x. x` for `\x. \y. x`, `\x. z_value` for a closure over `z ↦ z_value` |

## Left out

- Lexing: src/lexer.rs holds no lexer, so no tokenizer is modelled. The parser takes its token sequence as input. `Parser::new`'s call to the lexer, and its panic on a lexer error, are not modelled.
- Text round trip: `parse(pretty_print(t)) == t` on strings needs the lexer. Only the token-level round trip and the spaces-removed spelling of the printed text are proved.
- src/main.rs: file reading, the driver loop and a fixed lookup table of four inputs.
- The `Debug` and `Display` implementations; `Display` only delegates to `pretty_print`.
- The host-closure representation itself (`Arc<dyn Fn>`): closures are records of parameter, body and captured environment. The reify tests built from hand-written host closures are reproduced only through the closures that the corresponding terms evaluate to.
- Termination of evaluation and reification: both run under fuel. The stack overflow on divergence is modelled as `OutOfFuel`.
- The panic on applying a non-function is modelled as the error result `ApplyNonFunction`.
