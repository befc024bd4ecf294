/**
 * The environment-passing, call-by-value evaluator and the reifier of
 * src/interpreter.rs.
 *
 * The source represents a function value as a host closure. Here it is the
 * record such a closure captures: the parameter, the body and a copy of the
 * environment; applying it evaluates the body in that copy with the
 * parameter bound to the argument, which is what the host closure does.
 *
 * Evaluation may diverge (self-application), so evaluation and reification
 * take fuel: one unit for every closure call. Running out of fuel is its own
 * error, distinct from applying a value that is not a function.
 */
module Interpreter {
  import opened Wrappers
  import Ast

  datatype Value =
    | Var(name: string)
    | Closure(param: string, body: Ast.Term, env: map<string, Value>)

  type Env = map<string, Value>

  datatype EvalError =
    /** The fuel ran out before evaluation finished (the source would go on, or overflow its stack). */
    | OutOfFuel
    /** The function position of an application evaluated to a variable (the source panics). */
    | ApplyNonFunction

  /** The name of the variable a closure is probed with when it is read back. */
  const Probe: string := "x"

  /**
   * Value equality as the source defines it: two variables are equal when
   * their names are; a closure is equal to nothing, not even to itself.
   */
  function Equal(a: Value, b: Value): (r: bool)
    ensures r ==> a == b
    ensures a.Closure? || b.Closure? ==> !r
    ensures a.Var? && b.Var? ==> (r <==> a == b)
  {
    match (a, b)
    case (Var(x), Var(y)) => x == y
    case _ => false
  }

  /** `Equal` is symmetric, and reflexive exactly on variables. */
  lemma EqualProperties(a: Value, b: Value)
    ensures Equal(a, b) == Equal(b, a)
    ensures Equal(a, a) <==> a.Var?
  {
  }

  /** `eval` */
  function Eval(t: Ast.Term, env: Env, fuel: nat): (r: Result<Value, EvalError>)
    // only an application calls a closure or can fail, whatever the fuel
    ensures !t.App? ==> r.Success?
    decreases fuel, Ast.Size(t)
  {
    match t
    case Var(x) => Success(if x in env then env[x] else Var(x))
    case Abs(x, body) => Success(Closure(x, body, env))
    case App(t1, t2) =>
      var func :- Eval(t1, env, fuel);
      var arg :- Eval(t2, env, fuel);
      if func.Closure? then Apply(func, arg, fuel) else Failure(ApplyNonFunction)
  }

  /** Calling a closure: its body in its own environment, with the parameter bound to the argument. */
  function Apply(func: Value, arg: Value, fuel: nat): Result<Value, EvalError>
    requires func.Closure?
    decreases fuel, 0
  {
    if fuel == 0 then Failure(OutOfFuel)
    else Eval(func.body, func.env[func.param := arg], fuel - 1)
  }

  /** `reify`: a variable reads back as itself; a closure as `\x. <its result on the variable x>`. */
  function Reify(v: Value, fuel: nat): (r: Result<Ast.Term, EvalError>)
    // a variable reads back as a variable, a closure as an abstraction
    ensures r.Success? ==> (v.Var? <==> r.value.Var?)
    // every closure is probed with the same name, so no other binder appears
    ensures r.Success? ==> Ast.BoundVars(r.value) <= {Probe}
    decreases fuel
  {
    match v
    case Var(x) => Success(Ast.Var(x))
    case Closure(_, _, _) =>
      if fuel == 0 then Failure(OutOfFuel)
      else
        var result :- Apply(v, Var(Probe), fuel);
        var body :- Reify(result, fuel - 1);
        Success(Ast.Abs(Probe, body))
  }

  // ---------------------------------------------------------------------
  // Evaluation
  // ---------------------------------------------------------------------

  /** A bound variable evaluates to its value; an unbound one to itself. */
  lemma EvalVariable(x: string, env: Env, fuel: nat)
    ensures x in env ==> Eval(Ast.Var(x), env, fuel) == Success(env[x])
    ensures x !in env ==> Eval(Ast.Var(x), env, fuel) == Success(Var(x))
  {
  }

  /**
   * An abstraction captures the current environment; calling the closure
   * evaluates the body in that environment with the parameter bound to the
   * argument, shadowing an earlier binding of the same name and leaving the
   * other bindings as they were.
   */
  lemma ClosureCapturesEnvironment(x: string, body: Ast.Term, env: Env, arg: Value, fuel: nat)
    ensures Eval(Ast.Abs(x, body), env, fuel) == Success(Closure(x, body, env))
    ensures Apply(Closure(x, body, env), arg, fuel + 1) == Eval(body, env[x := arg], fuel)
    ensures env[x := arg][x] == arg
    ensures forall y :: y in env && y != x ==> y in env[x := arg] && env[x := arg][y] == env[y]
  {
  }

  /**
   * An application evaluates its function position first, then its
   * argument, and fails when the function is not a closure; an error in
   * either position is the error of the whole application.
   */
  lemma EvalApplication(t1: Ast.Term, t2: Ast.Term, env: Env, fuel: nat)
    ensures Eval(t1, env, fuel).Failure? ==>
      Eval(Ast.App(t1, t2), env, fuel) == Failure(Eval(t1, env, fuel).error)
    ensures Eval(t1, env, fuel).Success? && Eval(t2, env, fuel).Failure? ==>
      Eval(Ast.App(t1, t2), env, fuel) == Failure(Eval(t2, env, fuel).error)
    ensures Eval(t1, env, fuel).Success? && Eval(t2, env, fuel).Success? ==>
      Eval(Ast.App(t1, t2), env, fuel)
      == if Eval(t1, env, fuel).value.Closure?
         then Apply(Eval(t1, env, fuel).value, Eval(t2, env, fuel).value, fuel)
         else Failure(ApplyNonFunction)
  {
  }

  /** Applying a free variable is the non-function error, whatever the argument. */
  lemma ApplyingVariableFails(f: string, t2: Ast.Term, env: Env, fuel: nat)
    requires f !in env && Eval(t2, env, fuel).Success?
    ensures Eval(Ast.App(Ast.Var(f), t2), env, fuel) == Failure(ApplyNonFunction)
  {
  }

  /** The tests of src/interpreter.rs, with enough fuel for the closure calls they make. */
  lemma EvalExamples(fuel: nat)
    ensures Equal(Eval(Ast.Var("x"), map["x" := Var("x_value")], fuel).value, Var("x_value"))
    ensures fuel >= 1 ==>
      Eval(Ast.App(Ast.Abs("x", Ast.Var("x")), Ast.Var("y")), map[], fuel) == Success(Var("y"))
    ensures fuel >= 2 ==>
      Eval(Ast.App(Ast.App(Ast.Abs("x", Ast.Abs("y", Ast.Var("x"))), Ast.Var("a")), Ast.Var("b")), map[], fuel)
      == Success(Var("a"))
    ensures fuel >= 1 ==>
      Eval(Ast.App(Ast.Abs("x", Ast.Var("z")), Ast.Var("ignored")), map["z" := Var("z_value")], fuel)
      == Success(Var("z_value"))
  {
    if fuel >= 1 {
      var id := Closure("x", Ast.Var("x"), map[]);
      assert Eval(Ast.Abs("x", Ast.Var("x")), map[], fuel) == Success(id);
      assert Eval(Ast.Var("y"), map[], fuel) == Success(Var("y"));
      assert Apply(id, Var("y"), fuel) == Eval(Ast.Var("x"), map["x" := Var("y")], fuel - 1);

      var env := map["z" := Var("z_value")];
      var c := Closure("x", Ast.Var("z"), env);
      assert Eval(Ast.Abs("x", Ast.Var("z")), env, fuel) == Success(c);
      assert Eval(Ast.Var("ignored"), env, fuel) == Success(Var("ignored"));
      assert Apply(c, Var("ignored"), fuel) == Eval(Ast.Var("z"), env["x" := Var("ignored")], fuel - 1);
    }
    if fuel >= 2 {
      var k := Closure("x", Ast.Abs("y", Ast.Var("x")), map[]);
      var ka := Closure("y", Ast.Var("x"), map["x" := Var("a")]);
      assert Eval(Ast.Abs("x", Ast.Abs("y", Ast.Var("x"))), map[], fuel) == Success(k);
      assert Eval(Ast.Var("a"), map[], fuel) == Success(Var("a"));
      assert Apply(k, Var("a"), fuel) == Eval(Ast.Abs("y", Ast.Var("x")), map["x" := Var("a")], fuel - 1);
      assert Eval(Ast.App(Ast.Abs("x", Ast.Abs("y", Ast.Var("x"))), Ast.Var("a")), map[], fuel) == Success(ka);
      assert Eval(Ast.Var("b"), map[], fuel) == Success(Var("b"));
      assert Apply(ka, Var("b"), fuel) == Eval(Ast.Var("x"), map["x" := Var("a")]["y" := Var("b")], fuel - 1);
    }
  }

  /** The self-application `(\x. x x) (\x. x x)` runs out of every amount of fuel. */
  lemma {:induction false} SelfApplicationDiverges(fuel: nat)
    ensures Eval(Omega(), map[], fuel) == Failure(OutOfFuel)
  {
    var c := Closure("x", Ast.App(Ast.Var("x"), Ast.Var("x")), map[]);
    OmegaStep(c, fuel);
  }

  function Omega(): Ast.Term {
    var d := Ast.Abs("x", Ast.App(Ast.Var("x"), Ast.Var("x")));
    Ast.App(d, d)
  }

  lemma {:induction false} OmegaStep(c: Value, fuel: nat)
    requires c == Closure("x", Ast.App(Ast.Var("x"), Ast.Var("x")), map[])
    ensures Apply(c, c, fuel) == Failure(OutOfFuel)
  {
    if fuel > 0 {
      OmegaStep(c, fuel - 1);
      assert Eval(c.body, map["x" := c], fuel - 1) == Apply(c, c, fuel - 1);
    }
  }

  /** Fuel only bounds the evaluation: a result reached with some fuel is reached with more. */
  lemma {:induction false} EvalMonotone(t: Ast.Term, env: Env, fuel: nat, more: nat)
    requires fuel <= more && Eval(t, env, fuel) != Failure(OutOfFuel)
    ensures Eval(t, env, more) == Eval(t, env, fuel)
    decreases fuel, Ast.Size(t)
  {
    match t
    case Var(_) =>
    case Abs(_, _) =>
    case App(t1, t2) =>
      var r1 := Eval(t1, env, fuel);
      EvalMonotone(t1, env, fuel, more);
      if r1.Success? {
        var r2 := Eval(t2, env, fuel);
        EvalMonotone(t2, env, fuel, more);
        if r2.Success? && r1.value.Closure? {
          ApplyMonotone(r1.value, r2.value, fuel, more);
        }
      }
  }

  lemma {:induction false} ApplyMonotone(func: Value, arg: Value, fuel: nat, more: nat)
    requires func.Closure? && fuel <= more && Apply(func, arg, fuel) != Failure(OutOfFuel)
    ensures Apply(func, arg, more) == Apply(func, arg, fuel)
    decreases fuel, 0
  {
    EvalMonotone(func.body, func.env[func.param := arg], fuel - 1, more - 1);
  }

  // ---------------------------------------------------------------------
  // Reification
  // ---------------------------------------------------------------------

  /** Reading back a result reached with some fuel gives the same term with more. */
  lemma {:induction false} ReifyMonotone(v: Value, fuel: nat, more: nat)
    requires fuel <= more && Reify(v, fuel) != Failure(OutOfFuel)
    ensures Reify(v, more) == Reify(v, fuel)
    decreases fuel
  {
    if v.Closure? {
      ApplyMonotone(v, Var(Probe), fuel, more);
      var result := Apply(v, Var(Probe), fuel);
      if result.Success? {
        ReifyMonotone(result.value, fuel - 1, more - 1);
      }
    }
  }

  /** A term without applications: evaluating it calls no closure. */
  predicate AppFree(t: Ast.Term) {
    match t
    case Var(_) => true
    case Abs(_, b) => AppFree(b)
    case App(_, _) => false
  }

  /** An environment that binds names to variables only. */
  ghost predicate VarEnv(env: Env) {
    forall y :: y in env ==> env[y].Var?
  }

  /** Nesting depth of abstractions. */
  function Depth(t: Ast.Term): nat {
    match t
    case Var(_) => 0
    case Abs(_, b) => 1 + Depth(b)
    case App(f, a) => if Depth(f) < Depth(a) then Depth(a) else Depth(f)
  }

  /**
   * What reading back the value of an application-free term yields: the same
   * shape, every binder renamed to the probe name and every variable
   * replaced by the name it is bound to in the environment.
   */
  function ReadBack(t: Ast.Term, env: Env): (r: Ast.Term)
    requires AppFree(t) && VarEnv(env)
    ensures Ast.Size(r) == Ast.Size(t)
    ensures Ast.BoundVars(r) <= {Probe}
  {
    match t
    case Var(y) => if y in env then Ast.Var(env[y].name) else Ast.Var(y)
    case Abs(p, b) => Ast.Abs(Probe, ReadBack(b, env[p := Var(Probe)]))
  }

  /**
   * Reification probes every closure with the same variable `x`: the value
   * of an application-free term reads back as `ReadBack` says.
   */
  lemma {:induction false} ReifyReadsBack(t: Ast.Term, env: Env, evalFuel: nat, fuel: nat)
    requires AppFree(t) && VarEnv(env) && fuel >= Depth(t)
    ensures Eval(t, env, evalFuel).Success?
    ensures Reify(Eval(t, env, evalFuel).value, fuel) == Success(ReadBack(t, env))
  {
    match t
    case Var(_) =>
    case Abs(p, b) =>
      var inner := env[p := Var(Probe)];
      assert VarEnv(inner);
      ReifyReadsBack(b, inner, fuel - 1, fuel - 1);
  }

  /** An environment that binds every name it holds to the variable of that name. */
  ghost predicate IdentityEnv(env: Env) {
    forall y :: y in env ==> env[y] == Var(y)
  }

  /** A term whose binders are all named `x` reads back as itself. */
  lemma {:induction false} ReadBackIdentity(t: Ast.Term, env: Env)
    requires AppFree(t) && IdentityEnv(env) && Ast.BoundVars(t) <= {Probe}
    ensures VarEnv(env) && ReadBack(t, env) == t
  {
    match t
    case Var(_) =>
    case Abs(p, b) =>
      var inner := env[p := Var(Probe)];
      assert IdentityEnv(inner);
      ReadBackIdentity(b, inner);
  }

  /** Evaluating and reading back an application-free term whose binders are all `x` gives the term back. */
  lemma ReifyEvalRoundTrip(t: Ast.Term, fuel: nat)
    requires AppFree(t) && Ast.BoundVars(t) <= {Probe} && fuel >= Depth(t)
    ensures Eval(t, map[], 0).Success? && Reify(Eval(t, map[], 0).value, fuel) == Success(t)
  {
    ReadBackIdentity(t, map[]);
    ReifyReadsBack(t, map[], 0, fuel);
  }

  /**
   * The reification tests of src/interpreter.rs, on the closures that the
   * corresponding terms evaluate to: a closure returning a closure reads
   * back with both binders named `x`.
   */
  lemma ReifyExamples()
    ensures Reify(Var("x"), 0) == Success(Ast.Var("x"))
    ensures Reify(Eval(Ast.Abs("x", Ast.Var("x")), map[], 0).value, 1)
         == Success(Ast.Abs("x", Ast.Var("x")))
    ensures Reify(Eval(Ast.Abs("y", Ast.Var("a")), map[], 0).value, 1)
         == Success(Ast.Abs("x", Ast.Var("a")))
    ensures Reify(Eval(Ast.Abs("x", Ast.Abs("y", Ast.Var("x"))), map[], 0).value, 2)
         == Success(Ast.Abs("x", Ast.Abs("x", Ast.Var("x"))))
    ensures Reify(Eval(Ast.Abs("y", Ast.Var("z")), map["z" := Var("z_value")], 0).value, 1)
         == Success(Ast.Abs("x", Ast.Var("z_value")))
  {
    ReifyReadsBack(Ast.Abs("x", Ast.Var("x")), map[], 0, 1);
    ReifyReadsBack(Ast.Abs("y", Ast.Var("a")), map[], 0, 1);
    ReifyReadsBack(Ast.Abs("x", Ast.Abs("y", Ast.Var("x"))), map[], 0, 2);
    assert VarEnv(map["z" := Var("z_value")]);
    ReifyReadsBack(Ast.Abs("y", Ast.Var("z")), map["z" := Var("z_value")], 0, 1);
  }
}
