/** The type checker of src/language/type-checker.ts: `tc` computes the type of an S-expression
    in a type environment, or fails with the error it throws. Macro forms are expanded and the
    expansion checked again, which is not structurally smaller, so every call of `Tc` spends one
    unit of fuel; running out is `OutOfFuel`, which the source does not have. */
module TypeChecker {
  import opened Common
  import opened Ast
  import Macros

  /** A `TypeEnv`: variable names to types. */
  type TypeEnv = map<string, Type>

  const Number := Prim("number")
  const Boolean := Prim("boolean")
  const Text := Prim("string")
  const Function := Prim("function")

  predicate IsMathOp(f: string) { f in {"+", "-", "*", "/"} }
  predicate IsCompOp(f: string) { f in {"=", "<", ">", "<=", ">="} }
  predicate IsPred(f: string)
  {
    f in {"boolean?", "string?", "number?", "function?", "true?", "false?", "empty?"}
  }

  /** The names that type as `function` without a binding. */
  predicate IsBuiltin(f: string) { IsMathOp(f) || IsCompOp(f) || IsPred(f) }

  /** JavaScript `typeof t === "object"`: a function type or a union (an array); a primitive
      type is a string. */
  predicate IsObjectType(t: Type) { !t.Prim? }

  /** A JavaScript type environment answers a lookup with a falsy value when the name is
      unbound or bound to the primitive type with the empty name. */
  predicate Bound(env: TypeEnv, x: string) { x in env && env[x] != Prim("") }

  /** A name: a built-in operator or predicate types as `function`, any other name as its
      binding. */
  function TcName(x: string, env: TypeEnv): Result<Type>
  {
    if IsBuiltin(x) then Ok(Function)
    else if !Bound(env, x) then Err("unknown variable")
    else Ok(env[x])
  }

  /** `tc(se, env)`. */
  function Tc(se: SExpr, env: TypeEnv, fuel: nat): Result<Type>
    decreases fuel, 0
  {
    if fuel == 0 then OutOfFuel
    else
      match se
      case Num(_) => Ok(Number)
      case Bool(_) => Ok(Boolean)
      case StrLit(_) => Ok(Text)
      case TypedVar(_, _) => Ok(Function)
      case Ident(x) => TcName(x, env)
      case List(sl) => TcList(sl, env, fuel - 1)
  }

  /** `tc` on an array `[f, ...args]`: the special forms, then macros, then application of a
      name's function type, then application of the head's type. */
  function TcList(sl: seq<SExpr>, env: TypeEnv, fuel: nat): Result<Type>
    decreases fuel, 2
  {
    var args := if sl == [] then [] else sl[1..];
    if sl != [] && sl[0].Ident? then
      var f := sl[0].name;
      if IsMathOp(f) then
        var ok :- Conforms(Numbers(|args|), args, env, fuel);
        if ok then Ok(Number) else Err("math operators require number for all arguments")
      else if IsCompOp(f) then
        var ok :- Conforms(Numbers(|args|), args, env, fuel);
        if ok then Ok(Boolean) else Err("comparison operators require number for all arguments")
      else if IsPred(f) then
        if |args| != 1 then Err("predicate requires one argument") else Ok(Boolean)
      else if f == "local" then
        if |args| != 2 then Err("local requires two arguments")
        else if !args[0].List? then
          Err("defines section of local statement must be list of defiine statemens")
        else
          var newVars :- Defines(args[0].elems, env, fuel);
          Tc(args[1], newVars, fuel)
      else if f == "if" then
        if |args| != 3 then Err("if requires 3 arguments")
        else
          // Both branch types are computed from the `then` branch, so they always agree.
          var tType :- Tc(args[1], env, fuel);
          var eType := Tc(args[1], env, fuel);
          if eType != Ok(tType) then Err("both if and then branches of if statement must be same type")
          else Ok(tType)
      else if f == "lambda" then
        if |args| != 2 then Err("arity error in function definition")
        else if !args[0].List? || !AllTypedVars(args[0].elems) then
          Err("args for lambda must be s-expr of typed variables")
        else
          var bodyType :- Tc(args[1], env + ParamEnv(args[0].elems), fuel);
          Ok(Fn(ParamTypes(args[0].elems), bodyType))
      else if Macros.IsMacro(f) then
        var expanded :- Macros.ExpandMacro(f, sl);
        Tc(expanded, env, fuel)
      else if !(f in env && IsObjectType(env[f])) then Err("undefinied function " + f)
      else ApplyFunction(env[f], args, f, env, fuel)
    else
      // A headless list looks up `undefined`, as a head that is not a name is checked itself.
      var fv :- Tc(At(sl, 0), env, fuel);
      if !IsObjectType(fv) then Err("function required")
      else ApplyFunction(fv, args, "", env, fuel)
  }

  /** `applyFunction(ft, args, fName)`: exact arity, each argument of exactly its parameter's
      type, and the declared return type. A union has no `args` to read. */
  function ApplyFunction(ft: Type, args: seq<SExpr>, fName: string, env: TypeEnv, fuel: nat): Result<Type>
    requires IsObjectType(ft)
    decreases fuel, 1, |args| + 1
  {
    match ft
    case Union(_) => Err("Cannot read properties of undefined (reading 'length')")
    case Fn(params, ret) =>
      if |params| != |args| then Err("incorrect number of arguments for function " + fName)
      else
        var ok :- Conforms(params, args, env, fuel);
        if ok then Ok(ret) else Err("invalid arguments givin to function " + fName)
  }

  /** `n` copies of `number`. */
  function Numbers(n: nat): (r: seq<Type>)
    ensures |r| == n && forall i :: 0 <= i < n ==> r[i] == Number
  {
    if n == 0 then [] else Numbers(n - 1) + [Number]
  }

  /** `every` over the arguments, left to right: whether each argument has exactly the expected
      type; it stops at the first that does not, and an error checking an argument escapes. */
  function Conforms(expected: seq<Type>, args: seq<SExpr>, env: TypeEnv, fuel: nat): Result<bool>
    requires |expected| == |args|
    decreases fuel, 1, |args|
  {
    if args == [] then Ok(true)
    else
      var t :- Tc(args[0], env, fuel);
      if t != expected[0] then Ok(false) else Conforms(expected[1..], args[1..], env, fuel)
  }

  /** The `reduce` of `local` over its defines: each define is checked in the environment the
      earlier ones built. */
  function Defines(defs: seq<SExpr>, env: TypeEnv, fuel: nat): Result<TypeEnv>
    decreases fuel, 1, |defs|
  {
    if defs == [] then Ok(env)
    else
      var env' :- HandleDefine(defs[0], env, fuel);
      Defines(defs[1..], env', fuel)
  }

  /** `handleDefine(s, env)`: `(define name value)` or `(define [name : type] value)` binds the
      name to the value's inferred type; a declared type must equal it. */
  function HandleDefine(s: SExpr, env: TypeEnv, fuel: nat): Result<TypeEnv>
    decreases fuel, 1, 0
  {
    if !s.List? || |s.elems| == 0 || s.elems[0] != Ident("define") then Err("expected define statement")
    else if |s.elems| < 3 then Err("value for variable definition required")
    else
      var v :- Tc(s.elems[2], env, fuel);
      var varName := s.elems[1];
      if !(varName.Ident? || varName.TypedVar?) then
        Err("variable name for define statement must be a string or [varName : type]")
      else if varName.TypedVar? && varName.ty != v then Err("improper type assignment")
      else Ok(env[varName.name := v])
  }

  predicate AllTypedVars(ps: seq<SExpr>)
  {
    forall i :: 0 <= i < |ps| ==> ps[i].TypedVar?
  }

  /** The declared parameter types, in order. */
  function ParamTypes(ps: seq<SExpr>): (r: seq<Type>)
    requires AllTypedVars(ps)
    ensures |r| == |ps| && forall i :: 0 <= i < |ps| ==> r[i] == ps[i].ty
  {
    if ps == [] then [] else [ps[0].ty] + ParamTypes(ps[1..])
  }

  /** The `reduce` over the parameters: each parameter name bound to its declared type, a later
      parameter overriding an earlier one of the same name. */
  function ParamEnv(ps: seq<SExpr>): TypeEnv
    requires AllTypedVars(ps)
  {
    if ps == [] then map[] else ParamEnv(ps[..|ps| - 1])[ps[|ps| - 1].name := ps[|ps| - 1].ty]
  }
}

/** What the type checker promises, stated over `TypeChecker.Tc`. */
module TypeCheckerFacts {
  import opened Common
  import opened Ast
  import Macros
  import opened TypeChecker

  // ---------------------------------------------------------------------------------------
  // The argument check `every`.

  /** The first `j` arguments have exactly their expected types. */
  predicate Matches(expected: seq<Type>, args: seq<SExpr>, env: TypeEnv, fuel: nat, j: nat)
    requires |expected| == |args| && j <= |args|
  {
    forall i :: 0 <= i < j ==> Tc(args[i], env, fuel) == Ok(expected[i])
  }

  /** Argument `j` is the first whose check fails or yields another type. */
  predicate FirstMismatch(expected: seq<Type>, args: seq<SExpr>, env: TypeEnv, fuel: nat, j: nat)
    requires |expected| == |args|
  {
    j < |args| && Matches(expected, args, env, fuel, j) && Tc(args[j], env, fuel) != Ok(expected[j])
  }

  /** `Conforms` accepts exactly when every argument has its expected type; otherwise the first
      argument that does not decides: a wrong type gives `false`, a failure escapes. */
  lemma {:induction false} ConformsMeaning(expected: seq<Type>, args: seq<SExpr>, env: TypeEnv, fuel: nat)
    requires |expected| == |args|
    ensures Conforms(expected, args, env, fuel) == Ok(true) <==> Matches(expected, args, env, fuel, |args|)
    ensures forall j: nat :: FirstMismatch(expected, args, env, fuel, j) ==>
      Conforms(expected, args, env, fuel) ==
        if Tc(args[j], env, fuel).Ok? then Ok(false) else Tc(args[j], env, fuel).PropagateFailure()
    decreases |args|
  {
    if args != [] {
      var t0 := Tc(args[0], env, fuel);
      if t0 != Ok(expected[0]) {
        assert !Matches(expected, args, env, fuel, |args|);
        assert forall j: nat :: FirstMismatch(expected, args, env, fuel, j) ==> j == 0 by {
          assert forall j: nat :: 0 < j <= |args| && Matches(expected, args, env, fuel, j)
                   ==> Tc(args[0], env, fuel) == Ok(expected[0]);
        }
      } else {
        var e', a' := expected[1..], args[1..];
        ConformsMeaning(e', a', env, fuel);
        assert Conforms(expected, args, env, fuel) == Conforms(e', a', env, fuel);
        forall k | 0 <= k <= |a'|
          ensures Matches(expected, args, env, fuel, k + 1) <==> Matches(e', a', env, fuel, k)
        {
          if Matches(e', a', env, fuel, k) {
            forall i | 0 <= i < k + 1 ensures Tc(args[i], env, fuel) == Ok(expected[i]) {
              if i > 0 {
                assert args[i] == a'[i - 1] && expected[i] == e'[i - 1];
              }
            }
          }
          if Matches(expected, args, env, fuel, k + 1) {
            forall i | 0 <= i < k ensures Tc(a'[i], env, fuel) == Ok(e'[i]) {
              assert args[i + 1] == a'[i] && expected[i + 1] == e'[i];
            }
          }
        }
        assert Matches(expected, args, env, fuel, |args|) <==> Matches(e', a', env, fuel, |a'|) by {
          assert |args| == |a'| + 1;
        }
        forall j: nat | FirstMismatch(expected, args, env, fuel, j)
          ensures FirstMismatch(e', a', env, fuel, j - 1) && args[j] == a'[j - 1]
        {
          assert j != 0;
          assert args[j] == a'[j - 1] && expected[j] == e'[j - 1];
        }
      }
    }
  }

  /** When not every argument has its expected type, one is the first that does not. */
  lemma FirstMismatchExists(expected: seq<Type>, args: seq<SExpr>, env: TypeEnv, fuel: nat)
    requires |expected| == |args| && !Matches(expected, args, env, fuel, |args|)
    ensures exists j: nat :: FirstMismatch(expected, args, env, fuel, j)
  {
    var j := 0;
    while Tc(args[j], env, fuel) == Ok(expected[j])
      invariant j < |args| && Matches(expected, args, env, fuel, j)
      decreases |args| - j
    {
      j := j + 1;
    }
    assert FirstMismatch(expected, args, env, fuel, j);
  }

  // ---------------------------------------------------------------------------------------
  // Atoms.

  /** Numbers, booleans and string literals have their primitive types; an object that is not a
      string literal, such as a typed variable, types as `function`. */
  lemma AtomTypes(n: int, b: bool, s: string, x: string, t: Type, env: TypeEnv, fuel: nat)
    requires fuel > 0
    ensures Tc(Num(n), env, fuel) == Ok(Number) && Tc(Bool(b), env, fuel) == Ok(Boolean)
    ensures Tc(StrLit(s), env, fuel) == Ok(Text) && Tc(TypedVar(x, t), env, fuel) == Ok(Function)
  {
  }

  /** A name types as `function` when it is an operator or a predicate, else as its binding;
      an unbound name is "unknown variable". */
  lemma NameTypes(x: string, env: TypeEnv, fuel: nat)
    requires fuel > 0
    ensures IsBuiltin(x) ==> Tc(Ident(x), env, fuel) == Ok(Function)
    ensures !IsBuiltin(x) && Bound(env, x) ==> Tc(Ident(x), env, fuel) == Ok(env[x])
    ensures !IsBuiltin(x) && !Bound(env, x) ==> Tc(Ident(x), env, fuel) == Err("unknown variable")
  {
  }

  // ---------------------------------------------------------------------------------------
  // Operators and predicates.

  /** The operator and predicate names are distinct from each other, from the special forms
      and from the macro names. */
  lemma NameClasses(f: string)
    ensures IsMathOp(f) ==> !IsCompOp(f) && !IsPred(f)
    ensures IsCompOp(f) ==> !IsPred(f)
    ensures IsBuiltin(f) ==> f != "local" && f != "if" && f != "lambda" && !Macros.IsMacro(f)
  {
  }

  /** A call `(f args...)` with a name as head is checked by `TcList` with one unit less fuel. */
  lemma CallStep(f: string, args: seq<SExpr>, env: TypeEnv, fuel: nat)
    requires fuel > 0
    ensures var sl := [Ident(f)] + args;
      Tc(Macros.Call(f, args), env, fuel) == TcList(sl, env, fuel - 1) && sl != [] && sl[0] == Ident(f) && sl[1..] == args
  {
    var sl := [Ident(f)] + args;
    assert sl[1..] == args;
  }

  /** The outcome an operator's checked arguments give it: `t` when they all conform. */
  function OperatorOutcome(c: Result<bool>, t: Type, msg: string): Result<Type>
  {
    if !c.Ok? then c.PropagateFailure() else if c.value then Ok(t) else Err(msg)
  }

  lemma OperatorStep(sl: seq<SExpr>, env: TypeEnv, fuel: nat)
    requires sl != [] && sl[0].Ident? && (IsMathOp(sl[0].name) || IsCompOp(sl[0].name))
    ensures var c := Conforms(Numbers(|sl| - 1), sl[1..], env, fuel);
      TcList(sl, env, fuel) ==
        if IsMathOp(sl[0].name) then OperatorOutcome(c, Number, "math operators require number for all arguments")
        else OperatorOutcome(c, Boolean, "comparison operators require number for all arguments")
  {
    NameClasses(sl[0].name);
  }

  /** What an operator's outcome says about its arguments. */
  lemma OutcomeMeaning(args: seq<SExpr>, env: TypeEnv, fuel: nat, t: Type, msg: string)
    ensures var r := OperatorOutcome(Conforms(Numbers(|args|), args, env, fuel), t, msg);
      && (r.Ok? ==> r.value == t)
      && (r.Ok? <==> forall i :: 0 <= i < |args| ==> Tc(args[i], env, fuel) == Ok(Number))
      && forall j: nat :: FirstMismatch(Numbers(|args|), args, env, fuel, j) ==>
           r == if Tc(args[j], env, fuel).Ok? then Err(msg) else Tc(args[j], env, fuel).PropagateFailure()
  {
    ConformsMeaning(Numbers(|args|), args, env, fuel);
  }

  /** A math operator types as `number` exactly when every argument does; the first argument of
      another type makes it the operator error, and an error in an argument escapes. */
  lemma MathOperatorTyping(op: string, args: seq<SExpr>, env: TypeEnv, fuel: nat)
    requires IsMathOp(op) && fuel > 0
    ensures var r := Tc(Macros.Call(op, args), env, fuel);
      && (r.Ok? ==> r.value == Number)
      && (r.Ok? <==> forall i :: 0 <= i < |args| ==> Tc(args[i], env, fuel - 1) == Ok(Number))
      && forall j: nat :: FirstMismatch(Numbers(|args|), args, env, fuel - 1, j) ==>
           r == if Tc(args[j], env, fuel - 1).Ok? then Err("math operators require number for all arguments")
                else Tc(args[j], env, fuel - 1).PropagateFailure()
  {
    var msg := "math operators require number for all arguments";
    CallStep(op, args, env, fuel);
    OperatorStep([Ident(op)] + args, env, fuel - 1);
    assert Tc(Macros.Call(op, args), env, fuel)
      == OperatorOutcome(Conforms(Numbers(|args|), args, env, fuel - 1), Number, msg);
    OutcomeMeaning(args, env, fuel - 1, Number, msg);
  }

  /** A comparison operator types as `boolean` exactly when every argument types as `number`. */
  lemma ComparisonTyping(op: string, args: seq<SExpr>, env: TypeEnv, fuel: nat)
    requires IsCompOp(op) && fuel > 0
    ensures var r := Tc(Macros.Call(op, args), env, fuel);
      && (r.Ok? ==> r.value == Boolean)
      && (r.Ok? <==> forall i :: 0 <= i < |args| ==> Tc(args[i], env, fuel - 1) == Ok(Number))
      && forall j: nat :: FirstMismatch(Numbers(|args|), args, env, fuel - 1, j) ==>
           r == if Tc(args[j], env, fuel - 1).Ok? then Err("comparison operators require number for all arguments")
                else Tc(args[j], env, fuel - 1).PropagateFailure()
  {
    var msg := "comparison operators require number for all arguments";
    CallStep(op, args, env, fuel);
    NameClasses(op);
    OperatorStep([Ident(op)] + args, env, fuel - 1);
    assert Tc(Macros.Call(op, args), env, fuel)
      == OperatorOutcome(Conforms(Numbers(|args|), args, env, fuel - 1), Boolean, msg);
    OutcomeMeaning(args, env, fuel - 1, Boolean, msg);
  }

  /** A predicate needs exactly one argument, which is never checked, and types as `boolean`. */
  lemma PredicateTyping(p: string, args: seq<SExpr>, env: TypeEnv, fuel: nat)
    requires IsPred(p) && fuel > 0
    ensures Tc(Macros.Call(p, args), env, fuel)
            == if |args| == 1 then Ok(Boolean) else Err("predicate requires one argument")
  {
    CallStep(p, args, env, fuel);
    NameClasses(p);
  }

  // ---------------------------------------------------------------------------------------
  // Special forms.

  /** A name that is not an operator, a predicate, a special form or a macro: a call to it
      applies its binding. */
  predicate IsPlainName(f: string)
  {
    !IsBuiltin(f) && f != "local" && f != "if" && f != "lambda" && !Macros.IsMacro(f)
  }

  lemma IfStep(sl: seq<SExpr>, env: TypeEnv, fuel: nat)
    requires sl != [] && sl[0] == Ident("if")
    ensures TcList(sl, env, fuel) == if |sl| != 4 then Err("if requires 3 arguments") else Tc(sl[2], env, fuel)
  {
    NameClasses("if");
  }

  /** `if` types as its `then` branch: the condition and the `else` branch are never checked,
      because the source checks the `then` branch twice. */
  lemma IfTypesAsThenBranch(c: SExpr, t: SExpr, e: SExpr, env: TypeEnv, fuel: nat)
    requires fuel > 0
    ensures Tc(Macros.Call("if", [c, t, e]), env, fuel) == Tc(t, env, fuel - 1)
  {
    CallStep("if", [c, t, e], env, fuel);
    IfStep([Ident("if")] + [c, t, e], env, fuel - 1);
  }

  /** `if` with other than three arguments is an arity error. */
  lemma IfArity(args: seq<SExpr>, env: TypeEnv, fuel: nat)
    requires fuel > 0 && |args| != 3
    ensures Tc(Macros.Call("if", args), env, fuel) == Err("if requires 3 arguments")
  {
    CallStep("if", args, env, fuel);
    IfStep([Ident("if")] + args, env, fuel - 1);
  }

  lemma LambdaStep(sl: seq<SExpr>, env: TypeEnv, fuel: nat)
    requires sl != [] && sl[0] == Ident("lambda")
    ensures TcList(sl, env, fuel) ==
      if |sl| != 3 then Err("arity error in function definition")
      else if !sl[1].List? || !AllTypedVars(sl[1].elems) then Err("args for lambda must be s-expr of typed variables")
      else match Tc(sl[2], env + ParamEnv(sl[1].elems), fuel)
        case Ok(b) => Ok(Fn(ParamTypes(sl[1].elems), b))
        case Err(m) => Err(m)
        case OutOfFuel => OutOfFuel
  {
    NameClasses("lambda");
  }

  /** A lambda with typed parameters types as the function type from the declared parameter
      types to the body's type, the body checked with the parameters bound over `env`. */
  lemma LambdaTyping(params: seq<SExpr>, body: SExpr, env: TypeEnv, fuel: nat)
    requires fuel > 0 && AllTypedVars(params)
    ensures var r := Tc(Macros.Call("lambda", [List(params), body]), env, fuel);
      var b := Tc(body, env + ParamEnv(params), fuel - 1);
      && (r.Ok? <==> b.Ok?)
      && (r.Ok? ==> r.value.Fn? && r.value.returnType == b.value && |r.value.args| == |params|
                    && forall i :: 0 <= i < |params| ==> r.value.args[i] == params[i].ty)
      && (b.Err? ==> r == Err(b.msg))
  {
    CallStep("lambda", [List(params), body], env, fuel);
    LambdaStep([Ident("lambda")] + [List(params), body], env, fuel - 1);
  }

  /** A lambda parameter that is not a typed variable is rejected. */
  lemma LambdaNeedsTypedVars(params: seq<SExpr>, body: SExpr, env: TypeEnv, fuel: nat)
    requires fuel > 0 && !AllTypedVars(params)
    ensures Tc(Macros.Call("lambda", [List(params), body]), env, fuel)
            == Err("args for lambda must be s-expr of typed variables")
  {
    CallStep("lambda", [List(params), body], env, fuel);
    LambdaStep([Ident("lambda")] + [List(params), body], env, fuel - 1);
  }

  /** The parameters' environment binds exactly the parameter names, each to the type of its
      last occurrence. */
  lemma {:induction false} ParamEnvLookup(ps: seq<SExpr>, i: nat)
    requires AllTypedVars(ps) && i < |ps|
    requires forall j :: i < j < |ps| ==> ps[j].name != ps[i].name
    ensures ps[i].name in ParamEnv(ps) && ParamEnv(ps)[ps[i].name] == ps[i].ty
    decreases |ps|
  {
    var init := ps[..|ps| - 1];
    assert AllTypedVars(init) by {
      forall k | 0 <= k < |init| ensures init[k].TypedVar? {
        assert init[k] == ps[k];
      }
    }
    if i < |ps| - 1 {
      assert init[i] == ps[i];
      forall j | i < j < |init| ensures init[j].name != init[i].name {
        assert init[j] == ps[j];
      }
      ParamEnvLookup(init, i);
    }
  }

  lemma {:induction false} ParamEnvDomain(ps: seq<SExpr>, x: string)
    requires AllTypedVars(ps)
    ensures x in ParamEnv(ps) <==> exists i :: 0 <= i < |ps| && ps[i].name == x
    decreases |ps|
  {
    if ps != [] {
      var init := ps[..|ps| - 1];
      assert AllTypedVars(init) by {
        forall k | 0 <= k < |init| ensures init[k].TypedVar? {
          assert init[k] == ps[k];
        }
      }
      ParamEnvDomain(init, x);
      if x in ParamEnv(init) {
        var i :| 0 <= i < |init| && init[i].name == x;
        assert ps[i] == init[i];
      }
      if exists i :: 0 <= i < |ps| && ps[i].name == x {
        var i :| 0 <= i < |ps| && ps[i].name == x;
        if i < |init| {
          assert init[i] == ps[i];
        }
      }
    }
  }

  // ---------------------------------------------------------------------------------------
  // Application.

  lemma ApplyCall(f: string, args: seq<SExpr>, env: TypeEnv, fuel: nat)
    requires fuel > 0 && IsPlainName(f)
    ensures Tc(Macros.Call(f, args), env, fuel) ==
      if !(f in env && IsObjectType(env[f])) then Err("undefinied function " + f)
      else ApplyFunction(env[f], args, f, env, fuel - 1)
  {
    CallStep(f, args, env, fuel);
  }

  /** A call of a name bound to a function type is `applyFunction` of that type on the
      arguments (see `ApplyFunctionMeaning`). */
  lemma ApplicationTyping(f: string, params: seq<Type>, ret: Type, args: seq<SExpr>, env: TypeEnv, fuel: nat)
    requires fuel > 0 && IsPlainName(f) && f in env && env[f] == Fn(params, ret)
    ensures Tc(Macros.Call(f, args), env, fuel) == ApplyFunction(Fn(params, ret), args, f, env, fuel - 1)
  {
    ApplyCall(f, args, env, fuel);
  }

  /** `applyFunction` on a function type needs exactly as many arguments as parameters, each of
      exactly its parameter's type, and then gives the declared return type; the first argument
      of a different type makes it "invalid arguments", and a failure checking it escapes. */
  lemma ApplyFunctionMeaning(params: seq<Type>, ret: Type, args: seq<SExpr>, f: string, env: TypeEnv, fuel: nat)
    ensures var r := ApplyFunction(Fn(params, ret), args, f, env, fuel);
      && (|params| != |args| ==> r == Err("incorrect number of arguments for function " + f))
      && (|params| == |args| ==>
            && (r == Ok(ret) <==> Matches(params, args, env, fuel, |args|))
            && forall j: nat :: FirstMismatch(params, args, env, fuel, j) ==>
                 r == if Tc(args[j], env, fuel).Ok? then Err("invalid arguments givin to function " + f)
                      else Tc(args[j], env, fuel).PropagateFailure())
      && (r.Ok? ==> r.value == ret)
  {
    if |params| == |args| {
      ConformsMeaning(params, args, env, fuel);
    }
  }

  /** A name that is neither special nor bound to a function type cannot be called. */
  lemma UndefinedFunction(f: string, args: seq<SExpr>, env: TypeEnv, fuel: nat)
    requires fuel > 0 && IsPlainName(f) && !(f in env && IsObjectType(env[f]))
    ensures Tc(Macros.Call(f, args), env, fuel) == Err("undefinied function " + f)
  {
    ApplyCall(f, args, env, fuel);
  }

  /** A number, boolean, string literal or typed variable in head position is "function
      required". */
  lemma HeadMustBeFunction(head: SExpr, args: seq<SExpr>, env: TypeEnv, fuel: nat)
    requires fuel > 1 && (head.Num? || head.Bool? || head.StrLit? || head.TypedVar?)
    ensures Tc(List([head] + args), env, fuel) == Err("function required")
  {
    var sl := [head] + args;
    assert sl[0] == head && At(sl, 0) == head;
    assert Tc(head, env, fuel - 1).Ok? && !IsObjectType(Tc(head, env, fuel - 1).value);
    assert TcList(sl, env, fuel - 1) == Err("function required");
  }

  // ---------------------------------------------------------------------------------------
  // Definitions and `local`.

  /** `(define x v)` binds `x` to the type of `v`. */
  lemma DefineBinds(x: string, v: SExpr, env: TypeEnv, fuel: nat)
    ensures HandleDefine(Macros.Call("define", [Ident(x), v]), env, fuel) ==
      match Tc(v, env, fuel)
      case Ok(t) => Ok(env[x := t])
      case Err(m) => Err(m)
      case OutOfFuel => OutOfFuel
  {
  }

  /** `(define [x : ty] v)` binds `x` to the inferred type of `v`, which must be `ty`. */
  lemma TypedDefineBinds(x: string, ty: Type, v: SExpr, env: TypeEnv, fuel: nat)
    ensures HandleDefine(Macros.Call("define", [TypedVar(x, ty), v]), env, fuel) ==
      match Tc(v, env, fuel)
      case Ok(t) => if t == ty then Ok(env[x := t]) else Err("improper type assignment")
      case Err(m) => Err(m)
      case OutOfFuel => OutOfFuel
  {
  }

  /** The defines of `local` are folded left to right: the last is checked in the environment
      all the earlier ones built. */
  lemma {:induction false} DefinesSnoc(defs: seq<SExpr>, d: SExpr, env: TypeEnv, fuel: nat)
    ensures Defines(defs + [d], env, fuel) ==
      match Defines(defs, env, fuel)
      case Ok(e) => HandleDefine(d, e, fuel)
      case Err(m) => Err(m)
      case OutOfFuel => OutOfFuel
    decreases |defs|
  {
    if defs == [] {
      assert [] + [d] == [d];
    } else {
      assert (defs + [d])[0] == defs[0] && (defs + [d])[1..] == defs[1..] + [d];
      match HandleDefine(defs[0], env, fuel)
      case Ok(e) => DefinesSnoc(defs[1..], d, e, fuel);
      case Err(_) =>
      case OutOfFuel =>
    }
  }

  /** Checking `body` in the environment a fold built, unless the fold failed. */
  function TcIn(built: Result<TypeEnv>, body: SExpr, fuel: nat): Result<Type>
  {
    match built
    case Ok(e) => Tc(body, e, fuel)
    case Err(m) => Err(m)
    case OutOfFuel => OutOfFuel
  }

  lemma LocalStep(sl: seq<SExpr>, env: TypeEnv, fuel: nat)
    requires sl != [] && sl[0] == Ident("local")
    ensures TcList(sl, env, fuel) ==
      if |sl| != 3 then Err("local requires two arguments")
      else if !sl[1].List? then Err("defines section of local statement must be list of defiine statemens")
      else TcIn(Defines(sl[1].elems, env, fuel), sl[2], fuel)
  {
    NameClasses("local");
  }

  /** `local` types its body in the environment its defines build over `env`. */
  lemma LocalTyping(defs: seq<SExpr>, body: SExpr, env: TypeEnv, fuel: nat)
    requires fuel > 0
    ensures Tc(Macros.Call("local", [List(defs), body]), env, fuel) == TcIn(Defines(defs, env, fuel - 1), body, fuel - 1)
  {
    CallStep("local", [List(defs), body], env, fuel);
    LocalStep([Ident("local")] + [List(defs), body], env, fuel - 1);
  }

  /** `local` needs exactly two arguments, the first a list. */
  lemma LocalErrors(args: seq<SExpr>, env: TypeEnv, fuel: nat)
    requires fuel > 0
    ensures |args| != 2 ==> Tc(Macros.Call("local", args), env, fuel) == Err("local requires two arguments")
    ensures |args| == 2 && !args[0].List? ==>
      Tc(Macros.Call("local", args), env, fuel) == Err("defines section of local statement must be list of defiine statemens")
  {
    CallStep("local", args, env, fuel);
    LocalStep([Ident("local")] + args, env, fuel - 1);
  }

  // ---------------------------------------------------------------------------------------
  // Macros: a macro form is checked as its expansion, whatever the environment binds.

  /** A macro call `(f args...)` is checked as its expansion, with one unit less fuel. */
  lemma MacroCall(f: string, args: seq<SExpr>, e: SExpr, env: TypeEnv, fuel: nat)
    requires fuel > 0 && Macros.IsMacro(f) && Macros.ExpandMacro(f, [Ident(f)] + args) == Ok(e)
    ensures Tc(Macros.Call(f, args), env, fuel) == Tc(e, env, fuel - 1)
  {
    CallStep(f, args, env, fuel);
    NameClasses(f);
  }

  /** `(not x)` types as `boolean`, whatever `x` is. */
  lemma NotTypesAsBoolean(x: SExpr, env: TypeEnv, fuel: nat)
    requires fuel > 1
    ensures Tc(Macros.Call("not", [x]), env, fuel) == Ok(Boolean)
  {
    var sl := [Ident("not")] + [x];
    assert Macros.ExpandMacro("not", sl) == Ok(Macros.Call("false?", [x]));
    MacroCall("not", [x], Macros.Call("false?", [x]), env, fuel);
    PredicateTyping("false?", [x], env, fuel - 1);
  }

  /** `(or a ...)` types as `a`; `(or)` as `boolean`. */
  lemma OrTypesAsFirst(a: SExpr, rest: seq<SExpr>, env: TypeEnv, fuel: nat)
    requires fuel > 1
    ensures Tc(Macros.Call("or", [a] + rest), env, fuel) == Tc(a, env, fuel - 2)
    ensures Tc(Macros.Call("or", []), env, fuel) == Ok(Boolean)
  {
    var sl := [Ident("or")] + ([a] + rest);
    assert sl[1] == a && sl[2..] == rest;
    var e := Macros.Call("if", [Macros.NotFalse(a), a, Macros.Call("or", rest)]);
    assert Macros.ExpandMacro("or", sl) == Ok(e);
    MacroCall("or", [a] + rest, e, env, fuel);
    IfTypesAsThenBranch(Macros.NotFalse(a), a, Macros.Call("or", rest), env, fuel - 1);
    assert Macros.ExpandMacro("or", [Ident("or")] + []) == Ok(Bool(false));
    MacroCall("or", [], Bool(false), env, fuel);
  }

  /** `(and a1 ... an)` types as its last argument `an`; each nested `and` costs two units of
      fuel. */
  lemma {:induction false} AndTypesAsLast(args: seq<SExpr>, env: TypeEnv, fuel: nat)
    requires |args| >= 2 && fuel >= 2 * (|args| - 1)
    ensures Tc(Macros.Call("and", args), env, fuel) == Tc(args[|args| - 1], env, fuel - 2 * (|args| - 1))
    decreases |args|
  {
    if |args| == 2 {
      AndPair(args, env, fuel);
    } else {
      AndStep(args, env, fuel);
      AndTypesAsLast(args[1..], env, fuel - 2);
      assert args[1..][|args| - 2] == args[|args| - 1];
    }
  }

  /** `(and a b)` types as `b`. */
  lemma AndPair(args: seq<SExpr>, env: TypeEnv, fuel: nat)
    requires |args| == 2 && fuel >= 2
    ensures Tc(Macros.Call("and", args), env, fuel) == Tc(args[1], env, fuel - 2)
  {
    Macros.AndExpands(args);
    var e := Macros.Call("if", [Macros.NotFalse(args[0]), args[1], Bool(false)]);
    MacroCall("and", args, e, env, fuel);
    IfTypesAsThenBranch(Macros.NotFalse(args[0]), args[1], Bool(false), env, fuel - 1);
  }

  /** `(and a b c ...)` types as `(and b c ...)`. */
  lemma AndStep(args: seq<SExpr>, env: TypeEnv, fuel: nat)
    requires |args| > 2 && fuel >= 2
    ensures Tc(Macros.Call("and", args), env, fuel) == Tc(Macros.Call("and", args[1..]), env, fuel - 2)
  {
    Macros.AndExpands(args);
    var e := Macros.Call("if", [Macros.NotFalse(args[0]), Macros.Call("and", args[1..]), Bool(false)]);
    MacroCall("and", args, e, env, fuel);
    IfTypesAsThenBranch(Macros.NotFalse(args[0]), Macros.Call("and", args[1..]), Bool(false), env, fuel - 1);
  }

  /** `(and a)` types as `a` and `(and)` as `boolean`. */
  lemma ShortAndTyping(a: SExpr, env: TypeEnv, fuel: nat)
    requires fuel > 1
    ensures Tc(Macros.Call("and", [a]), env, fuel) == Tc(a, env, fuel - 1)
    ensures Tc(Macros.Call("and", []), env, fuel) == Ok(Boolean)
  {
    assert Macros.ExpandMacro("and", [Ident("and")] + [a]) == Ok(a);
    MacroCall("and", [a], a, env, fuel);
    assert Macros.ExpandMacro("and", [Ident("and")] + []) == Ok(Bool(true));
    MacroCall("and", [], Bool(true), env, fuel);
  }

  /** `(strictIf c t e)` types as `t`: the condition is not checked to be a boolean. */
  lemma StrictIfTypesAsThen(c: SExpr, t: SExpr, e: SExpr, env: TypeEnv, fuel: nat)
    requires fuel > 2
    ensures Tc(Macros.Call("strictIf", [c, t, e]), env, fuel) == Tc(t, env, fuel - 3)
  {
    var inner := Macros.Call("if", [c, t, e]);
    var x := Macros.Call("if", [Macros.Call("boolean?", [c]), inner,
                                Macros.Call("error", [StrLit("expected a boolean for strictIf")])]);
    var sl := [Ident("strictIf")] + [c, t, e];
    assert sl[1] == c && sl[2] == t && sl[3] == e;
    assert Macros.ExpandMacro("strictIf", sl) == Ok(x);
    MacroCall("strictIf", [c, t, e], x, env, fuel);
    IfTypesAsThenBranch(Macros.Call("boolean?", [c]), inner,
                        Macros.Call("error", [StrLit("expected a boolean for strictIf")]), env, fuel - 1);
    IfTypesAsThenBranch(c, t, e, env, fuel - 2);
  }

  /** `(cond [q a ...] clause ...)` types as the first answer `a`. */
  lemma CondTypesAsFirstAnswer(q: SExpr, a: SExpr, more: seq<SExpr>, clauses: seq<SExpr>, env: TypeEnv, fuel: nat)
    requires fuel > 1
    ensures Tc(Macros.Call("cond", [List([q, a] + more)] + clauses), env, fuel) == Tc(a, env, fuel - 2)
  {
    var first := List([q, a] + more);
    var sl := [Ident("cond")] + ([first] + clauses);
    assert sl[1] == first && sl[2..] == clauses;
    assert first.elems[0] == q && first.elems[1] == a;
    var x := Macros.Call("if", [q, a, Macros.Call("cond", clauses)]);
    assert Macros.ExpandMacro("cond", sl) == Ok(x);
    MacroCall("cond", [first] + clauses, x, env, fuel);
    IfTypesAsThenBranch(q, a, Macros.Call("cond", clauses), env, fuel - 1);
  }

  /** The type of `b` with `x` bound to the type of `v`, or the failure checking `v`. */
  function TypeWithBinding(x: string, v: SExpr, b: SExpr, env: TypeEnv, fuel: nat): Result<Type>
  {
    var t := Tc(v, env, fuel);
    if t.Ok? then Tc(b, env[x := t.value], fuel) else t.PropagateFailure()
  }

  /** A `local` with the single define `(define x v)` types its body with `x` bound to the type
      of `v`. */
  lemma OneDefineLocal(x: string, v: SExpr, b: SExpr, env: TypeEnv, fuel: nat)
    requires fuel > 0
    ensures Tc(Macros.Call("local", [List([Macros.Call("define", [Ident(x), v])]), b]), env, fuel) ==
      TypeWithBinding(x, v, b, env, fuel - 1)
  {
    LocalOfOne(Macros.Call("define", [Ident(x), v]), b, env, fuel);
    DefineThenBody(x, v, b, env, fuel - 1);
  }

  lemma LocalOfOne(d: SExpr, b: SExpr, env: TypeEnv, fuel: nat)
    requires fuel > 0
    ensures Tc(Macros.Call("local", [List([d]), b]), env, fuel) == TcIn(HandleDefine(d, env, fuel - 1), b, fuel - 1)
  {
    LocalTyping([d], b, env, fuel);
    assert [d][1..] == [];
  }

  lemma DefineThenBody(x: string, v: SExpr, b: SExpr, env: TypeEnv, fuel: nat)
    ensures TcIn(HandleDefine(Macros.Call("define", [Ident(x), v]), env, fuel), b, fuel) == TypeWithBinding(x, v, b, env, fuel)
  {
    DefineBinds(x, v, env, fuel);
  }

  /** `(let (x v) b)` types `b` with `x` bound to the type of `v`. */
  lemma LetTyping(x: string, v: SExpr, b: SExpr, env: TypeEnv, fuel: nat)
    requires fuel > 1
    ensures Tc(Macros.Call("let", [List([Ident(x), v]), b]), env, fuel) == TypeWithBinding(x, v, b, env, fuel - 2)
  {
    var def := Macros.Call("define", [Ident(x), v]);
    Macros.LetExpands(x, v, b);
    MacroCall("let", [List([Ident(x), v]), b], Macros.Call("local", [List([def]), b]), env, fuel);
    OneDefineLocal(x, v, b, env, fuel - 1);
  }
}
