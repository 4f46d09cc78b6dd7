/** The evaluator of src/language/interpreter.ts: `interp` runs a program form by form over one
    top-level variable table; `evaluateSE`/`evaluateSL` walk an S-expression in an environment.
    Macro forms are evaluated as their expansion, which is not structurally smaller, and user
    programs may diverge, so every call of `Eval` spends one unit of fuel; running out is
    `OutOfFuel`, which the source does not have. */
module Interpreter {
  import opened Common
  import opened Ast
  import Js
  import Macros

  /** A run-time value: a number, a boolean, a string, the empty array `[]`, JavaScript
      `undefined` (what a typed variable `{name, type}` evaluates to), or a closure `{args, body,
      env}`.

      A closure's `env` is either the top-level table itself (`TopTable`: the lambda was evaluated
      directly in that table, which the program keeps updating) or a map that nothing updates
      later. `structuredClone` copies the top-level table wherever it reaches a reference to it,
      and the copy refers to itself where the table did. The model keeps this finite: a closure
      with `bound == None` still refers to the current top-level table, wherever a `TopTable`
      occurs in it or in the values its `env` holds; cloning sets `bound` to `Some(t)`, the table
      as it was, whose own unbound values then refer to `t` again. */
  datatype Value =
    | Number(x: real)
    | Boolean(b: bool)
    | Text(s: string)
    | EmptyList
    | Undefined
    | Closure(params: seq<string>, body: SExpr, env: Captured, bound: Option<map<string, Value>>)

  datatype Captured = TopTable | Vars(vars: map<string, Value>)

  type Table = map<string, Value>

  /** Where an expression is evaluated: in the top-level table (`varTable`) or in a local
      environment object. */
  datatype Scope = TopLevel | Frame(vars: Table)

  function VarsOf(sc: Scope, top: Table): Table
  {
    if sc.TopLevel? then top else sc.vars
  }

  /** `typeof v === "object"`. */
  predicate IsObject(v: Value) { v.Closure? || v.EmptyList? }

  /** JavaScript truthiness: `false`, `0`, `""` and `undefined` are falsy. */
  predicate Truthy(v: Value)
  {
    match v
    case Boolean(b) => b
    case Number(x) => x != 0.0
    case Text(s) => s != ""
    case Undefined => false
    case _ => true
  }

  // ---------------------------------------------------------------------------------------
  // structuredClone

  /** A value taken out of a table whose unbound references mean table `t`. */
  function Bind(v: Value, t: Table): (w: Value)
    ensures !v.Closure? ==> w == v
    ensures v.Closure? ==> w == v.(bound := if v.bound.None? then Some(t) else v.bound)
  {
    if v.Closure? && v.bound.None? then v.(bound := Some(t)) else v
  }

  /** Every value of `m`, with its unbound references meaning `t`. */
  function BindAll(m: Table, t: Table): (r: Table)
    ensures r.Keys == m.Keys
    ensures forall k :: k in m ==> r[k] == Bind(m[k], t)
  {
    map k | k in m :: Bind(m[k], t)
  }

  /** `structuredClone(vars)` while the top-level table is `top`. */
  function Clone(vars: Table, top: Table): Table
  {
    BindAll(vars, top)
  }

  /** `structuredClone(l.env)` for a closure `l`. */
  function CapturedEnv(l: Value, top: Table): Table
    requires l.Closure?
  {
    var t := if l.bound.Some? then l.bound.value else top;
    BindAll(if l.env.TopTable? then t else l.env.vars, t)
  }

  // ---------------------------------------------------------------------------------------
  // Rendering a head or an error message

  /** `String(x)`: integers in decimal; the shortest round-trip decimal JavaScript prints for
      other numbers is not modelled. */
  function NumberText(x: real): string
  {
    if x.Floor as real == x then Js.IntToString(x.Floor) else "(non-integral number)"
  }

  /** The key a non-object head is looked up under, which is also the name the
      "not defined" message prints. */
  function HeadKey(f: Value): string
  {
    match f
    case Text(s) => s
    case Number(x) => NumberText(x)
    case Undefined => "undefined"
    case _ => ""
  }

  /** `JSON.stringify(msg)` for a non-string message; `undefined` gives `undefined`, whose
      `Error` message is empty. A closure is not rendered. */
  function JsonText(v: Value): string
  {
    match v
    case Number(x) => NumberText(x)
    case Boolean(b) => if b then "true" else "false"
    case EmptyList => "[]"
    case Text(s) => "\"" + s + "\""
    case Undefined => ""
    case Closure(_, _, _, _) => "(closure)"
  }

  // ---------------------------------------------------------------------------------------
  // Operators

  predicate IsArith(f: string) { f in {"+", "-", "*", "/"} }
  predicate IsComparison(f: string) { f in {"=", "<", ">"} }
  predicate IsTypePredicate(f: string) { f in {"boolean?", "string?", "number?", "function?"} }

  /** The message for an infinite or undefined IEEE quotient, which the model does not compute. */
  const NonFinite := "division by zero (IEEE infinity and NaN are not modelled)"

  /** `a < b` on numbers and booleans (as 0 and 1) and on two strings (by character); the other
      JavaScript conversions are not modelled and compare false. */
  predicate JsLess(a: Value, b: Value)
  {
    if (a.Number? || a.Boolean?) && (b.Number? || b.Boolean?) then Numeric(a) < Numeric(b)
    else if a.Text? && b.Text? then StringLess(a.s, b.s)
    else false
  }

  function Numeric(v: Value): real
    requires v.Number? || v.Boolean?
  {
    if v.Number? then v.x else if v.b then 1.0 else 0.0
  }

  predicate StringLess(a: string, b: string)
  {
    if a == [] then b != []
    else if b == [] then false
    else if a[0] != b[0] then a[0] < b[0]
    else StringLess(a[1..], b[1..])
  }

  /** The relation `dist` checks for operator `f`: `===`, `<` or `>`. */
  predicate Related(f: string, a: Value, b: Value)
  {
    if f == "=" then a == b else if f == "<" then JsLess(a, b) else JsLess(b, a)
  }

  /** An arithmetic accumulator: a number, or the IEEE infinity or NaN a division by zero
      makes, which stays non-finite. */
  datatype Acc = Finite(x: real) | NonFiniteAcc

  /** One step of an arithmetic fold. */
  function ArithStep(f: string, acc: Acc, n: real): Acc
  {
    if acc.NonFiniteAcc? then NonFiniteAcc
    else if f == "+" then Finite(acc.x + n)
    else if f == "-" then Finite(acc.x - n)
    else if f == "*" then Finite(acc.x * n)
    else if n == 0.0 then NonFiniteAcc
    else Finite(acc.x / n)
  }

  function Finish(acc: Acc): Result<Value>
  {
    if acc.Finite? then Ok(Number(acc.x)) else Err(NonFinite)
  }

  // ---------------------------------------------------------------------------------------
  // The evaluator

  /** `evaluateSE(se, localVars)`. */
  function Eval(se: SExpr, sc: Scope, top: Table, fuel: nat): Result<Value>
    decreases fuel, 0, 0
  {
    if fuel == 0 then OutOfFuel
    else if se.List? then EvalList(se.elems, sc, top, fuel - 1)
    else EvalAtom(se, VarsOf(sc, top))
  }

  /** `evaluateA(a, localVars)`: a name whose binding is missing or `undefined` is an error. */
  function EvalAtom(a: SExpr, vars: Table): Result<Value>
    requires !a.List?
  {
    match a
    case Num(n) => Ok(Number(n as real))
    case Bool(b) => Ok(Boolean(b))
    case StrLit(s) => Ok(Text(s))
    case TypedVar(_, _) => Ok(Undefined)
    case Ident(x) => if x !in vars || vars[x] == Undefined then Err("undefined variable " + x) else Ok(vars[x])
  }

  /** `evaluateSL(sl, localVars)`: the head is a name, taken as the string it is, or is
      evaluated. */
  function EvalList(sl: seq<SExpr>, sc: Scope, top: Table, fuel: nat): Result<Value>
    decreases fuel, 5, 0
  {
    if sl == [] then Ok(EmptyList)
    else
      var f :- if sl[0].Ident? then Ok(Text(sl[0].name)) else Eval(sl[0], sc, top, fuel);
      Dispatch(f, sl, sc, top, fuel)
  }

  /** What `evaluateSL` does with head value `f`: the operators and special forms by name, then
      a closure (the head's value or binding), then a macro when that binding is no object. */
  function Dispatch(f: Value, sl: seq<SExpr>, sc: Scope, top: Table, fuel: nat): Result<Value>
    requires sl != []
    decreases fuel, 4, 0
  {
    var args := sl[1..];
    if f.Boolean? then Err("boolean found instead of function at beginning of S-expr")
    else if f.Text? && IsArith(f.s) then EvalArith(f.s, args, sc, top, fuel)
    else if f.Text? && IsComparison(f.s) then
      if args == [] then Err(f.s + " requires 1 or more arguments") else Dist(f.s, args, sc, top, fuel)
    else if f.Text? && IsTypePredicate(f.s) then EvalPredicate(f.s, args, sc, top, fuel)
    else if f == Text("local") then EvalLocal(args, sc, top, fuel)
    else if f == Text("if") then
      if |args| != 3 then Err("if statement requires three arguments")
      else
        var c :- Eval(args[0], sc, top, fuel);
        if Truthy(c) then Eval(args[1], sc, top, fuel) else Eval(args[2], sc, top, fuel)
    else if f == Text("lambda") then EvalLambda(args, sc)
    else if f == Text("define") then Err("found a definition that is not at the top level")
    else if f == Text("error") then
      var msg :- Eval(At(args, 0), sc, top, fuel);
      Err(if msg.Text? then msg.s else JsonText(msg))
    else
      var vars := VarsOf(sc, top);
      var key := HeadKey(f);
      var fv := if IsObject(f) then f else if key in vars then vars[key] else Undefined;
      if !IsObject(fv) then
        if f.Text? && Macros.IsMacro(f.s) then
          var expanded :- Macros.ExpandMacro(f.s, sl);
          Eval(expanded, sc, top, fuel)
        else Err("function '" + key + "' not defined")
      else if fv.EmptyList? then Err("unexpected '()")
      else ApplyFunction(fv, args, sc, top, fuel)
  }

  /** `getNum(se, fn)`. */
  function GetNum(se: SExpr, f: string, sc: Scope, top: Table, fuel: nat): Result<real>
    decreases fuel, 1, 0
  {
    var n :- Eval(se, sc, top, fuel);
    if n.Number? then Ok(n.x) else Err("each argument for " + f + " must be a number")
  }

  /** The `reduce` of an arithmetic operator over `args` from `acc`. */
  function NumFold(f: string, args: seq<SExpr>, acc: Acc, sc: Scope, top: Table, fuel: nat): Result<Acc>
    decreases fuel, 2, |args|
  {
    if args == [] then Ok(acc)
    else
      var n :- GetNum(args[0], f, sc, top, fuel);
      NumFold(f, args[1..], ArithStep(f, acc, n), sc, top, fuel)
  }

  /** `+` and `*` fold from 0 and 1; `-` and `/` need an argument, negate or invert a single
      one, and otherwise fold from the first. */
  function EvalArith(f: string, args: seq<SExpr>, sc: Scope, top: Table, fuel: nat): Result<Value>
    requires IsArith(f)
    decreases fuel, 3, 0
  {
    if f == "+" || f == "*" then
      var r :- NumFold(f, args, Finite(if f == "+" then 0.0 else 1.0), sc, top, fuel);
      Finish(r)
    else if args == [] then
      Err(if f == "-" then "- requires 1 or more argument" else "/ requires 1 or more arguments")
    else
      var first :- GetNum(args[0], f, sc, top, fuel);
      if |args| == 1 then Finish(if f == "-" then Finite(-first) else ArithStep("/", Finite(1.0), first))
      else
        var r :- NumFold(f, args[1..], Finite(first), sc, top, fuel);
        Finish(r)
  }

  /** `dist(args, rel, f)` on a non-empty argument list: each consecutive pair is evaluated
      and related, stopping at the first pair that is not. */
  function Dist(f: string, args: seq<SExpr>, sc: Scope, top: Table, fuel: nat): Result<Value>
    decreases fuel, 2, |args|
  {
    if |args| < 2 then Ok(Boolean(true))
    else
      var x :- Eval(args[0], sc, top, fuel);
      var y :- Eval(args[1], sc, top, fuel);
      if !Related(f, x, y) then Ok(Boolean(false)) else Dist(f, args[1..], sc, top, fuel)
  }

  /** `boolean?`, `string?`, `number?`, `function?`: only the first argument is evaluated. */
  function EvalPredicate(f: string, args: seq<SExpr>, sc: Scope, top: Table, fuel: nat): Result<Value>
    requires IsTypePredicate(f)
    decreases fuel, 3, 0
  {
    if args == [] then Err(f + " requires 1 or more arguments")
    else
      var v :- Eval(args[0], sc, top, fuel);
      Ok(Boolean(
        if f == "boolean?" then v.Boolean?
        else if f == "string?" then v.Text?
        else if f == "number?" then v.Number?
        else IsObject(v)))
  }

  /** `(local (defines...) body)`. */
  function EvalLocal(args: seq<SExpr>, sc: Scope, top: Table, fuel: nat): Result<Value>
    decreases fuel, 3, 0
  {
    if !At(args, 0).List? then Err("defines section of local statement must be list of defiine statemens")
    else if |args| < 2 then Err("body of local statement missing")
    else
      var sc' :- LocalDefines(args[0].elems, sc, top, fuel);
      Eval(args[1], sc', top, fuel)
  }

  /** The `reduce` of `local` over its defines: each sees the environment the earlier ones
      built; with no defines the environment object is the one `local` was evaluated in. */
  function LocalDefines(defs: seq<SExpr>, sc: Scope, top: Table, fuel: nat): Result<Scope>
    decreases fuel, 2, |defs|
  {
    if defs == [] then Ok(sc)
    else
      var vars :- HandleDefine(defs[0], sc, top, fuel);
      LocalDefines(defs[1..], Frame(vars), top, fuel)
  }

  /** The measure that lets the function-shorthand `define` re-enter `HandleDefine`. */
  function DefineRank(s: SExpr): nat
  {
    if s.List? && |s.elems| >= 2 && s.elems[1].List? then 1 else 0
  }

  /** `handleDefine(s, localVars)`: the clone of the environment with the name bound to the
      value; `(define (f args...) body)` is rewritten by `funMacro` first. */
  function HandleDefine(s: SExpr, sc: Scope, top: Table, fuel: nat): Result<Table>
    decreases fuel, 1, DefineRank(s)
  {
    if !s.List? || At(s.elems, 0) != Ident("define") then Err("expected define statement")
    else if |s.elems| < 3 then Err("value for variable definition required")
    else if s.elems[1].List? then
      var d :- Macros.FunMacro(s.elems);
      HandleDefine(d, sc, top, fuel)
    else if !s.elems[1].Ident? then Err("variable name for define statement must be a string")
    else
      var v :- Eval(s.elems[2], sc, top, fuel);
      Ok(Clone(VarsOf(sc, top), top)[s.elems[1].name := v])
  }

  /** `(lambda (params...) body)`: a closure over the current environment object. */
  function EvalLambda(args: seq<SExpr>, sc: Scope): Result<Value>
  {
    var ps := At(args, 0);
    if !ps.List? || !(forall i :: 0 <= i < |ps.elems| ==> ps.elems[i].Ident?) then
      Err("args for lambda must be s-expr of strings")
    else
      Ok(Closure(Names(ps.elems), At(args, 1), if sc.TopLevel? then TopTable else Vars(sc.vars), None))
  }

  function Names(ps: seq<SExpr>): (r: seq<string>)
    requires forall i :: 0 <= i < |ps| ==> ps[i].Ident?
    ensures |r| == |ps| && forall i :: 0 <= i < |ps| ==> r[i] == ps[i].name
  {
    if ps == [] then [] else [ps[0].name] + Names(ps[1..])
  }

  /** The parameters' `reduce`: each parameter bound, left to right, to its argument evaluated
      in the caller's environment (a missing argument is `undefined`, looked up as a name). */
  function ParamsEnv(ps: seq<string>, args: seq<SExpr>, sc: Scope, top: Table, fuel: nat): Result<Table>
    decreases fuel, 2, |ps|
  {
    if ps == [] then Ok(map[])
    else
      var m :- ParamsEnv(ps[..|ps| - 1], args, sc, top, fuel);
      var v :- Eval(At(args, |ps| - 1), sc, top, fuel);
      Ok(m[ps[|ps| - 1] := v])
  }

  /** `applyFunction(l, v, localVars)`: the body runs in the caller's environment, overridden by
      the parameters, overridden by the closure's own environment. */
  function ApplyFunction(l: Value, args: seq<SExpr>, sc: Scope, top: Table, fuel: nat): Result<Value>
    requires l.Closure?
    decreases fuel, 3, 0
  {
    var params :- ParamsEnv(l.params, args, sc, top, fuel);
    Eval(l.body, Frame(CallEnv(l, params, sc, top)), top, fuel)
  }

  /** The environment a call runs its body in: the clone of the caller's, then the parameters,
      then the clone of the closure's own. */
  function CallEnv(l: Value, params: Table, sc: Scope, top: Table): Table
    requires l.Closure?
  {
    Clone(VarsOf(sc, top), top) + params + CapturedEnv(l, top)
  }

  // ---------------------------------------------------------------------------------------
  // The program

  /** The check in `interp`'s `reduce`: an array whose first element is `"define"`. */
  predicate IsTopDefine(s: SExpr)
  {
    s.List? && |s.elems| > 0 && s.elems[0] == Ident("define")
  }

  /** The `reduce` state: the values so far and the top-level table. */
  datatype State = State(out: seq<Value>, table: Table)

  /** One form of the program: a define updates the table (`Object.assign` of a result that has
      every key of the table), any other form appends its value. */
  function Step(st: State, s: SExpr, fuel: nat): Result<State>
  {
    if IsTopDefine(s) then
      var t :- HandleDefine(s, TopLevel, st.table, fuel);
      Ok(State(st.out, t))
    else
      var v :- Eval(s, TopLevel, st.table, fuel);
      Ok(State(st.out + [v], st.table))
  }

  /** `interp`'s `reduce` over the first forms, from no values and an empty table. */
  function Run(sp: seq<SExpr>, fuel: nat): Result<State>
  {
    if sp == [] then Ok(State([], map[]))
    else
      var st :- Run(sp[..|sp| - 1], fuel);
      Step(st, sp[|sp| - 1], fuel)
  }

  /** `interp(sp)`, each form evaluated with `fuel`: a loop over the forms that updates the
      table in place. */
  method Interp(sp: seq<SExpr>, fuel: nat) returns (r: Result<seq<Value>>)
    ensures r == (var st := Run(sp, fuel); if st.Ok? then Ok(st.value.out) else st.PropagateFailure())
  {
    var varTable: Table := map[];
    var out: seq<Value> := [];
    var i := 0;
    while i < |sp|
      invariant 0 <= i <= |sp|
      invariant Run(sp[..i], fuel) == Ok(State(out, varTable))
    {
      assert sp[..i + 1][..i] == sp[..i];
      var s := sp[i];
      if IsTopDefine(s) {
        var t := HandleDefine(s, TopLevel, varTable, fuel);
        if !t.Ok? {
          PrefixFails(sp, i + 1, fuel);
          return t.PropagateFailure();
        }
        varTable := t.value;
      } else {
        var v := Eval(s, TopLevel, varTable, fuel);
        if !v.Ok? {
          PrefixFails(sp, i + 1, fuel);
          return v.PropagateFailure();
        }
        out := out + [v.value];
      }
      i := i + 1;
    }
    assert sp[..i] == sp;
    return Ok(out);
  }

  /** A failing prefix makes the whole program fail with the same outcome. */
  lemma {:induction false} PrefixFails(sp: seq<SExpr>, n: nat, fuel: nat)
    requires n <= |sp| && !Run(sp[..n], fuel).Ok?
    ensures Run(sp, fuel) == Run(sp[..n], fuel)
    decreases |sp| - n
  {
    if n < |sp| {
      var m := n + 1;
      assert sp[..m][..n] == sp[..n];
      PrefixFails(sp, m, fuel);
    } else {
      assert sp[..n] == sp;
    }
  }
}

/** What the evaluator of src/language/interpreter.ts promises: the arithmetic and comparison
    rules, `if`, `local`, closure calls, the error forms, the predicates and the program loop. */
module InterpreterFacts {
  import opened Common
  import opened Ast
  import Macros
  import opened Interpreter

  // ---------------------------------------------------------------------------------------
  // Unfolding one call

  /** The names `evaluateSL` recognises before looking at bindings. */
  predicate IsSpecialName(f: string)
  {
    IsArith(f) || IsComparison(f) || IsTypePredicate(f) || f in {"local", "if", "lambda", "define", "error"}
  }

  lemma NameClasses(f: string)
    ensures IsArith(f) ==> !IsComparison(f) && !IsTypePredicate(f)
    ensures IsComparison(f) ==> !IsTypePredicate(f)
    ensures IsSpecialName(f) ==> !Macros.IsMacro(f)
  {
  }

  /** A call `(f args...)` with a name as head dispatches on that name with one unit less fuel. */
  lemma CallStep(f: string, args: seq<SExpr>, sc: Scope, top: Table, fuel: nat)
    requires fuel > 0
    ensures var sl := [Ident(f)] + args;
      Eval(Macros.Call(f, args), sc, top, fuel) == Dispatch(Text(f), sl, sc, top, fuel - 1)
      && sl != [] && sl[0] == Ident(f) && sl[1..] == args
  {
    var sl := [Ident(f)] + args;
    assert sl[1..] == args;
  }

  // ---------------------------------------------------------------------------------------
  // Arithmetic

  /** The reference sum and product. */
  function Sum(xs: seq<real>): real
  {
    if xs == [] then 0.0 else xs[0] + Sum(xs[1..])
  }

  function Product(xs: seq<real>): real
  {
    if xs == [] then 1.0 else xs[0] * Product(xs[1..])
  }

  predicate NoZero(xs: seq<real>) { forall i :: 0 <= i < |xs| ==> xs[i] != 0.0 }

  /** Each argument evaluates to the number at the same position. */
  predicate EvalsToNumbers(args: seq<SExpr>, xs: seq<real>, sc: Scope, top: Table, fuel: nat)
  {
    |args| == |xs| && forall i :: 0 <= i < |args| ==> Eval(args[i], sc, top, fuel) == Ok(Number(xs[i]))
  }

  lemma EvalsToNumbersTail(args: seq<SExpr>, xs: seq<real>, sc: Scope, top: Table, fuel: nat)
    requires args != [] && EvalsToNumbers(args, xs, sc, top, fuel)
    ensures EvalsToNumbers(args[1..], xs[1..], sc, top, fuel)
    ensures GetNum(args[0], "", sc, top, fuel) == Ok(xs[0])
  {
    assert forall i :: 0 <= i < |args| - 1 ==> args[1..][i] == args[i + 1] && xs[1..][i] == xs[i + 1];
  }

  /** The reference left fold of an arithmetic operator over numbers. */
  function LeftFold(f: string, acc: Acc, xs: seq<real>): Acc
    decreases |xs|
  {
    if xs == [] then acc else LeftFold(f, ArithStep(f, acc, xs[0]), xs[1..])
  }

  /** Over arguments that evaluate to numbers, the source's fold is the reference left fold. */
  lemma {:induction false} FoldOfNumbers(f: string, args: seq<SExpr>, xs: seq<real>, acc: Acc, sc: Scope, top: Table, fuel: nat)
    requires EvalsToNumbers(args, xs, sc, top, fuel)
    ensures NumFold(f, args, acc, sc, top, fuel) == Ok(LeftFold(f, acc, xs))
    decreases |args|
  {
    if args != [] {
      EvalsToNumbersTail(args, xs, sc, top, fuel);
      assert GetNum(args[0], f, sc, top, fuel) == Ok(xs[0]);
      FoldOfNumbers(f, args[1..], xs[1..], ArithStep(f, acc, xs[0]), sc, top, fuel);
    }
  }

  /** `+` and `-` fold to the accumulator plus or minus the sum. */
  lemma {:induction false} LeftFoldSum(f: string, a: real, xs: seq<real>)
    requires f == "+" || f == "-"
    ensures LeftFold(f, Finite(a), xs) == Finite(if f == "+" then a + Sum(xs) else a - Sum(xs))
    decreases |xs|
  {
    if xs != [] {
      LeftFoldSum(f, if f == "+" then a + xs[0] else a - xs[0], xs[1..]);
    }
  }

  /** `*` folds to the accumulator times the product. */
  lemma {:induction false} LeftFoldProduct(a: real, xs: seq<real>)
    ensures LeftFold("*", Finite(a), xs) == Finite(a * Product(xs))
    decreases |xs|
  {
    if xs != [] {
      assert "*" != "+" && "*" != "-";
      assert ArithStep("*", Finite(a), xs[0]) == Finite(a * xs[0]);
      LeftFoldProduct(a * xs[0], xs[1..]);
      assert Product(xs) == xs[0] * Product(xs[1..]);
      MultiplyTwice(a, xs[0], Product(xs[1..]));
    }
  }

  /** Regrouping a product: the step of LeftFoldProduct from the fold's order to Product's. */
  lemma MultiplyTwice(a: real, b: real, c: real)
    ensures a * b * c == a * (b * c)
  {
  }

  /** `/` over non-zero numbers folds to the accumulator divided by the product; a zero
      divisor makes the accumulator non-finite for good. */
  lemma {:induction false} LeftFoldQuotient(a: real, xs: seq<real>)
    ensures NoZero(xs) ==> Product(xs) != 0.0 && LeftFold("/", Finite(a), xs) == Finite(a / Product(xs))
    ensures !NoZero(xs) ==> LeftFold("/", Finite(a), xs) == NonFiniteAcc
    decreases |xs|
  {
    if xs != [] {
      assert NoZero(xs) <==> xs[0] != 0.0 && NoZero(xs[1..]) by {
        assert forall i :: 0 <= i < |xs| - 1 ==> xs[1..][i] == xs[i + 1];
      }
      if xs[0] == 0.0 {
        StaysNonFinite(xs[1..]);
      } else {
        assert "/" != "+" && "/" != "-" && "/" != "*";
        assert ArithStep("/", Finite(a), xs[0]) == Finite(a / xs[0]);
        LeftFoldQuotient(a / xs[0], xs[1..]);
        if NoZero(xs[1..]) {
          assert Product(xs) == xs[0] * Product(xs[1..]);
          DivideTwice(a, xs[0], Product(xs[1..]));
        }
      }
    }
  }

  lemma {:induction false} StaysNonFinite(xs: seq<real>)
    ensures LeftFold("/", NonFiniteAcc, xs) == NonFiniteAcc
    decreases |xs|
  {
    if xs != [] {
      StaysNonFinite(xs[1..]);
    }
  }

  /** Dividing twice is dividing by the product: the step of LeftFoldQuotient. */
  lemma DivideTwice(a: real, b: real, c: real)
    requires b != 0.0 && c != 0.0
    ensures b * c != 0.0 && a / b / c == a / (b * c)
  {
  }

  /** The first argument that is not a number decides the outcome of the fold, whatever the
      accumulator. */
  lemma {:induction false} FoldFailure(f: string, args: seq<SExpr>, xs: seq<real>, j: nat, acc: Acc, sc: Scope, top: Table, fuel: nat)
    requires j < |args| && EvalsToNumbers(args[..j], xs, sc, top, fuel)
    requires !GetNum(args[j], f, sc, top, fuel).Ok?
    ensures NumFold(f, args, acc, sc, top, fuel) == GetNum(args[j], f, sc, top, fuel).PropagateFailure()
    decreases j
  {
    if j > 0 {
      assert args[0] == args[..j][0];
      assert Eval(args[0], sc, top, fuel) == Ok(Number(xs[0]));
      assert args[1..][..j - 1] == args[..j][1..] && args[1..][j - 1] == args[j];
      EvalsToNumbersTail(args[..j], xs, sc, top, fuel);
      FoldFailure(f, args[1..], xs[1..], j - 1, ArithStep(f, acc, xs[0]), sc, top, fuel);
    }
  }

  /** A name of the arithmetic group dispatches to its fold. */
  lemma ArithStepLemma(f: string, sl: seq<SExpr>, sc: Scope, top: Table, fuel: nat)
    requires sl != [] && IsArith(f)
    ensures Dispatch(Text(f), sl, sc, top, fuel) == EvalArith(f, sl[1..], sc, top, fuel)
  {
  }

  lemma ArithCall(f: string, args: seq<SExpr>, sc: Scope, top: Table, fuel: nat)
    requires fuel > 0 && IsArith(f)
    ensures Eval(Macros.Call(f, args), sc, top, fuel) == EvalArith(f, args, sc, top, fuel - 1)
  {
    CallStep(f, args, sc, top, fuel);
    ArithStepLemma(f, [Ident(f)] + args, sc, top, fuel - 1);
  }

  /** `(+ x...)` is the sum of its numbers and `(* x...)` their product; with no arguments they
      are 0 and 1. */
  lemma PlusAndTimes(f: string, args: seq<SExpr>, xs: seq<real>, sc: Scope, top: Table, fuel: nat)
    requires fuel > 0 && (f == "+" || f == "*") && EvalsToNumbers(args, xs, sc, top, fuel - 1)
    ensures Eval(Macros.Call(f, args), sc, top, fuel) == Ok(Number(if f == "+" then Sum(xs) else Product(xs)))
  {
    ArithCall(f, args, sc, top, fuel);
    var a := if f == "+" then 0.0 else 1.0;
    FoldOfNumbers(f, args, xs, Finite(a), sc, top, fuel - 1);
    if f == "+" {
      LeftFoldSum(f, a, xs);
    } else {
      LeftFoldProduct(a, xs);
    }
  }

  /** `(- x)` is `-x`; `(- x0 x1...)` is `x0` minus the sum of the rest. */
  lemma MinusOfNumbers(args: seq<SExpr>, xs: seq<real>, sc: Scope, top: Table, fuel: nat)
    requires fuel > 0 && args != [] && EvalsToNumbers(args, xs, sc, top, fuel - 1)
    ensures Eval(Macros.Call("-", args), sc, top, fuel) ==
      Ok(Number(if |xs| == 1 then -xs[0] else xs[0] - Sum(xs[1..])))
  {
    ArithCall("-", args, sc, top, fuel);
    EvalsToNumbersTail(args, xs, sc, top, fuel - 1);
    assert GetNum(args[0], "-", sc, top, fuel - 1) == Ok(xs[0]);
    if |args| > 1 {
      FoldOfNumbers("-", args[1..], xs[1..], Finite(xs[0]), sc, top, fuel - 1);
      LeftFoldSum("-", xs[0], xs[1..]);
    }
  }

  /** The numbers `/` divides by: the only argument, or all but the first. */
  function Divisors(xs: seq<real>): seq<real>
  {
    if |xs| == 1 then xs else if xs == [] then [] else xs[1..]
  }

  /** `(/ x)` is `1 / x`; `(/ x0 x1...)` is `x0` divided by the product of the rest; a zero
      divisor is a non-finite IEEE result. */
  lemma DivideOfNumbers(args: seq<SExpr>, xs: seq<real>, sc: Scope, top: Table, fuel: nat)
    requires fuel > 0 && args != [] && EvalsToNumbers(args, xs, sc, top, fuel - 1)
    ensures NoZero(Divisors(xs)) ==> Product(Divisors(xs)) != 0.0
    ensures Eval(Macros.Call("/", args), sc, top, fuel) ==
      if !NoZero(Divisors(xs)) then Err(NonFinite)
      else Ok(Number(if |xs| == 1 then 1.0 / xs[0] else xs[0] / Product(xs[1..])))
  {
    ArithCall("/", args, sc, top, fuel);
    EvalsToNumbersTail(args, xs, sc, top, fuel - 1);
    assert GetNum(args[0], "/", sc, top, fuel - 1) == Ok(xs[0]);
    if |args| > 1 {
      FoldOfNumbers("/", args[1..], xs[1..], Finite(xs[0]), sc, top, fuel - 1);
      LeftFoldQuotient(xs[0], xs[1..]);
    } else {
      assert NoZero(xs) <==> xs[0] != 0.0;
      LeftFoldQuotient(1.0, xs);
    }
  }

  /** `-` and `/` require an argument. */
  lemma ArithArity(f: string, sc: Scope, top: Table, fuel: nat)
    requires fuel > 0 && (f == "-" || f == "/")
    ensures Eval(Macros.Call(f, []), sc, top, fuel) ==
      Err(if f == "-" then "- requires 1 or more argument" else "/ requires 1 or more arguments")
  {
    ArithCall(f, [], sc, top, fuel);
  }

  /** `getNum` fails exactly when the argument fails or is no number. */
  lemma GetNumMeaning(se: SExpr, f: string, sc: Scope, top: Table, fuel: nat)
    ensures var r := GetNum(se, f, sc, top, fuel); var v := Eval(se, sc, top, fuel);
      && (r.Ok? <==> v.Ok? && v.value.Number?)
      && (v.Ok? && !v.value.Number? ==> r == Err("each argument for " + f + " must be a number"))
      && (!v.Ok? ==> r == v.PropagateFailure())
  {
  }

  /** Every argument must be a number: the first that is not decides the outcome of any
      arithmetic operator. */
  lemma NonNumberArgument(f: string, args: seq<SExpr>, xs: seq<real>, j: nat, sc: Scope, top: Table, fuel: nat)
    requires fuel > 0 && IsArith(f) && j < |args| && EvalsToNumbers(args[..j], xs, sc, top, fuel - 1)
    requires !GetNum(args[j], f, sc, top, fuel - 1).Ok?
    ensures Eval(Macros.Call(f, args), sc, top, fuel) == GetNum(args[j], f, sc, top, fuel - 1).PropagateFailure()
  {
    ArithCall(f, args, sc, top, fuel);
    if f == "+" || f == "*" {
      FoldFailure(f, args, xs, j, Finite(if f == "+" then 0.0 else 1.0), sc, top, fuel - 1);
    } else if j > 0 {
      assert args[0] == args[..j][0];
      assert GetNum(args[0], f, sc, top, fuel - 1) == Ok(xs[0]);
      assert args[1..][..j - 1] == args[..j][1..] && args[1..][j - 1] == args[j];
      EvalsToNumbersTail(args[..j], xs, sc, top, fuel - 1);
      FoldFailure(f, args[1..], xs[1..], j - 1, Finite(xs[0]), sc, top, fuel - 1);
    }
  }

  // ---------------------------------------------------------------------------------------
  // Comparisons

  lemma ComparisonCall(f: string, args: seq<SExpr>, sc: Scope, top: Table, fuel: nat)
    requires fuel > 0 && IsComparison(f)
    ensures Eval(Macros.Call(f, args), sc, top, fuel) ==
      if args == [] then Err(f + " requires 1 or more arguments") else Dist(f, args, sc, top, fuel - 1)
  {
    CallStep(f, args, sc, top, fuel);
    NameClasses(f);
  }

  /** Each argument evaluates to the value at the same position. */
  predicate EvalsTo(args: seq<SExpr>, vs: seq<Value>, sc: Scope, top: Table, fuel: nat)
  {
    |args| == |vs| && forall i :: 0 <= i < |args| ==> Eval(args[i], sc, top, fuel) == Ok(vs[i])
  }

  /** The relation holds between every two consecutive values. */
  predicate Chained(f: string, vs: seq<Value>)
  {
    forall i :: 0 <= i < |vs| - 1 ==> Related(f, vs[i], vs[i + 1])
  }

  lemma {:induction false} DistOfValues(f: string, args: seq<SExpr>, vs: seq<Value>, sc: Scope, top: Table, fuel: nat)
    requires EvalsTo(args, vs, sc, top, fuel)
    ensures Dist(f, args, sc, top, fuel) == Ok(Boolean(Chained(f, vs)))
    decreases |args|
  {
    if |args| >= 2 {
      assert Eval(args[0], sc, top, fuel) == Ok(vs[0]) && Eval(args[1], sc, top, fuel) == Ok(vs[1]);
      assert EvalsTo(args[1..], vs[1..], sc, top, fuel) by {
        assert forall i :: 0 <= i < |args| - 1 ==> args[1..][i] == args[i + 1] && vs[1..][i] == vs[i + 1];
      }
      DistOfValues(f, args[1..], vs[1..], sc, top, fuel);
      assert Chained(f, vs) <==> Related(f, vs[0], vs[1]) && Chained(f, vs[1..]) by {
        assert forall i :: 0 <= i < |vs| - 1 ==> vs[1..][i] == vs[i + 1];
      }
    }
  }

  /** `=`, `<` and `>` hold when their relation holds between each consecutive pair of argument
      values, whatever kind the values are. */
  lemma ComparisonOfValues(f: string, args: seq<SExpr>, vs: seq<Value>, sc: Scope, top: Table, fuel: nat)
    requires fuel > 0 && IsComparison(f) && args != [] && EvalsTo(args, vs, sc, top, fuel - 1)
    ensures Eval(Macros.Call(f, args), sc, top, fuel) == Ok(Boolean(Chained(f, vs)))
  {
    ComparisonCall(f, args, sc, top, fuel);
    DistOfValues(f, args, vs, sc, top, fuel - 1);
  }

  /** With no argument a comparison is an error; with one it is true, and the argument is not
      evaluated. */
  lemma ComparisonArity(f: string, a: SExpr, sc: Scope, top: Table, fuel: nat)
    requires fuel > 0 && IsComparison(f)
    ensures Eval(Macros.Call(f, []), sc, top, fuel) == Err(f + " requires 1 or more arguments")
    ensures Eval(Macros.Call(f, [a]), sc, top, fuel) == Ok(Boolean(true))
  {
    ComparisonCall(f, [], sc, top, fuel);
    ComparisonCall(f, [a], sc, top, fuel);
  }

  /** The first pair that is not related makes the comparison false: the later arguments are
      never evaluated. */
  lemma ComparisonShortCircuit(f: string, a: SExpr, b: SExpr, rest: seq<SExpr>, x: Value, y: Value, sc: Scope, top: Table, fuel: nat)
    requires fuel > 0 && IsComparison(f)
    requires Eval(a, sc, top, fuel - 1) == Ok(x) && Eval(b, sc, top, fuel - 1) == Ok(y) && !Related(f, x, y)
    ensures Eval(Macros.Call(f, [a, b] + rest), sc, top, fuel) == Ok(Boolean(false))
  {
    var args := [a, b] + rest;
    ComparisonCall(f, args, sc, top, fuel);
    assert args[0] == a && args[1] == b;
  }

  /** `<` on numbers is the order of the reals, and no value is below itself. */
  lemma LessMeaning(a: real, b: real, v: Value)
    ensures Related("<", Number(a), Number(b)) <==> a < b
    ensures Related(">", Number(a), Number(b)) <==> a > b
    ensures !Related("<", v, v) && !Related(">", v, v) && Related("=", v, v)
  {
    if v.Text? {
      StringLessIrreflexive(v.s);
    }
  }

  lemma {:induction false} StringLessIrreflexive(s: string)
    ensures !StringLess(s, s)
    decreases |s|
  {
    if s != [] {
      StringLessIrreflexive(s[1..]);
    }
  }

  // ---------------------------------------------------------------------------------------
  // Predicates

  lemma PredicateCall(f: string, args: seq<SExpr>, sc: Scope, top: Table, fuel: nat)
    requires fuel > 0 && IsTypePredicate(f)
    ensures Eval(Macros.Call(f, args), sc, top, fuel) == EvalPredicate(f, args, sc, top, fuel - 1)
  {
    CallStep(f, args, sc, top, fuel);
    NameClasses(f);
  }

  /** A predicate needs an argument and looks only at the first: `(f a rest...)` is `(f a)`. */
  lemma PredicateOfFirst(f: string, a: SExpr, rest: seq<SExpr>, sc: Scope, top: Table, fuel: nat)
    requires fuel > 0 && IsTypePredicate(f)
    ensures Eval(Macros.Call(f, []), sc, top, fuel) == Err(f + " requires 1 or more arguments")
    ensures Eval(Macros.Call(f, [a] + rest), sc, top, fuel) == Eval(Macros.Call(f, [a]), sc, top, fuel)
  {
    PredicateCall(f, [], sc, top, fuel);
    PredicateCall(f, [a] + rest, sc, top, fuel);
    PredicateCall(f, [a], sc, top, fuel);
    assert ([a] + rest)[0] == a;
  }

  /** What each predicate says about the value of its argument; `function?` holds for every
      object, `()` included. */
  lemma PredicateMeaning(f: string, a: SExpr, v: Value, sc: Scope, top: Table, fuel: nat)
    requires fuel > 0 && IsTypePredicate(f) && Eval(a, sc, top, fuel - 1) == Ok(v)
    ensures var r := Eval(Macros.Call(f, [a]), sc, top, fuel);
      && (f == "boolean?" ==> r == Ok(Boolean(v == Boolean(true) || v == Boolean(false))))
      && (f == "string?" ==> r == Ok(Boolean(exists s :: v == Text(s))))
      && (f == "number?" ==> r == Ok(Boolean(exists x :: v == Number(x))))
      && (f == "function?" ==> r == Ok(Boolean(v == EmptyList || exists ps, b, e, t :: v == Closure(ps, b, e, t))))
  {
    PredicateCall(f, [a], sc, top, fuel);
    if v.Text? {
      assert v == Text(v.s);
    }
    if v.Number? {
      assert v == Number(v.x);
    }
    if v.Closure? {
      assert v == Closure(v.params, v.body, v.env, v.bound);
    }
  }

  // ---------------------------------------------------------------------------------------
  // if, lambda, define and error

  lemma SpecialCall(f: string, args: seq<SExpr>, sc: Scope, top: Table, fuel: nat)
    requires fuel > 0 && f in {"local", "if", "lambda", "define", "error"}
    ensures var sl := [Ident(f)] + args;
      Eval(Macros.Call(f, args), sc, top, fuel) == Dispatch(Text(f), sl, sc, top, fuel - 1)
      && !IsArith(f) && !IsComparison(f) && !IsTypePredicate(f)
  {
    CallStep(f, args, sc, top, fuel);
  }

  /** `false`, `0`, `""` and `undefined` are the falsy values. */
  lemma TruthyMeaning(v: Value)
    ensures !Truthy(v) <==> v == Boolean(false) || v == Number(0.0) || v == Text("") || v == Undefined
  {
  }

  /** `if` needs exactly three arguments and evaluates the condition and then only the branch
      its truthiness chooses. */
  lemma IfChooses(c: SExpr, t: SExpr, e: SExpr, sc: Scope, top: Table, fuel: nat)
    requires fuel > 0
    ensures Eval(Macros.Call("if", [c, t, e]), sc, top, fuel) ==
      match Eval(c, sc, top, fuel - 1)
      case Ok(v) => Eval(if Truthy(v) then t else e, sc, top, fuel - 1)
      case Err(m) => Err(m)
      case OutOfFuel => OutOfFuel
  {
    SpecialCall("if", [c, t, e], sc, top, fuel);
    var args := ([Ident("if")] + [c, t, e])[1..];
    assert args[0] == c && args[1] == t && args[2] == e;
  }

  lemma IfArity(args: seq<SExpr>, sc: Scope, top: Table, fuel: nat)
    requires fuel > 0 && |args| != 3
    ensures Eval(Macros.Call("if", args), sc, top, fuel) == Err("if statement requires three arguments")
  {
    SpecialCall("if", args, sc, top, fuel);
  }

  /** `(lambda (x...) body)` is a closure over the environment it is evaluated in: the live
      top-level table at the top level, else the local environment; parameters must be names. */
  lemma LambdaMakesClosure(ps: seq<SExpr>, body: SExpr, sc: Scope, top: Table, fuel: nat)
    requires fuel > 0
    ensures var r := Eval(Macros.Call("lambda", [List(ps), body]), sc, top, fuel);
      && (r.Ok? <==> forall i :: 0 <= i < |ps| ==> ps[i].Ident?)
      && (!r.Ok? ==> r == Err("args for lambda must be s-expr of strings"))
      && (r.Ok? ==>
            && r.value.Closure? && r.value.body == body && r.value.bound == None
            && |r.value.params| == |ps| && (forall i :: 0 <= i < |ps| ==> r.value.params[i] == ps[i].name)
            && (r.value.env == if sc.TopLevel? then TopTable else Vars(sc.vars)))
  {
    SpecialCall("lambda", [List(ps), body], sc, top, fuel);
    var args := ([Ident("lambda")] + [List(ps), body])[1..];
    assert args[0] == List(ps) && args[1] == body;
  }

  /** A `define` anywhere but at the top level of the program is an error. */
  lemma NestedDefine(args: seq<SExpr>, sc: Scope, top: Table, fuel: nat)
    requires fuel > 0
    ensures Eval(Macros.Call("define", args), sc, top, fuel) == Err("found a definition that is not at the top level")
  {
    SpecialCall("define", args, sc, top, fuel);
  }

  /** `(error m)` throws the string `m` evaluates to, or the JSON rendering of another value. */
  lemma ErrorThrows(m: SExpr, sc: Scope, top: Table, fuel: nat)
    requires fuel > 0
    ensures var r := Eval(Macros.Call("error", [m]), sc, top, fuel); var v := Eval(m, sc, top, fuel - 1);
      && !r.Ok?
      && (v.Ok? && v.value.Text? ==> r == Err(v.value.s))
      && (v.Ok? && !v.value.Text? ==> r == Err(JsonText(v.value)))
      && (!v.Ok? ==> r == v.PropagateFailure())
  {
    SpecialCall("error", [m], sc, top, fuel);
    assert ([Ident("error")] + [m])[1..] == [m];
  }

  /** A name that is unbound, or bound to `undefined`, is an error. */
  lemma UndefinedVariable(x: string, sc: Scope, top: Table, fuel: nat)
    requires fuel > 0
    ensures var vars := VarsOf(sc, top);
      Eval(Ident(x), sc, top, fuel) == if x !in vars || vars[x] == Undefined then Err("undefined variable " + x) else Ok(vars[x])
  {
  }

  // ---------------------------------------------------------------------------------------
  // The head position

  /** A name that is no operator or special form is looked up: a closure is applied, `()` is
      an error, and only a name bound to no object is tried as a macro. */
  lemma NamedHead(f: string, sl: seq<SExpr>, sc: Scope, top: Table, fuel: nat)
    requires sl != [] && !IsSpecialName(f)
    ensures var vars := VarsOf(sc, top);
      var fv := if f in vars then vars[f] else Undefined;
      Dispatch(Text(f), sl, sc, top, fuel) ==
        if !IsObject(fv) then
          if Macros.IsMacro(f) then
            var x := Macros.ExpandMacro(f, sl);
            if x.Ok? then Eval(x.value, sc, top, fuel) else x.PropagateFailure()
          else Err("function '" + f + "' not defined")
        else if fv.EmptyList? then Err("unexpected '()")
        else ApplyFunction(fv, sl[1..], sc, top, fuel)
  {
  }

  lemma NamedCall(f: string, args: seq<SExpr>, sc: Scope, top: Table, fuel: nat)
    requires fuel > 0 && !IsSpecialName(f)
    ensures var vars := VarsOf(sc, top);
      var fv := if f in vars then vars[f] else Undefined;
      var sl := [Ident(f)] + args;
      Eval(Macros.Call(f, args), sc, top, fuel) ==
        if !IsObject(fv) then
          if Macros.IsMacro(f) then
            var x := Macros.ExpandMacro(f, sl);
            if x.Ok? then Eval(x.value, sc, top, fuel - 1) else x.PropagateFailure()
          else Err("function '" + f + "' not defined")
        else if fv.EmptyList? then Err("unexpected '()")
        else ApplyFunction(fv, args, sc, top, fuel - 1)
  {
    CallStep(f, args, sc, top, fuel);
    NamedHead(f, [Ident(f)] + args, sc, top, fuel - 1);
  }

  /** A name with no binding to an object that is not in the macro table is not a function. */
  lemma UnboundHead(f: string, args: seq<SExpr>, sc: Scope, top: Table, fuel: nat)
    requires fuel > 0 && !IsSpecialName(f) && !Macros.IsMacro(f)
    requires var vars := VarsOf(sc, top); f !in vars || !IsObject(vars[f])
    ensures Eval(Macros.Call(f, args), sc, top, fuel) == Err("function '" + f + "' not defined")
  {
    NamedCall(f, args, sc, top, fuel);
  }

  /** A macro name bound to no object is evaluated as its expansion. */
  lemma MacroWhenUnbound(f: string, args: seq<SExpr>, e: SExpr, sc: Scope, top: Table, fuel: nat)
    requires fuel > 0 && Macros.IsMacro(f) && Macros.ExpandMacro(f, [Ident(f)] + args) == Ok(e)
    requires var vars := VarsOf(sc, top); f !in vars || !IsObject(vars[f])
    ensures Eval(Macros.Call(f, args), sc, top, fuel) == Eval(e, sc, top, fuel - 1)
  {
    NameClasses(f);
    NamedCall(f, args, sc, top, fuel);
  }

  /** `(not x)` expands to `(false? x)`, a predicate the evaluator does not provide: unless the
      program binds `false?` itself, `not` (and so the guards `and` and `or` build) is an error. */
  lemma NotNeedsFalsePredicate(a: SExpr, sc: Scope, top: Table, fuel: nat)
    requires fuel > 1
    requires var vars := VarsOf(sc, top);
      && ("not" !in vars || !IsObject(vars["not"]))
      && ("false?" !in vars || !IsObject(vars["false?"]))
    ensures Eval(Macros.Call("not", [a]), sc, top, fuel) == Err("function 'false?' not defined")
  {
    NotExpands(a);
    MacroWhenUnbound("not", [a], Macros.Call("false?", [a]), sc, top, fuel);
    FalsePredicateUnbound(a, sc, top, fuel - 1);
  }

  lemma NotExpands(a: SExpr)
    ensures Macros.IsMacro("not") && Macros.ExpandMacro("not", [Ident("not")] + [a]) == Ok(Macros.Call("false?", [a]))
  {
    var sl := [Ident("not")] + [a];
    assert |sl| == 2 && sl[0] == Ident("not") && sl[1] == a;
  }

  lemma FalsePredicateUnbound(a: SExpr, sc: Scope, top: Table, fuel: nat)
    requires fuel > 0
    requires var vars := VarsOf(sc, top); "false?" !in vars || !IsObject(vars["false?"])
    ensures Eval(Macros.Call("false?", [a]), sc, top, fuel) == Err("function 'false?' not defined")
  {
    FalseIsPlainName();
    UnboundHead("false?", [a], sc, top, fuel);
    FalseMessage();
  }

  /** The message UnboundHead gives for `false?`, as one literal: used by FalsePredicateUnbound. */
  lemma FalseMessage()
    ensures "function '" + "false?" + "' not defined" == "function 'false?' not defined"
  {
  }

  /** `false?` is no operator, special form or macro, so FalsePredicateUnbound may use
      UnboundHead. */
  lemma FalseIsPlainName()
    ensures !IsSpecialName("false?") && !Macros.IsMacro("false?")
  {
    assert "false?"[1] == 'a';
    assert "false?" != "function?" by { assert "function?"[1] == 'u'; }
  }

  // ---------------------------------------------------------------------------------------
  // The macros, evaluated (each with its name bound to no object)

  /** `(let (x v) body)` evaluates `body` in a local environment cloned from the current one
      with `x` bound to the value of `v`. */
  lemma LetEvaluates(x: string, v: SExpr, body: SExpr, sc: Scope, top: Table, fuel: nat)
    requires fuel > 1
    requires var vars := VarsOf(sc, top); "let" !in vars || !IsObject(vars["let"])
    ensures Eval(Macros.Call("let", [List([Ident(x), v]), body]), sc, top, fuel) ==
      match Eval(v, sc, top, fuel - 2)
      case Ok(w) => Eval(body, Frame(Clone(VarsOf(sc, top), top)[x := w]), top, fuel - 2)
      case Err(m) => Err(m)
      case OutOfFuel => OutOfFuel
  {
    var d := Macros.Call("define", [Ident(x), v]);
    Macros.LetExpands(x, v, body);
    MacroWhenUnbound("let", [List([Ident(x), v]), body], Macros.Call("local", [List([d]), body]), sc, top, fuel);
    LocalEvaluates([d], body, [], sc, top, fuel - 1);
    assert [List([d]), body] + [] == [List([d]), body];
    DefineBinds(x, v, [], sc, top, fuel - 2);
    assert [Ident(x), v] + [] == [Ident(x), v];
  }

  /** `(strictIf c t e)` is `(if c t e)` when `c` gives a boolean and an error otherwise; `c` is
      evaluated twice, once for the check and once for the choice. */
  lemma StrictIfEvaluates(c: SExpr, t: SExpr, e: SExpr, sc: Scope, top: Table, fuel: nat)
    requires fuel > 3
    requires var vars := VarsOf(sc, top); "strictIf" !in vars || !IsObject(vars["strictIf"])
    ensures Eval(Macros.Call("strictIf", [c, t, e]), sc, top, fuel) ==
      match Eval(c, sc, top, fuel - 3)
      case Ok(v) =>
        if v.Boolean? then Eval(if v.b then t else e, sc, top, fuel - 3)
        else Err("expected a boolean for strictIf")
      case Err(m) => Err(m)
      case OutOfFuel => OutOfFuel
  {
    var msg := StrLit("expected a boolean for strictIf");
    var check := Macros.Call("boolean?", [c]);
    var inner := Macros.Call("if", [c, t, e]);
    var x := Macros.Call("if", [check, inner, Macros.Call("error", [msg])]);
    var sl := [Ident("strictIf")] + [c, t, e];
    assert sl[1] == c && sl[2] == t && sl[3] == e;
    MacroWhenUnbound("strictIf", [c, t, e], x, sc, top, fuel);
    IfChooses(check, inner, Macros.Call("error", [msg]), sc, top, fuel - 1);
    PredicateCall("boolean?", [c], sc, top, fuel - 2);
    match Eval(c, sc, top, fuel - 3)
    case Ok(v) =>
      PredicateMeaning("boolean?", c, v, sc, top, fuel - 2);
      if v.Boolean? {
        IfChooses(c, t, e, sc, top, fuel - 2);
      } else {
        ErrorThrows(msg, sc, top, fuel - 2);
      }
    case Err(_) =>
    case OutOfFuel =>
  }

  /** `(cond [q a ...] clause ...)` evaluates `a` when `q` is truthy and otherwise the `cond` of
      the remaining clauses. */
  lemma CondEvaluates(q: SExpr, a: SExpr, more: seq<SExpr>, clauses: seq<SExpr>, sc: Scope, top: Table, fuel: nat)
    requires fuel > 1
    requires var vars := VarsOf(sc, top); "cond" !in vars || !IsObject(vars["cond"])
    ensures Eval(Macros.Call("cond", [List([q, a] + more)] + clauses), sc, top, fuel) ==
      match Eval(q, sc, top, fuel - 2)
      case Ok(v) => Eval(if Truthy(v) then a else Macros.Call("cond", clauses), sc, top, fuel - 2)
      case Err(m) => Err(m)
      case OutOfFuel => OutOfFuel
  {
    var first := List([q, a] + more);
    var sl := [Ident("cond")] + ([first] + clauses);
    assert sl[1] == first && sl[2..] == clauses;
    assert first.elems[0] == q && first.elems[1] == a;
    var x := Macros.Call("if", [q, a, Macros.Call("cond", clauses)]);
    MacroWhenUnbound("cond", [first] + clauses, x, sc, top, fuel);
    IfChooses(q, a, Macros.Call("cond", clauses), sc, top, fuel - 1);
  }

  /** When no clause's question is truthy the chain reaches `(cond)`, which is an error. */
  lemma CondWithoutClauses(sc: Scope, top: Table, fuel: nat)
    requires fuel > 0
    requires var vars := VarsOf(sc, top); "cond" !in vars || !IsObject(vars["cond"])
    ensures Eval(Macros.Call("cond", []), sc, top, fuel) == Err("invalid conditional case")
  {
    NameClasses("cond");
    NamedCall("cond", [], sc, top, fuel);
    assert [Ident("cond")] + [] == [Ident("cond")];
  }

  /** `(and)` is true, `(or)` is false and `(and a)` is `a`: none of them reaches `not`. */
  lemma ShortAndOr(a: SExpr, sc: Scope, top: Table, fuel: nat)
    requires fuel > 1
    requires var vars := VarsOf(sc, top);
      && ("and" !in vars || !IsObject(vars["and"]))
      && ("or" !in vars || !IsObject(vars["or"]))
    ensures Eval(Macros.Call("and", []), sc, top, fuel) == Ok(Boolean(true))
    ensures Eval(Macros.Call("or", []), sc, top, fuel) == Ok(Boolean(false))
    ensures Eval(Macros.Call("and", [a]), sc, top, fuel) == Eval(a, sc, top, fuel - 1)
  {
    assert ([Ident("and")] + [a])[1] == a;
    MacroWhenUnbound("and", [], Bool(true), sc, top, fuel);
    MacroWhenUnbound("or", [], Bool(false), sc, top, fuel);
    MacroWhenUnbound("and", [a], a, sc, top, fuel);
  }

  /** Every `and` of two or more arguments guards its first with `not` and so, unless the
      program binds `false?` itself, is an error. */
  lemma AndNeedsFalsePredicate(args: seq<SExpr>, sc: Scope, top: Table, fuel: nat)
    requires |args| >= 2 && fuel > 3
    requires var vars := VarsOf(sc, top);
      && ("and" !in vars || !IsObject(vars["and"]))
      && ("not" !in vars || !IsObject(vars["not"]))
      && ("false?" !in vars || !IsObject(vars["false?"]))
    ensures Eval(Macros.Call("and", args), sc, top, fuel) == Err("function 'false?' not defined")
  {
    var t := if |args| == 2 then args[1] else Macros.Call("and", args[1..]);
    Macros.AndExpands(args);
    MacroWhenUnbound("and", args, Macros.Call("if", [Macros.NotFalse(args[0]), t, Bool(false)]), sc, top, fuel);
    IfChooses(Macros.NotFalse(args[0]), t, Bool(false), sc, top, fuel - 1);
    NotNeedsFalsePredicate(Macros.Call("false?", [args[0]]), sc, top, fuel - 2);
  }

  /** Every `or` of one or more arguments guards its first with `not` and so, unless the
      program binds `false?` itself, is an error. */
  lemma OrNeedsFalsePredicate(a: SExpr, rest: seq<SExpr>, sc: Scope, top: Table, fuel: nat)
    requires fuel > 3
    requires var vars := VarsOf(sc, top);
      && ("or" !in vars || !IsObject(vars["or"]))
      && ("not" !in vars || !IsObject(vars["not"]))
      && ("false?" !in vars || !IsObject(vars["false?"]))
    ensures Eval(Macros.Call("or", [a] + rest), sc, top, fuel) == Err("function 'false?' not defined")
  {
    var sl := [Ident("or")] + ([a] + rest);
    assert sl[1] == a && sl[2..] == rest;
    var x := Macros.Call("if", [Macros.NotFalse(a), a, Macros.Call("or", rest)]);
    MacroWhenUnbound("or", [a] + rest, x, sc, top, fuel);
    IfChooses(Macros.NotFalse(a), a, Macros.Call("or", rest), sc, top, fuel - 1);
    NotNeedsFalsePredicate(Macros.Call("false?", [a]), sc, top, fuel - 2);
  }

  /** A closure binding shadows a macro of the same name, and any other name. */
  lemma BindingShadowsMacro(f: string, args: seq<SExpr>, sc: Scope, top: Table, fuel: nat)
    requires fuel > 0 && !IsSpecialName(f)
    requires var vars := VarsOf(sc, top); f in vars && vars[f].Closure?
    ensures Eval(Macros.Call(f, args), sc, top, fuel) == ApplyFunction(VarsOf(sc, top)[f], args, sc, top, fuel - 1)
  {
    NamedCall(f, args, sc, top, fuel);
  }

  /** A head that is not a name is evaluated first. */
  lemma EvaluatedHead(h: SExpr, args: seq<SExpr>, sc: Scope, top: Table, fuel: nat)
    requires fuel > 0 && !h.Ident?
    ensures var sl := [h] + args;
      Eval(List(sl), sc, top, fuel) ==
        match Eval(h, sc, top, fuel - 1)
        case Ok(f) => Dispatch(f, sl, sc, top, fuel - 1)
        case Err(m) => Err(m)
        case OutOfFuel => OutOfFuel
  {
    assert ([h] + args)[0] == h;
  }

  /** A boolean in head position is an error. */
  lemma BooleanHead(b: bool, args: seq<SExpr>, sc: Scope, top: Table, fuel: nat)
    requires fuel > 1
    ensures Eval(List([Bool(b)] + args), sc, top, fuel) == Err("boolean found instead of function at beginning of S-expr")
  {
    EvaluatedHead(Bool(b), args, sc, top, fuel);
  }

  /** `()` in head position is an error. */
  lemma EmptyListHead(args: seq<SExpr>, sc: Scope, top: Table, fuel: nat)
    requires fuel > 2
    ensures Eval(List([List([])] + args), sc, top, fuel) == Err("unexpected '()")
  {
    EvaluatedHead(List([]), args, sc, top, fuel);
    assert Eval(List([]), sc, top, fuel - 1) == Ok(EmptyList);
  }

  /** A head that evaluates to a closure applies it. */
  lemma ClosureHead(h: SExpr, args: seq<SExpr>, l: Value, sc: Scope, top: Table, fuel: nat)
    requires fuel > 0 && !h.Ident? && l.Closure? && Eval(h, sc, top, fuel - 1) == Ok(l)
    ensures Eval(List([h] + args), sc, top, fuel) == ApplyFunction(l, args, sc, top, fuel - 1)
  {
    EvaluatedHead(h, args, sc, top, fuel);
    assert ([h] + args)[1..] == args;
  }

  // ---------------------------------------------------------------------------------------
  // Applying a closure

  /** The closure's own environment overrides the parameters, which override the caller's
      environment. */
  lemma CallEnvOverrides(l: Value, params: Table, sc: Scope, top: Table)
    requires l.Closure?
    ensures var env := CallEnv(l, params, sc, top); var caller := VarsOf(sc, top); var own := CapturedEnv(l, top);
      && env.Keys == caller.Keys + params.Keys + own.Keys
      && (forall k :: k in own ==> env[k] == own[k])
      && (forall k :: k in params && k !in own ==> env[k] == params[k])
      && (forall k :: k in caller && k !in params && k !in own ==> env[k] == Bind(caller[k], top))
  {
  }

  /** Parameter `i` is the last with its name. */
  predicate LastOccurrence(ps: seq<string>, i: nat)
    requires i < |ps|
  {
    forall j :: i < j < |ps| ==> ps[j] != ps[i]
  }

  /** `p` binds every name of `ps`, and nothing else, to the value beside its last occurrence. */
  predicate Binds(p: Table, ps: seq<string>, vs: seq<Value>)
  {
    && |vs| == |ps|
    && p.Keys == (set i | 0 <= i < |ps| :: ps[i])
    && forall i :: 0 <= i < |ps| && LastOccurrence(ps, i) ==> p[ps[i]] == vs[i]
  }

  lemma BindsSnoc(p: Table, ps: seq<string>, vs: seq<Value>, x: string, w: Value)
    requires Binds(p, ps, vs)
    ensures Binds(p[x := w], ps + [x], vs + [w])
  {
    var ps', vs' := ps + [x], vs + [w];
    assert forall i :: 0 <= i < |ps| ==> ps'[i] == ps[i] && vs'[i] == vs[i];
    assert (set i | 0 <= i < |ps'| :: ps'[i]) == (set i | 0 <= i < |ps| :: ps[i]) + {x} by {
      assert ps'[|ps|] == x;
    }
    forall i | 0 <= i < |ps| && LastOccurrence(ps', i)
      ensures p[x := w][ps'[i]] == vs'[i]
    {
      assert ps'[|ps|] != ps'[i];
      assert LastOccurrence(ps, i);
    }
  }

  /** A sequence is its front and its last element: ParamsEnvValues splits the parameters and
      the values this way. */
  lemma Snoc<T>(s: seq<T>)
    requires s != []
    ensures s[..|s| - 1] + [s[|s| - 1]] == s
  {
  }

  /** When every argument evaluates, each parameter is bound, and a name given twice takes the
      later argument. */
  lemma {:induction false} ParamsEnvValues(ps: seq<string>, args: seq<SExpr>, vs: seq<Value>, sc: Scope, top: Table, fuel: nat)
    requires |vs| == |ps| && forall i :: 0 <= i < |ps| ==> Eval(At(args, i), sc, top, fuel) == Ok(vs[i])
    ensures var r := ParamsEnv(ps, args, sc, top, fuel);
      r.Ok? && Binds(r.value, ps, vs)
    decreases |ps|
  {
    if ps != [] {
      var n := |ps|;
      ParamsEnvValues(ps[..n - 1], args, vs[..n - 1], sc, top, fuel);
      BindsSnoc(ParamsEnv(ps[..n - 1], args, sc, top, fuel).value, ps[..n - 1], vs[..n - 1], ps[n - 1], vs[n - 1]);
      Snoc(ps);
      Snoc(vs);
    }
  }

  /** The first argument that fails, in parameter order, decides the call. */
  lemma {:induction false} ParamsFailure(ps: seq<string>, args: seq<SExpr>, vs: seq<Value>, j: nat, sc: Scope, top: Table, fuel: nat)
    requires j < |ps| && |vs| == j && forall i :: 0 <= i < j ==> Eval(At(args, i), sc, top, fuel) == Ok(vs[i])
    requires !Eval(At(args, j), sc, top, fuel).Ok?
    ensures ParamsEnv(ps, args, sc, top, fuel) == Eval(At(args, j), sc, top, fuel).PropagateFailure()
    decreases |ps|
  {
    var n := |ps|;
    if n - 1 == j {
      ParamsEnvValues(ps[..j], args, vs, sc, top, fuel);
    } else {
      ParamsFailure(ps[..n - 1], args, vs, j, sc, top, fuel);
    }
  }

  /** Only the first arguments, one per parameter, are evaluated. */
  lemma {:induction false} ParamsSeeOnlyTheirArguments(ps: seq<string>, args: seq<SExpr>, args': seq<SExpr>, sc: Scope, top: Table, fuel: nat)
    requires forall i :: 0 <= i < |ps| ==> At(args, i) == At(args', i)
    ensures ParamsEnv(ps, args, sc, top, fuel) == ParamsEnv(ps, args', sc, top, fuel)
    decreases |ps|
  {
    if ps != [] {
      ParamsSeeOnlyTheirArguments(ps[..|ps| - 1], args, args', sc, top, fuel);
    }
  }

  /** When its arguments evaluate, a closure runs its body with the parameters bound to them. */
  lemma ClosureApplication(l: Value, args: seq<SExpr>, vs: seq<Value>, sc: Scope, top: Table, fuel: nat)
    requires l.Closure? && |vs| == |l.params|
    requires forall i :: 0 <= i < |l.params| ==> Eval(At(args, i), sc, top, fuel) == Ok(vs[i])
    ensures var p := ParamsEnv(l.params, args, sc, top, fuel);
      && p.Ok? && Binds(p.value, l.params, vs)
      && ApplyFunction(l, args, sc, top, fuel) == Eval(l.body, Frame(CallEnv(l, p.value, sc, top)), top, fuel)
  {
    ParamsEnvValues(l.params, args, vs, sc, top, fuel);
  }

  /** Extra arguments are ignored. */
  lemma ExtraArgumentsIgnored(l: Value, args: seq<SExpr>, sc: Scope, top: Table, fuel: nat)
    requires l.Closure? && |args| >= |l.params|
    ensures ApplyFunction(l, args, sc, top, fuel) == ApplyFunction(l, args[..|l.params|], sc, top, fuel)
  {
    ParamsSeeOnlyTheirArguments(l.params, args, args[..|l.params|], sc, top, fuel);
  }

  /** A missing argument is `undefined`, which ends in an undefined-variable error unless the
      caller binds the name `undefined`. */
  lemma MissingArgument(l: Value, args: seq<SExpr>, vs: seq<Value>, sc: Scope, top: Table, fuel: nat)
    requires l.Closure? && fuel > 0 && |args| < |l.params| && |vs| == |args|
    requires forall i :: 0 <= i < |args| ==> Eval(args[i], sc, top, fuel) == Ok(vs[i])
    requires var vars := VarsOf(sc, top); "undefined" !in vars || vars["undefined"] == Undefined
    ensures ApplyFunction(l, args, sc, top, fuel) == Err("undefined variable undefined")
  {
    var j := |args|;
    assert forall i :: 0 <= i < j ==> At(args, i) == args[i];
    assert At(args, j) == Ident("undefined");
    ParamsFailure(l.params, args, vs, j, sc, top, fuel);
  }

  // ---------------------------------------------------------------------------------------
  // local

  /** `local` folds its defines over the environment and evaluates the body in the result;
      anything after the body is ignored. */
  lemma LocalEvaluates(defs: seq<SExpr>, body: SExpr, rest: seq<SExpr>, sc: Scope, top: Table, fuel: nat)
    requires fuel > 0
    ensures Eval(Macros.Call("local", [List(defs), body] + rest), sc, top, fuel) ==
      match LocalDefines(defs, sc, top, fuel - 1)
      case Ok(sc') => Eval(body, sc', top, fuel - 1)
      case Err(m) => Err(m)
      case OutOfFuel => OutOfFuel
  {
    var args := [List(defs), body] + rest;
    SpecialCall("local", args, sc, top, fuel);
    assert ([Ident("local")] + args)[1..] == args;
    assert args[0] == List(defs) && args[1] == body;
  }

  /** The defines section must be a list, and the body must be there. */
  lemma LocalErrors(args: seq<SExpr>, defs: seq<SExpr>, sc: Scope, top: Table, fuel: nat)
    requires fuel > 0
    ensures !At(args, 0).List? ==>
      Eval(Macros.Call("local", args), sc, top, fuel) == Err("defines section of local statement must be list of defiine statemens")
    ensures Eval(Macros.Call("local", [List(defs)]), sc, top, fuel) == Err("body of local statement missing")
  {
    SpecialCall("local", args, sc, top, fuel);
    SpecialCall("local", [List(defs)], sc, top, fuel);
    assert ([Ident("local")] + args)[1..] == args;
    assert ([Ident("local")] + [List(defs)])[1..] == [List(defs)];
  }

  /** The defines are folded left to right: each one is handled in the environment the
      earlier ones built. */
  lemma {:induction false} LocalDefinesSnoc(defs: seq<SExpr>, d: SExpr, sc: Scope, top: Table, fuel: nat)
    ensures LocalDefines(defs + [d], sc, top, fuel) ==
      match LocalDefines(defs, sc, top, fuel)
      case Ok(sc') =>
        (match HandleDefine(d, sc', top, fuel)
         case Ok(vars) => Ok(Frame(vars))
         case Err(m) => Err(m)
         case OutOfFuel => OutOfFuel)
      case Err(m) => Err(m)
      case OutOfFuel => OutOfFuel
    decreases |defs|
  {
    if defs == [] {
      assert [] + [d] == [d];
      assert [d][1..] == [];
    } else {
      assert (defs + [d])[0] == defs[0] && (defs + [d])[1..] == defs[1..] + [d];
      match HandleDefine(defs[0], sc, top, fuel)
      case Ok(vars) => LocalDefinesSnoc(defs[1..], d, Frame(vars), top, fuel);
      case Err(_) =>
      case OutOfFuel =>
    }
  }

  /** With no defines, `local` evaluates its body in the very environment it is in (at the top
      level, the live table). */
  lemma EmptyLocal(body: SExpr, sc: Scope, top: Table, fuel: nat)
    requires fuel > 0
    ensures Eval(Macros.Call("local", [List([]), body]), sc, top, fuel) == Eval(body, sc, top, fuel - 1)
  {
    LocalEvaluates([], body, [], sc, top, fuel);
    assert [List([]), body] + [] == [List([]), body];
  }

  // ---------------------------------------------------------------------------------------
  // define

  /** `(define x v)` clones the environment and binds `x` to the value of `v`. */
  lemma DefineBinds(x: string, v: SExpr, rest: seq<SExpr>, sc: Scope, top: Table, fuel: nat)
    ensures HandleDefine(Macros.Call("define", [Ident(x), v] + rest), sc, top, fuel) ==
      match Eval(v, sc, top, fuel)
      case Ok(w) => Ok(Clone(VarsOf(sc, top), top)[x := w])
      case Err(m) => Err(m)
      case OutOfFuel => OutOfFuel
  {
    var elems := [Ident("define")] + ([Ident(x), v] + rest);
    assert elems[0] == Ident("define") && elems[1] == Ident(x) && elems[2] == v;
  }

  /** A clone has the same names and values; an unbound closure is bound to the table as it is
      now, and nothing else changes. */
  lemma CloneMeaning(vars: Table, top: Table)
    ensures var c := Clone(vars, top);
      && c.Keys == vars.Keys
      && (forall k :: k in vars && !vars[k].Closure? ==> c[k] == vars[k])
      && (forall k :: k in vars && vars[k].Closure? ==>
            && c[k].Closure? && c[k].params == vars[k].params && c[k].body == vars[k].body
            && c[k].env == vars[k].env
            && c[k].bound == if vars[k].bound.None? then Some(top) else vars[k].bound)
  {
  }

  /** Binding is done once: a closure that already has a table keeps it. */
  lemma BindTwice(v: Value, t1: Table, t2: Table)
    ensures Bind(Bind(v, t1), t2) == Bind(v, t1)
  {
  }

  /** So cloning an environment a second time changes nothing. */
  lemma BindAllTwice(m: Table, t1: Table, t2: Table)
    ensures BindAll(BindAll(m, t1), t2) == BindAll(m, t1)
  {
    var once := BindAll(m, t1);
    forall k | k in once
      ensures BindAll(once, t2)[k] == once[k]
    {
      BindTwice(m[k], t1, t2);
    }
  }

  /** `(define (f x...) body)` is `(define f (lambda (x...) body))`. */
  lemma FunctionShorthand(f: string, ps: seq<SExpr>, body: SExpr, sc: Scope, top: Table, fuel: nat)
    requires forall i :: 0 <= i < |ps| ==> ps[i].Ident?
    ensures HandleDefine(Macros.Call("define", [List([Ident(f)] + ps), body]), sc, top, fuel) ==
            HandleDefine(Macros.Call("define", [Ident(f), Macros.Call("lambda", [List(ps), body])]), sc, top, fuel)
  {
    var header := [Ident(f)] + ps;
    var elems := [Ident("define")] + [List(header), body];
    assert elems[1] == List(header) && elems[2] == body;
    assert header[1..] == ps;
    assert forall i :: 1 <= i < |header| ==> header[i] == ps[i - 1];
    assert Macros.FunMacro(elems) == Ok(Macros.Call("define", [Ident(f), Macros.Call("lambda", [List(ps), body])]));
  }

  /** Only a list headed by `define` is a define statement. */
  lemma NotADefine(s: SExpr, sc: Scope, top: Table, fuel: nat)
    requires !s.List? || At(s.elems, 0) != Ident("define")
    ensures HandleDefine(s, sc, top, fuel) == Err("expected define statement")
  {
  }

  /** A define needs a value. */
  lemma DefineWithoutValue(s: SExpr, sc: Scope, top: Table, fuel: nat)
    requires s.List? && At(s.elems, 0) == Ident("define") && |s.elems| < 3
    ensures HandleDefine(s, sc, top, fuel) == Err("value for variable definition required")
  {
  }

  /** The name of a define is a string or a function header. */
  lemma DefineNameNotString(s: SExpr, sc: Scope, top: Table, fuel: nat)
    requires s.List? && At(s.elems, 0) == Ident("define") && |s.elems| >= 3
    requires !s.elems[1].List? && !s.elems[1].Ident?
    ensures HandleDefine(s, sc, top, fuel) == Err("variable name for define statement must be a string")
  {
  }

  // ---------------------------------------------------------------------------------------
  // The program

  lemma RunAppend(sp: seq<SExpr>, s: SExpr, fuel: nat)
    ensures var r := Run(sp, fuel);
      Run(sp + [s], fuel) == if r.Ok? then Step(r.value, s, fuel) else r.PropagateFailure()
  {
    assert (sp + [s])[..|sp|] == sp;
  }

  /** A top-level define updates the table and emits nothing. */
  lemma TopDefineEmitsNothing(sp: seq<SExpr>, s: SExpr, fuel: nat)
    requires IsTopDefine(s) && Run(sp, fuel).Ok?
    ensures var st := Run(sp, fuel).value;
      var t := HandleDefine(s, TopLevel, st.table, fuel);
      Run(sp + [s], fuel) == if t.Ok? then Ok(State(st.out, t.value)) else t.PropagateFailure()
  {
    RunAppend(sp, s, fuel);
  }

  /** Any other form appends its value, evaluated in the current table. */
  lemma FormValueAppended(sp: seq<SExpr>, s: SExpr, fuel: nat)
    requires !IsTopDefine(s) && Run(sp, fuel).Ok?
    ensures var st := Run(sp, fuel).value;
      var v := Eval(s, TopLevel, st.table, fuel);
      Run(sp + [s], fuel) == if v.Ok? then Ok(State(st.out + [v.value], st.table)) else v.PropagateFailure()
  {
    RunAppend(sp, s, fuel);
  }

  /** The number of forms that are not top-level defines. */
  function ValueForms(sp: seq<SExpr>): nat
  {
    if sp == [] then 0 else (if IsTopDefine(sp[0]) then 0 else 1) + ValueForms(sp[1..])
  }

  lemma {:induction false} ValueFormsSnoc(sp: seq<SExpr>, s: SExpr)
    ensures ValueForms(sp + [s]) == ValueForms(sp) + (if IsTopDefine(s) then 0 else 1)
    decreases |sp|
  {
    if sp == [] {
      assert [] + [s] == [s];
      assert [s][1..] == [];
    } else {
      assert (sp + [s])[0] == sp[0] && (sp + [s])[1..] == sp[1..] + [s];
      ValueFormsSnoc(sp[1..], s);
    }
  }

  /** A program that runs emits one value per form that is not a top-level define. */
  lemma {:induction false} OutputCount(sp: seq<SExpr>, fuel: nat)
    requires Run(sp, fuel).Ok?
    ensures |Run(sp, fuel).value.out| == ValueForms(sp)
    decreases |sp|
  {
    if sp != [] {
      var n := |sp|;
      assert sp[..n - 1] + [sp[n - 1]] == sp;
      RunAppend(sp[..n - 1], sp[n - 1], fuel);
      OutputCount(sp[..n - 1], fuel);
      ValueFormsSnoc(sp[..n - 1], sp[n - 1]);
    }
  }

  /** A top-level `(define x v)` makes `x` readable by the next form. */
  lemma DefinedNameReadable(st: State, x: string, v: SExpr, w: Value, fuel: nat)
    requires fuel > 0 && Eval(v, TopLevel, st.table, fuel) == Ok(w) && w != Undefined
    ensures var d := Macros.Call("define", [Ident(x), v]);
      && Step(st, d, fuel).Ok?
      && Step(Step(st, d, fuel).value, Ident(x), fuel) == Ok(State(st.out + [w], Step(st, d, fuel).value.table))
  {
    var d := Macros.Call("define", [Ident(x), v]);
    DefineBinds(x, v, [], TopLevel, st.table, fuel);
    assert [Ident(x), v] + [] == [Ident(x), v];
    assert IsTopDefine(d);
  }
}
