/** The macro table (src/language/macros.ts): rewrite rules from an S-expression list, whose head
    is the macro's name, to a new S-expression in the core forms. */
module Macros {
  import opened Common
  import opened Ast

  /** The names the table holds. */
  predicate IsMacro(name: string)
  {
    name in {"let", "strictIf", "cond", "list", "and", "not", "or"}
  }

  /** `macros[name](sl)`. */
  function ExpandMacro(name: string, sl: seq<SExpr>): Result<SExpr>
    requires IsMacro(name)
  {
    match name
    case "let" => LetMacro(sl)
    case "strictIf" => StrictIfMacro(sl)
    case "cond" => CondMacro(sl)
    case "list" => ListMacro(sl)
    case "and" => AndMacro(sl)
    case "not" => NotMacro(sl)
    case _ => OrMacro(sl)
  }

  function Call(name: string, args: seq<SExpr>): SExpr
  {
    List([Ident(name)] + args)
  }

  /** A binding list such as `(x 3)`: a list whose first element is a name. */
  predicate IsBinding(e: SExpr)
  {
    e.List? && |e.elems| > 0 && e.elems[0].Ident?
  }

  /** `(let (name value) body)` becomes `(local ((define name value)) body)`. A binding without a
      value yields a `define` without one (the source's `undefined` element); anything after the
      value, and anything after the body, is dropped. */
  function LetMacro(sl: seq<SExpr>): (r: Result<SExpr>)
    ensures r.Ok? <==> |sl| >= 3 && sl[0] == Ident("let") && IsBinding(sl[1])
    ensures r.Ok? ==>
      var binding := sl[1].elems;
      var valueIfAny := if |binding| >= 2 then [binding[1]] else [];
      r.value == Call("local", [List([Call("define", [binding[0]] + valueIfAny)]), sl[2]])
    ensures |sl| > 0 && sl[0] == Ident("let") && !IsBinding(At(sl, 1)) ==> r == Err("invalid let syntax")
    ensures |sl| == 2 && sl[0] == Ident("let") && IsBinding(sl[1]) ==> r == Err("body missing in let statement")
  {
    if |sl| == 0 || sl[0] != Ident("let") then Err("invalid macro")
    else if !IsBinding(At(sl, 1)) then Err("invalid let syntax")
    else if |sl| < 3 then Err("body missing in let statement")
    else
      var binding := sl[1].elems;
      var valueIfAny := if |binding| >= 2 then [binding[1]] else [];
      Ok(Call("local", [List([Call("define", [binding[0]] + valueIfAny)]), sl[2]]))
  }

  /** Function shorthand: `(define (f a ...) body)` becomes `(define f (lambda (a ...) body))`;
      the function name and every parameter must be names and the body must be present. */
  function FunMacro(sl: seq<SExpr>): (r: Result<SExpr>)
    ensures r.Ok? <==>
      |sl| >= 3 && sl[0] == Ident("define") && IsBinding(sl[1])
      && (forall i :: 1 <= i < |sl[1].elems| ==> sl[1].elems[i].Ident?)
    ensures r.Ok? ==>
      r.value == Call("define", [sl[1].elems[0], Call("lambda", [List(sl[1].elems[1..]), sl[2]])])
    ensures r.Ok? ==> r.value.List? && |r.value.elems| == 3 && r.value.elems[1].Ident?
  {
    if |sl| == 0 || sl[0] != Ident("define") then Err("invalid macro")
    else if !IsBinding(At(sl, 1)) then Err("invalid define function syntax")
    else if !(forall i :: 1 <= i < |sl[1].elems| ==> sl[1].elems[i].Ident?) then
      Err("every argument in define function syntax must be a symbol")
    else if |sl| < 3 then Err("body missing in function definition")
    else
      var header := sl[1].elems;
      Ok(Call("define", [header[0], Call("lambda", [List(header[1..]), sl[2]])]))
  }

  /** `(strictIf C T E)` becomes
      `(if (boolean? C) (if C T E) (error "expected a boolean for strictIf"))`; exactly three
      arguments are required. */
  function StrictIfMacro(sl: seq<SExpr>): (r: Result<SExpr>)
    ensures r.Ok? <==> |sl| == 4 && sl[0] == Ident("strictIf")
    ensures r.Ok? ==>
      r.value == Call("if", [Call("boolean?", [sl[1]]), Call("if", [sl[1], sl[2], sl[3]]),
                             Call("error", [StrLit("expected a boolean for strictIf")])])
  {
    if |sl| == 0 || sl[0] != Ident("strictIf") then Err("invalid macro")
    else if |sl| != 4 then Err("strictlyIf requires 3 arguments")
    else
      Ok(Call("if", [Call("boolean?", [sl[1]]), Call("if", [sl[1], sl[2], sl[3]]),
                     Call("error", [StrLit("expected a boolean for strictIf")])]))
  }

  /** A `cond` clause: a list of at least two elements, question first. */
  predicate IsClause(e: SExpr)
  {
    e.List? && |e.elems| >= 2
  }

  /** `(cond [q0 a0] clause ...)` becomes `(if q0 a0 (cond clause ...))`, whose nested `cond` has
      one clause fewer; a missing or malformed first clause, so also `(cond)`, is an error. */
  function CondMacro(sl: seq<SExpr>): (r: Result<SExpr>)
    ensures r.Ok? <==> |sl| >= 2 && sl[0] == Ident("cond") && IsClause(sl[1])
    ensures r.Ok? ==> r.value == Call("if", [sl[1].elems[0], sl[1].elems[1], Call("cond", sl[2..])])
    ensures |sl| > 0 && sl[0] == Ident("cond") && !IsClause(At(sl, 1)) ==> r == Err("invalid conditional case")
  {
    if |sl| == 0 || sl[0] != Ident("cond") then Err("invalid macro")
    else if !IsClause(At(sl, 1)) then Err("invalid conditional case")
    else Ok(Call("if", [sl[1].elems[0], sl[1].elems[1], Call("cond", sl[2..])]))
  }

  /** `(list)` is the empty list; `(list e1 e2 ...)` becomes `(cons e1 (list e2 ...))`, whose
      nested `list` is one element shorter. */
  function ListMacro(sl: seq<SExpr>): (r: Result<SExpr>)
    ensures r.Ok? <==> |sl| > 0 && sl[0] == Ident("list")
    ensures r.Ok? && |sl| == 1 ==> r.value == List([])
    ensures r.Ok? && |sl| > 1 ==> r.value == Call("cons", [sl[1], Call("list", sl[2..])])
  {
    if |sl| == 0 || sl[0] != Ident("list") then Err("invalid macro")
    else if |sl| == 1 then Ok(List([]))
    else Ok(Call("cons", [sl[1], Call("list", sl[2..])]))
  }

  /** `(not (false? a))`: the guard `and` and `or` put in front of an argument. */
  function NotFalse(a: SExpr): SExpr
  {
    Call("not", [Call("false?", [a])])
  }

  /** `(and)` is true and `(and a)` is `a`; `(and a b)` becomes `(if (not (false? a)) b false)` and
      a longer form guards its first argument the same way over an `and` of one argument fewer. */
  function AndMacro(sl: seq<SExpr>): (r: Result<SExpr>)
    ensures r.Ok? <==> |sl| > 0 && sl[0] == Ident("and")
    ensures r.Ok? && |sl| == 1 ==> r.value == Bool(true)
    ensures r.Ok? && |sl| == 2 ==> r.value == sl[1]
    ensures r.Ok? && |sl| == 3 ==> r.value == Call("if", [NotFalse(sl[1]), sl[2], Bool(false)])
    ensures r.Ok? && |sl| > 3 ==> r.value == Call("if", [NotFalse(sl[1]), Call("and", sl[2..]), Bool(false)])
  {
    if |sl| == 0 || sl[0] != Ident("and") then Err("invalid macro")
    else if |sl| == 1 then Ok(Bool(true))
    else if |sl| == 2 then Ok(sl[1])
    else if |sl| == 3 then Ok(Call("if", [NotFalse(sl[1]), sl[2], Bool(false)]))
    else Ok(Call("if", [NotFalse(sl[1]), Call("and", sl[2..]), Bool(false)]))
  }

  /** `(or)` is false; `(or a ...)` becomes `(if (not (false? a)) a (or ...))`, whose nested `or`
      has one argument fewer (for `(or a)` the source passes `[or, undefined]`, which `or` treats as
      `(or)`, so the model writes `(or)`). */
  function OrMacro(sl: seq<SExpr>): (r: Result<SExpr>)
    ensures r.Ok? <==> |sl| > 0 && sl[0] == Ident("or")
    ensures r.Ok? && |sl| == 1 ==> r.value == Bool(false)
    ensures r.Ok? && |sl| > 1 ==> r.value == Call("if", [NotFalse(sl[1]), sl[1], Call("or", sl[2..])])
  {
    if |sl| == 0 || sl[0] != Ident("or") then Err("invalid macro")
    else if |sl| == 1 then Ok(Bool(false))
    else Ok(Call("if", [NotFalse(sl[1]), sl[1], Call("or", sl[2..])]))
  }

  /** `(not x)` becomes `(false? x)`; exactly one argument is required. */
  function NotMacro(sl: seq<SExpr>): (r: Result<SExpr>)
    ensures r.Ok? <==> |sl| == 2 && sl[0] == Ident("not")
    ensures r.Ok? ==> r.value == Call("false?", [sl[1]])
  {
    if |sl| == 0 || sl[0] != Ident("not") then Err("invalid macro")
    else if |sl| != 2 then Err("not requires one argument")
    else Ok(Call("false?", [sl[1]]))
  }

  // ---------------------------------------------------------------------------------------
  // What the expansions build

  lemma LetExpands(x: string, v: SExpr, b: SExpr)
    ensures ExpandMacro("let", [Ident("let")] + [List([Ident(x), v]), b]) ==
      Ok(Call("local", [List([Call("define", [Ident(x), v])]), b]))
  {
    var binding := List([Ident(x), v]);
    var sl := [Ident("let")] + [binding, b];
    assert sl[1] == binding && sl[2] == b;
    assert binding.elems[0] == Ident(x) && binding.elems[1] == v;
    assert [binding.elems[0]] + [binding.elems[1]] == [Ident(x), v];
  }

  lemma AndExpands(args: seq<SExpr>)
    requires |args| >= 2
    ensures var a := args[0];
      ExpandMacro("and", [Ident("and")] + args) ==
      Ok(if |args| == 2 then Call("if", [NotFalse(a), args[1], Bool(false)])
         else Call("if", [NotFalse(a), Call("and", args[1..]), Bool(false)]))
  {
    var sl := [Ident("and")] + args;
    assert sl[1] == args[0] && sl[2..] == args[1..];
    if |args| == 2 {
      assert sl[2] == args[1];
    }
  }

  /** A `list` form with every `list` its expansion leaves behind expanded in turn; any other
      expression is left as it is. */
  function ExpandList(e: SExpr): SExpr
    decreases if e.List? then |e.elems| else 0
  {
    if e.List? && e.elems != [] && e.elems[0] == Ident("list") then
      var x := ListMacro(e.elems).value;
      if x.List? && |x.elems| == 3 && x.elems[0] == Ident("cons") then
        Call("cons", [x.elems[1], ExpandList(x.elems[2])])
      else x
    else e
  }

  /** The elements of a chain `(cons e1 (cons e2 ... (cons en ())))`, or `None` when `e` is no
      such chain. */
  function ConsElements(e: SExpr): Option<seq<SExpr>>
  {
    if e == List([]) then Some([])
    else if e.List? && |e.elems| == 3 && e.elems[0] == Ident("cons") then
      var rest := ConsElements(e.elems[2]);
      if rest.Some? then Some([e.elems[1]] + rest.value) else None
    else None
  }

  /** Expanding `(list e1 ... en)` to the end gives the `cons` chain of exactly `e1 ... en`,
      in order, ending in `()`. */
  lemma {:induction false} ListExpandsToConsChain(es: seq<SExpr>)
    ensures ConsElements(ExpandList(Call("list", es))) == Some(es)
    decreases |es|
  {
    var sl := [Ident("list")] + es;
    if es != [] {
      assert sl[1] == es[0] && sl[2..] == es[1..];
      ListExpandsToConsChain(es[1..]);
      assert [es[0]] + es[1..] == es;
    }
  }
}
