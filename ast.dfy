/** The syntax shared by the tokenizers, the parser, the macro table, the evaluator and the
    type checker. */
module Ast {

  /** A token is a JavaScript `number | string`; the tokenizers only produce integers. */
  datatype Token = NumTok(n: int) | StrTok(s: string)

  /** A type: a primitive name (`"number"`, `"string"`, ...), a function type
      `{args, returns}`, or a union, which the source writes as an array of types. */
  datatype Type = Prim(name: string) | Fn(args: seq<Type>, returnType: Type) | Union(members: seq<Type>)

  /** An S-expression: a number, a boolean, a string literal `{s}`, an identifier (a bare
      JavaScript string), a typed variable `{name, type}`, or a list. */
  datatype SExpr =
    | Num(n: int)
    | Bool(b: bool)
    | StrLit(s: string)
    | Ident(name: string)
    | TypedVar(name: string, ty: Type)
    | List(elems: seq<SExpr>)

  /** Reading a list element that is not there yields JavaScript `undefined`; evaluating or
      type checking `undefined` looks up the key `"undefined"`, exactly as the identifier of
      that name does. */
  function At(s: seq<SExpr>, i: nat): SExpr
  {
    if i < |s| then s[i] else Ident("undefined")
  }
}
