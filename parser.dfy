/** The recursive-descent parser of src/language/parser.ts over the cursor of
    src/lib/useTokens.ts. Grammar: elements are one or more S-expressions; an S-expression is an
    atom or a bracketed list of elements; a list ends at `)`, `]` or the end of the tokens. */
module Parser {
  import opened Common
  import opened Ast
  import opened UseTokens

  const Quote := StrTok("\"")

  predicate IsTrueWord(w: string) { w == "#t" || w == "true" || w == "#true" }
  predicate IsFalseWord(w: string) { w == "#f" || w == "false" || w == "#false" }

  /** A token that ends a sequence of elements. */
  predicate EndsElements(l: Option<Token>)
  {
    l.None? || l == Some(StrTok(")")) || l == Some(StrTok("]"))
  }

  /** What the parser builds: no typed variables, and every list has an element. */
  predicate Parsed(e: SExpr)
  {
    match e
    case TypedVar(_, _) => false
    case List(es) => |es| > 0 && forall i :: 0 <= i < |es| ==> Parsed(es[i])
    case _ => true
  }

  // ---------------------------------------------------------------------------------------
  // The parser as functions of the token array and the cursor position; each returns the value
  // and the position after it.

  /** `parseA`: consumes one token, whatever it is, and makes it an atom. */
  function ParseA(ts: seq<Token>, p: nat): (r: Result<(SExpr, nat)>)
    requires p <= |ts|
    ensures r.Ok? ==> p < r.value.1 <= |ts| && Parsed(r.value.0) && !r.value.0.List?
    ensures !r.OutOfFuel?
    decreases |ts| - p, 0
  {
    var p1 := Next(ts, p);
    match TokenAt(ts, p)
    case None => Err("expected atom")
    case Some(a) =>
      if a == Quote then
        if TokenAt(ts, p1) == Some(Quote) then Ok((StrLit(""), Next(ts, p1)))
        else
          var p2 := Next(ts, p1);
          if TokenAt(ts, p2) != Some(Quote) then Err(MatchError(Quote, TokenAt(ts, p2)))
          else Ok((StrLit(TokenText(ts[p1])), p2 + 1))
      else
        match a
        case NumTok(n) => Ok((Num(n), p1))
        case StrTok(w) =>
          if IsTrueWord(w) then Ok((Bool(true), p1))
          else if IsFalseWord(w) then Ok((Bool(false), p1))
          else Ok((Ident(w), p1))
  }

  /** `parseSE`: a bracketed list, closed by the bracket of its own kind, or an atom. */
  function ParseSE(ts: seq<Token>, p: nat): (r: Result<(SExpr, nat)>)
    requires p <= |ts|
    ensures r.Ok? ==> p < r.value.1 <= |ts| && Parsed(r.value.0)
    ensures !r.OutOfFuel?
    decreases |ts| - p, 1
  {
    var l := TokenAt(ts, p);
    if l != Some(StrTok("(")) && l != Some(StrTok("[")) then ParseA(ts, p)
    else
      var closer := if l == Some(StrTok("(")) then StrTok(")") else StrTok("]");
      var (es, q) :- ParseElements(ts, p + 1);
      if TokenAt(ts, q) != Some(closer) then Err(MatchError(closer, TokenAt(ts, q)))
      else Ok((List(es), q + 1))
  }

  /** `parseElements`: one S-expression, then more of them until the lookahead ends the
      sequence. */
  function ParseElements(ts: seq<Token>, p: nat): (r: Result<(seq<SExpr>, nat)>)
    requires p <= |ts|
    ensures r.Ok? ==> p < r.value.1 <= |ts| && |r.value.0| > 0
    ensures r.Ok? ==> forall i :: 0 <= i < |r.value.0| ==> Parsed(r.value.0[i])
    ensures r.Ok? ==> EndsElements(TokenAt(ts, r.value.1))
    ensures !r.OutOfFuel?
    decreases |ts| - p, 2
  {
    var (first, q) :- ParseSE(ts, p);
    if EndsElements(TokenAt(ts, q)) then Ok(([first], q))
    else
      var (rest, q') :- ParseElements(ts, q);
      Ok(([first] + rest, q'))
  }

  /** `parseMiniLisp(tokens)`: the elements, which must use up every token. */
  function Parse(ts: seq<Token>): (r: Result<seq<SExpr>>)
    ensures r.Ok? ==> |r.value| > 0 && forall i :: 0 <= i < |r.value| ==> Parsed(r.value[i])
  {
    var (es, q) :- ParseElements(ts, 0);
    if q < |ts| then Err("trailing tokens") else Ok(es)
  }

  // ---------------------------------------------------------------------------------------
  // The parser as the source writes it: recursive procedures that advance a shared cursor.

  /** A procedure's outcome agrees with the function: the same value, the cursor where the
      function says, or the same error. */
  predicate Agrees<T(==)>(spec: Result<(T, nat)>, r: Result<T>, pos: nat)
  {
    match r
    case Ok(v) => spec == Ok((v, pos))
    case Err(m) => spec == Err(m)
    case OutOfFuel => false
  }

  method ParseAWith(t: TokenCursor) returns (r: Result<SExpr>)
    requires t.Valid()
    modifies t
    ensures t.Valid() && Agrees(ParseA(t.tokens, old(t.pos)), r, t.pos)
    decreases |t.tokens| - t.pos, 0
  {
    var a := t.Lookahead();
    t.Consume();
    if a.None? {
      return Err("expected atom");
    }
    if a.value == Quote {
      if t.Lookahead() == Some(Quote) {
        t.Consume();
        return Ok(StrLit(""));
      }
      var l := t.Lookahead();
      var s := if l.Some? then TokenText(l.value) else "undefined";
      t.Consume();
      var m := t.Match(Quote);
      if !m.Ok? {
        return Err(m.msg);
      }
      return Ok(StrLit(s));
    }
    match a.value
    case NumTok(n) => return Ok(Num(n));
    case StrTok(w) =>
      if IsTrueWord(w) {
        return Ok(Bool(true));
      } else if IsFalseWord(w) {
        return Ok(Bool(false));
      }
      return Ok(Ident(w));
  }

  method ParseSEWith(t: TokenCursor) returns (r: Result<SExpr>)
    requires t.Valid()
    modifies t
    ensures t.Valid() && Agrees(ParseSE(t.tokens, old(t.pos)), r, t.pos)
    decreases |t.tokens| - t.pos, 1
  {
    var l := t.Lookahead();
    if l != Some(StrTok("(")) && l != Some(StrTok("[")) {
      r := ParseAWith(t);
      return;
    }
    var closer := if l == Some(StrTok("(")) then StrTok(")") else StrTok("]");
    var openMatched := t.Match(l.value);
    var s := ParseElementsWith(t);
    if !s.Ok? {
      return Err(s.msg);
    }
    var closed := t.Match(closer);
    if !closed.Ok? {
      return Err(closed.msg);
    }
    return Ok(List(s.value));
  }

  method ParseElementsWith(t: TokenCursor) returns (r: Result<seq<SExpr>>)
    requires t.Valid()
    modifies t
    ensures t.Valid() && Agrees(ParseElements(t.tokens, old(t.pos)), r, t.pos)
    decreases |t.tokens| - t.pos, 2
  {
    var first := ParseSEWith(t);
    if !first.Ok? {
      return Err(first.msg);
    }
    var la := t.Lookahead();
    if la.None? || la == Some(StrTok(")")) || la == Some(StrTok("]")) {
      return Ok([first.value]);
    }
    var rest := ParseElementsWith(t);
    if !rest.Ok? {
      return Err(rest.msg);
    }
    return Ok([first.value] + rest.value);
  }

  /** `parseMiniLisp(tokens)`. */
  method ParseMiniLisp(tokens: seq<Token>) returns (r: Result<seq<SExpr>>)
    ensures r == Parse(tokens)
  {
    var t := new TokenCursor(tokens);
    var sp := ParseElementsWith(t);
    if !sp.Ok? {
      return Err(sp.msg);
    }
    if !t.IsEmpty() {
      return Err("trailing tokens");
    }
    return Ok(sp.value);
  }

  // ---------------------------------------------------------------------------------------
  // Atoms.

  /** A number token on its own is that number. */
  lemma NumberAtom(n: int)
    ensures Parse([NumTok(n)]) == Ok([Num(n)])
  {
    assert ParseSE([NumTok(n)], 0) == Ok((Num(n), 1));
  }

  /** `#t`, `true` and `#true` are true; `#f`, `false` and `#false` are false; every other
      word that does not open a list or a string, a closing bracket included, is an
      identifier. */
  lemma WordAtom(w: string)
    ensures IsTrueWord(w) ==> Parse([StrTok(w)]) == Ok([Bool(true)])
    ensures IsFalseWord(w) ==> Parse([StrTok(w)]) == Ok([Bool(false)])
    ensures !IsTrueWord(w) && !IsFalseWord(w) && w != "(" && w != "[" && w != "\"" ==> Parse([StrTok(w)]) == Ok([Ident(w)])
  {
    var ts := [StrTok(w)];
    var e := if IsTrueWord(w) then Bool(true) else if IsFalseWord(w) then Bool(false) else Ident(w);
    if w != "(" && w != "[" && w != "\"" {
      assert ParseA(ts, 0) == Ok((e, 1));
      assert ParseSE(ts, 0) == Ok((e, 1));
      assert ParseElements(ts, 0) == Ok(([e], 1));
    }
  }

  /** `""` is the empty string literal and a quote pair around a token is a string literal of
      that token's text. */
  lemma StringAtom(x: Token)
    ensures Parse([Quote, Quote]) == Ok([StrLit("")])
    ensures x != Quote ==> Parse([Quote, x, Quote]) == Ok([StrLit(TokenText(x))])
  {
    var ts := [Quote, Quote];
    assert ParseSE(ts, 0) == Ok((StrLit(""), 2));
    assert ParseElements(ts, 0) == Ok(([StrLit("")], 2));
    if x != Quote {
      var ts' := [Quote, x, Quote];
      assert ParseA(ts', 0) == Ok((StrLit(TokenText(x)), 3));
      assert ParseSE(ts', 0) == Ok((StrLit(TokenText(x)), 3));
      assert ParseElements(ts', 0) == Ok(([StrLit(TokenText(x))], 3));
    }
  }

  /** No tokens, or an opening bracket with nothing after it, is "expected atom". */
  lemma ExpectedAtom()
    ensures Parse([]) == Err("expected atom")
    ensures Parse([StrTok("(")]) == Err("expected atom")
    ensures Parse([StrTok("[")]) == Err("expected atom")
  {
  }

  // ---------------------------------------------------------------------------------------
  // Printing back: every S-expression the parser can build is read back from its tokens.

  /** S-expressions with a token rendering the parser reads back. */
  predicate Printable(e: SExpr)
  {
    match e
    case Num(_) => true
    case Bool(_) => true
    case StrLit(s) => s != "\""
    case Ident(x) => x != "(" && x != "[" && x != ")" && x != "]" && x != "\"" && !IsTrueWord(x) && !IsFalseWord(x)
    case TypedVar(_, _) => false
    case List(es) => |es| > 0 && forall i :: 0 <= i < |es| ==> Printable(es[i])
  }

  function Size(e: SExpr): nat
  {
    match e
    case List(es) => 1 + SizeAll(es)
    case _ => 1
  }

  function SizeAll(es: seq<SExpr>): nat
  {
    if es == [] then 0 else Size(es[0]) + SizeAll(es[1..])
  }

  /** The tokens of an S-expression: lists in parentheses, booleans as `#t`/`#f`, string
      literals between quote tokens. */
  function Unparse(e: SExpr): (ts: seq<Token>)
    ensures |ts| > 0
    decreases Size(e), 0
  {
    match e
    case Num(n) => [NumTok(n)]
    case Bool(b) => [StrTok(if b then "#t" else "#f")]
    case StrLit(s) => if s == [] then [Quote, Quote] else [Quote, StrTok(s), Quote]
    case Ident(x) => [StrTok(x)]
    case TypedVar(x, _) => [StrTok(x)]
    case List(es) => [StrTok("(")] + UnparseAll(es) + [StrTok(")")]
  }

  function UnparseAll(es: seq<SExpr>): seq<Token>
    decreases SizeAll(es), 1
  {
    if es == [] then [] else
      assert Size(es[0]) <= SizeAll(es);
      Unparse(es[0]) + UnparseAll(es[1..])
  }

  /** `ts` holds `u` from position `p` on. */
  predicate HasAt(ts: seq<Token>, p: nat, u: seq<Token>)
  {
    p + |u| <= |ts| && ts[p..p + |u|] == u
  }

  lemma HasAtSplit(ts: seq<Token>, p: nat, u: seq<Token>, v: seq<Token>)
    requires HasAt(ts, p, u + v)
    ensures HasAt(ts, p, u) && HasAt(ts, p + |u|, v)
  {
    assert ts[p..p + |u|] == (u + v)[..|u|];
    assert ts[p + |u|..p + |u| + |v|] == (u + v)[|u|..];
  }

  lemma HasAtIndex(ts: seq<Token>, p: nat, u: seq<Token>, k: nat)
    requires HasAt(ts, p, u) && k < |u|
    ensures ts[p + k] == u[k]
  {
    assert ts[p..p + |u|][k] == ts[p + k];
  }

  /** A rendering never starts with a token that ends elements. */
  lemma FirstTokenStarts(e: SExpr)
    requires Printable(e)
    ensures !EndsElements(Some(Unparse(e)[0]))
  {
  }

  /** An opening bracket whose elements parse is closed by its own bracket or fails at the
      first token after the elements. */
  lemma ListStep(ts: seq<Token>, p: nat, opener: string, closer: string, es: seq<SExpr>, q: nat)
    requires (opener, closer) == ("(", ")") || (opener, closer) == ("[", "]")
    requires p < |ts| && ts[p] == StrTok(opener) && ParseElements(ts, p + 1) == Ok((es, q))
    ensures ParseSE(ts, p) == if TokenAt(ts, q) == Some(StrTok(closer)) then Ok((List(es), q + 1))
                              else Err(MatchError(StrTok(closer), TokenAt(ts, q)))
  {
  }

  /** Reading back one S-expression that is not a list. */
  lemma ReadBackAtom(e: SExpr, ts: seq<Token>, p: nat)
    requires Printable(e) && !e.List? && HasAt(ts, p, Unparse(e))
    ensures ParseSE(ts, p) == Ok((e, p + |Unparse(e)|))
  {
    var u := Unparse(e);
    HasAtIndex(ts, p, u, 0);
    assert ParseSE(ts, p) == ParseA(ts, p);
    match e
    case Num(_) =>
    case Bool(_) =>
    case Ident(_) =>
    case StrLit(s) =>
      HasAtIndex(ts, p, u, 1);
      if s != [] {
        HasAtIndex(ts, p, u, 2);
      }
  }

  /** Reading back one S-expression. */
  lemma {:induction false} ReadBack(e: SExpr, ts: seq<Token>, p: nat)
    requires Printable(e) && HasAt(ts, p, Unparse(e))
    ensures ReadsSE(ts, p, e, p + |Unparse(e)|)
    decreases Size(e), 0
  {
    if !e.List? {
      ReadBackAtom(e, ts, p);
    } else {
      var es := e.elems;
      ListFrame(es, ts, p);
      ReadBackAll(es, ts, p + 1);
      ListStep(ts, p, "(", ")", es, p + 1 + |UnparseAll(es)|);
    }
  }

  /** Where a list's rendering sits in the tokens: its opener, its elements, its closer. */
  lemma ListFrame(es: seq<SExpr>, ts: seq<Token>, p: nat)
    requires HasAt(ts, p, Unparse(List(es)))
    ensures var q := p + 1 + |UnparseAll(es)|;
      q < |ts| && ts[p] == StrTok("(") && HasAt(ts, p + 1, UnparseAll(es)) && ts[q] == StrTok(")")
  {
    var inner := UnparseAll(es);
    assert Unparse(List(es)) == [StrTok("(")] + inner + [StrTok(")")];
    HasAtSplit(ts, p, [StrTok("(")] + inner, [StrTok(")")]);
    HasAtSplit(ts, p, [StrTok("(")], inner);
    HasAtIndex(ts, p + 1 + |inner|, [StrTok(")")], 0);
    HasAtIndex(ts, p, [StrTok("(")], 0);
  }

  /** Reading back a sequence that a closing bracket or the end of the tokens ends. */
  lemma {:induction false} ReadBackAll(es: seq<SExpr>, ts: seq<Token>, p: nat)
    requires |es| > 0 && AllPrintable(es)
    requires HasAt(ts, p, UnparseAll(es)) && EndsElements(TokenAt(ts, p + |UnparseAll(es)|))
    ensures ReadsElements(ts, p, es, p + |UnparseAll(es)|)
    decreases SizeAll(es), 3
  {
    if |es| == 1 {
      ReadBackSingle(es, ts, p);
    } else {
      UnparseAllCons(es);
      HasAtSplit(ts, p, Unparse(es[0]), UnparseAll(es[1..]));
      ReadBackTail(es, ts, p);
    }
  }

  /** The step of `ReadBackAll` for one S-expression. */
  lemma {:induction false} ReadBackSingle(es: seq<SExpr>, ts: seq<Token>, p: nat)
    requires |es| == 1 && Printable(es[0])
    requires HasAt(ts, p, UnparseAll(es)) && EndsElements(TokenAt(ts, p + |UnparseAll(es)|))
    ensures ReadsElements(ts, p, es, p + |UnparseAll(es)|)
    decreases SizeAll(es), 2
  {
    UnparseAllCons(es);
    Single(es);
    HasAtSplit(ts, p, Unparse(es[0]), UnparseAll(es[1..]));
    ReadBack(es[0], ts, p);
    ElementsOne(ts, p, es, p + |UnparseAll(es)|);
  }

  /** The rendering of a sequence is its first element's followed by the rest's. */
  lemma UnparseAllCons(es: seq<SExpr>)
    requires |es| > 0
    ensures UnparseAll(es) == Unparse(es[0]) + UnparseAll(es[1..]) && Size(es[0]) <= SizeAll(es)
  {
  }

  lemma Single(es: seq<SExpr>)
    requires |es| == 1
    ensures UnparseAll(es[1..]) == [] && |UnparseAll(es)| == |Unparse(es[0])|
  {
    assert es[1..] == [];
  }

  /** The step of `ReadBackAll` for two or more S-expressions. */
  lemma {:induction false} ReadBackTail(es: seq<SExpr>, ts: seq<Token>, p: nat)
    requires |es| > 1 && AllPrintable(es)
    requires HasAt(ts, p, Unparse(es[0])) && HasAt(ts, p + |Unparse(es[0])|, UnparseAll(es[1..]))
    requires EndsElements(TokenAt(ts, p + |Unparse(es[0])| + |UnparseAll(es[1..])|))
    ensures ReadsElements(ts, p, es, p + |Unparse(es[0])| + |UnparseAll(es[1..])|)
    decreases SizeAll(es), 1
  {
    var q := p + |Unparse(es[0])|;
    SizesDecrease(es);
    ReadBack(es[0], ts, p);
    RestReads(es, ts, q);
    ElementsMore(ts, p, es, q, q + |UnparseAll(es[1..])|);
  }

  /** After the first S-expression, the rest of two or more is read back. */
  lemma {:induction false} RestReads(es: seq<SExpr>, ts: seq<Token>, q: nat)
    requires |es| > 1 && AllPrintable(es) && HasAt(ts, q, UnparseAll(es[1..]))
    requires EndsElements(TokenAt(ts, q + |UnparseAll(es[1..])|))
    ensures q < |ts| && !EndsElements(TokenAt(ts, q))
    ensures ReadsElements(ts, q, es[1..], q + |UnparseAll(es[1..])|)
    decreases SizeAll(es), 0
  {
    SizesDecrease(es);
    NotEndedAt(es[1..], ts, q);
    PrintableTail(es);
    ReadBackAll(es[1..], ts, q);
  }

  /** Both the first S-expression and the rest are smaller than two or more. */
  lemma SizesDecrease(es: seq<SExpr>)
    requires |es| > 1
    ensures Size(es[0]) < SizeAll(es) && SizeAll(es[1..]) < SizeAll(es)
  {
    assert SizeAll(es[1..]) == Size(es[1..][0]) + SizeAll(es[1..][1..]);
  }

  /** Every S-expression of `es` can be printed. */
  predicate AllPrintable(es: seq<SExpr>)
  {
    forall i :: 0 <= i < |es| ==> Printable(es[i])
  }

  lemma PrintableTail(es: seq<SExpr>)
    requires |es| > 0 && AllPrintable(es)
    ensures AllPrintable(es[1..])
  {
    forall i | 0 <= i < |es[1..]| ensures Printable(es[1..][i]) {
      assert es[1..][i] == es[i + 1];
    }
  }

  /** Where a rendering stands, the elements have not ended. */
  lemma NotEndedAt(es: seq<SExpr>, ts: seq<Token>, q: nat)
    requires |es| > 0 && Printable(es[0]) && HasAt(ts, q, UnparseAll(es))
    ensures q < |ts| && !EndsElements(TokenAt(ts, q))
  {
    FirstTokenStarts(es[0]);
    UnparseAllFirst(es);
    HasAtIndex(ts, q, UnparseAll(es), 0);
  }

  lemma ElementsOne(ts: seq<Token>, p: nat, es: seq<SExpr>, q: nat)
    requires |es| == 1 && p <= |ts| && ReadsSE(ts, p, es[0], q) && EndsElements(TokenAt(ts, q))
    ensures ReadsElements(ts, p, es, q)
  {
    assert es == [es[0]];
  }

  /** `ParseSE` reads `e` from `p` on and stops at `q`. */
  predicate ReadsSE(ts: seq<Token>, p: nat, e: SExpr, q: nat)
  {
    p <= |ts| && ParseSE(ts, p) == Ok((e, q))
  }

  /** `ParseElements` reads `es` from `p` on and stops at `q`. */
  predicate ReadsElements(ts: seq<Token>, p: nat, es: seq<SExpr>, q: nat)
  {
    p <= |ts| && ParseElements(ts, p) == Ok((es, q))
  }

  lemma ElementsMore(ts: seq<Token>, p: nat, es: seq<SExpr>, q: nat, q': nat)
    requires |es| > 1 && p <= |ts| && ReadsSE(ts, p, es[0], q)
    requires !EndsElements(TokenAt(ts, q))
    requires q <= |ts| && ReadsElements(ts, q, es[1..], q')
    ensures ReadsElements(ts, p, es, q')
  {
    assert [es[0]] + es[1..] == es;
  }

  lemma UnparseAllFirst(es: seq<SExpr>)
    requires |es| > 0
    ensures |UnparseAll(es)| > 0 && UnparseAll(es)[0] == Unparse(es[0])[0]
  {
  }

  /** `parseMiniLisp` reads back the tokens of any non-empty sequence of printable
      S-expressions. */
  lemma ParseUnparse(es: seq<SExpr>)
    requires |es| > 0 && forall i :: 0 <= i < |es| ==> Printable(es[i])
    ensures Parse(UnparseAll(es)) == Ok(es)
  {
    var ts := UnparseAll(es);
    assert ts[0..|ts|] == ts;
    ReadBackAll(es, ts, 0);
  }

  // ---------------------------------------------------------------------------------------
  // Errors after a complete S-expression.

  /** A closing bracket after a complete program is "trailing tokens", as in `(+ 3 4)))`. */
  lemma TrailingTokens(e: SExpr, closer: string, rest: seq<Token>)
    requires Printable(e) && (closer == ")" || closer == "]")
    ensures Parse(Unparse(e) + [StrTok(closer)] + rest) == Err("trailing tokens")
  {
    var ts := Unparse(e) + [StrTok(closer)] + rest;
    var n := |Unparse(e)|;
    assert ts[0..n] == Unparse(e);
    assert ts[n] == StrTok(closer);
    ReadBack(e, ts, 0);
  }

  /** An S-expression that fails makes the elements it starts fail the same way. */
  lemma ElementsFail(ts: seq<Token>, p: nat)
    requires p <= |ts| && ParseSE(ts, p).Err?
    ensures ParseElements(ts, p) == Err(ParseSE(ts, p).msg)
  {
  }

  /** A list whose elements are followed by a closing bracket of the wrong kind fails there. */
  lemma WrongCloser(es: seq<SExpr>, ts: seq<Token>, opener: string, closer: string, wrong: string)
    requires (opener, closer) == ("(", ")") || (opener, closer) == ("[", "]")
    requires (wrong == ")" || wrong == "]") && wrong != closer
    requires |es| > 0 && forall i :: 0 <= i < |es| ==> Printable(es[i])
    requires 0 < |ts| && ts[0] == StrTok(opener) && HasAt(ts, 1, UnparseAll(es))
    requires 1 + |UnparseAll(es)| < |ts| && ts[1 + |UnparseAll(es)|] == StrTok(wrong)
    ensures Parse(ts) == Err(MatchError(StrTok(closer), Some(StrTok(wrong))))
  {
    var q := 1 + |UnparseAll(es)|;
    ReadBackAll(es, ts, 1);
    ListStep(ts, 0, opener, closer, es, q);
    ElementsFail(ts, 0);
  }

  /** A parenthesis closed by a square bracket fails at that bracket, as in `(+ 3 4]`. */
  lemma ParenClosedBySquare(es: seq<SExpr>, rest: seq<Token>)
    requires |es| > 0 && forall i :: 0 <= i < |es| ==> Printable(es[i])
    ensures Parse([StrTok("(")] + UnparseAll(es) + [StrTok("]")] + rest) == Err("expected ) but found ]")
  {
    Framed(StrTok("("), UnparseAll(es), StrTok("]"), rest);
    WrongCloser(es, [StrTok("(")] + UnparseAll(es) + [StrTok("]")] + rest, "(", ")", "]");
    BracketMessages();
  }

  /** A square bracket closed by a parenthesis fails at that parenthesis, as in `[+ 3 4)`. */
  lemma SquareClosedByParen(es: seq<SExpr>, rest: seq<Token>)
    requires |es| > 0 && forall i :: 0 <= i < |es| ==> Printable(es[i])
    ensures Parse([StrTok("[")] + UnparseAll(es) + [StrTok(")")] + rest) == Err("expected ] but found )")
  {
    Framed(StrTok("["), UnparseAll(es), StrTok(")"), rest);
    WrongCloser(es, [StrTok("[")] + UnparseAll(es) + [StrTok(")")] + rest, "[", "]", ")");
    BracketMessages();
  }

  /** Where the tokens between two brackets stand. */
  lemma Framed(x: Token, inner: seq<Token>, y: Token, rest: seq<Token>)
    ensures var ts := [x] + inner + [y] + rest;
      0 < |ts| && ts[0] == x && HasAt(ts, 1, inner) && 1 + |inner| < |ts| && ts[1 + |inner|] == y
  {
    var ts := [x] + inner + [y] + rest;
    assert ts[1..1 + |inner|] == inner;
  }

  /** `()` and `[]` are no lists: the closing bracket is read as an atom, and then the list
      has no closer. */
  lemma EmptyBrackets()
    ensures Parse([StrTok("("), StrTok(")")]) == Err("expected ) but found undefined")
    ensures Parse([StrTok("["), StrTok("]")]) == Err("expected ] but found undefined")
  {
    EmptyBracket("(", ")");
    EmptyBracket("[", "]");
    EmptyMessages();
  }

  /** The steps of EmptyBrackets for one kind of bracket. */
  lemma EmptyBracket(opener: string, closer: string)
    requires (opener == "(" && closer == ")") || (opener == "[" && closer == "]")
    ensures Parse([StrTok(opener), StrTok(closer)]) == Err(MatchError(StrTok(closer), None))
  {
    var ts := [StrTok(opener), StrTok(closer)];
    assert StrTok(closer) != Quote && !IsTrueWord(closer) && !IsFalseWord(closer);
    assert ParseA(ts, 1) == Ok((Ident(closer), 2));
    assert ParseSE(ts, 1) == Ok((Ident(closer), 2));
    assert ParseElements(ts, 1) == Ok(([Ident(closer)], 2));
    assert ParseSE(ts, 0) == Err(MatchError(StrTok(closer), None));
  }

  lemma EmptyMessages()
    ensures MatchError(StrTok(")"), None) == "expected ) but found undefined"
    ensures MatchError(StrTok("]"), None) == "expected ] but found undefined"
  {
  }

  lemma BracketMessages()
    ensures MatchError(StrTok(")"), Some(StrTok("]"))) == "expected ) but found ]"
    ensures MatchError(StrTok("]"), Some(StrTok(")"))) == "expected ] but found )"
  {
  }
}
