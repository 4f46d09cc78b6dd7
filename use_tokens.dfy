/** The one-token-lookahead cursor of src/lib/useTokens.ts (`useTokens`): the current token
    `ll` and the tokens after it `tt`, which `consume` shifts from. */
module UseTokens {
  import opened Common
  import opened Js
  import opened Ast

  /** The token at position `p`, or `undefined` past the end. */
  function TokenAt(ts: seq<Token>, p: nat): (l: Option<Token>)
    ensures l.Some? <==> p < |ts|
    ensures l.Some? ==> l.value == ts[p]
  {
    if p < |ts| then Some(ts[p]) else None
  }

  /** The position after consuming at `p`: one further, but never past the end. */
  function Next(ts: seq<Token>, p: nat): (q: nat)
    requires p <= |ts|
    ensures q <= |ts| && (p < |ts| ==> q == p + 1) && (p == |ts| ==> q == p)
  {
    if p < |ts| then p + 1 else p
  }

  /** A token in a message: a number in decimal, text as itself. */
  function TokenText(t: Token): string
  {
    match t
    case NumTok(n) => IntToString(n)
    case StrTok(s) => s
  }

  /** The lookahead in a message; an exhausted cursor shows as `undefined`. */
  function ShowLookahead(l: Option<Token>): string
  {
    match l
    case None => "undefined"
    case Some(t) => TokenText(t)
  }

  function MatchError(t: Token, found: Option<Token>): string
  {
    "expected " + TokenText(t) + " but found " + ShowLookahead(found)
  }

  class TokenCursor {
    /** The token array; the cursor never writes to it. */
    const tokens: seq<Token>
    var ll: Option<Token>
    var tt: seq<Token>
    /** How many tokens have been consumed. */
    ghost var pos: nat

    ghost predicate Valid()
      reads this
    {
      pos <= |tokens| && ll == TokenAt(tokens, pos) && tt == (if pos < |tokens| then tokens[pos + 1..] else [])
    }

    /** `useTokens(tokens)`: the lookahead is the first token, `undefined` for no tokens. */
    constructor (tokens: seq<Token>)
      ensures Valid() && this.tokens == tokens && pos == 0
      ensures ll == (if tokens == [] then None else Some(tokens[0]))
    {
      this.tokens := tokens;
      if tokens == [] {
        ll, tt := None, [];
      } else {
        ll, tt := Some(tokens[0]), tokens[1..];
      }
      pos := 0;
    }

    /** `lookahead()`: the token at the cursor; it changes nothing. */
    function Lookahead(): (l: Option<Token>)
      reads this
      ensures Valid() ==> l == TokenAt(tokens, pos)
    {
      ll
    }

    /** `isEmpty()`: the lookahead is `undefined`, that is, every token has been consumed. */
    function IsEmpty(): (b: bool)
      reads this
      ensures b <==> Lookahead().None?
      ensures Valid() ==> (b <==> pos == |tokens|)
    {
      ll.None?
    }

    /** `consume()`: `ll = tt.shift()`; advances by one token, and stays put at the end. */
    method Consume()
      requires Valid()
      modifies this
      ensures Valid() && pos == Next(tokens, old(pos))
    {
      if tt == [] {
        ll := None;
      } else {
        ll, tt := Some(tt[0]), tt[1..];
      }
      pos := if pos < |tokens| then pos + 1 else pos;
    }

    /** `match(t)`: consumes when the lookahead is `t`; otherwise fails with
        "expected t but found ..." and consumes nothing. */
    method Match(t: Token) returns (r: Result<()>)
      requires Valid()
      modifies this
      ensures Valid()
      ensures r.Ok? <==> old(Lookahead()) == Some(t)
      ensures r.Ok? ==> pos == old(pos) + 1
      ensures !r.Ok? ==> r == Err(MatchError(t, old(Lookahead()))) && pos == old(pos)
    {
      if ll != Some(t) {
        return Err(MatchError(t, ll));
      }
      Consume();
      return Ok(());
    }
  }
}
