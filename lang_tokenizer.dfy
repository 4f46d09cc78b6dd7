/** The scanner of src/language/tokenizer.ts: the splitter of src/lib/tokenizer.ts extended with
    string literals (kept whole with their spaces, refused when a line or the input ends inside
    them) and with the two-character comparisons `<=` and `>=`. */
module LangTokenizer {
  import opened Common
  import opened Ast
  import opened LibTokenizer

  /** The scanner's variables: the tokens pushed so far, the buffer `currentChars` and the flag
      `inString`. */
  datatype ScanState = ScanState(tokens: seq<Token>, buf: string, inString: bool)

  const Init := ScanState([], [], false)

  /** `cleanOutChars` on the token list: a non-empty buffer is pushed as a run token. */
  function Flushed(tokens: seq<Token>, buf: string): seq<Token>
  {
    if buf == [] then tokens else tokens + [RunToken(buf)]
  }

  function Flush(st: ScanState): ScanState
  {
    ScanState(Flushed(st.tokens, st.buf), [], st.inString)
  }

  /** One iteration of the loop over the characters. */
  function Step(st: ScanState, c: char): (r: Result<ScanState>)
    ensures r.Err? <==> c == '\n' && st.inString
    ensures !r.OutOfFuel? && (r.Err? ==> r.msg == "unterminated string")
    ensures r.Ok? ==> r.value.inString == (if c == '"' then !st.inString else st.inString)
    ensures r.Ok? ==> st.tokens <= r.value.tokens
  {
    if c == '>' || c == '<' then Ok(Flush(st).(buf := [c]))
    else if c == '=' && (st.buf == "<" || st.buf == ">") then
      Ok(ScanState(st.tokens + [StrTok(st.buf + [c])], [], st.inString))
    else if c == ' ' || c == '\t' then
      if st.inString then Ok(st.(buf := st.buf + [c])) else Ok(Flush(st))
    else if c == '\n' then
      if st.inString then Err("unterminated string") else Ok(Flush(st))
    else if c == '"' then
      if !st.inString then Ok(Flush(st).(inString := true))
      else Ok(ScanState(st.tokens + [StrTok("\"" + st.buf + "\"")], [], false))
    else if IsSymbol(c) then Ok(ScanState(Flush(st).tokens + [StrTok([c])], [], st.inString))
    else Ok(st.(buf := st.buf + [c]))
  }

  /** The loop run over `s` from `st`; it stops at the first error. */
  function Run(st: ScanState, s: string): (r: Result<ScanState>)
    ensures !r.OutOfFuel? && (r.Err? ==> r.msg == "unterminated string")
    decreases |s|
  {
    if s == [] then Ok(st) else Then(Run(st, s[..|s| - 1]), s[|s| - 1])
  }

  /** The next iteration after `r`, unless `r` has already failed. */
  function Then(r: Result<ScanState>, c: char): Result<ScanState>
  {
    if r.Ok? then Step(r.value, c) else r
  }

  /** What `tokenizer(l)` returns or throws. */
  function Tokenize(l: string): Result<seq<Token>>
  {
    var st :- Run(Init, l);
    if st.inString then Err("unterminated string") else Ok(Flush(st).tokens)
  }

  /** `cleanOutChars`. */
  method CleanOutChars(tokens: seq<Token>, currentChars: string) returns (tokens': seq<Token>, currentChars': string)
    ensures tokens' == Flushed(tokens, currentChars) && currentChars' == []
  {
    tokens', currentChars' := tokens, currentChars;
    if currentChars' != [] {
      tokens' := tokens' + [RunToken(currentChars')];
      currentChars' := [];
    }
  }

  /** Running over `a + b` is running over `a`, then over `b`... */
  lemma {:induction false} RunSplit(st: ScanState, a: string, b: string)
    requires Run(st, a).Ok?
    ensures Run(st, a + b) == Run(Run(st, a).value, b)
    decreases |b|
  {
    if b == [] {
      assert a + b == a;
    } else {
      var b' := b[..|b| - 1];
      var c := b[|b| - 1];
      assert (a + b)[..|a + b| - 1] == a + b' && (a + b)[|a + b| - 1] == c;
      RunSplit(st, a, b');
    }
  }

  /** ... and a failure on `a` is the failure on `a + b`. */
  lemma {:induction false} RunFailureSticks(st: ScanState, a: string, b: string)
    requires !Run(st, a).Ok?
    ensures Run(st, a + b) == Run(st, a)
    decreases |b|
  {
    if b == [] {
      assert a + b == a;
    } else {
      var b' := b[..|b| - 1];
      assert (a + b)[..|a + b| - 1] == a + b';
      RunFailureSticks(st, a, b');
    }
  }

  /** `tokenizer(l)`: the loop that updates `tokens`, `currentChars` and `inString`, throwing
      "unterminated string" at a line feed inside a string or when the input ends inside one. */
  method Tokenizer(l: string) returns (r: Result<seq<Token>>)
    ensures r == Tokenize(l)
  {
    var tokens: seq<Token> := [];
    var currentChars: string := [];
    var inString := false;
    for i := 0 to |l|
      invariant Run(Init, l[..i]) == Ok(ScanState(tokens, currentChars, inString))
    {
      var c := l[i];
      assert l[..i + 1][..i] == l[..i] && l[..i + 1][i] == c;
      if c == '>' || c == '<' {
        tokens, currentChars := CleanOutChars(tokens, currentChars);
        currentChars := [c];
      } else if c == '=' && (currentChars == "<" || currentChars == ">") {
        tokens := tokens + [StrTok(currentChars + [c])];
        currentChars := [];
      } else if c == ' ' || c == '\t' {
        if inString {
          currentChars := currentChars + [c];
        } else {
          tokens, currentChars := CleanOutChars(tokens, currentChars);
        }
      } else if c == '\n' {
        if inString {
          RunFailureSticks(Init, l[..i + 1], l[i + 1..]);
          assert l[..i + 1] + l[i + 1..] == l;
          return Err("unterminated string");
        }
        tokens, currentChars := CleanOutChars(tokens, currentChars);
      } else if c == '"' {
        if !inString {
          tokens, currentChars := CleanOutChars(tokens, currentChars);
          inString := true;
        } else {
          tokens := tokens + [StrTok("\"" + currentChars + "\"")];
          inString := false;
          currentChars := [];
        }
      } else if IsSymbol(c) {
        tokens, currentChars := CleanOutChars(tokens, currentChars);
        tokens := tokens + [StrTok([c])];
      } else {
        currentChars := currentChars + [c];
      }
    }
    assert l[..|l|] == l;
    if inString {
      return Err("unterminated string");
    }
    tokens, currentChars := CleanOutChars(tokens, currentChars);
    return Ok(tokens);
  }
  // ---------------------------------------------------------------------------------------
  // Where the scanner fails: the parity of the quotes read so far decides `inString`.

  /** Number of `"` in `s`. */
  function Quotes(s: string): nat
  {
    if s == [] then 0 else Quotes(s[..|s| - 1]) + (if s[|s| - 1] == '"' then 1 else 0)
  }

  predicate OddQuotes(s: string) { Quotes(s) % 2 == 1 }

  /** A line feed at `i` lies inside a string literal. */
  predicate NewlineInString(s: string)
  {
    exists i :: 0 <= i < |s| && s[i] == '\n' && OddQuotes(s[..i])
  }

  /** While the scan goes on, it is inside a string exactly after an odd number of quotes. */
  lemma {:induction false} InStringIffOddQuotes(s: string)
    requires Run(Init, s).Ok?
    ensures Run(Init, s).value.inString == OddQuotes(s)
    decreases |s|
  {
    if s != [] {
      var s', c := s[..|s| - 1], s[|s| - 1];
      assert Run(Init, s) == Then(Run(Init, s'), c);
      InStringIffOddQuotes(s');
      Parity(Quotes(s'), c == '"');
    }
  }

  lemma Parity(q: nat, one: bool)
    ensures (q + (if one then 1 else 0)) % 2 == 1 <==> (if one then q % 2 != 1 else q % 2 == 1)
  {
  }

  /** The scan fails exactly when a line feed comes inside a string literal. */
  lemma {:induction false} RunFailsIff(s: string)
    ensures !Run(Init, s).Ok? <==> NewlineInString(s)
    decreases |s|
  {
    if s != [] {
      var s' := s[..|s| - 1];
      RunFailsIff(s');
      if !Run(Init, s').Ok? {
        var i :| 0 <= i < |s'| && s'[i] == '\n' && OddQuotes(s'[..i]);
        assert s[..i] == s'[..i];
      } else {
        InStringIffOddQuotes(s');
        assert s[..|s| - 1] == s';
        if NewlineInString(s) {
          var i :| 0 <= i < |s| && s[i] == '\n' && OddQuotes(s[..i]);
          if i < |s'| {
            assert s'[..i] == s[..i];
            assert NewlineInString(s');
          }
        }
      }
    }
  }

  /** `tokenizer` throws "unterminated string" exactly when a line feed comes inside a string
      literal or the input ends inside one (an odd number of quotes); otherwise it returns
      the tokens. */
  lemma TokenizeFailsIff(l: string)
    ensures Tokenize(l).Err? <==> NewlineInString(l) || OddQuotes(l)
    ensures !Tokenize(l).OutOfFuel? && (Tokenize(l).Err? ==> Tokenize(l).msg == "unterminated string")
  {
    RunFailsIff(l);
    if Run(Init, l).Ok? {
      InStringIffOddQuotes(l);
    }
  }

  // ---------------------------------------------------------------------------------------
  // String literals and comparisons.

  /** A character that a string literal keeps: a space, a tab, or a run character. */
  predicate IsLiteralChar(c: char)
  {
    c == ' ' || c == '\t' || IsWordChar(c)
  }

  /** Inside a string, spaces, tabs and run characters only extend the buffer. */
  lemma {:induction false} StringBody(st: ScanState, w: string)
    requires st.inString
    requires forall k :: 0 <= k < |w| ==> IsLiteralChar(w[k])
    ensures Run(st, w) == Ok(st.(buf := st.buf + w))
    decreases |w|
  {
    if w == [] {
      assert st.buf + w == st.buf;
    } else {
      var w' := w[..|w| - 1];
      StringBody(st, w');
      assert st.buf + w' + [w[|w| - 1]] == st.buf + w;
    }
  }

  /** `"w"` read outside a string flushes the buffer and then yields the single token `"w"`,
      spaces and tabs included. */
  lemma StringLiteralIsOneToken(st: ScanState, w: string)
    requires !st.inString
    requires forall k :: 0 <= k < |w| ==> IsLiteralChar(w[k])
    ensures Run(st, ['"'] + w + ['"']) == Ok(ScanState(Flushed(st.tokens, st.buf) + [StrTok("\"" + w + "\"")], [], false))
  {
    var q := ['"'];
    var open := Flush(st).(inString := true);
    RunOne(st, '"');
    assert Step(st, '"') == Ok(open);
    RunSplit(st, q, w);
    StringBody(open, w);
    assert [] + w == w;
    var mid := open.(buf := w);
    RunSplit(st, q + w, q);
    RunOne(mid, '"');
    assert Step(mid, '"') == Ok(ScanState(mid.tokens + [StrTok("\"" + w + "\"")], [], false));
  }

  lemma RunOne(st: ScanState, c: char)
    ensures Run(st, [c]) == Step(st, c)
  {
    assert [c][..0] == [];
  }

  lemma RunTwo(st: ScanState, c: char, d: char)
    ensures Run(st, [c, d]) == Then(Step(st, c), d)
  {
    assert [c, d][..1] == [c];
    RunOne(st, c);
  }

  /** A symbol character alone is not a number. */
  lemma SymbolIsText(c: char)
    requires IsSymbol(c)
    ensures RunToken([c]) == StrTok([c])
  {
    assert !Js.IsJsSpace(c);
    assert Js.TrimStart([c]) == [c];
  }

  /** `<` or `>` right before `=` is the one token `<=` or `>=`, inside a string or not. */
  lemma ComparisonIsOneToken(st: ScanState, op: char)
    requires op == '<' || op == '>'
    ensures Run(st, [op, '=']) == Ok(ScanState(Flushed(st.tokens, st.buf) + [StrTok([op, '='])], [], st.inString))
  {
    RunTwo(st, op, '=');
    var m := Flush(st).(buf := [op]);
    assert Step(st, op) == Ok(m);
    assert m.buf == "<" || m.buf == ">";
    assert Step(m, '=') == Ok(ScanState(m.tokens + [StrTok(m.buf + ['='])], [], m.inString));
    assert m.buf + ['='] == [op, '='];
  }

  /** A bare `<` or `>` before a separator is a token of its own. */
  lemma BareComparison(st: ScanState, op: char, c: char)
    requires op == '<' || op == '>'
    requires !st.inString && (c == ' ' || c == '\t' || c == '\n')
    ensures Run(st, [op, c]) == Ok(ScanState(Flushed(st.tokens, st.buf) + [StrTok([op])], [], false))
  {
    RunTwo(st, op, c);
    var m := Flush(st).(buf := [op]);
    assert Step(st, op) == Ok(m);
    assert Step(m, c) == Ok(Flush(m));
    SymbolIsText(op);
  }

  // ---------------------------------------------------------------------------------------
  // Shape of the tokens.

  predicate NoWhiteSpace(s: string)
  {
    forall k :: 0 <= k < |s| ==> s[k] != ' ' && s[k] != '\t' && s[k] != '\n'
  }

  /** No token is the empty string (the empty literal is `""`, two characters). */
  predicate NoEmptyToken(ts: seq<Token>)
  {
    forall k :: 0 <= k < |ts| ==> ts[k].StrTok? ==> ts[k].s != []
  }

  predicate TokensFreeOfWhiteSpace(ts: seq<Token>)
  {
    forall k :: 0 <= k < |ts| ==> ts[k].StrTok? ==> NoWhiteSpace(ts[k].s)
  }

  lemma FlushKeepsNoEmpty(st: ScanState)
    requires NoEmptyToken(st.tokens)
    ensures NoEmptyToken(Flush(st).tokens)
  {
  }

  lemma StepKeepsNoEmpty(st: ScanState, c: char)
    requires NoEmptyToken(st.tokens) && Step(st, c).Ok?
    ensures NoEmptyToken(Step(st, c).value.tokens)
  {
    FlushKeepsNoEmpty(st);
    if c == '>' || c == '<' {
    } else if c == '=' && (st.buf == "<" || st.buf == ">") {
      PushKeepsNoEmpty(st.tokens, st.buf + [c]);
    } else if c == ' ' || c == '\t' || c == '\n' {
    } else if c == '"' {
      if st.inString {
        PushKeepsNoEmpty(st.tokens, "\"" + st.buf + "\"");
      }
    } else if IsSymbol(c) {
      PushKeepsNoEmpty(Flush(st).tokens, [c]);
    }
  }

  lemma PushKeepsNoEmpty(ts: seq<Token>, w: string)
    requires NoEmptyToken(ts) && w != []
    ensures NoEmptyToken(ts + [StrTok(w)])
  {
  }

  /** Flushing never pushes an empty token. */
  lemma {:induction false} NoEmptyTokenEver(s: string)
    requires Run(Init, s).Ok?
    ensures NoEmptyToken(Run(Init, s).value.tokens)
    decreases |s|
  {
    if s != [] {
      NoEmptyTokenEver(s[..|s| - 1]);
      StepKeepsNoEmpty(Run(Init, s[..|s| - 1]).value, s[|s| - 1]);
    }
  }

  lemma TokenizeNoEmptyToken(l: string)
    requires Tokenize(l).Ok?
    ensures NoEmptyToken(Tokenize(l).value)
  {
    NoEmptyTokenEver(l);
    FlushKeepsNoEmpty(Run(Init, l).value);
  }

  /** Without string literals, the tokens (and the buffer) hold no space, tab or line feed:
      white space only ends runs. */
  lemma {:induction false} NoWhiteSpaceOutsideStrings(s: string)
    requires forall k :: 0 <= k < |s| ==> s[k] != '"'
    ensures Run(Init, s).Ok? && !Run(Init, s).value.inString
    ensures NoWhiteSpace(Run(Init, s).value.buf) && TokensFreeOfWhiteSpace(Run(Init, s).value.tokens)
    decreases |s|
  {
    if s != [] {
      NoWhiteSpaceOutsideStrings(s[..|s| - 1]);
      StepKeepsNoWhiteSpace(Run(Init, s[..|s| - 1]).value, s[|s| - 1]);
    }
  }

  lemma FlushKeepsNoWhiteSpace(st: ScanState)
    requires NoWhiteSpace(st.buf) && TokensFreeOfWhiteSpace(st.tokens)
    ensures TokensFreeOfWhiteSpace(Flush(st).tokens)
  {
  }

  /** Outside a string, a step that does not read a quote keeps white space out of the
      buffer and the tokens. */
  lemma StepKeepsNoWhiteSpace(st: ScanState, c: char)
    requires !st.inString && c != '"' && NoWhiteSpace(st.buf) && TokensFreeOfWhiteSpace(st.tokens)
    ensures Step(st, c).Ok? && !Step(st, c).value.inString
    ensures NoWhiteSpace(Step(st, c).value.buf) && TokensFreeOfWhiteSpace(Step(st, c).value.tokens)
  {
    FlushKeepsNoWhiteSpace(st);
    if c == '>' || c == '<' {
      assert NoWhiteSpace([c]);
    } else if c == '=' && (st.buf == "<" || st.buf == ">") {
      PushKeepsNoWhiteSpace(st.tokens, st.buf + [c]);
    } else if c == ' ' || c == '\t' || c == '\n' {
    } else if IsSymbol(c) {
      PushKeepsNoWhiteSpace(Flush(st).tokens, [c]);
    } else {
      assert NoWhiteSpace(st.buf + [c]);
    }
  }

  lemma PushKeepsNoWhiteSpace(ts: seq<Token>, w: string)
    requires TokensFreeOfWhiteSpace(ts) && NoWhiteSpace(w)
    ensures TokensFreeOfWhiteSpace(ts + [StrTok(w)])
  {
  }

  lemma TokenizeNoWhiteSpace(l: string)
    requires forall k :: 0 <= k < |l| ==> l[k] != '"'
    ensures Tokenize(l).Ok? && TokensFreeOfWhiteSpace(Tokenize(l).value)
  {
    NoWhiteSpaceOutsideStrings(l);
  }

  // ---------------------------------------------------------------------------------------
  // Agreement with the splitter of src/lib/tokenizer.ts.

  /** Text without `"`, `<` and `>`, where the two tokenizers coincide. */
  predicate Plain(s: string)
  {
    forall k :: 0 <= k < |s| ==> s[k] != '"' && s[k] != '<' && s[k] != '>'
  }

  /** On plain text outside strings the scanner makes the splitter's moves. */
  lemma PlainStep(st: ScanState, c: char)
    requires !st.inString && AllWord(st.buf) && c != '"' && c != '<' && c != '>'
    ensures Step(st, c).Ok? && !Step(st, c).value.inString
    ensures IsSeparator(c) || IsSymbol(c) ==>
      Step(st, c).value == ScanState(st.tokens + (if st.buf != [] then [RunToken(st.buf)] else [])
                                     + (if IsSymbol(c) then [StrTok([c])] else []), [], false)
    ensures !(IsSeparator(c) || IsSymbol(c)) ==> Step(st, c).value == st.(buf := st.buf + [c])
  {
    assert st.buf != "<" && st.buf != ">" by {
      if st.buf != [] { assert IsWordChar(st.buf[0]); }
    }
  }

  /** The end of the text: the final flush gives the buffer's lexemes. */
  lemma AgreeAtEnd(st: ScanState)
    requires AllWord(st.buf)
    ensures Flush(st).tokens == st.tokens + TokensOf(Lexemes(st.buf))
  {
    if st.buf != [] {
      FlushedRun(st.buf, []);
      assert st.buf + [] == st.buf;
      assert Classify(st.buf) == RunToken(st.buf) by {
        assert !(|st.buf| == 1 && IsSymbol(st.buf[0]));
      }
      TokensOfCons(st.buf, []);
    }
  }

  /** From a state outside strings whose buffer is a run, plain text scans to the tokens of the
      maximal-munch split of the buffer followed by the text. */
  lemma {:induction false} AgreeFrom(st: ScanState, r: string)
    requires !st.inString && AllWord(st.buf) && Plain(r)
    ensures Run(st, r).Ok? && !Run(st, r).value.inString
    ensures Flush(Run(st, r).value).tokens == st.tokens + TokensOf(Lexemes(st.buf + r))
    decreases |r|
  {
    if r == [] {
      assert st.buf + r == st.buf;
      AgreeAtEnd(st);
    } else {
      var c := r[0];
      var r' := r[1..];
      assert r == [c] + r';
      RunOne(st, c);
      PlainStep(st, c);
      var m := Step(st, c).value;
      RunSplit(st, [c], r');
      PlainTail(r);
      AgreeFrom(m, r');
      if IsSeparator(c) || IsSymbol(c) {
        assert m.buf + r' == r';
        assert st.buf + r == st.buf + [c] + r';
        AgreeAfterBreak(st.tokens, st.buf, c, r', Flush(Run(m, r').value).tokens);
      } else {
        assert st.buf + r == m.buf + r';
      }
    }
  }

  lemma PlainTail(r: string)
    requires r != [] && Plain(r)
    ensures Plain(r[1..])
  {
    forall k | 0 <= k < |r| - 1 ensures r[1..][k] != '"' && r[1..][k] != '<' && r[1..][k] != '>' {
      assert r[1..][k] == r[k + 1];
    }
  }

  /** A separator or symbol flushes the buffer: what follows is split on its own. */
  lemma AgreeAfterBreak(tokens: seq<Token>, buf: string, c: char, r': string, out: seq<Token>)
    requires AllWord(buf) && (IsSeparator(c) || IsSymbol(c))
    requires out == tokens + (if buf != [] then [RunToken(buf)] else [])
                   + (if IsSymbol(c) then [StrTok([c])] else []) + TokensOf(Lexemes(r'))
    ensures out == tokens + TokensOf(Lexemes(buf + [c] + r'))
  {
    FlushAt(buf, c, r');
    Regroup(tokens, if buf != [] then [RunToken(buf)] else [], if IsSymbol(c) then [StrTok([c])] else [],
            TokensOf(Lexemes(r')));
  }

  lemma Regroup(a: seq<Token>, b: seq<Token>, c: seq<Token>, d: seq<Token>)
    ensures a + b + c + d == a + (b + c + d)
  {
  }

  /** On text without `"`, `<` and `>` this scanner returns exactly what the splitter of
      src/lib/tokenizer.ts returns. */
  lemma AgreesWithSplitter(l: string)
    requires Plain(l)
    ensures Tokenize(l) == Ok(LibTokenizer.Tokens(l))
  {
    AgreeFrom(Init, l);
    assert Init.buf + l == l;
    TokenizeOfFinished(l);
  }

  lemma TokenizeOfFinished(l: string)
    requires Run(Init, l).Ok? && !Run(Init, l).value.inString
    requires Flush(Run(Init, l).value).tokens == [] + TokensOf(Lexemes(l))
    ensures Tokenize(l) == Ok(Tokens(l))
  {
    assert [] + TokensOf(Lexemes(l)) == TokensOf(Lexemes(l));
  }
}
