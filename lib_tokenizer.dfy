/** The splitter of src/lib/tokenizer.ts, the tokenizer whose output the parser consumes:
    separators split, every symbol character is a token of its own, and each maximal run of
    other characters is one token, a number when `parseInt` reads one from it. */
module LibTokenizer {
  import opened Common
  import opened Js
  import opened Ast

  /** The characters that form tokens of their own: `( ) + - * / = < > , [ ] { } "`. */
  predicate IsSymbol(c: char)
  {
    c == '(' || c == ')' || c == '+' || c == '-' || c == '*' || c == '/' || c == '=' || c == '<'
    || c == '>' || c == ',' || c == '[' || c == ']' || c == '{' || c == '}' || c == '"'
  }

  /** Space, line feed and tab only separate tokens. */
  predicate IsSeparator(c: char)
  {
    c == ' ' || c == '\n' || c == '\t'
  }

  /** Characters that make up runs. */
  predicate IsWordChar(c: char)
  {
    !IsSymbol(c) && !IsSeparator(c)
  }

  predicate AllWord(s: string)
  {
    forall i :: 0 <= i < |s| ==> IsWordChar(s[i])
  }

  /** A flushed buffer (`cleanOutChars`): the number `parseInt` reads from it, else the text. */
  function RunToken(run: string): (t: Token)
    ensures t.NumTok? <==> ParseInt(run).Some?
    ensures t.NumTok? ==> t.n == ParseInt(run).value
    ensures t.StrTok? ==> t.s == run
  {
    match ParseInt(run)
    case Some(n) => NumTok(n)
    case None => StrTok(run)
  }

  /** What a run becomes: a run has no sign in it (signs are symbols), so after any leading
      white space `parseInt` reads either the value of the leading digits (`"12ab"` is 12) or
      nothing, and then the run is its own text. */
  lemma RunTokenMeaning(run: string)
    requires run != [] && AllWord(run)
    ensures var t := TrimStart(run);
      t != [] && IsDigit(t[0]) ==> RunToken(run) == NumTok(DigitsValue(t[..DigitRun(t)]))
    ensures var t := TrimStart(run);
      t == [] || !IsDigit(t[0]) ==> RunToken(run) == StrTok(run)
  {
    var t := TrimStart(run);
    if t != [] {
      assert t[0] == run[|run| - |t|];
      assert IsWordChar(t[0]);
    }
  }

  /** Length of the longest prefix of `s` made of run characters. */
  function WordRun(s: string): (k: nat)
    ensures k <= |s| && AllWord(s[..k])
    ensures k < |s| ==> !IsWordChar(s[k])
  {
    if s != [] && IsWordChar(s[0]) then
      var k := 1 + WordRun(s[1..]);
      assert s[..k] == [s[0]] + s[1..][..k - 1];
      k
    else 0
  }

  /** A lexeme is one symbol character or a non-empty run of other characters. */
  predicate IsLexeme(x: string)
  {
    (|x| == 1 && IsSymbol(x[0])) || (x != [] && AllWord(x))
  }

  /** The reference split by maximal munch: separators are dropped, every symbol stands alone
      and every longest run of other characters is one lexeme. */
  function Lexemes(s: string): (ls: seq<string>)
    ensures forall k :: 0 <= k < |ls| ==> IsLexeme(ls[k])
    decreases |s|
  {
    if s == [] then []
    else if IsSeparator(s[0]) then Lexemes(s[1..])
    else if IsSymbol(s[0]) then [[s[0]]] + Lexemes(s[1..])
    else
      var k := WordRun(s);
      [s[..k]] + Lexemes(s[k..])
  }

  /** The token for one lexeme: a symbol as its own text, a run through `parseInt`. */
  function Classify(x: string): Token
  {
    if |x| == 1 && IsSymbol(x[0]) then StrTok(x) else RunToken(x)
  }

  function TokensOf(ls: seq<string>): seq<Token>
  {
    if ls == [] then [] else [Classify(ls[0])] + TokensOf(ls[1..])
  }

  /** What `tokenizer(l)` returns. */
  function Tokens(l: string): seq<Token>
  {
    TokensOf(Lexemes(l))
  }

  /** `s` without its separators. */
  function WithoutSeparators(s: string): (r: string)
    ensures forall k :: 0 <= k < |r| ==> !IsSeparator(r[k])
  {
    if s == [] then [] else (if IsSeparator(s[0]) then [] else [s[0]]) + WithoutSeparators(s[1..])
  }

  function Concat(ls: seq<string>): string
  {
    if ls == [] then [] else ls[0] + Concat(ls[1..])
  }

  /** A run stops where the prefix's run stops, or at the join when the text after it cannot
      continue the run. */
  lemma {:induction false} WordRunAppend(a: string, b: string)
    requires WordRun(a) < |a| || b == [] || !IsWordChar(b[0])
    ensures WordRun(a + b) == WordRun(a)
  {
    if a == [] {
      assert a + b == b;
    } else if IsWordChar(a[0]) {
      assert (a + b)[1..] == a[1..] + b;
      WordRunAppend(a[1..], b);
    }
  }

  /** A buffered run followed by a character that cannot continue it is one lexeme. */
  lemma FlushedRun(buf: string, r: string)
    requires buf != [] && AllWord(buf)
    requires r == [] || !IsWordChar(r[0])
    ensures Lexemes(buf + r) == [buf] + Lexemes(r)
  {
    var s := buf + r;
    DigitlessRunLength(buf);
    WordRunAppend(buf, r);
    assert s[0] == buf[0];
    assert s[..|buf|] == buf && s[|buf|..] == r;
  }

  lemma {:induction false} DigitlessRunLength(buf: string)
    requires AllWord(buf)
    ensures WordRun(buf) == |buf|
  {
    if buf != [] {
      DigitlessRunLength(buf[1..]);
    }
  }

  lemma {:induction false} WithoutSeparatorsAppend(a: string, b: string)
    ensures WithoutSeparators(a + b) == WithoutSeparators(a) + WithoutSeparators(b)
    decreases |a|
  {
    if a == [] {
      assert a + b == b;
    } else {
      assert (a + b)[1..] == a[1..] + b;
      WithoutSeparatorsAppend(a[1..], b);
    }
  }

  lemma {:induction false} WithoutSeparatorsOfRun(w: string)
    requires AllWord(w)
    ensures WithoutSeparators(w) == w
  {
    if w != [] {
      WithoutSeparatorsOfRun(w[1..]);
    }
  }

  /** Nothing but the separators is lost: the lexemes, joined, are the input without them. */
  lemma {:induction false} LexemesCoverInput(s: string)
    ensures Concat(Lexemes(s)) == WithoutSeparators(s)
    decreases |s|
  {
    if s == [] {
    } else if IsSeparator(s[0]) {
      LexemesCoverInput(s[1..]);
    } else if IsSymbol(s[0]) {
      LexemesCoverInput(s[1..]);
    } else {
      var k := WordRun(s);
      LexemesCoverInput(s[k..]);
      assert s == s[..k] + s[k..];
      WithoutSeparatorsAppend(s[..k], s[k..]);
      WithoutSeparatorsOfRun(s[..k]);
    }
  }

  /** A separator splits the input into two parts tokenized independently. */
  lemma {:induction false} SeparatorSplits(a: string, c: char, b: string)
    requires IsSeparator(c)
    ensures Lexemes(a + [c] + b) == Lexemes(a) + Lexemes(b)
    decreases |a|
  {
    var s := a + [c] + b;
    if a == [] {
      assert s == [c] + b;
      assert s[1..] == b;
    } else {
      assert s[0] == a[0];
      if IsSeparator(a[0]) || IsSymbol(a[0]) {
        assert s[1..] == a[1..] + [c] + b;
        SeparatorSplits(a[1..], c, b);
      } else {
        var k := WordRun(a);
        if k < |a| {
          WordRunAppend(a, [c] + b);
          assert s == a + ([c] + b);
          assert s[..k] == a[..k];
          assert s[k..] == a[k..] + [c] + b;
          SeparatorSplits(a[k..], c, b);
        } else {
          WordRunAppend(a, [c] + b);
          assert s == a + ([c] + b);
          assert s[..k] == a;
          assert s[k..] == [c] + b;
          assert s[k..][0] == c && s[k..][1..] == b;
          assert Lexemes(s[k..]) == Lexemes(b);
          assert a[..k] == a && a[k..] == [];
          assert Lexemes(a) == [a];
        }
      }
    }
  }

  /** A run of decimal digits by itself is one number token of its value. */
  lemma DigitsAreOneNumber(d: string)
    requires d != [] && AllDigits(d)
    ensures Tokens(d) == [NumTok(DigitsValue(d))]
  {
    assert AllWord(d) by {
      forall i | 0 <= i < |d| ensures IsWordChar(d[i]) {
        assert IsDigit(d[i]);
      }
    }
    FlushedRun(d, []);
    assert d + [] == d;
    assert Lexemes(d) == [d];
    assert !IsSymbol(d[0]) by { assert IsDigit(d[0]); }
    assert TokensOf([d]) == [Classify(d)];
    ParseIntOfDigits(d);
  }

  /** One step of the loop at a separator or symbol `c`: the buffered run is flushed first,
      then a symbol is a token of its own. */
  lemma FlushAt(buf: string, c: char, rest: string)
    requires AllWord(buf) && (IsSeparator(c) || IsSymbol(c))
    ensures TokensOf(Lexemes(buf + [c] + rest)) ==
      (if buf != [] then [RunToken(buf)] else []) + (if IsSymbol(c) then [StrTok([c])] else [])
      + TokensOf(Lexemes(rest))
  {
    var r := [c] + rest;
    assert buf + [c] + rest == buf + r;
    assert r[0] == c && r[1..] == rest;
    var tail := TokensOf(Lexemes(rest));
    var symbolPart: seq<Token> := if IsSymbol(c) then [StrTok([c])] else [];
    assert TokensOf(Lexemes(r)) == symbolPart + tail by {
      if IsSymbol(c) {
        assert Lexemes(r) == [[c]] + Lexemes(rest);
        TokensOfCons([c], Lexemes(rest));
      }
    }
    var flushed: seq<Token> := if buf != [] then [RunToken(buf)] else [];
    assert TokensOf(Lexemes(buf + r)) == flushed + TokensOf(Lexemes(r)) by {
      if buf != [] {
        FlushedRun(buf, r);
        assert Classify(buf) == RunToken(buf) by {
          assert !(|buf| == 1 && IsSymbol(buf[0]));
        }
        TokensOfCons(buf, Lexemes(r));
      } else {
        assert buf + r == r;
      }
    }
    AppendAssoc(flushed, symbolPart, tail);
  }

  lemma AppendAssoc<T>(a: seq<T>, b: seq<T>, c: seq<T>)
    ensures a + (b + c) == a + b + c
  {
  }

  lemma TokensOfCons(x: string, ls: seq<string>)
    ensures TokensOf([x] + ls) == [Classify(x)] + TokensOf(ls)
  {
    assert ([x] + ls)[0] == x && ([x] + ls)[1..] == ls;
  }

  /** The loop invariant survives a separator or a symbol. */
  lemma FlushKeepsInvariant(before: seq<Token>, buf: string, c: char, rest: string, all: seq<Token>)
    requires AllWord(buf) && (IsSeparator(c) || IsSymbol(c))
    requires before + TokensOf(Lexemes(buf + ([c] + rest))) == all
    ensures (before + (if buf != [] then [RunToken(buf)] else []) + (if IsSymbol(c) then [StrTok([c])] else []))
      + TokensOf(Lexemes(rest)) == all
  {
    assert buf + ([c] + rest) == buf + [c] + rest;
    FlushAt(buf, c, rest);
    var flushed: seq<Token> := if buf != [] then [RunToken(buf)] else [];
    var symbolPart: seq<Token> := if IsSymbol(c) then [StrTok([c])] else [];
    AppendAssoc(before, flushed + symbolPart, TokensOf(Lexemes(rest)));
    AppendAssoc(before, flushed, symbolPart);
  }

  /** ... and a run character, which only extends the buffer. */
  lemma ExtendKeepsInvariant(buf: string, c: char, rest: string)
    requires AllWord(buf) && IsWordChar(c)
    ensures AllWord(buf + [c]) && buf + ([c] + rest) == (buf + [c]) + rest
  {
  }

  /** `tokenizer(l)`: the loop over the characters with the `cleanOutChars` flush. It never
      fails, and it returns the tokens of the maximal-munch split. */
  method Tokenize(l: string) returns (tokens: seq<Token>)
    ensures tokens == Tokens(l)
  {
    tokens := [];
    var currentChars: string := [];
    assert currentChars + l[0..] == l;
    for i := 0 to |l|
      invariant AllWord(currentChars)
      invariant tokens + TokensOf(Lexemes(currentChars + l[i..])) == Tokens(l)
    {
      var c := l[i];
      assert l[i..] == [c] + l[i + 1..];
      ghost var before, buf := tokens, currentChars;
      if IsSeparator(c) || IsSymbol(c) {
        FlushKeepsInvariant(tokens, currentChars, c, l[i + 1..], Tokens(l));
        if currentChars != [] {
          tokens := tokens + [RunToken(currentChars)];
          currentChars := [];
        }
        if IsSymbol(c) {
          tokens := tokens + [StrTok([c])];
        }
        assert tokens == before + (if buf != [] then [RunToken(buf)] else []) + (if IsSymbol(c) then [StrTok([c])] else []);
        assert currentChars + l[i + 1..] == l[i + 1..];
      } else {
        ExtendKeepsInvariant(currentChars, c, l[i + 1..]);
        currentChars := currentChars + [c];
      }
    }
    assert l[|l|..] == [];
    if currentChars != [] {
      FlushedRun(currentChars, []);
      assert currentChars + [] == currentChars;
      assert !(|currentChars| == 1 && IsSymbol(currentChars[0]));
      tokens := tokens + [RunToken(currentChars)];
    }
  }
}
