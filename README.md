# plaiscript core in Dafny

plaiscript is a small Lisp, "mini-lisp". A program goes through these stages:

1. The **language tokenizer** turns the program into string and number tokens. It reads `<=` and `>=` as one token. A string literal, quotes included, is one token only when it holds no symbol character, `<` or `>`: those are split off even inside a string, so `"a(b"` becomes several tokens.
2. A **token cursor** gives the parser one token of lookahead.
3. A **recursive-descent parser** builds S-expressions: atoms, and lists written with `(…)` or `[…]`.
4. **Macros** (`let`, function-shorthand `define`, `strictIf`, `cond`, `list`, `and`, `or`, `not`) rewrite S-expressions before they are evaluated or typed.
5. A **type checker** works over a type algebra of atoms, function types and unions.
6. An **evaluator** keeps a top-level table of definitions, evaluates every top-level form and collects the values of the non-`define` forms.

Two helpers from the library folder are modelled too:

- a **plain tokenizer**, which splits on white space and on single-character symbols;
- a **bracket matcher**, which finds the opening bracket of the text's last closing bracket (used by the editor).

The model has one Dafny module per source file:

| module | source file | what it holds |
|---|---|---|
| `Common` | — | `Option` and `Result` |
| `Js` | — | the two JavaScript built-ins the front end relies on (`parseInt` and integer-to-string) |
| `Ast` | — | tokens, types and S-expressions |
| `LibTokenizer` | `src/lib/tokenizer.ts` | |
| `LangTokenizer` | `src/language/tokenizer.ts` | |
| `UseTokens` | `src/lib/useTokens.ts` | the class `TokenCursor` |
| `Parser` | `src/language/parser.ts` | |
| `Macros` | `src/language/macros.ts` | |
| `Predicates` | `src/language/predicates.ts` | |
| `TypeChecker`, `TypeCheckerFacts` | `src/language/type-checker.ts` | |
| `Interpreter`, `InterpreterFacts` | `src/language/interpreter.ts` | |
| `ParenBalancer` | `src/lib/paren-balancer.ts` | |

Each source file's form decides the Dafny form:

- Code that loops over mutable locals becomes a `method` proved equal to a recursive specification function. These are:
  - the two tokenizers;
  - `cleanOutChars`;
  - the parser driven by the cursor;
  - the program loop of the evaluator;
  - the bracket matcher.
- The cursor, which updates its state in place, becomes a class with `modifies` clauses.
- The recursive evaluators (type checker and interpreter) become functions over a `fuel` bound.
  - Their result type `Result` has a third outcome, `OutOfFuel`.
  - Every property is stated for whatever fuel is given.
  - The lemmas say how each form reduces to the evaluation of its parts with less fuel.

Errors the source throws are the `Err(message)` outcome, with the source's message text kept as written. That includes the typos "undefinied function", "defiine statemens" and "invalid arguments givin to function".

## Model

| member | source | states |
|---|---|---|
| Js.DigitChar | src/lib/tokenizer.ts:9 | the character produced for a digit value is a decimal digit with that value |
| Js.DigitRun | src/lib/tokenizer.ts:9 | the run `parseInt` reads is a prefix of digits, and the character after it is not a digit |
| Js.TrimStart | src/lib/tokenizer.ts:9 | the skipped prefix leaves a suffix of the input that does not start with JavaScript white space |
| Js.NatToString | src/language/parser.ts:45 | a number's decimal text is non-empty and made only of digits |
| Js.NatToStringValue | src/language/parser.ts:45 | reading a natural number's decimal text back gives the number |
| Js.DigitRunAll | src/lib/tokenizer.ts:9 | on a string of digits, the run covers the whole string |
| Js.ParseIntOfDigits | src/lib/tokenizer.ts:9-10 | `parseInt` of a digit string is its decimal value |
| Js.ParseIntOfNegatedDigits | src/lib/tokenizer.ts:9-10 | `parseInt` of `-` followed by digits is the negated value |
| Js.IntToStringRoundTrip | src/language/parser.ts:45 | `parseInt(String(n)) == n` for every integer |
| Js.ParseIntNotANumber | src/lib/tokenizer.ts:9-10 | an input starting with a non-digit that is not space or a sign gives NaN |
| Js.ParseInt | src/lib/tokenizer.ts:9-10 | `parseInt` with radix 10 (no contract of its own): stated by Js.ParseIntOfDigits, ParseIntOfNegatedDigits, ParseIntNotANumber and IntToStringRoundTrip |
| Js.IntToString | src/language/interpreter.ts:200-204 | `String` of an integer (no contract of its own): read back by Js.IntToStringRoundTrip |
| LibTokenizer.RunToken | src/lib/tokenizer.ts:7-13 | a flushed run becomes a number token exactly when `parseInt` reads a number from it, and otherwise stays its own text; what that means for a run is stated by LibTokenizer.RunTokenMeaning (the value of its leading digits, or the text), LibTokenizer.DigitsAreOneNumber and Js.ParseIntOfDigits |
| LibTokenizer.RunTokenMeaning | src/lib/tokenizer.ts:7-13 | a run (which never holds a sign) whose first character after leading white space is a digit becomes the number of its leading digits, as in `12ab` giving 12; any other run is its own text |
| LibTokenizer.WordRun | src/lib/tokenizer.ts:23-25 | the characters collected into one run are all non-separator, non-symbol characters, and the run stops at the first character that is not |
| LibTokenizer.Lexemes | src/lib/tokenizer.ts:14-27 | every lexeme is a single symbol or a non-empty run of word characters |
| LibTokenizer.WithoutSeparators | src/lib/tokenizer.ts:15-18 | the result holds no space, tab or newline |
| LibTokenizer.WordRunAppend | src/lib/tokenizer.ts:23-25 | a run ended inside the first string is not changed by appending more text |
| LibTokenizer.FlushedRun | src/lib/tokenizer.ts:15-22 | a run of word characters followed by a break is one lexeme before the rest |
| LibTokenizer.DigitlessRunLength | src/lib/tokenizer.ts:23-25 | a string of word characters is one whole run |
| LibTokenizer.WithoutSeparatorsAppend | src/lib/tokenizer.ts:15-18 | removing separators distributes over concatenation |
| LibTokenizer.WithoutSeparatorsOfRun | src/lib/tokenizer.ts:23-25 | a run of word characters has no separators to remove |
| LibTokenizer.LexemesCoverInput | src/lib/tokenizer.ts:14-27 | the lexemes concatenated give the input with its separators removed: nothing else is lost or invented |
| LibTokenizer.SeparatorSplits | src/lib/tokenizer.ts:15-18 | a separator splits the input into two independently tokenized halves |
| LibTokenizer.DigitsAreOneNumber | src/lib/tokenizer.ts:7-13 | a digit string tokenizes to one number token with its decimal value |
| LibTokenizer.FlushAt | src/lib/tokenizer.ts:15-22 | unfolding step: at a separator or symbol the pending run is flushed, then the symbol (if any) follows as its own token |
| LibTokenizer.Tokenize | src/lib/tokenizer.ts:3-29 | the loop over the characters ends with exactly the token list of the specification function `Tokens` |
| LibTokenizer.Tokens | src/lib/tokenizer.ts:3-29 | the specification the loop is proved against (no contract of its own): the maximal-munch lexemes, each classified; its properties are LibTokenizer.LexemesCoverInput, SeparatorSplits and DigitsAreOneNumber |
| LangTokenizer.Step | src/language/tokenizer.ts:15-57 | one character fails exactly when it is a newline inside a string, with "unterminated string"; a quote toggles the in-string flag; tokens already emitted are never changed |
| LangTokenizer.Run | src/language/tokenizer.ts:15-57 | scanning never runs out of fuel, and its only error is "unterminated string" |
| LangTokenizer.CleanOutChars | src/language/tokenizer.ts:8-14 | the pending characters are appended as a token (number or text) when non-empty, and the buffer is emptied |
| LangTokenizer.RunSplit | src/language/tokenizer.ts:15-57 | scanning `a + b` is scanning `b` from the state reached after `a` |
| LangTokenizer.RunFailureSticks | src/language/tokenizer.ts:34-38 | once scanning fails, text after the failure does not change the outcome |
| LangTokenizer.Tokenizer | src/language/tokenizer.ts:3-63 | the loop returns exactly the result of the specification function `Tokenize` |
| LangTokenizer.Tokenize | src/language/tokenizer.ts:3-63 | the specification the loop is proved against (no contract of its own): scan, then the final flush; its failures are given by LangTokenizer.TokenizeFailsIff, and on plain text it agrees with the plain tokenizer (LangTokenizer.AgreesWithSplitter) |
| LangTokenizer.InStringIffOddQuotes | src/language/tokenizer.ts:39-49 | after scanning, the in-string flag is set exactly when an odd number of quotes has been seen |
| LangTokenizer.RunFailsIff | src/language/tokenizer.ts:34-38 | scanning fails exactly when a newline occurs inside a string |
| LangTokenizer.TokenizeFailsIff | src/language/tokenizer.ts:34-60 | tokenizing fails exactly when a string holds a newline or a string is left open at the end, always with "unterminated string" |
| LangTokenizer.StringBody | src/language/tokenizer.ts:26-56 | inside a string, spaces, tabs and word characters are appended to the buffer unchanged (symbols, `<` and `>` are still split off there, as the source does) |
| LangTokenizer.StringLiteralIsOneToken | src/language/tokenizer.ts:39-49 | a quoted literal outside a string becomes one token holding both quotes |
| LangTokenizer.SymbolIsText | src/language/tokenizer.ts:50-53 | a single symbol character is a text token |
| LangTokenizer.ComparisonIsOneToken | src/language/tokenizer.ts:16-25 | `<=` and `>=` become one token |
| LangTokenizer.BareComparison | src/language/tokenizer.ts:16-33 | `<` or `>` followed by white space is a one-character token |
| LangTokenizer.FlushKeepsNoEmpty | src/language/tokenizer.ts:8-14 | flushing never emits an empty text token |
| LangTokenizer.StepKeepsNoEmpty | src/language/tokenizer.ts:15-57 | no step emits an empty text token |
| LangTokenizer.NoEmptyTokenEver | src/language/tokenizer.ts:15-57 | no scan emits an empty text token |
| LangTokenizer.TokenizeNoEmptyToken | src/language/tokenizer.ts:3-63 | a successful tokenization holds no empty text token |
| LangTokenizer.NoWhiteSpaceOutsideStrings | src/language/tokenizer.ts:26-38 | without quotes, scanning succeeds and neither tokens nor buffer hold white space |
| LangTokenizer.FlushKeepsNoWhiteSpace | src/language/tokenizer.ts:8-14 | flushing a white-space-free buffer keeps the token list free of white space |
| LangTokenizer.StepKeepsNoWhiteSpace | src/language/tokenizer.ts:15-57 | outside strings a non-quote step succeeds and keeps buffer and tokens free of white space |
| LangTokenizer.TokenizeNoWhiteSpace | src/language/tokenizer.ts:26-38 | a program without quotes tokenizes without error, into tokens that hold no white space |
| LangTokenizer.PlainStep | src/language/tokenizer.ts:26-56 | outside strings, for a character that is not `"`, `<` or `>`, a step either flushes (separator or symbol) or extends the buffer |
| LangTokenizer.AgreeAtEnd | src/language/tokenizer.ts:61-62 | the final flush of a word buffer appends exactly the tokens of its lexemes |
| LangTokenizer.AgreeFrom | src/language/tokenizer.ts:15-62 | on input without quotes or `<`/`>`, scanning from any state behaves like the plain splitter on the buffer followed by the input |
| LangTokenizer.AgreeAfterBreak | src/language/tokenizer.ts:26-53 | flushing at a break and continuing agrees with the plain splitter on the joined text |
| LangTokenizer.AgreesWithSplitter | src/language/tokenizer.ts:3-63 | on input without quotes, `<` or `>`, the language tokenizer gives the same tokens as the plain tokenizer |
| LangTokenizer.TokenizeOfFinished | src/language/tokenizer.ts:58-62 | a scan that ends outside a string with the splitter's tokens gives the splitter's tokens |
| UseTokens.TokenAt | src/lib/useTokens.ts:11-12 | the lookahead at a position is the token there, or none past the end |
| UseTokens.Next | src/lib/useTokens.ts:19-21 | consuming advances by one, and stays put at the end |
| UseTokens.TokenCursor.constructor | src/lib/useTokens.ts:11-12 | a new cursor starts at the first token, with the lookahead being that token or none |
| UseTokens.TokenCursor.Lookahead | src/lib/useTokens.ts:22-24 | the lookahead is the token at the cursor |
| UseTokens.TokenCursor.IsEmpty | src/lib/useTokens.ts:25-27 | the cursor is empty exactly when there is no lookahead, that is at the end of the tokens |
| UseTokens.TokenCursor.Consume | src/lib/useTokens.ts:19-21 | consuming moves one token on, and does nothing past the end |
| UseTokens.TokenCursor.Match | src/lib/useTokens.ts:13-18 | match succeeds exactly when the lookahead is the expected token; it then advances by one, and otherwise fails with "expected X but found Y" and does not move |
| Parser.ParseA | src/language/parser.ts:34-53 | a parsed atom consumes at least one token and is not a list |
| Parser.ParseSE | src/language/parser.ts:22-33 | a parsed S-expression consumes at least one token and stays within the tokens |
| Parser.ParseElements | src/language/parser.ts:15-21 | a parsed element list is non-empty and is followed by the end of the tokens, `)` or `]` |
| Parser.Parse | src/language/parser.ts:8-14 | a parsed program is a non-empty list of S-expressions |
| Parser.ParseAWith | src/language/parser.ts:34-53 | parsing an atom through the cursor gives the result of `ParseA` and leaves the cursor after it |
| Parser.ParseSEWith | src/language/parser.ts:22-33 | parsing an S-expression through the cursor agrees with `ParseSE` |
| Parser.ParseElementsWith | src/language/parser.ts:15-21 | parsing an element list through the cursor agrees with `ParseElements` |
| Parser.ParseMiniLisp | src/language/parser.ts:8-14 | the cursor-driven parser returns exactly the result of `Parse` |
| Parser.NumberAtom | src/language/parser.ts:50-52 | a number token parses to that number |
| Parser.WordAtom | src/language/parser.ts:50-52 | `#t`/`true`/`#true` give true, `#f`/`false`/`#false` give false, and any other word is an identifier |
| Parser.StringAtom | src/language/parser.ts:40-49 | two quotes give the empty string literal; a token between quotes gives its text as a string literal |
| Parser.ExpectedAtom | src/language/parser.ts:34-39 | running out of tokens, or a lone `(` or `[` with nothing after it, fails with "expected atom" (an empty `()` or `[]` fails differently, see Parser.EmptyBrackets) |
| Parser.EmptyBrackets | src/language/parser.ts:22-53 | `()` fails with "expected ) but found undefined" and `[]` with "expected ] but found undefined": the closing bracket is read as an atom and the list is then left without a closer |
| Parser.Unparse | src/language/parser.ts:22-53 | every S-expression is written as at least one token |
| Parser.ListStep | src/language/parser.ts:22-33 | unfolding step: after an opener and its elements, a list is closed by the matching closer, and otherwise fails with the cursor's mismatch message |
| Parser.ReadBackAtom | src/language/parser.ts:34-53 | the tokens written for an atom parse back to that atom |
| Parser.ReadBack | src/language/parser.ts:22-33 | the tokens written for any printable S-expression parse back to it, consuming exactly those tokens |
| Parser.ReadBackAll | src/language/parser.ts:15-21 | the tokens written for a non-empty element list, followed by an end of list, parse back to that list |
| Parser.ParseUnparse | src/language/parser.ts:8-21 | round trip: the tokens written for a non-empty program parse back to exactly that program |
| Parser.TrailingTokens | src/language/parser.ts:11-13 | a complete expression followed by a stray closer fails with "trailing tokens" |
| Parser.ElementsFail | src/language/parser.ts:15-16 | an element list fails with the error of its first element |
| Parser.WrongCloser | src/language/parser.ts:27-30 | a list closed by the wrong kind of bracket fails with the cursor's mismatch message |
| Parser.ParenClosedBySquare | src/language/parser.ts:27-30 | `( … ]` fails with "expected ) but found ]" |
| Parser.SquareClosedByParen | src/language/parser.ts:27-30 | `[ … )` fails with "expected ] but found )" |
| Macros.LetMacro | src/language/macros.ts:11-27 | `let` expands exactly when it has a binding list and a body, and otherwise fails with "invalid let syntax" or "body missing in let statement"; the expansion evaluates the body with the name bound to the value in a copy of the environment (InterpreterFacts.LetEvaluates) and types as the body under that binding (TypeCheckerFacts.LetTyping) |
| Macros.FunMacro | src/language/macros.ts:29-49 | `(define (f x …) body)` is accepted exactly when the head and the parameters are names and the body is there; defining a function this way is defining `f` as the lambda over the parameters (InterpreterFacts.FunctionShorthand) |
| Macros.StrictIfMacro | src/language/macros.ts:51-70 | `strictIf` is accepted exactly with three arguments; its expansion evaluates to the chosen branch when the condition gives a boolean and fails with "expected a boolean for strictIf" otherwise (InterpreterFacts.StrictIfEvaluates), and types as the then-branch (TypeCheckerFacts.StrictIfTypesAsThen) |
| Macros.CondMacro | src/language/macros.ts:72-96 | `cond` is accepted exactly when its first clause is a question–answer pair, and otherwise fails with "invalid conditional case"; its expansion evaluates the first answer whose question is truthy, trying the clauses in order (InterpreterFacts.CondEvaluates), fails once the clauses run out (InterpreterFacts.CondWithoutClauses) and types as the first answer (TypeCheckerFacts.CondTypesAsFirstAnswer) |
| Macros.ListMacro | src/language/macros.ts:98-108 | `list` is accepted whatever its arguments; expanded to the end, `(list e1 … en)` is the `cons` chain of exactly `e1 … en` ending in `()` (Macros.ListExpandsToConsChain) |
| Macros.AndMacro | src/language/macros.ts:110-130 | `and` is accepted whatever its arguments; `(and)` evaluates to true and `(and a)` to `a` (InterpreterFacts.ShortAndOr), a longer `and` guards its first argument with `not` and so fails while `false?` is unbound (InterpreterFacts.AndNeedsFalsePredicate), and `and` of two or more arguments types as its last one (TypeCheckerFacts.AndTypesAsLast) |
| Macros.OrMacro | src/language/macros.ts:132-144 | `or` is accepted whatever its arguments; `(or)` evaluates to false (InterpreterFacts.ShortAndOr), a longer `or` guards its first argument with `not` and so fails while `false?` is unbound (InterpreterFacts.OrNeedsFalsePredicate), and `or` types as its first argument (TypeCheckerFacts.OrTypesAsFirst) |
| Macros.NotMacro | src/language/macros.ts:146-156 | `not` is accepted exactly with one argument; its expansion `(false? x)` fails while `false?` is unbound (InterpreterFacts.NotNeedsFalsePredicate) and types as `boolean` (TypeCheckerFacts.NotTypesAsBoolean) |
| Macros.IsMacro | src/language/macros.ts:1-9 | the macro table's names: `let`, `strictIf`, `cond`, `list`, `and`, `not` and `or` (no contract of its own; used by InterpreterFacts.MacroWhenUnbound and TypeCheckerFacts.MacroCall) |
| Macros.ExpandMacro | src/language/macros.ts:1-9 | the lookup of a macro by name in the table (no contract of its own; each entry's meaning is in the row of that macro) |
| Macros.ListExpandsToConsChain | src/language/macros.ts:98-108 | expanding `(list e1 … en)` and every `list` it leaves behind gives a chain of `cons` calls whose elements, read back, are exactly `e1 … en` in order, ending in `()` |
| Predicates.Flat | src/language/predicates.ts:26-33 | the members of a type's flattening are never unions |
| Predicates.FlatMembers | src/language/predicates.ts:26-33 | the flattened members of a union are never unions |
| Predicates.InFlatMembers | src/language/predicates.ts:26-33 | a type is among a union's flattened members exactly when it is in the flattening of one of them |
| Predicates.InFlatUnion | src/language/predicates.ts:26-33 | a type is in the flattening of a union exactly when it is in the flattening of one member |
| Predicates.AtomSubsetIffMember | src/language/predicates.ts:26-33 | a non-union type is a subset of `b` exactly when it is one of `b`'s flattened members |
| Predicates.SubsetIffFlatInclusion | src/language/predicates.ts:26-33 | `typeSubsetOf(a, b)` holds exactly when every flattened member of `a` is one of `b` |
| Predicates.EquivalentIffSameMembers | src/language/predicates.ts:15-17 | two types are equivalent exactly when their flattened member sets are equal |
| Predicates.SubsetReflexive | src/language/predicates.ts:26-33 | every type is a subset of itself |
| Predicates.SubsetTransitive | src/language/predicates.ts:26-33 | the subset relation is transitive |
| Predicates.EquivalentSymmetric | src/language/predicates.ts:15-17 | equivalence is symmetric |
| Predicates.FlatUnionOfSameMembers | src/language/predicates.ts:26-33 | a union over more members keeps every flattened member of one over fewer |
| Predicates.UnionOrderAndDuplicatesIrrelevant | src/language/predicates.test.ts:1-39 | unions with the same members, in any order and with any repetition, are equivalent |
| Predicates.NestedUnionIrrelevant | src/language/predicates.test.ts:1-39 | a union nested as a member is equivalent to its members spliced in |
| Predicates.ExtraMemberBreaksSubset | src/language/predicates.test.ts:1-39 | adding a new atomic member makes a union neither a subset of nor equivalent to the original |
| Predicates.IsIdent | src/language/predicates.ts:3-5 | a name (no contract of its own) |
| Predicates.IsTypedVar | src/language/predicates.ts:7-9 | a typed variable `x:T` (no contract of its own) |
| Predicates.IsIdentOrTypedVar | src/language/predicates.ts:11-13 | a name or a typed variable (no contract of its own) |
| Predicates.TypeSubsetOf | src/language/predicates.ts:26-33 | `typeSubsetOf` (no contract of its own): its meaning, inclusion of flattened members, is Predicates.SubsetIffFlatInclusion, with SubsetReflexive and SubsetTransitive |
| Predicates.TypeEquivalent | src/language/predicates.ts:15-17 | `typeEquivalent`, mutual subset (no contract of its own): equal flattened member sets by Predicates.EquivalentIffSameMembers |
| ParenBalancer.Pending | src/lib/paren-balancer.ts:12-29 | the pending closers the backwards scan carries are all closing brackets |
| ParenBalancer.PendingNoneAbsorbs | src/lib/paren-balancer.ts:23-26 | once the scan has hit a mismatch, more text to the left cannot undo it |
| ParenBalancer.OpensLastUnique | src/lib/paren-balancer.ts:1-4 | at most one index opens the final closing bracket |
| ParenBalancer.OpensLastExcludesEarlier | src/lib/paren-balancer.ts:18-22 | no index before the matching opener also opens the final bracket |
| ParenBalancer.BalanceParens | src/lib/paren-balancer.ts:5-31 | fails exactly on text that is empty or does not end in `)`/`]`, with "input must end in a closing bracket"; a returned index is the opener that matches the final bracket; `false` means no index opens it |
| ParenBalancer.BalancerExamples | src/lib/paren-balancer.test.ts:1-57 | the opener of `(foo (bar )` is at 5 and that of `(cond [( )]` at 6 |
| TypeChecker.Numbers | src/language/type-checker.ts:19-32 | the expected argument types of an operator are all `number` |
| TypeChecker.ParamTypes | src/language/type-checker.ts:66-86 | a lambda's argument types are its typed variables' types, in order |
| TypeChecker.Tc | src/language/type-checker.ts:10-118 | `tc` under a fuel bound (no contract of its own); form by form it is stated by TypeCheckerFacts.AtomTypes, NameTypes, MathOperatorTyping, ComparisonTyping, PredicateTyping, IfTypesAsThenBranch, LambdaTyping, LocalTyping, ApplicationTyping and the macro typing lemmas |
| TypeChecker.TcList | src/language/type-checker.ts:17-104 | the list case of `tc` (no contract of its own): operators, predicates, special forms, macros, then application, as TypeCheckerFacts.CallStep and the lemmas it leads to state |
| TypeChecker.ApplyFunction | src/language/type-checker.ts:120-128 | `applyFunction` (no contract of its own): stated by TypeCheckerFacts.ApplyFunctionMeaning |
| TypeChecker.Conforms | src/language/type-checker.ts:120-128 | the argument check shared by operators and application (no contract of its own): stated by TypeCheckerFacts.ConformsMeaning and FirstMismatchExists |
| TypeChecker.HandleDefine | src/language/type-checker.ts:130-156 | `handleDefine` (no contract of its own): stated by TypeCheckerFacts.DefineBinds and TypedDefineBinds |
| TypeCheckerFacts.ConformsMeaning | src/language/type-checker.ts:120-128 | arguments conform exactly when each has its expected type; at the first mismatch the result is `false` or that argument's error |
| TypeCheckerFacts.FirstMismatchExists | src/language/type-checker.ts:120-128 | when arguments do not all match, there is a first mismatching one |
| TypeCheckerFacts.AtomTypes | src/language/type-checker.ts:11-16 | numbers, booleans, strings and typed variables type as `number`, `boolean`, `string` and `function` |
| TypeCheckerFacts.NameTypes | src/language/type-checker.ts:110-118 | a built-in name types as `function`, a bound name as its bound type, and any other name fails with "unknown variable" |
| TypeCheckerFacts.NameClasses | src/language/type-checker.ts:6-8 | the math operators, comparison operators and predicates are disjoint, and no built-in is a special form or a macro |
| TypeCheckerFacts.CallStep | src/language/type-checker.ts:17-18 | unfolding step: a call is typed by typing its element list |
| TypeCheckerFacts.OperatorStep | src/language/type-checker.ts:19-32 | unfolding step: an operator application is typed by checking all arguments against `number` |
| TypeCheckerFacts.OutcomeMeaning | src/language/type-checker.ts:19-32 | an operator's outcome is its result type exactly when every argument is a number, and otherwise the operator's message or the first argument's error |
| TypeCheckerFacts.MathOperatorTyping | src/language/type-checker.ts:19-25 | a math operation types as `number` exactly when every argument is a number, and otherwise fails with "math operators require number for all arguments" or the first failing argument's error |
| TypeCheckerFacts.ComparisonTyping | src/language/type-checker.ts:26-32 | a comparison types as `boolean` exactly when every argument is a number, and otherwise fails with "comparison operators require number for all arguments" or the first failing argument's error |
| TypeCheckerFacts.PredicateTyping | src/language/type-checker.ts:33-38 | a predicate with one argument types as `boolean`, and otherwise fails with "predicate requires one argument" |
| TypeCheckerFacts.IfStep | src/language/type-checker.ts:54-65 | unfolding step: `if` needs three arguments and types as its then-branch |
| TypeCheckerFacts.IfTypesAsThenBranch | src/language/type-checker.ts:54-65 | a three-argument `if` has its then-branch's type (the condition and else-branch are not checked) |
| TypeCheckerFacts.IfArity | src/language/type-checker.ts:55-57 | `if` with other than three arguments fails with "if requires 3 arguments" |
| TypeCheckerFacts.LambdaStep | src/language/type-checker.ts:66-86 | unfolding step: a `lambda` needs a parameter list of typed variables and a body, and types as a function type built from them |
| TypeCheckerFacts.LambdaTyping | src/language/type-checker.ts:66-86 | with typed parameters, a lambda types exactly when its body types under the parameter bindings, as a function from the parameter types to the body's type |
| TypeCheckerFacts.LambdaNeedsTypedVars | src/language/type-checker.ts:70-75 | a parameter that is not a typed variable fails with "args for lambda must be s-expr of typed variables" |
| TypeCheckerFacts.ParamEnvLookup | src/language/type-checker.ts:76-84 | the last parameter with a name decides that name's type in the body |
| TypeCheckerFacts.ParamEnvDomain | src/language/type-checker.ts:76-84 | the body sees exactly the parameter names as new bindings |
| TypeCheckerFacts.ApplyCall | src/language/type-checker.ts:87-97 | a plain name at the head is applied when bound to an object type, and otherwise fails with "undefinied function f" |
| TypeCheckerFacts.ApplicationTyping | src/language/type-checker.ts:87-97 | a name bound to a function type is applied to the arguments |
| TypeCheckerFacts.ApplyFunctionMeaning | src/language/type-checker.ts:120-128 | application fails on a wrong argument count and otherwise gives the return type exactly when all arguments match the parameter types, failing at the first mismatch |
| TypeCheckerFacts.UndefinedFunction | src/language/type-checker.ts:87-97 | an unbound head name fails with "undefinied function f" |
| TypeCheckerFacts.HeadMustBeFunction | src/language/type-checker.ts:98-102 | a literal at the head of a list fails with "function required" |
| TypeCheckerFacts.DefineBinds | src/language/type-checker.ts:130-156 | `(define x v)` binds `x` to the type of `v` |
| TypeCheckerFacts.TypedDefineBinds | src/language/type-checker.ts:130-156 | `(define x:T v)` binds `x` when `v` has type `T`, and otherwise fails with "improper type assignment" |
| TypeCheckerFacts.DefinesSnoc | src/language/type-checker.ts:39-53 | the defines of a `local` are checked left to right, each in the environment left by the previous ones |
| TypeCheckerFacts.LocalStep | src/language/type-checker.ts:39-53 | unfolding step: `local` needs two arguments, a list of defines and a body, and types its body in the environment the defines build |
| TypeCheckerFacts.LocalTyping | src/language/type-checker.ts:39-53 | a `local` has its body's type under its defines |
| TypeCheckerFacts.LocalErrors | src/language/type-checker.ts:40-46 | a `local` with other than two arguments, or whose first argument is not a list, fails with the source's messages |
| TypeCheckerFacts.MacroCall | src/language/type-checker.ts:87-97 | unfolding step: a macro call has the type of its expansion |
| TypeCheckerFacts.NotTypesAsBoolean | src/language/type-checker.ts:33-38 | `(not x)` types as `boolean` whatever `x` is |
| TypeCheckerFacts.OrTypesAsFirst | src/language/type-checker.ts:54-65 | `or` has the type of its first argument, and an empty `or` is `boolean` |
| TypeCheckerFacts.AndTypesAsLast | src/language/type-checker.ts:54-65 | `and` of two or more arguments has the type of its last argument |
| TypeCheckerFacts.AndPair | src/language/type-checker.ts:54-65 | unfolding step: `and` of two arguments has the type of the second |
| TypeCheckerFacts.AndStep | src/language/type-checker.ts:54-65 | unfolding step: `and` of more than two arguments has the type of `and` over all but the first |
| TypeCheckerFacts.ShortAndTyping | src/language/type-checker.ts:54-65 | `and` of one argument has its type, and an empty `and` is `boolean` |
| TypeCheckerFacts.StrictIfTypesAsThen | src/language/type-checker.ts:54-65 | `strictIf` has its then-branch's type |
| TypeCheckerFacts.CondTypesAsFirstAnswer | src/language/type-checker.ts:54-65 | `cond` has the type of its first answer |
| Macros.LetExpands | src/language/macros.ts:11-27 | unfolding step: `(let (x v) b)` is `(local ((define x v)) b)` |
| Macros.AndExpands | src/language/macros.ts:110-130 | unfolding step: `and` of two or more arguments expands to the guarded `if` |
| TypeCheckerFacts.OneDefineLocal | src/language/type-checker.ts:39-53 | a `local` with one untyped define types its body with that name bound to the value's type |
| TypeCheckerFacts.LocalOfOne | src/language/type-checker.ts:39-53 | a `local` with one define types its body in the environment that define leaves |
| TypeCheckerFacts.DefineThenBody | src/language/type-checker.ts:130-156 | typing a body after `(define x v)` is typing it with `x` bound to the type of `v` |
| TypeCheckerFacts.LetTyping | src/language/type-checker.ts:87-97 | `(let (x v) b)` has the type of `b` with `x` bound to the type of `v` |
| Interpreter.Bind | src/language/interpreter.ts:38-41 | copying a value for a definition gives a closure without a table the table as it is now and leaves every other value alone; copying again changes nothing (InterpreterFacts.BindTwice) |
| Interpreter.BindAll | src/language/interpreter.ts:38-41 | the copy of a table has the same names, each value copied; copying a copy changes nothing (InterpreterFacts.BindAllTwice) |
| Interpreter.Names | src/language/interpreter.ts:175-187 | a lambda's parameter names, in order |
| Interpreter.Interp | src/language/interpreter.ts:8-21 | the program loop returns exactly the outputs of the specification `Run`, or its first error |
| Interpreter.PrefixFails | src/language/interpreter.ts:8-21 | once a prefix of the program fails, the whole program fails with the same error |
| Interpreter.Eval | src/language/interpreter.ts:44-51 | `evaluateSE` under a fuel bound (no contract of its own); form by form it is stated by the InterpreterFacts lemmas: UndefinedVariable, ArithCall, ComparisonOfValues, PredicateMeaning, IfChooses, LambdaMakesClosure, LocalEvaluates, ErrorThrows, ClosureApplication and the macro lemmas |
| Interpreter.EvalList | src/language/interpreter.ts:52-60 | `evaluateSL`'s head (no contract of its own): `()` for an empty list, a name taken as its text, any other head evaluated (InterpreterFacts.CallStep, EvaluatedHead) |
| Interpreter.Dispatch | src/language/interpreter.ts:61-208 | the dispatch on the head (no contract of its own): stated by InterpreterFacts.BooleanHead, ArithStepLemma, SpecialCall, NamedHead, EmptyListHead and ClosureHead |
| Interpreter.ApplyFunction | src/language/interpreter.ts:211-223 | `applyFunction` (no contract of its own): stated by InterpreterFacts.ClosureApplication, CallEnvOverrides, ParamsEnvValues, ExtraArgumentsIgnored and MissingArgument |
| Interpreter.HandleDefine | src/language/interpreter.ts:23-42 | `handleDefine` (no contract of its own): stated by InterpreterFacts.DefineBinds, FunctionShorthand, NotADefine, DefineWithoutValue and DefineNameNotString |
| Interpreter.Step | src/language/interpreter.ts:11-20 | one form of the program (no contract of its own): stated by InterpreterFacts.TopDefineEmitsNothing and FormValueAppended |
| Interpreter.Run | src/language/interpreter.ts:8-21 | the whole program (no contract of its own): the specification of Interpreter.Interp, with InterpreterFacts.RunAppend, OutputCount and DefinedNameReadable |
| Interpreter.Truthy | src/language/interpreter.ts:167-174 | JavaScript truthiness (no contract of its own): stated by InterpreterFacts.TruthyMeaning |
| Interpreter.Related | src/language/interpreter.ts:98-106 | the relation each comparison operator applies to adjacent values (no contract of its own): stated by InterpreterFacts.LessMeaning |
| Interpreter.JsLess | src/language/interpreter.ts:101-106 | JavaScript's `<` on the values modelled (no contract of its own): stated by InterpreterFacts.LessMeaning and StringLessIrreflexive |
| InterpreterFacts.NameClasses | src/language/interpreter.ts:64-151 | arithmetic operators, comparisons and type predicates are disjoint, and no special form is a macro |
| InterpreterFacts.CallStep | src/language/interpreter.ts:52-60 | unfolding step: a call to a name dispatches on that name's text and the whole list |
| InterpreterFacts.EvalsToNumbersTail | src/language/interpreter.ts:119-125 | numbers evaluated for the arguments are in order |
| InterpreterFacts.FoldOfNumbers | src/language/interpreter.ts:64-97 | when each argument evaluates to a number, the operator folds them left to right |
| InterpreterFacts.LeftFoldSum | src/language/interpreter.ts:65-80 | the left fold of `+`/`-` is the start plus/minus the sum |
| InterpreterFacts.LeftFoldProduct | src/language/interpreter.ts:81-85 | the left fold of `*` is the start times the product |
| InterpreterFacts.LeftFoldQuotient | src/language/interpreter.ts:86-97 | the left fold of `/` is the start divided by the product, and is not finite when some divisor is zero |
| InterpreterFacts.StaysNonFinite | src/language/interpreter.ts:86-97 | once a quotient is not finite it stays so |
| InterpreterFacts.FoldFailure | src/language/interpreter.ts:119-125 | the first argument that is not a number decides the error |
| InterpreterFacts.ArithStepLemma | src/language/interpreter.ts:64-97 | unfolding step: an arithmetic operator head evaluates the arithmetic |
| InterpreterFacts.ArithCall | src/language/interpreter.ts:64-97 | unfolding step: an arithmetic call evaluates the arithmetic on its arguments |
| InterpreterFacts.PlusAndTimes | src/language/interpreter.ts:65-85 | `+` is the sum and `*` the product of the argument numbers |
| InterpreterFacts.MinusOfNumbers | src/language/interpreter.ts:70-80 | `-` of one number negates it, and of more subtracts the rest from the first |
| InterpreterFacts.DivideOfNumbers | src/language/interpreter.ts:86-97 | `/` of one number is its reciprocal, of more the first divided by the product of the rest, and a zero divisor gives a non-finite result |
| InterpreterFacts.ArithArity | src/language/interpreter.ts:70-97 | `-` and `/` with no arguments fail with the source's messages |
| InterpreterFacts.GetNumMeaning | src/language/interpreter.ts:119-125 | reading a number argument succeeds exactly on a number, and otherwise fails with "each argument for f must be a number" or the argument's error |
| InterpreterFacts.NonNumberArgument | src/language/interpreter.ts:119-125 | an arithmetic call fails with the error of its first non-number argument |
| InterpreterFacts.ComparisonCall | src/language/interpreter.ts:98-106 | a comparison with no argument fails with "f requires 1 or more arguments", and otherwise compares the arguments pairwise |
| InterpreterFacts.DistOfValues | src/language/interpreter.ts:107-118 | comparing evaluated arguments gives true exactly when every adjacent pair is related |
| InterpreterFacts.ComparisonOfValues | src/language/interpreter.ts:98-118 | a comparison is true exactly when the chain of values is related pairwise |
| InterpreterFacts.ComparisonArity | src/language/interpreter.ts:98-118 | a comparison with one argument is true, and with none fails |
| InterpreterFacts.ComparisonShortCircuit | src/language/interpreter.ts:107-118 | a comparison is false as soon as its first two values are not related |
| InterpreterFacts.LessMeaning | src/language/interpreter.ts:98-118 | `<`/`>` on numbers are the numeric order; no value is less or greater than itself, and every value equals itself |
| InterpreterFacts.StringLessIrreflexive | src/language/interpreter.ts:98-118 | no string is less than itself |
| InterpreterFacts.PredicateCall | src/language/interpreter.ts:127-151 | unfolding step: a type predicate call evaluates the predicate |
| InterpreterFacts.PredicateOfFirst | src/language/interpreter.ts:127-151 | a predicate needs an argument and looks only at the first |
| InterpreterFacts.PredicateMeaning | src/language/interpreter.ts:127-151 | `boolean?`, `string?`, `number?` and `function?` are true exactly on booleans, strings, numbers, and closures or `()` |
| InterpreterFacts.SpecialCall | src/language/interpreter.ts:152-194 | unfolding step: the special forms dispatch on their head name and are neither operators nor predicates |
| InterpreterFacts.TruthyMeaning | src/language/interpreter.ts:167-174 | the falsy values are false, 0, the empty string and undefined |
| InterpreterFacts.IfChooses | src/language/interpreter.ts:167-174 | `if` evaluates the condition and then exactly one branch, chosen by truthiness |
| InterpreterFacts.IfArity | src/language/interpreter.ts:167-174 | `if` with other than three arguments fails with "if statement requires three arguments" |
| InterpreterFacts.LambdaMakesClosure | src/language/interpreter.ts:175-187 | a lambda whose parameters are names evaluates to a closure over them, the body and the current scope; otherwise it fails with "args for lambda must be s-expr of strings" |
| InterpreterFacts.NestedDefine | src/language/interpreter.ts:188-190 | a `define` inside an expression fails with "found a definition that is not at the top level" |
| InterpreterFacts.ErrorThrows | src/language/interpreter.ts:191-194 | `error` always fails, with its string argument or the JSON text of any other value |
| InterpreterFacts.UndefinedVariable | src/language/interpreter.ts:225-237 | a name evaluates to its bound value, and fails with "undefined variable x" when unbound or bound to undefined |
| InterpreterFacts.NamedHead | src/language/interpreter.ts:195-208 | unfolding step: a plain name at the head applies its bound function, or expands a macro when unbound, or fails with "function 'f' not defined" or "unexpected '()" |
| InterpreterFacts.NamedCall | src/language/interpreter.ts:195-208 | unfolding step: the same dispatch, for a call written with its arguments |
| InterpreterFacts.UnboundHead | src/language/interpreter.ts:200-204 | an unbound name that is neither special nor a macro fails with "function 'f' not defined" |
| InterpreterFacts.MacroWhenUnbound | src/language/interpreter.ts:195-204 | unfolding step: an unbound macro name evaluates its expansion |
| InterpreterFacts.NotNeedsFalsePredicate | src/language/interpreter.ts:195-204 | `not` expands to `false?`, which the evaluator does not define, so an unbound `not` fails with "function 'false?' not defined" |
| InterpreterFacts.LetEvaluates | src/language/macros.ts:11-27 | `(let (x v) b)` evaluates `v`, then `b` in a local copy of the environment with `x` bound to that value; a failure of `v` is the failure of the whole |
| InterpreterFacts.StrictIfEvaluates | src/language/macros.ts:51-70 | `(strictIf c t e)` evaluates `c` and then `t` or `e` when `c` gives a boolean, fails with "expected a boolean for strictIf" when it gives anything else, and fails as `c` fails |
| InterpreterFacts.CondEvaluates | src/language/macros.ts:72-96 | `cond` evaluates its first question, and then its first answer when that is truthy and the `cond` of the remaining clauses otherwise |
| InterpreterFacts.CondWithoutClauses | src/language/macros.ts:72-96 | a `cond` with no clause left fails with "invalid conditional case" |
| InterpreterFacts.ShortAndOr | src/language/macros.ts:110-144 | `(and)` is true, `(or)` is false and `(and a)` is the value of `a` |
| InterpreterFacts.AndNeedsFalsePredicate | src/language/macros.ts:110-130 | `and` of two or more arguments fails with "function 'false?' not defined" unless the program binds `false?` |
| InterpreterFacts.OrNeedsFalsePredicate | src/language/macros.ts:132-144 | `or` of one or more arguments fails with "function 'false?' not defined" unless the program binds `false?` |
| InterpreterFacts.NotExpands | src/language/macros.ts:146-156 | unfolding step: `(not a)` expands to `(false? a)` |
| InterpreterFacts.FalsePredicateUnbound | src/language/interpreter.ts:200-204 | a call of an unbound `false?` fails with "function 'false?' not defined" |
| InterpreterFacts.BindingShadowsMacro | src/language/interpreter.ts:195-199 | a name bound to a closure is applied even when it is also a macro name |
| InterpreterFacts.EvaluatedHead | src/language/interpreter.ts:56-60 | unfolding step: a head that is not a name is evaluated first and the result dispatched on |
| InterpreterFacts.BooleanHead | src/language/interpreter.ts:61-63 | a boolean head fails with "boolean found instead of function at beginning of S-expr" |
| InterpreterFacts.EmptyListHead | src/language/interpreter.ts:205-207 | an empty list head fails with "unexpected '()" |
| InterpreterFacts.ClosureHead | src/language/interpreter.ts:208 | unfolding step: a head evaluating to a closure is applied to the arguments |
| InterpreterFacts.CallEnvOverrides | src/language/interpreter.ts:211-223 | a call sees the caller's names overridden by the parameters, themselves overridden by the closure's own environment |
| InterpreterFacts.BindsSnoc | src/language/interpreter.ts:211-223 | unfolding step: binding one more parameter extends the parameter table by that name |
| InterpreterFacts.ParamsEnvValues | src/language/interpreter.ts:211-223 | when every argument evaluates, each parameter is bound to its argument's value, a later parameter with the same name taking over |
| InterpreterFacts.ParamsFailure | src/language/interpreter.ts:211-223 | the first failing argument decides the call's error |
| InterpreterFacts.ParamsSeeOnlyTheirArguments | src/language/interpreter.ts:211-223 | arguments past the parameters are not evaluated |
| InterpreterFacts.ClosureApplication | src/language/interpreter.ts:211-223 | applying a closure evaluates its body in the combined environment with the parameters bound to the argument values |
| InterpreterFacts.ExtraArgumentsIgnored | src/language/interpreter.ts:211-223 | extra arguments do not change a call |
| InterpreterFacts.MissingArgument | src/language/interpreter.ts:211-223 | a missing argument evaluates to a lookup of `undefined` and fails with "undefined variable undefined" |
| InterpreterFacts.LocalEvaluates | src/language/interpreter.ts:152-166 | unfolding step: `local` evaluates its body in the scope its defines build |
| InterpreterFacts.LocalErrors | src/language/interpreter.ts:152-166 | a `local` whose defines are not a list, or whose body is missing, fails with the source's messages |
| InterpreterFacts.LocalDefinesSnoc | src/language/interpreter.ts:152-166 | the defines of a `local` run left to right, each in the scope left by the previous ones |
| InterpreterFacts.EmptyLocal | src/language/interpreter.ts:152-166 | a `local` without defines is its body |
| InterpreterFacts.DefineBinds | src/language/interpreter.ts:23-42 | unfolding step: `(define x v)` binds `x` to the value of `v` in a copy of the visible names |
| InterpreterFacts.CloneMeaning | src/language/interpreter.ts:38-41 | unfolding step: the copy keeps every name and value, except that closures get their top-level table frozen |
| InterpreterFacts.BindTwice | src/language/interpreter.ts:38-41 | binding a value twice is binding it once: a closure keeps the first table it was given |
| InterpreterFacts.BindAllTwice | src/language/interpreter.ts:38-41 | copying an already copied table changes nothing |
| InterpreterFacts.FunctionShorthand | src/language/interpreter.ts:23-42 | `(define (f x …) b)` is `(define f (lambda (x …) b))` |
| InterpreterFacts.NotADefine | src/language/interpreter.ts:23-42 | anything else fails with "expected define statement" |
| InterpreterFacts.DefineWithoutValue | src/language/interpreter.ts:23-42 | a `define` without a value fails with "value for variable definition required" |
| InterpreterFacts.DefineNameNotString | src/language/interpreter.ts:23-42 | a `define` whose name is not a name fails with "variable name for define statement must be a string" |
| InterpreterFacts.RunAppend | src/language/interpreter.ts:8-21 | unfolding step: running a program with one more form is one more step on the state left by the others |
| InterpreterFacts.TopDefineEmitsNothing | src/language/interpreter.ts:13-16 | a top-level define updates the table and adds no output |
| InterpreterFacts.FormValueAppended | src/language/interpreter.ts:17-20 | any other form appends its value to the output and leaves the table alone |
| InterpreterFacts.ValueFormsSnoc | src/language/interpreter.ts:8-21 | the count of value forms grows by one exactly for a non-define form |
| InterpreterFacts.OutputCount | src/language/interpreter.ts:8-21 | a successful program outputs one value per non-define form |
| InterpreterFacts.DefinedNameReadable | src/language/interpreter.ts:13-20 | after `(define x v)` at the top level, evaluating `x` outputs the value of `v` |

## Left out

- `useTokensK` (src/lib/useTokens.ts:36-63), the cursor with deeper lookahead, is not called by the modelled parser. It is left out.
- `parseInt` (Js.ParseInt) is modelled for radix 10 only. The `0x`/`0X` hexadecimal prefix, `-0` and the loss of precision of very long digit strings are not modelled.
- Numbers: the parser and type checker use integers. The evaluator uses `real`, as an exact model of JavaScript doubles. Rounding, infinities and NaN are not modelled. A division that IEEE arithmetic would make infinite or NaN (a zero divisor) is an error (`Interpreter.NonFinite`) instead of a value.
- Interpreter.NumberText: a non-integral number is written "(non-integral number)" wherever the source renders it with `String` or `JSON.stringify`. That happens in the `error` form's message and, through Interpreter.HeadKey, in the key looked up for a number at the head of a call and in the "function 'f' not defined" message: `((/ 4) 1)` fails with "function '(non-integral number)' not defined" where the source says "function '0.25' not defined". A closure is written "(closure)", which appears only in the `error` form's message.
- Comparisons: `<` and `>` compare numbers and booleans numerically and strings by character code. Every other mix of types, which JavaScript would convert, compares false. `=` is structural equality of values, whereas JavaScript compares closures and `()` by reference.
- ParenBalancer.BalanceParens and Interpreter.StringLess: text is modelled as a sequence of Unicode scalar values, whereas a JavaScript string is a sequence of UTF-16 code units. The index BalanceParens returns counts scalar values, so it differs from the source's after any character outside the Basic Multilingual Plane (for `😀(a)` the model gives 1 and the source 2). StringLess orders strings by scalar value, whereas JavaScript compares code units. The two orders differ between a character above U+FFFF and one in U+E000–U+FFFF. The tokenizers split the text into code units in the source too, but they only ever join such units back together, so their tokens are the same.
- Closures and their environments:
  - `structuredClone` of the top-level table is modelled by the `bound` field of a closure: its top-level table is frozen the first time a define copies it.
  - Object identity between copies is not modelled.
  - Keys inherited from `Object.prototype` are not modelled.
- Fuel: the type checker and interpreter take a `fuel` bound. When it runs out they return `OutOfFuel` rather than diverging. No lemma relates results under different fuel amounts.
- The evaluator has no built-in `false?`, `true?`, `empty?`, `<=` or `>=`, and the model keeps this. `not` expands to `false?`, and `and` of two or more arguments and `or` of one or more guard their first argument with `not`. So these fail with "function 'false?' not defined" unless the program binds `false?` itself (InterpreterFacts.NotNeedsFalsePredicate, AndNeedsFalsePredicate, OrNeedsFalsePredicate). `(and)`, `(and a)` and `(or)` never reach `false?` (InterpreterFacts.ShortAndOr), and `strictIf` uses the built-in `boolean?` (InterpreterFacts.StrictIfEvaluates).
- Not part of this model:
  - `src/language/language.ts` (the pipeline that chains tokenizer, parser, macros and evaluator);
  - `std-lib.ts`;
  - `features.ts`;
  - `grammar.ts`;
  - `print-value.ts`;
  - the React components;
  - console output.
- Several type-checker tests exercise code outside the type-checker file. These are the union types written in source text and their parsing. Only what `type-checker.ts` and `predicates.ts` do themselves is modelled.
