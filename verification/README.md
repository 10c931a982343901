# peg-coffee, modelled in Dafny

peg-coffee is a parsing-expression-grammar (PEG) toolkit. Its runtime is a
`Parser` object with a mutable input position and one method per
combinator:

- `pass`, `advance`, `literal`, `regex`;
- `all`, `any`, `some`, `maybe_some`, `maybe`;
- `check`, `reject`, `action`, `label`, `token`;
- `_backtrack`.

Semantic actions receive an action context (a dictionary of labelled
captures). They use the `Context` helpers `extract`, `join`, `compact` and
`unescape`.

`PegCoffeeParser` is a grammar written against that runtime. It reads
peg-coffee grammar files and builds the parser they describe. It is
self-hosting.

The project also models two smaller parts:

- the state-threading `all`/`any` of `lib/expressions.js`;
- the `StringState` positions of `lib/state.js`: line and column counting, and the `name`.

The model has these parts:

- **`Values`**: what parsing produces. There are strings, lists, `null`
  and `undefined`. A compiled expression is a `Code` value, a compiled
  action a `Callback`, and the rule records and generated rule tables have
  values of their own. The module also holds `Expr`, the parsing
  expressions a grammar is made of.
- **`Semantics`**: `Eval`, the reference semantics of every combinator.
  It is a function of the input, the start position and the action context,
  and yields the result, the new position and the new context. A grammar
  (`Grammar`) supplies the rule table, the action callbacks and the
  character-class matcher.
- **`Runtime`**: class `Parser`, a step-by-step model of `lib/parser.js`
  and of its class-syntax twin `lib/parser-stateful.js`:
  - the input and the position are fields the methods update;
  - action contexts are `Util.Dict` objects that the methods change in place;
  - `all`, `any` and `maybe_some` keep their loops.

  Every method is proved to leave exactly the result, position and context
  that `Eval` gives.
- **`Util`**: `merge`, as a loop over a `Dict`.
- **`Context`**: the context helpers and the JavaScript string functions
  they rely on: `indexOf`, a single `replace` and `trim`.
- **`SemanticsLaws`, `ContextLaws`**: laws of the combinators and helpers.
- **`PegCoffee`**:
  - the compiler's rules, as the combinator trees their bodies build;
  - its actions;
  - the `Grammar` action's registration loop.
- **`PegCoffeeLaws`**: what the compiler's lexical rules match and yield,
  how its actions build expressions and records, and which rule table a
  grammar compiles to.
- **`PegCoffeeTokenLaws`**: what the rules reading quoted text, comments,
  blank lines and white space match and yield, and what one repeated item
  of `Grammar` matches.
- **`Expressions`, `ExpressionsLaws`**: the state-threading expressions.
- **`StringStates`, `StringStatesLaws`**: `StringState` and `next()`.
- **`Arguments`**: how `all` passes each element's extra arguments, as
  written and as intended (see "## Findings").

A rule reference runs the rule's body with an action context of its own.
`parse` starts the `Start` rule on `{}`. The compiler calls a rule as
`this[name]()`, with no context. Under any other reading, the action
copy-up of `action` would overwrite the caller's `head`/`tail` labels, so
this is the reading under which the compiler compiles itself.

`check` runs its sub-expression on the enclosing context, not on the copy
that `_backtrack` made. So a label inside a lookahead survives, and
`reject` inherits this behaviour. The model keeps this.

Recursion is bounded by fuel. Each rule call and each round of
`maybe_some` costs one unit. `SemanticsLaws.EvalFuel` proves that fuel
only cuts off runs that would not terminate.

## Model

| member | source | states |
|---|---|---|
| `Runtime.Parser.constructor` | lib/parser.js:142-149 | `new Parser(input)` resets: it stores the given input at position 0 (no input is the empty string here) |
| `Runtime.Parser.Reset` | lib/parser.js:151-158 | `reset` replaces the input only when one is given, and always rewinds to position 0 |
| `Runtime.Parser.Parse` | lib/parser.js:166-180 | Without a `Start` rule, `parse` throws and changes nothing. Otherwise, after the optional reset, its completion is `Semantics.Parsed` and its position is where `Start` stopped |
| `Runtime.Parser.Apply` | lib/parser.js:245-514 | Calling any expression on the parser leaves exactly the result, position and context given by `Eval` |
| `Runtime.Parser.Pass` | lib/parser.js:192-194 | `pass` yields the empty result |
| `Runtime.Parser.Advance` | lib/parser.js:207-213 | `advance` consumes and returns one character, and fails without moving only at the end of input |
| `Runtime.Parser.Literal` | lib/parser.js:226-232 | `literal` consumes the text exactly when it occurs at the position; otherwise it fails without moving |
| `Runtime.Parser.Regex` | lib/parser.js:484-491 | `regex` consumes one character of the class, or fails without moving |
| `Runtime.Parser.All` | lib/parser.js:245-263 | `all` is `_backtrack` around its sequence loop, as `Eval` states |
| `Runtime.Parser.Sequence` | lib/parser.js:248-261 | The loop inside `all` stops at the first non-match and collects the non-empty values, as `Semantics.Sequence` states (loop invariant) |
| `Runtime.Parser.Any` | lib/parser.js:283-295 | `any` tries each alternative under `_backtrack` from the same start, and returns the first that does not fail (loop invariant) |
| `Runtime.Parser.Some` | lib/parser.js:309-318 | `some` is one match followed by `maybe_some`, with the first value at the head of the list |
| `Runtime.Parser.MaybeSome` | lib/parser.js:332-342 | The `maybe_some` loop equals `Semantics.Repeat`; the loop invariant carries the fuel budget |
| `Runtime.Parser.Maybe` | lib/parser.js:355-360 | `maybe` turns a failure into `null` |
| `Runtime.Parser.Check` | lib/parser.js:373-386 | `check` runs the sub-expression on the enclosing context and always restores the position |
| `Runtime.Parser.Reject` | lib/parser.js:399-407 | `reject` yields an empty result exactly when `check` fails |
| `Runtime.Parser.Action` | lib/parser.js:421-437 | `action` runs the sub-expression on a fresh context, copies the captures up, and calls the callback with them plus `$$` |
| `Runtime.Parser.Label` | lib/parser.js:450-457 | `label` stores a match's value under its name |
| `Runtime.Parser.Token` | lib/parser.js:469-477 | `token` keeps the match and discards its value |
| `Runtime.Parser.Rule` | lib/peg_coffee_parser.js:236-238 | A rule reference runs the rule body in a fresh scope. An unknown rule is a thrown `TypeError` |
| `Runtime.Parser.Backtrack` | lib/parser.js:499-514 | `_backtrack` runs on a copy of the context, copies it back on a match, and restores the position on a failure |
| `Util.Merged` | lib/util.js:3-10 | The merged dictionary has the keys of both, the source's value wherever the source has the key, and the target's value elsewhere |
| `Util.Merge` | lib/util.js:3-10 | The `for (k in src)` loop turns `target` into `Merged(old target, src)`, leaves `src` as it was (also when it is `target` itself), and returns `target` |
| `Context.Extracted` | lib/parser.js:73-81 | `extract` has one result per element, namely that element's `index`-th member |
| `Context.Extract` | lib/parser-stateful.js:394-402 | The `extract` loop computes `Extracted` |
| `Context.Join` | lib/parser.js:88-105 | The recursive `join` computes `Joined` |
| `Context.Compacted` | lib/parser.js:112-122 | `compact` keeps only truthy elements of the input, and never lengthens it |
| `Context.Compact` | lib/parser-stateful.js:429-439 | The `compact` loop computes `Compacted` |
| `Context.IndexOf` | lib/parser.js:129-131 | `indexOf` returns the first occurrence, or -1 exactly when there is none |
| `ContextLaws.TrimStartLaws` | lib/peg_coffee_parser.js:290 | The leading part removed by `trim` is all trimmable, and what is left does not start with a trimmable character |
| `ContextLaws.TrimEndLaws` | lib/peg_coffee_parser.js:306 | The trailing part removed by `trim` is all trimmable, and what is left does not end with a trimmable character |
| `ContextLaws.CompactedAppend` | lib/parser.js:112-122 | `compact` distributes over concatenation |
| `ContextLaws.CompactedCounts` | lib/parser.js:112-122 | `compact` keeps each truthy value exactly as often as it occurs and drops every falsy one (a multiset statement) |
| `ContextLaws.CompactedTruthy` | lib/parser.js:112-122 | A list of truthy values is unchanged by `compact` |
| `ContextLaws.CompactedIdempotent` | lib/parser.js:112-122 | `compact` is idempotent |
| `ContextLaws.ConcatAppend` | lib/parser.js:104 | `Array.join('')` distributes over concatenation |
| `ContextLaws.JoinedAppend` | lib/parser.js:88-105 | `join` of a list distributes over concatenation of the list |
| `ContextLaws.JoinedChars` | lib/parser.js:88-105 | Joining the characters matched one by one gives back the matched text |
| `ContextLaws.ReplaceFirstAbsent` | lib/parser.js:129-131 | `replace` with a pattern that does not occur changes nothing |
| `ContextLaws.ReplaceFirstAt` | lib/parser.js:129-131 | `replace` rewrites exactly the first occurrence |
| `ContextLaws.AbsentWithoutBackslash` | lib/parser.js:129-131 | None of `unescape`'s escape patterns occurs in a string without a backslash |
| `ContextLaws.UnescapedPlain` | lib/parser.js:129-131 | `unescape` leaves a string without backslashes unchanged |
| `ContextLaws.UnescapedFirstOnly` | lib/parser.js:129-131 | `unescape` rewrites only the first occurrence of each escape (backslash-n twice gives a line feed, then backslash-n) |
| `ContextLaws.TrimBlank` | lib/peg_coffee_parser.js:332 | `trim` yields `''` exactly when every character is trimmable |
| `ContextLaws.TrimEdges` | lib/peg_coffee_parser.js:290 | `trim`'s result neither starts nor ends with a trimmable character |
| `ContextLaws.TrimIdempotent` | lib/peg_coffee_parser.js:306 | Trimming twice is trimming once |
| `Semantics.Substr` | lib/parser.js:226-232 | `substr` is the part of the input starting at `start`, at most `length` long, and empty past the end |
| `Semantics.Finish` | lib/parser.js:175-179 | After the start rule: a match of the whole input returns its value, a failure or a partial match returns `false`, and an exception is passed through |
| `SemanticsLaws.RepeatNeverFails` | lib/parser.js:332-342 | The `maybe_some` loop never fails. It extends the collected list with non-empty values only |
| `SemanticsLaws.MaybeSomeNeverFails` | lib/parser.js:332-342 | `maybe_some` always matches, with a list free of empty results |
| `SemanticsLaws.SomeFirst` | lib/parser.js:309-318 | `some` fails exactly when its first match fails. A match lists the first value, even when empty, then non-empty values |
| `SemanticsLaws.AlternativesFailureRestores` | lib/parser.js:283-295 | When no alternative of `any` matches, the position and context are those it started with |
| `SemanticsLaws.FailureKeepsPosition` | lib/parser.js:499-514 | Every failing expression leaves the position where it started |
| `SemanticsLaws.EvalBounded` | lib/parser.js:207-232 | The position never moves backwards, and never moves past the end of the input |
| `SemanticsLaws.EvalKeeps` | lib/util.js:3-10 | No expression removes a label from the context it runs in |
| `SemanticsLaws.AllBacktracks` | lib/parser.js:499-514 | `all` runs under `_backtrack`: a failure gives back the start position and context, an exception keeps the context, and a match keeps every label of the context, overridden by those its loop set |
| `SemanticsLaws.AllNil` | lib/parser.js:245-263 | `all` of nothing matches `[]` without moving |
| `SemanticsLaws.AllCons` | lib/parser.js:245-263 | `all` of `[e] + rest` is `e` followed by `all` of `rest`, composed as `Then` states |
| `SemanticsLaws.AnyCons` | lib/parser.js:283-295 | `any` of `[e] + rest` tries `rest` only when `e` fails, and never after a match or an exception |
| `SemanticsLaws.AlternativesFailIff` | lib/parser.js:283-295 | The loop of `any` fails exactly when every remaining alternative fails from the start position |
| `SemanticsLaws.AnyFails` | lib/parser.js:283-295 | `any` fails exactly when every alternative fails, and then it restores position and context |
| `SemanticsLaws.LiteralMatches` | lib/parser.js:226-232 | `literal(t)` matches exactly when `t` occurs at the position, and then consumes `|t|` characters |
| `SemanticsLaws.AdvanceMatches` | lib/parser.js:207-213 | `advance` matches exactly when input is left, and then consumes one character |
| `SemanticsLaws.RegexMatches` | lib/parser.js:484-491 | `regex` matches exactly one character of its class |
| `SemanticsLaws.LookaheadLaws` | lib/parser.js:373-407 | `check` matches exactly when the sub-expression matches, and `reject` exactly when it fails. Both yield empty results, never move unless an exception is thrown, and leave the context as the sub-expression left it, so labels set inside survive |
| `SemanticsLaws.LookaheadKeepsLabels` | lib/parser.js:373-386 | A concrete instance of the context clause of `LookaheadLaws`: `check` and `reject` of a label on an empty context leave that label behind although nothing is consumed |
| `SemanticsLaws.LabelRecords` | lib/parser.js:450-457 | `label` records a match's value under its name and changes nothing else |
| `SemanticsLaws.MaybeLaw` | lib/parser.js:355-360 | `maybe` never fails: a failure becomes `null` at the start position, anything else passes through |
| `SemanticsLaws.TokenLaw` | lib/parser.js:469-477 | `token` keeps the position and context of the match, and its result is empty exactly when the match succeeded |
| `SemanticsLaws.ActionIsolated` | lib/parser.js:421-437 | An action's result does not depend on the enclosing context. The callback sees the sub-expression's captures plus `$$`. On a match, the position is the sub-expression's and its captures are merged into the enclosing context; a non-match leaves the context alone |
| `SemanticsLaws.CallIsolated` | lib/peg_coffee_parser.js:236-238 | A rule reference leaves the caller's context as it was, and an undefined rule throws |
| `SemanticsLaws.ParseWholeInput` | lib/parser.js:166-180 | `parse` throws without `Start`. It returns the value exactly when `Start` matches the whole input, `false` on a failure or a partial match, and passes exceptions through |
| `SemanticsLaws.EvalFuel` | lib/parser.js:309-342 | An outcome that did not run out of fuel is unchanged by more fuel |
| `PegCoffee.ExprsOf` | lib/peg_coffee_parser.js:78-80 | The expressions the compiled values stand for, one per value |
| `PegCoffee.BuildParser` | lib/peg_coffee_parser.js:20-44 | The `Grammar` action's registration loop builds `CompiledTable` (loop invariant) |
| `PegCoffeeLaws.CompilerFits` | lib/peg_coffee_parser.js:342-460 | The compiler defines `NEWLINE`, `SPACE` and `INDENT` as the lemmas below assume. Its `NEWLINE`/`DOUBLE_INDENT` actions yield a line feed, and its identifier actions yield the joined match |
| `PegCoffeeLaws.NewlineMatches` | lib/peg_coffee_parser.js:447-451 | `NEWLINE` matches CR LF, CR or LF (as long as possible) and yields a line feed; otherwise it fails without moving |
| `PegCoffeeLaws.CallNewline` | lib/peg_coffee_parser.js:447-451 | A reference to `NEWLINE` behaves the same |
| `PegCoffeeLaws.SpaceMatches` | lib/peg_coffee_parser.js:458-460 | `SPACE` matches exactly one space, with an empty result |
| `PegCoffeeLaws.IndentMatches` | lib/peg_coffee_parser.js:420-422 | `INDENT` matches exactly a line break followed by two spaces, with an empty result |
| `PegCoffeeLaws.DoubleIndentMatches` | lib/peg_coffee_parser.js:409-413 | `DOUBLE_INDENT` matches exactly an `INDENT` and two more spaces, and yields a line feed |
| `PegCoffeeLaws.RunEnd` | lib/peg_coffee_parser.js:342-365 | The end of the longest run of a class's characters from a position |
| `PegCoffeeLaws.RepeatClass` | lib/parser.js:332-342 | `maybe_some` of a one-character class consumes the longest run of it and collects its characters |
| `PegCoffeeLaws.RuleIdentifierMatches` | lib/peg_coffee_parser.js:342-350 | `RuleIdentifier` matches an upper-case letter plus the longest run of `[_a-zA-Z]` and yields that text; otherwise it fails without moving |
| `PegCoffeeLaws.LabelIdentifierMatches` | lib/peg_coffee_parser.js:357-365 | `LabelIdentifier` matches the longest non-empty run of `[_a-z]` and yields that text; otherwise it fails without moving |
| `PegCoffeeLaws.ChainBuilds` | lib/peg_coffee_parser.js:70-150 | `RuleContent` and `Expression` build `any`, and `Sequence` builds `all`, over the head and the index-2, index-3 or index-1 elements of the tail. With an empty tail they return the head itself |
| `PegCoffeeLaws.PrefixOperators` | lib/peg_coffee_parser.js:174-191 | `&` compiles to `check` and `!` to `reject` |
| `PegCoffeeLaws.SuffixOperators` | lib/peg_coffee_parser.js:198-219 | `?`, `*` and `+` compile to `maybe`, `maybe_some` and `some` |
| `PegCoffeeLaws.PrimaryForms` | lib/peg_coffee_parser.js:226-261 | `.` compiles to `advance`, `~` to `pass`, a rule name to a call of that rule, and a parenthesised expression to itself |
| `PegCoffeeLaws.RegisteredKeys` | lib/peg_coffee_parser.js:36-40 | The registration loop defines exactly the table's keys plus the names of the rule records |
| `PegCoffeeLaws.RegisteredLast` | lib/peg_coffee_parser.js:36-40 | A name registered twice ends with the last record's expression |
| `PegCoffeeLaws.RegisteredUntouched` | lib/peg_coffee_parser.js:36-40 | A name no record registers keeps its entry |
| `PegCoffeeLaws.GrammarRegisters` | lib/peg_coffee_parser.js:20-44 | The compiled parser's `Start` is the first rule unless a rule is named `Start`. Every rule is registered under its own name, and a later rule of the same name wins |
| `PegCoffeeLaws.RecordForms` | lib/peg_coffee_parser.js:51-276 | `Rule` (51-63) builds a record of the captured name and content and of exactly the truthy captured comments, in order. `RuleLine` (92-106) wraps its expression in an action exactly when the line carries code, else passes it through. `Label` (157-167) labels its expression with the matched name. `SubExpression` (268-276) passes the inner expression through |
| `PegCoffeeTokenLaws.TokensFit` | lib/peg_coffee_parser.js:327-402 | The compiler's `Literal`, `Class`, `Comment` and `Rule` actions are the ones the lemmas below assume |
| `PegCoffeeTokenLaws.RepeatThen` | lib/parser.js:332-342 | A matching round of `maybe_some` puts its value in front of the values of the rest of the loop |
| `PegCoffeeTokenLaws.RepeatStops` | lib/parser.js:332-342 | The first round that fails ends `maybe_some`, which succeeds with the values collected so far |
| `PegCoffeeTokenLaws.SpacesEnd` | lib/peg_coffee_parser.js:429-431 | The end of the run of spaces from a position: everything before it is a space, and it is not one |
| `PegCoffeeTokenLaws.RepeatSpaces` | lib/peg_coffee_parser.js:429-431 | `maybe_some` of `SPACE` consumes exactly that run |
| `PegCoffeeTokenLaws.EmptyLineMatches` | lib/peg_coffee_parser.js:429-431 | `EMPTY_LINE` matches the run of spaces and the line break after it, with an empty result; without a line break there it fails without moving |
| `PegCoffeeTokenLaws.SpacesThenBreak` | lib/peg_coffee_parser.js:429-431 | A token of an empty-valued run followed by a line break matches exactly when the line break does, ending after it with an empty result and the context unchanged |
| `PegCoffeeTokenLaws.SpacesBreakAll` | lib/parser.js:245-263 | `all` of that run and the line break matches exactly when the line break does, ending after it; otherwise it fails without moving |
| `PegCoffeeTokenLaws.WhitespaceMatches` | lib/peg_coffee_parser.js:438-440 | `WHITESPACE` matches a line break (yielding a line feed), else one space (empty result); otherwise it fails without moving |
| `PegCoffeeTokenLaws.QuotedEnd` | lib/peg_coffee_parser.js:383 | The end of a quoted body: it stops at the closing character or at a final lone backslash |
| `PegCoffeeTokenLaws.QuotedEndEscaped` | lib/peg_coffee_parser.js:383 | Every closing character inside a quoted body follows the backslash that escapes it |
| `PegCoffeeTokenLaws.JoinedRounds` | lib/peg_coffee_parser.js:375-378 | Joining the collected body gives back the text between the quotes, escapes as written |
| `PegCoffeeTokenLaws.QuotedGuard` | lib/peg_coffee_parser.js:383 | The guard of a body character takes a backslash, refuses the closing character, and otherwise matches empty |
| `PegCoffeeTokenLaws.QuotedStepMatches` | lib/peg_coffee_parser.js:383 | One body round takes a backslash with the character after it, or one character that is neither a backslash nor the closing one |
| `PegCoffeeTokenLaws.RepeatQuoted` | lib/peg_coffee_parser.js:383 | `maybe_some` of body rounds consumes the body up to its end and collects one value per round |
| `PegCoffeeTokenLaws.QuotedTail` | lib/peg_coffee_parser.js:383 | The labelled body and the closing character match exactly when the closing character follows the body's end, capturing the body as `content`; otherwise they fail without moving |
| `PegCoffeeTokenLaws.Opened` | lib/parser.js:245-263 | An opening character and the rest of a bracketed expression match together exactly when both do, with the opening character first; otherwise the whole fails without moving or capturing |
| `PegCoffeeTokenLaws.QuotedMatches` | lib/peg_coffee_parser.js:383 | A quoted expression matches the opening character, the body and the closing character, labelling the body `content`; otherwise it fails without moving or capturing |
| `PegCoffeeTokenLaws.QuotedRule` | lib/parser.js:420-435 | An action over a quoted expression yields its action text of the characters between the quotes and keeps the `content` capture; when the quoted expression fails, the action fails without moving or changing the context |
| `PegCoffeeTokenLaws.LiteralRuleMatches` | lib/peg_coffee_parser.js:372-384 | `Literal` matches a single- or double-quoted string up to the first unescaped quote and compiles the unescaped text between the quotes to a literal; otherwise it fails without moving |
| `PegCoffeeTokenLaws.LiteralAlternatives` | lib/peg_coffee_parser.js:383 | The two alternatives read double quotes when the input has `"` at the position and single quotes otherwise; an unclosed string fails without moving or capturing |
| `PegCoffeeTokenLaws.ClassRuleMatches` | lib/peg_coffee_parser.js:391-402 | `Class` matches a bracketed class up to the first unescaped `]` and compiles the unescaped text between the brackets to a class; otherwise it fails without moving |
| `PegCoffeeTokenLaws.LineEnd` | lib/peg_coffee_parser.js:334 | The first line break from a position, or the end of the input |
| `PegCoffeeTokenLaws.RepeatLine` | lib/peg_coffee_parser.js:334 | `maybe_some` of "not a line break, then any character" consumes the rest of the line and collects its characters |
| `PegCoffeeTokenLaws.CommentMatches` | lib/peg_coffee_parser.js:327-335 | `Comment` matches `#`, the rest of the line and its line break, and yields the trimmed text after the `#`; a comment without a line break, or no `#`, fails without moving |
| `PegCoffeeTokenLaws.CommentTail` | lib/peg_coffee_parser.js:334-335 | The labelled rest of the line and the line break match exactly when a line break ends the line, capturing the text as `content`; otherwise they fail without moving |
| `PegCoffeeTokenLaws.CallRule` | lib/peg_coffee_parser.js:51-63 | A reference to `Rule` keeps the caller's context and yields a rule record when it matches |
| `PegCoffeeTokenLaws.GrammarTailItem` | lib/peg_coffee_parser.js:43 | An item of `Grammar`'s tail matches exactly when two line breaks and a rule do; its element at index 2, the one `extract(tail, 2)` registers, is that rule's record |
| `PegCoffeeTokenLaws.TailItemRecord` | lib/parser.js:245-263 | `all` of two line breaks and a context-keeping record expression matches exactly when all three do, yields the two line feeds and the record, and otherwise fails without moving |
| `Expressions.Pass` | lib/expressions.js:12-14 | `pass` succeeds with the state unchanged and `null` |
| `Expressions.Advance` | lib/expressions.js:21-29 | `advance` succeeds exactly when `peek` finds a character. It then advances the state; otherwise it reports an unexpected end of input |
| `Expressions.All` | lib/expressions.js:44-58 | The `all` loop computes `AllFrom` |
| `Expressions.Any` | lib/expressions.js:60-72 | The `any` loop computes `AnyFrom` |
| `ExpressionsLaws.AllCons` | lib/expressions.js:44-58 | `all` threads the state: `e` runs on the given state and the rest on `e`'s state. The first failure is returned, and every value is listed unfiltered |
| `ExpressionsLaws.AllLength` | lib/expressions.js:44-58 | A success of `all` holds exactly one value per expression |
| `ExpressionsLaws.ErrorsFrom` | lib/expressions.js:60-72 | The alternatives' errors, in order |
| `ExpressionsLaws.AnyLaw` | lib/expressions.js:60-72 | `any` fails exactly when every alternative fails, with all their errors in order. A success is the reply of the first alternative that succeeds |
| `StringStates.NatText` | lib/state.js:29 | A number is rendered in decimal digits without a leading zero |
| `StringStates.Next` | lib/state.js:38-57 | `next()` is `undefined` exactly at the end of the string |
| `StringStatesLaws.NextLaws` | lib/state.js:38-57 | `next()` yields the element at the index and the next index. A line break moves to column 1 of the next line; any other element moves one column on |
| `StringStatesLaws.NextInside` | lib/state.js:43 | Inside the string, the element is the character at the index |
| `StringStatesLaws.CrLfOneLine` | lib/state.js:45-47 | A CR LF pair counts as one line break |
| `StringStatesLaws.WalkLines` | lib/state.js:38-57 | After `k` steps, the index has moved by `k`, the line by the number of breaks passed, and the column by `k` when none was passed |
| `StringStatesLaws.NatTextValue` | lib/state.js:29 | The decimal rendering of a number reads back as the number |
| `StringStatesLaws.NameReadsBack` | lib/state.js:29 | `name` is source, colon, line, colon, column, and both numbers read back from it |
| `StringStatesLaws.NegativeText` | lib/state.js:29 | A negative line or column is written as a minus sign followed by its digits |
| `Arguments.AllCalls` | lib/parser.js:245-263 | The loop of `all`, with its one `args` variable, makes the calls `Written` gives |
| `Arguments.LastListed` | lib/parser.js:251-253 | The last array element at or before an index: every element after it up to the index is bare |
| `Arguments.WrittenCalls` | lib/parser-stateful.js:107-124 | `all` as written throws exactly when its first element is bare, at that element; otherwise each element is called with the arguments of the last array element at or before it |
| `Arguments.StaleArguments` | lib/parser.js:251-254 | A bare element after `[literal, ':']` is called with `':'`, where the intended call has no extra arguments |
| `Arguments.Intended` | lib/parser.js:283-295 | The intended calls: one per element, in order, an array's arguments for an array and none for a bare function |
| `Arguments.Wrapped` | lib/parser.js:286-288 | `any` turns a bare function into a one-element array and leaves arrays as they are |
| `Arguments.WrappedIntended` | lib/parser.js:283-295 | Wrapping bare elements as `any` does makes the loop as written give the intended calls |
| `Arguments.WrittenIntended` | lib/parser.js:245-263 | `all` as written makes the intended calls exactly when its first element is an array and every bare element follows an array with no arguments |

## Findings

| source | as written | input that shows it | evidently intended | confidence | as-written member | corrected member |
|---|---|---|---|---|---|---|
| lib/parser.js:251-254 | `all` sets `args` only from array elements, and `args` is `undefined` until the first one | `all(context, [f, g])` with bare `f`, such as the documented `( -> @literal c ) for c in 'abc'` (lib/parser.js:241): spreading `undefined` throws a `TypeError`. `[[literal, ':'], INDENT]` calls `INDENT` with `':'` | a bare element is called with no extra arguments, as `any` arranges by wrapping it (lib/parser.js:286-288) | high; not executed | `Arguments.WrittenCalls` | `Arguments.WrappedIntended` |

## Left out

- The callbacks of actions are parameters. Compiled action code is run with
  `eval` after CoffeeScript compilation, so the model's `Grammar.actions` is a
  parameter and a compiled action is an uninterpreted `Callback` text.
- The regular expressions are parameters. `regex` is modelled for a pattern
  that matches one character at the position. The five patterns written in
  lib/peg_coffee_parser.js itself are of that kind, and each becomes a set of
  ranges. General JavaScript regular expressions are not modelled.
- Compiled classes are one-character predicates supplied by
  `Grammar.classes`. A compiled `Class` becomes `RegExp("^[" + klass + "]")`
  (lib/peg_coffee_parser.js:397-399), where `klass` is the unescaped class
  text, so a `]` that unescaping produces can close the class early. The
  grammar class `[\\\]]` compiles to `/^[\\]]/`, which matches a backslash and
  then a `]` (two characters). The grammar class `[\\]` compiles to `/^[\]/`,
  which throws a `SyntaxError` when the rule runs. Neither case can be
  expressed by the model's one-character matcher.
- Runtime.Parser.All, Runtime.Parser.Sequence: every element is modelled as
  if it were passed as `[fn, ...args]`, with its own arguments. As written,
  `all` keeps one `args` variable for the whole call and sets it only from
  array elements (lib/parser.js:254, lib/parser-stateful.js:116). So a bare
  first element spreads `undefined` and throws a `TypeError` before it runs,
  and a later bare element is called with the previous array's arguments.
  Module `Arguments` models both effects; see "## Findings".
- `parse_context` and `get_context` are left out. They only format error
  reports.
- The `Failure` class is not modelled, and neither is `Object.freeze` of
  results; a failure is modelled as the `Failure` result.
- `sequence` in lib/expressions.js is left out because its body refers to a
  name it does not bind (`literal`), so it cannot run as written.
- A parser built without input has `undefined` as its input in JavaScript;
  the model gives it the empty string. `Arg.Omitted` otherwise keeps the
  previous input, and the `String(input)` conversion of non-strings is not
  modelled.
- `extract` on `null` or `undefined` elements would throw in JavaScript.
  The model yields `undefined` for them (`Context.Element`).
- Unexpected captures in the compiler's actions are not modelled. A
  non-string label, a non-callback action and a non-list `$$` become the
  empty string, the empty callback or `undefined` (`KeyOf`, `CodeOf`,
  `Drop`); the compiler's own rules never produce such captures.
- A registered value that is not a rule record is skipped by `Register`.
  JavaScript would throw on its `name`.
- Recursion is bounded by fuel. A run that would not terminate (left
  recursion, `maybe_some` of an expression that matches without consuming)
  ends in `OutOfFuel` rather than a stack overflow or a hang.
- lib/peg_coffee_parser.js calls the combinators without the context
  argument that lib/parser.js takes first. The model reads each rule body as
  the combinator tree it names.
- `Context.ReplaceFirst` has no contract of its own. Its behaviour is stated
  by `ContextLaws.ReplaceFirstAbsent` and `ContextLaws.ReplaceFirstAt`.
- PegCoffee.ActionBody: what `Action` matches and the code text its actions
  keep are not stated by a lemma. Its block form nests lookaheads of
  `DOUBLE_INDENT` and `WHITESPACE` inside a repetition, and the text it
  keeps is only ever run by the CoffeeScript compiler, which is not modelled.
- PegCoffee.RuleBody: only the record `Rule` builds is stated
  (`PegCoffeeLaws.RecordForms`), not what it matches. Its content recurses
  through `RuleContent`, `Expression` and every rule below it.
- PegCoffee.RuleLineBody, PegCoffee.LabelBody, PegCoffee.SubExpressionBody:
  only what their actions build is stated (`PegCoffeeLaws.RecordForms`), not
  what they match, for the same reason: each recurses through the
  expression rules.
- lib/parser.js:7 loads Node's built-in `util` module, which has no `merge`,
  so its `action` (line 431) and `_backtrack` (line 503) would throw there.
  The model uses the `merge` of lib/util.js for both runtime files, as
  lib/parser-stateful.js:7 does.
- Rule names that clash with members of the runtime are not modelled. A
  grammar rule named `Result`, `Failure` or `Context` would be found as the
  runtime's own class (lib/parser.js:18, 47, 65), and one named `Context`
  would also break `reset`'s `new this.Context` (lib/parser.js:151-156).
  The model treats every name as a grammar rule, and a name with no rule
  as an error.
- PegCoffeeLaws lexical lemmas: these lemmas are stated for any grammar that
  defines the rules and actions they require. `PegCoffeeLaws.CompilerFits`
  proves that the compiler's grammar is one of them, so that no lemma
  unfolds the whole compiler.
- Strings are sequences of Unicode code points, not of UTF-16 code units
  as in JavaScript. For a character outside the Basic Multilingual Plane,
  `advance`, `regex`, `substr` and `length` in `literal` and `parse`, and
  the index and column of `StringState.next()`, count one unit where
  JavaScript counts two.
- StringStates.NatText: numbers are always written in plain decimal digits.
  The template string in `name` writes numbers of 1e21 and more in exponent
  form, which the model does not reproduce.
- `StringState`'s constructor is a datatype value, and `context()` and
  `peek`/`advance` of other state classes are not modelled; lib/expressions.js
  takes them as the `Stream` parameter.
