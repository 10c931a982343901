/**
 * The meaning of a parsing expression, as a function of the input, the
 * position and the action context it starts from. `Runtime.Parser` (the
 * parser object of lib/parser.js and lib/parser-stateful.js) is proved to
 * compute exactly these outcomes.
 *
 * Rule references and each round of a `maybe_some` loop consume one unit of
 * `fuel`; a computation that exhausts it stops with `OutOfFuel`, which stands
 * for the non-termination (left recursion, a repeated expression that matches
 * the empty string) that the runtime does not guard against.
 */
module Semantics {
  import opened Values
  import opened Util

  /** An action context: label name to captured value. */
  type Captures = map<string, Value>

  /**
   * A grammar: its rule functions, the semantic actions (called with the
   * action's source text and its action context) and the matcher of compiled
   * character classes.
   */
  datatype Grammar = Grammar(
    rules: map<string, Expr>,
    actions: (string, Captures) -> Value,
    classes: (string, char) -> bool)

  /** Why a computation stopped without a result: a thrown error, or exhausted fuel. */
  datatype Stop =
    | UndefinedRule(name: string)   // `this[name]` is not a function
    | NotAFunction                  // a non-function value called as an expression
    | OutOfFuel

  /** A parse result (`Result`), a failure (`false`), or an exception. */
  datatype Res = Success(value: Value) | Failure | Stopped(why: Stop)

  /** The result of an expression together with the parser position and action context it leaves. */
  datatype Outcome = Outcome(res: Res, pos: nat, ctx: Captures)

  /** `Result.is_empty`: a success whose value is `undefined`. */
  predicate IsEmpty(r: Res)
  {
    r.Success? && r.value == Undefined
  }

  /** `String.prototype.substr(start, length)` for a non-negative start and length. */
  function Substr(s: string, start: nat, length: nat): (r: string)
    ensures |r| <= length
    ensures start <= |s| ==> |r| <= |s| - start
    ensures start + length <= |s| ==> r == s[start..start + length]
    ensures start < |s| ==> r == s[start..if start + length <= |s| then start + length else |s|]
    ensures start >= |s| ==> r == ""
  {
    if start >= |s| then ""
    else if start + length <= |s| then s[start..start + length]
    else s[start..]
  }

  /**
   * `_backtrack`: the inner computation ran on a copy of `ctx`; on success the
   * copy is written back, on failure the position returns to `pos` and `ctx`
   * is untouched; an exception leaves the position where it was thrown.
   */
  function Backtracked(pos: nat, ctx: Captures, inner: Outcome): Outcome
  {
    match inner.res
    case Success(_) => Outcome(inner.res, inner.pos, Merged(ctx, inner.ctx))
    case Failure => Outcome(Failure, pos, ctx)
    case Stopped(_) => Outcome(inner.res, inner.pos, ctx)
  }

  /**
   * The state `check` leaves: the sub-expression ran on the enclosing context
   * itself, and the position returns to `pos` unless it threw.
   */
  function Lookahead(pos: nat, inner: Outcome): Outcome
  {
    match inner.res
    case Success(_) => Outcome(Success(Undefined), pos, inner.ctx)
    case Failure => Outcome(Failure, pos, inner.ctx)
    case Stopped(_) => inner
  }

  /** `reject`: a failed `check` becomes an empty result, a matching one a failure. */
  function Inverted(o: Outcome): Outcome
  {
    match o.res
    case Success(_) => o.(res := Failure)
    case Failure => o.(res := Success(Undefined))
    case Stopped(_) => o
  }

  /** Does `c` match the one-character class `cls`? */
  predicate InClass(g: Grammar, cls: CharClass, c: char)
  {
    match cls
    case OneOf(ranges) => InRanges(ranges, c)
    case Body(text) => g.classes(text, c)
  }

  /** The outcome of running `e` from position `pos` with action context `ctx`. */
  function Eval(g: Grammar, e: Expr, input: string, pos: nat, ctx: Captures, fuel: nat): Outcome
    decreases fuel, e, 2
  {
    match e
    case Pass => Outcome(Success(Undefined), pos, ctx)
    case Advance =>
      if pos < |input| then Outcome(Success(Str([input[pos]])), pos + 1, ctx)
      else Outcome(Failure, pos, ctx)
    case Literal(text) =>
      if Substr(input, pos, |text|) != text then Outcome(Failure, pos, ctx)
      else Outcome(Success(Str(text)), pos + |text|, ctx)
    case Regex(cls) =>
      if pos < |input| && InClass(g, cls, input[pos]) then Outcome(Success(Str([input[pos]])), pos + 1, ctx)
      else Outcome(Failure, pos, ctx)
    case All(es) => Backtracked(pos, ctx, Sequence(g, es, 0, input, pos, ctx, [], fuel))
    case Any(es) => Alternatives(g, es, 0, input, pos, ctx, fuel)
    case Some(sub) =>
      var first := Eval(g, sub, input, pos, ctx, fuel);
      if !first.res.Success? then first
      else
        var rest := Repeat(g, sub, input, first.pos, first.ctx, [], fuel);
        if rest.res.Success? && rest.res.value.List? then
          Outcome(Success(List([first.res.value] + rest.res.value.items)), rest.pos, rest.ctx)
        else rest
    case MaybeSome(sub) => Repeat(g, sub, input, pos, ctx, [], fuel)
    case Maybe(sub) =>
      var r := Eval(g, sub, input, pos, ctx, fuel);
      if r.res.Failure? then r.(res := Success(Null)) else r
    case Check(sub) => Lookahead(pos, Eval(g, sub, input, pos, ctx, fuel))
    case Reject(sub) => Inverted(Lookahead(pos, Eval(g, sub, input, pos, ctx, fuel)))
    case Action(sub, code) =>
      var r := Eval(g, sub, input, pos, map[], fuel);
      if r.res.Success? then
        Outcome(Success(g.actions(code, Merged(map[], r.ctx)["$$" := r.res.value])), r.pos, Merged(ctx, r.ctx))
      else Outcome(r.res, r.pos, ctx)
    case Label(name, sub) =>
      var r := Eval(g, sub, input, pos, ctx, fuel);
      if r.res.Success? then r.(ctx := r.ctx[name := r.res.value]) else r
    case Token(sub) =>
      var r := Eval(g, sub, input, pos, ctx, fuel);
      if r.res.Success? then r.(res := Success(Undefined)) else r
    case Call(rule) =>
      if rule !in g.rules then Outcome(Stopped(UndefinedRule(rule)), pos, ctx)
      else if fuel == 0 then Outcome(Stopped(OutOfFuel), pos, ctx)
      else
        var r := Eval(g, g.rules[rule], input, pos, map[], fuel - 1);
        Outcome(r.res, r.pos, ctx)
    case NotCallable => Outcome(Stopped(NotAFunction), pos, ctx)
  }

  /**
   * The loop of `all` from its `i`-th expression on, with the non-empty
   * results collected so far in `acc`: it stops at the first expression that
   * does not match.
   */
  function Sequence(g: Grammar, es: seq<Expr>, i: nat, input: string, pos: nat, ctx: Captures,
                    acc: seq<Value>, fuel: nat): Outcome
    requires i <= |es|
    decreases fuel, Expr.All(es), 1, |es| - i
  {
    if i == |es| then Outcome(Success(List(acc)), pos, ctx)
    else
      var r := Eval(g, es[i], input, pos, ctx, fuel);
      if !r.res.Success? then r
      else Sequence(g, es, i + 1, input, r.pos, r.ctx, if IsEmpty(r.res) then acc else acc + [r.res.value], fuel)
  }

  /** The loop of `any` from its `i`-th alternative on, each alternative backtracking. */
  function Alternatives(g: Grammar, es: seq<Expr>, i: nat, input: string, pos: nat, ctx: Captures,
                        fuel: nat): Outcome
    requires i <= |es|
    decreases fuel, Expr.Any(es), 1, |es| - i
  {
    if i == |es| then Outcome(Failure, pos, ctx)
    else
      var r := Backtracked(pos, ctx, Eval(g, es[i], input, pos, ctx, fuel));
      if r.res.Failure? then Alternatives(g, es, i + 1, input, pos, ctx, fuel) else r
  }

  /**
   * The loop of `maybe_some`: run `sub` until it fails, collecting the
   * non-empty results in `acc`; every further round costs one unit of fuel.
   */
  function Repeat(g: Grammar, sub: Expr, input: string, pos: nat, ctx: Captures, acc: seq<Value>,
                  fuel: nat): Outcome
    decreases fuel, sub, 3
  {
    var r := Eval(g, sub, input, pos, ctx, fuel);
    match r.res
    case Failure => r.(res := Success(List(acc)))
    case Stopped(_) => r
    case Success(v) =>
      if fuel == 0 then r.(res := Stopped(OutOfFuel))
      else Repeat(g, sub, input, r.pos, r.ctx, if IsEmpty(r.res) then acc else acc + [v], fuel - 1)
  }

  /** What `parse` returns or throws. */
  datatype Completion =
    | Returned(value: Value)     // the start rule's value, or `false`
    | Raised(message: string)    // the error `parse` throws itself
    | Halted(why: Stop)          // an exception from inside the grammar, or exhausted fuel

  const NoStartMessage := "cannot parse without start expression"

  /** `parse` after the start rule ran: only a match of the whole input yields its value. */
  function Finish(o: Outcome, length: nat): (c: Completion)
    ensures o.res.Success? && o.pos == length ==> c == Returned(o.res.value)
    ensures o.res.Failure? || (o.res.Success? && o.pos != length) ==> c == Returned(Bool(false))
    ensures c.Returned? && c.value != Bool(false) ==> o.res.Success? && o.pos == length && c.value == o.res.value
    ensures o.res.Stopped? <==> c.Halted?
    ensures !c.Raised?
  {
    match o.res
    case Success(v) => if o.pos == length then Returned(v) else Returned(Bool(false))
    case Failure => Returned(Bool(false))
    case Stopped(why) => Halted(why)
  }

  /** `parse` on `input` from position `pos`: the start rule runs with an empty action context. */
  function Parsed(g: Grammar, input: string, pos: nat, fuel: nat): Completion
  {
    if "Start" !in g.rules then Raised(NoStartMessage)
    else Finish(Eval(g, g.rules["Start"], input, pos, map[], fuel), |input|)
  }
}
