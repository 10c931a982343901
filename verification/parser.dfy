/**
 * The parser object of lib/parser.js (and its class-syntax twin
 * lib/parser-stateful.js): the input, a mutable position, and one method per
 * combinator. Action contexts are dictionaries (`Dict`) that the combinators
 * update in place. Every method is proved to leave exactly the position,
 * context and result that `Semantics.Eval` describes.
 */
module Runtime {
  import opened Values
  import opened Util
  import opened Semantics

  /** An optional argument: `parse()` and `reset()` may be called without input. */
  datatype Arg = Omitted | Given(text: string)

  /** What `_backtrack` runs: one expression, or the body of an `all`. */
  datatype Body = Run(e: Expr) | Each(es: seq<Expr>)

  /** The outcome `Semantics` assigns to a backtracking body. */
  function BodyOutcome(g: Grammar, body: Body, input: string, pos: nat, ctx: Captures, fuel: nat): Outcome
  {
    match body
    case Run(e) => Eval(g, e, input, pos, ctx, fuel)
    case Each(es) => Sequence(g, es, 0, input, pos, ctx, [], fuel)
  }

  class Parser {
    /** The rule functions, actions and class matchers a grammar subclass supplies. */
    const grammar: Grammar
    var input: string
    var position: nat

    /** `new Parser(input)`: the constructor resets the parser. */
    constructor (g: Grammar, text: Arg)
      ensures grammar == g
      ensures input == (if text.Given? then text.text else "")
      ensures position == 0
    {
      grammar := g;
      input := if text.Given? then text.text else "";
      position := 0;
    }

    /** `reset`: new input when one is given, and the position back to the start. */
    method Reset(text: Arg)
      modifies this
      ensures input == (if text.Given? then text.text else old(input))
      ensures position == 0
    {
      if text.Given? {
        input := text.text;
      }
      position := 0;
    }

    /**
     * `parse`: throws without a start rule, otherwise (after a reset when input
     * is given) runs the start rule on an empty context and returns its value
     * only when it consumed the whole input.
     */
    method Parse(text: Arg, fuel: nat) returns (c: Completion)
      modifies this
      ensures "Start" !in grammar.rules ==>
        c == Raised(NoStartMessage) && input == old(input) && position == old(position)
      ensures "Start" in grammar.rules ==>
        input == (if text.Given? then text.text else old(input)) &&
        c == Parsed(grammar, input, if text.Given? then 0 else old(position), fuel) &&
        position == Eval(grammar, grammar.rules["Start"], input, if text.Given? then 0 else old(position), map[], fuel).pos
    {
      if "Start" !in grammar.rules {
        return Raised(NoStartMessage);
      }
      if text.Given? {
        Reset(text);
      }
      var scope := new Dict(map[]);
      var r := Apply(scope, grammar.rules["Start"], fuel);
      match r
      case Success(v) => c := if position == |input| then Returned(v) else Returned(Bool(false));
      case Failure => c := Returned(Bool(false));
      case Stopped(why) => c := Halted(why);
    }

    /** Calls a parsing expression on this parser with the context `ctx`. */
    method Apply(ctx: Dict<Value>, e: Expr, fuel: nat) returns (r: Res)
      modifies this`position, ctx
      ensures Outcome(r, position, ctx.entries) == Eval(grammar, e, input, old(position), old(ctx.entries), fuel)
      decreases fuel, e, 5
    {
      match e
      case Pass => r := Pass();
      case Advance => r := Advance();
      case Literal(text) => r := Literal(ctx, text);
      case Regex(cls) => r := Regex(ctx, cls);
      case All(es) => r := All(ctx, es, fuel);
      case Any(es) => r := Any(ctx, es, fuel);
      case Some(sub) => r := Some(ctx, sub, fuel);
      case MaybeSome(sub) => r := MaybeSome(ctx, sub, fuel);
      case Maybe(sub) => r := Maybe(ctx, sub, fuel);
      case Check(sub) => r := Check(ctx, sub, fuel);
      case Reject(sub) => r := Reject(ctx, sub, fuel);
      case Action(sub, code) => r := Action(ctx, sub, code, fuel);
      case Label(name, sub) => r := Label(ctx, name, sub, fuel);
      case Token(sub) => r := Token(ctx, sub, fuel);
      case Call(rule) => r := Rule(ctx, rule, fuel);
      case NotCallable => r := Stopped(NotAFunction);
    }

    /** `pass`: an empty result, no input consumed. */
    method Pass() returns (r: Res)
      ensures r == Success(Undefined)
    {
      r := Success(Undefined);
    }

    /** `advance`: consumes one character, failing only at the end of the input. */
    method Advance() returns (r: Res)
      modifies this`position
      ensures old(position) < |input| ==> r == Success(Str([input[old(position)]])) && position == old(position) + 1
      ensures old(position) >= |input| ==> r == Failure && position == old(position)
    {
      if position < |input| {
        r := Success(Str([input[position]]));
        position := position + 1;
      } else {
        r := Failure;
      }
    }

    /** `literal`: matches `text` at the position and returns it. */
    method Literal(ctx: Dict<Value>, text: string) returns (r: Res)
      modifies this`position
      ensures Substr(input, old(position), |text|) == text ==>
        r == Success(Str(text)) && position == old(position) + |text|
      ensures Substr(input, old(position), |text|) != text ==> r == Failure && position == old(position)
    {
      if Substr(input, position, |text|) != text {
        return Failure;
      }
      position := position + |text|;
      r := Success(Str(text));
    }

    /** `regex` with a one-character class anchored at the position. */
    method Regex(ctx: Dict<Value>, cls: CharClass) returns (r: Res)
      modifies this`position
      ensures old(position) < |input| && InClass(grammar, cls, input[old(position)]) ==>
        r == Success(Str([input[old(position)]])) && position == old(position) + 1
      ensures !(old(position) < |input| && InClass(grammar, cls, input[old(position)])) ==>
        r == Failure && position == old(position)
    {
      if !(position < |input| && InClass(grammar, cls, input[position])) {
        return Failure;
      }
      var matched := [input[position]];
      position := position + |matched|;
      r := Success(Str(matched));
    }

    /** `all`: the sequence body, run under `_backtrack`. */
    method All(ctx: Dict<Value>, es: seq<Expr>, fuel: nat) returns (r: Res)
      modifies this`position, ctx
      ensures Outcome(r, position, ctx.entries) == Eval(grammar, Expr.All(es), input, old(position), old(ctx.entries), fuel)
      decreases fuel, Expr.All(es), 4
    {
      r := Backtrack(ctx, Each(es), fuel);
    }

    /**
     * The function `all` hands to `_backtrack`: runs the expressions in order
     * on one context, stops at the first that does not match, and collects
     * the non-empty results.
     */
    method Sequence(ctx: Dict<Value>, es: seq<Expr>, fuel: nat) returns (r: Res)
      modifies this`position, ctx
      ensures Outcome(r, position, ctx.entries) ==
              Semantics.Sequence(grammar, es, 0, input, old(position), old(ctx.entries), [], fuel)
      decreases fuel, Expr.All(es), 2
    {
      var results: seq<Value> := [];
      var i := 0;
      while i < |es|
        invariant i <= |es|
        invariant Semantics.Sequence(grammar, es, i, input, position, ctx.entries, results, fuel) ==
                  Semantics.Sequence(grammar, es, 0, input, old(position), old(ctx.entries), [], fuel)
      {
        r := Apply(ctx, es[i], fuel);
        if !r.Success? {
          return;
        }
        if r.value != Undefined {
          results := results + [r.value];
        }
        i := i + 1;
      }
      r := Success(List(results));
    }

    /** `any`: the first alternative that matches, each tried under `_backtrack`. */
    method Any(ctx: Dict<Value>, es: seq<Expr>, fuel: nat) returns (r: Res)
      modifies this`position, ctx
      ensures Outcome(r, position, ctx.entries) == Eval(grammar, Expr.Any(es), input, old(position), old(ctx.entries), fuel)
      decreases fuel, Expr.Any(es), 4
    {
      var i := 0;
      while i < |es|
        invariant i <= |es|
        invariant position == old(position) && ctx.entries == old(ctx.entries)
        invariant Alternatives(grammar, es, i, input, position, ctx.entries, fuel) ==
                  Alternatives(grammar, es, 0, input, old(position), old(ctx.entries), fuel)
      {
        r := Backtrack(ctx, Run(es[i]), fuel);
        if !r.Failure? {
          return;
        }
        i := i + 1;
      }
      r := Failure;
    }

    /** `some`: one match, then `maybe_some`; the first value heads the list even when empty. */
    method Some(ctx: Dict<Value>, sub: Expr, fuel: nat) returns (r: Res)
      modifies this`position, ctx
      ensures Outcome(r, position, ctx.entries) == Eval(grammar, Expr.Some(sub), input, old(position), old(ctx.entries), fuel)
      decreases fuel, sub, 7
    {
      var first := Apply(ctx, sub, fuel);
      if !first.Success? {
        return first;
      }
      var rest := MaybeSome(ctx, sub, fuel);
      if rest.Success? && rest.value.List? {
        r := Success(List([first.value] + rest.value.items));
      } else {
        r := rest;
      }
    }

    /** `maybe_some`: runs `sub` until it fails and collects the non-empty results. */
    method MaybeSome(ctx: Dict<Value>, sub: Expr, fuel: nat) returns (r: Res)
      modifies this`position, ctx
      ensures Outcome(r, position, ctx.entries) == Repeat(grammar, sub, input, old(position), old(ctx.entries), [], fuel)
      decreases fuel, sub, 6
    {
      var results: seq<Value> := [];
      var budget: nat := fuel;
      while true
        invariant budget <= fuel
        invariant Repeat(grammar, sub, input, position, ctx.entries, results, budget) ==
                  Repeat(grammar, sub, input, old(position), old(ctx.entries), [], fuel)
        decreases budget
      {
        var x := Apply(ctx, sub, budget);
        if x.Failure? {
          return Success(List(results));
        }
        if x.Stopped? {
          return x;
        }
        if budget == 0 {
          return Stopped(OutOfFuel);
        }
        if x.value != Undefined {
          results := results + [x.value];
        }
        budget := budget - 1;
      }
    }

    /** `maybe`: the sub-expression's result, or `null` when it fails. */
    method Maybe(ctx: Dict<Value>, sub: Expr, fuel: nat) returns (r: Res)
      modifies this`position, ctx
      ensures Outcome(r, position, ctx.entries) == Eval(grammar, Expr.Maybe(sub), input, old(position), old(ctx.entries), fuel)
      decreases fuel, sub, 6
    {
      r := Apply(ctx, sub, fuel);
      if r.Failure? {
        r := Success(Null);
      }
    }

    /**
     * `check`: `_backtrack` around a function that runs the sub-expression on
     * the enclosing context (not on the copy `_backtrack` made) and returns
     * `false`, so the position is always restored.
     */
    method Check(ctx: Dict<Value>, sub: Expr, fuel: nat) returns (r: Res)
      modifies this`position, ctx
      ensures Outcome(r, position, ctx.entries) == Eval(grammar, Expr.Check(sub), input, old(position), old(ctx.entries), fuel)
      decreases fuel, sub, 6
    {
      var origin := position;
      var unused := new Dict(map[]);
      unused := Merge(unused, ctx);
      var x := Apply(ctx, sub, fuel);
      if x.Stopped? {
        return x;
      }
      position := origin;
      r := if x.Success? then Success(Undefined) else Failure;
    }

    /** `reject`: an empty result exactly when `check` fails. */
    method Reject(ctx: Dict<Value>, sub: Expr, fuel: nat) returns (r: Res)
      modifies this`position, ctx
      ensures Outcome(r, position, ctx.entries) == Eval(grammar, Expr.Reject(sub), input, old(position), old(ctx.entries), fuel)
      decreases fuel, sub, 7
    {
      var x := Check(ctx, sub, fuel);
      match x
      case Success(_) => r := Failure;
      case Failure => r := Success(Undefined);
      case Stopped(_) => r := x;
    }

    /**
     * `action`: the sub-expression runs on a fresh context; on a match its
     * captures are copied into the enclosing context and the action is called
     * with a copy of them plus `$$`, the sub-expression's value.
     */
    method Action(ctx: Dict<Value>, sub: Expr, code: string, fuel: nat) returns (r: Res)
      modifies this`position, ctx
      ensures Outcome(r, position, ctx.entries) ==
              Eval(grammar, Expr.Action(sub, code), input, old(position), old(ctx.entries), fuel)
      decreases fuel, sub, 6
    {
      var inner := new Dict(map[]);
      r := Apply(inner, sub, fuel);
      if r.Success? {
        var _ := Merge(ctx, inner);
        var args := new Dict(map[]);
        args := Merge(args, inner);
        args.Put("$$", r.value);
        r := Success(grammar.actions(code, args.entries));
      }
    }

    /** `label`: on a match, stores the value under `name` in the context. */
    method Label(ctx: Dict<Value>, name: string, sub: Expr, fuel: nat) returns (r: Res)
      modifies this`position, ctx
      ensures Outcome(r, position, ctx.entries) ==
              Eval(grammar, Expr.Label(name, sub), input, old(position), old(ctx.entries), fuel)
      decreases fuel, sub, 6
    {
      r := Apply(ctx, sub, fuel);
      if r.Success? {
        ctx.Put(name, r.value);
      }
    }

    /** `token`: an empty result when the sub-expression matches. */
    method Token(ctx: Dict<Value>, sub: Expr, fuel: nat) returns (r: Res)
      modifies this`position, ctx
      ensures Outcome(r, position, ctx.entries) == Eval(grammar, Expr.Token(sub), input, old(position), old(ctx.entries), fuel)
      decreases fuel, sub, 6
    {
      r := Apply(ctx, sub, fuel);
      if r.Success? {
        r := Success(Undefined);
      }
    }

    /** A rule reference `@Rule`: the rule function runs with a context of its own. */
    method Rule(ctx: Dict<Value>, name: string, fuel: nat) returns (r: Res)
      modifies this`position, ctx
      ensures Outcome(r, position, ctx.entries) == Eval(grammar, Expr.Call(name), input, old(position), old(ctx.entries), fuel)
      decreases fuel, Expr.Call(name), 4
    {
      if name !in grammar.rules {
        return Stopped(UndefinedRule(name));
      }
      if fuel == 0 {
        return Stopped(OutOfFuel);
      }
      var scope := new Dict(map[]);
      r := Apply(scope, grammar.rules[name], fuel - 1);
    }

    /**
     * `_backtrack`: runs the body on a copy of the context; copies the result
     * back on a match and restores the position on a failure.
     */
    method Backtrack(ctx: Dict<Value>, body: Body, fuel: nat) returns (r: Res)
      modifies this`position, ctx
      ensures Outcome(r, position, ctx.entries) ==
              Backtracked(old(position), old(ctx.entries), BodyOutcome(grammar, body, input, old(position), old(ctx.entries), fuel))
      decreases fuel, (if body.Run? then body.e else Expr.All(body.es)), (if body.Run? then 6 else 3)
    {
      var origin := position;
      var copy := new Dict(map[]);
      copy := Merge(copy, ctx);
      assert copy.entries == ctx.entries;
      match body {
        case Run(e) => r := Apply(copy, e, fuel);
        case Each(es) => r := Sequence(copy, es, fuel);
      }
      if r.Success? {
        var _ := Merge(ctx, copy);
      } else if r.Failure? {
        position := origin;
      }
    }
  }
}
