/**
 * The state-threading expressions of lib/expressions.js: an expression maps
 * an immutable parser state to a reply, either a success carrying the next
 * state and a value or a failure carrying an error. The state type is a
 * parameter; a state is read through `peek` and moved by `advance`.
 */
module Expressions {
  import Values

  /** `state.peek(1)`: the next character as a string, or `null` at the end of input. */
  datatype Peek = EndOfInput | Peeked(text: string)

  /** The two state operations the expressions use, each with a length of 1. */
  datatype Stream<!S> = Stream(peek: S -> Peek, advance: S -> S)

  /** The errors the expressions report. */
  datatype Error<S> =
    | Unexpected(state: S, found: string)                // fail_unexpected
    | NoAlternative(state: S, errors: seq<Error<S>>)     // fail_any

  /** `succeed(state, value)` or a failure. */
  datatype Reply<S> = Success(state: S, value: Values.Value) | Failure(error: Error<S>)

  const EndOfInputText := "<end of input>"

  /** `pass`: always succeeds with the state unchanged and the value `null`. */
  function Pass<S>(state: S): (r: Reply<S>)
    ensures r.Success? && r.state == state && r.value == Values.Null
  {
    Success(state, Values.Null)
  }

  /**
   * `advance`: the next character and the state one further on, or an
   * "unexpected end of input" failure at the state itself.
   */
  function Advance<S>(stream: Stream<S>, state: S): (r: Reply<S>)
    ensures stream.peek(state).Peeked? <==> r.Success?
    ensures r.Success? ==> r.state == stream.advance(state) && r.value == Values.Str(stream.peek(state).text)
    ensures r.Failure? ==> r.error == Unexpected(state, EndOfInputText)
  {
    match stream.peek(state)
    case Peeked(c) => Success(stream.advance(state), Values.Str(c))
    case EndOfInput => Failure(Unexpected(state, EndOfInputText))
  }

  /**
   * The loop of `all` from its `i`-th expression on, starting in `state` with
   * the values collected so far in `results`.
   */
  function AllFrom<S>(es: seq<S -> Reply<S>>, i: nat, state: S, results: seq<Values.Value>): Reply<S>
    requires i <= |es|
    decreases |es| - i
  {
    if i == |es| then Success(state, Values.List(results))
    else
      match es[i](state)
      case Failure(e) => Failure(e)
      case Success(next, v) => AllFrom(es, i + 1, next, results + [v])
  }

  /** `all`: threads the state through the expressions and collects every value. */
  method All<S>(es: seq<S -> Reply<S>>, state: S) returns (r: Reply<S>)
    ensures r == AllFrom(es, 0, state, [])
  {
    var current := state;
    var results: seq<Values.Value> := [];
    var i := 0;
    while i < |es|
      invariant i <= |es|
      invariant AllFrom(es, i, current, results) == AllFrom(es, 0, state, [])
    {
      var result := es[i](current);
      if result.Failure? {
        return result;
      }
      results := results + [result.value];
      current := result.state;
      i := i + 1;
    }
    r := Success(current, Values.List(results));
  }

  /** The loop of `any` from its `i`-th alternative on, with the errors collected so far. */
  function AnyFrom<S>(es: seq<S -> Reply<S>>, i: nat, state: S, errors: seq<Error<S>>): Reply<S>
    requires i <= |es|
    decreases |es| - i
  {
    if i == |es| then Failure(NoAlternative(state, errors))
    else
      match es[i](state)
      case Success(_, _) => es[i](state)
      case Failure(e) => AnyFrom(es, i + 1, state, errors + [e])
  }

  /** `any`: the first alternative that succeeds from `state`, or all their errors. */
  method Any<S>(es: seq<S -> Reply<S>>, state: S) returns (r: Reply<S>)
    ensures r == AnyFrom(es, 0, state, [])
  {
    var errors: seq<Error<S>> := [];
    var i := 0;
    while i < |es|
      invariant i <= |es|
      invariant AnyFrom(es, i, state, errors) == AnyFrom(es, 0, state, [])
    {
      var result := es[i](state);
      if result.Success? {
        return result;
      }
      errors := errors + [result.error];
      i := i + 1;
    }
    r := Failure(NoAlternative(state, errors));
  }
}
