/**
 * Laws of the parsing expressions (lib/parser.js, lib/parser-stateful.js),
 * stated about `Semantics.Eval` and therefore, through the contracts of
 * `Runtime.Parser`, about the parser object itself.
 */
module SemanticsLaws {
  import opened Values
  import opened Util
  import opened Semantics

  /** The values a loop keeps of a result: nothing for an empty result, the value otherwise. */
  function Kept(r: Res): seq<Value>
    requires r.Success?
  {
    if IsEmpty(r) then [] else [r.value]
  }

  /** An outcome whose list value is preceded by `acc`; other outcomes are unchanged. */
  function Prefixed(acc: seq<Value>, o: Outcome): Outcome
  {
    if o.res.Success? && o.res.value.List? then o.(res := Success(List(acc + o.res.value.items))) else o
  }

  // ---------------------------------------------------------------------
  // maybe_some never fails
  // ---------------------------------------------------------------------

  /**
   * The loop of `maybe_some` cannot fail: it ends with a list that extends
   * the collected values by non-empty values only, or it stops.
   */
  lemma {:induction false} RepeatNeverFails(g: Grammar, sub: Expr, input: string, pos: nat, ctx: Captures,
                                            acc: seq<Value>, fuel: nat)
    ensures var o := Repeat(g, sub, input, pos, ctx, acc, fuel);
      !o.res.Failure? &&
      (o.res.Success? ==>
         o.res.value.List? && acc <= o.res.value.items &&
         forall i :: |acc| <= i < |o.res.value.items| ==> o.res.value.items[i] != Undefined)
    decreases fuel
  {
    var r := Eval(g, sub, input, pos, ctx, fuel);
    if r.res.Success? && fuel > 0 {
      RepeatNeverFails(g, sub, input, r.pos, r.ctx, if IsEmpty(r.res) then acc else acc + [r.res.value], fuel - 1);
    }
  }

  /** `maybe_some` always matches, with a list holding no empty (`undefined`) value. */
  lemma MaybeSomeNeverFails(g: Grammar, sub: Expr, input: string, pos: nat, ctx: Captures, fuel: nat)
    ensures var o := Eval(g, MaybeSome(sub), input, pos, ctx, fuel);
      !o.res.Failure? &&
      (o.res.Success? ==> o.res.value.List? && forall v :: v in o.res.value.items ==> v != Undefined)
  {
    RepeatNeverFails(g, sub, input, pos, ctx, [], fuel);
  }

  /**
   * `some` fails exactly when its first match fails; a match is a list that
   * starts with the first value, however empty, followed by non-empty values.
   */
  lemma SomeFirst(g: Grammar, sub: Expr, input: string, pos: nat, ctx: Captures, fuel: nat)
    ensures var o := Eval(g, Some(sub), input, pos, ctx, fuel);
      var first := Eval(g, sub, input, pos, ctx, fuel);
      (o.res.Failure? <==> first.res.Failure?) &&
      (o.res.Success? ==>
         first.res.Success? && o.res.value.List? && |o.res.value.items| >= 1 &&
         o.res.value.items[0] == first.res.value &&
         forall i :: 1 <= i < |o.res.value.items| ==> o.res.value.items[i] != Undefined)
  {
    var first := Eval(g, sub, input, pos, ctx, fuel);
    if first.res.Success? {
      RepeatNeverFails(g, sub, input, first.pos, first.ctx, [], fuel);
    }
  }

  // ---------------------------------------------------------------------
  // A failure does not move the position
  // ---------------------------------------------------------------------

  /** When no alternative of `any` matches, position and action context are those it started with. */
  lemma {:induction false} AlternativesFailureRestores(g: Grammar, es: seq<Expr>, i: nat, input: string,
                                                       pos: nat, ctx: Captures, fuel: nat)
    requires i <= |es|
    ensures var o := Alternatives(g, es, i, input, pos, ctx, fuel);
      o.res.Failure? ==> o.pos == pos && o.ctx == ctx
    decreases |es| - i
  {
    if i < |es| {
      AlternativesFailureRestores(g, es, i + 1, input, pos, ctx, fuel);
    }
  }

  /** Every expression that fails leaves the position where it started. */
  lemma {:induction false} FailureKeepsPosition(g: Grammar, e: Expr, input: string, pos: nat, ctx: Captures,
                                                fuel: nat)
    ensures var o := Eval(g, e, input, pos, ctx, fuel);
      o.res.Failure? ==> o.pos == pos
    decreases fuel, e
  {
    match e
    case Any(es) => AlternativesFailureRestores(g, es, 0, input, pos, ctx, fuel);
    case Some(sub) =>
      FailureKeepsPosition(g, sub, input, pos, ctx, fuel);
      var first := Eval(g, sub, input, pos, ctx, fuel);
      if first.res.Success? {
        RepeatNeverFails(g, sub, input, first.pos, first.ctx, [], fuel);
      }
    case MaybeSome(sub) => RepeatNeverFails(g, sub, input, pos, ctx, [], fuel);
    case Action(sub, _) => FailureKeepsPosition(g, sub, input, pos, map[], fuel);
    case Label(_, sub) => FailureKeepsPosition(g, sub, input, pos, ctx, fuel);
    case Token(sub) => FailureKeepsPosition(g, sub, input, pos, ctx, fuel);
    case Call(rule) =>
      if rule in g.rules && fuel > 0 {
        FailureKeepsPosition(g, g.rules[rule], input, pos, map[], fuel - 1);
      }
    case _ =>
  }

  // ---------------------------------------------------------------------
  // Positions only move forward, and never past the end of the input
  // ---------------------------------------------------------------------

  predicate Bounded(input: string, pos: nat, o: Outcome)
  {
    pos <= o.pos && (pos <= |input| ==> o.pos <= |input|)
  }

  lemma {:induction false} EvalBounded(g: Grammar, e: Expr, input: string, pos: nat, ctx: Captures, fuel: nat)
    ensures Bounded(input, pos, Eval(g, e, input, pos, ctx, fuel))
    decreases fuel, e, 2
  {
    match e
    case All(es) => SequenceBounded(g, es, 0, input, pos, ctx, [], fuel);
    case Any(es) => AlternativesBounded(g, es, 0, input, pos, ctx, fuel);
    case Some(sub) =>
      EvalBounded(g, sub, input, pos, ctx, fuel);
      var first := Eval(g, sub, input, pos, ctx, fuel);
      if first.res.Success? {
        RepeatBounded(g, sub, input, first.pos, first.ctx, [], fuel);
      }
    case MaybeSome(sub) => RepeatBounded(g, sub, input, pos, ctx, [], fuel);
    case Maybe(sub) => EvalBounded(g, sub, input, pos, ctx, fuel);
    case Check(sub) => EvalBounded(g, sub, input, pos, ctx, fuel);
    case Reject(sub) => EvalBounded(g, sub, input, pos, ctx, fuel);
    case Action(sub, _) => EvalBounded(g, sub, input, pos, map[], fuel);
    case Label(_, sub) => EvalBounded(g, sub, input, pos, ctx, fuel);
    case Token(sub) => EvalBounded(g, sub, input, pos, ctx, fuel);
    case Call(rule) =>
      if rule in g.rules && fuel > 0 {
        EvalBounded(g, g.rules[rule], input, pos, map[], fuel - 1);
      }
    case _ =>
  }

  lemma {:induction false} SequenceBounded(g: Grammar, es: seq<Expr>, i: nat, input: string, pos: nat,
                                           ctx: Captures, acc: seq<Value>, fuel: nat)
    requires i <= |es|
    ensures Bounded(input, pos, Sequence(g, es, i, input, pos, ctx, acc, fuel))
    decreases fuel, Expr.All(es), 1, |es| - i
  {
    if i < |es| {
      EvalBounded(g, es[i], input, pos, ctx, fuel);
      var r := Eval(g, es[i], input, pos, ctx, fuel);
      if r.res.Success? {
        SequenceBounded(g, es, i + 1, input, r.pos, r.ctx, if IsEmpty(r.res) then acc else acc + [r.res.value], fuel);
      }
    }
  }

  lemma {:induction false} AlternativesBounded(g: Grammar, es: seq<Expr>, i: nat, input: string, pos: nat,
                                               ctx: Captures, fuel: nat)
    requires i <= |es|
    ensures Bounded(input, pos, Alternatives(g, es, i, input, pos, ctx, fuel))
    decreases fuel, Expr.Any(es), 1, |es| - i
  {
    if i < |es| {
      EvalBounded(g, es[i], input, pos, ctx, fuel);
      AlternativesBounded(g, es, i + 1, input, pos, ctx, fuel);
    }
  }

  lemma {:induction false} RepeatBounded(g: Grammar, sub: Expr, input: string, pos: nat, ctx: Captures,
                                         acc: seq<Value>, fuel: nat)
    ensures Bounded(input, pos, Repeat(g, sub, input, pos, ctx, acc, fuel))
    decreases fuel, sub, 3
  {
    EvalBounded(g, sub, input, pos, ctx, fuel);
    var r := Eval(g, sub, input, pos, ctx, fuel);
    if r.res.Success? && fuel > 0 {
      RepeatBounded(g, sub, input, r.pos, r.ctx, if IsEmpty(r.res) then acc else acc + [r.res.value], fuel - 1);
    }
  }

  // ---------------------------------------------------------------------
  // Captures are never dropped
  // ---------------------------------------------------------------------

  predicate Keeps(ctx: Captures, o: Outcome)
  {
    forall k :: k in ctx ==> k in o.ctx
  }

  /** No expression removes a label from the action context it runs in. */
  lemma {:induction false} EvalKeeps(g: Grammar, e: Expr, input: string, pos: nat, ctx: Captures, fuel: nat)
    ensures Keeps(ctx, Eval(g, e, input, pos, ctx, fuel))
    decreases fuel, e, 2
  {
    match e
    case Any(es) => AlternativesKeeps(g, es, 0, input, pos, ctx, fuel);
    case Some(sub) =>
      EvalKeeps(g, sub, input, pos, ctx, fuel);
      var first := Eval(g, sub, input, pos, ctx, fuel);
      if first.res.Success? {
        RepeatKeeps(g, sub, input, first.pos, first.ctx, [], fuel);
      }
    case MaybeSome(sub) => RepeatKeeps(g, sub, input, pos, ctx, [], fuel);
    case Maybe(sub) => EvalKeeps(g, sub, input, pos, ctx, fuel);
    case Check(sub) => EvalKeeps(g, sub, input, pos, ctx, fuel);
    case Reject(sub) => EvalKeeps(g, sub, input, pos, ctx, fuel);
    case Label(_, sub) => EvalKeeps(g, sub, input, pos, ctx, fuel);
    case Token(sub) => EvalKeeps(g, sub, input, pos, ctx, fuel);
    case _ =>
  }

  lemma {:induction false} SequenceKeeps(g: Grammar, es: seq<Expr>, i: nat, input: string, pos: nat,
                                         ctx: Captures, acc: seq<Value>, fuel: nat)
    requires i <= |es|
    ensures Keeps(ctx, Sequence(g, es, i, input, pos, ctx, acc, fuel))
    decreases |es| - i
  {
    if i < |es| {
      EvalKeeps(g, es[i], input, pos, ctx, fuel);
      var r := Eval(g, es[i], input, pos, ctx, fuel);
      if r.res.Success? {
        SequenceKeeps(g, es, i + 1, input, r.pos, r.ctx, if IsEmpty(r.res) then acc else acc + [r.res.value], fuel);
      }
    }
  }

  lemma {:induction false} AlternativesKeeps(g: Grammar, es: seq<Expr>, i: nat, input: string, pos: nat,
                                             ctx: Captures, fuel: nat)
    requires i <= |es|
    ensures Keeps(ctx, Alternatives(g, es, i, input, pos, ctx, fuel))
    decreases |es| - i
  {
    if i < |es| {
      AlternativesKeeps(g, es, i + 1, input, pos, ctx, fuel);
    }
  }

  lemma {:induction false} RepeatKeeps(g: Grammar, sub: Expr, input: string, pos: nat, ctx: Captures,
                                       acc: seq<Value>, fuel: nat)
    ensures Keeps(ctx, Repeat(g, sub, input, pos, ctx, acc, fuel))
    decreases fuel, sub, 3
  {
    EvalKeeps(g, sub, input, pos, ctx, fuel);
    var r := Eval(g, sub, input, pos, ctx, fuel);
    if r.res.Success? && fuel > 0 {
      RepeatKeeps(g, sub, input, r.pos, r.ctx, if IsEmpty(r.res) then acc else acc + [r.res.value], fuel - 1);
    }
  }

  // ---------------------------------------------------------------------
  // all: sequential composition
  // ---------------------------------------------------------------------

  /** The loop of `all` with values already collected is the loop from nothing, prefixed by them. */
  lemma {:induction false} SequenceAcc(g: Grammar, es: seq<Expr>, i: nat, input: string, pos: nat,
                                       ctx: Captures, acc: seq<Value>, fuel: nat)
    requires i <= |es|
    ensures Sequence(g, es, i, input, pos, ctx, acc, fuel) == Prefixed(acc, Sequence(g, es, i, input, pos, ctx, [], fuel))
    decreases |es| - i
  {
    if i < |es| {
      var r := Eval(g, es[i], input, pos, ctx, fuel);
      if r.res.Success? {
        var kept := Kept(r.res);
        assert (if IsEmpty(r.res) then acc else acc + [r.res.value]) == acc + kept;
        assert (if IsEmpty(r.res) then [] else [] + [r.res.value]) == kept;
        SequenceAcc(g, es, i + 1, input, r.pos, r.ctx, acc + kept, fuel);
        SequenceAcc(g, es, i + 1, input, r.pos, r.ctx, kept, fuel);
        var tail := Sequence(g, es, i + 1, input, r.pos, r.ctx, [], fuel);
        if tail.res.Success? && tail.res.value.List? {
          assert acc + (kept + tail.res.value.items) == (acc + kept) + tail.res.value.items;
        }
      }
    } else {
      assert acc + [] == acc;
    }
  }

  /** The loop of `all` over `[e] + rest` from index `i + 1` is the loop over `rest` from `i`. */
  lemma {:induction false} SequenceShift(g: Grammar, e: Expr, rest: seq<Expr>, i: nat, input: string, pos: nat,
                                         ctx: Captures, acc: seq<Value>, fuel: nat)
    requires i <= |rest|
    ensures Sequence(g, [e] + rest, i + 1, input, pos, ctx, acc, fuel) == Sequence(g, rest, i, input, pos, ctx, acc, fuel)
    decreases |rest| - i
  {
    if i < |rest| {
      assert ([e] + rest)[i + 1] == rest[i];
      var r := Eval(g, rest[i], input, pos, ctx, fuel);
      if r.res.Success? {
        SequenceShift(g, e, rest, i + 1, input, r.pos, r.ctx, if IsEmpty(r.res) then acc else acc + [r.res.value], fuel);
      }
    }
  }

  /** `all` of no expression matches the empty list without moving. */
  lemma AllNil(g: Grammar, input: string, pos: nat, ctx: Captures, fuel: nat)
    ensures Eval(g, All([]), input, pos, ctx, fuel) == Outcome(Success(List([])), pos, ctx)
  {
    assert Merged(ctx, ctx) == ctx;
  }

  /**
   * `first` followed by `tail`, as `all` composes them: a failure of either
   * restores the start, an exception passes through with the context
   * untouched, and a match of both yields the value of `first` (if not
   * empty) before the values of `tail`, with the labels of both merged
   * into the context.
   */
  function Then(pos: nat, ctx: Captures, first: Outcome, tail: Outcome): Outcome
  {
    if first.res.Failure? then Outcome(Failure, pos, ctx)
    else if first.res.Stopped? then Outcome(first.res, first.pos, ctx)
    else if tail.res.Failure? then Outcome(Failure, pos, ctx)
    else if tail.res.Stopped? then Outcome(tail.res, tail.pos, ctx)
    else if tail.res.value.List? then
      Outcome(Success(List(Kept(first.res) + tail.res.value.items)), tail.pos, Merged(ctx, tail.ctx))
    else tail
  }

  /** `all` unfolded: its loop run with backtracking. */
  lemma AllUnfold(g: Grammar, es: seq<Expr>, input: string, pos: nat, ctx: Captures, fuel: nat)
    ensures Eval(g, All(es), input, pos, ctx, fuel) == Backtracked(pos, ctx, Sequence(g, es, 0, input, pos, ctx, [], fuel))
  {
  }

  /**
   * `all` runs its loop under `_backtrack`: a failure gives back the start
   * position and context, an exception keeps the context, and a match keeps
   * every label of the context, overridden by the labels its loop set.
   */
  lemma AllBacktracks(g: Grammar, es: seq<Expr>, input: string, pos: nat, ctx: Captures, fuel: nat)
    ensures var inner := Sequence(g, es, 0, input, pos, ctx, [], fuel);
      var o := Eval(g, All(es), input, pos, ctx, fuel);
      o.res == inner.res &&
      (o.res.Failure? ==> o.pos == pos && o.ctx == ctx) &&
      (o.res.Stopped? ==> o.pos == inner.pos && o.ctx == ctx) &&
      (o.res.Success? ==>
         o.pos == inner.pos &&
         (forall k :: k in o.ctx <==> k in ctx || k in inner.ctx) &&
         (forall k :: k in inner.ctx ==> o.ctx[k] == inner.ctx[k]) &&
         (forall k :: k in ctx && k !in inner.ctx ==> o.ctx[k] == ctx[k]))
  {
  }

  /** The first round of the loop of `all`. */
  lemma SequenceHead(g: Grammar, es: seq<Expr>, input: string, pos: nat, ctx: Captures, fuel: nat)
    requires |es| > 0
    ensures var r := Eval(g, es[0], input, pos, ctx, fuel);
      Sequence(g, es, 0, input, pos, ctx, [], fuel) ==
        if r.res.Success? then Sequence(g, es, 1, input, r.pos, r.ctx, Kept(r.res), fuel) else r
  {
    var r := Eval(g, es[0], input, pos, ctx, fuel);
    if r.res.Success? {
      assert (if IsEmpty(r.res) then [] else [] + [r.res.value]) == Kept(r.res);
    }
  }

  /** `all` of `[e] + rest` is `e` followed by `all` of `rest`. */
  lemma AllCons(g: Grammar, e: Expr, rest: seq<Expr>, input: string, pos: nat, ctx: Captures, fuel: nat)
    ensures var first := Eval(g, e, input, pos, ctx, fuel);
      Eval(g, All([e] + rest), input, pos, ctx, fuel) ==
        Then(pos, ctx, first, Eval(g, All(rest), input, first.pos, first.ctx, fuel))
  {
    var es := [e] + rest;
    assert es[0] == e;
    var first := Eval(g, e, input, pos, ctx, fuel);
    AllUnfold(g, es, input, pos, ctx, fuel);
    SequenceHead(g, es, input, pos, ctx, fuel);
    if first.res.Success? {
      AllConsMatched(g, e, rest, input, pos, ctx, fuel);
    }
  }

  /** The case of `AllCons` where `e` matched. */
  lemma AllConsMatched(g: Grammar, e: Expr, rest: seq<Expr>, input: string, pos: nat, ctx: Captures, fuel: nat)
    requires Eval(g, e, input, pos, ctx, fuel).res.Success?
    ensures var first := Eval(g, e, input, pos, ctx, fuel);
      Backtracked(pos, ctx, Sequence(g, [e] + rest, 1, input, first.pos, first.ctx, Kept(first.res), fuel)) ==
        Then(pos, ctx, first, Eval(g, All(rest), input, first.pos, first.ctx, fuel))
  {
    var first := Eval(g, e, input, pos, ctx, fuel);
    var kept := Kept(first.res);
    SequenceShift(g, e, rest, 0, input, first.pos, first.ctx, kept, fuel);
    SequenceAcc(g, rest, 0, input, first.pos, first.ctx, kept, fuel);
    var t := Sequence(g, rest, 0, input, first.pos, first.ctx, [], fuel);
    SequenceKeeps(g, rest, 0, input, first.pos, first.ctx, [], fuel);
    SequenceSucceedsWithList(g, rest, 0, input, first.pos, first.ctx, [], fuel);
    AllUnfold(g, rest, input, first.pos, first.ctx, fuel);
    BacktrackedPrefixed(pos, ctx, first, t);
  }

  /** Backtracking over the tail of `all` prefixed by the head's value is `Then`. */
  lemma BacktrackedPrefixed(pos: nat, ctx: Captures, first: Outcome, t: Outcome)
    requires first.res.Success? && Keeps(first.ctx, t)
    requires t.res.Success? ==> t.res.value.List?
    ensures Backtracked(pos, ctx, Prefixed(Kept(first.res), t)) ==
            Then(pos, ctx, first, Backtracked(first.pos, first.ctx, t))
  {
    if t.res.Success? {
      assert Merged(ctx, Merged(first.ctx, t.ctx)) == Merged(ctx, t.ctx);
    }
  }

  /** A match of the loop of `all` is always a list. */
  lemma {:induction false} SequenceSucceedsWithList(g: Grammar, es: seq<Expr>, i: nat, input: string, pos: nat,
                                                    ctx: Captures, acc: seq<Value>, fuel: nat)
    requires i <= |es|
    ensures var o := Sequence(g, es, i, input, pos, ctx, acc, fuel);
      o.res.Success? ==> o.res.value.List?
    decreases |es| - i
  {
    if i < |es| {
      var r := Eval(g, es[i], input, pos, ctx, fuel);
      if r.res.Success? {
        SequenceSucceedsWithList(g, es, i + 1, input, r.pos, r.ctx, if IsEmpty(r.res) then acc else acc + [r.res.value], fuel);
      }
    }
  }

  // ---------------------------------------------------------------------
  // any: ordered choice
  // ---------------------------------------------------------------------

  lemma {:induction false} AlternativesShift(g: Grammar, e: Expr, rest: seq<Expr>, i: nat, input: string,
                                             pos: nat, ctx: Captures, fuel: nat)
    requires i <= |rest|
    ensures Alternatives(g, [e] + rest, i + 1, input, pos, ctx, fuel) == Alternatives(g, rest, i, input, pos, ctx, fuel)
    decreases |rest| - i
  {
    if i < |rest| {
      assert ([e] + rest)[i + 1] == rest[i];
      AlternativesShift(g, e, rest, i + 1, input, pos, ctx, fuel);
    }
  }

  /**
   * `any` of `[e] + rest` is `e` run with backtracking, and `any` of `rest`
   * only when `e` fails: later alternatives are never tried after a match
   * or an exception.
   */
  lemma AnyCons(g: Grammar, e: Expr, rest: seq<Expr>, input: string, pos: nat, ctx: Captures, fuel: nat)
    ensures var first := Backtracked(pos, ctx, Eval(g, e, input, pos, ctx, fuel));
      Eval(g, Any([e] + rest), input, pos, ctx, fuel) ==
        if first.res.Failure? then Eval(g, Any(rest), input, pos, ctx, fuel) else first
  {
    var es := [e] + rest;
    assert es[0] == e;
    var first := Backtracked(pos, ctx, Eval(g, e, input, pos, ctx, fuel));
    AnyUnfold(g, es, input, pos, ctx, fuel);
    AnyUnfold(g, rest, input, pos, ctx, fuel);
    assert Alternatives(g, es, 0, input, pos, ctx, fuel) ==
      if first.res.Failure? then Alternatives(g, es, 1, input, pos, ctx, fuel) else first;
    AlternativesShift(g, e, rest, 0, input, pos, ctx, fuel);
  }

  /** `any` unfolded: its loop from the first alternative. */
  lemma AnyUnfold(g: Grammar, es: seq<Expr>, input: string, pos: nat, ctx: Captures, fuel: nat)
    ensures Eval(g, Any(es), input, pos, ctx, fuel) == Alternatives(g, es, 0, input, pos, ctx, fuel)
  {
  }

  /** `any` fails exactly when every alternative fails from the start position. */
  lemma {:induction false} AlternativesFailIff(g: Grammar, es: seq<Expr>, i: nat, input: string, pos: nat,
                                               ctx: Captures, fuel: nat)
    requires i <= |es|
    ensures Alternatives(g, es, i, input, pos, ctx, fuel).res.Failure? <==>
      forall j :: i <= j < |es| ==> Eval(g, es[j], input, pos, ctx, fuel).res.Failure?
    decreases |es| - i
  {
    if i < |es| {
      AlternativesFailIff(g, es, i + 1, input, pos, ctx, fuel);
    }
  }

  /**
   * `any` fails exactly when every alternative fails, and then it leaves
   * the position and the action context as they were.
   */
  lemma AnyFails(g: Grammar, es: seq<Expr>, input: string, pos: nat, ctx: Captures, fuel: nat)
    ensures var o := Eval(g, Any(es), input, pos, ctx, fuel);
      (o.res.Failure? <==> forall j :: 0 <= j < |es| ==> Eval(g, es[j], input, pos, ctx, fuel).res.Failure?) &&
      (o.res.Failure? ==> o.pos == pos && o.ctx == ctx)
  {
    AlternativesFailIff(g, es, 0, input, pos, ctx, fuel);
    AlternativesFailureRestores(g, es, 0, input, pos, ctx, fuel);
  }

  // ---------------------------------------------------------------------
  // The primitive expressions
  // ---------------------------------------------------------------------

  /** `literal(t)` matches exactly when `t` occurs at the position, and then consumes it. */
  lemma LiteralMatches(g: Grammar, t: string, input: string, pos: nat, ctx: Captures, fuel: nat)
    ensures var o := Eval(g, Literal(t), input, pos, ctx, fuel);
      (o.res.Success? <==> t == "" || (pos + |t| <= |input| && input[pos..pos + |t|] == t)) &&
      (o.res.Success? ==> o == Outcome(Success(Str(t)), pos + |t|, ctx)) &&
      (!o.res.Success? ==> o == Outcome(Failure, pos, ctx))
  {
  }

  /** `advance` consumes one character, and fails only at the end of the input. */
  lemma AdvanceMatches(g: Grammar, input: string, pos: nat, ctx: Captures, fuel: nat)
    ensures var o := Eval(g, Advance, input, pos, ctx, fuel);
      (o.res.Success? <==> pos < |input|) &&
      (o.res.Success? ==> o == Outcome(Success(Str([input[pos]])), pos + 1, ctx)) &&
      (!o.res.Success? ==> o == Outcome(Failure, pos, ctx))
  {
  }

  /** `regex` consumes one character of its class. */
  lemma RegexMatches(g: Grammar, cls: CharClass, input: string, pos: nat, ctx: Captures, fuel: nat)
    ensures var o := Eval(g, Regex(cls), input, pos, ctx, fuel);
      (o.res.Success? <==> pos < |input| && InClass(g, cls, input[pos])) &&
      (o.res.Success? ==> o == Outcome(Success(Str([input[pos]])), pos + 1, ctx)) &&
      (!o.res.Success? ==> o == Outcome(Failure, pos, ctx))
  {
  }

  // ---------------------------------------------------------------------
  // Lookahead, labels, options, tokens, actions and rules
  // ---------------------------------------------------------------------

  /**
   * `check` and `reject` never move the position unless an exception is
   * thrown; `check` matches exactly when its sub-expression does, `reject`
   * exactly when it fails, both with an empty result. Both leave the action
   * context as the sub-expression left it: labels set inside a lookahead
   * survive it.
   */
  lemma LookaheadLaws(g: Grammar, sub: Expr, input: string, pos: nat, ctx: Captures, fuel: nat)
    ensures var r := Eval(g, sub, input, pos, ctx, fuel);
      var c := Eval(g, Check(sub), input, pos, ctx, fuel);
      var n := Eval(g, Reject(sub), input, pos, ctx, fuel);
      (c.res.Success? <==> r.res.Success?) && (n.res.Success? <==> r.res.Failure?) &&
      (c.res.Stopped? <==> r.res.Stopped?) && (n.res.Stopped? <==> r.res.Stopped?) &&
      (c.res.Success? ==> c.res.value == Undefined) && (n.res.Success? ==> n.res.value == Undefined) &&
      (!r.res.Stopped? ==> c.pos == pos && n.pos == pos) &&
      c.ctx == r.ctx && n.ctx == r.ctx
  {
  }

  /**
   * The sub-expression of `check` and `reject` runs on the enclosing
   * action context itself: a label inside a lookahead stays in the context
   * even though nothing is consumed.
   */
  lemma LookaheadKeepsLabels(g: Grammar, input: string, pos: nat, fuel: nat)
    ensures Eval(g, Check(Label("x", Pass)), input, pos, map[], fuel) ==
      Outcome(Success(Undefined), pos, map["x" := Undefined])
    ensures Eval(g, Reject(Label("x", Pass)), input, pos, map[], fuel) ==
      Outcome(Failure, pos, map["x" := Undefined])
  {
    var inner := Eval(g, Label("x", Pass), input, pos, map[], fuel);
    assert Eval(g, Pass, input, pos, map[], fuel).res == Success(Undefined);
    assert inner == Outcome(Success(Undefined), pos, map["x" := Undefined]);
  }

  /** `label` records the value of a match under its name and changes nothing else. */
  lemma LabelRecords(g: Grammar, name: string, sub: Expr, input: string, pos: nat, ctx: Captures, fuel: nat)
    ensures var r := Eval(g, sub, input, pos, ctx, fuel);
      var o := Eval(g, Label(name, sub), input, pos, ctx, fuel);
      o.res == r.res && o.pos == r.pos &&
      (r.res.Success? ==> o.ctx == r.ctx[name := r.res.value]) &&
      (!r.res.Success? ==> o.ctx == r.ctx)
  {
  }

  /** `maybe` turns a failure into `null` without moving; it never fails. */
  lemma MaybeLaw(g: Grammar, sub: Expr, input: string, pos: nat, ctx: Captures, fuel: nat)
    ensures var r := Eval(g, sub, input, pos, ctx, fuel);
      var o := Eval(g, Maybe(sub), input, pos, ctx, fuel);
      !o.res.Failure? &&
      (r.res.Failure? ==> o == Outcome(Success(Null), pos, r.ctx)) &&
      (!r.res.Failure? ==> o == r)
  {
    FailureKeepsPosition(g, sub, input, pos, ctx, fuel);
  }

  /** `token` keeps the match but discards its value. */
  lemma TokenLaw(g: Grammar, sub: Expr, input: string, pos: nat, ctx: Captures, fuel: nat)
    ensures var r := Eval(g, sub, input, pos, ctx, fuel);
      var o := Eval(g, Token(sub), input, pos, ctx, fuel);
      o.pos == r.pos && o.ctx == r.ctx && (r.res.Success? <==> IsEmpty(o.res)) &&
      (!r.res.Success? ==> o.res == r.res)
  {
  }

  /**
   * An action runs its sub-expression in a fresh action context: neither its
   * result nor the position it leaves depends on the enclosing context, and
   * the callback sees the sub-expression's labels plus `$$`, its value.
   */
  lemma ActionIsolated(g: Grammar, sub: Expr, code: string, input: string, pos: nat,
                       ctx1: Captures, ctx2: Captures, fuel: nat)
    ensures var o1 := Eval(g, Action(sub, code), input, pos, ctx1, fuel);
      var o2 := Eval(g, Action(sub, code), input, pos, ctx2, fuel);
      o1.res == o2.res && o1.pos == o2.pos
    ensures var r := Eval(g, sub, input, pos, map[], fuel);
      var o := Eval(g, Action(sub, code), input, pos, ctx1, fuel);
      (r.res.Success? ==>
         o.res == Success(g.actions(code, r.ctx["$$" := r.res.value])) && o.pos == r.pos && o.ctx == Merged(ctx1, r.ctx)) &&
      (!r.res.Success? ==> o.res == r.res && o.ctx == ctx1)
  {
    var r := Eval(g, sub, input, pos, map[], fuel);
    assert Merged(map[], r.ctx) == r.ctx;
  }

  /** A rule reference runs the rule in a fresh scope and leaves the caller's context as it was. */
  lemma CallIsolated(g: Grammar, name: string, input: string, pos: nat, ctx1: Captures, ctx2: Captures, fuel: nat)
    ensures var o1 := Eval(g, Call(name), input, pos, ctx1, fuel);
      var o2 := Eval(g, Call(name), input, pos, ctx2, fuel);
      o1.res == o2.res && o1.pos == o2.pos && o1.ctx == ctx1
    ensures name !in g.rules ==> Eval(g, Call(name), input, pos, ctx1, fuel).res == Stopped(UndefinedRule(name))
  {
  }

  // ---------------------------------------------------------------------
  // parse
  // ---------------------------------------------------------------------

  /**
   * `parse` throws without a start rule; otherwise it returns the start
   * rule's value exactly when the rule matches the whole input, and `false`
   * when it fails or stops short of the end.
   */
  lemma ParseWholeInput(g: Grammar, input: string, pos: nat, fuel: nat)
    ensures "Start" !in g.rules ==> Parsed(g, input, pos, fuel) == Raised(NoStartMessage)
    ensures "Start" in g.rules ==>
      var o := Eval(g, g.rules["Start"], input, pos, map[], fuel);
      (o.res.Success? && o.pos == |input| ==> Parsed(g, input, pos, fuel) == Returned(o.res.value)) &&
      (o.res.Failure? || (o.res.Success? && o.pos != |input|) ==> Parsed(g, input, pos, fuel) == Returned(Bool(false))) &&
      (o.res.Stopped? ==> Parsed(g, input, pos, fuel) == Halted(o.res.why))
  {
  }

  // ---------------------------------------------------------------------
  // Fuel only bounds the computation
  // ---------------------------------------------------------------------

  predicate Exhausted(o: Outcome)
  {
    o.res == Stopped(OutOfFuel)
  }

  /**
   * An outcome that did not run out of fuel is the outcome with any larger
   * amount of fuel: the bound cuts off non-terminating runs and nothing else.
   */
  lemma {:induction false} EvalFuel(g: Grammar, e: Expr, input: string, pos: nat, ctx: Captures, fuel: nat, more: nat)
    requires fuel <= more
    requires !Exhausted(Eval(g, e, input, pos, ctx, fuel))
    ensures Eval(g, e, input, pos, ctx, more) == Eval(g, e, input, pos, ctx, fuel)
    decreases fuel, e, 2
  {
    match e
    case All(es) => SequenceFuel(g, es, 0, input, pos, ctx, [], fuel, more);
    case Any(es) => AlternativesFuel(g, es, 0, input, pos, ctx, fuel, more);
    case Some(sub) =>
      EvalFuel(g, sub, input, pos, ctx, fuel, more);
      var first := Eval(g, sub, input, pos, ctx, fuel);
      if first.res.Success? {
        RepeatFuel(g, sub, input, first.pos, first.ctx, [], fuel, more);
      }
    case MaybeSome(sub) => RepeatFuel(g, sub, input, pos, ctx, [], fuel, more);
    case Maybe(sub) => EvalFuel(g, sub, input, pos, ctx, fuel, more);
    case Check(sub) => EvalFuel(g, sub, input, pos, ctx, fuel, more);
    case Reject(sub) => EvalFuel(g, sub, input, pos, ctx, fuel, more);
    case Action(sub, _) => EvalFuel(g, sub, input, pos, map[], fuel, more);
    case Label(_, sub) => EvalFuel(g, sub, input, pos, ctx, fuel, more);
    case Token(sub) => EvalFuel(g, sub, input, pos, ctx, fuel, more);
    case Call(rule) =>
      if rule in g.rules && fuel > 0 {
        EvalFuel(g, g.rules[rule], input, pos, map[], fuel - 1, more - 1);
      }
    case _ =>
  }

  lemma {:induction false} SequenceFuel(g: Grammar, es: seq<Expr>, i: nat, input: string, pos: nat, ctx: Captures,
                                        acc: seq<Value>, fuel: nat, more: nat)
    requires i <= |es| && fuel <= more
    requires !Exhausted(Sequence(g, es, i, input, pos, ctx, acc, fuel))
    ensures Sequence(g, es, i, input, pos, ctx, acc, more) == Sequence(g, es, i, input, pos, ctx, acc, fuel)
    decreases fuel, Expr.All(es), 1, |es| - i
  {
    if i < |es| {
      EvalFuel(g, es[i], input, pos, ctx, fuel, more);
      var r := Eval(g, es[i], input, pos, ctx, fuel);
      if r.res.Success? {
        SequenceFuel(g, es, i + 1, input, r.pos, r.ctx, if IsEmpty(r.res) then acc else acc + [r.res.value], fuel, more);
      }
    }
  }

  lemma {:induction false} AlternativesFuel(g: Grammar, es: seq<Expr>, i: nat, input: string, pos: nat, ctx: Captures,
                                            fuel: nat, more: nat)
    requires i <= |es| && fuel <= more
    requires !Exhausted(Alternatives(g, es, i, input, pos, ctx, fuel))
    ensures Alternatives(g, es, i, input, pos, ctx, more) == Alternatives(g, es, i, input, pos, ctx, fuel)
    decreases fuel, Expr.Any(es), 1, |es| - i
  {
    if i < |es| {
      EvalFuel(g, es[i], input, pos, ctx, fuel, more);
      if Backtracked(pos, ctx, Eval(g, es[i], input, pos, ctx, fuel)).res.Failure? {
        AlternativesFuel(g, es, i + 1, input, pos, ctx, fuel, more);
      }
    }
  }

  lemma {:induction false} RepeatFuel(g: Grammar, sub: Expr, input: string, pos: nat, ctx: Captures,
                                      acc: seq<Value>, fuel: nat, more: nat)
    requires fuel <= more
    requires !Exhausted(Repeat(g, sub, input, pos, ctx, acc, fuel))
    ensures Repeat(g, sub, input, pos, ctx, acc, more) == Repeat(g, sub, input, pos, ctx, acc, fuel)
    decreases fuel, sub, 3
  {
    EvalFuel(g, sub, input, pos, ctx, fuel, more);
    var r := Eval(g, sub, input, pos, ctx, fuel);
    if r.res.Success? && fuel > 0 {
      RepeatFuel(g, sub, input, r.pos, r.ctx, if IsEmpty(r.res) then acc else acc + [r.res.value], fuel - 1, more - 1);
    }
  }
}
