/**
 * Laws of the state-threading `all` and `any` of lib/expressions.js.
 */
module ExpressionsLaws {
  import Values
  import opened Expressions

  /** A reply whose list value is preceded by `prefix`; other replies are unchanged. */
  function PrefixedReply<S>(prefix: seq<Values.Value>, r: Reply<S>): Reply<S>
  {
    if r.Success? && r.value.List? then Success(r.state, Values.List(prefix + r.value.items)) else r
  }

  /** The loop of `all` with values already collected is the loop from nothing, prefixed by them. */
  lemma {:induction false} AllFromAcc<S>(es: seq<S -> Reply<S>>, i: nat, state: S, results: seq<Values.Value>)
    requires i <= |es|
    ensures AllFrom(es, i, state, results) == PrefixedReply(results, AllFrom(es, i, state, []))
    decreases |es| - i
  {
    if i < |es| {
      var r := es[i](state);
      if r.Success? {
        AllFromAcc(es, i + 1, r.state, results + [r.value]);
        AllFromAcc(es, i + 1, r.state, [r.value]);
        var tail := AllFrom(es, i + 1, r.state, []);
        if tail.Success? && tail.value.List? {
          assert results + ([r.value] + tail.value.items) == (results + [r.value]) + tail.value.items;
        }
        assert [] + [r.value] == [r.value];
      }
    } else {
      assert results + [] == results;
    }
  }

  lemma {:induction false} AllFromShift<S>(e: S -> Reply<S>, rest: seq<S -> Reply<S>>, i: nat, state: S,
                                           results: seq<Values.Value>)
    requires i <= |rest|
    ensures AllFrom([e] + rest, i + 1, state, results) == AllFrom(rest, i, state, results)
    decreases |rest| - i
  {
    if i < |rest| {
      assert ([e] + rest)[i + 1] == rest[i];
      var r := rest[i](state);
      if r.Success? {
        AllFromShift(e, rest, i + 1, r.state, results + [r.value]);
      }
    }
  }

  /** `all` of no expression succeeds at the given state with `[]`. */
  lemma AllEmpty<S>(state: S)
    ensures AllFrom([], 0, state, []) == Success(state, Values.List([]))
  {
  }

  /**
   * `all` of `[e] + rest` runs `e` on the given state and `rest` on the
   * state `e` produced: the first failure is the result, and a success
   * lists `e`'s value, unfiltered, before the values of `rest`.
   */
  lemma AllCons<S>(e: S -> Reply<S>, rest: seq<S -> Reply<S>>, state: S)
    ensures var r := e(state);
      AllFrom([e] + rest, 0, state, []) ==
        if r.Failure? then r else PrefixedReply([r.value], AllFrom(rest, 0, r.state, []))
  {
    assert ([e] + rest)[0] == e;
    var r := e(state);
    if r.Success? {
      assert [] + [r.value] == [r.value];
      AllFromShift(e, rest, 0, r.state, [r.value]);
      AllFromAcc(rest, 0, r.state, [r.value]);
    }
  }

  /** A success of `all` lists one value per expression after those already collected. */
  lemma {:induction false} AllFromLength<S>(es: seq<S -> Reply<S>>, i: nat, state: S, results: seq<Values.Value>)
    requires i <= |es|
    ensures var r := AllFrom(es, i, state, results);
      r.Success? ==> r.value.List? && |r.value.items| == |results| + |es| - i && results <= r.value.items
    decreases |es| - i
  {
    if i < |es| {
      var r := es[i](state);
      if r.Success? {
        AllFromLength(es, i + 1, r.state, results + [r.value]);
      }
    }
  }

  /** A success of `all` has exactly one value per expression. */
  lemma AllLength<S>(es: seq<S -> Reply<S>>, state: S)
    ensures var r := AllFrom(es, 0, state, []);
      r.Success? ==> r.value.List? && |r.value.items| == |es|
  {
    AllFromLength(es, 0, state, []);
  }

  /** The errors of the alternatives from the `i`-th on, in order, when all of them fail. */
  function ErrorsFrom<S>(es: seq<S -> Reply<S>>, i: nat, state: S): (errs: seq<Error<S>>)
    requires i <= |es|
    requires forall j :: i <= j < |es| ==> es[j](state).Failure?
    ensures |errs| == |es| - i
    ensures forall j :: 0 <= j < |errs| ==> errs[j] == es[i + j](state).error
    decreases |es| - i
  {
    if i == |es| then [] else [es[i](state).error] + ErrorsFrom(es, i + 1, state)
  }

  /**
   * `any` fails exactly when every alternative fails on the original state;
   * its error then collects the alternatives' errors in order.
   */
  lemma {:induction false} AnyFromFails<S>(es: seq<S -> Reply<S>>, i: nat, state: S, errors: seq<Error<S>>)
    requires i <= |es|
    ensures AnyFrom(es, i, state, errors).Failure? <==> forall j :: i <= j < |es| ==> es[j](state).Failure?
    ensures (forall j :: i <= j < |es| ==> es[j](state).Failure?) ==>
      AnyFrom(es, i, state, errors) == Failure(NoAlternative(state, errors + ErrorsFrom(es, i, state)))
    decreases |es| - i
  {
    if i < |es| && es[i](state).Failure? {
      AnyFromFails(es, i + 1, state, errors + [es[i](state).error]);
      if forall j :: i <= j < |es| ==> es[j](state).Failure? {
        assert errors + [es[i](state).error] + ErrorsFrom(es, i + 1, state) == errors + ErrorsFrom(es, i, state);
      }
    } else if i == |es| {
      assert errors + [] == errors;
    }
  }

  /**
   * A success of `any` is the reply of the first alternative that succeeds
   * on the original state; no later alternative contributes to it.
   */
  lemma {:induction false} AnyFromFirstSuccess<S>(es: seq<S -> Reply<S>>, i: nat, state: S, errors: seq<Error<S>>)
    requires i <= |es|
    ensures var r := AnyFrom(es, i, state, errors);
      r.Success? ==> exists k :: i <= k < |es| && r == es[k](state) && forall j :: i <= j < k ==> es[j](state).Failure?
    decreases |es| - i
  {
    if i < |es| && es[i](state).Failure? {
      AnyFromFirstSuccess(es, i + 1, state, errors + [es[i](state).error]);
      var r := AnyFrom(es, i, state, errors);
      if r.Success? {
        var k :| i + 1 <= k < |es| && r == es[k](state) && forall j :: i + 1 <= j < k ==> es[j](state).Failure?;
        assert forall j :: i <= j < k ==> es[j](state).Failure?;
      }
    }
  }

  /** `any` in terms of its alternatives: the first success, or every error in order. */
  lemma AnyLaw<S>(es: seq<S -> Reply<S>>, state: S)
    ensures var r := AnyFrom(es, 0, state, []);
      (r.Failure? <==> forall j :: 0 <= j < |es| ==> es[j](state).Failure?) &&
      ((forall j :: 0 <= j < |es| ==> es[j](state).Failure?) ==>
         r == Failure(NoAlternative(state, ErrorsFrom(es, 0, state)))) &&
      (r.Success? ==> exists k :: 0 <= k < |es| && r == es[k](state) && forall j :: 0 <= j < k ==> es[j](state).Failure?)
  {
    AnyFromFails(es, 0, state, []);
    AnyFromFirstSuccess(es, 0, state, []);
    if forall j :: 0 <= j < |es| ==> es[j](state).Failure? {
      assert [] + ErrorsFrom(es, 0, state) == ErrorsFrom(es, 0, state);
    }
  }
}
