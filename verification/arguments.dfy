/**
 * How `all` in lib/parser.js and lib/parser-stateful.js passes extra
 * arguments to its elements. An element is either a function alone or an
 * array of a function and its arguments. The loop keeps one `args`
 * variable for the whole call and sets it only from array elements, so a
 * bare element reuses the arguments of the last array before it, and a
 * bare element before any array spreads `undefined`, a `TypeError`.
 *
 * `Written` and `AllCalls` model the loop as written; `Intended` gives
 * every bare element no extra arguments, as `any` does by wrapping it.
 * The runtime model (`Runtime.Parser.All`) reads every element as its own
 * call, which is `Intended`.
 */
module Arguments {
  import opened Values

  /** An element of the list handed to `all` or `any`: `fn`, or `[fn, args...]`. */
  datatype Element = Bare(fn: string) | Listed(fn: string, args: seq<Value>)

  /** One call of an element's function with its extra arguments. */
  datatype Invocation = Invocation(fn: string, args: seq<Value>)

  /** The loop's `args` variable: not yet assigned (`undefined`), or the arguments last set. */
  datatype Slot = Unset | Set(args: seq<Value>)

  /** The calls `all` makes, supposing each one matches, or the `TypeError` raised at element `at`. */
  datatype Calls = Calls(calls: seq<Invocation>) | Throws(at: nat)

  /** `calls` made before the rest of the loop runs. */
  function Prefixed(calls: seq<Invocation>, rest: Calls): Calls
  {
    match rest
    case Calls(more) => Calls(calls + more)
    case Throws(at) => Throws(at)
  }

  /** The loop as written, from element `i` on, with `args` holding `slot`. */
  function WrittenFrom(elems: seq<Element>, i: nat, slot: Slot): Calls
    requires i <= |elems|
    decreases |elems| - i
  {
    if i == |elems| then Calls([])
    else
      var args := if elems[i].Listed? then Set(elems[i].args) else slot;
      if args.Unset? then Throws(i)
      else Prefixed([Invocation(elems[i].fn, args.args)], WrittenFrom(elems, i + 1, args))
  }

  /** The calls of `all(context, elems)` as written: `args` starts out `undefined`. */
  function Written(elems: seq<Element>): Calls
  {
    WrittenFrom(elems, 0, Unset)
  }

  /** The index of the last array element at or before `k`, or -1 when there is none. */
  function LastListed(elems: seq<Element>, k: nat): (r: int)
    requires k < |elems|
    ensures -1 <= r <= k
    ensures r >= 0 ==> elems[r].Listed?
    ensures forall j :: r < j <= k ==> elems[j].Bare?
    ensures elems[0].Listed? ==> r >= 0
  {
    if elems[k].Listed? then k else if k == 0 then -1 else LastListed(elems, k - 1)
  }

  /** The loop of `all`, keeping one `args` variable across the elements. */
  method AllCalls(elems: seq<Element>) returns (r: Calls)
    ensures r == Written(elems)
  {
    var args := Unset;
    var calls: seq<Invocation> := [];
    var i := 0;
    while i < |elems|
      invariant i <= |elems|
      invariant Written(elems) == Prefixed(calls, WrittenFrom(elems, i, args))
    {
      if elems[i].Listed? {
        args := Set(elems[i].args);
      }
      if args.Unset? {
        return Throws(i);
      }
      PrefixedTwice(calls, [Invocation(elems[i].fn, args.args)], WrittenFrom(elems, i + 1, args));
      calls := calls + [Invocation(elems[i].fn, args.args)];
      i := i + 1;
    }
    r := Calls(calls);
  }

  /** Calls made in two batches before the rest are the calls of both batches, in order. */
  lemma PrefixedTwice(a: seq<Invocation>, b: seq<Invocation>, rest: Calls)
    ensures Prefixed(a, Prefixed(b, rest)) == Prefixed(a + b, rest)
  {
    if rest.Calls? {
      assert a + (b + rest.calls) == (a + b) + rest.calls;
    }
  }

  /** From element `i` on, once `args` holds the last array's arguments, every element is called with them. */
  lemma {:induction false} WrittenFromSet(elems: seq<Element>, i: nat, a: seq<Value>)
    requires 0 < i <= |elems|
    requires LastListed(elems, i - 1) >= 0 && a == elems[LastListed(elems, i - 1)].args
    ensures var w := WrittenFrom(elems, i, Set(a));
      w.Calls? && |w.calls| == |elems| - i &&
      forall k :: i <= k < |elems| ==> w.calls[k - i] == Invocation(elems[k].fn, elems[LastListed(elems, k)].args)
    decreases |elems| - i
  {
    if i < |elems| {
      var args := if elems[i].Listed? then elems[i].args else a;
      assert LastListed(elems, i) >= 0 && args == elems[LastListed(elems, i)].args;
      WrittenFromSet(elems, i + 1, args);
    }
  }

  /**
   * `all` as written throws exactly when its first element is bare, and
   * then at that element; otherwise every element is called with the
   * arguments of the last array element at or before it.
   */
  lemma WrittenCalls(elems: seq<Element>)
    ensures Written(elems).Throws? <==> |elems| > 0 && elems[0].Bare?
    ensures Written(elems).Throws? ==> Written(elems).at == 0
    ensures var w := Written(elems);
      w.Calls? ==>
        |w.calls| == |elems| &&
        forall k :: 0 <= k < |elems| ==> w.calls[k] == Invocation(elems[k].fn, elems[LastListed(elems, k)].args)
  {
    if |elems| > 0 && elems[0].Listed? {
      WrittenFromSet(elems, 1, elems[0].args);
      var rest := WrittenFrom(elems, 1, Set(elems[0].args));
      assert Written(elems) == Calls([Invocation(elems[0].fn, elems[0].args)] + rest.calls);
    }
  }

  /** A bare element after an array is called with that array's arguments (the rule `Rule` passes `':'` to `INDENT`). */
  lemma StaleArguments()
    ensures Written([Listed("literal", [Str(":")]), Bare("INDENT")]) ==
            Calls([Invocation("literal", [Str(":")]), Invocation("INDENT", [Str(":")])])
    ensures Intended([Listed("literal", [Str(":")]), Bare("INDENT")])[1] == Invocation("INDENT", [])
  {
    var elems := [Listed("literal", [Str(":")]), Bare("INDENT")];
    WrittenCalls(elems);
    assert LastListed(elems, 1) == 0;
  }

  /** The intended calls: a bare element gets no extra arguments. */
  function Intended(elems: seq<Element>): (r: seq<Invocation>)
    ensures |r| == |elems|
    ensures forall k :: 0 <= k < |elems| ==> r[k].fn == elems[k].fn
    ensures forall k :: 0 <= k < |elems| && elems[k].Listed? ==> r[k].args == elems[k].args
    ensures forall k :: 0 <= k < |elems| && elems[k].Bare? ==> r[k].args == []
  {
    seq(|elems|, k requires 0 <= k < |elems| => Invocation(elems[k].fn, if elems[k].Listed? then elems[k].args else []))
  }

  /** `any`'s treatment of an element: a bare function becomes `[fn]`. */
  function Wrapped(elems: seq<Element>): (r: seq<Element>)
    ensures |r| == |elems|
    ensures forall k :: 0 <= k < |elems| ==> r[k].Listed? && r[k].fn == elems[k].fn
    ensures forall k :: 0 <= k < |elems| && elems[k].Listed? ==> r[k] == elems[k]
    ensures forall k :: 0 <= k < |elems| && elems[k].Bare? ==> r[k].args == []
  {
    seq(|elems|, k requires 0 <= k < |elems| => if elems[k].Bare? then Listed(elems[k].fn, []) else elems[k])
  }

  /** Wrapping bare elements as `any` does makes the loop as written give the intended calls. */
  lemma WrappedIntended(elems: seq<Element>)
    ensures Written(Wrapped(elems)) == Calls(Intended(elems))
  {
    var w := Wrapped(elems);
    WrittenCalls(w);
    forall k | 0 <= k < |w|
      ensures LastListed(w, k) == k
    {
    }
  }

  /**
   * `all` as written makes the intended calls exactly when its first
   * element is an array and every bare element follows an array without
   * arguments.
   */
  lemma WrittenIntended(elems: seq<Element>)
    ensures Written(elems) == Calls(Intended(elems)) <==>
      (|elems| == 0 || elems[0].Listed?) &&
      forall k :: 0 <= k < |elems| && elems[k].Bare? ==> elems[LastListed(elems, k)].args == []
  {
    WrittenCalls(elems);
    var w := Written(elems);
    var i := Intended(elems);
    if w.Calls? && forall k :: 0 <= k < |elems| && elems[k].Bare? ==> elems[LastListed(elems, k)].args == [] {
      forall k | 0 <= k < |elems|
        ensures w.calls[k] == i[k]
      {
        if elems[k].Listed? {
          assert LastListed(elems, k) == k;
        }
      }
      assert w.calls == i;
    }
    if w == Calls(i) {
      forall k | 0 <= k < |elems| && elems[k].Bare?
        ensures elems[LastListed(elems, k)].args == []
      {
        assert w.calls[k] == i[k];
      }
    }
  }
}
