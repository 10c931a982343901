/**
 * Laws of the lexical rules of lib/peg_coffee_parser.js that read quoted
 * text, comments, blank lines and white space, and of the `Grammar` rule's
 * repeated part: where each match ends and what it yields.
 */
module PegCoffeeTokenLaws {
  import opened Values
  import opened Util
  import opened Context
  import opened Semantics
  import opened SemanticsLaws
  import opened ContextLaws
  import opened PegCoffee
  import opened PegCoffeeLaws

  /** The actions `Literal` and `Class` of `g` compile the unescaped joined `content`, as the compiler's do. */
  ghost predicate YieldsQuoted(g: Grammar)
  {
    (forall caps :: g.actions("Literal", caps) == Code(Literal(Unescaped(Joined(Lookup(caps, "content")))))) &&
    (forall caps :: g.actions("Class", caps) == Code(Regex(Body(Unescaped(Joined(Lookup(caps, "content")))))))
  }

  /** The action `Comment` of `g` yields the trimmed joined `content`, as the compiler's does. */
  ghost predicate YieldsComment(g: Grammar)
  {
    forall caps :: g.actions("Comment", caps) == Str(Trim(Joined(Lookup(caps, "content"))))
  }

  /** Every action `Rule` of `g` yields a rule record, as the compiler's does. */
  ghost predicate YieldsRecord(g: Grammar)
  {
    forall caps :: g.actions("Rule", caps).RuleDef?
  }

  /** The rule `Rule` of `g` is the action `Rule`, and that action yields a rule record, as the compiler's does. */
  ghost predicate RecordRule(g: Grammar)
  {
    "Rule" in g.rules && g.rules["Rule"].Action? && g.rules["Rule"].code == "Rule" && YieldsRecord(g)
  }

  /** The compiler's own grammar meets the assumptions of the lemmas below. */
  lemma TokensFit()
    ensures YieldsQuoted(Compiler) && YieldsComment(Compiler) && YieldsRecord(Compiler)
    ensures HasRule(Compiler, "Rule", RuleBody) && RecordRule(Compiler)
  {
    forall caps ensures Compiler.actions("Literal", caps) == Code(Literal(Unescaped(Joined(Lookup(caps, "content"))))) {
      LiteralAction(caps);
    }
    forall caps ensures Compiler.actions("Class", caps) == Code(Regex(Body(Unescaped(Joined(Lookup(caps, "content")))))) {
      ClassAction(caps);
    }
    forall caps ensures Compiler.actions("Comment", caps) == Str(Trim(Joined(Lookup(caps, "content")))) {
      CommentAction(caps);
    }
    forall caps ensures Compiler.actions("Rule", caps).RuleDef? {
      RecordForms(caps, "");
    }
  }

  /** The compiler's `Literal` action unescapes the joined `content`. */
  lemma LiteralAction(caps: Captures)
    ensures CompilerAction("Literal", caps) == Code(Literal(Unescaped(Joined(Lookup(caps, "content")))))
  {
  }

  /** The compiler's `Class` action unescapes the joined `content`. */
  lemma ClassAction(caps: Captures)
    ensures CompilerAction("Class", caps) == Code(Regex(Body(Unescaped(Joined(Lookup(caps, "content"))))))
  {
  }

  /** The compiler's `Comment` action trims the joined `content`. */
  lemma CommentAction(caps: Captures)
    ensures CompilerAction("Comment", caps) == Str(Trim(Joined(Lookup(caps, "content"))))
  {
  }

  /** One matching round of `maybe_some` whose value is not empty. */
  lemma RepeatRound(g: Grammar, sub: Expr, input: string, pos: nat, ctx: Captures, acc: seq<Value>, fuel: nat,
                    v: Value, next: nat)
    requires fuel > 0 && v != Undefined
    requires Eval(g, sub, input, pos, ctx, fuel) == Outcome(Success(v), next, ctx)
    ensures Repeat(g, sub, input, pos, ctx, acc, fuel) == Repeat(g, sub, input, next, ctx, acc + [v], fuel - 1)
  {
  }

  /**
   * A matching round followed by the rest of the loop: the values of the
   * whole loop are this round's value followed by the rest's.
   */
  lemma RepeatThen(g: Grammar, sub: Expr, input: string, pos: nat, ctx: Captures, acc: seq<Value>, fuel: nat,
                   v: Value, next: nat, tail: seq<Value>, e: nat)
    requires fuel > 0 && v != Undefined
    requires Eval(g, sub, input, pos, ctx, fuel) == Outcome(Success(v), next, ctx)
    requires Repeat(g, sub, input, next, ctx, acc + [v], fuel - 1) == Outcome(Success(List(acc + [v] + tail)), e, ctx)
    ensures Repeat(g, sub, input, pos, ctx, acc, fuel) == Outcome(Success(List(acc + ([v] + tail))), e, ctx)
  {
    RepeatRound(g, sub, input, pos, ctx, acc, fuel, v, next);
    assert acc + [v] + tail == acc + ([v] + tail);
  }

  /** The round of `maybe_some` that does not match ends the loop. */
  lemma RepeatStops(g: Grammar, sub: Expr, input: string, pos: nat, ctx: Captures, acc: seq<Value>, fuel: nat)
    requires Eval(g, sub, input, pos, ctx, fuel) == Outcome(Failure, pos, ctx)
    ensures Repeat(g, sub, input, pos, ctx, acc, fuel) == Outcome(Success(List(acc)), pos, ctx)
  {
  }

  // ---------------------------------------------------------------------
  // EMPTY_LINE and WHITESPACE
  // ---------------------------------------------------------------------

  /** The end of the run of spaces that starts at `pos`. */
  function SpacesEnd(input: string, pos: nat): (e: nat)
    ensures pos <= e && (pos <= |input| ==> e <= |input|)
    ensures forall i :: pos <= i < e ==> At(input, i, ' ')
    ensures !At(input, e, ' ')
    decreases |input| - pos
  {
    if At(input, pos, ' ') then SpacesEnd(input, pos + 1) else pos
  }

  /**
   * `maybe_some` over `SPACE` consumes the run of spaces and collects
   * nothing, given one unit of fuel per round and one for the last call.
   */
  lemma {:induction false} RepeatSpaces(g: Grammar, input: string, pos: nat, ctx: Captures, fuel: nat)
    requires HasRule(g, "SPACE", SpaceBody)
    requires fuel >= SpacesEnd(input, pos) - pos + 1
    ensures Repeat(g, Call("SPACE"), input, pos, ctx, [], fuel) == Outcome(Success(List([])), SpacesEnd(input, pos), ctx)
    decreases |input| - pos
  {
    CallSpace(g, input, pos, ctx, fuel);
    if At(input, pos, ' ') {
      RepeatSpaces(g, input, pos + 1, ctx, fuel - 1);
    }
  }

  /** `EMPTY_LINE` is a run of spaces ended by a line break, with an empty result. */
  lemma EmptyLineMatches(g: Grammar, input: string, pos: nat, ctx: Captures, fuel: nat)
    requires fuel > |input| && pos <= |input|
    requires HasRule(g, "NEWLINE", NewlineBody) && HasRule(g, "SPACE", SpaceBody)
    requires YieldsLineFeed(g, "NEWLINE")
    ensures var e := SpacesEnd(input, pos);
      var n := BreakLength(input, e);
      Eval(g, EmptyLineBody, input, pos, ctx, fuel) ==
        if n > 0 then Outcome(Success(Undefined), e + n, ctx) else Outcome(Failure, pos, ctx)
  {
    var e := SpacesEnd(input, pos);
    RepeatSpaces(g, input, pos, ctx, fuel);
    CallNewline(g, input, e, ctx, fuel);
    SpacesThenBreak(g, Call("SPACE"), Call("NEWLINE"), input, pos, ctx, fuel, e, BreakLength(input, e));
  }

  /** A token of `maybe_some` of an item that yields nothing, then a line break of length `n`. */
  lemma SpacesThenBreak(g: Grammar, sp: Expr, nl: Expr, input: string, pos: nat, ctx: Captures, fuel: nat, e: nat, n: nat)
    requires Repeat(g, sp, input, pos, ctx, [], fuel) == Outcome(Success(List([])), e, ctx)
    requires Eval(g, nl, input, e, ctx, fuel) ==
      if n == 0 then Outcome(Failure, e, ctx) else Outcome(Success(Str("\n")), e + n, ctx)
    ensures Eval(g, Token(All([MaybeSome(sp), nl])), input, pos, ctx, fuel) ==
      if n > 0 then Outcome(Success(Undefined), e + n, ctx) else Outcome(Failure, pos, ctx)
  {
    SpacesBreakAll(g, sp, nl, input, pos, ctx, fuel, e, n);
  }

  /** `all` of `maybe_some` of an item that yields nothing, then a line break of length `n`. */
  lemma SpacesBreakAll(g: Grammar, sp: Expr, nl: Expr, input: string, pos: nat, ctx: Captures, fuel: nat, e: nat, n: nat)
    requires Repeat(g, sp, input, pos, ctx, [], fuel) == Outcome(Success(List([])), e, ctx)
    requires Eval(g, nl, input, e, ctx, fuel) ==
      if n == 0 then Outcome(Failure, e, ctx) else Outcome(Success(Str("\n")), e + n, ctx)
    ensures var o := Eval(g, All([MaybeSome(sp), nl]), input, pos, ctx, fuel);
      if n > 0 then o.res.Success? && o.pos == e + n && o.ctx == ctx else o == Outcome(Failure, pos, ctx)
  {
    var spaces := MaybeSome(sp);
    assert [spaces, nl] == [spaces] + [nl];
    assert Eval(g, spaces, input, pos, ctx, fuel) == Outcome(Success(List([])), e, ctx);
    AllCons(g, spaces, [nl], input, pos, ctx, fuel);
    Alone(g, nl, input, e, ctx, fuel);
    MergedEmpty(ctx);
  }




  /** `WHITESPACE` is a line break, yielding `"\n"`, or else one space, with an empty result. */
  lemma WhitespaceMatches(g: Grammar, input: string, pos: nat, ctx: Captures, fuel: nat)
    requires fuel >= 1
    requires HasRule(g, "NEWLINE", NewlineBody) && HasRule(g, "SPACE", SpaceBody)
    requires YieldsLineFeed(g, "NEWLINE")
    ensures var n := BreakLength(input, pos);
      Eval(g, WhitespaceBody, input, pos, ctx, fuel) ==
        if n > 0 then Outcome(Success(Str("\n")), pos + n, ctx)
        else if At(input, pos, ' ') then Outcome(Success(Undefined), pos + 1, ctx)
        else Outcome(Failure, pos, ctx)
  {
    var nl := Call("NEWLINE");
    var sp := Call("SPACE");
    assert [nl, sp] == [nl] + [sp];
    assert [sp] == [sp] + [];
    AnyCons(g, nl, [sp], input, pos, ctx, fuel);
    AnyCons(g, sp, [], input, pos, ctx, fuel);
    CallNewline(g, input, pos, ctx, fuel);
    CallSpace(g, input, pos, ctx, fuel);
    MergedEmpty(ctx);
  }

  // ---------------------------------------------------------------------
  // Literal and Class
  // ---------------------------------------------------------------------

  /**
   * Where the body of a quoted literal or class that starts at `pos` ends:
   * a backslash takes the next character with it, so a quote inside the
   * body is always preceded by a backslash, and the body stops at the first
   * other quote, at a backslash that ends the input, or at the end of the
   * input.
   */
  function QuotedEnd(input: string, pos: nat, quote: char): (e: nat)
    requires pos <= |input|
    ensures pos <= e <= |input|
    ensures e < |input| ==> input[e] == quote || (input[e] == '\\' && e + 1 == |input|)
    decreases |input| - pos
  {
    if pos + 1 < |input| && input[pos] == '\\' then QuotedEnd(input, pos + 2, quote)
    else if pos < |input| && input[pos] != '\\' && input[pos] != quote then QuotedEnd(input, pos + 1, quote)
    else pos
  }

  /** Every closing character inside a quoted body follows a backslash that escapes it. */
  lemma {:induction false} QuotedEndEscaped(input: string, pos: nat, quote: char)
    requires pos <= |input|
    ensures var e := QuotedEnd(input, pos, quote);
      quote != '\\' ==> forall i :: pos <= i < e && input[i] == quote ==> pos < i && input[i - 1] == '\\'
    decreases |input| - pos
  {
    if pos + 1 < |input| && input[pos] == '\\' {
      QuotedEndEscaped(input, pos + 2, quote);
    } else if pos < |input| && input[pos] != '\\' && input[pos] != quote {
      QuotedEndEscaped(input, pos + 1, quote);
    }
  }

  /** The values `maybe_some` collects over that body: a list per character or escape pair. */
  function QuotedRounds(input: string, pos: nat, quote: char): seq<Value>
    requires pos <= |input|
    decreases |input| - pos
  {
    if pos + 1 < |input| && input[pos] == '\\' then
      [List([Str("\\"), Str([input[pos + 1]])])] + QuotedRounds(input, pos + 2, quote)
    else if pos < |input| && input[pos] != '\\' && input[pos] != quote then
      [List([Str([input[pos]])])] + QuotedRounds(input, pos + 1, quote)
    else []
  }

  /** Joining those values gives back the text of the body, its escapes as written. */
  lemma {:induction false} JoinedRounds(input: string, pos: nat, quote: char)
    requires pos <= |input|
    ensures Joined(List(QuotedRounds(input, pos, quote))) == input[pos..QuotedEnd(input, pos, quote)]
    decreases |input| - pos
  {
    var e := QuotedEnd(input, pos, quote);
    if pos + 1 < |input| && input[pos] == '\\' {
      JoinedRounds(input, pos + 2, quote);
      JoinedEscape(input, pos, e, QuotedRounds(input, pos + 2, quote));
    } else if pos < |input| && input[pos] != '\\' && input[pos] != quote {
      JoinedRounds(input, pos + 1, quote);
      JoinedPlain(input, pos, e, QuotedRounds(input, pos + 1, quote));
    } else {
      assert Joined(List([])) == Concat([]);
    }
  }

  lemma JoinedEscape(input: string, pos: nat, e: nat, rest: seq<Value>)
    requires pos + 2 <= e <= |input| && input[pos] == '\\'
    requires Joined(List(rest)) == input[pos + 2..e]
    ensures Joined(List([List([Str("\\"), Str([input[pos + 1]])])] + rest)) == input[pos..e]
  {
    JoinedFront(List([Str("\\"), Str([input[pos + 1]])]), rest);
    JoinedPair(Str("\\"), Str([input[pos + 1]]));
    assert input[pos..e] == ([input[pos]] + [input[pos + 1]]) + input[pos + 2..e];
  }

  lemma JoinedPlain(input: string, pos: nat, e: nat, rest: seq<Value>)
    requires pos + 1 <= e <= |input|
    requires Joined(List(rest)) == input[pos + 1..e]
    ensures Joined(List([List([Str([input[pos]])])] + rest)) == input[pos..e]
  {
    JoinedFront(List([Str([input[pos]])]), rest);
    JoinedSingle(Str([input[pos]]));
    assert input[pos..e] == [input[pos]] + input[pos + 1..e];
  }

  /** The join of a list is the join of its first item followed by the join of the rest. */
  lemma JoinedFront(v: Value, rest: seq<Value>)
    ensures Joined(List([v] + rest)) == Joined(v) + Joined(List(rest))
  {
    JoinedAppend([v], rest);
    JoinedSingle(v);
  }

  /** The guard of a quoted character: a backslash, or an empty match of anything but the quote. */
  lemma QuotedGuard(g: Grammar, quote: char, input: string, p: nat, ctx: Captures, fuel: nat)
    ensures Eval(g, Any([Literal("\\"), Reject(Literal([quote]))]), input, p, ctx, fuel) ==
      if At(input, p, '\\') then Outcome(Success(Str("\\")), p + 1, ctx)
      else if At(input, p, quote) then Outcome(Failure, p, ctx)
      else Outcome(Success(Undefined), p, ctx)
  {
    var bs := Literal("\\");
    var no := Reject(Literal([quote]));
    assert [bs, no] == [bs] + [no];
    assert [no] == [no] + [];
    AnyCons(g, bs, [no], input, p, ctx, fuel);
    AnyCons(g, no, [], input, p, ctx, fuel);
    LiteralChar(g, '\\', input, p, ctx, fuel);
    LiteralChar(g, quote, input, p, ctx, fuel);
    MergedEmpty(ctx);
  }

  /** `all` of a single `advance`. */
  lemma AdvanceAlone(g: Grammar, input: string, p: nat, ctx: Captures, fuel: nat)
    ensures Eval(g, All([Advance]), input, p, ctx, fuel) ==
      if p < |input| then Outcome(Success(List([Str([input[p]])])), p + 1, ctx) else Outcome(Failure, p, ctx)
  {
    assert [Advance] == [Advance] + [];
    AllCons(g, Advance, [], input, p, ctx, fuel);
    AllNil(g, input, p + 1, ctx, fuel);
    MergedEmpty(ctx);
    if p < |input| {
      assert Kept(Success(Str([input[p]]))) + [] == [Str([input[p]])];
    }
  }

  /**
   * One round of a quoted body: a backslash and the character after it
   * (even the quote), or one character that is neither a backslash nor the
   * quote; nothing else matches.
   */
  lemma QuotedStepMatches(g: Grammar, quote: char, input: string, p: nat, ctx: Captures, fuel: nat)
    ensures Eval(g, QuotedStep([quote]), input, p, ctx, fuel) ==
      if p + 1 < |input| && input[p] == '\\' then Outcome(Success(List([Str("\\"), Str([input[p + 1]])])), p + 2, ctx)
      else if p < |input| && input[p] != '\\' && input[p] != quote then Outcome(Success(List([Str([input[p]])])), p + 1, ctx)
      else Outcome(Failure, p, ctx)
  {
    var guard := Any([Literal("\\"), Reject(Literal([quote]))]);
    assert [guard, Advance] == [guard] + [Advance];
    AllCons(g, guard, [Advance], input, p, ctx, fuel);
    QuotedGuard(g, quote, input, p, ctx, fuel);
    var first := Eval(g, guard, input, p, ctx, fuel);
    AdvanceAlone(g, input, first.pos, ctx, fuel);
    MergedEmpty(ctx);
    if p + 1 < |input| && input[p] == '\\' {
      assert Kept(first.res) == [Str("\\")];
      assert [Str("\\")] + [Str([input[p + 1]])] == [Str("\\"), Str([input[p + 1]])];
    } else if p < |input| && input[p] != '\\' && input[p] != quote {
      assert Kept(first.res) == [];
      assert [] + [Str([input[p]])] == [Str([input[p]])];
    }
  }

  /** `maybe_some` over the rounds of a quoted body consumes the whole body. */
  lemma {:induction false} RepeatQuoted(g: Grammar, quote: char, input: string, pos: nat, ctx: Captures,
                                        acc: seq<Value>, fuel: nat)
    requires pos <= |input|
    requires fuel >= QuotedEnd(input, pos, quote) - pos
    ensures Repeat(g, QuotedStep([quote]), input, pos, ctx, acc, fuel) ==
      Outcome(Success(List(acc + QuotedRounds(input, pos, quote))), QuotedEnd(input, pos, quote), ctx)
    decreases |input| - pos
  {
    var step := QuotedStep([quote]);
    QuotedStepMatches(g, quote, input, pos, ctx, fuel);
    if pos + 1 < |input| && input[pos] == '\\' {
      var v := List([Str("\\"), Str([input[pos + 1]])]);
      RepeatQuoted(g, quote, input, pos + 2, ctx, acc + [v], fuel - 1);
      RepeatThen(g, step, input, pos, ctx, acc, fuel, v, pos + 2, QuotedRounds(input, pos + 2, quote),
                 QuotedEnd(input, pos + 2, quote));
    } else if pos < |input| && input[pos] != '\\' && input[pos] != quote {
      var v := List([Str([input[pos]])]);
      RepeatQuoted(g, quote, input, pos + 1, ctx, acc + [v], fuel - 1);
      RepeatThen(g, step, input, pos, ctx, acc, fuel, v, pos + 1, QuotedRounds(input, pos + 1, quote),
                 QuotedEnd(input, pos + 1, quote));
    } else {
      RepeatStops(g, step, input, pos, ctx, acc, fuel);
      assert acc + [] == acc;
    }
  }

  /** `open` at `pos`, and the quoted body after it ends at `close`. */
  predicate QuotedAt(input: string, pos: nat, open: char, close: char)
  {
    At(input, pos, open) && At(input, QuotedEnd(input, pos + 1, close), close)
  }

  /** The labelled body followed by the closing quote, composed by `all`. */
  lemma ClosingQuote(g: Grammar, lab: Expr, close: char, input: string, p: nat, e: nat, body: Value, fuel: nat)
    requires body.List?
    requires Eval(g, lab, input, p, map[], fuel) == Outcome(Success(body), e, map["content" := body])
    ensures Eval(g, All([lab, Literal([close])]), input, p, map[], fuel) ==
      if At(input, e, close) then Outcome(Success(List([body, Str([close])])), e + 1, map["content" := body])
      else Outcome(Failure, p, map[])
  {
    var end := Literal([close]);
    var c := map["content" := body];
    assert [lab, end] == [lab] + [end];
    assert [end] == [end] + [];
    AllCons(g, lab, [end], input, p, map[], fuel);
    AllCons(g, end, [], input, e, c, fuel);
    LiteralChar(g, close, input, e, c, fuel);
    AllNil(g, input, e + 1, c, fuel);
    MergedEmpty(c);
    assert Kept(Success(Str([close]))) + [] == [Str([close])];
    assert Kept(Success(body)) + [Str([close])] == [body, Str([close])];
  }

  /**
   * A quoted expression matches the opening character, the body up to the
   * first unescaped closing character, and that character; it labels the
   * collected body `content`.
   */
  lemma QuotedMatches(g: Grammar, open: char, close: char, input: string, pos: nat, fuel: nat)
    requires fuel >= |input|
    ensures var o := Eval(g, Quoted([open], [close]), input, pos, map[], fuel);
      if QuotedAt(input, pos, open, close) then
        var body := List(QuotedRounds(input, pos + 1, close));
        o == Outcome(Success(List([Str([open]), body, Str([close])])), QuotedEnd(input, pos + 1, close) + 1,
                     map["content" := body])
      else o == Outcome(Failure, pos, map[])
  {
    var lit := Literal([open]);
    var rest := [Label("content", QuotedContent([close])), Literal([close])];
    var es := [lit] + rest;
    assert Quoted([open], [close]) == All(es);
    LiteralChar(g, open, input, pos, map[], fuel);
    if At(input, pos, open) {
      QuotedTail(g, close, input, pos + 1, fuel);
      Opened(g, es, lit, rest, open, input, pos, fuel, QuotedAt(input, pos, open, close),
             List(QuotedRounds(input, pos + 1, close)), Str([close]), QuotedEnd(input, pos + 1, close) + 1);
    } else {
      Opened(g, es, lit, rest, open, input, pos, fuel, false, Null, Null, 0);
    }
  }
  /** The labelled body of a quoted expression, then its closing character, composed by `all`. */
  lemma QuotedTail(g: Grammar, close: char, input: string, p: nat, fuel: nat)
    requires p <= |input| && fuel >= |input|
    ensures var e := QuotedEnd(input, p, close);
      var body := List(QuotedRounds(input, p, close));
      Eval(g, All([Label("content", QuotedContent([close])), Literal([close])]), input, p, map[], fuel) ==
        if At(input, e, close) then Outcome(Success(List([body, Str([close])])), e + 1, map["content" := body])
        else Outcome(Failure, p, map[])
  {
    var lab := Label("content", QuotedContent([close]));
    var e := QuotedEnd(input, p, close);
    var body := List(QuotedRounds(input, p, close));
    RepeatQuoted(g, close, input, p, map[], [], fuel);
    assert [] + QuotedRounds(input, p, close) == QuotedRounds(input, p, close);
    assert Eval(g, lab, input, p, map[], fuel) == Outcome(Success(body), e, map["content" := body]);
    ClosingQuote(g, lab, close, input, p, e, body, fuel);
  }

  /**
   * An opening character, then the rest of a bracketed expression, composed
   * by `all`: the whole matches when both do, with the opening character
   * before the body and the closer, and the body's capture as the context.
   */
  lemma Opened(g: Grammar, es: seq<Expr>, lit: Expr, rest: seq<Expr>, c: char, input: string, pos: nat, fuel: nat,
               matched: bool, body: Value, closer: Value, end: nat)
    requires es == [lit] + rest
    requires Eval(g, lit, input, pos, map[], fuel) ==
      if At(input, pos, c) then Outcome(Success(Str([c])), pos + 1, map[]) else Outcome(Failure, pos, map[])
    requires matched ==> At(input, pos, c)
    requires At(input, pos, c) ==>
      Eval(g, All(rest), input, pos + 1, map[], fuel) ==
        if matched then Outcome(Success(List([body, closer])), end, map["content" := body])
        else Outcome(Failure, pos + 1, map[])
    ensures Eval(g, All(es), input, pos, map[], fuel) ==
      if matched then Outcome(Success(List([Str([c]), body, closer])), end, map["content" := body])
      else Outcome(Failure, pos, map[])
  {
    AllCons(g, lit, rest, input, pos, map[], fuel);
    if matched {
      MergedEmpty(map["content" := body]);
      assert [Str([c])] + [body, closer] == [Str([c]), body, closer];
    }
  }



  /**
   * An action over a quoted expression whose action text `f` reads the
   * joined `content`: on a match it yields `f` of the text between the
   * quotes and keeps the `content` capture; otherwise it fails where it
   * started and leaves the context as it was.
   */
  lemma QuotedRule(g: Grammar, body: Expr, sub: Expr, code: string, f: string -> Value, open: char, close: char,
                   input: string, pos: nat, ctx: Captures, fuel: nat)
    requires body == Action(sub, code)
    requires forall caps :: g.actions(code, caps) == f(Joined(Lookup(caps, "content")))
    requires var r := Eval(g, sub, input, pos, map[], fuel);
      if QuotedAt(input, pos, open, close) then
        r.res.Success? && r.pos == QuotedEnd(input, pos + 1, close) + 1 &&
        r.ctx == map["content" := List(QuotedRounds(input, pos + 1, close))]
      else r == Outcome(Failure, pos, map[])
    ensures var o := Eval(g, body, input, pos, ctx, fuel);
      if QuotedAt(input, pos, open, close) then
        var e := QuotedEnd(input, pos + 1, close);
        o.res == Success(f(input[pos + 1..e])) && o.pos == e + 1 &&
        o.ctx == Merged(ctx, map["content" := List(QuotedRounds(input, pos + 1, close))])
      else o == Outcome(Failure, pos, ctx)
  {
    ActionIsolated(g, sub, code, input, pos, ctx, ctx, fuel);
    if QuotedAt(input, pos, open, close) {
      JoinedRounds(input, pos + 1, close);
      var r := Eval(g, sub, input, pos, map[], fuel);
      assert Lookup(r.ctx["$$" := r.res.value], "content") == List(QuotedRounds(input, pos + 1, close));
    }
  }

  /**
   * `Literal` reads a single- or double-quoted string and compiles the
   * unescaped text between the quotes into a literal expression; a
   * backslash keeps the quote after it inside the string.
   */
  lemma LiteralRuleMatches(g: Grammar, input: string, pos: nat, ctx: Captures, fuel: nat)
    requires fuel >= |input|
    requires YieldsQuoted(g)
    ensures var o := Eval(g, LiteralBody, input, pos, ctx, fuel);
      var q := if At(input, pos, '"') then '"' else '\'';
      if QuotedAt(input, pos, q, q) then
        var e := QuotedEnd(input, pos + 1, q);
        o.res == Success(Code(Literal(Unescaped(input[pos + 1..e])))) && o.pos == e + 1 &&
        o.ctx == Merged(ctx, map["content" := List(QuotedRounds(input, pos + 1, q))])
      else o == Outcome(Failure, pos, ctx)
  {
    var q := if At(input, pos, '"') then '"' else '\'';
    LiteralAlternatives(g, input, pos, fuel);
    var f := (s: string) => Code(Literal(Unescaped(s)));
    QuotedRule(g, LiteralBody, Any([Quoted("'", "'"), Quoted("\"", "\"")]), "Literal", f, q, q, input, pos, ctx, fuel);
  }

  /** The two alternatives of `Literal`: single quotes, then double quotes. */
  lemma LiteralAlternatives(g: Grammar, input: string, pos: nat, fuel: nat)
    requires fuel >= |input|
    ensures var o := Eval(g, Any([Quoted("'", "'"), Quoted("\"", "\"")]), input, pos, map[], fuel);
      var q := if At(input, pos, '"') then '"' else '\'';
      if QuotedAt(input, pos, q, q) then
        var body := List(QuotedRounds(input, pos + 1, q));
        o.res.Success? && o.pos == QuotedEnd(input, pos + 1, q) + 1 && o.ctx == map["content" := body]
      else o == Outcome(Failure, pos, map[])
  {
    var a := Quoted("'", "'");
    var b := Quoted("\"", "\"");
    assert "'" == ['\''] && "\"" == ['"'];
    assert [a, b] == [a] + [b];
    assert [b] == [b] + [];
    AnyCons(g, a, [b], input, pos, map[], fuel);
    AnyCons(g, b, [], input, pos, map[], fuel);
    QuotedMatches(g, '\'', '\'', input, pos, fuel);
    QuotedMatches(g, '"', '"', input, pos, fuel);
    var q := if At(input, pos, '"') then '"' else '\'';
    if QuotedAt(input, pos, q, q) {
      MergedEmpty(map["content" := List(QuotedRounds(input, pos + 1, q))]);
    }
  }

  /**
   * `Class` reads a bracketed class and compiles the unescaped text between
   * the brackets into a class expression; a backslash keeps the `]` after
   * it inside the class.
   */
  lemma ClassRuleMatches(g: Grammar, input: string, pos: nat, ctx: Captures, fuel: nat)
    requires fuel >= |input|
    requires YieldsQuoted(g)
    ensures var o := Eval(g, ClassBody, input, pos, ctx, fuel);
      if QuotedAt(input, pos, '[', ']') then
        var e := QuotedEnd(input, pos + 1, ']');
        o.res == Success(Code(Regex(Body(Unescaped(input[pos + 1..e]))))) && o.pos == e + 1 &&
        o.ctx == Merged(ctx, map["content" := List(QuotedRounds(input, pos + 1, ']'))])
      else o == Outcome(Failure, pos, ctx)
  {
    assert "[" == ['['] && "]" == [']'];
    QuotedMatches(g, '[', ']', input, pos, fuel);
    var f := (s: string) => Code(Regex(Body(Unescaped(s))));
    QuotedRule(g, ClassBody, Quoted("[", "]"), "Class", f, '[', ']', input, pos, ctx, fuel);
  }

  // ---------------------------------------------------------------------
  // Comment
  // ---------------------------------------------------------------------

  /** The first position from `pos` on where a line break starts, or the end of the input. */
  function LineEnd(input: string, pos: nat): (e: nat)
    requires pos <= |input|
    ensures pos <= e <= |input|
    ensures forall i :: pos <= i < e ==> BreakLength(input, i) == 0
    ensures e < |input| ==> BreakLength(input, e) > 0
    decreases |input| - pos
  {
    if pos < |input| && BreakLength(input, pos) == 0 then LineEnd(input, pos + 1) else pos
  }

  /** The values `maybe_some` collects over the text of a comment: a one-item list per character. */
  function Singles(s: string): seq<Value>
  {
    seq(|s|, i requires 0 <= i < |s| => List([Str([s[i]])]))
  }

  /** Joining those values gives back the text. */
  lemma JoinedSingles(s: string)
    ensures Joined(List(Singles(s))) == s
  {
    var items := Singles(s);
    var parts := seq(|items|, i requires 0 <= i < |items| => Joined(items[i]));
    var chars := Chars(s);
    forall i | 0 <= i < |s|
      ensures parts[i] == Joined(chars[i])
    {
      JoinedSingle(Str([s[i]]));
    }
    assert parts == seq(|chars|, i requires 0 <= i < |chars| => Joined(chars[i]));
    JoinedChars(s);
  }

  lemma SinglesCons(s: string, i: nat, j: nat)
    requires i < j <= |s|
    ensures Singles(s[i..j]) == [List([Str([s[i]])])] + Singles(s[i + 1..j])
  {
    assert s[i..j][0] == s[i];
    assert s[i..j][1..] == s[i + 1..j];
  }

  /** One round of the text of a comment: a character that does not start a line break. */
  lemma LineStepMatches(g: Grammar, input: string, p: nat, ctx: Captures, fuel: nat)
    requires fuel >= 1
    requires HasRule(g, "NEWLINE", NewlineBody) && YieldsLineFeed(g, "NEWLINE")
    ensures Eval(g, All([Reject(Call("NEWLINE")), Advance]), input, p, ctx, fuel) ==
      if p < |input| && BreakLength(input, p) == 0 then Outcome(Success(List([Str([input[p]])])), p + 1, ctx)
      else Outcome(Failure, p, ctx)
  {
    var no := Reject(Call("NEWLINE"));
    assert [no, Advance] == [no] + [Advance];
    AllCons(g, no, [Advance], input, p, ctx, fuel);
    CallNewline(g, input, p, ctx, fuel);
    AdvanceAlone(g, input, p, ctx, fuel);
    MergedEmpty(ctx);
    if p < |input| && BreakLength(input, p) == 0 {
      assert Eval(g, no, input, p, ctx, fuel) == Outcome(Success(Undefined), p, ctx);
      assert Kept(Success(Undefined)) + [Str([input[p]])] == [Str([input[p]])];
    }
  }

  /** `maybe_some` over the rounds of a comment's text consumes the rest of the line. */
  lemma {:induction false} RepeatLine(g: Grammar, input: string, pos: nat, ctx: Captures, acc: seq<Value>,
                                      fuel: nat)
    requires pos <= |input|
    requires fuel >= LineEnd(input, pos) - pos + 1
    requires HasRule(g, "NEWLINE", NewlineBody) && YieldsLineFeed(g, "NEWLINE")
    ensures var e := LineEnd(input, pos);
      Repeat(g, All([Reject(Call("NEWLINE")), Advance]), input, pos, ctx, acc, fuel) ==
        Outcome(Success(List(acc + Singles(input[pos..e]))), e, ctx)
    decreases |input| - pos
  {
    var step := All([Reject(Call("NEWLINE")), Advance]);
    var e := LineEnd(input, pos);
    LineStepMatches(g, input, pos, ctx, fuel);
    if pos < |input| && BreakLength(input, pos) == 0 {
      var v := List([Str([input[pos]])]);
      RepeatRound(g, step, input, pos, ctx, acc, fuel, v, pos + 1);
      RepeatLine(g, input, pos + 1, ctx, acc + [v], fuel - 1);
      SinglesCons(input, pos, e);
      assert acc + [v] + Singles(input[pos + 1..e]) == acc + Singles(input[pos..e]);
    } else {
      RepeatStops(g, step, input, pos, ctx, acc, fuel);
      assert acc + Singles(input[pos..e]) == acc;
    }
  }

  /** A `#` at `pos`, and a line break after the rest of the line. */
  predicate CommentAt(input: string, pos: nat)
  {
    At(input, pos, '#') && BreakLength(input, LineEnd(input, pos + 1)) > 0
  }

  /** The labelled text of a comment followed by `NEWLINE`, composed by `all`. */
  lemma ClosingBreak(g: Grammar, lab: Expr, input: string, p: nat, e: nat, body: Value, fuel: nat)
    requires body.List? && fuel >= 1
    requires HasRule(g, "NEWLINE", NewlineBody) && YieldsLineFeed(g, "NEWLINE")
    requires Eval(g, lab, input, p, map[], fuel) == Outcome(Success(body), e, map["content" := body])
    ensures var n := BreakLength(input, e);
      Eval(g, All([lab, Call("NEWLINE")]), input, p, map[], fuel) ==
        if n > 0 then Outcome(Success(List([body, Str("\n")])), e + n, map["content" := body])
        else Outcome(Failure, p, map[])
  {
    var nl := Call("NEWLINE");
    var c := map["content" := body];
    var n := BreakLength(input, e);
    assert [lab, nl] == [lab] + [nl];
    assert [nl] == [nl] + [];
    AllCons(g, lab, [nl], input, p, map[], fuel);
    AllCons(g, nl, [], input, e, c, fuel);
    CallNewline(g, input, e, c, fuel);
    AllNil(g, input, e + n, c, fuel);
    MergedEmpty(c);
    assert Kept(Success(Str("\n"))) + [] == [Str("\n")];
    assert Kept(Success(body)) + [Str("\n")] == [body, Str("\n")];
  }

  /** The expression of `Comment`: `#`, the labelled rest of the line, and the line break. */
  lemma CommentSequence(g: Grammar, input: string, pos: nat, fuel: nat)
    requires fuel > |input|
    requires HasRule(g, "NEWLINE", NewlineBody) && YieldsLineFeed(g, "NEWLINE")
    ensures var o := Eval(g, All([Literal("#"), Label("content", MaybeSome(All([Reject(Call("NEWLINE")), Advance]))),
                                  Call("NEWLINE")]), input, pos, map[], fuel);
      if CommentAt(input, pos) then
        var e := LineEnd(input, pos + 1);
        var body := List(Singles(input[pos + 1..e]));
        o == Outcome(Success(List([Str("#"), body, Str("\n")])), e + BreakLength(input, e), map["content" := body])
      else o == Outcome(Failure, pos, map[])
  {
    var lit := Literal("#");
    var rest := [Label("content", MaybeSome(All([Reject(Call("NEWLINE")), Advance]))), Call("NEWLINE")];
    var es := [lit] + rest;
    assert es == [lit, rest[0], rest[1]];
    assert "#" == ['#'];
    LiteralChar(g, '#', input, pos, map[], fuel);
    if At(input, pos, '#') {
      var e := LineEnd(input, pos + 1);
      CommentTail(g, input, pos + 1, fuel);
      Opened(g, es, lit, rest, '#', input, pos, fuel, CommentAt(input, pos),
             List(Singles(input[pos + 1..e])), Str("\n"), e + BreakLength(input, e));
    } else {
      Opened(g, es, lit, rest, '#', input, pos, fuel, false, Null, Null, 0);
    }
  }
  /** The labelled text of a comment, then the line break, composed by `all`. */
  lemma CommentTail(g: Grammar, input: string, p: nat, fuel: nat)
    requires p <= |input| && fuel > |input|
    requires HasRule(g, "NEWLINE", NewlineBody) && YieldsLineFeed(g, "NEWLINE")
    ensures var e := LineEnd(input, p);
      var body := List(Singles(input[p..e]));
      var n := BreakLength(input, e);
      Eval(g, All([Label("content", MaybeSome(All([Reject(Call("NEWLINE")), Advance]))), Call("NEWLINE")]),
           input, p, map[], fuel) ==
        if n > 0 then Outcome(Success(List([body, Str("\n")])), e + n, map["content" := body])
        else Outcome(Failure, p, map[])
  {
    var lab := Label("content", MaybeSome(All([Reject(Call("NEWLINE")), Advance])));
    var e := LineEnd(input, p);
    var body := List(Singles(input[p..e]));
    RepeatLine(g, input, p, map[], [], fuel);
    assert [] + Singles(input[p..e]) == Singles(input[p..e]);
    assert Eval(g, lab, input, p, map[], fuel) == Outcome(Success(body), e, map["content" := body]);
    ClosingBreak(g, lab, input, p, e, body, fuel);
  }



  /**
   * `Comment` reads `#` and the rest of the line up to and including the
   * line break, and yields the text after `#` without its surrounding
   * white space; a `#` on the last line with no line break after it is no
   * comment.
   */
  lemma CommentMatches(g: Grammar, input: string, pos: nat, ctx: Captures, fuel: nat)
    requires fuel > |input|
    requires HasRule(g, "NEWLINE", NewlineBody) && YieldsLineFeed(g, "NEWLINE") && YieldsComment(g)
    ensures var o := Eval(g, CommentBody, input, pos, ctx, fuel);
      if CommentAt(input, pos) then
        var e := LineEnd(input, pos + 1);
        o.res == Success(Str(Trim(input[pos + 1..e]))) && o.pos == e + BreakLength(input, e) &&
        o.ctx == Merged(ctx, map["content" := List(Singles(input[pos + 1..e]))])
      else o == Outcome(Failure, pos, ctx)
  {
    var sub := All([Literal("#"), Label("content", MaybeSome(All([Reject(Call("NEWLINE")), Advance]))), Call("NEWLINE")]);
    CommentSequence(g, input, pos, fuel);
    ActionIsolated(g, sub, "Comment", input, pos, ctx, ctx, fuel);
    if CommentAt(input, pos) {
      var e := LineEnd(input, pos + 1);
      var r := Eval(g, sub, input, pos, map[], fuel);
      assert Lookup(r.ctx["$$" := r.res.value], "content") == List(Singles(input[pos + 1..e]));
      JoinedSingles(input[pos + 1..e]);
    }
  }

  // ---------------------------------------------------------------------
  // Grammar: the items of its tail
  // ---------------------------------------------------------------------

  /** A reference to `Rule` keeps the context, and a match yields a rule record. */
  lemma CallRule(g: Grammar, input: string, pos: nat, ctx: Captures, fuel: nat)
    requires fuel >= 1
    requires RecordRule(g)
    ensures var r := Eval(g, Call("Rule"), input, pos, ctx, fuel);
      r.ctx == ctx && (r.res.Success? ==> r.res.value.RuleDef?)
  {
    ActionIsolated(g, g.rules["Rule"].sub, "Rule", input, pos, map[], map[], fuel - 1);
  }

  /** `all` of a single expression that keeps the context. */
  lemma Alone(g: Grammar, e: Expr, input: string, pos: nat, ctx: Captures, fuel: nat)
    requires Eval(g, e, input, pos, ctx, fuel).ctx == ctx
    ensures var r := Eval(g, e, input, pos, ctx, fuel);
      var o := Eval(g, All([e]), input, pos, ctx, fuel);
      (r.res.Success? ==> o == Outcome(Success(List(Kept(r.res))), r.pos, ctx)) &&
      (r.res.Failure? ==> o == Outcome(Failure, pos, ctx)) &&
      (r.res.Stopped? ==> o == Outcome(r.res, r.pos, ctx))
  {
    var r := Eval(g, e, input, pos, ctx, fuel);
    assert [e] == [e] + [];
    AllCons(g, e, [], input, pos, ctx, fuel);
    AllNil(g, input, r.pos, ctx, fuel);
    MergedEmpty(ctx);
    if r.res.Success? {
      assert Kept(r.res) + [] == Kept(r.res);
    }
  }

  /** A matched line break, then `tail`, composed by `all`. */
  lemma BreakThen(pos: nat, ctx: Captures, first: Outcome, tail: Outcome)
    requires first.res == Success(Str("\n")) && first.ctx == ctx
    ensures var o := Then(pos, ctx, first, tail);
      (tail.res.Success? && tail.res.value.List? && tail.ctx == ctx ==>
         o == Outcome(Success(List([Str("\n")] + tail.res.value.items)), tail.pos, ctx)) &&
      (tail.res.Failure? ==> o == Outcome(Failure, pos, ctx)) &&
      (tail.res.Stopped? ==> o == Outcome(tail.res, tail.pos, ctx))
  {
    MergedEmpty(ctx);
  }

  /**
   * An item of the tail of `Grammar` is two line breaks and a rule; it
   * matches exactly when all three do, and then its element at index 2 is
   * the rule record, the one `extract(tail, 2)` hands to the registration.
   */
  lemma GrammarTailItem(g: Grammar, input: string, pos: nat, ctx: Captures, fuel: nat)
    requires fuel >= 1
    requires HasRule(g, "NEWLINE", NewlineBody) && YieldsLineFeed(g, "NEWLINE")
    requires RecordRule(g)
    ensures var o := Eval(g, All([Call("NEWLINE"), Call("NEWLINE"), Call("Rule")]), input, pos, ctx, fuel);
      var n1 := BreakLength(input, pos);
      var n2 := BreakLength(input, pos + n1);
      var r := Eval(g, Call("Rule"), input, pos + n1 + n2, ctx, fuel);
      (o.res.Success? <==> n1 > 0 && n2 > 0 && r.res.Success?) &&
      (o.res.Failure? <==> n1 == 0 || n2 == 0 || r.res.Failure?) &&
      (o.res.Success? ==>
         r.res.value.RuleDef? && o.res.value == List([Str("\n"), Str("\n"), r.res.value]) &&
         Element(o.res.value, 2) == r.res.value && o.pos == r.pos && o.ctx == ctx) &&
      (o.res.Failure? ==> o.pos == pos && o.ctx == ctx)
  {
    var n1 := BreakLength(input, pos);
    var n2 := BreakLength(input, pos + n1);
    CallNewline(g, input, pos, ctx, fuel);
    CallNewline(g, input, pos + n1, ctx, fuel);
    CallRule(g, input, pos + n1 + n2, ctx, fuel);
    TailItemRecord(g, Call("NEWLINE"), Call("Rule"), input, pos, ctx, fuel, n1, n2);
  }

  /** Two line breaks of lengths `n1` and `n2`, then an expression that keeps the context and yields a record. */
  lemma TailItemRecord(g: Grammar, nl: Expr, rl: Expr, input: string, pos: nat, ctx: Captures, fuel: nat, n1: nat, n2: nat)
    requires Eval(g, nl, input, pos, ctx, fuel) ==
      if n1 == 0 then Outcome(Failure, pos, ctx) else Outcome(Success(Str("\n")), pos + n1, ctx)
    requires Eval(g, nl, input, pos + n1, ctx, fuel) ==
      if n2 == 0 then Outcome(Failure, pos + n1, ctx) else Outcome(Success(Str("\n")), pos + n1 + n2, ctx)
    requires var r := Eval(g, rl, input, pos + n1 + n2, ctx, fuel);
      r.ctx == ctx && (r.res.Success? ==> r.res.value.RuleDef?)
    ensures var o := Eval(g, All([nl, nl, rl]), input, pos, ctx, fuel);
      var r := Eval(g, rl, input, pos + n1 + n2, ctx, fuel);
      (o.res.Success? <==> n1 > 0 && n2 > 0 && r.res.Success?) &&
      (o.res.Failure? <==> n1 == 0 || n2 == 0 || r.res.Failure?) &&
      (o.res.Success? ==>
         r.res.value.RuleDef? && o.res.value == List([Str("\n"), Str("\n"), r.res.value]) &&
         Element(o.res.value, 2) == r.res.value && o.pos == r.pos && o.ctx == ctx) &&
      (o.res.Failure? ==> o.pos == pos && o.ctx == ctx)
  {
    assert [nl, nl, rl] == [nl] + [nl, rl];
    AllCons(g, nl, [nl, rl], input, pos, ctx, fuel);
    var first := Eval(g, nl, input, pos, ctx, fuel);
    var u := Eval(g, All([nl, rl]), input, first.pos, first.ctx, fuel);
    if n1 > 0 {
      BreakThenRecord(g, nl, rl, input, pos + n1, ctx, fuel, n2);
    }
    TailItemComposed(pos, ctx, n1, n2, first, u, Eval(g, rl, input, pos + n1 + n2, ctx, fuel));
  }


  /** `TailItem` on outcomes: a first line break, then the rest of the item. */
  lemma TailItemComposed(pos: nat, ctx: Captures, n1: nat, n2: nat, first: Outcome, u: Outcome, r: Outcome)
    requires first == if n1 == 0 then Outcome(Failure, pos, ctx) else Outcome(Success(Str("\n")), pos + n1, ctx)
    requires n1 > 0 ==>
      (n2 == 0 || r.res.Failure? ==> u == Outcome(Failure, pos + n1, ctx)) &&
      (n2 > 0 && r.res.Success? ==> r.res.value.RuleDef? && u == Outcome(Success(List([Str("\n"), r.res.value])), r.pos, ctx)) &&
      (n2 > 0 && r.res.Stopped? ==> u == Outcome(r.res, r.pos, ctx))
    ensures var o := Then(pos, ctx, first, u);
      (o.res.Success? <==> n1 > 0 && n2 > 0 && r.res.Success?) &&
      (o.res.Failure? <==> n1 == 0 || n2 == 0 || r.res.Failure?) &&
      (o.res.Success? ==>
         r.res.value.RuleDef? && o.res.value == List([Str("\n"), Str("\n"), r.res.value]) &&
         Element(o.res.value, 2) == r.res.value && o.pos == r.pos && o.ctx == ctx) &&
      (o.res.Failure? ==> o.pos == pos && o.ctx == ctx)
  {
    if n1 > 0 {
      BreakThen(pos, ctx, first, u);
      if n2 > 0 && r.res.Success? {
        assert [Str("\n")] + [Str("\n"), r.res.value] == [Str("\n"), Str("\n"), r.res.value];
      }
    }
  }

  /** A line break of length `n`, then an expression that keeps the context and yields a record. */
  lemma BreakThenRecord(g: Grammar, nl: Expr, rl: Expr, input: string, pos: nat, ctx: Captures, fuel: nat, n: nat)
    requires Eval(g, nl, input, pos, ctx, fuel) ==
      if n == 0 then Outcome(Failure, pos, ctx) else Outcome(Success(Str("\n")), pos + n, ctx)
    requires var r := Eval(g, rl, input, pos + n, ctx, fuel);
      n > 0 ==> r.ctx == ctx && (r.res.Success? ==> r.res.value.RuleDef?)
    ensures var o := Eval(g, All([nl, rl]), input, pos, ctx, fuel);
      var r := Eval(g, rl, input, pos + n, ctx, fuel);
      (n == 0 || r.res.Failure? ==> o == Outcome(Failure, pos, ctx)) &&
      (n > 0 && r.res.Success? ==>
         r.res.value.RuleDef? && o == Outcome(Success(List([Str("\n"), r.res.value])), r.pos, ctx)) &&
      (n > 0 && r.res.Stopped? ==> o == Outcome(r.res, r.pos, ctx))
  {
    assert [nl, rl] == [nl] + [rl];
    AllCons(g, nl, [rl], input, pos, ctx, fuel);
    var first := Eval(g, nl, input, pos, ctx, fuel);
    var r := Eval(g, rl, input, pos + n, ctx, fuel);
    if n > 0 {
      Alone(g, rl, input, pos + n, ctx, fuel);
      if r.res.Success? {
        assert Kept(r.res) == [r.res.value];
      }
    }
    BreakRuleComposed(pos, ctx, n, first, Eval(g, All([rl]), input, first.pos, first.ctx, fuel), r);
  }

  /** `BreakThenRecord` on outcomes: a line break, then `all` of the rule reference. */
  lemma BreakRuleComposed(pos: nat, ctx: Captures, n: nat, first: Outcome, t: Outcome, r: Outcome)
    requires first == if n == 0 then Outcome(Failure, pos, ctx) else Outcome(Success(Str("\n")), pos + n, ctx)
    requires n > 0 ==>
      r.ctx == ctx && (r.res.Success? ==> r.res.value.RuleDef?) &&
      (r.res.Success? ==> t == Outcome(Success(List([r.res.value])), r.pos, ctx)) &&
      (r.res.Failure? ==> t == Outcome(Failure, pos + n, ctx)) &&
      (r.res.Stopped? ==> t == Outcome(r.res, r.pos, ctx))
    ensures var o := Then(pos, ctx, first, t);
      (n == 0 || r.res.Failure? ==> o == Outcome(Failure, pos, ctx)) &&
      (n > 0 && r.res.Success? ==>
         r.res.value.RuleDef? && o == Outcome(Success(List([Str("\n"), r.res.value])), r.pos, ctx)) &&
      (n > 0 && r.res.Stopped? ==> o == Outcome(r.res, r.pos, ctx))
  {
    if n > 0 {
      BreakThen(pos, ctx, first, t);
      if r.res.Success? {
        assert [Str("\n")] + [r.res.value] == [Str("\n"), r.res.value];
      }
    }
  }
}
