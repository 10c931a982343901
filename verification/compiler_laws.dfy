/**
 * Laws of the self-hosting compiler of lib/peg_coffee_parser.js: what its
 * lexical rules match and yield, how its actions build expressions, and how
 * the `Grammar` action registers the rules of the compiled parser.
 */
module PegCoffeeLaws {
  import opened Values
  import opened Util
  import opened Context
  import opened Semantics
  import opened SemanticsLaws
  import opened ContextLaws
  import opened PegCoffee

  /** The character at `pos` is `c`. */
  predicate At(input: string, pos: nat, c: char)
  {
    pos < |input| && input[pos] == c
  }

  /** `g` defines the rule `name` with the expression `body`. */
  predicate HasRule(g: Grammar, name: string, body: Expr)
  {
    name in g.rules && g.rules[name] == body
  }

  /** Every action `code` of `g` yields a line feed, as those of `NEWLINE` and `DOUBLE_INDENT` do. */
  ghost predicate YieldsLineFeed(g: Grammar, code: string)
  {
    forall caps :: g.actions(code, caps) == Str("\n")
  }

  /** Every action `code` of `g` yields the joined text its expression matched, as the identifier rules do. */
  ghost predicate YieldsMatch(g: Grammar, code: string)
  {
    forall caps :: g.actions(code, caps) == Str(Joined(Lookup(caps, "$$")))
  }

  /**
   * The compiler's own grammar is one of the grammars the lemmas below
   * speak about: it defines the whitespace rules they call, and its actions
   * behave as those lemmas require.
   */
  lemma CompilerFits()
    ensures HasRule(Compiler, "NEWLINE", NewlineBody) && HasRule(Compiler, "SPACE", SpaceBody)
    ensures HasRule(Compiler, "INDENT", IndentBody)
    ensures YieldsLineFeed(Compiler, "NEWLINE") && YieldsLineFeed(Compiler, "DOUBLE_INDENT")
    ensures YieldsMatch(Compiler, "RuleIdentifier") && YieldsMatch(Compiler, "LabelIdentifier")
  {
    forall caps ensures Compiler.actions("NEWLINE", caps) == Str("\n") {
      LineFeedActions(caps);
    }
    forall caps ensures Compiler.actions("DOUBLE_INDENT", caps) == Str("\n") {
      LineFeedActions(caps);
    }
    forall caps ensures Compiler.actions("RuleIdentifier", caps) == Str(Joined(Lookup(caps, "$$"))) {
      IdentifierActions(caps);
    }
    forall caps ensures Compiler.actions("LabelIdentifier", caps) == Str(Joined(Lookup(caps, "$$"))) {
      IdentifierActions(caps);
    }
  }

  /** The actions of `NEWLINE` and `DOUBLE_INDENT` always yield a line feed. */
  lemma LineFeedActions(caps: Captures)
    ensures CompilerAction("NEWLINE", caps) == Str("\n")
    ensures CompilerAction("DOUBLE_INDENT", caps) == Str("\n")
  {
  }

  lemma MergedEmpty(ctx: Captures)
    ensures Merged(ctx, map[]) == ctx && Merged(map[], ctx) == ctx && Merged(ctx, ctx) == ctx
  {
    assert Merged(ctx, map[]) == ctx;
    assert Merged(map[], ctx) == ctx;
    assert Merged(ctx, ctx) == ctx;
  }

  /** A one-character literal matches exactly that character. */
  lemma LiteralChar(g: Grammar, c: char, input: string, pos: nat, ctx: Captures, fuel: nat)
    ensures Eval(g, Literal([c]), input, pos, ctx, fuel) ==
      if At(input, pos, c) then Outcome(Success(Str([c])), pos + 1, ctx) else Outcome(Failure, pos, ctx)
  {
    if pos + 1 <= |input| {
      assert input[pos..pos + 1] == [input[pos]];
    }
  }

  // ---------------------------------------------------------------------
  // NEWLINE, SPACE, INDENT, DOUBLE_INDENT
  // ---------------------------------------------------------------------

  /** The length of the line break at `pos`: 2 for CR LF, 1 for a lone CR or LF, 0 for none. */
  function BreakLength(input: string, pos: nat): nat
  {
    if At(input, pos, '\r') && At(input, pos + 1, '\n') then 2
    else if At(input, pos, '\r') || At(input, pos, '\n') then 1
    else 0
  }

  /** The first alternative of `NEWLINE`: a CR, optionally followed by an LF. */
  lemma CarriageReturn(g: Grammar, input: string, pos: nat, fuel: nat)
    ensures var o := Eval(g, All([Literal("\r"), Maybe(Literal("\n"))]), input, pos, map[], fuel);
      o.ctx == map[] &&
      (At(input, pos, '\r') ==> o.res.Success? && o.pos == pos + BreakLength(input, pos)) &&
      (!At(input, pos, '\r') ==> o.res.Failure? && o.pos == pos)
  {
    var cr := Literal("\r");
    var lf := Maybe(Literal("\n"));
    assert [cr, lf] == [cr] + [lf];
    AllCons(g, cr, [lf], input, pos, map[], fuel);
    LiteralChar(g, '\r', input, pos, map[], fuel);
    var first := Eval(g, cr, input, pos, map[], fuel);
    if At(input, pos, '\r') {
      assert first == Outcome(Success(Str("\r")), pos + 1, map[]);
      OptionalLineFeed(g, input, pos + 1, fuel);
      MergedEmpty(map[]);
    } else {
      assert first == Outcome(Failure, pos, map[]);
    }
  }

  /** `all` of an optional LF always matches, and consumes the LF when there is one. */
  lemma OptionalLineFeed(g: Grammar, input: string, pos: nat, fuel: nat)
    ensures var o := Eval(g, All([Maybe(Literal("\n"))]), input, pos, map[], fuel);
      o.res.Success? && o.res.value.List? && o.ctx == map[] &&
      o.pos == if At(input, pos, '\n') then pos + 1 else pos
  {
    var lf := Maybe(Literal("\n"));
    assert [lf] == [lf] + [];
    AllCons(g, lf, [], input, pos, map[], fuel);
    LiteralChar(g, '\n', input, pos, map[], fuel);
    var opt := Eval(g, lf, input, pos, map[], fuel);
    assert opt.res.Success? && opt.ctx == map[];
    AllNil(g, input, opt.pos, map[], fuel);
    MergedEmpty(map[]);
  }

  /** `NEWLINE` matches CR LF, CR or LF, and always yields `"\n"`. */
  lemma NewlineMatches(g: Grammar, input: string, pos: nat, ctx: Captures, fuel: nat)
    requires YieldsLineFeed(g, "NEWLINE")
    ensures var n := BreakLength(input, pos);
      Eval(g, NewlineBody, input, pos, ctx, fuel) ==
        if n == 0 then Outcome(Failure, pos, ctx) else Outcome(Success(Str("\n")), pos + n, ctx)
  {
    var a := All([Literal("\r"), Maybe(Literal("\n"))]);
    var lf := Literal("\n");
    assert [a, lf] == [a] + [lf];
    assert [lf] == [lf] + [];
    AnyCons(g, a, [lf], input, pos, map[], fuel);
    AnyCons(g, lf, [], input, pos, map[], fuel);
    CarriageReturn(g, input, pos, fuel);
    LiteralChar(g, '\n', input, pos, map[], fuel);
    MergedEmpty(map[]);
    MergedEmpty(ctx);
  }

  /** A rule reference to `NEWLINE`, which costs one unit of fuel. */
  lemma CallNewline(g: Grammar, input: string, pos: nat, ctx: Captures, fuel: nat)
    requires fuel >= 1
    requires HasRule(g, "NEWLINE", NewlineBody)
    requires YieldsLineFeed(g, "NEWLINE")
    ensures var n := BreakLength(input, pos);
      Eval(g, Call("NEWLINE"), input, pos, ctx, fuel) ==
        if n == 0 then Outcome(Failure, pos, ctx) else Outcome(Success(Str("\n")), pos + n, ctx)
  {
    NewlineMatches(g, input, pos, map[], fuel - 1);
  }

  /** `SPACE` matches one space with an empty result. */
  lemma SpaceMatches(g: Grammar, input: string, pos: nat, ctx: Captures, fuel: nat)
    ensures Eval(g, SpaceBody, input, pos, ctx, fuel) ==
      if At(input, pos, ' ') then Outcome(Success(Undefined), pos + 1, ctx) else Outcome(Failure, pos, ctx)
  {
    LiteralChar(g, ' ', input, pos, ctx, fuel);
  }

  lemma CallSpace(g: Grammar, input: string, pos: nat, ctx: Captures, fuel: nat)
    requires fuel >= 1
    requires HasRule(g, "SPACE", SpaceBody)
    ensures Eval(g, Call("SPACE"), input, pos, ctx, fuel) ==
      if At(input, pos, ' ') then Outcome(Success(Undefined), pos + 1, ctx) else Outcome(Failure, pos, ctx)
  {
    SpaceMatches(g, input, pos, map[], fuel - 1);
  }

  /** A line break followed by two spaces, as `INDENT` and `DOUBLE_INDENT` begin. */
  predicate Indented(input: string, pos: nat)
  {
    var n := BreakLength(input, pos);
    n > 0 && At(input, pos + n, ' ') && At(input, pos + n + 1, ' ')
  }

  /** Three empty-context steps `NEWLINE`, `SPACE`, `SPACE`, composed by `all`. */
  lemma IndentSequence(g: Grammar, input: string, pos: nat, ctx: Captures, fuel: nat)
    requires fuel >= 1
    requires HasRule(g, "NEWLINE", NewlineBody) && HasRule(g, "SPACE", SpaceBody)
    requires YieldsLineFeed(g, "NEWLINE")
    ensures var o := Eval(g, All([Call("NEWLINE"), Call("SPACE"), Call("SPACE")]), input, pos, ctx, fuel);
      var n := BreakLength(input, pos);
      (Indented(input, pos) ==> o == Outcome(Success(List([Str("\n")])), pos + n + 2, ctx)) &&
      (!Indented(input, pos) ==> o == Outcome(Failure, pos, ctx))
  {
    var n := BreakLength(input, pos);
    CallNewline(g, input, pos, ctx, fuel);
    if n > 0 {
      SpacesThen(g, input, pos + n, ctx, fuel);
    }
    BreakThenSpaces(g, Call("NEWLINE"), Call("SPACE"), input, pos, ctx, fuel);
  }

  /** `all` of an expression matching a line break and two expressions matching a space each. */
  lemma BreakThenSpaces(g: Grammar, nl: Expr, sp: Expr, input: string, pos: nat, ctx: Captures, fuel: nat)
    requires var n := BreakLength(input, pos);
      Eval(g, nl, input, pos, ctx, fuel) ==
        if n == 0 then Outcome(Failure, pos, ctx) else Outcome(Success(Str("\n")), pos + n, ctx)
    requires var m := pos + BreakLength(input, pos);
      BreakLength(input, pos) > 0 ==>
        Eval(g, All([sp, sp]), input, m, ctx, fuel) ==
          if At(input, m, ' ') && At(input, m + 1, ' ') then Outcome(Success(List([])), m + 2, ctx)
          else Outcome(Failure, m, ctx)
    ensures var o := Eval(g, All([nl, sp, sp]), input, pos, ctx, fuel);
      var n := BreakLength(input, pos);
      (Indented(input, pos) ==> o == Outcome(Success(List([Str("\n")])), pos + n + 2, ctx)) &&
      (!Indented(input, pos) ==> o == Outcome(Failure, pos, ctx))
  {
    assert [nl, sp, sp] == [nl] + [sp, sp];
    AllCons(g, nl, [sp, sp], input, pos, ctx, fuel);
    var first := Eval(g, nl, input, pos, ctx, fuel);
    if BreakLength(input, pos) > 0 {
      NewlineThenSpaces(pos, ctx, first, Eval(g, All([sp, sp]), input, first.pos, first.ctx, fuel));
    }
  }

  /** A matched line break followed by the outcome of the two spaces, composed as `all` does. */
  lemma NewlineThenSpaces(pos: nat, ctx: Captures, first: Outcome, tail: Outcome)
    requires first.res == Success(Str("\n")) && first.ctx == ctx
    requires tail == Outcome(Success(List([])), first.pos + 2, ctx) || tail == Outcome(Failure, first.pos, ctx)
    ensures tail.res.Success? ==> Then(pos, ctx, first, tail) == Outcome(Success(List([Str("\n")])), first.pos + 2, ctx)
    ensures tail.res.Failure? ==> Then(pos, ctx, first, tail) == Outcome(Failure, pos, ctx)
  {
    MergedEmpty(ctx);
    assert Kept(first.res) == [Str("\n")];
    assert [Str("\n")] + [] == [Str("\n")];
  }

  /** Two `SPACE` references composed by `all`. */
  lemma SpacesThen(g: Grammar, input: string, pos: nat, ctx: Captures, fuel: nat)
    requires fuel >= 1
    requires HasRule(g, "SPACE", SpaceBody)
    ensures var o := Eval(g, All([Call("SPACE"), Call("SPACE")]), input, pos, ctx, fuel);
      o == if At(input, pos, ' ') && At(input, pos + 1, ' ') then Outcome(Success(List([])), pos + 2, ctx)
           else Outcome(Failure, pos, ctx)
  {
    var sp := Call("SPACE");
    assert [sp, sp] == [sp] + [sp];
    assert [sp] == [sp] + [];
    MergedEmpty(ctx);
    AllCons(g, sp, [sp], input, pos, ctx, fuel);
    CallSpace(g, input, pos, ctx, fuel);
    if At(input, pos, ' ') {
      AllCons(g, sp, [], input, pos + 1, ctx, fuel);
      CallSpace(g, input, pos + 1, ctx, fuel);
      AllNil(g, input, pos + 2, ctx, fuel);
      var last := Eval(g, All([sp]), input, pos + 1, ctx, fuel);
      assert At(input, pos + 1, ' ') ==> last == Outcome(Success(List([])), pos + 2, ctx);
    }
  }

  /** `INDENT` is a line break and two spaces, with an empty result. */
  lemma IndentMatches(g: Grammar, input: string, pos: nat, ctx: Captures, fuel: nat)
    requires fuel >= 1
    requires HasRule(g, "NEWLINE", NewlineBody) && HasRule(g, "SPACE", SpaceBody)
    requires YieldsLineFeed(g, "NEWLINE")
    ensures Eval(g, IndentBody, input, pos, ctx, fuel) ==
      if Indented(input, pos) then Outcome(Success(Undefined), pos + BreakLength(input, pos) + 2, ctx)
      else Outcome(Failure, pos, ctx)
  {
    IndentSequence(g, input, pos, ctx, fuel);
  }

  /** A reference to `INDENT`, then two `SPACE` references, composed by `all`. */
  lemma DoubleIndentSequence(g: Grammar, input: string, pos: nat, ctx: Captures, fuel: nat)
    requires fuel >= 2
    requires HasRule(g, "NEWLINE", NewlineBody) && HasRule(g, "SPACE", SpaceBody) && HasRule(g, "INDENT", IndentBody)
    requires YieldsLineFeed(g, "NEWLINE")
    ensures var m := pos + BreakLength(input, pos) + 2;
      Eval(g, All([Call("INDENT"), Call("SPACE"), Call("SPACE")]), input, pos, ctx, fuel) ==
        if Indented(input, pos) && At(input, m, ' ') && At(input, m + 1, ' ')
        then Outcome(Success(List([])), m + 2, ctx)
        else Outcome(Failure, pos, ctx)
  {
    var m := pos + BreakLength(input, pos) + 2;
    CallIndent(g, input, pos, ctx, fuel);
    if Indented(input, pos) {
      SpacesThen(g, input, m, ctx, fuel);
    }
    IndentThenSpaces(g, Call("INDENT"), Call("SPACE"), input, pos, ctx, fuel);
  }

  /** A rule reference to `INDENT`, which costs one unit of fuel. */
  lemma CallIndent(g: Grammar, input: string, pos: nat, ctx: Captures, fuel: nat)
    requires fuel >= 2
    requires HasRule(g, "NEWLINE", NewlineBody) && HasRule(g, "SPACE", SpaceBody) && HasRule(g, "INDENT", IndentBody)
    requires YieldsLineFeed(g, "NEWLINE")
    ensures Eval(g, Call("INDENT"), input, pos, ctx, fuel) ==
      if Indented(input, pos) then Outcome(Success(Undefined), pos + BreakLength(input, pos) + 2, ctx)
      else Outcome(Failure, pos, ctx)
  {
    IndentMatches(g, input, pos, map[], fuel - 1);
  }

  /** `all` of an expression matching an indentation and two expressions matching a space each. */
  lemma IndentThenSpaces(g: Grammar, ind: Expr, sp: Expr, input: string, pos: nat, ctx: Captures, fuel: nat)
    requires Eval(g, ind, input, pos, ctx, fuel) ==
      if Indented(input, pos) then Outcome(Success(Undefined), pos + BreakLength(input, pos) + 2, ctx)
      else Outcome(Failure, pos, ctx)
    requires var m := pos + BreakLength(input, pos) + 2;
      Indented(input, pos) ==>
        Eval(g, All([sp, sp]), input, m, ctx, fuel) ==
          if At(input, m, ' ') && At(input, m + 1, ' ') then Outcome(Success(List([])), m + 2, ctx)
          else Outcome(Failure, m, ctx)
    ensures var m := pos + BreakLength(input, pos) + 2;
      Eval(g, All([ind, sp, sp]), input, pos, ctx, fuel) ==
        if Indented(input, pos) && At(input, m, ' ') && At(input, m + 1, ' ')
        then Outcome(Success(List([])), m + 2, ctx)
        else Outcome(Failure, pos, ctx)
  {
    assert [ind, sp, sp] == [ind] + [sp, sp];
    AllCons(g, ind, [sp, sp], input, pos, ctx, fuel);
    MergedEmpty(ctx);
    assert Kept(Success(Undefined)) + [] == [];
  }

  /** `DOUBLE_INDENT` is an `INDENT` and two more spaces; it yields `"\n"`. */
  lemma DoubleIndentMatches(g: Grammar, input: string, pos: nat, ctx: Captures, fuel: nat)
    requires fuel >= 2
    requires HasRule(g, "NEWLINE", NewlineBody) && HasRule(g, "SPACE", SpaceBody) && HasRule(g, "INDENT", IndentBody) && YieldsLineFeed(g, "NEWLINE") && YieldsLineFeed(g, "DOUBLE_INDENT")
    ensures var m := pos + BreakLength(input, pos) + 2;
      Eval(g, DoubleIndentBody, input, pos, ctx, fuel) ==
        if Indented(input, pos) && At(input, m, ' ') && At(input, m + 1, ' ')
        then Outcome(Success(Str("\n")), m + 2, ctx)
        else Outcome(Failure, pos, ctx)
  {
    DoubleIndentSequence(g, input, pos, map[], fuel);
    MergedEmpty(map[]);
    MergedEmpty(ctx);
  }

  // ---------------------------------------------------------------------
  // Identifiers
  // ---------------------------------------------------------------------

  /** The end of the longest run of characters of `cls` that starts at `pos`. */
  function RunEnd(g: Grammar, cls: CharClass, input: string, pos: nat): (e: nat)
    requires pos <= |input|
    ensures pos <= e <= |input|
    ensures forall i :: pos <= i < e ==> InClass(g, cls, input[i])
    ensures e == |input| || !InClass(g, cls, input[e])
    decreases |input| - pos
  {
    if pos < |input| && InClass(g, cls, input[pos]) then RunEnd(g, cls, input, pos + 1) else pos
  }

  /**
   * `maybe_some` over a one-character class consumes the longest run of
   * that class and collects its characters, given one unit of fuel per
   * character.
   */
  lemma {:induction false} RepeatClass(g: Grammar, cls: CharClass, input: string, pos: nat, ctx: Captures,
                                       acc: seq<Value>, fuel: nat)
    requires pos <= |input|
    requires fuel >= RunEnd(g, cls, input, pos) - pos
    ensures var e := RunEnd(g, cls, input, pos);
      Repeat(g, Regex(cls), input, pos, ctx, acc, fuel) == Outcome(Success(List(acc + Chars(input[pos..e]))), e, ctx)
    decreases |input| - pos
  {
    var e := RunEnd(g, cls, input, pos);
    if pos < |input| && InClass(g, cls, input[pos]) {
      assert e == RunEnd(g, cls, input, pos + 1);
      var v := Str([input[pos]]);
      RepeatRegexStep(g, cls, input, pos, ctx, acc, fuel);
      RepeatClass(g, cls, input, pos + 1, ctx, acc + [v], fuel - 1);
      CharsAfter(acc, input, pos, e);
    } else {
      RepeatRegexStop(g, cls, input, pos, ctx, acc, fuel);
      assert Chars(input[pos..e]) == [];
      assert acc + [] == acc;
    }
  }

  /** One round of `maybe_some` over a class whose character is next. */
  lemma RepeatRegexStep(g: Grammar, cls: CharClass, input: string, pos: nat, ctx: Captures,
                        acc: seq<Value>, fuel: nat)
    requires pos < |input| && InClass(g, cls, input[pos]) && fuel > 0
    ensures Repeat(g, Regex(cls), input, pos, ctx, acc, fuel) ==
            Repeat(g, Regex(cls), input, pos + 1, ctx, acc + [Str([input[pos]])], fuel - 1)
  {
    var r := Eval(g, Regex(cls), input, pos, ctx, fuel);
    assert r == Outcome(Success(Str([input[pos]])), pos + 1, ctx);
  }

  /** `maybe_some` over a class whose character is not next stops at once. */
  lemma RepeatRegexStop(g: Grammar, cls: CharClass, input: string, pos: nat, ctx: Captures,
                        acc: seq<Value>, fuel: nat)
    requires !(pos < |input| && InClass(g, cls, input[pos]))
    ensures Repeat(g, Regex(cls), input, pos, ctx, acc, fuel) == Outcome(Success(List(acc)), pos, ctx)
  {
    var r := Eval(g, Regex(cls), input, pos, ctx, fuel);
    assert r == Outcome(Failure, pos, ctx);
  }

  lemma CharsAfter(acc: seq<Value>, s: string, i: nat, j: nat)
    requires i < j <= |s|
    ensures acc + [Str([s[i]])] + Chars(s[i + 1..j]) == acc + Chars(s[i..j])
  {
    CharsCons(s, i, j);
  }

  lemma CharsCons(s: string, i: nat, j: nat)
    requires i < j <= |s|
    ensures Chars(s[i..j]) == [Str([s[i]])] + Chars(s[i + 1..j])
  {
    assert s[i..j][0] == s[i];
    assert s[i..j][1..] == s[i + 1..j];
  }

  lemma UpperClass(g: Grammar, c: char)
    ensures InClass(g, UpperChars, c) <==> 'A' <= c <= 'Z'
  {
    var rs := UpperChars.ranges;
    assert InClass(g, UpperChars, c) == InRanges(rs, c);
    assert rs[1..] == [] && !InRanges([], c);
  }

  lemma LabelClass(g: Grammar, c: char)
    ensures InClass(g, LabelChars, c) <==> c == '_' || 'a' <= c <= 'z'
  {
    var rs := LabelChars.ranges;
    assert InClass(g, LabelChars, c) == InRanges(rs, c);
    assert rs[1..] == [CharRange('a', 'z')];
    assert rs[1..][1..] == [] && !InRanges([], c);
    assert InRanges(rs[1..], c) <==> 'a' <= c <= 'z';
  }

  lemma IdentClass(g: Grammar, c: char)
    ensures InClass(g, IdentChars, c) <==> c == '_' || 'a' <= c <= 'z' || 'A' <= c <= 'Z'
  {
    var rs := IdentChars.ranges;
    assert InClass(g, IdentChars, c) == InRanges(rs, c);
    assert rs[1..] == [CharRange('a', 'z'), CharRange('A', 'Z')];
    assert rs[1..][1..] == [CharRange('A', 'Z')];
    assert rs[1..][1..][1..] == [] && !InRanges([], c);
    assert InRanges(rs[1..][1..], c) <==> 'A' <= c <= 'Z';
    assert InRanges(rs[1..], c) <==> 'a' <= c <= 'z' || 'A' <= c <= 'Z';
  }

  /** The join of a one-element list is the join of the element. */
  lemma JoinedSingle(v: Value)
    ensures Joined(List([v])) == Joined(v)
  {
    var items := [v];
    assert seq(|items|, i requires 0 <= i < |items| => Joined(items[i])) == [Joined(v)];
    assert [Joined(v)][..0] == [];
    assert Concat([Joined(v)]) == Joined(v);
  }

  /** The join of a two-element list is the concatenation of the joins. */
  lemma JoinedPair(a: Value, b: Value)
    ensures Joined(List([a, b])) == Joined(a) + Joined(b)
  {
    assert [a] + [b] == [a, b];
    JoinedAppend([a], [b]);
    JoinedSingle(a);
    JoinedSingle(b);
  }

  /** The tail of `RuleIdentifier`: `all` of a single `maybe_some` over `[_a-zA-Z]`. */
  lemma IdentifierTail(g: Grammar, input: string, pos: nat, fuel: nat)
    requires pos <= |input|
    requires fuel >= RunEnd(g, IdentChars, input, pos) - pos
    ensures var e := RunEnd(g, IdentChars, input, pos);
      Eval(g, All([MaybeSome(Regex(IdentChars))]), input, pos, map[], fuel) ==
        Outcome(Success(List([List(Chars(input[pos..e]))])), e, map[])
  {
    var tail := MaybeSome(Regex(IdentChars));
    var e := RunEnd(g, IdentChars, input, pos);
    assert [tail] == [tail] + [];
    MergedEmpty(map[]);
    AllCons(g, tail, [], input, pos, map[], fuel);
    RepeatClass(g, IdentChars, input, pos, map[], [], fuel);
    AllNil(g, input, e, map[], fuel);
    var run := Chars(input[pos..e]);
    assert [] + run == run;
    assert [List(run)] + [] == [List(run)];
  }

  /** The expression of `RuleIdentifier`: an upper-case letter, then a run of `[_a-zA-Z]`. */
  lemma RuleIdentifierSequence(g: Grammar, input: string, pos: nat, fuel: nat)
    requires pos < |input| && 'A' <= input[pos] <= 'Z'
    requires fuel >= RunEnd(g, IdentChars, input, pos + 1) - (pos + 1)
    ensures var e := RunEnd(g, IdentChars, input, pos + 1);
      Eval(g, All([Regex(UpperChars), MaybeSome(Regex(IdentChars))]), input, pos, map[], fuel) ==
        Outcome(Success(List([Str([input[pos]]), List(Chars(input[pos + 1..e]))])), e, map[])
  {
    var head := Regex(UpperChars);
    var tail := MaybeSome(Regex(IdentChars));
    assert [head, tail] == [head] + [tail];
    UpperClass(g, input[pos]);
    MergedEmpty(map[]);
    AllCons(g, head, [tail], input, pos, map[], fuel);
    assert Eval(g, head, input, pos, map[], fuel) == Outcome(Success(Str([input[pos]])), pos + 1, map[]);
    IdentifierTail(g, input, pos + 1, fuel);
    var e := RunEnd(g, IdentChars, input, pos + 1);
    var run := Chars(input[pos + 1..e]);
    assert Kept(Success(Str([input[pos]]))) == [Str([input[pos]])];
    assert [Str([input[pos]])] + [List(run)] == [Str([input[pos]]), List(run)];
  }

  /**
   * `RuleIdentifier` matches an upper-case letter followed by the longest
   * run of `[_a-zA-Z]`, and yields the matched text.
   */
  lemma RuleIdentifierMatches(g: Grammar, input: string, pos: nat, ctx: Captures, fuel: nat)
    requires pos < |input| ==> fuel >= RunEnd(g, IdentChars, input, pos + 1) - (pos + 1)
    requires YieldsMatch(g, "RuleIdentifier")
    ensures var o := Eval(g, RuleIdentifierBody, input, pos, ctx, fuel);
      (pos < |input| && 'A' <= input[pos] <= 'Z' ==>
         var e := RunEnd(g, IdentChars, input, pos + 1);
         o == Outcome(Success(Str(input[pos..e])), e, ctx)) &&
      (!(pos < |input| && 'A' <= input[pos] <= 'Z') ==> o == Outcome(Failure, pos, ctx))
  {
    if pos < |input| && 'A' <= input[pos] <= 'Z' {
      RuleIdentifierHit(g, input, pos, ctx, fuel);
    } else {
      RuleIdentifierMiss(g, input, pos, ctx, fuel);
    }
  }

  lemma RuleIdentifierHit(g: Grammar, input: string, pos: nat, ctx: Captures, fuel: nat)
    requires pos < |input| && 'A' <= input[pos] <= 'Z'
    requires fuel >= RunEnd(g, IdentChars, input, pos + 1) - (pos + 1)
    requires YieldsMatch(g, "RuleIdentifier")
    ensures var e := RunEnd(g, IdentChars, input, pos + 1);
      Eval(g, RuleIdentifierBody, input, pos, ctx, fuel) == Outcome(Success(Str(input[pos..e])), e, ctx)
  {
    var e := RunEnd(g, IdentChars, input, pos + 1);
    var v := List([Str([input[pos]]), List(Chars(input[pos + 1..e]))]);
    RuleIdentifierSequence(g, input, pos, fuel);
    ActionMatched(g, All([Regex(UpperChars), MaybeSome(Regex(IdentChars))]), "RuleIdentifier", v, e,
                     input, pos, ctx, fuel);
    IdentifierText(input, pos, e);
  }

  /** The rule-name identifier's characters joined back are its text. */
  lemma IdentifierText(input: string, pos: nat, e: nat)
    requires pos < e <= |input|
    ensures Joined(List([Str([input[pos]]), List(Chars(input[pos + 1..e]))])) == input[pos..e]
  {
    JoinedChars(input[pos + 1..e]);
    JoinedPair(Str([input[pos]]), List(Chars(input[pos + 1..e])));
    assert [input[pos]] + input[pos + 1..e] == input[pos..e];
  }

  /** Both identifier rules yield the join of what they matched. */
  lemma IdentifierActions(caps: Captures)
    ensures CompilerAction("RuleIdentifier", caps) == Str(Joined(Lookup(caps, "$$")))
    ensures CompilerAction("LabelIdentifier", caps) == Str(Joined(Lookup(caps, "$$")))
  {
  }

  lemma RuleIdentifierMiss(g: Grammar, input: string, pos: nat, ctx: Captures, fuel: nat)
    requires !(pos < |input| && 'A' <= input[pos] <= 'Z')
    ensures Eval(g, RuleIdentifierBody, input, pos, ctx, fuel) == Outcome(Failure, pos, ctx)
  {
    var head := Regex(UpperChars);
    var tail := MaybeSome(Regex(IdentChars));
    assert [head, tail] == [head] + [tail];
    if pos < |input| {
      UpperClass(g, input[pos]);
    }
    assert Eval(g, head, input, pos, map[], fuel) == Outcome(Failure, pos, map[]);
    AllCons(g, head, [tail], input, pos, map[], fuel);
    ActionIsolated(g, All([head, tail]), "RuleIdentifier", input, pos, ctx, ctx, fuel);
  }

  /** An action whose expression matched in its fresh scope without labels. */
  lemma ActionMatched(g: Grammar, sub: Expr, code: string, v: Value, e: nat, input: string, pos: nat, ctx: Captures,
                         fuel: nat)
    requires Eval(g, sub, input, pos, map[], fuel) == Outcome(Success(v), e, map[])
    ensures Eval(g, Action(sub, code), input, pos, ctx, fuel) ==
            Outcome(Success(g.actions(code, map["$$" := v])), e, ctx)
  {
    MergedEmpty(ctx);
    MergedEmpty(map[]);
  }

  /** The expression of `LabelIdentifier`: a non-empty run of `[_a-z]`. */
  lemma LabelIdentifierRun(g: Grammar, input: string, pos: nat, fuel: nat)
    requires pos < |input| && (input[pos] == '_' || 'a' <= input[pos] <= 'z')
    requires fuel >= RunEnd(g, LabelChars, input, pos + 1) - (pos + 1)
    ensures var e := RunEnd(g, LabelChars, input, pos);
      Eval(g, Some(Regex(LabelChars)), input, pos, map[], fuel) ==
        Outcome(Success(List(Chars(input[pos..e]))), e, map[])
  {
    LabelClass(g, input[pos]);
    var e := RunEnd(g, LabelChars, input, pos + 1);
    assert e == RunEnd(g, LabelChars, input, pos);
    var first := Eval(g, Regex(LabelChars), input, pos, map[], fuel);
    assert first == Outcome(Success(Str([input[pos]])), pos + 1, map[]);
    RepeatClass(g, LabelChars, input, pos + 1, map[], [], fuel);
    var run := Chars(input[pos + 1..e]);
    assert [] + run == run;
    CharsCons(input, pos, e);
  }

  /** `LabelIdentifier` matches the longest non-empty run of `[_a-z]` and yields the matched text. */
  lemma LabelIdentifierMatches(g: Grammar, input: string, pos: nat, ctx: Captures, fuel: nat)
    requires pos < |input| ==> fuel >= RunEnd(g, LabelChars, input, pos + 1) - (pos + 1)
    requires YieldsMatch(g, "LabelIdentifier")
    ensures var o := Eval(g, LabelIdentifierBody, input, pos, ctx, fuel);
      var starts := pos < |input| && (input[pos] == '_' || 'a' <= input[pos] <= 'z');
      (starts ==>
         var e := RunEnd(g, LabelChars, input, pos);
         o == Outcome(Success(Str(input[pos..e])), e, ctx)) &&
      (!starts ==> o == Outcome(Failure, pos, ctx))
  {
    if pos < |input| && (input[pos] == '_' || 'a' <= input[pos] <= 'z') {
      LabelIdentifierHit(g, input, pos, ctx, fuel);
    } else {
      LabelIdentifierMiss(g, input, pos, ctx, fuel);
    }
  }

  lemma LabelIdentifierHit(g: Grammar, input: string, pos: nat, ctx: Captures, fuel: nat)
    requires pos < |input| && (input[pos] == '_' || 'a' <= input[pos] <= 'z')
    requires fuel >= RunEnd(g, LabelChars, input, pos + 1) - (pos + 1)
    requires YieldsMatch(g, "LabelIdentifier")
    ensures var e := RunEnd(g, LabelChars, input, pos);
      Eval(g, LabelIdentifierBody, input, pos, ctx, fuel) == Outcome(Success(Str(input[pos..e])), e, ctx)
  {
    var e := RunEnd(g, LabelChars, input, pos);
    var v := List(Chars(input[pos..e]));
    LabelIdentifierRun(g, input, pos, fuel);
    ActionMatched(g, Some(Regex(LabelChars)), "LabelIdentifier", v, e, input, pos, ctx, fuel);
    JoinedChars(input[pos..e]);
  }

  lemma LabelIdentifierMiss(g: Grammar, input: string, pos: nat, ctx: Captures, fuel: nat)
    requires !(pos < |input| && (input[pos] == '_' || 'a' <= input[pos] <= 'z'))
    ensures Eval(g, LabelIdentifierBody, input, pos, ctx, fuel) == Outcome(Failure, pos, ctx)
  {
    if pos < |input| {
      LabelClass(g, input[pos]);
    }
    assert Eval(g, Regex(LabelChars), input, pos, map[], fuel) == Outcome(Failure, pos, map[]);
    assert Eval(g, Some(Regex(LabelChars)), input, pos, map[], fuel) == Outcome(Failure, pos, map[]);
    ActionIsolated(g, Some(Regex(LabelChars)), "LabelIdentifier", input, pos, ctx, ctx, fuel);
  }

  // ---------------------------------------------------------------------
  // The actions that build expressions
  // ---------------------------------------------------------------------

  /**
   * `v` is what a chained rule builds from `caps`: the head itself when the
   * tail is empty, otherwise `any` (`all` when `choice` is false) over the
   * head and the element at `index` of each tail item.
   */
  predicate Chained(v: Value, caps: Captures, index: nat, choice: bool)
  {
    var head := Lookup(caps, "head");
    var tail := Items(Lookup(caps, "tail"));
    (tail == [] ==> v == head) &&
    (tail != [] ==>
       v.Code? && (if choice then v.expr.Any? else v.expr.All?) &&
       |v.expr.es| == |tail| + 1 && v.expr.es[0] == ExprOf(head) &&
       forall i :: 0 <= i < |tail| ==> v.expr.es[i + 1] == ExprOf(Element(tail[i], index)))
  }

  /**
   * `RuleContent` and `Expression` chain their alternatives with `any` from
   * index 2 and 3 of the tail items, `Sequence` its elements with `all` from
   * index 1.
   */
  lemma ChainBuilds(caps: Captures)
    ensures Chained(CompilerAction("RuleContent", caps), caps, 2, true)
    ensures Chained(CompilerAction("Expression", caps), caps, 3, true)
    ensures Chained(CompilerAction("Sequence", caps), caps, 1, false)
  {
    ChainActions(caps);
    ChainIsChained(caps, 2, true);
    ChainIsChained(caps, 3, true);
    ChainIsChained(caps, 1, false);
  }

  lemma ChainActions(caps: Captures)
    ensures CompilerAction("RuleContent", caps) == Chain(caps, 2, true)
    ensures CompilerAction("Expression", caps) == Chain(caps, 3, true)
    ensures CompilerAction("Sequence", caps) == Chain(caps, 1, false)
  {
    RuleContentAction(caps);
    ExpressionAction(caps);
    SequenceAction(caps);
  }

  lemma RuleContentAction(caps: Captures)
    ensures CompilerAction("RuleContent", caps) == Chain(caps, 2, true)
  {
  }

  lemma ExpressionAction(caps: Captures)
    ensures CompilerAction("Expression", caps) == Chain(caps, 3, true)
  {
  }

  lemma SequenceAction(caps: Captures)
    ensures CompilerAction("Sequence", caps) == Chain(caps, 1, false)
  {
  }

  lemma ChainIsChained(caps: Captures, index: nat, choice: bool)
    ensures Chained(Chain(caps, index, choice), caps, index, choice)
  {
  }

  /** `Prefix` maps `&` to `check` and `!` to `reject` of the suffixed expression. */
  lemma PrefixOperators(caps: Captures)
    ensures var e := ExprOf(Lookup(caps, "expr"));
      (Lookup(caps, "prefix") == Str("&") ==> CompilerAction("Prefix", caps) == Code(Check(e))) &&
      (Lookup(caps, "prefix") == Str("!") ==> CompilerAction("Prefix", caps) == Code(Reject(e)))
  {
  }

  /** `Suffix` maps `?`, `*` and `+` to `maybe`, `maybe_some` and `some` of the primary expression. */
  lemma SuffixOperators(caps: Captures)
    ensures var e := ExprOf(Lookup(caps, "expr"));
      var s := Lookup(caps, "suffix");
      (s == Str("?") ==> CompilerAction("Suffix", caps) == Code(Maybe(e))) &&
      (s == Str("*") ==> CompilerAction("Suffix", caps) == Code(MaybeSome(e))) &&
      (s == Str("+") ==> CompilerAction("Suffix", caps) == Code(Some(e)))
  {
  }

  /**
   * `Primary` maps `.` to `advance`, `~` to `pass`, a rule name to a call of
   * that rule, and a parenthesised expression to the inner expression.
   */
  lemma PrimaryForms(caps: Captures, name: string)
    ensures CompilerAction("Primary.advance", caps) == Code(Advance)
    ensures CompilerAction("Primary.pass", caps) == Code(Pass)
    ensures Lookup(caps, "$$") == Str(name) ==> CompilerAction("Primary.rule", caps) == Code(Call(name))
    ensures CompilerAction("Primary.sub", caps) == Lookup(caps, "sub")
  {
  }

  /**
   * `Rule` builds a record of its name, its content and only the truthy
   * captured comments, in order; `RuleLine` wraps its expression in an
   * action exactly when the line carries code; `Label` labels its
   * expression with the matched name; `SubExpression` passes the inner
   * expression through.
   */
  lemma RecordForms(caps: Captures, name: string)
    ensures var d := CompilerAction("Rule", caps);
      d.RuleDef? && d.name == Lookup(caps, "name") && d.content == Lookup(caps, "content") &&
      d.comments == List(Compacted(Items(Lookup(caps, "comments")))) &&
      forall c :: c in d.comments.items ==> Truthy(c) && c in Items(Lookup(caps, "comments"))
    ensures var action := Lookup(caps, "action");
      (Truthy(action) ==>
         CompilerAction("RuleLine", caps) == Code(Action(ExprOf(Lookup(caps, "expr")), CodeOf(action)))) &&
      (!Truthy(action) ==> CompilerAction("RuleLine", caps) == Lookup(caps, "expr"))
    ensures Lookup(caps, "label") == Str(name) ==>
      CompilerAction("Label", caps) == Code(Label(name, ExprOf(Lookup(caps, "expr"))))
    ensures CompilerAction("SubExpression", caps) == Lookup(caps, "sub")
  {
  }

  // ---------------------------------------------------------------------
  // Grammar: registering the rules
  // ---------------------------------------------------------------------

  /** The rule record `def` is registered under `k`. */
  predicate Registers(def: Value, k: string)
  {
    def.RuleDef? && def.name == Str(k)
  }

  /** Some rule record of `defs` is registered under `k`. */
  predicate RegisteredBy(defs: seq<Value>, k: string)
  {
    exists i :: 0 <= i < |defs| && Registers(defs[i], k)
  }

  /** The registration loop defines exactly the keys of the table and the names of the rule records. */
  lemma {:induction false} RegisteredKeys(table: map<string, Expr>, defs: seq<Value>)
    ensures forall k :: k in Registered(table, defs) <==>
      (k in table || RegisteredBy(defs, k))
    decreases |defs|
  {
    if defs != [] {
      RegisteredKeys(Register(table, defs[0]), defs[1..]);
      forall k
        ensures RegisteredBy(defs, k) <==> Registers(defs[0], k) || RegisteredBy(defs[1..], k)
      {
        if exists i :: 0 <= i < |defs| && Registers(defs[i], k) {
          var i :| 0 <= i < |defs| && Registers(defs[i], k);
          if i > 0 {
            assert defs[1..][i - 1] == defs[i];
          }
        }
        if exists i :: 0 <= i < |defs[1..]| && Registers(defs[1..][i], k) {
          var i :| 0 <= i < |defs[1..]| && Registers(defs[1..][i], k);
          assert defs[i + 1] == defs[1..][i];
        }
      }
    }
  }

  /** A name registered more than once ends up with the expression of its last rule record. */
  lemma {:induction false} RegisteredLast(table: map<string, Expr>, defs: seq<Value>, i: nat, k: string)
    requires i < |defs| && Registers(defs[i], k)
    requires forall j :: i < j < |defs| ==> !Registers(defs[j], k)
    ensures k in Registered(table, defs) && Registered(table, defs)[k] == ExprOf(defs[i].content)
    decreases |defs|
  {
    if i == 0 {
      RegisteredUntouched(Register(table, defs[0]), defs[1..], k);
    } else {
      forall j | i - 1 < j < |defs[1..]|
        ensures !Registers(defs[1..][j], k)
      {
        assert defs[1..][j] == defs[j + 1];
      }
      RegisteredLast(Register(table, defs[0]), defs[1..], i - 1, k);
    }
  }

  /** A name no rule record registers keeps its entry. */
  lemma {:induction false} RegisteredUntouched(table: map<string, Expr>, defs: seq<Value>, k: string)
    requires k in table
    requires forall j :: 0 <= j < |defs| ==> !Registers(defs[j], k)
    ensures k in Registered(table, defs) && Registered(table, defs)[k] == table[k]
    decreases |defs|
  {
    if defs != [] {
      assert !Registers(defs[0], k);
      forall j | 0 <= j < |defs[1..]|
        ensures !Registers(defs[1..][j], k)
      {
        assert defs[1..][j] == defs[j + 1];
      }
      RegisteredUntouched(Register(table, defs[0]), defs[1..], k);
    }
  }

  /**
   * The parser a grammar compiles to: its `Start` is the first rule unless a
   * later rule is itself named `Start`, and every rule is registered under
   * its own name, a later rule of the same name replacing an earlier one.
   */
  lemma GrammarRegisters(head: Value, tail: Value)
    requires head.RuleDef?
    ensures "Start" in CompiledTable(head, tail)
    ensures var defs := Definitions(head, tail);
      (forall j :: 0 <= j < |defs| ==> !Registers(defs[j], "Start")) ==>
        CompiledTable(head, tail)["Start"] == ExprOf(head.content)
    ensures var defs := Definitions(head, tail);
      forall k :: k in CompiledTable(head, tail) <==> k == "Start" || RegisteredBy(defs, k)
    ensures var defs := Definitions(head, tail);
      forall i, k :: 0 <= i < |defs| && Registers(defs[i], k) && (forall j :: i < j < |defs| ==> !Registers(defs[j], k)) ==>
        CompiledTable(head, tail)[k] == ExprOf(defs[i].content)
  {
    var defs := Definitions(head, tail);
    var table := CompiledTable(head, tail);
    assert table == Registered(map["Start" := ExprOf(head.content)], defs);
    StartKeys(ExprOf(head.content), defs, table);
    StartEntry(ExprOf(head.content), defs, table);
    LastRegistrations(map["Start" := ExprOf(head.content)], defs);
  }

  /** The keys of the registration loop started from a table holding only `Start`. */
  lemma StartKeys(start: Expr, defs: seq<Value>, table: map<string, Expr>)
    requires table == Registered(map["Start" := start], defs)
    ensures forall k :: k in table <==> k == "Start" || RegisteredBy(defs, k)
  {
    RegisteredKeys(map["Start" := start], defs);
  }

  /** `Start` keeps its entry when no record registers that name. */
  lemma StartEntry(start: Expr, defs: seq<Value>, table: map<string, Expr>)
    requires table == Registered(map["Start" := start], defs)
    ensures "Start" in table
    ensures (forall j :: 0 <= j < |defs| ==> !Registers(defs[j], "Start")) ==> table["Start"] == start
  {
    RegisteredKeys(map["Start" := start], defs);
    if forall j :: 0 <= j < |defs| ==> !Registers(defs[j], "Start") {
      RegisteredUntouched(map["Start" := start], defs, "Start");
    }
  }

  /** Every name ends with the expression of the last record that registers it. */
  lemma LastRegistrations(table: map<string, Expr>, defs: seq<Value>)
    ensures forall i, k :: 0 <= i < |defs| && Registers(defs[i], k) && (forall j :: i < j < |defs| ==> !Registers(defs[j], k)) ==>
      k in Registered(table, defs) && Registered(table, defs)[k] == ExprOf(defs[i].content)
  {
    forall i, k | 0 <= i < |defs| && Registers(defs[i], k) && (forall j :: i < j < |defs| ==> !Registers(defs[j], k))
      ensures k in Registered(table, defs) && Registered(table, defs)[k] == ExprOf(defs[i].content)
    {
      RegisteredLast(table, defs, i, k);
    }
  }
}
