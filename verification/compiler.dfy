/**
 * The self-hosting grammar compiler of lib/peg_coffee_parser.js: a grammar
 * whose rules are combinator expressions over the runtime and whose actions
 * build, from the text of a peg-coffee grammar, the expressions of the parser
 * it describes.
 *
 * Each rule function is written as the combinator tree it returns; the
 * closures its actions return are `Code` values holding the `Expr` they would
 * run, and a compiled parser is a `Rules` value, the table of its rule
 * functions by name.
 */
module PegCoffee {
  import opened Values
  import opened Context
  import opened Semantics

  /** /^[&!]/ */
  const PrefixChars := OneOf([CharRange('&', '&'), CharRange('!', '!')])
  /** /^[?*+]/ */
  const SuffixChars := OneOf([CharRange('?', '?'), CharRange('*', '*'), CharRange('+', '+')])
  /** /^[A-Z]/ */
  const UpperChars := OneOf([CharRange('A', 'Z')])
  /** /^[_a-zA-Z]/ */
  const IdentChars := OneOf([CharRange('_', '_'), CharRange('a', 'z'), CharRange('A', 'Z')])
  /** /^[_a-z]/ */
  const LabelChars := OneOf([CharRange('_', '_'), CharRange('a', 'z')])

  /** Rules separated by two NEWLINEs; the first becomes `Start`. */
  const GrammarBody := Action(All([
      Label("head", Call("Rule")),
      Label("tail", MaybeSome(All([Call("NEWLINE"), Call("NEWLINE"), Call("Rule")])))]),
    "Grammar")

  /** Comment or empty lines, then `Name:`, an indent, and the rule's content. */
  const RuleBody := Action(All([
      Label("comments", MaybeSome(Any([Call("Comment"), Call("EMPTY_LINE")]))),
      Label("name", Call("RuleIdentifier")),
      Literal(":"),
      Call("INDENT"),
      Label("content", Call("RuleContent"))]),
    "Rule")

  /** Rule lines, later ones introduced by a newline, `/` and a space. */
  const RuleContentBody := Action(All([
      Label("head", Call("RuleLine")),
      Label("tail", MaybeSome(All([Call("NEWLINE"), Literal("/"), Call("SPACE"), Call("RuleLine")])))]),
    "RuleContent")

  /** An expression, optionally followed by spaces and an action. */
  const RuleLineBody := Action(All([
      Label("expr", Call("Expression")),
      Maybe(All([Some(Call("SPACE")), Label("action", Call("Action"))]))]),
    "RuleLine")

  /** Sequences separated by ` / `. */
  const ExpressionBody := Action(All([
      Label("head", Call("Sequence")),
      Label("tail", MaybeSome(All([Some(Call("SPACE")), Literal("/"), Some(Call("SPACE")), Call("Sequence")])))]),
    "Expression")

  /** Labelled expressions separated by spaces. */
  const SequenceBody := Action(All([
      Label("head", Call("Label")),
      Label("tail", MaybeSome(All([Some(Call("SPACE")), Call("Label")])))]),
    "Sequence")

  /** `name:expr`, or a plain prefixed expression. */
  const LabelBody := Any([
    Action(All([Label("label", Call("LabelIdentifier")), Literal(":"), Label("expr", Call("Prefix"))]), "Label"),
    Call("Prefix")])

  /** `&expr`, `!expr`, or a plain suffixed expression. */
  const PrefixBody := Any([
    Action(All([Label("prefix", Regex(PrefixChars)), Label("expr", Call("Suffix"))]), "Prefix"),
    Call("Suffix")])

  /** `expr?`, `expr*`, `expr+`, or a plain primary expression. */
  const SuffixBody := Any([
    Action(All([Label("expr", Call("Primary")), Label("suffix", Regex(SuffixChars))]), "Suffix"),
    Call("Primary")])

  /** A parenthesised expression, a rule name, a literal, a class, `.` or `~`. */
  const PrimaryBody := Any([
    Action(All([Literal("("), Label("sub", Call("SubExpression")), Literal(")")]), "Primary.sub"),
    Action(Call("RuleIdentifier"), "Primary.rule"),
    Action(Call("Literal"), "Primary.literal"),
    Action(Call("Class"), "Primary.class"),
    Action(Literal("."), "Primary.advance"),
    Action(Literal("~"), "Primary.pass")])

  /** The inside of parentheses, with optional single spaces around it. */
  const SubExpressionBody := Any([
    Action(All([Call("SPACE"), Label("sub", Call("SubExpression")), Call("SPACE")]), "SubExpression"),
    Call("Expression")])

  /** Block code (`->` then indented lines) or inline code (`-> ` then the rest of the line). */
  const ActionBody := Any([
    Action(All([
        Literal("->"),
        Call("DOUBLE_INDENT"),
        Reject(Call("WHITESPACE")),
        Advance,
        MaybeSome(Any([
          All([Reject(Call("NEWLINE")), Advance]),
          All([MaybeSome(All([Reject(Call("DOUBLE_INDENT")), Call("WHITESPACE")])), Call("DOUBLE_INDENT")])]))]),
      "Action.block"),
    Action(All([Literal("->"), Some(Call("SPACE")), Some(All([Reject(Call("NEWLINE")), Advance]))]), "Action.inline")])

  /** `#` up to the end of the line. */
  const CommentBody := Action(All([
      Literal("#"),
      Label("content", MaybeSome(All([Reject(Call("NEWLINE")), Advance]))),
      Call("NEWLINE")]),
    "Comment")

  const RuleIdentifierBody := Action(All([Regex(UpperChars), MaybeSome(Regex(IdentChars))]), "RuleIdentifier")

  const LabelIdentifierBody := Action(Some(Regex(LabelChars)), "LabelIdentifier")

  /** One character of a quoted body: a backslash and the next character, or any character but the quote. */
  function QuotedStep(quote: string): Expr
  {
    All([Any([Literal("\\"), Reject(Literal(quote))]), Advance])
  }

  /** The body of a quoted literal or class. */
  function QuotedContent(quote: string): Expr
  {
    MaybeSome(QuotedStep(quote))
  }

  /** `open`, the body labelled `content`, then `close`. */
  function Quoted(open: string, close: string): Expr
  {
    All([Literal(open), Label("content", QuotedContent(close)), Literal(close)])
  }

  const LiteralBody := Action(Any([Quoted("'", "'"), Quoted("\"", "\"")]), "Literal")

  const ClassBody := Action(Quoted("[", "]"), "Class")

  const DoubleIndentBody := Action(All([Call("INDENT"), Call("SPACE"), Call("SPACE")]), "DOUBLE_INDENT")

  const IndentBody := Token(All([Call("NEWLINE"), Call("SPACE"), Call("SPACE")]))

  const EmptyLineBody := Token(All([MaybeSome(Call("SPACE")), Call("NEWLINE")]))

  const WhitespaceBody := Any([Call("NEWLINE"), Call("SPACE")])

  const NewlineBody := Action(Any([All([Literal("\r"), Maybe(Literal("\n"))]), Literal("\n")]), "NEWLINE")

  const SpaceBody := Token(Literal(" "))

  /** The rule functions of `PegCoffeeParser`; `Start` is the `Grammar` function itself. */
  const CompilerRules: map<string, Expr> := map[
    "Grammar" := GrammarBody,
    "Rule" := RuleBody,
    "RuleContent" := RuleContentBody,
    "RuleLine" := RuleLineBody,
    "Expression" := ExpressionBody,
    "Sequence" := SequenceBody,
    "Label" := LabelBody,
    "Prefix" := PrefixBody,
    "Suffix" := SuffixBody,
    "Primary" := PrimaryBody,
    "SubExpression" := SubExpressionBody,
    "Action" := ActionBody,
    "Comment" := CommentBody,
    "RuleIdentifier" := RuleIdentifierBody,
    "LabelIdentifier" := LabelIdentifierBody,
    "Literal" := LiteralBody,
    "Class" := ClassBody,
    "DOUBLE_INDENT" := DoubleIndentBody,
    "INDENT" := IndentBody,
    "EMPTY_LINE" := EmptyLineBody,
    "WHITESPACE" := WhitespaceBody,
    "NEWLINE" := NewlineBody,
    "SPACE" := SpaceBody,
    "Start" := GrammarBody]

  /** `context.name`: a captured value, `undefined` when the label never matched. */
  function Lookup(caps: Captures, name: string): Value
  {
    if name in caps then caps[name] else Undefined
  }

  /** The property name a string value denotes. */
  function KeyOf(v: Value): string
  {
    if v.Str? then v.s else ""
  }

  /** The expressions a list of compiled values stands for. */
  function ExprsOf(vs: seq<Value>): (es: seq<Expr>)
    ensures |es| == |vs|
    ensures forall i :: 0 <= i < |vs| ==> es[i] == ExprOf(vs[i])
  {
    if vs == [] then [] else [ExprOf(vs[0])] + ExprsOf(vs[1..])
  }

  /** `$$.slice(k)` on a list or a string. */
  function Drop(v: Value, k: nat): Value
  {
    match v
    case List(items) => List(if k <= |items| then items[k..] else [])
    case Str(s) => Str(if k <= |s| then s[k..] else "")
    case _ => Undefined
  }

  /** The text of a compiled action. */
  function CodeOf(v: Value): string
  {
    if v.Callback? then v.body else ""
  }

  /**
   * The shared action of `RuleContent`, `Expression` and `Sequence`: the head
   * alone when the tail is empty, otherwise a combinator over the head and the
   * `index`-th element of every tail item.
   */
  function Chain(caps: Captures, index: nat, choice: bool): Value
  {
    var head := Lookup(caps, "head");
    var tail := Items(Lookup(caps, "tail"));
    if |tail| == 0 then head
    else
      var es := [ExprOf(head)] + ExprsOf(Extracted(tail, index));
      Code(if choice then Any(es) else All(es))
  }

  /** `parser.prototype[name] = content` for one rule record. */
  function Register(table: map<string, Expr>, def: Value): map<string, Expr>
  {
    if def.RuleDef? && def.name.Str? then table[def.name.s := ExprOf(def.content)] else table
  }

  /** The registration loop over the rule records, in order. */
  function Registered(table: map<string, Expr>, defs: seq<Value>): map<string, Expr>
    decreases |defs|
  {
    if defs == [] then table else Registered(Register(table, defs[0]), defs[1..])
  }

  /** The records the `Grammar` action registers: `[head].concat(extract(tail, 2))`. */
  function Definitions(head: Value, tail: Value): seq<Value>
  {
    [head] + Extracted(Items(tail), 2)
  }

  /** The table the `Grammar` action builds: `Start` first, then every rule under its name. */
  function CompiledTable(head: Value, tail: Value): map<string, Expr>
  {
    var start := if head.RuleDef? then ExprOf(head.content) else NotCallable;
    Registered(map["Start" := start], Definitions(head, tail))
  }

  /** The semantic actions of the compiler's rules, by the rule (and alternative) they belong to. */
  function CompilerAction(code: string, caps: Captures): Value
  {
    var dollars := Lookup(caps, "$$");
    match code
    case "Grammar" => Rules(CompiledTable(Lookup(caps, "head"), Lookup(caps, "tail")))
    case "Rule" =>
      RuleDef(Lookup(caps, "name"), Lookup(caps, "content"), List(Compacted(Items(Lookup(caps, "comments")))))
    case "RuleContent" => Chain(caps, 2, true)
    case "RuleLine" =>
      var expr := Lookup(caps, "expr");
      var action := Lookup(caps, "action");
      if Truthy(action) then Code(Action(ExprOf(expr), CodeOf(action))) else expr
    case "Expression" => Chain(caps, 3, true)
    case "Sequence" => Chain(caps, 1, false)
    case "Label" => Code(Label(KeyOf(Lookup(caps, "label")), ExprOf(Lookup(caps, "expr"))))
    case "Prefix" =>
      var prefix := Lookup(caps, "prefix");
      var expr := ExprOf(Lookup(caps, "expr"));
      if prefix == Str("&") then Code(Check(expr))
      else if prefix == Str("!") then Code(Reject(expr))
      else Undefined
    case "Suffix" =>
      var suffix := Lookup(caps, "suffix");
      var expr := ExprOf(Lookup(caps, "expr"));
      if suffix == Str("?") then Code(Maybe(expr))
      else if suffix == Str("*") then Code(MaybeSome(expr))
      else if suffix == Str("+") then Code(Some(expr))
      else Undefined
    case "Primary.sub" => Lookup(caps, "sub")
    case "Primary.rule" => Code(Call(KeyOf(dollars)))
    case "Primary.literal" => dollars
    case "Primary.class" => dollars
    case "Primary.advance" => Code(Advance)
    case "Primary.pass" => Code(Pass)
    case "SubExpression" => Lookup(caps, "sub")
    case "Action.block" => Callback(Trim(Joined(Drop(dollars, 2))))
    case "Action.inline" => Callback(Trim(Joined(Drop(dollars, 1))))
    case "Comment" => Str(Trim(Joined(Lookup(caps, "content"))))
    case "RuleIdentifier" => Str(Joined(dollars))
    case "LabelIdentifier" => Str(Joined(dollars))
    case "Literal" => Code(Literal(Unescaped(Joined(Lookup(caps, "content")))))
    case "Class" => Code(Regex(Body(Unescaped(Joined(Lookup(caps, "content"))))))
    case "DOUBLE_INDENT" => Str("\n")
    case "NEWLINE" => Str("\n")
    case _ => Undefined
  }

  /** `PegCoffeeParser`; it matches no compiled classes of its own. */
  const Compiler := Grammar(CompilerRules, CompilerAction, (text: string, c: char) => false)

  /**
   * The loop of the `Grammar` action: registers `Start`, then each rule
   * record of `[head].concat(extract(tail, 2))` under its name.
   */
  method BuildParser(head: Value, tail: Value) returns (table: map<string, Expr>)
    ensures table == CompiledTable(head, tail)
  {
    table := map["Start" := if head.RuleDef? then ExprOf(head.content) else NotCallable];
    var rest := Extract(Items(tail), 2);
    var defs := [head] + rest;
    ghost var start := table;
    var i := 0;
    while i < |defs|
      invariant i <= |defs|
      invariant Registered(table, defs[i..]) == Registered(start, defs)
    {
      var def := defs[i];
      if def.RuleDef? && def.name.Str? {
        table := table[def.name.s := ExprOf(def.content)];
      }
      i := i + 1;
    }
  }
}
