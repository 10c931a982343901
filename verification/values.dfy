/**
 * The values a peg-coffee parser manipulates.
 *
 * A parsing expression in the runtime is a JavaScript closure over the parser
 * (`-> @literal 'a'`); here it is the `Expr` tree naming the combinator it calls.
 * A parse result is a JavaScript value; here it is the `Value` sum below, which
 * keeps `undefined` (the value of an empty result) apart from `null` (the value
 * `maybe` gives on a miss).
 */
module Values {

  /** A character range `lo-hi` inside a bracketed regular-expression class. */
  datatype CharRange = CharRange(lo: char, hi: char)

  /** The single-character regular expressions the grammar matches with `regex`. */
  datatype CharClass =
    | OneOf(ranges: seq<CharRange>)   // a class fixed in the grammar source, such as /^[_a-zA-Z]/
    | Body(text: string)              // a class compiled from grammar text: RegExp("^[" + text + "]")

  /** Does `c` fall in one of the ranges? */
  predicate InRanges(ranges: seq<CharRange>, c: char)
  {
    ranges != [] && ((ranges[0].lo <= c <= ranges[0].hi) || InRanges(ranges[1..], c))
  }

  /** A parsing expression: one constructor per combinator of the runtime. */
  datatype Expr =
    | Pass
    | Advance
    | Literal(text: string)
    | Regex(cls: CharClass)
    | All(es: seq<Expr>)
    | Any(es: seq<Expr>)
    | Some(sub: Expr)
    | MaybeSome(sub: Expr)
    | Maybe(sub: Expr)
    | Check(sub: Expr)
    | Reject(sub: Expr)
    | Action(sub: Expr, code: string)
    | Label(name: string, sub: Expr)
    | Token(sub: Expr)
    | Call(rule: string)      // a reference to a rule of the grammar (`@Rule`)
    | NotCallable             // a value used as an expression that is not a function

  /** JavaScript values as they occur in parse results and action contexts. */
  datatype Value =
    | Undefined
    | Null
    | Bool(b: bool)
    | Str(s: string)
    | List(items: seq<Value>)
    | Code(expr: Expr)                 // a parsing-expression closure built by an action
    | Callback(body: string)           // the source text of a semantic action
    | RuleDef(name: Value, content: Value, comments: Value)
    | Rules(table: map<string, Expr>)  // the rule functions of a compiled parser

  /** JavaScript truthiness, restricted to the values above. */
  predicate Truthy(v: Value)
  {
    match v
    case Undefined => false
    case Null => false
    case Bool(b) => b
    case Str(s) => s != ""
    case _ => true
  }

  /** The expression a value stands for when the compiler calls it as a parsing expression. */
  function ExprOf(v: Value): (e: Expr)
    ensures v.Code? ==> e == v.expr
    ensures !v.Code? ==> e == NotCallable
  {
    if v.Code? then v.expr else NotCallable
  }
}
