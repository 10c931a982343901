/**
 * `StringState` (lib/state.js): a position in a named string with its line
 * and column. States are immutable; `next` builds the following one.
 */
module StringStates {

  datatype StringState = StringState(source: string, text: string, index: int, line: int, column: int)

  /** What `string[i]` yields: a character, or `undefined` outside the string. */
  datatype Element = Char(c: char) | Missing

  /** The result of `next()`: `undefined` at the end, otherwise the element and the next state. */
  datatype Step = End | Stepped(element: Element, state: StringState)

  function CharAt(s: string, i: int): Element
  {
    if 0 <= i < |s| then Char(s[i]) else Missing
  }

  /** The decimal digit of `d`. */
  function Digit(d: nat): char
    requires d < 10
  {
    "0123456789"[d]
  }

  /** The decimal rendering of a natural number, as a template string prints it. */
  function NatText(n: nat): (s: string)
    ensures |s| >= 1
    ensures forall i :: 0 <= i < |s| ==> '0' <= s[i] <= '9'
    ensures n >= 10 ==> s[0] != '0'
    decreases n
  {
    if n < 10 then [Digit(n)] else NatText(n / 10) + [Digit(n % 10)]
  }

  /** The decimal rendering of an integer, with a minus sign when negative. */
  function IntText(n: int): string
  {
    if n < 0 then "-" + NatText(-n) else NatText(n)
  }

  /** The value of a string of decimal digits. */
  function DigitsValue(s: string): nat
    requires forall i :: 0 <= i < |s| ==> '0' <= s[i] <= '9'
  {
    if s == [] then 0 else 10 * DigitsValue(s[..|s| - 1]) + (s[|s| - 1] as int - '0' as int)
  }

  /** The state's `name`: `"<source>:<line>:<column>"`. */
  function Name(st: StringState): string
  {
    st.source + ":" + IntText(st.line) + ":" + IntText(st.column)
  }

  /** Does the element at `index` start a new line (a CR, or an LF not preceded by a CR)? */
  predicate BreaksLine(text: string, index: int)
  {
    CharAt(text, index) == Char('\r') || (CharAt(text, index) == Char('\n') && CharAt(text, index - 1) != Char('\r'))
  }

  /** `next()`. */
  function Next(st: StringState): (r: Step)
    ensures r.End? <==> st.index == |st.text|
  {
    if st.index == |st.text| then End
    else
      var element := CharAt(st.text, st.index);
      if BreaksLine(st.text, st.index) then
        Stepped(element, StringState(st.source, st.text, st.index + 1, st.line + 1, 1))
      else
        Stepped(element, StringState(st.source, st.text, st.index + 1, st.line, st.column + 1))
  }
}
