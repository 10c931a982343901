/**
 * Laws of `StringState`: what one `next()` step does, how lines are counted
 * over many steps, and that the state's name can be read back.
 */
module StringStatesLaws {
  import opened StringStates

  // ---------------------------------------------------------------------
  // one step
  // ---------------------------------------------------------------------

  /**
   * Away from the end, `next()` yields the element at the index and a state
   * one index further over the same source and string; a line break moves
   * to column 1 of the next line, any other element one column on.
   */
  lemma NextLaws(st: StringState)
    requires st.index != |st.text|
    ensures var r := Next(st);
      r.Stepped? && r.element == CharAt(st.text, st.index) &&
      r.state.index == st.index + 1 && r.state.source == st.source && r.state.text == st.text &&
      (BreaksLine(st.text, st.index) ==> r.state.line == st.line + 1 && r.state.column == 1) &&
      (!BreaksLine(st.text, st.index) ==> r.state.line == st.line && r.state.column == st.column + 1)
  {
  }

  /** Inside the string the element is the character at the index. */
  lemma NextInside(st: StringState)
    requires 0 <= st.index < |st.text|
    ensures Next(st).Stepped? && Next(st).element == Char(st.text[st.index])
  {
  }

  /**
   * A CR LF pair is one line break: stepping over both characters moves one
   * line down, and the LF counts as a column of the new line.
   */
  lemma CrLfOneLine(st: StringState)
    requires 0 <= st.index && st.index + 1 < |st.text|
    requires st.text[st.index] == '\r' && st.text[st.index + 1] == '\n'
    ensures Next(st).Stepped?
    ensures var s := Next(st).state;
      Next(s).Stepped? && Next(s).state.line == st.line + 1 && Next(s).state.column == 2
  {
    var s := Next(st).state;
    assert BreaksLine(st.text, st.index);
    assert CharAt(st.text, s.index - 1) == Char('\r');
    assert !BreaksLine(s.text, s.index);
  }

  // ---------------------------------------------------------------------
  // many steps
  // ---------------------------------------------------------------------

  /** The state after `k` calls of `next()` (staying put at the end). */
  function Walk(st: StringState, k: nat): StringState
    decreases k
  {
    if k == 0 then st
    else
      var w := Walk(st, k - 1);
      var s := Next(w);
      if s.End? then w else s.state
  }

  /** The number of indices in `[from, to)` whose element starts a new line. */
  function Breaks(text: string, from: int, to: int): nat
    decreases to - from
  {
    if to <= from then 0 else Breaks(text, from, to - 1) + (if BreaksLine(text, to - 1) then 1 else 0)
  }

  /**
   * Walking `k` characters through the string moves the index by `k`, adds
   * one line per line break passed (a CR LF pair counting once), and, when
   * no break was passed, moves the column by `k`.
   */
  lemma {:induction false} WalkLines(st: StringState, k: nat)
    requires 0 <= st.index && st.index + k <= |st.text|
    ensures var w := Walk(st, k);
      w.source == st.source && w.text == st.text && w.index == st.index + k &&
      w.line == st.line + Breaks(st.text, st.index, st.index + k) &&
      (Breaks(st.text, st.index, st.index + k) == 0 ==> w.column == st.column + k)
    decreases k
  {
    if k > 0 {
      WalkLines(st, k - 1);
      var w := Walk(st, k - 1);
      NextLaws(w);
    }
  }

  // ---------------------------------------------------------------------
  // the name
  // ---------------------------------------------------------------------

  lemma DigitValue(d: nat)
    requires d < 10
    ensures Digit(d) as int - '0' as int == d
  {
  }

  /** Reading back the decimal rendering of a natural number gives the number. */
  lemma {:induction false} NatTextValue(n: nat)
    ensures DigitsValue(NatText(n)) == n
    decreases n
  {
    if n < 10 {
      DigitValue(n);
      assert [Digit(n)][..0] == [];
    } else {
      NatTextValue(n / 10);
      DigitValue(n % 10);
      var s := NatText(n / 10) + [Digit(n % 10)];
      assert s[..|s| - 1] == NatText(n / 10);
    }
  }

  /**
   * The name of a state with a non-negative line and column is the source,
   * a colon, the line's digits, a colon and the column's digits, and both
   * numbers can be read back from it.
   */
  lemma NameReadsBack(st: StringState)
    requires st.line >= 0 && st.column >= 0
    ensures var l := IntText(st.line); var c := IntText(st.column);
      Name(st) == st.source + [':'] + l + [':'] + c &&
      (forall i :: 0 <= i < |l| ==> '0' <= l[i] <= '9') && DigitsValue(l) == st.line &&
      (forall i :: 0 <= i < |c| ==> '0' <= c[i] <= '9') && DigitsValue(c) == st.column
  {
    NatTextValue(st.line);
    NatTextValue(st.column);
  }

  /** A negative line is written with a minus sign before its digits. */
  lemma NegativeText(n: int)
    requires n < 0
    ensures var t := IntText(n);
      |t| >= 2 && t[0] == '-' && (forall i :: 1 <= i < |t| ==> '0' <= t[i] <= '9') && DigitsValue(t[1..]) == -n
  {
    var digits := NatText(-n);
    NatTextValue(-n);
    var t := IntText(n);
    assert t == ['-'] + digits;
    assert t[1..] == digits;
    assert forall i :: 1 <= i < |t| ==> t[i] == digits[i - 1];
  }
}
