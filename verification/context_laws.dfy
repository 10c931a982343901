/**
 * Laws of the `Context` helpers (`compact`, `join`, `unescape`) and of the
 * string functions the compiler's actions use.
 */
module ContextLaws {
  import opened Values
  import opened Context

  // ---------------------------------------------------------------------
  // compact
  // ---------------------------------------------------------------------

  /** `compact` distributes over concatenation. */
  lemma {:induction false} CompactedAppend(a: seq<Value>, b: seq<Value>)
    ensures Compacted(a + b) == Compacted(a) + Compacted(b)
    decreases |b|
  {
    if b == [] {
      assert a + b == a;
    } else {
      var front := b[..|b| - 1];
      var last := b[|b| - 1];
      var kept := if Truthy(last) then [last] else [];
      assert (a + b)[..|a + b| - 1] == a + front;
      assert (a + b)[|a + b| - 1] == last;
      assert Compacted(a + b) == Compacted(a + front) + kept;
      assert Compacted(b) == Compacted(front) + kept;
      CompactedAppend(a, front);
      assert Compacted(a) + Compacted(front) + kept == Compacted(a) + (Compacted(front) + kept);
    }
  }

  /**
   * `compact` keeps every truthy element as often as it occurs and drops
   * every other one.
   */
  lemma {:induction false} CompactedCounts(elems: seq<Value>)
    ensures forall v :: multiset(Compacted(elems))[v] == if Truthy(v) then multiset(elems)[v] else 0
  {
    if elems != [] {
      var front := elems[..|elems| - 1];
      var last := elems[|elems| - 1];
      assert elems == front + [last];
      CompactedCounts(front);
      assert multiset(elems) == multiset(front) + multiset{last};
    }
  }

  /** A list of truthy values is already compact. */
  lemma {:induction false} CompactedTruthy(elems: seq<Value>)
    requires forall i :: 0 <= i < |elems| ==> Truthy(elems[i])
    ensures Compacted(elems) == elems
  {
    if elems != [] {
      CompactedTruthy(elems[..|elems| - 1]);
      assert elems[..|elems| - 1] + [elems[|elems| - 1]] == elems;
    }
  }

  /** `compact` is idempotent. */
  lemma CompactedIdempotent(elems: seq<Value>)
    ensures Compacted(Compacted(elems)) == Compacted(elems)
  {
    var r := Compacted(elems);
    assert forall i :: 0 <= i < |r| ==> r[i] in r;
    CompactedTruthy(r);
  }

  // ---------------------------------------------------------------------
  // join
  // ---------------------------------------------------------------------

  lemma {:induction false} ConcatAppend(a: seq<string>, b: seq<string>)
    ensures Concat(a + b) == Concat(a) + Concat(b)
    decreases |b|
  {
    if b == [] {
      assert a + b == a;
    } else {
      var front := b[..|b| - 1];
      var last := b[|b| - 1];
      assert (a + b)[..|a + b| - 1] == a + front;
      assert (a + b)[|a + b| - 1] == last;
      assert Concat(a + b) == Concat(a + front) + last;
      ConcatAppend(a, front);
      assert Concat(a) + Concat(front) + last == Concat(a) + (Concat(front) + last);
    }
  }

  /** `join` of a list distributes over concatenation of the list. */
  lemma JoinedAppend(a: seq<Value>, b: seq<Value>)
    ensures Joined(List(a + b)) == Joined(List(a)) + Joined(List(b))
  {
    var pa := seq(|a|, i requires 0 <= i < |a| => Joined(a[i]));
    var pb := seq(|b|, i requires 0 <= i < |b| => Joined(b[i]));
    var ab := a + b;
    assert seq(|ab|, i requires 0 <= i < |ab| => Joined(ab[i])) == pa + pb;
    ConcatAppend(pa, pb);
  }

  /** The one-character strings of `s`, as `extract` and `advance` produce them. */
  function Chars(s: string): seq<Value>
  {
    seq(|s|, i requires 0 <= i < |s| => Str([s[i]]))
  }

  /** Joining the characters of a string gives the string back. */
  lemma {:induction false} JoinedChars(s: string)
    ensures Joined(List(Chars(s))) == s
  {
    if s != [] {
      var front := s[..|s| - 1];
      JoinedChars(front);
      assert Chars(s) == Chars(front) + [Str([s[|s| - 1]])];
      JoinedAppend(Chars(front), [Str([s[|s| - 1]])]);
      assert Joined(List([Str([s[|s| - 1]])])) == Concat([[s[|s| - 1]]]);
      assert Concat([[s[|s| - 1]]]) == Concat([]) + [s[|s| - 1]];
      assert front + [s[|s| - 1]] == s;
    }
  }

  // ---------------------------------------------------------------------
  // unescape
  // ---------------------------------------------------------------------

  /** A pattern that does not occur leaves the string as it is. */
  lemma ReplaceFirstAbsent(s: string, pat: string, rep: string)
    requires forall k :: !OccursAt(s, pat, k)
    ensures ReplaceFirst(s, pat, rep) == s
  {
  }

  /** Only the first occurrence of the pattern is replaced. */
  lemma ReplaceFirstAt(s: string, pat: string, rep: string, k: nat)
    requires OccursAt(s, pat, k)
    requires forall j :: 0 <= j < k ==> !OccursAt(s, pat, j)
    ensures ReplaceFirst(s, pat, rep) == s[..k] + rep + s[k + |pat|..]
  {
    var i := IndexOf(s, pat);
    assert i != -1;
  }

  /** A pattern that starts with a backslash cannot occur in a string without one. */
  lemma AbsentWithoutBackslash(s: string, pat: string)
    requires |pat| > 0 && pat[0] == '\\'
    requires forall i :: 0 <= i < |s| ==> s[i] != '\\'
    ensures forall k :: !OccursAt(s, pat, k)
  {
  }

  /** `unescape` leaves a string without backslashes unchanged. */
  lemma UnescapedPlain(s: string)
    requires forall i :: 0 <= i < |s| ==> s[i] != '\\'
    ensures Unescaped(s) == s
  {
    AbsentWithoutBackslash(s, "\\n");
    AbsentWithoutBackslash(s, "\\r");
    AbsentWithoutBackslash(s, "\\'");
    AbsentWithoutBackslash(s, "\\\"");
    AbsentWithoutBackslash(s, "\\\\");
  }

  /**
   * `unescape` rewrites only the first occurrence of each escape: in
   * `\n\n` (backslash, n, backslash, n) the second escape stays as it is.
   */
  lemma UnescapedFirstOnly()
    ensures Unescaped("\\n\\n") == "\n\\n"
  {
    var s := "\\n\\n";
    assert OccursAt(s, "\\n", 0);
    ReplaceFirstAt(s, "\\n", "\n", 0);
    var t := "\n\\n";
    assert s[..0] + "\n" + s[2..] == t;
    assert t[0..2][0] == '\n';
    assert OccursAt(t, "\\n", 1) && !OccursAt(t, "\\n", 0);
    forall k ensures !OccursAt(t, "\\r", k) {
    }
    forall k ensures !OccursAt(t, "\\'", k) {
    }
    forall k ensures !OccursAt(t, "\\\"", k) {
    }
    forall k ensures !OccursAt(t, "\\\\", k) {
    }
  }

  // ---------------------------------------------------------------------
  // trim
  // ---------------------------------------------------------------------

  /**
   * The leading part `trimStart` removes is all trimmable, and what is left
   * does not start with a trimmable character.
   */
  lemma {:induction false} TrimStartLaws(s: string)
    ensures var r := TrimStart(s);
      |r| <= |s| && r == s[|s| - |r|..] &&
      (forall i :: 0 <= i < |s| - |r| ==> IsTrimmable(s[i])) &&
      (r != [] ==> !IsTrimmable(r[0]))
    decreases |s|
  {
    if s != [] && IsTrimmable(s[0]) {
      TrimStartLaws(s[1..]);
    }
  }

  /**
   * The trailing part `trimEnd` removes is all trimmable, and what is left
   * does not end with a trimmable character.
   */
  lemma {:induction false} TrimEndLaws(s: string)
    ensures var r := TrimEnd(s);
      |r| <= |s| && r == s[..|r|] &&
      (forall i :: |r| <= i < |s| ==> IsTrimmable(s[i])) &&
      (r != [] ==> !IsTrimmable(r[|r| - 1]))
    decreases |s|
  {
    if s != [] && IsTrimmable(s[|s| - 1]) {
      TrimEndLaws(s[..|s| - 1]);
    }
  }

  /** `trim` yields the empty string exactly when every character is trimmable. */
  lemma TrimBlank(s: string)
    ensures Trim(s) == [] <==> forall i :: 0 <= i < |s| ==> IsTrimmable(s[i])
  {
    var t := TrimStart(s);
    TrimStartLaws(s);
    TrimEndLaws(t);
    if t != [] {
      assert !IsTrimmable(s[|s| - |t|]);
      assert TrimEnd(t)[0] == t[0];
    }
  }

  /** The result of `trim` neither starts nor ends with a trimmable character. */
  lemma TrimEdges(s: string)
    ensures var r := Trim(s);
      r != [] ==> !IsTrimmable(r[0]) && !IsTrimmable(r[|r| - 1])
  {
    var t := TrimStart(s);
    var r := TrimEnd(t);
    TrimStartLaws(s);
    TrimEndLaws(t);
    if r != [] {
      assert r[0] == t[0];
    }
  }

  /** Trimming twice is trimming once. */
  lemma TrimIdempotent(s: string)
    ensures Trim(Trim(s)) == Trim(s)
  {
    var r := Trim(s);
    TrimEdges(s);
    TrimStartLaws(r);
    TrimEndLaws(r);
    if r != [] {
      assert TrimStart(r) == r;
      assert TrimEnd(r) == r;
    }
  }
}
