/**
 * The `Context` helpers that semantic actions call through `this`
 * (`extract`, `join`, `compact`, `unescape`), plus `String.prototype.trim`,
 * which the compiler's actions apply to joined text.
 *
 * Each helper is a specification function; `extract`, `join` and `compact`,
 * which build their results in a loop, are also methods proved to compute
 * those functions.
 */
module Context {
  import opened Values

  /** `element[index]`: an item of a list, a one-character string of a string, `undefined` otherwise. */
  function Element(v: Value, index: nat): Value
  {
    match v
    case List(items) => if index < |items| then items[index] else Undefined
    case Str(s) => if index < |s| then Str([s[index]]) else Undefined
    case _ => Undefined
  }

  /**
   * The items of a list value; any other value has none here. JavaScript's
   * `extract` would walk the characters of a string, but the compiler only
   * ever hands it lists.
   */
  function Items(v: Value): seq<Value>
  {
    if v.List? then v.items else []
  }

  /** `extract(array, index)`: the `index`-th element of every element, in order. */
  function Extracted(elems: seq<Value>, index: nat): (r: seq<Value>)
    ensures |r| == |elems|
    ensures forall i :: 0 <= i < |elems| ==> r[i] == Element(elems[i], index)
  {
    if elems == [] then []
    else Extracted(elems[..|elems| - 1], index) + [Element(elems[|elems| - 1], index)]
  }

  /** `extract`: pushes `element[index]` for each element. */
  method Extract(elems: seq<Value>, index: nat) returns (r: seq<Value>)
    ensures r == Extracted(elems, index)
  {
    r := [];
    var i := 0;
    while i < |elems|
      invariant i <= |elems|
      invariant r == Extracted(elems[..i], index)
    {
      assert elems[..i + 1][..i] == elems[..i];
      r := r + [Element(elems[i], index)];
      i := i + 1;
    }
    assert elems[..i] == elems;
  }

  /** `Array.prototype.join('')` over strings. */
  function Concat(parts: seq<string>): string
  {
    if parts == [] then "" else Concat(parts[..|parts| - 1]) + parts[|parts| - 1]
  }

  /**
   * `join`: `''` for null and undefined, a string itself, and the joins of an
   * elems's members concatenated; any other value has no numeric `length`
   * and joins to `''`.
   */
  function Joined(v: Value): string
    decreases v
  {
    match v
    case Undefined => ""
    case Null => ""
    case Str(s) => s
    case List(items) => Concat(seq(|items|, i requires 0 <= i < |items| => Joined(items[i])))
    case _ => ""
  }

  /** `join`, recursing into each member and concatenating the parts. */
  method Join(v: Value) returns (s: string)
    ensures s == Joined(v)
    decreases v
  {
    match v {
      case Undefined => s := "";
      case Null => s := "";
      case Str(t) => s := t;
      case List(items) =>
        var parts: seq<string> := [];
        var i := 0;
        while i < |items|
          invariant i <= |items|
          invariant parts == seq(i, k requires 0 <= k < i => Joined(items[k]))
        {
          var part := Join(items[i]);
          parts := parts + [part];
          i := i + 1;
        }
        s := Concat(parts);
      case _ => s := "";
    }
  }

  /** `compact(array)`: the truthy elements, in order. */
  function Compacted(elems: seq<Value>): (r: seq<Value>)
    ensures |r| <= |elems|
    ensures forall v :: v in r ==> Truthy(v) && v in elems
  {
    if elems == [] then []
    else
      var last := elems[|elems| - 1];
      Compacted(elems[..|elems| - 1]) + (if Truthy(last) then [last] else [])
  }

  /** `compact`: pushes each element that is truthy. */
  method Compact(elems: seq<Value>) returns (r: seq<Value>)
    ensures r == Compacted(elems)
  {
    r := [];
    var i := 0;
    while i < |elems|
      invariant i <= |elems|
      invariant r == Compacted(elems[..i])
    {
      assert elems[..i + 1][..i] == elems[..i];
      var v := elems[i];
      if Truthy(v) {
        r := r + [v];
      }
      i := i + 1;
    }
    assert elems[..i] == elems;
  }

  /** `pat` occurs in `s` at index `k`. */
  predicate OccursAt(s: string, pat: string, k: int)
  {
    0 <= k && k + |pat| <= |s| && s[k..k + |pat|] == pat
  }

  /**
   * The index of the first occurrence of `pat` in `s`, or -1
   * (`String.prototype.indexOf`).
   */
  function IndexOf(s: string, pat: string): (i: int)
    ensures i >= -1
    ensures i >= 0 ==> OccursAt(s, pat, i) && forall k :: 0 <= k < i ==> !OccursAt(s, pat, k)
    ensures i == -1 ==> forall k :: !OccursAt(s, pat, k)
  {
    if |pat| > |s| then -1
    else if s[..|pat|] == pat then 0
    else
      var j := IndexOf(s[1..], pat);
      forall k | 1 <= k
        ensures OccursAt(s, pat, k) <==> OccursAt(s[1..], pat, k - 1)
      {
        if k + |pat| <= |s| {
          assert s[1..][k - 1..k - 1 + |pat|] == s[k..k + |pat|];
        }
      }
      assert !OccursAt(s, pat, 0);
      if j < 0 then -1 else j + 1
  }

  /** `s.replace(pat, rep)` with a string pattern: only the first occurrence is replaced. */
  function ReplaceFirst(s: string, pat: string, rep: string): (r: string)
  {
    var i := IndexOf(s, pat);
    if i < 0 then s else s[..i] + rep + s[i + |pat|..]
  }

  /** `unescape`: five first-occurrence replacements, in this order. */
  function Unescaped(s: string): string
  {
    ReplaceFirst(ReplaceFirst(ReplaceFirst(ReplaceFirst(ReplaceFirst(
      s, "\\n", "\n"), "\\r", "\r"), "\\'", "'"), "\\\"", "\""), "\\\\", "\\")
  }

  /** The characters `String.prototype.trim` removes: white space and line terminators. */
  predicate IsTrimmable(c: char)
  {
    c == ' ' || c == '\t' || c == '\n' || c == '\r' || c == '\U{B}' || c == '\U{C}'
    || c == '\U{A0}' || c == '\U{1680}' || ('\U{2000}' <= c <= '\U{200A}')
    || c == '\U{2028}' || c == '\U{2029}' || c == '\U{202F}' || c == '\U{205F}'
    || c == '\U{3000}' || c == '\U{FEFF}'
  }

  /** `s` without its leading trimmable characters. */
  function TrimStart(s: string): string
  {
    if s != [] && IsTrimmable(s[0]) then TrimStart(s[1..]) else s
  }

  /** `s` without its trailing trimmable characters. */
  function TrimEnd(s: string): string
  {
    if s != [] && IsTrimmable(s[|s| - 1]) then TrimEnd(s[..|s| - 1]) else s
  }

  /** `String.prototype.trim`. */
  function Trim(s: string): string
  {
    TrimEnd(TrimStart(s))
  }
}
