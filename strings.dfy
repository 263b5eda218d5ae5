/** The JavaScript string operations the commands use: `indexOf`, a
    `replace` anchored at the start, and `trim`. */
module Strings {

  /** `sub` occurs in `s` at position `k`. */
  predicate OccursAt(s: string, sub: string, k: int)
  {
    0 <= k && k + |sub| <= |s| && s[k..k + |sub|] == sub
  }

  /** The first position at or after `from` where `sub` occurs, or -1; for
      `from == 0` this is `s.indexOf(sub)`, with positions counted in
      characters. */
  function IndexOfFrom(s: string, sub: string, from: nat): (i: int)
    ensures i == -1 || (from <= i && OccursAt(s, sub, i))
    ensures forall k :: from <= k && (i == -1 || k < i) ==> !OccursAt(s, sub, k)
    decreases |s| - from
  {
    if from + |sub| > |s| then -1
    else if s[from..from + |sub|] == sub then from
    else IndexOfFrom(s, sub, from + 1)
  }

  /** `s.indexOf(sub)`: the first position where `sub` occurs, or -1. */
  function IndexOf(s: string, sub: string): (i: int)
    ensures i == -1 || OccursAt(s, sub, i)
    ensures forall k :: 0 <= k && (i == -1 || k < i) ==> !OccursAt(s, sub, k)
  {
    IndexOfFrom(s, sub, 0)
  }

  /** `sub` occurs somewhere in `s`. */
  predicate Contains(s: string, sub: string)
  {
    exists k :: 0 <= k <= |s| - |sub| && OccursAt(s, sub, k)
  }

  /** `s.indexOf(sub) > -1` exactly when `sub` occurs in `s`. */
  lemma IndexOfFound(s: string, sub: string)
    ensures IndexOf(s, sub) > -1 <==> Contains(s, sub)
  {
    if IndexOf(s, sub) == -1 {
      assert forall k :: 0 <= k ==> !OccursAt(s, sub, k);
    }
  }

  /** An occurrence of `sub` begins with its first three characters. */
  lemma OccurrenceStartsWith(s: string, sub: string, k: int)
    requires |sub| >= 3
    ensures OccursAt(s, sub, k) ==> s[k] == sub[0] && s[k + 1] == sub[1] && s[k + 2] == sub[2]
  {
    if OccursAt(s, sub, k) {
      var w := s[k..k + |sub|];
      assert w[0] == s[k] && w[1] == s[k + 1] && w[2] == s[k + 2];
    }
  }

  /** `sub` does not occur in `s` when its first three characters never
      occur in a row in `s`. */
  lemma NotContainsWithoutLeadingTriple(s: string, sub: string)
    requires |sub| >= 3
    requires forall k :: 0 <= k && k + 2 < |s| ==>
      !(s[k] == sub[0] && s[k + 1] == sub[1] && s[k + 2] == sub[2])
    ensures !Contains(s, sub)
  {
    forall k | 0 <= k ensures !OccursAt(s, sub, k) {
      OccurrenceStartsWith(s, sub, k);
    }
  }

  /** `sub` does not occur in `s` when its first character does not. */
  lemma NotContainsWithoutFirstChar(s: string, sub: string)
    requires |sub| >= 1
    requires forall k :: 0 <= k < |s| ==> s[k] != sub[0]
    ensures !Contains(s, sub)
  {
    forall k | 0 <= k ensures !OccursAt(s, sub, k) {
      assert k + |sub| <= |s| ==> s[k..k + |sub|][0] == s[k];
    }
  }

  /** `sub` occurs in any string it starts. */
  lemma ContainsPrefix(s: string, sub: string)
    requires sub <= s
    ensures Contains(s, sub)
  {
    assert OccursAt(s, sub, 0);
  }

  /** `s.replace(/^prefix/, '')` for a prefix without regular-expression
      metacharacters: only a leading occurrence is removed. */
  function StripPrefix(s: string, prefix: string): (r: string)
    ensures prefix <= s ==> prefix + r == s
    ensures !(prefix <= s) ==> r == s
  {
    if prefix <= s then s[|prefix|..] else s
  }

  /** The characters `String.prototype.trim` removes: ECMAScript's
      WhiteSpace (tab, vertical tab, form feed, space, no-break space, byte
      order mark and the Unicode space separators) and LineTerminator (line
      feed, carriage return, line and paragraph separators). */
  predicate IsJsWhitespace(c: char)
  {
    var n := c as int;
    n == 0x09 || n == 0x0A || n == 0x0B || n == 0x0C || n == 0x0D || n == 0x20 ||
    n == 0xA0 || n == 0x1680 || (0x2000 <= n <= 0x200A) || n == 0x2028 || n == 0x2029 ||
    n == 0x202F || n == 0x205F || n == 0x3000 || n == 0xFEFF
  }

  predicate AllWhitespace(s: string)
  {
    forall i :: 0 <= i < |s| ==> IsJsWhitespace(s[i])
  }

  /** `s.trimStart()`: the suffix left after the leading whitespace. */
  function TrimStart(s: string): (r: string)
    ensures |r| <= |s| && r == s[|s| - |r|..]
    ensures AllWhitespace(s[..|s| - |r|])
    ensures r != [] ==> !IsJsWhitespace(r[0])
    decreases |s|
  {
    if s != [] && IsJsWhitespace(s[0]) then
      var r := TrimStart(s[1..]);
      assert s[..|s| - |r|] == [s[0]] + s[1..][..|s| - 1 - |r|];
      r
    else s
  }

  /** `s.trimEnd()`: the prefix left after the trailing whitespace. */
  function TrimEnd(s: string): (r: string)
    ensures |r| <= |s| && r == s[..|r|]
    ensures AllWhitespace(s[|r|..])
    ensures r != [] ==> !IsJsWhitespace(r[|r| - 1])
    decreases |s|
  {
    if s != [] && IsJsWhitespace(s[|s| - 1]) then
      var r := TrimEnd(s[..|s| - 1]);
      assert s[|r|..] == s[..|s| - 1][|r|..] + [s[|s| - 1]];
      r
    else s
  }

  /** `s.trim()`: what is left of `s` between its leading and its trailing
      whitespace. */
  function Trim(s: string): (r: string)
    ensures |r| <= |s|
    ensures r != [] ==> !IsJsWhitespace(r[0]) && !IsJsWhitespace(r[|r| - 1])
    ensures exists i, j :: 0 <= i <= j <= |s| && r == s[i..j] && AllWhitespace(s[..i]) && AllWhitespace(s[j..])
  {
    var t := TrimStart(s);
    var u := TrimEnd(t);
    WhitespaceBothEnds(s, t, u);
    u
  }

  /** A prefix `u` of a suffix `t` of `s`, with only whitespace cut off on
      either side, is a slice of `s` between two runs of whitespace. */
  lemma WhitespaceBothEnds(s: string, t: string, u: string)
    requires |t| <= |s| && t == s[|s| - |t|..] && AllWhitespace(s[..|s| - |t|])
    requires |u| <= |t| && u == t[..|u|] && AllWhitespace(t[|u|..])
    ensures exists i, j :: 0 <= i <= j <= |s| && u == s[i..j] && AllWhitespace(s[..i]) && AllWhitespace(s[j..])
  {
    var i := |s| - |t|;
    var j := i + |u|;
    assert u == s[i..j];
    assert t[|u|..] == s[j..];
  }

  /** `s.trim().length > 0` exactly when `s` holds a character that is not
      whitespace. */
  lemma TrimEmptyIff(s: string)
    ensures |Trim(s)| == 0 <==> AllWhitespace(s)
  {
    var t := TrimStart(s);
    var u := TrimEnd(t);
    if u == [] {
      assert t == t[|u|..];
      assert AllWhitespace(t);
      assert s == s[..|s| - |t|];
    } else {
      assert u[0] == t[0];
      assert t[0] == s[|s| - |t|];
    }
  }
}
