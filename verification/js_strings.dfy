/**
 * The handful of JavaScript string operations the find bar and the accent
 * colours rely on: `toLowerCase`, `startsWith`, `indexOf`, `trim`, the
 * relational `<` on strings, `substr` and `replace` of a single character.
 */
module JsStrings {

  // ---------------------------------------------------------------------------
  // toLowerCase (ASCII letters; every other character is left alone)

  function LowerChar(c: char): (r: char)
    ensures 'A' <= c <= 'Z' ==> 'a' <= r <= 'z' && r as int - 'a' as int == c as int - 'A' as int
    ensures !('A' <= c <= 'Z') ==> r == c
  {
    if 'A' <= c <= 'Z' then (c as int + 32) as char else c
  }

  /** `s.toLowerCase()`: same length, every character lowered on its own. */
  function Lower(s: string): (r: string)
    ensures |r| == |s|
    ensures forall k :: 0 <= k < |s| ==> r[k] == LowerChar(s[k])
  {
    seq(|s|, k requires 0 <= k < |s| => LowerChar(s[k]))
  }

  /** Lowering twice is lowering once: a lowered query compares equal to a lowered key. */
  lemma {:induction false} LowerIdempotent(s: string)
    ensures Lower(Lower(s)) == Lower(s)
  {
  }

  /** Lowering commutes with slicing, so a match in the lowered text is a match of the lowered slice. */
  lemma {:induction false} LowerSlice(s: string, i: nat, j: nat)
    requires i <= j <= |s|
    ensures Lower(s)[i..j] == Lower(s[i..j])
  {
  }

  // ---------------------------------------------------------------------------
  // startsWith

  predicate StartsWith(s: string, prefix: string) {
    |prefix| <= |s| && s[..|prefix|] == prefix
  }

  // ---------------------------------------------------------------------------
  // indexOf

  /** `q` occurs in `s` starting at index `i`. */
  ghost predicate OccursAt(s: string, q: string, i: int) {
    0 <= i && i + |q| <= |s| && s[i..i + |q|] == q
  }

  /** `q` is a substring of `s`. */
  ghost predicate Contains(s: string, q: string) {
    exists i :: OccursAt(s, q, i)
  }

  function IndexOfFrom(s: string, q: string, from: nat): (r: int)
    decreases |s| - from
    ensures r == -1 || (from <= r && OccursAt(s, q, r))
    ensures r == -1 ==> forall i :: from <= i ==> !OccursAt(s, q, i)
    ensures r != -1 ==> forall i :: from <= i < r ==> !OccursAt(s, q, i)
  {
    if from + |q| > |s| then -1
    else if s[from..from + |q|] == q then from
    else IndexOfFrom(s, q, from + 1)
  }

  /** `s.indexOf(q)`: the first position where `q` occurs, or -1 when it does not occur. */
  function IndexOf(s: string, q: string): (r: int)
    ensures r >= -1
    ensures r >= 0 <==> Contains(s, q)
    ensures r >= 0 ==> OccursAt(s, q, r) && forall i :: 0 <= i < r ==> !OccursAt(s, q, i)
  {
    IndexOfFrom(s, q, 0)
  }

  // ---------------------------------------------------------------------------
  // trim

  /** The ECMAScript WhiteSpace and LineTerminator characters that `trim` removes. */
  predicate IsJsSpace(c: char) {
    || c == ' ' || c == '\t' || c == '\n' || c == '\r' || c == '\U{000B}' || c == '\U{000C}'
    || c == '\U{00A0}' || c == '\U{1680}' || ('\U{2000}' <= c <= '\U{200A}')
    || c == '\U{2028}' || c == '\U{2029}' || c == '\U{202F}' || c == '\U{205F}'
    || c == '\U{3000}' || c == '\U{FEFF}'
  }

  ghost predicate AllSpace(s: string) {
    forall k :: 0 <= k < |s| ==> IsJsSpace(s[k])
  }

  /** Drops the leading white space: the result is the suffix that starts at the first non-space. */
  function TrimStart(s: string): (r: string)
    ensures |r| <= |s| && r == s[|s| - |r|..]
    ensures AllSpace(s[..|s| - |r|])
    ensures r != [] ==> !IsJsSpace(r[0])
  {
    if |s| > 0 && IsJsSpace(s[0]) then
      var r := TrimStart(s[1..]);
      assert s[..|s| - |r|] == [s[0]] + s[1..][..|s| - 1 - |r|];
      r
    else s
  }

  lemma {:induction false} TrimStartNoLeadingSpace(s: string)
    requires |s| == 0 || !IsJsSpace(s[0])
    ensures TrimStart(s) == s
  {
  }

  /** Drops the trailing white space: the result is the prefix that ends at the last non-space. */
  function TrimEnd(s: string): (r: string)
    ensures |r| <= |s| && r == s[..|r|]
    ensures AllSpace(s[|r|..])
    ensures r != [] ==> !IsJsSpace(r[|r| - 1])
  {
    if |s| > 0 && IsJsSpace(s[|s| - 1]) then
      var r := TrimEnd(s[..|s| - 1]);
      assert s[|r|..] == s[..|s| - 1][|r|..] + [s[|s| - 1]];
      r
    else s
  }

  lemma {:induction false} TrimmedSlice(s: string, t: string, r: string)
    requires |t| <= |s| && t == s[|s| - |t|..] && AllSpace(s[..|s| - |t|])
    requires |r| <= |t| && r == t[..|r|] && AllSpace(t[|r|..])
    ensures var i := |s| - |t|; i + |r| <= |s| && r == s[i..i + |r|] && AllSpace(s[..i]) && AllSpace(s[i + |r|..])
  {
    var i := |s| - |t|;
    assert r == s[i..i + |r|];
    assert s[i + |r|..] == t[|r|..];
  }

  /** `s.trim()`: the slice of `s` left after removing white space at both ends. */
  function Trim(s: string): (r: string)
    ensures |r| <= |s|
    ensures exists i :: 0 <= i <= |s| - |r| && r == s[i..i + |r|] && AllSpace(s[..i]) && AllSpace(s[i + |r|..])
    ensures r != [] ==> !IsJsSpace(r[0]) && !IsJsSpace(r[|r| - 1])
  {
    var t := TrimStart(s);
    var r := TrimEnd(t);
    TrimmedSlice(s, t, r);
    r
  }

  // ---------------------------------------------------------------------------
  // The relational `<` on strings: lexicographic order of the characters

  predicate LexLess(a: string, b: string)
    decreases |a|
  {
    if |a| == 0 then |b| > 0
    else if |b| == 0 then false
    else if a[0] != b[0] then a[0] < b[0]
    else LexLess(a[1..], b[1..])
  }

  lemma {:induction false} LexLessIrreflexive(a: string)
    ensures !LexLess(a, a)
    decreases |a|
  {
    if |a| > 0 {
      LexLessIrreflexive(a[1..]);
    }
  }

  lemma {:induction false} LexLessTransitive(a: string, b: string, c: string)
    requires LexLess(a, b) && LexLess(b, c)
    ensures LexLess(a, c)
    decreases |a|
  {
    if |a| > 0 && |b| > 0 && |c| > 0 && a[0] == b[0] == c[0] {
      LexLessTransitive(a[1..], b[1..], c[1..]);
    }
  }

  /** Any two strings are ordered one way or the other, or are equal. */
  lemma {:induction false} LexLessTrichotomy(a: string, b: string)
    ensures LexLess(a, b) || a == b || LexLess(b, a)
    decreases |a|
  {
    if |a| > 0 && |b| > 0 && a[0] == b[0] {
      LexLessTrichotomy(a[1..], b[1..]);
      if a[1..] == b[1..] {
        assert a == [a[0]] + a[1..] && b == [b[0]] + b[1..];
      }
    }
  }

  lemma {:induction false} LexLessAsymmetric(a: string, b: string)
    requires LexLess(a, b)
    ensures !LexLess(b, a)
  {
    if LexLess(b, a) {
      LexLessTransitive(a, b, a);
      LexLessIrreflexive(a);
    }
  }

  // ---------------------------------------------------------------------------
  // substr and replace

  function Min(a: int, b: int): int {
    if a <= b then a else b
  }

  /** `s.substr(start, len)` for non-negative arguments: both ends are clamped to the string. */
  function Substr(s: string, start: nat, len: nat): (r: string)
    ensures |r| <= len
    ensures start + len <= |s| ==> r == s[start..start + len]
    ensures start >= |s| ==> r == []
  {
    s[Min(start, |s|)..Min(start + len, |s|)]
  }

  /** The position of the first `c` in `s`. */
  function CharIndex(s: string, c: char): (i: nat)
    requires c in s
    ensures i < |s| && s[i] == c && c !in s[..i]
  {
    if s[0] == c then 0
    else
      var i := CharIndex(s[1..], c);
      assert s[..i + 1] == [s[0]] + s[1..][..i];
      i + 1
  }

  /** `s.replace(c, '')` with a one-character pattern: only the first occurrence is removed. */
  function RemoveFirst(s: string, c: char): (r: string)
    ensures c !in s ==> r == s
    ensures c in s ==> exists i :: 0 <= i < |s| && s[i] == c && c !in s[..i] && r == s[..i] + s[i + 1..]
  {
    if c in s then
      var i := CharIndex(s, c);
      s[..i] + s[i + 1..]
    else s
  }
}
