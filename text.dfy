/**
 * The string operations the page script borrows from the JavaScript runtime:
 * `toLowerCase`, `includes`, `trim` and `localeCompare`.
 *
 * Strings are sequences of Unicode scalar values. Lower-casing is modelled on
 * the ASCII letters only, and `localeCompare` as a lexicographic comparison of
 * code points; the proofs about sorting use only the order laws proved here
 * (LocaleCompareAntisymmetric, LocaleCompareTransitive).
 */
module Text {

  // ---------------------------------------------------------------------------
  // toLowerCase

  /** An upper-case ASCII letter becomes its lower-case letter, 32 code
      points on; every other character is kept. */
  function LowerChar(c: char): (r: char)
    ensures !('A' <= r <= 'Z')
    ensures 'A' <= c <= 'Z' ==> r as int == c as int + 32
    ensures !('A' <= c <= 'Z') ==> r == c
  {
    if 'A' <= c <= 'Z' then (c as int + 32) as char else c
  }

  /** `s.toLowerCase()`, restricted to ASCII letters. */
  function Lower(s: string): (r: string)
    ensures |r| == |s|
    ensures forall i :: 0 <= i < |s| ==> r[i] == LowerChar(s[i])
    ensures forall i :: 0 <= i < |r| ==> !('A' <= r[i] <= 'Z')
  {
    seq(|s|, i requires 0 <= i < |s| => LowerChar(s[i]))
  }

  /** `c` and `d` are the same character up to ASCII letter case. */
  predicate CaseVariant(c: char, d: char) {
    || c == d
    || ('A' <= c <= 'Z' && d as int == c as int + 32)
    || ('A' <= d <= 'Z' && c as int == d as int + 32)
  }

  /** `s` and `t` spell the same text up to ASCII letter case. */
  predicate SameIgnoringCase(s: string, t: string) {
    |s| == |t| && forall i :: 0 <= i < |s| ==> CaseVariant(s[i], t[i])
  }

  /** Lower-casing erases exactly the difference in letter case: strings that
      differ only in case lower-case to the same string. */
  lemma LowerIgnoresCase(s: string, t: string)
    requires SameIgnoringCase(s, t)
    ensures Lower(s) == Lower(t)
  {
    forall i | 0 <= i < |s|
      ensures Lower(s)[i] == Lower(t)[i]
    {
      assert CaseVariant(s[i], t[i]);
    }
  }

  lemma LowerIdempotent(s: string)
    ensures Lower(Lower(s)) == Lower(s)
  {
    var l := Lower(s);
    assert forall i :: 0 <= i < |l| ==> LowerChar(l[i]) == l[i];
  }

  /** Lower-casing commutes with taking a slice. */
  lemma LowerSlice(s: string, i: int, j: int)
    requires 0 <= i <= j <= |s|
    ensures Lower(s)[i..j] == Lower(s[i..j])
  {
  }

  // ---------------------------------------------------------------------------
  // includes

  /** `n` occurs in `h` starting at position `i`. */
  predicate OccursAt(h: string, n: string, i: int) {
    0 <= i <= |h| - |n| && h[i..i + |n|] == n
  }

  /** `h.includes(n)`: `n` occurs as a contiguous piece of `h`; never when
      `n` is the longer string. */
  predicate Contains(h: string, n: string): (b: bool)
    ensures b ==> |n| <= |h|
  {
    exists i | 0 <= i <= |h| - |n| :: OccursAt(h, n, i)
  }

  /** Every contiguous piece of `h` is included in it. */
  lemma ContainsPiece(h: string, i: int, j: int)
    requires 0 <= i <= j <= |h|
    ensures Contains(h, h[i..j])
  {
    assert OccursAt(h, h[i..j], i);
  }

  /** `n` occurs in `h` at position `i` up to letter case. */
  predicate OccursAtIgnoringCase(h: string, n: string, i: int) {
    0 <= i <= |h| - |n| && SameIgnoringCase(h[i..i + |n|], n)
  }

  /** If `n` occurs in `h` up to letter case, then the lower-cased `n` is
      included in the lower-cased `h`: a case-insensitive match. */
  lemma ContainsLowerIgnoringCase(h: string, n: string, i: int)
    requires OccursAtIgnoringCase(h, n, i)
    ensures Contains(Lower(h), Lower(n))
  {
    LowerIgnoresCase(h[i..i + |n|], n);
    LowerSlice(h, i, i + |n|);
    assert OccursAt(Lower(h), Lower(n), i);
  }

  /** Every string includes the empty string. */
  lemma ContainsEmpty(h: string)
    ensures Contains(h, "")
  {
    assert OccursAt(h, "", 0);
  }

  /** An occurrence survives lower-casing both sides, so a case-insensitive
      match finds at least what an exact match finds. */
  lemma ContainsLower(h: string, n: string)
    requires Contains(h, n)
    ensures Contains(Lower(h), Lower(n))
  {
    var i :| 0 <= i <= |h| - |n| && OccursAt(h, n, i);
    LowerSlice(h, i, i + |n|);
    assert OccursAt(Lower(h), Lower(n), i);
  }

  // ---------------------------------------------------------------------------
  // trim

  /** The characters `String.prototype.trim` removes: WhiteSpace and
      LineTerminator of ECMA-262 (section 12.2 and 12.3 of ECMA-262, 2023). */
  predicate IsWhitespace(c: char) {
    c == '\t' || c == '\n' || c == '\U{000B}' || c == '\U{000C}' || c == '\r' || c == ' '
    || c == '\U{00A0}' || c == '\U{1680}' || ('\U{2000}' <= c <= '\U{200A}')
    || c == '\U{2028}' || c == '\U{2029}' || c == '\U{202F}' || c == '\U{205F}'
    || c == '\U{3000}' || c == '\U{FEFF}'
  }

  predicate AllWhitespace(s: string) {
    forall i :: 0 <= i < |s| ==> IsWhitespace(s[i])
  }

  /** Neither end of `s` is whitespace (the empty string included). */
  predicate Trimmed(s: string) {
    s == [] || (!IsWhitespace(s[0]) && !IsWhitespace(s[|s| - 1]))
  }

  /** Where the run of whitespace starting at `i` ends. */
  function RunEnd(s: string, i: nat): (j: nat)
    requires i <= |s|
    ensures i <= j <= |s|
    ensures forall k :: i <= k < j ==> IsWhitespace(s[k])
    ensures j == |s| || !IsWhitespace(s[j])
    decreases |s| - i
  {
    if i < |s| && IsWhitespace(s[i]) then RunEnd(s, i + 1) else i
  }

  /** Where the run of whitespace ending at `j` starts. */
  function RunStart(s: string, j: nat): (i: nat)
    requires j <= |s|
    ensures i <= j
    ensures forall k :: i <= k < j ==> IsWhitespace(s[k])
    ensures i == 0 || !IsWhitespace(s[i - 1])
  {
    if j > 0 && IsWhitespace(s[j - 1]) then RunStart(s, j - 1) else j
  }

  /** A run of whitespace from `i` to `j` that stops at a non-whitespace
      character or at the end is the run `RunEnd` finds. */
  lemma RunEndAt(s: string, i: nat, j: nat)
    requires i <= j <= |s|
    requires forall k :: i <= k < j ==> IsWhitespace(s[k])
    requires j == |s| || !IsWhitespace(s[j])
    ensures RunEnd(s, i) == j
  {
  }

  /** A run of whitespace from `i` to `j` that starts after a non-whitespace
      character or at the start is the run `RunStart` finds. */
  lemma RunStartAt(s: string, i: nat, j: nat)
    requires i <= j <= |s|
    requires forall k :: i <= k < j ==> IsWhitespace(s[k])
    requires i == 0 || !IsWhitespace(s[i - 1])
    ensures RunStart(s, j) == i
  {
  }

  /** Drop the leading whitespace: the result is a suffix of `s`, what was
      dropped is all whitespace, and the result does not start with any. */
  function TrimStart(s: string): (r: string)
    ensures |r| <= |s| && r == s[|s| - |r|..]
    ensures AllWhitespace(s[..|s| - |r|])
    ensures r == [] || !IsWhitespace(r[0])
  {
    s[RunEnd(s, 0)..]
  }

  /** Drop the trailing whitespace: the result is a prefix of `s`, what was
      dropped is all whitespace, and the result does not end with any. */
  function TrimEnd(s: string): (r: string)
    ensures |r| <= |s| && r == s[..|r|]
    ensures AllWhitespace(s[|r|..])
    ensures r == [] || !IsWhitespace(r[|r| - 1])
  {
    s[..RunStart(s, |s|)]
  }

  /** `s.trim()`: whitespace removed from both ends. */
  function Trim(s: string): (r: string)
    ensures Trimmed(r) && |r| <= |s|
  {
    TrimEnd(TrimStart(s))
  }

  /** What `trim` removes is whitespace, and what it keeps is one piece of
      `s`: `s` is whitespace, then the result, then whitespace. */
  lemma TrimDecomposition(s: string)
    ensures var r, i := Trim(s), |s| - |TrimStart(s)|;
      && 0 <= i <= |s| - |r| && s[i..i + |r|] == r
      && AllWhitespace(s[..i]) && AllWhitespace(s[i + |r|..])
  {
    var t := TrimStart(s);
    var r := TrimEnd(t);
    PrefixOfSuffix(s, t, r);
  }

  /** A prefix `r` of a suffix `t` of `s` is a piece of `s`, and what follows
      `r` in `t` is what follows it in `s`. */
  lemma PrefixOfSuffix<T>(s: seq<T>, t: seq<T>, r: seq<T>)
    requires |t| <= |s| && t == s[|s| - |t|..]
    requires |r| <= |t| && r == t[..|r|]
    ensures s[|s| - |t|..|s| - |t| + |r|] == r
    ensures s[|s| - |t| + |r|..] == t[|r|..]
  {
  }

  /** Leading whitespace in front of text that does not start with any is
      exactly what `TrimStart` drops. */
  lemma TrimStartPadded(pre: string, rest: string)
    requires AllWhitespace(pre)
    requires rest == [] || !IsWhitespace(rest[0])
    ensures TrimStart(pre + rest) == rest
  {
    RunEndAt(pre + rest, 0, |pre|);
  }

  /** Trailing whitespace after text that does not end with any is exactly
      what `TrimEnd` drops. */
  lemma TrimEndPadded(rest: string, post: string)
    requires AllWhitespace(post)
    requires rest == [] || !IsWhitespace(rest[|rest| - 1])
    ensures TrimEnd(rest + post) == rest
  {
    RunStartAt(rest + post, |rest|, |rest + post|);
  }

  /** Surrounding a non-empty trimmed string with whitespace on both sides
      and trimming gives it back. */
  lemma TrimPadded(pre: string, k: string, post: string)
    requires AllWhitespace(pre) && AllWhitespace(post)
    requires k != [] && Trimmed(k)
    ensures Trim(pre + k + post) == k
  {
    assert pre + k + post == pre + (k + post);
    TrimStartPadded(pre, k + post);
    TrimEndPadded(k, post);
  }

  lemma TrimIdempotent(s: string)
    ensures Trim(Trim(s)) == Trim(s)
  {
    var t := Trim(s);
    TrimStartPadded([], t);
    TrimEndPadded(t, []);
    assert [] + t == t && t + [] == t;
  }

  // ---------------------------------------------------------------------------
  // localeCompare

  /** `a.localeCompare(b)`: negative, zero or positive as `a` sorts before,
      together with, or after `b`; zero exactly for equal strings. */
  function LocaleCompare(a: string, b: string): (r: int)
    ensures -1 <= r <= 1
    ensures r == 0 <==> a == b
  {
    if a == [] && b == [] then 0
    else if a == [] then -1
    else if b == [] then 1
    else if a[0] < b[0] then -1
    else if a[0] > b[0] then 1
    else
      var r := LocaleCompare(a[1..], b[1..]);
      assert r == 0 ==> a == [a[0]] + a[1..] && b == [b[0]] + b[1..];
      r
  }

  /** Swapping the operands flips the sign. */
  lemma {:induction false} LocaleCompareAntisymmetric(a: string, b: string)
    ensures LocaleCompare(a, b) == -LocaleCompare(b, a)
  {
    if a != [] && b != [] && a[0] == b[0] {
      LocaleCompareAntisymmetric(a[1..], b[1..]);
    }
  }

  /** "Sorts no later than" is transitive. */
  lemma {:induction false} LocaleCompareTransitive(a: string, b: string, c: string)
    requires LocaleCompare(a, b) <= 0 && LocaleCompare(b, c) <= 0
    ensures LocaleCompare(a, c) <= 0
  {
    if a != [] && b != [] && c != [] && a[0] == b[0] && b[0] == c[0] {
      LocaleCompareTransitive(a[1..], b[1..], c[1..]);
    }
  }
}
