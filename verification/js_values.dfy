/** The few JavaScript value and string operations the modelled code relies on. */
module JsValues {

  /** A JavaScript number as `Number.isFinite` sees it: a finite value, or one of
      NaN, +Infinity and -Infinity, which every guard in the program treats alike. */
  datatype JsNum = Finite(v: real) | NonFinite

  /** The code points that `String.prototype.trim` removes: the ECMAScript
      WhiteSpace set (tab, vertical tab, form feed, space, NBSP, BOM and the
      Unicode space separators) and the LineTerminator set. */
  predicate IsSpace(c: char) {
    c == ' ' || c == '\t' || c == '\n' || c == '\r' || c == '\U{0B}' || c == '\U{0C}'
    || c == '\U{A0}' || c == '\U{FEFF}' || c == '\U{2028}' || c == '\U{2029}'
    || c == '\U{1680}' || ('\U{2000}' <= c <= '\U{200A}')
    || c == '\U{202F}' || c == '\U{205F}' || c == '\U{3000}'
  }

  predicate AllSpace(s: string) {
    forall i :: 0 <= i < |s| ==> IsSpace(s[i])
  }

  /** `r` is the slice of `s` at `i`, with only white space before and after it. */
  predicate SpaceAround(s: string, r: string, i: int) {
    0 <= i <= |s| - |r| && r == s[i..i + |r|] && AllSpace(s[..i]) && AllSpace(s[i + |r|..])
  }

  /** `a` is what is left of `s` after cutting off some leading white space. */
  predicate CutBefore(s: string, a: string) {
    |a| <= |s| && a == s[|s| - |a|..] && AllSpace(s[..|s| - |a|])
  }

  /** `r` is what is left of `a` after cutting off some trailing white space. */
  predicate CutAfter(a: string, r: string) {
    |r| <= |a| && r == a[..|r|] && AllSpace(a[|r|..])
  }

  function TrimStart(s: string): (r: string)
    ensures CutBefore(s, r)
    ensures |r| > 0 ==> !IsSpace(r[0])
  {
    if |s| > 0 && IsSpace(s[0]) then TrimStart(s[1..]) else s
  }

  function TrimEnd(s: string): (r: string)
    ensures CutAfter(s, r)
    ensures |r| > 0 ==> !IsSpace(r[|r| - 1])
  {
    if |s| > 0 && IsSpace(s[|s| - 1]) then TrimEnd(s[..|s| - 1]) else s
  }

  /** `String.prototype.trim`: `s` without its leading and trailing white space.
      It is the slice of `s` between an all-space prefix and an all-space
      suffix, empty exactly when `s` is all white space, and it leaves a string
      that neither starts nor ends with white space unchanged. */
  function Trim(s: string): (r: string)
    ensures |r| <= |s|
    ensures exists i :: SpaceAround(s, r, i)
    ensures |r| > 0 ==> !IsSpace(r[0]) && !IsSpace(r[|r| - 1])
    ensures r == [] <==> AllSpace(s)
    ensures (|s| == 0 || (!IsSpace(s[0]) && !IsSpace(s[|s| - 1]))) ==> r == s
  {
    var a := TrimStart(s);
    var r := TrimEnd(a);
    SpaceAroundOf(s, a, r);
    TrimEmptyIffBlank(s, a, r);
    r
  }

  /** A suffix `a` of `s` after white space, and a prefix `r` of `a` before
      white space, is a slice of `s` with only white space around it. */
  lemma SpaceAroundOf(s: string, a: string, r: string)
    requires CutBefore(s, a) && CutAfter(a, r)
    ensures SpaceAround(s, r, |s| - |a|)
  {
    SliceOfSuffix(s, |s| - |a|, |r|);
  }

  /** Cutting a suffix of `s` at `n` is cutting `s` at `i + n`. */
  lemma SliceOfSuffix<T>(s: seq<T>, i: int, n: int)
    requires 0 <= i <= |s| && 0 <= n <= |s| - i
    ensures s[i..][..n] == s[i..i + n] && s[i..][n..] == s[i + n..]
  {
  }

  /** Trimming both ends leaves nothing exactly when everything is white space. */
  lemma TrimEmptyIffBlank(s: string, a: string, r: string)
    requires a == TrimStart(s) && r == TrimEnd(a)
    ensures r == [] <==> AllSpace(s)
  {
    if r == [] {
      TrimEmptyMeansBlank(s, a);
    } else {
      assert r[0] == a[0] == s[|s| - |a|];
    }
  }

  /** When nothing is left after trimming the end, nothing was left after
      trimming the start either, so the whole string was white space. */
  lemma TrimEmptyMeansBlank(s: string, a: string)
    requires a == TrimStart(s) && TrimEnd(a) == []
    ensures AllSpace(s)
  {
    assert AllSpace(a) by {
      assert a[|TrimEnd(a)|..] == a;
    }
    assert a == [];
    assert s[..|s|] == s;
  }

  /** ASCII upper-case letters map to lower case; every other character is kept. */
  function LowerChar(c: char): char {
    if 'A' <= c <= 'Z' then (c as int - 'A' as int + 'a' as int) as char else c
  }

  /** `String.prototype.toLowerCase`, restricted to ASCII letters. */
  function Lower(s: string): (r: string)
    ensures |r| == |s|
    ensures forall i :: 0 <= i < |s| ==> r[i] == LowerChar(s[i])
  {
    if s == [] then [] else [LowerChar(s[0])] + Lower(s[1..])
  }

  predicate StartsWith(s: string, prefix: string) {
    |prefix| <= |s| && s[..|prefix|] == prefix
  }

  /** `String.prototype.includes`: `sub` occurs somewhere in `s`. */
  predicate Contains(s: string, sub: string) {
    StartsWith(s, sub) || (|s| > 0 && Contains(s[1..], sub))
  }
}
