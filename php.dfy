/**
 * The pieces of PHP's own semantics the controller relies on: `trim`, the
 * boolean conversion of strings, the null-coalescing operator `??` and the
 * loose comparison `==` against a non-numeric string literal.
 */
module Php {
  import opened Wrappers

  /** The characters `trim` strips by default: space, tab, line feed, carriage return, NUL, vertical tab. */
  predicate Stripped(c: char)
  {
    c == ' ' || c == '\t' || c == '\n' || c == '\r' || c == '\0' || c == '\U{000B}'
  }

  /** True iff every character of `s` at an index in [lo, hi) is one `trim` strips. */
  predicate BlankBetween(s: string, lo: int, hi: int)
    requires 0 <= lo <= hi <= |s|
  {
    forall i :: lo <= i < hi ==> Stripped(s[i])
  }

  /** True iff every character of `s` is one `trim` strips. */
  predicate Blank(s: string)
  {
    BlankBetween(s, 0, |s|)
  }

  /** The index of the first character at or after `i` that `trim` keeps, or `|s|`. */
  function SkipLeading(s: string, i: nat): (k: nat)
    requires i <= |s|
    ensures i <= k <= |s|
    ensures BlankBetween(s, i, k)
    ensures k < |s| ==> !Stripped(s[k])
    decreases |s| - i
  {
    if i < |s| && Stripped(s[i]) then SkipLeading(s, i + 1) else i
  }

  /** The index just past the last character before `j`, and not before `lo`, that `trim` keeps, or `lo`. */
  function SkipTrailing(s: string, lo: nat, j: nat): (k: nat)
    requires lo <= j <= |s|
    ensures lo <= k <= j
    ensures BlankBetween(s, k, j)
    ensures lo < k ==> !Stripped(s[k - 1])
  {
    if lo < j && Stripped(s[j - 1]) then SkipTrailing(s, lo, j - 1) else j
  }

  /**
   * `trim`: `s` with its blank prefix and blank suffix cut off; empty exactly
   * when `s` is blank.
   */
  function Trim(s: string): (r: string)
    ensures |r| <= |s|
    ensures r == [] <==> Blank(s)
    ensures r != [] ==> !Stripped(r[0]) && !Stripped(r[|r| - 1])
    ensures exists a, b :: 0 <= a <= b <= |s| && r == s[a..b] && BlankBetween(s, 0, a) && BlankBetween(s, b, |s|)
  {
    var a := SkipLeading(s, 0);
    var b := SkipTrailing(s, a, |s|);
    s[a..b]
  }

  /**
   * PHP's conversion of a string to bool: only "" and "0" are false, so every
   * string of two or more characters ("0.0", "00", "no") is true.
   */
  predicate Truthy(s: string)
    ensures s == "" ==> !Truthy(s)
    ensures |s| == 1 ==> (Truthy(s) <==> s[0] != '0')
    ensures |s| >= 2 ==> Truthy(s)
  {
    s != "" && s != "0"
  }

  /** `$v ?? $default` on a value that is a string or null. */
  function Coalesce(v: Option<string>, default: string): (r: string)
    ensures v.Some? ==> r == v.value
    ensures v.None? ==> r == default
  {
    match v
    case Some(s) => s
    case None => default
  }

  /** A string with no decimal digit, which PHP never treats as numeric. */
  predicate DigitFree(s: string)
  {
    forall i :: 0 <= i < |s| ==> !('0' <= s[i] <= '9')
  }

  /**
   * `$v == $lit` where `$v` is a string or null and `$lit` is a string
   * literal that is not numeric: null compares as "", and two strings that
   * are not both numeric compare as strings.
   */
  function LooseEquals(v: Option<string>, lit: string): (b: bool)
    requires DigitFree(lit)
    ensures lit != "" ==> (b <==> v == Some(lit))
  {
    Coalesce(v, "") == lit
  }
}
