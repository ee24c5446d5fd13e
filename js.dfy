/**
 * The small part of JavaScript's value and string semantics the icon tools rely on:
 * optional values, the `\s` character class of ECMAScript regular expressions,
 * numbers as `parseFloat` produces them (with `undefined` for a missing field),
 * `String.prototype.indexOf` and `replace` with a string pattern, and lower-casing.
 */
module Js {

  datatype Option<+T> = None | Some(value: T)

  datatype Result<+T, +E> = Ok(value: T) | Err(error: E)

  /** The characters `\s` matches in an ECMAScript regular expression (WhiteSpace and LineTerminator). */
  predicate IsSpace(c: char) {
    || c == '\t' || c == '\n' || c == '\U{000B}' || c == '\U{000C}' || c == '\r' || c == ' '
    || c == '\U{00A0}' || c == '\U{1680}' || ('\U{2000}' <= c <= '\U{200A}')
    || c == '\U{2028}' || c == '\U{2029}' || c == '\U{202F}' || c == '\U{205F}'
    || c == '\U{3000}' || c == '\U{FEFF}'
  }

  /**
   * A JavaScript value that is either `undefined` or a number. Finite numbers are kept
   * as exact reals: the rounding of IEEE doubles and the sign of zero are not modelled.
   */
  datatype Num = Undefined | NaN | Finite(value: real) | Infinity(negative: bool)

  /** What `parseFloat` can return: always a number, never `undefined`. */
  type Number = n: Num | !n.Undefined? witness NaN

  /** JavaScript truthiness: `undefined`, NaN and zero are falsy. */
  predicate Truthy(n: Num) {
    match n
    case Undefined => false
    case NaN => false
    case Finite(v) => v != 0.0
    case Infinity(_) => true
  }

  /** `n < 0` in JavaScript: false for `undefined` and NaN. */
  predicate IsNegative(n: Num) {
    match n
    case Finite(v) => v < 0.0
    case Infinity(neg) => neg
    case _ => false
  }

  /** `a || b` on numbers. */
  function Or(a: Num, b: Num): (r: Num)
    ensures Truthy(a) ==> r == a
    ensures !Truthy(a) ==> r == b
  {
    if Truthy(a) then a else b
  }

  predicate OccursAt(s: string, pat: string, i: nat) {
    i + |pat| <= |s| && s[i..i + |pat|] == pat
  }

  /** `s.indexOf(pat)`, with `None` for -1: the first position at which `pat` occurs. */
  function IndexOf(s: string, pat: string, from: nat := 0): (r: Option<nat>)
    requires from <= |s|
    ensures r.Some? ==> from <= r.value && OccursAt(s, pat, r.value)
    ensures r.Some? ==> forall j :: from <= j < r.value ==> !OccursAt(s, pat, j)
    ensures r.None? ==> forall j :: from <= j <= |s| ==> !OccursAt(s, pat, j)
    decreases |s| - from
  {
    if OccursAt(s, pat, from) then Some(from)
    else if from == |s| then None
    else IndexOf(s, pat, from + 1)
  }

  /** `s.replace(pat, rep)` with a string pattern. */
  function ReplaceFirst(s: string, pat: string, rep: string): string {
    match IndexOf(s, pat)
    case None => s
    case Some(i) => s[..i] + rep + s[i + |pat|..]
  }

  /**
   * Only the first occurrence is replaced: without one the string is unchanged, and
   * otherwise the part before it and the part after it are kept.
   */
  lemma ReplaceFirstMeaning(s: string, pat: string, rep: string)
    ensures (forall j :: 0 <= j <= |s| ==> !OccursAt(s, pat, j)) ==> ReplaceFirst(s, pat, rep) == s
    ensures forall i ::
      (0 <= i <= |s| && OccursAt(s, pat, i) && forall j :: 0 <= j < i ==> !OccursAt(s, pat, j)) ==>
        ReplaceFirst(s, pat, rep) == s[..i] + rep + s[i + |pat|..]
  {
    match IndexOf(s, pat)
    case None =>
    case Some(k) =>
      forall i | 0 <= i <= |s| && OccursAt(s, pat, i) && forall j :: 0 <= j < i ==> !OccursAt(s, pat, j)
        ensures i == k
      {
        if i < k || k < i {
          assert false;
        }
      }
  }

  predicate IsUpperAscii(c: char) { 'A' <= c <= 'Z' }

  function LowerChar(c: char): char {
    if IsUpperAscii(c) then (c as int + 32) as char else c
  }

  /** `toLowerCase()`, on the ASCII letters only. */
  function LowerAscii(s: string): string {
    seq(|s|, i requires 0 <= i < |s| => LowerChar(s[i]))
  }
}
