/**
  * Text helpers the services rely on: substring search, ASCII case folding
  * (the stand-in for Java's `toLowerCase` in the `...IgnoreCase` queries) and
  * decimal rendering of numbers (the `%d` / date parts of notification messages).
  */
module Text {

  /** `t` occurs in `s` starting at position `i`. */
  predicate OccursAt(s: string, t: string, i: int) {
    0 <= i <= |s| - |t| && s[i..i + |t|] == t
  }

  /** `t` occurs in `s` as a contiguous substring. */
  predicate Contains(s: string, t: string) {
    exists i | 0 <= i <= |s| :: OccursAt(s, t, i)
  }

  lemma ContainsAt(s: string, t: string, i: int)
    requires OccursAt(s, t, i)
    ensures Contains(s, t)
  {
  }

  /** `t` occurs at the end of `a + t`. */
  lemma ContainsSuffix(a: string, t: string)
    ensures Contains(a + t, t)
  {
    assert (a + t)[|a|..|a| + |t|] == t;
    ContainsAt(a + t, t, |a|);
  }

  /** What occurs in `s` still occurs once more text is appended. */
  lemma ContainsGrowRight(s: string, t: string, b: string)
    requires Contains(s, t)
    ensures Contains(s + b, t)
  {
    var i :| 0 <= i <= |s| && OccursAt(s, t, i);
    assert (s + b)[i..i + |t|] == s[i..i + |t|];
    ContainsAt(s + b, t, i);
  }

  /** The empty string occurs everywhere. */
  lemma ContainsEmpty(s: string)
    ensures Contains(s, "")
  {
    ContainsAt(s, "", 0);
  }

  function LowerChar(c: char): (r: char)
    ensures 'A' <= c <= 'Z' ==> 'a' <= r <= 'z' && r as int == c as int + 32
    ensures !('A' <= c <= 'Z') ==> r == c
  {
    if 'A' <= c <= 'Z' then (c as int + 32) as char else c
  }

  /** ASCII lower-casing, letter by letter. */
  function Lower(s: string): (r: string)
    ensures |r| == |s|
    ensures forall i :: 0 <= i < |s| ==> r[i] == LowerChar(s[i])
    ensures forall i :: 0 <= i < |r| ==> !('A' <= r[i] <= 'Z')
  {
    seq(|s|, i requires 0 <= i < |s| => LowerChar(s[i]))
  }

  lemma LowerIdempotent(s: string)
    ensures Lower(Lower(s)) == Lower(s)
  {
    assert forall i :: 0 <= i < |s| ==> Lower(Lower(s))[i] == Lower(s)[i];
  }

  /** The `ContainingIgnoreCase` match of Spring Data query methods. */
  predicate ContainsIgnoreCase(s: string, t: string) {
    Contains(Lower(s), Lower(t))
  }

  /** Case-insensitive matching does not depend on the case of the pattern. */
  lemma ContainsIgnoreCaseOfLower(t: string)
    ensures forall s :: ContainsIgnoreCase(s, Lower(t)) == ContainsIgnoreCase(s, t)
  {
    LowerIdempotent(t);
  }

  /** The empty pattern occurs, ignoring case, in every text. */
  lemma ContainsIgnoreCaseEmpty()
    ensures forall s :: ContainsIgnoreCase(s, "")
  {
    forall s ensures ContainsIgnoreCase(s, "") {
      assert Lower("") == "";
      ContainsEmpty(Lower(s));
    }
  }

  predicate IsDigit(c: char) {
    '0' <= c <= '9'
  }

  function DigitValue(c: char): (d: nat)
    requires IsDigit(c)
    ensures d < 10
  {
    c as int - '0' as int
  }

  function Digit(d: nat): (c: char)
    requires d < 10
    ensures IsDigit(c) && DigitValue(c) == d
  {
    ('0' as int + d) as char
  }

  /** Decimal rendering of a natural number, most significant digit first. */
  function NatText(n: nat): (r: string)
    ensures |r| > 0
    ensures forall i :: 0 <= i < |r| ==> IsDigit(r[i])
    ensures DigitsValue(r) == n
  {
    if n < 10 then [Digit(n)] else NatText(n / 10) + [Digit(n % 10)]
  }

  /** The number a string of decimal digits denotes (the inverse of NatText). */
  function DigitsValue(s: string): nat
    requires forall i :: 0 <= i < |s| ==> IsDigit(s[i])
  {
    if s == [] then 0 else DigitsValue(s[..|s| - 1]) * 10 + DigitValue(s[|s| - 1])
  }

  /** Decimal rendering of an integer with a leading '-' when negative, as `%d` does. */
  function IntText(n: int): (r: string)
    ensures |r| > 0
    ensures n < 0 <==> r[0] == '-'
    ensures n >= 0 ==> r == NatText(n)
    ensures n < 0 ==> r[1..] == NatText(-n)
  {
    if n < 0 then "-" + NatText(-n) else NatText(n)
  }
}
