/** The JavaScript string operations the parser relies on, with their exact edge cases. */
module JsText {
  import opened Outcomes

  /** `s[i]`: the character at `i`, or `undefined` (None) outside the string. */
  function At(s: string, i: int): (r: Option<char>)
    ensures r.Some? <==> 0 <= i < |s|
    ensures r.Some? ==> r.value == s[i]
  {
    if 0 <= i < |s| then Some(s[i]) else None
  }

  /** The argument clamping of `String.prototype.substring`. */
  function Clamp(i: int, n: nat): (r: nat)
    ensures r <= n
    ensures 0 <= i <= n ==> r == i
  {
    if i < 0 then 0 else if i > n then n else i
  }

  /** `s.substring(a, b)`: both ends clamped to the string, swapped when the first is larger. */
  function Substring(s: string, a: int, b: int): (r: string)
    ensures |r| <= |s|
    ensures 0 <= a <= b <= |s| ==> r == s[a..b]
    ensures a <= 0 && b <= 0 ==> r == []
  {
    var x := Clamp(a, |s|);
    var y := Clamp(b, |s|);
    if x <= y then s[x..y] else s[y..x]
  }

  /** `s.indexOf(c, from)`: the first position at or after `from` holding `c`, or -1. */
  function IndexOf(s: string, c: char, from: int): (r: int)
    ensures r == -1 || (Clamp(from, |s|) <= r < |s| && s[r] == c)
    ensures r != -1 ==> forall k :: Clamp(from, |s|) <= k < r ==> s[k] != c
    ensures r == -1 <==> forall k :: Clamp(from, |s|) <= k < |s| ==> s[k] != c
    decreases |s| - Clamp(from, |s|)
  {
    var k := Clamp(from, |s|);
    if k == |s| then -1
    else if s[k] == c then k
    else IndexOf(s, c, k + 1)
  }

  /** `toUpperCase` on one character, restricted to ASCII letters. */
  function UpperChar(c: char): char
  {
    if 'a' <= c <= 'z' then (c as int - 32) as char else c
  }

  /** `toUpperCase`, ASCII only; exact on the key characters the parser feeds it. */
  function Upper(s: string): (r: string)
    ensures |r| == |s|
    ensures forall i :: 0 <= i < |s| ==> r[i] == UpperChar(s[i])
  {
    seq(|s|, i requires 0 <= i < |s| => UpperChar(s[i]))
  }

  /** The regular expression `^[0-9]+$`. */
  predicate IsDigits(s: string)
  {
    |s| > 0 && forall i :: 0 <= i < |s| ==> '0' <= s[i] <= '9'
  }

  /** Upper-casing twice is upper-casing once. */
  lemma UpperIdempotent(s: string)
    ensures Upper(Upper(s)) == Upper(s)
  {
  }

  /** Digits are unchanged by upper-casing. */
  lemma UpperDigits(s: string)
    requires IsDigits(s)
    ensures Upper(s) == s
  {
  }
}
