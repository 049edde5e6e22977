/** Texts as the engine sees them: sequences of 16-bit code units, with the
    string operations of JavaScript that the engine relies on. */
module Texts {

  newtype Unit = x: int | 0 <= x < 0x1_0000

  type Text = seq<Unit>

  function Min(x: int, y: int): int {
    if x < y then x else y
  }

  function Max(x: int, y: int): int {
    if x < y then y else x
  }

  function Clamp(i: int, n: nat): (r: nat)
    ensures r <= n
  {
    if i < 0 then 0 else if i > n then n else i
  }

  /** Letters and digits of ASCII. */
  predicate Letter(c: Unit) {
    65 <= c <= 90 || 97 <= c <= 122
  }

  predicate Digit(c: Unit) {
    48 <= c <= 57
  }

  /** White space and line terminators in the sense of sections 7.2 and 7.3 of ECMA-262. */
  predicate WhiteSpace(c: Unit) {
    || 9 <= c <= 13 || c == 32 || c == 160 || c == 0xFEFF
    || c == 0x1680 || c == 0x180E || 0x2000 <= c <= 0x200A || c == 0x2028 || c == 0x2029 || c == 0x202F || c == 0x205F || c == 0x3000
  }

  /** `s.substring(i, j)`: both ends are clamped to the text and swapped when out of order. */
  function Substring(s: Text, i: int, j: int): Text {
    var x, y := Clamp(i, |s|), Clamp(j, |s|);
    if x <= y then s[x..y] else s[y..x]
  }

  /** `s.charAt(i)`: the empty text outside the bounds. */
  function CharAt(s: Text, i: int): Text {
    if 0 <= i < |s| then [s[i]] else []
  }

  predicate OccursAt(h: Text, n: Text, k: int) {
    0 <= k && k + |n| <= |h| && h[k..k + |n|] == n
  }

  ghost predicate OccursIn(h: Text, n: Text) {
    exists k :: OccursAt(h, n, k)
  }

  /** `h.indexOf(n, from)`: the first occurrence at or after `from`, or -1. */
  function IndexOf(h: Text, n: Text, from: nat): (r: int)
    ensures r == -1 || (from <= r && OccursAt(h, n, r))
    ensures forall k :: from <= k && OccursAt(h, n, k) ==> r != -1 && r <= k
    decreases |h| - from
  {
    if from + |n| > |h| then -1
    else if OccursAt(h, n, from) then from
    else IndexOf(h, n, from + 1)
  }

  /** `h.lastIndexOf(n)`: the last occurrence, or -1. */
  function LastIndexOf(h: Text, n: Text): (r: int)
    ensures r == -1 || OccursAt(h, n, r)
    ensures forall k :: OccursAt(h, n, k) ==> k <= r
  {
    LastIndexFrom(h, n, |h| - |n|)
  }

  function LastIndexFrom(h: Text, n: Text, from: int): (r: int)
    ensures r == -1 || OccursAt(h, n, r)
    ensures forall k :: k <= from && OccursAt(h, n, k) ==> k <= r
    decreases from + 1
  {
    if from < 0 then -1
    else if OccursAt(h, n, from) then from
    else LastIndexFrom(h, n, from - 1)
  }

  function Reverse(s: Text): (r: Text)
    ensures |r| == |s|
    ensures forall k :: 0 <= k < |s| ==> r[k] == s[|s| - 1 - k]
  {
    seq(|s|, k requires 0 <= k < |s| => s[|s| - 1 - k])
  }

  lemma ReverseTwice(s: Text)
    ensures Reverse(Reverse(s)) == s
  {
  }

  lemma ReverseConcat(s: Text, t: Text)
    ensures Reverse(s + t) == Reverse(t) + Reverse(s)
  {
  }

  /** Cutting a text at `x` cuts the reversed text at the same place. */
  lemma ReverseSplit(s: Text, x: nat)
    requires x <= |s|
    ensures Reverse(s)[..|s| - x] == Reverse(s[x..])
    ensures Reverse(s)[|s| - x..] == Reverse(s[..x])
  {
  }

  lemma ThreeParts(p: Text, q: Text, r: Text)
    ensures var s := p + q + r;
            s[..|p|] == p && s[|p|..|p| + |q|] == q && s[|p| + |q|..] == r
  {
  }
}
