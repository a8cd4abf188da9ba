/**
 * String helpers shared by the components: JavaScript truthiness of an optional
 * string, ASCII case mapping (`toLowerCase`/`toUpperCase` restricted to ASCII),
 * and `indexOf`/`includes` on strings.
 */
module Text {
  import opened Wrappers

  /** JavaScript truthiness of a string that may be absent: `undefined`, `null` and `""` are falsy. */
  predicate Truthy(s: Option<string>) {
    s.Some? && s.value != ""
  }

  function LowerChar(c: char): char {
    if 'A' <= c <= 'Z' then (c as int + 32) as char else c
  }

  function UpperChar(c: char): char {
    if 'a' <= c <= 'z' then (c as int - 32) as char else c
  }

  function Lower(s: string): (r: string)
    ensures |r| == |s|
    ensures forall i :: 0 <= i < |s| ==> r[i] == LowerChar(s[i])
  {
    seq(|s|, i requires 0 <= i < |s| => LowerChar(s[i]))
  }

  function Upper(s: string): (r: string)
    ensures |r| == |s|
    ensures forall i :: 0 <= i < |s| ==> r[i] == UpperChar(s[i])
  {
    seq(|s|, i requires 0 <= i < |s| => UpperChar(s[i]))
  }

  /** `sub` occurs in `s` starting at index `i`. */
  predicate OccursAt(s: string, sub: string, i: int) {
    0 <= i && i + |sub| <= |s| && s[i..i + |sub|] == sub
  }

  /** First occurrence of `sub` in `s` at or after `from`. */
  function IndexFrom(s: string, sub: string, from: nat): (r: Option<nat>)
    decreases |s| - from
    ensures r.Some? ==> from <= r.value && OccursAt(s, sub, r.value)
    ensures r.Some? ==> forall j :: from <= j < r.value ==> !OccursAt(s, sub, j)
    ensures r.None? ==> forall j :: from <= j ==> !OccursAt(s, sub, j)
  {
    if from + |sub| > |s| then None
    else if s[from..from + |sub|] == sub then Some(from)
    else IndexFrom(s, sub, from + 1)
  }

  /** JavaScript `s.indexOf(sub)`, with `None` for -1. */
  function IndexOf(s: string, sub: string): (r: Option<nat>)
    ensures r.Some? ==> OccursAt(s, sub, r.value) && forall j :: 0 <= j < r.value ==> !OccursAt(s, sub, j)
    ensures r.None? ==> forall j :: !OccursAt(s, sub, j)
  {
    IndexFrom(s, sub, 0)
  }

  /** JavaScript `s.includes(sub)`. */
  predicate Includes(s: string, sub: string) {
    IndexOf(s, sub).Some?
  }

  lemma IncludesEmpty(s: string)
    ensures Includes(s, "")
  {
    assert OccursAt(s, "", 0);
  }

  /** A string none of whose characters starts `sub` does not include `sub`. */
  lemma NoStartNoOccurrence(s: string, sub: string)
    requires |sub| > 0
    requires forall j :: 0 <= j < |s| ==> s[j] != sub[0]
    ensures !Includes(s, sub)
  {
    forall j | 0 <= j && j + |sub| <= |s| ensures !OccursAt(s, sub, j) {
      assert s[j..j + |sub|][0] == s[j];
    }
  }

  /** An occurrence at `i` with no character before `i` starting `sub` is the first one. */
  lemma FirstOccurrence(s: string, sub: string, i: nat)
    requires |sub| > 0 && OccursAt(s, sub, i)
    requires forall j :: 0 <= j < i ==> s[j] != sub[0]
    ensures IndexOf(s, sub) == Some(i)
  {
    var k := IndexOf(s, sub).value;
    assert s[k..k + |sub|][0] == s[k];
  }

  /** A prefix of a string that does not include `sub` does not include it either. */
  lemma PrefixExcludes(s: string, p: string, sub: string)
    requires !Includes(s, sub) && |p| <= |s| && p == s[..|p|]
    ensures !Includes(p, sub)
  {
    forall j | 0 <= j && j + |sub| <= |p| ensures OccursAt(p, sub, j) == OccursAt(s, sub, j) {
      assert p[j..j + |sub|] == s[j..j + |sub|];
    }
  }

  /** `Math.min(Math.max(i, 0), length)`: how `substring` clamps an index. */
  function Clamp(i: int, length: nat): (r: nat)
    ensures r <= length
    ensures 0 <= i <= length ==> r == i
  {
    if i < 0 then 0 else if i > length then length else i
  }

  /**
   * JavaScript `s.substring(start, end)`: both indices are clamped to the string,
   * and they are swapped when the start comes after the end.
   */
  function Substring(s: string, start: int, end: int): (r: string)
    ensures 0 <= start <= end <= |s| ==> r == s[start..end]
    ensures start <= 0 ==> r == s[..Clamp(end, |s|)]
    ensures |r| <= |s|
  {
    var a, b := Clamp(start, |s|), Clamp(end, |s|);
    if a <= b then s[a..b] else s[b..a]
  }

  /** `substring` does not care which index comes first. */
  lemma SubstringSwap(s: string, start: int, end: int)
    ensures Substring(s, start, end) == Substring(s, end, start)
  {
  }

  /** Indices outside the string act as the nearest end of the string. */
  lemma SubstringClamps(s: string, start: int, end: int)
    ensures Substring(s, start, end) == Substring(s, Clamp(start, |s|), Clamp(end, |s|))
  {
  }

  function DigitChar(d: nat): char
    requires d < 10
  {
    "0123456789"[d]
  }

  /** The decimal digits of `n`, as JavaScript writes a non-negative integer. */
  function NatToString(n: nat): (s: string)
    ensures s != ""
    ensures forall i :: 0 <= i < |s| ==> '0' <= s[i] <= '9'
  {
    if n < 10 then [DigitChar(n)] else NatToString(n / 10) + [DigitChar(n % 10)]
  }

  /** An integer as a template literal writes it: a minus sign before the digits when negative. */
  function IntToString(i: int): (s: string)
    ensures s != ""
    ensures (s[0] == '-') <==> i < 0
  {
    if i < 0 then "-" + NatToString(-i) else NatToString(i)
  }
}
