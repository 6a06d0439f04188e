/** The .NET string operations the project service relies on, with ordinal
    (code-point) comparison. Strings are `seq<char>`. */
module Strings {

  /** The exceptions the modelled operations can raise. */
  datatype Exception =
    | IndexOutOfRange   // System.IndexOutOfRangeException from the string indexer
    | EmptyOldValue     // System.ArgumentException from string.Replace with an empty oldValue

  /** char.IsWhiteSpace: the space separators (Zs), U+2028, U+2029,
      U+0009 to U+000D and U+0085. */
  predicate IsWhiteSpace(c: char) {
    || c == ' '
    || ('\t' <= c <= '\r')
    || c == '\U{0085}'
    || c == '\U{00A0}'
    || c == '\U{1680}'
    || ('\U{2000}' <= c <= '\U{200A}')
    || c == '\U{2028}'
    || c == '\U{2029}'
    || c == '\U{202F}'
    || c == '\U{205F}'
    || c == '\U{3000}'
  }

  /** string.StartsWith with ordinal comparison. */
  predicate StartsWith(s: string, prefix: string) {
    |prefix| <= |s| && s[..|prefix|] == prefix
  }

  /** string.EndsWith with ordinal comparison. */
  predicate EndsWith(s: string, suffix: string) {
    |suffix| <= |s| && s[|s| - |suffix|..] == suffix
  }

  /** `t` occurs in `s` at position `i`. */
  predicate OccursAt(s: string, t: string, i: int) {
    0 <= i <= |s| && StartsWith(s[i..], t)
  }

  /** string.Contains: `t` occurs in `s` at some position. */
  predicate Contains(s: string, t: string) {
    exists i | 0 <= i <= |s| - |t| :: StartsWith(s[i..], t)
  }

  /** string.TrimStart(): drops the leading white space, leaving a suffix
      that is empty or starts with something else. */
  function TrimStart(s: string): (r: string)
    ensures |r| <= |s| && r == s[|s| - |r|..]
    ensures r == [] || !IsWhiteSpace(r[0])
    decreases |s|
  {
    if s != [] && IsWhiteSpace(s[0]) then TrimStart(s[1..]) else s
  }

  /** What TrimStart drops is white space. */
  lemma {:induction false} TrimStartDropsWhiteSpace(s: string)
    ensures forall i :: 0 <= i < |s| - |TrimStart(s)| ==> IsWhiteSpace(s[i])
    decreases |s|
  {
    if s != [] && IsWhiteSpace(s[0]) {
      TrimStartDropsWhiteSpace(s[1..]);
      forall i | 1 <= i < |s| - |TrimStart(s)|
        ensures IsWhiteSpace(s[i])
      {
        assert s[i] == s[1..][i - 1];
      }
    }
  }

  /** string.TrimEnd(): drops the trailing white space, leaving a prefix
      that is empty or ends with something else. */
  function TrimEnd(s: string): (r: string)
    ensures |r| <= |s| && r == s[..|r|]
    ensures r == [] || !IsWhiteSpace(r[|r| - 1])
    decreases |s|
  {
    if s != [] && IsWhiteSpace(s[|s| - 1]) then TrimEnd(s[..|s| - 1]) else s
  }

  /** What TrimEnd drops is white space. */
  lemma {:induction false} TrimEndDropsWhiteSpace(s: string)
    ensures forall i :: |TrimEnd(s)| <= i < |s| ==> IsWhiteSpace(s[i])
    decreases |s|
  {
    if s != [] && IsWhiteSpace(s[|s| - 1]) {
      TrimEndDropsWhiteSpace(s[..|s| - 1]);
    }
  }

  /** The first occurrence of `t` in `s` at or after position `k`. */
  function FirstFrom(s: string, t: string, k: nat): (r: nat)
    requires exists i | k <= i <= |s| - |t| :: StartsWith(s[i..], t)
    ensures k <= r <= |s| - |t| && StartsWith(s[r..], t)
    ensures forall j :: k <= j < r ==> !StartsWith(s[j..], t)
    decreases |s| - k
  {
    if StartsWith(s[k..], t) then k else FirstFrom(s, t, k + 1)
  }

  /** The last occurrence of `t` in `s` at or before position `k`. */
  function LastUpTo(s: string, t: string, k: int): (r: nat)
    requires exists i | 0 <= i <= k && i <= |s| - |t| :: StartsWith(s[i..], t)
    ensures r <= k && r <= |s| - |t| && StartsWith(s[r..], t)
    ensures forall j :: r < j <= k && j <= |s| - |t| ==> !StartsWith(s[j..], t)
    decreases k
  {
    if k <= |s| - |t| && StartsWith(s[k..], t) then k else LastUpTo(s, t, k - 1)
  }

  /** string.IndexOf(value): the first position at which `t` occurs. */
  function IndexOf(s: string, t: string): (r: nat)
    requires Contains(s, t)
    ensures r <= |s| - |t| && StartsWith(s[r..], t)
    ensures forall j :: 0 <= j < r ==> !StartsWith(s[j..], t)
  {
    FirstFrom(s, t, 0)
  }

  /** string.LastIndexOf(value): the last position at which `t` occurs. */
  function LastIndexOf(s: string, t: string): (r: nat)
    requires Contains(s, t)
    ensures r <= |s| - |t| && StartsWith(s[r..], t)
    ensures forall j :: r < j <= |s| - |t| ==> !StartsWith(s[j..], t)
  {
    LastUpTo(s, t, |s| - |t|)
  }

  /** The upper-case form of a character under ordinal case folding; only
      the ASCII letters are folded here. */
  function UpperChar(c: char): char {
    if 'a' <= c <= 'z' then (c as int - 32) as char else c
  }

  /** The upper-case form of a string, character by character. */
  function Upper(s: string): (r: string)
    ensures |r| == |s|
  {
    seq(|s|, i requires 0 <= i < |s| => UpperChar(s[i]))
  }

  /** string.Equals(a, b, StringComparison.OrdinalIgnoreCase). */
  predicate EqualsIgnoreCase(a: string, b: string) {
    Upper(a) == Upper(b)
  }
}
