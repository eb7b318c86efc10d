/** Character-level string helpers shared by the path, classifier and tree modules. */
module Strings {

  /** Lexicographic order on strings, comparing characters by code point; a proper
      prefix sorts first. This is the order used both for the entry list and for
      sibling names. */
  predicate LexLe(a: string, b: string)
    decreases |a|
  {
    |a| == 0 || (|b| > 0 && (a[0] < b[0] || (a[0] == b[0] && LexLe(a[1..], b[1..]))))
  }

  lemma LexLeTotal(a: string, b: string)
    ensures LexLe(a, b) || LexLe(b, a)
  {
  }

  lemma LexLeTransitive(a: string, b: string, c: string)
    requires LexLe(a, b) && LexLe(b, c)
    ensures LexLe(a, c)
  {
  }

  lemma LexLeAntisymmetric(a: string, b: string)
    requires LexLe(a, b) && LexLe(b, a)
    ensures a == b
  {
  }

  /** A string sorts strictly after each of its proper prefixes. */
  lemma {:induction false} ProperPrefixBelow(d: string, g: string)
    requires |d| < |g| && g[..|d|] == d
    ensures !LexLe(g, d)
    decreases |d|
  {
    if |d| > 0 {
      assert g[0] == d[0];
      assert g[1..][..|d| - 1] == d[1..];
      ProperPrefixBelow(d[1..], g[1..]);
    }
  }

  /** ASCII lower-casing, the only case mapping a non-Unicode `/.../i` pattern
      applies to the ASCII letters it spells out. */
  function LowerAscii(c: char): char
  {
    if 'A' <= c <= 'Z' then (c as int + 32) as char else c
  }

  function ToLowerAscii(s: string): (r: string)
    ensures |r| == |s|
    ensures forall i :: 0 <= i < |s| ==> r[i] == LowerAscii(s[i])
  {
    if s == [] then [] else [LowerAscii(s[0])] + ToLowerAscii(s[1..])
  }

  predicate EndsWith(s: string, suffix: string)
  {
    |suffix| <= |s| && s[|s| - |suffix|..] == suffix
  }
}
