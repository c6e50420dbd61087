/**
 * The few operations on Python `str` values the program relies on:
 * `str.lower()` on a suffix, `str.rfind('.')`, and the ordering `<` that
 * `sorted` uses (code-point lexicographic order, extended to lists of
 * strings the way Python compares lists).
 */
module Strings {

  /** `c.lower()` for an ASCII letter; every other character is left as it is. */
  function LowerChar(c: char): char {
    if 'A' <= c <= 'Z' then (c as int - 'A' as int + 'a' as int) as char else c
  }

  /** `s.lower()`, character by character. */
  function Lower(s: string): string {
    seq(|s|, i requires 0 <= i < |s| => LowerChar(s[i]))
  }

  /** Lower-casing changes nothing the second time. */
  lemma LowerIdempotent(s: string)
    ensures Lower(Lower(s)) == Lower(s)
  {
  }

  /** `s.rfind(c)`: the last index holding `c`, or -1 when there is none. */
  function LastIndexOf(s: string, c: char): (i: int)
    ensures -1 <= i < |s|
  {
    if s == [] then -1
    else if s[|s| - 1] == c then |s| - 1
    else LastIndexOf(s[..|s| - 1], c)
  }

  /** What `rfind` finds: `c` itself, with no `c` after it; -1 only when `c` does not occur. */
  lemma {:induction false} LastIndexOfIsLast(s: string, c: char)
    ensures 0 <= LastIndexOf(s, c) ==> s[LastIndexOf(s, c)] == c
    ensures forall j :: LastIndexOf(s, c) < j < |s| ==> s[j] != c
    decreases |s|
  {
    if s != [] && s[|s| - 1] != c {
      LastIndexOfIsLast(s[..|s| - 1], c);
    }
  }

  /** Python's `a <= b` on strings: lexicographic on code points, a prefix first. */
  predicate Le(a: string, b: string) {
    if a == [] then true
    else if b == [] then false
    else if a[0] != b[0] then a[0] < b[0]
    else Le(a[1..], b[1..])
  }

  lemma {:induction false} LeReflexive(a: string)
    ensures Le(a, a)
  {
    if a != [] {
      LeReflexive(a[1..]);
    }
  }

  lemma {:induction false} LeTotal(a: string, b: string)
    ensures Le(a, b) || Le(b, a)
  {
    if a != [] && b != [] && a[0] == b[0] {
      LeTotal(a[1..], b[1..]);
    }
  }

  lemma {:induction false} LeAntisymmetric(a: string, b: string)
    requires Le(a, b) && Le(b, a)
    ensures a == b
  {
    if a != [] && b != [] {
      LeAntisymmetric(a[1..], b[1..]);
      assert a == [a[0]] + a[1..];
      assert b == [b[0]] + b[1..];
    }
  }

  lemma {:induction false} LeTransitive(a: string, b: string, c: string)
    requires Le(a, b) && Le(b, c)
    ensures Le(a, c)
  {
    if a != [] && b != [] && c != [] && a[0] == b[0] == c[0] {
      LeTransitive(a[1..], b[1..], c[1..]);
    }
  }

  /** Python's `a <= b` on lists of strings: the first differing element decides, a prefix first. */
  predicate ListLe(a: seq<string>, b: seq<string>) {
    if a == [] then true
    else if b == [] then false
    else if a[0] != b[0] then Le(a[0], b[0])
    else ListLe(a[1..], b[1..])
  }

  /** Two lists that agree on a common prefix and then hold one string each compare as those strings. */
  lemma {:induction false} ListLeCommonPrefix(prefix: seq<string>, a: string, b: string)
    ensures ListLe(prefix + [a], prefix + [b]) <==> Le(a, b)
  {
    if prefix == [] {
      if a == b {
        LeReflexive(a);
      }
    } else {
      assert (prefix + [a])[1..] == prefix[1..] + [a];
      assert (prefix + [b])[1..] == prefix[1..] + [b];
      ListLeCommonPrefix(prefix[1..], a, b);
    }
  }
}
