/** Culture-independent string comparisons: `StringComparison.OrdinalIgnoreCase` equality and
    suffix tests, and the ordinal order used to sort path lists. Upper-casing is modelled for
    the ASCII letters only. */
module OrdinalStrings {

  /** Invariant upper-casing of one character (ASCII letters only). */
  function ToUpper(c: char): char {
    if 'a' <= c <= 'z' then (c as int - 'a' as int + 'A' as int) as char else c
  }

  /** The string with every character upper-cased. */
  function Fold(s: string): (r: string)
    ensures |r| == |s|
    ensures forall i :: 0 <= i < |s| ==> r[i] == ToUpper(s[i])
  {
    if |s| == 0 then [] else [ToUpper(s[0])] + Fold(s[1..])
  }

  /** `string.Equals(a, b, StringComparison.OrdinalIgnoreCase)`: same length and the same
      character, up to case, at every position. */
  predicate EqualsIgnoreCase(a: string, b: string) {
    |a| == |b| && forall i :: 0 <= i < |a| ==> ToUpper(a[i]) == ToUpper(b[i])
  }

  /** Ignore-case equality is equality of the folded strings. */
  lemma EqualsIgnoreCaseIsFoldEquality(a: string, b: string)
    ensures EqualsIgnoreCase(a, b) <==> Fold(a) == Fold(b)
  {
    if Fold(a) == Fold(b) {
      assert |a| == |b|;
      forall i | 0 <= i < |a|
        ensures ToUpper(a[i]) == ToUpper(b[i])
      {
        assert Fold(a)[i] == Fold(b)[i];
      }
    }
  }

  /** `s.EndsWith(suffix, StringComparison.OrdinalIgnoreCase)`. */
  predicate EndsWithIgnoreCase(s: string, suffix: string) {
    |suffix| <= |s| && EqualsIgnoreCase(s[|s| - |suffix|..], suffix)
  }

  /** Appending a suffix makes the string end with it, in any case. */
  lemma EndsWithAppended(s: string, suffix: string)
    ensures EndsWithIgnoreCase(s + suffix, suffix)
  {
    assert (s + suffix)[|s + suffix| - |suffix|..] == suffix;
  }

  /** The ordinal order: `a` sorts strictly before `b` when, at the first position where they
      differ, `a` has the smaller character, or when `a` is a proper prefix of `b`. */
  predicate Below(a: string, b: string)
    decreases |a|
  {
    if |a| == 0 then |b| > 0
    else if |b| == 0 then false
    else if a[0] != b[0] then a[0] < b[0]
    else Below(a[1..], b[1..])
  }

  lemma {:induction false} BelowIrreflexive(a: string)
    ensures !Below(a, a)
    decreases |a|
  {
    if |a| > 0 {
      BelowIrreflexive(a[1..]);
    }
  }

  lemma {:induction false} BelowTransitive(a: string, b: string, c: string)
    requires Below(a, b) && Below(b, c)
    ensures Below(a, c)
    decreases |a|
  {
    if |a| > 0 && a[0] == b[0] && b[0] == c[0] {
      BelowTransitive(a[1..], b[1..], c[1..]);
    }
  }

  /** Any two different strings are ordered one way or the other. */
  lemma {:induction false} BelowTotal(a: string, b: string)
    requires a != b
    ensures Below(a, b) || Below(b, a)
    decreases |a|
  {
    if |a| > 0 && |b| > 0 && a[0] == b[0] {
      assert a == [a[0]] + a[1..] && b == [b[0]] + b[1..];
      BelowTotal(a[1..], b[1..]);
    }
  }

  lemma BelowAsymmetric(a: string, b: string)
    requires Below(a, b)
    ensures !Below(b, a)
  {
    if Below(b, a) {
      BelowTransitive(a, b, a);
      BelowIrreflexive(a);
    }
  }

  /** `a` sorts no later than `b`. */
  predicate AtMost(a: string, b: string) {
    a == b || Below(a, b)
  }
}
