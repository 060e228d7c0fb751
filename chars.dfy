/**
 * Character classes and small string predicates shared by the scanners that
 * stand in for the regular expressions of elementary.mjs.
 */
module Chars {

  /** The character class `[a-z]`. */
  predicate IsLower(c: char)
  {
    'a' <= c <= 'z'
  }

  predicate IsDigit(c: char)
  {
    '0' <= c <= '9'
  }

  /** The character class `[a-z0-9-]`. */
  predicate IsNameChar(c: char)
  {
    IsLower(c) || IsDigit(c) || c == '-'
  }

  /** ECMAScript LineTerminator: the characters after which `^` matches under the `m` flag. */
  predicate IsLineTerminator(c: char)
  {
    c == '\n' || c == '\r' || c == '\U{2028}' || c == '\U{2029}'
  }

  /** Where a multiline `^` assertion succeeds: at index 0 or right after a line terminator. */
  predicate AtLineStart(s: string, i: int)
  {
    i == 0 || (0 < i <= |s| && IsLineTerminator(s[i - 1]))
  }

  /** `String.prototype.startsWith`. */
  predicate StartsWith(s: string, prefix: string)
  {
    |prefix| <= |s| && s[..|prefix|] == prefix
  }

  /**
   * Where the greedy `[a-z0-9-]*` started at `k` stops: the run s[k..e] is
   * made of name characters and cannot be extended.
   */
  function RunEnd(s: string, k: nat): (e: nat)
    requires k <= |s|
    ensures k <= e <= |s|
    ensures forall j :: k <= j < e ==> IsNameChar(s[j])
    ensures e == |s| || !IsNameChar(s[e])
    decreases |s| - k
  {
    if k == |s| || !IsNameChar(s[k]) then k else RunEnd(s, k + 1)
  }

  /** A maximal run is unique: any end with the two properties of RunEnd is RunEnd. */
  lemma RunEndUnique(s: string, k: nat, e: nat)
    requires k <= e <= |s|
    requires forall j :: k <= j < e ==> IsNameChar(s[j])
    requires e == |s| || !IsNameChar(s[e])
    ensures RunEnd(s, k) == e
  {
  }

  /** A run in the second part of a concatenation is the run of that part, shifted. */
  lemma {:induction false} RunEndShift(a: string, b: string, k: nat)
    requires k <= |b|
    ensures RunEnd(a + b, |a| + k) == |a| + RunEnd(b, k)
    decreases |b| - k
  {
    if k < |b| {
      assert (a + b)[|a| + k] == b[k];
      if IsNameChar(b[k]) {
        RunEndShift(a, b, k + 1);
      }
    }
  }

  /** A run that starts before a character outside `[a-z0-9-]` ends before it, whatever follows. */
  lemma {:induction false} RunEndPrefix(a: string, b: string, k: nat)
    requires k < |a| && !IsNameChar(a[|a| - 1])
    ensures RunEnd(a + b, k) == RunEnd(a, k)
    decreases |a| - k
  {
    assert (a + b)[k] == a[k];
    if IsNameChar(a[k]) {
      RunEndPrefix(a, b, k + 1);
    }
  }

  lemma SliceRight(a: string, b: string, i: nat, j: nat)
    requires i <= j <= |b|
    ensures (a + b)[|a| + i..|a| + j] == b[i..j]
  {
  }

  lemma SliceLeft(a: string, b: string, i: nat, j: nat)
    requires i <= j <= |a|
    ensures (a + b)[i..j] == a[i..j]
  {
  }
}
