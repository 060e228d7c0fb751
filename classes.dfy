/**
 * extractClasses: the top-level class selectors of a stylesheet, found with
 * the global multiline pattern /^\.[a-z][a-z0-9-]*\/gm, deduplicated, sorted.
 */
module Classes {
  import opened Chars
  import opened Lex

  /**
   * The pattern matches s[i..e]: `^` holds at i, then a period, a lower-case
   * letter and the greedy run of name characters, which ends at e.
   */
  predicate ClassMatchAt(s: string, i: int, e: int)
  {
    && 0 <= i && i + 2 <= e <= |s|
    && AtLineStart(s, i)
    && s[i] == '.' && IsLower(s[i + 1])
    && (forall j :: i + 2 <= j < e ==> IsNameChar(s[j]))
    && (e == |s| || !IsNameChar(s[e]))
  }

  /** The shape of a class name: `.[a-z][a-z0-9-]*`. */
  predicate IsClassName(x: string)
  {
    |x| >= 2 && x[0] == '.' && IsLower(x[1]) && forall j :: 2 <= j < |x| ==> IsNameChar(x[j])
  }

  /** A match can start at k: `^` holds there, then a period and a lower-case letter. */
  predicate ClassStartAt(s: string, k: nat)
  {
    k + 2 <= |s| && AtLineStart(s, k) && s[k] == '.' && IsLower(s[k + 1])
  }

  /**
   * What `String.prototype.match` returns for the global pattern when the
   * search starts at index k: matches left to right, each search resuming
   * where the previous match ended.
   */
  function ClassMatchesFrom(s: string, k: nat): seq<string>
    requires k <= |s|
    decreases |s| - k
  {
    if k == |s| then []
    else if ClassStartAt(s, k) then
      var e := RunEnd(s, k + 2);
      [s[k..e]] + ClassMatchesFrom(s, e)
    else ClassMatchesFrom(s, k + 1)
  }

  /** `extractClasses(cssContent)`; a failed `match` (null) becomes the empty list. */
  function ExtractClasses(cssContent: string): (classes: seq<string>)
    ensures StrictlySorted(classes)
    ensures cssContent == [] ==> classes == []
  {
    SortUnique(ClassMatchesFrom(cssContent, 0))
  }

  /** Every match the scan from k reports is a line-start match at or after k. */
  lemma {:induction false} ClassMatchesSound(s: string, k: nat, x: string)
    requires k <= |s|
    requires x in ClassMatchesFrom(s, k)
    ensures exists i, e :: k <= i && ClassMatchAt(s, i, e) && x == s[i..e]
    decreases |s| - k
  {
    if k + 2 <= |s| && AtLineStart(s, k) && s[k] == '.' && IsLower(s[k + 1]) {
      var e := RunEnd(s, k + 2);
      if x == s[k..e] {
        assert ClassMatchAt(s, k, e);
      } else {
        ClassMatchesSound(s, e, x);
      }
    } else {
      ClassMatchesSound(s, k + 1, x);
    }
  }

  /**
   * The scan from k misses no line-start match at or after k: a match cannot
   * begin inside an earlier one, since a match holds no line terminator.
   */
  lemma {:induction false} ClassMatchesComplete(s: string, k: nat, i: int, e: int)
    requires k <= i
    requires ClassMatchAt(s, i, e)
    ensures s[i..e] in ClassMatchesFrom(s, k)
    decreases |s| - k
  {
    if k + 2 <= |s| && AtLineStart(s, k) && s[k] == '.' && IsLower(s[k + 1]) {
      var ek := RunEnd(s, k + 2);
      if k == i {
        RunEndUnique(s, i + 2, e);
      } else {
        assert ek <= i;
        ClassMatchesComplete(s, ek, i, e);
      }
    } else {
      assert k != i;
      ClassMatchesComplete(s, k + 1, i, e);
    }
  }

  /** The classes are exactly the texts of the line-start matches. */
  lemma ExtractClassesExact(s: string, x: string)
    ensures x in ExtractClasses(s) <==> exists i, e :: ClassMatchAt(s, i, e) && x == s[i..e]
  {
    if x in ExtractClasses(s) {
      ClassMatchesSound(s, 0, x);
    }
    if exists i, e :: ClassMatchAt(s, i, e) && x == s[i..e] {
      var i, e :| ClassMatchAt(s, i, e) && x == s[i..e];
      ClassMatchesComplete(s, 0, i, e);
    }
  }

  /**
   * Every class has the shape `.[a-z][a-z0-9-]*`, begins a line of the input
   * and is not followed there by another name character.
   */
  lemma ExtractClassesShape(s: string, x: string)
    requires x in ExtractClasses(s)
    ensures IsClassName(x)
    ensures exists i :: AtLineStart(s, i) && StartsWith(s[i..], x)
                     && (i + |x| == |s| || !IsNameChar(s[i + |x|]))
  {
    ExtractClassesExact(s, x);
    var i, e :| ClassMatchAt(s, i, e) && x == s[i..e];
    assert StartsWith(s[i..], x);
  }

  lemma ClassStartShift(a: string, b: string, k: nat)
    requires a == [] || IsLineTerminator(a[|a| - 1])
    requires k < |b|
    ensures ClassStartAt(a + b, |a| + k) <==> ClassStartAt(b, k)
  {
    var s := a + b;
    assert s[|a| + k] == b[k];
    assert k + 1 < |b| ==> s[|a| + k + 1] == b[k + 1];
    assert k > 0 ==> s[|a| + k - 1] == b[k - 1];
    assert AtLineStart(s, |a| + k) <==> AtLineStart(b, k);
  }

  lemma ClassStartPrefix(a: string, b: string, k: nat)
    requires a != [] && !IsNameChar(a[|a| - 1]) && a[|a| - 1] != '.'
    requires k < |a|
    ensures ClassStartAt(a + b, k) <==> ClassStartAt(a, k)
  {
    var s := a + b;
    assert s[k] == a[k];
    assert k + 1 < |a| ==> s[k + 1] == a[k + 1];
    assert k > 0 ==> s[k - 1] == a[k - 1];
    assert AtLineStart(s, k) <==> AtLineStart(a, k);
  }

  lemma {:induction false} ClassMatchesShift(a: string, b: string, k: nat)
    requires a == [] || IsLineTerminator(a[|a| - 1])
    requires k <= |b|
    ensures ClassMatchesFrom(a + b, |a| + k) == ClassMatchesFrom(b, k)
    decreases |b| - k, 1
  {
    if k < |b| {
      ClassStartShift(a, b, k);
      if ClassStartAt(b, k) {
        ClassMatchesShiftAtStart(a, b, k);
      } else {
        ClassMatchesShiftSkip(a, b, k);
      }
    }
  }

  lemma {:induction false} ClassMatchesShiftAtStart(a: string, b: string, k: nat)
    requires a == [] || IsLineTerminator(a[|a| - 1])
    requires k < |b| && ClassStartAt(b, k) && ClassStartAt(a + b, |a| + k)
    ensures ClassMatchesFrom(a + b, |a| + k) == ClassMatchesFrom(b, k)
    decreases |b| - k, 0
  {
    var s := a + b;
    RunEndShift(a, b, k + 2);
    var e := RunEnd(b, k + 2);
    SliceRight(a, b, k, e);
    ClassMatchesShift(a, b, e);
    assert ClassMatchesFrom(s, |a| + k) == [s[|a| + k..|a| + e]] + ClassMatchesFrom(s, |a| + e);
  }

  lemma {:induction false} ClassMatchesShiftSkip(a: string, b: string, k: nat)
    requires a == [] || IsLineTerminator(a[|a| - 1])
    requires k < |b| && !ClassStartAt(b, k) && !ClassStartAt(a + b, |a| + k)
    ensures ClassMatchesFrom(a + b, |a| + k) == ClassMatchesFrom(b, k)
    decreases |b| - k, 0
  {
    var s := a + b;
    assert ClassMatchesFrom(b, k) == ClassMatchesFrom(b, k + 1);
    assert ClassMatchesFrom(s, |a| + k) == ClassMatchesFrom(s, |a| + (k + 1));
    ClassMatchesShift(a, b, k + 1);
  }

  lemma {:induction false} ClassMatchesPrefix(a: string, b: string, k: nat)
    requires a != [] && !IsNameChar(a[|a| - 1]) && a[|a| - 1] != '.'
    requires k <= |a|
    ensures ClassMatchesFrom(a + b, k) == ClassMatchesFrom(a, k) + ClassMatchesFrom(a + b, |a|)
    decreases |a| - k, 1
  {
    if k < |a| {
      ClassStartPrefix(a, b, k);
      if ClassStartAt(a, k) {
        ClassMatchesPrefixAtStart(a, b, k);
      } else {
        ClassMatchesPrefixSkip(a, b, k);
      }
    }
  }

  lemma {:induction false} ClassMatchesPrefixAtStart(a: string, b: string, k: nat)
    requires a != [] && !IsNameChar(a[|a| - 1]) && a[|a| - 1] != '.'
    requires k < |a| && ClassStartAt(a, k) && ClassStartAt(a + b, k)
    ensures ClassMatchesFrom(a + b, k) == ClassMatchesFrom(a, k) + ClassMatchesFrom(a + b, |a|)
    decreases |a| - k, 0
  {
    var s := a + b;
    assert k + 2 < |a| by {
      assert IsLower(a[k + 1]);
    }
    RunEndPrefix(a, b, k + 2);
    var e := RunEnd(a, k + 2);
    SliceLeft(a, b, k, e);
    ClassMatchesPrefix(a, b, e);
    assert ClassMatchesFrom(s, k) == [s[k..e]] + ClassMatchesFrom(s, e);
    assert ClassMatchesFrom(a, k) == [a[k..e]] + ClassMatchesFrom(a, e);
    assert [a[k..e]] + (ClassMatchesFrom(a, e) + ClassMatchesFrom(s, |a|))
        == ([a[k..e]] + ClassMatchesFrom(a, e)) + ClassMatchesFrom(s, |a|);
  }

  lemma {:induction false} ClassMatchesPrefixSkip(a: string, b: string, k: nat)
    requires a != [] && !IsNameChar(a[|a| - 1]) && a[|a| - 1] != '.'
    requires k < |a| && !ClassStartAt(a, k) && !ClassStartAt(a + b, k)
    ensures ClassMatchesFrom(a + b, k) == ClassMatchesFrom(a, k) + ClassMatchesFrom(a + b, |a|)
    decreases |a| - k, 0
  {
    var s := a + b;
    assert ClassMatchesFrom(a, k) == ClassMatchesFrom(a, k + 1);
    assert ClassMatchesFrom(s, k) == ClassMatchesFrom(s, k + 1);
    ClassMatchesPrefix(a, b, k + 1);
  }

  /**
   * The scan works line by line: on text that ends a line followed by more
   * text, it reports the first part's matches, then the rest's.
   */
  lemma ClassMatchesLines(a: string, b: string)
    requires a != [] && IsLineTerminator(a[|a| - 1])
    ensures ClassMatchesFrom(a + b, 0) == ClassMatchesFrom(a, 0) + ClassMatchesFrom(b, 0)
  {
    ClassMatchesPrefix(a, b, 0);
    ClassMatchesShift(a, b, 0);
  }

  /** No match starts inside a line that has begun before k and runs to the end of the text. */
  lemma {:induction false} SameLineNoMatches(s: string, k: nat)
    requires 0 < k <= |s|
    requires forall j :: k - 1 <= j < |s| - 1 ==> !IsLineTerminator(s[j])
    ensures ClassMatchesFrom(s, k) == []
    decreases |s| - k
  {
    if k < |s| {
      assert !AtLineStart(s, k);
      SameLineNoMatches(s, k + 1);
    }
  }

  /** A pseudo-class ends the name: `.foo:hover` yields `.foo`. */
  lemma PseudoClassExample()
    ensures ExtractClasses(".foo:hover {}") == [".foo"]
  {
    var s := ".foo:hover {}";
    assert RunEnd(s, 2) == 4;
    SameLineNoMatches(s, 4);
    assert AtLineStart(s, 0) && s[0] == '.' && IsLower(s[1]);
    assert ClassMatchesFrom(s, 0) == [s[0..4]] + ClassMatchesFrom(s, 4);
    assert s[0..4] == ".foo";
    assert SortUnique([".foo"]) == [".foo"];
  }

  /** An indented selector does not start its line: `  .nested` yields nothing. */
  lemma IndentedExample()
    ensures ExtractClasses("  .nested {}") == []
  {
    var s := "  .nested {}";
    assert s[0] == ' ';
    SameLineNoMatches(s, 1);
  }

  lemma BtnLine()
    ensures ClassMatchesFrom(".btn {}\n", 0) == [".btn"]
  {
    var l := ".btn {}\n";
    assert AtLineStart(l, 0) && l[0] == '.' && IsLower(l[1]);
    assert RunEnd(l, 2) == 4;
    SameLineNoMatches(l, 4);
    assert ClassMatchesFrom(l, 0) == [l[0..4]] + ClassMatchesFrom(l, 4);
    assert l[0..4] == ".btn";
  }

  lemma CardLine()
    ensures ClassMatchesFrom(".card {}\n", 0) == [".card"]
  {
    var l := ".card {}\n";
    assert AtLineStart(l, 0) && l[0] == '.' && IsLower(l[1]);
    assert RunEnd(l, 2) == 5;
    SameLineNoMatches(l, 5);
    assert ClassMatchesFrom(l, 0) == [l[0..5]] + ClassMatchesFrom(l, 5);
    assert l[0..5] == ".card";
  }

  /** Three lines; the indented third one is not a top-level selector. */
  lemma StylesheetExample()
    ensures ExtractClasses(".btn {}\n" + ".card {}\n" + "  .nested {}") == [".btn", ".card"]
  {
    var l1, l2, l3 := ".btn {}\n", ".card {}\n", "  .nested {}";
    assert l1 + l2 + l3 == l1 + (l2 + l3);
    ClassMatchesLines(l1, l2 + l3);
    ClassMatchesLines(l2, l3);
    BtnLine();
    CardLine();
    IndentedExample();
    assert SortUnique([".btn", ".card"]) == [".btn", ".card"];
  }
}
