/**
 * extractTokens: the CSS custom properties of a stylesheet, found anywhere in
 * the text with the global pattern /--([a-z][a-z0-9-]*)/g, each rebuilt as
 * `--` plus the captured group, deduplicated and sorted.
 */
module Tokens {
  import opened Chars
  import opened Lex

  /**
   * The pattern matches s[i..e]: two hyphens, a lower-case letter and the
   * greedy run of name characters, which ends at e. The group is s[i+2..e].
   */
  predicate TokenMatchAt(s: string, i: int, e: int)
  {
    && 0 <= i && i + 3 <= e <= |s|
    && s[i] == '-' && s[i + 1] == '-' && IsLower(s[i + 2])
    && (forall j :: i + 3 <= j < e ==> IsNameChar(s[j]))
    && (e == |s| || !IsNameChar(s[e]))
  }

  /** The shape of a token name: `--[a-z][a-z0-9-]*`, so exactly two hyphens lead. */
  predicate IsTokenName(x: string)
  {
    |x| >= 3 && x[0] == '-' && x[1] == '-' && IsLower(x[2])
    && forall j :: 3 <= j < |x| ==> IsNameChar(x[j])
  }

  /** A match can start at k: two hyphens and a lower-case letter. */
  predicate TokenStartAt(s: string, k: nat)
  {
    k + 3 <= |s| && s[k] == '-' && s[k + 1] == '-' && IsLower(s[k + 2])
  }

  /**
   * The first capture group of each match `String.prototype.matchAll`
   * yields when the search starts at index k: left to right, each search
   * resuming where the previous match ended, so matches never overlap.
   */
  function TokenCapturesFrom(s: string, k: nat): seq<string>
    requires k <= |s|
    decreases |s| - k
  {
    if k == |s| then []
    else if TokenStartAt(s, k) then
      var e := RunEnd(s, k + 3);
      [s[k + 2..e]] + TokenCapturesFrom(s, e)
    else TokenCapturesFrom(s, k + 1)
  }

  /** The `m => `--${m[1]}`` map over the matches. */
  function Rebuild(captures: seq<string>): seq<string>
  {
    seq(|captures|, j requires 0 <= j < |captures| => "--" + captures[j])
  }

  /** `extractTokens(cssContent)`. */
  function ExtractTokens(cssContent: string): (tokens: seq<string>)
    ensures StrictlySorted(tokens)
    ensures cssContent == [] ==> tokens == []
  {
    SortUnique(Rebuild(TokenCapturesFrom(cssContent, 0)))
  }

  /**
   * No candidate from k up to i runs into i without a break: each start of
   * the pattern in s[k..i] has a character outside `[a-z0-9-]` before i.
   * A scan that reaches such a start therefore stops its match before i.
   */
  predicate NotSwallowed(s: string, k: nat, i: int)
    requires i <= |s|
  {
    forall j :: k <= j < i && TokenStartAt(s, j) ==>
      exists m :: j <= m < i && !IsNameChar(s[m])
  }

  /**
   * Every capture the scan from k reports is the group of a match at or
   * after k that no earlier candidate's run reaches: the scan's own matches.
   */
  lemma {:induction false} TokenCapturesSound(s: string, k: nat, c: string)
    requires k <= |s|
    requires c in TokenCapturesFrom(s, k)
    ensures exists i, e :: k <= i && TokenMatchAt(s, i, e) && NotSwallowed(s, k, i) && c == s[i + 2..e]
    decreases |s| - k
  {
    if TokenStartAt(s, k) {
      var e := RunEnd(s, k + 3);
      if c == s[k + 2..e] {
        assert TokenMatchAt(s, k, e) && NotSwallowed(s, k, k);
      } else {
        TokenCapturesSound(s, e, c);
        var i, e' :| e <= i && TokenMatchAt(s, i, e') && NotSwallowed(s, e, i) && c == s[i + 2..e'];
        assert e < i && !IsNameChar(s[e]);
        forall j | k <= j < i && TokenStartAt(s, j)
          ensures exists m :: j <= m < i && !IsNameChar(s[m])
        {
          if j < e {
            assert j <= e < i && !IsNameChar(s[e]);
          }
        }
        assert NotSwallowed(s, k, i);
      }
    } else {
      TokenCapturesSound(s, k + 1, c);
      var i, e :| k + 1 <= i && TokenMatchAt(s, i, e) && NotSwallowed(s, k + 1, i) && c == s[i + 2..e];
      assert NotSwallowed(s, k, i);
    }
  }

  /**
   * A match at i that no earlier candidate's name-character run reaches is
   * never skipped: every match the scan makes before it ends before i.
   */
  lemma {:induction false} TokenCapturesComplete(s: string, k: nat, i: int, e: int)
    requires k <= i
    requires TokenMatchAt(s, i, e)
    requires NotSwallowed(s, k, i)
    ensures s[i + 2..e] in TokenCapturesFrom(s, k)
    decreases |s| - k
  {
    if TokenStartAt(s, k) {
      var ek := RunEnd(s, k + 3);
      if k == i {
        RunEndUnique(s, i + 3, e);
      } else {
        var m :| k <= m < i && !IsNameChar(s[m]);
        assert m >= k + 3;
        assert ek <= m;
        TokenCapturesComplete(s, ek, i, e);
      }
    } else {
      assert k != i;
      TokenCapturesComplete(s, k + 1, i, e);
    }
  }

  /**
   * Every token is the text of one of the scan's matches: a match of the
   * pattern that no earlier candidate's run reaches. It has the token shape.
   */
  lemma ExtractTokensSound(s: string, x: string)
    requires x in ExtractTokens(s)
    ensures exists i, e :: TokenMatchAt(s, i, e) && NotSwallowed(s, 0, i) && x == s[i..e]
    ensures IsTokenName(x)
  {
    var caps := TokenCapturesFrom(s, 0);
    var names := Rebuild(caps);
    assert x in names;
    var j :| 0 <= j < |names| && names[j] == x;
    assert caps[j] in caps;
    TokenCapturesSound(s, 0, caps[j]);
    var i, e :| 0 <= i && TokenMatchAt(s, i, e) && NotSwallowed(s, 0, i) && caps[j] == s[i + 2..e];
    assert s[i..e] == "--" + s[i + 2..e];
  }

  /**
   * Every occurrence of the pattern is reported unless an earlier candidate's
   * run of `[a-z0-9-]` reaches it. In particular one that starts the text or
   * follows a character outside that class (a space, `(`, `:`, `;`, a line
   * break …) is found, as is the `--featured` of `.card--featured`, and
   * repeated occurrences collapse into one entry.
   */
  lemma ExtractTokensComplete(s: string, i: int, e: int)
    requires TokenMatchAt(s, i, e)
    requires NotSwallowed(s, 0, i)
    ensures s[i..e] in ExtractTokens(s)
  {
    var caps := TokenCapturesFrom(s, 0);
    TokenCapturesComplete(s, 0, i, e);
    var j :| 0 <= j < |caps| && caps[j] == s[i + 2..e];
    assert s[i..e] == "--" + s[i + 2..e];
    assert Rebuild(caps)[j] == s[i..e];
  }

  /** The token list is exactly the texts of the scan's matches. */
  lemma ExtractTokensExact(s: string, x: string)
    ensures x in ExtractTokens(s) <==>
      exists i, e :: TokenMatchAt(s, i, e) && NotSwallowed(s, 0, i) && x == s[i..e]
  {
    if x in ExtractTokens(s) {
      ExtractTokensSound(s, x);
    }
    if exists i, e :: TokenMatchAt(s, i, e) && NotSwallowed(s, 0, i) && x == s[i..e] {
      var i, e :| TokenMatchAt(s, i, e) && NotSwallowed(s, 0, i) && x == s[i..e];
      ExtractTokensComplete(s, i, e);
    }
  }

  /** A token after a break character is never swallowed. */
  lemma AfterBreakNotSwallowed(s: string, i: int)
    requires 0 <= i <= |s|
    requires i == 0 || !IsNameChar(s[i - 1])
    ensures NotSwallowed(s, 0, i)
  {
    forall j | 0 <= j < i && TokenStartAt(s, j)
      ensures exists m :: j <= m < i && !IsNameChar(s[m])
    {
      assert !IsNameChar(s[i - 1]);
    }
  }

  /** A BEM modifier glued to a class name still yields its token: `x--y` gives `--y`. */
  lemma ModifierExample()
    ensures ExtractTokens("x--y") == ["--y"]
  {
    var s := "x--y";
    assert RunEnd(s, 4) == 4;
    assert TokenCapturesFrom(s, 1) == [s[3..4]] + TokenCapturesFrom(s, 4);
    assert s[3..4] == "y";
    assert TokenCapturesFrom(s, 0) == ["y"];
    assert "--" + "y" == "--y";
    assert Rebuild(["y"]) == ["--y"];
    assert SortUnique(["--y"]) == ["--y"];
  }


  lemma TokenStartShift(a: string, b: string, k: nat)
    requires k < |b|
    ensures TokenStartAt(a + b, |a| + k) <==> TokenStartAt(b, k)
  {
    var s := a + b;
    assert s[|a| + k] == b[k];
    assert k + 1 < |b| ==> s[|a| + k + 1] == b[k + 1];
    assert k + 2 < |b| ==> s[|a| + k + 2] == b[k + 2];
  }

  lemma TokenStartPrefix(a: string, b: string, k: nat)
    requires a != [] && !IsNameChar(a[|a| - 1])
    requires k < |a|
    ensures TokenStartAt(a + b, k) ==> TokenStartAt(a, k)
    ensures TokenStartAt(a, k) ==> TokenStartAt(a + b, k)
  {
    var s := a + b;
    assert s[k] == a[k];
    assert k + 1 < |a| ==> s[k + 1] == a[k + 1];
    assert k + 2 < |a| ==> s[k + 2] == a[k + 2];
  }

  lemma {:induction false} TokenCapturesShift(a: string, b: string, k: nat)
    requires k <= |b|
    ensures TokenCapturesFrom(a + b, |a| + k) == TokenCapturesFrom(b, k)
    decreases |b| - k, 1
  {
    if k < |b| {
      TokenStartShift(a, b, k);
      if TokenStartAt(b, k) {
        TokenCapturesShiftAtStart(a, b, k);
      } else {
        TokenCapturesShiftSkip(a, b, k);
      }
    }
  }

  lemma {:induction false} TokenCapturesShiftAtStart(a: string, b: string, k: nat)
    requires k < |b| && TokenStartAt(b, k) && TokenStartAt(a + b, |a| + k)
    ensures TokenCapturesFrom(a + b, |a| + k) == TokenCapturesFrom(b, k)
    decreases |b| - k, 0
  {
    var s := a + b;
    RunEndShift(a, b, k + 3);
    var e := RunEnd(b, k + 3);
    SliceRight(a, b, k + 2, e);
    TokenCapturesShift(a, b, e);
    assert TokenCapturesFrom(s, |a| + k) == [s[|a| + k + 2..|a| + e]] + TokenCapturesFrom(s, |a| + e);
  }

  lemma {:induction false} TokenCapturesShiftSkip(a: string, b: string, k: nat)
    requires k < |b| && !TokenStartAt(b, k) && !TokenStartAt(a + b, |a| + k)
    ensures TokenCapturesFrom(a + b, |a| + k) == TokenCapturesFrom(b, k)
    decreases |b| - k, 0
  {
    var s := a + b;
    assert TokenCapturesFrom(b, k) == TokenCapturesFrom(b, k + 1);
    assert TokenCapturesFrom(s, |a| + k) == TokenCapturesFrom(s, |a| + (k + 1));
    TokenCapturesShift(a, b, k + 1);
  }

  lemma {:induction false} TokenCapturesPrefix(a: string, b: string, k: nat)
    requires a != [] && !IsNameChar(a[|a| - 1])
    requires k <= |a|
    ensures TokenCapturesFrom(a + b, k) == TokenCapturesFrom(a, k) + TokenCapturesFrom(a + b, |a|)
    decreases |a| - k, 1
  {
    if k < |a| {
      TokenStartPrefix(a, b, k);
      if TokenStartAt(a, k) {
        TokenCapturesPrefixAtStart(a, b, k);
      } else {
        TokenCapturesPrefixSkip(a, b, k);
      }
    }
  }

  lemma {:induction false} TokenCapturesPrefixAtStart(a: string, b: string, k: nat)
    requires a != [] && !IsNameChar(a[|a| - 1])
    requires k < |a| && TokenStartAt(a, k) && TokenStartAt(a + b, k)
    ensures TokenCapturesFrom(a + b, k) == TokenCapturesFrom(a, k) + TokenCapturesFrom(a + b, |a|)
    decreases |a| - k, 0
  {
    var s := a + b;
    RunEndPrefix(a, b, k + 3);
    var e := RunEnd(a, k + 3);
    SliceLeft(a, b, k + 2, e);
    TokenCapturesPrefix(a, b, e);
    assert TokenCapturesFrom(s, k) == [s[k + 2..e]] + TokenCapturesFrom(s, e);
    assert TokenCapturesFrom(a, k) == [a[k + 2..e]] + TokenCapturesFrom(a, e);
    assert [a[k + 2..e]] + (TokenCapturesFrom(a, e) + TokenCapturesFrom(s, |a|))
        == ([a[k + 2..e]] + TokenCapturesFrom(a, e)) + TokenCapturesFrom(s, |a|);
  }

  lemma {:induction false} TokenCapturesPrefixSkip(a: string, b: string, k: nat)
    requires a != [] && !IsNameChar(a[|a| - 1])
    requires k < |a| && !TokenStartAt(a, k) && !TokenStartAt(a + b, k)
    ensures TokenCapturesFrom(a + b, k) == TokenCapturesFrom(a, k) + TokenCapturesFrom(a + b, |a|)
    decreases |a| - k, 0
  {
    var s := a + b;
    assert TokenCapturesFrom(a, k) == TokenCapturesFrom(a, k + 1);
    assert TokenCapturesFrom(s, k) == TokenCapturesFrom(s, k + 1);
    TokenCapturesPrefix(a, b, k + 1);
  }

  /**
   * A character outside `[a-z0-9-]` separates the scan: on text that has one
   * just before b, it reports the first part's groups, then b's.
   */
  lemma TokenCapturesSplit(a: string, b: string)
    requires a != [] && !IsNameChar(a[|a| - 1])
    ensures TokenCapturesFrom(a + b, 0) == TokenCapturesFrom(a, 0) + TokenCapturesFrom(b, 0)
  {
    TokenCapturesPrefix(a, b, 0);
    TokenCapturesShift(a, b, 0);
  }

  /** The scan is left to right and non-overlapping: `---foo` yields `--foo`. */
  lemma ThreeHyphensExample()
    ensures ExtractTokens("---foo") == ["--foo"]
  {
    var s := "---foo";
    assert RunEnd(s, 4) == 6;
    assert TokenCapturesFrom(s, 1) == [s[3..6]] + TokenCapturesFrom(s, 6);
    assert s[3..6] == "foo";
    assert TokenCapturesFrom(s, 0) == ["foo"];
    assert "--" + "foo" == "--foo";
    assert Rebuild(["foo"]) == ["--foo"];
    assert SortUnique(["--foo"]) == ["--foo"];
  }

  /** A match swallows the hyphens and letters after it: `--a--b` yields only `--a--b`. */
  lemma NoOverlapExample()
    ensures ExtractTokens("--a--b") == ["--a--b"]
  {
    var s := "--a--b";
    assert RunEnd(s, 3) == 6;
    assert TokenCapturesFrom(s, 0) == [s[2..6]] + TokenCapturesFrom(s, 6);
    assert s[2..6] == "a--b";
    assert "--" + "a--b" == "--a--b";
    assert Rebuild(["a--b"]) == ["--a--b"];
    assert SortUnique(["--a--b"]) == ["--a--b"];
  }

  /** Text without a hyphen holds no match. */
  lemma {:induction false} NoHyphenNoCaptures(s: string, k: nat)
    requires k <= |s|
    requires forall j :: k <= j < |s| ==> s[j] != '-'
    ensures TokenCapturesFrom(s, k) == []
    decreases |s| - k
  {
    if k < |s| {
      NoHyphenNoCaptures(s, k + 1);
    }
  }

  lemma VarReference()
    ensures TokenCapturesFrom("--x);", 0) == ["x"]
  {
    var d := "--x);";
    assert d[0] == '-' && d[1] == '-' && IsLower(d[2]);
    assert RunEnd(d, 3) == 3;
    assert TokenCapturesFrom(d, 0) == [d[2..3]] + TokenCapturesFrom(d, 3);
    NoHyphenNoCaptures(d, 3);
    assert d[2..3] == "x";
  }

  /** A token used inside `var(...)` is found too, and its repeats collapse. */
  lemma VarRepeatExample()
    ensures ExtractTokens("a:var(" + "--x);" + "b:var(" + "--x);") == ["--x"]
  {
    var p0, p1, p2 := "a:var(", "--x);", "b:var(";
    assert p0 + p1 + p2 + p1 == p0 + (p1 + (p2 + p1));
    TokenCapturesSplit(p0, p1 + (p2 + p1));
    TokenCapturesSplit(p1, p2 + p1);
    TokenCapturesSplit(p2, p1);
    NoHyphenNoCaptures(p0, 0);
    NoHyphenNoCaptures(p2, 0);
    VarReference();
    assert TokenCapturesFrom(p0 + p1 + p2 + p1, 0) == ["x", "x"];
    var names := Rebuild(["x", "x"]);
    assert names[0] == "--" + "x" == "--x" && names[1] == "--x";
    assert names == ["--x", "--x"];
    SortedSetUnique(SortUnique(names), ["--x"]);
  }

  /**
   * A declaration `--name` followed by text without a hyphen holds one
   * match, whose group is the name.
   */
  lemma DeclarationCaptures(name: string, rest: string)
    requires name != [] && IsLower(name[0])
    requires forall j :: 0 <= j < |name| ==> IsNameChar(name[j])
    requires rest == [] || !IsNameChar(rest[0])
    requires forall j :: 0 <= j < |rest| ==> rest[j] != '-'
    ensures TokenCapturesFrom("--" + name + rest, 0) == [name]
    ensures rest != [] ==> ("--" + name + rest)[|"--" + name + rest| - 1] == rest[|rest| - 1]
  {
    var p := "--" + name;
    var d := p + rest;
    assert d[0] == '-' && d[1] == '-' && d[2] == name[0];
    assert TokenStartAt(d, 0);
    DeclarationRun(name, rest);
    assert d[..|p|] == p;
    assert d[2..|p|] == p[2..] == name;
    DeclarationTail(p, rest);
  }

  lemma DeclarationRun(name: string, rest: string)
    requires name != []
    requires forall j :: 0 <= j < |name| ==> IsNameChar(name[j])
    requires rest == [] || !IsNameChar(rest[0])
    ensures RunEnd("--" + name + rest, 3) == 2 + |name|
  {
    var d := "--" + name + rest;
    forall j | 3 <= j < 2 + |name|
      ensures IsNameChar(d[j])
    {
      assert d[j] == name[j - 2];
    }
    assert 2 + |name| < |d| ==> d[2 + |name|] == rest[0];
    RunEndUnique(d, 3, 2 + |name|);
  }

  lemma DeclarationTail(p: string, rest: string)
    requires forall j :: 0 <= j < |rest| ==> rest[j] != '-'
    ensures TokenCapturesFrom(p + rest, |p|) == []
  {
    TokenCapturesShift(p, rest, 0);
    NoHyphenNoCaptures(rest, 0);
  }

  /** The four declarations of the example theme, as name and the text after it. */
  const ThemeNames: seq<string> := ["c-primary", "s-sm", "bg-page", "weird-one"]
  const ThemeValues: seq<string> := [":#000;", ":4px;", ":#fff;", ":1}"]

  /** Declaration k of the example theme, `--name:value` and its terminator. */
  function ThemeDecl(k: nat): string
    requires k < 4
  {
    "--" + ThemeNames[k] + ThemeValues[k]
  }

  /** Each declaration of the example theme holds one match, and ends outside `[a-z0-9-]`. */
  lemma ThemeDeclaration(k: nat)
    requires k < 4
    ensures TokenCapturesFrom(ThemeDecl(k), 0) == [ThemeNames[k]]
    ensures ThemeDecl(k) != [] && !IsNameChar(ThemeDecl(k)[|ThemeDecl(k)| - 1])
  {
    var name, rest := ThemeNames[k], ThemeValues[k];
    DeclarationCaptures(name, rest);
    assert rest[|rest| - 1] in ";}";
  }

  lemma ThemeSorted()
    ensures StrictlySorted(["--bg-page", "--c-primary", "--s-sm", "--weird-one"])
  {
  }

  /** Five pieces, each ending outside `[a-z0-9-]` but the last, are scanned one after another. */
  lemma TokenCapturesSplit5(p0: string, p1: string, p2: string, p3: string, p4: string)
    requires p0 != [] && !IsNameChar(p0[|p0| - 1])
    requires p1 != [] && !IsNameChar(p1[|p1| - 1])
    requires p2 != [] && !IsNameChar(p2[|p2| - 1])
    requires p3 != [] && !IsNameChar(p3[|p3| - 1])
    ensures TokenCapturesFrom(p0 + p1 + p2 + p3 + p4, 0)
         == TokenCapturesFrom(p0, 0) + TokenCapturesFrom(p1, 0) + TokenCapturesFrom(p2, 0)
          + TokenCapturesFrom(p3, 0) + TokenCapturesFrom(p4, 0)
  {
    assert p0 + p1 + p2 + p3 + p4 == p0 + (p1 + (p2 + (p3 + p4)));
    TokenCapturesSplit(p3, p4);
    TokenCapturesSplit(p2, p3 + p4);
    TokenCapturesSplit(p1, p2 + (p3 + p4));
    TokenCapturesSplit(p0, p1 + (p2 + (p3 + p4)));
  }

  lemma RootOpening()
    ensures TokenCapturesFrom(":root{", 0) == []
    ensures !IsNameChar(":root{"[|":root{"| - 1])
  {
    NoHyphenNoCaptures(":root{", 0);
  }

  /** A `:root{` opening followed by four declarations of one match each. */
  lemma RootBlockCaptures(d0: string, d1: string, d2: string, d3: string, names: seq<string>)
    requires |names| == 4
    requires d0 != [] && !IsNameChar(d0[|d0| - 1]) && TokenCapturesFrom(d0, 0) == [names[0]]
    requires d1 != [] && !IsNameChar(d1[|d1| - 1]) && TokenCapturesFrom(d1, 0) == [names[1]]
    requires d2 != [] && !IsNameChar(d2[|d2| - 1]) && TokenCapturesFrom(d2, 0) == [names[2]]
    requires TokenCapturesFrom(d3, 0) == [names[3]]
    ensures TokenCapturesFrom(":root{" + d0 + d1 + d2 + d3, 0) == names
  {
    RootOpening();
    TokenCapturesSplit5(":root{", d0, d1, d2, d3);
  }

  lemma ThemeCaptures()
    ensures TokenCapturesFrom(":root{" + ThemeDecl(0) + ThemeDecl(1) + ThemeDecl(2) + ThemeDecl(3), 0) == ThemeNames
  {
    ThemeDeclaration(0);
    ThemeDeclaration(1);
    ThemeDeclaration(2);
    ThemeDeclaration(3);
    RootBlockCaptures(ThemeDecl(0), ThemeDecl(1), ThemeDecl(2), ThemeDecl(3), ThemeNames);
  }

  lemma ThemeText()
    ensures ":root{" + ThemeDecl(0) + ThemeDecl(1) + ThemeDecl(2) + ThemeDecl(3)
         == ":root{" + "--c-primary:#000;" + "--s-sm:4px;" + "--bg-page:#fff;" + "--weird-one:1}"
  {
    assert ThemeDecl(0) == "--c-primary:#000;";
    assert ThemeDecl(1) == "--s-sm:4px;";
    assert ThemeDecl(2) == "--bg-page:#fff;";
    assert ThemeDecl(3) == "--weird-one:1}";
  }

  /** A `:root` block with four declarations yields one token each, sorted. */
  lemma ThemeExample()
    ensures ExtractTokens(":root{" + "--c-primary:#000;" + "--s-sm:4px;" + "--bg-page:#fff;" + "--weird-one:1}")
         == ["--bg-page", "--c-primary", "--s-sm", "--weird-one"]
  {
    ThemeText();
    ThemeCaptures();
    var names := Rebuild(ThemeNames);
    assert names[0] == "--" + "c-primary" == "--c-primary";
    assert names[1] == "--" + "s-sm" == "--s-sm";
    assert names[2] == "--" + "bg-page" == "--bg-page";
    assert names[3] == "--" + "weird-one" == "--weird-one";
    assert names == ["--c-primary", "--s-sm", "--bg-page", "--weird-one"];
    var sorted := ["--bg-page", "--c-primary", "--s-sm", "--weird-one"];
    ThemeSorted();
    SortedSetUnique(SortUnique(names), sorted);
  }
}
