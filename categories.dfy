/**
 * categorizeTokens: ten buckets, each an order-preserving filter of the token
 * list. Nine test a fixed prefix with `startsWith`; `other` keeps the tokens
 * the pattern /^--(c|bg|s|r|b|x|t|z|a)-/ does not match.
 */
module Categories {
  import opened Chars
  import opened Lex

  datatype Category =
    | Colors | Backgrounds | Spacing | Radii | Borders
    | Effects | Typography | ZIndex | Animation | Other

  /** The object categorizeTokens returns, one field per bucket. */
  datatype TokensByCategory = TokensByCategory(
    colors: seq<string>,
    backgrounds: seq<string>,
    spacing: seq<string>,
    radii: seq<string>,
    borders: seq<string>,
    effects: seq<string>,
    typography: seq<string>,
    zIndex: seq<string>,
    animation: seq<string>,
    other: seq<string>)
  {
    function Bucket(c: Category): seq<string>
    {
      match c
      case Colors => colors
      case Backgrounds => backgrounds
      case Spacing => spacing
      case Radii => radii
      case Borders => borders
      case Effects => effects
      case Typography => typography
      case ZIndex => zIndex
      case Animation => animation
      case Other => other
    }

    /** The buckets of the categories `cs`, concatenated in that order. */
    function Gather(cs: seq<Category>): seq<string>
    {
      if cs == [] then [] else Bucket(cs[0]) + Gather(cs[1..])
    }

    /** All buckets, concatenated in the order the object lists them. */
    function Flatten(): seq<string>
    {
      Gather(AllCategories)
    }
  }

  /** The categories in the order categorizeTokens lists them. */
  const AllCategories: seq<Category> :=
    [Colors, Backgrounds, Spacing, Radii, Borders, Effects, Typography, ZIndex, Animation, Other]

  /** The prefix each named bucket's `startsWith` tests. */
  function Prefix(c: Category): string
    requires c != Other
  {
    match c
    case Colors => "--c-"
    case Backgrounds => "--bg-"
    case Spacing => "--s-"
    case Radii => "--r-"
    case Borders => "--b-"
    case Effects => "--x-"
    case Typography => "--t-"
    case ZIndex => "--z-"
    case Animation => "--a-"
  }

  /**
   * A hand-written matcher for /^--(c|bg|s|r|b|x|t|z|a)-/ (no `m` flag, so
   * `^` is only index 0): two hyphens, one of the alternatives, a hyphen.
   */
  predicate MatchesCategoryPattern(t: string)
  {
    && |t| >= 4 && t[0] == '-' && t[1] == '-'
    && (|| (t[2] == 'c' && t[3] == '-')
        || (|t| >= 5 && t[2] == 'b' && t[3] == 'g' && t[4] == '-')
        || (t[2] == 's' && t[3] == '-')
        || (t[2] == 'r' && t[3] == '-')
        || (t[2] == 'b' && t[3] == '-')
        || (t[2] == 'x' && t[3] == '-')
        || (t[2] == 't' && t[3] == '-')
        || (t[2] == 'z' && t[3] == '-')
        || (t[2] == 'a' && t[3] == '-'))
  }

  /** The test each bucket's filter applies. */
  predicate InCategory(t: string, c: Category)
  {
    if c == Other then !MatchesCategoryPattern(t) else StartsWith(t, Prefix(c))
  }

  /** `a` is `b` with some elements left out, the rest in their order. */
  predicate IsSubsequence(a: seq<string>, b: seq<string>)
    decreases |b|
  {
    if b == [] then a == []
    else (a != [] && a[0] == b[0] && IsSubsequence(a[1..], b[1..])) || IsSubsequence(a, b[1..])
  }

  /** `tokens.filter(t => InCategory(t, c))`. */
  function KeepIn(tokens: seq<string>, c: Category): (kept: seq<string>)
    ensures forall t :: t in kept <==> t in tokens && InCategory(t, c)
    ensures IsSubsequence(kept, tokens)
  {
    if tokens == [] then []
    else if InCategory(tokens[0], c) then
      assert tokens == [tokens[0]] + tokens[1..];
      [tokens[0]] + KeepIn(tokens[1..], c)
    else
      assert tokens == [tokens[0]] + tokens[1..];
      KeepIn(tokens[1..], c)
  }

  /** The filter keeps every occurrence of a passing token and none of the others. */
  lemma {:induction false} KeepInCounts(tokens: seq<string>, c: Category)
    ensures forall t :: multiset(KeepIn(tokens, c))[t] == if InCategory(t, c) then multiset(tokens)[t] else 0
  {
    if tokens != [] {
      KeepInCounts(tokens[1..], c);
      assert tokens == [tokens[0]] + tokens[1..];
    }
  }

  /** `categorizeTokens(tokens)`. */
  function CategorizeTokens(tokens: seq<string>): (r: TokensByCategory)
    ensures forall c: Category :: r.Bucket(c) == KeepIn(tokens, c)
  {
    TokensByCategory(
      KeepIn(tokens, Colors),
      KeepIn(tokens, Backgrounds),
      KeepIn(tokens, Spacing),
      KeepIn(tokens, Radii),
      KeepIn(tokens, Borders),
      KeepIn(tokens, Effects),
      KeepIn(tokens, Typography),
      KeepIn(tokens, ZIndex),
      KeepIn(tokens, Animation),
      KeepIn(tokens, Other))
  }

  /**
   * The reference classification: the first entry of the prefix table the
   * token starts with, and Other when there is none.
   */
  function CategoryOf(t: string): Category
  {
    if StartsWith(t, "--c-") then Colors
    else if StartsWith(t, "--bg-") then Backgrounds
    else if StartsWith(t, "--s-") then Spacing
    else if StartsWith(t, "--r-") then Radii
    else if StartsWith(t, "--b-") then Borders
    else if StartsWith(t, "--x-") then Effects
    else if StartsWith(t, "--t-") then Typography
    else if StartsWith(t, "--z-") then ZIndex
    else if StartsWith(t, "--a-") then Animation
    else Other
  }

  /** A four-character prefix `--a-` tested character by character. */
  lemma ShortPrefixChars(t: string, a: char)
    ensures StartsWith(t, ['-', '-', a, '-']) <==>
      |t| >= 4 && t[0] == '-' && t[1] == '-' && t[2] == a && t[3] == '-'
  {
    if |t| >= 4 && t[0] == '-' && t[1] == '-' && t[2] == a && t[3] == '-' {
      assert t[..4] == ['-', '-', a, '-'];
    }
  }

  /** The five-character prefix `--bg-` tested character by character. */
  lemma BackgroundPrefixChars(t: string)
    ensures StartsWith(t, "--bg-") <==>
      |t| >= 5 && t[0] == '-' && t[1] == '-' && t[2] == 'b' && t[3] == 'g' && t[4] == '-'
  {
    if |t| >= 5 && t[0] == '-' && t[1] == '-' && t[2] == 'b' && t[3] == 'g' && t[4] == '-' {
      assert t[..5] == "--bg-";
    }
  }

  /** All nine prefix tests of `t`, character by character. */
  lemma PrefixTestsChars(t: string)
    ensures StartsWith(t, "--c-") <==> |t| >= 4 && t[0] == '-' && t[1] == '-' && t[2] == 'c' && t[3] == '-'
    ensures StartsWith(t, "--bg-") <==>
      |t| >= 5 && t[0] == '-' && t[1] == '-' && t[2] == 'b' && t[3] == 'g' && t[4] == '-'
    ensures StartsWith(t, "--s-") <==> |t| >= 4 && t[0] == '-' && t[1] == '-' && t[2] == 's' && t[3] == '-'
    ensures StartsWith(t, "--r-") <==> |t| >= 4 && t[0] == '-' && t[1] == '-' && t[2] == 'r' && t[3] == '-'
    ensures StartsWith(t, "--b-") <==> |t| >= 4 && t[0] == '-' && t[1] == '-' && t[2] == 'b' && t[3] == '-'
    ensures StartsWith(t, "--x-") <==> |t| >= 4 && t[0] == '-' && t[1] == '-' && t[2] == 'x' && t[3] == '-'
    ensures StartsWith(t, "--t-") <==> |t| >= 4 && t[0] == '-' && t[1] == '-' && t[2] == 't' && t[3] == '-'
    ensures StartsWith(t, "--z-") <==> |t| >= 4 && t[0] == '-' && t[1] == '-' && t[2] == 'z' && t[3] == '-'
    ensures StartsWith(t, "--a-") <==> |t| >= 4 && t[0] == '-' && t[1] == '-' && t[2] == 'a' && t[3] == '-'
  {
    ShortPrefixChars(t, 'c');
    BackgroundPrefixChars(t);
    ShortPrefixChars(t, 's');
    ShortPrefixChars(t, 'r');
    ShortPrefixChars(t, 'b');
    ShortPrefixChars(t, 'x');
    ShortPrefixChars(t, 't');
    ShortPrefixChars(t, 'z');
    ShortPrefixChars(t, 'a');
  }

  /** The `other` pattern matches exactly the tokens that carry one of the nine prefixes. */
  lemma OtherPatternIffPrefixed(t: string)
    ensures MatchesCategoryPattern(t) <==> exists c: Category :: c != Other && StartsWith(t, Prefix(c))
  {
    PrefixTestsChars(t);
    if MatchesCategoryPattern(t) {
      assert StartsWith(t, Prefix(CategoryOf(t)));
    }
  }

  /**
   * Every token passes exactly one bucket's test: the prefixes exclude each
   * other (`--bg-x` is not a border), and `other` takes the rest.
   */
  lemma InCategoryIffCategoryOf(t: string, c: Category)
    ensures InCategory(t, c) <==> CategoryOf(t) == c
  {
    OtherPatternIffPrefixed(t);
    PrefixTestsChars(t);
  }

  /**
   * The buckets partition the input: put together they hold every token
   * exactly as often as the input does.
   */
  lemma {:induction false} CategorizeTokensPartition(tokens: seq<string>)
    ensures multiset(CategorizeTokens(tokens).Flatten()) == multiset(tokens)
  {
    if tokens != [] {
      var t, rest := tokens[0], tokens[1..];
      assert tokens == [t] + rest;
      CategorizeTokensPartition(rest);
      var k := CategoryOf(t);
      CategorizeCons(t, rest);
      AllCategoriesListed(k);
      GatherStep(t, k, CategorizeTokens(tokens), CategorizeTokens(rest), AllCategories);
    } else {
      GatherEmpty(CategorizeTokens(tokens), AllCategories);
    }
  }

  lemma {:induction false} GatherEmpty(r: TokensByCategory, cs: seq<Category>)
    requires forall c: Category :: r.Bucket(c) == []
    ensures r.Gather(cs) == []
  {
    if cs != [] {
      GatherEmpty(r, cs[1..]);
    }
  }

  /** No category occurs twice in cs. */
  predicate NoRepeats(cs: seq<Category>)
  {
    forall i, j :: 0 <= i < j < |cs| ==> cs[i] != cs[j]
  }

  /** The category list names each category once. */
  lemma AllCategoriesListed(k: Category)
    ensures k in AllCategories
    ensures NoRepeats(AllCategories)
  {
  }

  lemma KeepInCons(t: string, rest: seq<string>, c: Category)
    ensures KeepIn([t] + rest, c) == (if CategoryOf(t) == c then [t] else []) + KeepIn(rest, c)
  {
    InCategoryIffCategoryOf(t, c);
    assert ([t] + rest)[1..] == rest;
  }

  /** A token put in front adds it to the bucket of its category and changes no other bucket. */
  lemma CategorizeCons(t: string, rest: seq<string>)
    ensures CategorizeTokens([t] + rest).Bucket(CategoryOf(t)) == [t] + CategorizeTokens(rest).Bucket(CategoryOf(t))
    ensures forall c: Category :: c != CategoryOf(t) ==>
      CategorizeTokens([t] + rest).Bucket(c) == CategorizeTokens(rest).Bucket(c)
  {
    KeepInCons(t, rest, CategoryOf(t));
    forall c: Category | c != CategoryOf(t)
      ensures CategorizeTokens([t] + rest).Bucket(c) == CategorizeTokens(rest).Bucket(c)
    {
      KeepInCons(t, rest, c);
    }
  }

  /** The tail of a repeat-free list is repeat-free and does not hold its head. */
  lemma NoRepeatsTail(cs: seq<Category>)
    requires cs != [] && NoRepeats(cs)
    ensures NoRepeats(cs[1..]) && cs[0] !in cs[1..]
  {
    var cs' := cs[1..];
    forall i, j | 0 <= i < j < |cs'|
      ensures cs'[i] != cs'[j]
    {
      assert cs'[i] == cs[i + 1] && cs'[j] == cs[j + 1];
    }
    forall j | 0 <= j < |cs'|
      ensures cs'[j] != cs[0]
    {
      assert cs'[j] == cs[j + 1];
    }
  }

  /** Adding t to bucket k and nowhere else adds it once to the gathered buckets of cs, if k is among them. */
  lemma {:induction false} GatherStep(t: string, k: Category, r: TokensByCategory, r': TokensByCategory, cs: seq<Category>)
    requires r.Bucket(k) == [t] + r'.Bucket(k)
    requires forall c: Category :: c != k ==> r.Bucket(c) == r'.Bucket(c)
    requires NoRepeats(cs)
    ensures multiset(r.Gather(cs)) == multiset(r'.Gather(cs)) + (if k in cs then multiset{t} else multiset{})
  {
    if cs != [] {
      var c, cs' := cs[0], cs[1..];
      NoRepeatsTail(cs);
      GatherStep(t, k, r, r', cs');
      var g, g' := r.Gather(cs'), r'.Gather(cs');
      var bc, bc' := r.Bucket(c), r'.Bucket(c);
      assert r.Gather(cs) == bc + g;
      assert r'.Gather(cs) == bc' + g';
      assert multiset(bc + g) == multiset(bc) + multiset(g);
      assert multiset(bc' + g') == multiset(bc') + multiset(g');
      assert k in cs <==> k == c || k in cs';
      if c == k {
        assert multiset(bc) == multiset{t} + multiset(bc');
      } else {
        assert bc == bc';
      }
    }
  }

  lemma {:induction false} SubsequenceMembers(a: seq<string>, b: seq<string>, y: string)
    requires IsSubsequence(a, b) && y in a
    ensures y in b
    decreases |b|
  {
    if b != [] {
      if a != [] && a[0] == b[0] && IsSubsequence(a[1..], b[1..]) {
        if y != a[0] {
          assert a == [a[0]] + a[1..];
          SubsequenceMembers(a[1..], b[1..], y);
        }
      } else {
        SubsequenceMembers(a, b[1..], y);
      }
    }
  }

  lemma {:induction false} SubsequenceSorted(a: seq<string>, b: seq<string>)
    requires IsSubsequence(a, b) && StrictlySorted(b)
    ensures StrictlySorted(a)
    decreases |b|
  {
    if b != [] {
      assert StrictlySorted(b[1..]) by {
        forall i, j | 0 <= i < j < |b[1..]|
          ensures Less(b[1..][i], b[1..][j])
        {
          assert b[1..][i] == b[i + 1] && b[1..][j] == b[j + 1];
        }
      }
      if a != [] && a[0] == b[0] && IsSubsequence(a[1..], b[1..]) {
        SubsequenceSorted(a[1..], b[1..]);
        forall y | y in a[1..]
          ensures Less(a[0], y)
        {
          SubsequenceMembers(a[1..], b[1..], y);
          var k :| 0 <= k < |b[1..]| && b[1..][k] == y;
          assert b[k + 1] == y;
        }
        PrependSorted(a[0], a[1..]);
        assert a == [a[0]] + a[1..];
      } else {
        SubsequenceSorted(a, b[1..]);
      }
    }
  }

  /**
   * Each bucket keeps the input's order; in particular the buckets of a
   * sorted, duplicate-free token list are sorted and duplicate-free.
   */
  lemma CategorizeTokensOrdered(tokens: seq<string>, c: Category)
    ensures IsSubsequence(CategorizeTokens(tokens).Bucket(c), tokens)
    ensures StrictlySorted(tokens) ==> StrictlySorted(CategorizeTokens(tokens).Bucket(c))
  {
    if StrictlySorted(tokens) {
      SubsequenceSorted(KeepIn(tokens, c), tokens);
    }
  }

  /** A token is in bucket c exactly when it is an input token whose category is c. */
  lemma CategorizeTokensMembers(tokens: seq<string>, t: string, c: Category)
    ensures t in CategorizeTokens(tokens).Bucket(c) <==> t in tokens && CategoryOf(t) == c
  {
    InCategoryIffCategoryOf(t, c);
  }

  /**
   * The buckets are pairwise disjoint, and every input token lands in one
   * of them.
   */
  lemma CategorizeTokensDisjoint(tokens: seq<string>, t: string, c1: Category, c2: Category)
    ensures t in CategorizeTokens(tokens).Bucket(c1) && t in CategorizeTokens(tokens).Bucket(c2) ==> c1 == c2
    ensures t in tokens ==> t in CategorizeTokens(tokens).Bucket(CategoryOf(t))
  {
    CategorizeTokensMembers(tokens, t, c1);
    CategorizeTokensMembers(tokens, t, c2);
    CategorizeTokensMembers(tokens, t, CategoryOf(t));
  }

  /** `--bg-` wins over `--b-`: a background token is not a border token. */
  lemma BackgroundNotBorderExample()
    ensures CategorizeTokens(["--bg-x", "--b-x", "--q"]).backgrounds == ["--bg-x"]
    ensures CategorizeTokens(["--bg-x", "--b-x", "--q"]).borders == ["--b-x"]
    ensures CategorizeTokens(["--bg-x", "--b-x", "--q"]).other == ["--q"]
  {
    var tokens := ["--bg-x", "--b-x", "--q"];
    assert CategoryOf("--bg-x") == Backgrounds by { PrefixTestsChars("--bg-x"); }
    assert CategoryOf("--b-x") == Borders by { PrefixTestsChars("--b-x"); }
    assert CategoryOf("--q") == Other by { PrefixTestsChars("--q"); }
    assert tokens == ["--bg-x"] + ["--b-x", "--q"];
    assert ["--b-x", "--q"] == ["--b-x"] + ["--q"];
    assert ["--q"] == ["--q"] + [];
    forall c: Category | c in {Backgrounds, Borders, Other}
      ensures KeepIn(tokens, c) ==
        (if c == Backgrounds then ["--bg-x"] + [] + [] else [])
        + (if c == Borders then ["--b-x"] else [])
        + (if c == Other then ["--q"] else [])
    {
      KeepInCons("--bg-x", ["--b-x", "--q"], c);
      KeepInCons("--b-x", ["--q"], c);
      KeepInCons("--q", [], c);
    }
  }

}
