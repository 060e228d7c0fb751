/**
 * extractDesignData: reads the extraction options, reports the missing
 * stylesheet as an error value, and otherwise assembles the classes and,
 * when asked for and available, the tokens of a theme.
 */
module Design {
  import opened Wrappers
  import opened Lex
  import opened Classes
  import opened Tokens
  import opened Categories

  /**
   * The options object. A field that is `undefined` is None; a field's
   * destructuring default applies only then.
   */
  datatype ExtractionOptions = ExtractionOptions(
    cssFile: Option<string>,
    cssContent: Option<string>,
    includeTokens: Option<bool>,
    theme: Option<string>,
    themeContent: Option<string>)

  /** The token fields, added to the result together or not at all. */
  datatype TokenReport = TokenReport(
    tokens: seq<string>,
    tokenCount: nat,
    tokensByCategory: TokensByCategory,
    theme: string)

  datatype ExtractionResult =
    | MissingInput(error: string)
    | Extracted(cssFile: Option<string>, classes: seq<string>, classCount: nat, tokenReport: Option<TokenReport>)

  const MissingCssMessage := "cssContent is required"
  const DefaultTheme := "high-fidelity"

  /** JavaScript truthiness of an optional string: present and not empty. */
  predicate Truthy(s: Option<string>)
  {
    s.Some? && s.value != ""
  }

  /** `extractDesignData(options)`; it never throws, the one failure is a value. */
  function ExtractDesignData(options: ExtractionOptions): (result: ExtractionResult)
    ensures result.MissingInput? <==> !Truthy(options.cssContent)
    ensures result.MissingInput? ==> result.error == MissingCssMessage
    ensures result.Extracted? ==>
      && result.cssFile == options.cssFile
      && result.classes == ExtractClasses(options.cssContent.value)
      && result.classCount == |result.classes|
    ensures result.Extracted? ==>
      (result.tokenReport.Some? <==> options.includeTokens.GetOr(true) && Truthy(options.themeContent))
    ensures result.Extracted? && result.tokenReport.Some? ==>
      var report := result.tokenReport.value;
      && report.tokens == ExtractTokens(options.themeContent.value)
      && report.tokenCount == |report.tokens|
      && report.tokensByCategory == CategorizeTokens(report.tokens)
      && report.theme == options.theme.GetOr(DefaultTheme)
  {
    if !Truthy(options.cssContent) then MissingInput(MissingCssMessage)
    else
      var classes := ExtractClasses(options.cssContent.value);
      var report :=
        if options.includeTokens.GetOr(true) && Truthy(options.themeContent) then
          var tokens := ExtractTokens(options.themeContent.value);
          Some(TokenReport(tokens, |tokens|, CategorizeTokens(tokens), options.theme.GetOr(DefaultTheme)))
        else None;
      Extracted(options.cssFile, classes, |classes|, report)
  }

  /**
   * What a successful result guarantees to the formatter: the classes and the
   * tokens are sorted without repeats and have their pattern's shape, and the
   * buckets hold the tokens exactly once each, in order.
   */
  lemma ExtractDesignDataWellFormed(options: ExtractionOptions)
    requires ExtractDesignData(options).Extracted?
    ensures var result := ExtractDesignData(options);
      && StrictlySorted(result.classes)
      && (forall x :: x in result.classes ==> IsClassName(x))
      && (result.tokenReport.Some? ==>
            var report := result.tokenReport.value;
            && StrictlySorted(report.tokens)
            && (forall x :: x in report.tokens ==> IsTokenName(x))
            && multiset(report.tokensByCategory.Flatten()) == multiset(report.tokens)
            && (forall c: Category :: StrictlySorted(report.tokensByCategory.Bucket(c))))
  {
    var result := ExtractDesignData(options);
    forall x | x in result.classes
      ensures IsClassName(x)
    {
      ExtractClassesShape(options.cssContent.value, x);
    }
    if result.tokenReport.Some? {
      var report := result.tokenReport.value;
      forall x | x in report.tokens
        ensures IsTokenName(x)
      {
        ExtractTokensSound(options.themeContent.value, x);
      }
      CategorizeTokensPartition(report.tokens);
      forall c: Category
        ensures StrictlySorted(report.tokensByCategory.Bucket(c))
      {
        CategorizeTokensOrdered(report.tokens, c);
      }
    }
  }

  /** An absent or empty stylesheet gives only the error, whatever the other options. */
  lemma MissingCssExample(options: ExtractionOptions)
    requires options.cssContent.None? || options.cssContent == Some("")
    ensures ExtractDesignData(options) == MissingInput("cssContent is required")
  {
  }
}
