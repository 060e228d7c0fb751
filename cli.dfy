/**
 * parseArgs: the command-line parser of the tool. It fills an options record
 * that starts from fixed defaults, field by field, in one pass over the
 * arguments.
 */
module Cli {
  import opened Wrappers
  import opened Chars

  datatype Command = List | Install

  /** The options record; a field left `null` by the parser is None. */
  datatype CliOptions = CliOptions(
    command: Option<Command>,
    cssFile: Option<string>,
    targetDir: Option<string>,
    includeTokens: bool,
    theme: string,
    format: string,
    help: bool)

  const DefaultTheme := "polished"
  const DefaultFormat := "human"
  const Defaults := CliOptions(None, None, None, false, DefaultTheme, DefaultFormat, false)

  predicate IsHelpFlag(arg: string)
  {
    arg == "--help" || arg == "-h"
  }

  /** The text before the first `=` of s (all of s when it has none). */
  function UpToEquals(s: string): (field: string)
    ensures '=' !in field
    ensures StartsWith(s, field)
    ensures |field| == |s| || s[|field|] == '='
  {
    if s == [] || s[0] == '=' then []
    else
      var rest := UpToEquals(s[1..]);
      assert ([s[0]] + rest)[1..] == rest;
      assert s[..|rest| + 1] == [s[0]] + s[1..][..|rest|];
      [s[0]] + rest
  }

  /** Where the first `=` of s is. */
  function IndexOfEquals(s: string): (i: nat)
    requires '=' in s
    ensures i < |s| && s[i] == '='
    ensures '=' !in s[..i]
  {
    if s[0] == '=' then 0
    else
      var i := IndexOfEquals(s[1..]);
      assert s[..i + 1] == [s[0]] + s[1..][..i];
      i + 1
  }

  /**
   * `arg.split('=')[1]`: the text between the first and the second `=`, or
   * to the end. It is only taken of arguments that hold a `=`.
   */
  function SecondField(arg: string): (field: string)
    requires '=' in arg
    ensures '=' !in field
    ensures var i := IndexOfEquals(arg);
      StartsWith(arg[i + 1..], field) && (i + 1 + |field| == |arg| || arg[i + 1 + |field|] == '=')
  {
    UpToEquals(arg[IndexOfEquals(arg) + 1..])
  }

  lemma PrefixHasEquals(arg: string, prefix: string)
    requires StartsWith(arg, prefix) && '=' in prefix
    ensures '=' in arg
  {
    var k :| 0 <= k < |prefix| && prefix[k] == '=';
    assert arg[k] == arg[..|prefix|][k];
  }

  /** The branch of the scan an argument takes. */
  datatype ArgKind =
    | HelpArg
    | IncludeTokensArg
    | ThemeArg(theme: string)
    | FormatArg(format: string)
    | PositionalArg(path: string)
    | IgnoredArg

  /** The scan's chain of tests, in its order; the first that holds decides. */
  function Classify(arg: string): ArgKind
  {
    if IsHelpFlag(arg) then HelpArg
    else if arg == "--include-tokens" then IncludeTokensArg
    else if StartsWith(arg, "--theme=") then
      PrefixHasEquals(arg, "--theme=");
      ThemeArg(SecondField(arg))
    else if StartsWith(arg, "--format=") then
      PrefixHasEquals(arg, "--format=");
      FormatArg(SecondField(arg))
    else if !StartsWith(arg, "--") then PositionalArg(arg)
    else IgnoredArg
  }

  /** The two settings an argument can carry, and what an argument says about them. */
  datatype Setting = Theme | Format

  function ValueFor(kind: ArgKind, setting: Setting): Option<string>
  {
    match (kind, setting)
    case (ThemeArg(t), Theme) => Some(t)
    case (FormatArg(f), Format) => Some(f)
    case _ => None
  }

  /** The branch each argument takes, in order. */
  function Kinds(xs: seq<string>): seq<ArgKind>
  {
    seq(|xs|, j requires 0 <= j < |xs| => Classify(xs[j]))
  }

  /**
   * v is the value the last of the first n arguments for `setting` carries,
   * or `default` when none of them does.
   */
  predicate LastValueIs(kinds: seq<ArgKind>, n: nat, setting: Setting, default: string, v: string)
    requires n <= |kinds|
  {
    && ((forall j :: 0 <= j < n ==> ValueFor(kinds[j], setting).None?) ==> v == default)
    && (forall j :: 0 <= j < n && ValueFor(kinds[j], setting).Some?
                    && (forall k :: j < k < n ==> ValueFor(kinds[k], setting).None?) ==>
          v == ValueFor(kinds[j], setting).value)
  }

  /** Positional and not empty: a path the `!options.cssFile` test keeps. */
  predicate IsCssPath(kind: ArgKind)
  {
    kind.PositionalArg? && kind.path != ""
  }

  /**
   * v is the first positional argument among the first n that is not empty;
   * an empty one is falsy and a later one replaces it. None when nothing is
   * positional.
   */
  predicate FirstCssFileIs(kinds: seq<ArgKind>, n: nat, v: Option<string>)
    requires n <= |kinds|
  {
    && (v.None? <==> forall j :: 0 <= j < n ==> !kinds[j].PositionalArg?)
    && (forall j :: 0 <= j < n && IsCssPath(kinds[j]) && (forall k :: 0 <= k < j ==> !IsCssPath(kinds[k])) ==>
          v == Some(kinds[j].path))
    && ((forall j :: 0 <= j < n ==> !IsCssPath(kinds[j])) ==> v.None? || v == Some(""))
  }

  /** What the scan of the first n arguments leaves in the options. */
  predicate ScannedUpTo(kinds: seq<ArgKind>, n: nat, options: CliOptions)
    requires n <= |kinds|
  {
    && (options.help <==> exists j :: 0 <= j < n && kinds[j].HelpArg?)
    && (options.includeTokens <==> exists j :: 0 <= j < n && kinds[j].IncludeTokensArg?)
    && LastValueIs(kinds, n, Theme, DefaultTheme, options.theme)
    && LastValueIs(kinds, n, Format, DefaultFormat, options.format)
    && FirstCssFileIs(kinds, n, options.cssFile)
  }

  /** What the scan of all the arguments xs leaves in the options. */
  predicate ScannedAs(xs: seq<string>, options: CliOptions)
  {
    ScannedUpTo(Kinds(xs), |xs|, options)
  }

  /** The arguments the scan visits: all but a leading `list`. */
  function ListArguments(args: seq<string>): seq<string>
    requires args != []
  {
    if args[0] == "list" then args[1..] else args
  }

  lemma LastValueStep(kinds: seq<ArgKind>, n: nat, setting: Setting, default: string, v: string)
    requires n < |kinds|
    requires LastValueIs(kinds, n, setting, default, v)
    ensures LastValueIs(kinds, n + 1, setting, default, ValueFor(kinds[n], setting).GetOr(v))
  {
  }

  lemma FirstCssFileStep(kinds: seq<ArgKind>, n: nat, v: Option<string>)
    requires n < |kinds|
    requires FirstCssFileIs(kinds, n, v)
    ensures FirstCssFileIs(kinds, n + 1,
      if kinds[n].PositionalArg? && (v.None? || v == Some("")) then Some(kinds[n].path) else v)
  {
    if kinds[n].PositionalArg? && !(v.None? || v == Some("")) {
      var j :| 0 <= j < n && IsCssPath(kinds[j]);
    }
  }

  /**
   * One turn of the loop body: `next` is `options` after an argument of the
   * given kind. Help and include-tokens flags set their field, a setting
   * overwrites its field, and a positional argument fills `cssFile` while it
   * is still falsy. Nothing else changes.
   */
  predicate StepsTo(options: CliOptions, kind: ArgKind, next: CliOptions)
  {
    && next.command == options.command
    && next.targetDir == options.targetDir
    && next.help == (options.help || kind.HelpArg?)
    && next.includeTokens == (options.includeTokens || kind.IncludeTokensArg?)
    && next.theme == ValueFor(kind, Theme).GetOr(options.theme)
    && next.format == ValueFor(kind, Format).GetOr(options.format)
    && next.cssFile ==
      if kind.PositionalArg? && (options.cssFile.None? || options.cssFile == Some("")) then Some(kind.path)
      else options.cssFile
  }

  lemma HelpStep(kinds: seq<ArgKind>, n: nat, before: bool, after: bool)
    requires n < |kinds|
    requires before <==> exists j :: 0 <= j < n && kinds[j].HelpArg?
    requires after == (before || kinds[n].HelpArg?)
    ensures after <==> exists j :: 0 <= j < n + 1 && kinds[j].HelpArg?
  {
    if before {
      var j :| 0 <= j < n && kinds[j].HelpArg?;
      assert 0 <= j < n + 1;
    }
  }

  lemma IncludeTokensStep(kinds: seq<ArgKind>, n: nat, before: bool, after: bool)
    requires n < |kinds|
    requires before <==> exists j :: 0 <= j < n && kinds[j].IncludeTokensArg?
    requires after == (before || kinds[n].IncludeTokensArg?)
    ensures after <==> exists j :: 0 <= j < n + 1 && kinds[j].IncludeTokensArg?
  {
    if before {
      var j :| 0 <= j < n && kinds[j].IncludeTokensArg?;
      assert 0 <= j < n + 1;
    }
  }

  /** The scan invariant survives one turn of the loop. */
  lemma ScannedStep(kinds: seq<ArgKind>, n: nat, options: CliOptions, next: CliOptions)
    requires n < |kinds|
    requires ScannedUpTo(kinds, n, options)
    requires StepsTo(options, kinds[n], next)
    ensures ScannedUpTo(kinds, n + 1, next)
  {
    HelpStep(kinds, n, options.help, next.help);
    IncludeTokensStep(kinds, n, options.includeTokens, next.includeTokens);
    LastValueStep(kinds, n, Theme, DefaultTheme, options.theme);
    LastValueStep(kinds, n, Format, DefaultFormat, options.format);
    FirstCssFileStep(kinds, n, options.cssFile);
  }

  /** Before the loop nothing has been scanned, and the options are the defaults. */
  lemma ScannedStart(kinds: seq<ArgKind>, start: CliOptions)
    requires start.cssFile.None? && !start.help && !start.includeTokens
    requires start.theme == DefaultTheme && start.format == DefaultFormat
    ensures ScannedUpTo(kinds, 0, start)
  {
  }

  /** The body of the `for` loop of parseArgs for one argument. */
  method ApplyArgument(options: CliOptions, arg: string) returns (next: CliOptions)
    ensures StepsTo(options, Classify(arg), next)
  {
    next := options;
    match Classify(arg) {
      case HelpArg =>
        next := next.(help := true);
      case IncludeTokensArg =>
        next := next.(includeTokens := true);
      case ThemeArg(theme) =>
        next := next.(theme := theme);
      case FormatArg(format) =>
        next := next.(format := format);
      case PositionalArg(path) =>
        if next.cssFile.None? || next.cssFile == Some("") {
          next := next.(cssFile := Some(arg));
        }
      case IgnoredArg =>
    }
  }

  /**
   * The `for` loop of parseArgs: visits the arguments left to right and
   * updates the options record field by field.
   */
  method ScanArguments(rest: seq<string>, start: CliOptions) returns (options: CliOptions)
    requires start.cssFile.None? && !start.help && !start.includeTokens
    requires start.theme == DefaultTheme && start.format == DefaultFormat
    ensures options.command == start.command && options.targetDir == start.targetDir
    ensures ScannedAs(rest, options)
  {
    ghost var kinds := Kinds(rest);
    ScannedStart(kinds, start);
    options := start;
    for i := 0 to |rest|
      invariant options.command == start.command && options.targetDir == start.targetDir
      invariant ScannedUpTo(kinds, i, options)
    {
      var before := options;
      options := ApplyArgument(options, rest[i]);
      assert kinds[i] == Classify(rest[i]);
      ScannedStep(kinds, i, before, options);
    }
  }

  /**
   * `parseArgs(args)`. `install` takes the next argument as its directory
   * and ignores the rest; a leading `--help` or `-h` asks only for help;
   * anything else is the `list` command, whose arguments are scanned.
   */
  method ParseArgs(args: seq<string>) returns (options: CliOptions)
    ensures args == [] ==> options == Defaults
    ensures args != [] && args[0] == "install" ==>
      options == Defaults.(command := Some(Install), targetDir := if |args| > 1 then Some(args[1]) else None)
    ensures args != [] && IsHelpFlag(args[0]) ==> options == Defaults.(help := true)
    ensures args != [] && args[0] != "install" && !IsHelpFlag(args[0]) ==>
      && options.command == Some(List)
      && options.targetDir == None
      && ScannedAs(ListArguments(args), options)
  {
    options := Defaults;
    var rest := args;
    if |args| > 0 {
      var first := args[0];
      if first == "list" {
        options := options.(command := Some(List));
        rest := args[1..];
      } else if first == "install" {
        options := options.(command := Some(Install));
        if |args| > 1 {
          options := options.(targetDir := Some(args[1]));
        }
        return;
      } else if first == "--help" || first == "-h" {
        options := options.(help := true);
        return;
      } else {
        // legacy form: the first argument is already the css file
        options := options.(command := Some(List));
      }
    }
    options := ScanArguments(rest, options);
  }

  /** A `=` that ends a prefix free of `=` is the first one. */
  lemma {:induction false} IndexOfEqualsAfter(arg: string, name: string)
    requires '=' !in name
    requires StartsWith(arg, name + "=")
    ensures '=' in arg && IndexOfEquals(arg) == |name|
  {
    assert arg[|name|] == (name + "=")[|name|];
  }

  /**
   * An argument starting with `--theme=` (or `--format=`) sets the theme (the
   * format) to the text after that prefix, up to the next `=`.
   */
  lemma ClassifySettings(arg: string)
    ensures StartsWith(arg, "--theme=") ==> Classify(arg) == ThemeArg(UpToEquals(arg[8..]))
    ensures StartsWith(arg, "--format=") ==> Classify(arg) == FormatArg(UpToEquals(arg[9..]))
  {
    if StartsWith(arg, "--theme=") {
      IndexOfEqualsAfter(arg, "--theme");
    }
    if StartsWith(arg, "--format=") {
      IndexOfEqualsAfter(arg, "--format");
    }
  }

  /** The field of a text is all of it up to a `=` that follows or the end. */
  lemma UpToEqualsStops(v: string, rest: string)
    requires '=' !in v
    requires rest == "" || rest[0] == '='
    ensures UpToEquals(v + rest) == v
  {
    var s := v + rest;
    var field := UpToEquals(s);
    assert s[..|v|] == v;
    assert |field| <= |v| ==> field == s[..|field|] == v[..|field|];
  }

  /** `--theme=v` sets the theme to v. */
  lemma ThemeValue(v: string)
    requires '=' !in v
    ensures Classify("--theme=" + v) == ThemeArg(v)
  {
    var arg := "--theme=" + v;
    assert arg[..8] == "--theme=";
    assert arg[8..] == v + "";
    ClassifySettings(arg);
    UpToEqualsStops(v, "");
  }

  /** `--format=v=w` sets the format to v: what follows a second `=` is dropped. */
  lemma FormatValue(v: string, w: string)
    requires '=' !in v
    ensures Classify("--format=" + v + "=" + w) == FormatArg(v)
  {
    var arg := "--format=" + v + "=" + w;
    assert arg[..9] == "--format=";
    assert arg[9..] == v + ("=" + w);
    ClassifySettings(arg);
    UpToEqualsStops(v, "=" + w);
  }
}
