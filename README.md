# Elementary design-system extractor, modelled in Dafny

`elementary/scripts/elementary.mjs` is the command-line tool of the
Elementary design system. Its functional core does three jobs:

- It reads a component stylesheet and lists the component classes it defines.
- It reads a theme stylesheet and lists the design tokens (CSS custom
  properties) it uses, grouped by naming-convention prefix.
- It works out where the design-system assets are copied from and to on
  install.

A small argument parser turns the command line into an options record. This
project models that core and proves what each piece promises:

| file | module | models |
|---|---|---|
| `wrappers.dfy` | `Wrappers` | `Option`, standing in for JavaScript's `undefined`/`null` |
| `chars.dfy` | `Chars` | the character classes and anchors of the two regular expressions, and the greedy `[a-z0-9-]*` run |
| `lex.dfy` | `Lex` | `Array.prototype.sort` on strings (code-unit order) and `[...new Set(xs)].sort()` as `SortUnique` |
| `classes.dfy` | `Classes` | `extractClasses`, the multiline pattern `/^\.[a-z][a-z0-9-]*/gm` |
| `tokens.dfy` | `Tokens` | `extractTokens`, the global pattern `/--([a-z][a-z0-9-]*)/g` |
| `categories.dfy` | `Categories` | `categorizeTokens`, ten filters |
| `install.dfy` | `Install` | `prepareInstallation` and the `path.join` calls it makes |
| `design.dfy` | `Design` | `extractDesignData`: the error result, the class report and the optional token report |
| `cli.dfy` | `Cli` | `parseArgs`: defaults, the `list`/`install`/help dispatch on the first argument, and the scan of the rest |

Every function of the core except `parseArgs` computes a value without
changing anything: `extractClasses`, `extractTokens`, `categorizeTokens`,
`prepareInstallation` and `extractDesignData` become Dafny functions. `parseArgs`
becomes the methods `ApplyArgument`, `ScanArguments` and `ParseArgs`, described
below. For each operation, a lemma ties it to an
independent description, and small illustrative inputs are worked through as
example lemmas:

| operation | tied to |
|---|---|
| each regex scan | the places where the pattern matches; for tokens, those no earlier match swallows |
| the categoriser | a first-matching-prefix classification |
| the install paths | their plain-path concatenation |

`parseArgs` is the one place where the source updates a record step by step
in a loop, so it is a `method` with a `for` loop. `ApplyArgument` is the
loop body: its contract (`StepsTo`) gives the effect of one argument. The loop
invariant (`ScannedUpTo`, over the arguments' classifications) states what
the arguments seen so far determine:

- `help` and `includeTokens` are set iff some argument asked for them.
- `theme` and `format` carry the value of the last argument that set them, or the default.
- `cssFile` is the first non-empty positional argument (not `-h`, not starting with `--`). It is `""` when every positional argument is empty, and absent when there is none.

The contract of `extractDesignData` follows the code: when the `includeTokens`
option is absent it defaults to `true` (line 99). The command-line parser
uses a different default of `false` (line 158) and always passes a value.

## Model

| member | source | states |
|---|---|---|
| Lex.SortUnique | elementary/scripts/elementary.mjs:42 | `[...new Set(xs)].sort()`: the result is strictly increasing in code-unit order and holds exactly the elements of `xs` |
| Lex.SortedSetUnique | elementary/scripts/elementary.mjs:42 | two strictly increasing lists with the same elements are equal, so dedup-then-sort is determined by the set of matches alone |
| Lex.SortUniqueBySet | elementary/scripts/elementary.mjs:42 | inputs with the same elements give the same sorted, deduplicated list: order and repeats of the matches do not matter |
| Classes.ExtractClasses | elementary/scripts/elementary.mjs:38-43 | the class list is strictly increasing (sorted, no duplicates), and empty CSS gives an empty list |
| Classes.ExtractClassesExact | elementary/scripts/elementary.mjs:40-42 | a string is in the class list iff it is `s[i..e]` for some match of `^\.[a-z][a-z0-9-]*` with `m`: i at index 0 or right after a line terminator, and the name run maximal |
| Classes.ExtractClassesShape | elementary/scripts/elementary.mjs:39-41 | every listed class is `.`, a lower-case letter and name characters, found at a line start and followed by a non-name character or the end of the text |
| Classes.ClassMatchesLines | elementary/scripts/elementary.mjs:40-41 | the matches of text that follows a line terminator are the matches of each part, concatenated: lines are scanned independently |
| Classes.SameLineNoMatches | elementary/scripts/elementary.mjs:40-41 | no class starts past the beginning of a line, so text with no line terminator from position k-1 on has no match from k |
| Classes.PseudoClassExample | elementary/scripts/elementary.mjs:40-42 | `.foo:hover {}` yields only `.foo`, because the name stops at `:` |
| Classes.IndentedExample | elementary/scripts/elementary.mjs:40-42 | an indented `  .nested {}` yields nothing, because `^` needs a line start |
| Classes.StylesheetExample | elementary/scripts/elementary.mjs:38-43 | a three-line stylesheet yields `[".btn", ".card"]` and skips the indented `.nested` |
| Tokens.ExtractTokens | elementary/scripts/elementary.mjs:50-55 | the token list is strictly increasing, and empty CSS gives an empty list |
| Tokens.ExtractTokensSound | elementary/scripts/elementary.mjs:52-54 | every listed token is the text of one of the scan's matches: a match of `--[a-z][a-z0-9-]*` (`--` plus the captured group) that no earlier candidate's name-character run reaches. It has the token shape |
| Tokens.ExtractTokensComplete | elementary/scripts/elementary.mjs:52-54 | a match of the pattern is listed whenever no earlier candidate's name-character run reaches it, wherever it is in the text (so `x--y` and `.card--featured` give their tokens) |
| Tokens.ExtractTokensExact | elementary/scripts/elementary.mjs:52-54 | a string is in the token list iff it is the text of a match that no earlier candidate's run reaches: the two lemmas above together |
| Tokens.AfterBreakNotSwallowed | elementary/scripts/elementary.mjs:52-54 | a match at the start of the text or after a character outside `[a-z0-9-]` is never swallowed by an earlier one |
| Tokens.ThreeHyphensExample | elementary/scripts/elementary.mjs:52-54 | `---foo` yields `--foo`: the scan moves past the first hyphen and matches from the second |
| Tokens.NoOverlapExample | elementary/scripts/elementary.mjs:52-54 | `--a--b` yields the single token `--a--b`: the greedy run swallows the second `--`, and matches do not overlap |
| Tokens.ModifierExample | elementary/scripts/elementary.mjs:52-54 | `x--y` yields `--y`: a match glued to a preceding name character is still found when no earlier candidate covers it |
| Tokens.VarRepeatExample | elementary/scripts/elementary.mjs:52-54 | a token used twice inside `var(...)` is found and listed once |
| Tokens.ThemeExample | elementary/scripts/elementary.mjs:50-55 | a `:root` block declaring `--c-primary`, `--s-sm`, `--bg-page` and `--weird-one` yields exactly those four tokens, sorted |
| Categories.KeepIn | elementary/scripts/elementary.mjs:64-73 | one `filter` call: a token is kept iff it is an input token that passes the bucket's test, and the kept list is a subsequence of the input (input order) |
| Categories.KeepInCounts | elementary/scripts/elementary.mjs:64-73 | the filter keeps every occurrence of a passing token and none of a failing one: the multiplicity of each token in the result is its multiplicity in the input if it passes, else zero |
| Categories.CategorizeTokens | elementary/scripts/elementary.mjs:62-75 | each of the ten buckets is the order-preserving filter of the input by its category test |
| Categories.OtherPatternIffPrefixed | elementary/scripts/elementary.mjs:73 | `/^--(c\|bg\|s\|r\|b\|x\|t\|z\|a)-/` matches a token iff it starts with one of the nine named prefixes |
| Categories.InCategoryIffCategoryOf | elementary/scripts/elementary.mjs:64-73 | a token passes bucket c's test iff c is its category in a first-matching-prefix classification, so each token passes exactly one of the ten tests |
| Categories.CategorizeTokensMembers | elementary/scripts/elementary.mjs:64-73 | a token is in bucket c iff it is an input token whose category is c |
| Categories.CategorizeTokensDisjoint | elementary/scripts/elementary.mjs:64-73 | no token is in two buckets, and every input token is in the bucket of its category |
| Categories.CategorizeTokensPartition | elementary/scripts/elementary.mjs:62-75 | the ten buckets together are a permutation of the input: every token, with its multiplicity, lands in exactly one bucket |
| Categories.CategorizeTokensOrdered | elementary/scripts/elementary.mjs:64-73 | each bucket is a subsequence of the input, so the buckets of a sorted, duplicate-free list stay sorted and duplicate-free |
| Categories.BackgroundNotBorderExample | elementary/scripts/elementary.mjs:65-68 | `--bg-x` goes to backgrounds and not borders, `--b-x` to borders, and an unprefixed `--q` to other |
| Install.Join | elementary/scripts/elementary.mjs:85-86 | a join ends with the segment and starts with a non-empty base, and for a plain base it is base, `/`, segment |
| Install.AssetsDir | elementary/scripts/elementary.mjs:85-86 | the assets directory ends in `assets/elementary`, starts with its root, and for a plain root is root + `/assets/elementary` |
| Install.PrepareInstallation | elementary/scripts/elementary.mjs:83-88 | `from` is under the source path and `to` under the target path, both ending in `assets/elementary`; for a plain root each is that root + `/assets/elementary` |
| Install.PrepareInstallationIndependent | elementary/scripts/elementary.mjs:85-86 | `from` depends on the source path only and `to` on the target path only: changing the other argument leaves it unchanged |
| Install.AssetsDirInjective | elementary/scripts/elementary.mjs:85-86 | distinct plain roots give distinct asset directories |
| Install.PrepareInstallationExample | elementary/scripts/elementary.mjs:83-88 | `("/skill", "/proj")` gives `/skill/assets/elementary` and `/proj/assets/elementary` |
| Design.ExtractDesignData | elementary/scripts/elementary.mjs:95-124 | the result is the `cssContent is required` error iff the CSS is absent or empty. Otherwise it echoes `cssFile` and carries `extractClasses(cssContent)` and its length. It carries a token report iff `includeTokens` (default true) is set and `themeContent` is non-empty. The report holds `extractTokens(themeContent)`, its length, its categorisation, and the theme option, defaulting to `high-fidelity` |
| Design.ExtractDesignDataWellFormed | elementary/scripts/elementary.mjs:108-121 | in a successful result the classes and tokens are sorted, duplicate-free and well-shaped, and the categorised tokens are a permutation of the tokens with every bucket sorted |
| Design.MissingCssExample | elementary/scripts/elementary.mjs:104-106 | an absent or empty `cssContent` gives exactly the error record, with no class or token fields |
| Cli.UpToEquals | elementary/scripts/elementary.mjs:193 | the field is the longest `=`-free prefix of the text: it is a prefix, has no `=`, and is followed by `=` or the end |
| Cli.SecondField | elementary/scripts/elementary.mjs:193 | `split('=')[1]`: the `=`-free text right after the first `=`, ending at the next `=` or the end |
| Cli.ClassifySettings | elementary/scripts/elementary.mjs:192-195 | `--theme=…` sets the theme and `--format=…` the format, each to the text between the first and second `=` |
| Cli.ThemeValue | elementary/scripts/elementary.mjs:192-193 | `--theme=v` with `v` free of `=` sets the theme to `v` |
| Cli.FormatValue | elementary/scripts/elementary.mjs:194-195 | `--format=v=w` sets the format to `v` and drops `w` |
| Cli.ApplyArgument | elementary/scripts/elementary.mjs:186-198 | one argument's effect: `--help`/`-h` and `--include-tokens` set their flag, `--theme=`/`--format=` replace that setting by the second `=`-field, another `--` argument changes nothing, and any other argument becomes `cssFile` only while `cssFile` is unset or empty; `command` and `targetDir` never change |
| Cli.ScanArguments | elementary/scripts/elementary.mjs:185-199 | started from the defaults, the scan sets `help` and `includeTokens` iff some argument asks for them. It sets `theme` and `format` to the last value given, or the default. It sets `cssFile` to the first non-empty positional argument (not `-h`, not starting with `--`). It is `""` when every positional argument is empty, and absent when there is none. It leaves `command` and `targetDir` alone |
| Cli.ParseArgs | elementary/scripts/elementary.mjs:153-202 | no arguments give the defaults (`polished`, `human`, no tokens). `install` sets only the command and `targetDir`, the second argument if any. A leading `--help`/`-h` sets only `help`. Otherwise the command is `list`, a leading `list` is dropped, and the rest is scanned as above |

## Left out

- `readFile`, `installAssets`, `main`, `showHelp` and the entry-point check (elementary/scripts/elementary.mjs:135-146, 263-408): filesystem calls, console output and `process.exit` are I/O. The functions above take file contents and paths as parameters instead.
- `formatHuman` and `formatJson` (elementary/scripts/elementary.mjs:209-258) only lay out a result for display.
- Install.Join: models the POSIX form of Node's `path.join`, joining with `/`; on Windows Node joins with `\`. An empty base is dropped and no second `/` is added after a trailing one. Normalisation of `.`, `..` and repeated separators is not modelled, because it is a foreign library call. The contracts state the join exactly only for a plain (non-empty, no trailing `/`) base.
- `package-skill.mjs` is not part of this model: it is a packaging script of file reads, a `zip` shell-out and logging.
- The React recipes under `reactive-md/` and `elementary/references/` are not part of this model. They are presentational UI with DOM measurement and floating-point geometry.
- JavaScript sorts strings by UTF-16 code unit, and Dafny's `char` order is by code point. They agree on every name the two patterns can match, which are ASCII, so `Less` compares `char`s.
- Options are strings or absent. Non-string truthy values (numbers, objects) of the JavaScript options and an explicit `null` theme are not modelled. An absent or empty string is falsy and anything else truthy, as the code's `!cssContent` and `themeContent &&` treat strings.
- The concrete stylesheet examples use short lines rather than whole component files, because the verifier evaluates literal strings one character at a time.
