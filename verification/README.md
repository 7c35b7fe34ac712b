# AI-Asteroids local page generators, modelled in Dafny

The AI-Asteroids repository ships two Node scripts. `generate-local-html.js`
writes `local-index.html` and `generate-local-test.js` writes
`index-local.html`. Both do the same thing:

- read `index.html` and the `.env` file (`parseEnvFile`);
- pick the API key (`GEMINI_API_KEY`, else `API_KEY`, else the
  `YOUR_API_KEY_HERE` placeholder);
- inject the key in place of the empty declaration `const API_KEY = "";`,
  stopping with exit status 1 when the template lacks it;
- mark the page as a local build by a fixed sequence of first-occurrence
  replacements: title, a banner after `<body>`, its CSS before `</style>`,
  in one script a fade-out script before `</script>`, and a fallback version
  line.

The model treats the two scripts as one generator with two configurations.

- `Generator.LocalHtml` is `generate-local-html.js`. It stamps the latest git
  tag into the fallback version line with the regular expression
  `/const fallbackVersion = "[^"]*";/`.
- `Generator.LocalTest` is `generate-local-test.js`. It replaces the literal
  line `const fallbackVersion = "v.005"; // Updated by script`.

Modules, one per file:

- `Wrappers` (wrappers.dfy): `Option` and `Result`.
- `Text` (text.dfy): JavaScript `trim`, `split` and `join` with a
  one-character separator, `startsWith` and `indexOf`. Strings are sequences
  of code points. `trim` strips exactly ECMAScript's WhiteSpace and
  LineTerminator code points, which include the `\r` of CRLF files.
- `Replace` (replace.dfy): `String.prototype.replace` with a non-global
  pattern and a string replacement. Only the leftmost match is replaced. The
  replacement's `$$`, `$&`, `` $` `` and `$'` patterns are expanded as
  ECMA-262's GetSubstitution does for a pattern without capture groups.
- `EnvFile` (env.dfy): `parseEnvFile`, both as a pure function
  (`ParseLine`, `ParseEnv`) and as the loop the script runs (`ParseEnvFile`).
  The loop is proved equal to the function.
- `FallbackVersion` (version.dfy): the fallback-version regular expression as
  a leftmost-match scan. The scan is proved sound and complete against the
  expression's language.
- `Notices` (notices.dfy): the banner, CSS and fade-script texts the scripts
  insert, with proofs that none contains `$`. Because of that, `replace`
  inserts them verbatim.
- `Generator` (generator.dfy): key selection, the fatal declaration check,
  the marking steps, and `Generate`, a whole run.

Missing files are `None` inputs. `process.exit(1)` before the write is a
`Failure` result. The git tag is an `Option<string>` parameter. The page
written is the `Success` value, together with its file name.

Three consequences of the scripts' code:

- The title step matches only the exact text `<title>AI Asteroids</title>`.
  A template titled `<title>X</title>` keeps its title unchanged
  (`Generator.OtherTitleKept`).
- A page built with a key still contains `YOUR_API_KEY_HERE` if the template
  does. The text is only ever written as the no-key replacement, but the
  scripts never remove it. The model proves that the page declares the
  selected key.
- `EnvFile.ParseEnv` is a function of the text, so parsing a file twice gives
  the same map. `EnvFile.ParseEnvFile`, the loop the scripts run, is proved to
  compute it.

## Model

| member | source | states |
|---|---|---|
| Text.Trim | generate-local-html.js:27 | the result has no whitespace at either end and is no longer than the line |
| Text.TrimCharacterised | generate-local-html.js:27 | `trim` is fully determined: whitespace, then a core with non-whitespace ends, then whitespace always trims to that core |
| Text.TrimIdempotent | generate-local-html.js:27 | trimming an already trimmed line changes nothing |
| Text.IndexOf | generate-local-html.js:148 | `indexOf` finds a match exactly when the text contains the pattern, and the index it returns is the leftmost occurrence |
| Text.Split | generate-local-html.js:24 | splitting on a character gives at least one part, no part contains the separator, and joining the parts back gives the original text |
| Text.Join | generate-local-html.js:31 | `valueParts.join('=')` rebuilds the text after the first `=`; `Text.SplitJoin` and `Text.SplitAtFirst` prove it inverts `split` |
| Text.SplitJoin | generate-local-html.js:29-31 | splitting undoes joining parts that do not contain the separator |
| Text.SplitAtFirst | generate-local-html.js:29 | the head of a split is the text before the separator's first occurrence, and the re-joined tail is everything after it |
| Replace.Expand | generate-local-html.js:153 | a replacement without `$` is inserted as written |
| Replace.ReplaceAt | generate-local-html.js:153 | the text before the replaced span and the text after it are kept, and a `$`-free replacement stands in the span verbatim |
| Replace.ReplaceFirst | generate-local-html.js:156-159 | replacing a pattern the text does not contain leaves the text unchanged |
| Replace.ReplaceFirstSplices | generate-local-html.js:153 | a `$`-free replacement takes the place of the leftmost occurrence, and the text before and after it is kept |
| Replace.InsertAfterFirst | generate-local-html.js:168-171 | writing the marker back followed by text puts the text right after the first marker, and that marker is still the first |
| Replace.InsertBeforeFirst | generate-local-html.js:195-199 | writing text followed by the marker puts the text right before the first marker |
| Replace.ReplaceAtKeepsDisjoint | generate-local-html.js:153 | text lying wholly before or wholly after the replaced span is still present afterwards |
| Replace.ExpandPlainPrefix | generate-local-html.js:153 | a `$`-free start of a replacement string is copied unchanged, whatever follows it |
| Replace.ExpandDollarAmpersand | generate-local-html.js:137 | for any `$`-free texts `x` and `y`, the replacement `x$&y` expands to `x`, the matched text, then `y` |
| Replace.DollarAmpersandCopiesMatch | generate-local-html.js:137-153 | replacing with `x$&y` puts the leftmost occurrence of the pattern between `x` and `y` in its place, for any text, pattern and `$`-free `x`, `y` |
| EnvFile.ParseLine | generate-local-html.js:26-32 | a line yields nothing exactly when its trimmed text is empty, starts with `#` or `=`, or has no `=`; otherwise the key is a non-empty trimmed text without `=` |
| EnvFile.Assign | generate-local-html.js:26-34 | every key some line binds is in the map; `EnvFile.AssignDomain` proves the converse and `EnvFile.LastBindingWins` the value |
| EnvFile.ParseEnv | generate-local-html.js:17-37 | a missing file gives the empty map; `EnvFile.ParseEnvFile` proves the script's loop computes this function |
| EnvFile.ParseLineSplitsAtFirstEquals | generate-local-html.js:29-31 | the key is the trimmed text before the first `=`, and the value is the trimmed text after it with any later `=` kept |
| EnvFile.ParseSpacedLine | generate-local-html.js:29-31 | `KEY = value` binds the key to the value, with the spaces around the first `=` dropped |
| EnvFile.SkippedLineIrrelevant | generate-local-html.js:26-30 | deleting a blank, comment or key-less line from the file does not change the map |
| EnvFile.LastBindingWins | generate-local-html.js:26-34 | a key bound on several lines maps to the value on the last of them |
| EnvFile.UnboundKeyAbsent | generate-local-html.js:26-34 | a key no line binds is absent from the map |
| EnvFile.AssignDomain | generate-local-html.js:26-34 | a key is in the map exactly when some line binds it |
| EnvFile.AssignSkipsNone | generate-local-html.js:28-30 | an entry that binds nothing can be removed from anywhere without changing the map |
| EnvFile.ParseEnvWellFormed | generate-local-test.js:17-37 | every key in the map is non-empty, trimmed, one-line and without `=`, and every value is trimmed and one-line |
| EnvFile.ApplyLine | generate-local-html.js:27-32 | one pass of the loop body leaves the map alone for a skipped line and otherwise writes the line's binding over any earlier one |
| EnvFile.CollectLines | generate-local-html.js:26-34 | the loop over the lines computes the same map as the left-to-right fold of the lines' bindings |
| EnvFile.ParseEnvFile | generate-local-html.js:17-37 | the procedure returns the empty map for a missing file, and otherwise the map the pure definition assigns to the text |
| EnvFile.ParseRenderedLine | generate-local-html.js:29-31 | a well-formed `KEY=value` line parses back to its key and value |
| EnvFile.ParseRender | generate-local-test.js:24-34 | a file written as one `KEY=value` line per entry parses to the map those assignments denote, with the last assignment of a key winning |
| EnvFile.AssignRendered | generate-local-html.js:26-34 | the loop over lines written from well-formed entries builds the map those entries bind, one after the other |
| EnvFile.ParseLinesAppend | generate-local-html.js:26 | the lines of two concatenated files are parsed one after the other |
| EnvFile.ParseFourLineFile | generate-local-html.js:17-37 | a file of an assignment, two skipped lines and a second assignment binds both keys, the later line winning on a shared key |
| EnvFile.ExampleAssignment | generate-local-html.js:29-31 | `API_KEY=abc123` binds `API_KEY` to `abc123` |
| EnvFile.ExampleSpacedAssignment | generate-local-html.js:29-31 | `FOO = bar=baz` binds `FOO` to `bar=baz`: the spaces around the first `=` are dropped and the later `=` is kept |
| EnvFile.ExampleSkippedLines | generate-local-html.js:28 | a comment line and an empty line yield nothing |
| EnvFile.CommentSkipped | generate-local-html.js:28 | every trimmed line starting with `#` yields nothing |
| FallbackVersion.MatchEnd | generate-local-html.js:229 | a match it reports starts with the literal prefix and ends with `";` inside the text |
| FallbackVersion.FindMatch | generate-local-html.js:228-231 | a match it reports lies inside the text and is long enough for the prefix and the closing `";` |
| FallbackVersion.Rewrite | generate-local-html.js:227-231 | a text in which the expression matches nowhere is returned unchanged |
| FallbackVersion.MatchEndSound | generate-local-html.js:229 | every match the scan reports is the literal prefix, quote-free text, then `";` |
| FallbackVersion.MatchEndComplete | generate-local-html.js:229 | every text of that shape is found by the scan, ending right after its `";` |
| FallbackVersion.FindMatchLeftmost | generate-local-html.js:228-231 | the search stops at the leftmost text in the expression's language |
| FallbackVersion.RewriteLeftmost | generate-local-html.js:227-231 | with a `$`-free version, the leftmost fallback version line is replaced by one carrying that version, and the text around it is kept |
| FallbackVersion.RewriteWithoutMatch | generate-local-html.js:228-231 | a page without a fallback version line is left unchanged |
| Generator.SelectApiKey | generate-local-html.js:133-136 | a non-empty `GEMINI_API_KEY` wins, else a non-empty `API_KEY`; there is no key exactly when neither is non-empty |
| Generator.ApiKeyLine | generate-local-html.js:135-143 | the replacement starts with the key's assignment, or with the placeholder's assignment when there is no key |
| Generator.NoEnvFileNoKey | generate-local-html.js:19-21 | without a `.env` file no key is selected and the placeholder assignment is written |
| Generator.GeminiKeyFromLines | generate-local-test.js:68-69 | when the last line binding `GEMINI_API_KEY` gives it a non-empty value, that value is the key, whatever `API_KEY` holds |
| Generator.Decorate | generate-local-html.js:155-239 | a page holding none of the markers the configuration's steps look for is left unchanged |
| Generator.Generate | generate-local-html.js:124-153 | a missing template fails with its own error; a template without the empty declaration fails with the other; only these two cases fail, and a success is written to the configured file |
| Generator.InjectKey | generate-local-html.js:146-153 | content without the empty declaration is left alone |
| Generator.KeyStep | generate-local-html.js:153 | with a `$`-free key, the first empty declaration is replaced by the key's statement and nothing else changes |
| Generator.GenerateInjects | generate-local-test.js:82-89 | an accepted template becomes the page with the key statement spliced in at the first declaration, then marked |
| Generator.InjectedKeyDeclared | generate-local-html.js:137-153 | right after injection, for any `$`-free key, the key's assignment (or the placeholder's) stands where the empty declaration stood |
| Generator.MarkTitle | generate-local-html.js:156-159 | a page without the game's title element is left alone |
| Generator.TitleStep | generate-local-html.js:156-159 | the first `<title>AI Asteroids</title>` becomes the title with the configured suffix, and nothing else changes |
| Generator.OtherTitleKept | generate-local-html.js:156-159 | a title element naming anything other than the game is left as it is |
| Generator.AddNotice | generate-local-html.js:168-171 | a page without `<body>` is left alone |
| Generator.NoticeStep | generate-local-html.js:161-171 | the notice lands immediately after the first `<body>`, which stays the first |
| Generator.AddCss | generate-local-html.js:195-199 | a page without `</style>` is left alone |
| Generator.CssStep | generate-local-html.js:173-199 | the style rules land immediately before the first `</style>`, followed by a line break and indentation |
| Generator.AddFadeScript | generate-local-html.js:219-223 | the configuration without a fade script, or a page without `</script>`, leaves the page alone |
| Generator.ScriptStep | generate-local-html.js:201-223 | the fade script lands immediately before the first `</script>`, followed by a line break and indentation |
| Generator.StampVersion | generate-local-html.js:226-239 | with the tag rewrite, a missing or empty tag leaves the page alone; with the literal rewrite, a page without the literal line is left alone |
| Generator.TagStep | generate-local-html.js:226-231 | with a tag, the leftmost fallback version line carries the tag and the configured suffix, and the text around it is kept |
| Generator.TagStepWithoutMatch | generate-local-html.js:227-231 | with no fallback version line, the tag rewrite leaves the page alone |
| Generator.LiteralVersionStep | generate-local-test.js:131-135 | the literal version rewrite replaces the first occurrence of its line and nothing else |
| Generator.LocalHtml | generate-local-html.js:121-231 | writes `local-index.html`, titles the page "Running Locally", inserts the running-locally banner, its style rules and the fade script, and stamps the git tag |
| Generator.LocalTest | generate-local-test.js:92-135 | writes `index-local.html`, titles the page "Local Testing", inserts the testing banner and its style rules, has no fade script, and marks the literal `v.005` line |
| Generator.LocalHtmlNotice | generate-local-html.js:161-171 | generate-local-html.js puts the running-locally banner right after the first `<body>` |
| Generator.LocalHtmlCss | generate-local-html.js:173-199 | generate-local-html.js puts the banner's style rules, a line break and eight spaces right before the first `</style>` |
| Generator.LocalTestNotice | generate-local-test.js:97-107 | generate-local-test.js puts the testing banner right after the first `<body>` |
| Generator.LocalTestCss | generate-local-test.js:109-129 | generate-local-test.js puts the testing banner's style rules, a line break and eight spaces right before the first `</style>` |
| Generator.LocalHtmlLiteral | generate-local-html.js:156-231 | none of the texts generate-local-html.js inserts contains `$`, so `replace` inserts each of them verbatim |
| Generator.LocalTestLiteral | generate-local-test.js:92-135 | none of the texts generate-local-test.js inserts contains `$`, so `replace` inserts each of them verbatim |
| Generator.PlaceholderIsPlainKey | generate-local-html.js:140 | the placeholder assignment is the assignment a key named `YOUR_API_KEY_HERE` would get |
| Generator.KeyDeclarationShape | generate-local-html.js:137 | in a plain key's assignment the quotes, spaces and `c` stand only where the fixed text puts them, and there is no `<` |
| Generator.MarkerDisjoint | generate-local-html.js:156-223 | a literal marker and a plain key's assignment never overlap on a page |
| Generator.MatchDisjoint | generate-local-html.js:228-231 | a fallback version line and a plain key's assignment never overlap on a page |
| Generator.ReplaceFirstKeepsKey | generate-local-html.js:156-223 | replacing a marker's first occurrence keeps a plain key's assignment |
| Generator.RewriteKeepsKey | generate-local-html.js:228-231 | the fallback version rewrite keeps a plain key's assignment |
| Generator.DecorateKeepsKey | generate-local-html.js:155-239 | no marking step of either script breaks a plain key's assignment already on the page |
| Generator.GeneratedPageDeclaresKey | generate-local-html.js:133-242 | a run on a template with the empty declaration succeeds and writes a page that assigns the selected key, or the placeholder when there is none |
| Notices.FadeNoticeScriptLiteral | generate-local-html.js:202-217 | the fade script contains no `$` |
| Notices.RunningNoticeLiteral | generate-local-html.js:162-166 | the running-locally banner contains no `$` |
| Notices.RunningNoticeCssLiteral | generate-local-html.js:174-193 | the running-locally banner's style rules contain no `$` |
| Notices.TestingNoticeLiteral | generate-local-test.js:98-102 | the testing banner contains no `$` |
| Notices.TestingNoticeCssLiteral | generate-local-test.js:110-123 | the testing banner's style rules contain no `$` |

## Left out

- File-system access is not modelled. This covers `fs.existsSync`, `readFileSync` and `writeFileSync`: the template and `.env` contents are `Option` inputs, and the written file is the `Success` value.
- `process.exit` is not modelled; exit status 1 is a `Failure` result. The outer `try`/`catch` is not modelled either, since the only errors it can catch come from I/O.
- `getLatestVersion` is not modelled because it runs `git describe` as a subprocess. Its result is the `tag` parameter, with `None` for a failed lookup.
- `openInBrowser` is not modelled. It starts a browser asynchronously and does not affect the page.
- `updatePackageJsonVersion` is not modelled, because it depends on JSON parsing and printing.
- `updateReadmeVersion` is not modelled. It uses case-insensitive global regular expressions on README.md and does not affect the page.
- update-version.js is not modelled. It is git and file I/O around the same fallback-version rewrite that `FallbackVersion.Rewrite` models.
- Console output is not modelled.
- JavaScript object quirks are not modelled. A `.env` key such as `__proto__` is stored as an ordinary map entry.
- Strings are sequences of code points rather than UTF-16 code units. None of the scripts' operations splits a surrogate pair, because every separator and marker is ASCII.
- Generator.GeneratedPageDeclaresKey: stated only for keys made of letters, digits, `_`, `-` and `.`. It also covers only the two version rewrites the scripts use. A key containing `$`, `"`, `<` or `const f` could be rewritten by a later step or by its own `$` patterns.
- Generator.KeyStep: requires a `$`-free key. A key containing `$` goes through `Replace.Expand` in `Generate`, but no splice property is stated for it.
- Generator.TagStep: requires a `$`-free tag, for the same reason.
- Generator.InjectedKeyDeclared: requires a `$`-free key, for the same reason as `Generator.KeyStep`.
- Generator.GeneratedPageDeclaresKey: does not state that the page lacks `YOUR_API_KEY_HERE` when a key is found, because a template that already contains that text keeps it.
