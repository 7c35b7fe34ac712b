/**
 The page generator that generate-local-html.js and generate-local-test.js
 each spell out in full: read the template, inject the API key taken from the
 `.env` mapping, then mark the page as a local build by a fixed sequence of
 first-occurrence replacements. The two scripts differ only in the values a
 `Config` collects, so they are one generator with two configurations.
 */
module Generator {
  import opened Wrappers
  import opened Text
  import opened Replace
  import EnvFile
  import FallbackVersion
  import opened Notices

  /** The two ways a run ends with `process.exit(1)` before anything is written. */
  datatype GenError = TemplateMissing | ApiKeyDeclarationMissing

  /** How the fallback version line is rewritten. */
  datatype VersionRewrite =
    | StampTag(suffix: string)                // the regular-expression rewrite with the latest git tag
    | ReplaceLiteral(from: string, to: string) // a fixed literal replacement

  /** Everything in which the two generator scripts differ. */
  datatype Config = Config(
    destination: string,
    titleSuffix: string,
    notice: string,
    css: string,
    fadeScript: Option<string>,
    version: VersionRewrite)

  /** The file a successful run writes: its name next to the script, and its text. */
  datatype Output = Output(path: string, html: string)

  /** The empty declaration the template must hold; the key is injected in its place. */
  const ApiKeyDeclaration: string := "const API_KEY = \"\";"

  /** The value written when the `.env` mapping holds no usable key. */
  const Placeholder: string := "YOUR_API_KEY_HERE"

  /** The declaration a run writes when no key was found: the text the user must edit. */
  const PlaceholderDeclaration: string := "const API_KEY = \"YOUR_API_KEY_HERE\";"

  const TitleTag: string := "<title>AI Asteroids</title>"
  const BodyTag: string := "<body>"
  const StyleEnd: string := "</style>"
  const ScriptEnd: string := "</script>"

  /** The line break and indentation both scripts put before a re-inserted closing tag. */
  const Indent: string := "\n        "

  /** The title element with `suffix` appended to the game's name. */
  function TitleLine(suffix: string): string {
    "<title>AI Asteroids" + suffix + "</title>"
  }

  /** The fallback version line generate-local-test.js looks for, and what it makes of it: statement, then comment. */
  const TestVersionLine: string := "const fallbackVersion = \"v.005\";" + " // Updated by script"
  const TestVersionMarked: string := FallbackVersion.VersionLine("v.005 (Local Test)") + " // Updated by script"

  /** generate-local-html.js: writes local-index.html, fades its banner, stamps the git tag. */
  const LocalHtml: Config := Config(
    "local-index.html", " - Running Locally", RunningNotice, RunningNoticeCss,
    Some(FadeNoticeScript), StampTag(" (Running Locally)"))

  /** generate-local-test.js: writes index-local.html, no fade script, marks the literal v.005 line. */
  const LocalTest: Config := Config(
    "index-local.html", " - Local Testing", TestingNotice, TestingNoticeCss,
    None, ReplaceLiteral(TestVersionLine, TestVersionMarked))

  /** The parsed mapping's property `name` is truthy in JavaScript: defined and not the empty string. */
  predicate Truthy(env: map<string, string>, name: string) {
    name in env && env[name] != ""
  }

  /**
   `env.GEMINI_API_KEY || env.API_KEY` as the following `if (apiKey)` reads it;
   `None` stands for every value that test rejects.
   */
  function SelectApiKey(env: map<string, string>): (key: Option<string>)
    ensures Truthy(env, "GEMINI_API_KEY") ==> key == Some(env["GEMINI_API_KEY"])
    ensures !Truthy(env, "GEMINI_API_KEY") && Truthy(env, "API_KEY") ==> key == Some(env["API_KEY"])
    ensures key.None? <==> !Truthy(env, "GEMINI_API_KEY") && !Truthy(env, "API_KEY")
  {
    var gemini := if "GEMINI_API_KEY" in env then Some(env["GEMINI_API_KEY"]) else None;
    var plain := if "API_KEY" in env then Some(env["API_KEY"]) else None;
    var apiKey := if gemini.Some? && gemini.value != "" then gemini else plain;
    if apiKey.Some? && apiKey.value != "" then apiKey else None
  }

  /** The statement that takes the empty declaration's place: an assignment of the key or of the placeholder. */
  function ApiKeyLine(key: Option<string>): (line: string)
    ensures key.Some? ==> StartsWith(line, KeyDeclaration(key.value))
    ensures key.None? ==> StartsWith(line, PlaceholderDeclaration)
  {
    match key
    case Some(k) =>
      var line := KeyDeclaration(k) + " // Loaded from .env file";
      assert line[..|KeyDeclaration(k)|] == KeyDeclaration(k);
      line
    case None =>
      var line := PlaceholderDeclaration + " // Replace with your actual API key";
      assert line[..|PlaceholderDeclaration|] == PlaceholderDeclaration;
      line
  }

  /** The assignment of key `k`. */
  function KeyDeclaration(k: string): string {
    "const API_KEY = \"" + k + "\";"
  }

  /** A key without `$` gives a statement without `$`, which `replace` inserts verbatim. */
  lemma ApiKeyLineLiteral(key: Option<string>)
    requires key.Some? ==> '$' !in key.value
    ensures '$' !in ApiKeyLine(key)
  {
    assert '$' !in " // Loaded from .env file" && '$' !in " // Replace with your actual API key";
    assert '$' !in "const API_KEY = \"" && '$' !in "\";" && '$' !in PlaceholderDeclaration;
  }

  /**
   `content.replace(/const API_KEY = "";/, replacement)`. The expression holds no
   special character, so it matches exactly the literal declaration.
   */
  function InjectKey(content: string, key: Option<string>): (x: string)
    ensures !Contains(content, ApiKeyDeclaration) ==> x == content
  {
    ReplaceFirst(content, ApiKeyDeclaration, ApiKeyLine(key))
  }

  /** The title element of the template becomes the configured one. */
  function MarkTitle(cfg: Config, s: string): (x: string)
    ensures !Contains(s, TitleTag) ==> x == s
  {
    ReplaceFirst(s, TitleTag, TitleLine(cfg.titleSuffix))
  }

  /** The notice goes after the opening body tag. */
  function AddNotice(cfg: Config, s: string): (x: string)
    ensures !Contains(s, BodyTag) ==> x == s
  {
    ReplaceFirst(s, BodyTag, BodyTag + cfg.notice)
  }

  /** The notice's style rules go before the closing style tag. */
  function AddCss(cfg: Config, s: string): (x: string)
    ensures !Contains(s, StyleEnd) ==> x == s
  {
    ReplaceFirst(s, StyleEnd, cfg.css + Indent + StyleEnd)
  }

  /** The fade script, in the configuration that has one, goes before the closing script tag. */
  function AddFadeScript(cfg: Config, s: string): (x: string)
    ensures cfg.fadeScript.None? ==> x == s
    ensures !Contains(s, ScriptEnd) ==> x == s
  {
    match cfg.fadeScript
    case None => s
    case Some(js) => ReplaceFirst(s, ScriptEnd, js + Indent + ScriptEnd)
  }

  /**
   The fallback version line is rewritten. With `StampTag` this happens only
   when `if (latestVersion)` accepts the tag, so a missing or empty tag leaves
   the page alone.
   */
  function StampVersion(cfg: Config, s: string, tag: Option<string>): (x: string)
    ensures cfg.version.StampTag? && (tag.None? || tag == Some("")) ==> x == s
    ensures cfg.version.ReplaceLiteral? && !Contains(s, cfg.version.from) ==> x == s
  {
    match cfg.version
    case StampTag(suffix) =>
      if tag.Some? && tag.value != "" then
        FallbackVersion.Rewrite(s, tag.value + suffix)
      else s
    case ReplaceLiteral(from, to) => ReplaceFirst(s, from, to)
  }

  /** A page none of whose markers a configuration's steps look for is present. */
  predicate Unmarked(cfg: Config, s: string, tag: Option<string>) {
    && !Contains(s, TitleTag) && !Contains(s, BodyTag) && !Contains(s, StyleEnd)
    && (cfg.fadeScript.Some? ==> !Contains(s, ScriptEnd))
    && (cfg.version.ReplaceLiteral? ==> !Contains(s, cfg.version.from))
    && (cfg.version.StampTag? && tag.Some? ==> forall j :: 0 <= j <= |s| ==> FallbackVersion.MatchEnd(s, j).None?)
  }

  /** The marking steps, in the order both scripts apply them. */
  function Decorate(cfg: Config, s: string, tag: Option<string>): (x: string)
    ensures Unmarked(cfg, s, tag) ==> x == s
  {
    StampVersion(cfg, AddFadeScript(cfg, AddCss(cfg, AddNotice(cfg, MarkTitle(cfg, s)))), tag)
  }

  /**
   One run: `template` is the content of index.html (`None` when it does not
   exist), `envText` the content of `.env`, `tag` the latest git tag if one was found.
   */
  function Generate(cfg: Config, template: Option<string>, envText: Option<string>, tag: Option<string>)
    : (r: Result<Output, GenError>)
    ensures template.None? <==> r == Failure(TemplateMissing)
    ensures template.Some? ==> (r == Failure(ApiKeyDeclarationMissing) <==> !Contains(template.value, ApiKeyDeclaration))
    ensures r.Success? ==> r.value.path == cfg.destination
  {
    match template
    case None => Failure(TemplateMissing)
    case Some(content) =>
      var apiKey := SelectApiKey(EnvFile.ParseEnv(envText));
      if IndexOf(content, ApiKeyDeclaration).None? then Failure(ApiKeyDeclarationMissing)
      else Success(Output(cfg.destination, Decorate(cfg, InjectKey(content, apiKey), tag)))
  }

  /** The configuration's texts hold no `$`, so every replacement inserts them verbatim. */
  predicate LiteralConfig(cfg: Config) {
    && '$' !in cfg.titleSuffix && '$' !in cfg.notice && '$' !in cfg.css
    && (cfg.fadeScript.Some? ==> '$' !in cfg.fadeScript.value)
    && (cfg.version.StampTag? ==> '$' !in cfg.version.suffix)
    && (cfg.version.ReplaceLiteral? ==> '$' !in cfg.version.to)
  }

  /** The marked version line holds no `$`. */
  lemma TestVersionMarkedLiteral()
    ensures '$' !in TestVersionMarked
  {
    FallbackVersion.VersionLineLiteral("v.005 (Local Test)");
    assert '$' !in " // Updated by script";
  }

  /** generate-local-html.js's texts are inserted verbatim. */
  lemma LocalHtmlLiteral()
    ensures LiteralConfig(LocalHtml)
  {
    assert '$' !in " - Running Locally" && '$' !in " (Running Locally)";
    RunningNoticeLiteral();
    RunningNoticeCssLiteral();
    FadeNoticeScriptLiteral();
  }

  /** generate-local-test.js's texts are inserted verbatim. */
  lemma LocalTestLiteral()
    ensures LiteralConfig(LocalTest)
  {
    TestingNoticeLiteral();
    TestingNoticeCssLiteral();
    TestVersionMarkedLiteral();
  }

  /** generate-local-html.js puts the running-locally banner right after the first `<body>`. */
  lemma LocalHtmlNotice(s: string, i: nat)
    requires IsFirstOccurrence(s, BodyTag, i)
    ensures AddNotice(LocalHtml, s) == s[..i + |BodyTag|] + RunningNotice + s[i + |BodyTag|..]
  {
    LocalHtmlLiteral();
    NoticeStep(LocalHtml, s, i);
  }

  /** generate-local-test.js puts the testing banner right after the first `<body>`. */
  lemma LocalTestNotice(s: string, i: nat)
    requires IsFirstOccurrence(s, BodyTag, i)
    ensures AddNotice(LocalTest, s) == s[..i + |BodyTag|] + TestingNotice + s[i + |BodyTag|..]
  {
    LocalTestLiteral();
    NoticeStep(LocalTest, s, i);
  }

  /** generate-local-html.js puts the banner's style rules, a line break and the indentation right before the first `</style>`. */
  lemma LocalHtmlCss(s: string, i: nat)
    requires IsFirstOccurrence(s, StyleEnd, i)
    ensures AddCss(LocalHtml, s) == s[..i] + RunningNoticeCss + Indent + s[i..]
  {
    LocalHtmlLiteral();
    CssStep(LocalHtml, s, i);
  }

  /** generate-local-test.js puts the testing banner's style rules right before the first `</style>` in the same way. */
  lemma LocalTestCss(s: string, i: nat)
    requires IsFirstOccurrence(s, StyleEnd, i)
    ensures AddCss(LocalTest, s) == s[..i] + TestingNoticeCss + Indent + s[i..]
  {
    LocalTestLiteral();
    CssStep(LocalTest, s, i);
  }

  /** With a `$`-free key, the first empty declaration is replaced by the key's statement and nothing else changes. */
  lemma KeyStep(content: string, key: Option<string>, i: nat)
    requires IsFirstOccurrence(content, ApiKeyDeclaration, i)
    requires key.Some? ==> '$' !in key.value
    ensures InjectKey(content, key) == content[..i] + ApiKeyLine(key) + content[i + |ApiKeyDeclaration|..]
  {
    ApiKeyLineLiteral(key);
    ReplaceFirstSplices(content, ApiKeyDeclaration, ApiKeyLine(key), i);
  }

  /** The first `<title>AI Asteroids</title>` becomes the configured title; nothing else changes. */
  lemma TitleStep(cfg: Config, s: string, i: nat)
    requires IsFirstOccurrence(s, TitleTag, i) && '$' !in cfg.titleSuffix
    ensures MarkTitle(cfg, s) == s[..i] + TitleLine(cfg.titleSuffix) + s[i + |TitleTag|..]
  {
    assert '$' !in "<title>AI Asteroids" && '$' !in "</title>";
    ReplaceFirstSplices(s, TitleTag, TitleLine(cfg.titleSuffix), i);
  }

  /** The game's title element starts nowhere in a title element naming something else. */
  lemma TitleTagNotAt(name: string, p: nat)
    requires '<' !in name && name != "AI Asteroids"
    ensures !OccursAt("<title>" + name + "</title>", TitleTag, p)
  {
    var s := "<title>" + name + "</title>";
    if p + |TitleTag| <= |s| {
      var u := s[p..p + |TitleTag|];
      if p == 0 {
        TitleTagNotAtStart(name);
        assert u == s[..|TitleTag|];
      } else {
        NoOpenBracketAt(name, p);
        assert u[0] == s[p];
        assert TitleTag[0] == '<';
      }
    }
  }

  /** Inside the opening tag and the name, a title element has no `<` after its first character. */
  lemma NoOpenBracketAt(name: string, q: nat)
    requires '<' !in name && 0 < q < 7 + |name|
    ensures ("<title>" + name + "</title>")[q] != '<'
  {
    var s := "<title>" + name + "</title>";
    if q < 7 {
      assert s[q] == "<title>"[q];
      assert forall t :: 0 < t < 7 ==> "<title>"[t] != '<';
    } else {
      assert s[q] == name[q - 7];
    }
  }

  /** A title element naming something else does not begin with the game's title element. */
  lemma TitleTagNotAtStart(name: string)
    requires '<' !in name && name != "AI Asteroids" && |TitleTag| <= 15 + |name|
    ensures ("<title>" + name + "</title>")[..|TitleTag|] != TitleTag
  {
    var s := "<title>" + name + "</title>";
    var u := s[..|TitleTag|];
    if |name| > 12 {
      assert u[19] == name[12];
      assert TitleTag[19] == '<';
    } else {
      assert s[7..19] == name;
      assert u[7..19] == s[7..19];
      assert TitleTag[7..19] == "AI Asteroids";
    }
  }

  /**
   Only the game's own title is recognised: a title element naming anything
   else is left as it is, without the configured suffix.
   */
  lemma OtherTitleKept(cfg: Config, name: string)
    requires '<' !in name && name != "AI Asteroids"
    ensures MarkTitle(cfg, "<title>" + name + "</title>") == "<title>" + name + "</title>"
  {
    forall p: nat ensures !OccursAt("<title>" + name + "</title>", TitleTag, p) {
      TitleTagNotAt(name, p);
    }
  }

  /** The notice lands immediately after the first `<body>`, which stays the first. */
  lemma NoticeStep(cfg: Config, s: string, i: nat)
    requires IsFirstOccurrence(s, BodyTag, i) && '$' !in cfg.notice
    ensures AddNotice(cfg, s) == s[..i + |BodyTag|] + cfg.notice + s[i + |BodyTag|..]
    ensures IsFirstOccurrence(AddNotice(cfg, s), BodyTag, i)
    ensures OccursAt(AddNotice(cfg, s), cfg.notice, i + |BodyTag|)
  {
    InsertAfterFirst(s, BodyTag, cfg.notice, i);
  }

  /** The style rules land immediately before the first `</style>`, on their own indented line. */
  lemma CssStep(cfg: Config, s: string, i: nat)
    requires IsFirstOccurrence(s, StyleEnd, i) && '$' !in cfg.css
    ensures AddCss(cfg, s) == s[..i] + cfg.css + Indent + s[i..]
    ensures OccursAt(AddCss(cfg, s), StyleEnd, i + |cfg.css| + |Indent|)
  {
    assert '$' !in Indent && '$' !in StyleEnd;
    InsertLineBefore(s, StyleEnd, cfg.css, Indent, i);
  }

  /** Text `t` and a line break `gap` land immediately before the first `m`. */
  lemma InsertLineBefore(s: string, m: string, t: string, gap: string, i: nat)
    requires IsFirstOccurrence(s, m, i)
    requires '$' !in t && '$' !in gap && '$' !in m
    ensures ReplaceFirst(s, m, t + gap + m) == s[..i] + t + gap + s[i..]
    ensures OccursAt(ReplaceFirst(s, m, t + gap + m), m, i + |t| + |gap|)
  {
    assert '$' !in t + gap + m;
    InsertBeforeFirst(s, m, t + gap, i);
    assert s[..i] + (t + gap) + s[i..] == s[..i] + t + gap + s[i..];
  }

  /** The fade script lands immediately before the first `</script>`, on its own indented line. */
  lemma ScriptStep(cfg: Config, s: string, i: nat)
    requires cfg.fadeScript.Some? && '$' !in cfg.fadeScript.value
    requires IsFirstOccurrence(s, ScriptEnd, i)
    ensures AddFadeScript(cfg, s) == s[..i] + cfg.fadeScript.value + Indent + s[i..]
    ensures OccursAt(AddFadeScript(cfg, s), ScriptEnd, i + |cfg.fadeScript.value| + |Indent|)
  {
    var js := cfg.fadeScript.value;
    assert AddFadeScript(cfg, s) == ReplaceFirst(s, ScriptEnd, js + Indent + ScriptEnd);
    assert '$' !in Indent && '$' !in ScriptEnd;
    InsertLineBefore(s, ScriptEnd, js, Indent, i);
  }

  /**
   With a tag, the leftmost `const fallbackVersion = "…";` is rewritten to carry
   the tag and the configured suffix; the text around it is kept.
   */
  lemma TagStep(cfg: Config, s: string, tag: Option<string>, p: nat, v: string)
    requires cfg.version.StampTag? && tag.Some? && tag.value != ""
    requires '$' !in tag.value + cfg.version.suffix
    requires FallbackVersion.IsLeftmostMatch(s, p, v)
    ensures StampVersion(cfg, s, tag)
         == s[..p] + FallbackVersion.VersionLine(tag.value + cfg.version.suffix)
          + s[p + |FallbackVersion.Prefix| + |v| + 2..]
  {
    FallbackVersion.RewriteLeftmost(s, tag.value + cfg.version.suffix, p, v);
  }

  /** A page without a fallback version line is not changed by the tag rewrite. */
  lemma TagStepWithoutMatch(cfg: Config, s: string, tag: Option<string>)
    requires cfg.version.StampTag?
    requires forall p, v :: 0 <= p <= |s| ==> !FallbackVersion.MatchesAt(s, p, v)
    ensures StampVersion(cfg, s, tag) == s
  {
    if tag.Some? && tag.value != "" {
      FallbackVersion.RewriteWithoutMatch(s, tag.value + cfg.version.suffix);
    }
  }

  /** The literal version rewrite replaces the first occurrence of its line, whatever the tag. */
  lemma LiteralVersionStep(cfg: Config, s: string, tag: Option<string>, i: nat)
    requires cfg.version.ReplaceLiteral? && '$' !in cfg.version.to
    requires IsFirstOccurrence(s, cfg.version.from, i)
    ensures StampVersion(cfg, s, tag) == s[..i] + cfg.version.to + s[i + |cfg.version.from|..]
  {
    ReplaceFirstSplices(s, cfg.version.from, cfg.version.to, i);
  }

  /**
   A template with the empty declaration is accepted: the page written is the
   key statement spliced in at the first declaration, then marked.
   */
  lemma GenerateInjects(cfg: Config, content: string, envText: Option<string>, tag: Option<string>, i: nat)
    requires IsFirstOccurrence(content, ApiKeyDeclaration, i)
    requires var key := SelectApiKey(EnvFile.ParseEnv(envText)); key.Some? ==> '$' !in key.value
    ensures var key := SelectApiKey(EnvFile.ParseEnv(envText));
      Generate(cfg, Some(content), envText, tag)
      == Success(Output(cfg.destination,
           Decorate(cfg, content[..i] + ApiKeyLine(key) + content[i + |ApiKeyDeclaration|..], tag)))
  {
    KeyStep(content, SelectApiKey(EnvFile.ParseEnv(envText)), i);
  }

  /**
   `.env` text made of `lines`: when the last line binding `GEMINI_API_KEY`
   gives it a non-empty value, that value is the key, whatever `API_KEY` holds.
   */
  lemma GeminiKeyFromLines(lines: seq<string>, i: nat, v: string)
    requires forall j :: 0 <= j < |lines| ==> '\n' !in lines[j]
    requires i < |lines| && EnvFile.ParseLine(lines[i]) == Some(EnvFile.Entry("GEMINI_API_KEY", v)) && v != ""
    requires forall j :: i < j < |lines| ==>
      !(EnvFile.ParseLine(lines[j]).Some? && EnvFile.ParseLine(lines[j]).value.key == "GEMINI_API_KEY")
    ensures SelectApiKey(EnvFile.ParseEnv(Some(Join(lines, '\n')))) == Some(v)
  {
    SplitJoin(lines, '\n');
    EnvFile.LastBindingWins(lines, "GEMINI_API_KEY", i);
  }

  /** Without a `.env` file there is no key, and the placeholder is written. */
  lemma NoEnvFileNoKey()
    ensures SelectApiKey(EnvFile.ParseEnv(None)) == None
    ensures ApiKeyLine(SelectApiKey(EnvFile.ParseEnv(None)))[..|PlaceholderDeclaration|] == PlaceholderDeclaration
  {
  }

  /** Characters of a key that cannot be read as markup, as a quote or as a replacement pattern. */
  predicate PlainChar(c: char) {
    ('a' <= c <= 'z') || ('A' <= c <= 'Z') || ('0' <= c <= '9') || c == '_' || c == '-' || c == '.'
  }

  /** A key made only of such characters, as API keys are. */
  predicate PlainKey(k: string) {
    forall i :: 0 <= i < |k| ==> PlainChar(k[i])
  }

  /** The placeholder is itself a plain key, and its declaration is the one a key would get. */
  lemma PlaceholderIsPlainKey()
    ensures PlainKey(Placeholder)
    ensures PlaceholderDeclaration == KeyDeclaration(Placeholder)
  {
  }

  /** Wherever `c` stands after the start of `m`, it is not followed by `o`, and it is not last. */
  predicate NoCoAfterStart(m: string) {
    forall t :: 0 < t < |m| && m[t] == 'c' ==> t + 1 < |m| && m[t + 1] != 'o'
  }

  /** Text `m` at `p` and text `w` at `j` agree wherever they overlap. */
  lemma OverlapAgrees(s: string, m: string, p: nat, w: string, j: nat, t: nat)
    requires OccursAt(s, m, p) && OccursAt(s, w, j)
    requires t < |m| && j <= p + t < j + |w|
    ensures m[t] == w[p + t - j]
  {
    assert s[p + t] == s[p..p + |m|][t];
    assert s[p + t] == s[j..j + |w|][p + t - j];
  }

  /** The shape of a key declaration: where its quotes, spaces and `c` stand. */
  lemma KeyDeclarationShape(k: string)
    requires PlainKey(k)
    ensures var w := KeyDeclaration(k);
      && |w| == |k| + 19 && w[0] == 'c' && w[1] == 'o' && w[6] == 'A'
      && w[16] == '"' && w[17] != ';' && w[|k| + 17] == '"'
      && (forall t :: 0 <= t < |w| ==> w[t] != '<')
      && (forall t :: 0 < t < 17 ==> w[t] != 'c')
      && (forall t :: 0 <= t < 16 ==> w[t] != '"')
      && (forall t :: 17 <= t < |w| ==> w[t] != ' ')
  {
    var w := KeyDeclaration(k);
    var head := "const API_KEY = \"";
    assert w == head + k + "\";";
    forall t | 17 <= t < |k| + 17 ensures w[t] == k[t - 17] && PlainChar(w[t]) { }
  }

  /** A tag marker starting inside a key declaration would have to start with a character the declaration lacks. */
  lemma TagNotInside(s: string, m: string, p: nat, k: string, j: nat)
    requires OccursAt(s, m, p) && OccursAt(s, KeyDeclaration(k), j) && PlainKey(k)
    requires |m| > 0 && m[0] == '<'
    ensures p < j || j + |KeyDeclaration(k)| <= p
  {
    KeyDeclarationShape(k);
    if j <= p < j + |KeyDeclaration(k)| {
      OverlapAgrees(s, m, p, KeyDeclaration(k), j, 0);
      assert false;
    }
  }

  /** Text starting `const f` cannot start inside a key declaration. */
  lemma ConstNotInside(s: string, m: string, p: nat, k: string, j: nat)
    requires OccursAt(s, m, p) && OccursAt(s, KeyDeclaration(k), j) && PlainKey(k)
    requires |m| >= 7 && m[..7] == "const f"
    ensures p < j || j + |KeyDeclaration(k)| <= p
  {
    var w := KeyDeclaration(k);
    KeyDeclarationShape(k);
    if p == j {
      OverlapAgrees(s, m, p, w, j, 6);
      assert false;
    } else if j < p < j + |w| {
      OverlapAgrees(s, m, p, w, j, 0);
      if p + 5 < j + |w| {
        OverlapAgrees(s, m, p, w, j, 5);
        assert false;
      } else {
        var q := j + |k| + 17;
        OverlapAgrees(s, m, p, w, j, q - p);
        assert false;
      }
    }
  }

  /** Text with no `co` after its start cannot start before a key declaration and run into it. */
  lemma NotBefore(s: string, m: string, p: nat, k: string, j: nat)
    requires OccursAt(s, m, p) && OccursAt(s, KeyDeclaration(k), j) && PlainKey(k)
    requires NoCoAfterStart(m)
    ensures !(p < j < p + |m|)
  {
    var w := KeyDeclaration(k);
    KeyDeclarationShape(k);
    if p < j < p + |m| {
      OverlapAgrees(s, m, p, w, j, j - p);
      if j - p + 1 < |m| {
        OverlapAgrees(s, m, p, w, j, j - p + 1);
      }
      assert false;
    }
  }

  /** The literal markers of both scripts. */
  lemma MarkersNoCo()
    ensures NoCoAfterStart(TitleTag) && NoCoAfterStart(BodyTag)
    ensures NoCoAfterStart(StyleEnd) && NoCoAfterStart(ScriptEnd)
    ensures NoCoAfterStart(TestVersionLine)
  {
    var m := TestVersionLine;
    var a := "const fallbackVersion = \"v.005\";";
    var b := " // Updated by script";
    forall t | 0 < t < |m| && m[t] == 'c' ensures t + 1 < |m| && m[t + 1] != 'o' {
      if t < |a| { assert m[t] == a[t]; } else { assert m[t] == b[t - |a|]; }
    }
  }

  /** The expression's literal prefix has no `co` after its start. */
  lemma PrefixNoCo()
    ensures NoCoAfterStart(FallbackVersion.Prefix)
  {
  }

  /**
   A match of the fallback version expression cannot start before a key
   declaration and run into it: its closing `";` would have to fall on the
   declaration's opening quote, which a plain key follows.
   */
  lemma MatchNotBefore(s: string, p: nat, v: string, k: string, j: nat)
    requires FallbackVersion.MatchesAt(s, p, v) && OccursAt(s, KeyDeclaration(k), j) && PlainKey(k)
    ensures !(p < j < p + |FallbackVersion.Prefix| + |v| + 2)
  {
    var w := KeyDeclaration(k);
    var n := |FallbackVersion.Prefix|;
    var m := FallbackVersion.Prefix + v + FallbackVersion.Close;
    KeyDeclarationShape(k);
    PrefixNoCo();
    if p < j < p + |m| {
      var d := j - p;
      OverlapAgrees(s, m, p, w, j, d);
      var q := p + n + |v|;
      if d < n {
        OverlapAgrees(s, m, p, w, j, d + 1);
        assert false;
      } else if d < n + |v| {
        if q < j + 16 {
          OverlapAgrees(s, m, p, w, j, n + |v|);
          assert false;
        } else if q == j + 16 {
          OverlapAgrees(s, m, p, w, j, n + |v| + 1);
          assert false;
        } else {
          OverlapAgrees(s, m, p, w, j, j + 16 - p);
          assert false;
        }
      } else {
        assert false;
      }
    }
  }

  /** A literal marker and a key declaration on the same page never overlap. */
  lemma MarkerDisjoint(s: string, m: string, p: nat, k: string, j: nat)
    requires OccursAt(s, m, p) && OccursAt(s, KeyDeclaration(k), j) && PlainKey(k)
    requires NoCoAfterStart(m) && |m| > 0
    requires m[0] == '<' || (|m| >= 7 && m[..7] == "const f")
    ensures p + |m| <= j || j + |KeyDeclaration(k)| <= p
  {
    if m[0] == '<' {
      TagNotInside(s, m, p, k, j);
    } else {
      ConstNotInside(s, m, p, k, j);
    }
    NotBefore(s, m, p, k, j);
  }

  /** A literal marker's first occurrence never overlaps a key declaration, so replacing it keeps the declaration. */
  lemma ReplaceFirstKeepsKey(s: string, m: string, r: string, k: string)
    requires Contains(s, KeyDeclaration(k)) && PlainKey(k)
    requires NoCoAfterStart(m) && |m| > 0
    requires m[0] == '<' || (|m| >= 7 && m[..7] == "const f")
    ensures Contains(ReplaceFirst(s, m, r), KeyDeclaration(k))
  {
    var j :| 0 <= j <= |s| && OccursAt(s, KeyDeclaration(k), j);
    match IndexOf(s, m)
    case None =>
    case Some(p) =>
      MarkerDisjoint(s, m, p, k, j);
      ReplaceAtKeepsDisjoint(s, p, |m|, r, KeyDeclaration(k), j);
  }

  /** A match of the fallback version expression and a key declaration never overlap. */
  lemma MatchDisjoint(s: string, p: nat, v: string, k: string, j: nat)
    requires FallbackVersion.MatchesAt(s, p, v) && OccursAt(s, KeyDeclaration(k), j) && PlainKey(k)
    ensures p + |FallbackVersion.Prefix| + |v| + 2 <= j || j + |KeyDeclaration(k)| <= p
  {
    var m := FallbackVersion.Prefix + v + FallbackVersion.Close;
    assert m[..7] == "const f";
    ConstNotInside(s, m, p, k, j);
    MatchNotBefore(s, p, v, k, j);
  }

  /** The fallback version rewrite keeps a key declaration. */
  lemma RewriteKeepsKey(s: string, version: string, k: string)
    requires Contains(s, KeyDeclaration(k)) && PlainKey(k)
    ensures Contains(FallbackVersion.Rewrite(s, version), KeyDeclaration(k))
  {
    var j :| 0 <= j <= |s| && OccursAt(s, KeyDeclaration(k), j);
    if FallbackVersion.FindMatch(s).Some? {
      RewriteFoundKeepsKey(s, version, k, j);
    }
  }

  /** A rewrite that finds a match keeps a key declaration elsewhere on the page. */
  lemma RewriteFoundKeepsKey(s: string, version: string, k: string, j: nat)
    requires OccursAt(s, KeyDeclaration(k), j) && PlainKey(k)
    requires FallbackVersion.FindMatch(s).Some?
    ensures Contains(FallbackVersion.Rewrite(s, version), KeyDeclaration(k))
  {
    var (p, e) := FallbackVersion.FindMatch(s).value;
    FallbackVersion.RewriteFound(s, version);
    RewriteAtKeepsKey(s, version, k, j, p, e);
  }

  /** Rewriting the text a match spans keeps a key declaration elsewhere on the page. */
  lemma RewriteAtKeepsKey(s: string, version: string, k: string, j: nat, p: nat, e: nat)
    requires OccursAt(s, KeyDeclaration(k), j) && PlainKey(k)
    requires FallbackVersion.MatchEnd(s, p) == Some(e)
    ensures p <= e <= |s| && Contains(ReplaceAt(s, p, e - p, FallbackVersion.VersionLine(version)), KeyDeclaration(k))
  {
    FallbackVersion.MatchEndSound(s, p);
    MatchDisjoint(s, p, s[p + |FallbackVersion.Prefix|..e - 2], k, j);
    ReplaceAtKeepsDisjoint(s, p, e - p, FallbackVersion.VersionLine(version), KeyDeclaration(k), j);
  }

  /** A configuration whose version rewrite is one of the two the scripts use. */
  predicate KnownVersionRewrite(cfg: Config) {
    cfg.version.StampTag? || cfg.version.from == TestVersionLine
  }

  /** No marking step can break a key declaration already on the page. */
  lemma DecorateKeepsKey(cfg: Config, s: string, tag: Option<string>, k: string)
    requires Contains(s, KeyDeclaration(k)) && PlainKey(k)
    requires KnownVersionRewrite(cfg)
    ensures Contains(Decorate(cfg, s, tag), KeyDeclaration(k))
  {
    MarkersNoCo();
    var s1 := MarkTitle(cfg, s);
    ReplaceFirstKeepsKey(s, TitleTag, TitleLine(cfg.titleSuffix), k);
    var s2 := AddNotice(cfg, s1);
    ReplaceFirstKeepsKey(s1, BodyTag, BodyTag + cfg.notice, k);
    var s3 := AddCss(cfg, s2);
    ReplaceFirstKeepsKey(s2, StyleEnd, cfg.css + Indent + StyleEnd, k);
    var s4 := AddFadeScript(cfg, s3);
    if cfg.fadeScript.Some? {
      ReplaceFirstKeepsKey(s3, ScriptEnd, cfg.fadeScript.value + Indent + ScriptEnd, k);
    }
    match cfg.version
    case StampTag(suffix) =>
      if tag.Some? && tag.value != "" {
        RewriteKeepsKey(s4, tag.value + suffix, k);
      }
    case ReplaceLiteral(from, to) =>
      assert from[..7] == "const f";
      ReplaceFirstKeepsKey(s4, from, to, k);
  }

  /** The key a page declares: the selected one, or the placeholder. */
  function DeclaredKey(key: Option<string>): (k: string)
    ensures key.Some? ==> k == key.value
    ensures key.None? ==> KeyDeclaration(k) == PlaceholderDeclaration
  {
    match key
    case Some(v) => v
    case None => Placeholder
  }

  /** A plain key holds no `$`. */
  lemma PlainKeyLiteral(k: string)
    requires PlainKey(k)
    ensures '$' !in k
  {
  }

  /** Right after injection, the page declares the key where the empty declaration stood. */
  lemma InjectedKeyDeclared(content: string, key: Option<string>, i: nat)
    requires IsFirstOccurrence(content, ApiKeyDeclaration, i)
    requires key.Some? ==> '$' !in key.value
    ensures OccursAt(InjectKey(content, key), KeyDeclaration(DeclaredKey(key)), i)
  {
    KeyStep(content, key, i);
    SpliceOccurs(content[..i], ApiKeyLine(key), content[i + |ApiKeyDeclaration|..], KeyDeclaration(DeclaredKey(key)));
  }

  /** Text that starts with `w`, put after `a`, has `w` at index `|a|`. */
  lemma SpliceOccurs(a: string, line: string, b: string, w: string)
    requires StartsWith(line, w)
    ensures OccursAt(a + line + b, w, |a|)
  {
    assert (a + line + b)[|a|..|a| + |w|] == line[..|w|];
  }

  /**
   A run on a template with the empty declaration writes a page that declares
   the selected key, or the placeholder when there is none, whatever else the
   template holds and whatever tag is stamped.
   */
  lemma GeneratedPageDeclaresKey(cfg: Config, content: string, envText: Option<string>, tag: Option<string>)
    requires Contains(content, ApiKeyDeclaration)
    requires KnownVersionRewrite(cfg)
    requires var key := SelectApiKey(EnvFile.ParseEnv(envText)); key.Some? ==> PlainKey(key.value)
    ensures Generate(cfg, Some(content), envText, tag).Success?
    ensures var key := SelectApiKey(EnvFile.ParseEnv(envText));
      key.Some? ==> Contains(Generate(cfg, Some(content), envText, tag).value.html, KeyDeclaration(key.value))
    ensures SelectApiKey(EnvFile.ParseEnv(envText)).None? ==>
      Contains(Generate(cfg, Some(content), envText, tag).value.html, PlaceholderDeclaration)
  {
    var key := SelectApiKey(EnvFile.ParseEnv(envText));
    var i := IndexOf(content, ApiKeyDeclaration).value;
    PlaceholderIsPlainKey();
    if key.Some? {
      PlainKeyLiteral(key.value);
    }
    InjectedKeyDeclared(content, key, i);
    DecorateKeepsKey(cfg, InjectKey(content, key), tag, DeclaredKey(key));
  }
}
