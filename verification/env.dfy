/**
 The `.env` reader both generator scripts share (`parseEnvFile`): the text is
 split on line feeds, each line is trimmed, blank and `#` lines are skipped,
 and `KEY=value` lines bind the trimmed key to the trimmed remainder, later
 lines overwriting earlier ones.
 */
module EnvFile {
  import opened Wrappers
  import opened Text

  /** The binding one accepted line contributes. */
  datatype Entry = Entry(key: string, value: string)

  /** A key as the parser can produce it: non-empty, trimmed, without `=`, not a comment. */
  predicate WellFormedKey(k: string) {
    k != [] && Trimmed(k) && '=' !in k && k[0] != '#'
  }

  /** A value as the parser can produce it: trimmed and on one line. */
  predicate WellFormedValue(v: string) {
    Trimmed(v) && '\n' !in v
  }

  /** Trimming keeps a leading non-whitespace character in front. */
  lemma TrimKeepsHead(s: string)
    requires s != [] && !IsJsSpace(s[0])
    ensures Trim(s) != [] && Trim(s)[0] == s[0]
  {
    assert TrimStart(s) == s;
  }

  /** Trimming never introduces characters. */
  lemma TrimSubset(s: string, c: char)
    requires c !in s
    ensures c !in Trim(s)
  {
    var t := TrimStart(s);
    assert t == s[|s| - |t|..];
    var u := TrimEnd(t);
    assert u == t[..|u|];
  }

  /** The leftmost `=` of a string that has one. */
  lemma FirstEquals(t: string) returns (i: nat)
    requires '=' in t
    ensures i < |t| && t[i] == '=' && '=' !in t[..i]
  {
    var k := IndexOf(t, "=");
    if k.None? {
      var j :| 0 <= j < |t| && t[j] == '=';
      OccursAtChar(t, '=', j);
      assert false;
    }
    i := k.value;
    OccursAtChar(t, '=', i);
    forall j | 0 <= j < i ensures t[..i][j] != '=' {
      OccursAtChar(t, '=', j);
    }
  }

  /** A trimmed line `parseEnvFile` skips: blank, a comment, without `=`, or with an empty key. */
  predicate Skipped(t: string) {
    t == [] || t[0] == '#' || t[0] == '=' || '=' !in t
  }

  /** A non-empty line starts with `#` exactly when its first character is `#`. */
  lemma StartsWithHash(t: string)
    requires t != []
    ensures StartsWith(t, "#") <==> t[0] == '#'
  {
    assert t[..1] == [t[0]];
  }

  /**
   `parseEnvFile`'s treatment of one line: `None` for a blank line, a comment,
   a line without `=` and a line whose key is empty.
   */
  function ParseLine(line: string): (r: Option<Entry>)
    ensures r.None? <==> Skipped(Trim(line))
    ensures r.Some? ==> WellFormedKey(r.value.key) && Trimmed(r.value.value)
    ensures r.Some? && '\n' !in line ==> '\n' !in r.value.key && '\n' !in r.value.value
  {
    var t := Trim(line);
    if t == [] then None
    else if StartsWith(t, "#") then
      StartsWithHash(t);
      None
    else
      StartsWithHash(t);
      var parts := Split(t, '=');
      var key := parts[0];
      if key != [] && |parts| > 1 then
        ParseLineAccepts(t, parts);
        ParseLineOneLine(line, t, parts);
        Some(Entry(Trim(key), Trim(Join(parts[1..], '='))))
      else
        ParseLineRejects(t, parts);
        None
  }

  /** A line whose split has a non-empty head and a tail is not skipped, and its key is well formed. */
  lemma ParseLineAccepts(t: string, parts: seq<string>)
    requires t != [] && Trimmed(t) && t[0] != '#'
    requires parts == Split(t, '=') && parts[0] != [] && |parts| > 1
    ensures !Skipped(t)
    ensures WellFormedKey(Trim(parts[0]))
  {
    if '=' !in t {
      SplitWithout(t, '=');
      assert false;
    }
    var i := FirstEquals(t);
    SplitAtFirst(t, '=', i);
    assert parts[0] == t[..i];
    assert t[0] == parts[0][0];
    TrimKeepsHead(parts[0]);
    TrimSubset(parts[0], '=');
  }

  /** A one-line input gives a one-line key and value. */
  lemma ParseLineOneLine(line: string, t: string, parts: seq<string>)
    requires t == Trim(line) && '=' in t
    requires parts == Split(t, '=')
    ensures '\n' !in line ==> '\n' !in Trim(parts[0]) && '\n' !in Trim(Join(parts[1..], '='))
  {
    if '\n' !in line {
      TrimSubset(line, '\n');
      var i := FirstEquals(t);
      SplitAtFirst(t, '=', i);
      assert '\n' !in t[..i];
      assert '\n' !in t[i + 1..];
      TrimSubset(t[..i], '\n');
      TrimSubset(t[i + 1..], '\n');
    }
  }

  /** A line whose split has an empty head or no tail is skipped. */
  lemma ParseLineRejects(t: string, parts: seq<string>)
    requires t != []
    requires parts == Split(t, '=') && !(parts[0] != [] && |parts| > 1)
    ensures Skipped(t)
  {
    if '=' in t {
      var i := FirstEquals(t);
      SplitAtFirst(t, '=', i);
      assert t[..i] == [];
    }
  }

  /** The key is the trimmed text before the first `=`, the value the trimmed text after it. */
  lemma ParseLineSplitsAtFirstEquals(line: string, i: nat)
    requires var t := Trim(line); i < |t| && t[i] == '=' && '=' !in t[..i]
    requires var t := Trim(line); t[0] != '#' && i > 0
    ensures var t := Trim(line); ParseLine(line) == Some(Entry(Trim(t[..i]), Trim(t[i + 1..])))
  {
    var t := Trim(line);
    StartsWithHash(t);
    SplitAtFirst(t, '=', i);
  }

  /** What each line contributes, in file order. */
  function ParseLines(lines: seq<string>): (r: seq<Option<Entry>>)
    ensures |r| == |lines|
    ensures forall i :: 0 <= i < |lines| ==> r[i] == ParseLine(lines[i])
  {
    seq(|lines|, i requires 0 <= i < |lines| => ParseLine(lines[i]))
  }

  /** The body of `parseEnvFile`'s loop run over the parsed lines: each entry, in order, sets its key. */
  function Assign(parsed: seq<Option<Entry>>): (env: map<string, string>)
    ensures forall i :: 0 <= i < |parsed| && parsed[i].Some? ==> parsed[i].value.key in env
  {
    if parsed == [] then map[]
    else
      var env := Assign(parsed[..|parsed| - 1]);
      match parsed[|parsed| - 1]
      case None => env
      case Some(e) => env[e.key := e.value]
  }

  /** `parseEnvFile`, with `None` standing for a file that does not exist. */
  function ParseEnv(content: Option<string>): (env: map<string, string>)
    ensures content.None? ==> env == map[]
  {
    match content
    case None => map[]
    case Some(text) => Assign(ParseLines(Split(text, '\n')))
  }

  /** Entry `i` sets key `k`. */
  predicate SetsKey(parsed: seq<Option<Entry>>, i: int, k: string) {
    0 <= i < |parsed| && parsed[i].Some? && parsed[i].value.key == k
  }

  /** A key is in the map exactly when some line sets it. */
  lemma {:induction false} AssignDomain(parsed: seq<Option<Entry>>, k: string)
    ensures k in Assign(parsed) <==> exists i :: SetsKey(parsed, i, k)
    decreases |parsed|
  {
    if parsed != [] {
      var n := |parsed| - 1;
      var init := parsed[..n];
      AssignDomain(init, k);
      forall i | 0 <= i < n ensures SetsKey(init, i, k) <==> SetsKey(parsed, i, k) {
        assert init[i] == parsed[i];
      }
      if parsed[n].Some? {
        assert Assign(parsed) == Assign(init)[parsed[n].value.key := parsed[n].value.value];
        if parsed[n].value.key == k {
          assert SetsKey(parsed, n, k);
        }
      } else {
        assert Assign(parsed) == Assign(init);
      }
    }
  }

  /** The value of a key is the one from the last line that sets it. */
  lemma {:induction false} AssignLastWins(parsed: seq<Option<Entry>>, k: string, i: nat)
    requires SetsKey(parsed, i, k)
    requires forall j :: i < j < |parsed| ==> !SetsKey(parsed, j, k)
    ensures k in Assign(parsed) && Assign(parsed)[k] == parsed[i].value.value
    decreases |parsed|
  {
    var n := |parsed| - 1;
    var init := parsed[..n];
    if i < n {
      assert SetsKey(init, i, k);
      forall j | i < j < |init| ensures !SetsKey(init, j, k) {
        assert !SetsKey(parsed, j, k);
      }
      AssignLastWins(init, k, i);
      assert !SetsKey(parsed, n, k);
    }
  }

  /** Lines that contribute nothing can be deleted anywhere without changing the result. */
  lemma {:induction false} AssignSkipsNone(parsed: seq<Option<Entry>>, i: nat)
    requires i < |parsed| && parsed[i].None?
    ensures Assign(parsed[..i] + parsed[i + 1..]) == Assign(parsed)
    decreases |parsed|
  {
    var n := |parsed| - 1;
    var init := parsed[..n];
    if i == n {
      assert parsed[..i] + parsed[i + 1..] == init;
    } else {
      AssignSkipsNone(init, i);
      var shorter := parsed[..i] + parsed[i + 1..];
      assert shorter[..|shorter| - 1] == init[..i] + init[i + 1..];
      assert shorter[|shorter| - 1] == parsed[n];
    }
  }

  /** Parsing a prefix of the lines gives the prefix of the parse. */
  lemma ParseLinesTake(lines: seq<string>, i: nat)
    requires i <= |lines|
    ensures ParseLines(lines[..i]) == ParseLines(lines)[..i]
  {
    var p := ParseLines(lines[..i]);
    forall j | 0 <= j < i ensures p[j] == ParseLines(lines)[..i][j] {
      assert lines[..i][j] == lines[j];
    }
  }

  /** Parsing a suffix of the lines gives the suffix of the parse. */
  lemma ParseLinesDrop(lines: seq<string>, i: nat)
    requires i <= |lines|
    ensures ParseLines(lines[i..]) == ParseLines(lines)[i..]
  {
    var p := ParseLines(lines[i..]);
    forall j | 0 <= j < |lines| - i ensures p[j] == ParseLines(lines)[i..][j] {
      assert lines[i..][j] == lines[i + j];
    }
  }

  /**
   Blank lines, `#` comments, lines without `=` and lines starting with `=`
   can be deleted from the file without changing the map.
   */
  lemma SkippedLineIrrelevant(lines: seq<string>, i: nat)
    requires i < |lines|
    requires Skipped(Trim(lines[i]))
    ensures Assign(ParseLines(lines[..i] + lines[i + 1..])) == Assign(ParseLines(lines))
  {
    var parsed := ParseLines(lines);
    assert parsed[i] == ParseLine(lines[i]);
    AssignSkipsNone(parsed, i);
    ParseLinesAppend(lines[..i], lines[i + 1..]);
    ParseLinesTake(lines, i);
    ParseLinesDrop(lines, i + 1);
  }

  /**
   Both directions of "last wins" for a parsed file: `k` is bound exactly when
   some line binds it, and then to the value on the last such line.
   */
  lemma LastBindingWins(lines: seq<string>, k: string, i: nat)
    requires i < |lines| && ParseLine(lines[i]).Some? && ParseLine(lines[i]).value.key == k
    requires forall j :: i < j < |lines| ==> !(ParseLine(lines[j]).Some? && ParseLine(lines[j]).value.key == k)
    ensures var env := Assign(ParseLines(lines)); k in env && env[k] == ParseLine(lines[i]).value.value
  {
    var parsed := ParseLines(lines);
    assert SetsKey(parsed, i, k);
    forall j | i < j < |parsed| ensures !SetsKey(parsed, j, k) {
      assert parsed[j] == ParseLine(lines[j]);
    }
    AssignLastWins(parsed, k, i);
  }

  /** A key no line binds is absent from the map. */
  lemma UnboundKeyAbsent(lines: seq<string>, k: string)
    requires forall j :: 0 <= j < |lines| ==> !(ParseLine(lines[j]).Some? && ParseLine(lines[j]).value.key == k)
    ensures k !in Assign(ParseLines(lines))
  {
    var parsed := ParseLines(lines);
    forall j | 0 <= j < |parsed| ensures !SetsKey(parsed, j, k) {
      assert parsed[j] == ParseLine(lines[j]);
    }
    AssignDomain(parsed, k);
  }

  /** Every binding in the map is one a single line produced. */
  lemma {:induction false} AssignWellFormed(parsed: seq<Option<Entry>>)
    requires forall i :: 0 <= i < |parsed| && parsed[i].Some? ==>
      WellFormedKey(parsed[i].value.key) && '\n' !in parsed[i].value.key && WellFormedValue(parsed[i].value.value)
    ensures forall k :: k in Assign(parsed) ==> WellFormedKey(k) && '\n' !in k && WellFormedValue(Assign(parsed)[k])
    decreases |parsed|
  {
    if parsed != [] {
      AssignWellFormed(parsed[..|parsed| - 1]);
    }
  }

  /** The map `parseEnvFile` returns only holds keys and values a line of the file can produce. */
  lemma ParseEnvWellFormed(content: Option<string>)
    ensures forall k :: k in ParseEnv(content) ==> WellFormedKey(k) && '\n' !in k && WellFormedValue(ParseEnv(content)[k])
  {
    if content.Some? {
      var lines := Split(content.value, '\n');
      AssignWellFormed(ParseLines(lines));
    }
  }

  /** One more entry extends the fold by one update. */
  lemma AssignSnoc(parsed: seq<Option<Entry>>, i: nat)
    requires i < |parsed|
    ensures Assign(parsed[..i + 1]) ==
      match parsed[i]
      case None => Assign(parsed[..i])
      case Some(e) => Assign(parsed[..i])[e.key := e.value]
  {
    assert parsed[..i + 1][..i] == parsed[..i];
  }

  /** One pass of `parseEnvFile`'s loop body: the line's binding, if any, is written into `env`. */
  method ApplyLine(env: map<string, string>, line: string) returns (env': map<string, string>)
    ensures ParseLine(line).None? ==> env' == env
    ensures ParseLine(line).Some? ==> env' == env[ParseLine(line).value.key := ParseLine(line).value.value]
  {
    env' := env;
    var t := Trim(line);
    if t != [] && !StartsWith(t, "#") {
      var parts := Split(t, '=');
      if parts[0] != [] && |parts| > 1 {
        assert ParseLine(line) == Some(Entry(Trim(parts[0]), Trim(Join(parts[1..], '='))));
        env' := env[Trim(parts[0]) := Trim(Join(parts[1..], '='))];
      } else {
        assert ParseLine(line) == None;
      }
    } else {
      assert ParseLine(line) == None;
    }
  }

  /** The loop of `parseEnvFile` over the file's lines. */
  method CollectLines(lines: seq<string>) returns (env: map<string, string>)
    ensures env == Assign(ParseLines(lines))
  {
    env := map[];
    ghost var parsed := ParseLines(lines);
    var i := 0;
    while i < |lines|
      invariant i <= |lines|
      invariant env == Assign(parsed[..i])
    {
      AssignSnoc(parsed, i);
      env := ApplyLine(env, lines[i]);
      i := i + 1;
    }
    assert parsed[..|lines|] == parsed;
  }

  /** `parseEnvFile`: no file gives the empty map, otherwise the loop runs over the file's lines. */
  method ParseEnvFile(content: Option<string>) returns (env: map<string, string>)
    ensures env == ParseEnv(content)
  {
    env := map[];
    if content.None? {
      return;
    }
    env := CollectLines(Split(content.value, '\n'));
  }

  /** One `KEY=value` line of a file written from entries. */
  function RenderLine(e: Entry): string {
    e.key + "=" + e.value
  }

  function RenderLines(es: seq<Entry>): (lines: seq<string>)
    ensures |lines| == |es|
    ensures forall i :: 0 <= i < |es| ==> lines[i] == RenderLine(es[i])
  {
    seq(|es|, i requires 0 <= i < |es| => RenderLine(es[i]))
  }

  /** A `.env` text holding one line per entry. */
  function Render(es: seq<Entry>): string {
    Join(RenderLines(es), '\n')
  }

  /** The map a sequence of assignments denotes: later entries overwrite earlier ones. */
  function Bind(es: seq<Entry>): map<string, string> {
    if es == [] then map[] else Bind(es[..|es| - 1])[es[|es| - 1].key := es[|es| - 1].value]
  }

  /** A rendered line has non-whitespace ends and its first `=` follows the key. */
  lemma RenderedLineShape(e: Entry)
    requires WellFormedKey(e.key) && WellFormedValue(e.value)
    ensures Trimmed(RenderLine(e))
    ensures var line := RenderLine(e); var k := |e.key|;
      k < |line| && line[..k] == e.key && line[k] == '=' && line[k + 1..] == e.value && line[0] != '#'
  {
    var line := RenderLine(e);
    assert line[0] == e.key[0];
    assert line[|line| - 1] == if e.value == [] then '=' else e.value[|e.value| - 1];
  }

  /** An already trimmed line splits at its first `=`. */
  lemma ParseTrimmedLine(t: string, i: nat)
    requires Trimmed(t) && i < |t| && t[i] == '=' && '=' !in t[..i] && t[0] != '#' && i > 0
    ensures ParseLine(t) == Some(Entry(Trim(t[..i]), Trim(t[i + 1..])))
  {
    TrimOfTrimmed(t);
    ParseLineSplitsAtFirstEquals(t, i);
  }

  /** A rendered well-formed entry parses back to itself. */
  lemma ParseRenderedLine(e: Entry)
    requires WellFormedEntry(e)
    ensures ParseLine(RenderLine(e)) == Some(e)
  {
    var line := RenderLine(e);
    var k := |e.key|;
    RenderedLineShape(e);
    ParseTrimmedLine(line, k);
    TrimOfTrimmed(e.key);
    TrimOfTrimmed(e.value);
    assert Entry(Trim(line[..k]), Trim(line[k + 1..])) == e;
  }

  /** Entries a rendered line parses back to. */
  predicate WellFormedEntry(e: Entry) {
    WellFormedKey(e.key) && '\n' !in e.key && WellFormedValue(e.value)
  }

  /** Rendering and parsing one more well-formed entry applies its assignment. */
  lemma AssignRenderedStep(es: seq<Entry>)
    requires es != [] && WellFormedEntry(es[|es| - 1])
    ensures Assign(ParseLines(RenderLines(es)))
         == Assign(ParseLines(RenderLines(es[..|es| - 1])))[es[|es| - 1].key := es[|es| - 1].value]
  {
    var n := |es| - 1;
    ParsedRenderedLast(es);
    ParsedRenderedTake(es, n);
    AssignLast(ParseLines(RenderLines(es)), es[n]);
  }

  /** The last rendered line parses back to the last entry. */
  lemma ParsedRenderedLast(es: seq<Entry>)
    requires es != [] && WellFormedEntry(es[|es| - 1])
    ensures ParseLines(RenderLines(es))[|es| - 1] == Some(es[|es| - 1])
  {
    ParseRenderedLine(es[|es| - 1]);
  }

  /** Rendering and parsing a prefix of the entries gives the prefix of the parsed lines. */
  lemma ParsedRenderedTake(es: seq<Entry>, n: nat)
    requires n <= |es|
    ensures ParseLines(RenderLines(es))[..n] == ParseLines(RenderLines(es[..n]))
  {
    RenderLinesTake(es, n);
    ParseLinesTake(RenderLines(es), n);
  }

  /** A last entry sets its key over what the lines before it assign. */
  lemma AssignLast(parsed: seq<Option<Entry>>, e: Entry)
    requires parsed != [] && parsed[|parsed| - 1] == Some(e)
    ensures Assign(parsed) == Assign(parsed[..|parsed| - 1])[e.key := e.value]
  {
  }

  /** Parsing the lines rendered from well-formed entries gives the map the assignments denote. */
  lemma {:induction false} AssignRendered(es: seq<Entry>)
    requires forall i :: 0 <= i < |es| ==> WellFormedEntry(es[i])
    ensures Assign(ParseLines(RenderLines(es))) == Bind(es)
    decreases |es|
  {
    if es != [] {
      var n := |es| - 1;
      AssignRendered(es[..n]);
      AssignRenderedStep(es);
    }
  }

  /** Rendering a prefix of the entries gives the prefix of the rendered lines. */
  lemma RenderLinesTake(es: seq<Entry>, n: nat)
    requires n <= |es|
    ensures RenderLines(es[..n]) == RenderLines(es)[..n]
  {
    var r := RenderLines(es[..n]);
    forall j | 0 <= j < n ensures r[j] == RenderLines(es)[..n][j] {
      assert es[..n][j] == es[j];
    }
  }

  /**
   Writing well-formed entries as `KEY=value` lines and parsing the text gives
   the map the assignments denote, with the last assignment of a key winning.
   */
  lemma ParseRender(es: seq<Entry>)
    requires forall i :: 0 <= i < |es| ==> WellFormedEntry(es[i])
    ensures ParseEnv(Some(Render(es))) == Bind(es)
  {
    var lines := RenderLines(es);
    if es == [] {
      SplitWithout([], '\n');
    } else {
      RenderedLinesOneLine(es);
      SplitJoin(lines, '\n');
      AssignRendered(es);
    }
  }

  lemma RenderedLinesOneLine(es: seq<Entry>)
    requires forall i :: 0 <= i < |es| ==> '\n' !in es[i].key && '\n' !in es[i].value
    ensures forall i :: 0 <= i < |es| ==> '\n' !in RenderLines(es)[i]
  {
    forall i | 0 <= i < |es| ensures '\n' !in RenderLines(es)[i] {
      assert RenderLines(es)[i] == es[i].key + "=" + es[i].value;
    }
  }

  /** A trailing space is trimmed off a key. */
  lemma TrimTrailingSpace(k: string)
    requires k != [] && Trimmed(k)
    ensures Trim(k + " ") == k
  {
    var s := k + " ";
    assert s[0..|k|] == k && s[..0] == [] && s[|k|..] == " ";
    TrimCharacterised(s, 0, |k|);
  }

  /** A leading space is trimmed off a value. */
  lemma TrimLeadingSpace(v: string)
    requires v != [] && Trimmed(v)
    ensures Trim(" " + v) == v
  {
    var s := " " + v;
    assert s[1..|v| + 1] == v && s[..1] == " " && s[|v| + 1..] == [];
    TrimCharacterised(s, 1, |v| + 1);
  }

  /**
   Spaces around the first `=` are dropped: `KEY = value` binds the key to the
   value, whatever further `=` the value holds.
   */
  lemma ParseSpacedLine(k: string, v: string)
    requires WellFormedKey(k) && v != [] && Trimmed(v)
    ensures ParseLine(k + " = " + v) == Some(Entry(k, v))
  {
    var t := k + " = " + v;
    var i := |k| + 1;
    assert t[0] == k[0] && t[|t| - 1] == v[|v| - 1];
    assert t[..i] == k + " " && t[i] == '=' && t[i + 1..] == " " + v;
    ParseTrimmedLine(t, i);
    TrimTrailingSpace(k);
    TrimLeadingSpace(v);
  }

  /** `API_KEY=abc123`: a plain assignment. */
  lemma ExampleAssignment()
    ensures ParseLine("API_KEY=abc123") == Some(Entry("API_KEY", "abc123"))
  {
    var e := Entry("API_KEY", "abc123");
    assert RenderLine(e) == "API_KEY=abc123";
    ParseRenderedLine(e);
  }

  /** `FOO = bar=baz`: spaces around the first `=` are trimmed, later `=` are kept. */
  lemma ExampleSpacedAssignment()
    ensures ParseLine("FOO = bar=baz") == Some(Entry("FOO", "bar=baz"))
  {
    assert "FOO" + " = " + "bar=baz" == "FOO = bar=baz";
    ParseSpacedLine("FOO", "bar=baz");
  }

  /** A comment line and a blank line contribute nothing. */
  lemma ExampleSkippedLines()
    ensures ParseLine("# comment") == None && ParseLine("") == None
  {
    CommentSkipped("# comment");
    TrimOfTrimmed("");
  }

  /** A trimmed comment line contributes nothing. */
  lemma CommentSkipped(t: string)
    requires Trimmed(t) && t != [] && t[0] == '#'
    ensures ParseLine(t) == None
  {
    TrimOfTrimmed(t);
  }

  /** Joining four parts puts the separator between neighbours. */
  lemma JoinFour(a: string, b: string, c: string, d: string, sep: char)
    ensures Join([a, b, c, d], sep) == a + [sep] + b + [sep] + c + [sep] + d
  {
    assert [a, b, c, d][1..] == [b, c, d];
    assert [b, c, d][1..] == [c, d];
    assert [c, d][1..] == [d];
    assert Join([c, d], sep) == c + [sep] + d;
    assert Join([b, c, d], sep) == b + [sep] + Join([c, d], sep);
    assert Join([a, b, c, d], sep) == a + [sep] + Join([b, c, d], sep);
  }

  /** Two assignments separated by two skipped lines bind both keys, the second winning. */
  lemma AssignAroundSkipped(a: Entry, b: Entry)
    ensures Assign([Some(a), None, None, Some(b)]) == map[a.key := a.value][b.key := b.value]
  {
    var p := [Some(a), None, None, Some(b)];
    assert p[..3][..2][..1][..0] == [];
    assert Assign(p[..3][..2][..1]) == map[a.key := a.value];
    assert p[..3][..2] == [Some(a), None];
    assert Assign(p[..3][..2]) == map[a.key := a.value];
    assert p[..3] == [Some(a), None, None];
    assert Assign(p[..3]) == map[a.key := a.value];
  }

  /** Parsing the lines of two texts one after the other is parsing each. */
  lemma ParseLinesAppend(a: seq<string>, b: seq<string>)
    ensures ParseLines(a + b) == ParseLines(a) + ParseLines(b)
  {
  }

  /** A single line parses to its own contribution. */
  lemma ParseOneLine(l: string)
    ensures ParseLines([l]) == [ParseLine(l)]
  {
    assert ParseLines([l])[0] == ParseLine([l][0]);
  }

  /** A four-element sequence is the concatenation of its singletons. */
  lemma FourSingletons<T>(x0: T, x1: T, x2: T, x3: T)
    ensures [x0, x1, x2, x3] == [x0] + [x1] + [x2] + [x3]
  {
  }

  /** Four lines parse line by line. */
  lemma ParseFourLines(l0: string, l1: string, l2: string, l3: string)
    ensures ParseLines([l0, l1, l2, l3]) == [ParseLine(l0), ParseLine(l1), ParseLine(l2), ParseLine(l3)]
  {
    FourSingletons(l0, l1, l2, l3);
    FourSingletons(ParseLine(l0), ParseLine(l1), ParseLine(l2), ParseLine(l3));
    ParseLinesAppend([l0] + [l1] + [l2], [l3]);
    ParseLinesAppend([l0] + [l1], [l2]);
    ParseLinesAppend([l0], [l1]);
    ParseOneLine(l0);
    ParseOneLine(l1);
    ParseOneLine(l2);
    ParseOneLine(l3);
  }

  /** Four one-line texts joined by line feeds split back into the four of them. */
  lemma SplitFour(a: string, b: string, c: string, d: string)
    requires '\n' !in a && '\n' !in b && '\n' !in c && '\n' !in d
    ensures Split(a + "\n" + b + "\n" + c + "\n" + d, '\n') == [a, b, c, d]
  {
    var parts := [a, b, c, d];
    JoinFour(a, b, c, d, '\n');
    forall i | 0 <= i < 4 ensures '\n' !in parts[i] {
      if i == 0 { assert parts[i] == a; }
      else if i == 1 { assert parts[i] == b; }
      else if i == 2 { assert parts[i] == c; }
      else { assert parts[i] == d; }
    }
    SplitJoin(parts, '\n');
  }

  /**
   A file of an assignment, two skipped lines and a second assignment binds
   both keys, the second winning.
   */
  lemma ParseFourLineFile(a: string, b: string, c: string, d: string, ea: Entry, ed: Entry)
    requires '\n' !in a && '\n' !in b && '\n' !in c && '\n' !in d
    requires ParseLine(a) == Some(ea) && ParseLine(b) == None && ParseLine(c) == None && ParseLine(d) == Some(ed)
    ensures ParseEnv(Some(a + "\n" + b + "\n" + c + "\n" + d)) == map[ea.key := ea.value][ed.key := ed.value]
  {
    SplitFour(a, b, c, d);
    ParseFourLines(a, b, c, d);
    AssignAroundSkipped(ea, ed);
  }
}
