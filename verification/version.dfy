/**
 The fallback-version rewrite: `content.replace(/const fallbackVersion = "[^"]*";/, …)`.
 The regular expression has no alternation and its one repetition, `[^"]*`,
 is followed by a quote it cannot consume, so a match starting at a given
 index is decided by one scan to the next double quote.
 */
module FallbackVersion {
  import opened Wrappers
  import opened Text
  import opened Replace

  /** The literal text the regular expression starts with. */
  const Prefix: string := "const fallbackVersion = \""

  /** The literal text it ends with. */
  const Close: string := "\";"

  /** The index of the first double quote at or after `k`, or `|s|` when there is none. */
  function QuoteFrom(s: string, k: nat): (e: nat)
    requires k <= |s|
    ensures k <= e <= |s|
    ensures e < |s| ==> s[e] == '"'
    ensures forall j :: k <= j < e ==> s[j] != '"'
    decreases |s| - k
  {
    if k == |s| || s[k] == '"' then k else QuoteFrom(s, k + 1)
  }

  /** Where a match of the regular expression starting at `p` ends, if one does. */
  function MatchEnd(s: string, p: nat): (r: Option<nat>)
    ensures r.Some? ==> OccursAt(s, Prefix, p) && p + |Prefix| + 2 <= r.value <= |s|
    ensures r.Some? ==> s[r.value - 2] == '"' && s[r.value - 1] == ';'
  {
    if !OccursAt(s, Prefix, p) then None
    else
      var e := QuoteFrom(s, p + |Prefix|);
      if e + 1 < |s| && s[e + 1] == ';' then Some(e + 2) else None
  }

  /** The regular expression's language: the text at `p` is the prefix, quote-free `v`, then `";`. */
  predicate MatchesAt(s: string, p: nat, v: string) {
    '"' !in v && OccursAt(s, Prefix + v + Close, p)
  }

  /** The scan only reports genuine matches: the text it spans is in the expression's language. */
  lemma MatchEndSound(s: string, p: nat)
    requires MatchEnd(s, p).Some?
    ensures var e := MatchEnd(s, p).value;
      p + |Prefix| + 2 <= e <= |s| && MatchesAt(s, p, s[p + |Prefix|..e - 2])
  {
    var q := p + |Prefix|;
    var e := QuoteFrom(s, q);
    var v := s[q..e];
    assert '"' !in v by {
      forall j | 0 <= j < |v| ensures v[j] != '"' { assert v[j] == s[q + j]; }
    }
    assert s[p..e + 2] == s[p..q] + v + s[e..e + 2];
  }

  /** The scan finds every match: whatever quote-free text follows the prefix, the scan ends after its `";`. */
  lemma MatchEndComplete(s: string, p: nat, v: string)
    requires MatchesAt(s, p, v)
    ensures MatchEnd(s, p) == Some(p + |Prefix| + |v| + 2)
  {
    var q := p + |Prefix|;
    var m := Prefix + v + Close;
    assert s[p..p + |m|] == m;
    assert OccursAt(s, Prefix, p) by { assert s[p..q] == m[..|Prefix|]; }
    assert forall j | q <= j < q + |v| :: s[j] == v[j - q] by {
      forall j | q <= j < q + |v| ensures s[j] == v[j - q] { assert s[j] == m[j - p]; }
    }
    assert s[q + |v|] == m[|Prefix| + |v|] == '"';
    assert s[q + |v| + 1] == m[|Prefix| + |v| + 1] == ';';
  }

  /** The leftmost match at index `k` or later, as its start and end. */
  function FindFrom(s: string, k: nat): (r: Option<(nat, nat)>)
    requires k <= |s|
    ensures r.Some? ==> k <= r.value.0 && MatchEnd(s, r.value.0) == Some(r.value.1)
    ensures r.Some? ==> forall j :: k <= j < r.value.0 ==> MatchEnd(s, j).None?
    ensures r.None? ==> forall j :: k <= j <= |s| ==> MatchEnd(s, j).None?
    decreases |s| - k
  {
    match MatchEnd(s, k)
    case Some(e) => Some((k, e))
    case None => if k == |s| then None else FindFrom(s, k + 1)
  }

  /** The leftmost match, as `String.prototype.replace` with a non-global expression finds it. */
  function FindMatch(s: string): (r: Option<(nat, nat)>)
    ensures r.Some? ==> var (p, e) := r.value; p + |Prefix| + 2 <= e <= |s|
  {
    var r := FindFrom(s, 0);
    match r
    case None => r
    case Some((p, _)) => MatchEndSound(s, p); r
  }

  /** `p` is where the leftmost match starts, and it spans version text `v`. */
  ghost predicate IsLeftmostMatch(s: string, p: nat, v: string) {
    MatchesAt(s, p, v) && forall j, w :: 0 <= j < p ==> !MatchesAt(s, j, w)
  }

  /** The line the rewrite writes for version text `version`. */
  function VersionLine(version: string): string {
    Prefix + version + Close
  }

  /**
   `content.replace(/const fallbackVersion = "[^"]*";/, VersionLine(version))`:
   the leftmost match is replaced; with no match the content is unchanged.
   */
  function Rewrite(s: string, version: string): (x: string)
    ensures FindMatch(s).None? ==> x == s
    ensures (forall j :: 0 <= j <= |s| ==> MatchEnd(s, j).None?) ==> x == s
  {
    match FindMatch(s)
    case None => s
    case Some((p, e)) => ReplaceAt(s, p, e - p, VersionLine(version))
  }

  /** No text in the expression's language at any index: the rewrite leaves the content alone. */
  lemma RewriteWithoutMatch(s: string, version: string)
    requires forall p, v :: 0 <= p <= |s| ==> !MatchesAt(s, p, v)
    ensures Rewrite(s, version) == s
  {
    if FindMatch(s).Some? {
      var (p, e) := FindMatch(s).value;
      MatchEndSound(s, p);
    }
  }

  /** The search stops at the leftmost text in the expression's language. */
  lemma FindMatchLeftmost(s: string, p: nat, v: string)
    requires IsLeftmostMatch(s, p, v)
    ensures FindMatch(s) == Some((p, p + |Prefix| + |v| + 2))
  {
    MatchEndComplete(s, p, v);
    var r := FindFrom(s, 0);
    var (p', e') := r.value;
    if p' < p {
      MatchEndSound(s, p');
    }
  }

  /** A `$`-free version gives a `$`-free line, which `replace` inserts verbatim. */
  lemma VersionLineLiteral(version: string)
    requires '$' !in version
    ensures '$' !in VersionLine(version)
  {
    assert VersionLine(version) == "const fallbackVersion = \"" + version + "\";";
  }

  /**
   With a `$`-free version, the leftmost `const fallbackVersion = "…";` becomes
   `const fallbackVersion = "<version>";` and the text on either side is kept.
   */
  lemma RewriteLeftmost(s: string, version: string, p: nat, v: string)
    requires IsLeftmostMatch(s, p, v)
    requires '$' !in version
    ensures Rewrite(s, version) == s[..p] + VersionLine(version) + s[p + |Prefix| + |v| + 2..]
  {
    FindMatchLeftmost(s, p, v);
    VersionLineLiteral(version);
  }

  /** A rewrite that finds a match replaces the text the match spans. */
  lemma RewriteFound(s: string, version: string)
    requires FindMatch(s).Some?
    ensures var (p, e) := FindMatch(s).value;
      MatchEnd(s, p) == Some(e) && p <= e <= |s| && Rewrite(s, version) == ReplaceAt(s, p, e - p, VersionLine(version))
  {
  }
}
