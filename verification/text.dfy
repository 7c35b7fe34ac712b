/**
 JavaScript string primitives the generator scripts rely on, over strings as
 sequences of code points: `trim`, `split` with a one-character separator,
 `join`, `startsWith` and `indexOf`.
 */
module Text {
  import opened Wrappers

  /** The code points ECMAScript calls WhiteSpace or LineTerminator; `trim` strips exactly these. */
  predicate IsJsSpace(c: char) {
    || c == '\t' || c == '\n' || c == '\U{B}' || c == '\U{C}' || c == '\r' || c == ' '
    || c == '\U{A0}' || c == '\U{1680}' || ('\U{2000}' <= c <= '\U{200A}')
    || c == '\U{2028}' || c == '\U{2029}' || c == '\U{202F}' || c == '\U{205F}'
    || c == '\U{3000}' || c == '\U{FEFF}'
  }

  predicate AllSpace(s: string) {
    forall i :: 0 <= i < |s| ==> IsJsSpace(s[i])
  }

  /** Neither end of `s` is whitespace: the shape of every result of `trim`. */
  predicate Trimmed(s: string) {
    s == [] || (!IsJsSpace(s[0]) && !IsJsSpace(s[|s| - 1]))
  }

  /** `s` with its leading whitespace removed: the longest suffix not starting with whitespace. */
  function TrimStart(s: string): (r: string)
    ensures |r| <= |s| && r == s[|s| - |r|..]
    ensures AllSpace(s[..|s| - |r|])
    ensures r == [] || !IsJsSpace(r[0])
  {
    if |s| > 0 && IsJsSpace(s[0]) then
      var r := TrimStart(s[1..]);
      assert s[..|s| - |r|] == [s[0]] + s[1..][..|s| - 1 - |r|];
      r
    else
      s
  }

  /** `s` with its trailing whitespace removed: the longest prefix not ending with whitespace. */
  function TrimEnd(s: string): (r: string)
    ensures |r| <= |s| && r == s[..|r|]
    ensures AllSpace(s[|r|..])
    ensures r == [] || !IsJsSpace(r[|r| - 1])
  {
    if |s| > 0 && IsJsSpace(s[|s| - 1]) then
      var r := TrimEnd(s[..|s| - 1]);
      assert s[|r|..] == s[..|s| - 1][|r|..] + [s[|s| - 1]];
      r
    else
      s
  }

  /** JavaScript `String.prototype.trim`. */
  function Trim(s: string): (r: string)
    ensures Trimmed(r)
    ensures |r| <= |s|
  {
    TrimEnd(TrimStart(s))
  }

  /** Leading whitespace up to the first non-whitespace character is what `TrimStart` drops. */
  lemma {:induction false} TrimStartOf(s: string, a: nat)
    requires a <= |s| && AllSpace(s[..a]) && (a == |s| || !IsJsSpace(s[a]))
    ensures TrimStart(s) == s[a..]
    decreases a
  {
    if a > 0 {
      assert IsJsSpace(s[0]) by { assert s[0] == s[..a][0]; }
      var t := s[1..];
      forall i | 0 <= i < a - 1 ensures IsJsSpace(t[i]) {
        assert t[i] == s[..a][i + 1];
      }
      assert a - 1 < |t| ==> t[a - 1] == s[a];
      TrimStartOf(t, a - 1);
      assert t[a - 1..] == s[a..];
    }
  }

  /** Trailing whitespace after the last non-whitespace character is what `TrimEnd` drops. */
  lemma {:induction false} TrimEndOf(s: string, b: nat)
    requires b <= |s| && AllSpace(s[b..]) && (b == 0 || !IsJsSpace(s[b - 1]))
    ensures TrimEnd(s) == s[..b]
    decreases |s| - b
  {
    if b < |s| {
      var n := |s| - 1;
      assert IsJsSpace(s[n]) by { assert s[n] == s[b..][n - b]; }
      var t := s[..n];
      assert AllSpace(t[b..]) by {
        forall i | 0 <= i < n - b ensures IsJsSpace(t[b..][i]) { assert t[b..][i] == s[b..][i]; }
      }
      assert b > 0 ==> t[b - 1] == s[b - 1];
      TrimEndOf(t, b);
      assert t[..b] == s[..b];
    }
  }

  /** A text that is all whitespace trims to nothing. */
  lemma TrimAllSpace(s: string)
    requires AllSpace(s)
    ensures Trim(s) == []
  {
    assert s[..|s|] == s;
    TrimStartOf(s, |s|);
  }

  /** Trailing whitespace of a suffix is dropped up to the core's last character. */
  lemma TrimEndOfSuffix(s: string, a: nat, b: nat)
    requires a < b <= |s| && AllSpace(s[b..]) && !IsJsSpace(s[b - 1])
    ensures TrimEnd(s[a..]) == s[a..b]
  {
    var t := s[a..];
    assert t[b - a..] == s[b..];
    assert t[b - a - 1] == s[b - 1];
    TrimEndOf(t, b - a);
    assert t[..b - a] == s[a..b];
  }

  /** Whitespace around a core whose ends are not whitespace is what `trim` removes. */
  lemma TrimCore(s: string, a: nat, b: nat)
    requires a < b <= |s| && AllSpace(s[..a]) && AllSpace(s[b..])
    requires !IsJsSpace(s[a]) && !IsJsSpace(s[b - 1])
    ensures Trim(s) == s[a..b]
  {
    TrimStartOf(s, a);
    TrimEndOfSuffix(s, a, b);
  }

  /**
   Any way of writing `s` as whitespace, then a core with non-whitespace ends,
   then whitespace, has `Trim(s)` as its core: `Trim` is determined by that shape.
   */
  lemma TrimCharacterised(s: string, a: nat, b: nat)
    requires a <= b <= |s|
    requires AllSpace(s[..a]) && AllSpace(s[b..]) && Trimmed(s[a..b])
    ensures Trim(s) == s[a..b]
  {
    if a < b {
      assert s[a] == s[a..b][0] && s[b - 1] == s[a..b][b - 1 - a];
      TrimCore(s, a, b);
    } else {
      forall i | 0 <= i < |s| ensures IsJsSpace(s[i]) {
        if i < a { assert s[i] == s[..a][i]; } else { assert s[i] == s[b..][i - b]; }
      }
      TrimAllSpace(s);
    }
  }

  /** A string with non-whitespace ends is left alone by `trim`. */
  lemma TrimOfTrimmed(s: string)
    requires Trimmed(s)
    ensures Trim(s) == s
  {
    assert s[..0] == [] && s[|s|..] == [] && s[0..|s|] == s;
    TrimCharacterised(s, 0, |s|);
  }

  /** Trimming twice is trimming once. */
  lemma TrimIdempotent(s: string)
    ensures Trim(Trim(s)) == Trim(s)
  {
    TrimOfTrimmed(Trim(s));
  }

  /** JavaScript `startsWith`. */
  predicate StartsWith(s: string, prefix: string) {
    |prefix| <= |s| && s[..|prefix|] == prefix
  }

  /** `m` occurs in `s` starting at index `i`. */
  predicate OccursAt(s: string, m: string, i: int) {
    0 <= i && i + |m| <= |s| && s[i..i + |m|] == m
  }

  /** `i` is the leftmost index where `m` occurs in `s`. */
  predicate IsFirstOccurrence(s: string, m: string, i: int) {
    OccursAt(s, m, i) && forall j :: 0 <= j < i ==> !OccursAt(s, m, j)
  }

  predicate Contains(s: string, m: string) {
    exists i :: 0 <= i <= |s| && OccursAt(s, m, i)
  }

  /** The leftmost occurrence of `m` in `s` at index `k` or later. */
  function IndexOfFrom(s: string, m: string, k: nat): (r: Option<nat>)
    requires k <= |s|
    ensures r.Some? ==> k <= r.value && OccursAt(s, m, r.value)
    ensures r.Some? ==> forall j :: k <= j < r.value ==> !OccursAt(s, m, j)
    ensures r.None? ==> forall j :: k <= j ==> !OccursAt(s, m, j)
    decreases |s| - k
  {
    if k + |m| > |s| then None
    else if s[k..k + |m|] == m then Some(k)
    else IndexOfFrom(s, m, k + 1)
  }

  /** JavaScript `indexOf` with `None` for -1. */
  function IndexOf(s: string, m: string): (r: Option<nat>)
    ensures r.Some? <==> Contains(s, m)
    ensures r.Some? ==> IsFirstOccurrence(s, m, r.value)
  {
    IndexOfFrom(s, m, 0)
  }

  /** The first occurrence is unique. */
  lemma FirstOccurrenceUnique(s: string, m: string, i: int, j: int)
    requires IsFirstOccurrence(s, m, i) && IsFirstOccurrence(s, m, j)
    ensures i == j
  {
  }

  /** A one-character pattern occurs exactly where that character stands. */
  lemma OccursAtChar(s: string, c: char, i: int)
    requires 0 <= i < |s|
    ensures OccursAt(s, [c], i) <==> s[i] == c
  {
    assert s[i..i + 1] == [s[i]];
  }

  /** JavaScript `Array.prototype.join` with a one-character separator. */
  function Join(parts: seq<string>, sep: char): string
  {
    if |parts| == 0 then []
    else if |parts| == 1 then parts[0]
    else parts[0] + [sep] + Join(parts[1..], sep)
  }

  /** Joining keeps out every character that is neither the separator nor in a part. */
  lemma {:induction false} JoinWithout(parts: seq<string>, sep: char, c: char)
    requires c != sep
    requires forall i :: 0 <= i < |parts| ==> c !in parts[i]
    ensures c !in Join(parts, sep)
    decreases |parts|
  {
    if |parts| > 1 {
      JoinWithout(parts[1..], sep, c);
    }
  }

  /** JavaScript `String.prototype.split` with a one-character separator. */
  function Split(s: string, sep: char): (parts: seq<string>)
    ensures |parts| >= 1
    ensures Join(parts, sep) == s
    ensures forall i :: 0 <= i < |parts| ==> sep !in parts[i]
    decreases |s|
  {
    match IndexOf(s, [sep])
    case None =>
      SplitNoSeparator(s, sep);
      [s]
    case Some(i) =>
      SplitAtSeparator(s, sep, i);
      var rest := Split(s[i + 1..], sep);
      assert ([s[..i]] + rest)[1..] == rest;
      [s[..i]] + rest
  }

  /** Without a match for the separator, the text holds none. */
  lemma SplitNoSeparator(s: string, sep: char)
    requires IndexOf(s, [sep]).None?
    ensures sep !in s
  {
    forall i | 0 <= i < |s| ensures s[i] != sep { OccursAtChar(s, sep, i); }
  }

  /** The first match for the separator splits the text into a separator-free head, the separator and the rest. */
  lemma SplitAtSeparator(s: string, sep: char, i: nat)
    requires IndexOf(s, [sep]) == Some(i)
    ensures i < |s| && sep !in s[..i] && s == s[..i] + [sep] + s[i + 1..]
  {
    assert s[i] == sep by { OccursAtChar(s, sep, i); }
    forall j | 0 <= j < i ensures s[..i][j] != sep { OccursAtChar(s, sep, j); }
    assert s == s[..i] + [sep] + s[i + 1..];
  }

  /** Where the separator occurs, splitting takes the text before its first occurrence as the head. */
  lemma SplitAtFirst(s: string, sep: char, i: nat)
    requires i < |s| && s[i] == sep && sep !in s[..i]
    ensures Split(s, sep) == [s[..i]] + Split(s[i + 1..], sep)
    ensures Join(Split(s, sep)[1..], sep) == s[i + 1..]
  {
    OccursAtChar(s, sep, i);
    forall j | 0 <= j < i ensures !OccursAt(s, [sep], j) {
      OccursAtChar(s, sep, j);
      assert s[j] == s[..i][j];
    }
    assert IsFirstOccurrence(s, [sep], i);
  }

  /** Without the separator, splitting yields the whole string alone. */
  lemma SplitWithout(s: string, sep: char)
    requires sep !in s
    ensures Split(s, sep) == [s]
  {
    forall i | 0 <= i < |s| ensures !OccursAt(s, [sep], i) {
      OccursAtChar(s, sep, i);
    }
  }

  /** Splitting undoes joining pieces that do not contain the separator. */
  lemma {:induction false} SplitJoin(parts: seq<string>, sep: char)
    requires |parts| >= 1
    requires forall i :: 0 <= i < |parts| ==> sep !in parts[i]
    ensures Split(Join(parts, sep), sep) == parts
    decreases |parts|
  {
    if |parts| == 1 {
      SplitWithout(parts[0], sep);
    } else {
      var s := Join(parts, sep);
      var p := parts[0];
      assert s == p + [sep] + Join(parts[1..], sep);
      assert s[..|p|] == p;
      assert s[|p| + 1..] == Join(parts[1..], sep);
      SplitAtFirst(s, sep, |p|);
      SplitJoin(parts[1..], sep);
      assert parts == [p] + parts[1..];
    }
  }
}
