/**
 JavaScript `String.prototype.replace` as the generator scripts use it: a
 pattern without the global flag, so only the leftmost match is replaced, and
 a string (not a callback) as the replacement, so `$` patterns in it expand.
 */
module Replace {
  import opened Wrappers
  import opened Text

  /**
   The replacement-pattern expansion of ECMA-262's GetSubstitution for a match
   with no capture groups: `$$` is one dollar sign, `$&` the matched text,
   `` $` `` the text before the match and `$'` the text after it. Every other
   `$` (including `$1` and `$<`, which need groups) stands for itself.
   */
  function Expand(r: string, before: string, matched: string, after: string): (x: string)
    ensures '$' !in r ==> x == r
    decreases |r|
  {
    if |r| == 0 then []
    else if r[0] == '$' && |r| >= 2 && IsPatternChar(r[1]) then
      PatternText(r[1], before, matched, after) + Expand(r[2..], before, matched, after)
    else [r[0]] + Expand(r[1..], before, matched, after)
  }

  /** The characters that, after a `$`, make a pattern when the match has no capture groups. */
  predicate IsPatternChar(c: char) {
    c == '$' || c == '&' || c == '`' || c == '\''
  }

  /** What `$` followed by pattern character `c` stands for. */
  function PatternText(c: char, before: string, matched: string, after: string): string
    requires IsPatternChar(c)
  {
    match c
    case '$' => "$"
    case '&' => matched
    case '`' => before
    case _ => after
  }

  /** Replaces the `n` characters of `s` at index `p` by the expansion of `r`. */
  function ReplaceAt(s: string, p: nat, n: nat, r: string): (x: string)
    requires p + n <= |s|
    ensures |x| >= |s| - n
    ensures x[..p] == s[..p]
    ensures x[|x| - (|s| - p - n)..] == s[p + n..]
    ensures '$' !in r ==> x == s[..p] + r + s[p + n..]
  {
    s[..p] + Expand(r, s[..p], s[p..p + n], s[p + n..]) + s[p + n..]
  }

  /** `s.replace(m, r)` for a literal pattern `m`. */
  function ReplaceFirst(s: string, m: string, r: string): (x: string)
    ensures !Contains(s, m) ==> x == s
  {
    match IndexOf(s, m)
    case None => s
    case Some(i) => ReplaceAt(s, i, |m|, r)
  }

  /**
   With a `$`-free replacement, `replace` splices `r` in place of the leftmost
   occurrence of `m` and keeps everything else.
   */
  lemma ReplaceFirstSplices(s: string, m: string, r: string, i: nat)
    requires IsFirstOccurrence(s, m, i)
    requires '$' !in r
    ensures ReplaceFirst(s, m, r) == s[..i] + r + s[i + |m|..]
  {
    var k := IndexOf(s, m);
    assert k.Some?;
    FirstOccurrenceUnique(s, m, i, k.value);
  }

  /** Re-inserting the marker after the text puts the text immediately before the first marker. */
  lemma InsertBeforeFirst(s: string, m: string, t: string, i: nat)
    requires IsFirstOccurrence(s, m, i)
    requires '$' !in t + m
    ensures ReplaceFirst(s, m, t + m) == s[..i] + t + s[i..]
    ensures OccursAt(ReplaceFirst(s, m, t + m), t, i)
    ensures OccursAt(ReplaceFirst(s, m, t + m), m, i + |t|)
  {
    ReplaceFirstSplices(s, m, t + m, i);
    var a, b := s[..i], s[i + |m|..];
    assert s[i..] == m + b;
    assert a + (t + m) + b == a + t + s[i..];
    ConcatMiddle(a, t, m, b);
  }

  /** In `a + t + m + b`, `t` stands at `|a|` and `m` right after it. */
  lemma ConcatMiddle(a: string, t: string, m: string, b: string)
    ensures OccursAt(a + t + m + b, t, |a|)
    ensures OccursAt(a + t + m + b, m, |a| + |t|)
  {
    var x := a + t + m + b;
    assert x[|a|..|a| + |t|] == t;
    assert x[|a| + |t|..|a| + |t| + |m|] == m;
  }

  /** Re-inserting the marker before the text puts the text immediately after the first marker. */
  lemma InsertAfterFirst(s: string, m: string, t: string, i: nat)
    requires IsFirstOccurrence(s, m, i)
    requires '$' !in m + t
    ensures ReplaceFirst(s, m, m + t) == s[..i + |m|] + t + s[i + |m|..]
    ensures IsFirstOccurrence(ReplaceFirst(s, m, m + t), m, i)
    ensures OccursAt(ReplaceFirst(s, m, m + t), t, i + |m|)
  {
    ReplaceFirstSplices(s, m, m + t, i);
    var x := ReplaceFirst(s, m, m + t);
    assert s[..i + |m|] == s[..i] + m;
    assert x == s[..i + |m|] + t + s[i + |m|..];
    assert x[..i + |m|] == s[..i + |m|];
    forall j | 0 <= j <= i ensures OccursAt(x, m, j) <==> OccursAt(s, m, j) {
      assert x[j..j + |m|] == s[j..j + |m|];
    }
    assert x[i + |m|..i + |m| + |t|] == t;
  }

  /**
   Text that lies entirely before or entirely after the replaced span is still
   present afterwards: only the span itself changes.
   */
  lemma ReplaceAtKeepsDisjoint(s: string, p: nat, n: nat, r: string, w: string, j: nat)
    requires p + n <= |s|
    requires OccursAt(s, w, j)
    requires j + |w| <= p || p + n <= j
    ensures Contains(ReplaceAt(s, p, n, r), w)
  {
    var a, c := s[..p], s[p + n..];
    var e := Expand(r, a, s[p..p + n], c);
    var x := ReplaceAt(s, p, n, r);
    assert x == a + e + c;
    if j + |w| <= p {
      assert a[j..j + |w|] == s[j..j + |w|];
      OccursInLeft(a, e + c, w, j);
      assert a + (e + c) == x;
      assert OccursAt(x, w, j);
    } else {
      assert c[j - p - n..j - p - n + |w|] == s[j..j + |w|];
      OccursInRight(a + e, c, w, j - p - n);
      assert OccursAt(x, w, |a + e| + (j - p - n));
    }
  }

  /** An occurrence in the left part of a concatenation stays where it is. */
  lemma OccursInLeft(a: string, b: string, w: string, j: nat)
    requires OccursAt(a, w, j)
    ensures OccursAt(a + b, w, j)
  {
    assert (a + b)[j..j + |w|] == a[j..j + |w|];
  }

  /** An occurrence in the right part of a concatenation moves right by the left part's length. */
  lemma OccursInRight(a: string, b: string, w: string, j: nat)
    requires OccursAt(b, w, j)
    ensures OccursAt(a + b, w, |a| + j)
  {
    assert (a + b)[|a| + j..|a| + j + |w|] == b[j..j + |w|];
  }

  /** A character other than `$` in front of a replacement is copied as it is. */
  lemma ExpandPlainHead(c: char, t: string, before: string, matched: string, after: string)
    requires c != '$'
    ensures Expand([c] + t, before, matched, after) == [c] + Expand(t, before, matched, after)
  {
    assert ([c] + t)[1..] == t;
  }

  /** `$&` in front of a `$`-free text expands to the matched text followed by that text. */
  lemma ExpandAmpersandHead(y: string, before: string, matched: string, after: string)
    requires '$' !in y
    ensures Expand("$&" + y, before, matched, after) == matched + y
  {
    assert ("$&" + y)[2..] == y;
  }

  /** One more `$`-free character in front keeps a prefix copied as it is. */
  lemma ExpandConsStep(c: char, x: string, t: string, before: string, matched: string, after: string)
    requires c != '$'
    requires Expand(x + t, before, matched, after) == x + Expand(t, before, matched, after)
    ensures Expand([c] + x + t, before, matched, after) == [c] + x + Expand(t, before, matched, after)
  {
    assert [c] + x + t == [c] + (x + t);
    ExpandPlainHead(c, x + t, before, matched, after);
  }

  /** A `$`-free prefix of a replacement is copied as it is. */
  lemma {:induction false} ExpandPlainPrefix(x: string, t: string, before: string, matched: string, after: string)
    requires '$' !in x
    ensures Expand(x + t, before, matched, after) == x + Expand(t, before, matched, after)
    decreases |x|
  {
    if x == [] {
      assert x + t == t;
    } else {
      assert x == [x[0]] + x[1..];
      ExpandPlainPrefix(x[1..], t, before, matched, after);
      ExpandConsStep(x[0], x[1..], t, before, matched, after);
    }
  }

  /** `$&` between two `$`-free texts expands to the matched text between them. */
  lemma ExpandDollarAmpersand(x: string, y: string, before: string, matched: string, after: string)
    requires '$' !in x && '$' !in y
    ensures Expand(x + "$&" + y, before, matched, after) == x + matched + y
  {
    assert x + "$&" + y == x + ("$&" + y);
    ExpandPlainPrefix(x, "$&" + y, before, matched, after);
    ExpandAmpersandHead(y, before, matched, after);
  }

  /** A replacement `x$&y` puts the leftmost occurrence of the pattern between `x` and `y`. */
  lemma DollarAmpersandCopiesMatch(s: string, m: string, x: string, y: string, i: nat)
    requires IsFirstOccurrence(s, m, i)
    requires '$' !in x && '$' !in y
    ensures ReplaceFirst(s, m, x + "$&" + y) == s[..i] + x + m + y + s[i + |m|..]
  {
    var k := IndexOf(s, m);
    FirstOccurrenceUnique(s, m, i, k.value);
    assert s[i..i + |m|] == m;
    ExpandDollarAmpersand(x, y, s[..i], s[i..i + |m|], s[i + |m|..]);
  }
}
