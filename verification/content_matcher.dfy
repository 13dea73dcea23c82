/**
 * The content matcher of the bracket filter (bracketreplacer.go,
 * buildContentRegex and convertPatternToRegex). Each configured pattern is a
 * glob: `*` stands for any run of characters and every other character only
 * for itself. The patterns are OR-ed together, compared case-insensitively,
 * and the combined expression is not anchored: it accepts a bracket interior
 * as soon as some pattern matches some substring of it.
 *
 * The regular-expression text that the source builds is not modelled; the
 * glob tokens below carry the same meaning.
 */
module ContentMatcher {

  /** One compiled pattern character: `*` becomes `.*`, anything else a literal. */
  datatype GlobToken = AnyRun | Literal(c: char)

  type Glob = seq<GlobToken>

  function TokenOf(c: char): GlobToken
  {
    if c == '*' then AnyRun else Literal(c)
  }

  /** The compiled form of a whole pattern, character by character. */
  function Compile(pattern: string): (g: Glob)
    ensures |g| == |pattern|
  {
    seq(|pattern|, i requires 0 <= i < |pattern| => TokenOf(pattern[i]))
  }

  /** ASCII lower-casing, the case folding of the `(?i)` flag on ASCII text. */
  function LowerAscii(c: char): char
  {
    if 'A' <= c <= 'Z' then (c as int + 32) as char else c
  }

  predicate SameIgnoringCase(a: char, b: char)
  {
    LowerAscii(a) == LowerAscii(b)
  }

  /**
   * `g` matches the whole of `s`. AnyRun is Go's `.*`, whose `.` does not
   * match a line feed.
   */
  predicate MatchesAll(g: Glob, s: string)
    decreases |g| + |s|
  {
    if g == [] then s == []
    else match g[0]
      case AnyRun =>
        MatchesAll(g[1..], s) || (s != [] && s[0] != '\n' && MatchesAll(g, s[1..]))
      case Literal(c) =>
        s != [] && SameIgnoringCase(c, s[0]) && MatchesAll(g[1..], s[1..])
  }

  /** `g` matches some prefix of `s` (the executable half of the search). */
  predicate MatchesPrefix(g: Glob, s: string)
    decreases |g| + |s|
  {
    if g == [] then true
    else match g[0]
      case AnyRun =>
        MatchesPrefix(g[1..], s) || (s != [] && s[0] != '\n' && MatchesPrefix(g, s[1..]))
      case Literal(c) =>
        s != [] && SameIgnoringCase(c, s[0]) && MatchesPrefix(g[1..], s[1..])
  }

  /** The unanchored search: `g` matches starting at some position of `s`. */
  predicate MatchesSomewhere(g: Glob, s: string)
    decreases |s|
  {
    MatchesPrefix(g, s) || (s != [] && MatchesSomewhere(g, s[1..]))
  }

  /** The combined matcher: some alternative matches somewhere. */
  predicate ContentMatches(matcher: seq<Glob>, content: string)
  {
    exists k :: 0 <= k < |matcher| && MatchesSomewhere(matcher[k], content)
  }

  /** Reference meaning of the unanchored search: a substring matches whole. */
  ghost predicate OccursIn(g: Glob, s: string)
  {
    exists i, j :: 0 <= i <= j <= |s| && MatchesAll(g, s[i..j])
  }

  /** Matching a prefix is matching the whole of some prefix. */
  lemma {:induction false} MatchesPrefixIff(g: Glob, s: string)
    ensures MatchesPrefix(g, s) <==> exists j :: 0 <= j <= |s| && MatchesAll(g, s[..j])
    decreases |g| + |s|
  {
    if g == [] {
      assert MatchesAll(g, s[..0]);
    } else {
      match g[0]
      case AnyRun =>
        MatchesPrefixIff(g[1..], s);
        if s != [] {
          MatchesPrefixIff(g, s[1..]);
        }
        if MatchesPrefix(g, s) {
          if MatchesPrefix(g[1..], s) {
            var j :| 0 <= j <= |s| && MatchesAll(g[1..], s[..j]);
            assert MatchesAll(g, s[..j]);
          } else {
            var j :| 0 <= j <= |s[1..]| && MatchesAll(g, s[1..][..j]);
            assert s[..j + 1][1..] == s[1..][..j];
            assert MatchesAll(g, s[..j + 1]);
          }
        }
        if exists j :: 0 <= j <= |s| && MatchesAll(g, s[..j]) {
          var j :| 0 <= j <= |s| && MatchesAll(g, s[..j]);
          if !MatchesAll(g[1..], s[..j]) {
            assert s[..j][1..] == s[1..][..j - 1];
            assert MatchesPrefix(g, s[1..]);
          }
        }
      case Literal(c) =>
        if s != [] {
          MatchesPrefixIff(g[1..], s[1..]);
          if MatchesPrefix(g, s) {
            var j :| 0 <= j <= |s[1..]| && MatchesAll(g[1..], s[1..][..j]);
            assert s[..j + 1][1..] == s[1..][..j];
            assert MatchesAll(g, s[..j + 1]);
          }
          if exists j :: 0 <= j <= |s| && MatchesAll(g, s[..j]) {
            var j :| 0 <= j <= |s| && MatchesAll(g, s[..j]);
            assert s[..j][1..] == s[1..][..j - 1];
          }
        } else {
          forall j | 0 <= j <= |s| ensures !MatchesAll(g, s[..j]) {
            assert s[..j] == [];
          }
        }
    }
  }

  /** A slice of the tail is a slice of the whole, one position further on. */
  lemma TailSlice(s: string, i: nat, j: nat)
    requires 1 <= i <= j <= |s|
    ensures s[1..][i - 1..j - 1] == s[i..j]
  {
  }

  /** The executable search finds exactly the substrings the glob matches. */
  lemma {:induction false} MatchesSomewhereIff(g: Glob, s: string)
    ensures MatchesSomewhere(g, s) <==> OccursIn(g, s)
    decreases |s|
  {
    MatchesPrefixIff(g, s);
    if s != [] {
      MatchesSomewhereIff(g, s[1..]);
    }
    if MatchesSomewhere(g, s) {
      if MatchesPrefix(g, s) {
        var j :| 0 <= j <= |s| && MatchesAll(g, s[..j]);
        assert s[0..j] == s[..j];
      } else {
        var i, j :| 0 <= i <= j <= |s[1..]| && MatchesAll(g, s[1..][i..j]);
        TailSlice(s, i + 1, j + 1);
      }
    }
    if OccursIn(g, s) {
      var i, j :| 0 <= i <= j <= |s| && MatchesAll(g, s[i..j]);
      if i == 0 {
        assert s[..j] == s[i..j];
      } else {
        TailSlice(s, i, j);
      }
    }
  }

  /**
   * The search is unanchored: whatever a glob matches as a whole, it also
   * finds inside any longer text.
   */
  lemma MatchesInsideLongerText(g: Glob, before: string, m: string, after: string)
    requires MatchesAll(g, m)
    ensures MatchesSomewhere(g, before + m + after)
  {
    var s := before + m + after;
    assert s[|before|..|before| + |m|] == m;
    MatchesSomewhereIff(g, s);
  }

  /**
   * A pattern without `*` matches exactly the strings of its own length that
   * agree with it character by character, ignoring ASCII case: characters
   * such as `.`, `+`, `/` or `#` stand only for themselves.
   */
  lemma {:induction false} LiteralPatternMatchesItself(pattern: string, s: string)
    requires '*' !in pattern
    ensures MatchesAll(Compile(pattern), s)
        <==> |s| == |pattern| && forall i :: 0 <= i < |s| ==> SameIgnoringCase(pattern[i], s[i])
    decreases |pattern|
  {
    var g := Compile(pattern);
    if pattern != [] && s != [] {
      assert g[0] == Literal(pattern[0]);
      assert g[1..] == Compile(pattern[1..]);
      LiteralPatternMatchesItself(pattern[1..], s[1..]);
      if |s| == |pattern| && forall i :: 0 <= i < |s| ==> SameIgnoringCase(pattern[i], s[i]) {
        assert forall i :: 0 <= i < |s[1..]| ==> SameIgnoringCase(pattern[1..][i], s[1..][i]) by {
          forall i | 0 <= i < |s[1..]| ensures SameIgnoringCase(pattern[1..][i], s[1..][i]) {
            assert pattern[1..][i] == pattern[i + 1] && s[1..][i] == s[i + 1];
          }
        }
      }
      if MatchesAll(g, s) {
        forall i | 0 <= i < |s| ensures SameIgnoringCase(pattern[i], s[i]) {
          if i > 0 {
            assert pattern[1..][i - 1] == pattern[i] && s[1..][i - 1] == s[i];
          }
        }
      }
    } else if pattern != [] {
      assert g[0] == Literal(pattern[0]);
    }
  }

  /** The default pattern `*` accepts every bracket interior. */
  lemma StarMatchesEverything(content: string)
    ensures ContentMatches([Compile("*")], content)
  {
    assert Compile("*") == [AnyRun];
    assert MatchesPrefix([AnyRun], content);
    assert MatchesSomewhere([Compile("*")][0], content);
  }
}
