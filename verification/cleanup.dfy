/**
 * The path sanitizer of cleanup.go: cleanPathSegment turns one piece of a
 * generated path into a safe file or directory name, and cleanPath applies
 * it to every `/`-separated piece of a path, keeping the non-empty results.
 *
 * Each fixed regular expression of the source is a character class here, and
 * each ReplaceAllString is a substitution or a run collapse over that class.
 * A character stands for one byte, so the 255-byte cap is a length.
 */
module Cleanup {
  import opened Strings

  /** The most characters a cleaned segment keeps. */
  const MaxSegmentLength: nat := 255

  // ---------------------------------------------------------------------
  // Character classes
  // ---------------------------------------------------------------------

  /** forbiddenCharPattern: `< > : " ' / \ | ? *` and the control characters 0x00-0x1F. */
  predicate IsForbidden(c: char)
  {
    c == '<' || c == '>' || c == ':' || c == '"' || c == '\'' || c == '/' || c == '\\'
    || c == '|' || c == '?' || c == '*' || c < ' '
  }

  /** bracketPattern: the six ASCII brackets. */
  predicate IsBracketChar(c: char)
  {
    c == '[' || c == ']' || c == '(' || c == ')' || c == '{' || c == '}'
  }

  /** The shell-awkward characters: backtick, ampersand and hash. */
  predicate IsShellAwkward(c: char)
  {
    c == '`' || c == '&' || c == '#'
  }

  /** spacePattern's class: underscore, tab, carriage return, line feed. */
  predicate IsSpaceLike(c: char)
  {
    c == '_' || c == '\t' || c == '\r' || c == '\n'
  }

  /** multispacePattern's class, the `\s` of Go regular expressions. */
  predicate IsRegexSpace(c: char)
  {
    c == '\t' || c == '\n' || c == '\U{0C}' || c == '\r' || c == ' '
  }

  /** The characters trimPathPattern strips at the start of a segment. */
  predicate IsLeadingTrim(c: char)
  {
    c == '.' || c == ' '
  }

  /** The characters a cleaned segment may start with. */
  predicate IsNameStart(c: char)
  {
    !IsLeadingTrim(c)
  }

  /** The characters trimPathPattern strips at the end of a segment. */
  predicate IsTrailingTrim(c: char)
  {
    c == '-' || c == '.' || c == ' '
  }

  /** The characters no text holds any more once the brackets have been replaced. */
  predicate GoneAfterBrackets(c: char)
  {
    IsForbidden(c) || IsBracketChar(c)
  }

  /** ... once the backticks have been removed as well. */
  predicate GoneAfterBacktick(c: char)
  {
    GoneAfterBrackets(c) || c == '`'
  }

  /** ... once `&` has been replaced as well. */
  predicate GoneAfterAmpersand(c: char)
  {
    GoneAfterBacktick(c) || c == '&'
  }

  /** ... once `#` has been replaced as well: no shell-awkward character is left. */
  predicate GoneAfterShell(c: char)
  {
    GoneAfterAmpersand(c) || c == '#'
  }

  /**
   * Every character a cleaned segment never holds: the forbidden ones, the
   * brackets, the shell-awkward ones and those of spacePattern.
   */
  predicate IsUnsafe(c: char)
    ensures IsUnsafe(c) <==> IsForbidden(c) || IsBracketChar(c) || IsShellAwkward(c) || IsSpaceLike(c)
  {
    GoneAfterShell(c) || IsSpaceLike(c)
  }

  // ---------------------------------------------------------------------
  // Substitution and run collapse
  // ---------------------------------------------------------------------

  /** Replaces every character `c` of `s` by the text `f(c)`, left to right. */
  function Substitute(s: string, f: char -> string): string
    decreases |s|
  {
    if s == [] then "" else f(s[0]) + Substitute(s[1..], f)
  }

  /** Substitution works piece by piece. */
  lemma {:induction false} SubstituteAppend(a: string, b: string, f: char -> string)
    ensures Substitute(a + b, f) == Substitute(a, f) + Substitute(b, f)
    decreases |a|
  {
    if a == [] {
      assert a + b == b;
    } else {
      assert (a + b)[1..] == a[1..] + b;
      SubstituteAppend(a[1..], b, f);
    }
  }

  /** Characters that `f` keeps as they are are left alone. */
  lemma {:induction false} SubstituteIdentity(s: string, f: char -> string)
    requires forall i :: 0 <= i < |s| ==> f(s[i]) == [s[i]]
    ensures Substitute(s, f) == s
    decreases |s|
  {
    if s != [] {
      SubstituteIdentity(s[1..], f);
    }
  }

  /** No character of a class appears when no replacement text holds one. */
  lemma {:induction false} SubstituteAvoids(s: string, f: char -> string, bad: char -> bool)
    requires forall i :: 0 <= i < |s| ==> NoneOf(f(s[i]), bad)
    ensures NoneOf(Substitute(s, f), bad)
    decreases |s|
  {
    if s != [] {
      SubstituteAvoids(s[1..], f, bad);
      NoneOfAppend(f(s[0]), Substitute(s[1..], f), bad);
    }
  }

  lemma NoneOfAppend(a: string, b: string, bad: char -> bool)
    requires NoneOf(a, bad) && NoneOf(b, bad)
    ensures NoneOf(a + b, bad)
  {
    forall i | 0 <= i < |a + b| ensures !bad((a + b)[i]) {
      if i >= |a| {
        assert (a + b)[i] == b[i - |a|];
      }
    }
  }

  /**
   * ReplaceAllString(s, " ") for the pattern `[cls]+`: every maximal run of
   * class characters becomes one space, written where the run ends.
   */
  function CollapseRuns(s: string, cls: char -> bool): (r: string)
    ensures |r| <= |s|
    decreases |s|
  {
    if s == [] then ""
    else if cls(s[0]) then
      if |s| > 1 && cls(s[1]) then CollapseRuns(s[1..], cls)
      else [' '] + CollapseRuns(s[1..], cls)
    else [s[0]] + CollapseRuns(s[1..], cls)
  }

  /**
   * After a collapse, the only class character left is the space that
   * replaced a run; no two class characters are side by side; and a text
   * that starts outside the class starts the same.
   */
  lemma {:induction false} CollapseRunsShape(s: string, cls: char -> bool)
    ensures forall j :: 0 <= j < |CollapseRuns(s, cls)| ==>
              CollapseRuns(s, cls)[j] == ' ' || !cls(CollapseRuns(s, cls)[j])
    ensures s != [] && !cls(s[0]) ==> CollapseRuns(s, cls) != [] && CollapseRuns(s, cls)[0] == s[0]
    ensures NoAdjacent(CollapseRuns(s, cls), cls)
    decreases |s|
  {
    if s != [] {
      CollapseRunsShape(s[1..], cls);
      var rest := CollapseRuns(s[1..], cls);
      var r := CollapseRuns(s, cls);
      if !(cls(s[0]) && |s| > 1 && cls(s[1])) {
        var head := if cls(s[0]) then ' ' else s[0];
        assert r == [head] + rest;
        forall j | 0 <= j < |r| ensures r[j] == ' ' || !cls(r[j]) {
          if j > 0 {
            assert r[j] == rest[j - 1];
          }
        }
        forall i, j | 0 <= i < j < |r| && j == i + 1
          ensures !(cls(r[i]) && cls(r[j]))
        {
          if i > 0 {
            assert r[i] == rest[i - 1] && r[j] == rest[j - 1];
          } else if cls(head) {
            assert head == ' ' && cls(s[0]);
            assert |s| > 1 && !cls(s[1]);
            assert rest[0] == s[1];
          }
        }
      }
    }
  }

  /** A collapse brings in nothing but spaces: a class of characters absent before stays absent. */
  lemma {:induction false} CollapseRunsKeepsOut(s: string, cls: char -> bool, bad: char -> bool)
    requires NoneOf(s, bad) && !bad(' ')
    ensures NoneOf(CollapseRuns(s, cls), bad)
    decreases |s|
  {
    if s != [] {
      CollapseRunsKeepsOut(s[1..], cls, bad);
      var rest := CollapseRuns(s[1..], cls);
      if !(cls(s[0]) && |s| > 1 && cls(s[1])) {
        var head := if cls(s[0]) then ' ' else s[0];
        NoneOfAppend([head], rest, bad);
      }
    }
  }

  /** A text whose class characters are lone spaces is left as it is. */
  lemma {:induction false} CollapseRunsIdentity(s: string, cls: char -> bool)
    requires forall i :: 0 <= i < |s| ==> cls(s[i]) ==> s[i] == ' '
    requires NoAdjacent(s, cls)
    ensures CollapseRuns(s, cls) == s
    decreases |s|
  {
    if s != [] {
      assert forall i, j :: 0 <= i < j < |s[1..]| && j == i + 1 ==> s[1..][i] == s[i + 1] && s[1..][j] == s[j + 1];
      CollapseRunsIdentity(s[1..], cls);
      if cls(s[0]) && |s| > 1 {
        assert !cls(s[1]);
      }
    }
  }

  /** Trimming and truncation cut out a piece; the piece keeps every property of its characters. */
  lemma SliceKeeps(s: string, a: nat, b: nat, bad: char -> bool, cls: char -> bool)
    requires a <= b <= |s|
    requires NoneOf(s, bad) && NoAdjacent(s, cls)
    ensures NoneOf(s[a..b], bad) && NoAdjacent(s[a..b], cls)
  {
    assert forall i :: 0 <= i < b - a ==> s[a..b][i] == s[a + i];
  }

  // ---------------------------------------------------------------------
  // The stages of cleanPathSegment
  // ---------------------------------------------------------------------

  /** A forbidden character becomes an underscore. */
  function ForbiddenToUnderscore(c: char): string
  {
    if IsForbidden(c) then "_" else [c]
  }

  /** A bracket becomes " - ". */
  function BracketToDash(c: char): string
  {
    if IsBracketChar(c) then " - " else [c]
  }

  /** Backticks are removed. */
  function DropBacktick(c: char): string
  {
    if c == '`' then "" else [c]
  }

  /** `&` becomes "and". */
  function AmpersandToAnd(c: char): string
  {
    if c == '&' then "and" else [c]
  }

  /** `#` becomes "No". */
  function HashToNo(c: char): string
  {
    if c == '#' then "No" else [c]
  }

  /** Stage 1: forbidden characters become underscores. */
  function ReplaceForbidden(s: string): string
  {
    Substitute(s, ForbiddenToUnderscore)
  }

  /** Stage 2: brackets become " - ". */
  function ReplaceBrackets(s: string): string
  {
    Substitute(s, BracketToDash)
  }

  /** Stage 3: the three whole-string replacements of the shell-awkward characters, in order. */
  function ShellSafe(s: string): string
  {
    Substitute(Substitute(Substitute(s, DropBacktick), AmpersandToAnd), HashToNo)
  }

  /** Stage 4: runs of `[_\t\r\n]` become one space, then runs of `\s` do. */
  function CollapseSpaces(s: string): string
  {
    CollapseRuns(CollapseRuns(s, IsSpaceLike), IsRegexSpace)
  }

  /** Stage 5, trimPathPattern: leading `[. ]` and trailing `[-. ]` are stripped. */
  function TrimEnds(s: string): (r: string)
    ensures r == [] || (!IsLeadingTrim(r[0]) && !IsTrailingTrim(r[|r| - 1]))
  {
    TrimRight(TrimLeft(s, IsLeadingTrim), IsTrailingTrim)
  }

  /** Stage 6: a text longer than 255 characters keeps its first 255. */
  function CutToMax(s: string): (r: string)
    ensures |r| <= MaxSegmentLength
  {
    if |s| > MaxSegmentLength then s[..MaxSegmentLength] else s
  }

  /** Stages 1 to 5: the segment before the length cap. */
  function Trimmed(segment: string): string
  {
    TrimEnds(CollapseSpaces(ShellSafe(ReplaceBrackets(ReplaceForbidden(segment)))))
  }

  /** cleanPathSegment: stages 1 to 5, then the cut to 255 characters. */
  function CleanPathSegment(segment: string): (r: string)
    ensures |r| <= MaxSegmentLength
  {
    CutToMax(Trimmed(segment))
  }

  // ---------------------------------------------------------------------
  // What cleanPathSegment guarantees
  // ---------------------------------------------------------------------

  /**
   * A substitution pass that maps every character outside `before` to text
   * outside `after` leaves a text free of `before` free of `after`.
   */
  lemma PassIsSafe(s: string, f: char -> string, before: char -> bool, after: char -> bool)
    requires NoneOf(s, before)
    requires forall c :: !before(c) ==> NoneOf(f(c), after)
    ensures NoneOf(Substitute(s, f), after)
  {
    SubstituteAvoids(s, f, after);
  }

  /** A substitution that keeps every character outside a class is the identity there. */
  lemma SubstituteKeepsAll(s: string, f: char -> string, bad: char -> bool)
    requires NoneOf(s, bad)
    requires forall c :: !bad(c) ==> f(c) == [c]
    ensures Substitute(s, f) == s
  {
    SubstituteIdentity(s, f);
  }

  lemma ReplaceForbiddenIsSafe(s: string)
    ensures NoneOf(ReplaceForbidden(s), IsForbidden)
  {
    SubstituteAvoids(s, ForbiddenToUnderscore, IsForbidden);
  }

  lemma ReplaceBracketsIsSafe(s: string)
    requires NoneOf(s, IsForbidden)
    ensures NoneOf(ReplaceBrackets(s), GoneAfterBrackets)
  {
    PassIsSafe(s, BracketToDash, IsForbidden, GoneAfterBrackets);
  }

  lemma ShellSafeIsSafe(s: string)
    requires NoneOf(s, GoneAfterBrackets)
    ensures NoneOf(ShellSafe(s), GoneAfterShell)
  {
    var t1 := Substitute(s, DropBacktick);
    DropBacktickIsSafe(s);
    var t2 := Substitute(t1, AmpersandToAnd);
    AmpersandToAndIsSafe(t1);
    HashToNoIsSafe(t2);
  }

  lemma DropBacktickIsSafe(s: string)
    requires NoneOf(s, GoneAfterBrackets)
    ensures NoneOf(Substitute(s, DropBacktick), GoneAfterBacktick)
  {
    PassIsSafe(s, DropBacktick, GoneAfterBrackets, GoneAfterBacktick);
  }

  lemma AmpersandToAndIsSafe(s: string)
    requires NoneOf(s, GoneAfterBacktick)
    ensures NoneOf(Substitute(s, AmpersandToAnd), GoneAfterAmpersand)
  {
    PassIsSafe(s, AmpersandToAnd, GoneAfterBacktick, GoneAfterAmpersand);
  }

  lemma HashToNoIsSafe(s: string)
    requires NoneOf(s, GoneAfterAmpersand)
    ensures NoneOf(Substitute(s, HashToNo), GoneAfterShell)
  {
    PassIsSafe(s, HashToNo, GoneAfterAmpersand, GoneAfterShell);
  }

  lemma CollapseSpacesIsSafe(s: string)
    requires NoneOf(s, GoneAfterShell)
    ensures NoneOf(CollapseSpaces(s), IsUnsafe)
    ensures NoAdjacent(CollapseSpaces(s), IsChar(' '))
  {
    var c1 := CollapseRuns(s, IsSpaceLike);
    var r := CollapseRuns(c1, IsRegexSpace);
    CollapseRunsShape(s, IsSpaceLike);
    CollapseRunsKeepsOut(s, IsSpaceLike, GoneAfterShell);
    assert NoneOf(c1, IsUnsafe);
    CollapseRunsShape(c1, IsRegexSpace);
    CollapseRunsKeepsOut(c1, IsRegexSpace, IsUnsafe);
  }

  /** TrimEnds keeps a contiguous piece of its input. */
  lemma TrimEndsIsSlice(s: string) returns (a: nat, b: nat)
    ensures a <= b <= |s| && TrimEnds(s) == s[a..b]
  {
    var l := TrimLeft(s, IsLeadingTrim);
    var r := TrimRight(l, IsTrailingTrim);
    a, b := |s| - |l|, |s| - |l| + |r|;
    assert l == s[a..];
    assert r == l[..|r|];
  }

  /** Trimming and the cut keep a piece of the text, so they keep what holds of its characters. */
  lemma TrimAndCutKeep(s: string, bad: char -> bool, cls: char -> bool)
    requires NoneOf(s, bad) && NoAdjacent(s, cls)
    ensures NoneOf(CutToMax(TrimEnds(s)), bad) && NoAdjacent(CutToMax(TrimEnds(s)), cls)
  {
    var a, b := TrimEndsIsSlice(s);
    var t := TrimEnds(s);
    var e := if b - a > MaxSegmentLength then a + MaxSegmentLength else b;
    assert CutToMax(t) == s[a..e];
    SliceKeeps(s, a, e, bad, cls);
  }

  /**
   * A cleaned segment holds no forbidden character, no bracket, no backtick,
   * `&` or `#`, no underscore, tab, carriage return or line feed, and never
   * two spaces side by side.
   */
  lemma CleanPathSegmentIsSafe(segment: string)
    ensures NoneOf(CleanPathSegment(segment), IsUnsafe)
    ensures NoAdjacent(CleanPathSegment(segment), IsChar(' '))
  {
    var s1 := ReplaceForbidden(segment);
    ReplaceForbiddenIsSafe(segment);
    var s2 := ReplaceBrackets(s1);
    ReplaceBracketsIsSafe(s1);
    var s3 := ShellSafe(s2);
    ShellSafeIsSafe(s2);
    var s4 := CollapseSpaces(s3);
    CollapseSpacesIsSafe(s3);
    TrimAndCutKeep(s4, IsUnsafe, IsChar(' '));
  }

  /**
   * A cleaned segment never starts with a dot or a space, so it is never a
   * hidden name, `.` or `..`; its last character is not `-`, `.` or a space
   * unless the 255-character cut fell right after one.
   */
  lemma CleanPathSegmentEnds(segment: string)
    ensures var r := CleanPathSegment(segment);
      r == [] || !IsLeadingTrim(r[0])
    ensures var r := CleanPathSegment(segment);
      |Trimmed(segment)| <= MaxSegmentLength ==> r == [] || !IsTrailingTrim(r[|r| - 1])
  {
    CutKeepsEnds(Trimmed(segment));
  }

  /** The cut keeps the first character, and the last one when nothing is cut. */
  lemma CutKeepsEnds(t: string)
    requires t == [] || (!IsLeadingTrim(t[0]) && !IsTrailingTrim(t[|t| - 1]))
    ensures var r := CutToMax(t); r == [] || !IsLeadingTrim(r[0])
    ensures var r := CutToMax(t); |t| <= MaxSegmentLength ==> r == [] || !IsTrailingTrim(r[|r| - 1])
  {
  }

  /** Longer texts are cut to their first 255 characters; shorter ones are kept whole. */
  lemma CleanPathSegmentCut(segment: string)
    ensures var t, r := Trimmed(segment), CleanPathSegment(segment);
      |t| > MaxSegmentLength ==> r == t[..MaxSegmentLength] && |r| == MaxSegmentLength
    ensures |Trimmed(segment)| <= MaxSegmentLength ==> CleanPathSegment(segment) == Trimmed(segment)
  {
  }

  /** A piece made only of dots and spaces, such as "", "." or "..", cleans to nothing. */
  lemma DotsCleanToNothing(segment: string)
    requires forall i :: 0 <= i < |segment| ==> IsLeadingTrim(segment[i])
    ensures CleanPathSegment(segment) == ""
  {
    assert NoneOf(segment, IsUnsafe);
    var s3 := ShellSafe(ReplaceBrackets(ReplaceForbidden(segment)));
    assert s3 == segment by {
      ReplaceForbiddenKeeps(segment);
      ReplaceBracketsKeeps(segment);
      ShellSafeKeeps(segment);
    }
    var c1 := CollapseRuns(segment, IsSpaceLike);
    var s4 := CollapseRuns(c1, IsRegexSpace);
    CollapseRunsKeepsOut(segment, IsSpaceLike, IsNameStart);
    CollapseRunsKeepsOut(c1, IsRegexSpace, IsNameStart);
    assert forall j :: 0 <= j < |s4| ==> IsLeadingTrim(s4[j]);
    var l := TrimLeft(s4, IsLeadingTrim);
    assert l == [];
  }

  lemma ReplaceForbiddenKeeps(s: string)
    requires NoneOf(s, IsUnsafe)
    ensures ReplaceForbidden(s) == s
  {
    SubstituteKeepsAll(s, ForbiddenToUnderscore, IsUnsafe);
  }

  lemma ReplaceBracketsKeeps(s: string)
    requires NoneOf(s, IsUnsafe)
    ensures ReplaceBrackets(s) == s
  {
    SubstituteKeepsAll(s, BracketToDash, IsUnsafe);
  }

  lemma ShellSafeKeeps(s: string)
    requires NoneOf(s, IsUnsafe)
    ensures ShellSafe(s) == s
  {
    SubstituteKeepsAll(s, DropBacktick, IsUnsafe);
    SubstituteKeepsAll(s, AmpersandToAnd, IsUnsafe);
    SubstituteKeepsAll(s, HashToNo, IsUnsafe);
  }

  /** Substituting one character in the middle of a text. */
  lemma SubstituteAround(a: string, c: char, b: string, f: char -> string)
    ensures Substitute(a + [c] + b, f) == Substitute(a, f) + f(c) + Substitute(b, f)
  {
    SubstituteAppend(a + [c], b, f);
    SubstituteAppend(a, [c], f);
    assert [c][1..] == [];
  }

  /** `&` becomes exactly "and"; the text around it is untouched. */
  lemma AmpersandBecomesAnd(a: string, b: string)
    ensures ShellSafe(a + "&" + b) == ShellSafe(a) + "and" + ShellSafe(b)
  {
    var a1, b1 := Substitute(a, DropBacktick), Substitute(b, DropBacktick);
    var a2, b2 := Substitute(a1, AmpersandToAnd), Substitute(b1, AmpersandToAnd);
    SubstituteAround(a, '&', b, DropBacktick);
    SubstituteAround(a1, '&', b1, AmpersandToAnd);
    SubstituteAppend(a2 + "and", b2, HashToNo);
    SubstituteAppend(a2, "and", HashToNo);
    assert Substitute("and", HashToNo) == "and" by {
      assert "and"[1..] == "nd" && "nd"[1..] == "d" && "d"[1..] == "";
    }
  }

  /** `#` becomes exactly "No"; the text around it is untouched. */
  lemma HashBecomesNo(a: string, b: string)
    ensures ShellSafe(a + "#" + b) == ShellSafe(a) + "No" + ShellSafe(b)
  {
    var a1, b1 := Substitute(a, DropBacktick), Substitute(b, DropBacktick);
    var a2, b2 := Substitute(a1, AmpersandToAnd), Substitute(b1, AmpersandToAnd);
    SubstituteAround(a, '#', b, DropBacktick);
    SubstituteAround(a1, '#', b1, AmpersandToAnd);
    SubstituteAround(a2, '#', b2, HashToNo);
  }

  /** A backtick disappears; the text around it is untouched. */
  lemma BacktickDisappears(a: string, b: string)
    ensures ShellSafe(a + "`" + b) == ShellSafe(a) + ShellSafe(b)
  {
    var a1, b1 := Substitute(a, DropBacktick), Substitute(b, DropBacktick);
    var a2, b2 := Substitute(a1, AmpersandToAnd), Substitute(b1, AmpersandToAnd);
    SubstituteAround(a, '`', b, DropBacktick);
    assert a1 + "" + b1 == a1 + b1;
    SubstituteAppend(a1, b1, AmpersandToAnd);
    SubstituteAppend(a2, b2, HashToNo);
  }

  /** Each bracket character becomes " - ", the text around it untouched. */
  lemma BracketBecomesDash(a: string, c: char, b: string)
    requires IsBracketChar(c)
    ensures ReplaceBrackets(a + [c] + b) == ReplaceBrackets(a) + " - " + ReplaceBrackets(b)
  {
    SubstituteAround(a, c, b, BracketToDash);
  }

  /** Stages 1 to 5 leave a safe text with clean ends as it is. */
  lemma TrimmedKeepsClean(r: string)
    requires NoneOf(r, IsUnsafe) && NoAdjacent(r, IsChar(' '))
    requires r == [] || (!IsLeadingTrim(r[0]) && !IsTrailingTrim(r[|r| - 1]))
    ensures Trimmed(r) == r
  {
    SubstitutionsKeepSafe(r);
    CollapseSpacesKeepsSafe(r);
    TrimIdentity(r, IsLeadingTrim, IsTrailingTrim);
  }

  /** Stages 1 to 3 leave a safe text unchanged. */
  lemma SubstitutionsKeepSafe(r: string)
    requires NoneOf(r, IsUnsafe)
    ensures ShellSafe(ReplaceBrackets(ReplaceForbidden(r))) == r
  {
    ReplaceForbiddenKeeps(r);
    ReplaceBracketsKeeps(r);
    ShellSafeKeeps(r);
  }

  /** Stage 4 leaves a safe text without two adjacent spaces unchanged. */
  lemma CollapseSpacesKeepsSafe(r: string)
    requires NoneOf(r, IsUnsafe) && NoAdjacent(r, IsChar(' '))
    ensures CollapseSpaces(r) == r
  {
    CollapseRunsIdentity(r, IsSpaceLike);
    assert forall i :: 0 <= i < |r| ==> IsRegexSpace(r[i]) ==> r[i] == ' ';
    CollapseRunsIdentity(r, IsRegexSpace);
  }

  /**
   * Cleaning a cleaned segment changes nothing, as long as the first
   * cleaning did not need the 255-character cut.
   */
  lemma CleanPathSegmentIdempotent(segment: string)
    requires |Trimmed(segment)| <= MaxSegmentLength
    ensures CleanPathSegment(CleanPathSegment(segment)) == CleanPathSegment(segment)
  {
    var r := CleanPathSegment(segment);
    CleanPathSegmentIsSafe(segment);
    CleanPathSegmentEnds(segment);
    TrimmedKeepsClean(r);
  }

  /**
   * The cut can bring back a trailing space: when the trimmed text is longer
   * than 255 characters and its 255th character is a space, the cleaned
   * segment ends with that space, and cleaning it again removes it.
   */
  lemma CutCanExposeTrailingSpace(segment: string)
    requires |Trimmed(segment)| > MaxSegmentLength
    requires Trimmed(segment)[MaxSegmentLength - 1] == ' '
    ensures var r := CleanPathSegment(segment); r[|r| - 1] == ' '
    ensures CleanPathSegment(CleanPathSegment(segment)) != CleanPathSegment(segment)
  {
    var r := CleanPathSegment(segment);
    CleanPathSegmentIsSafe(segment);
    TrimmedIsNotLonger(r);
    CleanPathSegmentEnds(r);
  }

  /**
   * Stages 1 to 5 never lengthen a text made of safe characters. (In general
   * they can: `&` and the brackets grow.)
   */
  lemma TrimmedIsNotLonger(s: string)
    requires NoneOf(s, IsUnsafe)
    ensures |Trimmed(s)| <= |s|
  {
    ReplaceForbiddenKeeps(s);
    ReplaceBracketsKeeps(s);
    ShellSafeKeeps(s);
  }

  // ---------------------------------------------------------------------
  // cleanPath
  // ---------------------------------------------------------------------

  /**
   * The non-empty results of `clean` on the pieces, in their order; cleanPath
   * uses it with `clean` = CleanPathSegment.
   */
  function KeptSegments(pieces: seq<string>, clean: string -> string): (kept: seq<string>)
    ensures |kept| <= |pieces|
    ensures forall k :: 0 <= k < |kept| ==> kept[k] != []
    decreases |pieces|
  {
    if pieces == [] then []
    else
      var kept := KeptSegments(pieces[..|pieces| - 1], clean);
      var cleanSegment := clean(pieces[|pieces| - 1]);
      if cleanSegment != "" then kept + [cleanSegment] else kept
  }

  /** One more piece, as the cleanPath loop reads it. */
  lemma KeptSegmentsStep(pieces: seq<string>, clean: string -> string, k: nat)
    requires k < |pieces|
    ensures KeptSegments(pieces[..k + 1], clean)
         == if clean(pieces[k]) != "" then KeptSegments(pieces[..k], clean) + [clean(pieces[k])]
            else KeptSegments(pieces[..k], clean)
  {
    assert pieces[..k + 1][..k] == pieces[..k];
  }

  /** Every kept segment is a result of `clean` on one of the pieces. */
  lemma {:induction false} KeptSegmentsFrom(pieces: seq<string>, clean: string -> string)
    ensures forall k :: 0 <= k < |KeptSegments(pieces, clean)| ==>
              exists j :: 0 <= j < |pieces| && KeptSegments(pieces, clean)[k] == clean(pieces[j])
    decreases |pieces|
  {
    if pieces != [] {
      var init := pieces[..|pieces| - 1];
      KeptSegmentsFrom(init, clean);
      var kept := KeptSegments(pieces, clean);
      forall k | 0 <= k < |kept| ensures exists j :: 0 <= j < |pieces| && kept[k] == clean(pieces[j]) {
        var before := KeptSegments(init, clean);
        if k < |before| {
          assert kept[k] == before[k];
          var j :| 0 <= j < |init| && before[k] == clean(init[j]);
          assert init[j] == pieces[j];
        } else {
          var j := |pieces| - 1;
          assert kept[k] == clean(pieces[j]);
        }
      }
    } else {
      assert KeptSegments(pieces, clean) == [];
    }
  }

  /** What cleanPath returns: the kept segments joined with `/`. */
  function CleanPathOf(path: string): string
  {
    Join(KeptSegments(Split(path, '/'), CleanPathSegment), '/')
  }

  /** `n` empty strings, the value of make([]string, n). */
  function Blanks(n: nat): (b: seq<string>)
    ensures |b| == n && forall i :: 0 <= i < n ==> b[i] == ""
  {
    seq(n, _ => "")
  }

  /** No cleaned segment holds a `/`. */
  lemma CleanPathSegmentHasNoSlash(segment: string)
    ensures '/' !in CleanPathSegment(segment)
  {
    CleanPathSegmentIsSafe(segment);
    var r := CleanPathSegment(segment);
    assert forall i :: 0 <= i < |r| ==> r[i] != '/';
  }

  /**
   * cleanPath: split at `/`, clean each piece, and join the non-empty
   * results.
   */
  method CleanPath(path: string) returns (cleanedPath: string)
    ensures cleanedPath == CleanPathOf(path)
  {
    var segments := Split(path, '/');
    forall segment: string ensures '/' !in CleanPathSegment(segment) {
      CleanPathSegmentHasNoSlash(segment);
    }
    cleanedPath := JoinCleanSegments(segments, CleanPathSegment);
  }

  /**
   * The rest of cleanPath, for a segment cleaner that never yields a `/`:
   * the cleaned segments are joined with `/` and the slashes that the
   * pre-filled empty strings produce are trimmed.
   */
  method JoinCleanSegments(segments: seq<string>, clean: string -> string) returns (cleanedPath: string)
    requires forall segment :: '/' !in clean(segment)
    ensures cleanedPath == Join(KeptSegments(segments, clean), '/')
  {
    var newSegments := AppendCleanSegments(segments, clean);
    cleanedPath := Join(newSegments, '/');
    cleanedPath := Trim(cleanedPath, '/');
    KeptSegmentsFrom(segments, clean);
    TrimBlanksBeforeJoin(|segments|, KeptSegments(segments, clean));
  }

  /**
   * The loop of cleanPath: the non-empty cleaned segments are appended after
   * the `len(segments)` empty strings the slice starts with.
   */
  method AppendCleanSegments(segments: seq<string>, clean: string -> string) returns (newSegments: seq<string>)
    ensures newSegments == Blanks(|segments|) + KeptSegments(segments, clean)
  {
    newSegments := Blanks(|segments|);
    for k := 0 to |segments|
      invariant newSegments == Blanks(|segments|) + KeptSegments(segments[..k], clean)
    {
      var cleanSegment := clean(segments[k]);
      if cleanSegment != "" {
        newSegments := newSegments + [cleanSegment];
      }
      KeptSegmentsStep(segments, clean, k);
    }
    assert segments[..|segments|] == segments;
  }

  /** The kept segments of cleanPath are cleaned segments: none holds a `/` or starts with a dot or a space. */
  lemma KeptSegmentsAreClean(pieces: seq<string>)
    ensures forall k :: 0 <= k < |KeptSegments(pieces, CleanPathSegment)| ==>
      var segment := KeptSegments(pieces, CleanPathSegment)[k];
      '/' !in segment && !IsLeadingTrim(segment[0])
  {
    var kept := KeptSegments(pieces, CleanPathSegment);
    KeptSegmentsFrom(pieces, CleanPathSegment);
    forall k | 0 <= k < |kept| ensures '/' !in kept[k] && !IsLeadingTrim(kept[k][0]) {
      var j :| 0 <= j < |pieces| && kept[k] == CleanPathSegment(pieces[j]);
      CleanPathSegmentHasNoSlash(pieces[j]);
      CleanPathSegmentEnds(pieces[j]);
    }
  }

  /**
   * Joining the kept segments of a cleaner that never yields `/` gives a
   * path without a leading or trailing `/` and without "//", whose `/`-pieces
   * are exactly the kept segments (or the empty path when none is kept).
   */
  lemma KeptSegmentsJoinShape(pieces: seq<string>, clean: string -> string)
    requires forall segment :: '/' !in clean(segment)
    ensures var r := Join(KeptSegments(pieces, clean), '/');
      r == [] || (r[0] != '/' && r[|r| - 1] != '/')
    ensures NoAdjacent(Join(KeptSegments(pieces, clean), '/'), IsChar('/'))
    ensures var kept := KeptSegments(pieces, clean);
      if kept == [] then Join(kept, '/') == "" else Split(Join(kept, '/'), '/') == kept
  {
    var kept := KeptSegments(pieces, clean);
    KeptSegmentsFrom(pieces, clean);
    assert forall k :: 0 <= k < |kept| ==> kept[k] != [] && '/' !in kept[k];
    JoinHasNoEmptyPiece(kept, '/');
    if kept != [] {
      JoinEnds(kept, '/');
      SplitJoin(kept, '/');
    }
  }

  /**
   * A cleaned path is relative and has no empty segment: it neither starts
   * nor ends with `/`, never holds "//", and splitting it at `/` gives back
   * exactly the kept segments (or it is empty when none is kept).
   */
  lemma CleanPathShape(path: string)
    ensures var r := CleanPathOf(path);
      r == [] || (r[0] != '/' && r[|r| - 1] != '/')
    ensures NoAdjacent(CleanPathOf(path), IsChar('/'))
    ensures var kept := KeptSegments(Split(path, '/'), CleanPathSegment);
      if kept == [] then CleanPathOf(path) == "" else Split(CleanPathOf(path), '/') == kept
  {
    forall segment: string ensures '/' !in CleanPathSegment(segment) {
      CleanPathSegmentHasNoSlash(segment);
    }
    KeptSegmentsJoinShape(Split(path, '/'), CleanPathSegment);
  }

  /**
   * No segment of a cleaned path starts with a dot or a space: `.`, `..`
   * and hidden names cannot survive, so the path cannot climb out of the
   * directory it is joined to.
   */
  lemma CleanPathHasNoDotSegment(path: string)
    ensures var segments := Split(CleanPathOf(path), '/');
      CleanPathOf(path) != "" ==>
        forall k :: 0 <= k < |segments| ==> segments[k] != [] && segments[k][0] != '.'
  {
    CleanPathShape(path);
    KeptSegmentsAreClean(Split(path, '/'));
  }

  /** A path without `/` is one piece: cleanPath cleans it as a single segment. */
  lemma CleanPathOfOnePiece(path: string)
    requires '/' !in path
    ensures CleanPathOf(path) == CleanPathSegment(path)
  {
    SplitJoin([path], '/');
    assert Split(path, '/') == [path];
    KeptSegmentsOfOne(path, CleanPathSegment);
  }

  /** One piece joins to its cleaned form, which is empty when the piece is dropped. */
  lemma KeptSegmentsOfOne(piece: string, clean: string -> string)
    ensures Join(KeptSegments([piece], clean), '/') == clean(piece)
  {
    assert [piece][..0] == [];
  }

  /** Pieces that are non-empty and left alone by `clean` are all kept, unchanged. */
  lemma {:induction false} KeptSegmentsOfFixed(xs: seq<string>, clean: string -> string)
    requires forall k :: 0 <= k < |xs| ==> xs[k] != [] && clean(xs[k]) == xs[k]
    ensures KeptSegments(xs, clean) == xs
    decreases |xs|
  {
    if xs != [] {
      KeptSegmentsOfFixed(xs[..|xs| - 1], clean);
      assert xs == xs[..|xs| - 1] + [xs[|xs| - 1]];
    }
  }

  /**
   * For a cleaner that maps "" to "", never yields `/` and changes nothing
   * it has already cleaned on these pieces, splitting and cleaning the joined
   * kept segments again gives the same path.
   */
  lemma KeptSegmentsJoinStable(pieces: seq<string>, clean: string -> string)
    requires forall segment :: '/' !in clean(segment)
    requires clean("") == ""
    requires forall j :: 0 <= j < |pieces| ==> clean(clean(pieces[j])) == clean(pieces[j])
    ensures var r := Join(KeptSegments(pieces, clean), '/');
      Join(KeptSegments(Split(r, '/'), clean), '/') == r
  {
    var kept := KeptSegments(pieces, clean);
    KeptSegmentsJoinShape(pieces, clean);
    if kept == [] {
      var blank := Split("", '/');
      assert blank == [""];
      assert blank[..0] == [];
    } else {
      KeptSegmentsFrom(pieces, clean);
      forall k | 0 <= k < |kept| ensures kept[k] != [] && clean(kept[k]) == kept[k] {
        var j :| 0 <= j < |pieces| && kept[k] == clean(pieces[j]);
      }
      KeptSegmentsOfFixed(kept, clean);
    }
  }

  /**
   * Cleaning a cleaned path changes nothing, as long as no piece of the
   * original path needed the 255-character cut.
   */
  lemma CleanPathIdempotent(path: string)
    requires forall k :: 0 <= k < |Split(path, '/')| ==> |Trimmed(Split(path, '/')[k])| <= MaxSegmentLength
    ensures CleanPathOf(CleanPathOf(path)) == CleanPathOf(path)
  {
    var pieces := Split(path, '/');
    forall segment: string ensures '/' !in CleanPathSegment(segment) {
      CleanPathSegmentHasNoSlash(segment);
    }
    forall j | 0 <= j < |pieces|
      ensures CleanPathSegment(CleanPathSegment(pieces[j])) == CleanPathSegment(pieces[j])
    {
      CleanPathSegmentIdempotent(pieces[j]);
    }
    DotsCleanToNothing("");
    KeptSegmentsJoinShape(pieces, CleanPathSegment);
    KeptSegmentsJoinStable(pieces, CleanPathSegment);
  }

  /**
   * Without that condition cleanPath is not idempotent: a one-piece path whose
   * trimmed form is longer than 255 characters, with a space as its 255th,
   * is changed by a second cleaning.
   */
  lemma CleanPathCanChangeOnSecondCleaning(path: string)
    requires '/' !in path
    requires |Trimmed(path)| > MaxSegmentLength && Trimmed(path)[MaxSegmentLength - 1] == ' '
    ensures CleanPathOf(CleanPathOf(path)) != CleanPathOf(path)
  {
    var r := CleanPathSegment(path);
    CleanPathOfOnePiece(path);
    CleanPathSegmentHasNoSlash(path);
    CleanPathOfOnePiece(r);
    CutCanExposeTrailingSpace(path);
  }

  /**
   * The instance: 254 letters, a space and one more letter. The first
   * cleaning cuts after the space; the second trims it.
   */
  lemma LongNameChangesOnSecondCleaning(path: string)
    requires |path| == 256 && path[254] == ' ' && path[255] == 'b'
    requires forall i :: 0 <= i < 254 ==> path[i] == 'a'
    ensures CleanPathOf(path) == path[..MaxSegmentLength]
    ensures CleanPathOf(CleanPathOf(path)) != CleanPathOf(path)
  {
    assert NoneOf(path, IsUnsafe);
    assert NoAdjacent(path, IsChar(' '));
    TrimmedKeepsClean(path);
    assert '/' !in path;
    CleanPathOfOnePiece(path);
    CleanPathCanChangeOnSecondCleaning(path);
  }

  /** Joining after `n` empty strings only adds slashes in front of the join. */
  lemma {:induction false} JoinAfterBlanks(n: nat, kept: seq<string>)
    requires kept != []
    ensures Join(Blanks(n) + kept, '/') == SlashRun(n) + Join(kept, '/')
    decreases n
  {
    if n == 0 {
      assert Blanks(0) + kept == kept;
    } else {
      assert (Blanks(n) + kept)[1..] == Blanks(n - 1) + kept;
      JoinAfterBlanks(n - 1, kept);
      assert SlashRun(n) == ['/'] + SlashRun(n - 1);
    }
  }

  /** `n` slashes. */
  function SlashRun(n: nat): (s: string)
    ensures |s| == n && forall i :: 0 <= i < n ==> s[i] == '/'
  {
    seq(n, _ => '/')
  }

  /** The join of empty strings is nothing but slashes. */
  lemma {:induction false} JoinOfBlanks(n: nat)
    ensures forall i :: 0 <= i < |Join(Blanks(n), '/')| ==> Join(Blanks(n), '/')[i] == '/'
    decreases n
  {
    if n > 1 {
      assert Blanks(n)[1..] == Blanks(n - 1);
      JoinOfBlanks(n - 1);
    }
  }

  /** Trimming slashes removes exactly what the pre-filled empty strings added. */
  lemma TrimBlanksBeforeJoin(n: nat, kept: seq<string>)
    requires forall k :: 0 <= k < |kept| ==> kept[k] != [] && '/' !in kept[k]
    ensures Trim(Join(Blanks(n) + kept, '/'), '/') == Join(kept, '/')
  {
    if kept == [] {
      assert Blanks(n) + kept == Blanks(n);
      JoinOfBlanks(n);
      var l := TrimLeft(Join(Blanks(n), '/'), IsChar('/'));
      assert l == [];
    } else {
      var j := Join(kept, '/');
      JoinAfterBlanks(n, kept);
      JoinEnds(kept, '/');
      TrimLeftPrefix(SlashRun(n), j, IsChar('/'));
      TrimIdentity(j, IsChar('/'), IsChar('/'));
    }
  }
}
