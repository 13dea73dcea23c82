/**
 * The bracket content filter of bracketreplacer.go.
 *
 * A configuration string such as "([{limited,digital}])" selects which of the
 * four bracket pairs are active and which patterns decide whether the text
 * inside a bracketed span is replaced. Replace then scans a text, and every
 * balanced span opened by an active bracket whose interior matches is
 * replaced; everything else is copied.
 */
module Brackets {
  import opened Wrappers
  import opened Strings
  import opened ContentMatcher

  /** The four bracket pairs the filter knows, opening to closing. */
  const AllBracketPairs: map<char, char> := map['(' := ')', '[' := ']', '{' := '}', '<' := '>']

  predicate IsKnownOpenBracket(r: char)
    ensures IsKnownOpenBracket(r) <==> r == '(' || r == '[' || r == '{' || r == '<'
  {
    r in AllBracketPairs
  }

  /** A closing bracket of any of the pairs (the source searches the values). */
  predicate IsKnownCloseBracket(r: char)
    ensures IsKnownCloseBracket(r) <==> r == ')' || r == ']' || r == '}' || r == '>'
  {
    assert AllBracketPairs['('] == ')' && AllBracketPairs['['] == ']';
    assert AllBracketPairs['{'] == '}' && AllBracketPairs['<'] == '>';
    exists o :: o in AllBracketPairs && AllBracketPairs[o] == r
  }

  // ---------------------------------------------------------------------
  // Configuration
  // ---------------------------------------------------------------------

  /**
   * The active bracket pairs of a configuration: exactly the opening brackets
   * that occur in it, each with its own closing bracket.
   */
  function ActiveBracketsOf(config: string): (active: map<char, char>)
    ensures forall c :: c in active <==> c in config && IsKnownOpenBracket(c)
    ensures forall c :: c in active ==> c in AllBracketPairs && active[c] == AllBracketPairs[c]
    decreases |config|
  {
    if config == [] then map[]
    else
      var last := config[|config| - 1];
      var init := config[..|config| - 1];
      assert config == init + [last];
      var active := ActiveBracketsOf(init);
      if IsKnownOpenBracket(last) then active[last := AllBracketPairs[last]] else active
  }

  /** Adding a map to the empty map gives that map. */
  lemma EmptyMapUnion(m: map<char, char>)
    ensures map[] + m == m
  {
  }

  /** The "in pattern" flag after reading one more configuration character. */
  function NextInPattern(inPattern: bool, c: char): bool
  {
    if IsKnownOpenBracket(c) then true
    else if IsKnownCloseBracket(c) then false
    else inPattern
  }

  function InPatternAfter(config: string, inPattern: bool): bool
    decreases |config|
  {
    if config == [] then inPattern
    else InPatternAfter(config[1..], NextInPattern(inPattern, config[0]))
  }

  /**
   * The characters the configuration scan collects, starting with the flag
   * `inPattern`: every character that is not a bracket and is read while the
   * flag is on.
   */
  function CollectPattern(config: string, inPattern: bool): (collected: string)
    ensures |collected| <= |config|
    ensures forall i :: 0 <= i < |collected| ==>
              !IsKnownOpenBracket(collected[i]) && !IsKnownCloseBracket(collected[i])
    decreases |config|
  {
    if config == [] then ""
    else
      var c := config[0];
      var rest := CollectPattern(config[1..], NextInPattern(inPattern, c));
      if !IsKnownOpenBracket(c) && !IsKnownCloseBracket(c) && inPattern then [c] + rest else rest
  }

  /** The pattern source of a configuration: the scan starts outside brackets. */
  function PatternSource(config: string): string
  {
    CollectPattern(config, false)
  }

  /** Collecting over a concatenation: the second part starts with the flag the first left. */
  lemma {:induction false} CollectPatternAppend(a: string, b: string, inPattern: bool)
    ensures CollectPattern(a + b, inPattern)
         == CollectPattern(a, inPattern) + CollectPattern(b, InPatternAfter(a, inPattern))
    decreases |a|
  {
    if a == [] {
      assert a + b == b;
    } else {
      assert (a + b)[1..] == a[1..] + b;
      CollectPatternAppend(a[1..], b, NextInPattern(inPattern, a[0]));
    }
  }

  /** Text that holds no opening bracket is never collected. */
  lemma {:induction false} CollectWithoutOpening(s: string)
    requires forall i :: 0 <= i < |s| ==> !IsKnownOpenBracket(s[i])
    ensures CollectPattern(s, false) == "" && !InPatternAfter(s, false)
    decreases |s|
  {
    if s != [] {
      CollectWithoutOpening(s[1..]);
    }
  }

  /** Text without any bracket character keeps the flag and is collected iff it is on. */
  lemma {:induction false} CollectWithoutBrackets(s: string, inPattern: bool)
    requires forall i :: 0 <= i < |s| ==> !IsKnownOpenBracket(s[i]) && !IsKnownCloseBracket(s[i])
    ensures CollectPattern(s, inPattern) == (if inPattern then s else "")
    ensures InPatternAfter(s, inPattern) == inPattern
    decreases |s|
  {
    if s != [] {
      CollectWithoutBrackets(s[1..], inPattern);
    }
  }

  /** A configuration without opening brackets contributes no pattern text. */
  lemma PatternSourceIgnoresTextOutsideBrackets(config: string)
    requires forall i :: 0 <= i < |config| ==> !IsKnownOpenBracket(config[i])
    ensures PatternSource(config) == ""
  {
    CollectWithoutOpening(config);
  }

  /**
   * Any closing bracket switches collection off, whatever bracket opened it:
   * the configuration falls apart into independent pieces at each one.
   */
  lemma PatternSourceSplitsAtClose(a: string, close: char, b: string)
    requires IsKnownCloseBracket(close)
    ensures PatternSource(a + [close] + b) == PatternSource(a) + PatternSource(b)
  {
    CollectPatternAppend(a, [close] + b, false);
    assert a + [close] + b == a + ([close] + b);
    assert ([close] + b)[1..] == b;
  }

  /** Bracket-free text right after an opening bracket is collected verbatim. */
  lemma PatternSourceCollectsAfterOpen(a: string, open: char, b: string)
    requires IsKnownOpenBracket(open)
    requires forall i :: 0 <= i < |b| ==> !IsKnownOpenBracket(b[i]) && !IsKnownCloseBracket(b[i])
    ensures PatternSource(a + [open] + b) == PatternSource(a) + b
  {
    CollectPatternAppend(a, [open] + b, false);
    assert a + [open] + b == a + ([open] + b);
    assert ([open] + b)[1..] == b;
    CollectWithoutBrackets(b, true);
  }

  /** A usable pattern: non-empty, with no white space at either end. */
  predicate IsTrimmedPattern(p: string)
  {
    p != [] && !IsSpace(p[0]) && !IsSpace(p[|p| - 1])
  }

  /** The pieces of the pattern source kept after trimming, in order. */
  function TrimmedPieces(pieces: seq<string>): (patterns: seq<string>)
    ensures |patterns| <= |pieces|
    ensures forall k :: 0 <= k < |patterns| ==> IsTrimmedPattern(patterns[k])
    decreases |pieces|
  {
    if pieces == [] then []
    else
      var patterns := TrimmedPieces(pieces[..|pieces| - 1]);
      var trimmed := TrimSpace(pieces[|pieces| - 1]);
      if trimmed != "" then
        assert IsTrimmedPattern(trimmed);
        patterns + [trimmed]
      else patterns
  }

  /**
   * The patterns of a pattern source: the comma-separated, trimmed,
   * non-empty pieces, or the single pattern `*` when there are none.
   */
  function PatternsOf(source: string): (patterns: seq<string>)
    ensures |patterns| >= 1
    ensures forall k :: 0 <= k < |patterns| ==> patterns[k] != []
  {
    var patternStr := TrimSpace(source);
    var kept := if patternStr != "" then TrimmedPieces(Split(patternStr, ',')) else [];
    if kept == [] then ["*"] else kept
  }

  /** One compiled glob per pattern, in order. */
  function CompileAll(patterns: seq<string>): (matcher: seq<Glob>)
    ensures |matcher| == |patterns|
  {
    seq(|patterns|, k requires 0 <= k < |patterns| => Compile(patterns[k]))
  }

  /** The content matcher a configuration builds. */
  function MatcherOf(config: string): seq<Glob>
  {
    CompileAll(PatternsOf(PatternSource(config)))
  }

  /** A piece that is already trimmed and non-empty is kept as it is. */
  lemma {:induction false} TrimmedPiecesKeepsTrimmed(pieces: seq<string>)
    requires forall k :: 0 <= k < |pieces| ==> IsTrimmedPattern(pieces[k])
    ensures TrimmedPieces(pieces) == pieces
    decreases |pieces|
  {
    if pieces != [] {
      var init, last := pieces[..|pieces| - 1], pieces[|pieces| - 1];
      assert forall k :: 0 <= k < |init| ==> IsTrimmedPattern(init[k]);
      TrimmedPiecesKeepsTrimmed(init);
      assert IsTrimmedPattern(last);
      TrimSpaceIdentity(last);
      assert pieces == init + [last];
    }
  }

  /** Blank pieces are all dropped. */
  lemma {:induction false} TrimmedPiecesDropsBlank(pieces: seq<string>)
    requires forall k, i :: 0 <= k < |pieces| && 0 <= i < |pieces[k]| ==> IsSpace(pieces[k][i])
    ensures TrimmedPieces(pieces) == []
    decreases |pieces|
  {
    if pieces != [] {
      var last := pieces[|pieces| - 1];
      TrimmedPiecesDropsBlank(pieces[..|pieces| - 1]);
    }
  }

  /**
   * Without any pattern text (only white space and commas), the filter falls
   * back to the single pattern `*`, which accepts every interior.
   */
  lemma BlankSourceMatchesEverything(source: string, content: string)
    requires forall i :: 0 <= i < |source| ==> IsSpace(source[i]) || source[i] == ','
    ensures PatternsOf(source) == ["*"]
    ensures ContentMatches(CompileAll(PatternsOf(source)), content)
  {
    var patternStr := TrimSpace(source);
    if patternStr != "" {
      var l := TrimLeft(source, IsSpace);
      assert patternStr == l[..|patternStr|] && l == source[|source| - |l|..];
      var pieces := Split(patternStr, ',');
      forall k, i | 0 <= k < |pieces| && 0 <= i < |pieces[k]| ensures IsSpace(pieces[k][i]) {
        JoinContains(pieces, ',', k, i);
        assert ',' !in pieces[k];
      }
      TrimmedPiecesDropsBlank(pieces);
    }
    assert CompileAll(["*"]) == [Compile("*")];
    StarMatchesEverything(content);
  }

  /**
   * Writing patterns out comma-separated and parsing them gives them back,
   * provided each one is non-empty, comma-free and has no surrounding space.
   */
  lemma PatternsRoundTrip(patterns: seq<string>)
    requires |patterns| >= 1
    requires forall k :: 0 <= k < |patterns| ==> IsTrimmedPattern(patterns[k]) && ',' !in patterns[k]
    ensures PatternsOf(Join(patterns, ',')) == patterns
  {
    var s := Join(patterns, ',');
    JoinEnds(patterns, ',');
    TrimIdentity(s, IsSpace, IsSpace);
    SplitJoin(patterns, ',');
    TrimmedPiecesKeepsTrimmed(patterns);
  }

  /** Pieces that trim to the same text give the same kept patterns. */
  lemma {:induction false} TrimmedPiecesPointwise(a: seq<string>, b: seq<string>)
    requires |a| == |b|
    requires forall k :: 0 <= k < |a| ==> TrimSpace(a[k]) == TrimSpace(b[k])
    ensures TrimmedPieces(a) == TrimmedPieces(b)
    decreases |a|
  {
    if a != [] {
      TrimmedPiecesPointwise(a[..|a| - 1], b[..|b| - 1]);
    }
  }

  /**
   * Parsing any comma-separated pattern text gives its trimmed, non-blank
   * pieces in order, or `*` when there are none.
   */
  lemma PatternsOfJoin(pieces: seq<string>)
    requires forall k :: 0 <= k < |pieces| ==> ',' !in pieces[k]
    ensures PatternsOf(Join(pieces, ',')) ==
      if TrimmedPieces(pieces) == [] then ["*"] else TrimmedPieces(pieces)
  {
    if |pieces| == 0 {
      assert Join(pieces, ',') == "" && TrimSpace("") == "";
    } else if |pieces| == 1 {
      var p := pieces[0];
      assert pieces == [p] && Join(pieces, ',') == p;
      PatternsOfOnePiece(p);
    } else {
      var trimmed := PatternTextPieces(pieces);
      TrimmedPiecesPointwise(trimmed, pieces);
    }
  }

  /** A pattern text without commas is one pattern, or none when blank. */
  lemma PatternsOfOnePiece(p: string)
    requires ',' !in p
    ensures PatternsOf(p) == if TrimmedPieces([p]) == [] then ["*"] else TrimmedPieces([p])
  {
    var t := TrimSpace(p);
    TrimmedPiecesOfOne(p);
    if t != "" {
      assert Split(t, ',') == [t] by {
        TrimKeepsOut(p, ',', IsSpace);
        TrimKeepsOut(TrimLeft(p, IsSpace), ',', IsSpace);
        SplitJoin([t], ',');
      }
      assert TrimmedPieces([t]) == [t] by {
        TrimmedPiecesOfOne(t);
        TrimSpaceIdentity(t);
      }
    }
  }

  /** A single piece is kept, trimmed, exactly when it is not blank. */
  lemma TrimmedPiecesOfOne(p: string)
    ensures TrimmedPieces([p]) == if TrimSpace(p) != "" then [TrimSpace(p)] else []
  {
    assert [p][..0] == [];
  }

  /** The pieces PatternsOf splits a comma-join of two or more pieces into. */
  lemma PatternTextPieces(pieces: seq<string>) returns (trimmed: seq<string>)
    requires |pieces| >= 2
    requires forall k :: 0 <= k < |pieces| ==> ',' !in pieces[k]
    ensures |trimmed| == |pieces|
    ensures forall k :: 0 <= k < |trimmed| ==> TrimSpace(trimmed[k]) == TrimSpace(pieces[k])
    ensures PatternsOf(Join(pieces, ',')) ==
      if TrimmedPieces(trimmed) == [] then ["*"] else TrimmedPieces(trimmed)
  {
    assert !IsSpace(',');
    trimmed := TrimJoin(pieces, ',', IsSpace);
    var t := Join(trimmed, ',');
    assert TrimSpace(Join(pieces, ',')) == t;
    assert |t| >= 1;
    SplitJoin(trimmed, ',');
  }

  // ---------------------------------------------------------------------
  // Scanning a text
  // ---------------------------------------------------------------------

  /** +1 for the span's own opening character, -1 for its closing one, 0 otherwise. */
  function Delta(c: char, open: char, close: char): int
  {
    if c == open then 1 else if c == close then -1 else 0
  }

  /**
   * The nesting depth after reading `s`: only the span's own opening and
   * closing characters count; any other bracket is ordinary content.
   */
  function Depth(s: string, open: char, close: char): int
    decreases |s|
  {
    if s == [] then 0 else Depth(s[..|s| - 1], open, close) + Delta(s[|s| - 1], open, close)
  }

  /**
   * The depth counting of Replace: from position `k` with `depth` open
   * brackets, the position just after the bracket that closes the span, or
   * None when the text ends first.
   */
  function BalanceEnd(s: string, open: char, close: char, depth: nat, k: nat): (e: Option<nat>)
    requires k <= |s|
    ensures e.Some? ==> k <= e.value <= |s| && (depth > 0 ==> k < e.value)
    decreases |s| - k
  {
    if depth == 0 then Some(k)
    else if k == |s| then None
    else
      var next := if s[k] == open then depth + 1 else if s[k] == close then depth - 1 else depth;
      BalanceEnd(s, open, close, next, k + 1)
  }

  /** A balanced span: it opens with `open` and first returns to depth 0 at its end. */
  ghost predicate IsBalancedSpan(span: string, open: char, close: char)
  {
    |span| >= 2 && span[0] == open && Depth(span, open, close) == 0
    && forall j :: 1 <= j < |span| ==> Depth(span[..j], open, close) > 0
  }

  /** The depth counter finds the first prefix at which the depth is back to 0. */
  lemma {:induction false} BalanceEndIsFirstZero(s: string, open: char, close: char, depth: nat, k: nat)
    requires k <= |s| && Depth(s[..k], open, close) == depth
    ensures match BalanceEnd(s, open, close, depth, k)
      case Some(e) =>
        Depth(s[..e], open, close) == 0 && forall j :: k <= j < e ==> Depth(s[..j], open, close) > 0
      case None =>
        forall j :: k <= j <= |s| ==> Depth(s[..j], open, close) > 0
    decreases |s| - k
  {
    if depth != 0 && k < |s| {
      assert s[..k + 1][..k] == s[..k];
      var next := if s[k] == open then depth + 1 else if s[k] == close then depth - 1 else depth;
      BalanceEndIsFirstZero(s, open, close, next, k + 1);
    }
  }

  /**
   * What Replace produces for a text, given the active brackets and the
   * content matcher; the scan of the source, one step per character or span.
   */
  function ReplaceSpec(active: map<char, char>, matcher: seq<Glob>, text: string, replacement: string): string
    decreases |text|
  {
    if text == [] then ""
    else if text[0] in active then
      match BalanceEnd(text, text[0], active[text[0]], 1, 1)
      case None => text
      case Some(e) =>
        (if ContentMatches(matcher, text[1..e - 1]) then replacement else text[..e])
        + ReplaceSpec(active, matcher, text[e..], replacement)
    else
      [text[0]] + ReplaceSpec(active, matcher, text[1..], replacement)
  }

  /** Characters that are not active opening brackets are copied unchanged, in order. */
  lemma {:induction false} ReplaceCopiesPlainText(
    active: map<char, char>, matcher: seq<Glob>, plain: string, rest: string, replacement: string)
    requires forall i :: 0 <= i < |plain| ==> plain[i] !in active
    ensures ReplaceSpec(active, matcher, plain + rest, replacement)
         == plain + ReplaceSpec(active, matcher, rest, replacement)
    decreases |plain|
  {
    if plain == [] {
      assert plain + rest == rest;
    } else {
      assert (plain + rest)[1..] == plain[1..] + rest;
      ReplaceCopiesPlainText(active, matcher, plain[1..], rest, replacement);
    }
  }

  /** A text holding no active opening bracket comes back unchanged. */
  lemma ReplaceWithoutActiveBracketIsIdentity(
    active: map<char, char>, matcher: seq<Glob>, text: string, replacement: string)
    requires forall i :: 0 <= i < |text| ==> text[i] !in active
    ensures ReplaceSpec(active, matcher, text, replacement) == text
  {
    ReplaceCopiesPlainText(active, matcher, text, "", replacement);
    assert text + "" == text;
  }

  /**
   * A configuration without any opening bracket activates nothing, and its
   * filter returns every text unchanged.
   */
  lemma ConfigWithoutOpeningBracketIsInert(config: string, text: string, replacement: string)
    requires forall i :: 0 <= i < |config| ==> !IsKnownOpenBracket(config[i])
    ensures ActiveBracketsOf(config) == map[]
    ensures ReplaceSpec(ActiveBracketsOf(config), MatcherOf(config), text, replacement) == text
  {
    ReplaceWithoutActiveBracketIsIdentity(ActiveBracketsOf(config), MatcherOf(config), text, replacement);
  }

  /** On a text that starts with a balanced span, the scan's depth counter stops at its end. */
  lemma BalanceEndOfSpan(span: string, rest: string, open: char, close: char)
    requires IsBalancedSpan(span, open, close)
    ensures BalanceEnd(span + rest, open, close, 1, 1) == Some(|span|)
  {
    var s := span + rest;
    assert s[..1] == [open];
    assert [open][..0] == [];
    assert Depth(s[..1], open, close) == 1;
    BalanceEndIsFirstZero(s, open, close, 1, 1);
    assert s[..|span|] == span;
    forall j | 1 <= j <= |span| ensures s[..j] == span[..j] { }
    match BalanceEnd(s, open, close, 1, 1)
    case None =>
      assert false;
    case Some(e) =>
      if e < |span| {
        assert false;
      }
  }

  /**
   * A balanced span opened by an active bracket is replaced by exactly one
   * copy of the replacement when its interior matches, and copied unchanged
   * otherwise; the scan then goes on after the span.
   */
  lemma ReplaceBalancedSpan(
    active: map<char, char>, matcher: seq<Glob>, span: string, rest: string, replacement: string)
    requires |span| >= 1 && span[0] in active
    requires IsBalancedSpan(span, span[0], active[span[0]])
    ensures ReplaceSpec(active, matcher, span + rest, replacement)
         == (if ContentMatches(matcher, span[1..|span| - 1]) then replacement else span)
            + ReplaceSpec(active, matcher, rest, replacement)
  {
    var s := span + rest;
    BalanceEndOfSpan(span, rest, span[0], active[span[0]]);
    assert s[0] == span[0];
    assert s[1..|span| - 1] == span[1..|span| - 1];
    assert s[..|span|] == span && s[|span|..] == rest;
  }

  /**
   * An active opening bracket that never balances ends the scan: the rest of
   * the text, bracket included, is copied unchanged.
   */
  lemma ReplaceUnbalancedSpan(
    active: map<char, char>, matcher: seq<Glob>, plain: string, tail: string, replacement: string)
    requires forall i :: 0 <= i < |plain| ==> plain[i] !in active
    requires |tail| >= 1 && tail[0] in active
    requires forall j :: 1 <= j <= |tail| ==> Depth(tail[..j], tail[0], active[tail[0]]) > 0
    ensures ReplaceSpec(active, matcher, plain + tail, replacement) == plain + tail
  {
    ReplaceCopiesPlainText(active, matcher, plain, tail, replacement);
    var open, close := tail[0], active[tail[0]];
    assert tail[..1] == [open];
    assert [open][..0] == [];
    assert Depth(tail[..1], open, close) == 1;
    BalanceEndIsFirstZero(tail, open, close, 1, 1);
    match BalanceEnd(tail, open, close, 1, 1)
    case None =>
    case Some(e) =>
      assert false;
  }

  /**
   * One more configuration character, as the scan loop reads it: an opening
   * bracket is added to the pairs already in the map `m`.
   */
  lemma ActiveBracketsStep(m: map<char, char>, config: string, i: nat)
    requires i < |config|
    ensures m + ActiveBracketsOf(config[..i + 1])
         == if IsKnownOpenBracket(config[i])
            then (m + ActiveBracketsOf(config[..i]))[config[i] := AllBracketPairs[config[i]]]
            else m + ActiveBracketsOf(config[..i])
  {
    assert config[..i + 1][..i] == config[..i];
  }

  /** One more configuration character, as the scan loop collects it after the text `done`. */
  lemma CollectPatternStep(config: string, i: nat, inPattern: bool, done: string)
    requires i < |config|
    ensures var c := config[i];
      done + CollectPattern(config[i..], inPattern)
      == (done + if !IsKnownOpenBracket(c) && !IsKnownCloseBracket(c) && inPattern then [c] else "")
         + CollectPattern(config[i + 1..], NextInPattern(inPattern, c))
  {
    assert config[i..][1..] == config[i + 1..];
  }

  /** One more piece, as the pattern loop reads it. */
  lemma TrimmedPiecesStep(pieces: seq<string>, k: nat)
    requires k < |pieces|
    ensures TrimmedPieces(pieces[..k + 1])
         == if TrimSpace(pieces[k]) != "" then TrimmedPieces(pieces[..k]) + [TrimSpace(pieces[k])]
            else TrimmedPieces(pieces[..k])
  {
    assert pieces[..k + 1][..k] == pieces[..k];
  }

  /**
   * One step of the Replace scan at a character that opens no active span:
   * the character joins the output produced so far (`done`).
   */
  lemma ReplaceStepPlain(
    active: map<char, char>, matcher: seq<Glob>, text: string, i: nat, replacement: string, done: string)
    requires i < |text| && text[i] !in active
    ensures done + ReplaceSpec(active, matcher, text[i..], replacement)
         == (done + [text[i]]) + ReplaceSpec(active, matcher, text[i + 1..], replacement)
  {
    assert text[i..][1..] == text[i + 1..];
  }

  /** One step of the Replace scan over a balanced span from `start` to `end`. */
  lemma ReplaceStepSpan(
    active: map<char, char>, matcher: seq<Glob>, text: string, start: nat, end: nat, replacement: string,
    done: string)
    requires start < |text| && text[start] in active
    requires BalanceEnd(text[start..], text[start], active[text[start]], 1, 1) == Some(end - start)
    requires start < end
    ensures end - 1 >= start + 1 && end <= |text|
    ensures done + ReplaceSpec(active, matcher, text[start..], replacement)
         == (done + if ContentMatches(matcher, text[start + 1..end - 1]) then replacement else text[start..end])
            + ReplaceSpec(active, matcher, text[end..], replacement)
  {
    var span := text[start..];
    assert span[0] == text[start];
    assert span[1..end - start - 1] == text[start + 1..end - 1];
    assert span[..end - start] == text[start..end];
    assert span[end - start..] == text[end..];
  }

  /** The Replace scan at an active opening bracket that never balances. */
  lemma ReplaceStepUnbalanced(
    active: map<char, char>, matcher: seq<Glob>, text: string, start: nat, replacement: string, done: string)
    requires start < |text| && text[start] in active
    requires BalanceEnd(text[start..], text[start], active[text[start]], 1, 1) == None
    ensures done + ReplaceSpec(active, matcher, text[start..], replacement) == done + text[start..]
  {
    assert text[start..][0] == text[start];
  }

  // ---------------------------------------------------------------------
  // The filter object
  // ---------------------------------------------------------------------

  /**
   * A parsed configuration: the active bracket pairs and the compiled
   * content matcher, both fixed once the constructor returns.
   */
  class BracketReplacer {
    var activeBrackets: map<char, char>
    var contentMatcher: seq<Glob>
    /** The configuration the replacer was built from. */
    ghost var config: string

    /** Both fields are those the configuration determines. */
    ghost predicate Valid()
      reads this
    {
      activeBrackets == ActiveBracketsOf(config) && contentMatcher == MatcherOf(config)
    }

    /** NewBracketReplacer: an empty bracket map, then the configuration scan. */
    constructor (configString: string)
      ensures config == configString && Valid()
      ensures activeBrackets == ActiveBracketsOf(configString)
      ensures contentMatcher == MatcherOf(configString)
    {
      activeBrackets := map[];
      contentMatcher := [];
      config := configString;
      new;
      ParseConfig(configString);
      assert contentMatcher == MatcherOf(configString);
      EmptyMapUnion(ActiveBracketsOf(configString));
      assert activeBrackets == ActiveBracketsOf(configString);
      assert Valid();
    }

    /**
     * parseConfig: the configuration scan, then the patterns of the collected
     * text, compiled into the content matcher.
     */
    method ParseConfig(config: string)
      modifies this`activeBrackets, this`contentMatcher
      ensures activeBrackets == old(activeBrackets) + ActiveBracketsOf(config)
      ensures contentMatcher == MatcherOf(config)
    {
      var patternBuilder := ScanConfig(config);
      var patterns := ParsePatterns(patternBuilder);
      BuildContentMatcher(patterns);
    }

    /**
     * The first pass of parseConfig: opening brackets become active and turn
     * the flag on, closing brackets turn it off, and other characters read
     * while it is on are collected.
     */
    method ScanConfig(config: string) returns (patternBuilder: string)
      modifies this`activeBrackets
      ensures activeBrackets == old(activeBrackets) + ActiveBracketsOf(config)
      ensures patternBuilder == PatternSource(config)
    {
      patternBuilder := "";
      var inPattern := false;
      for i := 0 to |config|
        invariant activeBrackets == old(activeBrackets) + ActiveBracketsOf(config[..i])
        invariant patternBuilder + CollectPattern(config[i..], inPattern) == PatternSource(config)
      {
        var c := config[i];
        ActiveBracketsStep(old(activeBrackets), config, i);
        CollectPatternStep(config, i, inPattern, patternBuilder);
        if IsKnownOpenBracket(c) {
          activeBrackets := activeBrackets[c := AllBracketPairs[c]];
          inPattern := true;
        } else if IsKnownCloseBracket(c) {
          inPattern := false;
        } else if inPattern {
          patternBuilder := patternBuilder + [c];
        }
      }
      assert config[..|config|] == config;
      assert config[|config|..] == [];
    }

    /**
     * The second half of parseConfig: the collected text is trimmed, split at
     * commas, each piece trimmed and the blank ones dropped; `*` is the
     * pattern when nothing is left.
     */
    method ParsePatterns(patternBuilder: string) returns (patterns: seq<string>)
      ensures patterns == PatternsOf(patternBuilder)
    {
      patterns := [];
      var patternStr := TrimSpace(patternBuilder);
      if patternStr != "" {
        var rawPatterns := Split(patternStr, ',');
        patterns := KeepTrimmedPieces(rawPatterns);
      }

      if |patterns| == 0 {
        patterns := ["*"];
      }
    }

    /** The loop over the comma-separated pieces: each is trimmed, and the non-blank ones are kept. */
    method KeepTrimmedPieces(rawPatterns: seq<string>) returns (patterns: seq<string>)
      ensures patterns == TrimmedPieces(rawPatterns)
    {
      patterns := [];
      for k := 0 to |rawPatterns|
        invariant patterns == TrimmedPieces(rawPatterns[..k])
      {
        TrimmedPiecesStep(rawPatterns, k);
        var trimmed := TrimSpace(rawPatterns[k]);
        if trimmed != "" {
          patterns := patterns + [trimmed];
        }
      }
      assert rawPatterns[..|rawPatterns|] == rawPatterns;
    }

    /** Compiles every pattern and installs the combined matcher. */
    method BuildContentMatcher(patterns: seq<string>)
      modifies this`contentMatcher
      ensures contentMatcher == CompileAll(patterns)
    {
      var parts: seq<Glob> := [];
      for k := 0 to |patterns|
        invariant |parts| == k
        invariant forall j :: 0 <= j < k ==> parts[j] == Compile(patterns[j])
      {
        var part := ConvertPatternToGlob(patterns[k]);
        parts := parts + [part];
      }
      contentMatcher := parts;
    }

    /** convertPatternToRegex: `*` becomes "any run", every other character a literal. */
    method ConvertPatternToGlob(pattern: string) returns (glob: Glob)
      ensures glob == Compile(pattern)
    {
      glob := [];
      var i := 0;
      while i < |pattern|
        invariant 0 <= i <= |pattern|
        invariant glob == Compile(pattern[..i])
      {
        assert pattern[..i + 1] == pattern[..i] + [pattern[i]];
        if pattern[i] == '*' {
          glob := glob + [AnyRun];
        } else {
          glob := glob + [Literal(pattern[i])];
        }
        i := i + 1;
      }
      assert pattern[..i] == pattern;
    }

    /**
     * isActiveOpenBracket: a lookup in the active pairs, which holds exactly
     * for the opening brackets that occur in the configuration.
     */
    predicate IsActiveOpenBracket(r: char)
      requires Valid()
      reads this
      ensures IsActiveOpenBracket(r) <==> r in config && IsKnownOpenBracket(r)
      ensures IsActiveOpenBracket(r) <==> r in activeBrackets
    {
      r in activeBrackets
    }

    /**
     * Scans `text` by code point. At an active opening bracket it counts that
     * bracket's own opening and closing characters until the depth returns
     * to zero; a balanced span is replaced when its interior matches and
     * copied otherwise, an unbalanced one ends the scan with the rest of the
     * text copied. Every other character is copied.
     */
    method Replace(text: string, replacement: string) returns (result: string)
      requires Valid()
      ensures result == ReplaceSpec(activeBrackets, contentMatcher, text, replacement)
    {
      ghost var active, matcher := activeBrackets, contentMatcher;
      ghost var whole := ReplaceSpec(active, matcher, text, replacement);
      result := "";
      var i := 0;
      assert text[0..] == text;
      while i < |text|
        invariant 0 <= i <= |text|
        invariant result + ReplaceSpec(active, matcher, text[i..], replacement) == whole
        decreases |text| - i
      {
        if IsActiveOpenBracket(text[i]) {
          var start := i;
          var openBracket := text[i];
          var closeBracket := activeBrackets[openBracket];
          var bracketCount;
          i, bracketCount := FindSpanEnd(text, start, openBracket, closeBracket);

          if bracketCount == 0 {
            ReplaceStepSpan(active, matcher, text, start, i, replacement, result);
            var content := text[start + 1..i - 1];
            if ContentMatches(contentMatcher, content) {
              result := result + replacement;
            } else {
              result := result + text[start..i];
            }
          } else {
            ReplaceStepUnbalanced(active, matcher, text, start, replacement, result);
            result := result + text[start..];
            break;
          }
        } else {
          ReplaceStepPlain(active, matcher, text, i, replacement, result);
          result := result + [text[i]];
          i := i + 1;
        }
      }
    }

    /**
     * The depth counting of Replace, from the opening bracket at `start`:
     * the position after the bracket that brings the count back to zero, or
     * the end of the text with a positive count.
     */
    method FindSpanEnd(text: string, start: nat, openBracket: char, closeBracket: char)
      returns (i: nat, bracketCount: nat)
      requires start < |text| && text[start] == openBracket
      ensures start < i <= |text|
      ensures bracketCount == 0 ==> BalanceEnd(text[start..], openBracket, closeBracket, 1, 1) == Some(i - start)
      ensures bracketCount != 0 ==> BalanceEnd(text[start..], openBracket, closeBracket, 1, 1) == None
      ensures bracketCount != 0 ==> i == |text|
    {
      ghost var span := text[start..];
      bracketCount := 1;
      i := start + 1;
      while i < |text| && bracketCount > 0
        invariant start < i <= |text|
        invariant BalanceEnd(span, openBracket, closeBracket, bracketCount, i - start)
               == BalanceEnd(span, openBracket, closeBracket, 1, 1)
        decreases |text| - i
      {
        assert span[i - start] == text[i];
        if text[i] == openBracket {
          bracketCount := bracketCount + 1;
        } else if text[i] == closeBracket {
          bracketCount := bracketCount - 1;
        }
        i := i + 1;
      }
    }
  }

  /** The template function replaceInBrackets: parse the configuration, then Replace. */
  method ReplaceInBrackets(configString: string, replacement: string, text: string) returns (r: string)
    ensures r == ReplaceSpec(ActiveBracketsOf(configString), MatcherOf(configString), text, replacement)
  {
    var replacer := new BracketReplacer(configString);
    r := replacer.Replace(text, replacement);
  }

  /** The template function removeBrackets: Replace with the empty replacement. */
  method RemoveBrackets(configString: string, text: string) returns (r: string)
    ensures r == ReplaceSpec(ActiveBracketsOf(configString), MatcherOf(configString), text, "")
  {
    var replacer := new BracketReplacer(configString);
    r := replacer.Replace(text, "");
  }
}
