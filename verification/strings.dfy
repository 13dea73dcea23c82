/**
 * The few operations of Go's `strings` package that the sorter's text
 * transforms rely on: Split and Join on a one-character separator, and the
 * trimming family (TrimLeft/TrimRight with a character class, Trim, TrimSpace).
 * Strings are sequences of code points.
 */
module Strings {

  /** No character of `s` belongs to the class `bad`. */
  ghost predicate NoneOf(s: string, bad: char -> bool)
  {
    forall i :: 0 <= i < |s| ==> !bad(s[i])
  }

  /** `s` never holds two neighbouring characters of the class `cls`. */
  ghost predicate NoAdjacent(s: string, cls: char -> bool)
  {
    forall i, j :: 0 <= i < j < |s| && j == i + 1 ==> !(cls(s[i]) && cls(s[j]))
  }

  /**
   * strings.Split(s, string(sep)): the pieces between separators. There is
   * always at least one piece, no piece holds the separator, and joining the
   * pieces gives `s` back.
   */
  function Split(s: string, sep: char): (parts: seq<string>)
    ensures |parts| >= 1
    ensures forall k :: 0 <= k < |parts| ==> sep !in parts[k]
    ensures Join(parts, sep) == s
    decreases |s|
  {
    if s == [] then [""]
    else
      var rest := Split(s[1..], sep);
      if s[0] == sep then
        [""] + rest
      else
        var parts := [[s[0]] + rest[0]] + rest[1..];
        assert parts[1..] == rest[1..];
        parts
  }

  /** The total length of the pieces. */
  function TotalLength(parts: seq<string>): nat
    decreases |parts|
  {
    if parts == [] then 0 else |parts[0]| + TotalLength(parts[1..])
  }

  /** strings.Join(parts, string(sep)); the empty list joins to "". */
  function Join(parts: seq<string>, sep: char): string
    decreases |parts|
  {
    if |parts| == 0 then ""
    else if |parts| == 1 then parts[0]
    else parts[0] + [sep] + Join(parts[1..], sep)
  }

  /** A join holds every piece and one separator between each two neighbours. */
  lemma {:induction false} JoinLength(parts: seq<string>, sep: char)
    requires |parts| >= 1
    ensures |Join(parts, sep)| == TotalLength(parts) + |parts| - 1
    decreases |parts|
  {
    if |parts| > 1 {
      JoinLength(parts[1..], sep);
    }
  }

  /** A character of a joined piece is a character of the joined text. */
  lemma {:induction false} JoinContains(parts: seq<string>, sep: char, k: nat, i: nat)
    requires k < |parts| && i < |parts[k]|
    ensures parts[k][i] in Join(parts, sep)
    decreases |parts|
  {
    if |parts| > 1 {
      var rest := Join(parts[1..], sep);
      if k == 0 {
        assert Join(parts, sep)[i] == parts[0][i];
      } else {
        JoinContains(parts[1..], sep, k - 1, i);
        var j :| 0 <= j < |rest| && rest[j] == parts[k][i];
        assert Join(parts, sep)[|parts[0]| + 1 + j] == rest[j];
      }
    }
  }

  /** The first and last characters of a join of non-empty pieces. */
  lemma {:induction false} JoinEnds(parts: seq<string>, sep: char)
    requires |parts| >= 1
    requires forall k :: 0 <= k < |parts| ==> parts[k] != []
    ensures var s := Join(parts, sep);
      s != [] && s[0] == parts[0][0] && s[|s| - 1] == parts[|parts| - 1][|parts[|parts| - 1]| - 1]
    decreases |parts|
  {
    if |parts| > 1 {
      JoinEnds(parts[1..], sep);
    }
  }

  /** Joining non-empty, separator-free pieces never puts two separators side by side. */
  lemma {:induction false} JoinHasNoEmptyPiece(parts: seq<string>, sep: char)
    requires forall k :: 0 <= k < |parts| ==> parts[k] != [] && sep !in parts[k]
    ensures NoAdjacent(Join(parts, sep), IsChar(sep))
    decreases |parts|
  {
    if |parts| == 1 {
      assert forall i :: 0 <= i < |parts[0]| ==> parts[0][i] != sep;
    } else if |parts| > 1 {
      var p, rest := parts[0], Join(parts[1..], sep);
      JoinHasNoEmptyPiece(parts[1..], sep);
      JoinEnds(parts[1..], sep);
      var s := Join(parts, sep);
      assert s == p + [sep] + rest;
      forall i, j | 0 <= i < j < |s| && j == i + 1 ensures !(IsChar(sep)(s[i]) && IsChar(sep)(s[j])) {
        if j < |p| {
          assert s[i] == p[i];
        } else if j == |p| {
          assert s[i] == p[|p| - 1];
        } else if i == |p| {
          assert s[j] == rest[0];
        } else {
          assert s[i] == rest[i - |p| - 1] && s[j] == rest[j - |p| - 1];
        }
      }
    }
  }

  /** Splitting a string that starts with a separator-free piece `p`. */
  lemma {:induction false} SplitPrefix(p: string, t: string, sep: char)
    requires sep !in p
    ensures Split(p + t, sep) == [p + Split(t, sep)[0]] + Split(t, sep)[1..]
    decreases |p|
  {
    if p != [] {
      var parts := Split(t, sep);
      assert (p + t)[1..] == p[1..] + t;
      SplitPrefix(p[1..], t, sep);
      var rest := Split(p[1..] + t, sep);
      assert rest == [p[1..] + parts[0]] + parts[1..];
      assert [p[0]] + rest[0] == p + parts[0];
      assert rest[1..] == parts[1..];
    } else {
      var parts := Split(t, sep);
      assert p + t == t && p + parts[0] == parts[0];
      assert parts == [parts[0]] + parts[1..];
    }
  }

  /** Split undoes Join when no piece holds the separator. */
  lemma {:induction false} SplitJoin(parts: seq<string>, sep: char)
    requires |parts| >= 1
    requires forall k :: 0 <= k < |parts| ==> sep !in parts[k]
    ensures Split(Join(parts, sep), sep) == parts
    decreases |parts|
  {
    if |parts| == 1 {
      SplitPrefix(parts[0], "", sep);
      assert parts[0] + "" == parts[0];
    } else {
      var rest := Join(parts[1..], sep);
      SplitJoin(parts[1..], sep);
      assert parts[0] + [sep] + rest == parts[0] + ([sep] + rest);
      SplitPrefix(parts[0], [sep] + rest, sep);
      assert ([sep] + rest)[1..] == rest;
      assert Split([sep] + rest, sep) == [""] + Split(rest, sep);
      assert parts[0] + "" == parts[0];
    }
  }

  /**
   * strings.TrimLeftFunc(s, cut): drops the longest prefix whose characters
   * all satisfy `cut`.
   */
  function TrimLeft(s: string, cut: char -> bool): (r: string)
    ensures |r| <= |s| && r == s[|s| - |r|..]
    ensures forall i :: 0 <= i < |s| - |r| ==> cut(s[i])
    ensures r == [] || !cut(r[0])
    decreases |s|
  {
    if s != [] && cut(s[0]) then TrimLeft(s[1..], cut) else s
  }

  /**
   * strings.TrimRightFunc(s, cut): drops the longest suffix whose characters
   * all satisfy `cut`.
   */
  function TrimRight(s: string, cut: char -> bool): (r: string)
    ensures |r| <= |s| && r == s[..|r|]
    ensures forall i :: |r| <= i < |s| ==> cut(s[i])
    ensures r == [] || !cut(r[|r| - 1])
    decreases |s|
  {
    if s != [] && cut(s[|s| - 1]) then TrimRight(s[..|s| - 1], cut) else s
  }

  /** The character class holding just `c`. */
  function IsChar(c: char): char -> bool
  {
    x => x == c
  }

  /** strings.Trim(s, string(c)): both ends, one cut character. */
  function Trim(s: string, c: char): (r: string)
    ensures r == [] || (r[0] != c && r[|r| - 1] != c)
  {
    TrimRight(TrimLeft(s, IsChar(c)), IsChar(c))
  }

  /** TrimLeft drops a prefix made of cut characters and stops at the first other one. */
  lemma {:induction false} TrimLeftPrefix(p: string, s: string, cut: char -> bool)
    requires forall i :: 0 <= i < |p| ==> cut(p[i])
    requires s == [] || !cut(s[0])
    ensures TrimLeft(p + s, cut) == s
    decreases |p|
  {
    if p == [] {
      assert p + s == s;
    } else {
      assert (p + s)[1..] == p[1..] + s;
      TrimLeftPrefix(p[1..], s, cut);
    }
  }

  /** Join with one more piece at the end. */
  lemma {:induction false} JoinSnoc(init: seq<string>, last: string, sep: char)
    requires init != []
    ensures Join(init + [last], sep) == Join(init, sep) + [sep] + last
    decreases |init|
  {
    var parts := init + [last];
    assert parts[1..] == init[1..] + [last];
    if |init| > 1 {
      JoinSnoc(init[1..], last, sep);
    }
  }

  /**
   * TrimLeft stops before a kept character at position `i` of `x + y`, with
   * `i` no later than the start of `y`, whatever follows it.
   */
  lemma {:induction false} TrimLeftStops(x: string, y: string, cut: char -> bool, i: nat)
    requires i <= |x| && i < |x + y| && !cut((x + y)[i])
    ensures TrimLeft(x + y, cut) == TrimLeft(x, cut) + y
    decreases |x|
  {
    if x == [] {
      assert x + y == y;
    } else if cut(x[0]) {
      assert (x + y)[1..] == x[1..] + y;
      assert (x + y)[i] == (x[1..] + y)[i - 1];
      TrimLeftStops(x[1..], y, cut, i - 1);
    }
  }

  /** TrimRight stops after a kept character, whatever precedes it. */
  lemma {:induction false} TrimRightStops(x: string, y: string, cut: char -> bool)
    requires x != [] && !cut(x[|x| - 1])
    ensures TrimRight(x + y, cut) == x + TrimRight(y, cut)
    decreases |y|
  {
    if y == [] {
      assert x + y == x;
    } else if cut(y[|y| - 1]) {
      assert (x + y)[..|x + y| - 1] == x + y[..|y| - 1];
      TrimRightStops(x, y[..|y| - 1], cut);
    } else {
      assert (x + y)[|x + y| - 1] == y[|y| - 1];
    }
  }

  /** TrimRight removes a suffix made of cut characters after a kept one. */
  lemma {:induction false} TrimRightDrops(x: string, z: string, cut: char -> bool)
    requires x != [] && !cut(x[|x| - 1])
    requires forall i :: 0 <= i < |z| ==> cut(z[i])
    ensures TrimRight(x + z, cut) == x
    decreases |z|
  {
    if z == [] {
      assert x + z == x;
    } else {
      assert (x + z)[..|x + z| - 1] == x + z[..|z| - 1];
      TrimRightDrops(x, z[..|z| - 1], cut);
    }
  }

  /** TrimLeft of a join of two or more pieces only trims the first piece. */
  lemma {:induction false} JoinTrimLeft(pieces: seq<string>, sep: char, cut: char -> bool)
    requires |pieces| >= 2 && !cut(sep)
    ensures TrimLeft(Join(pieces, sep), cut) == Join([TrimLeft(pieces[0], cut)] + pieces[1..], sep)
  {
    var first, tail := pieces[0], pieces[1..];
    var after := [sep] + Join(tail, sep);
    assert pieces == [first] + tail;
    JoinCons(first, tail, sep);
    assert (first + after)[|first|] == sep;
    TrimLeftStops(first, after, cut, |first|);
    JoinCons(TrimLeft(first, cut), tail, sep);
  }

  /** Join with one more piece at the front. */
  lemma {:induction false} JoinCons(p: string, ps: seq<string>, sep: char)
    requires ps != []
    ensures Join([p] + ps, sep) == p + ([sep] + Join(ps, sep))
  {
    assert ([p] + ps)[1..] == ps;
  }

  /** TrimRight of a join of two or more pieces only trims the last piece. */
  lemma {:induction false} JoinTrimRight(pieces: seq<string>, sep: char, cut: char -> bool)
    requires |pieces| >= 2 && !cut(sep)
    ensures TrimRight(Join(pieces, sep), cut)
         == Join(pieces[..|pieces| - 1] + [TrimRight(pieces[|pieces| - 1], cut)], sep)
  {
    var init, last := pieces[..|pieces| - 1], pieces[|pieces| - 1];
    assert pieces == init + [last];
    JoinSnoc(init, last, sep);
    TrimRightStops(Join(init, sep) + [sep], last, cut);
    JoinSnoc(init, TrimRight(last, cut), sep);
  }

  /**
   * Trimming both ends of a join of two or more separator-free pieces trims
   * only the start of the first piece and the end of the last one.
   */
  lemma {:induction false} TrimJoin(pieces: seq<string>, sep: char, cut: char -> bool) returns (trimmed: seq<string>)
    requires |pieces| >= 2 && !cut(sep)
    requires forall k :: 0 <= k < |pieces| ==> sep !in pieces[k]
    ensures |trimmed| == |pieces|
    ensures TrimRight(TrimLeft(Join(pieces, sep), cut), cut) == Join(trimmed, sep)
    ensures forall k :: 0 <= k < |trimmed| ==> sep !in trimmed[k]
    ensures forall k :: 0 <= k < |trimmed| ==>
      TrimRight(TrimLeft(trimmed[k], cut), cut) == TrimRight(TrimLeft(pieces[k], cut), cut)
  {
    var n := |pieces|;
    JoinTrimLeft(pieces, sep, cut);
    var qs := [TrimLeft(pieces[0], cut)] + pieces[1..];
    JoinTrimRight(qs, sep, cut);
    trimmed := qs[..n - 1] + [TrimRight(pieces[n - 1], cut)];
    forall k | 0 <= k < n
      ensures sep !in trimmed[k]
      ensures TrimRight(TrimLeft(trimmed[k], cut), cut) == TrimRight(TrimLeft(pieces[k], cut), cut)
    {
      if k == 0 {
        assert trimmed[k] == TrimLeft(pieces[k], cut);
        TrimKeepsOut(pieces[k], sep, cut);
        TrimBothAfterTrimLeft(pieces[k], cut);
      } else if k == n - 1 {
        assert trimmed[k] == TrimRight(pieces[k], cut);
        TrimKeepsOut(pieces[k], sep, cut);
        TrimBothAfterTrimRight(pieces[k], cut);
      } else {
        assert trimmed[k] == pieces[k];
      }
    }
  }

  /** A trimmed piece is a slice, so it holds no character its source lacks. */
  lemma {:induction false} TrimKeepsOut(p: string, c: char, cut: char -> bool)
    requires c !in p
    ensures c !in TrimLeft(p, cut) && c !in TrimRight(p, cut)
  {
    var l, r := TrimLeft(p, cut), TrimRight(p, cut);
    assert forall i :: 0 <= i < |l| ==> l[i] == p[|p| - |l| + i];
    assert forall i :: 0 <= i < |r| ==> r[i] == p[i];
  }

  /** Trimming the left end first changes nothing for a trim of both ends. */
  lemma {:induction false} TrimBothAfterTrimLeft(p: string, cut: char -> bool)
    ensures TrimRight(TrimLeft(TrimLeft(p, cut), cut), cut) == TrimRight(TrimLeft(p, cut), cut)
  {
    var l := TrimLeft(p, cut);
    TrimLeftPrefix([], l, cut);
    assert [] + l == l;
  }

  /** Trimming the right end first changes nothing for a trim of both ends. */
  lemma {:induction false} TrimBothAfterTrimRight(p: string, cut: char -> bool)
    ensures TrimRight(TrimLeft(TrimRight(p, cut), cut), cut) == TrimRight(TrimLeft(p, cut), cut)
  {
    var r := TrimRight(p, cut);
    var z := p[|r|..];
    assert p == r + z;
    if r == [] {
      TrimBothOfAllCut(p, cut);
    } else {
      TrimBothBeforeCutSuffix(r, z, cut);
    }
  }

  /** A text made only of cut characters trims to nothing. */
  lemma {:induction false} TrimBothOfAllCut(p: string, cut: char -> bool)
    requires forall i :: 0 <= i < |p| ==> cut(p[i])
    ensures TrimRight(TrimLeft(p, cut), cut) == []
  {
    TrimLeftPrefix(p, [], cut);
    assert p + [] == p;
  }

  /** A suffix of cut characters after a kept one makes no difference to a trim of both ends. */
  lemma {:induction false} TrimBothBeforeCutSuffix(r: string, z: string, cut: char -> bool)
    requires r != [] && !cut(r[|r| - 1])
    requires forall i :: 0 <= i < |z| ==> cut(z[i])
    ensures TrimRight(TrimLeft(r + z, cut), cut) == TrimRight(TrimLeft(r, cut), cut)
  {
    var l := TrimLeftKeepsLast(r, cut);
    TrimLeftStops(r, z, cut, |r| - 1);
    TrimRightDrops(l, z, cut);
    TrimRightDrops(l, [], cut);
    assert l + [] == l;
  }

  /** TrimLeft keeps the last character of a text that ends with a kept one. */
  lemma {:induction false} TrimLeftKeepsLast(r: string, cut: char -> bool) returns (l: string)
    requires r != [] && !cut(r[|r| - 1])
    ensures l == TrimLeft(r, cut) && l != [] && l[|l| - 1] == r[|r| - 1]
  {
    l := TrimLeft(r, cut);
  }

  /**
   * unicode.IsSpace: the ASCII spaces '\t', '\n', '\v', '\f', '\r', ' ',
   * U+0085, U+00A0 and the other characters with the White_Space property.
   */
  predicate IsSpace(c: char)
  {
    c == '\t' || c == '\n' || c == '\U{0B}' || c == '\U{0C}' || c == '\r' || c == ' '
    || c == '\U{85}' || c == '\U{A0}' || c == '\U{1680}'
    || ('\U{2000}' <= c <= '\U{200A}')
    || c == '\U{2028}' || c == '\U{2029}' || c == '\U{202F}' || c == '\U{205F}' || c == '\U{3000}'
  }

  /** strings.TrimSpace: no leading or trailing white space is left. */
  function TrimSpace(s: string): (r: string)
    ensures r == [] || (!IsSpace(r[0]) && !IsSpace(r[|r| - 1]))
  {
    TrimRight(TrimLeft(s, IsSpace), IsSpace)
  }

  /** TrimSpace leaves a string without surrounding white space as it is. */
  lemma TrimSpaceIdentity(s: string)
    requires s == [] || (!IsSpace(s[0]) && !IsSpace(s[|s| - 1]))
    ensures TrimSpace(s) == s
  {
    TrimIdentity(s, IsSpace, IsSpace);
  }

  /** Trimming is the identity on a string whose ends are already clean. */
  lemma TrimIdentity(s: string, left: char -> bool, right: char -> bool)
    requires s == [] || (!left(s[0]) && !right(s[|s| - 1]))
    ensures TrimRight(TrimLeft(s, left), right) == s
  {
  }
}
