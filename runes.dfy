/**
 * Strings as the rune sequences Go obtains with `[]rune(s)`, and the
 * whitespace trimming of `strings.TrimSpace`.
 */
module Runes {

  /** A Go string, seen as its sequence of runes. */
  type Text = seq<char>

  /**
   * Go's `unicode.IsSpace`: the characters with the Unicode White_Space
   * property.
   */
  predicate IsSpace(c: char) {
    || c == '\t' || c == '\n' || c == '\U{000B}' || c == '\U{000C}' || c == '\r'
    || c == ' ' || c == '\U{0085}' || c == '\U{00A0}' || c == '\U{1680}'
    || ('\U{2000}' <= c <= '\U{200A}')
    || c == '\U{2028}' || c == '\U{2029}' || c == '\U{202F}' || c == '\U{205F}'
    || c == '\U{3000}'
  }

  predicate AllSpace(s: Text) {
    forall i :: 0 <= i < |s| ==> IsSpace(s[i])
  }

  /** `s` without its leading white space. */
  function TrimLeft(s: Text): Text {
    if s != [] && IsSpace(s[0]) then TrimLeft(s[1..]) else s
  }

  /** `s` without its trailing white space. */
  function TrimRight(s: Text): Text {
    if s != [] && IsSpace(s[|s| - 1]) then TrimRight(s[..|s| - 1]) else s
  }

  /** `TrimLeft` cuts a white-space prefix and leaves a suffix that does not begin with white space. */
  lemma {:induction false} TrimLeftCuts(s: Text)
    ensures var r := TrimLeft(s);
      && |r| <= |s| && r == s[|s| - |r|..] && AllSpace(s[..|s| - |r|])
      && (r == [] || !IsSpace(r[0]))
  {
    if s != [] && IsSpace(s[0]) {
      TrimLeftCuts(s[1..]);
      SpaceBefore(s, TrimLeft(s[1..]));
    }
  }

  /** `TrimRight` cuts a white-space suffix and leaves a prefix that does not end with white space. */
  lemma {:induction false} TrimRightCuts(s: Text)
    ensures var r := TrimRight(s);
      && |r| <= |s| && r == s[..|r|] && AllSpace(s[|r|..])
      && (r == [] || !IsSpace(r[|r| - 1]))
  {
    if s != [] && IsSpace(s[|s| - 1]) {
      TrimRightCuts(s[..|s| - 1]);
      SpaceAfter(s, TrimRight(s[..|s| - 1]));
    }
  }

  /** A white-space rune followed by a white-space prefix of the rest is a white-space prefix. */
  lemma SpaceBefore(s: Text, r: Text)
    requires s != [] && IsSpace(s[0])
    requires |r| <= |s| - 1 && r == s[1..][|s| - 1 - |r|..] && AllSpace(s[1..][..|s| - 1 - |r|])
    ensures |r| <= |s| && r == s[|s| - |r|..] && AllSpace(s[..|s| - |r|])
  {
    var k := |s| - |r|;
    assert s[1..][k - 1..] == s[k..];
    forall i | 0 <= i < k ensures IsSpace(s[..k][i]) {
      if i > 0 {
        assert s[..k][i] == s[1..][..k - 1][i - 1];
      }
    }
  }

  /** A white-space suffix of the front followed by a white-space rune is a white-space suffix. */
  lemma SpaceAfter(s: Text, r: Text)
    requires s != [] && IsSpace(s[|s| - 1])
    requires |r| <= |s| - 1 && r == s[..|s| - 1][..|r|] && AllSpace(s[..|s| - 1][|r|..])
    ensures |r| <= |s| && r == s[..|r|] && AllSpace(s[|r|..])
  {
    assert s[..|s| - 1][..|r|] == s[..|r|];
    forall i | 0 <= i < |s| - |r| ensures IsSpace(s[|r|..][i]) {
      if i < |s| - 1 - |r| {
        assert s[|r|..][i] == s[..|s| - 1][|r|..][i];
      }
    }
  }

  /**
   * Cutting `s` before `i` and after `j` is trimming it: only white space is
   * cut on either side, and what is left is empty or neither begins nor ends
   * with white space.
   */
  ghost predicate TrimmedAt(s: Text, i: int, j: int) {
    && 0 <= i <= j <= |s|
    && AllSpace(s[..i]) && AllSpace(s[j..])
    && (i == j || (!IsSpace(s[i]) && !IsSpace(s[j - 1])))
  }

  /**
   * `strings.TrimSpace`: the infix of `s` left once all leading and trailing
   * white space is removed.
   */
  function TrimSpace(s: Text): Text {
    TrimRight(TrimLeft(s))
  }

  /** `TrimSpace` trims: it keeps what a trim at some `i`, `j` keeps. */
  lemma TrimSpaceTrims(s: Text)
    ensures exists i, j :: TrimmedAt(s, i, j) && TrimSpace(s) == s[i..j]
  {
    var l := TrimLeft(s);
    TrimLeftCuts(s);
    TrimRightCuts(l);
    SpaceAroundInfix(s, l, TrimRight(l));
  }

  /** Cutting a white-space prefix, then a white-space suffix, trims. */
  lemma SpaceAroundInfix(s: Text, l: Text, r: Text)
    requires |l| <= |s| && l == s[|s| - |l|..] && AllSpace(s[..|s| - |l|]) && (l == [] || !IsSpace(l[0]))
    requires |r| <= |l| && r == l[..|r|] && AllSpace(l[|r|..]) && (r == [] || !IsSpace(r[|r| - 1]))
    ensures exists i, j :: TrimmedAt(s, i, j) && r == s[i..j]
  {
    var i := |s| - |l|;
    var j := i + |r|;
    assert r == s[i..j];
    assert s[j..] == l[|r|..];
    assert i < j ==> s[i] == l[0] && s[j - 1] == r[|r| - 1];
    assert TrimmedAt(s, i, j);
  }

  /** There is only one way to trim a text. */
  lemma TrimmedUnique(s: Text, i: int, j: int, i2: int, j2: int)
    requires TrimmedAt(s, i, j) && TrimmedAt(s, i2, j2)
    ensures s[i..j] == s[i2..j2]
  {
    if i < j {
      NotTrimmedPast(s, i, j, i2, j2);
    } else if i2 < j2 {
      NotTrimmedPast(s, i2, j2, i, j);
    }
  }

  /** A trim that keeps something keeps exactly what any other trim keeps. */
  lemma NotTrimmedPast(s: Text, i: int, j: int, i2: int, j2: int)
    requires TrimmedAt(s, i, j) && TrimmedAt(s, i2, j2) && i < j
    ensures i == i2 && j == j2
  {
    assert i2 <= i;
    assert i2 < j2;
    assert i2 >= i;
    assert j2 >= j;
    assert j2 <= j;
  }

  /** `TrimSpace` returns exactly what a trim of its input keeps. */
  lemma TrimSpaceIs(s: Text, i: int, j: int)
    requires TrimmedAt(s, i, j)
    ensures TrimSpace(s) == s[i..j]
  {
    var r := TrimSpace(s);
    TrimSpaceTrims(s);
    var i2, j2 :| TrimmedAt(s, i2, j2) && r == s[i2..j2];
    TrimmedUnique(s, i, j, i2, j2);
  }

  /**
   * A line read with its delimiter trims to the same text as the line
   * without it: the trailing white space is dropped by `TrimSpace`.
   */
  lemma TrimSpaceDropsTrailingSpace(s: Text, c: char)
    requires IsSpace(c)
    ensures TrimSpace(s + [c]) == TrimSpace(s)
  {
    var r := TrimSpace(s);
    TrimSpaceTrims(s);
    var i, j :| TrimmedAt(s, i, j) && r == s[i..j];
    TrimmedWithSpace(s, c, i, j);
    TrimSpaceIs(s + [c], i, j);
  }

  /** A trim of `s` is a trim of `s` followed by a white-space rune, keeping the same runes. */
  lemma TrimmedWithSpace(s: Text, c: char, i: int, j: int)
    requires IsSpace(c) && TrimmedAt(s, i, j)
    ensures TrimmedAt(s + [c], i, j) && (s + [c])[i..j] == s[i..j]
  {
    var t := s + [c];
    assert t[..i] == s[..i];
    assert t[j..] == s[j..] + [c];
  }

  /** Text that neither begins nor ends with white space is left as it is. */
  lemma TrimSpaceKeeps(s: Text)
    requires s == [] || (!IsSpace(s[0]) && !IsSpace(s[|s| - 1]))
    ensures TrimSpace(s) == s
  {
    assert s[..0] == [] && s[|s|..] == [] && s[0..|s|] == s;
    TrimSpaceIs(s, 0, |s|);
  }

  /** Trimming twice is trimming once. */
  lemma TrimSpaceIdempotent(s: Text)
    ensures TrimSpace(TrimSpace(s)) == TrimSpace(s)
  {
    var r := TrimSpace(s);
    TrimSpaceTrims(s);
    var i, j :| TrimmedAt(s, i, j) && r == s[i..j];
    TrimmedEnds(s, i, j);
    TrimSpaceKeeps(r);
  }

  /** What a trim keeps is empty or neither begins nor ends with white space. */
  lemma TrimmedEnds(s: Text, i: int, j: int)
    requires TrimmedAt(s, i, j)
    ensures var r := s[i..j]; r == [] || (!IsSpace(r[0]) && !IsSpace(r[|r| - 1]))
  {
    assert i < j ==> s[i..j][0] == s[i] && s[i..j][j - i - 1] == s[j - 1];
  }
}
