/**
 * StringUtils.replace(text, searchString, replacement) of Apache Commons
 * Lang: every occurrence of the search string, found left to right and
 * without overlap, is replaced; an empty search string or an empty text
 * leaves the text as it is.
 */
module StringReplace {

  /** `s` occurs in `t` starting at index `j`. */
  predicate MatchAt(t: string, s: string, j: int) {
    0 <= j && j + |s| <= |t| && t[j..j + |s|] == s
  }

  /** `s` occurs somewhere in `t`. */
  predicate Contains(t: string, s: string) {
    exists j :: 0 <= j <= |t| && MatchAt(t, s, j)
  }

  /** No occurrence of `s` in `t` starts at an index in [lo, hi). */
  predicate NoMatchBetween(t: string, s: string, lo: int, hi: int) {
    forall j :: lo <= j < hi ==> !MatchAt(t, s, j)
  }

  /** The replacement, for a non-empty search string, as a left-to-right scan. */
  function ReplaceFrom(t: string, s: string, r: string): string
    requires |s| > 0
    decreases |t|
  {
    if t == [] then []
    else if s <= t then r + ReplaceFrom(t[|s|..], s, r)
    else [t[0]] + ReplaceFrom(t[1..], s, r)
  }

  /** StringUtils.replace(t, s, r). */
  function ReplaceAll(t: string, s: string, r: string): string {
    if |s| == 0 then t else ReplaceFrom(t, s, r)
  }

  /** Pieces joined with a separator between each two of them. */
  function Join(ps: seq<string>, sep: string): string {
    if |ps| == 0 then []
    else if |ps| == 1 then ps[0]
    else ps[0] + sep + Join(ps[1..], sep)
  }

  /**
   * The text in which piece `i` must hold no occurrence: the piece followed by
   * the separator after it, if there is one.
   */
  function Window(ps: seq<string>, s: string, i: int): string
    requires 0 <= i < |ps|
  {
    if i < |ps| - 1 then ps[i] + s else ps[i]
  }

  /**
   * The pieces are what lies between leftmost non-overlapping occurrences of
   * `s`: no occurrence starts inside a piece, not even one that runs on into
   * the separator after it.
   */
  predicate Leftmost(ps: seq<string>, s: string) {
    |ps| >= 1 &&
    forall i :: 0 <= i < |ps| ==> NoMatchBetween(Window(ps, s, i), s, 0, |ps[i]|)
  }

  lemma JoinCons(c: char, ps: seq<string>, sep: string)
    requires |ps| >= 1
    ensures Join([[c] + ps[0]] + ps[1..], sep) == [c] + Join(ps, sep)
  {
    var qs := [[c] + ps[0]] + ps[1..];
    assert qs[1..] == ps[1..];
  }

  lemma JoinEmptyFirst(ps: seq<string>, sep: string)
    requires |ps| >= 1
    ensures Join([[]] + ps, sep) == sep + Join(ps, sep)
  {
    assert ([[]] + ps)[1..] == ps;
  }

  lemma JoinLonger(ps: seq<string>, sep: string)
    requires |ps| >= 2
    ensures Join(ps, sep) == ps[0] + sep + Join(ps[1..], sep)
  {
  }

  /** Whether `s` occurs at `j` ignores text appended after the occurrence. */
  lemma MatchAtAppend(x: string, y: string, s: string, j: int)
    requires 0 <= j && j + |s| <= |x|
    ensures MatchAt(x + y, s, j) <==> MatchAt(x, s, j)
  {
    assert (x + y)[j..j + |s|] == x[j..j + |s|];
  }

  /** Occurrences in a suffix are occurrences in the whole, shifted. */
  lemma MatchAtDrop(x: string, k: int, s: string, j: int)
    requires 0 <= k <= |x| && 0 <= j
    ensures MatchAt(x[k..], s, j) <==> MatchAt(x, s, j + k)
  {
    if j + k + |s| <= |x| {
      assert x[k..][j..j + |s|] == x[j + k..j + k + |s|];
    }
  }

  /** The first window of a split is a prefix of the joined text. */
  lemma WindowPrefix(ps: seq<string>, s: string)
    requires |ps| >= 1
    ensures Window(ps, s, 0) <= Join(ps, s)
  {
    if |ps| >= 2 {
      JoinLonger(ps, s);
    }
  }

  /** Leftmost pieces stay leftmost when the first character of the first piece is moved out. */
  lemma LeftmostTail(c: char, ps: seq<string>, s: string)
    requires |s| > 0 && |ps| >= 1 && Leftmost([[c] + ps[0]] + ps[1..], s)
    ensures Leftmost(ps, s)
  {
    var qs := [[c] + ps[0]] + ps[1..];
    var w, w' := Window(qs, s, 0), Window(ps, s, 0);
    assert w[1..] == w';
    forall j | 0 <= j < |ps[0]| ensures !MatchAt(w', s, j) {
      MatchAtDrop(w, 1, s, j);
      assert !MatchAt(w, s, j + 1);
    }
    forall i | 1 <= i < |ps| ensures Window(ps, s, i) == Window(qs, s, i) && ps[i] == qs[i] { }
  }

  /**
   * Splits `t` at the leftmost non-overlapping occurrences of a non-empty `s`:
   * joining the pieces with `s` gives `t` back.
   */
  function Split(t: string, s: string): (ps: seq<string>)
    requires |s| > 0
    ensures Join(ps, s) == t && Leftmost(ps, s)
    decreases |t|
  {
    if t == [] then [[]]
    else if s <= t then
      var rest := Split(t[|s|..], s);
      JoinEmptyFirst(rest, s);
      assert t == s + t[|s|..];
      assert ([[]] + rest)[1..] == rest;
      [[]] + rest
    else
      var rest := Split(t[1..], s);
      var ps := [[t[0]] + rest[0]] + rest[1..];
      JoinCons(t[0], rest, s);
      assert t == [t[0]] + t[1..];
      LeftmostCons(t, s, rest);
      ps
  }

  /**
   * A character at which `s` does not occur, put in front of a window with no
   * occurrence in its first `n` positions, gives a window with none in `n + 1`.
   */
  lemma ConsNoMatch(t: string, w': string, s: string, n: int)
    requires t != [] && !MatchAt(t, s, 0) && [t[0]] + w' <= t && NoMatchBetween(w', s, 0, n)
    ensures NoMatchBetween([t[0]] + w', s, 0, n + 1)
  {
    var w := [t[0]] + w';
    assert w[1..] == w';
    forall j | 0 <= j < n + 1 ensures !MatchAt(w, s, j) {
      if j == 0 {
        if |s| <= |w| {
          assert w + t[|w|..] == t;
          MatchAtAppend(w, t[|w|..], s, 0);
        }
      } else {
        MatchAtDrop(w, 1, s, j - 1);
      }
    }
  }

  /** Putting back a character at which `s` does not occur keeps the pieces leftmost. */
  lemma LeftmostCons(t: string, s: string, rest: seq<string>)
    requires |s| > 0 && t != [] && !(s <= t)
    requires Join(rest, s) == t[1..] && Leftmost(rest, s)
    ensures Leftmost([[t[0]] + rest[0]] + rest[1..], s)
  {
    var ps := [[t[0]] + rest[0]] + rest[1..];
    forall i | 0 <= i < |ps| ensures NoMatchBetween(Window(ps, s, i), s, 0, |ps[i]|) {
      if i == 0 {
        JoinCons(t[0], rest, s);
        assert t == [t[0]] + t[1..];
        WindowPrefix(ps, s);
        assert Window(ps, s, 0) == [t[0]] + Window(rest, s, 0);
        PrefixMatch(t, s);
        ConsNoMatch(t, Window(rest, s, 0), s, |rest[0]|);
      } else {
        assert Window(ps, s, i) == Window(rest, s, i) && ps[i] == rest[i];
      }
    }
  }

  /**
   * The leftmost split is the only one: any pieces that join to `t` and are
   * leftmost are the ones Split returns.
   */
  lemma {:induction false} SplitUnique(t: string, s: string, ps: seq<string>)
    requires |s| > 0 && Join(ps, s) == t && Leftmost(ps, s)
    ensures ps == Split(t, s)
    decreases |t|
  {
    var p, w := ps[0], Window(ps, s, 0);
    WindowPrefix(ps, s);
    if |s| <= |w| {
      assert w + t[|w|..] == t;
      MatchAtAppend(w, t[|w|..], s, 0);
    }
    if s <= t {
      // the first piece is empty, or `s` would start inside it
      assert MatchAt(t, s, 0);
      assert |ps| >= 2 && p == [];
      JoinLonger(ps, s);
      var tail := ps[1..];
      assert t[|s|..] == Join(tail, s);
      forall i | 0 <= i < |tail| ensures Window(tail, s, i) == Window(ps, s, i + 1) && tail[i] == ps[i + 1] { }
      SplitUnique(t[|s|..], s, tail);
      assert ps == [[]] + tail;
    } else if t == [] {
      assert |ps| == 1;
    } else {
      // the first piece is not empty, or `t` would start with `s`
      assert p != [];
      var qs := [p[1..]] + ps[1..];
      assert [p[0]] + qs[0] == p;
      assert ps == [[p[0]] + qs[0]] + qs[1..];
      LeftmostTail(p[0], qs, s);
      JoinCons(p[0], qs, s);
      assert t[0] == p[0];
      assert Join(qs, s) == t[1..];
      SplitUnique(t[1..], s, qs);
    }
  }

  /** The number of replacements StringUtils.replace makes. */
  function Count(t: string, s: string): nat {
    if |s| == 0 then 0 else CountFrom(t, s)
  }

  function CountFrom(t: string, s: string): nat
    requires |s| > 0
    decreases |t|
  {
    if t == [] then 0
    else if s <= t then 1 + CountFrom(t[|s|..], s)
    else CountFrom(t[1..], s)
  }

  /** A prefix is an occurrence at index 0. */
  lemma PrefixMatch(u: string, s: string)
    ensures s <= u <==> MatchAt(u, s, 0)
  {
    if |s| <= |u| {
      assert s <= u <==> u[..|s|] == s;
    }
  }

  /** The split has one more piece than there are replacements. */
  lemma {:induction false} SplitCount(t: string, s: string)
    requires |s| > 0
    ensures |Split(t, s)| == Count(t, s) + 1
    decreases |t|
  {
    if t != [] {
      if s <= t {
        SplitCount(t[|s|..], s);
      } else {
        SplitCount(t[1..], s);
      }
    }
  }

  /** The replacement is the split joined with the replacement string. */
  lemma {:induction false} ReplaceIsJoin(t: string, s: string, r: string)
    requires |s| > 0
    ensures ReplaceAll(t, s, r) == Join(Split(t, s), r)
    decreases |t|
  {
    if t != [] {
      if s <= t {
        ReplaceIsJoin(t[|s|..], s, r);
        JoinEmptyFirst(Split(t[|s|..], s), r);
      } else {
        ReplaceIsJoin(t[1..], s, r);
        JoinCons(t[0], Split(t[1..], s), r);
      }
    }
  }

  lemma MulSucc(k: int, d: int)
    ensures (k + 1) * d == k * d + d
  {
  }

  /** Each replacement changes the length by `|r| - |s|`. */
  lemma {:induction false} ReplaceLength(t: string, s: string, r: string)
    requires |s| > 0
    ensures |ReplaceAll(t, s, r)| == |t| + Count(t, s) * (|r| - |s|)
    decreases |t|
  {
    if t != [] {
      if s <= t {
        ReplaceLength(t[|s|..], s, r);
        MulSucc(Count(t[|s|..], s), |r| - |s|);
      } else {
        ReplaceLength(t[1..], s, r);
      }
    }
  }

  /**
   * Characterisation of StringUtils.replace: when `s` is non-empty the result
   * is `t` cut at its `Count` leftmost non-overlapping occurrences of `s`,
   * joined with `r`; its length grows by `|r| - |s|` per occurrence.
   */
  lemma ReplaceAllSplitJoin(t: string, s: string, r: string)
    requires |s| > 0
    ensures var ps := Split(t, s);
      Join(ps, s) == t && Leftmost(ps, s) && |ps| == Count(t, s) + 1 && ReplaceAll(t, s, r) == Join(ps, r)
    ensures |ReplaceAll(t, s, r)| == |t| + Count(t, s) * (|r| - |s|)
  {
    ReplaceIsJoin(t, s, r);
    SplitCount(t, s);
    ReplaceLength(t, s, r);
  }

  /** No replacement is made exactly when the search string does not occur. */
  lemma CountZero(t: string, s: string)
    requires |s| > 0
    ensures Count(t, s) == 0 <==> !Contains(t, s)
  {
    SplitCount(t, s);
    if !Contains(t, s) {
      SplitUnique(t, s, [t]);
    }
    var ps := Split(t, s);
    if |ps| == 1 {
      assert Window(ps, s, 0) == t;
      assert forall j :: 0 <= j <= |t| ==> !MatchAt(t, s, j);
    }
  }

  /**
   * A no-op substitution: when the search string is empty or does not occur,
   * StringUtils.replace returns the text unchanged.
   */
  lemma ReplaceNoOp(t: string, s: string, r: string)
    requires |s| == 0 || !Contains(t, s)
    ensures ReplaceAll(t, s, r) == t
  {
    if |s| > 0 {
      SplitUnique(t, s, [t]);
      ReplaceIsJoin(t, s, r);
    }
  }

  /**
   * The text before the first occurrence is kept: the first piece of the
   * split is a prefix of both the text and the result, no occurrence starts
   * inside it, and the first occurrence, if any, starts right after it.
   */
  lemma ReplaceKeepsPrefix(t: string, s: string, r: string)
    requires |s| > 0
    ensures var p := Split(t, s)[0];
      p <= t && p <= ReplaceAll(t, s, r) && NoMatchBetween(t, s, 0, |p|) &&
      (Contains(t, s) <==> MatchAt(t, s, |p|))
  {
    var ps := Split(t, s);
    var p := ps[0];
    ReplaceIsJoin(t, s, r);
    if |ps| == 1 {
      assert Window(ps, s, 0) == t;
      assert forall j :: 0 <= j <= |t| ==> !MatchAt(t, s, j);
    } else {
      JoinLonger(ps, s);
      JoinLonger(ps, r);
      var rest := Join(ps[1..], s);
      assert t == (p + s) + rest;
      assert Window(ps, s, 0) == p + s;
      forall j | 0 <= j < |p| ensures !MatchAt(t, s, j) {
        MatchAtAppend(p + s, rest, s, j);
      }
      assert t[|p|..|p| + |s|] == s;
    }
  }

  /** String.indexOf(s, from): the first index at or after `from` where `s` occurs, or -1. */
  method IndexOf(t: string, s: string, from: nat) returns (k: int)
    ensures k == -1 || (from <= k && MatchAt(t, s, k))
    ensures k == -1 ==> forall j :: from <= j ==> !MatchAt(t, s, j)
    ensures k != -1 ==> NoMatchBetween(t, s, from, k)
  {
    var j := from;
    while j + |s| <= |t|
      invariant from <= j
      invariant NoMatchBetween(t, s, from, j)
    {
      if t[j..j + |s|] == s {
        return j;
      }
      j := j + 1;
    }
    return -1;
  }

  /** Scanning from an index with no occurrence before the next match. */
  lemma {:induction false} ReplaceFromUpTo(t: string, s: string, r: string, start: nat, end: nat)
    requires |s| > 0 && start <= end && MatchAt(t, s, end) && NoMatchBetween(t, s, start, end)
    ensures ReplaceFrom(t[start..], s, r) == t[start..end] + r + ReplaceFrom(t[end + |s|..], s, r)
    decreases end - start
  {
    var u := t[start..];
    PrefixMatch(u, s);
    MatchAtDrop(t, start, s, 0);
    if start == end {
      assert u[|s|..] == t[end + |s|..];
      assert t[start..end] == [];
    } else {
      assert u[1..] == t[start + 1..];
      ReplaceFromUpTo(t, s, r, start + 1, end);
      assert t[start..end] == [t[start]] + t[start + 1..end];
    }
  }

  /** Scanning from an index after which `s` never occurs copies the rest. */
  lemma {:induction false} ReplaceFromNone(t: string, s: string, r: string, start: nat)
    requires |s| > 0 && start <= |t| && forall j :: start <= j ==> !MatchAt(t, s, j)
    ensures ReplaceFrom(t[start..], s, r) == t[start..]
    decreases |t| - start
  {
    var u := t[start..];
    if u != [] {
      PrefixMatch(u, s);
      MatchAtDrop(t, start, s, 0);
      assert u[1..] == t[start + 1..];
      ReplaceFromNone(t, s, r, start + 1);
      assert u == [t[start]] + t[start + 1..];
    }
  }

  /**
   * The loop of StringUtils.replace: find the next occurrence with indexOf,
   * append the text before it and the replacement, continue after it.
   */
  method ReplaceScan(text: string, search: string, replacement: string) returns (r: string)
    ensures r == ReplaceAll(text, search, replacement)
  {
    if |text| == 0 || |search| == 0 {
      return text;
    }
    var start := 0;
    var end := IndexOf(text, search, start);
    if end == -1 {
      ReplaceFromNone(text, search, replacement, 0);
      assert text[0..] == text;
      return text;
    }
    var buf := "";
    assert text[0..] == text;
    while end != -1
      invariant 0 <= start <= |text|
      invariant end != -1 ==> start <= end && MatchAt(text, search, end) && NoMatchBetween(text, search, start, end)
      invariant end == -1 ==> forall j :: start <= j ==> !MatchAt(text, search, j)
      invariant buf + ReplaceFrom(text[start..], search, replacement) == ReplaceFrom(text, search, replacement)
      decreases |text| - start
    {
      ReplaceFromUpTo(text, search, replacement, start, end);
      ghost var tail := ReplaceFrom(text[end + |search|..], search, replacement);
      assert buf + (text[start..end] + replacement + tail) == (buf + text[start..end] + replacement) + tail;
      buf := buf + text[start..end] + replacement;
      start := end + |search|;
      end := IndexOf(text, search, start);
    }
    ReplaceFromNone(text, search, replacement, start);
    buf := buf + text[start..];
    return buf;
  }
}
