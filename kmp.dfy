/** The mathematics behind the Knuth-Morris-Pratt search of `tvj::string`:
    borders of a word, occurrences of a pattern in a text, and the facts the
    search loop and the failure-table loop rely on. */
module Kmp {
  import opened Base

  /** `b` is the length of a proper border of `w`: a prefix of `w`, shorter
      than `w`, that is also a suffix of it. */
  ghost predicate Border(w: seq<Char8>, b: int)
  {
    0 <= b < |w| && w[..b] == w[|w| - b..]
  }

  /** The longest proper border among the lengths `[0, c]`. */
  ghost function LongestBorderUpTo(w: seq<Char8>, c: nat): (b: nat)
    requires c < |w|
    ensures b <= c && Border(w, b)
    ensures forall d :: b < d <= c ==> !Border(w, d)
  {
    if c == 0 || w[..c] == w[|w| - c..] then c else LongestBorderUpTo(w, c - 1)
  }

  /** No proper border of `w` is longer than `m`. */
  ghost predicate NoBorderAbove(w: seq<Char8>, m: int)
  {
    forall b :: m < b < |w| ==> !Border(w, b)
  }

  /** The length of the longest proper border of a non-empty word. */
  ghost function LongestBorder(w: seq<Char8>): (b: nat)
    requires |w| >= 1
    ensures Border(w, b) && NoBorderAbove(w, b)
  {
    LongestBorderUpTo(w, |w| - 1)
  }

  /** The entry `next[t]` of the failure table of `p`: -1 for the empty
      prefix, otherwise the longest proper border of `p[..t]`. */
  ghost function NextValue(p: seq<Char8>, t: nat): (v: int)
    requires t <= |p|
    ensures -1 <= v < t
    ensures t == 0 <==> v == -1
  {
    if t == 0 then -1 else LongestBorder(p[..t])
  }

  /** A border can be extended by one character when the character after
      the prefix equals the next character of the word. */
  lemma BorderExtend(p: seq<Char8>, j: nat, k: nat)
    requires j < |p| && Border(p[..j], k) && p[k] == p[j]
    ensures Border(p[..j + 1], k + 1)
  {
    var w, v := p[..j], p[..j + 1];
    assert w[..k] == p[..k] && w[j - k..] == p[j - k..j];
    assert v[..k + 1] == p[..k] + [p[k]];
    assert v[j - k..] == p[j - k..j] + [p[j]];
  }

  /** A non-empty border of `p[..j + 1]` comes from a border of `p[..j]`
      followed by the character `p[j]`. */
  lemma BorderShrink(p: seq<Char8>, j: nat, b: nat)
    requires j < |p| && Border(p[..j + 1], b) && b >= 1
    ensures Border(p[..j], b - 1) && p[b - 1] == p[j]
  {
    var w, v := p[..j], p[..j + 1];
    assert v[..b] == p[..b - 1] + [p[b - 1]];
    assert v[j + 1 - b..] == p[j + 1 - b..j] + [p[j]];
    assert w[..b - 1] == p[..b - 1] && w[j - (b - 1)..] == p[j + 1 - b..j];
  }

  /** A border shorter than another border `k` is a border of the prefix of
      length `k`. */
  lemma BorderOfShorterPrefix(w: seq<Char8>, k: nat, c: nat)
    requires Border(w, k) && Border(w, c) && c < k
    ensures Border(w[..k], c)
  {
    var n := |w|;
    assert w[..k][..c] == w[..c];
    assert w[..k][k - c..] == w[n - k..][k - c..];
    assert w[n - k..][k - c..] == w[n - c..];
  }

  /** A border of a border is a border. */
  lemma BorderOfBorder(w: seq<Char8>, k: nat, c: nat)
    requires Border(w, k) && Border(w[..k], c)
    ensures Border(w, c)
  {
    var n := |w|;
    assert w[..c] == w[..k][..c];
    assert w[..k][k - c..] == w[n - k..][k - c..];
    assert w[n - k..][k - c..] == w[n - c..];
  }

  /** The pattern occurs in the text at position `s`. */
  ghost predicate MatchAt(t: seq<Char8>, p: seq<Char8>, s: int)
  {
    0 <= s && s + |p| <= |t| && t[s..s + |p|] == p
  }

  /** What `find(str, pos)` returns: the first occurrence at or after `pos`,
      or the length of the text when there is none; an empty pattern is
      found at `pos` itself. */
  ghost function FirstMatch(t: seq<Char8>, p: seq<Char8>, pos: nat): (r: nat)
    ensures |p| == 0 ==> r == pos
    ensures |p| > 0 ==> r == |t| || (pos <= r && MatchAt(t, p, r))
    ensures forall s :: pos <= s < r ==> !MatchAt(t, p, s)
    decreases |t| - pos
  {
    if |p| == 0 then pos
    else if pos + |p| > |t| then |t|
    else if t[pos..pos + |p|] == p then pos
    else FirstMatch(t, p, pos + 1)
  }

  /** Every result with the properties of `FirstMatch` is `FirstMatch`. */
  lemma FirstMatchUnique(t: seq<Char8>, p: seq<Char8>, pos: nat, r: nat)
    requires |p| == 0 ==> r == pos
    requires |p| > 0 ==> r == |t| || (pos <= r && MatchAt(t, p, r))
    requires forall s :: pos <= s < r ==> !MatchAt(t, p, s)
    requires |p| > 0 && r == |t| ==> forall s :: pos <= s ==> !MatchAt(t, p, s)
    ensures r == FirstMatch(t, p, pos)
  {
  }

  /** A mismatch on the first character rules the position out. */
  lemma FirstCharMismatch(t: seq<Char8>, p: seq<Char8>, i: nat)
    requires 1 <= |p| && i < |t| && t[i] != p[0]
    ensures !MatchAt(t, p, i)
  {
    if i + |p| <= |t| {
      assert t[i..i + |p|][0] == t[i];
    }
  }

  /** At a mismatch after `j` matched characters, the search may restart
      from the longest border of `p[..j]`: it is still matched, and no
      occurrence starts in between. */
  lemma MismatchShift(t: seq<Char8>, p: seq<Char8>, i: nat, j: nat)
    requires 1 <= j < |p| && j <= i < |t|
    requires t[i - j..i] == p[..j] && t[i] != p[j]
    ensures t[i - LongestBorder(p[..j])..i] == p[..LongestBorder(p[..j])]
    ensures forall s :: i - j <= s < i - LongestBorder(p[..j]) ==> !MatchAt(t, p, s)
  {
    var w := p[..j];
    var b := LongestBorder(w);
    assert t[i - b..i] == t[i - j..i][j - b..];
    assert w[..b] == p[..b];
    forall s | i - j <= s < i - b ensures !MatchAt(t, p, s) {
      MatchInsideWindow(t, p, i, j, s);
    }
  }

  /** An occurrence starting inside the matched window `[i - j, i)` either
      starts at its beginning, and then matches `t[i]`, or shows a border of
      `p[..j]` as long as the rest of the window. */
  lemma MatchInsideWindow(t: seq<Char8>, p: seq<Char8>, i: nat, j: nat, s: nat)
    requires 1 <= j < |p| && j <= i < |t|
    requires t[i - j..i] == p[..j]
    requires i - j <= s < i
    ensures MatchAt(t, p, s) ==> if i - s == j then t[i] == p[j] else Border(p[..j], i - s)
  {
    if MatchAt(t, p, s) {
      var q := i - s;
      var w := p[..j];
      if q == j {
        assert t[i] == t[s..s + |p|][j];
      } else {
        assert t[s..i] == t[s..s + |p|][..q] == p[..q];
        assert t[s..i] == t[i - j..i][j - q..];
        assert w[..q] == p[..q];
      }
    }
  }

  /** The number of occurrence positions in `[0, hi)`. */
  ghost function CountBelow(t: seq<Char8>, p: seq<Char8>, hi: nat): (n: nat)
    ensures n <= hi
  {
    if hi == 0 then 0 else CountBelow(t, p, hi - 1) + (if MatchAt(t, p, hi - 1) then 1 else 0)
  }

  /** One call of `find` from `loc` inside the text, as the counting loop
      sees it. */
  lemma FindFromInside(t: seq<Char8>, p: seq<Char8>, loc: nat, f: nat)
    requires loc < |t| && f == FirstMatch(t, p, loc)
    ensures loc <= f <= |t|
    ensures f < |t| ==> MatchAt(t, p, f) && CountBelow(t, p, f + 1) == CountBelow(t, p, loc) + 1
    ensures f == |t| ==> CountBelow(t, p, f) == CountBelow(t, p, loc) && !MatchAt(t, p, |t| - 1)
  {
    if |p| == 0 {
      assert t[f..f] == p;
    }
    CountBelowFlat(t, p, loc, f);
  }

  /** The number of (possibly overlapping) occurrences of `p` that start
      inside the text. */
  ghost function Occurrences(t: seq<Char8>, p: seq<Char8>): nat
  {
    CountBelow(t, p, |t|)
  }

  /** No occurrence in `[lo, hi)` means the count does not change there. */
  lemma {:induction false} CountBelowFlat(t: seq<Char8>, p: seq<Char8>, lo: nat, hi: nat)
    requires lo <= hi
    requires forall s :: lo <= s < hi ==> !MatchAt(t, p, s)
    ensures CountBelow(t, p, hi) == CountBelow(t, p, lo)
    decreases hi - lo
  {
    if lo < hi {
      CountBelowFlat(t, p, lo, hi - 1);
    }
  }

  /** A pattern of two or more characters cannot start at the last position. */
  lemma NoLongMatchAtEnd(t: seq<Char8>, p: seq<Char8>)
    requires |t| >= 1 && |p| >= 2
    ensures !MatchAt(t, p, |t| - 1)
  {
  }
}
