/** `tvj::string`: a `vector<char>` whose slot `size_` is kept at zero by
    `_set_string_end_zero`, with insertion, removal, Knuth-Morris-Pratt
    search and lexicographic comparison. A string argument is passed by its
    contents. */
module Strings {
  import opened Base
  import opened Vectors
  import opened Kmp

  const Bound64: int := 0x1_0000_0000_0000_0000

  /** The comparison of the debug check of `insert_after(index, str)`:
      `index >= size_` compares a `long long` with a `size_t`; on a target
      whose `size_t` is 64 bits wide the index is first converted to
      unsigned 64 bits. (With a 32-bit `size_t` the comparison would be
      signed and no negative index would fault.) The check passes a
      string enumerator to the vector's `error_info`, so a debug build does
      not compile; this is the fault it raises when the call reaches the
      string's own `_error_info`, as evidently intended. */
  function InsertAfterFaultsAsWritten(index: int, size: nat): (faults: bool)
    requires -0x8000_0000_0000_0000 <= index < 0x8000_0000_0000_0000 && size < Bound64
    ensures index >= 0 ==> (faults <==> index >= size)
  {
    (if index < 0 then index + Bound64 else index) >= size
  }

  /** With a 64-bit `size_t`, the comparison of the check puts every
      negative index at fault, though a negative index is documented as
      inserting at the front; in particular `append` on an empty string,
      which passes -1, would fault once the check reaches `_error_info`. */
  lemma NegativeIndexFaultsAsWritten(index: int, size: nat)
    requires -0x8000_0000_0000_0000 <= index < 0 && size <= 0x8000_0000_0000_0000
    ensures InsertAfterFaultsAsWritten(index, size)
  {
  }

  /** Lexicographic order on characters (signed, as `char` is), with a
      proper prefix before the longer word. */
  ghost function LexLess(a: seq<Char8>, b: seq<Char8>): bool
  {
    if a == [] then b != []
    else if b == [] then false
    else if a[0] < b[0] then true
    else if a[0] > b[0] then false
    else LexLess(a[1..], b[1..])
  }

  lemma {:induction false} LexLessIrreflexive(a: seq<Char8>)
    ensures !LexLess(a, a)
  {
    if a != [] {
      LexLessIrreflexive(a[1..]);
    }
  }

  lemma {:induction false} LexLessTransitive(a: seq<Char8>, b: seq<Char8>, c: seq<Char8>)
    requires LexLess(a, b) && LexLess(b, c)
    ensures LexLess(a, c)
  {
    if a != [] && b != [] && c != [] && a[0] == b[0] == c[0] {
      LexLessTransitive(a[1..], b[1..], c[1..]);
    }
  }

  lemma {:induction false} LexLessTotal(a: seq<Char8>, b: seq<Char8>)
    ensures a == b || LexLess(a, b) || LexLess(b, a)
  {
    if a != [] && b != [] && a[0] == b[0] {
      LexLessTotal(a[1..], b[1..]);
      if a[1..] == b[1..] {
        assert a == [a[0]] + a[1..] && b == [b[0]] + b[1..];
      }
    }
  }

  lemma {:induction false} LexLessAsymmetric(a: seq<Char8>, b: seq<Char8>)
    requires LexLess(a, b)
    ensures !LexLess(b, a)
  {
    if a != [] && b != [] && a[0] == b[0] {
      LexLessAsymmetric(a[1..], b[1..]);
    }
  }

  /** A proper prefix comes first. */
  lemma {:induction false} ProperPrefixIsLess(a: seq<Char8>, b: seq<Char8>)
    requires |a| < |b| && a == b[..|a|]
    ensures LexLess(a, b)
  {
    if a != [] {
      assert a[1..] == b[1..][..|a| - 1];
      ProperPrefixIsLess(a[1..], b[1..]);
    }
  }

  /** A common prefix does not decide the order. */
  lemma {:induction false} LexLessSkipsCommonPrefix(a: seq<Char8>, b: seq<Char8>, i: nat)
    requires i <= |a| && i <= |b| && a[..i] == b[..i]
    ensures LexLess(a, b) == LexLess(a[i..], b[i..])
  {
    if i > 0 {
      assert a[0] == a[..i][0] && b[0] == b[..i][0];
      assert a[1..][..i - 1] == a[..i][1..] && b[1..][..i - 1] == b[..i][1..];
      assert a[1..][i - 1..] == a[i..] && b[1..][i - 1..] == b[i..];
      LexLessSkipsCommonPrefix(a[1..], b[1..], i - 1);
    }
  }

  /** The first difference decides the order. */
  lemma FirstDifferenceDecides(a: seq<Char8>, b: seq<Char8>, i: nat)
    requires i < |a| && i < |b| && a[..i] == b[..i] && a[i] != b[i]
    ensures LexLess(a, b) <==> a[i] < b[i]
  {
    LexLessSkipsCommonPrefix(a, b, i);
  }

  /** Without a difference, the shorter word comes first. */
  lemma CommonPrefixDecides(a: seq<Char8>, b: seq<Char8>, i: nat)
    requires (i == |a| || i == |b|) && i <= |a| && i <= |b| && a[..i] == b[..i]
    ensures LexLess(a, b) <==> |a| < |b|
  {
    LexLessSkipsCommonPrefix(a, b, i);
  }

  /** The buffer after `_move(at, |str|)` and the copy loop of
      `insert_after`: `str` spliced in at `at`. */
  lemma SpliceView(pre: seq<Char8>, moved: seq<Char8>, final: seq<Char8>, at: nat, size: nat, str: seq<Char8>)
    requires at <= size && size + |str| <= |pre| && ShiftedBy(pre, moved, at, size, |str|)
    requires |final| == |moved|
    requires forall k :: 0 <= k < |final| && !(at <= k < at + |str|) ==> final[k] == moved[k]
    requires forall k :: 0 <= k < |str| ==> final[at + k] == str[k]
    ensures final[..size + |str|] == pre[..size][..at] + str + pre[..size][at..]
  {
    var r := pre[..size][..at] + str + pre[..size][at..];
    forall k | 0 <= k < size + |str| ensures final[k] == r[k] {
      if k < at {
        assert final[k] == moved[k] == pre[k];
      } else if k < at + |str| {
        assert final[at + (k - at)] == str[k - at];
      } else {
        assert final[k] == moved[k] == pre[k - |str|];
      }
    }
  }

  /** The state of the loop of `count` as written after `count` calls of
      `find`, the next one to start at `location`. */
  ghost predicate CountingAsWritten(t: seq<Char8>, p: seq<Char8>, location: nat, count: nat)
  {
    var n := |t|;
    n > 0 && location <= n + 1
    && (location <= n ==> count == CountBelow(t, p, location))
    && (location == n + 1 ==> count == CountBelow(t, p, n) + 1 && !MatchAt(t, p, n - 1))
    && (location == n ==> count >= 1 && MatchAt(t, p, n - 1))
  }

  lemma CountingAsWrittenStep(t: seq<Char8>, p: seq<Char8>, location: nat, count: nat, f: nat)
    requires CountingAsWritten(t, p, location, count) && location < |t| && f == FirstMatch(t, p, location)
    ensures CountingAsWritten(t, p, 1 + f, count + 1)
  {
    FindFromInside(t, p, location, f);
    if f < |t| {
      assert CountBelow(t, p, f + 1) == count + 1;
    } else {
      assert CountBelow(t, p, |t|) == count;
    }
  }

  lemma CountingAsWrittenEnd(t: seq<Char8>, p: seq<Char8>, location: nat, count: nat)
    requires CountingAsWritten(t, p, location, count) && location >= |t|
    ensures count >= 1
    ensures count - 1 == if MatchAt(t, p, |t| - 1) then Occurrences(t, p) - 1 else Occurrences(t, p)
  {
  }

  class String {
    /** The protected `vector<char>` base. */
    var chars: Vector<Char8>

    ghost predicate Valid()
      reads this, chars
    {
      chars.Valid()
    }

    /** The characters before the terminator slot. */
    function Elements(): seq<Char8>
      reads this, chars, chars.buf
      requires Valid()
    {
      chars.Elements()
    }

    /** `string()` */
    constructor ()
      ensures Valid() && fresh(chars) && fresh(chars.buf)
      ensures Elements() == [] && chars.buf[0] == Nul
    {
      chars := new Vector<Char8>();
      new;
      chars.buf[0] := Nul;
    }

    /** `length` */
    function Length(): (n: nat)
      reads this, chars, chars.buf
      requires Valid()
      ensures n == |Elements()|
    {
      chars.size
    }

    /** `insert_after(index, str)`: `str` goes right after character
        `index`, at the front for any index below 0, and the terminator is
        rewritten. The debug check is the signed comparison
        `index >= size_` the comments describe, raising the string's own
        overflow fault; the unsigned comparison the code writes is
        `InsertAfterFaultsAsWritten`. */
    method InsertAfter(index: int, str: seq<Char8>) returns (r: Result<()>)
      requires Valid()
      modifies chars, chars.buf
      ensures Valid() && chars == old(chars)
      ensures r.Err? <==> index >= old(|Elements()|)
      ensures r.Err? ==> r.fault == Overflow && Elements() == old(Elements())
      ensures index < old(|Elements()|) ==> var at := if index < 0 then 0 else index + 1;
        Elements() == old(Elements())[..at] + str + old(Elements())[at..]
      ensures r.Ok? ==> chars.buf[chars.size] == Nul
    {
      if index >= chars.size {
        return Err(Overflow);
      }
      var at := if index < -1 then 0 else index + 1;
      Reserve(|str|);
      Splice(at, str);
      chars.buf[chars.size] := Nul;
      return Ok(());
    }

    /** The expansion loop of `insert_after`: double the capacity until
        `extra` more characters and the terminator fit. */
    method Reserve(extra: nat)
      requires Valid()
      modifies chars
      ensures Valid() && chars == old(chars) && Elements() == old(Elements())
      ensures chars.buf == old(chars.buf) || fresh(chars.buf)
      ensures chars.size + extra + 1 <= chars.buf.Length
    {
      while chars.size + extra + 1 > chars.buf.Length
        invariant chars.Valid() && chars == old(chars)
        invariant chars.Elements() == old(Elements())
        invariant chars.buf == old(chars.buf) || fresh(chars.buf)
        decreases chars.size + extra + 1 - chars.buf.Length
      {
        chars.Expand();
      }
    }

    /** `_move(at, |str|)`, `size_ += |str|` and the copy loop of
        `insert_after`. */
    method Splice(at: nat, str: seq<Char8>)
      requires Valid() && at <= chars.size && chars.size + |str| + 1 <= chars.buf.Length
      modifies chars, chars.buf
      ensures Valid() && chars == old(chars) && chars.buf == old(chars.buf)
      ensures Elements() == old(Elements())[..at] + str + old(Elements())[at..]
    {
      ghost var pre := chars.buf[..];
      chars.Move(at, |str|);
      ghost var moved := chars.buf[..];
      CopyIn(at, str);
      SpliceView(pre, moved, chars.buf[..], at, chars.size, str);
      chars.size := chars.size + |str|;
    }

    /** The copy loop of `insert_after`: `str` written from slot `at` on. */
    method CopyIn(at: nat, str: seq<Char8>)
      requires Valid() && at + |str| <= chars.buf.Length
      modifies chars.buf
      ensures forall k :: 0 <= k < chars.buf.Length && !(at <= k < at + |str|) ==> chars.buf[k] == old(chars.buf[k])
      ensures forall k :: 0 <= k < |str| ==> chars.buf[at + k] == str[k]
    {
      var i := 0;
      while i != |str|
        invariant 0 <= i <= |str|
        invariant forall k :: 0 <= k < chars.buf.Length && !(at <= k < at + i) ==> chars.buf[k] == old(chars.buf[k])
        invariant forall k :: 0 <= k < i ==> chars.buf[at + k] == str[k]
      {
        chars.buf[at + i] := str[i];
        i := i + 1;
      }
    }

    /** `append(str)`: `insert_after(size_ - 1, str)`. */
    method Append(str: seq<Char8>)
      requires Valid()
      modifies chars, chars.buf
      ensures Valid() && chars == old(chars)
      ensures Elements() == old(Elements()) + str
      ensures chars.buf[chars.size] == Nul
    {
      ghost var n := chars.size;
      var r := InsertAfter(chars.size - 1, str);
      assert old(Elements())[n..] == [];
    }

    /** `append(ch)`: `push_back`, then the terminator. */
    method AppendChar(c: Char8)
      requires Valid()
      modifies chars, chars.buf
      ensures Valid() && chars == old(chars)
      ensures Elements() == old(Elements()) + [c]
      ensures chars.buf[chars.size] == Nul
    {
      chars.PushBack(c);
      chars.buf[chars.size] := Nul;
    }

    /** `remove_at(begin, end)`: the characters `[begin, end)` are removed.
        The terminator is written before `size_` is reduced, so it lands on
        the old end. */
    method RemoveRange(begin: nat, end: nat) returns (r: Result<()>)
      requires Valid()
      modifies chars, chars.buf
      ensures Valid() && chars == old(chars) && chars.buf == old(chars.buf)
      ensures r.Err? <==> end > old(|Elements()|) || end < begin
      ensures r.Err? ==> Elements() == old(Elements())
      ensures r.Err? ==> r.fault == if end > old(|Elements()|) then Overflow else IterRange
      ensures r.Ok? ==> Elements() == old(Elements())[..begin] + old(Elements())[end..]
      ensures r.Ok? ==> chars.buf[old(chars.size)] == Nul
    {
      if end > chars.size {
        return Err(Overflow);
      }
      if end < begin {
        return Err(IterRange);
      }
      ghost var pre := chars.buf[..];
      chars.Move(end, begin - end);
      ghost var moved := chars.buf[..];
      ShiftedLeft(pre, moved, end, chars.size, end - begin);
      chars.buf[chars.size] := Nul;
      assert chars.buf[..chars.size - (end - begin)] == moved[..chars.size - (end - begin)];
      chars.size := chars.size - (end - begin);
      return Ok(());
    }

    /** `c_str`: a fresh array with the characters and a terminating zero. */
    method CStr() returns (r: array<Char8>)
      requires Valid()
      ensures fresh(r) && r[..] == Elements() + [Nul]
    {
      r := new Char8[chars.size + 1];
      var i := 0;
      while i != chars.size
        invariant 0 <= i <= chars.size
        invariant r[..i] == Elements()[..i]
      {
        r[i] := chars.buf[i];
        i := i + 1;
      }
      r[chars.size] := Nul;
      assert r[..] == r[..chars.size] + [r[chars.size]];
    }

    /** `find(str, pos)`: the Knuth-Morris-Pratt scan, with a failure table
        of `|str| + 1` entries. */
    method Find(pattern: seq<Char8>, pos: nat) returns (r: nat)
      requires Valid()
      ensures r == FirstMatch(Elements(), pattern, pos)
    {
      ghost var t := Elements();
      var next := new int[|pattern| + 1];
      ghost var stores := GetNext(pattern, next);
      var i: int := pos;
      var j: int := 0;
      while i < chars.size && j < |pattern|
        invariant forall q :: 0 <= q <= |pattern| ==> next[q] == NextValue(pattern, q)
        invariant Scanned(t, pattern, pos, i, j)
        decreases |t| - i, j + 1
      {
        if j == -1 || chars.buf[i] == pattern[j] {
          ScanAdvance(t, pattern, pos, i, j);
          i := i + 1;
          j := j + 1;
        } else {
          ScanFail(t, pattern, pos, i, j);
          j := next[j];
        }
      }
      r := if j + 1 > |pattern| then i - |pattern| else chars.size;
      ScanEnd(t, pattern, pos, i, j, r);
    }

    /** `_get_next(P, next)`: fills the failure table. `stores` lists the
        indices written, in order: the last one is `|P|`, so the table needs
        `|P| + 1` slots. */
    method GetNext(p: seq<Char8>, next: array<int>) returns (ghost stores: seq<int>)
      requires next.Length == |p| + 1
      modifies next
      ensures forall q :: 0 <= q <= |p| ==> next[q] == NextValue(p, q)
      ensures stores != [] && stores[|stores| - 1] == |p|
      ensures forall k :: 0 <= k < |stores| ==> 0 <= stores[k] <= |p|
    {
      var j := 0;
      next[0] := -1;
      stores := [0];
      var k := -1;
      while j < |p|
        invariant 0 <= j <= |p| && -1 <= k < j
        invariant forall q :: 0 <= q <= j ==> next[q] == NextValue(p, q)
        invariant k == -1 || Border(p[..j], k)
        invariant j < |p| ==> NoBorderAbove(p[..j + 1], k + 1)
        invariant stores != [] && stores[|stores| - 1] == j
        invariant forall q :: 0 <= q < |stores| ==> 0 <= stores[q] <= j
        decreases |p| - j, k + 1
      {
        if k == -1 || p[j] == p[k] {
          if k >= 0 {
            BorderExtend(p, j, k);
          }
          NextStep(p, j, k);
          k := k + 1;
          j := j + 1;
          next[j] := k;
          stores := stores + [j];
        } else {
          FailureStep(p, j, k);
          k := next[k];
        }
      }
    }

    /** `contains(str)`: `find(str)` differs from `size()`. */
    method Contains(pattern: seq<Char8>) returns (b: bool)
      requires Valid()
      ensures b <==> exists s :: 0 <= s < |Elements()| && MatchAt(Elements(), pattern, s)
    {
      var f := Find(pattern, 0);
      b := f != chars.size;
      if b && |pattern| == 0 {
        assert MatchAt(Elements(), pattern, 0);
      }
    }

    /** `count(str)` as written: `location_ = 1 + find(str, location_)`
        until the location reaches the end, counting every call, then one is
        subtracted. An occurrence at the last position ends the loop without
        the extra unsuccessful call, so it is lost; that can only happen to a
        pattern of at most one character. */
    method CountAsWritten(pattern: seq<Char8>) returns (r: nat)
      requires Valid()
      ensures |Elements()| == 0 ==> r == 0
      ensures |Elements()| > 0 ==>
        r == if MatchAt(Elements(), pattern, |Elements()| - 1) then Occurrences(Elements(), pattern) - 1
             else Occurrences(Elements(), pattern)
    {
      ghost var t := Elements();
      var n := chars.size;
      if n == 0 {
        return 0;
      }
      var count := 0;
      var location := 0;
      while location < n
        invariant CountingAsWritten(t, pattern, location, count)
        decreases n + 1 - location
      {
        var f := Find(pattern, location);
        CountingAsWrittenStep(t, pattern, location, count, f);
        location := 1 + f;
        count := count + 1;
      }
      CountingAsWrittenEnd(t, pattern, location, count);
      return count - 1;
    }

    /** `count` with the loop stopped by the unsuccessful `find` rather than
        by the location: every occurrence is counted. */
    method Count(pattern: seq<Char8>) returns (r: nat)
      requires Valid()
      ensures r == Occurrences(Elements(), pattern)
    {
      ghost var t := Elements();
      var n := chars.size;
      if n == 0 {
        return 0;
      }
      var count := 0;
      var location := Find(pattern, 0);
      FindFromInside(t, pattern, 0, location);
      if location == n {
        return 0;
      }
      while location < n
        invariant location <= n
        invariant location < n ==> MatchAt(t, pattern, location) && count + 1 == CountBelow(t, pattern, location + 1)
        invariant location == n ==> count == CountBelow(t, pattern, n)
        decreases n - location
      {
        count := count + 1;
        var f := Find(pattern, location + 1);
        if location + 1 < n {
          FindFromInside(t, pattern, location + 1, f);
        } else {
          assert f == n by {
            assert |pattern| > 0 || f == location + 1;
          }
        }
        location := f;
      }
      return count;
    }

    /** `operator<` */
    method Less(other: seq<Char8>) returns (b: bool)
      requires Valid()
      ensures b == LexLess(Elements(), other)
    {
      var i := 0;
      while i != chars.size && i != |other|
        invariant 0 <= i <= chars.size && i <= |other|
        invariant Elements()[..i] == other[..i]
      {
        if chars.buf[i] < other[i] {
          FirstDifferenceDecides(Elements(), other, i);
          return true;
        }
        if chars.buf[i] > other[i] {
          FirstDifferenceDecides(Elements(), other, i);
          return false;
        }
        assert Elements()[..i + 1] == Elements()[..i] + [chars.buf[i]];
        i := i + 1;
      }
      CommonPrefixDecides(Elements(), other, i);
      return chars.size < |other|;
    }

    /** `operator>`: the mirror of `operator<`. */
    method Greater(other: seq<Char8>) returns (b: bool)
      requires Valid()
      ensures b == LexLess(other, Elements())
    {
      var i := 0;
      while i != chars.size && i != |other|
        invariant 0 <= i <= chars.size && i <= |other|
        invariant Elements()[..i] == other[..i]
      {
        if chars.buf[i] > other[i] {
          FirstDifferenceDecides(other, Elements(), i);
          return true;
        }
        if chars.buf[i] < other[i] {
          FirstDifferenceDecides(other, Elements(), i);
          return false;
        }
        assert Elements()[..i + 1] == Elements()[..i] + [chars.buf[i]];
        i := i + 1;
      }
      CommonPrefixDecides(other, Elements(), i);
      return chars.size > |other|;
    }

    /** `operator<=`: not greater. */
    method LessEq(other: seq<Char8>) returns (b: bool)
      requires Valid()
      ensures b == !LexLess(other, Elements())
    {
      var i := 0;
      while i != chars.size && i != |other|
        invariant 0 <= i <= chars.size && i <= |other|
        invariant Elements()[..i] == other[..i]
      {
        if chars.buf[i] < other[i] {
          FirstDifferenceDecides(other, Elements(), i);
          return true;
        }
        if chars.buf[i] > other[i] {
          FirstDifferenceDecides(other, Elements(), i);
          return false;
        }
        assert Elements()[..i + 1] == Elements()[..i] + [chars.buf[i]];
        i := i + 1;
      }
      CommonPrefixDecides(other, Elements(), i);
      return chars.size <= |other|;
    }

    /** `operator>=`: not less. */
    method GreaterEq(other: seq<Char8>) returns (b: bool)
      requires Valid()
      ensures b == !LexLess(Elements(), other)
    {
      var i := 0;
      while i != chars.size && i != |other|
        invariant 0 <= i <= chars.size && i <= |other|
        invariant Elements()[..i] == other[..i]
      {
        if chars.buf[i] > other[i] {
          FirstDifferenceDecides(Elements(), other, i);
          return true;
        }
        if chars.buf[i] < other[i] {
          FirstDifferenceDecides(Elements(), other, i);
          return false;
        }
        assert Elements()[..i + 1] == Elements()[..i] + [chars.buf[i]];
        i := i + 1;
      }
      CommonPrefixDecides(Elements(), other, i);
      return chars.size >= |other|;
    }
  }

  /** The state of the search loop of `find` after it has looked at
      `t[..i]` and matched `j` characters of the pattern (`j == -1` after a
      failure on the first character): no occurrence starts before
      `i - j`. */
  ghost predicate Scanned(t: seq<Char8>, p: seq<Char8>, pos: nat, i: int, j: int)
  {
    pos <= i && -1 <= j <= |p|
    && (i <= |t| || (i == pos && j == 0))
    && (|p| == 0 ==> i == pos && j == 0)
    && (j >= 0 && i <= |t| ==> i - j >= pos && t[i - j..i] == p[..j])
    && (forall s :: pos <= s < i - j ==> !MatchAt(t, p, s))
  }

  /** A matching character (or the restart after `-1`) extends the match. */
  lemma ScanAdvance(t: seq<Char8>, p: seq<Char8>, pos: nat, i: int, j: int)
    requires Scanned(t, p, pos, i, j) && i < |t| && j < |p|
    requires j == -1 || t[i] == p[j]
    ensures Scanned(t, p, pos, i + 1, j + 1)
  {
    if j >= 0 {
      assert t[i - j..i + 1] == t[i - j..i] + [t[i]];
    }
  }

  /** A mismatch falls back to `next[j]` without skipping an occurrence. */
  lemma ScanFail(t: seq<Char8>, p: seq<Char8>, pos: nat, i: int, j: int)
    requires Scanned(t, p, pos, i, j) && i < |t| && 0 <= j < |p| && t[i] != p[j]
    ensures Scanned(t, p, pos, i, NextValue(p, j))
  {
    if j == 0 {
      FirstCharMismatch(t, p, i);
    } else {
      MismatchShift(t, p, i, j);
    }
  }

  /** What the search loop of `find` has found when it stops: the whole
      pattern matched, ending at `i`, or the text exhausted. */
  lemma ScanEnd(t: seq<Char8>, p: seq<Char8>, pos: nat, i: int, j: int, r: int)
    requires Scanned(t, p, pos, i, j) && (i >= |t| || j >= |p|)
    requires r == if j + 1 > |p| then i - |p| else |t|
    ensures r == FirstMatch(t, p, pos)
  {
    if j + 1 > |p| {
      assert p[..j] == p;
    } else {
      forall s | pos <= s ensures !MatchAt(t, p, s) {
        if s >= i - j {
          assert s + |p| > |t|;
        }
      }
    }
    FirstMatchUnique(t, p, pos, r);
  }

  /** One matching step of `_get_next`: after extending the border `k` of
      `p[..j]`, `k + 1` is the longest border of `p[..j + 1]`, and no border
      of `p[..j + 2]` is longer than `k + 2`. */
  lemma NextStep(p: seq<Char8>, j: nat, k: int)
    requires j < |p| && -1 <= k < j
    requires k == -1 || Border(p[..j + 1], k + 1)
    requires NoBorderAbove(p[..j + 1], k + 1)
    ensures NextValue(p, j + 1) == k + 1
    ensures j + 1 < |p| ==> NoBorderAbove(p[..j + 2], k + 2)
  {
    var w := p[..j + 1];
    if k == -1 {
      assert w[..0] == w[|w|..];
    }
    assert Border(w, k + 1);
    if j + 1 < |p| {
      var v := p[..j + 2];
      assert v[..j + 1] == w;
      forall b | k + 2 < b < |v| ensures !Border(v, b) {
        ShrinkIsNotBorder(p, j + 1, b, k + 1);
      }
    }
  }

  /** When `p[..j]` has no border longer than `m`, then `p[..j + 1]` has
      none longer than `m + 1`. */
  lemma ShrinkIsNotBorder(p: seq<Char8>, j: nat, b: nat, m: nat)
    requires j < |p| && b > m + 1 && NoBorderAbove(p[..j], m)
    ensures !Border(p[..j + 1], b)
  {
    if Border(p[..j + 1], b) {
      BorderShrink(p, j, b);
    }
  }

  /** One failing step of `_get_next`: moving `k` to `next[k]` keeps `k` a
      border of `p[..j]` and skips no border of `p[..j + 1]`. */
  lemma FailureStep(p: seq<Char8>, j: nat, k: nat)
    requires k < j < |p| && Border(p[..j], k) && p[j] != p[k]
    requires NoBorderAbove(p[..j + 1], k + 1)
    ensures NextValue(p, k) == -1 || Border(p[..j], NextValue(p, k))
    ensures NoBorderAbove(p[..j + 1], NextValue(p, k) + 1)
  {
    var w := p[..j];
    assert w[..k] == p[..k];
    var m := NextValue(p, k);
    if m >= 0 {
      BorderOfBorder(w, k, m);
    }
    var v := p[..j + 1];
    forall b | m + 1 < b < |v| ensures !Border(v, b) {
      FailureSkipsNoBorder(p, j, k, b);
    }
  }

  lemma FailureSkipsNoBorder(p: seq<Char8>, j: nat, k: nat, b: nat)
    requires k < j < |p| && Border(p[..j], k) && p[j] != p[k]
    requires NoBorderAbove(p[..j + 1], k + 1)
    requires NextValue(p, k) + 1 < b <= j
    ensures !Border(p[..j + 1], b)
  {
    if Border(p[..j + 1], b) {
      BorderShrink(p, j, b);
      ShorterBorderOfPrefix(p, j, k, b - 1);
    }
  }

  /** A border of `p[..j]` shorter than its border `k` is a border of
      `p[..k]`. */
  lemma ShorterBorderOfPrefix(p: seq<Char8>, j: nat, k: nat, c: nat)
    requires k < j <= |p| && Border(p[..j], k) && Border(p[..j], c) && c < k
    ensures Border(p[..k], c)
  {
    var w := p[..j];
    assert w[..k] == p[..k];
    BorderOfShorterPrefix(w, k, c);
  }
}
