/** Sums and multiset unions over a sequence, and the fact that both only
    depend on the multiset of the sequence: what survives the re-sorting of
    the Huffman forest and of the weight table. */
module Bags {

  /** `f(s[0]) + ... + f(s[|s| - 1])`. */
  ghost function SumOf<T>(s: seq<T>, f: T -> int): int
  {
    if s == [] then 0 else SumOf(s[..|s| - 1], f) + f(s[|s| - 1])
  }

  /** The union of the multisets `f(s[0]), ..., f(s[|s| - 1])`. */
  ghost function BagOf<T, U>(s: seq<T>, f: T -> multiset<U>): multiset<U>
  {
    if s == [] then multiset{} else BagOf(s[..|s| - 1], f) + f(s[|s| - 1])
  }

  lemma {:induction false} SumOfAppend<T>(a: seq<T>, b: seq<T>, f: T -> int)
    ensures SumOf(a + b, f) == SumOf(a, f) + SumOf(b, f)
    decreases |b|
  {
    if b == [] {
      assert a + b == a;
    } else {
      assert (a + b)[..|a + b| - 1] == a + b[..|b| - 1];
      SumOfAppend(a, b[..|b| - 1], f);
    }
  }

  lemma {:induction false} BagOfAppend<T, U>(a: seq<T>, b: seq<T>, f: T -> multiset<U>)
    ensures BagOf(a + b, f) == BagOf(a, f) + BagOf(b, f)
    decreases |b|
  {
    if b == [] {
      assert a + b == a;
    } else {
      assert (a + b)[..|a + b| - 1] == a + b[..|b| - 1];
      BagOfAppend(a, b[..|b| - 1], f);
    }
  }

  /** Removing the element at `k` takes `f(s[k])` out of the sum. */
  lemma {:induction false} SumOfRemove<T>(s: seq<T>, k: nat, f: T -> int)
    requires k < |s|
    ensures SumOf(s, f) == SumOf(s[..k] + s[k + 1..], f) + f(s[k])
    decreases |s|
  {
    var n := |s| - 1;
    var r := s[..k] + s[k + 1..];
    if k == n {
      assert r == s[..n];
    } else {
      var t := s[..n];
      SumOfRemove(t, k, f);
      assert r[..|r| - 1] == t[..k] + t[k + 1..];
      assert r[|r| - 1] == s[n];
    }
  }

  lemma {:induction false} BagOfRemove<T, U>(s: seq<T>, k: nat, f: T -> multiset<U>)
    requires k < |s|
    ensures BagOf(s, f) == BagOf(s[..k] + s[k + 1..], f) + f(s[k])
    decreases |s|
  {
    var n := |s| - 1;
    var r := s[..k] + s[k + 1..];
    if k == n {
      assert r == s[..n];
    } else {
      var t := s[..n];
      BagOfRemove(t, k, f);
      assert r[..|r| - 1] == t[..k] + t[k + 1..];
      assert r[|r| - 1] == s[n];
    }
  }

  /** Taking the last element out of `a` and a copy of it out of `b` keeps
      the two multisets equal. */
  lemma RemoveMatching<T>(a: seq<T>, b: seq<T>, k: nat)
    requires multiset(a) == multiset(b) && a != [] && k < |b| && b[k] == a[|a| - 1]
    ensures multiset(a[..|a| - 1]) == multiset(b[..k] + b[k + 1..])
  {
    var n := |a| - 1;
    assert a == a[..n] + [a[n]];
    assert b == b[..k] + [b[k]] + b[k + 1..];
    calc {
      multiset(a[..n]);
      multiset(a) - multiset{a[n]};
      multiset(b) - multiset{b[k]};
      multiset(b[..k]) + multiset(b[k + 1..]);
      multiset(b[..k] + b[k + 1..]);
    }
  }

  /** A permutation has the same sum. */
  lemma {:induction false} SumOfPermutation<T>(a: seq<T>, b: seq<T>, f: T -> int)
    requires multiset(a) == multiset(b)
    ensures SumOf(a, f) == SumOf(b, f)
    decreases |a|
  {
    if a != [] {
      var n := |a| - 1;
      var x := a[n];
      assert x in multiset(a);
      var k :| 0 <= k < |b| && b[k] == x;
      SumOfRemove(b, k, f);
      RemoveMatching(a, b, k);
      SumOfPermutation(a[..n], b[..k] + b[k + 1..], f);
    } else {
      assert b == [];
    }
  }

  /** A permutation has the same union. */
  lemma {:induction false} BagOfPermutation<T, U>(a: seq<T>, b: seq<T>, f: T -> multiset<U>)
    requires multiset(a) == multiset(b)
    ensures BagOf(a, f) == BagOf(b, f)
    decreases |a|
  {
    if a != [] {
      var n := |a| - 1;
      var x := a[n];
      assert x in multiset(a);
      var k :| 0 <= k < |b| && b[k] == x;
      BagOfRemove(b, k, f);
      RemoveMatching(a, b, k);
      BagOfPermutation(a[..n], b[..k] + b[k + 1..], f);
    } else {
      assert b == [];
    }
  }

  /** A union of singletons has one element per entry. */
  lemma {:induction false} BagOfSingletons<T, U>(s: seq<T>, f: T -> multiset<U>)
    requires forall k :: 0 <= k < |s| ==> |f(s[k])| == 1
    ensures |BagOf(s, f)| == |s|
    decreases |s|
  {
    if s != [] {
      BagOfSingletons(s[..|s| - 1], f);
    }
  }
}
