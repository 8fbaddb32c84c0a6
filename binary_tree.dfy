/** `tvj::binary_tree`: nodes linked by parent and child pointers under a
    sentinel `root_parent_`, with the in-order listing `sequence_in_` kept
    beside them. Nodes live in an arena: node `h` is the `h`-th node
    allocated, `Nil` stands for `nullptr` and `Sentinel` for
    `&root_parent_`. No node is ever unlinked, so a child is always
    allocated after its parent. */
module BinaryTrees {
  import opened Base
  import opened Stacks

  const Nil: int := -1
  const Sentinel: int := -2

  /** `c` is `nullptr` or a node allocated after `h`. */
  ghost predicate Child(n: nat, h: int, c: int)
  {
    c == Nil || h < c < n
  }

  /** The child links of an arena of `|left|` nodes. */
  ghost predicate Shape(left: seq<int>, right: seq<int>)
  {
    |left| == |right| &&
    forall h :: 0 <= h < |left| ==> Child(|left|, h, left[h]) && Child(|left|, h, right[h])
  }

  /** The in-order listing (left subtree, node, right subtree) of the
      subtree under `g`. */
  ghost function InOrderOf(left: seq<int>, right: seq<int>, g: int): seq<int>
    requires Shape(left, right) && (g == Nil || 0 <= g < |left|)
    decreases if g < 0 then 0 else |left| - g + 1
  {
    if g == Nil then [] else InOrderOf(left, right, left[g]) + [g] + InOrderOf(left, right, right[g])
  }

  /** A subtree lists only nodes allocated no earlier than its root. */
  lemma {:induction false} InOrderBounds(left: seq<int>, right: seq<int>, g: int)
    requires Shape(left, right) && (g == Nil || 0 <= g < |left|)
    ensures forall x :: x in InOrderOf(left, right, g) ==> g <= x < |left|
    decreases if g < 0 then 0 else |left| - g + 1
  {
    if g != Nil {
      InOrderBounds(left, right, left[g]);
      InOrderBounds(left, right, right[g]);
    }
  }

  /** The pointer graph: every node but the first hangs under an earlier
      node that points back at it, the first hangs under the sentinel, and
      no node is both children of its parent. */
  ghost predicate Linked(left: seq<int>, right: seq<int>, parent: seq<int>)
  {
    Shape(left, right) && |parent| == |left|
    && (|parent| > 0 ==> parent[0] == Sentinel)
    && (forall h :: 0 < h < |parent| ==> 0 <= parent[h] < h && (left[parent[h]] == h || right[parent[h]] == h))
    && (forall h :: 0 <= h < |left| && left[h] != Nil ==> parent[left[h]] == h)
    && (forall h :: 0 <= h < |right| && right[h] != Nil ==> parent[right[h]] == h && right[h] != left[h])
  }

  /** No entry occurs twice. */
  ghost predicate Distinct(s: seq<int>)
  {
    forall a, b :: 0 <= a < b < |s| ==> s[a] != s[b]
  }

  /** `s` is the in-order listing of the tree under `root` and holds every
      node exactly once. */
  ghost predicate InOrderView(left: seq<int>, right: seq<int>, root: int, s: seq<int>)
    requires Shape(left, right)
  {
    (root == Nil || 0 <= root < |left|)
    && s == InOrderOf(left, right, root)
    && (forall k :: 0 <= k < |s| ==> 0 <= s[k] < |left|)
    && Distinct(s)
    && forall h :: 0 <= h < |left| ==> h in s
  }

  /** `s` with `n` inserted right before each occurrence of `h`. */
  ghost function WithNewBefore(s: seq<int>, h: int, n: int): seq<int>
  {
    if s == [] then [] else (if s[0] == h then [n, h] else [s[0]]) + WithNewBefore(s[1..], h, n)
  }

  /** `s` with `n` inserted right after each occurrence of `h`. */
  ghost function WithNewAfter(s: seq<int>, h: int, n: int): seq<int>
  {
    if s == [] then [] else (if s[0] == h then [h, n] else [s[0]]) + WithNewAfter(s[1..], h, n)
  }

  lemma {:induction false} WithNewConcat(a: seq<int>, b: seq<int>, h: int, n: int)
    ensures WithNewBefore(a + b, h, n) == WithNewBefore(a, h, n) + WithNewBefore(b, h, n)
    ensures WithNewAfter(a + b, h, n) == WithNewAfter(a, h, n) + WithNewAfter(b, h, n)
  {
    if a != [] {
      assert (a + b)[1..] == a[1..] + b;
      WithNewConcat(a[1..], b, h, n);
    } else {
      assert a + b == b;
    }
  }

  lemma {:induction false} WithNewAbsent(s: seq<int>, h: int, n: int)
    requires h !in s
    ensures WithNewBefore(s, h, n) == s && WithNewAfter(s, h, n) == s
  {
    if s != [] {
      WithNewAbsent(s[1..], h, n);
      assert s == [s[0]] + s[1..];
    }
  }

  /** In a listing without repetitions the insertion happens at the one
      position of `h`. */
  lemma WithNewAt(s: seq<int>, i: nat, n: int)
    requires Distinct(s) && i < |s|
    ensures WithNewBefore(s, s[i], n) == s[..i] + [n] + s[i..]
    ensures WithNewAfter(s, s[i], n) == s[..i + 1] + [n] + s[i + 1..]
  {
    var h, a, b := s[i], s[..i], s[i + 1..];
    OnlyOnce(s, i);
    assert s == a + ([h] + b);
    WithNewAround(a, h, b, n);
    assert s[..i] + [n] + s[i..] == a + ([n, h] + b);
    assert s[..i + 1] + [n] + s[i + 1..] == a + ([h, n] + b);
  }

  /** The insertions around the one occurrence of `h` between `a` and `b`. */
  lemma {:induction false} WithNewAround(a: seq<int>, h: int, b: seq<int>, n: int)
    requires h !in a && h !in b
    ensures WithNewBefore(a + ([h] + b), h, n) == a + ([n, h] + b)
    ensures WithNewAfter(a + ([h] + b), h, n) == a + ([h, n] + b)
  {
    if a == [] {
      assert a + ([h] + b) == [h] + b;
      assert ([h] + b)[1..] == b;
      WithNewAbsent(b, h, n);
    } else {
      assert (a + ([h] + b))[0] == a[0];
      assert (a + ([h] + b))[1..] == a[1..] + ([h] + b);
      WithNewAround(a[1..], h, b, n);
      assert a + ([n, h] + b) == [a[0]] + (a[1..] + ([n, h] + b));
      assert a + ([h, n] + b) == [a[0]] + (a[1..] + ([h, n] + b));
    }
  }

  /** An entry of a listing without repetitions occurs nowhere else. */
  lemma OnlyOnce(s: seq<int>, i: nat)
    requires Distinct(s) && i < |s|
    ensures s[i] !in s[..i] && s[i] !in s[i + 1..]
  {
    forall k | 0 <= k < |s| && k != i ensures s[k] != s[i] {
      if k < i {
        assert s[k] != s[i];
      } else {
        assert s[i] != s[k];
      }
    }
  }

  lemma WithNewSingle(h: int, n: int)
    ensures WithNewBefore([h], h, n) == [n, h] && WithNewAfter([h], h, n) == [h, n]
  {
    assert [h][1..] == [];
  }

  /** The child links after a new leaf `|left|` is linked under `h`, on
      the left or on the right. */
  lemma LinkShape(left: seq<int>, right: seq<int>, h: int, onLeft: bool)
    requires Shape(left, right) && 0 <= h < |left| && (if onLeft then left[h] else right[h]) == Nil
    ensures onLeft ==> Shape(left[h := |left|] + [Nil], right + [Nil])
    ensures !onLeft ==> Shape(left + [Nil], right[h := |left|] + [Nil])
  {
    var n := |left|;
    var l2 := if onLeft then left[h := n] + [Nil] else left + [Nil];
    var r2 := if onLeft then right + [Nil] else right[h := n] + [Nil];
    forall k | 0 <= k < |l2| ensures Child(|l2|, k, l2[k]) && Child(|l2|, k, r2[k]) {
      if k < n {
        assert Child(n, k, left[k]) && Child(n, k, right[k]);
      }
    }
  }

  /** Linking a new leaf `n` as the left child of a node `h` without one
      puts `n` right before `h` in the in-order listing of every subtree. */
  lemma {:induction false} LinkLeftInOrder(left: seq<int>, right: seq<int>, h: int, l2: seq<int>, r2: seq<int>, g: int)
    requires Shape(left, right) && 0 <= h < |left| && left[h] == Nil
    requires l2 == left[h := |left|] + [Nil] && r2 == right + [Nil] && Shape(l2, r2)
    requires g == Nil || 0 <= g < |left|
    ensures InOrderOf(l2, r2, g) == WithNewBefore(InOrderOf(left, right, g), h, |left|)
    decreases if g < 0 then 0 else |left| - g + 1
  {
    if g != Nil {
      LinkLeftInOrder(left, right, h, l2, r2, left[g]);
      LinkLeftInOrder(left, right, h, l2, r2, right[g]);
      LinkLeftStep(left, right, h, l2, r2, g);
    }
  }

  /** One node of `LinkLeftInOrder`, given the claim for its children. */
  lemma LinkLeftStep(left: seq<int>, right: seq<int>, h: int, l2: seq<int>, r2: seq<int>, g: int)
    requires Shape(left, right) && 0 <= h < |left| && left[h] == Nil
    requires l2 == left[h := |left|] + [Nil] && r2 == right + [Nil] && Shape(l2, r2)
    requires 0 <= g < |left|
    requires InOrderOf(l2, r2, left[g]) == WithNewBefore(InOrderOf(left, right, left[g]), h, |left|)
    requires InOrderOf(l2, r2, right[g]) == WithNewBefore(InOrderOf(left, right, right[g]), h, |left|)
    ensures InOrderOf(l2, r2, g) == WithNewBefore(InOrderOf(left, right, g), h, |left|)
  {
    var n := |left|;
    var lo, hi := InOrderOf(left, right, left[g]), InOrderOf(left, right, right[g]);
    assert WithNewBefore(InOrderOf(left, right, g), h, n) == WithNewBefore(lo, h, n) + WithNewBefore([g], h, n) + WithNewBefore(hi, h, n) by {
      assert InOrderOf(left, right, g) == lo + [g] + hi;
      WithNewConcat(lo + [g], hi, h, n);
      WithNewConcat(lo, [g], h, n);
    }
    if g == h {
      LinkLeftAtNode(left, right, h, l2, r2);
    } else {
      assert InOrderOf(l2, r2, g) == InOrderOf(l2, r2, left[g]) + [g] + InOrderOf(l2, r2, right[g]) by {
        assert l2[g] == left[g] && r2[g] == right[g];
      }
      assert WithNewBefore([g], h, n) == [g];
    }
  }

  /** At the node `h` itself the new leaf is its whole left subtree. */
  lemma LinkLeftAtNode(left: seq<int>, right: seq<int>, h: int, l2: seq<int>, r2: seq<int>)
    requires Shape(left, right) && 0 <= h < |left| && left[h] == Nil
    requires l2 == left[h := |left|] + [Nil] && r2 == right + [Nil] && Shape(l2, r2)
    requires InOrderOf(l2, r2, right[h]) == WithNewBefore(InOrderOf(left, right, right[h]), h, |left|)
    ensures InOrderOf(l2, r2, h) == WithNewBefore(InOrderOf(left, right, left[h]), h, |left|)
      + WithNewBefore([h], h, |left|) + WithNewBefore(InOrderOf(left, right, right[h]), h, |left|)
  {
    var n := |left|;
    var hi := InOrderOf(left, right, right[h]);
    assert WithNewBefore(hi, h, n) == hi by {
      InOrderBounds(left, right, right[h]);
      WithNewAbsent(hi, h, n);
    }
    assert InOrderOf(l2, r2, n) == [n] by {
      assert l2[n] == Nil && r2[n] == Nil;
    }
    assert InOrderOf(l2, r2, h) == [n] + [h] + hi by {
      assert l2[h] == n && r2[h] == right[h];
    }
    WithNewSingle(h, n);
  }

  /** Linking a new leaf `n` as the right child of a node `h` without one
      puts `n` right after `h` in the in-order listing of every subtree. */
  lemma {:induction false} LinkRightInOrder(left: seq<int>, right: seq<int>, h: int, l2: seq<int>, r2: seq<int>, g: int)
    requires Shape(left, right) && 0 <= h < |left| && right[h] == Nil
    requires l2 == left + [Nil] && r2 == right[h := |left|] + [Nil] && Shape(l2, r2)
    requires g == Nil || 0 <= g < |left|
    ensures InOrderOf(l2, r2, g) == WithNewAfter(InOrderOf(left, right, g), h, |left|)
    decreases if g < 0 then 0 else |left| - g + 1
  {
    if g != Nil {
      LinkRightInOrder(left, right, h, l2, r2, left[g]);
      LinkRightInOrder(left, right, h, l2, r2, right[g]);
      LinkRightStep(left, right, h, l2, r2, g);
    }
  }

  /** One node of `LinkRightInOrder`, given the claim for its children. */
  lemma LinkRightStep(left: seq<int>, right: seq<int>, h: int, l2: seq<int>, r2: seq<int>, g: int)
    requires Shape(left, right) && 0 <= h < |left| && right[h] == Nil
    requires l2 == left + [Nil] && r2 == right[h := |left|] + [Nil] && Shape(l2, r2)
    requires 0 <= g < |left|
    requires InOrderOf(l2, r2, left[g]) == WithNewAfter(InOrderOf(left, right, left[g]), h, |left|)
    requires InOrderOf(l2, r2, right[g]) == WithNewAfter(InOrderOf(left, right, right[g]), h, |left|)
    ensures InOrderOf(l2, r2, g) == WithNewAfter(InOrderOf(left, right, g), h, |left|)
  {
    var n := |left|;
    var lo, hi := InOrderOf(left, right, left[g]), InOrderOf(left, right, right[g]);
    assert WithNewAfter(InOrderOf(left, right, g), h, n) == WithNewAfter(lo, h, n) + WithNewAfter([g], h, n) + WithNewAfter(hi, h, n) by {
      assert InOrderOf(left, right, g) == lo + [g] + hi;
      WithNewConcat(lo + [g], hi, h, n);
      WithNewConcat(lo, [g], h, n);
    }
    if g == h {
      LinkRightAtNode(left, right, h, l2, r2);
    } else {
      assert InOrderOf(l2, r2, g) == InOrderOf(l2, r2, left[g]) + [g] + InOrderOf(l2, r2, right[g]) by {
        assert l2[g] == left[g] && r2[g] == right[g];
      }
      assert WithNewAfter([g], h, n) == [g];
    }
  }

  /** At the node `h` itself the new leaf is its whole right subtree. */
  lemma LinkRightAtNode(left: seq<int>, right: seq<int>, h: int, l2: seq<int>, r2: seq<int>)
    requires Shape(left, right) && 0 <= h < |left| && right[h] == Nil
    requires l2 == left + [Nil] && r2 == right[h := |left|] + [Nil] && Shape(l2, r2)
    requires InOrderOf(l2, r2, left[h]) == WithNewAfter(InOrderOf(left, right, left[h]), h, |left|)
    ensures InOrderOf(l2, r2, h) == WithNewAfter(InOrderOf(left, right, left[h]), h, |left|)
      + WithNewAfter([h], h, |left|) + WithNewAfter(InOrderOf(left, right, right[h]), h, |left|)
  {
    var n := |left|;
    var lo := InOrderOf(left, right, left[h]);
    assert WithNewAfter(lo, h, n) == lo by {
      InOrderBounds(left, right, left[h]);
      WithNewAbsent(lo, h, n);
    }
    assert InOrderOf(l2, r2, n) == [n] by {
      assert l2[n] == Nil && r2[n] == Nil;
    }
    assert InOrderOf(l2, r2, h) == lo + [h] + [n] by {
      assert l2[h] == left[h] && r2[h] == n;
    }
    WithNewSingle(h, n);
  }

  /** Inserting a new entry into a listing without repetitions keeps it
      without repetitions and loses no entry. */
  lemma InsertFresh(s: seq<int>, j: nat, n: int)
    requires Distinct(s) && j <= |s| && n !in s
    ensures Distinct(s[..j] + [n] + s[j..])
    ensures forall x :: x in s ==> x in s[..j] + [n] + s[j..]
  {
    var s2 := s[..j] + [n] + s[j..];
    assert s == s[..j] + s[j..];
    forall a, b | 0 <= a < b < |s2| ensures s2[a] != s2[b] {
      if b < j {
        assert s2[a] == s[a] && s2[b] == s[b];
      } else if a > j {
        assert s2[a] == s[a - 1] && s2[b] == s[b - 1];
      } else if a < j && b > j {
        assert s2[a] == s[a] && s2[b] == s[b - 1];
      } else if a < j {
        assert s2[a] == s[a];
      } else {
        assert s2[b] == s[b - 1];
      }
    }
  }

  /** Hanging the new leaf `n` under a node that is already in the tree
      keeps the pointer graph well formed. */
  lemma LinkKeepsLinked(left: seq<int>, right: seq<int>, parent: seq<int>, h: int, onLeft: bool)
    requires Linked(left, right, parent) && 0 <= h < |left| && (if onLeft then left[h] else right[h]) == Nil
    ensures onLeft ==> Linked(left[h := |left|] + [Nil], right + [Nil], parent + [h])
    ensures !onLeft ==> Linked(left + [Nil], right[h := |left|] + [Nil], parent + [h])
  {
    var n := |left|;
    var l2 := if onLeft then left[h := n] + [Nil] else left + [Nil];
    var r2 := if onLeft then right + [Nil] else right[h := n] + [Nil];
    LinkShape(left, right, h, onLeft);
    LinkKeepsParents(left, right, parent, h, l2, r2);
    LinkKeepsChildren(left, right, parent, h, l2, r2);
  }

  /** Every node still hangs under an earlier one that points back at it. */
  lemma LinkKeepsParents(left: seq<int>, right: seq<int>, parent: seq<int>, h: int, l2: seq<int>, r2: seq<int>)
    requires Linked(left, right, parent) && 0 <= h < |left|
    requires (l2 == left[h := |left|] + [Nil] && r2 == right + [Nil] && left[h] == Nil)
      || (l2 == left + [Nil] && r2 == right[h := |left|] + [Nil] && right[h] == Nil)
    ensures forall k :: 0 < k < |parent| + 1 ==>
      0 <= (parent + [h])[k] < k && (l2[(parent + [h])[k]] == k || r2[(parent + [h])[k]] == k)
  {
    var n, p2 := |left|, parent + [h];
    forall k | 0 < k < |p2|
      ensures 0 <= p2[k] < k && (l2[p2[k]] == k || r2[p2[k]] == k)
    {
      if k < n {
        assert p2[k] == parent[k];
        assert left[parent[k]] == k || right[parent[k]] == k;
      }
    }
  }

  /** Every child still points back at its parent, and no node is both
      children of its parent. */
  lemma LinkKeepsChildren(left: seq<int>, right: seq<int>, parent: seq<int>, h: int, l2: seq<int>, r2: seq<int>)
    requires Linked(left, right, parent) && 0 <= h < |left|
    requires (l2 == left[h := |left|] + [Nil] && r2 == right + [Nil] && left[h] == Nil)
      || (l2 == left + [Nil] && r2 == right[h := |left|] + [Nil] && right[h] == Nil)
    ensures forall k :: 0 <= k < |l2| && l2[k] != Nil ==> (parent + [h])[l2[k]] == k
    ensures forall k :: 0 <= k < |r2| && r2[k] != Nil ==> (parent + [h])[r2[k]] == k && r2[k] != l2[k]
  {
    var n, p2 := |left|, parent + [h];
    forall k | 0 <= k < |l2| && l2[k] != Nil ensures p2[l2[k]] == k {
      if k < n && l2[k] != n {
        assert l2[k] == left[k];
      }
    }
    forall k | 0 <= k < |r2| && r2[k] != Nil ensures p2[r2[k]] == k && r2[k] != l2[k] {
      if k < n && r2[k] != n && l2[k] != n {
        assert r2[k] == right[k] && l2[k] == left[k];
      }
    }
  }

  /** After a left link the patched listing is again the in-order view. */
  lemma LinkLeftKeepsView(left: seq<int>, right: seq<int>, parent: seq<int>, s: seq<int>, i: nat)
    requires Linked(left, right, parent) && |left| > 0 && InOrderView(left, right, 0, s)
    requires i < |s| && left[s[i]] == Nil
    ensures Linked(left[s[i] := |left|] + [Nil], right + [Nil], parent + [s[i]])
    ensures InOrderView(left[s[i] := |left|] + [Nil], right + [Nil], 0, s[..i] + [|left|] + s[i..])
  {
    var h, n := s[i], |left|;
    var l2, r2 := left[h := n] + [Nil], right + [Nil];
    LinkKeepsLinked(left, right, parent, h, true);
    assert InOrderOf(l2, r2, 0) == s[..i] + [n] + s[i..] by {
      LinkLeftInOrder(left, right, h, l2, r2, 0);
      WithNewAt(s, i, n);
    }
    InsertFresh(s, i, n);
  }

  /** After a right link the patched listing is again the in-order view. */
  lemma LinkRightKeepsView(left: seq<int>, right: seq<int>, parent: seq<int>, s: seq<int>, i: nat)
    requires Linked(left, right, parent) && |left| > 0 && InOrderView(left, right, 0, s)
    requires i < |s| && right[s[i]] == Nil
    ensures Linked(left + [Nil], right[s[i] := |left|] + [Nil], parent + [s[i]])
    ensures InOrderView(left + [Nil], right[s[i] := |left|] + [Nil], 0, s[..i + 1] + [|left|] + s[i + 1..])
  {
    var h, n := s[i], |left|;
    var l2, r2 := left + [Nil], right[h := n] + [Nil];
    LinkKeepsLinked(left, right, parent, h, false);
    assert InOrderOf(l2, r2, 0) == s[..i + 1] + [n] + s[i + 1..] by {
      LinkRightInOrder(left, right, h, l2, r2, 0);
      WithNewAt(s, i, n);
    }
    InsertFresh(s, i + 1, n);
  }

  /** The nodes still to be listed for the entries of the traversal stack
      `st` (bottom first): each entry, then its right subtree, from the top
      down. */
  ghost function Pending(left: seq<int>, right: seq<int>, st: seq<int>): seq<int>
    requires Shape(left, right) && forall k :: 0 <= k < |st| ==> 0 <= st[k] < |left|
  {
    if st == [] then []
    else [st[|st| - 1]] + InOrderOf(left, right, right[st[|st| - 1]]) + Pending(left, right, st[..|st| - 1])
  }

  /** The state of `_inorder_update`: what is listed so far, then the
      subtree under the cursor `p`, then what the stack `st` still holds,
      make up the whole in-order listing. */
  ghost predicate Traversal(left: seq<int>, right: seq<int>, root: int, done: seq<int>, p: int, st: seq<int>)
  {
    Shape(left, right) && (root == Nil || 0 <= root < |left|) && (p == Nil || 0 <= p < |left|)
    && (forall k :: 0 <= k < |st| ==> 0 <= st[k] < |left|)
    && done + InOrderOf(left, right, p) + Pending(left, right, st) == InOrderOf(left, right, root)
  }

  /** Pushing the cursor and moving to its left child. */
  lemma PushStep(left: seq<int>, right: seq<int>, root: int, done: seq<int>, p: int, st: seq<int>)
    requires Traversal(left, right, root, done, p, st) && p != Nil
    ensures Traversal(left, right, root, done, left[p], st + [p])
    ensures left[p] == Nil || p < left[p]
  {
    assert Child(|left|, p, left[p]) && Child(|left|, p, right[p]);
    PendingPush(left, right, st, p);
    var lo, hi, rest := InOrderOf(left, right, left[p]), InOrderOf(left, right, right[p]), Pending(left, right, st);
    assert InOrderOf(left, right, p) == lo + [p] + hi;
    Reassociate(done, lo, p, hi, rest);
  }

  /** Pushing `p` puts it, and then its right subtree, first in line. */
  lemma PendingPush(left: seq<int>, right: seq<int>, st: seq<int>, p: int)
    requires Shape(left, right) && 0 <= p < |left| && forall k :: 0 <= k < |st| ==> 0 <= st[k] < |left|
    ensures forall k :: 0 <= k < |st + [p]| ==> 0 <= (st + [p])[k] < |left|
    ensures Pending(left, right, st + [p]) == [p] + InOrderOf(left, right, right[p]) + Pending(left, right, st)
  {
    var st2 := st + [p];
    forall k | 0 <= k < |st2| ensures 0 <= st2[k] < |left| {
      if k < |st| {
        assert st2[k] == st[k];
      }
    }
    assert st2[..|st|] == st && st2[|st2| - 1] == p;
  }

  lemma Reassociate<T>(done: seq<T>, lo: seq<T>, x: T, hi: seq<T>, rest: seq<T>)
    ensures done + (lo + [x] + hi) + rest == done + lo + ([x] + hi + rest)
  {
  }

  /** Popping the top, listing it and moving to its right child. */
  lemma PopStep(left: seq<int>, right: seq<int>, root: int, done: seq<int>, st: seq<int>)
    requires Traversal(left, right, root, done, Nil, st) && st != []
    ensures Traversal(left, right, root, done + [st[|st| - 1]], right[st[|st| - 1]], st[..|st| - 1])
  {
    var top := st[|st| - 1];
    var hi, rest := InOrderOf(left, right, right[top]), Pending(left, right, st[..|st| - 1]);
    assert Pending(left, right, st) == [top] + hi + rest;
    assert InOrderOf(left, right, Nil) == [];
    assert done + [] + ([top] + hi + rest) == (done + [top]) + hi + rest;
  }

  class BinaryTree<T> {
    /** `data_` of each node. */
    var data: seq<T>
    /** `L_child_`, `R_child_` and `parent_` of each node. */
    var left: seq<int>
    var right: seq<int>
    var parent: seq<int>
    /** `root_parent_.L_child_`; `root_parent_.R_child_` is always `nullptr`. */
    var root: int
    /** `size_`: the number of nodes. */
    var size: nat
    /** `sequence_in_` */
    var sequenceIn: seq<int>

    ghost predicate Valid()
      reads this
    {
      |data| == |left| == size && Linked(left, right, parent)
      && root == (if size == 0 then Nil else 0)
      && InOrderView(left, right, root, sequenceIn)
    }

    /** `binary_tree()`: no root. */
    constructor ()
      ensures Valid() && size == 0 && sequenceIn == []
    {
      data, left, right, parent := [], [], [], [];
      root, size, sequenceIn := Nil, 0, [];
    }

    /** The left child of a node or of the sentinel, whose left child is the
        root. */
    function LeftOf(h: int): int
      reads this
      requires Valid() && (h == Sentinel || 0 <= h < size)
    {
      if h == Sentinel then root else left[h]
    }

    /** The right child of a node or of the sentinel, which has none. */
    function RightOf(h: int): int
      reads this
      requires Valid() && (h == Sentinel || 0 <= h < size)
    {
      if h == Sentinel then Nil else right[h]
    }

    /** The other child of the parent of a node that is not the root. */
    ghost function SiblingOf(h: int): int
      reads this
      requires Valid() && 0 < h < size
    {
      var p := parent[h];
      if left[p] == h then right[p] else left[p]
    }

    /** `_inorder_update`: the iterative traversal with an explicit stack. */
    method InorderUpdate()
      requires Shape(left, right) && (root == Nil || 0 <= root < |left|)
      modifies this`sequenceIn
      ensures sequenceIn == InOrderOf(left, right, root)
    {
      sequenceIn := [];
      var p := root;
      var st := new Stack<int>();
      var more := true;
      ghost var total := InOrderOf(left, right, root);
      while more
        invariant st.Valid() && fresh(st.items) && fresh(st.items.buf)
        invariant Traversal(left, right, root, sequenceIn, p, st.Elements())
        invariant !more ==> p == Nil && st.Elements() == []
        invariant |sequenceIn| <= |total|
        decreases |total| - |sequenceIn|, more
      {
        p, more := TraversalStep(p, st);
      }
    }

    /** One round of the outer loop of `_inorder_update`: go left as far as
        possible, then list the top of the stack (if any) and move to its
        right child; the loop goes on while there is a cursor or a stack. */
    method TraversalStep(p0: int, st: Stack<int>) returns (p: int, more: bool)
      requires st.Valid() && Traversal(left, right, root, sequenceIn, p0, st.Elements())
      modifies this`sequenceIn, st.items, st.items.buf
      ensures st.Valid() && st.items == old(st.items)
      ensures st.items.buf == old(st.items.buf) || fresh(st.items.buf)
      ensures Traversal(left, right, root, sequenceIn, p, st.Elements())
      ensures more <==> p != Nil || st.Elements() != []
      ensures |sequenceIn| == |old(sequenceIn)| + 1 || (!more && sequenceIn == old(sequenceIn))
    {
      p := DescendLeft(p0, st, sequenceIn);
      if !st.Empty() {
        p := VisitTop(st);
      }
      more := p != Nil || !st.Empty();
    }

    /** The inner loop of `_inorder_update`: push the cursor and go left
        until there is no left child. */
    method DescendLeft(p0: int, st: Stack<int>, ghost done: seq<int>) returns (p: int)
      requires st.Valid() && Traversal(left, right, root, done, p0, st.Elements())
      modifies st.items, st.items.buf
      ensures p == Nil && st.Valid() && st.items == old(st.items)
      ensures st.items.buf == old(st.items.buf) || fresh(st.items.buf)
      ensures Traversal(left, right, root, done, Nil, st.Elements())
    {
      p := p0;
      while p != Nil
        invariant st.Valid() && st.items == old(st.items)
        invariant st.items.buf == old(st.items.buf) || fresh(st.items.buf)
        invariant Traversal(left, right, root, done, p, st.Elements())
        decreases if p < 0 then 0 else |left| - p + 1
      {
        ghost var before := st.Elements();
        st.Push(p);
        PushStep(left, right, root, done, p, before);
        p := left[p];
      }
    }

    /** The rest of the outer loop of `_inorder_update`: pop the top, list
        it and move to its right child. */
    method VisitTop(st: Stack<int>) returns (p: int)
      requires st.Valid() && st.Elements() != [] && Traversal(left, right, root, sequenceIn, Nil, st.Elements())
      modifies this`sequenceIn, st.items
      ensures st.Valid() && st.items == old(st.items) && st.items.buf == old(st.items.buf)
      ensures |sequenceIn| == |old(sequenceIn)| + 1
      ensures Traversal(left, right, root, sequenceIn, p, st.Elements())
    {
      ghost var before := st.Elements();
      var r := st.Pop();
      PopStep(left, right, root, sequenceIn, before);
      p := r.value;
      sequenceIn := sequenceIn + [p];
      p := right[p];
    }

    /** `set_root(data)`: overwrite the root's data, or create the root. */
    method SetRoot(x: T)
      requires Valid()
      modifies this
      ensures Valid() && root == 0
      ensures old(size) > 0 ==>
        size == old(size) && data == old(data)[0 := x]
        && left == old(left) && right == old(right) && parent == old(parent) && sequenceIn == old(sequenceIn)
      ensures old(size) == 0 ==> size == 1 && data == [x] && sequenceIn == [0]
    {
      if root != Nil {
        data := data[root := x];
      } else {
        data, left, right, parent := [x], [Nil], [Nil], [Sentinel];
        root := 0;
        size := size + 1;
        InorderUpdate();
        assert InOrderOf(left, right, Nil) == [];
      }
    }

    /** `root()`: an iterator at the root; the constructor's `exit` on a tree
        without one is `None`. */
    method Root() returns (r: Option<InorderIterator<T>>)
      requires Valid()
      ensures r.Some? <==> size > 0
      ensures r.Some? ==>
        fresh(r.value) && r.value.tree == this && r.value.Valid()
        && r.value.index < |sequenceIn| && r.value.Node() == root
    {
      r := IteratorAt(this, root);
      InOrderBounds(left, right, root);
    }
  }

  /** `inorder_iterator`: a position in the tree's `sequence_in_`. */
  class InorderIterator<T> {
    const tree: BinaryTree<T>
    /** `index_` */
    var index: nat

    constructor (tree: BinaryTree<T>, index: nat)
      ensures this.tree == tree && this.index == index
    {
      this.tree := tree;
      this.index := index;
    }

    ghost predicate Valid()
      reads this, tree
    {
      tree.Valid() && index <= |tree.sequenceIn|
    }

    /** The node the iterator denotes. */
    function Node(): (h: int)
      reads this, tree
      requires Valid() && index < |tree.sequenceIn|
      ensures 0 <= h < tree.size
    {
      tree.sequenceIn[index]
    }

    /** `_find_node_index(node)`: the first index holding `node`, or the
        length of the sequence. */
    method FindNodeIndex(node: int) returns (i: nat)
      requires Valid()
      ensures i <= |tree.sequenceIn|
      ensures i < |tree.sequenceIn| ==> tree.sequenceIn[i] == node
      ensures forall k :: 0 <= k < i ==> tree.sequenceIn[k] != node
    {
      i := 0;
      while i != |tree.sequenceIn|
        invariant i <= |tree.sequenceIn|
        invariant forall k :: 0 <= k < i ==> tree.sequenceIn[k] != node
      {
        if tree.sequenceIn[i] == node {
          return i;
        }
        i := i + 1;
      }
    }

    /** `is_root`: the node is `root_parent_.L_child_`, which holds exactly
        for the node whose parent is the sentinel. */
    function IsRoot(): (b: bool)
      reads this, tree
      requires Valid() && index < |tree.sequenceIn|
      ensures b <==> tree.parent[Node()] == Sentinel
    {
      tree.sequenceIn[index] == tree.root
    }

    /** `is_leaf`: no children, so the subtree lists the node alone. */
    function IsLeaf(): (b: bool)
      reads this, tree
      requires Valid() && index < |tree.sequenceIn|
      ensures b <==> InOrderOf(tree.left, tree.right, Node()) == [Node()]
    {
      var h := Node();
      tree.left[h] == Nil && tree.right[h] == Nil
    }

    /** `is_parent`: `!is_leaf()`. */
    function IsParent(): (b: bool)
      reads this, tree
      requires Valid() && index < |tree.sequenceIn|
      ensures b <==> |InOrderOf(tree.left, tree.right, Node())| > 1
    {
      !IsLeaf()
    }

    /** `is_left_child`: the parent's left child is the node; the root is
        the left child of the sentinel. */
    function IsLeftChild(): (b: bool)
      reads this, tree
      requires Valid() && index < |tree.sequenceIn|
      ensures b <==> Node() == 0 || tree.left[tree.parent[Node()]] == Node()
    {
      var h := Node();
      tree.LeftOf(tree.parent[h]) == h
    }

    /** `is_right_child`: every node is exactly one of a left and a right
        child. */
    function IsRightChild(): (b: bool)
      reads this, tree
      requires Valid() && index < |tree.sequenceIn|
      ensures b <==> !IsLeftChild()
    {
      var h := Node();
      tree.RightOf(tree.parent[h]) == h
    }

    /** `operator==`: the same index into equal sequences. Over one tree,
        two iterators are equal exactly when they denote the same node. */
    function Equals(other: InorderIterator<T>): (b: bool)
      reads this, tree, other, other.tree
      ensures b <==> index == other.index && tree.sequenceIn == other.tree.sequenceIn
      ensures tree == other.tree && Valid() && index < |tree.sequenceIn| && other.index < |tree.sequenceIn|
        ==> (b <==> Node() == other.Node())
    {
      index == other.index && tree.sequenceIn == other.tree.sequenceIn
    }

    /** `operator!=` */
    function NotEquals(other: InorderIterator<T>): (b: bool)
      reads this, tree, other, other.tree
      ensures b <==> !Equals(other)
    {
      index != other.index || tree.sequenceIn != other.tree.sequenceIn
    }

    /** `parent()`: the iterator at the parent; `None` (the constructor's `exit`)
        for the root, whose parent is the sentinel. */
    method Parent() returns (r: Option<InorderIterator<T>>)
      requires Valid() && index < |tree.sequenceIn|
      ensures r.Some? <==> Node() != 0
      ensures r.Some? ==>
        fresh(r.value) && r.value.tree == tree && r.value.Valid()
        && r.value.index < |tree.sequenceIn| && r.value.Node() == tree.parent[Node()]
    {
      r := IteratorAt(tree, tree.parent[tree.sequenceIn[index]]);
    }

    /** `left_child()`: `None` (the constructor's `exit`) when there is none. */
    method LeftChild() returns (r: Option<InorderIterator<T>>)
      requires Valid() && index < |tree.sequenceIn|
      ensures r.Some? <==> tree.left[Node()] != Nil
      ensures r.Some? ==>
        fresh(r.value) && r.value.tree == tree && r.value.Valid()
        && r.value.index < |tree.sequenceIn| && r.value.Node() == tree.left[Node()]
        && tree.parent[r.value.Node()] == Node()
    {
      r := IteratorAt(tree, tree.left[tree.sequenceIn[index]]);
    }

    /** `right_child()`: `None` (the constructor's `exit`) when there is none. */
    method RightChild() returns (r: Option<InorderIterator<T>>)
      requires Valid() && index < |tree.sequenceIn|
      ensures r.Some? <==> tree.right[Node()] != Nil
      ensures r.Some? ==>
        fresh(r.value) && r.value.tree == tree && r.value.Valid()
        && r.value.index < |tree.sequenceIn| && r.value.Node() == tree.right[Node()]
        && tree.parent[r.value.Node()] == Node()
    {
      r := IteratorAt(tree, tree.right[tree.sequenceIn[index]]);
    }

    /** `sibling()`: the parent's other child; `None` (the constructor's `exit`)
        when it has none, and always for the root. */
    method Sibling() returns (r: Option<InorderIterator<T>>)
      requires Valid() && index < |tree.sequenceIn|
      ensures Node() == 0 ==> r.None?
      ensures r.Some? ==>
        fresh(r.value) && r.value.tree == tree && r.value.Valid()
        && r.value.index < |tree.sequenceIn|
        && r.value.Node() != Node() && tree.parent[r.value.Node()] == tree.parent[Node()]
      ensures Node() != 0 ==> (r.Some? <==> tree.SiblingOf(Node()) != Nil)
      ensures r.Some? ==> r.value.Node() == tree.SiblingOf(Node())
    {
      var h := tree.sequenceIn[index];
      var p := tree.parent[h];
      var s := if IsLeftChild() then tree.RightOf(p) else tree.LeftOf(p);
      r := IteratorAt(tree, s);
    }

    /** `set_left_child(data)`: overwrite the data of an existing left
        child, or link a new leaf, insert it into `sequence_in_` right
        before the node and step `index_` past it. */
    method SetLeftChild(x: T)
      requires Valid() && index < |tree.sequenceIn|
      modifies this, tree
      ensures Valid() && index < |tree.sequenceIn| && tree.sequenceIn[index] == old(tree.sequenceIn[index])
      ensures old(tree.left[tree.sequenceIn[index]]) != Nil ==>
        tree.data == old(tree.data)[old(tree.left[tree.sequenceIn[index]]) := x]
        && tree.size == old(tree.size) && tree.left == old(tree.left) && tree.right == old(tree.right)
        && tree.parent == old(tree.parent) && tree.sequenceIn == old(tree.sequenceIn) && index == old(index)
      ensures old(tree.left[tree.sequenceIn[index]]) == Nil ==>
        tree.size == old(tree.size) + 1 && tree.data == old(tree.data) + [x]
        && tree.left == old(tree.left)[old(tree.sequenceIn[index]) := old(tree.size)] + [Nil]
        && tree.right == old(tree.right) + [Nil] && tree.parent == old(tree.parent) + [old(tree.sequenceIn[index])]
        && tree.sequenceIn == old(tree.sequenceIn)[..old(index)] + [old(tree.size)] + old(tree.sequenceIn)[old(index)..]
        && index == old(index) + 1
    {
      var h := Node();
      if tree.left[h] != Nil {
        tree.data := tree.data[tree.left[h] := x];
        return;
      }
      var n := tree.size;
      ghost var s := tree.sequenceIn;
      var left, right, parent := tree.left[h := n] + [Nil], tree.right + [Nil], tree.parent + [h];
      ghost var s2 := s[..index] + [n] + s[index..];
      LinkLeftKeepsView(tree.left, tree.right, tree.parent, s, index);
      assert Linked(left, right, parent) && InOrderView(left, right, 0, s2);
      tree.data, tree.left, tree.right, tree.parent, tree.size := tree.data + [x], left, right, parent, n + 1;
      tree.sequenceIn := tree.sequenceIn + [n];
      OpenAt(index, n, s);
      assert tree.sequenceIn == s2;
      index := index + 1;
    }

    /** `set_right_child(data)`: overwrite the data of an existing right
        child, or link a new leaf and insert it into `sequence_in_` right
        after the node. */
    method SetRightChild(x: T)
      requires Valid() && index < |tree.sequenceIn|
      modifies tree
      ensures Valid() && index < |tree.sequenceIn| && tree.sequenceIn[index] == old(tree.sequenceIn[index])
      ensures old(tree.right[tree.sequenceIn[index]]) != Nil ==>
        tree.data == old(tree.data)[old(tree.right[tree.sequenceIn[index]]) := x]
        && tree.size == old(tree.size) && tree.left == old(tree.left) && tree.right == old(tree.right)
        && tree.parent == old(tree.parent) && tree.sequenceIn == old(tree.sequenceIn)
      ensures old(tree.right[tree.sequenceIn[index]]) == Nil ==>
        tree.size == old(tree.size) + 1 && tree.data == old(tree.data) + [x]
        && tree.left == old(tree.left) + [Nil]
        && tree.right == old(tree.right)[old(tree.sequenceIn[index]) := old(tree.size)] + [Nil]
        && tree.parent == old(tree.parent) + [old(tree.sequenceIn[index])]
        && tree.sequenceIn == old(tree.sequenceIn)[..index + 1] + [old(tree.size)] + old(tree.sequenceIn)[index + 1..]
    {
      var h := Node();
      if tree.right[h] != Nil {
        tree.data := tree.data[tree.right[h] := x];
        return;
      }
      var n := tree.size;
      ghost var s := tree.sequenceIn;
      var left, right, parent := tree.left + [Nil], tree.right[h := n] + [Nil], tree.parent + [h];
      ghost var s2 := s[..index + 1] + [n] + s[index + 1..];
      LinkRightKeepsView(tree.left, tree.right, tree.parent, s, index);
      assert Linked(left, right, parent) && InOrderView(left, right, 0, s2);
      tree.data, tree.left, tree.right, tree.parent, tree.size := tree.data + [x], left, right, parent, n + 1;
      tree.sequenceIn := tree.sequenceIn + [n];
      OpenAt(index + 1, n, s);
      assert tree.sequenceIn == s2;
    }

    /** The shifting loop of `set_left_child` and `set_right_child`: after
        the `push_back`, every entry from `at` on moves one place right and
        `n` is stored at `at`. */
    method OpenAt(at: nat, n: int, ghost s: seq<int>)
      requires at <= |s| && tree.sequenceIn == s + [n]
      modifies tree`sequenceIn
      ensures tree.sequenceIn == s[..at] + [n] + s[at..]
    {
      var i := |tree.sequenceIn| - 1;
      while i != at
        invariant at <= i <= |s| && |tree.sequenceIn| == |s| + 1
        invariant forall k :: 0 <= k < i ==> tree.sequenceIn[k] == s[k]
        invariant forall k :: i < k <= |s| ==> tree.sequenceIn[k] == s[k - 1]
      {
        tree.sequenceIn := tree.sequenceIn[i := tree.sequenceIn[i - 1]];
        i := i - 1;
      }
      tree.sequenceIn := tree.sequenceIn[at := n];
      assert tree.sequenceIn == s[..at] + [n] + s[at..] by {
        forall k | 0 <= k < |s| + 1 ensures tree.sequenceIn[k] == (s[..at] + [n] + s[at..])[k] {
        }
      }
    }
  }

  /** The iterator constructor `inorder_iterator(tree, node)`: the index of
      `node` in `sequence_in_`; `None` stands for its `exit` when the
      node is not listed (a `nullptr` or the sentinel). */
  method IteratorAt<T>(tree: BinaryTree<T>, node: int) returns (r: Option<InorderIterator<T>>)
    requires tree.Valid()
    ensures r.Some? <==> 0 <= node < tree.size
    ensures r.Some? ==>
      fresh(r.value) && r.value.tree == tree && r.value.Valid()
      && r.value.index < |tree.sequenceIn| && r.value.Node() == node
  {
    var it := new InorderIterator(tree, 0);
    var i := it.FindNodeIndex(node);
    if i >= |tree.sequenceIn| {
      assert node !in tree.sequenceIn;
      return None;
    }
    it.index := i;
    return Some(it);
  }
}
