/** The construction in `Sample.cpp`, written with the in-order iterator
    of `tvj::binary_tree`: the iterator-returning calls that the sample
    chains, with `set_root` (which returns nothing) followed by `root()`.
    Every call of the chain is a method of its own whose contract is the
    whole state of the tree before and after it. The `After...` lemmas are
    proof steps only: each spells out, on literals, the field values one
    call of the chain computes. */
module SampleTree {
  import opened Base
  import opened BinaryTrees

  /** The data of the listed nodes, in order. */
  ghost function Listed(data: seq<int>, s: seq<int>): seq<int>
    requires forall k :: 0 <= k < |s| ==> 0 <= s[k] < |data|
  {
    seq(|s|, k requires 0 <= k < |s| => data[s[k]])
  }

  /** The whole state of the tree. */
  ghost predicate Is(t: BinaryTree<int>, data: seq<int>, left: seq<int>, right: seq<int>, parent: seq<int>, s: seq<int>)
    reads t
  {
    t.Valid() && t.data == data && t.left == left && t.right == right && t.parent == parent && t.sequenceIn == s
  }

  /** An iterator over `t` at `node`, which is entry `index` of the listing. */
  ghost predicate At(it: InorderIterator<int>, t: BinaryTree<int>, node: int, index: nat)
    reads it, t
  {
    it.tree == t && it.Valid() && it.index == index && index < |t.sequenceIn| && it.Node() == node
  }

  /** The sample tree: 6 ends up as the left child of 8, and the in-order
      listing is 1, 2, ..., 11. */
  method BuildSample() returns (t: BinaryTree<int>)
    ensures t.Valid() && t.size == 11
    ensures t.data[5] == 8 && t.left[5] != Nil && t.data[t.left[5]] == 6 && t.right[5] == Nil
    ensures Listed(t.data, t.sequenceIn) == [1, 2, 3, 4, 5, 6, 7, 8, 9, 10, 11]
  {
    var four;
    t, four := BuildUpper();
    BuildLower(t, four);
    assert t.data[5] == 8 && t.left[5] == 8 && t.data[8] == 6;
    SampleListing();
  }

  /** The second half of the sample: 1 and 3 under 2, 6 under 8, and 5
      and 7 under 6. */
  method BuildLower(t: BinaryTree<int>, four: InorderIterator<int>)
    requires Is(t, [9, 4, 10, 11, 2, 8], [1, 4, -1, -1, -1, -1], [2, 5, 3, -1, -1, -1], [-2, 0, 0, 2, 1, 1], [4, 1, 5, 0, 2, 3])
    requires At(four, t, 1, 1)
    modifies t
    ensures Is(t, [9, 4, 10, 11, 2, 8, 1, 3, 6, 5, 7], [1, 4, -1, -1, 6, 8, -1, -1, 9, -1, -1],
              [2, 5, 3, -1, 7, -1, -1, -1, 10, -1, -1], [-2, 0, 0, 2, 1, 1, 4, 4, 5, 8, 8],
              [6, 4, 7, 1, 9, 8, 10, 5, 0, 2, 3])
  {
    var two := LeftChildOf4(t, four);
    SetLeft1(t, two);
    SetRight3(t, two);
    var eight := SiblingOf2(t, two);
    SetLeft6(t, eight);
    var six := LeftChildOf8(t, eight);
    SetLeft5(t, six);
    SetRight7(t, six);
  }

  /** The first half of the sample: 9 with 4 and 10 under it, 11 under 10
      and 2 and 8 under 4; the iterator is at 4. */
  method BuildUpper() returns (t: BinaryTree<int>, four: InorderIterator<int>)
    ensures fresh(t)
    ensures Is(t, [9, 4, 10, 11, 2, 8], [1, 4, -1, -1, -1, -1], [2, 5, 3, -1, -1, -1], [-2, 0, 0, 2, 1, 1], [4, 1, 5, 0, 2, 3])
    ensures At(four, t, 1, 1)
  {
    var nine;
    t, nine := PlantRoot();
    SetLeft4(t, nine);
    SetRight10(t, nine);
    var ten := RightChildOf9(t, nine);
    SetRight11(t, ten);
    four := SiblingOf10(t, ten);
    SetLeft2(t, four);
    SetRight8(t, four);
  }

  /** A worked example: the data of the final tree, read in the order of
      its listing. */
  lemma SampleListing()
    ensures Listed([9, 4, 10, 11, 2, 8, 1, 3, 6, 5, 7], [6, 4, 7, 1, 9, 8, 10, 5, 0, 2, 3]) == [1, 2, 3, 4, 5, 6, 7, 8, 9, 10, 11]
  {
  }

  /** `set_root(9)`, then `root()` */
  method PlantRoot() returns (t: BinaryTree<int>, nine: InorderIterator<int>)
    ensures fresh(t) && fresh(nine)
    ensures Is(t, [9], [-1], [-1], [-2], [0])
    ensures At(nine, t, 0, 0)
  {
    t := new BinaryTree<int>();
    t.SetRoot(9);
    var r := t.Root();
    nine := r.value;
  }

  /** `.set_left_child(4)` at 9 */
  method SetLeft4(t: BinaryTree<int>, it: InorderIterator<int>)
    requires Is(t, [9], [-1], [-1], [-2], [0])
    requires At(it, t, 0, 0)
    modifies t, it
    ensures Is(t, [9, 4], [1, -1], [-1, -1], [-2, 0], [1, 0])
    ensures At(it, t, 0, 1)
  {
    AfterSetLeft4();
    it.SetLeftChild(4);
  }

  /** The fields after `SetLeft4`, computed from those before it. */
  lemma AfterSetLeft4()
    ensures [9] + [4] == [9, 4]
    ensures [-1][0 := 1] + [Nil] == [1, -1]
    ensures [-1] + [Nil] == [-1, -1]
    ensures [-2] + [0] == [-2, 0]
    ensures [0][..0] + [1] + [0][0..] == [1, 0]
  {
  }

  /** `.set_right_child(10)` at 9 */
  method SetRight10(t: BinaryTree<int>, it: InorderIterator<int>)
    requires Is(t, [9, 4], [1, -1], [-1, -1], [-2, 0], [1, 0])
    requires At(it, t, 0, 1)
    modifies t, it
    ensures Is(t, [9, 4, 10], [1, -1, -1], [2, -1, -1], [-2, 0, 0], [1, 0, 2])
    ensures At(it, t, 0, 1)
  {
    AfterSetRight10();
    it.SetRightChild(10);
  }

  /** The fields after `SetRight10`, computed from those before it. */
  lemma AfterSetRight10()
    ensures [9, 4] + [10] == [9, 4, 10]
    ensures [1, -1] + [Nil] == [1, -1, -1]
    ensures [-1, -1][0 := 2] + [Nil] == [2, -1, -1]
    ensures [-2, 0] + [0] == [-2, 0, 0]
    ensures [1, 0][..2] + [2] + [1, 0][2..] == [1, 0, 2]
  {
  }

  /** `.right_child()` at 9 */
  method RightChildOf9(t: BinaryTree<int>, it: InorderIterator<int>) returns (next: InorderIterator<int>)
    requires Is(t, [9, 4, 10], [1, -1, -1], [2, -1, -1], [-2, 0, 0], [1, 0, 2])
    requires At(it, t, 0, 1)
    ensures fresh(next) && At(next, t, 2, 2)
  {
    var r := it.RightChild();
    next := r.value;
  }

  /** `.set_right_child(11)` at 10 */
  method SetRight11(t: BinaryTree<int>, it: InorderIterator<int>)
    requires Is(t, [9, 4, 10], [1, -1, -1], [2, -1, -1], [-2, 0, 0], [1, 0, 2])
    requires At(it, t, 2, 2)
    modifies t, it
    ensures Is(t, [9, 4, 10, 11], [1, -1, -1, -1], [2, -1, 3, -1], [-2, 0, 0, 2], [1, 0, 2, 3])
    ensures At(it, t, 2, 2)
  {
    AfterSetRight11();
    it.SetRightChild(11);
  }

  /** The fields after `SetRight11`, computed from those before it. */
  lemma AfterSetRight11()
    ensures [9, 4, 10] + [11] == [9, 4, 10, 11]
    ensures [1, -1, -1] + [Nil] == [1, -1, -1, -1]
    ensures [2, -1, -1][2 := 3] + [Nil] == [2, -1, 3, -1]
    ensures [-2, 0, 0] + [2] == [-2, 0, 0, 2]
    ensures [1, 0, 2][..3] + [3] + [1, 0, 2][3..] == [1, 0, 2, 3]
  {
  }

  /** `.sibling()` at 10 */
  method SiblingOf10(t: BinaryTree<int>, it: InorderIterator<int>) returns (next: InorderIterator<int>)
    requires Is(t, [9, 4, 10, 11], [1, -1, -1, -1], [2, -1, 3, -1], [-2, 0, 0, 2], [1, 0, 2, 3])
    requires At(it, t, 2, 2)
    ensures fresh(next) && At(next, t, 1, 0)
  {
    var r := it.Sibling();
    next := r.value;
  }

  /** `.set_left_child(2)` at 4 */
  method SetLeft2(t: BinaryTree<int>, it: InorderIterator<int>)
    requires Is(t, [9, 4, 10, 11], [1, -1, -1, -1], [2, -1, 3, -1], [-2, 0, 0, 2], [1, 0, 2, 3])
    requires At(it, t, 1, 0)
    modifies t, it
    ensures Is(t, [9, 4, 10, 11, 2], [1, 4, -1, -1, -1], [2, -1, 3, -1, -1], [-2, 0, 0, 2, 1], [4, 1, 0, 2, 3])
    ensures At(it, t, 1, 1)
  {
    AfterSetLeft2();
    it.SetLeftChild(2);
  }

  /** The fields after `SetLeft2`, computed from those before it. */
  lemma AfterSetLeft2()
    ensures [9, 4, 10, 11] + [2] == [9, 4, 10, 11, 2]
    ensures [1, -1, -1, -1][1 := 4] + [Nil] == [1, 4, -1, -1, -1]
    ensures [2, -1, 3, -1] + [Nil] == [2, -1, 3, -1, -1]
    ensures [-2, 0, 0, 2] + [1] == [-2, 0, 0, 2, 1]
    ensures [1, 0, 2, 3][..0] + [4] + [1, 0, 2, 3][0..] == [4, 1, 0, 2, 3]
  {
  }

  /** `.set_right_child(8)` at 4 */
  method SetRight8(t: BinaryTree<int>, it: InorderIterator<int>)
    requires Is(t, [9, 4, 10, 11, 2], [1, 4, -1, -1, -1], [2, -1, 3, -1, -1], [-2, 0, 0, 2, 1], [4, 1, 0, 2, 3])
    requires At(it, t, 1, 1)
    modifies t, it
    ensures Is(t, [9, 4, 10, 11, 2, 8], [1, 4, -1, -1, -1, -1], [2, 5, 3, -1, -1, -1], [-2, 0, 0, 2, 1, 1], [4, 1, 5, 0, 2, 3])
    ensures At(it, t, 1, 1)
  {
    AfterSetRight8();
    it.SetRightChild(8);
  }

  /** The fields after `SetRight8`, computed from those before it. */
  lemma AfterSetRight8()
    ensures [9, 4, 10, 11, 2] + [8] == [9, 4, 10, 11, 2, 8]
    ensures [1, 4, -1, -1, -1] + [Nil] == [1, 4, -1, -1, -1, -1]
    ensures [2, -1, 3, -1, -1][1 := 5] + [Nil] == [2, 5, 3, -1, -1, -1]
    ensures [-2, 0, 0, 2, 1] + [1] == [-2, 0, 0, 2, 1, 1]
    ensures [4, 1, 0, 2, 3][..2] + [5] + [4, 1, 0, 2, 3][2..] == [4, 1, 5, 0, 2, 3]
  {
  }

  /** `.left_child()` at 4 */
  method LeftChildOf4(t: BinaryTree<int>, it: InorderIterator<int>) returns (next: InorderIterator<int>)
    requires Is(t, [9, 4, 10, 11, 2, 8], [1, 4, -1, -1, -1, -1], [2, 5, 3, -1, -1, -1], [-2, 0, 0, 2, 1, 1], [4, 1, 5, 0, 2, 3])
    requires At(it, t, 1, 1)
    ensures fresh(next) && At(next, t, 4, 0)
  {
    var r := it.LeftChild();
    next := r.value;
  }

  /** `.set_left_child(1)` at 2 */
  method SetLeft1(t: BinaryTree<int>, it: InorderIterator<int>)
    requires Is(t, [9, 4, 10, 11, 2, 8], [1, 4, -1, -1, -1, -1], [2, 5, 3, -1, -1, -1], [-2, 0, 0, 2, 1, 1], [4, 1, 5, 0, 2, 3])
    requires At(it, t, 4, 0)
    modifies t, it
    ensures Is(t, [9, 4, 10, 11, 2, 8, 1], [1, 4, -1, -1, 6, -1, -1], [2, 5, 3, -1, -1, -1, -1], [-2, 0, 0, 2, 1, 1, 4], [6, 4, 1, 5, 0, 2, 3])
    ensures At(it, t, 4, 1)
  {
    AfterSetLeft1();
    it.SetLeftChild(1);
  }

  /** The fields after `SetLeft1`, computed from those before it. */
  lemma AfterSetLeft1()
    ensures [9, 4, 10, 11, 2, 8] + [1] == [9, 4, 10, 11, 2, 8, 1]
    ensures [1, 4, -1, -1, -1, -1][4 := 6] + [Nil] == [1, 4, -1, -1, 6, -1, -1]
    ensures [2, 5, 3, -1, -1, -1] + [Nil] == [2, 5, 3, -1, -1, -1, -1]
    ensures [-2, 0, 0, 2, 1, 1] + [4] == [-2, 0, 0, 2, 1, 1, 4]
    ensures [4, 1, 5, 0, 2, 3][..0] + [6] + [4, 1, 5, 0, 2, 3][0..] == [6, 4, 1, 5, 0, 2, 3]
  {
  }

  /** `.set_right_child(3)` at 2 */
  method SetRight3(t: BinaryTree<int>, it: InorderIterator<int>)
    requires Is(t, [9, 4, 10, 11, 2, 8, 1], [1, 4, -1, -1, 6, -1, -1], [2, 5, 3, -1, -1, -1, -1], [-2, 0, 0, 2, 1, 1, 4], [6, 4, 1, 5, 0, 2, 3])
    requires At(it, t, 4, 1)
    modifies t, it
    ensures Is(t, [9, 4, 10, 11, 2, 8, 1, 3], [1, 4, -1, -1, 6, -1, -1, -1], [2, 5, 3, -1, 7, -1, -1, -1], [-2, 0, 0, 2, 1, 1, 4, 4], [6, 4, 7, 1, 5, 0, 2, 3])
    ensures At(it, t, 4, 1)
  {
    AfterSetRight3();
    it.SetRightChild(3);
  }

  /** The fields after `SetRight3`, computed from those before it. */
  lemma AfterSetRight3()
    ensures [9, 4, 10, 11, 2, 8, 1] + [3] == [9, 4, 10, 11, 2, 8, 1, 3]
    ensures [1, 4, -1, -1, 6, -1, -1] + [Nil] == [1, 4, -1, -1, 6, -1, -1, -1]
    ensures [2, 5, 3, -1, -1, -1, -1][4 := 7] + [Nil] == [2, 5, 3, -1, 7, -1, -1, -1]
    ensures [-2, 0, 0, 2, 1, 1, 4] + [4] == [-2, 0, 0, 2, 1, 1, 4, 4]
    ensures [6, 4, 1, 5, 0, 2, 3][..2] + [7] + [6, 4, 1, 5, 0, 2, 3][2..] == [6, 4, 7, 1, 5, 0, 2, 3]
  {
  }

  /** `.sibling()` at 2 */
  method SiblingOf2(t: BinaryTree<int>, it: InorderIterator<int>) returns (next: InorderIterator<int>)
    requires Is(t, [9, 4, 10, 11, 2, 8, 1, 3], [1, 4, -1, -1, 6, -1, -1, -1], [2, 5, 3, -1, 7, -1, -1, -1], [-2, 0, 0, 2, 1, 1, 4, 4], [6, 4, 7, 1, 5, 0, 2, 3])
    requires At(it, t, 4, 1)
    ensures fresh(next) && At(next, t, 5, 4)
  {
    var r := it.Sibling();
    next := r.value;
  }

  /** `.set_left_child(6)` at 8 */
  method SetLeft6(t: BinaryTree<int>, it: InorderIterator<int>)
    requires Is(t, [9, 4, 10, 11, 2, 8, 1, 3], [1, 4, -1, -1, 6, -1, -1, -1], [2, 5, 3, -1, 7, -1, -1, -1], [-2, 0, 0, 2, 1, 1, 4, 4], [6, 4, 7, 1, 5, 0, 2, 3])
    requires At(it, t, 5, 4)
    modifies t, it
    ensures Is(t, [9, 4, 10, 11, 2, 8, 1, 3, 6], [1, 4, -1, -1, 6, 8, -1, -1, -1], [2, 5, 3, -1, 7, -1, -1, -1, -1], [-2, 0, 0, 2, 1, 1, 4, 4, 5], [6, 4, 7, 1, 8, 5, 0, 2, 3])
    ensures At(it, t, 5, 5)
  {
    AfterSetLeft6();
    it.SetLeftChild(6);
  }

  /** The fields after `SetLeft6`, computed from those before it. */
  lemma AfterSetLeft6()
    ensures [9, 4, 10, 11, 2, 8, 1, 3] + [6] == [9, 4, 10, 11, 2, 8, 1, 3, 6]
    ensures [1, 4, -1, -1, 6, -1, -1, -1][5 := 8] + [Nil] == [1, 4, -1, -1, 6, 8, -1, -1, -1]
    ensures [2, 5, 3, -1, 7, -1, -1, -1] + [Nil] == [2, 5, 3, -1, 7, -1, -1, -1, -1]
    ensures [-2, 0, 0, 2, 1, 1, 4, 4] + [5] == [-2, 0, 0, 2, 1, 1, 4, 4, 5]
    ensures [6, 4, 7, 1, 5, 0, 2, 3][..4] + [8] + [6, 4, 7, 1, 5, 0, 2, 3][4..] == [6, 4, 7, 1, 8, 5, 0, 2, 3]
  {
  }

  /** `.left_child()` at 8 */
  method LeftChildOf8(t: BinaryTree<int>, it: InorderIterator<int>) returns (next: InorderIterator<int>)
    requires Is(t, [9, 4, 10, 11, 2, 8, 1, 3, 6], [1, 4, -1, -1, 6, 8, -1, -1, -1], [2, 5, 3, -1, 7, -1, -1, -1, -1], [-2, 0, 0, 2, 1, 1, 4, 4, 5], [6, 4, 7, 1, 8, 5, 0, 2, 3])
    requires At(it, t, 5, 5)
    ensures fresh(next) && At(next, t, 8, 4)
  {
    var r := it.LeftChild();
    next := r.value;
  }

  /** `.set_left_child(5)` at 6 */
  method SetLeft5(t: BinaryTree<int>, it: InorderIterator<int>)
    requires Is(t, [9, 4, 10, 11, 2, 8, 1, 3, 6], [1, 4, -1, -1, 6, 8, -1, -1, -1], [2, 5, 3, -1, 7, -1, -1, -1, -1], [-2, 0, 0, 2, 1, 1, 4, 4, 5], [6, 4, 7, 1, 8, 5, 0, 2, 3])
    requires At(it, t, 8, 4)
    modifies t, it
    ensures Is(t, [9, 4, 10, 11, 2, 8, 1, 3, 6, 5], [1, 4, -1, -1, 6, 8, -1, -1, 9, -1], [2, 5, 3, -1, 7, -1, -1, -1, -1, -1], [-2, 0, 0, 2, 1, 1, 4, 4, 5, 8], [6, 4, 7, 1, 9, 8, 5, 0, 2, 3])
    ensures At(it, t, 8, 5)
  {
    AfterSetLeft5();
    it.SetLeftChild(5);
  }

  /** The fields after `SetLeft5`, computed from those before it. */
  lemma AfterSetLeft5()
    ensures [9, 4, 10, 11, 2, 8, 1, 3, 6] + [5] == [9, 4, 10, 11, 2, 8, 1, 3, 6, 5]
    ensures [1, 4, -1, -1, 6, 8, -1, -1, -1][8 := 9] + [Nil] == [1, 4, -1, -1, 6, 8, -1, -1, 9, -1]
    ensures [2, 5, 3, -1, 7, -1, -1, -1, -1] + [Nil] == [2, 5, 3, -1, 7, -1, -1, -1, -1, -1]
    ensures [-2, 0, 0, 2, 1, 1, 4, 4, 5] + [8] == [-2, 0, 0, 2, 1, 1, 4, 4, 5, 8]
    ensures [6, 4, 7, 1, 8, 5, 0, 2, 3][..4] + [9] + [6, 4, 7, 1, 8, 5, 0, 2, 3][4..] == [6, 4, 7, 1, 9, 8, 5, 0, 2, 3]
  {
  }

  /** `.set_right_child(7)` at 6 */
  method SetRight7(t: BinaryTree<int>, it: InorderIterator<int>)
    requires Is(t, [9, 4, 10, 11, 2, 8, 1, 3, 6, 5], [1, 4, -1, -1, 6, 8, -1, -1, 9, -1], [2, 5, 3, -1, 7, -1, -1, -1, -1, -1], [-2, 0, 0, 2, 1, 1, 4, 4, 5, 8], [6, 4, 7, 1, 9, 8, 5, 0, 2, 3])
    requires At(it, t, 8, 5)
    modifies t, it
    ensures Is(t, [9, 4, 10, 11, 2, 8, 1, 3, 6, 5, 7], [1, 4, -1, -1, 6, 8, -1, -1, 9, -1, -1], [2, 5, 3, -1, 7, -1, -1, -1, 10, -1, -1], [-2, 0, 0, 2, 1, 1, 4, 4, 5, 8, 8], [6, 4, 7, 1, 9, 8, 10, 5, 0, 2, 3])
    ensures At(it, t, 8, 5)
  {
    AfterSetRight7();
    it.SetRightChild(7);
  }

  /** The fields after `SetRight7`, computed from those before it. */
  lemma AfterSetRight7()
    ensures [9, 4, 10, 11, 2, 8, 1, 3, 6, 5] + [7] == [9, 4, 10, 11, 2, 8, 1, 3, 6, 5, 7]
    ensures [1, 4, -1, -1, 6, 8, -1, -1, 9, -1] + [Nil] == [1, 4, -1, -1, 6, 8, -1, -1, 9, -1, -1]
    ensures [2, 5, 3, -1, 7, -1, -1, -1, -1, -1][8 := 10] + [Nil] == [2, 5, 3, -1, 7, -1, -1, -1, 10, -1, -1]
    ensures [-2, 0, 0, 2, 1, 1, 4, 4, 5, 8] + [8] == [-2, 0, 0, 2, 1, 1, 4, 4, 5, 8, 8]
    ensures [6, 4, 7, 1, 9, 8, 5, 0, 2, 3][..6] + [10] + [6, 4, 7, 1, 9, 8, 5, 0, 2, 3][6..] == [6, 4, 7, 1, 9, 8, 10, 5, 0, 2, 3]
  {
  }
}
