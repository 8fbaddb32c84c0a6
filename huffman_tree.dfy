/** `tvj::huffman_tree`: the (symbol, weight) table sorted by descending
    weight, the forest of leaves merged two at a time into one tree, and the
    code table derived from the tree by a walk that appends '0' for a left
    step and '1' for a right step.

    The Huffman nodes are never relinked after they are built (a merged
    node only points down to the two entries it replaced), so the tree is
    modelled as an immutable `HTree` value rather than as an arena. */
module HuffmanTrees {
  import opened Base
  import opened Vectors
  import opened Bags

  /** `weighted_info<char>`: a symbol and its (unsigned) weight. */
  datatype WeightedInfo = WeightedInfo(elem: Char8, weight: nat)

  /** `HF_code<char>`: a symbol and its code, a string of '0' and '1'. */
  datatype HFCode = HFCode(elem: Char8, code: seq<Char8>)

  /** The nodes of a Huffman tree; `Nil` is a null child pointer. */
  datatype HTree = Nil | Node(data: Char8, left: HTree, right: HTree)

  /** `HF_Node`: a tree of the forest together with its weight. */
  datatype HFNode = HFNode(node: HTree, weight: nat)

  // ---------------------------------------------------------------------
  // The comparison operators of `weighted_info` and `HF_Node`
  // ---------------------------------------------------------------------

  function InfoWeight(w: WeightedInfo): int { w.weight }

  predicate InfoLess(a: WeightedInfo, b: WeightedInfo) { a.weight < b.weight }
  predicate InfoGreater(a: WeightedInfo, b: WeightedInfo) { a.weight > b.weight }
  predicate InfoLessEq(a: WeightedInfo, b: WeightedInfo) { a.weight <= b.weight }
  predicate InfoGreaterEq(a: WeightedInfo, b: WeightedInfo) { a.weight >= b.weight }
  predicate InfoEqual(a: WeightedInfo, b: WeightedInfo) { a.weight == b.weight }

  /** The operators compare weights only and form a total preorder; the
      vector's `_compare(a, b, order)`, which is `a == b || ((a > b) ^ order)`,
      is therefore the weight order `Compare` with the key `InfoWeight`. */
  lemma InfoOrder(a: WeightedInfo, b: WeightedInfo, ascending: bool)
    ensures Compare(a, b, InfoWeight, ascending) <==> (InfoEqual(a, b) || (InfoGreater(a, b) != ascending))
    ensures InfoLessEq(a, b) <==> !InfoGreater(a, b)
    ensures InfoGreaterEq(a, b) <==> !InfoLess(a, b)
    ensures InfoEqual(a, b) <==> InfoLessEq(a, b) && InfoGreaterEq(a, b)
    ensures InfoLess(a, b) <==> InfoGreater(b, a)
  {
  }

  function WeightOf(n: HFNode): int { n.weight }

  predicate NodeEqual(a: HFNode, b: HFNode) { a.weight == b.weight }
  predicate NodeGreater(a: HFNode, b: HFNode) { a.weight > b.weight }

  /** `HF_Node` defines only `==` and `>`, both on weights, which is all
      `_compare` uses: it becomes `Compare` with the key `WeightOf`. */
  lemma NodeOrder(a: HFNode, b: HFNode, ascending: bool)
    ensures Compare(a, b, WeightOf, ascending) <==> (NodeEqual(a, b) || (NodeGreater(a, b) != ascending))
  {
  }

  // ---------------------------------------------------------------------
  // Trees
  // ---------------------------------------------------------------------

  function Leaf(c: Char8): HTree { Node(c, Nil, Nil) }

  predicate IsLeaf(t: HTree) { t.Node? && t.left.Nil? && t.right.Nil? }

  /** Every node is a leaf or has two children. */
  ghost predicate Full(t: HTree)
  {
    t.Node? && (IsLeaf(t) || (Full(t.left) && Full(t.right)))
  }

  /** The symbols at the leaves, left to right. */
  ghost function Leaves(t: HTree): seq<Char8>
  {
    match t
    case Nil => []
    case Node(d, l, r) => if l.Nil? && r.Nil? then [d] else Leaves(l) + Leaves(r)
  }

  ghost function NodeCount(t: HTree): nat
  {
    match t
    case Nil => 0
    case Node(_, l, r) => 1 + NodeCount(l) + NodeCount(r)
  }

  /** A full tree with `n` leaves has `2n - 1` nodes. */
  lemma {:induction false} FullNodeCount(t: HTree)
    requires Full(t)
    ensures NodeCount(t) == 2 * |Leaves(t)| - 1
  {
    if !IsLeaf(t) {
      FullNodeCount(t.left);
      FullNodeCount(t.right);
    }
  }

  /** The root built for a single symbol: a node with no symbol of its own
      (the source leaves its data uninitialised; the model puts NUL there)
      whose only child is a left leaf holding the symbol. */
  function SingleRoot(c: Char8): HTree
  {
    Node(Nul, Leaf(c), Nil)
  }

  // ---------------------------------------------------------------------
  // The forest of `_create_tree`
  // ---------------------------------------------------------------------

  ghost function SizeOf(n: HFNode): int { NodeCount(n.node) }

  ghost function LeafBag(n: HFNode): multiset<Char8> { multiset(Leaves(n.node)) }

  function ElemBag(w: WeightedInfo): multiset<Char8> { multiset{w.elem} }

  /** The symbols of a weight table, with repetitions. */
  ghost function Symbols(ws: seq<WeightedInfo>): multiset<Char8>
  {
    BagOf(ws, ElemBag)
  }

  /** The sum of the weights of a weight table. */
  ghost function TotalWeight(ws: seq<WeightedInfo>): int
  {
    SumOf(ws, InfoWeight)
  }

  /** The initial forest: one leaf per table entry, in table order. */
  function LeafForest(ws: seq<WeightedInfo>): seq<HFNode>
  {
    seq(|ws|, k requires 0 <= k < |ws| => HFNode(Leaf(ws[k].elem), ws[k].weight))
  }

  /** The entry that replaces the last two: a node carrying the symbol of the
      first tree of the forest, with the second-to-last tree as its left
      child, the last one as its right child, and their weights added. */
  function Merged(first: HFNode, a: HFNode, b: HFNode): HFNode
    requires first.node.Node?
  {
    HFNode(Node(first.node.data, a.node, b.node), a.weight + b.weight)
  }

  /** What holds of the forest at each test of the merge loop, for the table
      `ws` and the node counter `count`. */
  ghost predicate ForestOf(f: seq<HFNode>, ws: seq<WeightedInfo>, count: int)
  {
    && |f| >= 1
    && SortedBy(f, WeightOf, false)
    && (forall k :: 0 <= k < |f| ==> Full(f[k].node))
    && SumOf(f, WeightOf) == TotalWeight(ws)
    && BagOf(f, LeafBag) == Symbols(ws)
    && count == SumOf(f, SizeOf)
  }

  /** In a forest sorted by descending weight the last two entries are the
      two lightest. */
  lemma LastTwoLightest(f: seq<HFNode>)
    requires |f| >= 2 && SortedBy(f, WeightOf, false)
    ensures forall k :: 0 <= k < |f| - 2 ==> f[k].weight >= f[|f| - 2].weight
    ensures f[|f| - 2].weight >= f[|f| - 1].weight
  {
  }

  lemma {:induction false} LeafForestSums(ws: seq<WeightedInfo>)
    ensures SumOf(LeafForest(ws), WeightOf) == TotalWeight(ws)
    ensures BagOf(LeafForest(ws), LeafBag) == Symbols(ws)
    ensures SumOf(LeafForest(ws), SizeOf) == |ws|
    decreases |ws|
  {
    if ws != [] {
      var n := |ws| - 1;
      assert LeafForest(ws)[..n] == LeafForest(ws[..n]);
      assert NodeCount(LeafForest(ws)[n].node) == 1;
      LeafForestSums(ws[..n]);
    }
  }

  /** The initial forest of a sorted table satisfies the loop invariant. */
  lemma SeedForest(ws: seq<WeightedInfo>)
    requires |ws| >= 1 && SortedBy(ws, InfoWeight, false)
    ensures ForestOf(LeafForest(ws), ws, |ws|)
  {
    LeafForestSums(ws);
  }

  /** `f(s[0]) + ... + f(s[n - 1])` split off its last two terms. */
  lemma SplitLastTwo(e: seq<HFNode>)
    requires |e| >= 2
    ensures SumOf(e, WeightOf) == SumOf(e[..|e| - 2], WeightOf) + e[|e| - 2].weight + e[|e| - 1].weight
    ensures SumOf(e, SizeOf) == SumOf(e[..|e| - 2], SizeOf) + SizeOf(e[|e| - 2]) + SizeOf(e[|e| - 1])
    ensures BagOf(e, LeafBag) == BagOf(e[..|e| - 2], LeafBag) + LeafBag(e[|e| - 2]) + LeafBag(e[|e| - 1])
  {
    var n := |e|;
    assert e[..n - 1][..n - 2] == e[..n - 2];
  }

  /** One merge keeps the loop invariant and adds one node. */
  lemma MergeKeeps(e: seq<HFNode>, p: seq<HFNode>, ws: seq<WeightedInfo>, count: int)
    requires ForestOf(e, ws, count) && |e| >= 2
    requires multiset(p) == multiset(e[..|e| - 2] + [Merged(e[0], e[|e| - 2], e[|e| - 1])])
    requires SortedBy(p, WeightOf, false)
    ensures ForestOf(p, ws, count + 1) && |p| == |e| - 1
  {
    var n := |e|;
    var a, b := e[n - 2], e[n - 1];
    var m := Merged(e[0], a, b);
    var r := e[..n - 2] + [m];
    assert |p| == |multiset(p)| == |r|;
    assert Full(m.node) && LeafBag(m) == LeafBag(a) + LeafBag(b) && SizeOf(m) == 1 + SizeOf(a) + SizeOf(b);
    forall k | 0 <= k < |p| ensures Full(p[k].node) {
      assert p[k] in multiset(r);
    }
    assert r[..|r| - 1] == e[..n - 2];
    SplitLastTwo(e);
    SumOfPermutation(p, r, WeightOf);
    SumOfPermutation(p, r, SizeOf);
    BagOfPermutation(p, r, LeafBag);
  }

  /** The body of the merge loop: the last two entries are popped, their
      merge is pushed, and the forest is sorted by descending weight again. */
  method MergeLastTwo(forest: Vector<HFNode>)
    requires forest.Valid() && forest.size >= 2 && forest.Get(0).node.Node?
    modifies forest, forest.buf
    ensures forest.Valid() && forest.size == old(forest.size) - 1
    ensures multiset(forest.Elements()) ==
            multiset(old(forest.Elements())[..old(forest.size) - 2] +
                     [Merged(old(forest.Get(0)), old(forest.Get(forest.size - 2)), old(forest.Get(forest.size - 1)))])
    ensures SortedBy(forest.Elements(), WeightOf, false)
    ensures forest.buf == old(forest.buf) || fresh(forest.buf)
  {
    var n := forest.size;
    var merged := Merged(forest.Get(0), forest.Get(n - 2), forest.Get(n - 1));
    ghost var e := forest.Elements();
    var r1 := forest.PopBack();
    var r2 := forest.PopBack();
    assert forest.Elements() == e[..n - 2];
    forest.PushBack(merged);
    ghost var pushed := forest.Elements();
    forest.InsertionSort(0, forest.size, WeightOf, false);
    assert forest.buf[0..forest.size] == forest.Elements();
  }

  /** The forest of `_create_tree` before the merges: one leaf per entry of
      the table, in table order. */
  method SeedLeaves(ws: seq<WeightedInfo>) returns (forest: Vector<HFNode>)
    ensures fresh(forest) && fresh(forest.buf) && forest.Valid()
    ensures forest.Elements() == LeafForest(ws)
  {
    forest := new Vector<HFNode>();
    var i := 0;
    while i < |ws|
      invariant 0 <= i <= |ws|
      invariant forest.Valid() && fresh(forest) && fresh(forest.buf)
      invariant forest.Elements() == LeafForest(ws[..i])
    {
      forest.PushBack(HFNode(Leaf(ws[i].elem), ws[i].weight));
      assert LeafForest(ws[..i + 1]) == LeafForest(ws[..i]) + [HFNode(Leaf(ws[i].elem), ws[i].weight)];
      i := i + 1;
    }
    assert ws[..i] == ws;
  }

  /** When one tree is left, it holds every symbol, weighs the whole table
      and has `2N - 1` nodes. */
  lemma LastTree(top: HFNode, ws: seq<WeightedInfo>, count: int)
    requires ForestOf([top], ws, count)
    ensures Full(top.node)
    ensures top.weight == TotalWeight(ws)
    ensures multiset(Leaves(top.node)) == Symbols(ws)
    ensures count == NodeCount(top.node) == 2 * |ws| - 1
  {
    assert [top][..0] == [];
    assert SumOf([top], WeightOf) == top.weight;
    assert SumOf([top], SizeOf) == NodeCount(top.node);
    assert BagOf([top], LeafBag) == multiset(Leaves(top.node));
    BagOfSingletons(ws, ElemBag);
    assert |Leaves(top.node)| == |multiset(Leaves(top.node))| == |ws|;
    FullNodeCount(top.node);
  }

  /** The merge loop of `_create_tree` for two or more entries: the forest of
      leaves shrinks by one entry per merge until one tree is left, and the
      node counter (`size_`) grows by one per merge. */
  method MergeForest(ws: seq<WeightedInfo>) returns (top: HFNode, count: nat)
    requires |ws| >= 2 && SortedBy(ws, InfoWeight, false)
    ensures Full(top.node)
    ensures top.weight == TotalWeight(ws)
    ensures multiset(Leaves(top.node)) == Symbols(ws)
    ensures count == NodeCount(top.node) == 2 * |ws| - 1
  {
    var forest := SeedLeaves(ws);
    count := forest.size;
    SeedForest(ws);
    while forest.size > 1
      invariant forest.Valid() && fresh(forest) && fresh(forest.buf)
      invariant ForestOf(forest.Elements(), ws, count)
      decreases forest.size
    {
      ghost var e := forest.Elements();
      assert Full(e[0].node);
      count := count + 1;
      MergeLastTwo(forest);
      MergeKeeps(e, forest.Elements(), ws, count - 1);
    }
    top := forest.Get(0);
    assert forest.Elements() == [top];
    LastTree(top, ws, count);
  }

  // ---------------------------------------------------------------------
  // Codes
  // ---------------------------------------------------------------------

  /** What `_create_code_one(node, prefix)` appends to the code table: one
      entry per leaf, left to right, whose code is the path from `node`
      ('0' for a left step, '1' for a right step) after `prefix`. */
  function CodesOf(t: HTree, prefix: seq<Char8>): seq<HFCode>
  {
    match t
    case Nil => []
    case Node(d, l, r) =>
      if l.Nil? && r.Nil? then [HFCode(d, prefix)]
      else CodesOf(l, prefix + [Zero]) + CodesOf(r, prefix + [One])
  }

  function CodeElems(cs: seq<HFCode>): seq<Char8>
  {
    seq(|cs|, k requires 0 <= k < |cs| => cs[k].elem)
  }

  /** The code table lists the leaves, one entry each, left to right. */
  lemma {:induction false} CodesListLeaves(t: HTree, prefix: seq<Char8>)
    ensures CodeElems(CodesOf(t, prefix)) == Leaves(t)
  {
    if t.Node? && !IsLeaf(t) {
      CodesListLeaves(t.left, prefix + [Zero]);
      CodesListLeaves(t.right, prefix + [One]);
      var a: seq<HFCode> := CodesOf(t.left, prefix + [Zero]);
      var b: seq<HFCode> := CodesOf(t.right, prefix + [One]);
      assert CodeElems(a + b) == CodeElems(a) + CodeElems(b);
    }
  }

  predicate IsBits(s: seq<Char8>)
  {
    forall k :: 0 <= k < |s| ==> s[k] == Zero || s[k] == One
  }

  /** `c` is `prefix` followed by a string of '0' and '1'. */
  predicate ExtendsBy(c: seq<Char8>, prefix: seq<Char8>)
  {
    |prefix| <= |c| && c[..|prefix|] == prefix && IsBits(c[|prefix|..])
  }

  /** Every code extends the prefix by a string of '0' and '1'. */
  lemma {:induction false} CodesExtendPrefix(t: HTree, prefix: seq<Char8>)
    ensures forall k :: 0 <= k < |CodesOf(t, prefix)| ==> ExtendsBy(CodesOf(t, prefix)[k].code, prefix)
  {
    if t.Node? && !IsLeaf(t) {
      var p0, p1 := prefix + [Zero], prefix + [One];
      CodesExtendPrefix(t.left, p0);
      CodesExtendPrefix(t.right, p1);
      var a: seq<HFCode> := CodesOf(t.left, p0);
      var b: seq<HFCode> := CodesOf(t.right, p1);
      forall k | 0 <= k < |a + b| ensures ExtendsBy((a + b)[k].code, prefix) {
        var c := (a + b)[k].code;
        var q := if k < |a| then p0 else p1;
        assert ExtendsBy(c, q);
        assert c[..|prefix|] == c[..|q|][..|prefix|];
        assert c[|prefix|..] == [c[|prefix|]] + c[|q|..];
        assert c[|prefix|] == q[|prefix|];
      }
    } else if IsLeaf(t) {
      assert CodesOf(t, prefix)[0].code[|prefix|..] == [];
    }
  }

  predicate IsPrefix(u: seq<Char8>, v: seq<Char8>)
  {
    |u| <= |v| && v[..|u|] == u
  }

  /** No code of the table is a prefix of another entry's code. */
  ghost predicate PrefixFree(cs: seq<HFCode>)
  {
    forall i, j :: 0 <= i < |cs| && 0 <= j < |cs| && i != j ==> !IsPrefix(cs[i].code, cs[j].code)
  }

  /** Because only leaves emit codes, the table is prefix-free. */
  lemma {:induction false} CodesPrefixFree(t: HTree, prefix: seq<Char8>)
    ensures PrefixFree(CodesOf(t, prefix))
  {
    if t.Node? && !IsLeaf(t) {
      var p0, p1 := prefix + [Zero], prefix + [One];
      CodesPrefixFree(t.left, p0);
      CodesPrefixFree(t.right, p1);
      CodesExtendPrefix(t.left, p0);
      CodesExtendPrefix(t.right, p1);
      var a: seq<HFCode> := CodesOf(t.left, p0);
      var b: seq<HFCode> := CodesOf(t.right, p1);
      var cs := a + b;
      forall i, j | 0 <= i < |cs| && 0 <= j < |cs| && i != j
        ensures !IsPrefix(cs[i].code, cs[j].code)
      {
        if i < |a| && j < |a| {
          assert cs[i] == a[i] && cs[j] == a[j];
        } else if i >= |a| && j >= |a| {
          assert cs[i] == b[i - |a|] && cs[j] == b[j - |a|];
        } else {
          var u, v := cs[i].code, cs[j].code;
          var n := |prefix|;
          var qu := if i < |a| then p0 else p1;
          var qv := if j < |a| then p0 else p1;
          assert ExtendsBy(u, qu) && ExtendsBy(v, qv);
          assert u[..|qu|][n] == u[n] && v[..|qv|][n] == v[n];
          assert u[n] == qu[n] && v[n] == qv[n] && u[n] != v[n];
        }
      }
    }
  }

  /** The table of the single-symbol tree holds that symbol with code "0". */
  lemma SingleSymbolCode(c: Char8)
    ensures CodesOf(SingleRoot(c), []) == [HFCode(c, [Zero])]
  {
    assert [] + [Zero] == [Zero];
  }

  /** `elem` has an entry in the table. */
  predicate HasCode(table: seq<HFCode>, elem: Char8)
  {
    exists k :: 0 <= k < |table| && table[k].elem == elem
  }

  /** `k` is the first entry of the table for `elem`. */
  predicate FirstAt(table: seq<HFCode>, elem: Char8, k: int)
  {
    0 <= k < |table| && table[k].elem == elem && forall j :: 0 <= j < k ==> table[j].elem != elem
  }

  /** `huffman_code(elem)`: the code of the first table entry for `elem`, or
      "?" when there is none. */
  function Lookup(table: seq<HFCode>, elem: Char8): (code: seq<Char8>)
    ensures !HasCode(table, elem) ==> code == [Question]
    ensures HasCode(table, elem) ==> exists k :: FirstAt(table, elem, k) && code == table[k].code
  {
    if table == [] then [Question]
    else if table[0].elem == elem then
      assert FirstAt(table, elem, 0);
      table[0].code
    else
      var r := Lookup(table[1..], elem);
      assert forall k :: 1 <= k < |table| ==> table[1..][k - 1] == table[k];
      assert HasCode(table, elem) ==> HasCode(table[1..], elem);
      assert forall k :: FirstAt(table[1..], elem, k) ==> FirstAt(table, elem, k + 1);
      r
  }

  /** An entry earlier in the table shadows every later entry for the same
      symbol, so appending a new table behind a stale one changes nothing
      for the symbols the stale one lists. */
  lemma {:induction false} StaleCodeShadows(stale: seq<HFCode>, later: seq<HFCode>, elem: Char8)
    requires HasCode(stale, elem)
    ensures Lookup(stale + later, elem) == Lookup(stale, elem)
  {
    if stale[0].elem != elem {
      assert (stale + later)[1..] == stale[1..] + later;
      var k :| 0 <= k < |stale| && stale[k].elem == elem;
      assert stale[1..][k - 1].elem == elem;
      StaleCodeShadows(stale[1..], later, elem);
    }
  }

  /** Every leaf symbol has an entry in the code table. */
  lemma LeafHasCode(t: HTree, prefix: seq<Char8>, c: Char8)
    requires c in Leaves(t)
    ensures HasCode(CodesOf(t, prefix), c)
  {
    CodesListLeaves(t, prefix);
    var cs := CodesOf(t, prefix);
    var k :| 0 <= k < |CodeElems(cs)| && CodeElems(cs)[k] == c;
    assert cs[k].elem == c;
  }

  /** A symbol is in the table's multiset iff some entry carries it. */
  lemma {:induction false} SymbolsMembers(ws: seq<WeightedInfo>, c: Char8)
    ensures c in Symbols(ws) <==> exists k :: 0 <= k < |ws| && ws[k].elem == c
    decreases |ws|
  {
    if ws != [] {
      var n := |ws| - 1;
      SymbolsMembers(ws[..n], c);
      assert forall k :: 0 <= k < n ==> ws[..n][k] == ws[k];
      if c in Symbols(ws[..n]) {
        var k :| 0 <= k < n && ws[..n][k].elem == c;
        assert ws[k].elem == c;
      }
    }
  }

  /** The copy that `weight_sequence_ = vec` makes. */
  method VectorOf<T(0,==)>(s: seq<T>) returns (v: Vector<T>)
    ensures fresh(v) && fresh(v.buf) && v.Valid() && v.Elements() == s
  {
    v := new Vector<T>();
    var i := 0;
    while i < |s|
      invariant 0 <= i <= |s|
      invariant fresh(v) && fresh(v.buf) && v.Valid() && v.Elements() == s[..i]
    {
      v.PushBack(s[i]);
      assert s[..i + 1] == s[..i] + [s[i]];
      i := i + 1;
    }
    assert s[..i] == s;
  }

  // ---------------------------------------------------------------------
  // The tree
  // ---------------------------------------------------------------------

  class HuffmanTree {
    /** `weight_sequence_`. */
    var weightSequence: Vector<WeightedInfo>
    /** `root_parent_.L_child_`, `Nil` while there is no root. */
    var root: HTree
    /** `size_`, inherited from the binary tree. */
    var size: nat
    /** `all_code_`. */
    var allCode: seq<HFCode>

    ghost predicate Valid()
      reads this, weightSequence, weightSequence.buf
    {
      weightSequence.Valid()
    }

    /** The state `huffman_tree(vec)` leaves, from the table `ws`: the table
        is sorted, and the tree and the code table are built from it. */
    ghost predicate BuiltFrom(ws: seq<WeightedInfo>)
      reads this, weightSequence, weightSequence.buf
    {
      && Valid()
      && multiset(weightSequence.Elements()) == multiset(ws)
      && SortedBy(weightSequence.Elements(), InfoWeight, false)
      && (|ws| == 0 ==> root.Nil? && size == 0)
      && (|ws| == 1 ==> root == SingleRoot(ws[0].elem) && size == 0)
      && (|ws| >= 2 ==> && Full(root) && multiset(Leaves(root)) == Symbols(ws)
                        && size == NodeCount(root) == 2 * |ws| - 1)
      && allCode == (if root.Nil? then [] else CodesOf(root, []))
    }

    /** `huffman_tree(vec)`. */
    constructor FromWeights(ws: seq<WeightedInfo>)
      ensures BuiltFrom(ws) && fresh(weightSequence)
    {
      weightSequence := new Vector<WeightedInfo>();
      root := Nil;
      size := 0;
      allCode := [];
      new;
      SetWeightInfo(ws);
    }

    /** `huffman_tree()`: no weights, no root, no codes. */
    constructor ()
      ensures Valid() && fresh(weightSequence) && fresh(weightSequence.buf)
      ensures weightSequence.Elements() == [] && root == Nil && size == 0 && allCode == []
    {
      weightSequence := new Vector<WeightedInfo>();
      root := Nil;
      size := 0;
      allCode := [];
    }

    /** `all_code()`: the table that `huffman_code` consults. */
    function AllCode(): (table: seq<HFCode>)
      reads this
      ensures forall e :: HuffmanCode(e) == Lookup(table, e)
    {
      allCode
    }

    /** `huffman_code(elem)`: the code of the first table entry for `elem`,
        or "?" when there is none. */
    function HuffmanCode(elem: Char8): (code: seq<Char8>)
      reads this
      ensures !HasCode(allCode, elem) ==> code == [Question]
      ensures HasCode(allCode, elem) ==> exists k :: FirstAt(allCode, elem, k) && code == allCode[k].code
    {
      Lookup(allCode, elem)
    }

    /** `_create_tree()` on the sorted table. */
    method CreateTree()
      requires Valid() && SortedBy(weightSequence.Elements(), InfoWeight, false)
      modifies this`root, this`size
      ensures var ws := weightSequence.Elements();
        && (|ws| == 0 ==> root == old(root) && size == old(size))
        && (|ws| == 1 ==> root == SingleRoot(ws[0].elem) && size == old(size))
        && (|ws| >= 2 ==> && Full(root) && multiset(Leaves(root)) == Symbols(ws)
                          && size == NodeCount(root) == 2 * |ws| - 1)
    {
      var n := weightSequence.size;
      if n == 0 {
        return;
      }
      if n == 1 {
        root := SingleRoot(weightSequence.Get(0).elem);
        return;
      }
      var top, count := MergeForest(weightSequence.Elements());
      size := count;
      root := top.node;
    }

    /** `_create_code_one(node, curr)`: appends the codes of the leaves
        under `node`. */
    method CreateCodeOne(node: HTree, curr: seq<Char8>)
      requires node.Node?
      modifies this`allCode
      ensures allCode == old(allCode) + CodesOf(node, curr)
      decreases node
    {
      if IsLeaf(node) {
        allCode := allCode + [HFCode(node.data, curr)];
      } else {
        if node.left.Node? {
          CreateCodeOne(node.left, curr + [Zero]);
        }
        if node.right.Node? {
          CreateCodeOne(node.right, curr + [One]);
        }
      }
    }

    /** `set_weight_info(vec)` with the table cleared before the codes are
        derived, and no code walk when there is no root. */
    method SetWeightInfo(ws: seq<WeightedInfo>)
      requires Valid()
      modifies this
      ensures Valid() && fresh(weightSequence)
      ensures multiset(weightSequence.Elements()) == multiset(ws)
      ensures SortedBy(weightSequence.Elements(), InfoWeight, false)
      ensures |ws| == 0 ==> root == old(root) && size == old(size)
      ensures |ws| == 1 ==> root == SingleRoot(ws[0].elem) && size == old(size)
      ensures |ws| >= 2 ==> && Full(root) && multiset(Leaves(root)) == Symbols(ws)
                            && size == NodeCount(root) == 2 * |ws| - 1
      ensures allCode == (if root.Nil? then [] else CodesOf(root, []))
    {
      Assign(ws);
      CreateTree();
      allCode := [];
      if root.Node? {
        CreateCodeOne(root, []);
      }
    }

    /** `set_weight_info(vec)` as written: the codes of the new tree are
        appended to whatever the table already held, and the code walk
        starts from `root()` even when there is no root, which ends the
        program (`exited`). */
    method SetWeightInfoAsWritten(ws: seq<WeightedInfo>) returns (exited: bool)
      requires Valid()
      modifies this
      ensures Valid() && fresh(weightSequence)
      ensures multiset(weightSequence.Elements()) == multiset(ws)
      ensures SortedBy(weightSequence.Elements(), InfoWeight, false)
      ensures |ws| == 0 ==> root == old(root) && size == old(size)
      ensures |ws| == 1 ==> root == SingleRoot(ws[0].elem) && size == old(size)
      ensures |ws| >= 2 ==> && Full(root) && multiset(Leaves(root)) == Symbols(ws)
                            && size == NodeCount(root) == 2 * |ws| - 1
      ensures exited <==> root.Nil?
      ensures !exited ==> allCode == old(allCode) + CodesOf(root, [])
    {
      Assign(ws);
      CreateTree();
      if root.Nil? {
        return true;
      }
      CreateCodeOne(root, []);
      return false;
    }

    /** `weight_sequence_ = vec; weight_sequence_.sort(DESCENDING);`, the
        common start of both versions; the symbols of the sorted table are
        those of `ws`. */
    method Assign(ws: seq<WeightedInfo>)
      modifies this`weightSequence
      ensures Valid() && fresh(weightSequence)
      ensures multiset(weightSequence.Elements()) == multiset(ws)
      ensures SortedBy(weightSequence.Elements(), InfoWeight, false)
      ensures |ws| == 1 ==> weightSequence.Elements() == ws
      ensures Symbols(weightSequence.Elements()) == Symbols(ws)
    {
      weightSequence := VectorOf(ws);
      weightSequence.Sort(InfoWeight, false);
      ghost var sorted := weightSequence.Elements();
      BagOfPermutation(sorted, ws, ElemBag);
      if |ws| == 1 {
        assert |sorted| == |multiset(sorted)| == 1;
        assert sorted[0] in multiset(ws);
      }
    }
  }

  /** After a build from one or more records every symbol has a code, and
      after a build from none the code table is empty. */
  lemma BuiltTable(tree: HuffmanTree, ws: seq<WeightedInfo>)
    ensures tree.BuiltFrom(ws) && |ws| == 0 ==> tree.allCode == []
    ensures tree.BuiltFrom(ws) && |ws| >= 1 ==>
      tree.allCode == CodesOf(tree.root, []) && forall c :: c in Symbols(ws) ==> HasCode(tree.allCode, c)
  {
    if tree.BuiltFrom(ws) && |ws| >= 1 {
      forall c | c in Symbols(ws) ensures HasCode(tree.allCode, c) {
        BuiltRootInternal(tree, ws, c);
      }
      BuiltRootInternal(tree, ws, Nul);
    }
  }

  /** A tree built from one or more weights has a root that is not a leaf,
      its code table is the walk from that root, and every symbol of the
      weights has a code. */
  lemma BuiltRootInternal(tree: HuffmanTree, ws: seq<WeightedInfo>, c: Char8)
    requires tree.BuiltFrom(ws) && |ws| >= 1
    ensures tree.root.Node? && !IsLeaf(tree.root) && tree.allCode == CodesOf(tree.root, [])
    ensures c in Symbols(ws) ==> HasCode(tree.allCode, c)
  {
    SymbolsMembers(ws, c);
    if |ws| >= 2 {
      FullNodeCount(tree.root);
      if c in Symbols(ws) {
        assert c in multiset(Leaves(tree.root));
        LeafHasCode(tree.root, [], c);
      }
    } else if c in Symbols(ws) {
      assert ws[0].elem == c;
      LeafHasCode(tree.root, [], c);
    }
  }
}
