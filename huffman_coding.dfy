/** `tvj::huffman_coding`: the weight table counted from a text, encoding
    a text as the concatenation of the codes of its characters, and the
    decoding automaton that walks the tree one bit at a time. */
module HuffmanCodings {
  import opened Base
  import opened Vectors
  import opened Bags
  import opened HuffmanTrees

  /** `HUFFMAN_CODING_WEIGHT_MAX`. */
  const WeightMax := 50000

  /** The scan sorts its table again while `count >> 7` equals this value,
      that is while the character index lies in `[16256, 16384)`. */
  const ResortRound := 127

  /** The halving guard of the scan compares the symbol, not its weight,
      with `HUFFMAN_CODING_WEIGHT_MAX`; a `char` never equals 50000, so
      `_half_weight` is never called. */
  lemma HalvingGuardNeverFires(c: Char8)
    ensures c as int != WeightMax
  {
  }

  // ---------------------------------------------------------------------
  // The weight table of a text
  // ---------------------------------------------------------------------

  /** Some entry of the table is for `c`. */
  ghost predicate HasEntry(table: seq<WeightedInfo>, c: Char8)
  {
    exists k :: 0 <= k < |table| && table[k].elem == c
  }

  /** `table` is the weight table of the text `s`: one entry per distinct
      character of `s`, none for other characters, and each weight is the
      number of occurrences of its character. */
  ghost predicate Tabulates(table: seq<WeightedInfo>, s: seq<Char8>)
  {
    && (forall i, j :: 0 <= i < j < |table| ==> table[i].elem != table[j].elem)
    && (forall c :: c in s ==> HasEntry(table, c))
    && (forall k :: 0 <= k < |table| ==> table[k].elem in s)
    && (forall k :: 0 <= k < |table| ==> table[k].weight == multiset(s)[table[k].elem])
  }

  /** A new character enters the table with weight 1. */
  lemma TabulateNew(table: seq<WeightedInfo>, s: seq<Char8>, ch: Char8)
    requires Tabulates(table, s) && !HasEntry(table, ch)
    ensures Tabulates(table + [WeightedInfo(ch, 1)], s + [ch])
  {
    var t := table + [WeightedInfo(ch, 1)];
    assert ch !in s;
    forall c | c in s + [ch] ensures HasEntry(t, c) {
      if c == ch {
        assert t[|table|].elem == ch;
      } else {
        assert c in s;
        var k :| 0 <= k < |table| && table[k].elem == c;
        assert t[k].elem == c;
      }
    }
  }

  /** A character already in the table has its weight incremented. */
  lemma TabulateOld(table: seq<WeightedInfo>, s: seq<Char8>, ch: Char8, i: nat)
    requires Tabulates(table, s) && i < |table| && table[i].elem == ch
    ensures Tabulates(table[i := WeightedInfo(ch, table[i].weight + 1)], s + [ch])
  {
    var t := table[i := WeightedInfo(ch, table[i].weight + 1)];
    forall c | c in s + [ch] ensures HasEntry(t, c) {
      if c == ch {
        assert t[i].elem == ch;
      } else {
        assert c in s;
        var k :| 0 <= k < |table| && table[k].elem == c;
        assert t[k].elem == c;
      }
    }
  }

  /** A table with distinct symbols holds each record at most once. */
  lemma {:induction false} DistinctAtMostOnce(a: seq<WeightedInfo>, x: WeightedInfo)
    requires forall i, j :: 0 <= i < j < |a| ==> a[i].elem != a[j].elem
    ensures multiset(a)[x] <= 1
    decreases |a|
  {
    if a != [] {
      var n := |a| - 1;
      assert a == a[..n] + [a[n]];
      DistinctAtMostOnce(a[..n], x);
      if a[n] == x {
        assert x !in a[..n];
      }
    }
  }

  /** A record at two positions occurs at least twice. */
  lemma TwiceCountsTwice(b: seq<WeightedInfo>, i: nat, j: nat)
    requires i < j < |b| && b[i] == b[j]
    ensures multiset(b)[b[i]] >= 2
  {
    assert b == b[..j] + [b[j]] + b[j + 1..];
    assert b[i] in b[..j];
  }

  /** Sorting the table only permutes it, so it still tabulates the text. */
  lemma TabulatesPermutation(a: seq<WeightedInfo>, b: seq<WeightedInfo>, s: seq<Char8>)
    requires Tabulates(a, s) && multiset(a) == multiset(b)
    ensures Tabulates(b, s)
  {
    forall i, j | 0 <= i < j < |b| ensures b[i].elem != b[j].elem {
      if b[i].elem == b[j].elem {
        assert b[i] in multiset(a) && b[j] in multiset(a);
        if b[i] == b[j] {
          TwiceCountsTwice(b, i, j);
          DistinctAtMostOnce(a, b[i]);
          assert false;
        } else {
          assert false;
        }
      }
    }
    forall c | c in s ensures HasEntry(b, c) {
      var k :| 0 <= k < |a| && a[k].elem == c;
      assert a[k] in multiset(b);
      var k' :| 0 <= k' < |b| && b[k'] == a[k];
    }
    forall k | 0 <= k < |b| ensures b[k].elem in s && b[k].weight == multiset(s)[b[k].elem] {
      assert b[k] in multiset(a);
      var k' :| 0 <= k' < |a| && a[k'] == b[k];
    }
  }

  /** `_half_weight(vec)`: every weight becomes its floor half; length and
      symbols stay. */
  method HalfWeight(vec: Vector<WeightedInfo>)
    requires vec.Valid()
    modifies vec.buf
    ensures vec.Valid() && vec.size == old(vec.size)
    ensures forall k :: 0 <= k < vec.size ==>
      vec.Get(k).elem == old(vec.Get(k)).elem && vec.Get(k).weight == old(vec.Get(k)).weight / 2
  {
    var i := 0;
    while i < vec.size
      invariant 0 <= i <= vec.size && vec.Valid()
      invariant forall k :: 0 <= k < i ==>
        vec.Get(k).elem == old(vec.Get(k)).elem && vec.Get(k).weight == old(vec.Get(k)).weight / 2
      invariant forall k :: i <= k < vec.size ==> vec.Get(k) == old(vec.Get(k))
    {
      var c := vec.Get(i);
      vec.Set(i, WeightedInfo(c.elem, c.weight / 2));
      i := i + 1;
    }
  }

  /** One character of the scan: the table is searched for `ch`; a hit has
      its weight incremented, a miss appends `ch` with weight 1. */
  method CountChar(vec: Vector<WeightedInfo>, ch: Char8, ghost s: seq<Char8>)
    requires vec.Valid() && Tabulates(vec.Elements(), s)
    modifies vec, vec.buf
    ensures vec.Valid() && Tabulates(vec.Elements(), s + [ch])
    ensures vec.buf == old(vec.buf) || fresh(vec.buf)
  {
    ghost var before := vec.Elements();
    var i := 0;
    while i != vec.size
      invariant 0 <= i <= vec.size && vec.Elements() == before
      invariant forall k :: 0 <= k < i ==> before[k].elem != ch
    {
      var c := vec.Get(i);
      if c.elem == ch {
        vec.Set(i, WeightedInfo(c.elem, c.weight + 1));
        TabulateOld(before, s, ch, i);
        break;
      }
      i := i + 1;
    }
    if i == vec.size {
      TabulateNew(before, s, ch);
      vec.PushBack(WeightedInfo(ch, 1));
    }
  }

  /** The periodic re-sort of the scan: the table is sorted by descending
      weight and still tabulates the characters seen so far. */
  method Resort(vec: Vector<WeightedInfo>, ghost s: seq<Char8>)
    requires vec.Valid() && Tabulates(vec.Elements(), s)
    modifies vec.buf
    ensures vec.Valid() && Tabulates(vec.Elements(), s)
    ensures SortedBy(vec.Elements(), InfoWeight, false)
  {
    ghost var unsorted := vec.Elements();
    vec.Sort(InfoWeight, false);
    TabulatesPermutation(unsorted, vec.Elements(), s);
  }

  /** The TEXT branch of `huffman_coding(str, source)`: counts the
      characters of `str` into a table, one `CountChar` step per character;
      while the index of the character lies in `[16256, 16384)` the table
      is sorted by descending weight again. The halving branch is dead
      (`HalvingGuardNeverFires`) and is not written out. */
  method CollectWeights(str: seq<Char8>) returns (table: seq<WeightedInfo>)
    ensures Tabulates(table, str)
  {
    var vec := new Vector<WeightedInfo>();
    var count := 0;
    while count < |str|
      invariant 0 <= count <= |str|
      invariant fresh(vec) && fresh(vec.buf) && vec.Valid()
      invariant Tabulates(vec.Elements(), str[..count])
    {
      CountChar(vec, str[count], str[..count]);
      assert str[..count + 1] == str[..count] + [str[count]];
      if count / 128 == ResortRound {
        Resort(vec, str[..count + 1]);
      }
      count := count + 1;
    }
    table := vec.Elements();
    assert str[..count] == str;
  }

  // ---------------------------------------------------------------------
  // Encoding and decoding
  // ---------------------------------------------------------------------

  /** The codes of the characters of `s`, concatenated in order. */
  function EncodeWith(table: seq<HFCode>, s: seq<Char8>): seq<Char8>
  {
    if s == [] then [] else Lookup(table, s[0]) + EncodeWith(table, s[1..])
  }

  lemma {:induction false} EncodeAppend(table: seq<HFCode>, a: seq<Char8>, b: seq<Char8>)
    ensures EncodeWith(table, a + b) == EncodeWith(table, a) + EncodeWith(table, b)
    decreases |a|
  {
    if a != [] {
      assert (a + b)[1..] == a[1..] + b;
      EncodeAppend(table, a[1..], b);
    } else {
      assert a + b == b;
    }
  }

  /** `out` followed by what `o` decodes, or nothing when `o` ends the
      program. */
  function Prepend(out: seq<Char8>, o: Option<seq<Char8>>): Option<seq<Char8>>
  {
    match o
    case None => None
    case Some(s) => Some(out + s)
  }

  lemma PrependTwice(a: seq<Char8>, b: seq<Char8>, o: Option<seq<Char8>>)
    ensures Prepend(a, Prepend(b, o)) == Prepend(a + b, o)
  {
    if o.Some? {
      assert a + (b + o.value) == (a + b) + o.value;
    }
  }

  lemma PrependNothing(o: Option<seq<Char8>>)
    ensures Prepend([], o) == o
  {
    if o.Some? {
      assert [] + o.value == o.value;
    }
  }

  /** The decoding automaton from the cursor `cur`: a '0' moves it to the
      left child, any other character to the right child; on a leaf the
      leaf's symbol is emitted and the cursor returns to `root`. `None`:
      the cursor is moved to a missing child (or there is no root), where
      the iterator constructor ends the program. Bits left over when the
      input ends inside the tree emit nothing. */
  function DecodeFrom(root: HTree, cur: HTree, bits: seq<Char8>): Option<seq<Char8>>
    decreases |bits|
  {
    if cur.Nil? then None
    else if bits == [] then Some([])
    else
      var next := if bits[0] == Zero then cur.left else cur.right;
      if next.Nil? then None
      else if IsLeaf(next) then Prepend([next.data], DecodeFrom(root, root, bits[1..]))
      else DecodeFrom(root, next, bits[1..])
  }

  /** Decoding the rest of the code of an entry below `t`, then `rest`,
      emits that entry's symbol and then what `rest` decodes to. */
  lemma {:induction false} DecodeCode(root: HTree, t: HTree, prefix: seq<Char8>, k: nat, rest: seq<Char8>)
    requires t.Node? && !IsLeaf(t) && k < |CodesOf(t, prefix)|
    ensures |prefix| <= |CodesOf(t, prefix)[k].code|
    ensures DecodeFrom(root, t, CodesOf(t, prefix)[k].code[|prefix|..] + rest)
         == Prepend([CodesOf(t, prefix)[k].elem], DecodeFrom(root, root, rest))
    decreases t
  {
    var p0, p1 := prefix + [Zero], prefix + [One];
    var a: seq<HFCode> := CodesOf(t.left, p0);
    var b: seq<HFCode> := CodesOf(t.right, p1);
    var e := CodesOf(t, prefix)[k];
    CodesExtendPrefix(t, prefix);
    assert ExtendsBy(e.code, prefix);
    var child, q, j := if k < |a| then t.left else t.right, if k < |a| then p0 else p1, if k < |a| then k else k - |a|;
    assert e == CodesOf(child, q)[j];
    CodesExtendPrefix(child, q);
    assert ExtendsBy(e.code, q);
    var bits := e.code[|prefix|..] + rest;
    assert bits[0] == q[|prefix|] && bits[1..] == e.code[|q|..] + rest by {
      assert e.code[|prefix|..] == [e.code[|prefix|]] + e.code[|q|..];
      assert e.code[..|q|][|prefix|] == e.code[|prefix|];
    }
    assert (if bits[0] == Zero then t.left else t.right) == child;
    if IsLeaf(child) {
      assert CodesOf(child, q) == [HFCode(child.data, q)];
      assert e.code[|q|..] == [];
    } else {
      DecodeCode(root, child, q, j, rest);
    }
  }

  /** Decoding the code the table gives `c`, then `tail`, emits `c` and
      then what `tail` decodes to. */
  lemma DecodeLookup(root: HTree, c: Char8, tail: seq<Char8>)
    requires root.Node? && !IsLeaf(root) && HasCode(CodesOf(root, []), c)
    ensures DecodeFrom(root, root, Lookup(CodesOf(root, []), c) + tail) == Prepend([c], DecodeFrom(root, root, tail))
  {
    var table := CodesOf(root, []);
    var code := Lookup(table, c);
    assert HasCode(table, c);
    assert exists k :: FirstAt(table, c, k) && code == table[k].code;
    var k :| FirstAt(table, c, k) && Lookup(table, c) == table[k].code;
    DecodeCode(root, root, [], k, tail);
    assert table[k].code[0..] == table[k].code;
  }

  /** Decoding the encoding of `text` followed by `rest` emits `text` and
      then what `rest` decodes to. */
  lemma {:induction false} DecodeEncoded(root: HTree, text: seq<Char8>, rest: seq<Char8>)
    requires root.Node? && !IsLeaf(root)
    requires forall k :: 0 <= k < |text| ==> HasCode(CodesOf(root, []), text[k])
    ensures DecodeFrom(root, root, EncodeWith(CodesOf(root, []), text) + rest) == Prepend(text, DecodeFrom(root, root, rest))
    decreases |text|
  {
    var table := CodesOf(root, []);
    if text == [] {
      assert EncodeWith(table, text) + rest == rest;
      PrependNothing(DecodeFrom(root, root, rest));
    } else {
      var tail := EncodeWith(table, text[1..]) + rest;
      assert EncodeWith(table, text) + rest == Lookup(table, text[0]) + tail;
      DecodeEncoded(root, text[1..], rest);
      DecodeLookup(root, text[0], tail);
      PrependTwice([text[0]], text[1..], DecodeFrom(root, root, rest));
      assert [text[0]] + text[1..] == text;
    }
  }

  /** The round trip: decoding the encoding of a text whose characters all
      have codes gives the text back. */
  lemma RoundTrip(root: HTree, text: seq<Char8>)
    requires root.Node? && !IsLeaf(root)
    requires forall k :: 0 <= k < |text| ==> HasCode(CodesOf(root, []), text[k])
    ensures DecodeFrom(root, root, EncodeWith(CodesOf(root, []), text)) == Some(text)
  {
    DecodeEncoded(root, text, []);
    assert EncodeWith(CodesOf(root, []), text) + [] == EncodeWith(CodesOf(root, []), text);
    assert text + [] == text;
  }

  /** A proper prefix of the rest of a code below `t` ends inside the tree
      and emits nothing. */
  lemma {:induction false} DecodePartialCode(root: HTree, t: HTree, prefix: seq<Char8>, k: nat, j: nat)
    requires t.Node? && !IsLeaf(t) && k < |CodesOf(t, prefix)|
    requires |prefix| <= j < |CodesOf(t, prefix)[k].code|
    ensures DecodeFrom(root, t, CodesOf(t, prefix)[k].code[|prefix|..j]) == Some([])
    decreases t
  {
    if j > |prefix| {
      var p0, p1 := prefix + [Zero], prefix + [One];
      var a: seq<HFCode> := CodesOf(t.left, p0);
      var e := CodesOf(t, prefix)[k];
      var child, q, i := if k < |a| then t.left else t.right, if k < |a| then p0 else p1, if k < |a| then k else k - |a|;
      assert e == CodesOf(child, q)[i];
      CodesExtendPrefix(child, q);
      assert ExtendsBy(e.code, q);
      var bits := e.code[|prefix|..j];
      assert bits[0] == q[|prefix|] && bits[1..] == e.code[|q|..j] by {
        assert e.code[..|q|][|prefix|] == e.code[|prefix|];
      }
      assert (if bits[0] == Zero then t.left else t.right) == child;
      if !IsLeaf(child) {
        DecodePartialCode(root, child, q, i, j);
      }
    }
  }

  /** Trailing bits that stop inside the tree add nothing to the output. */
  lemma TrailingBitsDropped(root: HTree, text: seq<Char8>, k: nat, j: nat)
    requires root.Node? && !IsLeaf(root)
    requires forall i :: 0 <= i < |text| ==> HasCode(CodesOf(root, []), text[i])
    requires k < |CodesOf(root, [])| && j < |CodesOf(root, [])[k].code|
    ensures DecodeFrom(root, root, EncodeWith(CodesOf(root, []), text) + CodesOf(root, [])[k].code[..j]) == Some(text)
  {
    DecodeEncoded(root, text, CodesOf(root, [])[k].code[..j]);
    DecodePartialCode(root, root, [], k, j);
    assert CodesOf(root, [])[k].code[0..j] == CodesOf(root, [])[k].code[..j];
    assert text + [] == text;
  }

  // ---------------------------------------------------------------------
  // The coder
  // ---------------------------------------------------------------------

  class HuffmanCoding {
    /** `tree_`. */
    var tree: HuffmanTree
    /** The weight table the tree was built from. */
    ghost var weights: seq<WeightedInfo>

    ghost predicate Valid()
      reads this, tree, tree.weightSequence, tree.weightSequence.buf
    {
      tree.BuiltFrom(weights)
    }

    /** `huffman_coding(vec)`. */
    constructor FromWeights(vec: seq<WeightedInfo>)
      ensures Valid() && weights == vec
    {
      tree := new HuffmanTree.FromWeights(vec);
      weights := vec;
    }

    /** `huffman_coding(str, HF_TEXT)`. */
    constructor FromText(str: seq<Char8>)
      ensures Valid() && Tabulates(weights, str)
    {
      var table := CollectWeights(str);
      tree := new HuffmanTree.FromWeights(table);
      weights := table;
    }

    /** `code_table()`: empty for a coder built from no records, otherwise
        the codes of the tree's leaves, one for every symbol. */
    function CodeTable(): (table: seq<HFCode>)
      reads this, tree, tree.weightSequence, tree.weightSequence.buf
      ensures Valid() && |weights| == 0 ==> table == []
      ensures Valid() && |weights| >= 1 ==>
        table == CodesOf(tree.root, []) && forall c :: c in Symbols(weights) ==> HasCode(table, c)
    {
      BuiltTable(tree, weights);
      tree.AllCode()
    }

    /** `code_of(ch)`: for a symbol of the coder, the code of its first
        entry in the code table; "?" for a character without an entry. */
    function CodeOf(ch: Char8): (code: seq<Char8>)
      reads this, tree, tree.weightSequence, tree.weightSequence.buf
      ensures Valid() && ch in Symbols(weights) ==>
        exists k :: FirstAt(CodeTable(), ch, k) && code == CodeTable()[k].code
      ensures !HasCode(CodeTable(), ch) ==> code == [Question]
    {
      BuiltTable(tree, weights);
      assert CodeTable() == tree.allCode;
      tree.HuffmanCode(ch)
    }

    /** The TEXT branch of `encode(str, source, result)`. */
    method Encode(str: seq<Char8>) returns (ok: bool, result: seq<Char8>)
      ensures ok
      ensures result == EncodeWith(tree.allCode, str)
    {
      ok := true;
      result := [];
      for k := 0 to |str|
        invariant result == EncodeWith(tree.allCode, str[..k])
      {
        result := result + CodeOf(str[k]);
        EncodeAppend(tree.allCode, str[..k], [str[k]]);
        assert str[..k + 1] == str[..k] + [str[k]];
        assert EncodeWith(tree.allCode, [str[k]]) == Lookup(tree.allCode, str[k]) + EncodeWith(tree.allCode, []);
      }
      assert str[..|str|] == str;
    }

    /** The TEXT branch of `decode(str, source, result)`: `None` when the
        program ends in the iterator constructor. */
    method Decode(str: seq<Char8>) returns (ok: bool, result: Option<seq<Char8>>)
      ensures ok
      ensures result == DecodeFrom(tree.root, tree.root, str)
    {
      ok := true;
      var root := tree.root;
      if root.Nil? {
        return ok, None;
      }
      var iter := root;
      var out: seq<Char8> := [];
      PrependNothing(DecodeFrom(root, root, str));
      assert str[0..] == str;
      for k := 0 to |str|
        invariant iter.Node?
        invariant DecodeFrom(root, root, str) == Prepend(out, DecodeFrom(root, iter, str[k..]))
      {
        assert str[k..][0] == str[k] && str[k..][1..] == str[k + 1..];
        var next := if str[k] == Zero then iter.left else iter.right;
        if next.Nil? {
          return ok, None;
        }
        iter := next;
        if IsLeaf(iter) {
          PrependTwice(out, [iter.data], DecodeFrom(root, root, str[k + 1..]));
          out := out + [iter.data];
          iter := root;
        }
      }
      assert str[|str|..] == [];
      assert out + [] == out;
      result := Some(out);
    }

    /** The success flag of `encode_to_file` in TEXT mode: false exactly
        when the output file does not open; `file` is what is written. */
    method EncodeToFile(str: seq<Char8>, opens: bool) returns (ok: bool, file: Option<seq<Char8>>)
      ensures ok <==> opens
      ensures opens ==> file == Some(EncodeWith(tree.allCode, str))
      ensures !opens ==> file == None
    {
      var result;
      ok, result := Encode(str);
      if opens {
        file := Some(result);
      } else {
        ok := false;
        file := None;
      }
    }

    /** The success flag of `decode_to_file` in TEXT mode, formed in the
        same way. */
    method DecodeToFile(str: seq<Char8>, opens: bool) returns (ok: bool, file: Option<seq<Char8>>)
      ensures DecodeFrom(tree.root, tree.root, str).Some? ==> (ok <==> opens)
      ensures opens ==> file == DecodeFrom(tree.root, tree.root, str)
      ensures !opens ==> file == None
    {
      var result;
      ok, result := Decode(str);
      if result.None? {
        return ok, None;
      }
      if opens {
        file := result;
      } else {
        ok := false;
        file := None;
      }
    }
  }

  /** The headline property of the coder: once it is built from one or more
      weights, decoding the encoding of any text made of the weighted symbols
      gives the text back. */
  lemma CoderRoundTrip(coder: HuffmanCoding, text: seq<Char8>)
    requires coder.Valid() && |coder.weights| >= 1
    requires forall k :: 0 <= k < |text| ==> text[k] in Symbols(coder.weights)
    ensures DecodeFrom(coder.tree.root, coder.tree.root, EncodeWith(coder.tree.allCode, text)) == Some(text)
  {
    var tree := coder.tree;
    BuiltRootInternal(tree, coder.weights, if |text| == 0 then Nul else text[0]);
    forall k | 0 <= k < |text| ensures HasCode(CodesOf(tree.root, []), text[k]) {
      BuiltRootInternal(tree, coder.weights, text[k]);
    }
    RoundTrip(tree.root, text);
  }

  /** A coder counted from a non-empty text decodes the encoding of that
      text, and of any text over its characters, back to it. */
  lemma TextRoundTrip(coder: HuffmanCoding, str: seq<Char8>, text: seq<Char8>)
    requires coder.Valid() && Tabulates(coder.weights, str) && |str| >= 1
    requires forall k :: 0 <= k < |text| ==> text[k] in str
    ensures DecodeFrom(coder.tree.root, coder.tree.root, EncodeWith(coder.tree.allCode, text)) == Some(text)
  {
    assert str[0] in str;
    assert |coder.weights| >= 1;
    forall k | 0 <= k < |text| ensures text[k] in Symbols(coder.weights) {
      var i :| 0 <= i < |coder.weights| && coder.weights[i].elem == text[k];
      SymbolsMembers(coder.weights, text[k]);
    }
    CoderRoundTrip(coder, text);
  }
}
