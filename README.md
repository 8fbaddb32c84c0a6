# TVJ_Tree in Dafny

A model of the header-only containers of TVJ_Tree, and of the Huffman
compressor built on them, with proofs about each layer.

- `Vectors`: a growable array. The buffer is larger than `size_` by at
  least one. The module covers front and back insertion and removal, the
  `_move` shift loop, `_expand` and the quicksort with its insertion-sort
  cut-off.
- `Stacks`: a LIFO stack over a vector.
- `Kmp` and `Strings`. `Kmp` holds the reference definitions: borders,
  the first match at or after a position, and occurrence counts. `Strings`
  is the NUL-terminated character vector with:
  - insertion, append and range removal;
  - `c_str`;
  - the Knuth-Morris-Pratt `find`, proved against `Kmp`, and `_get_next`;
  - `contains`, `count` and the four lexicographic comparisons.
- `BinaryTrees`: the pointer tree as an arena of node handles.
  `root_parent_` is a sentinel handle and `nullptr` is `Nil`. The
  tree's invariant is that `sequence_in_` equals the in-order traversal.
  `_inorder_update` (stack based), `set_root`, `set_left_child` and
  `set_right_child` keep that invariant. The in-order iterator's queries
  and moves come with it.
- `SampleTree`: the chained construction of the sample program, one call
  after another. It ends in the in-order listing 1..11.
- `Bags`: sums and multiset unions over a sequence. Both stay the same
  under a permutation. This is what survives each re-sort in the Huffman
  code.
- `HuffmanTrees`: weighted records and their weight-only comparisons. The
  forest starts as one leaf per record and is merged until one tree is
  left, re-sorting after each merge. The module also holds the recursive
  code derivation and `huffman_code`.
  - Huffman nodes are never relinked, so they are immutable `HTree`
    values.
  - The tree object is a class whose fields `weight_sequence_`, `root`,
    `size_` and `all_code_` are updated by its methods.
- `HuffmanCodings`:
  - the frequency scan of a text;
  - `_half_weight`;
  - TEXT-mode `encode` and `decode`;
  - the success flags of `encode_to_file` and `decode_to_file`.

  The headline lemma is the round trip: decoding the encoding gives back
  the text.

Some types and conventions are fixed:
- Characters are `Char8`, the signed 8-bit `char` of the target compiler.
- Weights are unbounded naturals.
- A debug check that throws becomes an `Err` result.
- An `exit` that ends the program becomes `None` (or `exited`).
- An `ofstream` that fails to open becomes the boolean parameter `opens`.

## Model

| member | source | states |
|---|---|---|
| Vectors.Compare | TVJ_Vector.h:110-114 | true exactly when `a` may stand before `b` in the requested order: `key(a) <= key(b)` ascending, `>=` descending, ties allowed either way |
| Vectors.AdjacentSortedIsSorted | TVJ_Vector.h:905-912 | checking every adjacent pair, as `sorted` does, is the same as every pair being in order |
| Vectors.MoveLeftStores | TVJ_Vector.h:991-998 | a left shift stores to `i + distance` for each `i` from `start` up to `size`, in that order |
| Vectors.PopFrontAsWrittenStoresBeforeBuffer | TVJ_Vector.h:839-846 | `pop_front`'s `_move(0, -1)` first stores to slot -1, before the buffer |
| Vectors.Vector.constructor | TVJ_Vector.h:745 | a new vector is empty and has 32 slots |
| Vectors.Vector.Get | TVJ_Vector.h:921-955 | `at` and `operator[]` accept every slot up to `size_`; below `size_` the value is that element of the contents |
| Vectors.Vector.Set | TVJ_Vector.h:940-955 | writing through `operator[]` changes slot `i` and no other slot, for any `i` up to `size_`; the contents change at `i` below `size_` and not at all at `size_` (the terminator slot the string writes) |
| Vectors.Vector.StoreShifting | TVJ_Vector.h:821-827 | expands exactly when `size_ + 1 == capacity_`, then the first `size_ + 1` slots are the old contents with the value placed at `at`; `size_` itself is kept |
| Vectors.Vector.Expand | TVJ_Vector.h:975-988 | capacity doubles into a fresh buffer; size and every element are kept |
| Vectors.Vector.Move | TVJ_Vector.h:991-998 | slots `[start, size)` are copied `distance` slots over; every other slot keeps its value |
| Vectors.Vector.PushBack | TVJ_Vector.h:814-818 | the contents become the old contents plus the value at the end; the buffer doubles exactly when `size_ + 1 == capacity_` |
| Vectors.Vector.PushFront | TVJ_Vector.h:821-827 | the value goes to index 0 and every old element moves one place right; the buffer doubles under the same rule as `push_back` |
| Vectors.Vector.PopBack | TVJ_Vector.h:830-836 | fails with the overflow fault exactly on an empty vector; otherwise drops the last element |
| Vectors.Vector.PopFront | TVJ_Vector.h:839-846 | fails exactly on an empty vector, with nothing changed; otherwise drops the first element and shifts the rest left |
| Vectors.Vector.InsertAfterAsWritten | TVJ_Vector.h:849-861 | a negative index pushes at the front; an index at or past the size faults; otherwise the value lands AT `index` and the old last element drops out |
| Vectors.Vector.InsertAfter | TVJ_Vector.h:849-861 | the corrected insert: the value lands right after element `index` (at the front for a negative index) and the size grows by one; index at or past the size faults |
| Vectors.Vector.RemoveAt | TVJ_Vector.h:870-879 | faults exactly when `index >= size`; otherwise returns old element `index` and the contents lose exactly that element |
| Vectors.Vector.Clear | TVJ_Vector.h:882-885 | the contents become empty and the buffer is kept |
| Vectors.Vector.Empty | TVJ_Vector.h:888-891 | true exactly when there are no elements |
| Vectors.Vector.Equals | TVJ_Vector.h:958-966 | true exactly when both vectors hold the same elements in the same order |
| Vectors.Vector.Sorted | TVJ_Vector.h:905-912 | true exactly when the contents are in the requested order |
| Vectors.Vector.InsertDown | TVJ_Vector.h:1053-1060 | the element at `i` is carried down past the elements of `[lo, i)` that belong after it, each moved one slot up, and stops after one that belongs before it; the slots outside `[lo, i]` are unchanged |
| Vectors.Vector.InsertionSort | TVJ_Vector.h:1049-1062 | the insertion sort with the flag honoured: the range ends sorted in the requested order, is a permutation of what it held, and nothing outside it changes |
| Vectors.Vector.InsertionSortAsWritten | TVJ_Vector.h:1049-1062 | the comparison `*(j - 1) > temp` ignores the flag, so the range always ends ascending; it stays a permutation |
| Vectors.Vector.Swap | TVJ_Vector.h:95-102 | the two slots trade values; the range holding them keeps its multiset and nothing outside it changes |
| Vectors.Vector.SortPair | TVJ_Vector.h:1006-1012 | the two-element case of `_quick_sort`: at most one swap leaves the pair in the requested order, as a permutation, with the rest unchanged |
| Vectors.Vector.MeetCursors | TVJ_Vector.h:1032-1040 | the two do-while cursors meet at `i` with the pivot still at `lo`: every slot in `(lo, i]` may go before the pivot and none in `(i, hi)` may; a permutation of the range |
| Vectors.Vector.Partition | TVJ_Vector.h:1026-1042 | the pivot (the middle slot that `_medium` picks) ends at `p`, with everything before it in order towards it and everything after it in order from it; a permutation of the range |
| Vectors.Vector.QuickSort | TVJ_Vector.h:1001-1046 | the corrected quicksort: the range ends sorted in the requested order and is a permutation; the rest is unchanged |
| Vectors.Vector.QuickSortAsWritten | TVJ_Vector.h:1001-1046 | as written: ranges of at most 2 come out in the requested order but 3 to 7 come out ascending; longer ranges are only split around a pivot whose two sides are sorted ascending; always a permutation |
| Vectors.Vector.Sort | TVJ_Vector.h:915-919 | the contents end sorted in the requested order and are a permutation of the old contents |
| Vectors.DescendingSortCounterexample | TVJ_Vector.h:1043-1044 | `sort(DESCENDING)` as written on `{1, 2, 3}` leaves `[1, 2, 3]`, which is not descending |
| Stacks.Stack.Size | TVJ_Vector.h:808-811 | the number of elements on the stack |
| Stacks.Stack.Empty | TVJ_Stack.h:76-79 | true exactly when the size is zero |
| Stacks.Stack.Push | TVJ_Stack.h:82-85 | the pushed element becomes the top and the elements below are unchanged |
| Stacks.Stack.Pop | TVJ_Stack.h:88-97 | underflows exactly on an empty stack; otherwise returns the most recently pushed element and removes only that one |
| Stacks.Stack.Peak | TVJ_Stack.h:100-106 | underflows exactly on an empty stack; otherwise returns the top |
| Stacks.Stack.Top | TVJ_Stack.h:109-115 | the same answer as `peak` |
| Stacks.Stack.Clear | TVJ_Stack.h:72 | the stack becomes empty |
| Stacks.LastInFirstOut | TVJ_Stack.h:82-97 | a worked example: after pushing a, b, c, the pops give c, b, a, and a fourth pop underflows |
| Kmp.LongestBorder | TVJ_String.h:435-453 | the failure-table value of a non-empty prefix: a border of it, with no longer proper border |
| Kmp.NextValue | TVJ_String.h:435-453 | the entry `next[t]`: -1 exactly at `t = 0`, otherwise a length below `t` |
| Kmp.FirstMatch | TVJ_String.h:366-383 | the first occurrence at or after `pos`, or the text length when there is none; an empty pattern matches at `pos` |
| Kmp.FirstMatchUnique | TVJ_String.h:366-383 | any index with those three properties is the first match |
| Kmp.MismatchShift | TVJ_String.h:376-378 | after a mismatch at pattern index `j`, the text still ends in the border prefix `next[j]`, and no occurrence starts in the skipped window |
| Kmp.FindFromInside | TVJ_String.h:391-401 | a `find` from `loc` either reaches the next occurrence (and the count below it grows by one) or reaches the end with no further occurrence |
| Kmp.NoLongMatchAtEnd | TVJ_String.h:391-401 | a pattern of two or more characters never starts at the last position, so `count` as written is exact for it |
| Strings.InsertAfterFaultsAsWritten | TVJ_String.h:333-335 | the comparison the debug check writes, with the fault the string's own `_error_info` would raise: for non-negative indices it faults exactly at or past the size |
| Strings.NegativeIndexFaultsAsWritten | TVJ_String.h:333-335 | with a 64-bit `size_t`, the comparison the check writes puts every negative index at fault, because it is converted to `size_t` before comparing; this is what the check would do if its call reached `_error_info` |
| Strings.LexLessIrreflexive | TVJ_String.h:495-503 | no string is less than itself |
| Strings.LexLessTransitive | TVJ_String.h:495-503 | the order is transitive |
| Strings.LexLessTotal | TVJ_String.h:495-503 | any two distinct strings are ordered one way or the other |
| Strings.LexLessAsymmetric | TVJ_String.h:495-503 | at most one of `a < b` and `b < a` holds |
| Strings.ProperPrefixIsLess | TVJ_String.h:502 | a proper prefix comes first |
| Strings.FirstDifferenceDecides | TVJ_String.h:497-501 | after a common prefix, the first differing character decides |
| Strings.CommonPrefixDecides | TVJ_String.h:502 | when one string is a prefix of the other, the shorter one comes first |
| Strings.String.constructor | TVJ_String.h:287-290 | a new string is empty and terminated |
| Strings.String.Length | TVJ_String.h:316-319 | the number of characters |
| Strings.String.InsertAfter | TVJ_String.h:331-351 | with the signed check the comments describe, raising the string's overflow fault as intended: faults exactly at or past the size; otherwise `str` lands right after character `index` (at the front below 0) and the terminator is rewritten |
| Strings.String.Reserve | TVJ_String.h:338-341 | `_expand` until room exists for `extra` more characters and the terminator; the contents are kept |
| Strings.String.CopyIn | TVJ_String.h:345-348 | the characters of `str` are written from slot `at` on, and no other slot changes |
| Strings.String.Splice | TVJ_String.h:342-348 | `_move` followed by the copy loop puts `str` at `at`, with the tail behind it |
| Strings.String.Append | TVJ_String.h:360-364 | the contents become the old contents followed by `str`, terminated |
| Strings.String.AppendChar | TVJ_String.h:353-358 | the contents gain one character at the end, terminated |
| Strings.String.RemoveRange | TVJ_String.h:412-422 | the intended debug checks: faults (overflow past the end, range error for `end < begin`) with nothing changed; otherwise removes exactly `[begin, end)` |
| Strings.String.CStr | TVJ_String.h:424-433 | a fresh array holding the characters and then a zero |
| Strings.String.Find | TVJ_String.h:366-383 | returns the first occurrence of the pattern at or after `pos`, or the length when there is none |
| Strings.String.GetNext | TVJ_String.h:435-453 | every entry `next[q]`, `q <= |P|`, is -1 for `q = 0` and otherwise the longest proper border of `P[..q)`; the last store is to index `|P|` |
| Strings.String.Contains | TVJ_String.h:385-389 | true exactly when the pattern occurs somewhere in the string |
| Strings.String.CountAsWritten | TVJ_String.h:391-401 | 0 for an empty string; otherwise the number of occurrences, minus one when there is an occurrence at the last position |
| Strings.String.Count | TVJ_String.h:391-401 | the number of (possibly overlapping) occurrences |
| Strings.String.Less | TVJ_String.h:495-503 | lexicographic `<` |
| Strings.String.Greater | TVJ_String.h:505-513 | the mirror: `other < this` |
| Strings.String.LessEq | TVJ_String.h:515-523 | the negation of `other < this` |
| Strings.String.GreaterEq | TVJ_String.h:525-533 | the negation of `this < other` |
| Strings.ScanEnd | TVJ_String.h:379-380 | when the scan stops, `i - |str|` (if the pattern was exhausted) or the size is exactly the first match |
| Strings.NextStep | TVJ_String.h:441-446 | when the characters agree, `next[j + 1] = k + 1` is the longest border |
| Strings.FailureStep | TVJ_String.h:448-451 | `k = next[k]` falls back to the next candidate border without skipping any |
| BinaryTrees.LinkKeepsLinked | TVJ_Binary_Tree.h:415-417 | linking a new leaf as the missing child of a node keeps the parent/child pointer graph well formed |
| BinaryTrees.LinkLeftKeepsView | TVJ_Binary_Tree.h:415-425 | a new left leaf of the node at position `i` belongs right before it in the in-order listing |
| BinaryTrees.LinkRightKeepsView | TVJ_Binary_Tree.h:447-457 | a new right leaf of the node at position `i` belongs right after it in the in-order listing |
| BinaryTrees.PushStep | TVJ_Binary_Tree.h:228-232 | pushing the cursor and moving left keeps "listed + cursor's subtree + stack's pending part = whole in-order listing" |
| BinaryTrees.PopStep | TVJ_Binary_Tree.h:233-237 | popping, listing the top and moving to its right child keeps the same equation |
| BinaryTrees.BinaryTree.constructor | TVJ_Binary_Tree.h:215-217 | a new tree has no nodes and an empty sequence |
| BinaryTrees.BinaryTree.DescendLeft | TVJ_Binary_Tree.h:228-232 | pushing nodes while going left ends with no cursor and keeps the traversal invariant |
| BinaryTrees.BinaryTree.VisitTop | TVJ_Binary_Tree.h:233-237 | popping the top appends exactly it to `sequence_in_` and moves to its right child, keeping the traversal invariant |
| BinaryTrees.BinaryTree.TraversalStep | TVJ_Binary_Tree.h:226-238 | one round of the do-while keeps the traversal invariant; it goes on exactly while there is a cursor or a stacked node, and each round that goes on lists one more node |
| BinaryTrees.BinaryTree.InorderUpdate | TVJ_Binary_Tree.h:221-239 | `sequence_in_` becomes exactly the in-order listing of the nodes under the root, empty without a root |
| BinaryTrees.BinaryTree.SetRoot | TVJ_Binary_Tree.h:278-291 | with a root, only its data changes; without one, one node is allocated, the size becomes 1 and the sequence `[root]` |
| BinaryTrees.BinaryTree.Root | TVJ_Binary_Tree.h:259-263 | an iterator at the root when there is one; `None` (the `exit` of the iterator constructor) on an empty tree |
| BinaryTrees.InorderIterator.Node | TVJ_Binary_Tree.h:496-500 | the node at `index_` is an allocated node |
| BinaryTrees.InorderIterator.FindNodeIndex | TVJ_Binary_Tree.h:389-404 | the first index holding the node, or the sequence length when it is absent |
| BinaryTrees.InorderIterator.IsRoot | TVJ_Binary_Tree.h:333-337 | true exactly for the node whose parent is the sentinel |
| BinaryTrees.InorderIterator.IsLeaf | TVJ_Binary_Tree.h:339-343 | true exactly when the node's subtree lists the node alone |
| BinaryTrees.InorderIterator.IsParent | TVJ_Binary_Tree.h:345-348 | true exactly when the node's subtree lists more than the node |
| BinaryTrees.InorderIterator.IsLeftChild | TVJ_Binary_Tree.h:351-355 | true for the root (the sentinel's left child) and for the left child of its parent |
| BinaryTrees.InorderIterator.IsRightChild | TVJ_Binary_Tree.h:357-361 | exactly the nodes that are not left children |
| BinaryTrees.InorderIterator.Equals | TVJ_Binary_Tree.h:515-519 | the same index into equal sequences; over one tree, exactly when both denote the same node |
| BinaryTrees.InorderIterator.NotEquals | TVJ_Binary_Tree.h:521-525 | the negation of `==` |
| BinaryTrees.InorderIterator.Parent | TVJ_Binary_Tree.h:471-474 | an iterator at the parent; `None` (the `exit` of the iterator constructor) for the root |
| BinaryTrees.InorderIterator.LeftChild | TVJ_Binary_Tree.h:477-480 | an iterator at the left child, whose parent is this node; `None` exactly when there is none |
| BinaryTrees.InorderIterator.RightChild | TVJ_Binary_Tree.h:483-486 | an iterator at the right child, whose parent is this node; `None` exactly when there is none |
| BinaryTrees.InorderIterator.Sibling | TVJ_Binary_Tree.h:489-494 | an iterator at the other child of the same parent; `None` for the root and when that child is missing |
| BinaryTrees.InorderIterator.SetLeftChild | TVJ_Binary_Tree.h:406-436 | an existing left child only has its data replaced; otherwise one leaf is linked, the size grows by one, the leaf enters the sequence right before the node and `index_` steps past it, so the iterator keeps its node and the sequence stays the in-order listing |
| BinaryTrees.InorderIterator.OpenAt | TVJ_Binary_Tree.h:420-425 | after the `push_back`, the shift loop and the final store leave the new node at `at` with the old entries around it in order |
| BinaryTrees.InorderIterator.SetRightChild | TVJ_Binary_Tree.h:438-468 | an existing right child only has its data replaced; otherwise one leaf is linked, the size grows by one and the leaf enters the sequence at `index_ + 1`, keeping the in-order invariant |
| BinaryTrees.IteratorAt | TVJ_Binary_Tree.h:313-330 | the iterator constructor from a node: an iterator whose index holds the node, or `None` (the `exit`) when the node is not in the sequence |
| SampleTree.BuildSample | Sample.cpp:71-77 | the chained construction gives 11 nodes, 6 is the left child of 8, and the in-order listing is 1, 2, ..., 11 |
| SampleTree.SampleListing | Sample.cpp:54-68 | a worked example: the sample's data and sequence list 1 to 11 in order |
| Bags.SumOfPermutation | TVJ_Huffman_Tree.h:158 | re-sorting the forest keeps its total weight (and any other sum) |
| Bags.BagOfPermutation | TVJ_Huffman_Tree.h:158 | re-sorting the forest keeps its multiset of leaves |
| HuffmanTrees.InfoOrder | TVJ_Huffman_Tree.h:203-231 | the `weighted_info` comparisons compare weights only, and `_compare` on them is "equal weight, or `>` disagrees with the flag" |
| HuffmanTrees.NodeOrder | TVJ_Huffman_Tree.h:241-251 | the same for `HF_Node`'s `==` and `>` |
| HuffmanTrees.FullNodeCount | TVJ_Huffman_Tree.h:146-153 | a tree whose internal nodes all have two children has `2N - 1` nodes for `N` leaves |
| HuffmanTrees.LastTwoLightest | TVJ_Huffman_Tree.h:150-157 | in a descending forest the last two entries are the two lightest |
| HuffmanTrees.LeafForestSums | TVJ_Huffman_Tree.h:139-145 | the seeded forest carries the total weight, the multiset of symbols, and one node per record |
| HuffmanTrees.MergeKeeps | TVJ_Huffman_Tree.h:148-158 | one merge and re-sort keeps the total weight, the leaves and full shape, shrinks the forest by one and adds one node |
| HuffmanTrees.MergeLastTwo | TVJ_Huffman_Tree.h:150-158 | the last two entries are replaced by one node with the second-to-last as left child, the last as right child and their summed weight; the forest shrinks by one and ends sorted descending |
| HuffmanTrees.SeedLeaves | TVJ_Huffman_Tree.h:139-145 | the forest holds one leaf per weight record, in order |
| HuffmanTrees.LastTree | TVJ_Huffman_Tree.h:172 | the single tree left is full, weighs the total, has the records' symbols as leaves and `2N - 1` nodes |
| HuffmanTrees.MergeForest | TVJ_Huffman_Tree.h:139-172 | for N >= 2 records: a full tree whose weight is the sum of all weights, whose leaves are the symbols, and whose node count `size_` is `2N - 1` |
| HuffmanTrees.CodesListLeaves | TVJ_Huffman_Tree.h:188-201 | code derivation emits exactly one entry per leaf, in leaf order |
| HuffmanTrees.CodesExtendPrefix | TVJ_Huffman_Tree.h:188-201 | every emitted code is the current code followed by `'0'`/`'1'` bits |
| HuffmanTrees.CodesPrefixFree | TVJ_Huffman_Tree.h:188-201 | no emitted code is a prefix of another |
| HuffmanTrees.SingleSymbolCode | TVJ_Huffman_Tree.h:132-137 | with one symbol the table is that symbol with code `"0"` |
| HuffmanTrees.Lookup | TVJ_Huffman_Tree.h:118-126 | the code of the first entry for the symbol, `"?"` when there is none |
| HuffmanTrees.StaleCodeShadows | TVJ_Huffman_Tree.h:103-110 | entries left from an earlier build shadow every later entry for the same symbol |
| HuffmanTrees.LeafHasCode | TVJ_Huffman_Tree.h:188-201 | every leaf symbol has an entry |
| HuffmanTrees.SymbolsMembers | TVJ_Huffman_Tree.h:22-33 | a symbol is among the records' symbols exactly when some record holds it |
| HuffmanTrees.HuffmanTree.constructor | TVJ_Huffman_Tree.h:85-86 | an empty tree: no records, no root, size 0, no codes |
| HuffmanTrees.HuffmanTree.FromWeights | TVJ_Huffman_Tree.h:88-100 | everything the corrected `set_weight_info` promises, on a new tree |
| HuffmanTrees.HuffmanTree.AllCode | TVJ_Huffman_Tree.h:112-116 | the table returned is the one `huffman_code` consults, symbol by symbol |
| HuffmanTrees.HuffmanTree.HuffmanCode | TVJ_Huffman_Tree.h:118-126 | the code of the first table entry for the symbol, `"?"` when there is none |
| HuffmanTrees.BuiltTable | TVJ_Huffman_Tree.h:88-110 | after a build from no records the code table is empty; from one or more, it is the codes of the tree's leaves and every record's symbol has an entry |
| HuffmanTrees.HuffmanTree.Assign | TVJ_Huffman_Tree.h:105-106 | the records become a descending permutation of the argument |
| HuffmanTrees.HuffmanTree.CreateTree | TVJ_Huffman_Tree.h:128-173 | no records: nothing changes; one: a symbol-less root with the symbol as its only (left) leaf; more: the full merged tree with `2N - 1` nodes |
| HuffmanTrees.HuffmanTree.CreateCodeOne | TVJ_Huffman_Tree.h:188-201 | appends the codes of the subtree's leaves, each the current code extended by the path |
| HuffmanTrees.HuffmanTree.SetWeightInfo | TVJ_Huffman_Tree.h:102-110 | corrected: the records are sorted descending, the tree is rebuilt as `_create_tree` says, and the code table holds exactly the new tree's codes (none without a root) |
| HuffmanTrees.HuffmanTree.SetWeightInfoAsWritten | TVJ_Huffman_Tree.h:102-110 | as written: an empty record list ends the program when the tree has no root yet (`root()` exits); with an earlier root, `_create_tree` keeps it and its codes are appended to the old table again; a non-empty list appends the new tree's codes to the old table |
| HuffmanTrees.BuiltRootInternal | TVJ_Huffman_Tree.h:128-137 | a tree built from one or more records has an internal root, and every record's symbol has a code |
| HuffmanCodings.HalvingGuardNeverFires | TVJ_Huffman_Coding.h:123 | a `char` is never equal to 50000, so `_half_weight` is never called from the scan |
| HuffmanCodings.TabulateNew | TVJ_Huffman_Coding.h:131-135 | a character without an entry enters with weight 1 |
| HuffmanCodings.TabulateOld | TVJ_Huffman_Coding.h:119-129 | a character with an entry has that entry's weight raised by one |
| HuffmanCodings.Resort | TVJ_Huffman_Coding.h:136-140 | the periodic re-sort leaves the table sorted by descending weight and still a correct frequency table |
| HuffmanCodings.TabulatesPermutation | TVJ_Huffman_Coding.h:136-140 | the periodic re-sort keeps the table a correct frequency table |
| HuffmanCodings.HalfWeight | TVJ_Huffman_Coding.h:297-303 | every weight becomes its floor half; symbols and length unchanged |
| HuffmanCodings.CountChar | TVJ_Huffman_Coding.h:116-135 | one step of the scan extends the frequency table by one character |
| HuffmanCodings.CollectWeights | TVJ_Huffman_Coding.h:115-141 | each distinct character has exactly one entry, whose weight is its number of occurrences |
| HuffmanCodings.EncodeAppend | TVJ_Huffman_Coding.h:195-199 | encoding a concatenation concatenates the encodings |
| HuffmanCodings.DecodeCode | TVJ_Huffman_Coding.h:256-276 | walking the rest of a code from inside the tree arrives at its leaf, emits it and restarts at the root |
| HuffmanCodings.DecodeEncoded | TVJ_Huffman_Coding.h:256-276 | decoding an encoded text followed by more bits emits the text, then decodes the rest |
| HuffmanCodings.RoundTrip | TVJ_Huffman_Coding.h:172-278 | for an internal root and a text whose characters all have codes, decoding the encoding gives the text |
| HuffmanCodings.DecodePartialCode | TVJ_Huffman_Coding.h:258-275 | a proper prefix of a code emits nothing |
| HuffmanCodings.TrailingBitsDropped | TVJ_Huffman_Coding.h:270-277 | trailing bits that stop short of a leaf are dropped and the text still comes out |
| HuffmanCodings.HuffmanCoding.FromWeights | TVJ_Huffman_Coding.h:62-63 | the coder is built from the given records |
| HuffmanCodings.HuffmanCoding.FromText | TVJ_Huffman_Coding.h:65-145 | the coder is built from the text's frequency table |
| HuffmanCodings.HuffmanCoding.CodeTable | TVJ_Huffman_Coding.h:147-150 | empty for a coder built from no records; otherwise the codes of the tree's leaves, with an entry for every symbol |
| HuffmanCodings.HuffmanCoding.CodeOf | TVJ_Huffman_Coding.h:167-170 | for a symbol of the coder, the code of its first entry in the code table; `"?"` for a character without an entry |
| HuffmanCodings.HuffmanCoding.Encode | TVJ_Huffman_Coding.h:172-201 | always succeeds; the result is the concatenation of `code_of(ch)` over the text, in order |
| HuffmanCodings.HuffmanCoding.Decode | TVJ_Huffman_Coding.h:220-278 | always reports success; the result is the walk that goes left on `'0'`, right otherwise, and emits and restarts at each leaf (`None` where a missing child ends the program) |
| HuffmanCodings.HuffmanCoding.EncodeToFile | TVJ_Huffman_Coding.h:203-218 | succeeds exactly when the file opens, and then holds the encoding |
| HuffmanCodings.HuffmanCoding.DecodeToFile | TVJ_Huffman_Coding.h:280-295 | when decoding completes, succeeds exactly when the file opens, and then holds the decoding |
| HuffmanCodings.CoderRoundTrip | TVJ_Huffman_Coding.h:172-278 | for a coder built from one or more records, every text over its symbols decodes back from its encoding |
| HuffmanCodings.TextRoundTrip | TVJ_Huffman_Coding.h:65-278 | for a coder built from a non-empty text, every text over that text's characters decodes back from its encoding |

## Left out

- `TVJ_AVL_Tree.h` is not part of this model: it is unfinished (empty rotation branches, calls to members that do not exist).
- File input (`fopen_s`/`getc`/`feof`), `ofstream` output, `print_code_table` and the stream operators are I/O; a failed open is the `opens` parameter.
- Memory management (`new`, `delete`, `no_delete`, `shrink_to_fit`, destructors) and the leaked `HF_Node` allocations: the model has values and an arena, not pointers.
- Raw iterators, iterator arithmetic, `begin`/`end` and the range constructors are compiler plumbing; sorting is modelled on index ranges and iterators on an index into `sequence_in_`.
- Copies: copy constructors, `operator=` and the `*this` copies that chained calls return are not modelled separately; string arguments are passed by their contents.
- Exceptions: `error_info` and the `#ifndef NDEBUG` switches become `Err` results; the `exit` of the iterator constructor, which fires in every build, becomes `None` or `exited`.
- The string's debug checks (TVJ_String.h:324, 334, 406-407, 415) call the vector's `error_info`, whose parameter is a `TVJ_VECTOR_EXCEPTION`, with `TVJ_STRING_OVERFLOW` or `TVJ_STRING_UNDERFLOW`; one enumeration does not convert to another, so a build without `NDEBUG` does not compile, and a build with it has no check. The model gives these checks the faults the string's own `_error_info` (TVJ_String.h:40) would raise, the evident intent.
- Pre-order and post-order traversal are declared but not defined in the source; only the in-order view is modelled.
- Vector `append(value)` is `push_back` under another name, `size()` is the length of `Elements()`, and `operator!=` is the negation of `Equals`; none has a member of its own.
- Vectors.Vector.Get: the debug fault of `at` and `operator[]` for `index > size_` is not modelled as a result; the model requires `index <= size`.
- Vectors.Vector.Set: like `Get`, it requires `index <= size` instead of returning the debug fault for `index > size_`.
- Vectors.Vector.Sorted: on an empty vector `size_ - 1` wraps around as `size_t` and the loop reads past the buffer; the model answers true.
- Vectors.Vector.Move: for a right shift by `distance > 1` the loop as written also copies into the slots `start + 1 .. start + distance - 1`, from `distance` slots earlier (from before the buffer when `start + 1 < distance`); the model leaves those slots alone, and its only such caller, the string insert, overwrites them at once.
- Strings.String.InsertAfter: `insert_after(index, ch)`, the one-character overload, has no `return` and forwards to the vector; it is not modelled.
- Strings.String.RemoveRange: the terminator is written at the old end, before `size_` is reduced, exactly as written; the slot at the new end is not rewritten.
- `remove_at(index)` of the string forwards to the vector's `remove_at`, which `Vectors.Vector.RemoveAt` models.
- BinaryTrees.InorderIterator.SetLeftChild: the shift loop first copies into slot `size()` (one past the end, inside the buffer); the model shifts only the live elements.
- BinaryTrees.InorderIterator.SetRightChild: the same first copy into slot `size()` of its shift loop is not modelled either.
- BinaryTrees.InorderIterator.Parent: the const iterator's `parent()`, `left_child()` and `right_child()` use `sequence_in_` and a one-argument constructor that do not exist; the non-const versions are modelled.
- BinaryTrees.BinaryTree.Root: the const `root()` uses `root_parent_->` on a non-pointer and does not compile; the non-const `root()` is modelled.
- SampleTree.BuildSample: `set_root` returns `void`, so the chain in the sample does not compile; the model calls `set_root` and then continues from the root iterator. Each chained call is a step method.
- The Huffman tree's own `sequence_in_` and `_inorder_update` are not modelled: Huffman nodes are values, and the code derivation walks the tree directly.
- HuffmanTrees.HuffmanTree.CreateTree: the source calls `forest__.insertion_sort(DESCENDING)`, which the vector does not offer; the model sorts the whole forest descending with `InsertionSort`.
- HuffmanTrees.HuffmanTree.CreateCodeOne: the source calls `has_left_child`/`has_right_child`, which the iterator does not define; the model tests for a left and a right child.
- HuffmanTrees.HuffmanTree.CreateTree: with one record the root's data is left default-initialised; the model stores NUL there.
- HuffmanTrees.HuffmanTree.Assign: the records are sorted with the corrected `Sort`; the sort as written is `Vectors.Vector.QuickSortAsWritten`.
- HuffmanCodings.CollectWeights: the halving branch is dead (`HalvingGuardNeverFires`) and is not written out; the periodic re-sort uses the corrected `Sort`.
- HuffmanTrees.HuffmanTree.FromWeights: builds on the corrected `SetWeightInfo`; as written, an empty record list ends the program in `root()` (see `SetWeightInfoAsWritten`), while the model returns an empty tree.
- HuffmanCodings.HuffmanCoding.FromWeights: builds on `HuffmanTrees.HuffmanTree.FromWeights`, so an empty record list gives an empty coder where the source ends the program.
- HuffmanCodings.HuffmanCoding.FromText: an empty text gives an empty table, which ends the program as written; the model returns an empty coder.
- Strings.String.Append: built on the corrected `insert_after`; `append` on an empty string passes index -1, which the check's unsigned comparison (64-bit `size_t`) would put at fault if the check reached `_error_info`, see `Strings.NegativeIndexFaultsAsWritten`; the debug check as written does not compile, and every build that compiles appends.
- HuffmanCodings.HuffmanCoding.Encode: the result is built with the corrected `append` of the string; the first `append` to the cleared result passes index -1, which would fault under the intended debug check (64-bit `size_t`), see `Strings.NegativeIndexFaultsAsWritten`; the check as written does not compile.
- HuffmanCodings.HuffmanCoding.EncodeToFile: inherits the corrected `append` of `Encode`.
- HuffmanCodings.HuffmanCoding.Decode: the text decode assigns iterators (`iter = iter.left_child()`, `iter = tree_.root()`), but the iterator holds the reference member `sequence_` (TVJ_Binary_Tree.h:128), so its copy assignment is deleted and the loop does not compile as written; the model follows the evident walk from the root, left on '0' and right otherwise, emitting and restarting at each leaf.
- HuffmanCodings.HuffmanCoding.DecodeToFile: when decoding ends the program (`None`), no flag is returned at all; the contract is silent about `ok` there.
- Weights are unbounded: the 32-bit `unsigned` weight never wraps in the model.

## Findings

| source | as written | input that shows it | evidently intended | confidence | as-written member | corrected member |
|---|---|---|---|---|---|---|
| TVJ_Vector.h:849-861 | `insert_after` stores the value at `index`, shifts the tail and never increments `size_` | `{1, 2}`, `insert_after(0, 9)` gives `{9, 1}` | `{1, 9, 2}` | not executed | Vectors.Vector.InsertAfterAsWritten | Vectors.Vector.InsertAfter |
| TVJ_Vector.h:1043-1044 | the recursive `_quick_sort` calls pass no flag, and `_insertion_sort` compares with `>` | `{1, 2, 3}`, `sort(DESCENDING)` leaves `{1, 2, 3}` | `{3, 2, 1}` | not executed | Vectors.DescendingSortCounterexample | Vectors.Vector.Sort |
| TVJ_Vector.h:839-846 | `pop_front` calls `_move(0, -1)`, which stores to `vec[-1]` | any non-empty vector, `pop_front()` | `_move(1, -1)` | not executed | Vectors.PopFrontAsWrittenStoresBeforeBuffer | Vectors.Vector.PopFront |
| TVJ_String.h:368 | `find` allocates `next` with `str.size_` entries, but `_get_next` stores to `next[str.size_]` | any non-empty pattern, e.g. `find("a")` | `str.size_ + 1` entries | not executed | Strings.String.GetNext | Strings.String.Find |
| TVJ_String.h:333-335 | the debug check calls the vector's `error_info` with a string enumerator and does not compile; if the call reached the string's own `_error_info`, as evidently meant, then on a target with a 64-bit `size_t` (so that `size_t` is at least as wide as `long long`) the comparison converts the `long long` index to `size_t`, so every negative index would fault, including the -1 that `append` on an empty string passes | `""`, `append("ab")` | no fault; the documented "negative means at the front" | not executed | Strings.NegativeIndexFaultsAsWritten | Strings.String.InsertAfter |
| TVJ_String.h:391-401 | `count` stops on reaching the end, so a match at the last position loses its count | `"aa".count("a")` gives 1 | 2 | not executed | Strings.String.CountAsWritten | Strings.String.Count |
| TVJ_Huffman_Tree.h:102-110 | `set_weight_info` never clears `all_code_`, so the codes of an earlier tree shadow the new ones | `{a:1, b:2}` then `{a:5, b:1, c:1}`: `huffman_code('a')` answers from the first tree's entries | the new tree's code | not executed | HuffmanTrees.StaleCodeShadows | HuffmanTrees.HuffmanTree.SetWeightInfo |
| TVJ_Huffman_Tree.h:175-186 | with no records `_create_code` calls `root()` on a tree that still has no root, and the iterator constructor ends the program | `set_weight_info({})` on a tree with no root, e.g. a fresh `huffman_tree()` | an empty code table | not executed | HuffmanTrees.HuffmanTree.SetWeightInfoAsWritten | HuffmanTrees.HuffmanTree.SetWeightInfo |
