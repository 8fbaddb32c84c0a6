/** The dynamic array `tvj::vector`: a heap buffer `vec` of `capacity_`
    slots of which the first `size_` hold the elements, with the invariant
    `size_ < capacity_` (one slot is always free, which the string class uses
    for its terminator). */
module Vectors {
  import opened Base

  /** The capacity of a default-constructed vector. */
  const DefaultCapacity: nat := 32

  /** `_compare(a, b, is_ascending)`: `a == b || ((a > b) ^ is_ascending)`,
      where the element's own `==` and `>` compare `key` (the weight, for the
      Huffman records). */
  function Compare<T>(a: T, b: T, key: T -> int, ascending: bool): (r: bool)
    ensures r <==> (if ascending then key(a) <= key(b) else key(a) >= key(b))
  {
    key(a) == key(b) || ((key(a) > key(b)) != ascending)
  }

  /** Every pair of elements, not only neighbours, is in order. */
  ghost predicate SortedBy<T>(s: seq<T>, key: T -> int, ascending: bool)
  {
    forall i, j :: 0 <= i < j < |s| ==> Compare(s[i], s[j], key, ascending)
  }

  /** What `sorted` checks: every adjacent pair is in order. */
  ghost predicate AdjacentSorted<T>(s: seq<T>, key: T -> int, ascending: bool)
  {
    forall i :: 0 <= i < |s| - 1 ==> Compare(s[i], s[i + 1], key, ascending)
  }

  /** Checking neighbours is enough: the order is a total preorder. */
  lemma {:induction false} AdjacentSortedIsSorted<T>(s: seq<T>, key: T -> int, ascending: bool)
    ensures AdjacentSorted(s, key, ascending) <==> SortedBy(s, key, ascending)
  {
    if AdjacentSorted(s, key, ascending) && |s| > 1 {
      AdjacentSortedIsSorted(s[1..], key, ascending);
      assert AdjacentSorted(s[1..], key, ascending) by {
        forall i | 0 <= i < |s[1..]| - 1
          ensures Compare(s[1..][i], s[1..][i + 1], key, ascending)
        {
          assert s[1..][i] == s[i + 1] && s[1..][i + 1] == s[i + 2];
        }
      }
      forall i, j | 0 <= i < j < |s| ensures Compare(s[i], s[j], key, ascending) {
        if i > 0 {
          assert s[i] == s[1..][i - 1] && s[j] == s[1..][j - 1];
        } else if j > 1 {
          assert s[1] == s[1..][0] && s[j] == s[1..][j - 1];
        }
      }
    }
  }

  /** Two elements in order make a sorted run. */
  lemma PairSorted<T>(x: T, y: T, key: T -> int, ascending: bool)
    requires Compare(x, y, key, ascending)
    ensures SortedBy([x, y], key, ascending)
  {
    assert [x, y][0] == x && [x, y][1] == y;
  }

  /** Gluing two sorted runs around a separating element. */
  lemma GlueSorted<T>(a: seq<T>, x: T, b: seq<T>, key: T -> int, ascending: bool)
    requires SortedBy(a, key, ascending) && SortedBy(b, key, ascending)
    requires forall k :: 0 <= k < |a| ==> Compare(a[k], x, key, ascending)
    requires forall k :: 0 <= k < |b| ==> Compare(x, b[k], key, ascending)
    ensures SortedBy(a + [x] + b, key, ascending)
  {
    var s := a + [x] + b;
    forall i, j | 0 <= i < j < |s| ensures Compare(s[i], s[j], key, ascending) {
      if j < |a| {
        assert s[i] == a[i] && s[j] == a[j];
      } else if j == |a| {
        assert s[i] == a[i] && s[j] == x;
      } else if i > |a| {
        assert s[i] == b[i - |a| - 1] && s[j] == b[j - |a| - 1];
      } else if i == |a| {
        assert s[i] == x && s[j] == b[j - |a| - 1];
      } else {
        assert s[i] == a[i] && s[j] == b[j - |a| - 1];
      }
    }
  }

  /** A bound that every element of `b` meets is met by every element of a
      permutation of `b`. */
  lemma PermutationKeepsBound<T>(a: seq<T>, b: seq<T>, x: T, below: bool, key: T -> int, ascending: bool)
    requires multiset(a) == multiset(b)
    requires forall k :: 0 <= k < |b| ==> (if below then Compare(b[k], x, key, ascending) else Compare(x, b[k], key, ascending))
    ensures forall k :: 0 <= k < |a| ==> (if below then Compare(a[k], x, key, ascending) else Compare(x, a[k], key, ascending))
  {
    forall k | 0 <= k < |a|
      ensures if below then Compare(a[k], x, key, ascending) else Compare(x, a[k], key, ascending)
    {
      assert a[k] in multiset(b);
      var k' :| 0 <= k' < |b| && b[k'] == a[k];
    }
  }

  /** The indices that the loop of `_move(start, distance)` stores to, in
      the order of the stores, for a move to the left: `i + distance` for
      `i` running from `start` up to `size`. */
  function MoveLeftStores(start: int, size: int, distance: int): (r: seq<int>)
    requires start <= size && distance < 0
    ensures |r| == size - start
    ensures forall k :: 0 <= k < |r| ==> r[k] == start + k + distance
    decreases size - start
  {
    if start == size then [] else [start + distance] + MoveLeftStores(start + 1, size, distance)
  }

  /** `pop_front` as written calls `_move(0, -1)`, whose first store is to
      index -1, one slot before the buffer. */
  lemma PopFrontAsWrittenStoresBeforeBuffer(size: nat)
    requires size > 0
    ensures MoveLeftStores(0, size, -1)[0] == -1
  {
  }

  /** `after` is `before` with the slots `[start, size)` copied `distance`
      slots over and every other slot unchanged: the effect of `_move`. */
  ghost predicate ShiftedBy<T>(before: seq<T>, after: seq<T>, start: int, size: int, distance: int)
  {
    0 <= start <= size <= |before| == |after| &&
    (forall k :: 0 <= k < |after| && start + distance <= k < size + distance ==> after[k] == before[k - distance]) &&
    (forall k :: 0 <= k < |after| && !(start + distance <= k < size + distance) ==> after[k] == before[k])
  }

  /** A shift right by one followed by a store into the vacated slot. */
  lemma ShiftedRightThenStored<T>(before: seq<T>, after: seq<T>, start: nat, size: nat, x: T)
    requires start <= size < |before| && ShiftedBy(before, after, start, size, 1)
    ensures after[start := x][..size + 1] == before[..size][..start] + [x] + before[..size][start..]
  {
    var e := before[..size];
    var r := e[..start] + [x] + e[start..];
    var t := after[start := x];
    assert |r| == size + 1;
    forall k | 0 <= k < size + 1 ensures t[k] == r[k] {
      if k < start {
        assert r[k] == e[k] == before[k];
      } else if k > start {
        assert r[k] == e[k - 1] == before[k - 1];
      }
    }
  }

  /** A shift left by `d` closes the gap `[start - d, start)`. */
  lemma ShiftedLeft<T>(before: seq<T>, after: seq<T>, start: nat, size: nat, d: nat)
    requires d <= start <= size <= |before| && ShiftedBy(before, after, start, size, -(d as int))
    ensures after[..size - d] == before[..size][..start - d] + before[..size][start..]
  {
    var e := before[..size];
    var r := e[..start - d] + e[start..];
    assert |r| == size - d;
    forall k | 0 <= k < size - d ensures after[k] == r[k] {
      if k < start - d {
        assert r[k] == e[k] == before[k];
      } else {
        assert r[k] == e[k + d] == before[k + d];
      }
    }
  }

  /** Exchanging two slots inside `[lo, hi)` keeps the multiset of that range
      and every slot outside it. */
  lemma SwapInRange<T>(s: seq<T>, i: nat, j: nat, lo: nat, hi: nat)
    requires lo <= i < hi && lo <= j < hi && hi <= |s|
    ensures multiset(s[i := s[j]][j := s[i]][lo..hi]) == multiset(s[lo..hi])
    ensures s[i := s[j]][j := s[i]][..lo] == s[..lo]
    ensures s[i := s[j]][j := s[i]][hi..] == s[hi..]
  {
    var t := s[i := s[j]][j := s[i]];
    assert t[lo..hi] == s[lo..hi][i - lo := s[j]][j - lo := s[i]];
  }

  class Vector<T(0,==)> {
    /** `vec`; its length is `capacity_`. */
    var buf: array<T>
    /** `size_` */
    var size: nat

    ghost predicate Valid()
      reads this
    {
      size < buf.Length
    }

    /** The elements, `vec[0..size_)`. */
    function Elements(): seq<T>
      reads this, buf
      requires Valid()
    {
      buf[..size]
    }

    function Capacity(): nat
      reads this
    {
      buf.Length
    }

    constructor ()
      ensures Valid() && fresh(buf)
      ensures Elements() == [] && Capacity() == DefaultCapacity
    {
      buf := new T[DefaultCapacity];
      size := 0;
    }

    /** `at(index)` and `operator[]`: any slot up to `size_` may be read,
        the slot `size_` just past the elements included. */
    function Get(i: nat): (x: T)
      reads this, buf
      requires Valid() && i <= size
      ensures i < size ==> x == Elements()[i]
    {
      buf[i]
    }

    /** Writing through `operator[]`: element `i`, or the slot `size_` just
        past the elements, which leaves the elements as they are. */
    method Set(i: nat, x: T)
      requires Valid() && i <= size
      modifies buf
      ensures Valid() && buf[..] == old(buf[..])[i := x]
      ensures Elements() == if i < size then old(Elements())[i := x] else old(Elements())
    {
      buf[i] := x;
    }

    /** `_expand`: a buffer of twice the capacity holding the same elements. */
    method Expand()
      requires Valid()
      modifies this
      ensures Valid() && fresh(buf)
      ensures size == old(size) && Capacity() == 2 * old(Capacity())
      ensures Elements() == old(Elements())
    {
      var fresher := new T[2 * buf.Length];
      var i := 0;
      while i != size
        invariant buf == old(buf) && size == old(size)
        invariant 0 <= i <= size < buf.Length && fresher.Length == 2 * buf.Length
        invariant fresher[..i] == buf[..i]
      {
        fresher[i] := buf[i];
        i := i + 1;
      }
      buf := fresher;
    }

    /** `_move(start, distance)`: the elements `[start, size_)` are copied
        `distance` slots to the right (left when negative); every slot
        outside the target range keeps its value. */
    method Move(start: nat, distance: int)
      requires Valid() && start <= size
      requires distance > 0 ==> size + distance <= buf.Length
      requires distance < 0 ==> start + distance >= 0
      modifies buf
      ensures ShiftedBy(old(buf[..]), buf[..], start, size, distance)
    {
      if distance > 0 {
        var i: int := size + distance - 1;
        while i >= start + distance
          invariant start + distance - 1 <= i < size + distance
          invariant forall k :: i < k < size + distance ==> buf[k] == old(buf[k - distance])
          invariant forall k :: 0 <= k < buf.Length && !(i < k < size + distance) ==> buf[k] == old(buf[k])
        {
          buf[i] := buf[i - distance];
          i := i - 1;
        }
      } else if distance < 0 {
        var i := start;
        while i != size
          invariant start <= i <= size
          invariant forall k :: start + distance <= k < i + distance ==> buf[k] == old(buf[k - distance])
          invariant forall k :: 0 <= k < buf.Length && !(start + distance <= k < i + distance) ==> buf[k] == old(buf[k])
        {
          buf[i + distance] := buf[i];
          i := i + 1;
        }
      }
    }

    /** `push_back`: expand first when `size_ + 1 == capacity_`. */
    method PushBack(x: T)
      requires Valid()
      modifies this, buf
      ensures Valid() && Elements() == old(Elements()) + [x]
      ensures old(size) + 1 == old(Capacity()) ==> fresh(buf) && Capacity() == 2 * old(Capacity())
      ensures old(size) + 1 != old(Capacity()) ==> buf == old(buf)
    {
      if size + 1 == buf.Length {
        Expand();
      }
      buf[size] := x;
      size := size + 1;
    }

    /** `push_front`: the new element at index 0, every old one a slot further. */
    method PushFront(x: T)
      requires Valid()
      modifies this, buf
      ensures Valid() && Elements() == [x] + old(Elements())
      ensures old(size) + 1 == old(Capacity()) ==> fresh(buf) && Capacity() == 2 * old(Capacity())
      ensures old(size) + 1 != old(Capacity()) ==> buf == old(buf)
    {
      ghost var before := Elements();
      StoreShifting(0, x);
      size := size + 1;
      assert before[..0] == [] && before[0..] == before;
    }

    /** `pop_back`: faults on an empty vector (the source raises
        `TVJ_VECTOR_OVERFLOW` here). */
    method PopBack() returns (r: Result<()>)
      requires Valid()
      modifies this
      ensures Valid() && buf == old(buf)
      ensures r.Err? <==> old(size) == 0
      ensures r.Err? ==> r.fault == Overflow && size == old(size)
      ensures r.Ok? ==> Elements() == old(Elements())[..old(size) - 1]
    {
      if size == 0 {
        return Err(Overflow);
      }
      size := size - 1;
      return Ok(());
    }

    /** `pop_front`, with the shift starting at index 1 (see
        `PopFrontAsWrittenStoresBeforeBuffer` for the source's `_move(0, -1)`). */
    method PopFront() returns (r: Result<()>)
      requires Valid()
      modifies this, buf
      ensures Valid() && buf == old(buf)
      ensures r.Err? <==> old(size) == 0
      ensures r.Err? ==> r.fault == Overflow && size == old(size) && Elements() == old(Elements())
      ensures r.Ok? ==> Elements() == old(Elements())[1..]
    {
      if size == 0 {
        return Err(Overflow);
      }
      ghost var pre := buf[..];
      Move(1, -1);
      ShiftedLeft(pre, buf[..], 1, size, 1);
      assert pre[..size][..0] == [];
      size := size - 1;
      return Ok(());
    }

    /** `insert_after` as written: a negative index pushes at the front;
        otherwise the value is stored AT `index`, the tail is shifted right,
        and `size_` is not incremented, so the last element drops out. */
    method InsertAfterAsWritten(index: int, x: T) returns (r: Result<()>)
      requires Valid()
      modifies this, buf
      ensures Valid()
      ensures r.Err? <==> index >= old(size)
      ensures r.Err? ==> r.fault == Overflow && Elements() == old(Elements())
      ensures index < 0 ==> Elements() == [x] + old(Elements())
      ensures 0 <= index < old(size) ==>
        Elements() == old(Elements())[..index] + [x] + old(Elements())[index..old(size) - 1]
    {
      if index < 0 {
        PushFront(x);
        return Ok(());
      }
      if index >= size {
        return Err(Overflow);
      }
      ghost var before := Elements();
      StoreShifting(index, x);
      assert Elements() == (before[..index] + [x] + before[index..])[..size];
      return Ok(());
    }

    /** `insert_after` as intended: the value lands right after element
        `index` (at the front for a negative index) and `size_` grows by one. */
    method InsertAfter(index: int, x: T) returns (r: Result<()>)
      requires Valid()
      modifies this, buf
      ensures Valid()
      ensures r.Err? <==> index >= old(size)
      ensures r.Err? ==> r.fault == Overflow && Elements() == old(Elements())
      ensures index < 0 ==> Elements() == [x] + old(Elements())
      ensures 0 <= index < old(size) ==>
        Elements() == old(Elements())[..index + 1] + [x] + old(Elements())[index + 1..]
    {
      if index < 0 {
        PushFront(x);
        return Ok(());
      }
      if index >= size {
        return Err(Overflow);
      }
      StoreShifting(index + 1, x);
      size := size + 1;
      return Ok(());
    }

    /** The shared tail of both `insert_after`s: expand when full,
        `_move(at)` and store the value at `at`; `size_` is left alone. */
    method StoreShifting(at: nat, x: T)
      requires Valid() && at <= size
      modifies this, buf
      ensures Valid() && size == old(size) && size + 1 < buf.Length
      ensures buf[..size + 1] == old(Elements())[..at] + [x] + old(Elements())[at..]
      ensures old(size) + 1 == old(Capacity()) ==> fresh(buf) && Capacity() == 2 * old(Capacity())
      ensures old(size) + 1 != old(Capacity()) ==> buf == old(buf)
    {
      if size + 1 == buf.Length {
        Expand();
      }
      ghost var pre := buf[..];
      Move(at, 1);
      ghost var moved := buf[..];
      ShiftedRightThenStored(pre, moved, at, size, x);
      buf[at] := x;
      assert buf[..] == moved[at := x];
    }

    /** `remove_at(index)`: returns the element and closes the gap. */
    method RemoveAt(index: nat) returns (r: Result<T>)
      requires Valid()
      modifies this, buf
      ensures Valid() && buf == old(buf)
      ensures r.Err? <==> index >= old(size)
      ensures r.Err? ==> r.fault == Overflow && Elements() == old(Elements())
      ensures r.Ok? ==> r.value == old(Elements())[index]
      ensures r.Ok? ==> Elements() == old(Elements())[..index] + old(Elements())[index + 1..]
    {
      if index >= size {
        return Err(Overflow);
      }
      var removed := buf[index];
      ghost var pre := buf[..];
      Move(index + 1, -1);
      ShiftedLeft(pre, buf[..], index + 1, size, 1);
      size := size - 1;
      return Ok(removed);
    }

    /** `clear` */
    method Clear()
      requires Valid()
      modifies this
      ensures Valid() && buf == old(buf) && Elements() == []
    {
      size := 0;
    }

    /** `empty` */
    function Empty(): (b: bool)
      reads this, buf
      requires Valid()
      ensures b <==> Elements() == []
    {
      size == 0
    }

    /** `operator==`: equal sizes and equal elements position by position. */
    method Equals(other: Vector<T>) returns (b: bool)
      requires Valid() && other.Valid()
      ensures b <==> Elements() == other.Elements()
    {
      if size != other.size {
        return false;
      }
      var i := 0;
      while i != size
        invariant 0 <= i <= size
        invariant buf[..i] == other.buf[..i]
      {
        if buf[i] != other.buf[i] {
          assert Elements()[i] != other.Elements()[i];
          return false;
        }
        i := i + 1;
      }
      assert Elements() == buf[..i];
      return true;
    }

    /** `sorted(is_ascending)`: every adjacent pair passes `_compare`. */
    method Sorted(key: T -> int, ascending: bool) returns (b: bool)
      requires Valid()
      ensures b <==> SortedBy(Elements(), key, ascending)
    {
      AdjacentSortedIsSorted(Elements(), key, ascending);
      var i := 0;
      while i + 1 < size
        invariant 0 <= i <= size
        invariant forall k :: 0 <= k < i && k + 1 < size ==> Compare(buf[k], buf[k + 1], key, ascending)
      {
        if !Compare(buf[i], buf[i + 1], key, ascending) {
          assert Elements()[i] == buf[i] && Elements()[i + 1] == buf[i + 1];
          return false;
        }
        i := i + 1;
      }
      return true;
    }

    /** `_swap(a, b)` on two slots of `[lo, hi)`. */
    method Swap(i: nat, j: nat, ghost lo: nat, ghost hi: nat)
      requires Valid() && lo <= i < hi <= buf.Length && lo <= j < hi
      modifies buf
      ensures buf[..] == old(buf[..])[i := old(buf[j])][j := old(buf[i])]
      ensures multiset(buf[lo..hi]) == old(multiset(buf[lo..hi]))
      ensures buf[..lo] == old(buf[..lo]) && buf[hi..] == old(buf[hi..])

    {
      ghost var s := buf[..];
      buf[i], buf[j] := buf[j], buf[i];
      SwapInRange(s, i, j, lo, hi);
    }

    /** `_insertion_sort(beg, end, is_ascending)` over `[lo, hi)`, with the
        comparison `_compare` is meant to make (the source's own comparison,
        which ignores the flag, is `InsertionSortAsWritten`). */
    method InsertionSort(lo: nat, hi: nat, key: T -> int, ascending: bool)
      requires Valid() && lo < hi <= size
      modifies buf
      ensures SortedBy(buf[lo..hi], key, ascending)
      ensures multiset(buf[lo..hi]) == old(multiset(buf[lo..hi]))
      ensures buf[..lo] == old(buf[..lo]) && buf[hi..] == old(buf[hi..])
    {
      var i := lo + 1;
      while i != hi
        invariant lo + 1 <= i <= hi
        invariant SortedBy(buf[lo..i], key, ascending)
        invariant multiset(buf[lo..hi]) == old(multiset(buf[lo..hi]))
        invariant buf[..lo] == old(buf[..lo]) && buf[hi..] == old(buf[hi..])
      {
        ghost var s0 := buf[..];
        var j := InsertDown(lo, i, key, ascending);
        InsertStep(s0, buf[..], lo, j, i, hi, key, ascending);
        i := i + 1;
      }
    }

    /** The inner loop of `_insertion_sort`: `vec[i]` is carried down past
        the elements of `[lo, i)` that belong after it, each moved a slot up. */
    method InsertDown(lo: nat, i: nat, key: T -> int, ascending: bool) returns (j: nat)
      requires Valid() && lo <= i < size
      modifies buf
      ensures lo <= j <= i
      ensures InsertedDown(old(buf[..]), buf[..], lo, j, i, key, ascending)
    {
      var temp := buf[i];
      j := i;
      while j > lo && !Compare(buf[j - 1], temp, key, ascending)
        invariant lo <= j <= i
        invariant forall k :: 0 <= k < buf.Length && (k < j || i < k) ==> buf[k] == old(buf[k])
        invariant forall k :: j < k <= i ==> buf[k] == old(buf[k - 1])
        invariant forall k :: j <= k < i ==> !Compare(old(buf[k]), temp, key, ascending)
      {
        buf[j] := buf[j - 1];
        j := j - 1;
      }
      buf[j] := temp;
      InsertedDownIntro(old(buf[..]), buf[..], lo, j, i, key, ascending);
    }

    /** `sort(is_ascending)`: ranges of fewer than two elements are left as
        they are; otherwise `_quick_sort` over the whole vector, with the
        flag passed on to every recursive call (the source drops it there,
        see `QuickSortAsWritten`). */
    method Sort(key: T -> int, ascending: bool)
      requires Valid()
      modifies buf
      ensures Valid() && SortedBy(Elements(), key, ascending)
      ensures multiset(Elements()) == old(multiset(Elements()))
      ensures buf[size..] == old(buf[size..])
    {
      if size < 2 {
        return;
      }
      QuickSort(0, size, key, ascending);
      assert buf[..size] == buf[0..size];
    }

    /** `_quick_sort(beg, end, is_ascending)` over `[lo, hi)`. */
    method QuickSort(lo: nat, hi: nat, key: T -> int, ascending: bool)
      requires Valid() && lo <= hi <= size
      modifies buf
      ensures SortedBy(buf[lo..hi], key, ascending)
      ensures multiset(buf[lo..hi]) == old(multiset(buf[lo..hi]))
      ensures buf[..lo] == old(buf[..lo]) && buf[hi..] == old(buf[hi..])
      decreases hi - lo
    {
      if hi - lo <= 1 {
        return;
      } else if hi - lo == 2 {
        SortPair(lo, key, ascending);
      } else if hi - lo <= 7 {
        InsertionSort(lo, hi, key, ascending);
      } else {
        var p := Partition(lo, hi, key, ascending);
        ghost var s1 := buf[..];
        QuickSort(lo, p, key, ascending);
        ghost var s2 := buf[..];
        QuickSort(p + 1, hi, key, ascending);
        QuickSortGlue(s1, s2, buf[..], lo, p, hi, key, ascending);
      }
    }

    /** The two-element case of `_quick_sort`: one comparison and at most
        one swap. */
    method SortPair(lo: nat, key: T -> int, ascending: bool)
      requires Valid() && lo + 2 <= size
      modifies buf
      ensures SortedBy(buf[lo..lo + 2], key, ascending)
      ensures multiset(buf[lo..lo + 2]) == old(multiset(buf[lo..lo + 2]))
      ensures buf[..lo] == old(buf[..lo]) && buf[lo + 2..] == old(buf[lo + 2..])
    {
      var x, y := buf[lo], buf[lo + 1];
      if !Compare(x, y, key, ascending) {
        Swap(lo, lo + 1, lo, lo + 2);
        x, y := y, x;
      }
      ghost var t := buf[..];
      assert t[lo] == x && t[lo + 1] == y;
      assert t[lo..lo + 2] == [x, y];
      PairSorted(x, y, key, ascending);
    }

    /** `_quick_sort` as written: the recursive calls pass no flag and so
        sort ascending, and `_insertion_sort` ignores the flag. Only ranges
        of at most two elements come out in the requested order. */
    method QuickSortAsWritten(lo: nat, hi: nat, key: T -> int, ascending: bool)
      requires Valid() && lo <= hi <= size
      modifies buf
      ensures hi - lo <= 2 ==> SortedBy(buf[lo..hi], key, ascending)
      ensures 2 < hi - lo <= 7 ==> SortedBy(buf[lo..hi], key, true)
      ensures hi - lo > 7 ==> exists p :: lo <= p < hi && SplitAround(buf[..], lo, p, hi, key, ascending, true)
      ensures multiset(buf[lo..hi]) == old(multiset(buf[lo..hi]))
      ensures buf[..lo] == old(buf[..lo]) && buf[hi..] == old(buf[hi..])
    {
      if hi - lo <= 1 {
        return;
      } else if hi - lo == 2 {
        SortPair(lo, key, ascending);
      } else if hi - lo <= 7 {
        InsertionSortAsWritten(lo, hi, key, ascending);
      } else {
        var p := Partition(lo, hi, key, ascending);
        ghost var s1 := buf[..];
        QuickSort(lo, p, key, true);
        ghost var s2 := buf[..];
        QuickSort(p + 1, hi, key, true);
        SplitAfterRecursion(s1, s2, buf[..], lo, p, hi, key, ascending, true);
      }
    }

    /** The partition step of `_quick_sort`: `_medium` picks the middle slot
        `lo + (len - 1) / 2`, its value is swapped to the front, the two
        cursors meet, and the pivot is swapped into the meeting slot. */
    method Partition(lo: nat, hi: nat, key: T -> int, ascending: bool) returns (p: nat)
      requires Valid() && lo < hi <= size
      modifies buf
      ensures lo <= p < hi && PivotAt(buf[..], lo, p, hi, key, ascending)
      ensures multiset(buf[lo..hi]) == old(multiset(buf[lo..hi]))
      ensures buf[..lo] == old(buf[..lo]) && buf[hi..] == old(buf[hi..])
    {
      var mid := lo + (hi - lo - 1) / 2;
      var pivot := buf[mid];
      Swap(mid, lo, lo, hi);
      ghost var s1 := buf[..];
      var i := MeetCursors(lo, hi, pivot, key, ascending);
      ghost var s := buf[..];
      Swap(lo, i, lo, hi);
      ghost var t := buf[..];
      PivotPlaced(s, t, lo, i, hi, key, ascending);
      assert multiset(t[lo..hi]) == multiset(s[lo..hi]) == multiset(s1[lo..hi]);
      assert t[..lo] == s[..lo] == s1[..lo] && t[hi..] == s[hi..] == s1[hi..];
      p := i;
    }

    /** The cursor loop of the partition step: `j` walks down past the
        elements that belong after the pivot, `i` walks up past those that
        belong before it, out-of-place pairs are swapped, until they meet. */
    method MeetCursors(lo: nat, hi: nat, pivot: T, key: T -> int, ascending: bool) returns (i: nat)
      requires Valid() && lo < hi <= size && buf[lo] == pivot
      modifies buf
      ensures lo <= i < hi && CursorsMet(buf[..], lo, i, hi, pivot, key, ascending)
      ensures multiset(buf[lo..hi]) == old(multiset(buf[lo..hi]))
      ensures buf[..lo] == old(buf[..lo]) && buf[hi..] == old(buf[hi..])
    {
      var j := hi;
      i := lo;
      while i != j
        invariant lo <= i <= j <= hi && i < hi
        invariant buf[lo] == pivot
        invariant forall k :: lo < k <= i ==> Compare(buf[k], pivot, key, ascending)
        invariant forall k :: j <= k < hi && i < k ==> !Compare(buf[k], pivot, key, ascending)
        invariant multiset(buf[lo..hi]) == old(multiset(buf[lo..hi]))
        invariant buf[..lo] == old(buf[..lo]) && buf[hi..] == old(buf[hi..])
        decreases j - i
      {
        j := j - 1;
        while !Compare(buf[j], pivot, key, ascending) && i < j
          invariant i <= j < hi
          invariant forall k :: j < k < hi && i < k ==> !Compare(buf[k], pivot, key, ascending)
        {
          j := j - 1;
        }
        if i == j {
          break;
        }
        i := i + 1;
        while Compare(buf[i], pivot, key, ascending) && i < j
          invariant lo < i <= j
          invariant forall k :: lo < k < i ==> Compare(buf[k], pivot, key, ascending)
        {
          i := i + 1;
        }
        Swap(i, j, lo, hi);
      }
      assert CursorsMet(buf[..], lo, i, hi, pivot, key, ascending);
    }

    /** `_insertion_sort` as written: it compares with `>` whatever the flag,
        so the range always ends up ascending. */
    method InsertionSortAsWritten(lo: nat, hi: nat, key: T -> int, ascending: bool)
      requires Valid() && lo < hi <= size
      modifies buf
      ensures SortedBy(buf[lo..hi], key, true)
      ensures multiset(buf[lo..hi]) == old(multiset(buf[lo..hi]))
      ensures buf[..lo] == old(buf[..lo]) && buf[hi..] == old(buf[hi..])
    {
      InsertionSort(lo, hi, key, true);
    }
  }

  /** Swapping the pivot from `lo` into the meeting slot `i` of the cursors
      leaves it between the two sides. */
  lemma PivotPlaced<T>(s: seq<T>, t: seq<T>, lo: nat, i: nat, hi: nat, key: T -> int, ascending: bool)
    requires lo <= i < hi <= |s| && t == s[lo := s[i]][i := s[lo]]
    requires CursorsMet(s, lo, i, hi, s[lo], key, ascending)
    ensures PivotAt(t, lo, i, hi, key, ascending)
  {
    forall k | lo <= k < i ensures Compare(t[k], t[i], key, ascending) {
      if k == lo {
        assert t[k] == s[i];
      } else {
        assert t[k] == s[k];
      }
    }
  }

  /** The cursors met at `i` with the pivot still at `lo`: everything in
      `(lo, i]` may go before the pivot, nothing in `(i, hi)` may. */
  ghost predicate CursorsMet<T>(s: seq<T>, lo: nat, i: nat, hi: nat, pivot: T, key: T -> int, ascending: bool)
    requires lo <= i < hi <= |s|
  {
    s[lo] == pivot &&
    (forall k :: lo < k <= i ==> Compare(s[k], pivot, key, ascending)) &&
    (forall k :: i < k < hi ==> !Compare(s[k], pivot, key, ascending))
  }

  /** The element at `p` splits `[lo, hi)` in the order `ascending`. */
  ghost predicate PivotAt<T>(s: seq<T>, lo: nat, p: nat, hi: nat, key: T -> int, ascending: bool)
    requires lo <= p < hi <= |s|
  {
    (forall k :: lo <= k < p ==> Compare(s[k], s[p], key, ascending)) &&
    (forall k :: p < k < hi ==> Compare(s[p], s[k], key, ascending))
  }

  /** A pivot at `p` splits `[lo, hi)` in the order `ascending`, and both
      sides are sorted in the order `inner`. */
  ghost predicate SplitAround<T>(s: seq<T>, lo: nat, p: nat, hi: nat, key: T -> int, ascending: bool, inner: bool)
    requires lo <= p < hi <= |s|
  {
    PivotAt(s, lo, p, hi, key, ascending) &&
    SortedBy(s[lo..p], key, inner) && SortedBy(s[p + 1..hi], key, inner)
  }

  lemma SameSlicesInPrefix<T>(s: seq<T>, t: seq<T>, n: nat, lo: nat, hi: nat)
    requires n <= |s| && n <= |t| && s[..n] == t[..n] && lo <= hi <= n
    ensures s[lo..hi] == t[lo..hi]
  {
    forall k | lo <= k < hi ensures s[k] == t[k] {
      assert s[k] == s[..n][k] && t[k] == t[..n][k];
    }
  }

  lemma SameSlicesInSuffix<T>(s: seq<T>, t: seq<T>, n: nat, lo: nat, hi: nat)
    requires n <= |s| == |t| && s[n..] == t[n..] && n <= lo <= hi <= |s|
    ensures s[lo..hi] == t[lo..hi] && s[hi..] == t[hi..]
  {
    forall k | lo <= k < |s| ensures s[k] == t[k] {
      assert s[k] == s[n..][k - n] && t[k] == t[n..][k - n];
    }
  }

  /** After a partition around slot `p` and the two recursive calls of
      `_quick_sort` (in the order `inner`), the pivot still splits the range
      and both sides are sorted. */
  lemma SplitAfterRecursion<T>(s1: seq<T>, s2: seq<T>, s3: seq<T>, lo: nat, p: nat, hi: nat, key: T -> int, ascending: bool, inner: bool)
    requires lo <= p < hi <= |s1| == |s2| == |s3| && PivotAt(s1, lo, p, hi, key, ascending)
    requires SortedBy(s2[lo..p], key, inner) && multiset(s2[lo..p]) == multiset(s1[lo..p])
    requires s2[..lo] == s1[..lo] && s2[p..] == s1[p..]
    requires SortedBy(s3[p + 1..hi], key, inner) && multiset(s3[p + 1..hi]) == multiset(s2[p + 1..hi])
    requires s3[..p + 1] == s2[..p + 1] && s3[hi..] == s2[hi..]
    ensures SplitAround(s3, lo, p, hi, key, ascending, inner)
    ensures s3[lo..hi] == s3[lo..p] + [s3[p]] + s3[p + 1..hi]
    ensures multiset(s3[lo..hi]) == multiset(s1[lo..hi])
    ensures s3[..lo] == s1[..lo] && s3[hi..] == s1[hi..]
  {
    RecursionFrames(s1, s2, s3, lo, p, hi);
    var x := s1[p];
    var a, b := s3[lo..p], s3[p + 1..hi];
    var a1, b1 := s1[lo..p], s1[p + 1..hi];
    assert PivotAt(s1, lo, p, hi, key, ascending);
    forall k | 0 <= k < |a1| ensures Compare(a1[k], x, key, ascending) {
      var m := lo + k;
      assert a1[k] == s1[m] && lo <= m < p;
    }
    PermutationKeepsBound(a, a1, x, true, key, ascending);
    forall k | 0 <= k < |b1| ensures Compare(x, b1[k], key, ascending) {
      var m := p + 1 + k;
      assert b1[k] == s1[m] && p < m < hi;
    }
    PermutationKeepsBound(b, b1, x, false, key, ascending);
    forall k | lo <= k < p ensures Compare(s3[k], x, key, ascending) {
      assert s3[k] == a[k - lo];
    }
    forall k | p < k < hi ensures Compare(x, s3[k], key, ascending) {
      assert s3[k] == b[k - p - 1];
    }
    SliceAround(s3, lo, p, hi);
    SliceAround(s1, lo, p, hi);
    MultisetAround(a, x, b, a1, b1);
  }

  /** What the two recursive calls leave of the partitioned range. */
  lemma RecursionFrames<T>(s1: seq<T>, s2: seq<T>, s3: seq<T>, lo: nat, p: nat, hi: nat)
    requires lo <= p < hi <= |s1| == |s2| == |s3|
    requires s2[..lo] == s1[..lo] && s2[p..] == s1[p..]
    requires s3[..p + 1] == s2[..p + 1] && s3[hi..] == s2[hi..]
    ensures s3[lo..p] == s2[lo..p] && s3[p] == s1[p] && s2[p + 1..hi] == s1[p + 1..hi]
    ensures s3[..lo] == s1[..lo] && s3[hi..] == s1[hi..]
  {
    SameSlicesInPrefix(s3, s2, p + 1, lo, p);
    SameSlicesInPrefix(s3, s2, p + 1, 0, lo);
    SameSlicesInPrefix(s3, s2, p + 1, p, p + 1);
    SameSlicesInSuffix(s2, s1, p, p, hi);
    SameSlicesInSuffix(s2, s1, p, p + 1, hi);
    assert s3[p] == s3[p..p + 1][0] && s2[p] == s2[p..p + 1][0];
    assert s2[p] == s2[p..hi][0] && s1[p] == s1[p..hi][0];
    assert s3[..lo] == s3[0..lo] && s2[..lo] == s2[0..lo];
  }

  lemma SliceAround<T>(s: seq<T>, lo: nat, p: nat, hi: nat)
    requires lo <= p < hi <= |s|
    ensures s[lo..hi] == s[lo..p] + [s[p]] + s[p + 1..hi]
  {
    SliceSplit(s, lo, p, hi);
    SliceSplit(s, p, p + 1, hi);
    assert s[p..p + 1] == [s[p]];
  }

  lemma MultisetAround<T>(a: seq<T>, x: T, b: seq<T>, a1: seq<T>, b1: seq<T>)
    requires multiset(a) == multiset(a1) && multiset(b) == multiset(b1)
    ensures multiset(a + [x] + b) == multiset(a1 + [x] + b1)
  {
  }

  /** The two recursive calls of `_quick_sort` after a partition around
      slot `p` leave `[lo, hi)` sorted and permuted. */
  lemma QuickSortGlue<T>(s1: seq<T>, s2: seq<T>, s3: seq<T>, lo: nat, p: nat, hi: nat, key: T -> int, ascending: bool)
    requires lo <= p < hi <= |s1| == |s2| == |s3| && PivotAt(s1, lo, p, hi, key, ascending)
    requires SortedBy(s2[lo..p], key, ascending) && multiset(s2[lo..p]) == multiset(s1[lo..p])
    requires s2[..lo] == s1[..lo] && s2[p..] == s1[p..]
    requires SortedBy(s3[p + 1..hi], key, ascending) && multiset(s3[p + 1..hi]) == multiset(s2[p + 1..hi])
    requires s3[..p + 1] == s2[..p + 1] && s3[hi..] == s2[hi..]
    ensures SortedBy(s3[lo..hi], key, ascending)
    ensures multiset(s3[lo..hi]) == multiset(s1[lo..hi])
    ensures s3[..lo] == s1[..lo] && s3[hi..] == s1[hi..]
  {
    SplitAfterRecursion(s1, s2, s3, lo, p, hi, key, ascending, ascending);
    var a, b := s3[lo..p], s3[p + 1..hi];
    forall k | 0 <= k < |a| ensures Compare(a[k], s3[p], key, ascending) {
      assert a[k] == s3[lo + k];
    }
    forall k | 0 <= k < |b| ensures Compare(s3[p], b[k], key, ascending) {
      assert b[k] == s3[p + 1 + k];
    }
    GlueSorted(a, s3[p], b, key, ascending);
  }

  lemma SortedSlice<T>(s: seq<T>, p: nat, q: nat, key: T -> int, ascending: bool)
    requires SortedBy(s, key, ascending) && p <= q <= |s|
    ensures SortedBy(s[p..q], key, ascending)
  {
    forall x, y | 0 <= x < y < q - p ensures Compare(s[p..q][x], s[p..q][y], key, ascending) {
      assert s[p..q][x] == s[p + x] && s[p..q][y] == s[p + y];
    }
  }

  /** One pass of the outer insertion-sort loop: `s0[i]` moved down to slot
      `j`, past the elements that belong after it. */
  /** `s1` is `s0` with `s0[i]` carried down to `j` past the elements of
      `[j, i)`, all of which belong after it, and stopped by `s0[j - 1]`. */
  ghost predicate InsertedDown<T>(s0: seq<T>, s1: seq<T>, lo: nat, j: nat, i: nat, key: T -> int, ascending: bool)
  {
    lo <= j <= i < |s0| == |s1| &&
    (forall k :: 0 <= k < |s1| && (k < j || i < k) ==> s1[k] == s0[k]) &&
    s1[j] == s0[i] && (forall k :: j < k <= i ==> s1[k] == s0[k - 1]) &&
    (j > lo ==> Compare(s0[j - 1], s0[i], key, ascending)) &&
    (forall k :: j <= k < i ==> !Compare(s0[k], s0[i], key, ascending))
  }

  lemma InsertedDownIntro<T>(s0: seq<T>, s1: seq<T>, lo: nat, j: nat, i: nat, key: T -> int, ascending: bool)
    requires lo <= j <= i < |s0| == |s1|
    requires forall k :: 0 <= k < |s1| && (k < j || i < k) ==> s1[k] == s0[k]
    requires s1[j] == s0[i] && forall k :: j < k <= i ==> s1[k] == s0[k - 1]
    requires j > lo ==> Compare(s0[j - 1], s0[i], key, ascending)
    requires forall k :: j <= k < i ==> !Compare(s0[k], s0[i], key, ascending)
    ensures InsertedDown(s0, s1, lo, j, i, key, ascending)
  {
  }

  lemma InsertStep<T>(s0: seq<T>, s1: seq<T>, lo: nat, j: nat, i: nat, hi: nat, key: T -> int, ascending: bool)
    requires i < hi <= |s0| && InsertedDown(s0, s1, lo, j, i, key, ascending)
    requires SortedBy(s0[lo..i], key, ascending)
    ensures SortedBy(s1[lo..i + 1], key, ascending)
    ensures multiset(s1[lo..hi]) == multiset(s0[lo..hi])
    ensures s1[..lo] == s0[..lo] && s1[hi..] == s0[hi..]
  {
    var run := s0[lo..i];
    InsertStepOrder(run, j - lo, s0[i], key, ascending);
    assert run[..j - lo] == s0[lo..j];
    assert run[j - lo..] == s0[j..i];
    InsertStepFrame(s0, s1, lo, j, i, hi);
  }

  lemma InsertStepOrder<T>(s: seq<T>, m: nat, x: T, key: T -> int, ascending: bool)
    requires m <= |s| && SortedBy(s, key, ascending)
    requires m > 0 ==> Compare(s[m - 1], x, key, ascending)
    requires forall k :: m <= k < |s| ==> !Compare(s[k], x, key, ascending)
    ensures SortedBy(s[..m] + [x] + s[m..], key, ascending)
  {
    SortedSlice(s, 0, m, key, ascending);
    SortedSlice(s, m, |s|, key, ascending);
    assert s[..m] == s[0..m] && s[m..] == s[m..|s|];
    forall k | 0 <= k < m ensures Compare(s[..m][k], x, key, ascending) {
      assert s[..m][k] == s[k];
    }
    forall k | 0 <= k < |s| - m ensures Compare(x, s[m..][k], key, ascending) {
      assert s[m..][k] == s[m + k];
    }
    GlueSorted(s[..m], x, s[m..], key, ascending);
  }

  lemma AgreeSlice<T>(s0: seq<T>, s1: seq<T>, p: nat, q: nat)
    requires p <= q <= |s0| == |s1| && forall k :: p <= k < q ==> s1[k] == s0[k]
    ensures s1[p..q] == s0[p..q]
  {
  }

  /** The run `[lo, i]` after the insertion is the old run with `s0[i]`
      placed at `j`. */
  lemma InsertedRun<T>(s0: seq<T>, s1: seq<T>, lo: nat, j: nat, i: nat)
    requires lo <= j <= i < |s0| == |s1|
    requires forall k :: lo <= k < j ==> s1[k] == s0[k]
    requires s1[j] == s0[i] && forall k :: j < k <= i ==> s1[k] == s0[k - 1]
    ensures s1[lo..i + 1] == s0[lo..j] + [s0[i]] + s0[j..i]
  {
    var r := s0[lo..j] + [s0[i]] + s0[j..i];
    forall k | 0 <= k < i + 1 - lo ensures s1[lo..i + 1][k] == r[k] {
      if k < j - lo {
        assert r[k] == s0[lo + k];
      } else if k > j - lo {
        assert r[k] == s0[lo + k - 1];
      }
    }
  }

  lemma InsertStepFrame<T>(s0: seq<T>, s1: seq<T>, lo: nat, j: nat, i: nat, hi: nat)
    requires lo <= j <= i < hi <= |s0| == |s1|
    requires forall k :: 0 <= k < |s1| && (k < j || i < k) ==> s1[k] == s0[k]
    requires s1[j] == s0[i] && forall k :: j < k <= i ==> s1[k] == s0[k - 1]
    ensures s1[lo..i + 1] == s0[lo..j] + [s0[i]] + s0[j..i]
    ensures multiset(s1[lo..hi]) == multiset(s0[lo..hi])
    ensures s1[..lo] == s0[..lo] && s1[hi..] == s0[hi..]
  {
    InsertedRun(s0, s1, lo, j, i);
    AgreeSlice(s0, s1, 0, lo);
    AgreeSlice(s0, s1, i + 1, hi);
    AgreeSlice(s0, s1, hi, |s0|);
    InsertStepBag(s0, s1, lo, j, i, hi);
  }

  /** The insertion only reorders `[lo, hi)`. */
  lemma InsertStepBag<T>(s0: seq<T>, s1: seq<T>, lo: nat, j: nat, i: nat, hi: nat)
    requires lo <= j <= i < hi <= |s0| == |s1|
    requires s1[lo..i + 1] == s0[lo..j] + [s0[i]] + s0[j..i] && s1[i + 1..hi] == s0[i + 1..hi]
    ensures multiset(s1[lo..hi]) == multiset(s0[lo..hi])
  {
    var a, x, b, c := s0[lo..j], s0[i], s0[j..i], s0[i + 1..hi];
    SliceSplit(s1, lo, i + 1, hi);
    assert s1[lo..hi] == (a + [x] + b) + c;
    SliceSplit(s0, lo, j, hi);
    SliceSplit(s0, j, i, hi);
    SliceSplit(s0, i, i + 1, hi);
    assert s0[i..i + 1] == [x];
    assert s0[lo..hi] == a + (b + ([x] + c));
    MultisetRotate(a, x, b, c);
  }

  lemma MultisetRotate<T>(a: seq<T>, x: T, b: seq<T>, c: seq<T>)
    ensures multiset((a + [x] + b) + c) == multiset(a + (b + ([x] + c)))
  {
    calc {
      multiset((a + [x] + b) + c);
      multiset(a) + multiset([x]) + multiset(b) + multiset(c);
      multiset(a + (b + ([x] + c)));
    }
  }

  lemma SliceSplit<T>(s: seq<T>, p: nat, q: nat, r: nat)
    requires p <= q <= r <= |s|
    ensures s[p..r] == s[p..q] + s[q..r]
  {
  }

  /** The key of a vector of plain integers. */
  function Identity(x: int): int { x }

  /** The only ascending arrangement of `{1, 2, 3}`. */
  lemma AscendingOneTwoThree(r: seq<int>)
    requires multiset(r) == multiset{1, 2, 3} && SortedBy(r, Identity, true)
    ensures r == [1, 2, 3]
  {
    assert |r| == |multiset(r)| == 3;
    assert r == [r[0], r[1], r[2]];
    assert multiset(r) == multiset{r[0], r[1], r[2]};
    assert Compare(r[0], r[1], Identity, true) && Compare(r[1], r[2], Identity, true);
  }

  /** A fresh vector holding 1, 2, 3. */
  method OneTwoThree() returns (v: Vector<int>)
    ensures fresh(v) && fresh(v.buf) && v.Valid() && v.Elements() == [1, 2, 3]
  {
    v := new Vector<int>();
    v.PushBack(1);
    v.PushBack(2);
    v.PushBack(3);
  }

  /** `sort(DESCENDING)` as written on the vector `{1, 2, 3}` leaves it
      ascending. */
  method DescendingSortCounterexample() returns (r: seq<int>)
    ensures r == [1, 2, 3]
    ensures !SortedBy(r, Identity, false)
  {
    var v := OneTwoThree();
    v.QuickSortAsWritten(0, 3, Identity, false);
    r := v.Elements();
    assert r == v.buf[0..3];
    AscendingOneTwoThree(r);
    assert !Compare(r[0], r[1], Identity, false);
  }
}
