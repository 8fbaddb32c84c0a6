/** `tvj::stack`: a vector used only at its back end. */
module Stacks {
  import opened Base
  import opened Vectors

  class Stack<T(0,==)> {
    /** The protected `vector<Elem>` base. */
    var items: Vector<T>

    ghost predicate Valid()
      reads this, items
    {
      items.Valid()
    }

    /** The elements from the bottom to the top. */
    function Elements(): seq<T>
      reads this, items, items.buf
      requires Valid()
    {
      items.Elements()
    }

    constructor ()
      ensures Valid() && fresh(items) && fresh(items.buf) && Elements() == []
    {
      items := new Vector<T>();
    }

    /** `size` */
    function Size(): (n: nat)
      reads this, items, items.buf
      requires Valid()
      ensures n == |Elements()|
    {
      items.size
    }

    /** `empty`: `!size()`. */
    function Empty(): (b: bool)
      reads this, items, items.buf
      requires Valid()
      ensures b <==> Elements() == []
    {
      items.size == 0
    }

    /** `push`: `push_back` on the vector. */
    method Push(x: T)
      requires Valid()
      modifies items, items.buf
      ensures Valid() && items == old(items)
      ensures items.buf == old(items.buf) || fresh(items.buf)
      ensures Elements() == old(Elements()) + [x]
    {
      items.PushBack(x);
    }

    /** `pop`: an underflow fault on an empty stack; otherwise the top
        element, which is dropped. */
    method Pop() returns (r: Result<T>)
      requires Valid()
      modifies items
      ensures Valid() && items == old(items) && items.buf == old(items.buf)
      ensures r.Err? <==> old(Elements()) == []
      ensures r.Err? ==> r.fault == Underflow && Elements() == old(Elements())
      ensures r.Ok? ==> r.value == old(Elements())[|old(Elements())| - 1]
      ensures r.Ok? ==> Elements() == old(Elements())[..|old(Elements())| - 1]
    {
      if items.size == 0 {
        return Err(Underflow);
      }
      var top := items.buf[items.size - 1];
      items.size := items.size - 1;
      return Ok(top);
    }

    /** `peak`: the top element, or an underflow fault on an empty stack. */
    function Peak(): (r: Result<T>)
      reads this, items, items.buf
      requires Valid()
      ensures r.Err? <==> Elements() == []
      ensures r.Err? ==> r.fault == Underflow
      ensures r.Ok? ==> r.value == Elements()[|Elements()| - 1]
    {
      if items.size == 0 then Err(Underflow) else Ok(items.buf[items.size - 1])
    }

    /** `top`: the same query as `peak` under another name. */
    function Top(): (r: Result<T>)
      reads this, items, items.buf
      requires Valid()
      ensures r.Err? <==> Elements() == []
      ensures r.Err? ==> r.fault == Underflow
      ensures r.Ok? ==> r.value == Elements()[|Elements()| - 1]
    {
      Peak()
    }

    /** `clear` */
    method Clear()
      requires Valid()
      modifies items
      ensures Valid() && items == old(items) && items.buf == old(items.buf)
      ensures Elements() == []
    {
      items.Clear();
    }
  }

  /** A worked example of last in, first out: three pushes come back in
      reverse order, and a fourth pop underflows. */
  method LastInFirstOut<T(0,==)>(a: T, b: T, c: T) returns (first: Result<T>, second: Result<T>, third: Result<T>, fourth: Result<T>)
    ensures first == Ok(c) && second == Ok(b) && third == Ok(a)
    ensures fourth == Err(Underflow)
  {
    var s := new Stack<T>();
    s.Push(a);
    s.Push(b);
    s.Push(c);
    first := s.Pop();
    second := s.Pop();
    third := s.Pop();
    fourth := s.Pop();
  }
}
