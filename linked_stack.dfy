/** `structures::LinkedStack<T>`: an unbounded stack of singly linked nodes, `top_` pointing at the
    most recently pushed one and `size_` counting them. */
module LinkedStacks {
  import opened Exceptions

  class Node<T> {
    var data: T
    var next: Node?<T>

    constructor (d: T, n: Node?<T>)
      ensures data == d && next == n
    {
      data := d;
      next := n;
    }
  }

  class LinkedStack<T> {
    var top: Node?<T>
    var size: nat

    /** The stacked elements, top first. */
    ghost var Contents: seq<T>
    /** The nodes holding them: `Nodes[0]` is `top_`, each node's `next` is the one below it. */
    ghost var Nodes: seq<Node<T>>
    ghost var Repr: set<object>

    /** Only the first `size_` nodes from `top_` are part of the stack: the bottom node's `next`
        is never followed, and after `clear` `top_` still points at a discarded node. */
    ghost predicate Valid()
      reads this, Repr
    {
      this in Repr && (forall i :: 0 <= i < |Nodes| ==> Nodes[i] in Repr) &&
      |Nodes| == size && |Contents| == size &&
      (size > 0 ==> top == Nodes[0]) &&
      (forall i :: 0 <= i < size ==> Nodes[i].data == Contents[i]) &&
      (forall i :: 0 <= i && i + 1 < size ==> Nodes[i].next == Nodes[i + 1])
    }

    constructor ()
      ensures Valid() && fresh(Repr)
      ensures Contents == [] && top == null
    {
      top := null;
      size := 0;
      Contents := [];
      Nodes := [];
      Repr := {this};
    }

    /** Walks the `size_` nodes from `top_`, releasing each, and sets `size_` to 0; `top_` is left
        as it was and is not followed again while the stack is empty. */
    method Clear()
      requires Valid()
      modifies this
      ensures Valid() && fresh(Repr - old(Repr))
      ensures Contents == [] && top == old(top)
    {
      var aux := top;
      var i := 0;
      while i < size
        invariant 0 <= i <= size
        invariant i < size ==> aux == Nodes[i]
      {
        var next := aux.next;
        aux := next;
        i := i + 1;
      }
      size := 0;
      Contents := [];
      Nodes := [];
    }

    /** Makes `d` the new top. */
    method Push(d: T)
      requires Valid()
      modifies this
      ensures Valid() && fresh(Repr - old(Repr))
      ensures Contents == [d] + old(Contents)
    {
      top := new Node(d, top);
      size := size + 1;
      Contents := [d] + Contents;
      Nodes := [top] + Nodes;
      Repr := Repr + {top};
    }

    /** Throws when empty, otherwise unlinks the top node and returns its element. */
    method Pop() returns (r: Result<T>)
      requires Valid()
      modifies this
      ensures Valid() && fresh(Repr - old(Repr))
      ensures old(Contents) == [] ==> r == Throws(EmptyList) && Contents == []
      ensures old(Contents) != [] ==> r == Ok(old(Contents)[0]) && Contents == old(Contents)[1..]
      ensures |old(Contents)| == 1 ==> top == null
    {
      if Empty() {
        return Throws(EmptyList);
      }
      var aux := top;
      var nodeData := aux.data;
      top := aux.next;
      size := size - 1;
      if size == 0 {
        top := null;
      }
      Contents := Contents[1..];
      Nodes := Nodes[1..];
      return Ok(nodeData);
    }

    /** Throws when empty, otherwise returns the top element; nothing changes. */
    method Top() returns (r: Result<T>)
      requires Valid()
      ensures Contents == [] ==> r == Throws(EmptyList)
      ensures Contents != [] ==> r == Ok(Contents[0])
    {
      if Empty() {
        return Throws(EmptyList);
      }
      return Ok(top.data);
    }

    function Empty(): (r: bool)
      reads this, Repr
      requires Valid()
      ensures r <==> Contents == []
    {
      size == 0
    }

    function Size(): (r: nat)
      reads this, Repr
      requires Valid()
      ensures r == |Contents|
    {
      size
    }
  }

  /** `push(x)` followed by `pop()` returns `x` and leaves the stack as it was. */
  method PushThenPop<T>(s: LinkedStack<T>, x: T) returns (r: Result<T>)
    requires s.Valid()
    modifies s
    ensures s.Valid() && r == Ok(x) && s.Contents == old(s.Contents)
  {
    s.Push(x);
    r := s.Pop();
  }
}
