/** `structures::DoublyLinkedList`: a list of doubly linked nodes between `head` and `tail`,
    addressed by index; walks start from whichever end is nearer. */
module DoublyLinkedLists {
  import opened Exceptions
  import opened Sequences
  import opened DoublyLinkedNodes
  import SizeT

  class DoublyLinkedList {
    var head: Node?
    var tail: Node?
    var size: nat

    /** The elements, index 0 first. */
    ghost var Contents: seq<int>
    /** The nodes holding them, in `next` order. */
    ghost var Nodes: seq<Node>

    /** The link invariant: `size_` steps of `next` from `head` visit `Nodes` in order and end at
        `tail`, `prev` visits them in reverse, and `head->prev` and `tail->next` are null. */
    ghost predicate Valid()
      reads this, Nodes
    {
      |Nodes| == size && Stores(Nodes, Contents) && Distinct(Nodes) && Chain(Nodes, null, null) &&
      head == (if size == 0 then null else Nodes[0]) &&
      tail == (if size == 0 then null else Nodes[size - 1])
    }

    constructor ()
      ensures Valid() && Contents == []
    {
      head := null;
      tail := null;
      size := 0;
      Contents := [];
      Nodes := [];
    }

    /** Walks the `size_` nodes releasing each, then empties the list. */
    method Clear()
      requires Valid()
      modifies this
      ensures Valid() && Contents == [] && head == null && tail == null
    {
      var aux := head;
      for i := 0 to size
        invariant i < size ==> aux == Nodes[i]
      {
        if i + 1 < size {
          assert Link(Nodes, i);
        }
        var next := aux.next;
        aux := next;
      }
      head := null;
      tail := null;
      size := 0;
      Contents := [];
      Nodes := [];
    }

    method PushBack(d: int)
      requires Valid()
      modifies this, Nodes
      ensures Valid() && Contents == old(Contents) + [d]
    {
      var r := Insert(d, size);
      InsertAtEnds(old(Contents), d);
    }

    method PushFront(d: int)
      requires Valid()
      modifies this, Nodes
      ensures Valid() && Contents == InsertAt(old(Contents), 0, d)
    {
      var r := Insert(d, 0);
      InsertAtEnds(old(Contents), d);
    }

    /** Throws when `index > size_`; otherwise `d` becomes the element at `index`. The node it
        goes before is reached from `head` when `index <= size_ / 2` and from `tail` otherwise. */
    method Insert(d: int, index: nat) returns (r: Outcome)
      requires Valid()
      modifies this, Nodes
      ensures Valid()
      ensures r == if index > old(size) then Fails(InvalidIndex) else Done
      ensures Contents == if r.Done? then InsertAt(old(Contents), index, d) else old(Contents)
    {
      if index > size {
        return Fails(InvalidIndex);
      }
      if Empty() {
        var newNode := new Node(d, null, null);
        head := newNode;
        tail := newNode;
        size := size + 1;
        Contents := [d];
        Nodes := [newNode];
      } else if index == size {
        LinkAfterTail(d);
      } else if index == 0 {
        LinkBeforeHead(d);
      } else {
        var aux: Node;
        if index <= size / 2 {
          aux := WalkFromHead(index);
        } else {
          aux := WalkFromTail(size - index - 1);
        }
        LinkBefore(d, aux, index);
      }
      return Done;
    }

    /** The `index == size_` branch of `insert` on a non-empty list: a new node after `tail`. */
    method LinkAfterTail(d: int)
      requires Valid() && size > 0
      modifies this, Nodes
      ensures Valid() && Contents == InsertAt(old(Contents), old(size), d)
    {
      ghost var n := Nodes;
      var newNode := new Node(d, tail, null);
      tail.next := newNode;
      tail := newNode;
      size := size + 1;
      Contents := InsertAt(Contents, |n|, d);
      Nodes := InsertAt(n, |n|, newNode);
      forall k | 0 <= k < |n| - 1 ensures Link(n, k) {
        assert old(Link(n, k));
        assert Apart(n, k, |n| - 1);
      }
      ChainInsertAt(n, |n|, newNode, null, null);
      DistinctInsertAt(n, |n|, newNode);
      StoresInsertAt(n, old(Contents), |n|, newNode);
    }

    /** The `index == 0` branch of `insert` on a non-empty list: a new node before `head`, whose
        `prev` is null. */
    method LinkBeforeHead(d: int)
      requires Valid() && size > 0
      modifies this, Nodes
      ensures Valid() && Contents == InsertAt(old(Contents), 0, d)
    {
      ghost var n := Nodes;
      var newNode := new Node(d, null, head);
      head.prev := newNode;
      head := newNode;
      size := size + 1;
      Contents := InsertAt(Contents, 0, d);
      Nodes := InsertAt(n, 0, newNode);
      forall k | 0 <= k < |n| - 1 ensures Link(n, k) {
        assert old(Link(n, k));
        assert Apart(n, k + 1, 0);
      }
      assert Apart(n, |n| - 1, 0) || |n| == 1;
      ChainInsertAt(n, 0, newNode, null, null);
      DistinctInsertAt(n, 0, newNode);
      StoresInsertAt(n, old(Contents), 0, newNode);
    }

    /** The middle branch of `insert`: a new node between `aux` and the node before it. */
    method LinkBefore(d: int, aux: Node, ghost index: nat)
      requires Valid() && 0 < index < size && aux == Nodes[index]
      modifies this, Nodes
      ensures Valid() && Contents == InsertAt(old(Contents), index, d)
    {
      ghost var n := Nodes;
      assert Link(n, index - 1);
      var newNode := new Node(d, aux.prev, aux);
      aux.prev.next := newNode;
      aux.prev := newNode;
      size := size + 1;
      Contents := InsertAt(Contents, index, d);
      Nodes := InsertAt(n, index, newNode);
      forall k | 0 <= k < |n| - 1 && k != index - 1 ensures Link(n, k) {
        assert old(Link(n, k));
        assert Apart(n, k, index - 1) && Apart(n, k + 1, index);
      }
      assert Apart(n, 0, index) && Apart(n, |n| - 1, index - 1);
      ChainInsertAt(n, index, newNode, null, null);
      DistinctInsertAt(n, index, newNode);
      StoresInsertAt(n, old(Contents), index, newNode);
    }

    /** Walks from `head` while `d` is greater than the element reached, then inserts there. */
    method InsertSorted(d: int)
      requires Valid()
      modifies this, Nodes
      ensures Valid() && Contents == InsertAt(old(Contents), SortedIndex(old(Contents), d), d)
    {
      var i := 0;
      if !Empty() {
        var actual := head;
        while i < size && d > actual.data
          invariant 0 <= i <= SortedIndex(Contents, d)
          invariant i < size ==> actual == Nodes[i]
        {
          if i + 1 < size {
            assert Link(Nodes, i);
          }
          i := i + 1;
          actual := actual.next;
        }
      }
      var r := Insert(d, i);
    }

    /** Throws `EmptyList` on an empty list and `InvalidIndex` when `index >= size_`; otherwise
        unlinks the node at `index`, walking from the nearer end, and returns its element. */
    method Pop(index: nat) returns (r: Result<int>)
      requires Valid()
      modifies this, Nodes
      ensures Valid()
      ensures r == if old(size) == 0 then Throws(EmptyList)
                   else if index >= old(size) then Throws(InvalidIndex)
                   else Ok(old(Contents)[index])
      ensures Contents == if r.Ok? then RemoveAt(old(Contents), index) else old(Contents)
    {
      if Empty() {
        return Throws(EmptyList);
      }
      if index >= size {
        return Throws(InvalidIndex);
      }
      var node: Node;
      if index < size / 2 {
        node := WalkFromHead(index);
      } else {
        node := WalkFromTail(size - 1 - index);
      }
      var nodeData := node.data;
      if size > 1 {
        if index == 0 {
          UnlinkHead();
        } else if index == size - 1 {
          UnlinkTail();
        } else {
          UnlinkBetween(node, index);
        }
      } else {
        head := null;
        tail := null;
        size := size - 1;
        Contents := [];
        Nodes := [];
      }
      return Ok(nodeData);
    }

    /** The `index == 0` branch of `pop` on a list of two or more: `head` moves to the second node. */
    method UnlinkHead()
      requires Valid() && size > 1
      modifies this, Nodes
      ensures Valid() && Contents == RemoveAt(old(Contents), 0)
    {
      ghost var n := Nodes;
      assert Link(n, 0);
      head := head.next;
      head.prev := null;
      size := size - 1;
      Contents := RemoveAt(Contents, 0);
      Nodes := RemoveAt(n, 0);
      forall k | 1 <= k < |n| - 1 ensures Link(n, k) {
        assert old(Link(n, k));
        assert Apart(n, k + 1, 1);
      }
      assert Apart(n, |n| - 1, 1) || |n| == 2;
      ChainRemoveAt(n, 0, null, null);
      DistinctRemoveAt(n, 0);
      StoresRemoveAt(n, old(Contents), 0);
    }

    /** The `index == size_ - 1` branch of `pop` on a list of two or more: `tail` moves to the
        second last node. */
    method UnlinkTail()
      requires Valid() && size > 1
      modifies this, Nodes
      ensures Valid() && Contents == RemoveAt(old(Contents), old(size) - 1)
    {
      ghost var n := Nodes;
      assert Link(n, |n| - 2);
      tail := tail.prev;
      tail.next := null;
      size := size - 1;
      Contents := RemoveAt(Contents, |n| - 1);
      Nodes := RemoveAt(n, |n| - 1);
      forall k | 0 <= k < |n| - 2 ensures Link(n, k) {
        assert old(Link(n, k));
        assert Apart(n, k, |n| - 2);
      }
      assert Apart(n, 0, |n| - 2) || |n| == 2;
      ChainRemoveAt(n, |n| - 1, null, null);
      DistinctRemoveAt(n, |n| - 1);
      StoresRemoveAt(n, old(Contents), |n| - 1);
    }

    /** The middle branch of `pop`: the neighbours of `node` are linked to each other. */
    method UnlinkBetween(node: Node, ghost index: nat)
      requires Valid() && 0 < index < size - 1 && node == Nodes[index]
      modifies this, Nodes
      ensures Valid() && Contents == RemoveAt(old(Contents), index)
    {
      ghost var n := Nodes;
      assert Link(n, index - 1) && Link(n, index);
      var nodePrev := node.prev;
      node.prev.next := node.next;
      node.next.prev := nodePrev;
      size := size - 1;
      Contents := RemoveAt(Contents, index);
      Nodes := RemoveAt(n, index);
      forall k | 0 <= k < |n| - 1 && k != index - 1 && k != index ensures Link(n, k) {
        assert old(Link(n, k));
        assert Apart(n, k, index - 1) && Apart(n, k + 1, index + 1);
      }
      assert Apart(n, 0, index + 1) && Apart(n, |n| - 1, index - 1);
      ChainRemoveAt(n, index, null, null);
      DistinctRemoveAt(n, index);
      StoresRemoveAt(n, old(Contents), index);
    }

    /** `pop(size_ - 1)`: on an empty list `size_ - 1` wraps around, and `pop` throws
        `EmptyList` before looking at the index. */
    method PopBack() returns (r: Result<int>)
      requires Valid()
      modifies this, Nodes
      ensures Valid()
      ensures r == if old(Contents) == [] then Throws(EmptyList) else Ok(old(Contents)[|old(Contents)| - 1])
      ensures Contents == if r.Ok? then old(Contents)[..|old(Contents)| - 1] else old(Contents)
    {
      r := Pop(if size == 0 then SizeT.Wrap(-1) else size - 1);
      if r.Ok? {
        RemoveAtEnds(old(Contents));
      }
    }

    method PopFront() returns (r: Result<int>)
      requires Valid()
      modifies this, Nodes
      ensures Valid()
      ensures r == if old(Contents) == [] then Throws(EmptyList) else Ok(old(Contents)[0])
      ensures Contents == if r.Ok? then old(Contents)[1..] else old(Contents)
    {
      r := Pop(0);
      if r.Ok? {
        RemoveAtEnds(old(Contents));
      }
    }

    /** `contains` throws on an empty list; otherwise the first occurrence of `d`, if any, is
        popped. */
    method Remove(d: int) returns (r: Outcome)
      requires Valid()
      modifies this, Nodes
      ensures Valid()
      ensures r == if old(Contents) == [] then Fails(EmptyList) else Done
      ensures Contents == RemoveFirst(old(Contents), d)
    {
      var found := Contains(d);
      if found.Throws? {
        return Fails(found.error);
      }
      if found.value {
        var index := Find(d);
        var p := Pop(index.value);
      }
      return Done;
    }

    /** Throws on an empty list; otherwise tells whether `d` is one of the elements. */
    method Contains(d: int) returns (r: Result<bool>)
      requires Valid()
      ensures r == if Contents == [] then Throws(EmptyList) else Ok(d in Contents)
    {
      if Empty() {
        return Throws(EmptyList);
      }
      var actual := head;
      for i := 0 to size
        invariant i < size ==> actual == Nodes[i]
        invariant d !in Contents[..i]
      {
        if actual.data == d {
          return Ok(true);
        }
        if i + 1 < size {
          assert Link(Nodes, i);
        }
        actual := actual.next;
      }
      assert Contents[..size] == Contents;
      return Ok(false);
    }

    /** Throws `EmptyList` or `InvalidIndex`; otherwise the element at `index`, reached from the
        nearer end. This is the mutable overload. The constant overload walks the same way but
        counts with `int`, which differs only once the list holds more than 2^31 elements. */
    method At(index: nat) returns (r: Result<int>)
      requires Valid()
      ensures r == if Contents == [] then Throws(EmptyList)
                   else if index >= |Contents| then Throws(InvalidIndex)
                   else Ok(Contents[index])
    {
      if Empty() {
        return Throws(EmptyList);
      }
      if index >= size {
        return Throws(InvalidIndex);
      }
      var actual: Node;
      if index < size / 2 {
        actual := WalkFromHead(index);
      } else {
        actual := WalkFromTail(size - 1 - index);
      }
      return Ok(actual.data);
    }

    /** Throws on an empty list; otherwise the index of the first occurrence of `d`, or
        `size_` when there is none. */
    method Find(d: int) returns (r: Result<nat>)
      requires Valid()
      ensures r == if Contents == [] then Throws(EmptyList) else Ok(IndexOf(Contents, d))
    {
      if Empty() {
        return Throws(EmptyList);
      }
      var i := 0;
      var actual := head;
      while i < size && actual.data != d
        invariant 0 <= i <= IndexOf(Contents, d)
        invariant i < size ==> actual == Nodes[i]
      {
        if i + 1 < size {
          assert Link(Nodes, i);
        }
        actual := actual.next;
        i := i + 1;
      }
      return Ok(i);
    }

    /** Follows `next` `k` times from `head`. */
    method WalkFromHead(k: nat) returns (node: Node)
      requires Valid() && k < size
      ensures node == Nodes[k]
    {
      var aux := head;
      for i := 0 to k
        invariant aux == Nodes[i]
      {
        assert Link(Nodes, i);
        aux := aux.next;
      }
      return aux;
    }

    /** Follows `prev` `k` times from `tail`. */
    method WalkFromTail(k: nat) returns (node: Node)
      requires Valid() && k < size
      ensures node == Nodes[size - 1 - k]
    {
      var aux := tail;
      for i := 0 to k
        invariant aux == Nodes[size - 1 - i]
      {
        assert Link(Nodes, size - 2 - i);
        aux := aux.prev;
      }
      return aux;
    }

    function Empty(): (r: bool)
      reads this, Nodes
      requires Valid()
      ensures r <==> Contents == []
    {
      size == 0
    }

    function Size(): (r: nat)
      reads this, Nodes
      requires Valid()
      ensures r == |Contents|
    {
      size
    }
  }
}
