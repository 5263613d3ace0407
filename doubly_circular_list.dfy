/** `structures::DoublyCircularList`: doubly linked nodes closed into a ring through a sentinel
    `head` node that holds no element. Position `j` of the ring is the sentinel for `j == 0` and
    the node of element `j - 1` otherwise; walks go forward or backward from the sentinel. */
module DoublyCircularLists {
  import opened Exceptions
  import opened Sequences
  import opened DoublyLinkedNodes
  import SizeT

  class DoublyCircularList {
    /** The sentinel. */
    var head: Node
    var size: nat

    /** The elements, index 0 first. */
    ghost var Contents: seq<int>
    /** The nodes holding them, in `next` order from the sentinel. */
    ghost var Nodes: seq<Node>

    /** The ring invariant: when the list is not empty, `size_ + 1` steps of `next` from the
        sentinel visit `Nodes` in order and come back to it, and `prev` mirrors `next`; when it is
        empty, both links of the sentinel are null. */
    ghost predicate Valid()
      reads this, head, Nodes
    {
      head !in Nodes && |Nodes| == size && Stores(Nodes, Contents) && Distinct(Nodes) &&
      (size == 0 ==> head.next == null && head.prev == null) &&
      (size > 0 ==> Chain(Nodes, head, head) && head.next == Nodes[0] && head.prev == Nodes[size - 1])
    }

    /** Position `j` of the ring: the sentinel, then the nodes in order. */
    ghost function Ring(j: nat): (node: Node)
      reads this
      requires j <= |Nodes|
      ensures j == 0 ==> node == head
      ensures 0 < j ==> node == Nodes[j - 1]
    {
      if j == 0 then head else Nodes[j - 1]
    }

    constructor ()
      ensures Valid() && Contents == []
    {
      head := new Node.Sentinel();
      size := 0;
      Contents := [];
      Nodes := [];
    }

    /** Unlinks the first node until the list is empty, then nulls both links of the sentinel. */
    method Clear()
      requires Valid()
      modifies this, head
      ensures Valid() && Contents == [] && head == old(head)
    {
      ghost var n := Nodes;
      ghost var i := 0;
      while size != 0
        invariant 0 <= i <= |n| && size == |n| - i && head == old(head)
        invariant i < |n| ==> head.next == n[i]
        decreases size
      {
        var actual := head.next;
        if i + 1 < |n| {
          assert old(Link(n, i));
        }
        head.next := actual.next;
        size := size - 1;
        i := i + 1;
      }
      head.next := null;
      head.prev := null;
      Contents := [];
      Nodes := [];
    }

    method PushBack(d: int)
      requires Valid()
      modifies this, head, Nodes
      ensures Valid() && Contents == old(Contents) + [d]
    {
      var r := Insert(d, size);
      InsertAtEnds(old(Contents), d);
    }

    method PushFront(d: int)
      requires Valid()
      modifies this, head, Nodes
      ensures Valid() && Contents == [d] + old(Contents)
    {
      var r := Insert(d, 0);
      InsertAtEnds(old(Contents), d);
    }

    /** Throws when `index > size_`; otherwise `d` becomes the element at `index`. The node it
        goes after, ring position `index`, is reached with `index` forward steps when
        `index < size_ / 2` and with `size_ - index + 1` backward steps otherwise. */
    method Insert(d: int, index: nat) returns (r: Outcome)
      requires Valid()
      modifies this, head, Nodes
      ensures Valid() && head == old(head)
      ensures r == if index > old(size) then Fails(InvalidIndex) else Done
      ensures Contents == if r.Done? then InsertAt(old(Contents), index, d) else old(Contents)
    {
      if index > size {
        return Fails(InvalidIndex);
      }
      if size == 0 {
        var newNode := new Node(d, head, head);
        head.prev := newNode;
        head.next := newNode;
        size := size + 1;
        Contents := [d];
        Nodes := [newNode];
      } else {
        var actual: Node;
        if index < size / 2 {
          actual := WalkForward(index);
        } else {
          actual := WalkBackward(size - index + 1);
        }
        LinkAfter(d, actual, index);
      }
      return Done;
    }

    /** The non-empty branch of `insert`: a new node between `actual`, at ring position `index`,
        and the node after it. */
    method LinkAfter(d: int, actual: Node, ghost index: nat)
      requires Valid() && 0 < size && index <= size && actual == Ring(index)
      modifies this, head, Nodes
      ensures Valid() && head == old(head) && Contents == InsertAt(old(Contents), index, d)
    {
      ghost var n := Nodes;
      if 0 < index < size {
        assert Link(n, index - 1);
      }
      var after := actual.next;
      assert after == if index < size then n[index] else head;
      var newNode := new Node(d, actual, after);
      after.prev := newNode;
      actual.next := newNode;
      size := size + 1;
      Contents := InsertAt(Contents, index, d);
      Nodes := InsertAt(n, index, newNode);
      forall k | 0 <= k < |n| - 1 && k != index - 1 ensures Link(n, k) {
        assert old(Link(n, k));
        if 0 < index {
          assert Apart(n, k, index - 1);
        }
        if index < |n| {
          assert Apart(n, k + 1, index);
        }
      }
      if 0 < index < |n| {
        assert Apart(n, 0, index) && Apart(n, |n| - 1, index - 1);
      }
      ChainInsertAt(n, index, newNode, head, head);
      DistinctInsertAt(n, index, newNode);
      StoresInsertAt(n, old(Contents), index, newNode);
      OutsideInsertAt(n, index, newNode, head);
    }

    /** Compares `d` with the element after the current ring position and advances while `d` is
        greater, then inserts there. */
    method InsertSorted(d: int)
      requires Valid()
      modifies this, head, Nodes
      ensures Valid() && Contents == InsertAt(old(Contents), SortedIndex(old(Contents), d), d)
    {
      var i := 0;
      if size != 0 {
        var actual := head;
        while i < size && d > actual.next.data
          invariant 0 <= i <= SortedIndex(Contents, d)
          invariant i <= size && actual == Ring(i)
          invariant i < size ==> actual.next == Nodes[i]
        {
          if i + 1 < size {
            assert Link(Nodes, i);
          }
          i := i + 1;
          actual := actual.next;
        }
      }
      var r := Insert(d, i);
    }

    /** Throws `EmptyList` on an empty list and `InvalidIndex` when `index >= size_`; otherwise
        reaches the node with `index + 1` forward steps when `index < size_ / 2` and with
        `size_ - index` backward steps otherwise, unlinks it and returns its element. */
    method Pop(index: nat) returns (r: Result<int>)
      requires Valid()
      modifies this, head, Nodes
      ensures Valid() && head == old(head)
      ensures r == if old(size) == 0 then Throws(EmptyList)
                   else if index >= old(size) then Throws(InvalidIndex)
                   else Ok(old(Contents)[index])
      ensures Contents == if r.Ok? then RemoveAt(old(Contents), index) else old(Contents)
    {
      if Empty() {
        return Throws(EmptyList);
      }
      if index >= size {
        return Throws(InvalidIndex);
      }
      var node: Node;
      if index < size / 2 {
        node := WalkForward(index + 1);
      } else {
        node := WalkBackward(size - index);
      }
      if size > 1 {
        Unlink(node, index);
      } else {
        head.next := null;
        head.prev := null;
        size := size - 1;
        Contents := [];
        Nodes := [];
      }
      var nodeData := node.data;
      return Ok(nodeData);
    }

    /** The `size_ > 1` branch of `pop`: the neighbours of `node`, at index `index`, are linked to
        each other; its own element is left in it. */
    method Unlink(node: Node, ghost index: nat)
      requires Valid() && 1 < size && index < size && node == Nodes[index]
      modifies this, head, Nodes
      ensures Valid() && head == old(head) && Contents == RemoveAt(old(Contents), index)
      ensures node.data == old(Contents)[index]
    {
      ghost var n := Nodes;
      if 0 < index {
        assert Link(n, index - 1);
      }
      if index + 1 < size {
        assert Link(n, index);
      }
      var before, after := node.prev, node.next;
      before.next := after;
      after.prev := before;
      size := size - 1;
      Contents := RemoveAt(Contents, index);
      Nodes := RemoveAt(n, index);
      forall k | 0 <= k < |n| - 1 && k != index - 1 && k != index ensures Link(n, k) {
        assert old(Link(n, k));
        if 0 < index {
          assert Apart(n, k, index - 1);
        }
        if index + 1 < |n| {
          assert Apart(n, k + 1, index + 1);
        }
      }
      if 0 < index && index + 1 < |n| {
        assert Apart(n, 0, index + 1) && Apart(n, |n| - 1, index - 1);
      }
      ChainRemoveAt(n, index, head, head);
      DistinctRemoveAt(n, index);
      StoresRemoveAt(n, old(Contents), index);
      OutsideRemoveAt(n, index, head);
    }

    /** `pop(size_ - 1)`: on an empty list `pop` throws `EmptyList` before looking at the index. */
    method PopBack() returns (r: Result<int>)
      requires Valid()
      modifies this, head, Nodes
      ensures Valid()
      ensures r == if old(Contents) == [] then Throws(EmptyList) else Ok(old(Contents)[|old(Contents)| - 1])
      ensures Contents == if r.Ok? then old(Contents)[..|old(Contents)| - 1] else old(Contents)
    {
      r := Pop(if size == 0 then SizeT.Wrap(-1) else size - 1);
      if r.Ok? {
        RemoveAtEnds(old(Contents));
      }
    }

    method PopFront() returns (r: Result<int>)
      requires Valid()
      modifies this, head, Nodes
      ensures Valid()
      ensures r == if old(Contents) == [] then Throws(EmptyList) else Ok(old(Contents)[0])
      ensures Contents == if r.Ok? then old(Contents)[1..] else old(Contents)
    {
      r := Pop(0);
      if r.Ok? {
        RemoveAtEnds(old(Contents));
      }
    }

    /** Pops the first occurrence of `d`, if any. */
    method Remove(d: int)
      requires Valid()
      modifies this, head, Nodes
      ensures Valid() && Contents == RemoveFirst(old(Contents), d)
    {
      var found := Contains(d);
      if found {
        var index := Find(d);
        var p := Pop(index);
      }
    }

    /** Whether `d` is one of the elements; an empty list is not an error here. */
    method Contains(d: int) returns (r: bool)
      requires Valid()
      ensures r <==> d in Contents
    {
      var actual := head.next;
      for i := 0 to size
        invariant i < size ==> actual == Nodes[i]
        invariant d !in Contents[..i]
      {
        if d == actual.data {
          return true;
        }
        if i + 1 < size {
          assert Link(Nodes, i);
        }
        actual := actual.next;
      }
      assert Contents[..size] == Contents;
      return false;
    }

    /** Throws `InvalidIndex` when `index >= size_`, an empty list included; otherwise the element
        at `index`, reached as in `pop`. (The source has a mutable and a constant overload with the
        same body.) */
    method At(index: nat) returns (r: Result<int>)
      requires Valid()
      ensures r == if index >= |Contents| then Throws(InvalidIndex) else Ok(Contents[index])
    {
      if index >= size {
        return Throws(InvalidIndex);
      }
      var node: Node;
      if index < size / 2 {
        node := WalkForward(index + 1);
      } else {
        node := WalkBackward(size - index);
      }
      return Ok(node.data);
    }

    /** `size_` when `d` is not contained; otherwise walks from the first node until it meets `d`
        (a loop bounded only by the element being there). */
    method Find(d: int) returns (r: nat)
      requires Valid()
      ensures r == IndexOf(Contents, d)
    {
      var found := Contains(d);
      if !found {
        return size;
      }
      var actual := head.next;
      var i := 0;
      while d != actual.data
        invariant 0 <= i <= IndexOf(Contents, d) < size
        invariant actual == Nodes[i]
        decreases IndexOf(Contents, d) - i
      {
        assert Link(Nodes, i);
        actual := actual.next;
        i := i + 1;
      }
      return i;
    }

    /** Follows `next` `k` times from the sentinel. */
    method WalkForward(k: nat) returns (node: Node)
      requires Valid() && k <= size
      ensures node == Ring(k)
    {
      var aux := head;
      for i := 0 to k
        invariant aux == Ring(i)
      {
        if 0 < i {
          assert Link(Nodes, i - 1);
        }
        aux := aux.next;
      }
      return aux;
    }

    /** Follows `prev` `k` times from the sentinel, going once round the ring at most. */
    method WalkBackward(k: nat) returns (node: Node)
      requires Valid() && 0 < size && 0 < k <= size + 1
      ensures node == Ring(size + 1 - k)
    {
      var aux := head;
      for i := 0 to k
        invariant aux == if i == 0 then head else Ring(size + 1 - i)
      {
        if 0 < i < size {
          assert Link(Nodes, size - i - 1);
        }
        aux := aux.prev;
      }
      return aux;
    }

    function Empty(): (r: bool)
      reads this, head, Nodes
      requires Valid()
      ensures r <==> Contents == []
    {
      size == 0
    }

    function Size(): (r: nat)
      reads this, head, Nodes
      requires Valid()
      ensures r == |Contents|
    {
      size
    }
  }
}
