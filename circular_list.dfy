/** `structures::CircularList`: singly linked nodes after a `sentinel` node that holds no
    element. Ring position `j` is the sentinel for `j == 0` and the node of element `j - 1`
    otherwise. The `next` of the last node (of the sentinel, when the list is empty) is either
    null or the sentinel: `insert` at index 0 copies the sentinel's old `next` into the new node,
    and that is null on a list that has never held an element or was cleared. Every walk is
    bounded by `size_`, so that link is never followed. */
module CircularLists {
  import opened Exceptions
  import opened Sequences
  import SizeT

  class Node {
    var data: int
    var next: Node?

    constructor (d: int, n: Node?)
      ensures data == d && next == n
    {
      data := d;
      next := n;
    }

    /** `Node()`: the sentinel, holding 0 and linked to nothing. */
    constructor Sentinel()
      ensures data == 0 && next == null
    {
      data := 0;
      next := null;
    }
  }

  /** `ns[i + 1]` follows `ns[i]`. */
  ghost predicate Link(ns: seq<Node>, i: int)
    reads ns
    requires 0 <= i < |ns| - 1
  {
    ns[i].next == ns[i + 1]
  }

  /** Each node of `ns` but the last is followed by the next one in `ns`. */
  ghost predicate Linked(ns: seq<Node>)
    reads ns
  {
    forall i :: 0 <= i < |ns| - 1 ==> Link(ns, i)
  }

  /** Node `ns[i]` holds element `c[i]`. */
  ghost predicate Stores(ns: seq<Node>, c: seq<int>)
    reads ns
  {
    |ns| == |c| && forall i {:trigger ns[i].data} :: 0 <= i < |ns| ==> ns[i].data == c[i]
  }

  /** Splicing `x` in at index `i`: when every link not next to the gap is as before and `x`
      follows its predecessor and is followed by its successor, the longer sequence is linked. */
  lemma LinkedInsertAt(n: seq<Node>, i: nat, x: Node)
    requires i <= |n|
    requires forall k :: 0 <= k < |n| - 1 && k != i - 1 ==> Link(n, k)
    requires 0 < i ==> n[i - 1].next == x
    requires i < |n| ==> x.next == n[i]
    ensures Linked(InsertAt(n, i, x))
  {
    var m := InsertAt(n, i, x);
    forall k | 0 <= k < |m| - 1 ensures Link(m, k) {
      if k + 1 < i {
        assert m[k] == n[k] && m[k + 1] == n[k + 1] && Link(n, k);
      } else if k > i {
        assert m[k] == n[k - 1] && m[k + 1] == n[k] && Link(n, k - 1);
      }
    }
  }

  /** Unlinking the node at index `i`: when every link away from it is as before and its
      predecessor is followed by its successor, the shorter sequence is linked. */
  lemma LinkedRemoveAt(n: seq<Node>, i: nat)
    requires i < |n|
    requires forall k :: 0 <= k < |n| - 1 && k != i - 1 && k != i ==> Link(n, k)
    requires 0 < i && i + 1 < |n| ==> n[i - 1].next == n[i + 1]
    ensures Linked(RemoveAt(n, i))
  {
    var m := RemoveAt(n, i);
    forall k | 0 <= k < |m| - 1 ensures Link(m, k) {
      if k + 1 < i {
        assert m[k] == n[k] && m[k + 1] == n[k + 1] && Link(n, k);
      } else if k >= i {
        assert m[k] == n[k + 1] && m[k + 1] == n[k + 2] && Link(n, k + 1);
      } else {
        assert m[k] == n[k] && m[k + 1] == n[k + 2];
      }
    }
  }

  /** Inserting a node and its element at the same index keeps nodes and elements in step. */
  lemma StoresInsertAt(n: seq<Node>, c: seq<int>, i: nat, x: Node)
    requires i <= |n| && Stores(n, c)
    ensures Stores(InsertAt(n, i, x), InsertAt(c, i, x.data))
  {
    var m := InsertAt(n, i, x);
    var e := InsertAt(c, i, x.data);
    forall k | 0 <= k < |m| ensures m[k].data == e[k] {
      if k < i {
        assert m[k] == n[k] && e[k] == c[k];
      } else if k > i {
        assert m[k] == n[k - 1] && e[k] == c[k - 1];
      }
    }
  }

  /** Removing a node and its element at the same index keeps nodes and elements in step. */
  lemma StoresRemoveAt(n: seq<Node>, c: seq<int>, i: nat)
    requires i < |n| && Stores(n, c)
    ensures Stores(RemoveAt(n, i), RemoveAt(c, i))
  {
    var m := RemoveAt(n, i);
    var e := RemoveAt(c, i);
    forall k | 0 <= k < |m| ensures m[k].data == e[k] {
      if k < i {
        assert m[k] == n[k] && e[k] == c[k];
      } else {
        assert m[k] == n[k + 1] && e[k] == c[k + 1];
      }
    }
  }

  class CircularList {
    var sentinel: Node
    var size: nat

    /** The elements, index 0 first. */
    ghost var Contents: seq<int>
    /** The nodes holding them, in `next` order from the sentinel. */
    ghost var Nodes: seq<Node>

    /** `size_` steps of `next` from the sentinel visit `Nodes` in order; the link after the
        last of them is null or the sentinel. */
    ghost predicate Valid()
      reads this, sentinel, Nodes
    {
      sentinel !in Nodes && |Nodes| == size && Stores(Nodes, Contents) && Distinct(Nodes) &&
      Linked(Nodes) &&
      (size == 0 ==> Closes(sentinel.next)) &&
      (size > 0 ==> sentinel.next == Nodes[0] && Closes(Nodes[size - 1].next))
    }

    /** What the link after the last node may hold. */
    ghost predicate Closes(p: Node?)
      reads this
    {
      p == null || p == sentinel
    }

    /** Position `j` of the ring: the sentinel, then the nodes in order. */
    ghost function Ring(j: nat): (node: Node)
      reads this
      requires j <= |Nodes|
      ensures j == 0 ==> node == sentinel
      ensures 0 < j ==> node == Nodes[j - 1]
    {
      if j == 0 then sentinel else Nodes[j - 1]
    }

    constructor ()
      ensures Valid() && Contents == []
    {
      sentinel := new Node.Sentinel();
      size := 0;
      Contents := [];
      Nodes := [];
    }

    /** Walks the `size_` nodes releasing each, then sets `size_` to 0 and the sentinel's `next`
        to null. */
    method Clear()
      requires Valid()
      modifies this, sentinel
      ensures Valid() && Contents == [] && sentinel == old(sentinel) && sentinel.next == null
    {
      var actual := sentinel.next;
      for i := 0 to size
        invariant i < size ==> actual == Nodes[i]
      {
        if i + 1 < size {
          assert Link(Nodes, i);
        }
        var aux := actual.next;
        actual := aux;
      }
      size := 0;
      sentinel.next := null;
      Contents := [];
      Nodes := [];
    }

    method PushBack(d: int)
      requires Valid()
      modifies this, sentinel, Nodes
      ensures Valid() && Contents == old(Contents) + [d]
    {
      var r := Insert(d, size);
      InsertAtEnds(old(Contents), d);
    }

    method PushFront(d: int)
      requires Valid()
      modifies this, sentinel, Nodes
      ensures Valid() && Contents == [d] + old(Contents)
    {
      var r := Insert(d, 0);
      InsertAtEnds(old(Contents), d);
    }

    /** Throws when `index > size_`; otherwise `d` becomes the element at `index`: at index 0 the
        new node takes over the sentinel's `next`, at index `size_` it goes after `end()` and is
        followed by the sentinel, and elsewhere after the node `index` steps from the sentinel. */
    method Insert(d: int, index: nat) returns (r: Outcome)
      requires Valid()
      modifies this, sentinel, Nodes
      ensures Valid() && sentinel == old(sentinel)
      ensures r == if index > old(size) then Fails(InvalidIndex) else Done
      ensures Contents == if r.Done? then InsertAt(old(Contents), index, d) else old(Contents)
    {
      if index > size {
        return Fails(InvalidIndex);
      }
      if index == 0 {
        LinkFirst(d);
      } else if index == size {
        var last := End();
        LinkAfter(d, last, index, sentinel);
      } else {
        var actual := sentinel;
        for i := 0 to index
          invariant actual == Ring(i)
        {
          if 0 < i {
            assert Link(Nodes, i - 1);
          }
          actual := actual.next;
        }
        LinkAfter(d, actual, index, actual.next);
      }
      return Done;
    }

    /** The `index == 0` branch of `insert`: the new node is followed by what followed the
        sentinel. */
    method LinkFirst(d: int)
      requires Valid()
      modifies this, sentinel
      ensures Valid() && sentinel == old(sentinel) && Contents == InsertAt(old(Contents), 0, d)
    {
      ghost var n := Nodes;
      var newNode := new Node(d, sentinel.next);
      sentinel.next := newNode;
      size := size + 1;
      Contents := InsertAt(Contents, 0, d);
      Nodes := InsertAt(n, 0, newNode);
      forall k | 0 <= k < |n| - 1 ensures Link(n, k) {
        assert old(Link(n, k));
      }
      LinkedInsertAt(n, 0, newNode);
      DistinctInsertAt(n, 0, newNode);
      StoresInsertAt(n, old(Contents), 0, newNode);
      OutsideInsertAt(n, 0, newNode, sentinel);
    }

    /** The other branches of `insert`: a new node after `actual`, at ring position `index`,
        followed by `after` (the sentinel at the end, `actual`'s old `next` elsewhere). */
    method LinkAfter(d: int, actual: Node, ghost index: nat, after: Node?)
      requires Valid() && 0 < index <= size && actual == Ring(index)
      requires after == if index == size then sentinel else actual.next
      modifies this, Nodes
      ensures Valid() && sentinel == old(sentinel) && Contents == InsertAt(old(Contents), index, d)
    {
      ghost var n := Nodes;
      if index < size {
        assert Link(n, index - 1);
      }
      var newNode := new Node(d, after);
      actual.next := newNode;
      size := size + 1;
      Contents := InsertAt(Contents, index, d);
      Nodes := InsertAt(n, index, newNode);
      forall k | 0 <= k < |n| - 1 && k != index - 1 ensures Link(n, k) {
        assert old(Link(n, k));
        assert Apart(n, k, index - 1);
      }
      LinkedInsertAt(n, index, newNode);
      DistinctInsertAt(n, index, newNode);
      StoresInsertAt(n, old(Contents), index, newNode);
      OutsideInsertAt(n, index, newNode, sentinel);
    }

    /** Compares `d` with the element after the current ring position and advances while `d` is
        greater, then inserts there. */
    method InsertSorted(d: int)
      requires Valid()
      modifies this, sentinel, Nodes
      ensures Valid() && Contents == InsertAt(old(Contents), SortedIndex(old(Contents), d), d)
    {
      var i := 0;
      if size != 0 {
        var actual := sentinel;
        while i < size && d > actual.next.data
          invariant 0 <= i <= SortedIndex(Contents, d)
          invariant i <= size && actual == Ring(i)
          invariant i < size ==> actual.next == Nodes[i]
        {
          if i + 1 < size {
            assert Link(Nodes, i);
          }
          i := i + 1;
          actual := actual.next;
        }
      }
      var r := Insert(d, i);
    }

    /** Throws `InvalidIndex` when `index >= size_`; otherwise the element `index` steps after the
        first node. (The source has a mutable and a constant overload with the same body.) */
    method At(index: nat) returns (r: Result<int>)
      requires Valid()
      ensures r == if index >= |Contents| then Throws(InvalidIndex) else Ok(Contents[index])
    {
      if index >= size {
        return Throws(InvalidIndex);
      }
      var node := sentinel.next;
      for i := 0 to index
        invariant node == Nodes[i]
      {
        assert Link(Nodes, i);
        node := node.next;
      }
      return Ok(node.data);
    }

    /** Throws `EmptyList` on an empty list and `InvalidIndex` when `index >= size_`; otherwise
        walks `index` steps from the sentinel, unlinks the node after the one reached and returns
        its element. */
    method Pop(index: nat) returns (r: Result<int>)
      requires Valid()
      modifies this, sentinel, Nodes
      ensures Valid() && sentinel == old(sentinel)
      ensures r == if old(size) == 0 then Throws(EmptyList)
                   else if index >= old(size) then Throws(InvalidIndex)
                   else Ok(old(Contents)[index])
      ensures Contents == if r.Ok? then RemoveAt(old(Contents), index) else old(Contents)
    {
      if Empty() {
        return Throws(EmptyList);
      }
      if index >= size {
        return Throws(InvalidIndex);
      }
      var actual := sentinel;
      for i := 0 to index
        invariant actual == Ring(i)
      {
        if 0 < i {
          assert Link(Nodes, i - 1);
        }
        actual := actual.next;
      }
      if 0 < index {
        assert Link(Nodes, index - 1);
      }
      var node := actual.next;
      var nodeData := node.data;
      Unlink(actual, node, index);
      return Ok(nodeData);
    }

    /** The unlinking step of `pop`: `actual`, at ring position `index`, is made to point past
        `node`, the node of element `index`. */
    method Unlink(actual: Node, node: Node, ghost index: nat)
      requires Valid() && index < size && actual == Ring(index) && node == Nodes[index]
      modifies this, sentinel, Nodes
      ensures Valid() && sentinel == old(sentinel) && Contents == RemoveAt(old(Contents), index)
    {
      ghost var n := Nodes;
      if index + 1 < size {
        assert Link(n, index);
      }
      ghost var after := if index + 1 < size then n[index + 1] else node.next;
      actual.next := node.next;
      assert actual.next == after;
      size := size - 1;
      Contents := RemoveAt(Contents, index);
      Nodes := RemoveAt(n, index);
      forall k | 0 <= k < |n| - 1 && k != index - 1 && k != index ensures Link(n, k) {
        assert old(Link(n, k));
        if 0 < index {
          assert Apart(n, k, index - 1);
        }
      }
      if 0 < index && index + 1 < |n| {
        assert Apart(n, |n| - 1, index - 1);
      }
      LinkedRemoveAt(n, index);
      DistinctRemoveAt(n, index);
      StoresRemoveAt(n, old(Contents), index);
      OutsideRemoveAt(n, index, sentinel);
      if index + 1 == |n| {
        assert old(Closes(after)) && Ring(index) == actual;
      } else {
        assert Nodes[|Nodes| - 1] == n[|n| - 1];
      }
    }

    /** `pop(size_ - 1)`: on an empty list `pop` throws `EmptyList` before looking at the index. */
    method PopBack() returns (r: Result<int>)
      requires Valid()
      modifies this, sentinel, Nodes
      ensures Valid()
      ensures r == if old(Contents) == [] then Throws(EmptyList) else Ok(old(Contents)[|old(Contents)| - 1])
      ensures Contents == if r.Ok? then old(Contents)[..|old(Contents)| - 1] else old(Contents)
    {
      r := Pop(if size == 0 then SizeT.Wrap(-1) else size - 1);
      if r.Ok? {
        RemoveAtEnds(old(Contents));
      }
    }

    method PopFront() returns (r: Result<int>)
      requires Valid()
      modifies this, sentinel, Nodes
      ensures Valid()
      ensures r == if old(Contents) == [] then Throws(EmptyList) else Ok(old(Contents)[0])
      ensures Contents == if r.Ok? then old(Contents)[1..] else old(Contents)
    {
      r := Pop(0);
      if r.Ok? {
        RemoveAtEnds(old(Contents));
      }
    }

    /** Pops the first occurrence of `d`, if any. */
    method Remove(d: int)
      requires Valid()
      modifies this, sentinel, Nodes
      ensures Valid() && Contents == RemoveFirst(old(Contents), d)
    {
      var found := Contains(d);
      if found {
        var index := Find(d);
        var p := Pop(index);
      }
    }

    /** Whether `d` is one of the elements; an empty list is not an error here. */
    method Contains(d: int) returns (r: bool)
      requires Valid()
      ensures r <==> d in Contents
    {
      var actual := sentinel.next;
      for i := 0 to size
        invariant i < size ==> actual == Nodes[i]
        invariant d !in Contents[..i]
      {
        if d == actual.data {
          return true;
        }
        if i + 1 < size {
          assert Link(Nodes, i);
        }
        actual := actual.next;
      }
      assert Contents[..size] == Contents;
      return false;
    }

    /** `size_` when `d` is not contained; otherwise walks from the first node until it meets `d`
        (a loop bounded only by the element being there). */
    method Find(d: int) returns (r: nat)
      requires Valid()
      ensures r == IndexOf(Contents, d)
    {
      var found := Contains(d);
      if !found {
        return size;
      }
      var actual := sentinel.next;
      var i := 0;
      while d != actual.data
        invariant 0 <= i <= IndexOf(Contents, d) < size
        invariant actual == Nodes[i]
        decreases IndexOf(Contents, d) - i
      {
        assert Link(Nodes, i);
        actual := actual.next;
        i := i + 1;
      }
      return i;
    }

    /** `end()`: follows `next` `size_` times from the sentinel, which gives the last node, or the
        sentinel itself when the list is empty. */
    method End() returns (node: Node)
      requires Valid()
      ensures node == Ring(size)
    {
      var it := sentinel;
      for i := 0 to size
        invariant it == Ring(i)
      {
        if 0 < i {
          assert Link(Nodes, i - 1);
        }
        it := it.next;
      }
      return it;
    }

    function Empty(): (r: bool)
      reads this, sentinel, Nodes
      requires Valid()
      ensures r <==> Contents == []
    {
      size == 0
    }

    function Size(): (r: nat)
      reads this, sentinel, Nodes
      requires Valid()
      ensures r == |Contents|
    {
      size
    }
  }
}
