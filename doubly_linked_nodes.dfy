/** The node of `structures::DoublyLinkedList` and `structures::DoublyCircularList` (both declare
    the same private `Node` with `data_`, `prev_` and `next_`), and what it means for a sequence of
    such nodes to be linked in order. */
module DoublyLinkedNodes {
  import opened Sequences

  class Node {
    var data: int
    var prev: Node?
    var next: Node?

    constructor (d: int, p: Node?, n: Node?)
      ensures data == d && prev == p && next == n
    {
      data := d;
      prev := p;
      next := n;
    }

    /** `Node()`: the sentinel of the circular list, holding 0 and linked to nothing. */
    constructor Sentinel()
      ensures data == 0 && prev == null && next == null
    {
      data := 0;
      prev := null;
      next := null;
    }
  }

  /** `ns[i]` and `ns[i + 1]` point at each other. */
  ghost predicate Link(ns: seq<Node>, i: int)
    reads ns
    requires 0 <= i < |ns| - 1
  {
    ns[i].next == ns[i + 1] && ns[i + 1].prev == ns[i]
  }

  /** `ns` is linked in order, the first node's `prev` is `before` and the last node's `next`
      is `after`. */
  ghost predicate Chain(ns: seq<Node>, before: Node?, after: Node?)
    reads ns
  {
    (forall i :: 0 <= i < |ns| - 1 ==> Link(ns, i)) &&
    (|ns| > 0 ==> ns[0].prev == before && ns[|ns| - 1].next == after)
  }

  /** Node `ns[i]` holds element `c[i]`. */
  ghost predicate Stores(ns: seq<Node>, c: seq<int>)
    reads ns
  {
    |ns| == |c| && forall i {:trigger ns[i].data} :: 0 <= i < |ns| ==> ns[i].data == c[i]
  }

  /** Splicing `x` in at index `i`: when every link not next to the gap is as before and `x`
      points at, and is pointed at by, its two neighbours, the longer sequence is linked. */
  lemma ChainInsertAt(n: seq<Node>, i: nat, x: Node, before: Node?, after: Node?)
    requires i <= |n|
    requires forall k :: 0 <= k < |n| - 1 && k != i - 1 ==> Link(n, k)
    requires 0 < i ==> n[0].prev == before && n[i - 1].next == x
    requires i < |n| ==> n[|n| - 1].next == after && n[i].prev == x
    requires x.prev == (if 0 < i then n[i - 1] else before)
    requires x.next == (if i < |n| then n[i] else after)
    ensures Chain(InsertAt(n, i, x), before, after)
  {
    var m := InsertAt(n, i, x);
    forall k | 0 <= k < |m| - 1 ensures Link(m, k) {
      if k + 1 < i {
        assert m[k] == n[k] && m[k + 1] == n[k + 1] && Link(n, k);
      } else if k > i {
        assert m[k] == n[k - 1] && m[k + 1] == n[k] && Link(n, k - 1);
      }
    }
    if i == |n| && 0 < i {
      assert m[|m| - 1] == x && m[0] == n[0];
    } else if i < |n| && 0 < i {
      assert m[|m| - 1] == n[|n| - 1] && m[0] == n[0];
    } else if i < |n| {
      assert m[|m| - 1] == n[|n| - 1];
    }
  }

  /** Unlinking the node at index `i`: when every link away from it is as before and its two
      neighbours now point at each other (or at `before`/`after` at the ends), the shorter
      sequence is linked. */
  lemma ChainRemoveAt(n: seq<Node>, i: nat, before: Node?, after: Node?)
    requires i < |n|
    requires forall k :: 0 <= k < |n| - 1 && k != i - 1 && k != i ==> Link(n, k)
    requires 0 < i ==> n[0].prev == before && n[i - 1].next == (if i + 1 < |n| then n[i + 1] else after)
    requires i + 1 < |n| ==> n[|n| - 1].next == after && n[i + 1].prev == (if 0 < i then n[i - 1] else before)
    ensures Chain(RemoveAt(n, i), before, after)
  {
    var m := RemoveAt(n, i);
    forall k | 0 <= k < |m| - 1 ensures Link(m, k) {
      if k + 1 < i {
        assert m[k] == n[k] && m[k + 1] == n[k + 1] && Link(n, k);
      } else if k >= i {
        assert m[k] == n[k + 1] && m[k + 1] == n[k + 2] && Link(n, k + 1);
      } else {
        assert m[k] == n[k] && m[k + 1] == n[k + 2];
      }
    }
    if 0 < i && i + 1 < |n| {
      assert m[0] == n[0] && m[|m| - 1] == n[|n| - 1];
    } else if 0 < i {
      assert m[0] == n[0] && m[|m| - 1] == n[i - 1];
    } else if i + 1 < |n| {
      assert m[0] == n[1] && m[|m| - 1] == n[|n| - 1];
    }
  }

  /** Inserting a node and its element at the same index keeps nodes and elements in step. */
  lemma StoresInsertAt(n: seq<Node>, c: seq<int>, i: nat, x: Node)
    requires i <= |n| && Stores(n, c)
    ensures Stores(InsertAt(n, i, x), InsertAt(c, i, x.data))
  {
    var m := InsertAt(n, i, x);
    var e := InsertAt(c, i, x.data);
    forall k | 0 <= k < |m| ensures m[k].data == e[k] {
      if k < i {
        assert m[k] == n[k] && e[k] == c[k];
      } else if k > i {
        assert m[k] == n[k - 1] && e[k] == c[k - 1];
      }
    }
  }

  /** Removing a node and its element at the same index keeps nodes and elements in step. */
  lemma StoresRemoveAt(n: seq<Node>, c: seq<int>, i: nat)
    requires i < |n| && Stores(n, c)
    ensures Stores(RemoveAt(n, i), RemoveAt(c, i))
  {
    var m := RemoveAt(n, i);
    var e := RemoveAt(c, i);
    forall k | 0 <= k < |m| ensures m[k].data == e[k] {
      if k < i {
        assert m[k] == n[k] && e[k] == c[k];
      } else {
        assert m[k] == n[k + 1] && e[k] == c[k + 1];
      }
    }
  }
}
