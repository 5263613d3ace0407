/** `structures::BinaryTree`: an unbalanced binary search tree. Smaller keys go left and the
    rest go right. `size_` counts calls that are not rejected, not nodes.

    Each `Node` has exactly one owner (its parent, or `root_` for the root), so the model treats
    nodes as values. Updating a child in place is modelled as replacing that subtree value. */
module BinaryTrees {
  import opened Sequences
  import SizeT

  datatype Tree = Nil | Node(data: int, left: Tree, right: Tree) {

    /** The keys stored in the tree. */
    ghost function Keys(): set<int> {
      match this
      case Nil => {}
      case Node(k, l, r) => {k} + l.Keys() + r.Keys()
    }

    /** The keys of the nodes, one occurrence per node. */
    ghost function Elements(): multiset<int> {
      match this
      case Nil => multiset{}
      case Node(k, l, r) => multiset{k} + l.Elements() + r.Elements()
    }

    /** Search-tree order as `insert` builds it: left keys are smaller, right keys are not. */
    ghost predicate Ordered() {
      match this
      case Nil => true
      case Node(k, l, r) =>
        l.Ordered() && r.Ordered() &&
        (forall x :: x in l.Keys() ==> x < k) && (forall x :: x in r.Keys() ==> k <= x)
    }

    /** Search-tree order with every key stored once. */
    ghost predicate StrictlyOrdered() {
      match this
      case Nil => true
      case Node(k, l, r) =>
        l.StrictlyOrdered() && r.StrictlyOrdered() &&
        (forall x :: x in l.Keys() ==> x < k) && (forall x :: x in r.Keys() ==> k < x)
    }

    /** `Node::insert`: walks down from this node, going left when `d` is smaller than the key
        there and right otherwise, and hangs a new leaf where the walk ends. */
    function Insert(d: int): (r: Tree)
      requires Node?
      ensures r.Node? && r.data == data
      ensures r.Keys() == Keys() + {d}
    {
      if d < data then
        var l := if left == Nil then Leaf(d) else left.Insert(d);
        Node(data, l, right)
      else
        var r := if right == Nil then Leaf(d) else right.Insert(d);
        Node(data, left, r)
    }

    /** `Node::contains`. It goes left only when `d` is smaller and there is a left child.
        Otherwise it tries the right child. */
    function Contains(d: int): (r: bool)
      requires Node?
      ensures r ==> d in Keys()
    {
      if d == data then true
      else if d < data && left != Nil then left.Contains(d)
      else if right != Nil then right.Contains(d)
      else false
    }

    /** `Node::minimun`: the key of the leftmost node. */
    function Minimum(): (r: int)
      requires Node?
      ensures r in Keys()
    {
      if left == Nil then data else left.Minimum()
    }

    /** `Node::remove`. It walks towards `d` while the child it needs exists. Where the walk
        stops, the node's key is overwritten by the key it promotes, and that key is then removed
        from the child it came from:
        - with two children, the minimum of the right subtree;
        - with one child, that child's own key.
        The result says whether the node stays. It does not stay only when it is a leaf; the
        parent then deletes it, except when the parent called it for a promotion, where the
        answer is ignored and the leaf is kept. */
    function Remove(d: int): (r: Removal)
      requires Node?
      ensures r.node.Node? && r.node.Keys() <= Keys()
      ensures r.kept <==> left != Nil || right != Nil
      ensures !r.kept ==> r.node == this
    {
      if d > data && right != Nil then
        var sub := right.Remove(d);
        Removal(true, Node(data, left, if sub.kept then sub.node else Nil))
      else if d < data && left != Nil then
        var sub := left.Remove(d);
        Removal(true, Node(data, if sub.kept then sub.node else Nil, right))
      else if right != Nil && left != Nil then
        var m := right.Minimum();
        Removal(true, Node(m, left, right.Remove(m).node))
      else if right != Nil then
        var c := right.data;
        Removal(true, Node(c, left, right.Remove(c).node))
      else if left != Nil then
        var c := left.data;
        Removal(true, Node(c, left.Remove(c).node, right))
      else
        Removal(false, this)
    }

    /** The key of the node where the walk of `Remove(d)` stops: the node whose key is the one
        actually taken out. */
    function Stop(d: int): (r: int)
      requires Node?
      ensures r in Keys()
    {
      if d > data && right != Nil then right.Stop(d)
      else if d < data && left != Nil then left.Stop(d)
      else data
    }

    /** The keys in root-left-right order (`pre_order`). */
    function PreOrder(): seq<int> {
      match this
      case Nil => []
      case Node(k, l, r) => [k] + l.PreOrder() + r.PreOrder()
    }

    /** The keys in left-root-right order (`in_order`). */
    function InOrder(): seq<int> {
      match this
      case Nil => []
      case Node(k, l, r) => l.InOrder() + [k] + r.InOrder()
    }

    /** The keys in left-right-root order (`post_order`). */
    function PostOrder(): seq<int> {
      match this
      case Nil => []
      case Node(k, l, r) => l.PostOrder() + r.PostOrder() + [k]
    }
  }

  /** `new Node(d)`. */
  function Leaf(d: int): Tree {
    Node(d, Nil, Nil)
  }

  /** What `Node::remove` gives back: `kept` is its `bool` result (false asks the parent to
      delete the node) and `node` is the node's new value. */
  datatype Removal = Removal(kept: bool, node: Tree)

  /** On an ordered tree `contains` finds every stored key. With `Tree.Contains`'s own
      postcondition this makes it an exact membership test. */
  lemma {:induction false} ContainsComplete(t: Tree, d: int)
    requires t.Node? && t.Ordered() && d in t.Keys()
    ensures t.Contains(d)
  {
    if d != t.data {
      if d < t.data {
        assert d !in t.right.Keys();
        ContainsComplete(t.left, d);
      } else {
        assert d !in t.left.Keys();
        ContainsComplete(t.right, d);
      }
    }
  }

  /** `contains` is exact membership on an ordered tree. */
  lemma ContainsIff(t: Tree, d: int)
    requires t.Node?
    ensures t.Ordered() ==> (t.Contains(d) <==> d in t.Keys())
  {
    if t.Ordered() && d in t.Keys() {
      ContainsComplete(t, d);
    }
  }

  /** `Insert` adds exactly one node, holding `d`. */
  lemma {:induction false} InsertAddsOneNode(t: Tree, d: int)
    requires t.Node?
    ensures t.Insert(d).Elements() == t.Elements() + multiset{d}
  {
    var k, l, r := t.data, t.left, t.right;
    if d < k {
      var n := if l != Nil then l.Insert(d) else Leaf(d);
      if l != Nil {
        InsertAddsOneNode(l, d);
      }
      assert n.Elements() == l.Elements() + multiset{d};
      assert t.Insert(d) == Node(k, n, r);
      AddBelow(multiset{k}, l.Elements(), r.Elements(), d);
    } else {
      var n := if r != Nil then r.Insert(d) else Leaf(d);
      if r != Nil {
        InsertAddsOneNode(r, d);
      }
      assert n.Elements() == r.Elements() + multiset{d};
      assert t.Insert(d) == Node(k, l, n);
    }
  }

  /** Adding `d` to the left subtree's keys adds it to the whole tree's. */
  lemma AddBelow(c: multiset<int>, below: multiset<int>, e: multiset<int>, d: int)
    ensures c + (below + multiset{d}) + e == c + below + e + multiset{d}
  {
  }


  /** `Insert` keeps a tree ordered. */
  lemma {:induction false} InsertKeepsOrder(t: Tree, d: int)
    requires t.Node? && t.Ordered()
    ensures t.Insert(d).Ordered()
  {
    if d < t.data {
      if t.left != Nil {
        InsertKeepsOrder(t.left, d);
      }
    } else if t.right != Nil {
      InsertKeepsOrder(t.right, d);
    }
  }

  /** Inserting an absent key keeps a strictly ordered tree strictly ordered. */
  lemma {:induction false} InsertKeepsStrictOrder(t: Tree, d: int)
    requires t.Node? && t.StrictlyOrdered() && d !in t.Keys()
    ensures t.Insert(d).StrictlyOrdered()
  {
    if d < t.data {
      if t.left != Nil {
        InsertKeepsStrictOrder(t.left, d);
      }
    } else if t.right != Nil {
      InsertKeepsStrictOrder(t.right, d);
    }
  }

  /** The minimum is the least key of an ordered tree. */
  lemma {:induction false} MinimumIsLeast(t: Tree)
    requires t.Node? && t.Ordered()
    ensures forall k :: k in t.Keys() ==> t.Minimum() <= k
  {
    if t.left != Nil {
      MinimumIsLeast(t.left);
    }
  }

  /** The minimum is the first key `in_order` emits. */
  lemma {:induction false} MinimumIsFirst(t: Tree)
    requires t.Node?
    ensures |t.InOrder()| > 0 && t.Minimum() == t.InOrder()[0]
  {
    if t.left != Nil {
      MinimumIsFirst(t.left);
    }
  }

  /** Every traversal emits each node's key exactly once. */
  lemma {:induction false} TraversalsEmitEachNode(t: Tree)
    ensures multiset(t.PreOrder()) == t.Elements()
    ensures multiset(t.InOrder()) == t.Elements()
    ensures multiset(t.PostOrder()) == t.Elements()
  {
    if t.Node? {
      TraversalsEmitEachNode(t.left);
      TraversalsEmitEachNode(t.right);
    }
  }

  /** The keys `in_order` emits are the keys of the tree. */
  lemma {:induction false} InOrderKeys(t: Tree)
    ensures forall i :: 0 <= i < |t.InOrder()| ==> t.InOrder()[i] in t.Keys()
  {
    if t.Node? {
      InOrderKeys(t.left);
      InOrderKeys(t.right);
      var l, r := t.left.InOrder(), t.right.InOrder();
      forall i | 0 <= i < |t.InOrder()| ensures t.InOrder()[i] in t.Keys() {
        if i < |l| {
          assert t.InOrder()[i] == l[i];
        } else if i > |l| {
          assert t.InOrder()[i] == r[i - |l| - 1];
        }
      }
    }
  }

  /** `in_order` of an ordered tree is non-decreasing. */
  lemma {:induction false} InOrderSorted(t: Tree)
    requires t.Ordered()
    ensures Sorted(t.InOrder())
  {
    if t.Node? {
      InOrderSorted(t.left);
      InOrderSorted(t.right);
      InOrderKeys(t.left);
      InOrderKeys(t.right);
      var l, r, s := t.left.InOrder(), t.right.InOrder(), t.InOrder();
      forall i, j | 0 <= i < j < |s| ensures s[i] <= s[j] {
        if j < |l| {
          assert s[i] == l[i] && s[j] == l[j];
        } else if i < |l| {
          assert s[i] == l[i] && l[i] in t.left.Keys();
          if j > |l| {
            assert s[j] == r[j - |l| - 1] && r[j - |l| - 1] in t.right.Keys();
          }
        } else if i == |l| {
          assert s[j] == r[j - |l| - 1] && r[j - |l| - 1] in t.right.Keys();
        } else {
          assert s[i] == r[i - |l| - 1] && s[j] == r[j - |l| - 1];
        }
      }
    }
  }

  /** On an ordered tree the walk of `Remove(d)` stops at `d` whenever `d` is stored. */
  lemma {:induction false} StopFindsKey(t: Tree, d: int)
    requires t.Node? && t.Ordered() && d in t.Keys()
    ensures t.Stop(d) == d
  {
    if d > t.data {
      assert d !in t.left.Keys();
      StopFindsKey(t.right, d);
    } else if d < t.data {
      assert d !in t.right.Keys();
      StopFindsKey(t.left, d);
    }
  }

  /** On a tree with distinct, ordered keys, `Remove(d)` takes out exactly the key where its walk
      stops. That is `d` itself when `d` is stored, and otherwise the key of the first node
      lacking the child the walk needs. A node that is not kept is a leaf, which its parent
      deletes. */
  lemma {:induction false} RemoveTakesOutStop(t: Tree, d: int)
    requires t.Node? && t.StrictlyOrdered()
    ensures t.Remove(d).kept ==> t.Remove(d).node.Keys() == t.Keys() - {t.Stop(d)}
  {
    var k, l, r := t.data, t.left, t.right;
    if d > k && r != Nil {
      RemoveTakesOutStop(r, d);
      assert r.Stop(d) in r.Keys();
    } else if d < k && l != Nil {
      RemoveTakesOutStop(l, d);
      assert l.Stop(d) in l.Keys();
    } else if r != Nil && l != Nil {
      var m := r.Minimum();
      assert r.Ordered() by { StrictImpliesOrdered(r); }
      StopFindsKey(r, m);
      RemoveTakesOutStop(r, m);
    } else if r != Nil {
      StopFindsKey(r, r.data) by { StrictImpliesOrdered(r); }
      RemoveTakesOutStop(r, r.data);
    } else if l != Nil {
      StopFindsKey(l, l.data) by { StrictImpliesOrdered(l); }
      RemoveTakesOutStop(l, l.data);
    }
  }

  lemma {:induction false} StrictImpliesOrdered(t: Tree)
    requires t.StrictlyOrdered()
    ensures t.Ordered()
  {
    if t.Node? {
      StrictImpliesOrdered(t.left);
      StrictImpliesOrdered(t.right);
    }
  }

  /** The walk of `Remove(d)` ends at a node whose promoted key comes from a leaf: the right
      child when it is a leaf, or the left child when it is a leaf and there is no right child. */
  ghost predicate PromotesLeaf(t: Tree, d: int)
    requires t.Node?
  {
    if d > t.data && t.right != Nil then PromotesLeaf(t.right, d)
    else if d < t.data && t.left != Nil then PromotesLeaf(t.left, d)
    else if t.right != Nil then t.right.left == Nil && t.right.right == Nil
    else t.left != Nil && t.left.left == Nil && t.left.right == Nil
  }

  /** The key written into the node where the walk of `Remove(d)` stops. */
  ghost function Promoted(t: Tree, d: int): int
    requires t.Node?
  {
    if d > t.data && t.right != Nil then Promoted(t.right, d)
    else if d < t.data && t.left != Nil then Promoted(t.left, d)
    else if t.right != Nil && t.left != Nil then t.right.Minimum()
    else if t.right != Nil then t.right.data
    else if t.left != Nil then t.left.data
    else t.data
  }

  /** Where the walk stops, a leaf that supplies the promoted key answers `false`, which the
      promotion ignores: the leaf stays as it was next to the node that now holds its key. */
  lemma PromotedLeafIsKept(t: Tree, d: int)
    requires t.Node? && !(d > t.data && t.right != Nil) && !(d < t.data && t.left != Nil)
    ensures t.right.Node? && t.right.left == Nil && t.right.right == Nil ==>
              t.Remove(d) == Removal(true, Node(t.right.data, t.left, t.right))
    ensures t.right == Nil && t.left.Node? && t.left.left == Nil && t.left.right == Nil ==>
              t.Remove(d) == Removal(true, Node(t.left.data, t.left, Nil))
  {
  }

  /** The count of `Remove(d)`'s keys against the tree's: the key where the walk stops is
      replaced by the promoted key. */
  ghost predicate SwapsStopForPromoted(t: Tree, d: int)
    requires t.Node?
  {
    t.Remove(d).kept &&
    t.Remove(d).node.Elements() + multiset{t.Stop(d)} == t.Elements() + multiset{Promoted(t, d)}
  }

  /** Exchanging `s` for `p` in a subtree's keys exchanges them in the whole tree's. */
  lemma SwapBelow(c: multiset<int>, below: multiset<int>, sub: multiset<int>, e: multiset<int>, s: int, p: int)
    requires below + multiset{s} == sub + multiset{p}
    ensures c + below + multiset{s} == c + sub + multiset{p}
    ensures c + below + e + multiset{s} == c + sub + e + multiset{p}
  {
    assert c + below + multiset{s} == c + (below + multiset{s});
    assert c + sub + multiset{p} == c + (sub + multiset{p});
    assert c + below + e + multiset{s} == c + e + (below + multiset{s});
    assert c + sub + e + multiset{p} == c + e + (sub + multiset{p});
  }

  /** A walk step to the right carries `SwapsStopForPromoted` up from the right child. */
  lemma WalkRightSwaps(t: Tree, d: int)
    requires t.Node? && d > t.data && t.right != Nil && SwapsStopForPromoted(t.right, d)
    ensures SwapsStopForPromoted(t, d)
  {
    var k, l, r := t.data, t.left, t.right;
    var sub := r.Remove(d);
    var s, p := r.Stop(d), Promoted(r, d);
    assert t.Stop(d) == s && Promoted(t, d) == p;
    assert t.Remove(d) == Removal(true, Node(k, l, sub.node));
    var after, before := Node(k, l, sub.node).Elements(), t.Elements();
    var below := sub.node.Elements();
    assert after == multiset{k} + l.Elements() + below;
    assert before == multiset{k} + l.Elements() + r.Elements();
    SwapBelow(multiset{k} + l.Elements(), below, r.Elements(), multiset{}, s, p);
  }

  /** A walk step to the left carries `SwapsStopForPromoted` up from the left child. */
  lemma WalkLeftSwaps(t: Tree, d: int)
    requires t.Node? && d < t.data && t.left != Nil && SwapsStopForPromoted(t.left, d)
    ensures SwapsStopForPromoted(t, d)
  {
    var k, l, r := t.data, t.left, t.right;
    var sub := l.Remove(d);
    var s, p := l.Stop(d), Promoted(l, d);
    assert t.Stop(d) == s && Promoted(t, d) == p;
    assert t.Remove(d) == Removal(true, Node(k, sub.node, r));
    var after, before := Node(k, sub.node, r).Elements(), t.Elements();
    var below := sub.node.Elements();
    assert after == multiset{k} + below + r.Elements();
    assert before == multiset{k} + l.Elements() + r.Elements();
    SwapBelow(multiset{k}, below, l.Elements(), r.Elements(), s, p);
  }

  /** Where the walk stops, a leaf supplying the promoted key gives `SwapsStopForPromoted`. */
  lemma StopSwaps(t: Tree, d: int)
    requires t.Node? && !(d > t.data && t.right != Nil) && !(d < t.data && t.left != Nil)
    requires PromotesLeaf(t, d)
    ensures SwapsStopForPromoted(t, d)
  {
    var k, l, r := t.data, t.left, t.right;
    PromotedLeafIsKept(t, d);
    var c := if r != Nil then r.data else l.data;
    if r != Nil {
      assert r.Minimum() == c;
    }
    assert t.Stop(d) == k && Promoted(t, d) == c;
    var after := t.Remove(d).node.Elements();
    assert after == multiset{c} + l.Elements() + r.Elements();
    assert t.Elements() == multiset{k} + l.Elements() + r.Elements();
    SwapRoot(k, c, l.Elements() + r.Elements());
  }

  /** Exchanging a node's key `k` for `c`. */
  lemma SwapRoot(k: int, c: int, below: multiset<int>)
    ensures multiset{c} + below + multiset{k} == multiset{k} + below + multiset{c}
  {
  }

  /** In any tree, when the promoted key comes from a leaf, `Remove(d)` detaches no node: the
      key where the walk stops is overwritten by the promoted key, and the leaf keeps its copy.
      The tree then holds the promoted key once more than before, and as many keys as before. */
  lemma {:induction false} PromotedLeafStays(t: Tree, d: int)
    requires t.Node? && PromotesLeaf(t, d)
    ensures t.Remove(d).kept
    ensures t.Remove(d).node.Elements() + multiset{t.Stop(d)} == t.Elements() + multiset{Promoted(t, d)}
    ensures |t.Remove(d).node.Elements()| == |t.Elements()|
  {
    if d > t.data && t.right != Nil {
      PromotedLeafStays(t.right, d);
      WalkRightSwaps(t, d);
    } else if d < t.data && t.left != Nil {
      PromotedLeafStays(t.left, d);
      WalkLeftSwaps(t, d);
    } else {
      StopSwaps(t, d);
    }
    var after, before := t.Remove(d).node.Elements(), t.Elements();
    assert |after + multiset{t.Stop(d)}| == |before + multiset{Promoted(t, d)}|;
  }

  /** The same on one tree: removing 5 copies its right leaf's 7 into the root and keeps the
      leaf, so 7 is held twice. */
  lemma PromotedLeafExample()
    ensures Node(5, Nil, Leaf(7)).Remove(5) == Removal(true, Node(7, Nil, Leaf(7)))
    ensures Node(7, Nil, Leaf(7)).Elements() == multiset{7, 7}
  {
  }

  /** Promoting a child's own key, rather than the least key above or the greatest below, can
      break the order. After removing 5, the node that now holds 8 has 6 in its right subtree. */
  lemma PromotionBreaksOrder()
    ensures Node(10, Node(5, Nil, Node(8, Leaf(6), Nil)), Nil).StrictlyOrdered()
    ensures Node(10, Node(5, Nil, Node(8, Leaf(6), Nil)), Nil).Remove(5).node
         == Node(10, Node(8, Nil, Node(6, Leaf(6), Nil)), Nil)
    ensures !Node(8, Nil, Node(6, Leaf(6), Nil)).Ordered()
  {
    var t := Node(8, Nil, Node(6, Leaf(6), Nil));
    assert 6 in t.right.Keys();
  }

  /** Appends the keys of `t` in root-left-right order to `v` (`Node::pre_order`). */
  method PreOrderInto(t: Tree, v: seq<int>) returns (w: seq<int>)
    requires t.Node?
    ensures w == v + t.PreOrder()
  {
    w := v + [t.data];
    if t.left != Nil {
      w := PreOrderInto(t.left, w);
    }
    if t.right != Nil {
      w := PreOrderInto(t.right, w);
    }
  }

  /** Appends the keys of `t` in left-root-right order to `v` (`Node::in_order`). */
  method InOrderInto(t: Tree, v: seq<int>) returns (w: seq<int>)
    requires t.Node?
    ensures w == v + t.InOrder()
  {
    w := v;
    if t.left != Nil {
      w := InOrderInto(t.left, w);
    }
    w := w + [t.data];
    if t.right != Nil {
      w := InOrderInto(t.right, w);
    }
  }

  /** Appends the keys of `t` in left-right-root order to `v` (`Node::post_order`). */
  method PostOrderInto(t: Tree, v: seq<int>) returns (w: seq<int>)
    requires t.Node?
    ensures w == v + t.PostOrder()
  {
    w := v;
    if t.left != Nil {
      w := PostOrderInto(t.left, w);
    }
    if t.right != Nil {
      w := PostOrderInto(t.right, w);
    }
    w := w + [t.data];
  }

  /** When `BinaryTree::remove(d)` is defined. The root must exist (`contains` dereferences it).
      A key smaller than the root's that `contains` finds must have a left child to descend into.
      That can fail only on a tree whose order was broken by an earlier removal. Removing a root
      with two children must not promote the root's own key, because the nested `remove` of that
      key recurses without end. */
  ghost predicate Removable(t: Tree, d: int) {
    t.Node? &&
    (d < t.data && t.Contains(d) ==> t.left != Nil) &&
    (d == t.data && t.left != Nil && t.right != Nil ==> t.right.Minimum() != d)
  }

  /** What `BinaryTree::remove(d)` leaves: the new root, and how many times `size_` is
      decremented (the nested `remove` of the promoted key decrements it too). */
  function RemoveFromRoot(t: Tree, d: int): (r: (Tree, nat))
    requires Removable(t, d)
    ensures t.data != d ==> r.0.Node?
    ensures !t.Contains(d) ==> r == (t, 0)
    ensures t.Contains(d) ==> r.1 >= 1
    ensures t.data == d && (t.left == Nil || t.right == Nil) ==>
              r == (if t.left == Nil then t.right else t.left, 1)
    ensures t.data == d && t.left != Nil && t.right != Nil ==> r.0.Node? && r.0.data == t.right.Minimum()
    decreases if t.data == d && t.left != Nil && t.right != Nil then 1 else 0
  {
    if !t.Contains(d) then (t, 0)
    else if t.data == d then
      if t.left == Nil then (t.right, 1)
      else if t.right == Nil then (t.left, 1)
      else
        var temp := t.right.Minimum();
        var nested := RemoveFromRoot(t, temp);
        (nested.0.(data := temp), nested.1 + 1)
    else if d < t.data then (t.(left := t.left.Remove(d).node), 1)
    else (t.(right := t.right.Remove(d).node), 1)
  }

  /** Removing a root key with two children from an ordered tree moves the minimum of the right
      subtree into the root and decrements `size_` twice. The left subtree stays as it was. */
  lemma RootWithTwoChildrenDropsTwo(t: Tree)
    requires t.Ordered() && t.Node? && t.left != Nil && t.right != Nil && Removable(t, t.data)
    ensures RemoveFromRoot(t, t.data).1 == 2
    ensures RemoveFromRoot(t, t.data).0 == Node(t.right.Minimum(), t.left, t.right.Remove(t.right.Minimum()).node)
  {
    var m := t.right.Minimum();
    MinimumIsLeast(t.right);
    assert t.data < m;
    ContainsComplete(t.right, m);
  }

  /** On a tree with distinct, ordered keys, removing a stored key below the root takes exactly
      that key out, unless the child it descends into is a leaf: that child's `false` is ignored,
      so the tree stays as it was while `size_` still drops. */
  lemma {:induction false} RemoveBelowRoot(t: Tree, d: int)
    requires t.Node? && t.StrictlyOrdered() && d in t.Keys() && d != t.data
    ensures Removable(t, d) && RemoveFromRoot(t, d).1 == 1
    ensures var child := if d < t.data then t.left else t.right;
            if child.left == Nil && child.right == Nil then RemoveFromRoot(t, d).0 == t
            else RemoveFromRoot(t, d).0.Keys() == t.Keys() - {d}
  {
    StrictImpliesOrdered(t);
    ContainsComplete(t, d);
    var child := if d < t.data then t.left else t.right;
    assert d in child.Keys();
    StrictImpliesOrdered(child);
    StopFindsKey(child, d);
    RemoveTakesOutStop(child, d);
  }

  /** Distinct-key case where a removal below the root leaves the key in place while `size_`
      drops. */
  lemma IgnoredLeafStays()
    ensures RemoveFromRoot(Node(5, Leaf(3), Nil), 3) == (Node(5, Leaf(3), Nil), 1)
  {
  }

  /** A removal of a root with two children whose right child is a leaf leaves the promoted key
      twice. A second removal of that key is then undefined: the nested `remove` would promote it
      again without end. */
  lemma PromotedRootThenLoops()
    ensures RemoveFromRoot(Node(5, Leaf(3), Leaf(7)), 5) == (Node(7, Leaf(3), Leaf(7)), 2)
    ensures !Removable(Node(7, Leaf(3), Leaf(7)), 7)
  {
    assert Node(5, Leaf(3), Leaf(7)).Contains(7);
  }

  class BinaryTree {
    var root: Tree
    var size: nat

    /** `size_` is a `std::size_t`. */
    ghost predicate Valid()
      reads this
    {
      size < SizeT.Modulus
    }

    /** The source leaves `root_` and `size_` uninitialised; the model starts empty. */
    constructor ()
      ensures Valid() && root == Nil && size == 0
    {
      root := Nil;
      size := 0;
    }

    /** Makes `d` the root of an empty tree (`empty()` looks at `size_`), inserts it below the
        root when it is not contained, and counts the call either way. */
    method Insert(d: int)
      requires Valid()
      requires size != 0 ==> root.Node?
      modifies this
      ensures Valid() && size == SizeT.Inc(old(size))
      ensures old(size) == 0 ==> root == Leaf(d)
      ensures old(size) != 0 && old(root).Contains(d) ==> root == old(root)
      ensures old(size) != 0 && !old(root).Contains(d) ==> root == old(root).Insert(d)
      ensures old(size) != 0 && old(root).Ordered() ==> root.Ordered() && root.Keys() == old(root).Keys() + {d}
    {
      if size == 0 {
        root := Leaf(d);
      } else if !Contains(d) {
        if d < root.data {
          if root.left == Nil {
            root := root.(left := Leaf(d));
          } else {
            root := root.(left := root.left.Insert(d));
          }
        } else {
          if root.right == Nil {
            root := root.(right := Leaf(d));
          } else {
            root := root.(right := root.right.Insert(d));
          }
        }
        if old(root).Ordered() {
          InsertKeepsOrder(old(root), d);
        }
      }
      size := SizeT.Inc(size);
    }

    /** Does nothing when `d` is not contained. Removing the root key, the root's only child
        (or null) becomes the root; with two children, the minimum of the right subtree is
        removed by a nested `remove` and then written into the root. A key below the root is
        removed by the child on its side, whose result is ignored. */
    method Remove(d: int)
      requires Valid() && Removable(root, d)
      modifies this
      ensures Valid()
      ensures root == RemoveFromRoot(old(root), d).0
      ensures size == SizeT.DecTimes(old(size), RemoveFromRoot(old(root), d).1)
      decreases if root.Node? && root.data == d && root.left != Nil && root.right != Nil then 1 else 0
    {
      if Contains(d) {
        if root.data == d {
          if root.left == Nil {
            if root.right == Nil {
              root := Nil;
            } else {
              root := root.right;
            }
          } else {
            if root.right == Nil {
              root := root.left;
            } else {
              var temp := root.right.Minimum();
              Remove(temp);
              root := root.(data := temp);
            }
          }
        } else {
          if d < root.data {
            root := root.(left := root.left.Remove(d).node);
          } else {
            root := root.(right := root.right.Remove(d).node);
          }
        }
        size := SizeT.Dec(size);
      }
    }

    /** `BinaryTree::contains` descends left on `d <= root_->data_`, where `Node::contains` uses
        `<`; the two agree because equality is tested first. On an ordered tree it is exact
        membership. */
    function Contains(d: int): (r: bool)
      reads this
      requires root.Node?
      ensures r == root.Contains(d)
      ensures root.Ordered() ==> (r <==> d in root.Keys())
    {
      ContainsIff(root, d);
      if root.data == d then true
      else if d <= root.data && root.left != Nil then root.left.Contains(d)
      else if root.right != Nil then root.right.Contains(d)
      else false
    }

    /** `empty()` tests `size_`, which counts calls: a tree whose nodes were all removed by
        fewer calls than inserted it is not empty, and the reverse also happens. */
    function Empty(): (r: bool)
      reads this
      ensures r <==> size == 0
    {
      size == 0
    }

    /** `size()`: the call counter, a `std::size_t`. */
    function Size(): (r: nat)
      reads this
      requires Valid()
      ensures r < SizeT.Modulus && r == size
    {
      size
    }

    method PreOrder() returns (v: seq<int>)
      requires root.Node?
      ensures v == root.PreOrder() && multiset(v) == root.Elements()
    {
      var t := root;
      v := [t.data];
      if t.left != Nil {
        v := PreOrderInto(t.left, v);
      }
      assert v == [t.data] + t.left.PreOrder();
      if t.right != Nil {
        v := PreOrderInto(t.right, v);
      }
      TraversalsEmitEachNode(t);
    }

    method InOrder() returns (v: seq<int>)
      requires root.Node?
      ensures v == root.InOrder() && multiset(v) == root.Elements()
      ensures root.Ordered() ==> Sorted(v)
    {
      var t := root;
      v := [];
      if t.left != Nil {
        v := InOrderInto(t.left, v);
      }
      assert v == t.left.InOrder();
      v := v + [t.data];
      if t.right != Nil {
        v := InOrderInto(t.right, v);
      }
      TraversalsEmitEachNode(t);
      if t.Ordered() {
        InOrderSorted(t);
      }
    }

    method PostOrder() returns (v: seq<int>)
      requires root.Node?
      ensures v == root.PostOrder() && multiset(v) == root.Elements()
    {
      var t := root;
      v := [];
      if t.left != Nil {
        v := PostOrderInto(t.left, v);
      }
      assert v == t.left.PostOrder();
      if t.right != Nil {
        v := PostOrderInto(t.right, v);
      }
      assert v == t.left.PostOrder() + t.right.PostOrder();
      v := v + [t.data];
      TraversalsEmitEachNode(t);
    }
  }

  /** A new tree after inserting 5 and then 3. */
  method FiveThenThree() returns (a: BinaryTree)
    ensures fresh(a) && a.Valid() && a.root == Node(5, Leaf(3), Nil) && a.size == 2
  {
    a := new BinaryTree();
    a.Insert(5);
    assert a.root == Leaf(5) && a.size == 1;
    assert !a.root.Contains(3);
    a.Insert(3);
  }

  /** `empty()` reads the call counter, not the nodes. Inserting 5 and 3 and then removing 3
      twice leaves both nodes in an empty tree: each removal below the root ignores the
      child's result. */
  method EmptyWithNodes() returns (a: BinaryTree)
    ensures a.Empty() && a.root == Node(5, Leaf(3), Nil)
  {
    a := FiveThenThree();
    IgnoredLeafStays();
    a.Remove(3);
    assert a.root == Node(5, Leaf(3), Nil) && a.size == 1;
    a.Remove(3);
  }

  /** Inserting 5 twice and removing it once leaves no node in a tree that is not empty. */
  method NodesGoneNotEmpty() returns (b: BinaryTree)
    ensures !b.Empty() && b.root == Nil
  {
    b := new BinaryTree();
    b.Insert(5);
    assert b.root == Leaf(5) && b.root.Contains(5);
    b.Insert(5);
    assert b.root == Leaf(5) && b.size == 2;
    assert RemoveFromRoot(b.root, 5) == (Nil, 1);
    b.Remove(5);
  }
}
