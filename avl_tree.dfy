/** `structures::AVLTree`: a binary search tree whose nodes carry a height and a balance factor.
    `updateHeight` takes the larger height of the children without adding one, so a leaf has
    height 0 and so does every node above it. Every balance factor is then 0, and the
    rotations never run. The model proves that, and that the tree otherwise behaves exactly like
    the unbalanced `BinaryTrees.Tree` it erases to.

    As in `BinaryTrees`, each node has one owner, so nodes are modelled as values. */
module AVLTrees {
  import B = BinaryTrees
  import opened Sequences
  import SizeT

  datatype Tree = Nil | Node(data: int, height: nat, left: Tree, right: Tree) {

    /** The same tree without the heights. */
    function Erase(): (r: B.Tree)
      ensures Node? <==> r.Node?
      ensures Node? ==> r.data == data
    {
      match this
      case Nil => B.Nil
      case Node(k, _, l, r) => B.Node(k, l.Erase(), r.Erase())
    }

    /** Every node has height 0, the only height `updateHeight` can produce. */
    ghost predicate Flat() {
      match this
      case Nil => true
      case Node(_, h, l, r) => h == 0 && l.Flat() && r.Flat()
    }

    /** `Node::updateHeight`: the larger height of the existing children, or 0 for a leaf. */
    function UpdateHeight(): (r: Tree)
      requires Node?
      ensures r.Node? && r.Erase() == Erase()
      ensures left.Flat() && right.Flat() ==> r.Flat()
    {
      var h :=
        if left != Nil && right != Nil then Max(left.height, right.height)
        else if left != Nil then left.height
        else if right != Nil then right.height
        else 0;
      this.(height := h)
    }

    /** `Node::fb`: the height of the left child minus that of the right child, a missing
        child counting as 0. */
    function Fb(): (r: int)
      requires Node?
      ensures left.Flat() && right.Flat() ==> r == 0
    {
      if left != Nil && right != Nil then left.height - right.height
      else if left != Nil then left.height
      else if right != Nil then 0 - right.height
      else 0
    }

    /** `Node::insert`: the same descent as the unbalanced tree, then `updateHeight`. The
        balance factor of the result is 0, so the rotation guard `fb * fb > 1` is false. It
        keeps every height 0. */
    function Insert(d: int): (r: Tree)
      requires Node? && Flat()
      ensures r.Node? && r.Flat() && r.Fb() == 0
      ensures r.Erase() == Erase().Insert(d)
    {
      var t :=
        if d < data then this.(left := if left == Nil then Leaf(d) else left.Insert(d))
        else this.(right := if right == Nil then Leaf(d) else right.Insert(d));
      t.UpdateHeight()
    }

    /** `Node::remove`: the same walk and promotions as the unbalanced tree, then `updateHeight`.
        The balance factor of the result is 0, so the rebalancing loop's guard is false from
        the start. It keeps every height 0. */
    function Remove(d: int): (r: Removal)
      requires Node? && Flat()
      ensures r.node.Node? && r.node.Flat() && r.node.Fb() == 0
      ensures r.kept == Erase().Remove(d).kept && r.node.Erase() == Erase().Remove(d).node
    {
      if !(d > data && right != Nil) && !(d < data && left != Nil) && left == Nil && right == Nil then
        Removal(false, this)
      else
        var t :=
          if d > data && right != Nil then
            var sub := right.Remove(d);
            this.(right := if sub.kept then sub.node else Nil)
          else if d < data && left != Nil then
            var sub := left.Remove(d);
            this.(left := if sub.kept then sub.node else Nil)
          else if right != Nil && left != Nil then
            var m := right.Minimum();
            this.(data := m, right := right.Remove(m).node)
          else if right != Nil then
            this.(data := right.data, right := right.Remove(right.data).node)
          else
            this.(data := left.data, left := left.Remove(left.data).node);
        Removal(true, t.UpdateHeight())
    }

    /** `Node::contains`, as in the unbalanced tree. */
    function Contains(d: int): (r: bool)
      requires Node?
      ensures r == Erase().Contains(d)
    {
      if d == data then true
      else if d < data && left != Nil then left.Contains(d)
      else if right != Nil then right.Contains(d)
      else false
    }

    /** `Node::minimun`, as in the unbalanced tree. */
    function Minimum(): (r: int)
      requires Node?
      ensures r == Erase().Minimum()
    {
      if left == Nil then data else left.Minimum()
    }
  }

  /** `new Node(d)`: a leaf of height 0. */
  function Leaf(d: int): Tree {
    Node(d, 0, Nil, Nil)
  }

  /** `Node::max`. */
  function Max(a: int, b: int): (r: int)
    ensures r >= a && r >= b && (r == a || r == b)
  {
    if a >= b then a else b
  }

  /** What `Node::remove` gives back: its `bool` result and the node's new value. */
  datatype Removal = Removal(kept: bool, node: Tree)

  /** Removing a key that is not stored still takes a key out: the one where the walk stops.
      Here 7 is absent, the walk stops at the root 5, and 5 is replaced by its left child's 3.
      That leaf is kept, because the promotion ignores its result. */
  lemma AbsentKeyRemovesAnother()
    ensures Node(5, 0, Leaf(3), Nil).Remove(7) == Removal(true, Node(3, 0, Leaf(3), Nil))
  {
  }

  /** In any flat tree, when the promoted key comes from a leaf, `Node::remove` detaches no
      node: the key where the walk stops is replaced by the promoted key, which the leaf keeps,
      and the tree holds as many keys as before. */
  lemma PromotedLeafStays(t: Tree, d: int)
    requires t.Node? && t.Flat() && B.PromotesLeaf(t.Erase(), d)
    ensures t.Remove(d).kept
    ensures t.Remove(d).node.Erase().Elements() + multiset{t.Erase().Stop(d)}
         == t.Erase().Elements() + multiset{B.Promoted(t.Erase(), d)}
    ensures |t.Remove(d).node.Erase().Elements()| == |t.Erase().Elements()|
  {
    B.PromotedLeafStays(t.Erase(), d);
  }

  /** The keys left after `AVLTree::remove(d)` on a tree with distinct, ordered keys: all but
      the one where the walk stops, which is `d` itself whenever `d` is stored. */
  lemma RemovedKeys(t: Tree, d: int)
    requires t.Node? && t.Flat()
    ensures var r := t.Remove(d);
            var after := if r.kept then r.node.Erase().Keys() else {};
            t.Erase().StrictlyOrdered() ==>
              after == t.Erase().Keys() - {t.Erase().Stop(d)} &&
              (d in t.Erase().Keys() ==> after == t.Erase().Keys() - {d})
  {
    var e := t.Erase();
    if e.StrictlyOrdered() {
      B.RemoveTakesOutStop(e, d);
      if d in e.Keys() {
        B.StrictImpliesOrdered(e);
        B.StopFindsKey(e, d);
      }
    }
  }

  /** Appends the keys of `t` in root-left-right order to `v` (`Node::pre_order`). */
  method PreOrderInto(t: Tree, v: seq<int>) returns (w: seq<int>)
    requires t.Node?
    ensures w == v + t.Erase().PreOrder()
  {
    ghost var l, r := t.left.Erase(), t.right.Erase();
    assert t.Erase().PreOrder() == [t.data] + l.PreOrder() + r.PreOrder();
    w := v + [t.data];
    if t.left != Nil {
      w := PreOrderInto(t.left, w);
    }
    assert w == v + [t.data] + l.PreOrder();
    if t.right != Nil {
      w := PreOrderInto(t.right, w);
    }
  }

  /** Appends the keys of `t` in left-root-right order to `v` (`Node::in_order`). */
  method InOrderInto(t: Tree, v: seq<int>) returns (w: seq<int>)
    requires t.Node?
    ensures w == v + t.Erase().InOrder()
  {
    ghost var l, r := t.left.Erase(), t.right.Erase();
    assert t.Erase().InOrder() == l.InOrder() + [t.data] + r.InOrder();
    w := v;
    if t.left != Nil {
      w := InOrderInto(t.left, w);
    }
    assert w == v + l.InOrder();
    w := w + [t.data];
    if t.right != Nil {
      w := InOrderInto(t.right, w);
    }
  }

  /** Appends the keys of `t` in left-right-root order to `v` (`Node::post_order`). */
  method PostOrderInto(t: Tree, v: seq<int>) returns (w: seq<int>)
    requires t.Node?
    ensures w == v + t.Erase().PostOrder()
  {
    ghost var l, r := t.left.Erase(), t.right.Erase();
    assert t.Erase().PostOrder() == l.PostOrder() + r.PostOrder() + [t.data];
    w := v;
    if t.left != Nil {
      w := PostOrderInto(t.left, w);
    }
    assert w == v + l.PostOrder();
    if t.right != Nil {
      w := PostOrderInto(t.right, w);
    }
    assert w == v + l.PostOrder() + r.PostOrder();
    w := w + [t.data];
  }

  class AVLTree {
    var root: Tree
    var size: nat

    /** `size_` is a `std::size_t`, and every height is 0. */
    ghost predicate Valid()
      reads this
    {
      size < SizeT.Modulus && root.Flat()
    }

    constructor ()
      ensures Valid() && root == Nil && size == 0
    {
      root := Nil;
      size := 0;
    }

    /** Makes `d` the root of an empty tree (`empty()` looks at `size_`). Otherwise, when `d` is
        not contained, it inserts `d` below the root exactly as `Node::insert` would. The call
        is counted either way. */
    method Insert(d: int)
      requires Valid()
      requires size != 0 ==> root.Node?
      modifies this
      ensures Valid() && size == SizeT.Inc(old(size))
      ensures root.Node? && root.Fb() == 0
      ensures old(size) == 0 ==> root == Leaf(d)
      ensures old(size) != 0 && old(root).Contains(d) ==> root == old(root)
      ensures old(size) != 0 && !old(root).Contains(d) ==> root == old(root).Insert(d)
      ensures old(size) != 0 && old(root).Erase().Ordered() ==>
                root.Erase().Ordered() && root.Erase().Keys() == old(root).Erase().Keys() + {d}
    {
      if size == 0 {
        root := Leaf(d);
      } else if !Contains(d) {
        if d < root.data {
          if root.left == Nil {
            root := root.(left := Leaf(d));
          } else {
            root := root.(left := root.left.Insert(d));
          }
        } else {
          if root.right == Nil {
            root := root.(right := Leaf(d));
          } else {
            root := root.(right := root.right.Insert(d));
          }
        }
        root := root.UpdateHeight();
        if old(root).Erase().Ordered() {
          B.InsertKeepsOrder(old(root).Erase(), d);
        }
      }
      size := SizeT.Inc(size);
    }

    /** Removes below the root exactly as `Node::remove` would, and deletes the root when it is
        a leaf. The call is counted: `size_` drops even when nothing was removed. On a tree
        with distinct, ordered keys, the key taken out is the one where the walk stops. */
    method Remove(d: int)
      requires Valid() && root.Node?
      modifies this
      ensures Valid() && size == SizeT.Dec(old(size))
      ensures root.Node? ==> root.Fb() == 0
      ensures root == (var r := old(root).Remove(d); if r.kept then r.node else Nil)
      ensures old(root).left == Nil && old(root).right == Nil ==> root == Nil
      ensures old(root).Erase().StrictlyOrdered() ==>
                root.Erase().Keys() == old(root).Erase().Keys() - {old(root).Erase().Stop(d)}
      ensures old(root).Erase().StrictlyOrdered() && d in old(root).Erase().Keys() ==>
                root.Erase().Keys() == old(root).Erase().Keys() - {d}
    {
      var t := root;
      if d > t.data && t.right != Nil {
        var sub := t.right.Remove(d);
        root := t.(right := if sub.kept then sub.node else Nil);
      } else if d < t.data && t.left != Nil {
        var sub := t.left.Remove(d);
        root := t.(left := if sub.kept then sub.node else Nil);
      } else {
        if t.right != Nil && t.left != Nil {
          var m := t.right.Minimum();
          root := t.(data := m, right := t.right.Remove(m).node);
        } else if t.right != Nil {
          root := t.(data := t.right.data, right := t.right.Remove(t.right.data).node);
        } else if t.left != Nil {
          root := t.(data := t.left.data, left := t.left.Remove(t.left.data).node);
        } else {
          root := Nil;
        }
      }
      if root != Nil {
        root := root.UpdateHeight();
      }
      size := SizeT.Dec(size);
      RemovedKeys(t, d);
    }

    /** `AVLTree::contains` descends left on `d <= root_->data_`, where `Node::contains` uses
        `<`; the two agree because equality is tested first. On an ordered tree it is exact
        membership. */
    function Contains(d: int): (r: bool)
      reads this
      requires root.Node?
      ensures r == root.Contains(d)
      ensures root.Erase().Ordered() ==> (r <==> d in root.Erase().Keys())
    {
      B.ContainsIff(root.Erase(), d);
      if root.data == d then true
      else if d <= root.data && root.left != Nil then root.left.Contains(d)
      else if root.right != Nil then root.right.Contains(d)
      else false
    }

    /** `empty()` tests `size_`, which counts calls rather than nodes. */
    function Empty(): (r: bool)
      reads this
      ensures r <==> size == 0
    {
      size == 0
    }

    /** `size()`: the call counter, a `std::size_t`. */
    function Size(): (r: nat)
      reads this
      requires Valid()
      ensures r < SizeT.Modulus && r == size
    {
      size
    }

    method PreOrder() returns (v: seq<int>)
      requires root.Node?
      ensures v == root.Erase().PreOrder() && multiset(v) == root.Erase().Elements()
    {
      var t := root;
      v := [t.data];
      if t.left != Nil {
        v := PreOrderInto(t.left, v);
      }
      assert v == [t.data] + t.left.Erase().PreOrder();
      if t.right != Nil {
        v := PreOrderInto(t.right, v);
      }
      B.TraversalsEmitEachNode(t.Erase());
    }

    method InOrder() returns (v: seq<int>)
      requires root.Node?
      ensures v == root.Erase().InOrder() && multiset(v) == root.Erase().Elements()
      ensures root.Erase().Ordered() ==> Sorted(v)
    {
      var t := root;
      v := [];
      if t.left != Nil {
        v := InOrderInto(t.left, v);
      }
      assert v == t.left.Erase().InOrder();
      v := v + [t.data];
      if t.right != Nil {
        v := InOrderInto(t.right, v);
      }
      B.TraversalsEmitEachNode(t.Erase());
      if t.Erase().Ordered() {
        B.InOrderSorted(t.Erase());
      }
    }

    method PostOrder() returns (v: seq<int>)
      requires root.Node?
      ensures v == root.Erase().PostOrder() && multiset(v) == root.Erase().Elements()
    {
      var t := root;
      v := [];
      if t.left != Nil {
        v := PostOrderInto(t.left, v);
      }
      assert v == t.left.Erase().PostOrder();
      if t.right != Nil {
        v := PostOrderInto(t.right, v);
      }
      assert v == t.left.Erase().PostOrder() + t.right.Erase().PostOrder();
      v := v + [t.data];
      B.TraversalsEmitEachNode(t.Erase());
    }
  }

  /** `empty()` reads the call counter, not the nodes. Inserting 5 and 3 and then removing the
      absent 7 and then 3 leaves two nodes in an empty tree: each removal promotes the leaf 3
      and keeps it. */
  method EmptyWithNodes() returns (a: AVLTree)
    ensures a.Empty() && a.root == Node(3, 0, Leaf(3), Nil)
  {
    a := new AVLTree();
    a.Insert(5);
    a.Insert(3);
    assert a.root == Node(5, 0, Leaf(3), Nil) && a.size == 2;
    a.Remove(7);
    assert a.root == Node(3, 0, Leaf(3), Nil) && a.size == 1;
    a.Remove(3);
  }

  /** Inserting 5 twice and removing it once leaves no node in a tree that is not empty. */
  method NodesGoneNotEmpty() returns (b: AVLTree)
    ensures !b.Empty() && b.root == Nil
  {
    b := new AVLTree();
    b.Insert(5);
    b.Insert(5);
    assert b.root == Leaf(5) && b.size == 2;
    b.Remove(5);
  }
}
