/**
 * The plain binary tree the search tree is built on (bitree.h, bitree.c).
 *
 * The linked nodes are a datatype value held in the `root` field of a
 * `BiTree` object; a pointer to a node of the tree is the path that leads to
 * it from the root, and the NULL node argument of the C interface is `None`.
 * Overwriting a child slot through a `BiTreeNode **` becomes grafting a new
 * subtree at a path. The `destroy` callback is recorded by whether it is set
 * and by a ghost log of the data it was called on.
 */
module BinaryTree {
  import opened Optional

  /** A node with its two child links; `Nil` is the NULL pointer. */
  datatype Tree<T> = Nil | Node(left: Tree<T>, data: T, right: Tree<T>)

  /** One of the two child slots of a node. */
  datatype Side = Left | Right

  /** The position of a node: the sides taken on the way down from the root. */
  type Path = seq<Side>

  /** Number of nodes. */
  function Size<T>(t: Tree<T>): nat
  {
    match t
    case Nil => 0
    case Node(l, _, r) => Size(l) + 1 + Size(r)
  }

  /** Number of nodes on the longest branch; 0 for the empty tree. */
  function Height<T>(t: Tree<T>): nat
  {
    match t
    case Nil => 0
    case Node(l, _, r) => 1 + if Height(l) < Height(r) then Height(r) else Height(l)
  }

  /** The data in the order a post-order walk visits it: children first, left before right. */
  ghost function PostOrder<T>(t: Tree<T>): seq<T>
  {
    match t
    case Nil => []
    case Node(l, x, r) => PostOrder(l) + PostOrder(r) + [x]
  }

  /** `bitree_is_eob`: the node marks the end of a branch exactly when no node is there. */
  function IsEob<T>(node: Tree<T>): (eob: bool)
    ensures eob <==> Size(node) == 0
  {
    node.Nil?
  }

  /** `bitree_is_leaf`: a node is a leaf exactly when it is the only node of its subtree. */
  function IsLeaf<T>(node: Tree<T>): (leaf: bool)
    requires node.Node?
    ensures leaf <==> Size(node) == 1
  {
    node.left.Nil? && node.right.Nil?
  }

  /** The child in slot `side`; the empty tree has only empty children. */
  function Child<T>(t: Tree<T>, side: Side): Tree<T>
  {
    match t
    case Nil => Nil
    case Node(l, _, r) => if side == Left then l else r
  }

  /** `t` with the child in slot `side` replaced by `s`. */
  function WithChild<T>(t: Tree<T>, side: Side, s: Tree<T>): Tree<T>
    requires t.Node?
  {
    if side == Left then t.(left := s) else t.(right := s)
  }

  /** The subtree found by following `p` from `t` (empty once the path leaves the tree). */
  function At<T>(t: Tree<T>, p: Path): Tree<T>
    decreases |p|
  {
    if p == [] then t else At(Child(t, p[0]), p[1..])
  }

  /** Every proper prefix of `p` leads to a node, so `p` names a slot of `t`. */
  ghost predicate Reaches<T>(t: Tree<T>, p: Path)
    decreases |p|
  {
    p == [] || (t.Node? && Reaches(Child(t, p[0]), p[1..]))
  }

  /** `t` with the subtree in slot `p` replaced by `s`: the model of `*position = s`. */
  function Graft<T>(t: Tree<T>, p: Path, s: Tree<T>): Tree<T>
    decreases |p|
  {
    if p == [] then s
    else match t
      case Nil => Nil
      case Node(l, x, r) =>
        if p[0] == Left then Node(Graft(l, p[1..], s), x, r)
        else Node(l, x, Graft(r, p[1..], s))
  }

  /** The node argument of an operation: NULL, or a node of the tree. */
  ghost predicate IsNodeOf<T>(t: Tree<T>, node: Option<Path>)
  {
    node.None? || (Reaches(t, node.value) && At(t, node.value).Node?)
  }

  /** The slot an operation works on: the root for NULL, else the node's `side` child. */
  function Slot(node: Option<Path>, side: Side): (p: Path)
    ensures node.Some? ==> |p| == |node.value| + 1
  {
    if node.None? then [] else node.value + [side]
  }

  lemma {:induction false} AtAppend<T>(t: Tree<T>, p: Path, side: Side)
    ensures At(t, p + [side]) == Child(At(t, p), side)
    decreases |p|
  {
    if p != [] {
      assert (p + [side])[1..] == p[1..] + [side];
      AtAppend(Child(t, p[0]), p[1..], side);
    }
  }

  lemma {:induction false} ReachesAppend<T>(t: Tree<T>, p: Path, side: Side)
    ensures Reaches(t, p + [side]) <==> Reaches(t, p) && At(t, p).Node?
    decreases |p|
  {
    if p != [] {
      assert (p + [side])[1..] == p[1..] + [side];
      ReachesAppend(Child(t, p[0]), p[1..], side);
    }
  }

  /** The slot of an operation always lies inside the tree. */
  lemma SlotReached<T>(t: Tree<T>, node: Option<Path>, side: Side)
    requires IsNodeOf(t, node)
    ensures Reaches(t, Slot(node, side))
  {
    if node.Some? {
      ReachesAppend(t, node.value, side);
    }
  }

  /** After grafting, the slot holds exactly the grafted subtree. */
  lemma {:induction false} GraftAt<T>(t: Tree<T>, p: Path, s: Tree<T>)
    requires Reaches(t, p)
    ensures At(Graft(t, p, s), p) == s
    ensures Reaches(Graft(t, p, s), p)
    decreases |p|
  {
    if p != [] {
      GraftAt(Child(t, p[0]), p[1..], s);
    }
  }

  /** A second graft at the same slot overrides the first. */
  lemma {:induction false} GraftGraft<T>(t: Tree<T>, p: Path, a: Tree<T>, b: Tree<T>)
    ensures Graft(Graft(t, p, a), p, b) == Graft(t, p, b)
    decreases |p|
  {
    if p != [] && t.Node? {
      GraftGraft(Child(t, p[0]), p[1..], a, b);
    }
  }

  /** Grafting into a child slot of a node is grafting that node with its child replaced. */
  lemma {:induction false} GraftChild<T>(t: Tree<T>, p: Path, side: Side, s: Tree<T>)
    requires Reaches(t, p) && At(t, p).Node?
    ensures Graft(t, p + [side], s) == Graft(t, p, WithChild(At(t, p), side, s))
    decreases |p|
  {
    if p != [] {
      assert (p + [side])[1..] == p[1..] + [side];
      GraftChild(Child(t, p[0]), p[1..], side, s);
    }
  }

  /** Grafting back the subtree already in the slot changes nothing. */
  lemma {:induction false} GraftSame<T>(t: Tree<T>, p: Path)
    ensures Graft(t, p, At(t, p)) == t
    decreases |p|
  {
    if p != [] && t.Node? {
      GraftSame(Child(t, p[0]), p[1..]);
    }
  }

  /** Grafting trades the node count of the old subtree for that of the new one. */
  lemma {:induction false} GraftSize<T>(t: Tree<T>, p: Path, s: Tree<T>)
    requires Reaches(t, p)
    ensures Size(Graft(t, p, s)) == Size(t) - Size(At(t, p)) + Size(s)
    decreases |p|
  {
    if p != [] {
      GraftSize(Child(t, p[0]), p[1..], s);
    }
  }

  /**
   * The trees a removal at `p` passes through: emptying the left child slot,
   * then the right one, leaves a lone node at `p`; emptying `p` then removes
   * the whole subtree that was there.
   */
  lemma PruneSteps<T>(t: Tree<T>, p: Path)
    requires Reaches(t, p) && At(t, p).Node?
    ensures var x := At(t, p);
            var x1, x2 := Node(Nil, x.data, x.right), Node(Nil, x.data, Nil);
            && At(t, p + [Left]) == x.left
            && Graft(t, p + [Left], Nil) == Graft(t, p, x1)
            && Reaches(Graft(t, p, x1), p) && At(Graft(t, p, x1), p) == x1
            && At(Graft(t, p, x1), p + [Right]) == x.right
            && Graft(Graft(t, p, x1), p + [Right], Nil) == Graft(t, p, x2)
            && Reaches(Graft(t, p, x2), p) && At(Graft(t, p, x2), p) == x2
            && Graft(Graft(t, p, x2), p, Nil) == Graft(t, p, Nil)
            && Size(Graft(t, p, Nil)) == Size(t) - Size(x)
  {
    var x := At(t, p);
    var x1, x2 := Node(Nil, x.data, x.right), Node(Nil, x.data, Nil);
    AtAppend(t, p, Left);
    GraftChild(t, p, Left, Nil);
    GraftAt(t, p, x1);
    AtAppend(Graft(t, p, x1), p, Right);
    GraftChild(Graft(t, p, x1), p, Right, Nil);
    GraftGraft(t, p, x1, x2);
    GraftAt(t, p, x2);
    GraftGraft(t, p, x2, Nil);
    GraftSize(t, p, Nil);
  }

  /**
   * `BiTree`: the node count, the destroy callback and the root. `compare` is
   * not used by the plain tree and is left to the search tree.
   */
  /**
   * The destroy log of a node's removal: its left subtree's data, then its
   * right subtree's, then its own, which is its post-order.
   */
  lemma RemovalLog<T>(x: Tree<T>, hasDestroy: bool, d0: seq<T>, d1: seq<T>, d2: seq<T>, d3: seq<T>)
    requires x.Node?
    requires d1 == d0 + (if hasDestroy then PostOrder(x.left) else [])
    requires d2 == d1 + (if hasDestroy then PostOrder(x.right) else [])
    requires d3 == d2 + (if hasDestroy then [x.data] else [])
    ensures d3 == d0 + (if hasDestroy then PostOrder(x) else [])
  {
    assert PostOrder(x) == PostOrder(x.left) + PostOrder(x.right) + [x.data];
  }

  class BiTree<T> {
    var size: int
    var hasDestroy: bool
    var root: Tree<T>
    /** The data `destroy` has been called on, in call order. */
    ghost var destroyed: seq<T>

    /** `size` is the number of nodes in the tree. */
    ghost predicate Valid()
      reads this
    {
      size == Size(root)
    }

    /** A freshly allocated tree, set up as `bitree_init` does. */
    constructor (destroy: bool)
      ensures Valid()
      ensures root == Nil && size == 0 && hasDestroy == destroy && destroyed == []
    {
      size := 0;
      hasDestroy := destroy;
      root := Nil;
      destroyed := [];
    }

    /** `bitree_init`: an empty tree with the given destroy callback. */
    method Init(destroy: bool)
      modifies this
      ensures Valid()
      ensures root == Nil && size == 0 && hasDestroy == destroy && destroyed == []
    {
      size := 0;
      hasDestroy := destroy;
      root := Nil;
      destroyed := [];
    }

    /** `bitree_destroy`: removes every node, then clears the structure. */
    method Destroy()
      requires Valid()
      modifies this
      ensures Valid()
      ensures root == Nil && size == 0 && !hasDestroy
      ensures destroyed == old(destroyed) + (if old(hasDestroy) then PostOrder(old(root)) else [])
    {
      RemLeft(None);
      // clear the whole structure
      size, hasDestroy, root := 0, false, Nil;
    }

    /**
     * `bitree_ins_left`: a new leaf holding `data` as the left child of
     * `node`, or as the root when `node` is NULL. `allocOk` is whether the
     * node's storage can be allocated.
     */
    method InsLeft(node: Option<Path>, data: T, allocOk: bool) returns (r: int)
      requires Valid() && IsNodeOf(root, node)
      modifies this
      ensures Valid() && hasDestroy == old(hasDestroy) && destroyed == old(destroyed)
      ensures r == 0 || r == -1
      ensures r == -1 <==> ((node.None? && old(size) > 0)
                             || (node.Some? && At(old(root), node.value).left.Node?)
                             || !allocOk)
      ensures r == -1 ==> root == old(root) && size == old(size)
      ensures r == 0 ==> (root == Graft(old(root), Slot(node, Left), Node(Nil, data, Nil))
                          && size == old(size) + 1)
    {
      var position: Path;
      if node.None? {
        // insertion at the root only in an empty tree
        if size > 0 {
          return -1;
        }
        position := [];
      } else {
        // normally only at the end of a branch
        if !IsEob(At(root, node.value).left) {
          return -1;
        }
        position := node.value + [Left];
        AtAppend(root, node.value, Left);
      }
      if !allocOk {
        return -1;
      }
      SlotReached(root, node, Left);
      GraftSize(root, position, Node(Nil, data, Nil));
      root := Graft(root, position, Node(Nil, data, Nil));
      size := size + 1;
      r := 0;
    }

    /** `bitree_ins_right`: the mirror image of `InsLeft`. */
    method InsRight(node: Option<Path>, data: T, allocOk: bool) returns (r: int)
      requires Valid() && IsNodeOf(root, node)
      modifies this
      ensures Valid() && hasDestroy == old(hasDestroy) && destroyed == old(destroyed)
      ensures r == 0 || r == -1
      ensures r == -1 <==> ((node.None? && old(size) > 0)
                             || (node.Some? && At(old(root), node.value).right.Node?)
                             || !allocOk)
      ensures r == -1 ==> root == old(root) && size == old(size)
      ensures r == 0 ==> (root == Graft(old(root), Slot(node, Right), Node(Nil, data, Nil))
                          && size == old(size) + 1)
    {
      var position: Path;
      if node.None? {
        if size > 0 {
          return -1;
        }
        position := [];
      } else {
        if !IsEob(At(root, node.value).right) {
          return -1;
        }
        position := node.value + [Right];
        AtAppend(root, node.value, Right);
      }
      if !allocOk {
        return -1;
      }
      SlotReached(root, node, Right);
      GraftSize(root, position, Node(Nil, data, Nil));
      root := Graft(root, position, Node(Nil, data, Nil));
      size := size + 1;
      r := 0;
    }

    /**
     * `bitree_rem_left`: removes the subtree in the left slot of `node` (the
     * whole tree when `node` is NULL), post-order.
     */
    method RemLeft(node: Option<Path>)
      requires Valid() && IsNodeOf(root, node)
      modifies this
      ensures Valid() && hasDestroy == old(hasDestroy)
      ensures root == Graft(old(root), Slot(node, Left), Nil)
      ensures size == old(size) - Size(At(old(root), Slot(node, Left)))
      ensures destroyed == old(destroyed)
                           + (if hasDestroy then PostOrder(At(old(root), Slot(node, Left))) else [])
      decreases Size(At(root, Slot(node, Left))), 1
    {
      // no removal from an empty tree
      if size == 0 {
        return;
      }
      SlotReached(root, node, Left);
      RemoveAt(Slot(node, Left));
    }

    /** `bitree_rem_right`: the mirror image of `RemLeft`. */
    method RemRight(node: Option<Path>)
      requires Valid() && IsNodeOf(root, node)
      modifies this
      ensures Valid() && hasDestroy == old(hasDestroy)
      ensures root == Graft(old(root), Slot(node, Right), Nil)
      ensures size == old(size) - Size(At(old(root), Slot(node, Right)))
      ensures destroyed == old(destroyed)
                           + (if hasDestroy then PostOrder(At(old(root), Slot(node, Right))) else [])
      decreases Size(At(root, Slot(node, Right))), 1
    {
      if size == 0 {
        return;
      }
      SlotReached(root, node, Right);
      RemoveAt(Slot(node, Right));
    }

    /**
     * The part `bitree_rem_left` and `bitree_rem_right` share once the
     * position is known: if a node is there, remove its left and right
     * subtrees, call destroy on its data, and empty the slot.
     */
    method RemoveAt(position: Path)
      requires Valid() && Reaches(root, position)
      modifies this
      ensures Valid() && hasDestroy == old(hasDestroy)
      ensures root == Graft(old(root), position, Nil)
      ensures size == old(size) - Size(At(old(root), position))
      ensures destroyed == old(destroyed)
                           + (if hasDestroy then PostOrder(At(old(root), position)) else [])
      decreases Size(At(root, position)), 0
    {
      if IsEob(At(root, position)) {
        GraftSame(root, position);
        return;
      }
      ghost var x, d0 := At(root, position), destroyed;
      PruneSteps(root, position);
      RemLeft(Some(position));
      ghost var d1 := destroyed;
      RemRight(Some(position));
      ghost var d2 := destroyed;
      if hasDestroy {
        // hand the removed node's data to destroy
        destroyed := destroyed + [At(root, position).data];
      }
      root := Graft(root, position, Nil);
      size := size - 1;
      RemovalLog(x, hasDestroy, d0, d1, d2, destroyed);
    }

    /**
     * `bitree_merge`, with this tree as `merge`: a new root holding `data`
     * whose children are the roots of `left` and `right`, which are emptied.
     */
    method Merge(left: BiTree<T>, right: BiTree<T>, data: T, allocOk: bool) returns (r: int)
      requires left != this && right != this && left != right
      requires left.Valid() && right.Valid()
      modifies this, left, right
      ensures Valid() && left.Valid() && right.Valid()
      ensures r == 0 || r == -1
      ensures r == -1 <==> !allocOk
      ensures r == 0 ==> (root == Node(old(left.root), data, old(right.root))
                          && size == 1 + old(left.size) + old(right.size)
                          && hasDestroy == old(left.hasDestroy) && destroyed == [])
      ensures r == 0 ==> left.root == Nil && left.size == 0 && right.root == Nil && right.size == 0
      ensures r == 0 ==> (left.hasDestroy == old(left.hasDestroy) && left.destroyed == old(left.destroyed)
                          && right.hasDestroy == old(right.hasDestroy) && right.destroyed == old(right.destroyed))
      ensures r == -1 ==> (root == Nil && size == 0 && !hasDestroy && destroyed == []
                           && unchanged(left) && unchanged(right))
    {
      Init(left.hasDestroy);
      r := InsLeft(None, data, allocOk);
      if r != 0 {
        Destroy();
        return -1;
      }
      root := root.(left := left.root, right := right.root);
      size := size + left.size + right.size;
      // the original trees no longer reach the merged nodes
      left.root, left.size := Nil, 0;
      right.root, right.size := Nil, 0;
    }
  }
}
