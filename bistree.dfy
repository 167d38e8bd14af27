/**
 * The AVL-balanced binary search tree (bistree.h, bistree.c), built on the
 * binary tree of module BinaryTree: every node's payload is an `AvlNode`
 * envelope holding the caller's record, a `hidden` flag and a balance factor.
 *
 * The recursive helpers work on subtrees as values and hand back the new
 * subtree, where the C code rewrites links through a `BiTreeNode **`; the
 * `*balanced` out-flag of `_insert` becomes a returned boolean. Removal is
 * lazy: it only sets `hidden`.
 */
module SearchTree {
  import opened Optional
  import opened BinaryTree
  import opened Comparator

  /** Balance factors: height of the left subtree minus height of the right subtree. */
  const LFT_HEAVY: int := 1
  const BALANCED: int := 0
  const RGT_HEAVY: int := -1

  /** A caller record: the key `compare` looks at, and the rest of the record. */
  datatype Record = Record(key: int, item: int)

  /** The payload of every node of an AVL tree. */
  datatype AvlNode = AvlNode(data: Record, hidden: bool, factor: int)

  /** What a node holds for the caller: its record and whether it is hidden. */
  datatype Entry = Entry(data: Record, hidden: bool)

  type AvlTree = Tree<AvlNode>

  // ---------------------------------------------------------------------------
  // Specification functions

  /** The keys of all nodes, hidden ones included. */
  ghost function Keys(t: AvlTree): set<int>
  {
    match t
    case Nil => {}
    case Node(l, n, r) => Keys(l) + {n.data.key} + Keys(r)
  }

  /** Search-tree order: smaller keys to the left, larger to the right, hidden nodes included. */
  ghost predicate Ordered(t: AvlTree)
  {
    match t
    case Nil => true
    case Node(l, n, r) =>
      Ordered(l) && Ordered(r) &&
      (forall k :: k in Keys(l) ==> k < n.data.key) &&
      (forall k :: k in Keys(r) ==> n.data.key < k)
  }

  /** Every stored factor is the real height difference, and none exceeds 1 in magnitude. */
  ghost predicate Balanced(t: AvlTree)
  {
    match t
    case Nil => true
    case Node(l, n, r) =>
      Balanced(l) && Balanced(r) &&
      n.factor == Height(l) - Height(r) &&
      RGT_HEAVY <= n.factor <= LFT_HEAVY
  }

  /** The entries in in-order sequence. */
  ghost function Items(t: AvlTree): (s: seq<Entry>)
    ensures |s| == Size(t)
  {
    match t
    case Nil => []
    case Node(l, n, r) => Items(l) + [Entry(n.data, n.hidden)] + Items(r)
  }

  /** The structure of the tree with each node's key and balance factor. */
  ghost function Shape(t: AvlTree): Tree<(int, int)>
  {
    match t
    case Nil => Nil
    case Node(l, n, r) => Node(Shape(l), (n.data.key, n.factor), Shape(r))
  }

  /** The records inside a sequence of envelopes, in the same order. */
  ghost function Records(s: seq<AvlNode>): seq<Record>
  {
    if s == [] then [] else [s[0].data] + Records(s[1..])
  }

  /** The records of two envelope sequences put together are the two record sequences put together. */
  lemma {:induction false} RecordsConcat(a: seq<AvlNode>, b: seq<AvlNode>)
    ensures Records(a + b) == Records(a) + Records(b)
    decreases |a|
  {
    if a != [] {
      assert (a + b)[0] == a[0] && (a + b)[1..] == a[1..] + b;
      RecordsConcat(a[1..], b);
      calc {
        Records(a + b);
        [a[0].data] + Records(a[1..] + b);
        [a[0].data] + (Records(a[1..]) + Records(b));
        ([a[0].data] + Records(a[1..])) + Records(b);
      }
    } else {
      assert a + b == b;
    }
  }

  /** The records in the order a post-order walk visits their nodes: `PostOrder` with each envelope opened. */
  ghost function PostOrderData(t: AvlTree): seq<Record>
  {
    Records(PostOrder(t))
  }

  /** The post-order records of a node: those of its left subtree, then its right subtree, then its own. */
  lemma PostOrderDataNode(t: AvlTree)
    requires t.Node?
    ensures PostOrderData(t) == PostOrderData(t.left) + PostOrderData(t.right) + [t.data.data]
  {
    var a, b := PostOrder(t.left), PostOrder(t.right);
    assert PostOrder(t) == (a + b) + [t.data];
    RecordsConcat(a + b, [t.data]);
    RecordsConcat(a, b);
    assert Records([t.data]) == [t.data.data];
  }

  /** A fresh leaf envelope: balanced and not hidden. */
  function Leaf(data: Record): AvlTree
  {
    Node(Nil, AvlNode(data, false, BALANCED), Nil)
  }

  // ---------------------------------------------------------------------------
  // Reference operations on the in-order sequence of entries

  /** Keys strictly ascending along the sequence. */
  ghost predicate Ascending(s: seq<Entry>)
  {
    forall i, j :: 0 <= i < j < |s| ==> s[i].data.key < s[j].data.key
  }

  /** The first entry with key `k`, found by a linear scan. */
  ghost function FindEntry(s: seq<Entry>, k: int): (e: Option<Entry>)
    ensures e.Some? ==> e.value in s && e.value.data.key == k
  {
    if s == [] then None
    else if s[0].data.key == k then Some(s[0])
    else FindEntry(s[1..], k)
  }

  /**
   * Insertion into an ascending sequence: `e` takes the place of the entry
   * with its key, or goes where the order puts it.
   */
  ghost function Upsert(s: seq<Entry>, e: Entry): (u: seq<Entry>)
    ensures e in u
  {
    if s == [] then [e]
    else if e.data.key < s[0].data.key then [e] + s
    else if e.data.key == s[0].data.key then [e] + s[1..]
    else [s[0]] + Upsert(s[1..], e)
  }

  /** Every entry with key `k` marked hidden, the rest untouched. */
  ghost function MarkHidden(s: seq<Entry>, k: int): (h: seq<Entry>)
    ensures |h| == |s|
  {
    if s == [] then []
    else [if s[0].data.key == k then s[0].(hidden := true) else s[0]] + MarkHidden(s[1..], k)
  }

  // ---------------------------------------------------------------------------
  // Properties of the specification functions

  /** Shape fixes the keys, the heights and whether the factors are right. */
  lemma {:induction false} ShapeFixes(t: AvlTree, u: AvlTree)
    requires Shape(t) == Shape(u)
    ensures Keys(t) == Keys(u) && Height(t) == Height(u) && Size(t) == Size(u)
    ensures Ordered(t) <==> Ordered(u)
    ensures Balanced(t) <==> Balanced(u)
  {
    match t
    case Nil =>
    case Node(l, n, r) =>
      ShapeFixes(l, u.left);
      ShapeFixes(r, u.right);
  }

  /** Every key in the in-order sequence is a key of the tree. */
  lemma {:induction false} ItemsInKeys(t: AvlTree)
    ensures forall i :: 0 <= i < |Items(t)| ==> Items(t)[i].data.key in Keys(t)
  {
    match t
    case Nil =>
    case Node(l, n, r) =>
      ItemsInKeys(l);
      ItemsInKeys(r);
      var s, a, b := Items(t), Items(l), Items(r);
      assert s == a + [Entry(n.data, n.hidden)] + b;
      forall i | 0 <= i < |s|
        ensures s[i].data.key in Keys(t)
      {
        if i < |a| {
          assert s[i] == a[i];
        } else if i > |a| {
          assert s[i] == b[i - |a| - 1];
        }
      }
  }

  /** Every key of the tree occurs in its in-order sequence: the position where it does. */
  lemma {:induction false} KeyPosition(t: AvlTree, k: int) returns (i: int)
    requires k in Keys(t)
    ensures 0 <= i < |Items(t)| && Items(t)[i].data.key == k
  {
    var l, n, r := t.left, t.data, t.right;
    var a, b := Items(l), Items(r);
    assert Items(t) == a + [Entry(n.data, n.hidden)] + b;
    assert Keys(t) == Keys(l) + {n.data.key} + Keys(r);
    if k in Keys(l) {
      i := KeyPosition(l, k);
      assert Items(t)[i] == a[i];
    } else if k == n.data.key {
      i := |a|;
    } else {
      var j := KeyPosition(r, k);
      i := |a| + 1 + j;
      assert Items(t)[i] == b[j];
    }
  }

  /** In an ordered tree, the in-order sequence of the left subtree lies below the root's key and that of the right subtree above it. */
  lemma OrderedSides(t: AvlTree)
    requires t.Node? && Ordered(t)
    ensures forall i :: 0 <= i < |Items(t.left)| ==> Items(t.left)[i].data.key < t.data.data.key
    ensures forall i :: 0 <= i < |Items(t.right)| ==> t.data.data.key < Items(t.right)[i].data.key
  {
    ItemsInKeys(t.left);
    ItemsInKeys(t.right);
  }

  /** A key that is not in the tree appears nowhere in its in-order sequence. */
  lemma ItemsAbsent(t: AvlTree, k: int)
    requires k !in Keys(t)
    ensures forall i :: 0 <= i < |Items(t)| ==> Items(t)[i].data.key != k
  {
    ItemsInKeys(t);
  }

  /** In-order traversal of an ordered tree lists the keys in strictly ascending order. */
  lemma {:induction false} OrderedItemsAscend(t: AvlTree)
    requires Ordered(t)
    ensures Ascending(Items(t))
  {
    match t
    case Nil =>
    case Node(l, n, r) =>
      OrderedItemsAscend(l);
      OrderedItemsAscend(r);
      ItemsInKeys(l);
      ItemsInKeys(r);
      var s, a, b := Items(t), Items(l), Items(r);
      assert s == a + [Entry(n.data, n.hidden)] + b;
      forall i, j | 0 <= i < j < |s|
        ensures s[i].data.key < s[j].data.key
      {
        if j < |a| {
          assert s[i] == a[i] && s[j] == a[j];
        } else if i > |a| {
          assert s[i] == b[i - |a| - 1] && s[j] == b[j - |a| - 1];
        } else if i < |a| {
          assert s[i] == a[i];
          assert s[i].data.key in Keys(l);
          if j > |a| {
            assert s[j] == b[j - |a| - 1];
            assert s[j].data.key in Keys(r);
          }
        } else {
          assert s[j] == b[j - |a| - 1];
          assert s[j].data.key in Keys(r);
        }
      }
  }

  /** The scan finds nothing exactly when no entry has the key. */
  lemma {:induction false} FindEntryNone(s: seq<Entry>, k: int)
    ensures FindEntry(s, k).None? <==> forall i :: 0 <= i < |s| ==> s[i].data.key != k
    decreases |s|
  {
    if s != [] {
      FindEntryNone(s[1..], k);
      if s[0].data.key != k {
        forall i | 0 <= i < |s| && (forall j :: 0 <= j < |s[1..]| ==> s[1..][j].data.key != k)
          ensures s[i].data.key != k
        {
          if i > 0 {
            assert s[i] == s[1..][i - 1];
          }
        }
      }
    }
  }

  /** `Upsert` brings in `e` and otherwise only entries that were there. */
  lemma {:induction false} UpsertElements(s: seq<Entry>, e: Entry)
    ensures forall x :: x in Upsert(s, e) ==> x == e || x in s
    decreases |s|
  {
    if s != [] && e.data.key > s[0].data.key {
      UpsertElements(s[1..], e);
    }
  }

  /** A scan of a concatenation finds in the first part before the second. */
  lemma {:induction false} FindEntryConcat(a: seq<Entry>, b: seq<Entry>, k: int)
    ensures FindEntry(a + b, k) == if FindEntry(a, k).Some? then FindEntry(a, k) else FindEntry(b, k)
    decreases |a|
  {
    if a != [] {
      assert (a + b)[0] == a[0];
      assert (a + b)[1..] == a[1..] + b;
      FindEntryConcat(a[1..], b, k);
    } else {
      assert a + b == b;
    }
  }

  /**
   * In an ordered tree the scan of the in-order sequence agrees with a
   * descent that compares keys: the sequence-level lookup is what a search
   * down the tree finds.
   */
  lemma FindEntryDescends(t: AvlTree, k: int)
    requires Ordered(t) && t.Node?
    ensures FindEntry(Items(t), k) ==
              if k < t.data.data.key then FindEntry(Items(t.left), k)
              else if k > t.data.data.key then FindEntry(Items(t.right), k)
              else Some(Entry(t.data.data, t.data.hidden))
  {
    var Node(l, n, r) := t;
    var e := Entry(n.data, n.hidden);
    ItemsInKeys(l);
    ItemsInKeys(r);
    FindEntryNone(Items(l), k);
    FindEntryNone(Items(r), k);
    FindEntryConcat(Items(l) + [e], Items(r), k);
    FindEntryConcat(Items(l), [e], k);
    if k >= n.data.key {
      assert FindEntry(Items(l), k).None?;
    }
    if k <= n.data.key {
      assert FindEntry(Items(r), k).None?;
    }
  }

  /** The tail of an ascending sequence is ascending, and every key in it exceeds the head's. */
  lemma AscendingTail(s: seq<Entry>)
    requires Ascending(s) && s != []
    ensures Ascending(s[1..])
    ensures forall x :: x in s[1..] ==> s[0].data.key < x.data.key
  {
    forall x | x in s[1..]
      ensures s[0].data.key < x.data.key
    {
      var j :| 0 <= j < |s[1..]| && s[1..][j] == x;
      assert s[j + 1] == x;
    }
  }

  /** An entry below every key of an ascending sequence can go in front of it. */
  lemma AscendingCons(x: Entry, u: seq<Entry>)
    requires Ascending(u)
    requires forall y :: y in u ==> x.data.key < y.data.key
    ensures Ascending([x] + u)
  {
    var s := [x] + u;
    forall i, j | 0 <= i < j < |s|
      ensures s[i].data.key < s[j].data.key
    {
      assert s[j] == u[j - 1];
      if i > 0 {
        assert s[i] == u[i - 1];
      }
    }
  }

  /** `Upsert` keeps a sequence ascending. */
  lemma {:induction false} UpsertAscending(s: seq<Entry>, e: Entry)
    requires Ascending(s)
    ensures Ascending(Upsert(s, e))
    decreases |s|
  {
    if s == [] {
    } else if e.data.key < s[0].data.key {
      forall y | y in s
        ensures e.data.key < y.data.key
      {
        var j :| 0 <= j < |s| && s[j] == y;
      }
      AscendingCons(e, s);
    } else if e.data.key == s[0].data.key {
      AscendingTail(s);
      AscendingCons(e, s[1..]);
    } else {
      AscendingTail(s);
      UpsertAscending(s[1..], e);
      UpsertElements(s[1..], e);
      AscendingCons(s[0], Upsert(s[1..], e));
    }
  }

  /** `Upsert` leaves exactly `e` under its key and every other key's entry as it was. */
  lemma {:induction false} UpsertFinds(s: seq<Entry>, e: Entry, k: int)
    ensures FindEntry(Upsert(s, e), k) == if k == e.data.key then Some(e) else FindEntry(s, k)
    decreases |s|
  {
    if s == [] {
      assert [e][1..] == [];
    } else if e.data.key < s[0].data.key {
      assert ([e] + s)[1..] == s;
    } else if e.data.key == s[0].data.key {
      assert ([e] + s[1..])[1..] == s[1..];
    } else {
      UpsertFinds(s[1..], e, k);
      assert ([s[0]] + Upsert(s[1..], e))[1..] == Upsert(s[1..], e);
    }
  }

  /** In an ascending sequence, `Upsert` grows the sequence by one exactly when no entry had `e`'s key. */
  lemma {:induction false} UpsertLength(s: seq<Entry>, e: Entry)
    requires Ascending(s)
    ensures |Upsert(s, e)| == |s| + if FindEntry(s, e.data.key).None? then 1 else 0
    decreases |s|
  {
    if s != [] {
      AscendingTail(s);
      if e.data.key > s[0].data.key {
        UpsertLength(s[1..], e);
      } else if e.data.key < s[0].data.key {
        FindEntryNone(s[1..], e.data.key);
      }
    }
  }

  /** `Upsert` on a prefix of keys below `e`'s leaves that prefix alone. */
  lemma {:induction false} UpsertSkips(a: seq<Entry>, c: seq<Entry>, e: Entry)
    requires forall i :: 0 <= i < |a| ==> a[i].data.key < e.data.key
    ensures Upsert(a + c, e) == a + Upsert(c, e)
    decreases |a|
  {
    if a != [] {
      assert (a + c)[0] == a[0];
      assert (a + c)[1..] == a[1..] + c;
      UpsertSkips(a[1..], c, e);
      assert a == [a[0]] + a[1..];
    } else {
      assert a + c == c;
    }
  }

  /** `Upsert` below an entry whose key exceeds `e`'s stops before that entry. */
  lemma {:induction false} UpsertStops(a: seq<Entry>, x: Entry, b: seq<Entry>, e: Entry)
    requires e.data.key < x.data.key
    ensures Upsert(a + [x] + b, e) == Upsert(a, e) + [x] + b
    decreases |a|
  {
    if a != [] {
      assert (a + [x] + b)[1..] == a[1..] + [x] + b;
      UpsertStops(a[1..], x, b, e);
    }
  }

  /** `MarkHidden` works piecewise on a concatenation. */
  lemma {:induction false} MarkHiddenConcat(a: seq<Entry>, b: seq<Entry>, k: int)
    ensures MarkHidden(a + b, k) == MarkHidden(a, k) + MarkHidden(b, k)
    decreases |a|
  {
    if a != [] {
      assert (a + b)[0] == a[0];
      assert (a + b)[1..] == a[1..] + b;
      MarkHiddenConcat(a[1..], b, k);
    } else {
      assert a + b == b;
    }
  }

  /** `MarkHidden` on the in-order sequence of a node works on its two subtrees and on the node's own entry. */
  lemma MarkHiddenNode(t: AvlTree, k: int)
    requires t.Node?
    ensures MarkHidden(Items(t), k) ==
              MarkHidden(Items(t.left), k) +
              [Entry(t.data.data, t.data.hidden || t.data.data.key == k)] +
              MarkHidden(Items(t.right), k)
  {
    var e := Entry(t.data.data, t.data.hidden);
    MarkHiddenConcat(Items(t.left) + [e], Items(t.right), k);
    MarkHiddenConcat(Items(t.left), [e], k);
    assert [e][1..] == [];
  }

  /** `MarkHidden` changes nothing where the key does not occur. */
  lemma {:induction false} MarkHiddenAbsent(s: seq<Entry>, k: int)
    requires forall i :: 0 <= i < |s| ==> s[i].data.key != k
    ensures MarkHidden(s, k) == s
    decreases |s|
  {
    if s != [] {
      MarkHiddenAbsent(s[1..], k);
    }
  }

  /** After `MarkHidden`, the entry of `k` is hidden with its record kept, and every other key's entry is as it was. */
  lemma {:induction false} MarkHiddenFinds(s: seq<Entry>, k: int, j: int)
    ensures FindEntry(MarkHidden(s, k), j) ==
              if j == k && FindEntry(s, k).Some? then Some(FindEntry(s, k).value.(hidden := true))
              else FindEntry(s, j)
    decreases |s|
  {
    if s != [] {
      MarkHiddenFinds(s[1..], k, j);
    }
  }

  // ---------------------------------------------------------------------------
  // Rotations

  /** Regrouping of an in-order sequence under a single rotation. */
  lemma Regroup3<E>(a: seq<E>, x: E, b: seq<E>, y: E, c: seq<E>)
    ensures a + [x] + (b + [y] + c) == (a + [x] + b) + [y] + c
  {
  }

  /** Regrouping of an in-order sequence under a double rotation that lifts a left child's right child. */
  lemma Regroup<E>(a: seq<E>, x: E, b: seq<E>, y: E, c: seq<E>, z: E, d: seq<E>)
    ensures a + [x] + (b + [y] + c) + [z] + d == (a + [x] + b) + [y] + (c + [z] + d)
  {
    assert a + [x] + (b + [y] + c) + [z] + d == a + [x] + b + [y] + c + [z] + d;
  }

  /** Regrouping of an in-order sequence under a double rotation that lifts a right child's left child. */
  lemma RegroupRight<E>(a: seq<E>, x: E, b: seq<E>, y: E, c: seq<E>, z: E, d: seq<E>)
    ensures a + [x] + ((b + [y] + c) + [z] + d) == (a + [x] + b) + [y] + (c + [z] + d)
  {
    assert a + [x] + ((b + [y] + c) + [z] + d) == a + [x] + b + [y] + c + [z] + d;
  }

  /** The new factors of the old root and of its left child after an LR rotation, keyed on the grandchild's factor. */
  function LrFactors(grandchild: int, node: int, left: int): (int, int)
  {
    if grandchild == LFT_HEAVY then (RGT_HEAVY, BALANCED)
    else if grandchild == BALANCED then (BALANCED, BALANCED)
    else if grandchild == RGT_HEAVY then (BALANCED, LFT_HEAVY)
    else (node, left)
  }

  /** The new factors of the old root and of its right child after an RL rotation, keyed on the grandchild's factor. */
  function RlFactors(grandchild: int, node: int, right: int): (int, int)
  {
    if grandchild == LFT_HEAVY then (BALANCED, RGT_HEAVY)
    else if grandchild == BALANCED then (BALANCED, BALANCED)
    else if grandchild == RGT_HEAVY then (LFT_HEAVY, BALANCED)
    else (node, right)
  }

  /**
   * `_rotate_left`: repairs a subtree whose left side is too high, by an LL
   * rotation when the left child is left-heavy and by an LR rotation
   * otherwise.
   */
  function RotateLeft(t: AvlTree): (r: AvlTree)
    requires t.Node? && t.left.Node?
    requires t.left.data.factor != LFT_HEAVY ==> t.left.right.Node?
    ensures r.Node?
  {
    var Node(left, n, c) := t;
    if left.data.factor == LFT_HEAVY then
      // LL rotation: the left child becomes the subtree root
      Node(left.left, left.data.(factor := BALANCED), Node(left.right, n.(factor := BALANCED), c))
    else
      // LR rotation: the left child's right child becomes the subtree root
      var g := left.right;
      var factors := LrFactors(g.data.factor, n.factor, left.data.factor);
      Node(Node(left.left, left.data.(factor := factors.1), g.left),
           g.data.(factor := BALANCED),
           Node(g.right, n.(factor := factors.0), c))
  }

  /** `_rotate_right`: the mirror image of `RotateLeft` (RR and RL rotations). */
  function RotateRight(t: AvlTree): (r: AvlTree)
    requires t.Node? && t.right.Node?
    requires t.right.data.factor != RGT_HEAVY ==> t.right.left.Node?
    ensures r.Node?
  {
    var Node(a, n, right) := t;
    if right.data.factor == RGT_HEAVY then
      // RR rotation: the right child becomes the subtree root
      Node(Node(a, n.(factor := BALANCED), right.left), right.data.(factor := BALANCED), right.right)
    else
      // RL rotation: the right child's left child becomes the subtree root
      var g := right.left;
      var factors := RlFactors(g.data.factor, n.factor, right.data.factor);
      Node(Node(a, n.(factor := factors.0), g.left),
           g.data.(factor := BALANCED),
           Node(g.right, right.data.(factor := factors.1), right.right))
  }

  /** The entry a node contributes to the in-order sequence. */
  function EntryOf(n: AvlNode): Entry
  {
    Entry(n.data, n.hidden)
  }

  /** A single rotation between two nodes keeps the in-order sequence. */
  lemma SingleRotationItems(a: AvlTree, x: AvlNode, b: AvlTree, y: AvlNode, c: AvlTree, x2: AvlNode, y2: AvlNode)
    requires EntryOf(x2) == EntryOf(x) && EntryOf(y2) == EntryOf(y)
    ensures Items(Node(a, x, Node(b, y, c))) == Items(Node(Node(a, x2, b), y2, c))
  {
    assert Items(Node(b, y, c)) == Items(b) + [EntryOf(y)] + Items(c);
    assert Items(Node(a, x2, b)) == Items(a) + [EntryOf(x)] + Items(b);
    Regroup3(Items(a), EntryOf(x), Items(b), EntryOf(y), Items(c));
  }

  /** A double rotation that lifts the right child's left child keeps the in-order sequence. */
  lemma DoubleRotationItemsRight(a: AvlTree, x: AvlNode, b: AvlTree, y: AvlNode, c: AvlTree, z: AvlNode, d: AvlTree,
                                 x2: AvlNode, y2: AvlNode, z2: AvlNode)
    requires EntryOf(x2) == EntryOf(x) && EntryOf(y2) == EntryOf(y) && EntryOf(z2) == EntryOf(z)
    ensures Items(Node(a, x, Node(Node(b, y, c), z, d))) == Items(Node(Node(a, x2, b), y2, Node(c, z2, d)))
  {
    assert Items(Node(b, y, c)) == Items(b) + [EntryOf(y)] + Items(c);
    assert Items(Node(Node(b, y, c), z, d)) == Items(Node(b, y, c)) + [EntryOf(z)] + Items(d);
    assert Items(Node(a, x2, b)) == Items(a) + [EntryOf(x)] + Items(b);
    assert Items(Node(c, z2, d)) == Items(c) + [EntryOf(z)] + Items(d);
    RegroupRight(Items(a), EntryOf(x), Items(b), EntryOf(y), Items(c), EntryOf(z), Items(d));
  }

  /** A double rotation that lifts the left child's right child keeps the in-order sequence. */
  lemma DoubleRotationItemsLeft(a: AvlTree, x: AvlNode, b: AvlTree, y: AvlNode, c: AvlTree, z: AvlNode, d: AvlTree,
                                x2: AvlNode, y2: AvlNode, z2: AvlNode)
    requires EntryOf(x2) == EntryOf(x) && EntryOf(y2) == EntryOf(y) && EntryOf(z2) == EntryOf(z)
    ensures Items(Node(Node(a, x, Node(b, y, c)), z, d)) == Items(Node(Node(a, x2, b), y2, Node(c, z2, d)))
  {
    assert Items(Node(b, y, c)) == Items(b) + [EntryOf(y)] + Items(c);
    assert Items(Node(a, x, Node(b, y, c))) == Items(a) + [EntryOf(x)] + Items(Node(b, y, c));
    assert Items(Node(a, x2, b)) == Items(a) + [EntryOf(x)] + Items(b);
    assert Items(Node(c, z2, d)) == Items(c) + [EntryOf(z)] + Items(d);
    Regroup(Items(a), EntryOf(x), Items(b), EntryOf(y), Items(c), EntryOf(z), Items(d));
  }

  /** `RotateLeft` keeps the in-order sequence of entries. */
  lemma RotateLeftKeepsItems(t: AvlTree)
    requires t.Node? && t.left.Node?
    requires t.left.data.factor != LFT_HEAVY ==> t.left.right.Node?
    ensures Items(RotateLeft(t)) == Items(t)
  {
    var Node(left, n, c) := t;
    if left.data.factor == LFT_HEAVY {
      SingleRotationItems(left.left, left.data.(factor := BALANCED), left.right, n.(factor := BALANCED), c,
                          left.data, n);
    } else {
      var g := left.right;
      var factors := LrFactors(g.data.factor, n.factor, left.data.factor);
      DoubleRotationItemsLeft(left.left, left.data, g.left, g.data, g.right, n, c,
                              left.data.(factor := factors.1), g.data.(factor := BALANCED), n.(factor := factors.0));
    }
  }

  /** `RotateRight` keeps the in-order sequence of entries. */
  lemma RotateRightKeepsItems(t: AvlTree)
    requires t.Node? && t.right.Node?
    requires t.right.data.factor != RGT_HEAVY ==> t.right.left.Node?
    ensures Items(RotateRight(t)) == Items(t)
  {
    var Node(a, n, right) := t;
    if right.data.factor == RGT_HEAVY {
      SingleRotationItems(a, n, right.left, right.data, right.right,
                          n.(factor := BALANCED), right.data.(factor := BALANCED));
    } else {
      var g := right.left;
      var factors := RlFactors(g.data.factor, n.factor, right.data.factor);
      DoubleRotationItemsRight(a, n, g.left, g.data, g.right, right.data, right.right,
                               n.(factor := factors.0), g.data.(factor := BALANCED), right.data.(factor := factors.1));
    }
  }

  /** `RotateLeft` keeps the keys and the search order. */
  lemma RotateLeftKeepsOrder(t: AvlTree)
    requires t.Node? && t.left.Node?
    requires t.left.data.factor != LFT_HEAVY ==> t.left.right.Node?
    requires Ordered(t)
    ensures Keys(RotateLeft(t)) == Keys(t) && Ordered(RotateLeft(t))
  {
    var Node(left, n, c) := t;
    assert Keys(left) == Keys(left.left) + {left.data.data.key} + Keys(left.right);
    if left.data.factor == LFT_HEAVY {
      assert Ordered(Node(left.right, n, c));
    } else {
      var g := left.right;
      assert Keys(g) == Keys(g.left) + {g.data.data.key} + Keys(g.right);
      assert Ordered(left) && Ordered(g);
      assert forall k :: k in Keys(g.left) ==> left.data.data.key < k < g.data.data.key;
      assert forall k :: k in Keys(g.right) ==> g.data.data.key < k < n.data.key;
      assert Ordered(Node(left.left, left.data, g.left));
      assert Ordered(Node(g.right, n, c));
    }
  }

  /** `RotateRight` keeps the keys and the search order. */
  lemma RotateRightKeepsOrder(t: AvlTree)
    requires t.Node? && t.right.Node?
    requires t.right.data.factor != RGT_HEAVY ==> t.right.left.Node?
    requires Ordered(t)
    ensures Keys(RotateRight(t)) == Keys(t) && Ordered(RotateRight(t))
  {
    var Node(a, n, right) := t;
    assert Keys(right) == Keys(right.left) + {right.data.data.key} + Keys(right.right);
    if right.data.factor == RGT_HEAVY {
      assert Ordered(Node(a, n, right.left));
    } else {
      var g := right.left;
      assert Keys(g) == Keys(g.left) + {g.data.data.key} + Keys(g.right);
      assert Ordered(right) && Ordered(g);
      assert forall k :: k in Keys(g.left) ==> n.data.key < k < g.data.data.key;
      assert forall k :: k in Keys(g.right) ==> g.data.data.key < k < right.data.data.key;
      assert Ordered(Node(a, n, g.left));
      assert Ordered(Node(g.right, right.data, right.right));
    }
  }

  /**
   * When the left subtree has grown two higher than the right one, with a
   * factor that is not BALANCED, `RotateLeft` leaves every factor right and
   * the subtree as high as it was before the left subtree grew.
   */
  lemma RotateLeftRebalances(t: AvlTree)
    requires t.Node? && t.left.Node?
    requires Balanced(t.left) && Balanced(t.right)
    requires Height(t.left) == Height(t.right) + 2
    requires t.left.data.factor != BALANCED
    ensures t.left.data.factor != LFT_HEAVY ==> t.left.right.Node?
    ensures Balanced(RotateLeft(t)) && Height(RotateLeft(t)) == Height(t.right) + 2
  {
    var Node(left, n, c) := t;
    if left.data.factor != LFT_HEAVY {
      var g := left.right;
      assert Height(g) == Height(c) + 1;
    }
  }

  /** The mirror image of `RotateLeftRebalances`. */
  lemma RotateRightRebalances(t: AvlTree)
    requires t.Node? && t.right.Node?
    requires Balanced(t.left) && Balanced(t.right)
    requires Height(t.right) == Height(t.left) + 2
    requires t.right.data.factor != BALANCED
    ensures t.right.data.factor != RGT_HEAVY ==> t.right.left.Node?
    ensures Balanced(RotateRight(t)) && Height(RotateRight(t)) == Height(t.left) + 2
  {
    var Node(a, n, right) := t;
    if right.data.factor != RGT_HEAVY {
      var g := right.left;
      assert Height(g) == Height(a) + 1;
    }
  }

  /**
   * Once `left` is the left subtree after `Upsert` of an entry whose key is
   * below the node's, the node over `left` (with any factor) is ordered and
   * lists the whole subtree's entries after the same `Upsert`.
   */
  lemma GrowLeft(t: AvlTree, left: AvlTree, e: Entry, n: AvlNode)
    requires t.Node? && Ordered(t) && e.data.key < t.data.data.key
    requires Ordered(left) && Keys(left) == Keys(t.left) + {e.data.key}
    requires Items(left) == Upsert(Items(t.left), e)
    requires n.data == t.data.data && n.hidden == t.data.hidden
    ensures Ordered(Node(left, n, t.right))
    ensures Keys(Node(left, n, t.right)) == Keys(t) + {e.data.key}
    ensures Items(Node(left, n, t.right)) == Upsert(Items(t), e)
  {
    UpsertStops(Items(t.left), EntryOf(n), Items(t.right), e);
  }

  /** The mirror image of `GrowLeft`, for an entry whose key is above the node's. */
  lemma GrowRight(t: AvlTree, right: AvlTree, e: Entry, n: AvlNode)
    requires t.Node? && Ordered(t) && e.data.key > t.data.data.key
    requires Ordered(right) && Keys(right) == Keys(t.right) + {e.data.key}
    requires Items(right) == Upsert(Items(t.right), e)
    requires n.data == t.data.data && n.hidden == t.data.hidden
    ensures Ordered(Node(t.left, n, right))
    ensures Keys(Node(t.left, n, right)) == Keys(t) + {e.data.key}
    ensures Items(Node(t.left, n, right)) == Upsert(Items(t), e)
  {
    OrderedSides(t);
    var a := Items(t.left) + [EntryOf(n)];
    forall i | 0 <= i < |a|
      ensures a[i].data.key < e.data.key
    {
      if i < |Items(t.left)| {
        assert a[i] == Items(t.left)[i];
      }
    }
    UpsertSkips(a, Items(t.right), e);
  }

  /** `Upsert` of an entry whose key is already there, after smaller keys only, replaces that entry. */
  lemma UpsertReplaces(a: seq<Entry>, x: Entry, b: seq<Entry>, e: Entry)
    requires forall i :: 0 <= i < |a| ==> a[i].data.key < e.data.key
    requires x.data.key == e.data.key
    ensures Upsert(a + [x] + b, e) == a + [e] + b
  {
    UpsertSkips(a, [x] + b, e);
    assert ([x] + b)[1..] == b;
    assert a + [x] + b == a + ([x] + b);
  }

  /** A fresh leaf is what inserting into an empty subtree yields. */
  lemma LeafInserted(data: Record)
    ensures Ordered(Leaf(data)) && Balanced(Leaf(data)) && Height(Leaf(data)) == 1
    ensures Keys(Leaf(data)) == {data.key}
    ensures Items(Leaf(data)) == Upsert([], Entry(data, false))
  {
    assert Items(Leaf(data)) == [Entry(data, false)];
  }

  // ---------------------------------------------------------------------------
  // The recursive helpers

  /**
   * The switch `_insert` runs after inserting below the left child of `n`:
   * `left` is the new left subtree, `before` the one it replaced and
   * `balanced` the incoming `*balanced` flag (false when `left` grew by one
   * level). Returns the repaired subtree and the outgoing flag; the ghost
   * `rotated` tells whether a rotation was made.
   */
  method BalanceLeft(left: AvlTree, n: AvlNode, right: AvlTree, balanced: bool, ghost before: AvlTree)
    returns (r: AvlTree, balanced': bool, ghost rotated: bool)
    requires Ordered(Node(left, n, right)) && Balanced(left) && Balanced(right)
    requires n.factor == Height(before) - Height(right) && RGT_HEAVY <= n.factor <= LFT_HEAVY
    requires Height(left) == Height(before) + (if balanced then 0 else 1)
    requires !balanced ==> Height(left) == 1 || (left.Node? && left.data.factor != BALANCED)
    ensures Items(r) == Items(Node(left, n, right)) && Keys(r) == Keys(Node(left, n, right))
    ensures Ordered(r)
    ensures Balanced(r)
    ensures Height(r) == Height(Node(before, n, right)) + (if balanced' then 0 else 1)
    ensures !balanced' ==> r.Node? && r.data.factor != BALANCED
    ensures balanced ==> r == Node(left, n, right) && balanced' && !rotated
    ensures rotated ==> balanced'
  {
    r, balanced', rotated := Node(left, n, right), balanced, false;
    if !balanced {
      if n.factor == LFT_HEAVY {
        RotateLeftRebalances(r);
        RotateLeftKeepsItems(r);
        RotateLeftKeepsOrder(r);
        r := RotateLeft(r);
        balanced', rotated := true, true;
      } else if n.factor == BALANCED {
        r := Node(left, n.(factor := LFT_HEAVY), right);
      } else {
        r := Node(left, n.(factor := BALANCED), right);
        balanced' := true;
      }
    }
  }

  /** The switch `_insert` runs after inserting below the right child of `n`: the mirror image of `BalanceLeft`. */
  method BalanceRight(left: AvlTree, n: AvlNode, right: AvlTree, balanced: bool, ghost before: AvlTree)
    returns (r: AvlTree, balanced': bool, ghost rotated: bool)
    requires Ordered(Node(left, n, right)) && Balanced(left) && Balanced(right)
    requires n.factor == Height(left) - Height(before) && RGT_HEAVY <= n.factor <= LFT_HEAVY
    requires Height(right) == Height(before) + (if balanced then 0 else 1)
    requires !balanced ==> Height(right) == 1 || (right.Node? && right.data.factor != BALANCED)
    ensures Items(r) == Items(Node(left, n, right)) && Keys(r) == Keys(Node(left, n, right))
    ensures Ordered(r)
    ensures Balanced(r)
    ensures Height(r) == Height(Node(left, n, before)) + (if balanced' then 0 else 1)
    ensures !balanced' ==> r.Node? && r.data.factor != BALANCED
    ensures balanced ==> r == Node(left, n, right) && balanced' && !rotated
    ensures rotated ==> balanced'
  {
    r, balanced', rotated := Node(left, n, right), balanced, false;
    if !balanced {
      if n.factor == LFT_HEAVY {
        r := Node(left, n.(factor := BALANCED), right);
        balanced' := true;
      } else if n.factor == BALANCED {
        r := Node(left, n.(factor := RGT_HEAVY), right);
      } else {
        RotateRightRebalances(r);
        RotateRightKeepsItems(r);
        RotateRightKeepsOrder(r);
        r := RotateRight(r);
        balanced', rotated := true, true;
      }
    }
  }

  /**
   * What `_insert` promises when it returns from inserting `data` below `t`
   * (an ordered AVL subtree), leaving `r` in its place.
   *   - 1: a visible node with `data`'s key is there; -1: no node has the key
   *     and no storage can be had; both leave the subtree alone.
   *   - 0: the entries become `Upsert` of the new visible entry, order and
   *     balance hold, and either a hidden node was revived in place (same
   *     shape, its old record handed back in `replaced`) or one
   *     node was added, the height growing by one exactly when `balanced` is
   *     false, and then with the new root leaning to one side unless it is a
   *     leaf.
   * The rotation count is bounded separately in the methods' contracts.
   */
  ghost predicate Inserted(t: AvlTree, data: Record, allocOk: bool,
                           r: AvlTree, ret: int, balanced: bool, replaced: Option<Record>)
  {
    var found := FindEntry(Items(t), data.key);
    Ordered(r) && Balanced(r) &&
    (ret == 0 || ret == 1 || ret == -1) &&
    (ret == 1 <==> found.Some? && !found.value.hidden) &&
    (ret == -1 <==> found.None? && !allocOk) &&
    (ret != 0 ==> r == t && replaced == None) &&
    (ret == 0 ==> Items(r) == Upsert(Items(t), Entry(data, false)) && Keys(r) == Keys(t) + {data.key}) &&
    (ret == 0 && found.Some? ==>
       Shape(r) == Shape(t) && balanced && replaced == Some(found.value.data)) &&
    (ret == 0 && found.None? ==>
       replaced == None && Height(r) == Height(t) + (if balanced then 0 else 1) &&
       (balanced || Height(r) == 1 || (r.Node? && r.data.factor != BALANCED)))
  }

  /**
   * `_insert`: inserts `data` below `t`. The returned `balanced` is the C
   * code's `*balanced` flag: false while the subtree has grown by one level
   * and the ancestors still have to adjust. `replaced` is the hidden record
   * a revived node gives up (destroy is called on it when set); `allocOk`
   * is whether storage for a new node can be had. The ghost `rotations`
   * counts the rotations performed. The descent into either child is in
   * `InsertLeft` and `InsertRight`.
   */
  method InsertNode(t: AvlTree, data: Record, allocOk: bool)
    returns (r: AvlTree, ret: int, balanced: bool, replaced: Option<Record>, ghost rotations: nat)
    requires Ordered(t) && Balanced(t)
    ensures Inserted(t, data, allocOk, r, ret, balanced, replaced)
    ensures rotations <= 1 && (rotations == 1 ==> balanced)
    ensures ret == 0 && FindEntry(Items(t), data.key).Some? ==> rotations == 0
    decreases t, 1
  {
    if IsEob(t) {
      // insertion into an empty tree; the caller started with the flag clear
      if !allocOk {
        return t, -1, false, None, 0;
      }
      LeafInserted(data);
      return Leaf(data), 0, false, None, 0;
    }
    var Node(tl, n, tr) := t;
    FindEntryDescends(t, data.key);
    var cmp := Compare(data.key, n.data.key);
    if cmp < 0 {
      r, ret, balanced, replaced, rotations := InsertLeft(t, data, allocOk);
    } else if cmp > 0 {
      r, ret, balanced, replaced, rotations := InsertRight(t, data, allocOk);
    } else {
      // a copy of the data is already there
      if !n.hidden {
        return t, 1, true, None, 0;
      }
      // revive: destroy the old data, store the new data and clear hidden;
      // the structure is unchanged
      OrderedSides(t);
      UpsertReplaces(Items(tl), EntryOf(n), Items(tr), Entry(data, false));
      r := Node(tl, n.(data := data, hidden := false), tr);
      return r, 0, true, Some(n.data), 0;
    }
  }

  /** The "move to the left" branch of `_insert`, for a key below the root's. */
  method InsertLeft(t: AvlTree, data: Record, allocOk: bool)
    returns (r: AvlTree, ret: int, balanced: bool, replaced: Option<Record>, ghost rotations: nat)
    requires Ordered(t) && Balanced(t) && t.Node? && data.key < t.data.data.key
    ensures Inserted(t, data, allocOk, r, ret, balanced, replaced)
    ensures rotations <= 1 && (rotations == 1 ==> balanced)
    ensures ret == 0 && FindEntry(Items(t), data.key).Some? ==> rotations == 0
    decreases t, 0
  {
    var Node(tl, n, tr) := t;
    FindEntryDescends(t, data.key);
    assert FindEntry(Items(t), data.key) == FindEntry(Items(tl), data.key);
    replaced, rotations := None, 0;
    var left: AvlTree;
    if IsEob(tl) {
      if !allocOk {
        return t, -1, false, None, 0;
      }
      LeafInserted(data);
      left, ret, balanced := Leaf(data), 0, false;
    } else {
      left, ret, balanced, replaced, rotations := InsertNode(tl, data, allocOk);
      if ret != 0 {
        return t, ret, balanced, replaced, rotations;
      }
      if replaced.Some? {
        ShapeFixes(left, tl);
      }
    }
    GrowLeft(t, left, Entry(data, false), n);
    // keep the tree balanced
    ghost var rotated: bool;
    r, balanced, rotated := BalanceLeft(left, n, tr, balanced, tl);
    if rotated {
      rotations := rotations + 1;
    }
  }

  /** The "move to the right" branch of `_insert`, for a key above the root's. */
  method InsertRight(t: AvlTree, data: Record, allocOk: bool)
    returns (r: AvlTree, ret: int, balanced: bool, replaced: Option<Record>, ghost rotations: nat)
    requires Ordered(t) && Balanced(t) && t.Node? && data.key > t.data.data.key
    ensures Inserted(t, data, allocOk, r, ret, balanced, replaced)
    ensures rotations <= 1 && (rotations == 1 ==> balanced)
    ensures ret == 0 && FindEntry(Items(t), data.key).Some? ==> rotations == 0
    decreases t, 0
  {
    var Node(tl, n, tr) := t;
    FindEntryDescends(t, data.key);
    assert FindEntry(Items(t), data.key) == FindEntry(Items(tr), data.key);
    replaced, rotations := None, 0;
    var right: AvlTree;
    if IsEob(tr) {
      if !allocOk {
        return t, -1, false, None, 0;
      }
      LeafInserted(data);
      right, ret, balanced := Leaf(data), 0, false;
    } else {
      right, ret, balanced, replaced, rotations := InsertNode(tr, data, allocOk);
      if ret != 0 {
        return t, ret, balanced, replaced, rotations;
      }
      if replaced.Some? {
        ShapeFixes(right, tr);
      }
    }
    GrowRight(t, right, Entry(data, false), n);
    // keep the tree balanced
    ghost var rotated: bool;
    r, balanced, rotated := BalanceRight(tl, n, right, balanced, tr);
    if rotated {
      rotations := rotations + 1;
    }
  }

  /** `_hide`: marks the node whose key equals `data`'s as hidden. */
  method HideNode(t: AvlTree, data: Record) returns (r: AvlTree, ret: int)
    requires Ordered(t)
    ensures ret == 0 || ret == -1
    ensures ret == 0 <==> data.key in Keys(t)
    ensures ret == -1 ==> r == t
    ensures Items(r) == MarkHidden(Items(t), data.key)
    ensures Shape(r) == Shape(t) && Ordered(r)
    decreases t
  {
    if IsEob(t) {
      // not found
      return t, -1;
    }
    var Node(tl, n, tr) := t;
    MarkHiddenNode(t, data.key);
    var cmp := Compare(data.key, n.data.key);
    if cmp < 0 {
      var left;
      left, ret := HideNode(tl, data);
      ShapeFixes(left, tl);
      ItemsAbsent(tr, data.key);
      MarkHiddenAbsent(Items(tr), data.key);
      r := t.(left := left);
    } else if cmp > 0 {
      var right;
      right, ret := HideNode(tr, data);
      ShapeFixes(right, tr);
      ItemsAbsent(tl, data.key);
      MarkHiddenAbsent(Items(tl), data.key);
      r := t.(right := right);
    } else {
      ItemsAbsent(tl, data.key);
      ItemsAbsent(tr, data.key);
      MarkHiddenAbsent(Items(tl), data.key);
      MarkHiddenAbsent(Items(tr), data.key);
      r := t.(data := n.(hidden := true));
      ret := 0;
    }
  }

  /**
   * `_lookup`: the first component is the return code and the second the
   * value `*data` holds afterwards: the stored record on a match with a node
   * that is not hidden, else the probe unchanged.
   */
  function LookupNode(t: AvlTree, data: Record): (r: (int, Record))
    requires Ordered(t)
    ensures r.0 == 0 || r.0 == -1
    ensures r.0 == 0 <==> FindEntry(Items(t), data.key).Some? && !FindEntry(Items(t), data.key).value.hidden
    ensures r.0 == 0 ==> r.1 == FindEntry(Items(t), data.key).value.data
    ensures r.0 == -1 ==> r.1 == data
    decreases t
  {
    if IsEob(t) then (-1, data)
    else
      FindEntryDescends(t, data.key);
      var cmp := Compare(data.key, t.data.data.key);
      if cmp < 0 then LookupNode(t.left, data)
      else if cmp > 0 then LookupNode(t.right, data)
      else if !t.data.hidden then (0, t.data.data)
      else (-1, data)
  }

  // ---------------------------------------------------------------------------
  // The tree object

  /**
   * `BisTree`: the binary tree fields (node count, destroy callback, root)
   * over `AvlNode` payloads; `compare` is the fixed comparison of module
   * Comparator.
   */
  /**
   * The destroy log of a node's removal: its left subtree's records, then
   * its right subtree's, then its own, which is its post-order.
   */
  lemma DestroyLog(x: AvlTree, hasDestroy: bool, d0: seq<Record>, d1: seq<Record>, d2: seq<Record>, d3: seq<Record>)
    requires x.Node?
    requires d1 == d0 + (if hasDestroy then PostOrderData(x.left) else [])
    requires d2 == d1 + (if hasDestroy then PostOrderData(x.right) else [])
    requires d3 == d2 + (if hasDestroy then [x.data.data] else [])
    ensures d3 == d0 + (if hasDestroy then PostOrderData(x) else [])
  {
    PostOrderDataNode(x);
  }

  class BisTree {
    var size: int
    var hasDestroy: bool
    var root: AvlTree
    /** The records `destroy` has been called on, in call order. */
    ghost var destroyed: seq<Record>

    /** `size` counts the nodes, hidden ones included. */
    ghost predicate Counted()
      reads this
    {
      size == Size(root)
    }

    /** The invariant every public operation keeps: node count, search order, AVL balance. */
    ghost predicate Valid()
      reads this
    {
      Counted() && Ordered(root) && Balanced(root)
    }

    /** A freshly allocated tree, set up as `bistree_init` does. */
    constructor (destroy: bool)
      ensures Valid()
      ensures root == Nil && size == 0 && hasDestroy == destroy && destroyed == []
    {
      size := 0;
      hasDestroy := destroy;
      root := Nil;
      destroyed := [];
    }

    /** `bistree_init`: an empty tree with the given destroy callback. */
    method Init(destroy: bool)
      modifies this
      ensures Valid()
      ensures root == Nil && size == 0 && hasDestroy == destroy && destroyed == []
    {
      size := 0;
      hasDestroy := destroy;
      root := Nil;
      destroyed := [];
    }

    /** `bistree_destroy`: destroys every node, hidden or not, then clears the structure. */
    method Destroy()
      requires Valid()
      modifies this
      ensures Valid()
      ensures root == Nil && size == 0 && !hasDestroy
      ensures destroyed == old(destroyed) + (if old(hasDestroy) then PostOrderData(old(root)) else [])
    {
      DestroyLeft(None);
      // clear the whole structure
      size, hasDestroy, root := 0, false, Nil;
    }

    /** `_destroy_left`: destroys the subtree in the left slot of `node` (the whole tree for NULL). */
    method DestroyLeft(node: Option<Path>)
      requires Counted() && IsNodeOf(root, node)
      modifies this
      ensures Counted() && hasDestroy == old(hasDestroy)
      ensures root == Graft(old(root), Slot(node, Left), Nil)
      ensures size == old(size) - Size(At(old(root), Slot(node, Left)))
      ensures destroyed == old(destroyed)
                           + (if hasDestroy then PostOrderData(At(old(root), Slot(node, Left))) else [])
      decreases Size(At(root, Slot(node, Left))), 1
    {
      // no destruction of an empty tree
      if size == 0 {
        return;
      }
      SlotReached(root, node, Left);
      DestroyAt(Slot(node, Left));
    }

    /** `_destroy_right`: the mirror image of `DestroyLeft`. */
    method DestroyRight(node: Option<Path>)
      requires Counted() && IsNodeOf(root, node)
      modifies this
      ensures Counted() && hasDestroy == old(hasDestroy)
      ensures root == Graft(old(root), Slot(node, Right), Nil)
      ensures size == old(size) - Size(At(old(root), Slot(node, Right)))
      ensures destroyed == old(destroyed)
                           + (if hasDestroy then PostOrderData(At(old(root), Slot(node, Right))) else [])
      decreases Size(At(root, Slot(node, Right))), 1
    {
      if size == 0 {
        return;
      }
      SlotReached(root, node, Right);
      DestroyAt(Slot(node, Right));
    }

    /**
     * What `_destroy_left` and `_destroy_right` share once the position is
     * known: destroy both subtrees of the node there, call destroy on its
     * record, and empty the slot.
     */
    method DestroyAt(position: Path)
      requires Counted() && Reaches(root, position)
      modifies this
      ensures Counted() && hasDestroy == old(hasDestroy)
      ensures root == Graft(old(root), position, Nil)
      ensures size == old(size) - Size(At(old(root), position))
      ensures destroyed == old(destroyed)
                           + (if hasDestroy then PostOrderData(At(old(root), position)) else [])
      decreases Size(At(root, position)), 0
    {
      if IsEob(At(root, position)) {
        GraftSame(root, position);
        return;
      }
      ghost var x, d0 := At(root, position), destroyed;
      PruneSteps(root, position);
      DestroyLeft(Some(position));
      ghost var d1 := destroyed;
      DestroyRight(Some(position));
      ghost var d2 := destroyed;
      if hasDestroy {
        // hand the removed node's record to destroy
        destroyed := destroyed + [At(root, position).data.data];
      }
      root := Graft(root, position, Nil);
      size := size - 1;
      DestroyLog(x, hasDestroy, d0, d1, d2, destroyed);
    }

    /**
     * `bistree_insert`: 0 when `data` was added as a new node or revived a
     * hidden one, 1 when a visible node with its key is already there, -1
     * when storage for a new node cannot be had.
     */
    method Insert(data: Record, allocOk: bool) returns (ret: int)
      requires Valid()
      modifies this
      ensures Valid() && hasDestroy == old(hasDestroy)
      ensures ret == 0 || ret == 1 || ret == -1
      ensures ret == 1 <==> (FindEntry(old(Items(root)), data.key).Some? &&
                             !FindEntry(old(Items(root)), data.key).value.hidden)
      ensures ret == -1 <==> FindEntry(old(Items(root)), data.key).None? && !allocOk
      ensures ret != 0 ==> root == old(root) && size == old(size) && destroyed == old(destroyed)
      ensures ret == 0 ==> Items(root) == Upsert(old(Items(root)), Entry(data, false))
      ensures ret == 0 && FindEntry(old(Items(root)), data.key).Some? ==>
                (Shape(root) == old(Shape(root)) && size == old(size) &&
                 destroyed == old(destroyed) +
                   (if hasDestroy then [FindEntry(old(Items(root)), data.key).value.data] else []))
      ensures ret == 0 && FindEntry(old(Items(root)), data.key).None? ==>
                size == old(size) + 1 && destroyed == old(destroyed)
    {
      var balanced := false;
      var r: AvlTree;
      var replaced: Option<Record>;
      ghost var rotations: nat;
      r, ret, balanced, replaced, rotations := InsertNode(root, data, allocOk);
      OrderedItemsAscend(root);
      UpsertLength(Items(root), Entry(data, false));
      root := r;
      if ret == 0 {
        if replaced.Some? {
          if hasDestroy {
            // destroy the hidden data being replaced
            destroyed := destroyed + [replaced.value];
          }
        } else {
          // bitree_ins_left / bitree_ins_right counted the new node
          size := size + 1;
        }
      }
    }

    /**
     * `bistree_remove`: lazy removal. 0 when a node with `data`'s key exists,
     * hidden already or not, which is then hidden; -1 when there is none.
     */
    method Remove(data: Record) returns (ret: int)
      requires Valid()
      modifies this
      ensures Valid()
      ensures size == old(size) && hasDestroy == old(hasDestroy) && destroyed == old(destroyed)
      ensures ret == 0 || ret == -1
      ensures ret == 0 <==> data.key in old(Keys(root))
      ensures Shape(root) == old(Shape(root))
      ensures Items(root) == MarkHidden(old(Items(root)), data.key)
      ensures ret == -1 ==> root == old(root)
    {
      var r;
      r, ret := HideNode(root, data);
      ShapeFixes(r, root);
      root := r;
    }

    /**
     * `bistree_lookup`: 0 and the stored record when a node that is not
     * hidden has `data`'s key; -1 and `data` unchanged otherwise.
     */
    method Lookup(data: Record) returns (ret: int, found: Record)
      requires Valid()
      ensures ret == 0 || ret == -1
      ensures ret == 0 <==> FindEntry(Items(root), data.key).Some? && !FindEntry(Items(root), data.key).value.hidden
      ensures ret == 0 ==> found == FindEntry(Items(root), data.key).value.data
      ensures ret == -1 ==> found == data
    {
      var r := LookupNode(root, data);
      ret, found := r.0, r.1;
    }
  }
}
