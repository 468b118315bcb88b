/** rb_first, rb_last, rb_next and rb_prev of src/rbtree.c, and
    the height bound that the red-black invariants give. */
module RbWalk {
  import opened RbShape

  /** The position of a node in the in-order sequence of the tree. */
  lemma {:induction false} Position<T>(c: Ctx<T>, t: Tree<T>)
    requires t.Bin?
    ensures var i := |Before(c)| + |InOrder(t.left)|;
      i < |InOrder(Plug(c, t))| && InOrder(Plug(c, t))[i] == t.node
    ensures |InOrder(Plug(c, t))| == |Before(c)| + |InOrder(t.left)| + 1 + |InOrder(t.right)| + |After(c)|
  {
    InOrderPlug(c, t);
  }

  method First<T>(root: Root<T>) returns (n: Node?<T>)
    requires root.Valid()
    ensures root.Valid()
    ensures n == if InOrder(root.tree) == [] then null else InOrder(root.tree)[0]
  {
    n := root.node;
    if n == null {
      return;
    }
    ghost var c: Ctx<T>, t := Top, root.tree;
    ghost var m := Snap(Nodes(root.tree));
    while n.left != null
      invariant Shape(m, root.node, c, t) && t.Bin? && n == t.node && CtxNodes(c) + Nodes(t) == Nodes(root.tree)
      invariant Plug(c, t) == root.tree && Before(c) == []
      decreases t
    {
      n := n.left;
      Climb(m, root.node, InLeft(c, t.node, t.red, t.right), t.left);
      c, t := InLeft(c, t.node, t.red, t.right), t.left;
    }
    Position(c, t);
  }

  method Last<T>(root: Root<T>) returns (n: Node?<T>)
    requires root.Valid()
    ensures root.Valid()
    ensures n == if InOrder(root.tree) == [] then null else InOrder(root.tree)[|InOrder(root.tree)| - 1]
  {
    n := root.node;
    if n == null {
      return;
    }
    ghost var c: Ctx<T>, t := Top, root.tree;
    ghost var m := Snap(Nodes(root.tree));
    while n.right != null
      invariant Shape(m, root.node, c, t) && t.Bin? && n == t.node && CtxNodes(c) + Nodes(t) == Nodes(root.tree)
      invariant Plug(c, t) == root.tree && After(c) == []
      decreases t
    {
      n := n.right;
      Climb(m, root.node, InRight(c, t.left, t.node, t.red), t.right);
      c, t := InRight(c, t.left, t.node, t.red), t.right;
    }
    Position(c, t);
  }

  lemma {:induction false} InOrderDistinct<T>(t: Tree<T>)
    requires Distinct(t)
    ensures forall i, j :: 0 <= i < j < |InOrder(t)| ==> InOrder(t)[i] != InOrder(t)[j]
  {
    if t.Bin? {
      InOrderDistinct(t.left);
      InOrderDistinct(t.right);
      InOrderNodes(t.left);
      InOrderNodes(t.right);
      var l, r := InOrder(t.left), InOrder(t.right);
      forall i, j | 0 <= i < |l| && 0 <= j < |r|
        ensures l[i] != r[j]
      {
        assert l[i] in Nodes(t.left) && r[j] in Nodes(t.right);
      }
      DistinctConcat(l, t.node, r);
    }
  }

  lemma {:induction false} DistinctConcat<X>(l: seq<X>, x: X, r: seq<X>)
    requires x !in l && x !in r && (forall i, j :: 0 <= i < |l| && 0 <= j < |r| ==> l[i] != r[j])
    requires forall i, j :: 0 <= i < j < |l| ==> l[i] != l[j]
    requires forall i, j :: 0 <= i < j < |r| ==> r[i] != r[j]
    ensures var s := l + [x] + r; forall i, j :: 0 <= i < j < |s| ==> s[i] != s[j]
  {
  }

  ghost function NextAt<T>(s: seq<Node<T>>, i: nat): Node?<T>
    requires i < |s|
  {
    if i + 1 < |s| then s[i + 1] else null
  }

  ghost function PrevAt<T>(s: seq<Node<T>>, i: nat): Node?<T>
    requires i < |s|
  {
    if i > 0 then s[i - 1] else null
  }

  /** `n` is the successor of `x` in `s`, null at the end. */
  ghost predicate Follows<T>(s: seq<Node<T>>, x: Node<T>, n: Node?<T>) {
    x in s &&
    forall i :: 0 <= i < |s| && s[i] == x ==> n == NextAt(s, i)
  }

  ghost predicate Precedes<T>(s: seq<Node<T>>, x: Node<T>, n: Node?<T>) {
    x in s &&
    forall i :: 0 <= i < |s| && s[i] == x ==> n == PrevAt(s, i)
  }

  /** What stands next to the root of a subtree in the whole in-order sequence. */
  lemma {:induction false} Neighbours<T>(c: Ctx<T>, t: Tree<T>, n: Node?<T>)
    requires t.Bin? && Distinct(Plug(c, t))
    ensures
      n == (if InOrder(t.right) != [] then InOrder(t.right)[0] else if After(c) != [] then After(c)[0] else null) ==>
      Follows(InOrder(Plug(c, t)), t.node, n)
    ensures n == (if InOrder(t.left) != [] then InOrder(t.left)[|InOrder(t.left)| - 1]
                  else if Before(c) != [] then Before(c)[|Before(c)| - 1] else null) ==>
      Precedes(InOrder(Plug(c, t)), t.node, n)
  {
    InOrderPlug(c, t);
    InOrderDistinct(Plug(c, t));
    assert InOrder(t) == InOrder(t.left) + [t.node] + InOrder(t.right);
    hide InOrder, Plug, Before, After;
    NextInMiddle(Before(c), InOrder(t.left), t.node, InOrder(t.right), After(c), n);
    PrevInMiddle(Before(c), InOrder(t.left), t.node, InOrder(t.right), After(c), n);
  }

  lemma {:induction false} NextInMiddle<T>(b: seq<Node<T>>, l: seq<Node<T>>, x: Node<T>, r: seq<Node<T>>,
                              a: seq<Node<T>>, n: Node?<T>)
    requires var o := b + (l + [x] + r) + a; forall i, j :: 0 <= i < j < |o| ==> o[i] != o[j]
    ensures n == (if r != [] then r[0] else if a != [] then a[0] else null) ==> Follows(b + (l + [x] + r) + a, x, n)
  {
    var o, k := b + (l + [x] + r) + a, |b| + |l|;
    assert o[k] == x;
    assert k + 1 < |o| ==> o[k + 1] == if r != [] then r[0] else a[0];
    forall i | 0 <= i < |o| && o[i] == x ensures i == k {}
  }

  lemma {:induction false} PrevInMiddle<T>(b: seq<Node<T>>, l: seq<Node<T>>, x: Node<T>, r: seq<Node<T>>,
                              a: seq<Node<T>>, n: Node?<T>)
    requires var o := b + (l + [x] + r) + a; forall i, j :: 0 <= i < j < |o| ==> o[i] != o[j]
    ensures n == (if l != [] then l[|l| - 1] else if b != [] then b[|b| - 1] else null) ==>
      Precedes(b + (l + [x] + r) + a, x, n)
  {
    var o, k := b + (l + [x] + r) + a, |b| + |l|;
    assert o[k] == x;
    assert k > 0 ==> o[k - 1] == if l != [] then l[|l| - 1] else b[|b| - 1];
    forall i | 0 <= i < |o| && o[i] == x ensures i == k {}
  }

  /** The first node of a subtree, going left. */
  method Leftmost<T>(node0: Node<T>, ghost root: Root<T>, ghost c0: Ctx<T>, ghost t0: Tree<T>) returns (node: Node<T>)
    requires Shape(Snap(Nodes(root.tree)), root.node, c0, t0) && CtxNodes(c0) + Nodes(t0) == Nodes(root.tree)
    requires t0.Bin? && node0 == t0.node
    ensures InOrder(t0) != [] && node == InOrder(t0)[0]
  {
    node := node0;
    ghost var c, t := c0, t0;
    ghost var m := Snap(Nodes(root.tree));
    while node.left != null
      invariant Shape(m, root.node, c, t) && t.Bin? && node == t.node && CtxNodes(c) + Nodes(t) == Nodes(root.tree)
      invariant InOrder(t) != [] && InOrder(t0) != [] && InOrder(t)[0] == InOrder(t0)[0]
      decreases t
    {
      node := node.left;
      Climb(m, root.node, InLeft(c, t.node, t.red, t.right), t.left);
      c, t := InLeft(c, t.node, t.red, t.right), t.left;
    }
    assert InOrder(t.left) == [];
  }

  method Rightmost<T>(node0: Node<T>, ghost root: Root<T>, ghost c0: Ctx<T>, ghost t0: Tree<T>) returns (node: Node<T>)
    requires Shape(Snap(Nodes(root.tree)), root.node, c0, t0) && CtxNodes(c0) + Nodes(t0) == Nodes(root.tree)
    requires t0.Bin? && node0 == t0.node
    ensures InOrder(t0) != [] && node == InOrder(t0)[|InOrder(t0)| - 1]
  {
    node := node0;
    ghost var c, t := c0, t0;
    ghost var m := Snap(Nodes(root.tree));
    while node.right != null
      invariant Shape(m, root.node, c, t) && t.Bin? && node == t.node && CtxNodes(c) + Nodes(t) == Nodes(root.tree)
      invariant InOrder(t) != [] && InOrder(t0) != [] && InOrder(t)[|InOrder(t)| - 1] == InOrder(t0)[|InOrder(t0)| - 1]
      decreases t
    {
      node := node.right;
      Climb(m, root.node, InRight(c, t.left, t.node, t.red), t.right);
      c, t := InRight(c, t.left, t.node, t.red), t.right;
    }
    assert InOrder(t.right) == [];
  }

  /** The first ancestor reached from its left. */
  method UpFromLeft<T>(node0: Node<T>, ghost root: Root<T>, ghost c0: Ctx<T>,
                       ghost t0: Tree<T>) returns (parent: Node?<T>)
    requires Shape(Snap(Nodes(root.tree)), root.node, c0, t0) && CtxNodes(c0) + Nodes(t0) == Nodes(root.tree)
    requires t0.Bin? && node0 == t0.node
    ensures parent == if After(c0) == [] then null else After(c0)[0]
  {
    var node := node0;
    ghost var c, t := c0, t0;
    ghost var m := Snap(Nodes(root.tree));
    parent := node.parent;
    while parent != null && node == parent.right
      invariant Shape(m, root.node, c, t) && t.Bin? && node == t.node && CtxNodes(c) + Nodes(t) == Nodes(root.tree)
      invariant parent == ParentAt(c, null) && After(c) == After(c0)
      decreases Depth(c)
    {
      Climb(m, root.node, c, t);
      Side(m, root.node, c, t);
      node := parent;
      c, t := c.up, Fill(c, t);
      parent := node.parent;
    }
    if parent != null {
      Side(m, root.node, c, t);
    }
  }

  /** The first ancestor reached from its right. */
  method UpFromRight<T>(node0: Node<T>, ghost root: Root<T>, ghost c0: Ctx<T>,
                        ghost t0: Tree<T>) returns (parent: Node?<T>)
    requires Shape(Snap(Nodes(root.tree)), root.node, c0, t0) && CtxNodes(c0) + Nodes(t0) == Nodes(root.tree)
    requires t0.Bin? && node0 == t0.node
    ensures parent == if Before(c0) == [] then null else Before(c0)[|Before(c0)| - 1]
  {
    var node := node0;
    ghost var c, t := c0, t0;
    ghost var m := Snap(Nodes(root.tree));
    parent := node.parent;
    while parent != null && node == parent.left
      invariant Shape(m, root.node, c, t) && t.Bin? && node == t.node && CtxNodes(c) + Nodes(t) == Nodes(root.tree)
      invariant parent == ParentAt(c, null) && Before(c) == Before(c0)
      decreases Depth(c)
    {
      Climb(m, root.node, c, t);
      Side(m, root.node, c, t);
      node := parent;
      c, t := c.up, Fill(c, t);
      parent := node.parent;
    }
    if parent != null {
      Side(m, root.node, c, t);
    }
  }

  /** A child pointer tells on which side of its parent a node is. */
  lemma {:induction false} Side<T>(m: Store<T>, top: Node?<T>, c: Ctx<T>, t: Tree<T>)
    requires Shape(m, top, c, t) && t.Bin? && !c.Top?
    ensures c.node in m && (m[c.node].left == t.node <==> c.InLeft?) && (m[c.node].right == t.node <==> c.InRight?)
  {
    assert t.node in Nodes(t);
    assert c.InLeft? && c.right.Bin? ==> c.right.node in Nodes(c.right);
    assert c.InRight? && c.left.Bin? ==> c.left.node in Nodes(c.left);
  }

  method Next<T>(node: Node<T>, ghost root: Root<T>) returns (n: Node?<T>)
    requires root.Valid() && (node.parent != node ==> node in Nodes(root.tree))
    ensures node.parent == node ==> n == null
    ensures node.parent != node ==> Follows(InOrder(root.tree), node, n)
  {
    hide Shape;
    if node.parent == node {
      return null;
    }
    ghost var m := Snap(Nodes(root.tree));
    ghost var c, t := At(root, node);
    if node.right != null {
      Climb(m, root.node, InRight(c, t.left, t.node, t.red), t.right);
      n := Leftmost(node.right, root, InRight(c, t.left, t.node, t.red), t.right);
    } else {
      n := UpFromLeft(node, root, c, t);
    }
    Neighbours(c, t, n);
  }

  method Prev<T>(node: Node<T>, ghost root: Root<T>) returns (n: Node?<T>)
    requires root.Valid() && (node.parent != node ==> node in Nodes(root.tree))
    ensures node.parent == node ==> n == null
    ensures node.parent != node ==> Precedes(InOrder(root.tree), node, n)
  {
    hide Shape;
    if node.parent == node {
      return null;
    }
    ghost var m := Snap(Nodes(root.tree));
    ghost var c, t := At(root, node);
    if node.left != null {
      Climb(m, root.node, InLeft(c, t.node, t.red, t.right), t.left);
      n := Rightmost(node.left, root, InLeft(c, t.node, t.red, t.right), t.left);
    } else {
      n := UpFromRight(node, root, c, t);
    }
    Neighbours(c, t, n);
  }

  lemma {:induction false} At<T>(root: Root<T>, node: Node<T>) returns (c: Ctx<T>, t: Tree<T>)
    requires root.Valid() && node in Nodes(root.tree)
    ensures Plug(c, t) == root.tree && t.Bin? && t.node == node && Distinct(root.tree)
    ensures Shape(Snap(Nodes(root.tree)), root.node, c, t) && CtxNodes(c) + Nodes(t) == Nodes(root.tree)
    ensures node.left == RootOf(t.left) && node.right == RootOf(t.right)
    ensures t.left.Bin? <==> InOrder(t.left) != []
    ensures t.right.Bin? <==> InOrder(t.right) != []
  {
    c, t := Locate(Top, root.tree, node);
    assert Plug(Top, root.tree) == root.tree;
    Unjoin(Snap(Nodes(root.tree)), root.node, c, t);
  }

  // ------------------------------------------------------------------ height

  ghost function Height<T>(t: Tree<T>): nat {
    if t.Nil? then 0
    else 1 + if Height(t.left) > Height(t.right) then Height(t.left) else Height(t.right)
  }

  ghost function Pow2(n: nat): nat {
    if n == 0 then 1 else 2 * Pow2(n - 1)
  }

  lemma {:induction false} BlackHeightBounds<T>(t: Tree<T>, h: nat)
    requires Balanced(t, h)
    ensures Height(t) <= 2 * h + if IsRed(t) then 1 else 0
    ensures Pow2(h) <= |InOrder(t)| + 1
  {
    if t.Bin? {
      var k := if t.red then h else h - 1;
      BlackHeightBounds(t.left, k);
      BlackHeightBounds(t.right, k);
    }
  }

  lemma {:induction false} Pow2Monotonic(a: nat, b: nat)
    requires a <= b
    ensures Pow2(a) <= Pow2(b)
  {
    if a < b { Pow2Monotonic(a, b - 1); }
  }

  /** height <= 2 * log2(n + 1), for every red-black tree of n nodes. */
  lemma {:induction false} HeightBound<T>(t: Tree<T>)
    requires RedBlack(t)
    ensures Pow2((Height(t) + 1) / 2) <= |InOrder(t)| + 1
  {
    BlackHeightBounds(t, BlackHeight(t));
    Pow2Monotonic((Height(t) + 1) / 2, BlackHeight(t));
  }

  /** The black nodes on a path. */
  ghost function Blacks<T>(c: Ctx<T>): nat {
    if c.Top? then 0 else Blacks(c.up) + if c.red then 0 else 1
  }

  lemma {:induction false} PathHeight<T>(c: Ctx<T>, t: Tree<T>, h: nat)
    requires Balanced(t, h) && CtxBalanced(c, h) && (IsRed(t) ==> !c.Top? && !c.red)
    ensures BlackHeight(Plug(c, t)) == h + Blacks(c)
    decreases c
  {
    match c
    case Top => BalancedHeight(t, h);
    case InLeft(up, n, red, r) => PathHeight(up, Fill(c, t), if red then h else h + 1);
    case InRight(up, l, n, red) => PathHeight(up, Fill(c, t), if red then h else h + 1);
  }

  /**
   A red-black tree, path by path: its root is not red, no red node hangs below a red
   one, and all paths from the root to a free place have the same number of black nodes.
   */
  lemma {:induction false} Paths<T>(tree: Tree<T>, c: Ctx<T>, t: Tree<T>)
    requires RedBlack(tree) && Plug(c, t) == tree
    ensures t.Bin? && t.red ==> !c.Top? && !c.red
    ensures t.Nil? ==> Blacks(c) == BlackHeight(tree)
  {
    var h := Unplug(c, t);
    PathHeight(c, t, h);
  }

  /** No path is longer than the height. */
  lemma {:induction false} PathLength<T>(c: Ctx<T>, t: Tree<T>)
    ensures Depth(c) + Height(t) <= Height(Plug(c, t))
    decreases c
  {
    if !c.Top? { PathLength(c.up, Fill(c, t)); }
  }

  lemma {:induction false} PowersOfTwo(n: nat)
    ensures Pow2(0) == 1 && Pow2(n + 1) == 2 * Pow2(n)
  {
  }

  lemma {:induction false} NotOwnParent<T>(m: Store<T>, top: Node?<T>, c: Ctx<T>, t: Tree<T>)
    requires Shape(m, top, c, t) && t.Bin?
    ensures t.node in m && m[t.node].parent != t.node
  {
    assert t.node in Nodes(t);
  }

  /** Only a node outside a tree is its own parent. */
  lemma {:induction false} MemberParent<T>(root: Root<T>, node: Node<T>)
    requires root.Valid() && node in Nodes(root.tree)
    ensures node.parent != node
  {
    var c, t := At(root, node);
    NotOwnParent(Snap(Nodes(root.tree)), root.node, c, t);
  }
}
