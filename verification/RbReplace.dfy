/** rb_replace_node of src/rbtree.c. */
module RbReplace {
  import opened RbShape
  import RbErase
  import RbRotate
  import RbWalk

  /** Two sequences that differ only in that `y` stands for `x`. */
  ghost predicate SwappedIn<T>(s: seq<Node<T>>, x: Node<T>, y: Node<T>, s': seq<Node<T>>) {
    |s'| == |s| && forall i :: 0 <= i < |s| ==> s'[i] == if s[i] == x then y else s[i]
  }

  lemma {:induction false} SwappedMiddle<T>(b: seq<Node<T>>, x: Node<T>, y: Node<T>, a: seq<Node<T>>)
    requires x !in b && x !in a
    ensures SwappedIn(b + [x] + a, x, y, b + [y] + a)
  {
  }

  /** The tree with the victim's place taken. */
  lemma {:induction false} ReplacedTree<T>(m: Store<T>, m': Store<T>, top: Node?<T>, c: Ctx<T>, t: Tree<T>, y: Node<T>)
    requires t.Bin? && Shape(m, top, c, t) && m.Keys == CtxNodes(c) + Nodes(t) && y !in m
    requires RbErase.Replaced(m, m', t.node, y) && RedBlack(Plug(c, t))
    ensures var t' := Plug(c, Bin(t.left, y, t.red, t.right));
      Shape(m', if top == t.node then y else top, Top, t') && RedBlack(t') && Nodes(t') == m'.Keys &&
      SwappedIn(InOrder(Plug(c, t)), t.node, y, InOrder(t'))
  {
    ReplacedShape(m, m', top, c, t, y);
    Balance(c, t, y);
    Order(c, t, y);
  }

  lemma {:induction false} ReplacedShape<T>(m: Store<T>, m': Store<T>, top: Node?<T>, c: Ctx<T>, t: Tree<T>, y: Node<T>)
    requires t.Bin? && Shape(m, top, c, t) && m.Keys == CtxNodes(c) + Nodes(t) && y !in m
    requires RbErase.Replaced(m, m', t.node, y)
    ensures var t' := Plug(c, Bin(t.left, y, t.red, t.right));
      Shape(m', if top == t.node then y else top, Top, t') && Nodes(t') == m'.Keys
  {
    var x := t.node;
    var c' := InLeft(c, x, t.red, t.right);
    Descend(m, top, c, t);
    RbErase.RenamedShape(m, m', top, c', t.left, x, y);
    RbErase.RenameAbsent(c, x, y);
    Join(m', RbErase.Renamed(top, x, y), RbErase.RenameCtx(c', x, y), t.left);
  }

  lemma {:induction false} Balance<T>(c: Ctx<T>, t: Tree<T>, y: Node<T>)
    requires t.Bin? && RedBlack(Plug(c, t))
    ensures RedBlack(Plug(c, Bin(t.left, y, t.red, t.right)))
  {
    var h := Unplug(c, t);
    BalancedPlug(c, Bin(t.left, y, t.red, t.right), h);
  }

  lemma {:induction false} Order<T>(c: Ctx<T>, t: Tree<T>, y: Node<T>)
    requires t.Bin? && CtxDistinct(c) && Distinct(t) && CtxNodes(c) !! Nodes(t)
    ensures SwappedIn(InOrder(Plug(c, t)), t.node, y, InOrder(Plug(c, Bin(t.left, y, t.red, t.right))))
  {
    var b, l, r, a := Before(c), InOrder(t.left), InOrder(t.right), After(c);
    InOrderPlug(c, t);
    InOrderPlug(c, Bin(t.left, y, t.red, t.right));
    SideNodes(c);
    InOrderNodes(t.left);
    InOrderNodes(t.right);
    assert t.node in Nodes(t);
    hide InOrder, Plug, Before, After;
    Around3(b, l, t.node, r, a);
    Around3(b, l, y, r, a);
    SwappedMiddle(b + l, t.node, y, r + a);
  }

  /** The links around a node of the tree. */
  ghost predicate Surrounded<T>(m: Store<T>, x: Node<T>) {
    RbErase.OwnReferences(m, x) &&
    (m[x].parent != null ==>
      m[x].parent in m && m[x].parent !in {x, m[x].left, m[x].right} &&
      (m[m[x].parent].left == x || m[m[x].parent].right == x)) &&
    (m[x].left != null ==> m[x].left in m && m[x].left != x && m[m[x].left].parent == x && m[x].left != m[x].right) &&
    (m[x].right != null ==> m[x].right in m && m[x].right != x && m[m[x].right].parent == x)
  }

  lemma {:induction false} SurroundedAt<T>(m: Store<T>, top: Node?<T>, c: Ctx<T>, t: Tree<T>)
    requires Shape(m, top, c, t) && t.Bin? && m.Keys == CtxNodes(c) + Nodes(t)
    ensures Surrounded(m, t.node) && (m[t.node].parent == null <==> top == t.node)
  {
    RbErase.References(m, top, c, t);
    assert t.left.Bin? ==> t.left.node in Nodes(t.left);
    assert t.right.Bin? ==> t.right.node in Nodes(t.right);
    assert Linked(m, t.left, t.node) && Linked(m, t.right, t.node);
    TopNode(m, top, c, t);
  }

  lemma {:induction false} TopNode<T>(m: Store<T>, top: Node?<T>, c: Ctx<T>, t: Tree<T>)
    requires t.Bin? && CtxLinked(m, c, t.node, top, null) && CtxNodes(c) !! Nodes(t) && CtxDistinct(c)
    ensures c.Top? <==> top == t.node
  {
    if !c.Top? { RbErase.TopInCtx(m, top, c, t.node); }
  }

  /** Every link to `x` has become one to `y`, but in `x` itself. */
  ghost predicate Redirected<T>(m: Store<T>, m': Store<T>, x: Node<T>, y: Node<T>) {
    m'.Keys == m.Keys && x in m && m'[x] == m[x] &&
    forall n :: n in m && n != x ==>
      m'[n] == Links(RbErase.Renamed(m[n].parent, x, y), m[n].red,
                     RbErase.Renamed(m[n].left, x, y), RbErase.Renamed(m[n].right, x, y))
  }

  /** The nodes around the victim point to the new one. */
  method Redirect<T>(victim: Node<T>, newNode: Node<T>, root: Root<T>, ghost s: set<Node<T>>)
    requires victim in s && newNode !in s && Surrounded(Snap(s), victim)
    modifies root`node, s`left, s`right, s`parent
    ensures Redirected(old(Snap(s)), Snap(s), victim, newNode)
    ensures root.node == if old(victim.parent) == null then newNode else old(root.node)
  {
    var parent := victim.parent;
    if parent != null {
      RbRotate.SetChildLeft(parent, victim, newNode);
    } else {
      root.node := newNode;
    }
    if victim.left != null {
      victim.left.parent := newNode;
    }
    if victim.right != null {
      victim.right.parent := newNode;
    }
  }

  /** The new node gets the victim's links. */
  method Overwrite<T>(victim: Node<T>, newNode: Node<T>, root: Root<T>, ghost s: set<Node<T>>)
    requires victim in s && newNode !in s && Surrounded(Snap(s), victim)
    modifies root`node, newNode`parent, newNode`red, newNode`left, newNode`right, s`left, s`right, s`parent
    ensures RbErase.Replaced(old(Snap(s)), Snap(s - {victim} + {newNode}), victim, newNode)
    ensures root.node == if old(victim.parent) == null then newNode else old(root.node)
  {
    Redirect(victim, newNode, root, s);
    newNode.parent, newNode.red, newNode.left, newNode.right := victim.parent, victim.red, victim.left, victim.right;
  }

  /** rb_replace_node */
  method ReplaceNode<T>(victim: Node<T>, newNode: Node<T>, root: Root<T>)
    requires root.Valid() && victim in Nodes(root.tree) && newNode !in Nodes(root.tree)
    modifies root, newNode`parent, newNode`red, newNode`left, newNode`right
    modifies Nodes(root.tree)`left, Nodes(root.tree)`right, Nodes(root.tree)`parent
    ensures root.Valid() && Nodes(root.tree) == old(Nodes(root.tree)) - {victim} + {newNode}
    ensures SwappedIn(old(InOrder(root.tree)), victim, newNode, InOrder(root.tree))
  {
    hide Shape, RedBlack, SwappedIn, Surrounded, RbErase.Replaced, Plug, CtxNodes, InOrder, Linked, Distinct;
    ghost var s, m, top := Nodes(root.tree), Snap(Nodes(root.tree)), root.node;
    ghost var c, t := RbWalk.At(root, victim);
    SurroundedAt(m, top, c, t);
    Overwrite(victim, newNode, root, s);
    ReplacedTree(m, Snap(s - {victim} + {newNode}), top, c, t, newNode);
    root.tree := Plug(c, Bin(t.left, newNode, t.red, t.right));
  }
}
