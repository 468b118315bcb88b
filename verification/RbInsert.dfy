/** rb_insert_color of src/rbtree.c. */
module RbInsert {
  import opened RbShape
  import opened Sequences
  import opened RbRotate

  // --------------------------------------------------------------- inserting

  /** The state of the insert fix-up: everything is in order except that the
      red root of the focus `t` may hang below a red parent. */
  ghost predicate Inserting<T>(m: Store<T>, top: Node?<T>, c: Ctx<T>, t: Tree<T>, h: nat, order: seq<Node<T>>) {
    Shape(m, top, c, t) && m.Keys == CtxNodes(c) + Nodes(t) &&
    Before(c) + InOrder(t) + After(c) == order &&
    IsRed(t) && Balanced(t, h) && CtxBalanced(c, h)
  }

  lemma {:induction false} MirrorInserting<T>(m: Store<T>, top: Node?<T>, c: Ctx<T>, t: Tree<T>, h: nat,
                              order: seq<Node<T>>)
    requires Inserting(m, top, c, t, h, order)
    ensures Inserting(MirrorLinks(m), top, MirrorCtx(c), Mirror(t), h, Reverse(order))
  {
    MirrorShape(m, top, c, t);
    MirrorTree(m, t, null);
    MirrorContext(c);
    MirrorBalanced(t, h);
    MirrorCtxBalanced(c, h);
    MirrorOrder(c, t);
  }

  lemma {:induction false} UnmirrorInserting<T>(m: Store<T>, top: Node?<T>, c: Ctx<T>, t: Tree<T>, h: nat,
                              order: seq<Node<T>>)
    requires Inserting(MirrorLinks(m), top, MirrorCtx(c), Mirror(t), h, Reverse(order))
    ensures Inserting(m, top, c, t, h, order)
  {
    MirrorInserting(MirrorLinks(m), top, MirrorCtx(c), Mirror(t), h, Reverse(order));
    MirrorTree(m, t, null);
    MirrorContext(c);
    ReverseConcat(order, []);
  }

  /** The subtree at the grandparent of the focus. */
  ghost function Grand<T>(c: Ctx<T>, t: Tree<T>): Tree<T>
    requires !c.Top? && !c.up.Top?
  {
    Fill(c.up, Fill(c, t))
  }

  ghost function Uncle<T>(c: Ctx<T>): Tree<T>
    requires !c.Top? && !c.up.Top?
  {
    if c.up.InLeft? then c.up.right else c.up.left
  }

  lemma {:induction false} FlipBalanced<T>(c: Ctx<T>, t: Tree<T>, h: nat)
    requires IsRed(t) && Balanced(t, h) && CtxBalanced(c, h) && !c.Top? && c.red && IsRed(Uncle(c))
    ensures Balanced(Paint(Grand(c, t), false, true, false), h + 1) && CtxBalanced(c.up.up, h + 1)
  {
    var near, far := SetRed(Fill(c, t), false), SetRed(Uncle(c), false);
    assert Balanced(near, h + 1) && Balanced(far, h + 1);
    assert CtxBalanced(c.up, h);
  }

  /** A red uncle: recolour and move two levels up. */
  lemma {:induction false} FlipStep<T>(m: Store<T>, m': Store<T>, top: Node?<T>, c: Ctx<T>, t: Tree<T>, h: nat,
                              order: seq<Node<T>>)
    requires Inserting(m, top, c, t, h, order) && !c.Top? && c.red
    requires IsRed(Uncle(c)) && Painted(m, m', Grand(c, t), false, true, false)
    ensures Inserting(m', top, c.up.up, Paint(Grand(c, t), false, true, false), h + 1, order)
  {
    Climb(m, top, c, t);
    Climb(m, top, c.up, Fill(c, t));
    PaintShape(m, m', top, c.up.up, Grand(c, t), false, true, false);
    PaintSame(Grand(c, t), false, true, false);
    FlipBalanced(c, t, h);
  }

  /** An inner grandchild: one rotation makes it an outer one. */
  lemma {:induction false} InnerLeftStep<T>(m: Store<T>, m': Store<T>, top: Node?<T>, c: Ctx<T>, t: Tree<T>,
                              h: nat, order: seq<Node<T>>)
    requires Inserting(m, top, c, t, h, order) && c.InRight? && c.red
    requires c.node in m && t.node in m && CanRotate(m, c.node, t.node, m[t.node].left)
    requires LeftRotated(m, m', c.node, t.node)
    ensures Inserting(m', top, InLeft(c.up, t.node, true, t.right), Bin(c.left, c.node, true, t.left), h, order)
  {
    Climb(m, top, c, t);
    LeftRotationShape(m, m', top, c.up, Fill(c, t));
    Climb(m', top, InLeft(c.up, t.node, true, t.right), Bin(c.left, c.node, true, t.left));
  }

  lemma {:induction false} OuterBalanced<T>(c: Ctx<T>, t: Tree<T>, h: nat)
    requires IsRed(t) && Balanced(t, h) && CtxBalanced(c, h) && !c.Top? && c.red && !IsRed(Uncle(c))
    ensures c.InLeft? && c.up.InLeft? ==>
      CtxBalanced(InLeft(c.up.up, c.node, false, Bin(c.right, c.up.node, true, c.up.right)), h)
  {
    assert CtxBalanced(c.up, h);
  }

  lemma {:induction false} InnerLeftReady<T>(m: Store<T>, top: Node?<T>, c: Ctx<T>, t: Tree<T>, h: nat,
                              order: seq<Node<T>>)
    requires Inserting(m, top, c, t, h, order) && c.InRight? && c.red
    ensures c.node in m && t.node in m && m[c.node].right == t.node && CanRotate(m, c.node, t.node, m[t.node].left)
    ensures m[c.node].parent != null
  {
    Climb(m, top, c, t);
    CanRotateLeft(m, top, c.up, Fill(c, t));
  }

  lemma {:induction false} InnerRightReady<T>(m: Store<T>, top: Node?<T>, c: Ctx<T>, t: Tree<T>, h: nat,
                              order: seq<Node<T>>)
    requires Inserting(m, top, c, t, h, order) && c.InLeft? && c.red
    ensures c.node in m && t.node in m && m[c.node].left == t.node && CanRotate(m, c.node, t.node, m[t.node].right)
    ensures m[c.node].parent != null
  {
    Climb(m, top, c, t);
    CanRotateRight(m, top, c.up, Fill(c, t));
  }

  /** An outer grandchild with a black uncle: after recolouring the parent and
      the grandparent the grandparent can be rotated down. */
  lemma {:induction false} OuterLeftPaint<T>(m: Store<T>, m1: Store<T>, top: Node?<T>, c: Ctx<T>, t: Tree<T>,
                              h: nat, order: seq<Node<T>>)
    requires Inserting(m, top, c, t, h, order) && c.InLeft? && c.red
    requires c.up.InLeft? && !IsRed(c.up.right)
    requires Painted(m, m1, Grand(c, t), false, true, false)
    ensures Shape(m1, top, c.up.up, Paint(Grand(c, t), false, true, false))
    ensures c.node in m1 && c.up.node in m1 && CanRotate(m1, c.up.node, c.node, m1[c.node].right)
    ensures m1[c.up.node].left == c.node
  {
    Climb(m, top, c, t);
    Climb(m, top, c.up, Fill(c, t));
    PaintShape(m, m1, top, c.up.up, Grand(c, t), false, true, false);
    CanRotateRight(m1, top, c.up.up, Paint(Grand(c, t), false, true, false));
  }

  /** ... and the focus then hangs below a black parent. */
  lemma {:induction false} OuterLeftStep<T>(m: Store<T>, m1: Store<T>, m2: Store<T>, top: Node?<T>, c: Ctx<T>,
                              t: Tree<T>, h: nat, order: seq<Node<T>>)
    requires Inserting(m, top, c, t, h, order) && c.InLeft? && c.red
    requires c.up.InLeft? && !IsRed(c.up.right)
    requires Painted(m, m1, Grand(c, t), false, true, false)
    requires c.node in m1 && c.up.node in m1 && CanRotate(m1, c.up.node, c.node, m1[c.node].right)
    requires RightRotated(m1, m2, c.up.node, c.node)
    ensures Inserting(m2, if m1[c.up.node].parent == null then c.node else top,
                      InLeft(c.up.up, c.node, false, Bin(c.right, c.up.node, true, c.up.right)), t, h, order)
  {
    Climb(m, top, c, t);
    Climb(m, top, c.up, Fill(c, t));
    OuterBalanced(c, t, h);
    var g := Grand(c, t);
    var g1 := Paint(g, false, true, false);
    assert SetRed(c.up.right, false) == c.up.right;
    OuterLeftPaint(m, m1, top, c, t, h, order);
    PaintSame(g, false, true, false);
    RightRotationShape(m1, m2, top, c.up.up, g1);
    Climb(m2, if m1[c.up.node].parent == null then c.node else top,
          InLeft(c.up.up, c.node, false, Bin(c.right, c.up.node, true, c.up.right)), t);
  }

  /** What the pointers read by the loop say about the shape. */
  lemma {:induction false} InsertPointers<T>(m: Store<T>, top: Node?<T>, c: Ctx<T>, t: Tree<T>, h: nat,
                              order: seq<Node<T>>)
    requires Inserting(m, top, c, t, h, order)
    ensures t.Bin? && t.node in m && m[t.node].parent == ParentAt(c, null)
    ensures !c.Top? ==> c.node in m && m[c.node].red == c.red
    ensures !c.Top? && c.red ==> !c.up.Top? && !c.up.red && c.up.node in m && m[c.node].parent == c.up.node
    ensures !c.Top? && c.red ==>
      (m[c.node].left == t.node <==> c.InLeft?) && (m[c.node].right == t.node <==> c.InRight?)
    ensures !c.Top? && c.red ==> (m[c.up.node].left == c.node <==> c.up.InLeft?)
    ensures !c.Top? && c.red ==> RootOf(Uncle(c)) == if c.up.InLeft? then m[c.up.node].right else m[c.up.node].left
    ensures !c.Top? && c.red && Uncle(c).Bin? ==> Uncle(c).node in m && m[Uncle(c).node].red == Uncle(c).red
    ensures !c.Top? && c.red && Uncle(c).Bin? ==> Uncle(c).node != c.up.node
    ensures !c.Top? && c.red ==>
      RootOf(Grand(c, t).left) == m[c.up.node].left && RootOf(Grand(c, t).right) == m[c.up.node].right
    ensures !c.Top? && c.red ==> m[c.up.node].left != m[c.up.node].right && c.node != c.up.node
    ensures !c.Top? && c.red ==> Depth(c) == 2 + Depth(c.up.up)
    ensures CtxNodes(c) + Nodes(t) == m.Keys
  {
    if !c.Top? && c.red {
      Climb(m, top, c, t);
      Climb(m, top, c.up, Fill(c, t));
      if c.up.InLeft? {
        assert RootOf(c.up.right) in Nodes(c.up.right) || c.up.right.Nil?;
      } else {
        assert RootOf(c.up.left) in Nodes(c.up.left) || c.up.left.Nil?;
      }
      if c.InLeft? {
        assert RootOf(c.right) in Nodes(c.right) || c.right.Nil?;
      } else {
        assert RootOf(c.left) in Nodes(c.left) || c.left.Nil?;
      }
    }
  }

  lemma {:induction false} MirrorGrand<T>(c: Ctx<T>, t: Tree<T>)
    requires !c.Top? && !c.up.Top?
    ensures !MirrorCtx(c).Top? && MirrorCtx(c).up == MirrorCtx(c.up) && !MirrorCtx(c.up).Top?
    ensures Grand(MirrorCtx(c), Mirror(t)) == Mirror(Grand(c, t))
    ensures Uncle(MirrorCtx(c)) == Mirror(Uncle(c))
  {
  }

  lemma {:induction false} MirrorOuter<T>(c: Ctx<T>)
    requires c.InRight? && c.up.InRight?
    ensures MirrorCtx(c).InLeft? && MirrorCtx(c).up.InLeft? && MirrorCtx(c).up.right == Mirror(c.up.left)
    ensures InLeft(MirrorCtx(c).up.up, c.node, false, Bin(MirrorCtx(c).right, c.up.node, true, Mirror(c.up.left)))
         == MirrorCtx(InRight(c.up.up, Bin(c.up.left, c.up.node, true, c.left), c.node, false))
  {
  }

  lemma {:induction false} InnerRightStep<T>(m: Store<T>, m': Store<T>, top: Node?<T>, c: Ctx<T>, t: Tree<T>,
                              h: nat, order: seq<Node<T>>)
    requires Inserting(m, top, c, t, h, order) && c.InLeft? && c.red
    requires c.node in m && t.node in m && CanRotate(m, c.node, t.node, m[t.node].right)
    requires RightRotated(m, m', c.node, t.node)
    ensures Inserting(m', top, InRight(c.up, t.left, t.node, true), Bin(t.right, c.node, true, c.right), h, order)
  {
    MirrorInserting(m, top, c, t, h, order);
    InnerLeftStep(MirrorLinks(m), MirrorLinks(m'), top, MirrorCtx(c), Mirror(t), h, Reverse(order));
    UnmirrorInserting(m', top, InRight(c.up, t.left, t.node, true), Bin(t.right, c.node, true, c.right), h, order);
  }

  lemma {:induction false} OuterRightPaint<T>(m: Store<T>, m1: Store<T>, top: Node?<T>, c: Ctx<T>, t: Tree<T>,
                              h: nat, order: seq<Node<T>>)
    requires Inserting(m, top, c, t, h, order) && c.InRight? && c.red
    requires c.up.InRight? && !IsRed(c.up.left)
    requires Painted(m, m1, Grand(c, t), false, true, false)
    ensures Shape(m1, top, c.up.up, Paint(Grand(c, t), false, true, false))
    ensures c.node in m1 && c.up.node in m1 && CanRotate(m1, c.up.node, c.node, m1[c.node].left)
    ensures m1[c.up.node].right == c.node
  {
    Climb(m, top, c, t);
    Climb(m, top, c.up, Fill(c, t));
    PaintShape(m, m1, top, c.up.up, Grand(c, t), false, true, false);
    CanRotateLeft(m1, top, c.up.up, Paint(Grand(c, t), false, true, false));
  }

  lemma {:induction false} OuterRightStep<T>(m: Store<T>, m1: Store<T>, m2: Store<T>, top: Node?<T>, c: Ctx<T>,
                              t: Tree<T>, h: nat, order: seq<Node<T>>)
    requires Inserting(m, top, c, t, h, order) && c.InRight? && c.red
    requires c.up.InRight? && !IsRed(c.up.left)
    requires Painted(m, m1, Grand(c, t), false, true, false)
    requires c.node in m1 && c.up.node in m1 && CanRotate(m1, c.up.node, c.node, m1[c.node].left)
    requires LeftRotated(m1, m2, c.up.node, c.node)
    ensures Inserting(m2, if m1[c.up.node].parent == null then c.node else top,
                      InRight(c.up.up, Bin(c.up.left, c.up.node, true, c.left), c.node, false), t, h, order)
  {
    hide Inserting, Shape;
    MirrorInserting(m, top, c, t, h, order);
    MirrorBalanced(c.up.left, 0);
    MirrorGrand(c, t);
    MirrorPainted(m, m1, Grand(c, t), false, true, false);
    MirrorOuter(c);
    OuterLeftStep(MirrorLinks(m), MirrorLinks(m1), MirrorLinks(m2), top, MirrorCtx(c), Mirror(t), h, Reverse(order));
    UnmirrorInserting(m2, if m1[c.up.node].parent == null then c.node else top,
              InRight(c.up.up, Bin(c.up.left, c.up.node, true, c.left), c.node, false), t, h, order);
  }

  /** Red uncle: recolour uncle, parent and grandparent. */
  method InsertFlip<T>(uncle: Node<T>, parent: Node<T>, gparent: Node<T>, root: Root<T>, ghost s: set<Node<T>>,
                       ghost c: Ctx<T>, ghost t: Tree<T>, ghost h: nat, ghost order: seq<Node<T>>)
    returns (ghost t': Tree<T>)
    requires Inserting(Snap(s), root.node, c, t, h, order) && !c.Top? && c.red && IsRed(Uncle(c))
    requires uncle == Uncle(c).node && parent == c.node && gparent == c.up.node
    modifies s`red
    ensures Inserting(Snap(s), root.node, c.up.up, t', h + 1, order) && t'.Bin? && t'.node == gparent
  {
    hide Inserting, Shape, Nodes, CtxNodes, Linked, CtxLinked, Balanced, CtxBalanced, InOrder, Before, After;
    ghost var m := Snap(s);
    InsertPointers(m, root.node, c, t, h, order);
    SetFlipped(uncle, parent, gparent, s, Grand(c, t));
    FlipStep(m, Snap(s), root.node, c, t, h, order);
    t' := Paint(Grand(c, t), false, true, false);
  }

  /** An outer grandchild on the left: repaint and rotate. */
  method TurnLeft<T>(parent: Node<T>, gparent: Node<T>, root: Root<T>, ghost s: set<Node<T>>,
                     ghost c: Ctx<T>, ghost t: Tree<T>, ghost h: nat, ghost order: seq<Node<T>>)
    requires Inserting(Snap(s), root.node, c, t, h, order) && c.InLeft? && c.red && c.up.InLeft? && !IsRed(c.up.right)
    requires parent == c.node && gparent == c.up.node
    modifies root`node, s`left, s`right, s`parent, s`red
    ensures Inserting(Snap(s), root.node, InLeft(c.up.up, c.node, false, Bin(c.right, c.up.node, true, c.up.right)),
                      t, h, order)
  {
    hide Inserting, Shape, Nodes, CtxNodes, Linked, CtxLinked, Balanced, CtxBalanced, InOrder, Before, After;
    ghost var m, top := Snap(s), root.node;
    InsertPointers(m, top, c, t, h, order);
    SetBlackRed(parent, gparent, s, Grand(c, t));
    ghost var m1 := Snap(s);
    OuterLeftPaint(m, m1, top, c, t, h, order);
    RotateRight(gparent, root, s);
    OuterLeftStep(m, m1, Snap(s), top, c, t, h, order);
  }

  /** The parent is a left child and its sibling is not red. */
  method InsertLeftSide<T>(node0: Node<T>, parent0: Node<T>, gparent: Node<T>, root: Root<T>, ghost s: set<Node<T>>,
                           ghost c0: Ctx<T>, ghost t0: Tree<T>, ghost h: nat, ghost order: seq<Node<T>>)
    returns (node: Node<T>, ghost c': Ctx<T>, ghost t': Tree<T>)
    requires Inserting(Snap(s), root.node, c0, t0, h, order) && !c0.Top? && c0.red && c0.up.InLeft? && !IsRed(Uncle(c0))
    requires node0 == t0.node && parent0 == c0.node && gparent == c0.up.node
    modifies root`node, s`left, s`right, s`parent, s`red
    ensures Inserting(Snap(s), root.node, c', t', h, order) && t'.Bin? && t'.node == node && Depth(c') == Depth(c0) - 1
  {
    hide Inserting, Shape, Nodes, CtxNodes, Linked, CtxLinked, Balanced, CtxBalanced, InOrder, Before, After;
    ghost var c, t := c0, t0;
    var parent := parent0;
    node := node0;
    InsertPointers(Snap(s), root.node, c, t, h, order);
    if parent.right == node {
      InnerLeftReady(Snap(s), root.node, c, t, h, order);
      ghost var m, top := Snap(s), root.node;
      RotateLeft(parent, root, s);
      InnerLeftStep(m, Snap(s), top, c, t, h, order);
      c, t := InLeft(c.up, t.node, true, t.right), Bin(c.left, c.node, true, t.left);
      parent, node := node, parent;
    }
    TurnLeft(parent, gparent, root, s, c, t, h, order);
    c', t' := InLeft(c.up.up, c.node, false, Bin(c.right, c.up.node, true, c.up.right)), t;
  }

  /** An outer grandchild on the right: repaint and rotate. */
  method TurnRight<T>(parent: Node<T>, gparent: Node<T>, root: Root<T>, ghost s: set<Node<T>>,
                      ghost c: Ctx<T>, ghost t: Tree<T>, ghost h: nat, ghost order: seq<Node<T>>)
    requires Inserting(Snap(s), root.node, c, t, h, order) && c.InRight? && c.red && c.up.InRight? && !IsRed(c.up.left)
    requires parent == c.node && gparent == c.up.node
    modifies root`node, s`left, s`right, s`parent, s`red
    ensures Inserting(Snap(s), root.node, InRight(c.up.up, Bin(c.up.left, c.up.node, true, c.left), c.node, false),
                      t, h, order)
  {
    hide Inserting, Shape, Nodes, CtxNodes, Linked, CtxLinked, Balanced, CtxBalanced, InOrder, Before, After;
    ghost var m, top := Snap(s), root.node;
    InsertPointers(m, top, c, t, h, order);
    SetBlackRed(parent, gparent, s, Grand(c, t));
    ghost var m1 := Snap(s);
    OuterRightPaint(m, m1, top, c, t, h, order);
    RotateLeft(gparent, root, s);
    OuterRightStep(m, m1, Snap(s), top, c, t, h, order);
  }

  /** The parent is a right child and its sibling is not red. */
  method InsertRightSide<T>(node0: Node<T>, parent0: Node<T>, gparent: Node<T>, root: Root<T>, ghost s: set<Node<T>>,
                            ghost c0: Ctx<T>, ghost t0: Tree<T>, ghost h: nat, ghost order: seq<Node<T>>)
    returns (node: Node<T>, ghost c': Ctx<T>, ghost t': Tree<T>)
    requires Inserting(Snap(s), root.node, c0, t0, h, order) && !c0.Top? && c0.red && c0.up.InRight?
    requires !IsRed(Uncle(c0))
    requires node0 == t0.node && parent0 == c0.node && gparent == c0.up.node
    modifies root`node, s`left, s`right, s`parent, s`red
    ensures Inserting(Snap(s), root.node, c', t', h, order) && t'.Bin? && t'.node == node && Depth(c') == Depth(c0) - 1
  {
    hide Inserting, Shape, Nodes, CtxNodes, Linked, CtxLinked, Balanced, CtxBalanced, InOrder, Before, After;
    ghost var c, t := c0, t0;
    var parent := parent0;
    node := node0;
    InsertPointers(Snap(s), root.node, c, t, h, order);
    if parent.left == node {
      InnerRightReady(Snap(s), root.node, c, t, h, order);
      ghost var m, top := Snap(s), root.node;
      RotateRight(parent, root, s);
      InnerRightStep(m, Snap(s), top, c, t, h, order);
      c, t := InRight(c.up, t.left, t.node, true), Bin(t.right, c.node, true, c.right);
      parent, node := node, parent;
    }
    TurnRight(parent, gparent, root, s, c, t, h, order);
    c', t' := InRight(c.up.up, Bin(c.up.left, c.up.node, true, c.left), c.node, false), t;
  }

  /** The loop is over: paint the root black. */
  lemma {:induction false} InsertDone<T>(m: Store<T>, m': Store<T>, top: Node?<T>, c: Ctx<T>, t: Tree<T>, h: nat,
                              order: seq<Node<T>>)
    requires Inserting(m, top, c, t, h, order) && (c.Top? || !c.red)
    requires m'.Keys == m.Keys && forall n :: n in m ==> m'[n] == if n == top then m[n].(red := false) else m[n]
    ensures top != null && top in m
    ensures Shape(m', top, Top, SetRed(Plug(c, t), false)) && RedBlack(SetRed(Plug(c, t), false))
    ensures Nodes(SetRed(Plug(c, t), false)) == m.Keys && InOrder(SetRed(Plug(c, t), false)) == order
  {
    var whole := Plug(c, t);
    Join(m, top, c, t);
    InOrderPlug(c, t);
    assert t.node in Nodes(t);
    assert whole.Bin? && top == whole.node;
    SetRedLinks(m, m', whole, null, false);
    SetRedSame(whole, false);
    BalancedPlug(c, t, h);
    BlackenBalanced(whole);
  }

  lemma {:induction false} BlackenBalanced<T>(t: Tree<T>)
    requires t.Bin? && Balanced(t, BlackHeight(t))
    ensures RedBlack(SetRed(t, false))
  {
    BalancedHeight(SetRed(t, false), if t.red then BlackHeight(t) + 1 else BlackHeight(t));
  }

  /** rb_set_black(root->rb_node) */
  method InsertFinish<T>(root: Root<T>, ghost s: set<Node<T>>, ghost c: Ctx<T>, ghost t: Tree<T>, ghost h: nat,
                         ghost order: seq<Node<T>>)
    returns (ghost tree: Tree<T>)
    requires Inserting(Snap(s), root.node, c, t, h, order) && (c.Top? || !c.red)
    modifies s`red
    ensures Shape(Snap(s), root.node, Top, tree) && RedBlack(tree) && Nodes(tree) == s && InOrder(tree) == order
  {
    hide Inserting, RedBlack, Shape, Plug, InOrder, Nodes, CtxNodes;
    ghost var m, top := Snap(s), root.node;
    ghost var m' := map n | n in m :: if n == top then m[n].(red := false) else m[n];
    InsertDone(m, m', top, c, t, h, order);
    root.node.red := false;
    tree := SetRed(Plug(c, t), false);
    assert Snap(s) == m';
  }

  method InsertColor<T>(node0: Node<T>, root: Root<T>, ghost s: set<Node<T>>,
                        ghost c0: Ctx<T>, ghost t0: Tree<T>, ghost h0: nat)
    returns (ghost tree: Tree<T>)
    requires t0.Bin? && t0.node == node0
    requires Inserting(Snap(s), root.node, c0, t0, h0, Before(c0) + InOrder(t0) + After(c0))
    modifies root`node, s`left, s`right, s`parent, s`red
    ensures Shape(Snap(s), root.node, Top, tree) && RedBlack(tree) && Nodes(tree) == s
    ensures InOrder(tree) == Before(c0) + InOrder(t0) + After(c0)
  {
    hide Inserting, Shape, Paint, Grand, RedBlack, Fill, Nodes, CtxNodes, InOrder, Before, After, Balanced;
    hide CtxBalanced, Linked, CtxLinked;
    ghost var order := Before(c0) + InOrder(t0) + After(c0);
    ghost var c, t, h := c0, t0, h0;
    var node := node0;
    while node.parent != null && node.parent.red
      invariant t.Bin? && t.node == node
      invariant Inserting(Snap(s), root.node, c, t, h, order)
      decreases Depth(c)
    {
      var parent := node.parent;
      InsertPointers(Snap(s), root.node, c, t, h, order);
      var gparent := parent.parent;

      if parent == gparent.left {
        var uncle := gparent.right;
        if uncle != null && uncle.red {
          t := InsertFlip(uncle, parent, gparent, root, s, c, t, h, order);
          node, c, h := gparent, c.up.up, h + 1;
        } else {
          node, c, t := InsertLeftSide(node, parent, gparent, root, s, c, t, h, order);
        }
      } else {
        var uncle := gparent.left;
        if uncle != null && uncle.red {
          t := InsertFlip(uncle, parent, gparent, root, s, c, t, h, order);
          node, c, h := gparent, c.up.up, h + 1;
        } else {
          node, c, t := InsertRightSide(node, parent, gparent, root, s, c, t, h, order);
        }
      }
    }
    InsertPointers(Snap(s), root.node, c, t, h, order);
    tree := InsertFinish(root, s, c, t, h, order);
  }

  // ---------------------------------------------------------------- linking

  /** rb_link_node: `*rb_link` is the slot of `parent` on the given side, or the
      root cell when there is no parent. */
  method LinkNode<T>(node: Node<T>, parent: Node?<T>, left: bool, root: Root<T>, ghost s: set<Node<T>>)
    requires node !in s && (parent != null ==> parent in s)
    modifies root`node, node`parent, node`red, node`left, node`right, s`left, s`right
    ensures Snap(s + {node}) == WithLeaf(old(Snap(s)), node, parent, left)
    ensures root.node == if parent == null then node else old(root.node)
  {
    node.parent := parent;
    node.red := true;
    node.left := null;
    node.right := null;
    if parent == null {
      root.node := node;
    } else if left {
      parent.left := node;
    } else {
      parent.right := node;
    }
  }

  ghost function WithLeaf<T>(m: Store<T>, node: Node<T>, parent: Node?<T>, left: bool): Store<T>
    requires parent != null ==> parent in m
  {
    var m0 :=
      if parent == null then m
      else m[parent := if left then m[parent].(left := node) else m[parent].(right := node)];
    m0[node := Links(parent, true, null, null)]
  }

  lemma {:induction false} LeafFacts<T>(node: Node<T>)
    ensures InOrder(Bin(Nil, node, true, Nil)) == [node] && Nodes(Bin(Nil, node, true, Nil)) == {node}
  {
    assert Nodes(Bin(Nil, node, true, Nil).left) == {};
  }

  lemma {:induction false} LinkedLeaf<T>(m: Store<T>, top: Node?<T>, c: Ctx<T>, node: Node<T>) returns (h: nat)
    requires Shape(m, top, c, Nil) && node !in m && m.Keys == CtxNodes(c) && RedBlack(Plug(c, Nil))
    ensures ParentAt(c, null) != null ==> ParentAt(c, null) in m
    ensures var m' := WithLeaf(m, node, ParentAt(c, null), c.InLeft?);
      Inserting(m', if c.Top? then node else top, c, Bin(Nil, node, true, Nil), h, Before(c) + [node] + After(c))
  {
    var leaf: Tree<T> := Bin(Nil, node, true, Nil);
    var m' := WithLeaf(m, node, ParentAt(c, null), c.InLeft?);
    HoleSet(m, m', c, null, node, top, null);
    h := Unplug(c, Nil);
    LeafFacts(node);
    assert Linked(m', Nil, node) && Linked(m', leaf, ParentAt(c, null));
    assert Distinct(leaf.left) && Distinct(leaf);
  }

  /** Link a node at a free slot and rebalance. */
  method InsertAt<T>(node: Node<T>, parent: Node?<T>, left: bool, root: Root<T>, ghost c: Ctx<T>)
    requires root.Valid() && node !in Nodes(root.tree)
    requires Plug(c, Nil) == root.tree && parent == ParentAt(c, null) && (parent != null ==> left == c.InLeft?)
    modifies root, node`parent, node`red, node`left, node`right
    modifies Nodes(root.tree)`left, Nodes(root.tree)`right, Nodes(root.tree)`parent, Nodes(root.tree)`red
    ensures root.Valid() && Nodes(root.tree) == old(Nodes(root.tree)) + {node}
    ensures InOrder(root.tree) == Before(c) + [node] + After(c)
  {
    hide RedBlack, Shape, CtxNodes, Inserting, InOrder, Before, After, Plug;
    ghost var s := Nodes(root.tree);
    Unjoin(Snap(s), root.node, c, Nil);
    ghost var h := LinkedLeaf(Snap(s), root.node, c, node);
    LinkNode(node, parent, left, root, s);
    ghost var leaf := Bin(Nil, node, true, Nil);
    ghost var tree := InsertColor(node, root, s + {node}, c, leaf, h);
    root.tree := tree;
  }
}
